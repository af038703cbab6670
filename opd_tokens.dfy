/**
 * Extraction of OPD ticket references from pasted free text.
 *
 * `_normalize_opd_tokens` runs `re.findall(r'OPD-\s*\d+', text, re.IGNORECASE)`
 * over a Python 2 byte string, normalizes every match with
 * `strip().upper().replace(' ', '')` and keeps the first occurrence of each
 * normalized token. The regular expression is modelled here as a
 * left-to-right scanner (MatchAt, FindAll); the normalization and the
 * de-duplication as functions; `NormalizeOpdTokens` is the source's two loops.
 */
module OpdTokens {

  import opened Wrappers

  // ---------------------------------------------------------------------
  // Character classes of Python 2 `str` (no LOCALE or UNICODE flag)
  // ---------------------------------------------------------------------

  /** `\s` and `str.isspace`: space, tab, newline, carriage return, vertical tab, form feed. */
  predicate IsWs(c: char) {
    c == ' ' || c == '\t' || c == '\n' || c == '\r' || c == '\U{000B}' || c == '\U{000C}'
  }

  /** `\d`: the ASCII digits only. */
  predicate IsDigit(c: char) {
    '0' <= c <= '9'
  }

  /** `str.upper` on one character: ASCII letters only. */
  function UpperChar(c: char): char {
    if 'a' <= c <= 'z' then (c as int - 32) as char else c
  }

  predicate AllDigits(s: string) {
    forall i | 0 <= i < |s| :: IsDigit(s[i])
  }

  predicate AllWs(s: string) {
    forall i | 0 <= i < |s| :: IsWs(s[i])
  }

  // ---------------------------------------------------------------------
  // The language of the pattern OPD-\s*\d+ (case-insensitive)
  // ---------------------------------------------------------------------

  /** `\s*\d+`: a run of whitespace followed by at least one digit, and nothing else. */
  predicate WsThenDigits(s: string) {
    |s| > 0 && if IsWs(s[0]) then WsThenDigits(s[1..]) else AllDigits(s)
  }

  /** `OPD-` at position i, letters compared case-insensitively. */
  predicate PrefixAt(s: string, i: nat)
    requires i + 4 <= |s|
  {
    UpperChar(s[i]) == 'O' && UpperChar(s[i + 1]) == 'P' && UpperChar(s[i + 2]) == 'D' && s[i + 3] == '-'
  }

  /** The whole of m is matched by the pattern. */
  predicate IsMatch(m: string) {
    |m| >= 4 && PrefixAt(m, 0) && WsThenDigits(m[4..])
  }

  // ---------------------------------------------------------------------
  // The scanner that re.findall performs
  // ---------------------------------------------------------------------

  /** Greedy `\s*` from position j: the first position at or after j that is not whitespace. */
  function SkipWs(s: string, j: nat): (k: nat)
    requires j <= |s|
    ensures j <= k <= |s|
    decreases |s| - j
  {
    if j < |s| && IsWs(s[j]) then SkipWs(s, j + 1) else j
  }

  /** Greedy `\d*` from position j. */
  function SkipDigits(s: string, j: nat): (k: nat)
    requires j <= |s|
    ensures j <= k <= |s|
    decreases |s| - j
  {
    if j < |s| && IsDigit(s[j]) then SkipDigits(s, j + 1) else j
  }

  /** The end of the match that starts at position i, if the pattern matches there. */
  function MatchAt(s: string, i: nat): Option<nat>
    requires i <= |s|
  {
    if i + 4 <= |s| && PrefixAt(s, i) then
      var k := SkipWs(s, i + 4);
      var e := SkipDigits(s, k);
      if k < e then Some(e) else None
    else None
  }

  /** re.findall from position i: on a match take it and resume after it, otherwise retry at i + 1. */
  function FindAll(s: string, i: nat): seq<string>
    requires i <= |s|
    decreases |s| - i
  {
    if i == |s| then []
    else match MatchAt(s, i)
      case Some(e) => [s[i..e]] + FindAll(s, e)
      case None => FindAll(s, i + 1)
  }

  // ---------------------------------------------------------------------
  // Normalization: strip().upper().replace(' ', '')
  // ---------------------------------------------------------------------

  function StripLeft(s: string): string {
    if |s| > 0 && IsWs(s[0]) then StripLeft(s[1..]) else s
  }

  function StripRight(s: string): string {
    if |s| > 0 && IsWs(s[|s| - 1]) then StripRight(s[..|s| - 1]) else s
  }

  function Strip(s: string): string {
    StripRight(StripLeft(s))
  }

  function Upper(s: string): string {
    seq(|s|, i requires 0 <= i < |s| => UpperChar(s[i]))
  }

  /** replace(' ', ''): only the space character is removed. */
  function RemoveSpaces(s: string): string {
    if s == [] then [] else (if s[0] == ' ' then [] else [s[0]]) + RemoveSpaces(s[1..])
  }

  function Normalize(m: string): string {
    RemoveSpaces(Upper(Strip(m)))
  }

  function NormalizeAll(ms: seq<string>): (ts: seq<string>)
    ensures |ts| == |ms|
  {
    seq(|ms|, i requires 0 <= i < |ms| => Normalize(ms[i]))
  }

  // ---------------------------------------------------------------------
  // De-duplication that keeps the first occurrence
  // ---------------------------------------------------------------------

  /** The list with every element that already occurred earlier dropped. */
  function Dedupe(ts: seq<string>): seq<string> {
    if ts == [] then []
    else
      var init := ts[..|ts| - 1];
      if ts[|ts| - 1] in init then Dedupe(init) else Dedupe(init) + [ts[|ts| - 1]]
  }

  predicate Distinct(ts: seq<string>) {
    forall i, j | 0 <= i < j < |ts| :: ts[i] != ts[j]
  }

  /** Index of the first occurrence of x in ts, or |ts| when x does not occur. */
  function FirstIndex(ts: seq<string>, x: string): nat {
    if ts == [] then 0 else if ts[0] == x then 0 else 1 + FirstIndex(ts[1..], x)
  }

  // ---------------------------------------------------------------------
  // The tokenizer
  // ---------------------------------------------------------------------

  /** What `_normalize_opd_tokens` returns for text. */
  function NormalizedTokens(text: string): seq<string> {
    if text == [] then [] else Dedupe(NormalizeAll(FindAll(text, 0)))
  }

  /** A normalized reference: upper-case `OPD-`, then non-space whitespace, then digits. */
  predicate IsToken(t: string) {
    |t| >= 4 && t[..4] == "OPD-" && WsThenDigits(t[4..]) && ' ' !in t
  }

  /** `_normalize_opd_tokens`: the normalizing loop, then the seen/out loop. */
  method NormalizeOpdTokens(text: string) returns (out: seq<string>)
    ensures out == NormalizedTokens(text)
    ensures text == [] ==> out == []
    ensures Distinct(out)
    ensures forall t | t in out :: IsToken(t) && IsDigit(t[|t| - 1])
  {
    if text == [] {
      return [];
    }
    var tokens := NormalizeEach(FindAll(text, 0));
    out := KeepFirstSeen(tokens);
    TokensDistinct(text);
    TokensWellFormed(text);
  }

  /** The first loop of `_normalize_opd_tokens`: strip, upper-case and drop spaces in every match. */
  method NormalizeEach(found: seq<string>) returns (tokens: seq<string>)
    ensures tokens == NormalizeAll(found)
  {
    tokens := [];
    for k := 0 to |found|
      invariant |tokens| == k
      invariant forall j | 0 <= j < k :: tokens[j] == Normalize(found[j])
    {
      tokens := tokens + [Normalize(found[k])];
    }
  }

  /** The second loop of `_normalize_opd_tokens`: keep each token the first time it is seen. */
  method KeepFirstSeen(tokens: seq<string>) returns (out: seq<string>)
    ensures out == Dedupe(tokens)
  {
    var seen: set<string> := {};
    out := [];
    for k := 0 to |tokens|
      invariant out == Dedupe(tokens[..k])
      invariant forall t :: t in seen <==> t in tokens[..k]
    {
      var t := tokens[k];
      DedupeExtend(tokens, k);
      if t !in seen {
        seen := seen + {t};
        out := out + [t];
      }
    }
    assert tokens[..|tokens|] == tokens;
  }

  lemma DedupeExtend(ts: seq<string>, k: nat)
    requires k < |ts|
    ensures Dedupe(ts[..k + 1]) ==
      if ts[k] in ts[..k] then Dedupe(ts[..k]) else Dedupe(ts[..k]) + [ts[k]]
  {
    assert ts[..k + 1][..k] == ts[..k];
  }

  // ---------------------------------------------------------------------
  // Lemmas: the scanner
  // ---------------------------------------------------------------------

  lemma {:induction false} WsThenDigitsOfSplit(w: string, d: string)
    requires AllWs(w) && AllDigits(d) && |d| > 0
    ensures WsThenDigits(w + d)
    decreases |w|
  {
    if |w| == 0 {
      assert w + d == d;
    } else {
      assert (w + d)[1..] == w[1..] + d;
      WsThenDigitsOfSplit(w[1..], d);
    }
  }

  lemma {:induction false} WsThenDigitsChars(s: string)
    requires WsThenDigits(s)
    ensures forall i | 0 <= i < |s| :: IsWs(s[i]) || IsDigit(s[i])
    ensures IsDigit(s[|s| - 1])
    decreases |s|
  {
    if IsWs(s[0]) {
      WsThenDigitsChars(s[1..]);
      forall i | 0 <= i < |s| ensures IsWs(s[i]) || IsDigit(s[i]) {
        if i > 0 { assert s[i] == s[1..][i - 1]; }
      }
      assert s[|s| - 1] == s[1..][|s| - 2];
    }
  }

  lemma {:induction false} SkipWsRun(s: string, j: nat)
    requires j <= |s|
    ensures AllWs(s[j..SkipWs(s, j)])
    ensures SkipWs(s, j) == |s| || !IsWs(s[SkipWs(s, j)])
    decreases |s| - j
  {
    if j < |s| && IsWs(s[j]) {
      SkipWsRun(s, j + 1);
      var k := SkipWs(s, j);
      forall i | 0 <= i < k - j ensures IsWs(s[j..k][i]) {
        if i > 0 { assert s[j..k][i] == s[j + 1..k][i - 1]; }
      }
    }
  }

  lemma {:induction false} SkipDigitsRun(s: string, j: nat)
    requires j <= |s|
    ensures AllDigits(s[j..SkipDigits(s, j)])
    ensures SkipDigits(s, j) == |s| || !IsDigit(s[SkipDigits(s, j)])
    decreases |s| - j
  {
    if j < |s| && IsDigit(s[j]) {
      SkipDigitsRun(s, j + 1);
      var k := SkipDigits(s, j);
      forall i | 0 <= i < k - j ensures IsDigit(s[j..k][i]) {
        if i > 0 { assert s[j..k][i] == s[j + 1..k][i - 1]; }
      }
    }
  }

  /** A match found at i is a whole match of the pattern, and the longest one: no digit follows it. */
  lemma MatchAtSound(s: string, i: nat)
    requires i <= |s|
    ensures MatchAt(s, i).Some? ==>
      var e := MatchAt(s, i).value;
      i < e <= |s| && IsMatch(s[i..e]) && (e == |s| || !IsDigit(s[e]))
  {
    if MatchAt(s, i).Some? {
      var e := MatchAt(s, i).value;
      var k := SkipWs(s, i + 4);
      SkipWsRun(s, i + 4);
      SkipDigitsRun(s, k);
      WsThenDigitsOfSplit(s[i + 4..k], s[k..e]);
      assert s[i + 4..k] + s[k..e] == s[i + 4..e];
      assert s[i..e][4..] == s[i + 4..e];
    }
  }

  lemma {:induction false} SkipWsStopsInsideMatch(s: string, j: nat, e: nat)
    requires j <= e <= |s| && WsThenDigits(s[j..e])
    ensures SkipWs(s, j) < e && AllDigits(s[SkipWs(s, j)..e])
    decreases e - j
  {
    if IsWs(s[j]) {
      assert s[j..e][1..] == s[j + 1..e];
      SkipWsStopsInsideMatch(s, j + 1, e);
    } else {
      assert s[j] == s[j..e][0];
    }
  }

  lemma {:induction false} SkipDigitsPassesRun(s: string, k: nat, e: nat)
    requires k <= e <= |s| && AllDigits(s[k..e])
    ensures e <= SkipDigits(s, k)
    decreases e - k
  {
    if k < e {
      assert s[k] == s[k..e][0];
      assert s[k + 1..e] == s[k..e][1..];
      SkipDigitsPassesRun(s, k + 1, e);
    }
  }

  /** If any text starting at i is a match, MatchAt finds a match there that is at least as long. */
  lemma MatchAtComplete(s: string, i: nat, e: nat)
    requires i <= e <= |s| && IsMatch(s[i..e])
    ensures MatchAt(s, i).Some? && e <= MatchAt(s, i).value
  {
    assert s[i..e][4..] == s[i + 4..e];
    assert PrefixAt(s, i) by {
      assert forall d | 0 <= d < 4 :: s[i..e][d] == s[i + d];
    }
    SkipWsStopsInsideMatch(s, i + 4, e);
    SkipDigitsPassesRun(s, SkipWs(s, i + 4), e);
  }

  /** Every element re.findall returns is a whole match of the pattern. */
  lemma {:induction false} FindAllSound(s: string, i: nat)
    requires i <= |s|
    ensures forall m | m in FindAll(s, i) :: IsMatch(m)
    decreases |s| - i
  {
    if i < |s| {
      MatchAtSound(s, i);
      match MatchAt(s, i)
      case Some(e) => FindAllSound(s, e);
      case None => FindAllSound(s, i + 1);
    }
  }

  /**
   * Every element re.findall returns is a piece of the text: the match the
   * scanner found at some position at or after j, ending before no digit.
   */
  lemma {:induction false} FindAllInText(s: string, j: nat)
    requires j <= |s|
    ensures forall m | m in FindAll(s, j) :: exists i, e | j <= i < e <= |s| ::
      MatchAt(s, i) == Some(e) && m == s[i..e] && (e == |s| || !IsDigit(s[e]))
    decreases |s| - j
  {
    if j < |s| {
      MatchAtSound(s, j);
      match MatchAt(s, j)
      case Some(e1) =>
        FindAllInText(s, e1);
        assert FindAll(s, j) == [s[j..e1]] + FindAll(s, e1);
      case None =>
        FindAllInText(s, j + 1);
    }
  }

  /** No case-insensitive `OPD-` starts strictly inside a match that MatchAt found: the match holds only `OPD-`, whitespace and digits. */
  lemma NoPrefixInsideMatch(s: string, j: nat, i: nat)
    requires j < i <= |s| && MatchAt(s, j).Some? && i < MatchAt(s, j).value
    ensures !(i + 4 <= |s| && PrefixAt(s, i))
  {
    var e := MatchAt(s, j).value;
    MatchAtSound(s, j);
    var m := s[j..e];
    WsThenDigitsChars(m[4..]);
    if i < j + 4 {
      assert s[i] == m[i - j];
    } else {
      assert s[i] == m[4..][i - j - 4];
    }
  }

  /**
   * Every occurrence of the pattern at or after position j is found: re.findall
   * from j returns a match starting at the same position, at least as long.
   */
  lemma {:induction false} FindAllComplete(s: string, j: nat, i: nat, e: nat)
    requires j <= i <= e <= |s| && IsMatch(s[i..e])
    ensures exists e' | e <= e' <= |s| :: s[i..e'] in FindAll(s, j)
    decreases i - j
  {
    if j == i {
      MatchAtComplete(s, i, e);
      var e' := MatchAt(s, i).value;
      assert FindAll(s, i) == [s[i..e']] + FindAll(s, e');
      assert s[i..e'] in FindAll(s, i);
    } else {
      assert PrefixAt(s, i) by {
        assert forall d | 0 <= d < 4 :: s[i..e][d] == s[i + d];
      }
      match MatchAt(s, j)
      case None =>
        FindAllComplete(s, j + 1, i, e);
      case Some(e1) =>
        if e1 <= i {
          FindAllComplete(s, e1, i, e);
          assert FindAll(s, j) == [s[j..e1]] + FindAll(s, e1);
        } else {
          NoPrefixInsideMatch(s, j, i);
          assert false;
        }
    }
  }

  // ---------------------------------------------------------------------
  // Lemmas: normalization
  // ---------------------------------------------------------------------

  lemma {:induction false} RemoveSpacesAppend(a: string, b: string)
    ensures RemoveSpaces(a + b) == RemoveSpaces(a) + RemoveSpaces(b)
    decreases |a|
  {
    if a == [] {
      assert a + b == b;
    } else {
      assert (a + b)[1..] == a[1..] + b;
      RemoveSpacesAppend(a[1..], b);
    }
  }

  /** Removing spaces from `\s*\d+` leaves `\s*\d+` with no space in it. */
  lemma {:induction false} RemoveSpacesKeepsShape(s: string)
    requires WsThenDigits(s)
    ensures WsThenDigits(RemoveSpaces(s)) && ' ' !in RemoveSpaces(s)
    ensures forall c | c in RemoveSpaces(s) :: c in s
    decreases |s|
  {
    if IsWs(s[0]) {
      RemoveSpacesKeepsShape(s[1..]);
      var r := RemoveSpaces(s);
      if s[0] != ' ' {
        assert r == [s[0]] + RemoveSpaces(s[1..]);
        assert r[1..] == RemoveSpaces(s[1..]);
      } else {
        assert r == [] + RemoveSpaces(s[1..]) == RemoveSpaces(s[1..]);
      }
    } else {
      NoSpacesUnchanged(s);
    }
  }

  lemma {:induction false} NoSpacesUnchanged(s: string)
    requires ' ' !in s
    ensures RemoveSpaces(s) == s
    decreases |s|
  {
    if s != [] {
      assert ' ' !in s[1..];
      NoSpacesUnchanged(s[1..]);
    }
  }

  /**
   * The normalization of a match is `OPD-` followed by the text after the dash
   * with its spaces removed: strip removes nothing, upper only touches `opd`.
   */
  lemma NormalizeOfMatch(m: string)
    requires IsMatch(m)
    ensures Normalize(m) == "OPD-" + RemoveSpaces(m[4..])
    ensures IsToken(Normalize(m))
  {
    var tail := m[4..];
    WsThenDigitsChars(tail);
    assert m[|m| - 1] == tail[|tail| - 1];
    assert StripLeft(m) == m;
    assert Strip(m) == m;
    assert Upper(m) == "OPD-" + tail by {
      forall i | 4 <= i < |m| ensures Upper(m)[i] == m[i] {
        assert m[i] == tail[i - 4];
      }
    }
    RemoveSpacesAppend("OPD-", tail);
    assert RemoveSpaces("OPD-") == "OPD-";
    RemoveSpacesKeepsShape(tail);
    var t := Normalize(m);
    assert t[..4] == "OPD-" && t[4..] == RemoveSpaces(tail);
    assert forall c | c in t :: c in "OPD-" || c in RemoveSpaces(tail);
  }

  /**
   * Two matches that differ only in the case of `opd` or in embedded spaces
   * give the same token.
   */
  lemma SpellingsOfOneReference(m1: string, m2: string)
    requires IsMatch(m1) && IsMatch(m2)
    requires RemoveSpaces(m1[4..]) == RemoveSpaces(m2[4..])
    ensures Normalize(m1) == Normalize(m2)
  {
    NormalizeOfMatch(m1);
    NormalizeOfMatch(m2);
  }

  // ---------------------------------------------------------------------
  // Lemmas: de-duplication
  // ---------------------------------------------------------------------

  lemma {:induction false} DedupeElements(ts: seq<string>)
    ensures forall x :: x in Dedupe(ts) <==> x in ts
    decreases |ts|
  {
    if ts != [] {
      var init := ts[..|ts| - 1];
      DedupeElements(init);
      assert ts == init + [ts[|ts| - 1]];
    }
  }

  lemma {:induction false} DedupeDistinct(ts: seq<string>)
    ensures Distinct(Dedupe(ts))
    decreases |ts|
  {
    if ts != [] {
      var init := ts[..|ts| - 1];
      DedupeDistinct(init);
      DedupeElements(init);
    }
  }

  /** Applying Dedupe to a list without repeats changes nothing, so Dedupe is idempotent. */
  lemma {:induction false} DedupeOfDistinct(ts: seq<string>)
    requires Distinct(ts)
    ensures Dedupe(ts) == ts
    decreases |ts|
  {
    if ts != [] {
      var init := ts[..|ts| - 1];
      assert ts[|ts| - 1] !in init;
      DedupeOfDistinct(init);
      assert ts == init + [ts[|ts| - 1]];
    }
  }

  lemma {:induction false} FirstIndexBounds(ts: seq<string>, x: string)
    ensures FirstIndex(ts, x) <= |ts|
    ensures FirstIndex(ts, x) < |ts| <==> x in ts
    ensures FirstIndex(ts, x) < |ts| ==> ts[FirstIndex(ts, x)] == x
    ensures forall i | 0 <= i < FirstIndex(ts, x) :: ts[i] != x
    decreases |ts|
  {
    if ts != [] && ts[0] != x {
      FirstIndexBounds(ts[1..], x);
      assert ts == [ts[0]] + ts[1..];
    }
  }

  lemma FirstIndexOfPrefix(ts: seq<string>, x: string, n: nat)
    requires n <= |ts| && x in ts[..n]
    ensures FirstIndex(ts, x) == FirstIndex(ts[..n], x)
  {
    FirstIndexBounds(ts, x);
    FirstIndexBounds(ts[..n], x);
    var a, b := FirstIndex(ts, x), FirstIndex(ts[..n], x);
    assert ts[..n][b] == ts[b];
  }

  /** Tokens come out in the order of their first occurrence in the input. */
  lemma {:induction false} DedupeFirstSeenOrder(ts: seq<string>)
    ensures forall i, j | 0 <= i < j < |Dedupe(ts)| ::
      FirstIndex(ts, Dedupe(ts)[i]) < FirstIndex(ts, Dedupe(ts)[j]) < |ts|
    decreases |ts|
  {
    if ts != [] {
      var n := |ts| - 1;
      var init := ts[..n];
      var last := ts[n];
      var r := Dedupe(ts);
      var p := Dedupe(init);
      DedupeFirstSeenOrder(init);
      DedupeElements(init);
      forall x | x in p ensures FirstIndex(ts, x) == FirstIndex(init, x) < n {
        FirstIndexOfPrefix(ts, x, n);
        FirstIndexBounds(init, x);
      }
      forall i, j | 0 <= i < j < |p| ensures FirstIndex(ts, p[i]) < FirstIndex(ts, p[j]) < n {
        assert p[i] in p && p[j] in p;
      }
      if last !in init {
        FirstIndexBounds(ts, last);
        assert FirstIndex(ts, last) == n by {
          forall i | 0 <= i < n ensures ts[i] != last {
            assert ts[i] == init[i];
          }
        }
      }
      assert r == if last in init then p else p + [last];
      forall i, j | 0 <= i < j < |r| ensures FirstIndex(ts, r[i]) < FirstIndex(ts, r[j]) < |ts| {
        assert r[i] == p[i];
        if j < |p| {
          assert r[j] == p[j];
        } else {
          assert r[j] == last;
        }
      }
    } else {
      assert Dedupe(ts) == [];
    }
  }

  // ---------------------------------------------------------------------
  // Lemmas: the tokenizer as a whole
  // ---------------------------------------------------------------------

  /** A token is output exactly when it is the normalization of some match re.findall returns. */
  lemma TokensAreNormalizedMatches(text: string)
    ensures forall t :: t in NormalizedTokens(text) <==>
      exists m :: m in FindAll(text, 0) && t == Normalize(m)
  {
    var ms := FindAll(text, 0);
    DedupeElements(NormalizeAll(ms));
    forall t ensures t in NormalizeAll(ms) <==> exists m :: m in ms && t == Normalize(m) {
      if t in NormalizeAll(ms) {
        var i :| 0 <= i < |ms| && NormalizeAll(ms)[i] == t;
        assert ms[i] in ms;
      }
      if exists m :: m in ms && t == Normalize(m) {
        var m :| m in ms && t == Normalize(m);
        var i :| 0 <= i < |ms| && ms[i] == m;
        assert NormalizeAll(ms)[i] == t;
      }
    }
  }

  /**
   * Every occurrence of the pattern in the text yields a token: the normalization
   * of the longest match starting where the occurrence starts.
   */
  lemma TokensCoverEveryMatch(text: string, i: nat, e: nat)
    requires i <= e <= |text| && IsMatch(text[i..e])
    ensures exists e' | e <= e' <= |text| :: Normalize(text[i..e']) in NormalizedTokens(text)
  {
    FindAllComplete(text, 0, i, e);
    var e' :| e <= e' <= |text| && text[i..e'] in FindAll(text, 0);
    TokensAreNormalizedMatches(text);
    assert Normalize(text[i..e']) in NormalizedTokens(text);
  }

  /** Every token comes from the text: it normalizes the match the scanner found at some position. */
  lemma TokensComeFromText(text: string)
    ensures forall t | t in NormalizedTokens(text) :: exists i, e | 0 <= i < e <= |text| ::
      MatchAt(text, i) == Some(e) && t == Normalize(text[i..e])
  {
    if text != [] {
      var ms := FindAll(text, 0);
      DedupeElements(NormalizeAll(ms));
      FindAllInText(text, 0);
      forall t | t in NormalizedTokens(text)
        ensures exists i, e | 0 <= i < e <= |text| :: MatchAt(text, i) == Some(e) && t == Normalize(text[i..e])
      {
        var k :| 0 <= k < |ms| && NormalizeAll(ms)[k] == t;
        assert ms[k] in ms;
        var i, e :| 0 <= i < e <= |text| && MatchAt(text, i) == Some(e) && ms[k] == text[i..e] && (e == |text| || !IsDigit(text[e]));
      }
    }
  }

  lemma TokensDistinct(text: string)
    ensures Distinct(NormalizedTokens(text))
  {
    if text != [] {
      DedupeDistinct(NormalizeAll(FindAll(text, 0)));
    }
  }

  /** Every output token begins with `OPD-`, contains no space and ends with a digit. */
  lemma TokensWellFormed(text: string)
    ensures forall t | t in NormalizedTokens(text) ::
      IsToken(t) && IsDigit(t[|t| - 1])
  {
    if text != [] {
      var ms := FindAll(text, 0);
      FindAllSound(text, 0);
      DedupeElements(NormalizeAll(ms));
      forall t | t in NormalizedTokens(text)
        ensures IsToken(t) && IsDigit(t[|t| - 1])
      {
        var i :| 0 <= i < |ms| && NormalizeAll(ms)[i] == t;
        assert ms[i] in ms;
        NormalizeOfMatch(ms[i]);
        WsThenDigitsChars(t[4..]);
        assert t[|t| - 1] == t[4..][|t| - 5];
      }
    }
  }

  /** Tokens appear in the order in which each first occurs among the normalized matches. */
  lemma TokensInFirstSeenOrder(text: string)
    ensures var ts := NormalizeAll(FindAll(text, 0));
      forall i, j | 0 <= i < j < |NormalizedTokens(text)| ::
        FirstIndex(ts, NormalizedTokens(text)[i]) < FirstIndex(ts, NormalizedTokens(text)[j]) < |ts|
  {
    DedupeFirstSeenOrder(NormalizeAll(FindAll(text, 0)));
  }

  /** The output is its own de-duplication: running the tokenizer's second loop again changes nothing. */
  lemma TokensDedupeIdempotent(text: string)
    ensures Dedupe(NormalizedTokens(text)) == NormalizedTokens(text)
  {
    TokensDistinct(text);
    DedupeOfDistinct(NormalizedTokens(text));
  }

  // ---------------------------------------------------------------------
  // Examples
  // ---------------------------------------------------------------------

  /** The normalization of a match whose text after the dash has no space. */
  lemma NormalizeOfSpacelessMatch(m: string)
    requires IsMatch(m) && ' ' !in m[4..]
    ensures Normalize(m) == "OPD-" + m[4..]
  {
    NormalizeOfMatch(m);
    NoSpacesUnchanged(m[4..]);
  }

  lemma NormalizeAllPair(m1: string, m2: string)
    ensures NormalizeAll([m1, m2]) == [Normalize(m1), Normalize(m2)]
  {
  }

  lemma DedupeRepeatedPair(a: string, b: string)
    requires a == b
    ensures Dedupe([a, b]) == [a]
  {
    var ab := [a, b];
    assert ab[..|ab| - 1] == [a] && ab[|ab| - 1] in [a];
    assert Dedupe(ab) == Dedupe([a]);
    assert [a][..0] == [];
    assert Dedupe([a]) == Dedupe([]) + [a];
  }

  lemma ScanXOpd()
    ensures FindAll("XOPD-12", 0) == ["OPD-12"]
  {
    var text := "XOPD-12";
    assert MatchAt(text, 0) == None;
    assert MatchAt(text, 1) == Some(7);
    assert text[1..7] == "OPD-12";
    assert FindAll(text, 0) == FindAll(text, 1) == [text[1..7]] + FindAll(text, 7);
  }

  lemma ScanOpdTab()
    ensures FindAll("OPD-\t12", 0) == ["OPD-\t12"]
  {
    var text := "OPD-\t12";
    assert MatchAt(text, 0) == Some(7);
    assert text[0..7] == text;
    assert FindAll(text, 0) == [text] + FindAll(text, 7);
  }

  lemma ScanTwoSpellings()
    ensures FindAll("opd- 12,OPD-12", 0) == ["opd- 12", "OPD-12"]
  {
    var text := "opd- 12,OPD-12";
    assert MatchAt(text, 0) == Some(7);
    assert MatchAt(text, 7) == None;
    assert MatchAt(text, 8) == Some(14);
    assert text[0..7] == "opd- 12" && text[8..14] == "OPD-12";
    assert FindAll(text, 8) == [text[8..14]] + FindAll(text, 14);
    assert FindAll(text, 0) == [text[0..7]] + FindAll(text, 7);
  }

  /** There is no word boundary before `OPD`: a letter glued to it does not stop the match. */
  lemma NoWordBoundaryExample()
    ensures NormalizedTokens("XOPD-12") == ["OPD-12"]
  {
    var m := "OPD-12";
    ScanXOpd();
    FindAllSound("XOPD-12", 0);
    assert m in FindAll("XOPD-12", 0);
    assert m[4..] == "12";
    NormalizeOfSpacelessMatch(m);
    assert "OPD-" + m[4..] == m;
    assert NormalizeAll([m]) == [m];
  }

  /** Only the space is removed: a tab between `OPD-` and the digits stays in the token. */
  lemma TabSurvivesExample()
    ensures NormalizedTokens("OPD-\t12") == ["OPD-\t12"]
  {
    var m := "OPD-\t12";
    ScanOpdTab();
    FindAllSound(m, 0);
    assert m in FindAll(m, 0);
    assert m[4..] == "\t12";
    NormalizeOfSpacelessMatch(m);
    assert "OPD-" + m[4..] == m;
    assert NormalizeAll([m]) == [m];
  }

  /** Spellings that differ in case or in spaces give one token, listed once. */
  lemma VariantsCollapseExample()
    ensures NormalizedTokens("opd- 12,OPD-12") == ["OPD-12"]
  {
    var m1, m2 := "opd- 12", "OPD-12";
    ScanTwoSpellings();
    FindAllSound("opd- 12,OPD-12", 0);
    assert m1 in FindAll("opd- 12,OPD-12", 0) && m2 in FindAll("opd- 12,OPD-12", 0);
    assert m2[4..] == "12";
    NormalizeOfSpacelessMatch(m2);
    assert "OPD-" + m2[4..] == m2;
    assert m1[4..] == " 12" && RemoveSpaces(" 12") == RemoveSpaces("12");
    NoSpacesUnchanged("12");
    SpellingsOfOneReference(m1, m2);
    var n1, n2 := Normalize(m1), Normalize(m2);
    assert n1 == m2 && n2 == m2;
    NormalizeAllPair(m1, m2);
    DedupeRepeatedPair(n1, n2);
  }
}
