/**
 * The wizard's button action `action_generate`: tokenize the pasted list,
 * then for each reference look the ticket up, skip it when a journal entry
 * for it already exists (`_move_exists`), otherwise build, create and post
 * its entry, and tally every reference into exactly one outcome.
 *
 * The ORM collaborators are parameters: the ticket search and browse
 * (`lookup`), the period search (`find`) and account.move create followed by
 * button_validate (`post`, true when both succeed). The account.move table is
 * the value `moves`, which a successful post extends by one posted move.
 */
module BatchGenerate {

  import opened Wrappers
  import opened OpdTokens
  import opened MoveBuilder

  datatype MoveState = Draft | Posted

  /** A row of account.move: the values it was created from and its state. */
  datatype StoredMove = StoredMove(vals: Move, state: MoveState)

  /** One term of an ORM search domain over account.move. */
  datatype Condition = RefIs(ref: string) | StateIs(state: MoveState)

  predicate Satisfies(m: StoredMove, c: Condition) {
    match c
    case RefIs(r) => m.vals.ref == r
    case StateIs(st) => m.state == st
  }

  /** `search(dom, limit=1)` is non-empty: some move satisfies every term of the domain. */
  predicate SearchFinds(moves: seq<StoredMove>, dom: seq<Condition>) {
    exists i | 0 <= i < |moves| :: forall c | c in dom :: Satisfies(moves[i], c)
  }

  /** A journal entry counts as existing for ref: any move with that ref when drafts count, a posted one otherwise. */
  predicate HasExistingMove(moves: seq<StoredMove>, ref: string, includeDraft: bool) {
    exists i | 0 <= i < |moves| :: moves[i].vals.ref == ref && (includeDraft || moves[i].state == Posted)
  }

  /** `_move_exists`: build the search domain, then search. */
  method MoveExists(moves: seq<StoredMove>, ref: string, includeDraft: bool) returns (b: bool)
    ensures b == HasExistingMove(moves, ref, includeDraft)
  {
    var dom := [RefIs(ref)];
    if !includeDraft {
      dom := dom + [StateIs(Posted)];
    }
    b := SearchFinds(moves, dom);
    if b {
      var i :| 0 <= i < |moves| && forall c | c in dom :: Satisfies(moves[i], c);
      assert Satisfies(moves[i], dom[0]);
      if !includeDraft {
        assert Satisfies(moves[i], dom[1]);
      }
    }
  }

  /** A reference whose only moves are drafts counts as existing exactly when include_draft is set. */
  lemma DraftCountsOnlyWithIncludeDraft(moves: seq<StoredMove>, ref: string, includeDraft: bool)
    requires exists i | 0 <= i < |moves| :: moves[i].vals.ref == ref
    requires forall i | 0 <= i < |moves| && moves[i].vals.ref == ref :: moves[i].state == Draft
    ensures HasExistingMove(moves, ref, includeDraft) <==> includeDraft
  {
  }

  // ---------------------------------------------------------------------
  // The batch
  // ---------------------------------------------------------------------

  /** The ORM calls the batch makes, as functions. */
  datatype Collaborators = Collaborators(
    lookup: string -> Option<Ticket>,
    find: PeriodFinder,
    post: Move -> bool)

  /** Why a reference ended in the errors list. */
  datatype ErrorReason = BuildFailed(cause: BuildError) | PostFailed

  /** The batch's running state: the two counters, the two lists, and the account.move table. */
  datatype Tally = Tally(
    created: nat,
    skippedExisting: nat,
    notFound: seq<string>,
    errors: seq<(string, ErrorReason)>,
    moves: seq<StoredMove>)

  /** How many references the tally has accounted for. */
  function Handled(s: Tally): nat {
    s.created + s.skippedExisting + |s.notFound| + |s.errors|
  }

  /** One iteration of the loop in `action_generate`. */
  function Step(wiz: Wizard, env: Collaborators, s: Tally, ref: string): Tally {
    match env.lookup(ref)
    case None => s.(notFound := s.notFound + [ref])
    case Some(t) =>
      if HasExistingMove(s.moves, t.name, wiz.includeDraft) then s.(skippedExisting := s.skippedExisting + 1)
      else match MoveVals(wiz, t, env.find)
        case Failure(e) => s.(errors := s.errors + [(ref, BuildFailed(e))])
        case Success(m) =>
          if env.post(m) then s.(created := s.created + 1, moves := s.moves + [StoredMove(m, Posted)])
          else s.(errors := s.errors + [(ref, PostFailed)])
  }

  /** The tally after the loop has processed refs, starting from the table moves0. */
  function Run(wiz: Wizard, env: Collaborators, moves0: seq<StoredMove>, refs: seq<string>): Tally {
    if refs == [] then Tally(0, 0, [], [], moves0)
    else Step(wiz, env, Run(wiz, env, moves0, refs[..|refs| - 1]), refs[|refs| - 1])
  }

  datatype GenerateError = NoValidReferences

  /**
   * `action_generate`: an empty reference list is rejected up front;
   * otherwise every reference lands in exactly one of created,
   * skipped_existing, not_found and errors.
   */
  method ActionGenerate(wiz: Wizard, env: Collaborators, opdList: string, moves0: seq<StoredMove>)
    returns (r: Result<Tally, GenerateError>)
    ensures r.Failure? <==> NormalizedTokens(opdList) == []
    ensures r.Success? ==> r.value == Run(wiz, env, moves0, NormalizedTokens(opdList))
    ensures r.Success? ==> Handled(r.value) == |NormalizedTokens(opdList)|
    ensures r.Success? ==> |r.value.moves| == |moves0| + r.value.created
    ensures r.Success? ==> r.value.moves[..|moves0|] == moves0
  {
    var opdRefs := NormalizeOpdTokens(opdList);
    if opdRefs == [] {
      return Failure(NoValidReferences);
    }
    var created, skippedExisting := 0, 0;
    var notFound: seq<string> := [];
    var errors: seq<(string, ErrorReason)> := [];
    var moves := moves0;
    for i := 0 to |opdRefs|
      invariant Tally(created, skippedExisting, notFound, errors, moves) == Run(wiz, env, moves0, opdRefs[..i])
    {
      var opdRef := opdRefs[i];
      ghost var before := Tally(created, skippedExisting, notFound, errors, moves);
      RunExtend(wiz, env, moves0, opdRefs, i);
      var ticket := env.lookup(opdRef);
      if ticket.None? {
        notFound := notFound + [opdRef];
      } else {
        var t := ticket.value;
        var moveExists := MoveExists(moves, t.name, wiz.includeDraft);
        if moveExists {
          ExistingMoveIsSkipped(wiz, env, before, opdRef, t);
          skippedExisting := skippedExisting + 1;
        } else {
          var moveVals := PrepareMoveVals(wiz, t, env.find);
          if moveVals.Failure? {
            BuildErrorIsRecorded(wiz, env, before, opdRef, t);
            errors := errors + [(opdRef, BuildFailed(moveVals.error))];
          } else if !env.post(moveVals.value) {
            PostOutcome(wiz, env, before, opdRef, t);
            errors := errors + [(opdRef, PostFailed)];
          } else {
            PostOutcome(wiz, env, before, opdRef, t);
            moves := moves + [StoredMove(moveVals.value, Posted)];
            created := created + 1;
          }
        }
      }
    }
    assert opdRefs[..|opdRefs|] == opdRefs;
    RunAccountsForEveryRef(wiz, env, moves0, opdRefs);
    return Success(Tally(created, skippedExisting, notFound, errors, moves));
  }

  // ---------------------------------------------------------------------
  // Lemmas
  // ---------------------------------------------------------------------

  /** One iteration changes exactly one of the four outcomes, by one reference. */
  lemma StepHandlesOneRef(wiz: Wizard, env: Collaborators, s: Tally, ref: string)
    ensures var s' := Step(wiz, env, s, ref);
      || s' == s.(notFound := s.notFound + [ref])
      || s' == s.(skippedExisting := s.skippedExisting + 1)
      || (exists why :: s' == s.(errors := s.errors + [(ref, why)]))
      || (exists m :: s' == s.(created := s.created + 1, moves := s.moves + [StoredMove(m, Posted)]))
  {
    var s' := Step(wiz, env, s, ref);
    match env.lookup(ref)
    case None =>
    case Some(t) =>
      if !HasExistingMove(s.moves, t.name, wiz.includeDraft) {
        match MoveVals(wiz, t, env.find)
        case Failure(e) =>
          assert s' == s.(errors := s.errors + [(ref, BuildFailed(e))]);
        case Success(m) =>
          if env.post(m) {
            assert s' == s.(created := s.created + 1, moves := s.moves + [StoredMove(m, Posted)]);
          } else {
            assert s' == s.(errors := s.errors + [(ref, PostFailed)]);
          }
      }
  }

  /**
   * Every reference is accounted for exactly once, and the table only grows,
   * by one posted move per created entry.
   */
  lemma {:induction false} RunAccountsForEveryRef(wiz: Wizard, env: Collaborators, moves0: seq<StoredMove>, refs: seq<string>)
    ensures var s := Run(wiz, env, moves0, refs);
      && Handled(s) == |refs|
      && |s.moves| == |moves0| + s.created
      && s.moves[..|moves0|] == moves0
      && forall i | |moves0| <= i < |s.moves| :: s.moves[i].state == Posted
    decreases |refs|
  {
    if refs != [] {
      var init := refs[..|refs| - 1];
      RunAccountsForEveryRef(wiz, env, moves0, init);
      var p := Run(wiz, env, moves0, init);
      StepHandlesOneRef(wiz, env, p, refs[|refs| - 1]);
      var s := Run(wiz, env, moves0, refs);
      if s.moves != p.moves {
        assert s.moves[..|p.moves|] == p.moves;
        assert s.moves[..|moves0|] == p.moves[..|moves0|];
      }
    }
  }

  lemma RunExtend(wiz: Wizard, env: Collaborators, moves0: seq<StoredMove>, refs: seq<string>, i: nat)
    requires i < |refs|
    ensures Run(wiz, env, moves0, refs[..i + 1]) == Step(wiz, env, Run(wiz, env, moves0, refs[..i]), refs[i])
  {
    assert refs[..i + 1][..i] == refs[..i];
  }

  /** A built entry is created when posting succeeds and recorded as an error otherwise. */
  lemma PostOutcome(wiz: Wizard, env: Collaborators, s: Tally, ref: string, t: Ticket)
    requires env.lookup(ref) == Some(t) && !HasExistingMove(s.moves, t.name, wiz.includeDraft)
    requires MoveVals(wiz, t, env.find).Success?
    ensures var m := MoveVals(wiz, t, env.find).value;
      Step(wiz, env, s, ref) ==
        if env.post(m) then s.(created := s.created + 1, moves := s.moves + [StoredMove(m, Posted)])
        else s.(errors := s.errors + [(ref, PostFailed)])
  {
  }

  /** A ticket that already has a journal entry is counted as skipped and never reaches create. */
  lemma ExistingMoveIsSkipped(wiz: Wizard, env: Collaborators, s: Tally, ref: string, t: Ticket)
    requires env.lookup(ref) == Some(t) && HasExistingMove(s.moves, t.name, wiz.includeDraft)
    ensures Step(wiz, env, s, ref) == s.(skippedExisting := s.skippedExisting + 1)
  {
  }

  /** A ticket the builder rejects (zero total, not confirmed, ...) is recorded as an error and the batch goes on. */
  lemma BuildErrorIsRecorded(wiz: Wizard, env: Collaborators, s: Tally, ref: string, t: Ticket)
    requires env.lookup(ref) == Some(t) && !HasExistingMove(s.moves, t.name, wiz.includeDraft)
    requires MoveVals(wiz, t, env.find).Failure?
    ensures Step(wiz, env, s, ref) == s.(errors := s.errors + [(ref, BuildFailed(MoveVals(wiz, t, env.find).error))])
  {
  }

  /** No two posted moves share a ref. */
  predicate AtMostOnePostedPerRef(moves: seq<StoredMove>) {
    forall i, j | 0 <= i < j < |moves| && moves[i].state == Posted && moves[j].state == Posted ::
      moves[i].vals.ref != moves[j].vals.ref
  }

  /** The batch never posts a second journal entry for a ticket that already has a posted one. */
  lemma {:induction false} RunKeepsOnePostedPerRef(wiz: Wizard, env: Collaborators, moves0: seq<StoredMove>, refs: seq<string>)
    requires AtMostOnePostedPerRef(moves0)
    ensures AtMostOnePostedPerRef(Run(wiz, env, moves0, refs).moves)
    decreases |refs|
  {
    if refs != [] {
      var init := refs[..|refs| - 1];
      var ref := refs[|refs| - 1];
      RunKeepsOnePostedPerRef(wiz, env, moves0, init);
      var p := Run(wiz, env, moves0, init);
      match env.lookup(ref)
      case None =>
      case Some(t) =>
        if !HasExistingMove(p.moves, t.name, wiz.includeDraft) && MoveVals(wiz, t, env.find).Success? {
          var m := MoveVals(wiz, t, env.find).value;
          MoveValsShape(wiz, t, env.find);
          if env.post(m) {
            var ms := p.moves + [StoredMove(m, Posted)];
            forall i | 0 <= i < |p.moves| && p.moves[i].state == Posted ensures p.moves[i].vals.ref != m.ref {
              assert p.moves[i].vals.ref != t.name;
            }
            assert Run(wiz, env, moves0, refs).moves == ms;
          }
        }
    }
  }
}
