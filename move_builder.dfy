/**
 * Building the values of one journal entry (account.move) from an OPD ticket:
 * `_prepare_move_vals` and the period lookup `_period_id_for_date` it calls.
 *
 * Tickets and their lines are plain values; the fiscal period search
 * (`account.period.find`) is a function parameter. Every `osv.except_osv`
 * the builder raises is a `Failure` carrying a BuildError.
 */
module MoveBuilder {

  import opened Wrappers

  /** An opd.ticket.entry (the item of a ticket line) with its income account id; 0 stands for an unset account. */
  datatype Entry = Entry(name: string, incomeAccount: nat)

  /** An opd.ticket.line: its item (None when unset) and its amount in cents. */
  datatype TicketLine = TicketLine(entry: Option<Entry>, amount: int)

  /** An opd.ticket; an empty date stands for a missing one. */
  datatype Ticket = Ticket(name: string, date: string, state: string, total: int, lines: seq<TicketLine>)

  /** The wizard settings the builder and the batch read. */
  datatype Wizard = Wizard(onlyConfirmed: bool, includeDraft: bool, cashAccount: nat, journal: nat)

  /** One (0, 0, {...}) entry of line_id: only the fields that vary. */
  datatype MoveLine = MoveLine(name: string, account: nat, debit: int, credit: int)

  /** The dictionary `_prepare_move_vals` returns; a period id of 0 never occurs in a built move. */
  datatype Move = Move(name: string, journal: nat, date: string, period: nat, ref: string, lines: seq<MoveLine>)

  datatype BuildError =
    | TotalNotPositive(ticket: string)
    | NotConfirmed(ticket: string)
    | EmptyDate
    | NoPeriod(date: string, ticket: string)
    | NoIncomeAccount(item: string, ticket: string)
    | NoIncomeLines(ticket: string)

  /** account.period.find: the ids of the periods that contain a day. */
  type PeriodFinder = string -> seq<nat>

  const Confirmed: string := "confirmed"

  // ---------------------------------------------------------------------
  // The fiscal period of a ticket date
  // ---------------------------------------------------------------------

  /** dt[:10]: a datetime string trimmed to its YYYY-MM-DD part. */
  function DayOf(dt: string): string {
    if |dt| <= 10 then dt else dt[..10]
  }

  /** `_period_id_for_date`: the first period id found for the day, 0 (False) when none is. */
  function PeriodIdForDate(dt: string, find: PeriodFinder): Result<nat, BuildError> {
    if dt == [] then Failure(EmptyDate)
    else
      var ids := find(DayOf(dt));
      Success(if |ids| > 0 then ids[0] else 0)
  }

  /** The period lookup fails only on an empty date, and then with EmptyDate. */
  lemma PeriodErrorOnlyForEmptyDate(dt: string, find: PeriodFinder)
    ensures PeriodIdForDate(dt, find).Failure? <==> dt == []
    ensures PeriodIdForDate(dt, find).Failure? ==> PeriodIdForDate(dt, find).error == EmptyDate
  {
  }

  /** Only the YYYY-MM-DD part of the date decides the period: a time of day is ignored. */
  lemma PeriodIgnoresTimeOfDay(dt: string, find: PeriodFinder)
    requires |dt| >= 10
    ensures PeriodIdForDate(dt, find) == PeriodIdForDate(dt[..10], find)
  {
    assert DayOf(dt) == dt[..10] == DayOf(dt[..10]);
  }

  // ---------------------------------------------------------------------
  // Ticket lines
  // ---------------------------------------------------------------------

  /** `l.name and l.name.accounts_id and l.name.accounts_id.id`. */
  predicate HasIncomeAccount(l: TicketLine) {
    l.entry.Some? && l.entry.value.incomeAccount != 0
  }

  /** The item name quoted in the missing-account error: `l.name and l.name.name or 'Unknown'`. */
  function ItemName(l: TicketLine): string {
    if l.entry.Some? && l.entry.value.name != [] then l.entry.value.name else "Unknown"
  }

  /** The debit line for the cash or bank account. */
  function DebitLine(wiz: Wizard, t: Ticket): MoveLine {
    MoveLine(t.name, wiz.cashAccount, t.total, 0)
  }

  /** The credit line for one income line, named after its item or else after the ticket. */
  function CreditLine(ticketName: string, l: TicketLine): MoveLine
    requires HasIncomeAccount(l)
  {
    var e := l.entry.value;
    MoveLine(if e.name != [] then e.name else ticketName, e.incomeAccount, 0, l.amount)
  }

  /** The index of the first line without an income account, if any. */
  function FirstMissingAccount(ls: seq<TicketLine>): (r: Option<nat>)
    ensures r.None? <==> forall j | 0 <= j < |ls| :: HasIncomeAccount(ls[j])
    ensures r.Some? ==> r.value < |ls| && !HasIncomeAccount(ls[r.value])
    ensures r.Some? ==> forall j | 0 <= j < r.value :: HasIncomeAccount(ls[j])
  {
    if ls == [] then None
    else
      var n := |ls| - 1;
      match FirstMissingAccount(ls[..n])
      case Some(i) => Some(i)
      case None => if HasIncomeAccount(ls[n]) then None else Some(n)
  }

  /** The credit lines, one per ticket line with a positive amount, in ticket-line order. */
  function Credits(ticketName: string, ls: seq<TicketLine>): seq<MoveLine>
    requires forall j | 0 <= j < |ls| :: HasIncomeAccount(ls[j])
  {
    if ls == [] then []
    else
      var n := |ls| - 1;
      Credits(ticketName, ls[..n]) + (if ls[n].amount > 0 then [CreditLine(ticketName, ls[n])] else [])
  }

  /** Every credit line credits a positive amount and debits nothing; there are none exactly when no amount is positive. */
  lemma {:induction false} CreditsShape(ticketName: string, ls: seq<TicketLine>)
    requires forall j | 0 <= j < |ls| :: HasIncomeAccount(ls[j])
    ensures |Credits(ticketName, ls)| <= |ls|
    ensures forall k | 0 <= k < |Credits(ticketName, ls)| ::
      Credits(ticketName, ls)[k].debit == 0 && Credits(ticketName, ls)[k].credit > 0
    ensures Credits(ticketName, ls) == [] <==> forall j | 0 <= j < |ls| :: ls[j].amount <= 0
    decreases |ls|
  {
    if ls != [] {
      var n := |ls| - 1;
      CreditsShape(ticketName, ls[..n]);
      assert forall j | 0 <= j < n :: ls[..n][j] == ls[j];
    }
  }

  /** The indices of the lines with a positive amount, in increasing order. */
  function PositiveIndices(ls: seq<TicketLine>): (r: seq<nat>)
    ensures forall k | 0 <= k < |r| :: r[k] < |ls|
  {
    if ls == [] then []
    else
      var n := |ls| - 1;
      PositiveIndices(ls[..n]) + (if ls[n].amount > 0 then [n] else [])
  }

  // ---------------------------------------------------------------------
  // The builder
  // ---------------------------------------------------------------------

  /** What `_prepare_move_vals` returns or raises, its checks taken in the source's order. */
  function MoveVals(wiz: Wizard, t: Ticket, find: PeriodFinder): Result<Move, BuildError> {
    if t.total <= 0 then Failure(TotalNotPositive(t.name))
    else if wiz.onlyConfirmed && t.state != Confirmed then Failure(NotConfirmed(t.name))
    else match PeriodIdForDate(t.date, find)
      case Failure(e) => Failure(e)
      case Success(period) =>
        if period == 0 then Failure(NoPeriod(t.date, t.name))
        else match FirstMissingAccount(t.lines)
          case Some(i) => Failure(NoIncomeAccount(ItemName(t.lines[i]), t.name))
          case None =>
            var credits := Credits(t.name, t.lines);
            if credits == [] then Failure(NoIncomeLines(t.name))
            else Success(Move("/", wiz.journal, t.date, period, t.name, [DebitLine(wiz, t)] + credits))
  }

  /** `_prepare_move_vals`: the checks, then the debit line and the credit-line loop. */
  method PrepareMoveVals(wiz: Wizard, t: Ticket, find: PeriodFinder) returns (r: Result<Move, BuildError>)
    ensures r == MoveVals(wiz, t, find)
  {
    if t.total <= 0 {
      return Failure(TotalNotPositive(t.name));
    }
    if wiz.onlyConfirmed && t.state != Confirmed {
      return Failure(NotConfirmed(t.name));
    }
    var period := PeriodIdForDate(t.date, find);
    if period.Failure? {
      assert MoveVals(wiz, t, find) == Failure(EmptyDate);
      return Failure(period.error);
    }
    if period.value == 0 {
      assert MoveVals(wiz, t, find) == Failure(NoPeriod(t.date, t.name));
      return Failure(NoPeriod(t.date, t.name));
    }
    assert PeriodFound(t.date, find);
    var lines, added := AddIncomeLines(t, [DebitLine(wiz, t)]);
    if lines.Failure? {
      return Failure(lines.error);
    }
    MoveValsAfterChecks(wiz, t, find);
    if !added {
      return Failure(NoIncomeLines(t.name));
    }
    return Success(Move("/", wiz.journal, t.date, period.value, t.name, lines.value));
  }

  /**
   * The loop of `_prepare_move_vals` over the ticket lines: check each line's
   * income account, then append a credit line when its amount is positive.
   */
  method AddIncomeLines(t: Ticket, debit: seq<MoveLine>) returns (r: Result<seq<MoveLine>, BuildError>, added: bool)
    ensures r == match FirstMissingAccount(t.lines)
      case Some(i) => Failure(NoIncomeAccount(ItemName(t.lines[i]), t.name))
      case None => Success(debit + Credits(t.name, t.lines))
    ensures r.Success? ==> (added <==> Credits(t.name, t.lines) != [])
  {
    var lineIds := debit;
    added := false;
    for k := 0 to |t.lines|
      invariant forall j | 0 <= j < k :: HasIncomeAccount(t.lines[j])
      invariant lineIds == debit + Credits(t.name, t.lines[..k])
      invariant added <==> |lineIds| > |debit|
    {
      var l := t.lines[k];
      if !HasIncomeAccount(l) {
        return Failure(NoIncomeAccount(ItemName(l), t.name)), added;
      }
      CreditsExtend(t.name, t.lines, k);
      if l.amount > 0 {
        lineIds := lineIds + [CreditLine(t.name, l)];
        added := true;
      }
    }
    assert t.lines[..|t.lines|] == t.lines;
    return Success(lineIds), added;
  }

  /** Once the ticket-level checks and every line's account check pass, only the credit lines decide. */
  lemma MoveValsAfterChecks(wiz: Wizard, t: Ticket, find: PeriodFinder)
    requires t.total > 0 && (!wiz.onlyConfirmed || t.state == Confirmed) && PeriodFound(t.date, find)
    requires forall j | 0 <= j < |t.lines| :: HasIncomeAccount(t.lines[j])
    ensures var credits := Credits(t.name, t.lines);
      MoveVals(wiz, t, find) ==
        if credits == [] then Failure(NoIncomeLines(t.name))
        else Success(Move("/", wiz.journal, t.date, find(DayOf(t.date))[0], t.name, [DebitLine(wiz, t)] + credits))
  {
  }

  lemma CreditsExtend(ticketName: string, ls: seq<TicketLine>, k: nat)
    requires k < |ls| && forall j | 0 <= j <= k :: HasIncomeAccount(ls[j])
    ensures Credits(ticketName, ls[..k + 1]) ==
      Credits(ticketName, ls[..k]) + (if ls[k].amount > 0 then [CreditLine(ticketName, ls[k])] else [])
  {
    assert ls[..k + 1][..k] == ls[..k];
  }

  // ---------------------------------------------------------------------
  // Lemmas
  // ---------------------------------------------------------------------

  /** A period is found for the date: it is not empty and the search returns a non-zero first id. */
  predicate PeriodFound(dt: string, find: PeriodFinder) {
    dt != [] && |find(DayOf(dt))| > 0 && find(DayOf(dt))[0] != 0
  }

  /** The builder succeeds exactly when every one of its checks passes. */
  lemma MoveValsSucceedsIff(wiz: Wizard, t: Ticket, find: PeriodFinder)
    ensures MoveVals(wiz, t, find).Success? <==>
      && t.total > 0
      && (!wiz.onlyConfirmed || t.state == Confirmed)
      && PeriodFound(t.date, find)
      && (forall j | 0 <= j < |t.lines| :: HasIncomeAccount(t.lines[j]))
      && (exists j | 0 <= j < |t.lines| :: t.lines[j].amount > 0)
  {
    if t.total > 0 && (!wiz.onlyConfirmed || t.state == Confirmed) && PeriodFound(t.date, find)
       && FirstMissingAccount(t.lines).None? {
      CreditsShape(t.name, t.lines);
    }
  }

  /** A ticket whose total is not positive is rejected before its state, date or lines are looked at. */
  lemma TotalCheckedFirst(wiz: Wizard, t: Ticket, find: PeriodFinder)
    requires t.total <= 0
    ensures MoveVals(wiz, t, find) == Failure(TotalNotPositive(t.name))
  {
  }

  /** With only_confirmed set, a ticket with a positive total that is not confirmed is rejected. */
  lemma UnconfirmedRejected(wiz: Wizard, t: Ticket, find: PeriodFinder)
    requires t.total > 0 && wiz.onlyConfirmed && t.state != Confirmed
    ensures MoveVals(wiz, t, find) == Failure(NotConfirmed(t.name))
  {
  }

  /** With only_confirmed unset, the ticket state is never examined. */
  lemma StateIgnoredUnlessOnlyConfirmed(wiz: Wizard, t: Ticket, state: string, find: PeriodFinder)
    requires !wiz.onlyConfirmed
    ensures MoveVals(wiz, t, find) == MoveVals(wiz, t.(state := state), find)
  {
  }

  /**
   * A line without an income account makes the builder fail even when its
   * amount is not positive, provided the earlier checks and lines pass.
   */
  lemma AccountCheckedBeforeAmount(wiz: Wizard, t: Ticket, find: PeriodFinder, k: nat)
    requires t.total > 0 && (!wiz.onlyConfirmed || t.state == Confirmed) && PeriodFound(t.date, find)
    requires k < |t.lines| && !HasIncomeAccount(t.lines[k])
    requires forall j | 0 <= j < k :: HasIncomeAccount(t.lines[j])
    ensures MoveVals(wiz, t, find) == Failure(NoIncomeAccount(ItemName(t.lines[k]), t.name))
  {
    var r := FirstMissingAccount(t.lines);
    assert r.Some?;
    assert r.value == k;
  }

  /** When every line has an account but none has a positive amount, the builder fails with NoIncomeLines. */
  lemma NoIncomeLinesWithoutPositiveAmount(wiz: Wizard, t: Ticket, find: PeriodFinder)
    requires t.total > 0 && (!wiz.onlyConfirmed || t.state == Confirmed) && PeriodFound(t.date, find)
    requires forall j | 0 <= j < |t.lines| :: HasIncomeAccount(t.lines[j]) && t.lines[j].amount <= 0
    ensures MoveVals(wiz, t, find) == Failure(NoIncomeLines(t.name))
  {
    CreditsShape(t.name, t.lines);
  }

  /** PositiveIndices lists, in increasing order, exactly the lines with a positive amount. */
  lemma {:induction false} PositiveIndicesExact(ls: seq<TicketLine>)
    ensures forall a, b | 0 <= a < b < |PositiveIndices(ls)| :: PositiveIndices(ls)[a] < PositiveIndices(ls)[b]
    ensures forall i | 0 <= i < |ls| :: i in PositiveIndices(ls) <==> ls[i].amount > 0
    decreases |ls|
  {
    if ls != [] {
      var n := |ls| - 1;
      PositiveIndicesExact(ls[..n]);
      forall i | 0 <= i < n ensures ls[..n][i] == ls[i] { }
    }
  }

  /** The k-th credit line is the credit line of the k-th line with a positive amount. */
  lemma {:induction false} CreditsFollowPositiveLines(ticketName: string, ls: seq<TicketLine>)
    requires forall j | 0 <= j < |ls| :: HasIncomeAccount(ls[j])
    ensures |Credits(ticketName, ls)| == |PositiveIndices(ls)|
    ensures forall k | 0 <= k < |PositiveIndices(ls)| ::
      Credits(ticketName, ls)[k] == CreditLine(ticketName, ls[PositiveIndices(ls)[k]])
    decreases |ls|
  {
    if ls != [] {
      var n := |ls| - 1;
      var init := ls[..n];
      CreditsFollowPositiveLines(ticketName, init);
      var c, pi := Credits(ticketName, ls), PositiveIndices(ls);
      var c0, pi0 := Credits(ticketName, init), PositiveIndices(init);
      assert |c0| == |pi0|;
      forall k | 0 <= k < |pi| ensures c[k] == CreditLine(ticketName, ls[pi[k]]) {
        if k < |pi0| {
          assert c[k] == c0[k] && pi[k] == pi0[k];
          assert ls[pi0[k]] == init[pi0[k]];
        } else {
          assert ls[n].amount > 0 && pi[k] == n;
        }
      }
    }
  }

  /**
   * A built move: name '/', the wizard's journal, the ticket's date and name
   * as date and ref, the found period; first the debit of the ticket total on
   * the cash account, then one credit line per positive ticket line, in order.
   */
  lemma MoveValsShape(wiz: Wizard, t: Ticket, find: PeriodFinder)
    requires MoveVals(wiz, t, find).Success?
    ensures var m := MoveVals(wiz, t, find).value;
      && m.name == "/" && m.journal == wiz.journal && m.date == t.date && m.ref == t.name
      && PeriodFound(t.date, find) && m.period == find(DayOf(t.date))[0]
      && m.lines[0] == MoveLine(t.name, wiz.cashAccount, t.total, 0)
      && |m.lines| == 1 + |PositiveIndices(t.lines)| >= 2
      && (forall k | 0 <= k < |PositiveIndices(t.lines)| ::
            var l := t.lines[PositiveIndices(t.lines)[k]];
            && HasIncomeAccount(l) && l.amount > 0
            && m.lines[k + 1] == MoveLine(
                 if l.entry.value.name != [] then l.entry.value.name else t.name,
                 l.entry.value.incomeAccount, 0, l.amount))
  {
    CreditsFollowPositiveLines(t.name, t.lines);
    PositiveIndicesExact(t.lines);
    var m := MoveVals(wiz, t, find).value;
    var credits := Credits(t.name, t.lines);
    assert m.lines == [DebitLine(wiz, t)] + credits;
    forall k | 0 <= k < |PositiveIndices(t.lines)|
      ensures m.lines[k + 1] == credits[k]
      ensures t.lines[PositiveIndices(t.lines)[k]].amount > 0
    {
      assert PositiveIndices(t.lines)[k] in PositiveIndices(t.lines);
    }
  }
}
