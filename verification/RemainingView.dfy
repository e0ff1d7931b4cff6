/**
  What is left of a reservation or a commitment: the view's aggregate over links, and its meaning,
  the amount less the releases that have not been reversed.
 */
module RemainingView {
  import opened Collections
  import opened Wrappers
  import opened Ledger
  import opened LedgerTotals

  predicate ReleaseOf(e: Entry, r: Entry) { e.org == r.org && e.releases == Some(r.id) }

  /** The view's subquery: is that the identifier of a release of r? */
  predicate ReleaseId(ledger: seq<Entry>, r: Entry, id: Option<nat>) {
    exists d :: 0 <= d < |ledger| && ReleaseOf(ledger[d], r) && id == Some(ledger[d].id)
  }

  /** The rows the view sums for r: its releases and what reverses them. */
  predicate Counted(ledger: seq<Entry>, r: Entry, e: Entry) {
    e.org == r.org && (e.releases == Some(r.id) || ReleaseId(ledger, r, e.reverses))
  }

  function CountedAmount(ledger: seq<Entry>, r: Entry, j: nat): int
    requires j < |ledger|
  {
    if Counted(ledger, r, ledger[j]) then ledger[j].amount else 0
  }

  function CountedAmounts(ledger: seq<Entry>, r: Entry): int -> int {
    (j: int) => if 0 <= j < |ledger| then CountedAmount(ledger, r, j) else 0
  }

  function Released(ledger: seq<Entry>, r: Entry): int { Sum(CountedAmounts(ledger, r), |ledger|) }

  predicate ReversedInOrg(ledger: seq<Entry>, r: Entry) {
    exists v :: 0 <= v < |ledger| && ledger[v].org == r.org && ledger[v].reverses == Some(r.id)
  }

  predicate Held(e: Entry) { e.kind in {Reservation, Commitment} }

  /** The view's column, the same expression for reservations and for commitments. */
  function Remaining(ledger: seq<Entry>, r: Entry): int {
    if ReversedInOrg(ledger, r) then 0 else r.amount + Released(ledger, r)
  }

  // ------------------------------------------------------------------------- meaning

  /** What a release still takes: its amount until something reverses it. */
  function OpenAmount(ledger: seq<Entry>, r: Entry, j: nat): int
    requires j < |ledger|
  {
    if ReleaseOf(ledger[j], r) && Reverser(ledger, j) < 0 then ledger[j].amount else 0
  }

  function OpenAmounts(ledger: seq<Entry>, r: Entry): int -> int {
    (j: int) => if 0 <= j < |ledger| then OpenAmount(ledger, r, j) else 0
  }

  function OpenReleases(ledger: seq<Entry>, r: Entry): int {
    Sum(OpenAmounts(ledger, r), |ledger|)
  }

  /** Is the appended row one the view will count for r? */
  predicate Moves(ledger: seq<Entry>, r: Entry, e: Entry) {
    && e.org == r.org
    && (|| e.releases == Some(r.id)
        || exists d :: 0 <= d < |ledger| && ledger[d].org == r.org
                       && ledger[d].releases == Some(r.id) && e.reverses == Some(ledger[d].id))
  }

  lemma MovesCounted(ledger: seq<Entry>, r: Entry, e: Entry)
    ensures Moves(ledger, r, e) <==>
              ReleaseOf(e, r) || (e.org == r.org && ReleaseId(ledger, r, e.reverses))
  {
    if d :| 0 <= d < |ledger| && ledger[d].org == r.org && ledger[d].releases == Some(r.id)
            && e.reverses == Some(ledger[d].id) {
      assert ReleaseOf(ledger[d], r);
    }
  }

  // ------------------------------------------------------------------------- appending

  /** A link is to an entry already there, so a later row never adds to what it links to. */
  lemma LinksAreOld(ledger: seq<Entry>, e: Entry, j: nat)
    requires Reachable(ledger) && Permitted(ledger, e) && j < |ledger|
    ensures ledger[j].reverses != Some(e.id) && ledger[j].releases != Some(e.id)
  {
    assert Permitted(ledger[..j], ledger[j]);
    forall i | 0 <= i < j ensures ledger[..j][i].id != e.id { assert ledger[..j][i] == ledger[i]; }
    assert ledger[j].id != e.id;
  }

  lemma CountedAppend(ledger: seq<Entry>, r: Entry, e: Entry, j: nat)
    requires Reachable(ledger) && Permitted(ledger, e) && j < |ledger|
    ensures CountedAmount(ledger + [e], r, j) == CountedAmount(ledger, r, j)
  {
    LinksAreOld(ledger, e, j);
    ReleaseIdAppend(ledger, r, e, ledger[j].reverses);
  }

  lemma ReleaseIdAppend(ledger: seq<Entry>, r: Entry, e: Entry, id: Option<nat>)
    requires id != Some(e.id)
    ensures ReleaseId(ledger + [e], r, id) <==> ReleaseId(ledger, r, id)
  {
    var more := ledger + [e];
    if d :| 0 <= d < |ledger| && ReleaseOf(ledger[d], r) && id == Some(ledger[d].id) {
      assert more[d] == ledger[d];
    }
  }

  lemma ReleasedAppend(ledger: seq<Entry>, r: Entry, e: Entry)
    requires Reachable(ledger) && Permitted(ledger, e)
    ensures Released(ledger + [e], r) ==
              Released(ledger, r) + if Moves(ledger, r, e) then e.amount else 0
  {
    var more := ledger + [e];
    forall j | 0 <= j < |ledger| ensures CountedAmount(more, r, j) == CountedAmount(ledger, r, j) {
      CountedAppend(ledger, r, e, j);
    }
    SumSame(CountedAmounts(ledger, r), CountedAmounts(more, r), |ledger|);
    OwnReversal(ledger, e);
    ReleaseIdAppend(ledger, r, e, e.reverses);
  }

  lemma OwnReversal(ledger: seq<Entry>, e: Entry)
    requires Permitted(ledger, e)
    ensures e.reverses != Some(e.id)
  {
  }

  lemma OpenAppend(ledger: seq<Entry>, r: Entry, e: Entry, j: nat)
    requires Reachable(ledger) && Permitted(ledger, e) && j < |ledger|
    ensures OpenAmount(ledger + [e], r, j) ==
              if e.reverses == Some(ledger[j].id) then 0 else OpenAmount(ledger, r, j)
  {
    ReverserAppend(ledger, e, ledger[j].id, j + 1);
    assert (ledger + [e])[j] == ledger[j];
  }

  lemma OpenLast(ledger: seq<Entry>, r: Entry, e: Entry)
    ensures OpenAmount(ledger + [e], r, |ledger|) == if ReleaseOf(e, r) then e.amount else 0
  {
    assert Reverser(ledger + [e], |ledger|) == -1;
  }

  lemma OpenReleasesAppend(ledger: seq<Entry>, r: Entry, e: Entry)
    requires Reachable(ledger) && Permitted(ledger, e) && e.reverses.None?
    ensures OpenReleases(ledger + [e], r) ==
              OpenReleases(ledger, r) + if Moves(ledger, r, e) then e.amount else 0
  {
    var more := ledger + [e];
    forall j | 0 <= j < |ledger| ensures OpenAmount(more, r, j) == OpenAmount(ledger, r, j) {
      OpenAppend(ledger, r, e, j);
    }
    SumSame(OpenAmounts(ledger, r), OpenAmounts(more, r), |ledger|);
    OpenLast(ledger, r, e);
  }

  lemma OpenReversalAppend(ledger: seq<Entry>, r: Entry, e: Entry)
    requires Reachable(ledger) && Permitted(ledger, e) && e.reverses.Some? && ReleaseLinkOk(e)
    ensures OpenReleases(ledger + [e], r) ==
              OpenReleases(ledger, r) + if Moves(ledger, r, e) then e.amount else 0
  {
    var t := ReversedEnd(ledger, e);
    ReversedRelease(ledger, r, e, t);
    forall j | 0 <= j < |ledger| && j != t
      ensures OpenAmount(ledger + [e], r, j) == OpenAmount(ledger, r, j)
    {
      UniqueIds(ledger, j, t);
      OpenAppend(ledger, r, e, j);
    }
    OpenSums(ledger, r, e, t);
    OpenAppend(ledger, r, e, t);
    OpenLast(ledger, r, e);
    assert OpenAmount(ledger, r, t) == if ReleaseOf(ledger[t], r) then ledger[t].amount else 0;
  }

  lemma OpenSums(ledger: seq<Entry>, r: Entry, e: Entry, t: nat)
    requires t < |ledger|
    requires forall j :: 0 <= j < |ledger| && j != t ==>
                           OpenAmount(ledger + [e], r, j) == OpenAmount(ledger, r, j)
    ensures OpenReleases(ledger + [e], r) ==
              OpenReleases(ledger, r) + OpenAmount(ledger + [e], r, |ledger|)
                + OpenAmount(ledger + [e], r, t) - OpenAmount(ledger, r, t)
  {
    SumChange(OpenAmounts(ledger, r), OpenAmounts(ledger + [e], r), t, |ledger|);
  }

  lemma ReversedRelease(ledger: seq<Entry>, r: Entry, e: Entry, t: nat)
    requires Reachable(ledger) && RowOk(e) && ReleaseLinkOk(e) && t < |ledger|
    requires e.reverses == Some(ledger[t].id) && Negates(e, ledger[t])
    ensures !ReleaseOf(e, r)
    ensures Moves(ledger, r, e) <==> ReleaseOf(ledger[t], r)
  {
    if d :| 0 <= d < |ledger| && ReleaseOf(ledger[d], r) && e.reverses == Some(ledger[d].id) {
      if d != t { UniqueIds(ledger, d, t); }
    }
  }

  // ------------------------------------------------------------------------- results

  /** In every reachable ledger the view's aggregate is the sum of the releases nothing reverses. */
  lemma {:induction false} ReleasedMeansOpen(ledger: seq<Entry>, r: Entry)
    requires Reachable(ledger) && Linked(ledger)
    ensures Released(ledger, r) == OpenReleases(ledger, r)
    decreases |ledger|
  {
    if ledger != [] {
      var before, e := ledger[..|ledger| - 1], ledger[|ledger| - 1];
      assert ledger == before + [e] && Linked(before) && ReleaseLinkOk(e);
      ReachableAppend(before, e);
      ReleasedMeansOpen(before, r);
      ReleasedAppend(before, r, e);
      if e.reverses.None? {
        OpenReleasesAppend(before, r, e);
      } else {
        OpenReversalAppend(before, r, e);
      }
    }
  }

  /** Only a reversal of the same organization can reverse an entry. */
  lemma ReversedMeansReverser(ledger: seq<Entry>, i: nat)
    requires Reachable(ledger) && i < |ledger|
    ensures ReversedInOrg(ledger, ledger[i]) <==> Reverser(ledger, i) >= 0
  {
    var k := Reverser(ledger, i);
    if k >= 0 {
      ReverserLink(ledger, i);
    }
    if v :| 0 <= v < |ledger| && ledger[v].org == ledger[i].org
            && ledger[v].reverses == Some(ledger[i].id) {
      var t := ReversalLink(ledger, v);
      if t != i { UniqueIds(ledger, t, i); }
    }
  }

  /** What remains: nothing once the entry is reversed, else its amount less its open releases. */
  lemma RemainingMeaning(ledger: seq<Entry>, i: nat)
    requires Reachable(ledger) && Linked(ledger) && i < |ledger| && Held(ledger[i])
    ensures Remaining(ledger, ledger[i]) ==
              if Reverser(ledger, i) >= 0 then 0
              else ledger[i].amount + OpenReleases(ledger, ledger[i])
  {
    ReleasedMeansOpen(ledger, ledger[i]);
    ReversedMeansReverser(ledger, i);
  }

  /** An append moves what remains by the amount of a release, or of the reversal of a release; it
      takes all when it reverses the entry itself; every other row leaves it alone. */
  lemma RemainingMoves(ledger: seq<Entry>, e: Entry, i: nat)
    requires Reachable(ledger) && Permitted(ledger, e) && i < |ledger| && Held(ledger[i])
    ensures Remaining(ledger + [e], ledger[i]) ==
              if (exists v :: 0 <= v < |ledger| && ledger[v].org == ledger[i].org
                              && ledger[v].reverses == Some(ledger[i].id))
                 || e.reverses == Some(ledger[i].id) then 0
              else Remaining(ledger, ledger[i]) + if Moves(ledger, ledger[i], e) then e.amount else 0
  {
    ReleasedAppend(ledger, ledger[i], e);
    ReversedAppend(ledger, e, i);
  }

  lemma ReversedAppend(ledger: seq<Entry>, e: Entry, i: nat)
    requires Reachable(ledger) && Permitted(ledger, e) && i < |ledger|
    ensures ReversedInOrg(ledger + [e], ledger[i]) <==>
              ReversedInOrg(ledger, ledger[i]) || e.reverses == Some(ledger[i].id)
  {
    var more, r := ledger + [e], ledger[i];
    if v :| 0 <= v < |ledger| && ledger[v].org == r.org && ledger[v].reverses == Some(r.id) {
      assert more[v] == ledger[v];
    }
    if e.reverses == Some(r.id) {
      var t := ReversedEnd(ledger, e);
      if t != i { UniqueIds(ledger, t, i); }
      assert more[|ledger|] == e;
    }
  }

  /** A new reservation or commitment starts with all of its amount. */
  lemma RemainingStarts(ledger: seq<Entry>, e: Entry)
    requires Reachable(ledger) && Permitted(ledger, e) && Linked(ledger + [e]) && Held(e)
    ensures Remaining(ledger + [e], e) == e.amount
  {
    var more := ledger + [e];
    ReachableAppend(ledger, e);
    ReleasedMeansOpen(more, e);
    forall j | 0 <= j <= |ledger| ensures OpenAmount(more, e, j) == 0 && more[j].reverses != Some(e.id) {
      if j < |ledger| { LinksAreOld(ledger, e, j); }
    }
    SumOfZeros(OpenAmounts(more, e), |more|);
  }

  // ------------------------------------------------------------------------- standing releases

  function StandingAmount(ledger: seq<Entry>, r: Entry, j: nat): int
    requires j < |ledger|
  {
    if ReleaseOf(ledger[j], r) && Stands(ledger, j) then ledger[j].amount else 0
  }

  function StandingAmounts(ledger: seq<Entry>, r: Entry): int -> int {
    (j: int) => if 0 <= j < |ledger| then StandingAmount(ledger, r, j) else 0
  }

  /** A release put back in force by the reversal of its reversal. */
  predicate Restored(ledger: seq<Entry>, r: Entry, j: nat)
    requires j < |ledger|
  {
    ReleaseOf(ledger[j], r) && Reverser(ledger, j) >= 0 && Stands(ledger, j)
  }

  lemma StandingBelowOpen(ledger: seq<Entry>, r: Entry, j: nat)
    requires Reachable(ledger) && Linked(ledger) && j < |ledger|
    ensures StandingAmount(ledger, r, j) <= OpenAmount(ledger, r, j)
    ensures StandingAmount(ledger, r, j) == OpenAmount(ledger, r, j) <==> !Restored(ledger, r, j)
  {
    assert Permitted(ledger[..j], ledger[j]) && ReleaseLinkOk(ledger[j]);
    assert ReleaseOf(ledger[j], r) ==> ledger[j].amount < 0;
  }

  /** The view sees one reversal deep: it takes off exactly the releases that stand if and only if no
      release of the entry has had its own reversal reversed. */
  lemma RemainingSeesStanding(ledger: seq<Entry>, i: nat)
    requires Reachable(ledger) && Linked(ledger) && i < |ledger|
    requires Held(ledger[i]) && Reverser(ledger, i) < 0
    ensures Remaining(ledger, ledger[i])
              == ledger[i].amount + Sum(StandingAmounts(ledger, ledger[i]), |ledger|)
            <==> forall j :: 0 <= j < |ledger| ==> !Restored(ledger, ledger[i], j)
  {
    var r := ledger[i];
    RemainingMeaning(ledger, i);
    var f, g := StandingAmounts(ledger, r), OpenAmounts(ledger, r);
    forall j | 0 <= j < |ledger| ensures f(j) <= g(j) && (f(j) == g(j) <==> !Restored(ledger, r, j)) {
      StandingBelowOpen(ledger, r, j);
    }
    SumBelow(f, g, |ledger|);
  }

  function Row(id: nat, kind: Kind, amount: int, reverses: Option<nat>, releases: Option<nat>): Entry {
    Entry(id, "org", "unit", "project", kind, Reserved, amount, "EUR", System, None, None,
          reverses, releases, None, None, None)
  }

  const HOLD: Entry := Row(1, Reservation, 100, None, None)
  const FREE: Entry := Row(2, Release, -40, None, Some(1))
  const UNDO: Entry := Row(3, Reversal, 40, Some(2), None)
  const REDO: Entry := Row(4, Reversal, -40, Some(3), None)

  lemma AppendRow(ledger: seq<Entry>, e: Entry, more: seq<Entry>, left: int)
    requires Reachable(ledger) && Permitted(ledger, e) && more == ledger + [e]
    requires ledger != [] && ledger[0] == HOLD && Remaining(ledger, HOLD) == left
    requires !ReversedInOrg(ledger, HOLD) && e.reverses != Some(1)
    ensures Reachable(more) && more[0] == HOLD && !ReversedInOrg(more, HOLD)
    ensures Remaining(more, HOLD) == left + if Moves(ledger, HOLD, e) then e.amount else 0
  {
    ReachableAppend(ledger, e);
    RemainingMoves(ledger, e, 0);
    ReversedAppend(ledger, e, 0);
  }

  lemma AppendHold()
    ensures Reachable([HOLD]) && Remaining([HOLD], HOLD) == 100 && !ReversedInOrg([HOLD], HOLD)
  {
    assert [] + [HOLD] == [HOLD];
    ReachableAppend([], HOLD);
    RemainingStarts([], HOLD);
  }

  lemma AppendFree()
    ensures var ledger := [HOLD, FREE];
            Reachable(ledger) && Remaining(ledger, HOLD) == 60 && !ReversedInOrg(ledger, HOLD)
  {
    AppendHold();
    assert [HOLD][0].id == 1;
    assert Permitted([HOLD], FREE);
    AppendRow([HOLD], FREE, [HOLD, FREE], 100);
  }

  lemma UndoPermitted()
    ensures Permitted([HOLD, FREE], UNDO) && Moves([HOLD, FREE], HOLD, UNDO)
  {
    assert [HOLD, FREE][1].id == 2;
    assert ReleaseOf([HOLD, FREE][1], HOLD);
  }

  lemma RedoPermitted()
    ensures Permitted([HOLD, FREE, UNDO], REDO) && !Moves([HOLD, FREE, UNDO], HOLD, REDO)
  {
    assert [HOLD, FREE, UNDO][2].id == 3;
  }

  lemma AppendRedo()
    ensures var ledger := [HOLD, FREE, UNDO, REDO];
            Reachable(ledger) && Remaining(ledger, HOLD) == 100
  {
    AppendFree();
    UndoPermitted();
    AppendRow([HOLD, FREE], UNDO, [HOLD, FREE, UNDO], 60);
    RedoPermitted();
    AppendRow([HOLD, FREE, UNDO], REDO, [HOLD, FREE, UNDO, REDO], 100);
  }

  lemma FreeRestored()
    ensures var ledger := [HOLD, FREE, UNDO, REDO];
            Restored(ledger, HOLD, 1) && Reverser(ledger, 0) == -1
  {
    var ledger := [HOLD, FREE, UNDO, REDO];
    assert Reverser(ledger, 3) == -1;
    assert ReverserFrom(ledger, 3, 3) == 3;
    assert ReverserFrom(ledger, 2, 2) == 2;
    assert Stands(ledger, 3) && !Stands(ledger, 2) && Stands(ledger, 1);
  }

  /** A release restored by two reversals stands, yet the view no longer takes it off. */
  lemma RestoredIsMissed()
    ensures var ledger := [HOLD, FREE, UNDO, REDO];
            && Reachable(ledger) && Linked(ledger) && Restored(ledger, HOLD, 1)
            && Remaining(ledger, HOLD) == 100
            && HOLD.amount + Sum(StandingAmounts(ledger, HOLD), 4) != 100
  {
    var ledger := [HOLD, FREE, UNDO, REDO];
    AppendRedo();
    FreeRestored();
    RemainingSeesStanding(ledger, 0);
  }
}
