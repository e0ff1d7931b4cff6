/**
  Reversal chains and what totals mean: a bucket's total is the sum of the original entries that
  stand, those reversed an even number of times.
 */
module LedgerTotals {
  import opened Collections
  import opened Wrappers
  import opened Ledger

  /** The first entry from `from` on that reverses the entry with that id, or -1. */
  function ReverserFrom(ledger: seq<Entry>, id: nat, from: nat): (k: int)
    ensures k == -1 || (from <= k < |ledger| && ledger[k].reverses == Some(id))
    ensures forall j :: from <= j < |ledger| && (k == -1 || j < k) ==> ledger[j].reverses != Some(id)
    decreases |ledger| - from
  {
    if from >= |ledger| then -1
    else if ledger[from].reverses == Some(id) then from
    else ReverserFrom(ledger, id, from + 1)
  }

  function Reverser(ledger: seq<Entry>, i: nat): (k: int)
    requires i < |ledger|
    ensures k == -1 || i < k < |ledger|
  {
    ReverserFrom(ledger, ledger[i].id, i + 1)
  }

  /** How often an entry has been reversed: the length of its chain of reversals. */
  function Flips(ledger: seq<Entry>, i: nat): nat
    requires i < |ledger|
    decreases |ledger| - i
  {
    var k := Reverser(ledger, i);
    if k < 0 then 0 else 1 + Flips(ledger, k)
  }

  /** An entry stands when what reverses it, if anything does, does not stand. */
  predicate Stands(ledger: seq<Entry>, i: nat)
    requires i < |ledger|
    decreases |ledger| - i
  {
    var k := Reverser(ledger, i);
    k < 0 || !Stands(ledger, k)
  }

  /** The entries that stand are those whose chain has an even number of reversals. */
  lemma {:induction false} StandsIffEven(ledger: seq<Entry>, i: nat)
    requires i < |ledger|
    ensures Stands(ledger, i) <==> Flips(ledger, i) % 2 == 0
    decreases |ledger| - i
  {
    var k := Reverser(ledger, i);
    if k >= 0 { StandsIffEven(ledger, k); }
  }

  /** The last entry of the chain. */
  function End(ledger: seq<Entry>, i: nat): (e: nat)
    requires i < |ledger|
    ensures i <= e < |ledger| && Reverser(ledger, e) == -1
    decreases |ledger| - i
  {
    var k := Reverser(ledger, i);
    if k < 0 then i else End(ledger, k)
  }

  predicate Original(e: Entry) { e.kind != Reversal }

  predicate Live(ledger: seq<Entry>, i: nat)
    requires i < |ledger|
  {
    Original(ledger[i]) && Stands(ledger, i)
  }

  /** The entry at the start of the chain: links followed backwards. */
  function Origin(ledger: seq<Entry>, i: nat): (r: nat)
    requires i < |ledger|
    ensures r <= i
    decreases i
  {
    var t := ReversedFrom(ledger[..i], ledger[i].reverses);
    if t < 0 then i else Origin(ledger, t)
  }

  /** The entry with that id, or -1. */
  function ReversedFrom(ledger: seq<Entry>, id: Option<nat>): (t: int)
    ensures t == -1 || (0 <= t < |ledger| && id == Some(ledger[t].id))
    ensures t == -1 ==> forall j :: 0 <= j < |ledger| ==> id != Some(ledger[j].id)
    decreases |ledger|
  {
    if ledger == [] then -1
    else if id == Some(ledger[|ledger| - 1].id) then |ledger| - 1
    else ReversedFrom(ledger[..|ledger| - 1], id)
  }

  // ------------------------------------------------------------------------- chains

  predicate SameAccount(a: Entry, b: Entry) {
    a.org == b.org && a.bu == b.bu && a.project == b.project && a.bucket == b.bucket
    && a.currency == b.currency
  }

  /** A reverser comes after an entry of the same account and opposite amount. */
  lemma ReverserLink(ledger: seq<Entry>, i: nat)
    requires Reachable(ledger) && i < |ledger| && Reverser(ledger, i) >= 0
    ensures var k := Reverser(ledger, i); Negates(ledger[k], ledger[i]) && !Original(ledger[k])
  {
    var k := Reverser(ledger, i);
    assert Permitted(ledger[..k], ledger[k]);
    var t := ReversalLink(ledger, k);
    if t != i { UniqueIds(ledger, t, i); }
  }

  lemma ReverserOrigin(ledger: seq<Entry>, i: nat)
    requires Reachable(ledger) && i < |ledger| && Reverser(ledger, i) >= 0
    ensures Origin(ledger, Reverser(ledger, i)) == Origin(ledger, i)
  {
    var k := Reverser(ledger, i);
    var u := ReversedFrom(ledger[..k], ledger[k].reverses);
    assert ledger[..k][i] == ledger[i];
    if u != i { UniqueIds(ledger, u, i); }
  }

  lemma ReverserAmount(ledger: seq<Entry>, i: nat)
    requires Reachable(ledger) && i < |ledger| && Reverser(ledger, i) >= 0
    ensures ledger[Reverser(ledger, i)].amount == -ledger[i].amount
  {
    ReverserLink(ledger, i);
  }

  /** All of a chain lies in one account and has one origin. */
  lemma {:induction false} ChainAccount(ledger: seq<Entry>, i: nat)
    requires Reachable(ledger) && i < |ledger|
    ensures SameAccount(ledger[i], ledger[End(ledger, i)])
    ensures Origin(ledger, End(ledger, i)) == Origin(ledger, i)
    decreases |ledger| - i
  {
    var k := Reverser(ledger, i);
    if k >= 0 {
      ReverserLink(ledger, i);
      ReverserOrigin(ledger, i);
      ChainAccount(ledger, k);
    }
  }

  /** The signs alternate: the end of a chain has the amount of its start if that stands, or its
      opposite. */
  lemma {:induction false} ChainAmount(ledger: seq<Entry>, i: nat)
    requires Reachable(ledger) && i < |ledger|
    ensures ledger[End(ledger, i)].amount ==
              if Stands(ledger, i) then ledger[i].amount else -ledger[i].amount
    decreases |ledger| - i
  {
    var k := Reverser(ledger, i);
    if k >= 0 {
      ReverserAmount(ledger, i);
      ChainAmount(ledger, k);
    }
  }

  /** The origin of a chain is an original entry, and its chain passes through every entry of it. */
  lemma {:induction false} OriginFacts(ledger: seq<Entry>, i: nat)
    requires Reachable(ledger) && i < |ledger|
    ensures Original(ledger[Origin(ledger, i)])
    ensures End(ledger, Origin(ledger, i)) == End(ledger, i)
    ensures Original(ledger[i]) ==> Origin(ledger, i) == i
    decreases i
  {
    assert Permitted(ledger[..i], ledger[i]);
    if ledger[i].reverses.Some? {
      var t := ReversalLink(ledger, i);
      assert ledger[..i][t] == ledger[t];
      var u := ReversedFrom(ledger[..i], ledger[i].reverses);
      if u != t { UniqueIds(ledger, u, t); }
      OriginFacts(ledger, t);
      assert Reverser(ledger, t) == i;
    }
  }

  /** Chains are disjoint: original entries whose chains end at the same entry are the same. */
  lemma ChainsDisjoint(ledger: seq<Entry>, a: nat, b: nat)
    requires Reachable(ledger) && a < |ledger| && b < |ledger|
    requires Original(ledger[a]) && Original(ledger[b]) && End(ledger, a) == End(ledger, b)
    ensures a == b
  {
    ChainAccount(ledger, a);
    ChainAccount(ledger, b);
    OriginFacts(ledger, a);
    OriginFacts(ledger, b);
  }

  // ------------------------------------------------------------------------- appending

  lemma ReverserAppend(ledger: seq<Entry>, e: Entry, id: nat, from: nat)
    requires from <= |ledger|
    ensures var k := ReverserFrom(ledger, id, from);
            ReverserFrom(ledger + [e], id, from) ==
              if k >= 0 then k else if e.reverses == Some(id) then |ledger| else -1
    decreases |ledger| - from
  {
    if from < |ledger| && ledger[from].reverses != Some(id) {
      ReverserAppend(ledger, e, id, from + 1);
    }
  }

  /** An appended entry lengthens exactly the chains that end at the entry it reverses. */
  lemma {:induction false} StandsAppend(ledger: seq<Entry>, e: Entry, i: nat)
    requires i < |ledger|
    ensures Stands(ledger + [e], i) <==>
              (Stands(ledger, i) <==> e.reverses != Some(ledger[End(ledger, i)].id))
    decreases |ledger| - i
  {
    var more := ledger + [e];
    ReverserAppend(ledger, e, ledger[i].id, i + 1);
    assert more[i] == ledger[i];
    var k := Reverser(ledger, i);
    if k >= 0 {
      StandsAppend(ledger, e, k);
    } else if e.reverses == Some(ledger[i].id) {
      assert Reverser(more, i) == |ledger|;
      assert Reverser(more, |ledger|) == -1;
    }
  }

  // ------------------------------------------------------------------------- totals

  datatype Account = Account(org: string, project: string, bucket: Bucket)

  predicate In(e: Entry, a: Account) {
    e.org == a.org && e.project == a.project && e.bucket == a.bucket
  }

  function Amounts(ledger: seq<Entry>, a: Account): int -> int {
    (i: int) => if 0 <= i < |ledger| && In(ledger[i], a) then ledger[i].amount else 0
  }

  /** What an entry adds to the sum of the originals that stand. */
  function LiveAmount(ledger: seq<Entry>, a: Account, i: nat): int
    requires i < |ledger|
  {
    if In(ledger[i], a) && Live(ledger, i) then ledger[i].amount else 0
  }

  function LiveAmounts(ledger: seq<Entry>, a: Account): int -> int {
    (i: int) => if 0 <= i < |ledger| then LiveAmount(ledger, a, i) else 0
  }

  /** The sum that the balance query computes for one bucket. */
  function Total(ledger: seq<Entry>, a: Account): int { Sum(Amounts(ledger, a), |ledger|) }

  /** The sum of the original entries that stand. */
  function LiveTotal(ledger: seq<Entry>, a: Account): int { Sum(LiveAmounts(ledger, a), |ledger|) }

  /** An append adds its amount to the one bucket of its organization and project, and to no other. */
  lemma TotalMoves(ledger: seq<Entry>, e: Entry, org: string, project: string, bucket: Bucket)
    ensures Total([], Account(org, project, bucket)) == 0
    ensures Total(ledger + [e], Account(org, project, bucket)) ==
              Total(ledger, Account(org, project, bucket))
              + if e.org == org && e.project == project && e.bucket == bucket then e.amount else 0
  {
    var a := Account(org, project, bucket);
    SumSame(Amounts(ledger, a), Amounts(ledger + [e], a), |ledger|);
  }

  /** The sum after an append: the new entry's own part, and the change in the parts before it. */
  lemma LiveAppend(ledger: seq<Entry>, e: Entry, a: Account, r: nat)
    requires r < |ledger|
    requires forall i :: 0 <= i < |ledger| && i != r ==>
                           LiveAmount(ledger + [e], a, i) == LiveAmount(ledger, a, i)
    ensures LiveTotal(ledger + [e], a) == LiveTotal(ledger, a)
              + LiveAmount(ledger + [e], a, |ledger|)
              + LiveAmount(ledger + [e], a, r) - LiveAmount(ledger, a, r)
  {
    SumChange(LiveAmounts(ledger, a), LiveAmounts(ledger + [e], a), r, |ledger|);
  }

  lemma LiveAppendOriginal(ledger: seq<Entry>, e: Entry, a: Account)
    requires e.reverses.None? && Original(e)
    ensures LiveTotal(ledger + [e], a) == LiveTotal(ledger, a) + if In(e, a) then e.amount else 0
  {
    var more := ledger + [e];
    forall i | 0 <= i < |ledger| ensures LiveAmount(more, a, i) == LiveAmount(ledger, a, i) {
      StandsAppend(ledger, e, i);
      assert more[i] == ledger[i];
    }
    SumSame(LiveAmounts(ledger, a), LiveAmounts(more, a), |ledger|);
    LastAmount(ledger, e, a);
  }

  lemma LastAmount(ledger: seq<Entry>, e: Entry, a: Account)
    ensures LiveAmount(ledger + [e], a, |ledger|) == if Original(e) && In(e, a) then e.amount else 0
  {
    assert Reverser(ledger + [e], |ledger|) == -1;
  }

  lemma LiveAppendReversal(ledger: seq<Entry>, e: Entry, a: Account)
    requires Reachable(ledger) && Permitted(ledger, e) && e.reverses.Some?
    ensures LiveTotal(ledger + [e], a) == LiveTotal(ledger, a) + if In(e, a) then e.amount else 0
  {
    var t := ReversedEnd(ledger, e);
    forall i | 0 <= i < |ledger| && i != Origin(ledger, t)
      ensures LiveAmount(ledger + [e], a, i) == LiveAmount(ledger, a, i)
    {
      OtherChain(ledger, e, t, i);
    }
    LiveAppend(ledger, e, a, Origin(ledger, t));
    SameChain(ledger, e, t, a);
    LastAmount(ledger, e, a);
  }

  /** The entry that a permitted reversal reverses is the last of its chain. */
  lemma ReversedEnd(ledger: seq<Entry>, e: Entry) returns (t: nat)
    requires Reachable(ledger) && Permitted(ledger, e) && e.reverses.Some?
    ensures t < |ledger| && End(ledger, t) == t
    ensures e.reverses == Some(ledger[t].id) && Negates(e, ledger[t])
  {
    t :| 0 <= t < |ledger| && ledger[t].id == e.reverses.value && Negates(e, ledger[t]);
    assert Reverser(ledger, t) == -1;
  }

  /** Reversing the end of a chain changes whether its original stands, by the reversal's amount. */
  lemma SameChain(ledger: seq<Entry>, e: Entry, t: nat, a: Account)
    requires Reachable(ledger) && t < |ledger| && End(ledger, t) == t
    requires e.reverses == Some(ledger[t].id) && Negates(e, ledger[t])
    ensures var r := Origin(ledger, t);
            LiveAmount(ledger + [e], a, r) - LiveAmount(ledger, a, r) ==
              if In(e, a) then e.amount else 0
  {
    var r := Origin(ledger, t);
    ReversesTheOriginal(ledger, e, t, a);
  }

  lemma ReversesTheOriginal(ledger: seq<Entry>, e: Entry, t: nat, a: Account)
    requires Reachable(ledger) && t < |ledger| && End(ledger, t) == t
    requires e.reverses == Some(ledger[t].id) && Negates(e, ledger[t])
    ensures var r := Origin(ledger, t);
            && Original(ledger[r]) && (ledger + [e])[r] == ledger[r]
            && In(e, a) == In(ledger[r], a)
            && e.amount == (if Stands(ledger, r) then -ledger[r].amount else ledger[r].amount)
            && Stands(ledger + [e], r) == !Stands(ledger, r)
  {
    var r := Origin(ledger, t);
    OriginFacts(ledger, t);
    ChainAccount(ledger, r);
    ChainAmount(ledger, r);
    StandsAppend(ledger, e, r);
  }

  lemma OtherChain(ledger: seq<Entry>, e: Entry, t: nat, i: nat)
    requires Reachable(ledger) && t < |ledger| && i < |ledger| && End(ledger, t) == t
    requires e.reverses == Some(ledger[t].id) && i != Origin(ledger, t)
    ensures Original(ledger[i]) ==> Stands(ledger + [e], i) == Stands(ledger, i)
  {
    StandsAppend(ledger, e, i);
    if Original(ledger[i]) {
      OriginFacts(ledger, t);
      if End(ledger, i) == t {
        ChainsDisjoint(ledger, i, Origin(ledger, t));
      } else {
        UniqueIds(ledger, End(ledger, i), t);
      }
    }
  }

  /** Totals mean live entries: in every ledger that permitted inserts can build, each bucket's total
      is the sum of its original entries that have been reversed an even number of times. */
  lemma {:induction false} TotalsMeanLive(ledger: seq<Entry>, a: Account)
    requires Reachable(ledger)
    ensures Total(ledger, a) == LiveTotal(ledger, a)
    decreases |ledger|
  {
    if ledger != [] {
      var before, e := ledger[..|ledger| - 1], ledger[|ledger| - 1];
      assert ledger == before + [e];
      ReachableAppend(before, e);
      TotalsMeanLive(before, a);
      SumSame(Amounts(before, a), Amounts(ledger, a), |before|);
      if e.reverses.None? {
        LiveAppendOriginal(before, e, a);
      } else {
        LiveAppendReversal(before, e, a);
      }
    }
  }

  // ------------------------------------------------------------------------- project balances

  datatype Balance = Balance(allocations: int, reserved: int, committed: int, actual: int, available: int)

  /** The row backfilled for one project, or None when its check refuses the row. */
  function Backfill(ledger: seq<Entry>, org: string, project: string): Option<Balance> {
    var total := (b: Bucket) => Total(ledger, Account(org, project, b));
    var row := Balance(total(Allocated), total(Reserved), total(Committed), total(Spent),
                       total(Allocated) - total(Reserved) - total(Committed) - total(Spent));
    if row.reserved >= 0 && row.committed >= 0 && row.actual >= 0 then Some(row) else None
  }

  /** Every figure of a backfilled balance is a sum of standing originals; what is available is the
      allocations that stand less the reservations, commitments and actuals that stand. */
  lemma BackfillMeansLive(ledger: seq<Entry>, org: string, project: string)
    requires Reachable(ledger)
    ensures var live := (b: Bucket) => LiveTotal(ledger, Account(org, project, b));
            match Backfill(ledger, org, project)
            case None => live(Reserved) < 0 || live(Committed) < 0 || live(Spent) < 0
            case Some(row) =>
              && live(Reserved) >= 0 && live(Committed) >= 0 && live(Spent) >= 0
              && row == Balance(live(Allocated), live(Reserved), live(Committed), live(Spent),
                                row.available)
              && row.available + live(Reserved) + live(Committed) + live(Spent) == live(Allocated)
  {
    TotalsMeanLive(ledger, Account(org, project, Allocated));
    TotalsMeanLive(ledger, Account(org, project, Reserved));
    TotalsMeanLive(ledger, Account(org, project, Committed));
    TotalsMeanLive(ledger, Account(org, project, Spent));
  }

  /** The bucket of actuals can never be negative: only positive originals stand in it. */
  lemma ActualNonNegative(ledger: seq<Entry>, org: string, project: string)
    requires Reachable(ledger)
    ensures Total(ledger, Account(org, project, Spent)) >= 0
  {
    var a := Account(org, project, Spent);
    TotalsMeanLive(ledger, a);
    forall i | 0 <= i < |ledger| ensures 0 <= LiveAmounts(ledger, a)(i) {
      assert Permitted(ledger[..i], ledger[i]);
    }
    var zero := (i: int) => 0;
    SumBelow(zero, LiveAmounts(ledger, a), |ledger|);
    SumOfZeros(zero, |ledger|);
  }
}
