/**
  Progress of the migration runners: a runner that meets no failure and finds the lock free ends with
  its whole chain applied, nothing but a failure makes one fail, and none can go on forever.
 */
module MigrationProgress {
  import opened Collections
  import opened MigrationRunners
  import opened Wrappers

  /** `n` statements of one runner, without a failure. */
  function Solo(id: Id, n: nat): seq<Event> {
    seq(n, _ => Event(id, false))
  }

  /** How many statements a runner has before it at most. */
  function Rank(r: Runner): int {
    var n := |r.chain|;
    match r.pc
    case Waiting => 6 * n + 3
    case Checking => 6 * n + 2
    case Between(k) => 6 * (n - k) + 1
    case Locked(k) => 6 * (n - k)
    case Pending(k) => 6 * (n - k) - 1
    case Upgraded(k) => 6 * (n - k) - 2
    case Inserted(k) => 6 * (n - k) - 3
    case _ => 0
  }

  lemma RankPositive(full: seq<string>, base: nat, w: World, id: Id)
    requires Inv(full, base, w) && id in w.runners
    ensures Rank(w.runners[id]) >= 0
    ensures !Ended(w.runners[id].pc) ==> Rank(w.runners[id]) > 0
  {
    InvPlaced(full, base, w, id);
  }

  /** The place of a runner lies in its chain. */
  predicate Placed(r: Runner) {
    match r.pc
    case Between(k) => k <= |r.chain|
    case Locked(k) => k < |r.chain|
    case Pending(k) => k < |r.chain|
    case Upgraded(k) => k < |r.chain|
    case Inserted(k) => k < |r.chain|
    case _ => true
  }

  lemma InvPlaced(full: seq<string>, base: nat, w: World, id: Id)
    requires Inv(full, base, w) && id in w.runners
    ensures Placed(w.runners[id])
  {
    assert RunnerOk(full, base, w, id);
  }

  /** Every statement a runner makes brings its end nearer. */
  lemma AdvanceLowers(w: World, id: Id)
    requires id in w.runners && Placed(w.runners[id]) && Advance(w, id).Some?
    ensures var w' := Advance(w, id).value;
            w'.runners.Keys == w.runners.Keys && Rank(w'.runners[id]) < Rank(w.runners[id])
  {
  }

  // ------------------------------------------------------------------------- a runner alone

  /** A table that holds a prefix of a runner's chain holds nothing unknown to it; a longer one
      does. */
  lemma KnownExactly(full: seq<string>, rows: seq<Row>, chain: seq<string>)
    requires Distinct(full) && Revisions(rows) <= full && chain <= full
    ensures AllKnown(rows, chain) <==> |rows| <= |chain|
  {
    if |rows| <= |chain| {
      forall i | 0 <= i < |rows| ensures rows[i].revision in chain {
        assert Revisions(rows)[i] == full[i] == chain[i];
      }
    } else {
      var n := |chain|;
      assert Revisions(rows)[n] == full[n];
      forall i | 0 <= i < n ensures chain[i] != full[n] {
        assert chain[i] == full[i];
      }
      assert rows[n].revision !in chain;
    }
  }

  /** A runner that can go on: the lock is free or its own, and the table holds no more than its
      chain. */
  ghost predicate Ready(w: World, id: Id)
    requires id in w.runners
  {
    && (w.lock == None || w.lock == Some(id))
    && |w.rows| <= |w.runners[id].chain|
    && !w.runners[id].pc.Refused? && !w.runners[id].pc.Failed?
  }

  /** What a runner that goes on alone will have reported at its end. */
  function Expected(w: World, id: Id): seq<string>
    requires id in w.runners && |w.rows| <= |w.runners[id].chain|
  {
    var r := w.runners[id];
    if r.pc.Inserted? && |w.rows| < |r.chain| then r.appliedHere + r.chain[|w.rows| + 1..]
    else r.appliedHere + r.chain[|w.rows|..]
  }

  /** One statement of such a runner: it is not blocked, and stays one that can go on. */
  lemma ReadyStep(full: seq<string>, base: nat, w: World, id: Id)
    requires Inv(full, base, w) && id in w.runners && Ready(w, id) && !Ended(w.runners[id].pc)
    ensures Advance(w, id).Some?
    ensures var w' := Advance(w, id).value;
            && w'.runners.Keys == w.runners.Keys
            && w'.runners[id].chain == w.runners[id].chain
            && Ready(w', id)
  {
    var r := w.runners[id];
    assert RunnerOk(full, base, w, id);
    KnownExactly(full, w.rows, r.chain);
    if (r.pc.Locked? || r.pc.Upgraded?) && r.pc.k < |r.chain| {
      Position(full, w.rows, r.chain, r.pc.k);
    }
  }

  /** What it will have reported does not change under way. */
  lemma ExpectedKept(full: seq<string>, base: nat, w: World, id: Id)
    requires Inv(full, base, w) && id in w.runners && Ready(w, id) && !Ended(w.runners[id].pc)
    requires Advance(w, id).Some? && id in Advance(w, id).value.runners
    requires Ready(Advance(w, id).value, id)
    ensures Expected(Advance(w, id).value, id) == Expected(w, id)
  {
    var r, w' := w.runners[id], Advance(w, id).value;
    assert RunnerOk(full, base, w, id);
    if r.pc.Upgraded? {
      var k := r.pc.k;
      assert r.chain[k..] == [r.chain[k]] + r.chain[k + 1..];
      assert r.appliedHere + r.chain[k..] == (r.appliedHere + [r.chain[k]]) + r.chain[k + 1..];
    } else if r.pc.Inserted? {
      assert w'.rows == w.rows + [Row(r.chain[r.pc.k], id)];
    }
  }

  /** Liveness: in any state a run can reach, a runner that can go on, and makes its statements
      without a failure while the others hold no lock, returns. The table then holds exactly its
      chain, and it has reported what was missing after what it had reported before. */
  lemma {:induction false} SoloCompletes(full: seq<string>, base: nat, w: World, id: Id)
    returns (n: nat)
    requires Inv(full, base, w) && id in w.runners && Ready(w, id)
    ensures var w' := Run(w, Solo(id, n));
            && w'.runners[id].pc == Returned
            && Revisions(w'.rows) == w.runners[id].chain
            && w'.runners[id].appliedHere == Expected(w, id)
    decreases Rank(w.runners[id])
  {
    if w.runners[id].pc.Returned? {
      n := 0;
      ReturnedAll(full, base, w, id);
    } else {
      ReadyStep(full, base, w, id);
      ExpectedKept(full, base, w, id);
      InvPlaced(full, base, w, id);
      AdvanceLowers(w, id);
      AdvanceInv(full, base, w, id);
      var next := Advance(w, id).value;
      RankPositive(full, base, next, id);
      var m := SoloCompletes(full, base, next, id);
      n := m + 1;
      SoloFirst(w, id, m);
    }
  }

  lemma SoloFirst(w: World, id: Id, m: nat)
    requires id in w.runners && Advance(w, id).Some?
    ensures Run(w, Solo(id, m + 1)) == Run(Advance(w, id).value, Solo(id, m))
  {
    assert Solo(id, m + 1)[0] == Event(id, false) && Solo(id, m + 1)[1..] == Solo(id, m);
  }

  lemma ReturnedAll(full: seq<string>, base: nat, w: World, id: Id)
    requires Inv(full, base, w) && id in w.runners && Ready(w, id) && w.runners[id].pc.Returned?
    ensures Revisions(w.rows) == w.runners[id].chain
    ensures Run(w, Solo(id, 0)) == w && Expected(w, id) == w.runners[id].appliedHere
  {
    assert RunnerOk(full, base, w, id);
  }

  /** From a start, after any events of any runners: once the others hold no lock, a waiting runner
      whose chain covers the table needs only its own statements to bring the table to the end of its
      chain, and reports exactly the revisions that were missing. */
  lemma WaitingCompletes(full: seq<string>, w: World, events: seq<Event>, id: Id) returns (n: nat)
    requires Start(full, w) && id in w.runners
    requires var now := Run(w, events);
             && now.lock == None && now.runners[id].pc == Waiting
             && |now.rows| <= |w.runners[id].chain|
    ensures var now, later := Run(w, events), Run(Run(w, events), Solo(id, n));
            && later.runners[id].pc == Returned
            && Revisions(later.rows) == w.runners[id].chain
            && later.runners[id].appliedHere == w.runners[id].chain[|now.rows|..]
  {
    StartInv(full, w);
    RunInv(full, |w.rows|, w, events);
    var now := Run(w, events);
    n := SoloCompletes(full, |w.rows|, now, id);
    WaitingReported(w, events, id);
    assert [] + w.runners[id].chain[|now.rows|..] == w.runners[id].chain[|now.rows|..];
  }

  lemma HappenReported(w: World, e: Event, id: Id)
    requires id in w.runners && (w.runners[id].pc == Waiting ==> w.runners[id].appliedHere == [])
    ensures var r := Happen(w, e).runners[id]; r.pc == Waiting ==> r.appliedHere == []
  {
  }

  /** A runner that still waits has reported nothing. */
  lemma {:induction false} WaitingReported(w: World, events: seq<Event>, id: Id)
    requires id in w.runners && (w.runners[id].pc == Waiting ==> w.runners[id].appliedHere == [])
    ensures var r := Run(w, events).runners[id]; r.pc == Waiting ==> r.appliedHere == []
    decreases |events|
  {
    if events != [] {
      HappenReported(w, events[0], id);
      WaitingReported(Happen(w, events[0]), events[1..], id);
    }
  }

  /** The migration of a database by one runner: it applies exactly what is missing. */
  lemma StartCompletes(full: seq<string>, w: World, id: Id) returns (n: nat)
    requires Start(full, w) && id in w.runners && |w.rows| <= |w.runners[id].chain|
    ensures var w', chain := Run(w, Solo(id, n)), w.runners[id].chain;
            && w'.runners[id].pc == Returned
            && Revisions(w'.rows) == chain
            && w'.runners[id].appliedHere == chain[|w.rows|..]
  {
    n := WaitingCompletes(full, w, [], id);
  }

  // ------------------------------------------------------------------------- how a runner ends

  lemma AdvanceNeverFails(full: seq<string>, base: nat, w: World, id: Id)
    requires Inv(full, base, w) && id in w.runners && Advance(w, id).Some?
    ensures Advance(w, id).value.runners[id].pc != Failed
  {
    InvPlaced(full, base, w, id);
    if w.runners[id].pc.Upgraded? {
      assert RunnerOk(full, base, w, id);
      Position(full, w.rows, w.runners[id].chain, w.runners[id].pc.k);
    }
  }

  /** A failure takes the runner out and frees the lock it held; the rows and the other runners are
      left alone. */
  lemma FailureRollsBack(full: seq<string>, base: nat, w: World, id: Id, other: Id)
    requires Inv(full, base, w) && id in w.runners && other in w.runners
    ensures var w' := Happen(w, Event(id, true));
            && w'.rows == w.rows
            && w'.lock == (if w.lock == Some(id) then None else w.lock)
            && (other != id ==> w'.runners[other] == w.runners[other])
            && w'.runners[id] == w.runners[id].(pc := w'.runners[id].pc)
  {
    assert RunnerOk(full, base, w, id);
  }

  /** Nothing but a failure makes a runner fail, and a failure does unless the runner has ended. */
  lemma FailsExactly(full: seq<string>, base: nat, w: World, e: Event, id: Id)
    requires Inv(full, base, w) && id in w.runners
    ensures Happen(w, e).runners[id].pc == Failed <==>
              w.runners[id].pc == Failed
              || (e == Event(id, true) && w.runners[id].pc != Returned && w.runners[id].pc != Refused)
  {
    if e == Event(id, false) && Advance(w, id).Some? { AdvanceNeverFails(full, base, w, id); }
  }

  /** The `i`th event is a failure that meets the runner before it has ended. */
  ghost predicate FailsAt(w: World, events: seq<Event>, id: Id, i: int)
    requires id in w.runners
  {
    && 0 <= i < |events| && events[i] == Event(id, true)
    && !Ended(Run(w, events[..i]).runners[id].pc)
  }

  /** Over whole runs: a runner has failed if and only if a failure met it before it had ended. */
  lemma {:induction false} FailedExactly(
    full: seq<string>, base: nat, w: World, events: seq<Event>, id: Id)
    requires Inv(full, base, w) && id in w.runners && w.runners[id].pc != Failed
    ensures Run(w, events).runners[id].pc == Failed <==> exists i :: FailsAt(w, events, id, i)
    decreases |events|
  {
    if events != [] {
      var e, rest := events[0], events[1..];
      var next := Happen(w, e);
      FailsExactly(full, base, w, e, id);
      HappenInv(full, base, w, e);
      if next.runners[id].pc == Failed {
        assert events[..0] == [] && FailsAt(w, events, id, 0);
        FailedStays(next, rest, id);
      } else {
        assert !FailsAt(w, events, id, 0) by { assert events[..0] == []; }
        FailedExactly(full, base, next, rest, id);
        if i :| FailsAt(next, rest, id, i) { FailsLater(w, events, id, i + 1); }
        if i :| FailsAt(w, events, id, i) { FailsLater(w, events, id, i); }
      }
    }
  }

  lemma FailsLater(w: World, events: seq<Event>, id: Id, i: int)
    requires id in w.runners && events != [] && i > 0
    ensures FailsAt(w, events, id, i) <==> FailsAt(Happen(w, events[0]), events[1..], id, i - 1)
  {
    if i < |events| {
      assert events[..i][0] == events[0] && events[..i][1..] == events[1..][..i - 1];
    }
  }

  lemma {:induction false} FailedStays(w: World, events: seq<Event>, id: Id)
    requires id in w.runners && w.runners[id].pc == Failed
    ensures Run(w, events).runners[id].pc == Failed
    decreases |events|
  {
    if events != [] { FailedStays(Happen(w, events[0]), events[1..], id); }
  }

  /** A runner is refused only when the table holds something its chain does not. */
  lemma RefusesUnknown(w: World, e: Event, id: Id)
    requires id in w.runners && w.runners[id].pc != Refused
    ensures Happen(w, e).runners[id].pc == Refused ==> !AllKnown(w.rows, w.runners[id].chain)
  {
  }

  lemma RefusesOlder(full: seq<string>, base: nat, w: World, e: Event, id: Id)
    requires Inv(full, base, w) && id in w.runners
    requires w.runners[id].pc == Refused ==> |w.rows| > |w.runners[id].chain|
    ensures var w' := Happen(w, e);
            w'.runners[id].pc == Refused ==> |w'.rows| > |w.runners[id].chain|
  {
    HappenGrows(w, e);
    if w.runners[id].pc != Refused {
      RefusesUnknown(w, e, id);
      assert RunnerOk(full, base, w, id);
      KnownExactly(full, w.rows, w.runners[id].chain);
    }
  }

  /** Only an older image is refused. */
  lemma {:induction false} RefusedMeansOlder(
    full: seq<string>, base: nat, w: World, events: seq<Event>, id: Id)
    requires Inv(full, base, w) && id in w.runners
    requires w.runners[id].pc == Refused ==> |w.rows| > |w.runners[id].chain|
    ensures var w' := Run(w, events);
            w'.runners[id].pc == Refused ==> |w'.rows| > |w.runners[id].chain|
    decreases |events|
  {
    if events != [] {
      RefusesOlder(full, base, w, events[0], id);
      HappenInv(full, base, w, events[0]);
      HappenGrows(w, events[0]);
      RefusedMeansOlder(full, base, Happen(w, events[0]), events[1..], id);
    }
  }

  /** A run in which nothing fails cannot end badly: a runner that has ended has returned with its
      whole chain applied, or carries an older chain than the table. */
  lemma UnfailedEnds(full: seq<string>, w: World, events: seq<Event>, id: Id)
    requires Start(full, w) && id in w.runners && Event(id, true) !in events
    requires Ended(Run(w, events).runners[id].pc)
    ensures var w', chain := Run(w, events), w.runners[id].chain;
            (w'.runners[id].pc == Returned && chain <= Revisions(w'.rows)) || |w'.rows| > |chain|
  {
    StartInv(full, w);
    FailedExactly(full, |w.rows|, w, events, id);
    RefusedMeansOlder(full, |w.rows|, w, events, id);
    if Run(w, events).runners[id].pc == Returned { ReturnedComplete(full, w, events, id); }
  }

  // ------------------------------------------------------------------------- no run goes on forever

  /** How many of the events change where runner `id` stands. */
  function Steps(w: World, events: seq<Event>, id: Id): nat
    requires id in w.runners
    decreases |events|
  {
    if events == [] then 0
    else
      var next := Happen(w, events[0]);
      (if next.runners[id].pc != w.runners[id].pc then 1 else 0) + Steps(next, events[1..], id)
  }

  lemma HappenLowers(full: seq<string>, base: nat, w: World, e: Event, id: Id)
    requires Inv(full, base, w) && id in w.runners
    ensures var r, r' := w.runners[id], Happen(w, e).runners[id];
            if r'.pc == r.pc then Rank(r') == Rank(r) else Rank(r') < Rank(r)
  {
    RankPositive(full, base, w, id);
    HappenGrows(w, e);
    InvPlaced(full, base, w, id);
    if e.id == id && !e.crash && Advance(w, id).Some? { AdvanceLowers(w, id); }
  }

  lemma {:induction false} StepsLower(
    full: seq<string>, base: nat, w: World, events: seq<Event>, id: Id)
    requires Inv(full, base, w) && id in w.runners
    ensures Steps(w, events, id) <= Rank(w.runners[id])
    decreases |events|
  {
    RankPositive(full, base, w, id);
    if events != [] {
      HappenLowers(full, base, w, events[0], id);
      HappenInv(full, base, w, events[0]);
      StepsLower(full, base, Happen(w, events[0]), events[1..], id);
    }
  }

  /** However the runners interleave and fail, each makes a bounded number of steps: six for every
      revision of its chain and three more. With a step possible while one has not ended, every run
      that keeps giving each of them turns ends them all. */
  lemma StepsBounded(full: seq<string>, w: World, events: seq<Event>, id: Id)
    requires Start(full, w) && id in w.runners
    ensures Steps(w, events, id) <= 6 * |w.runners[id].chain| + 3
  {
    StartInv(full, w);
    StepsLower(full, |w.rows|, w, events, id);
  }
}
