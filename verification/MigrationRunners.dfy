/**
  Concurrent migration runners as a state machine. Each runner takes the advisory lock for one
  transaction per revision; runners interleave at every statement, and any of them may fail at any
  point, which rolls its open transaction back and frees the lock.
 */
module MigrationRunners {
  import opened Collections
  import opened Wrappers

  type Id = nat

  /** A committed row of schema_migration. The author is history: the table does not store it. */
  datatype Row = Row(revision: string, author: Id)

  datatype Pc =
    | Waiting              // connected, first transaction not begun
    | Checking             // first transaction: lock held
    | Between(k: nat)      // no transaction open, revision k next
    | Locked(k: nat)       // transaction for revision k: lock held, table not read yet
    | Pending(k: nat)      // table read, revision k not there
    | Upgraded(k: nat)     // upgrade of revision k has run
    | Inserted(k: nat)     // its row is inserted and reported, not committed
    | Returned
    | Refused              // the table holds a revision unknown to this runner
    | Failed               // an exception

  datatype Runner = Runner(chain: seq<string>, pc: Pc, appliedHere: seq<string>)

  datatype World = World(rows: seq<Row>, lock: Option<Id>, runners: map<Id, Runner>)

  function Revisions(rows: seq<Row>): (r: seq<string>)
    ensures |r| == |rows| && forall i :: 0 <= i < |rows| ==> r[i] == rows[i].revision
  {
    seq(|rows|, i requires 0 <= i < |rows| => rows[i].revision)
  }

  predicate AllKnown(rows: seq<Row>, chain: seq<string>) {
    forall i :: 0 <= i < |rows| ==> rows[i].revision in chain
  }

  predicate Holds(pc: Pc) {
    pc.Checking? || pc.Locked? || pc.Pending? || pc.Upgraded? || pc.Inserted?
  }

  predicate Ended(pc: Pc) { pc.Returned? || pc.Refused? || pc.Failed? }

  function Move(w: World, id: Id, lock: Option<Id>, pc: Pc): World
    requires id in w.runners
  {
    w.(lock := lock, runners := w.runners[id := w.runners[id].(pc := pc)])
  }

  /** One statement of runner `id`, or None when it waits for the lock or has ended. */
  function Advance(w: World, id: Id): Option<World>
    requires id in w.runners
  {
    var r := w.runners[id];
    match r.pc
    case Waiting => if w.lock == None then Some(Move(w, id, Some(id), Checking)) else None
    case Checking =>
      Some(Move(w, id, None, if AllKnown(w.rows, r.chain) then Between(0) else Refused))
    case Between(k) =>
      if k >= |r.chain| then Some(Move(w, id, w.lock, Returned))
      else if w.lock == None then Some(Move(w, id, Some(id), Locked(k)))
      else None
    case Locked(k) =>
      if !AllKnown(w.rows, r.chain) then Some(Move(w, id, None, Refused))
      else if k < |r.chain| && r.chain[k] in Revisions(w.rows) then
        Some(Move(w, id, None, Between(k + 1)))
      else Some(Move(w, id, w.lock, Pending(k)))
    case Pending(k) => Some(Move(w, id, w.lock, Upgraded(k)))
    case Upgraded(k) =>
      if k >= |r.chain| || r.chain[k] in Revisions(w.rows) then
        Some(Move(w, id, None, Failed))  // the primary key refuses the row
      else
        Some(w.(runners := w.runners[id := Runner(r.chain, Inserted(k), r.appliedHere + [r.chain[k]])]))
    case Inserted(k) =>
      if k >= |r.chain| then None
      else
        Some(World(w.rows + [Row(r.chain[k], id)], None,
                   w.runners[id := r.(pc := Between(k + 1))]))
    case Returned => None
    case Refused => None
    case Failed => None
  }

  /** A failure at any point: the open transaction is rolled back and its lock freed. */
  function Crash(w: World, id: Id): World
    requires id in w.runners
  {
    var pc := w.runners[id].pc;
    if Ended(pc) then w else Move(w, id, if Holds(pc) then None else w.lock, Failed)
  }

  datatype Event = Event(id: Id, crash: bool)

  /** Any event: a blocked or ended runner, or one that does not exist, changes nothing. */
  function Happen(w: World, e: Event): (w': World)
    ensures w'.runners.Keys == w.runners.Keys
  {
    if e.id !in w.runners then w
    else if e.crash then Crash(w, e.id)
    else match Advance(w, e.id)
         case None => w
         case Some(w') => w'
  }

  function Run(w: World, events: seq<Event>): (w': World)
    ensures w'.runners.Keys == w.runners.Keys
    decreases |events|
  {
    if events == [] then w else Run(Happen(w, events[0]), events[1..])
  }

  // ------------------------------------------------------------------------- the invariant

  /** The revisions of the rows from `from` on that runner `id` has committed, in order. */
  function Mine(rows: seq<Row>, from: nat, id: Id): seq<string>
    decreases |rows|
  {
    if |rows| <= from then []
    else
      var before := Mine(rows[..|rows| - 1], from, id);
      var last := rows[|rows| - 1];
      if last.author == id then before + [last.revision] else before
  }

  /** What is true of one runner when the full chain is `full` and `base` rows were there at the start. */
  ghost predicate RunnerOk(full: seq<string>, base: nat, w: World, id: Id)
    requires id in w.runners
  {
    var r := w.runners[id];
    var m := |w.rows|;
    && r.chain <= full
    && (Holds(r.pc) <==> w.lock == Some(id))
    && match r.pc
       case Waiting => r.appliedHere == Mine(w.rows, base, id)
       case Checking => r.appliedHere == Mine(w.rows, base, id)
       case Between(k) => k <= |r.chain| && k <= m && r.appliedHere == Mine(w.rows, base, id)
       case Locked(k) => k < |r.chain| && k <= m && r.appliedHere == Mine(w.rows, base, id)
       case Pending(k) => k < |r.chain| && k == m && r.appliedHere == Mine(w.rows, base, id)
       case Upgraded(k) => k < |r.chain| && k == m && r.appliedHere == Mine(w.rows, base, id)
       case Inserted(k) =>
         k < |r.chain| && k == m && r.appliedHere == Mine(w.rows, base, id) + [r.chain[k]]
       case Returned => |r.chain| <= m && r.appliedHere == Mine(w.rows, base, id)
       case _ => true
  }

  ghost predicate Inv(full: seq<string>, base: nat, w: World) {
    && Distinct(full)
    && base <= |w.rows|
    && Revisions(w.rows) <= full
    && (w.lock.Some? ==> w.lock.value in w.runners)
    && (forall i :: base <= i < |w.rows| ==> w.rows[i].author in w.runners)
    && forall id :: id in w.runners ==> RunnerOk(full, base, w, id)
  }

  /** A start: the table holds a prefix of the full chain, and every runner carries a prefix of it,
      the whole of it or an older one. */
  ghost predicate Start(full: seq<string>, w: World) {
    && Distinct(full) && Revisions(w.rows) <= full && w.lock == None
    && forall id :: id in w.runners ==>
         w.runners[id].chain <= full && w.runners[id].pc == Waiting && w.runners[id].appliedHere == []
  }

  lemma StartInv(full: seq<string>, w: World)
    requires Start(full, w)
    ensures Inv(full, |w.rows|, w)
  {
  }

  /** Where a revision of a prefix chain stands in the table. */
  lemma Position(full: seq<string>, rows: seq<Row>, chain: seq<string>, k: nat)
    requires Distinct(full) && Revisions(rows) <= full && chain <= full && k < |chain|
    ensures chain[k] in Revisions(rows) <==> k < |rows|
  {
    if k < |rows| { assert Revisions(rows)[k] == full[k] == chain[k]; }
    if chain[k] in Revisions(rows) {
      var i :| 0 <= i < |rows| && Revisions(rows)[i] == chain[k];
      assert full[i] == full[k];
    }
  }

  /** Changing one runner's place, and the lock only to or from it, leaves the others as they were. */
  lemma OthersKept(full: seq<string>, base: nat, w: World, w': World, id: Id, other: Id)
    requires Inv(full, base, w) && id in w.runners && other in w.runners && other != id
    requires w'.rows == w.rows && other in w'.runners && w'.runners[other] == w.runners[other]
    requires w'.lock == w.lock || (w.lock == None && w'.lock == Some(id))
             || (w.lock == Some(id) && w'.lock == None)
    ensures RunnerOk(full, base, w', other)
  {
  }

  lemma MoveInv(full: seq<string>, base: nat, w: World, w': World, id: Id)
    requires Inv(full, base, w) && id in w.runners
    requires w'.rows == w.rows && w'.runners.Keys == w.runners.Keys
    requires forall other :: other in w.runners && other != id ==>
               w'.runners[other] == w.runners[other]
    requires w'.lock == w.lock || (w.lock == None && w'.lock == Some(id))
             || (w.lock == Some(id) && w'.lock == None)
    requires RunnerOk(full, base, w', id)
    ensures Inv(full, base, w')
  {
    forall other | other in w'.runners ensures RunnerOk(full, base, w', other) {
      if other != id { OthersKept(full, base, w, w', id, other); }
    }
  }

  lemma AdvanceInv(full: seq<string>, base: nat, w: World, id: Id)
    requires Inv(full, base, w) && id in w.runners && Advance(w, id).Some?
    ensures Inv(full, base, Advance(w, id).value)
  {
    if w.runners[id].pc.Inserted? {
      CommitInv(full, base, w, id, w.runners[id].pc.k);
    } else {
      AdvanceSelf(full, base, w, id);
      MoveInv(full, base, w, Advance(w, id).value, id);
    }
  }

  /** A statement other than a commit keeps the invariant of the runner that makes it. */
  lemma AdvanceSelf(full: seq<string>, base: nat, w: World, id: Id)
    requires Inv(full, base, w) && id in w.runners && !w.runners[id].pc.Inserted?
    ensures match Advance(w, id)
            case None => true
            case Some(w') =>
              && w'.rows == w.rows && w'.runners.Keys == w.runners.Keys
              && (w'.lock == w.lock || (w.lock == None && w'.lock == Some(id))
                  || (w.lock == Some(id) && w'.lock == None))
              && RunnerOk(full, base, w', id)
  {
    var r := w.runners[id];
    assert RunnerOk(full, base, w, id);
    if (r.pc.Locked? || r.pc.Upgraded?) && r.pc.k < |r.chain| {
      Position(full, w.rows, r.chain, r.pc.k);
    }
  }

  /** Committing revision k extends the prefix by one and credits the committing runner alone. */
  lemma CommitInv(full: seq<string>, base: nat, w: World, id: Id, k: nat)
    requires Inv(full, base, w) && id in w.runners && w.runners[id].pc == Inserted(k)
    ensures Advance(w, id).Some? && Inv(full, base, Advance(w, id).value)
  {
    var r := w.runners[id];
    assert RunnerOk(full, base, w, id);
    var w' := Advance(w, id).value;
    var row := Row(r.chain[k], id);
    assert w'.rows == w.rows + [row];
    assert Revisions(w'.rows) == Revisions(w.rows) + [full[k]];
    assert w'.rows[..|w'.rows| - 1] == w.rows;
    forall other | other in w'.runners ensures RunnerOk(full, base, w', other) {
      assert RunnerOk(full, base, w, other);
      if other != id {
        assert w'.runners[other] == w.runners[other];
        assert Mine(w'.rows, base, other) == Mine(w.rows, base, other);
      }
    }
  }

  lemma HappenInv(full: seq<string>, base: nat, w: World, e: Event)
    requires Inv(full, base, w)
    ensures Inv(full, base, Happen(w, e))
  {
    if e.id in w.runners {
      if e.crash {
        assert RunnerOk(full, base, w, e.id);
        if !Ended(w.runners[e.id].pc) { MoveInv(full, base, w, Crash(w, e.id), e.id); }
      } else if Advance(w, e.id).Some? {
        AdvanceInv(full, base, w, e.id);
      }
    }
  }

  /** Rows are only appended; runners neither appear nor change the chain they carry. */
  lemma HappenGrows(w: World, e: Event)
    ensures w.rows <= Happen(w, e).rows
    ensures forall id :: id in w.runners ==> Happen(w, e).runners[id].chain == w.runners[id].chain
  {
  }

  /** Over every run, whatever the number of runners, their interleaving and their failures. */
  lemma {:induction false} RunInv(full: seq<string>, base: nat, w: World, events: seq<Event>)
    requires Inv(full, base, w)
    ensures Inv(full, base, Run(w, events)) && w.rows <= Run(w, events).rows
    ensures forall id :: id in w.runners ==> Run(w, events).runners[id].chain == w.runners[id].chain
    decreases |events|
  {
    if events != [] {
      HappenInv(full, base, w, events[0]);
      HappenGrows(w, events[0]);
      RunInv(full, base, Happen(w, events[0]), events[1..]);
    }
  }

  // ------------------------------------------------------------------------- what runs guarantee

  /** Safety: at every moment of every run the committed revisions are a prefix of the chain, each
      once, and nothing committed before is lost. */
  lemma CommittedPrefix(full: seq<string>, w: World, events: seq<Event>)
    requires Start(full, w)
    ensures var rows := Run(w, events).rows;
            w.rows <= rows && Revisions(rows) <= full && Distinct(Revisions(rows))
  {
    StartInv(full, w);
    RunInv(full, |w.rows|, w, events);
  }

  lemma {:induction false} MineExactly(rows: seq<Row>, from: nat, id: Id, x: string)
    ensures x in Mine(rows, from, id)
            <==> exists i :: from <= i < |rows| && rows[i] == Row(x, id)
    decreases |rows|
  {
    if |rows| > from {
      var before, last := rows[..|rows| - 1], rows[|rows| - 1];
      MineExactly(before, from, id, x);
      if i :| from <= i < |before| && before[i] == Row(x, id) {
        assert rows[i] == Row(x, id);
      }
      if i :| from <= i < |rows| && rows[i] == Row(x, id) {
        assert i < |before| ==> before[i] == Row(x, id);
      }
    }
  }

  /** A runner that returns normally leaves its whole chain applied, and reports exactly the
      revisions it committed itself, in order. */
  lemma ReturnedComplete(full: seq<string>, w: World, events: seq<Event>, id: Id)
    requires Start(full, w) && id in w.runners && Run(w, events).runners[id].pc.Returned?
    ensures var w' := Run(w, events);
            && w.runners[id].chain <= Revisions(w'.rows)
            && w'.runners[id].appliedHere == Mine(w'.rows, |w.rows|, id)
  {
    StartInv(full, w);
    RunInv(full, |w.rows|, w, events);
    assert RunnerOk(full, |w.rows|, Run(w, events), id);
  }

  /** No revision is reported by two runners. */
  lemma ReportsDisjoint(full: seq<string>, w: World, events: seq<Event>, a: Id, b: Id, x: string)
    requires Start(full, w) && a in w.runners && b in w.runners && a != b
    requires Run(w, events).runners[a].pc.Returned? && Run(w, events).runners[b].pc.Returned?
    requires x in Run(w, events).runners[a].appliedHere
    ensures x !in Run(w, events).runners[b].appliedHere
  {
    ReturnedComplete(full, w, events, a);
    ReturnedComplete(full, w, events, b);
    CommittedPrefix(full, w, events);
    MineDisjoint(Run(w, events).rows, |w.rows|, a, b, x);
  }

  lemma MineDisjoint(rows: seq<Row>, from: nat, a: Id, b: Id, x: string)
    requires Distinct(Revisions(rows)) && a != b && x in Mine(rows, from, a)
    ensures x !in Mine(rows, from, b)
  {
    MineExactly(rows, from, a, x);
    MineExactly(rows, from, b, x);
    var i :| from <= i < |rows| && rows[i] == Row(x, a);
    forall j | from <= j < |rows| ensures rows[j] != Row(x, b) {
      assert Revisions(rows)[i] == x && Revisions(rows)[j] == rows[j].revision;
    }
  }

  /** Nothing is applied anonymously: every new row was committed by one of the runners, and that
      runner, if it has returned, has reported it. */
  lemma EveryRowAccounted(full: seq<string>, w: World, events: seq<Event>, i: nat)
    requires Start(full, w) && |w.rows| <= i < |Run(w, events).rows|
    ensures var w' := Run(w, events);
            var row := w'.rows[i];
            && row.author in w'.runners
            && (w'.runners[row.author].pc.Returned? ==>
                  row.revision in w'.runners[row.author].appliedHere)
  {
    StartInv(full, w);
    RunInv(full, |w.rows|, w, events);
    var w' := Run(w, events);
    MineExactly(w'.rows, |w.rows|, w'.rows[i].author, w'.rows[i].revision);
    assert RunnerOk(full, |w.rows|, w', w'.rows[i].author);
  }

  /** An upgrade only ever runs on a database that holds exactly the revisions before it, and the
      primary key never has to refuse its row. */
  lemma UpgradesRunInOrder(full: seq<string>, w: World, events: seq<Event>, id: Id, k: nat)
    requires Start(full, w) && id in w.runners
    requires Run(w, events).runners[id].pc in {Pending(k), Upgraded(k), Inserted(k)}
    ensures var w' := Run(w, events);
            && k < |w.runners[id].chain|
            && Revisions(w'.rows) == w.runners[id].chain[..k]
            && (w'.runners[id].pc == Upgraded(k) ==>
                  Advance(w', id).value.runners[id].pc == Inserted(k))
  {
    StartInv(full, w);
    RunInv(full, |w.rows|, w, events);
    var w' := Run(w, events);
    assert RunnerOk(full, |w.rows|, w', id);
    Position(full, w'.rows, w.runners[id].chain, k);
  }

  /** Two runners are never inside a transaction together. */
  lemma OneTransaction(full: seq<string>, w: World, events: seq<Event>, a: Id, b: Id)
    requires Start(full, w) && a in w.runners && b in w.runners
    requires Holds(Run(w, events).runners[a].pc) && Holds(Run(w, events).runners[b].pc)
    ensures a == b
  {
    StartInv(full, w);
    RunInv(full, |w.rows|, w, events);
    assert RunnerOk(full, |w.rows|, Run(w, events), a);
    assert RunnerOk(full, |w.rows|, Run(w, events), b);
  }

  /** No deadlock: while a runner has not ended, some runner can take a step. */
  lemma SomeoneCanStep(full: seq<string>, w: World, events: seq<Event>, id: Id) returns (next: Id)
    requires Start(full, w) && id in w.runners && !Ended(Run(w, events).runners[id].pc)
    ensures next in w.runners && Advance(Run(w, events), next).Some?
  {
    StartInv(full, w);
    RunInv(full, |w.rows|, w, events);
    var w' := Run(w, events);
    next := if w'.lock.Some? then w'.lock.value else id;
    assert RunnerOk(full, |w.rows|, w', next);
  }

  /** An older image is refused by a newer database: the next time it reads the table, it stops. */
  lemma OlderImageRefused(full: seq<string>, w: World, events: seq<Event>, id: Id)
    requires Start(full, w) && id in w.runners
    requires |Run(w, events).rows| > |w.runners[id].chain|
    requires Run(w, events).runners[id].pc.Checking? || Run(w, events).runners[id].pc.Locked?
    ensures Advance(Run(w, events), id).value.runners[id].pc.Refused?
  {
    StartInv(full, w);
    RunInv(full, |w.rows|, w, events);
    var w', chain := Run(w, events), w.runners[id].chain;
    assert RunnerOk(full, |w.rows|, w', id);
    var n := |chain|;
    assert Revisions(w'.rows)[n] == full[n];
    forall i | 0 <= i < n ensures chain[i] != full[n] {
      assert chain[i] == full[i];
    }
    assert w'.rows[n].revision !in chain;
  }

  /** Once the table holds all of its chain, or more, a runner's events commit nothing. */
  lemma CommitsNoMore(full: seq<string>, base: nat, w: World, e: Event, id: Id)
    requires Inv(full, base, w) && id in w.runners && |w.runners[id].chain| <= |w.rows|
    ensures Mine(Happen(w, e).rows, base, id) == Mine(w.rows, base, id)
  {
    assert RunnerOk(full, base, w, id);
    var rows := Happen(w, e).rows;
    if rows != w.rows {
      assert rows[..|rows| - 1] == w.rows;
      assert e.id != id;
    }
  }

  lemma {:induction false} RunCommitsNoMore(
    full: seq<string>, base: nat, w: World, events: seq<Event>, id: Id)
    requires Inv(full, base, w) && id in w.runners && |w.runners[id].chain| <= |w.rows|
    ensures Mine(Run(w, events).rows, base, id) == Mine(w.rows, base, id)
    decreases |events|
  {
    if events != [] {
      CommitsNoMore(full, base, w, events[0], id);
      HappenInv(full, base, w, events[0]);
      HappenGrows(w, events[0]);
      RunCommitsNoMore(full, base, Happen(w, events[0]), events[1..], id);
    }
  }

  /** An older image commits nothing more: from the moment the table holds its whole chain, no later
      run has a row of its making that was not there already. */
  lemma OlderImageStops(full: seq<string>, w: World, events: seq<Event>, later: seq<Event>, id: Id)
    requires Start(full, w) && id in w.runners
    requires |w.runners[id].chain| <= |Run(w, events).rows|
    ensures var now := Run(w, events);
            && now.rows <= Run(now, later).rows
            && Mine(Run(now, later).rows, |w.rows|, id) == Mine(now.rows, |w.rows|, id)
  {
    StartInv(full, w);
    RunInv(full, |w.rows|, w, events);
    RunInv(full, |w.rows|, Run(w, events), later);
    RunCommitsNoMore(full, |w.rows|, Run(w, events), later, id);
  }
}
