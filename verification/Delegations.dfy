/**
  Delegation periods under concurrent transactions. Sessions interleave at every step: a statement
  takes the lock of the row it changes, the trigger takes the advisory lock of the delegator, looks
  for an overlap among committed rows and its own, and the row is written; locks are held to the end
  of the transaction.
 */
module Delegations {
  import opened Wrappers

  type Id = nat
  type Sid = nat

  datatype Delegation = Delegation(
    org: string,
    delegator: string,
    delegate: string,
    starts: int,
    ends: int,
    types: Option<seq<string>>,
    revoked: bool)

  type Rows = map<Id, Delegation>

  const LONGEST: int := 366 * 24 * 60 * 60 * 1_000_000  // microseconds

  /** The checks on one row by itself. */
  predicate RowOk(d: Delegation) {
    && d.starts < d.ends
    && d.delegator != d.delegate
    && d.ends <= d.starts + LONGEST
    && (d.types.Some? ==> |d.types.value| > 0)
  }

  predicate SameOwner(a: Delegation, b: Delegation) { a.org == b.org && a.delegator == b.delegator }

  /** Do the half-open periods share an instant? */
  predicate Overlap(a: Delegation, b: Delegation) {
    a.starts < a.ends && b.starts < b.ends && a.starts < b.ends && b.starts < a.ends
  }

  predicate Clash(a: Delegation, b: Delegation) {
    !a.revoked && !b.revoked && SameOwner(a, b) && Overlap(a, b)
  }

  /** The trigger's query finds nothing. */
  predicate ClearOf(rows: Rows, id: Id, row: Delegation) {
    forall d :: d in rows && d != id ==> !Clash(rows[d], row)
  }

  ghost predicate NoClash(rows: Rows) {
    forall a, b :: a in rows && b in rows && a != b ==> !Clash(rows[a], rows[b])
  }

  ghost predicate AllOk(rows: Rows) { forall id :: id in rows ==> RowOk(rows[id]) }

  // ------------------------------------------------------------------------- sessions

  datatype Phase =
    | Ready
    | Aimed(id: Id, row: Delegation, added: bool)    // statement begun, trigger not yet run
    | Keyed(id: Id, row: Delegation, added: bool)    // advisory lock held
    | Cleared(id: Id, row: Delegation, added: bool)  // trigger returned the row

  /** A session and what its open transaction has written; None is a deleted row. */
  datatype Session = Session(phase: Phase, writes: map<Id, Option<Delegation>>)

  datatype World = World(
    committed: Rows,
    sessions: map<Sid, Session>,
    rowLocks: map<Id, Sid>,
    keyLocks: map<int, Sid>)

  /** The hash of organization and delegator; it may collide. */
  type Hash = (string, string) -> int

  function KeyOf(h: Hash, d: Delegation): int { h(d.org, d.delegator) }

  /** What a transaction sees: the committed rows with its own writes over them. */
  function View(committed: Rows, writes: map<Id, Option<Delegation>>): Rows {
    map id | id in committed.Keys + writes.Keys && (id in writes ==> writes[id].Some?)
      :: if id in writes then writes[id].value else committed[id]
  }

  function Sees(w: World, s: Sid): Rows
    requires s in w.sessions
  {
    View(w.committed, w.sessions[s].writes)
  }

  predicate Free<K>(locks: map<K, Sid>, k: K, s: Sid) { k in locks ==> locks[k] == s }

  function Release<K>(locks: map<K, Sid>, s: Sid): map<K, Sid> {
    map k | k in locks && locks[k] != s :: locks[k]
  }

  function Finish(w: World, s: Sid, committed: Rows): World {
    World(committed, w.sessions[s := Session(Ready, map[])],
          Release(w.rowLocks, s), Release(w.keyLocks, s))
  }

  function Rollback(w: World, s: Sid): World { Finish(w, s, w.committed) }

  function Go(w: World, s: Sid, phase: Phase): World
    requires s in w.sessions
  {
    w.(sessions := w.sessions[s := w.sessions[s].(phase := phase)])
  }

  function Put(w: World, s: Sid, id: Id, row: Option<Delegation>): World
    requires s in w.sessions
  {
    w.(rowLocks := w.rowLocks[id := s],
       sessions := w.sessions[s := Session(Ready, w.sessions[s].writes[id := row])])
  }

  datatype Event =
    | Insert(s: Sid, id: Id, row: Delegation)
    | Update(s: Sid, id: Id, row: Delegation)
    | Delete(s: Sid, id: Id)
    | Trigger(s: Sid)   // take the advisory lock, or pass a revoked row
    | Check(s: Sid)
    | Write(s: Sid)
    | Commit(s: Sid)
    | Abort(s: Sid)

  /** An update waits for the row's lock, then finds the row or does nothing. */
  function AimUpdate(w: World, s: Sid, id: Id, row: Delegation): World
    requires s in w.sessions
  {
    if !Free(w.rowLocks, id, s) || id !in Sees(w, s) then w
    else Go(w, s, Aimed(id, row, false)).(rowLocks := w.rowLocks[id := s])
  }

  function DeleteRow(w: World, s: Sid, id: Id): World
    requires s in w.sessions
  {
    if !Free(w.rowLocks, id, s) || id !in Sees(w, s) then w else Put(w, s, id, None)
  }

  function RunTrigger(h: Hash, w: World, s: Sid): World
    requires s in w.sessions && w.sessions[s].phase.Aimed?
  {
    var p := w.sessions[s].phase;
    if p.row.revoked then Go(w, s, Cleared(p.id, p.row, p.added))
    else if !Free(w.keyLocks, KeyOf(h, p.row), s) then w
    else Go(w, s, Keyed(p.id, p.row, p.added)).(keyLocks := w.keyLocks[KeyOf(h, p.row) := s])
  }

  function RunCheck(w: World, s: Sid): World
    requires s in w.sessions && w.sessions[s].phase.Keyed?
  {
    var p := w.sessions[s].phase;
    if p.row.starts <= p.row.ends && ClearOf(Sees(w, s), p.id, p.row) then
      Go(w, s, Cleared(p.id, p.row, p.added))
    else Rollback(w, s)
  }

  /** The row goes in unless a check or the primary key refuses it; an insert waits for another
      session's row of the same key. */
  function RunWrite(w: World, s: Sid): World
    requires s in w.sessions && w.sessions[s].phase.Cleared?
  {
    var p := w.sessions[s].phase;
    if !RowOk(p.row) then Rollback(w, s)
    else if !Free(w.rowLocks, p.id, s) then w
    else if p.added && p.id in Sees(w, s) then Rollback(w, s)
    else Put(w, s, p.id, Some(p.row))
  }

  /** Any event; one that has to wait, or that its session is not ready for, changes nothing. */
  function Happen(h: Hash, w: World, e: Event): World {
    if e.s !in w.sessions then w else
      var phase := w.sessions[e.s].phase;
      match e
      case Insert(s, id, row) => if phase.Ready? then Go(w, s, Aimed(id, row, true)) else w
      case Update(s, id, row) => if phase.Ready? then AimUpdate(w, s, id, row) else w
      case Delete(s, id) => if phase.Ready? then DeleteRow(w, s, id) else w
      case Trigger(s) => if phase.Aimed? then RunTrigger(h, w, s) else w
      case Check(s) => if phase.Keyed? then RunCheck(w, s) else w
      case Write(s) => if phase.Cleared? then RunWrite(w, s) else w
      case Commit(s) => if phase.Ready? then Finish(w, s, Sees(w, s)) else w
      case Abort(s) => Rollback(w, s)
  }

  function Run(h: Hash, w: World, events: seq<Event>): World
    decreases |events|
  {
    if events == [] then w else Run(h, Happen(h, w, events[0]), events[1..])
  }

  // ------------------------------------------------------------------------- what the guard means

  predicate Covers(d: Delegation, at: int) { d.starts <= at < d.ends }

  /** Another live row of that organization and delegator shares an instant with the row. */
  ghost predicate Taken(rows: Rows, id: Id, row: Delegation) {
    exists d, at :: d in rows && d != id && !rows[d].revoked
                    && rows[d].org == row.org && rows[d].delegator == row.delegator
                    && Covers(rows[d], at) && Covers(row, at)
  }

  /** No two live rows of one organization and delegator share an instant. */
  ghost predicate Disjoint(rows: Rows) {
    forall id :: id in rows && !rows[id].revoked ==> !Taken(rows, id, rows[id])
  }

  /** A row that its own checks accept: a period that is not empty and no longer than 366 days, given
      to somebody else, for all documents or at least one type of them. */
  predicate Sound(d: Delegation) {
    && d.starts < d.ends <= d.starts + 366 * 24 * 60 * 60 * 1_000_000
    && d.delegator != d.delegate
    && d.types != Some([])
  }

  /** Periods that overlap have their later start in common, and only they have an instant in
      common. */
  lemma OverlapExact(a: Delegation, b: Delegation)
    ensures Overlap(a, b) <==> exists at :: Covers(a, at) && Covers(b, at)
  {
    if Overlap(a, b) {
      var at := if a.starts < b.starts then b.starts else a.starts;
      assert Covers(a, at) && Covers(b, at);
    }
  }

  /** The trigger's query finds nothing if and only if the period is not taken. */
  lemma ClearExact(rows: Rows, id: Id, row: Delegation)
    ensures ClearOf(rows, id, row) <==> row.revoked || !Taken(rows, id, row)
  {
    if !row.revoked && Taken(rows, id, row) {
      var d, at :| d in rows && d != id && !rows[d].revoked
                   && rows[d].org == row.org && rows[d].delegator == row.delegator
                   && Covers(rows[d], at) && Covers(row, at);
      OverlapExact(rows[d], row);
    }
    if d :| d in rows && d != id && Clash(rows[d], row) {
      OverlapExact(rows[d], row);
    }
  }

  lemma ClashExact(rows: Rows)
    ensures NoClash(rows) <==> Disjoint(rows)
  {
    forall id | id in rows ensures ClearOf(rows, id, rows[id]) <==>
      rows[id].revoked || !Taken(rows, id, rows[id])
    {
      ClearExact(rows, id, rows[id]);
    }
    if Disjoint(rows) {
      forall a, b | a in rows && b in rows && a != b ensures !Clash(rows[a], rows[b]) {
        assert ClearOf(rows, b, rows[b]);
      }
    }
  }

  lemma PutClash(rows: Rows, id: Id, row: Delegation)
    requires NoClash(rows)
    ensures ClearOf(rows, id, row) <==> NoClash(rows[id := row])
  {
    var next := rows[id := row];
    if NoClash(next) {
      forall d | d in rows && d != id ensures !Clash(rows[d], row) {
        assert !Clash(next[d], next[id]);
      }
    }
  }

  /** The guard is exact: the trigger lets a row pass if and only if the transaction's rows with that
      row put in have no two live periods of one delegator that share an instant. */
  lemma GuardExact(rows: Rows, id: Id, row: Delegation)
    requires Disjoint(rows)
    ensures ClearOf(rows, id, row) <==> Disjoint(rows[id := row])
  {
    ClashExact(rows);
    ClashExact(rows[id := row]);
    PutClash(rows, id, row);
  }
}
