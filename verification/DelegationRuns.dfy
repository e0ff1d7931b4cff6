/** What every interleaving of delegation transactions keeps. */
module DelegationRuns {
  import opened Wrappers
  import opened Delegations

  predicate RowHeld(w: World, s: Sid, id: Id) { id in w.rowLocks && w.rowLocks[id] == s }

  predicate KeyHeld(h: Hash, w: World, s: Sid, d: Delegation) {
    KeyOf(h, d) in w.keyLocks && w.keyLocks[KeyOf(h, d)] == s
  }

  ghost predicate PhaseOk(h: Hash, w: World, s: Sid)
    requires s in w.sessions
  {
    match w.sessions[s].phase
    case Ready => true
    case Aimed(id, row, added) => !added ==> RowHeld(w, s, id)
    case Keyed(id, row, added) => (!added ==> RowHeld(w, s, id)) && KeyHeld(h, w, s, row)
    case Cleared(id, row, added) =>
      && (!added ==> RowHeld(w, s, id))
      && (!row.revoked ==> KeyHeld(h, w, s, row))
      && ClearOf(Sees(w, s), id, row)
  }

  /** Every written row is locked, and a live one's owner is locked too. */
  ghost predicate WritesHeld(h: Hash, w: World, s: Sid)
    requires s in w.sessions
  {
    var writes := w.sessions[s].writes;
    forall id :: id in writes ==>
      && RowHeld(w, s, id)
      && (writes[id].Some? && !writes[id].value.revoked ==> KeyHeld(h, w, s, writes[id].value))
  }

  ghost predicate SessionOk(h: Hash, w: World, s: Sid)
    requires s in w.sessions
  {
    NoClash(Sees(w, s)) && AllOk(Sees(w, s)) && WritesHeld(h, w, s) && PhaseOk(h, w, s)
  }

  ghost predicate Inv(h: Hash, w: World) {
    && NoClash(w.committed) && AllOk(w.committed)
    && forall s :: s in w.sessions ==> SessionOk(h, w, s)
  }

  /** The start: committed rows without overlap, and no transaction open. */
  ghost predicate Initial(w: World) {
    && NoClash(w.committed) && AllOk(w.committed)
    && w.rowLocks == map[] && w.keyLocks == map[]
    && forall s :: s in w.sessions ==> w.sessions[s] == Session(Ready, map[])
  }

  lemma InitialInv(h: Hash, w: World)
    requires Initial(w)
    ensures Inv(h, w)
  {
    forall s | s in w.sessions ensures SessionOk(h, w, s) {
      assert Sees(w, s) == w.committed;
    }
  }

  // ------------------------------------------------------------------------- other sessions

  /** Session t keeps its transaction and every lock it holds. */
  ghost predicate Undisturbed(w: World, next: World, t: Sid)
    requires t in w.sessions
  {
    && t in next.sessions && next.sessions[t] == w.sessions[t]
    && (forall id :: RowHeld(w, t, id) ==> RowHeld(next, t, id))
    && forall k :: k in w.keyLocks && w.keyLocks[k] == t ==> k in next.keyLocks && next.keyLocks[k] == t
  }

  lemma OthersKeep(h: Hash, w: World, next: World, t: Sid)
    requires t in w.sessions && SessionOk(h, w, t) && Undisturbed(w, next, t)
    requires next.committed == w.committed
    ensures SessionOk(h, next, t)
  {
    assert Sees(next, t) == Sees(w, t);
  }

  lemma HappenUndisturbed(h: Hash, w: World, e: Event, t: Sid)
    requires t in w.sessions && t != e.s
    ensures Undisturbed(w, Happen(h, w, e), t)
  {
  }

  // ------------------------------------------------------------------------- commit

  /** Two sessions never both have a live row of one owner in writing. */
  lemma OwnersApart(h: Hash, w: World, s: Sid, t: Sid, a: Id, b: Id)
    requires s in w.sessions && t in w.sessions && s != t
    requires WritesHeld(h, w, s) && WritesHeld(h, w, t)
    requires a in w.sessions[s].writes && w.sessions[s].writes[a].Some?
    requires b in w.sessions[t].writes && w.sessions[t].writes[b].Some?
    ensures !Clash(w.sessions[s].writes[a].value, w.sessions[t].writes[b].value)
  {
  }

  lemma RowsApart(h: Hash, w: World, s: Sid, t: Sid, id: Id)
    requires s in w.sessions && t in w.sessions && s != t
    requires WritesHeld(h, w, s) && WritesHeld(h, w, t)
    ensures id in w.sessions[s].writes ==> id !in w.sessions[t].writes
  {
  }

  /** What t sees once s has committed. */
  function After(w: World, s: Sid, t: Sid): Rows
    requires s in w.sessions && t in w.sessions
  {
    View(Sees(w, s), w.sessions[t].writes)
  }

  /** A row t sees then is one it saw before, or one that s wrote and t did not touch. */
  lemma AfterOrigin(h: Hash, w: World, s: Sid, t: Sid, id: Id)
    requires s in w.sessions && t in w.sessions && s != t
    requires WritesHeld(h, w, s) && WritesHeld(h, w, t) && id in After(w, s, t)
    ensures id in w.sessions[s].writes ==>
              && id !in w.sessions[t].writes && w.sessions[s].writes[id] == Some(After(w, s, t)[id])
              && id in Sees(w, s) && Sees(w, s)[id] == After(w, s, t)[id]
    ensures id !in w.sessions[s].writes ==>
              id in Sees(w, t) && Sees(w, t)[id] == After(w, s, t)[id]
    ensures id !in w.sessions[t].writes ==>
              id in Sees(w, s) && Sees(w, s)[id] == After(w, s, t)[id]
    ensures id in w.sessions[t].writes ==> w.sessions[t].writes[id] == Some(After(w, s, t)[id])
  {
    RowsApart(h, w, s, t, id);
  }

  lemma PairApart(h: Hash, w: World, s: Sid, t: Sid, a: Id, b: Id)
    requires s in w.sessions && t in w.sessions && s != t && a != b
    requires SessionOk(h, w, s) && SessionOk(h, w, t)
    requires a in After(w, s, t) && b in After(w, s, t)
    ensures !Clash(After(w, s, t)[a], After(w, s, t)[b])
  {
    AfterOrigin(h, w, s, t, a);
    AfterOrigin(h, w, s, t, b);
    var mine, theirs := w.sessions[t].writes, w.sessions[s].writes;
    if a !in theirs && b !in theirs {
      assert !Clash(Sees(w, t)[a], Sees(w, t)[b]);
    } else if a !in mine && b !in mine {
      assert !Clash(Sees(w, s)[a], Sees(w, s)[b]);
    } else if a in theirs {
      OwnersApart(h, w, s, t, a, b);
    } else {
      OwnersApart(h, w, s, t, b, a);
    }
  }

  lemma AfterOk(h: Hash, w: World, s: Sid, t: Sid)
    requires s in w.sessions && t in w.sessions && s != t
    requires SessionOk(h, w, s) && SessionOk(h, w, t)
    ensures NoClash(After(w, s, t)) && AllOk(After(w, s, t))
  {
    var after := After(w, s, t);
    forall a, b | a in after && b in after && a != b ensures !Clash(after[a], after[b]) {
      PairApart(h, w, s, t, a, b);
    }
    forall id | id in after ensures RowOk(after[id]) {
      AfterOrigin(h, w, s, t, id);
    }
  }

  /** A row that t has checked stays clear when s commits: t holds the lock of its owner. */
  lemma AfterClear(h: Hash, w: World, s: Sid, t: Sid, id: Id, row: Delegation)
    requires s in w.sessions && t in w.sessions && s != t
    requires WritesHeld(h, w, s) && WritesHeld(h, w, t)
    requires !row.revoked ==> KeyHeld(h, w, t, row)
    requires ClearOf(Sees(w, t), id, row)
    ensures ClearOf(After(w, s, t), id, row)
  {
    var after := After(w, s, t);
    forall d | d in after && d != id ensures !Clash(after[d], row) {
      AfterOrigin(h, w, s, t, d);
      if d in w.sessions[s].writes {
        assert !after[d].revoked ==> KeyHeld(h, w, s, after[d]);
      }
    }
  }

  lemma CommitOthers(h: Hash, w: World, s: Sid, t: Sid)
    requires s in w.sessions && t in w.sessions && s != t
    requires SessionOk(h, w, s) && SessionOk(h, w, t)
    requires Undisturbed(w, Finish(w, s, Sees(w, s)), t)
    ensures SessionOk(h, Finish(w, s, Sees(w, s)), t)
  {
    var next := Finish(w, s, Sees(w, s));
    assert Sees(next, t) == After(w, s, t);
    AfterOk(h, w, s, t);
    var phase := w.sessions[t].phase;
    if phase.Cleared? {
      AfterClear(h, w, s, t, phase.id, phase.row);
    }
  }

  // ------------------------------------------------------------------------- the session itself

  lemma FinishSelf(h: Hash, w: World, s: Sid, committed: Rows)
    requires s in w.sessions && NoClash(committed) && AllOk(committed)
    ensures SessionOk(h, Finish(w, s, committed), s)
  {
    assert Sees(Finish(w, s, committed), s) == committed;
  }

  /** Changing the phase, and perhaps taking locks, disturbs nothing that the session has written. */
  lemma GoSelf(h: Hash, w: World, next: World, s: Sid, phase: Phase)
    requires s in w.sessions && SessionOk(h, w, s)
    requires next.committed == w.committed && next.sessions == Go(w, s, phase).sessions
    requires forall id :: RowHeld(w, s, id) ==> RowHeld(next, s, id)
    requires forall k :: k in w.keyLocks && w.keyLocks[k] == s ==>
                           k in next.keyLocks && next.keyLocks[k] == s
    requires PhaseOk(h, next, s)
    ensures SessionOk(h, next, s)
  {
    assert Sees(next, s) == Sees(w, s);
  }

  lemma PutSelf(h: Hash, w: World, s: Sid, id: Id, row: Option<Delegation>)
    requires s in w.sessions && SessionOk(h, w, s)
    requires row.Some? ==>
               && RowOk(row.value) && ClearOf(Sees(w, s), id, row.value)
               && (!row.value.revoked ==> KeyHeld(h, w, s, row.value))
    ensures SessionOk(h, Put(w, s, id, row), s)
  {
    var seen := Sees(w, s);
    PutSees(w, s, id, row);
    if row.Some? { PutClash(seen, id, row.value); }
    PutHeld(h, w, s, id, row);
  }

  lemma PutSees(w: World, s: Sid, id: Id, row: Option<Delegation>)
    requires s in w.sessions
    ensures Sees(Put(w, s, id, row), s) ==
              if row.Some? then Sees(w, s)[id := row.value] else Sees(w, s) - {id}
  {
  }

  lemma PutHeld(h: Hash, w: World, s: Sid, id: Id, row: Option<Delegation>)
    requires s in w.sessions && WritesHeld(h, w, s)
    requires row.Some? && !row.value.revoked ==> KeyHeld(h, w, s, row.value)
    ensures WritesHeld(h, Put(w, s, id, row), s)
  {
  }

  lemma SelfKeeps(h: Hash, w: World, e: Event)
    requires Inv(h, w) && e.s in w.sessions
    ensures SessionOk(h, Happen(h, w, e), e.s)
  {
    var s, next := e.s, Happen(h, w, e);
    var p := w.sessions[s].phase;
    assert SessionOk(h, w, s);
    match e
    case Insert(_, id, row) => if p.Ready? { GoSelf(h, w, next, s, Aimed(id, row, true)); }
    case Update(_, id, row) =>
      if p.Ready? && next != w { GoSelf(h, w, next, s, Aimed(id, row, false)); }
    case Delete(_, id) => if p.Ready? && next != w { PutSelf(h, w, s, id, None); }
    case Trigger(_) => if p.Aimed? { TriggerSelf(h, w, s); }
    case Check(_) => if p.Keyed? { CheckSelf(h, w, s); }
    case Write(_) => if p.Cleared? { WriteSelf(h, w, s); }
    case Commit(_) => if p.Ready? { FinishSelf(h, w, s, Sees(w, s)); }
    case Abort(_) => FinishSelf(h, w, s, w.committed);
  }

  lemma TriggerSelf(h: Hash, w: World, s: Sid)
    requires s in w.sessions && SessionOk(h, w, s) && w.sessions[s].phase.Aimed?
    ensures SessionOk(h, RunTrigger(h, w, s), s)
  {
    var p, next := w.sessions[s].phase, RunTrigger(h, w, s);
    if p.row.revoked {
      assert ClearOf(Sees(next, s), p.id, p.row);
      GoSelf(h, w, next, s, Cleared(p.id, p.row, p.added));
    } else if next != w {
      GoSelf(h, w, next, s, Keyed(p.id, p.row, p.added));
    }
  }

  lemma CheckSelf(h: Hash, w: World, s: Sid)
    requires Inv(h, w) && s in w.sessions && w.sessions[s].phase.Keyed?
    ensures SessionOk(h, RunCheck(w, s), s)
  {
    var p, next := w.sessions[s].phase, RunCheck(w, s);
    assert SessionOk(h, w, s);
    if p.row.starts <= p.row.ends && ClearOf(Sees(w, s), p.id, p.row) {
      assert Sees(next, s) == Sees(w, s);
      GoSelf(h, w, next, s, Cleared(p.id, p.row, p.added));
    } else {
      FinishSelf(h, w, s, w.committed);
    }
  }

  lemma WriteSelf(h: Hash, w: World, s: Sid)
    requires Inv(h, w) && s in w.sessions && w.sessions[s].phase.Cleared?
    ensures SessionOk(h, RunWrite(w, s), s)
  {
    var p, next := w.sessions[s].phase, RunWrite(w, s);
    assert SessionOk(h, w, s);
    if next == Rollback(w, s) {
      FinishSelf(h, w, s, w.committed);
    } else if next != w {
      PutSelf(h, w, s, p.id, Some(p.row));
    }
  }

  // ------------------------------------------------------------------------- runs

  /** Only a commit changes the committed rows. */
  lemma HappenCommitted(h: Hash, w: World, e: Event)
    requires Inv(h, w)
    ensures Happen(h, w, e).committed == w.committed ||
            (e.Commit? && e.s in w.sessions && w.sessions[e.s].phase.Ready?)
  {
    if e.s in w.sessions {
      match e
      case Check(s) => if w.sessions[s].phase.Keyed? { CheckCommitsNothing(w, s); }
      case Write(s) => if w.sessions[s].phase.Cleared? { WriteCommitsNothing(w, s); }
      case _ =>
    }
  }

  lemma CheckCommitsNothing(w: World, s: Sid)
    requires s in w.sessions && w.sessions[s].phase.Keyed?
    ensures RunCheck(w, s).committed == w.committed
  {
  }

  lemma WriteCommitsNothing(w: World, s: Sid)
    requires s in w.sessions && w.sessions[s].phase.Cleared?
    ensures RunWrite(w, s).committed == w.committed
  {
  }

  lemma HappenSessions(h: Hash, w: World, e: Event, t: Sid)
    ensures t in Happen(h, w, e).sessions <==> t in w.sessions
  {
  }

  lemma HappenKeeps(h: Hash, w: World, e: Event)
    requires Inv(h, w)
    ensures Inv(h, Happen(h, w, e))
  {
    var next := Happen(h, w, e);
    if e.s in w.sessions {
      HappenCommitted(h, w, e);
      assert SessionOk(h, w, e.s);
      forall t | t in next.sessions ensures SessionOk(h, next, t) {
        HappenSessions(h, w, e, t);
        if t == e.s {
          SelfKeeps(h, w, e);
        } else {
          HappenUndisturbed(h, w, e, t);
          if next.committed == w.committed { OthersKeep(h, w, next, t); } else { CommitOthers(h, w, e.s, t); }
        }
      }
    }
  }

  lemma {:induction false} RunKeeps(h: Hash, w: World, events: seq<Event>)
    requires Inv(h, w)
    ensures Inv(h, Run(h, w, events))
    decreases |events|
  {
    if events != [] {
      HappenKeeps(h, w, events[0]);
      RunKeeps(h, Happen(h, w, events[0]), events[1..]);
    }
  }

  /** For every interleaving, the committed live periods of one delegator in one organization are
      non-empty and pairwise disjoint. */
  lemma PeriodsNeverOverlap(h: Hash, w: World, events: seq<Event>, a: Id, b: Id, at: int)
    requires Initial(w)
    ensures var rows := Run(h, w, events).committed;
            a in rows && b in rows && a != b
            && !rows[a].revoked && !rows[b].revoked
            && rows[a].org == rows[b].org && rows[a].delegator == rows[b].delegator ==>
              && rows[a].starts < rows[a].ends && rows[b].starts < rows[b].ends
              && !(rows[a].starts <= at < rows[a].ends && rows[b].starts <= at < rows[b].ends)
  {
    InitialInv(h, w);
    RunKeeps(h, w, events);
    var rows := Run(h, w, events).committed;
    if a in rows && b in rows && a != b {
      assert RowOk(rows[a]) && RowOk(rows[b]) && !Clash(rows[a], rows[b]);
    }
  }

  /** A statement waits for a delegator's lock that another session holds, losing nothing of its
      transaction, and takes it once that session has committed or given up. */
  lemma WaiterProceeds(h: Hash, w: World, s: Sid, t: Sid, id: Id, row: Delegation, added: bool,
                       ends: Event)
    requires s in w.sessions && t in w.sessions && s != t && !row.revoked
    requires w.sessions[s].phase == Aimed(id, row, added)
    requires KeyHeld(h, w, t, row) && w.sessions[t].phase.Ready? && ends in {Commit(t), Abort(t)}
    ensures Happen(h, w, Trigger(s)) == w
    ensures var next := Happen(h, Happen(h, w, ends), Trigger(s));
            && KeyHeld(h, next, s, row)
            && next.sessions[s] == Session(Keyed(id, row, added), w.sessions[s].writes)
            && forall k :: RowHeld(w, s, k) ==> RowHeld(next, s, k)
  {
    var freed := Happen(h, w, ends);
    HappenUndisturbed(h, w, ends, s);
    assert KeyOf(h, row) !in freed.keyLocks;
  }

  /** A statement on a row that another session has changed waits in the same way. */
  lemma RowWaits(h: Hash, w: World, s: Sid, t: Sid, id: Id, row: Delegation)
    requires s in w.sessions && t in w.sessions && s != t && RowHeld(w, t, id)
    ensures w.sessions[s].phase == Ready ==>
              Happen(h, w, Update(s, id, row)) == w && Happen(h, w, Delete(s, id)) == w
    ensures w.sessions[s].phase == Cleared(id, row, true) && RowOk(row) ==>
              Happen(h, w, Write(s)) == w
  {
  }

  // ------------------------------------------------------------------------- one session alone

  /** One statement on its own: statement, trigger, check, write and commit. */
  function Alone(first: Event): seq<Event> {
    [first, Trigger(first.s), Check(first.s), Write(first.s), Commit(first.s)]
  }

  lemma RunFirst(h: Hash, w: World, events: seq<Event>)
    requires events != []
    ensures Run(h, w, events) == Run(h, Happen(h, w, events[0]), events[1..])
  {
  }

  lemma RunAlone(h: Hash, w: World, first: Event)
    ensures var s := first.s;
            var w1 := Happen(h, Happen(h, w, first), Trigger(s));
            Run(h, w, Alone(first)) == Happen(h, Happen(h, Happen(h, w1, Check(s)), Write(s)), Commit(s))
  {
    var s, events := first.s, Alone(first);
    RunFirst(h, w, events);
    assert events[1..] == [Trigger(s), Check(s), Write(s), Commit(s)];
    RunFirst(h, Happen(h, w, events[0]), events[1..]);
    assert events[1..][1..] == [Check(s), Write(s), Commit(s)];
    var w1 := Happen(h, Happen(h, w, first), Trigger(s));
    RunFirst(h, w1, [Check(s), Write(s), Commit(s)]);
    assert [Check(s), Write(s), Commit(s)][1..] == [Write(s), Commit(s)];
    var w2 := Happen(h, w1, Check(s));
    RunFirst(h, w2, [Write(s), Commit(s)]);
    assert [Write(s), Commit(s)][1..] == [Commit(s)];
    RunFirst(h, Happen(h, w2, Write(s)), [Commit(s)]);
  }

  /** A session alone in the middle of a statement: nothing written, and nobody else has a lock. */
  ghost predicate Undisputed(w: World, s: Sid) {
    && s in w.sessions && w.sessions[s].writes == map[]
    && (forall id :: id in w.rowLocks ==> w.rowLocks[id] == s)
    && (forall k :: k in w.keyLocks ==> w.keyLocks[k] == s)
  }

  /** The world with other committed rows, the session idle and no lock taken. */
  function Idle(w: World, s: Sid, committed: Rows): World {
    World(committed, w.sessions[s := Session(Ready, map[])], map[], map[])
  }

  /** After the trigger the session has the delegator's lock, or needs none. */
  lemma TriggeredAlone(h: Hash, w: World, s: Sid, id: Id, row: Delegation, added: bool)
    requires Undisputed(w, s) && w.sessions[s].phase == Aimed(id, row, added)
    ensures var w1 := Happen(h, w, Trigger(s));
            && Undisputed(w1, s) && w1.committed == w.committed
            && w1.sessions == w.sessions[s := Session(w1.sessions[s].phase, map[])]
            && w1.sessions[s].phase ==
                 if row.revoked then Cleared(id, row, added) else Keyed(id, row, added)
  {
  }

  /** After trigger and check the row is cleared with nothing written, or the transaction is gone. */
  lemma CheckedAlone(h: Hash, w: World, s: Sid, id: Id, row: Delegation, added: bool)
    requires Undisputed(w, s) && w.sessions[s].phase == Aimed(id, row, added)
    ensures var w2 := Happen(h, Happen(h, w, Trigger(s)), Check(s));
            && Undisputed(w2, s) && w2.committed == w.committed
            && w2.sessions == w.sessions[s := Session(w2.sessions[s].phase, map[])]
            && w2.sessions[s].phase ==
                 if ClearOf(w.committed, id, row) && (row.revoked || row.starts <= row.ends)
                 then Cleared(id, row, added) else Ready
  {
    TriggeredAlone(h, w, s, id, row, added);
    assert View(w.committed, map[]) == w.committed;
  }

  lemma FinishIdle(w: World, s: Sid, committed: Rows)
    requires s in w.sessions
    requires forall id :: id in w.rowLocks ==> w.rowLocks[id] == s
    requires forall k :: k in w.keyLocks ==> w.keyLocks[k] == s
    ensures Finish(w, s, committed) == Idle(w, s, committed)
  {
    assert forall id :: id !in Release(w.rowLocks, s);
    assert forall k :: k !in Release(w.keyLocks, s);
  }

  /** A commit by a session whose locks are the only ones. */
  lemma CommittedAlone(h: Hash, w: World, s: Sid)
    requires s in w.sessions && w.sessions[s].phase == Ready
    requires forall id :: id in w.rowLocks ==> w.rowLocks[id] == s
    requires forall k :: k in w.keyLocks ==> w.keyLocks[k] == s
    ensures Happen(h, w, Commit(s)) == Idle(w, s, Sees(w, s))
  {
    FinishIdle(w, s, Sees(w, s));
  }

  lemma SeenAlone(committed: Rows, id: Id, row: Delegation)
    ensures View(committed, map[]) == committed
    ensures View(committed, map[id := Some(row)]) == committed[id := row]
    ensures View(committed, map[id := None]) == committed - {id}
  {
  }

  /** The row is written, or the transaction is gone. */
  lemma WroteAlone(h: Hash, w: World, s: Sid, id: Id, row: Delegation, added: bool)
    requires Undisputed(w, s) && w.sessions[s].phase == Cleared(id, row, added)
    ensures Happen(h, w, Write(s)) ==
              if !(added && id in w.committed) && RowOk(row) then Put(w, s, id, Some(row))
              else Idle(w, s, w.committed)
  {
    SeenAlone(w.committed, id, row);
    FinishIdle(w, s, w.committed);
  }

  lemma WrittenAlone(h: Hash, w: World, s: Sid, id: Id, row: Delegation, added: bool)
    requires Undisputed(w, s)
    requires w.sessions[s].phase == Ready || w.sessions[s].phase == Cleared(id, row, added)
    ensures Happen(h, Happen(h, w, Write(s)), Commit(s)) ==
              Idle(w, s, if w.sessions[s].phase.Cleared? && !(added && id in w.committed) && RowOk(row)
                         then w.committed[id := row] else w.committed)
  {
    SeenAlone(w.committed, id, row);
    if w.sessions[s].phase.Cleared? { WroteAlone(h, w, s, id, row, added); }
    CommittedAlone(h, Happen(h, w, Write(s)), s);
  }

  /** What the trigger and the checks let through together. */
  lemma PassesExact(rows: Rows, id: Id, row: Delegation)
    ensures ClearOf(rows, id, row) && (row.revoked || row.starts <= row.ends) && RowOk(row) <==>
              Sound(row) && (row.revoked || !Taken(rows, id, row))
  {
    ClearExact(rows, id, row);
  }

  lemma SameIdle(w: World, later: World, s: Sid, committed: Rows)
    requires s in w.sessions && s in later.sessions
    requires later.sessions == w.sessions[s := later.sessions[s]]
    ensures Idle(later, s, committed) == Idle(w, s, committed)
  {
  }

  lemma AimedAlone(h: Hash, w: World, s: Sid, id: Id, row: Delegation, added: bool)
    requires Undisputed(w, s) && w.sessions[s].phase == Aimed(id, row, added)
    ensures var w2 := Happen(h, Happen(h, w, Trigger(s)), Check(s));
            Happen(h, Happen(h, w2, Write(s)), Commit(s)) ==
              Idle(w, s, if !(added && id in w.committed) && Sound(row)
                            && (row.revoked || !Taken(w.committed, id, row))
                         then w.committed[id := row] else w.committed)
  {
    CheckedAlone(h, w, s, id, row, added);
    PassesExact(w.committed, id, row);
    var w2 := Happen(h, Happen(h, w, Trigger(s)), Check(s));
    WrittenAlone(h, w2, s, id, row, added);
    SameIdle(w, w2, s, w.committed);
    SameIdle(w, w2, s, w.committed[id := row]);
  }

  /** From the start of a statement. */
  lemma BegunAlone(h: Hash, w: World, s: Sid, first: World, id: Id, row: Delegation, added: bool)
    requires Initial(w) && s in w.sessions && first.committed == w.committed
    requires first.sessions == w.sessions[s := Session(Aimed(id, row, added), map[])]
    requires first.rowLocks == map[] || first.rowLocks == map[id := s]
    requires first.keyLocks == map[]
    ensures var w2 := Happen(h, Happen(h, first, Trigger(s)), Check(s));
            Happen(h, Happen(h, w2, Write(s)), Commit(s)) ==
              w.(committed :=
                   if !(added && id in w.committed) && Sound(row)
                      && (row.revoked || !Taken(w.committed, id, row))
                   then w.committed[id := row] else w.committed)
  {
    AimedAlone(h, first, s, id, row, added);
    assert w.sessions[s := Session(Ready, map[])] == w.sessions;
  }

  lemma InsertBegins(h: Hash, w: World, s: Sid, id: Id, row: Delegation)
    requires Initial(w) && s in w.sessions
    ensures var first := Happen(h, w, Insert(s, id, row));
            && first.committed == w.committed
            && first.sessions == w.sessions[s := Session(Aimed(id, row, true), map[])]
            && first.rowLocks == map[] && first.keyLocks == map[]
  {
  }

  lemma UpdateBegins(h: Hash, w: World, s: Sid, id: Id, row: Delegation)
    requires Initial(w) && s in w.sessions && id in w.committed
    ensures var first := Happen(h, w, Update(s, id, row));
            && first.committed == w.committed
            && first.sessions == w.sessions[s := Session(Aimed(id, row, false), map[])]
            && first.rowLocks == map[id := s] && first.keyLocks == map[]
  {
    SeenAlone(w.committed, id, row);
  }

  /** With no other transaction open, an insert goes in if and only if the key is new, the row passes
      its checks, and it is revoked or no other live row of its organization and delegator shares an
      instant with it. Nothing else changes, and no lock stays behind. */
  lemma InsertAlone(h: Hash, w: World, s: Sid, id: Id, row: Delegation)
    requires Initial(w) && s in w.sessions
    ensures Run(h, w, Alone(Insert(s, id, row))) ==
              w.(committed :=
                   if id !in w.committed && Sound(row)
                      && (row.revoked || !Taken(w.committed, id, row))
                   then w.committed[id := row] else w.committed)
  {
    RunAlone(h, w, Insert(s, id, row));
    InsertBegins(h, w, s, id, row);
    BegunAlone(h, w, s, Happen(h, w, Insert(s, id, row)), id, row, true);
  }

  /** With no other transaction open, an update of a row that is there, be it to move its period, to
      revoke it or to clear its revocation, goes in if and only if the new row passes its checks and
      is revoked or shares no instant with another live row of its organization and delegator. */
  lemma UpdateAlone(h: Hash, w: World, s: Sid, id: Id, row: Delegation)
    requires Initial(w) && s in w.sessions && id in w.committed
    ensures Run(h, w, Alone(Update(s, id, row))) ==
              w.(committed :=
                   if Sound(row) && (row.revoked || !Taken(w.committed, id, row))
                   then w.committed[id := row] else w.committed)
  {
    RunAlone(h, w, Update(s, id, row));
    UpdateBegins(h, w, s, id, row);
    BegunAlone(h, w, s, Happen(h, w, Update(s, id, row)), id, row, false);
  }

  /** With no other transaction open, a delete takes the row away. */
  lemma DeleteAlone(h: Hash, w: World, s: Sid, id: Id)
    requires Initial(w) && s in w.sessions
    ensures Run(h, w, [Delete(s, id), Commit(s)]) == w.(committed := w.committed - {id})
  {
    RunFirst(h, w, [Delete(s, id), Commit(s)]);
    assert [Delete(s, id), Commit(s)][1..] == [Commit(s)];
    RunFirst(h, Happen(h, w, Delete(s, id)), [Commit(s)]);
    DeletedAlone(h, w, s, id);
  }

  lemma DeletedAlone(h: Hash, w: World, s: Sid, id: Id)
    requires Initial(w) && s in w.sessions
    ensures Happen(h, Happen(h, w, Delete(s, id)), Commit(s)) == w.(committed := w.committed - {id})
  {
    SeenAlone(w.committed, id, Delegation("", "", "", 0, 0, None, false));
    var next := Happen(h, w, Delete(s, id));
    assert next == if id in w.committed then Put(w, s, id, None) else w;
    CommittedAlone(h, next, s);
    assert id !in w.committed ==> w.committed - {id} == w.committed;
    assert w.sessions[s := Session(Ready, map[])] == w.sessions;
  }
}
