/**
  Back and Forward over unsaved work. Every history entry carries an index; a jump the user refuses is
  stepped back with a traversal of the difference, and the event of that traversal is ignored. The
  browser keeps the entries and a queue of traversals not yet carried out.
 */
module NavigationGuard {
  import opened Wrappers

  datatype Entry = Entry(idx: Option<int>, page: string)

  datatype World = World(
    entries: seq<Entry>,
    position: int,
    queue: seq<int>,
    currentIdx: int,
    restoring: bool)

  datatype Event =
    | Push(page: string)
    | Replace(page: string)
    | Jump(distance: int)    // the user asks for Back or Forward
    | Deliver(leave: bool)   // the next traversal is carried out; may the page be left?

  predicate InRange(w: World, position: int) { 0 <= position < |w.entries| }

  /** Seed the current entry: its index if it has one, else zero. */
  function Install(w: World): World
    requires InRange(w, w.position)
  {
    var at := w.entries[w.position];
    var seeded := if at.idx.Some? then at.idx.value else 0;
    w.(currentIdx := seeded, entries := w.entries[w.position := Entry(Some(seeded), at.page)])
  }

  /** The popstate handler, at the entry where the traversal has landed. */
  function Settle(w: World, leave: bool): World
    requires InRange(w, w.position)
  {
    var idx := w.entries[w.position].idx;
    if w.restoring then w.(restoring := false)
    else if leave then if idx.Some? then w.(currentIdx := idx.value) else w
    else if idx.Some? && idx.value != w.currentIdx then
      w.(restoring := true, queue := w.queue + [w.currentIdx - idx.value])
    else w
  }

  /** Carry out the first traversal of the queue; one that leads nowhere fires no event. */
  function Traverse(w: World, leave: bool): World {
    if w.queue == [] then w else
      var next, target := w.(queue := w.queue[1..]), w.position + w.queue[0];
      if target == w.position || !InRange(w, target) then next
      else Settle(next.(position := target), leave)
  }

  /** Any event; a history always has a current entry, so a world without one stays as it is. */
  function Happen(w: World, e: Event): World {
    if !InRange(w, w.position) then w else
    match e
    case Push(page) =>
      w.(entries := w.entries[..w.position + 1] + [Entry(Some(w.currentIdx + 1), page)],
         position := w.position + 1, currentIdx := w.currentIdx + 1)
    case Replace(page) =>
      w.(entries := w.entries[w.position := Entry(Some(w.currentIdx), page)])
    case Jump(d) => w.(queue := w.queue + [d])
    case Deliver(leave) => Traverse(w, leave)
  }

  function Run(w: World, events: seq<Event>): World
    decreases |events|
  {
    if events == [] then w else Run(Happen(w, events[0]), events[1..])
  }

  // ------------------------------------------------------------------------- single events

  /** Installing gives an entry without an index the index zero, and changes nothing else about the
      history. */
  lemma InstallExact(w: World)
    requires 0 <= w.position < |w.entries|
    ensures var next := Install(w);
            && |next.entries| == |w.entries|
            && (forall i :: 0 <= i < |w.entries| ==>
                  next.entries[i].page == w.entries[i].page
                  && (i != w.position || w.entries[i].idx.Some? ==> next.entries[i] == w.entries[i]))
            && next.entries[w.position].idx == Some(next.currentIdx)
            && (w.entries[w.position].idx.None? ==> next.currentIdx == 0)
            && next.position == w.position && next.queue == w.queue && next.restoring == w.restoring
  {
  }

  /** A push drops the entries ahead and adds one for the page, one index on; a replacement puts the
      page in the current entry, under the current index. */
  lemma PushAndReplaceExact(w: World, page: string)
    requires 0 <= w.position < |w.entries|
    ensures var next := Happen(w, Push(page));
            && |next.entries| == w.position + 2 && next.position == w.position + 1
            && (forall i :: 0 <= i <= w.position ==> next.entries[i] == w.entries[i])
            && next.entries[next.position] == Entry(Some(next.currentIdx), page)
            && next.currentIdx == w.currentIdx + 1
            && next.queue == w.queue && next.restoring == w.restoring
    ensures var next := Happen(w, Replace(page));
            && |next.entries| == |w.entries| && next.position == w.position
            && (forall i :: 0 <= i < |w.entries| && i != w.position ==> next.entries[i] == w.entries[i])
            && next.entries[w.position] == Entry(Some(w.currentIdx), page)
            && next.currentIdx == w.currentIdx
            && next.queue == w.queue && next.restoring == w.restoring
  {
  }

  /** A traversal that leads nowhere is dropped. One that leads to an entry lands there and changes no
      entry; then, in this order: one that was on its way back clears the flag; one the user accepts
      takes over the entry's index, if it has one; one refused, at another index, is sent back. */
  lemma DeliverLands(w: World, leave: bool)
    requires 0 <= w.position < |w.entries| && w.queue != []
    ensures var next, target := Happen(w, Deliver(leave)), w.position + w.queue[0];
            if w.queue[0] == 0 || target < 0 || target >= |w.entries| then
              next == w.(queue := w.queue[1..])
            else
              var idx := w.entries[target].idx;
              var refused := !w.restoring && !leave && idx.Some? && idx != Some(w.currentIdx);
              && next.entries == w.entries && next.position == target
              && next.restoring == refused
              && next.currentIdx == (if !w.restoring && leave && idx.Some? then idx.value
                                     else w.currentIdx)
              && next.queue == w.queue[1..] + if refused then [w.currentIdx - idx.value] else []
  {
  }

  // ------------------------------------------------------------------------- the invariant

  /** Indices track positions. */
  ghost predicate Tracks(w: World, base: int) {
    forall i :: 0 <= i < |w.entries| ==> w.entries[i].idx == Some(base + i)
  }

  ghost predicate InStep(w: World, base: int) {
    && InRange(w, w.position) && Tracks(w, base)
    && !w.restoring && w.currentIdx == base + w.position
  }

  /** A refused jump is on its way back: the next traversal leads to the entry it left. */
  ghost predicate Homing(w: World, base: int) {
    && InRange(w, w.position) && Tracks(w, base)
    && w.restoring && w.queue != [] && w.queue[0] != 0
    && InRange(w, w.position + w.queue[0])
    && w.currentIdx == base + w.position + w.queue[0]
  }

  ghost predicate Settled(w: World, base: int) { InStep(w, base) || Homing(w, base) }

  predicate Refuses(w: World, e: Event) {
    && e.Deliver? && !e.leave && !w.restoring && w.queue != []
    && w.queue[0] != 0 && InRange(w, w.position + w.queue[0])
  }

  /** Nothing comes between a refused jump and its way back: no other traversal was waiting when the
      user refused, unless that one leads back itself, and the page pushes or replaces nothing until
      it is back. */
  predicate Orderly(w: World, e: Event) {
    && (Refuses(w, e) ==> |w.queue| == 1 || w.queue[1] == -w.queue[0])
    && (e.Push? || e.Replace? ==> !w.restoring)
  }

  predicate OrderlyRun(w: World, events: seq<Event>)
    decreases |events|
  {
    events == [] ||
    (Orderly(w, events[0]) && OrderlyRun(Happen(w, events[0]), events[1..]))
  }

  /** Before the first jump: a fresh page, or a reload in the middle of a stamped history. */
  lemma InstallInStep(w: World, base: int)
    requires InRange(w, w.position) && !w.restoring
    ensures InStep(Install(w), base) <==>
              && (w.entries[w.position].idx.Some? ==> w.entries[w.position].idx == Some(base + w.position))
              && (w.entries[w.position].idx.None? ==> base + w.position == 0)
              && forall i :: 0 <= i < |w.entries| && i != w.position ==>
                               w.entries[i].idx == Some(base + i)
  {
    var next := Install(w);
    if InStep(next, base) {
      forall i | 0 <= i < |w.entries| && i != w.position ensures w.entries[i].idx == Some(base + i) {
        assert next.entries[i] == w.entries[i];
      }
    }
  }

  lemma PushExact(w: World, page: string, base: int)
    requires Settled(w, base)
    ensures Settled(Happen(w, Push(page)), base) <==> !w.restoring
  {
    var next := Happen(w, Push(page));
    assert next.entries[w.position + 1].idx == Some(w.currentIdx + 1);
  }

  lemma ReplaceExact(w: World, page: string, base: int)
    requires Settled(w, base)
    ensures Settled(Happen(w, Replace(page)), base) <==> !w.restoring
  {
    var next := Happen(w, Replace(page));
    assert next.entries[w.position].idx == Some(w.currentIdx);
  }

  lemma DeliverExact(w: World, leave: bool, base: int)
    requires Settled(w, base)
    ensures Settled(Happen(w, Deliver(leave)), base) <==> Orderly(w, Deliver(leave))
  {
    if w.queue != [] {
      var target := w.position + w.queue[0];
      assert InRange(w, target) ==> w.entries[target].idx == Some(base + target);
    }
  }

  /** An event keeps page and history in step exactly when it is orderly. */
  lemma HappenExact(w: World, e: Event, base: int)
    requires Settled(w, base)
    ensures Settled(Happen(w, e), base) <==> Orderly(w, e)
  {
    match e
    case Push(page) => PushExact(w, page, base);
    case Replace(page) => ReplaceExact(w, page, base);
    case Jump(_) =>
    case Deliver(leave) => DeliverExact(w, leave, base);
  }

  lemma RunPrefix(w: World, events: seq<Event>, k: nat)
    requires 0 < k <= |events|
    ensures Run(w, events[..k]) == Run(Happen(w, events[0]), events[1..][..k - 1])
  {
    assert events[..k][1..] == events[1..][..k - 1];
  }

  ghost predicate SettledThroughout(w: World, events: seq<Event>, base: int) {
    forall k :: 0 <= k <= |events| ==> Settled(Run(w, events[..k]), base)
  }

  lemma SettledFirst(w: World, events: seq<Event>, base: int)
    requires events != [] && Settled(w, base)
    ensures SettledThroughout(w, events, base) <==>
              Settled(Happen(w, events[0]), base)
              && SettledThroughout(Happen(w, events[0]), events[1..], base)
  {
    var next := Happen(w, events[0]);
    if SettledThroughout(w, events, base) {
      forall k | 0 <= k <= |events[1..]| ensures Settled(Run(next, events[1..][..k]), base) {
        RunPrefix(w, events, k + 1);
        assert Settled(Run(w, events[..k + 1]), base);
      }
      assert Run(next, events[1..][..0]) == next;
    }
    if SettledThroughout(next, events[1..], base) {
      forall k | 0 <= k <= |events| ensures Settled(Run(w, events[..k]), base) {
        if k > 0 {
          RunPrefix(w, events, k);
          assert Settled(Run(next, events[1..][..k - 1]), base);
        }
      }
    }
  }

  /** Over whole runs of pushes, replacements and jumps of any distance: indices track positions, and
      the current index is that of the current entry, or of the one being returned to, at every moment
      if and only if the run is orderly. */
  lemma {:induction false} RunKeeps(w: World, events: seq<Event>, base: int)
    requires Settled(w, base)
    ensures OrderlyRun(w, events) <==>
              forall k :: 0 <= k <= |events| ==> Settled(Run(w, events[..k]), base)
    ensures OrderlyRun(w, events) ==> Settled(Run(w, events), base)
    decreases |events|
  {
    assert SettledThroughout(w, events, base) <==>
             forall k :: 0 <= k <= |events| ==> Settled(Run(w, events[..k]), base);
    assert events[..|events|] == events;
    if events != [] {
      HappenExact(w, events[0], base);
      SettledFirst(w, events, base);
      if Orderly(w, events[0]) { RunKeeps(Happen(w, events[0]), events[1..], base); }
    }
  }

  // ------------------------------------------------------------------------- jumps

  function Jumps(ds: seq<int>): seq<Event> { seq(|ds|, i requires 0 <= i < |ds| => Jump(ds[i])) }

  lemma {:induction false} RunJumps(w: World, ds: seq<int>)
    requires InRange(w, w.position)
    ensures Run(w, Jumps(ds)) == w.(queue := w.queue + ds)
    decreases |ds|
  {
    if ds == [] {
      assert w.queue + ds == w.queue;
    } else {
      var next := Happen(w, Jump(ds[0]));
      assert Jumps(ds)[1..] == Jumps(ds[1..]);
      RunJumps(next, ds[1..]);
      assert w.queue + [ds[0]] + ds[1..] == w.queue + ds;
    }
  }

  /** A refused jump, whatever jumps the user asks for while it is on its way back, is undone by the
      next traversal: entries, position and index are as they were. */
  lemma RefusedIsUndone(w: World, d: int, ds: seq<int>, leave: bool, base: int)
    requires InStep(w, base) && w.queue == [d] && d != 0 && InRange(w, w.position + d)
    ensures var asked := Happen(w, Deliver(false));
            && asked.position == w.position + d && asked.entries == w.entries
            && InRange(asked, asked.position)
            && Happen(Run(asked, Jumps(ds)), Deliver(leave)) == w.(queue := ds)
  {
    var asked := Happen(w, Deliver(false));
    assert w.entries[w.position + d].idx == Some(base + w.position + d);
    assert [d][1..] == [];
    assert asked.queue == [-d];
    RunJumps(asked, ds);
    assert ([-d] + ds)[1..] == ds;
  }

  /** An accepted jump goes where it was asked to and changes no entry. */
  lemma AcceptedMoves(w: World, base: int)
    requires InStep(w, base) && w.queue != [] && InRange(w, w.position + w.queue[0])
    ensures var next := Happen(w, Deliver(true));
            && InStep(next, base) && next.entries == w.entries && next.queue == w.queue[1..]
            && next.position == w.position + w.queue[0]
  {
    assert w.entries[w.position + w.queue[0]].idx == Some(base + w.position + w.queue[0]);
  }

  /** Order matters: with a second jump already waiting, the flag swallows that jump's event, and the
      page is left at an entry that is not the current one with nothing on its way. */
  lemma SecondJumpStrays()
    ensures var e := (i: int) => Entry(Some(i), "");
            var w := World([e(0), e(1), e(2)], 0, [2, -1], 0, false);
            var end := Run(w, [Deliver(false), Deliver(true), Deliver(true)]);
            InStep(w, 0) && !end.restoring && end.queue == [] && end.currentIdx == 0 && end.position == 1
  {
    var e := (i: int) => Entry(Some(i), "");
    var w := World([e(0), e(1), e(2)], 0, [2, -1], 0, false);
    var w1 := Happen(w, Deliver(false));
    assert w1 == World(w.entries, 2, [-1, -2], 0, true);
    var w2 := Happen(w1, Deliver(true));
    assert w2 == World(w.entries, 1, [-2], 0, false);
    var w3 := Happen(w2, Deliver(true));
    assert w3 == World(w.entries, 1, [], 0, false);
    var events := [Deliver(false), Deliver(true), Deliver(true)];
    assert events[1..] == [Deliver(true), Deliver(true)];
    assert Run(w2, [Deliver(true)]) == w3;
  }

  // ------------------------------------------------------------------------- the module's state

  /** The module's variables, and the window's history that its patched methods change. */
  class Window {
    var entries: seq<Entry>
    var position: int
    var queue: seq<int>
    var currentIdx: int
    var restoring: bool

    function Contents(): World
      reads this
    {
      World(entries, position, queue, currentIdx, restoring)
    }

    constructor (entries: seq<Entry>, position: int)
      requires 0 <= position < |entries|
      ensures Contents() == Install(World(entries, position, [], 0, false))
    {
      var at := entries[position];
      var seeded := if at.idx.Some? then at.idx.value else 0;
      this.entries := entries[position := Entry(Some(seeded), at.page)];
      this.position := position;
      this.queue := [];
      this.currentIdx := seeded;
      this.restoring := false;
    }

    method PushState(page: string)
      requires InRange(Contents(), position)
      modifies this
      ensures Contents() == Happen(old(Contents()), Push(page))
    {
      currentIdx := currentIdx + 1;
      entries := entries[..position + 1] + [Entry(Some(currentIdx), page)];
      position := position + 1;
    }

    method ReplaceState(page: string)
      requires InRange(Contents(), position)
      modifies this`entries
      ensures Contents() == Happen(old(Contents()), Replace(page))
    {
      entries := entries[position := Entry(Some(currentIdx), page)];
    }

    method ConsumeRestoring() returns (was: bool)
      modifies this`restoring
      ensures was == old(restoring) && !restoring
    {
      was := restoring;
      restoring := false;
    }

    /** May the route change? If not, step back to where the user was. */
    method SettlePop(idx: Option<int>, leave: bool) returns (go: bool)
      requires InRange(Contents(), position) && idx == entries[position].idx && !restoring
      modifies this`currentIdx, this`restoring, this`queue
      ensures Contents() == Settle(old(Contents()), leave) && go == leave
    {
      if leave {
        if idx.Some? { currentIdx := idx.value; }
        return true;
      }
      if idx.Some? && idx.value != currentIdx {
        restoring := true;
        queue := queue + [currentIdx - idx.value];
      }
      return false;
    }

    /** The browser carries out the next traversal and fires its event. */
    method CarryOut(leave: bool) returns (routed: bool)
      requires InRange(Contents(), position)
      modifies this
      ensures Contents() == Happen(old(Contents()), Deliver(leave))
      ensures routed <==> leave && !old(restoring) && position != old(position)
    {
      if queue == [] { return false; }
      var target := position + queue[0];
      queue := queue[1..];
      if target == position || target < 0 || target >= |entries| { return false; }
      position := target;
      var was := ConsumeRestoring();
      if was { return false; }
      routed := SettlePop(entries[position].idx, leave);
    }
  }
}
