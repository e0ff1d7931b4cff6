/**
  The reading order of a workflow: depth first from the start nodes, then from every node left, each
  node once. The walk is a recursive method over a shared list; its meaning is a worklist.
 */
module RouteOrder {
  import opened Collections
  import opened Wrappers
  import opened WorkflowGraph

  /** Depth-first order as a worklist: take the first node; if it is new, list it and put its targets
      in front of what remains. */
  function Preorder(edges: seq<Edge>, seen: seq<Id>, work: seq<Id>): (r: seq<Id>)
    ensures seen <= r
    decreases Ends(edges) + Members(work) - Members(seen), |work|
  {
    if work == [] then seen
    else
      var id, rest := work[0], work[1..];
      if id in seen then
        assert Ends(edges) + Members(rest) - Members(seen)
            <= Ends(edges) + Members(work) - Members(seen);
        assert Ends(edges) + Members(work) - Members(seen)
            == Ends(edges) + Members(rest) - Members(seen);
        Preorder(edges, seen, rest)
      else
        LessToSee(edges, seen, work);
        Preorder(edges, seen + [id], Targets(edges, id) + rest)
  }

  lemma LessToSee(edges: seq<Edge>, seen: seq<Id>, work: seq<Id>)
    requires work != [] && work[0] !in seen
    ensures var before := Ends(edges) + Members(work) - Members(seen);
            var work' := Targets(edges, work[0]) + work[1..];
            Ends(edges) + Members(work') - Members(seen + [work[0]]) < before
  {
    var id := work[0];
    forall x | x in Targets(edges, id) ensures x in Ends(edges) {
      assert HasEdge(edges, id, x);
    }
    assert id in Ends(edges) + Members(work) - Members(seen);
    assert id !in Ends(edges) + Members(Targets(edges, id) + work[1..]) - Members(seen + [id]);
  }

  /** Work done in two goes is work done at once. */
  lemma {:induction false} PreorderConcat(edges: seq<Edge>, seen: seq<Id>, a: seq<Id>, b: seq<Id>)
    ensures Preorder(edges, seen, a + b) == Preorder(edges, Preorder(edges, seen, a), b)
    decreases Ends(edges) + Members(a) - Members(seen), |a|
  {
    if a == [] {
      assert [] + b == b;
    } else {
      var id, rest := a[0], a[1..];
      assert (a + b)[1..] == rest + b;
      if id in seen {
        assert Ends(edges) + Members(a) - Members(seen)
            == Ends(edges) + Members(rest) - Members(seen);
        PreorderConcat(edges, seen, rest, b);
      } else {
        LessToSee(edges, seen, a);
        var targets := Targets(edges, id);
        assert targets + (rest + b) == (targets + rest) + b;
        PreorderConcat(edges, seen + [id], targets + rest, b);
      }
    }
  }

  /** What a worklist adds: each node once; everything asked for; with every new node its targets;
      and nothing that cannot be reached from what was asked for. */
  lemma {:induction false} PreorderAdds(edges: seq<Edge>, seen: seq<Id>, work: seq<Id>)
    requires Distinct(seen)
    ensures var r := Preorder(edges, seen, work);
            && Distinct(r)
            && (forall x :: x in work ==> x in r)
            && (forall x, y :: x in r && x !in seen && HasEdge(edges, x, y) ==> y in r)
            && (forall x :: x in r && x !in seen ==> ReachedFrom(edges, work, x))
    decreases Ends(edges) + Members(work) - Members(seen), |work|
  {
    if work != [] {
      var id, rest := work[0], work[1..];
      var r := Preorder(edges, seen, work);
      if id in seen {
        assert Ends(edges) + Members(work) - Members(seen)
            == Ends(edges) + Members(rest) - Members(seen);
        PreorderAdds(edges, seen, rest);
      } else {
        LessToSee(edges, seen, work);
        var targets := Targets(edges, id);
        PreorderAdds(edges, seen + [id], targets + rest);
        FromTargets(edges, seen, work, r);
      }
    }
  }

  ghost predicate ReachedFrom(edges: seq<Edge>, work: seq<Id>, x: Id) {
    exists w :: w in work && Reaches(edges, w, x)
  }

  lemma FromTargets(edges: seq<Edge>, seen: seq<Id>, work: seq<Id>, r: seq<Id>)
    requires work != [] && seen + [work[0]] <= r
    requires forall x :: x in Targets(edges, work[0]) + work[1..] ==> x in r
    requires forall x, y :: x in r && x !in seen + [work[0]] && HasEdge(edges, x, y) ==> y in r
    requires forall x :: x in r && x !in seen + [work[0]] ==>
               ReachedFrom(edges, Targets(edges, work[0]) + work[1..], x)
    ensures forall x :: x in work ==> x in r
    ensures forall x, y :: x in r && x !in seen && HasEdge(edges, x, y) ==> y in r
    ensures forall x :: x in r && x !in seen ==> ReachedFrom(edges, work, x)
  {
    var id := work[0];
    assert id in seen + [id];
    assert work == [id] + work[1..];
    forall x | x in r && x !in seen ensures ReachedFrom(edges, work, x) {
      if x == id {
        ReachesSelf(edges, id);
      } else {
        var w :| w in Targets(edges, id) + work[1..] && Reaches(edges, w, x);
        if w in Targets(edges, id) {
          ReachesSelf(edges, id);
          ReachesStep(edges, id, id, w);
          ReachesTrans(edges, id, w, x);
        }
      }
    }
  }

  /** Starting from nothing, a worklist lists exactly the nodes reachable from it, each once. */
  lemma PreorderIsReachable(edges: seq<Edge>, work: seq<Id>, x: Id)
    ensures Distinct(Preorder(edges, [], work))
    ensures x in Preorder(edges, [], work) <==> ReachedFrom(edges, work, x)
  {
    PreorderAdds(edges, [], work);
    var s := Members(Preorder(edges, [], work));
    if ReachedFrom(edges, work, x) {
      var w :| w in work && Reaches(edges, w, x);
      var p :| PathFrom(edges, p, w, x);
      forall e | e in edges && e.from in s ensures e.to in s {
        assert HasEdge(edges, e.from, e.to);
      }
      ClosedSet(edges, s, p);
    }
  }

  // ------------------------------------------------------------------------- the walk

  /** A visit from inside a visit has less to see. */
  lemma VisitedMore(ends: set<Id>, before: seq<Id>, now: seq<Id>, id: Id, target: Id)
    requires id !in before && before + [id] <= now && target in ends
    ensures ends + {target} - Members(now) < ends + {id} - Members(before)
  {
    assert now[|before|] == (before + [id])[|before|] == id;
    forall x | x in before ensures x in now {
      var i :| 0 <= i < |before| && before[i] == x;
      assert now[i] == (before + [id])[i];
    }
    assert id in ends + {id} - Members(before);
  }

  class Walk {
    const edges: seq<Edge>
    var ids: seq<Id>
    var visited: set<Id>

    ghost predicate Valid()
      reads this
    {
      visited == Members(ids)
    }

    constructor (edges: seq<Edge>)
      ensures Valid() && this.edges == edges && ids == []
    {
      this.edges := edges;
      ids, visited := [], {};
    }

    /** Visit a node: skip it if it has been visited, else list it and visit its targets in order. */
    method Visit(id: Id)
      requires Valid()
      modifies this
      ensures Valid() && ids == Preorder(edges, old(ids), [id])
      decreases Ends(edges) + {id} - visited
    {
      ghost var before := ids;
      if id in visited {
        return;
      }
      visited := visited + {id};
      ids := ids + [id];
      var targets := Targets(edges, id);
      assert Preorder(edges, before, [id]) == Preorder(edges, ids, targets) by {
        assert targets + [id][1..] == targets;
      }
      var i := 0;
      while i < |targets|
        invariant 0 <= i <= |targets| && Valid() && before + [id] <= ids
        invariant ids == Preorder(edges, before + [id], targets[..i])
      {
        assert HasEdge(edges, id, targets[i]);
        assert targets[..i + 1] == targets[..i] + [targets[i]];
        PreorderConcat(edges, before + [id], targets[..i], [targets[i]]);
        VisitedMore(Ends(edges), before, ids, id, targets[i]);
        Visit(targets[i]);
        i := i + 1;
      }
      assert targets[..i] == targets;
    }

    /** Visit several nodes in turn. */
    method VisitAll(work: seq<Id>)
      requires Valid()
      modifies this
      ensures Valid() && ids == Preorder(edges, old(ids), work)
    {
      ghost var before := ids;
      for i := 0 to |work|
        invariant Valid() && ids == Preorder(edges, before, work[..i])
      {
        assert work[..i + 1] == work[..i] + [work[i]];
        PreorderConcat(edges, before, work[..i], [work[i]]);
        Visit(work[i]);
      }
      assert work[..|work|] == work;
    }
  }

  function IdsOf(nodes: seq<Node>): seq<Id> { MapSeq(nodes, (n: Node) => n.id) }

  function StartIds(graph: Graph): seq<Id> {
    IdsOf(Filter(graph.nodes, (n: Node) => n.kind == StartNode))
  }

  /** The ids in reading order. */
  function RouteIds(graph: Graph): seq<Id> {
    Preorder(graph.edges, Preorder(graph.edges, [], StartIds(graph)), IdsOf(graph.nodes))
  }

  /** The first node with that id. */
  function FindNode(nodes: seq<Node>, id: Id): (r: Option<Node>)
    ensures r.Some? ==> r.value in nodes && r.value.id == id
    ensures r.None? ==> forall n :: n in nodes ==> n.id != id
    decreases |nodes|
  {
    if nodes == [] then None
    else if nodes[0].id == id then Some(nodes[0])
    else FindNode(nodes[1..], id)
  }

  /** The nodes in reading order; an id without a node yields nothing in its place. */
  method Route(graph: Graph) returns (r: seq<Option<Node>>)
    ensures r == MapSeq(RouteIds(graph), (id: Id) => FindNode(graph.nodes, id))
  {
    var walk := new Walk(graph.edges);
    walk.VisitAll(StartIds(graph));
    walk.VisitAll(IdsOf(graph.nodes));
    r := MapSeq(walk.ids, (id: Id) => FindNode(graph.nodes, id));
  }

  // ------------------------------------------------------------------------- what the order is

  ghost predicate UniqueIds(nodes: seq<Node>) { Distinct(IdsOf(nodes)) }

  ghost predicate NoDangling(graph: Graph) {
    forall e :: e in graph.edges ==> e.to in IdsOf(graph.nodes)
  }

  /** Some start node of the graph reaches `x`. */
  ghost predicate FromAStart(graph: Graph, x: Id) {
    exists n :: n in graph.nodes && n.kind == StartNode && Reaches(graph.edges, n.id, x)
  }

  lemma StartsReach(graph: Graph, x: Id)
    ensures ReachedFrom(graph.edges, StartIds(graph), x) <==> FromAStart(graph, x)
  {
    var kept := Filter(graph.nodes, (n: Node) => n.kind == StartNode);
    if ReachedFrom(graph.edges, StartIds(graph), x) {
      var w :| w in StartIds(graph) && Reaches(graph.edges, w, x);
      var i :| 0 <= i < |kept| && StartIds(graph)[i] == w;
      assert kept[i] in kept && kept[i].id == w;
    }
    if FromAStart(graph, x) {
      var n :| n in graph.nodes && n.kind == StartNode && Reaches(graph.edges, n.id, x);
      assert n in kept;
      var i :| 0 <= i < |kept| && kept[i] == n;
      assert StartIds(graph)[i] == n.id;
    }
  }

  /** The first `k` ids are exactly those a start node reaches. */
  ghost predicate StartsComeFirst(graph: Graph, ids: seq<Id>, k: int) {
    && 0 <= k <= |ids|
    && (forall i :: 0 <= i < |ids| ==> (i < k <==> FromAStart(graph, ids[i])))
    && (forall x :: FromAStart(graph, x) ==> x in ids)
  }

  lemma FirstPart(graph: Graph, first: seq<Id>, ids: seq<Id>)
    requires Distinct(ids) && first <= ids
    requires forall x :: x in first <==> FromAStart(graph, x)
    ensures StartsComeFirst(graph, ids, |first|)
  {
    forall i | 0 <= i < |ids| ensures i < |first| <==> FromAStart(graph, ids[i]) {
      if i < |first| {
        assert first[i] == ids[i];
      } else {
        forall k | 0 <= k < |first| ensures first[k] != ids[i] {
          assert first[k] == ids[k];
        }
      }
    }
    forall x | FromAStart(graph, x) ensures x in ids {
      var k :| 0 <= k < |first| && first[k] == x;
      assert ids[k] == x;
    }
  }

  /** The listed ids: every one once; first exactly those reachable from a start node, then exactly
      the other nodes. */
  lemma RouteIdsMeaning(graph: Graph)
    ensures var ids := RouteIds(graph);
            && Distinct(ids)
            && (forall n :: n in graph.nodes ==> n.id in ids)
            && exists k :: StartsComeFirst(graph, ids, k)
    ensures NoDangling(graph) ==> forall x :: x in RouteIds(graph) ==> x in IdsOf(graph.nodes)
  {
    var ids, all := RouteIds(graph), IdsOf(graph.nodes);
    ListedOnce(graph);
    forall n | n in graph.nodes ensures n.id in ids {
      var i :| 0 <= i < |graph.nodes| && graph.nodes[i] == n;
      assert all[i] == n.id;
    }
    var first := Preorder(graph.edges, [], StartIds(graph));
    forall x ensures x in first <==> FromAStart(graph, x) {
      PreorderIsReachable(graph.edges, StartIds(graph), x);
      StartsReach(graph, x);
    }
    FirstPart(graph, first, ids);
    if NoDangling(graph) {
      forall x | x in ids ensures x in all {
        OnlyNodes(graph, x);
      }
    }
  }

  lemma ListedOnce(graph: Graph)
    ensures var ids := RouteIds(graph);
            && Distinct(ids)
            && Preorder(graph.edges, [], StartIds(graph)) <= ids
            && forall x :: x in IdsOf(graph.nodes) ==> x in ids
  {
    PreorderAdds(graph.edges, [], StartIds(graph));
    PreorderAdds(graph.edges, Preorder(graph.edges, [], StartIds(graph)), IdsOf(graph.nodes));
  }

  lemma OnlyNodes(graph: Graph, x: Id)
    requires NoDangling(graph) && x in RouteIds(graph)
    ensures x in IdsOf(graph.nodes)
  {
    var starts, all := StartIds(graph), IdsOf(graph.nodes);
    PreorderAdds(graph.edges, [], starts);
    PreorderAdds(graph.edges, Preorder(graph.edges, [], starts), all);
    var work := if x in Preorder(graph.edges, [], starts) then starts else all;
    assert ReachedFrom(graph.edges, work, x);
    var w :| w in work && Reaches(graph.edges, w, x);
    StartsAreNodes(graph);
    var p :| PathFrom(graph.edges, p, w, x);
    ClosedSet(graph.edges, Members(all), p);
  }

  lemma StartsAreNodes(graph: Graph)
    ensures forall x :: x in StartIds(graph) ==> x in IdsOf(graph.nodes)
  {
    var kept := Filter(graph.nodes, (n: Node) => n.kind == StartNode);
    forall x | x in StartIds(graph) ensures x in IdsOf(graph.nodes) {
      var i :| 0 <= i < |kept| && StartIds(graph)[i] == x;
      assert kept[i] in kept;
      var j :| 0 <= j < |graph.nodes| && graph.nodes[j] == kept[i];
      assert IdsOf(graph.nodes)[j] == x;
    }
  }

  /** Without dangling edges every lookup of the route finds its node. */
  lemma EveryLookupFinds(graph: Graph, i: nat)
    requires NoDangling(graph) && i < |RouteIds(graph)|
    ensures FindNode(graph.nodes, RouteIds(graph)[i]).Some?
  {
    RouteIdsMeaning(graph);
    var ids, all := RouteIds(graph), IdsOf(graph.nodes);
    assert ids[i] in ids && ids[i] in all;
    var k :| 0 <= k < |all| && all[k] == ids[i];
    assert graph.nodes[k] in graph.nodes && graph.nodes[k].id == all[k];
  }

  /** On a well-formed graph every lookup finds a node, and the route is a permutation of the nodes. */
  lemma RouteIsPermutation(graph: Graph) returns (nodes: seq<Node>)
    requires UniqueIds(graph.nodes) && NoDangling(graph)
    ensures MapSeq(RouteIds(graph), (id: Id) => FindNode(graph.nodes, id))
              == MapSeq(nodes, (n: Node) => Some(n))
    ensures multiset(nodes) == multiset(graph.nodes)
  {
    var ids := RouteIds(graph);
    forall i | 0 <= i < |ids| ensures FindNode(graph.nodes, ids[i]).Some? {
      EveryLookupFinds(graph, i);
    }
    nodes := seq(|ids|, i requires 0 <= i < |ids| => FindNode(graph.nodes, ids[i]).value);
    AllListedOnce(graph, nodes);
  }

  lemma AllListedOnce(graph: Graph, nodes: seq<Node>)
    requires UniqueIds(graph.nodes) && |nodes| == |RouteIds(graph)|
    requires forall i :: 0 <= i < |nodes| ==>
               nodes[i] in graph.nodes && nodes[i].id == RouteIds(graph)[i]
    ensures multiset(nodes) == multiset(graph.nodes)
  {
    var ids := RouteIds(graph);
    RouteIdsMeaning(graph);
    forall n | n in graph.nodes ensures n in nodes {
      var i :| 0 <= i < |ids| && ids[i] == n.id;
      SameIdSameNode(graph.nodes, n, nodes[i]);
    }
    assert forall i :: 0 <= i < |graph.nodes| ==> IdsOf(graph.nodes)[i] == graph.nodes[i].id;
    DistinctCounts(nodes);
    DistinctCounts(graph.nodes);
    forall n: Node ensures multiset(nodes)[n] == multiset(graph.nodes)[n] {
      assert n in nodes <==> n in graph.nodes;
    }
  }

  lemma SameIdSameNode(nodes: seq<Node>, a: Node, b: Node)
    requires UniqueIds(nodes) && a in nodes && b in nodes && a.id == b.id
    ensures a == b
  {
    var i :| 0 <= i < |nodes| && nodes[i] == a;
    var j :| 0 <= j < |nodes| && nodes[j] == b;
    assert IdsOf(nodes)[i] == IdsOf(nodes)[j];
  }

  lemma {:induction false} DistinctCounts(nodes: seq<Node>)
    requires forall i, j :: 0 <= i < j < |nodes| ==> nodes[i].id != nodes[j].id
    ensures forall n :: multiset(nodes)[n] == if n in nodes then 1 else 0
    decreases |nodes|
  {
    if nodes != [] {
      DistinctCounts(nodes[1..]);
      assert nodes == [nodes[0]] + nodes[1..];
    }
  }
}
