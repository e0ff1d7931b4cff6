/**
  What each edit of the workflow graph changes and what it leaves alone, read off the fields of the
  nodes and edges.
 */
module GraphEdits {
  import opened RouteOrder
  import opened Wrappers
  import opened WorkflowGraph

  /** The edge is on that output of that node. */
  predicate Leaves(e: Edge, from: Id, output: Output) {
    && e.from == from
    && match output
       case No => e.default
       case Yes => !e.default && e.when.Some?
       case Next => !e.default && e.when.None?
  }

  /** `idx` picks elements of `xs` in their order; they are `ys`. */
  ghost predicate Picks<T>(xs: seq<T>, ys: seq<T>, idx: seq<int>) {
    && |idx| == |ys|
    && (forall k :: 0 <= k < |idx| ==> 0 <= idx[k] < |xs| && ys[k] == xs[idx[k]])
    && (forall k, l :: 0 <= k < l < |idx| ==> idx[k] < idx[l])
  }

  /** `ys` is `xs` without the elements that are not wanted: the others are all there, in their order
      and each as often as before. */
  ghost predicate Thinned<T(!new)>(xs: seq<T>, ys: seq<T>, wanted: T -> bool) {
    exists idx: seq<int> ::
      Picks(xs, ys, idx) && forall i :: 0 <= i < |xs| ==> (wanted(xs[i]) <==> i in idx)
  }

  lemma {:induction false} FilterThins<T(!new)>(xs: seq<T>, keep: T -> bool, wanted: T -> bool)
    requires forall x :: x in xs ==> keep(x) == wanted(x)
    ensures Thinned(xs, Filter(xs, keep), wanted)
    decreases |xs|
  {
    if xs == [] {
      assert Picks(xs, [], []);
    } else {
      FilterThins(xs[1..], keep, wanted);
      var rest := Filter(xs[1..], keep);
      var idx: seq<int> :| Picks(xs[1..], rest, idx)
        && forall i :: 0 <= i < |xs[1..]| ==> (wanted(xs[1..][i]) <==> i in idx);
      OneFurther(xs, rest, idx, wanted);
    }
  }

  lemma Later<T>(xs: seq<T>, ys: seq<T>, idx: seq<int>) returns (later: seq<int>)
    requires xs != [] && Picks(xs[1..], ys, idx)
    ensures Picks(xs, ys, later) && |later| == |idx|
    ensures forall k :: 0 <= k < |idx| ==> later[k] == idx[k] + 1
  {
    later := seq(|idx|, k requires 0 <= k < |idx| => idx[k] + 1);
  }

  lemma Shifted(idx: seq<int>, later: seq<int>, i: int)
    requires |later| == |idx| && forall k :: 0 <= k < |idx| ==> later[k] == idx[k] + 1
    ensures i in later <==> i - 1 in idx
  {
    if i in later {
      var k :| 0 <= k < |later| && later[k] == i;
      assert idx[k] == i - 1;
    }
    if i - 1 in idx {
      var k :| 0 <= k < |idx| && idx[k] == i - 1;
      assert later[k] == i;
    }
  }

  lemma AndFirst<T>(xs: seq<T>, ys: seq<T>, later: seq<int>)
    requires xs != [] && Picks(xs, ys, later) && forall k :: 0 <= k < |later| ==> 0 < later[k]
    ensures Picks(xs, [xs[0]] + ys, [0] + later)
  {
  }

  lemma OneFurther<T(!new)>(xs: seq<T>, rest: seq<T>, idx: seq<int>, wanted: T -> bool)
    requires xs != [] && Picks(xs[1..], rest, idx)
    requires forall i :: 0 <= i < |xs[1..]| ==> (wanted(xs[1..][i]) <==> i in idx)
    ensures Thinned(xs, if wanted(xs[0]) then [xs[0]] + rest else rest, wanted)
  {
    var later := Later(xs, rest, idx);
    var picked := if wanted(xs[0]) then [0] + later else later;
    forall i | 0 <= i < |xs| ensures wanted(xs[i]) <==> i in picked {
      if i > 0 {
        assert xs[i] == xs[1..][i - 1];
        Shifted(idx, later, i);
        assert i in picked <==> i in later;
      }
    }
    AndFirst(xs, rest, later);
  }

  // ------------------------------------------------------------------------- connections

  /** No edge before the `i`th is on that output, and the `i`th is. */
  predicate FirstOn(edges: seq<Edge>, i: int, from: Id, output: Output) {
    && 0 <= i < |edges| && Leaves(edges[i], from, output)
    && forall k :: 0 <= k < i ==> !Leaves(edges[k], from, output)
  }

  lemma {:induction false} PreviousIsFirst(edges: seq<Edge>, from: Id, output: Output)
    ensures (exists i :: FirstOn(edges, i, from, output))
            || forall e :: e in edges ==> !Leaves(e, from, output)
    ensures forall i :: FirstOn(edges, i, from, output) ==>
              PreviousCondition(edges, from, output) == edges[i].when
    ensures (forall e :: e in edges ==> !Leaves(e, from, output)) ==>
              PreviousCondition(edges, from, output) == None
    decreases |edges|
  {
    if edges != [] {
      if Leaves(edges[0], from, output) {
        assert FirstOn(edges, 0, from, output);
      } else {
        PreviousIsFirst(edges[1..], from, output);
        forall i | FirstOn(edges, i, from, output)
          ensures PreviousCondition(edges, from, output) == edges[i].when
        {
          assert FirstOn(edges[1..], i - 1, from, output);
        }
        if i :| FirstOn(edges[1..], i, from, output) {
          assert FirstOn(edges, i + 1, from, output);
        }
      }
    }
  }

  lemma ConnectedParts(graph: Graph, from: Id, output: Output, to: Id)
    ensures var after := Reduce(graph, Connect(from, output, to)).edges;
            && after != []
            && after[..|after| - 1] == Without(graph.edges, from, output)
            && after[|after| - 1] == NewEdge(graph.edges, from, output, to)
  {
  }

  lemma WithoutThins(edges: seq<Edge>, from: Id, output: Output)
    ensures Thinned(edges, Without(edges, from, output), (e: Edge) => !Leaves(e, from, output))
  {
    FilterThins(edges, (e: Edge) => !SameOutput(e, from, output),
                (e: Edge) => !Leaves(e, from, output));
  }

  /** A connection: the edges before the last are the old ones that are not on the output connected,
      and the last runs to the new target. */
  lemma ConnectExact(graph: Graph, from: Id, output: Output, to: Id)
    ensures var after := Reduce(graph, Connect(from, output, to));
            && after.nodes == graph.nodes && after.layout == graph.layout
            && after.edges != []
            && var kept, e := after.edges[..|after.edges| - 1], after.edges[|after.edges| - 1];
               && Thinned(graph.edges, kept, (e: Edge) => !Leaves(e, from, output))
               && e.from == from && e.to == to
               && (e.default <==> output == No)
               && (e.when.Some? <==> output == Yes)
  {
    ConnectedParts(graph, from, output, to);
    WithoutThins(graph.edges, from, output);
  }

  /** The edge on a Yes output carries the condition of the first edge that was there, or a blank
      one. */
  lemma ConnectKeepsCondition(graph: Graph, from: Id, to: Id)
    ensures var after := Reduce(graph, Connect(from, Yes, to)).edges;
            && after != []
            && (forall i :: FirstOn(graph.edges, i, from, Yes) ==>
                  after[|after| - 1].when == graph.edges[i].when)
            && ((forall e :: e in graph.edges ==> !Leaves(e, from, Yes)) ==>
                  after[|after| - 1].when == Some(Condition("", "gt", "", "")))
  {
    ConnectedParts(graph, from, Yes, to);
    PreviousIsFirst(graph.edges, from, Yes);
  }

  /** The same as a set of edges: after a connection an edge is there if and only if it is the new
      one, or was there before and is not on the output connected. */
  lemma ConnectedEdges(graph: Graph, from: Id, output: Output, to: Id, e: Edge)
    ensures var after := Reduce(graph, Connect(from, output, to)).edges;
            && |after| > 0
            && (e in after <==>
                  e == after[|after| - 1] || (e in graph.edges && !Leaves(e, from, output)))
  {
    var after := Reduce(graph, Connect(from, output, to)).edges;
    ConnectedParts(graph, from, output, to);
    assert after == after[..|after| - 1] + [after[|after| - 1]];
  }

  /** A disconnection removes the edges of that output and nothing else. */
  lemma DisconnectExact(graph: Graph, from: Id, output: Output)
    ensures var after := Reduce(graph, Disconnect(from, output));
            && after.nodes == graph.nodes && after.layout == graph.layout
            && Thinned(graph.edges, after.edges, (e: Edge) => !Leaves(e, from, output))
  {
    WithoutThins(graph.edges, from, output);
  }

  lemma DeletedNodes(graph: Graph, id: Id)
    ensures Thinned(graph.nodes, Reduce(graph, Delete(id)).nodes, (n: Node) => n.id != id)
  {
    FilterThins(graph.nodes, (n: Node) => n.id != id, (n: Node) => n.id != id);
  }

  lemma WithoutNodeThins(edges: seq<Edge>, id: Id)
    ensures Thinned(edges, WithoutNode(edges, id), (e: Edge) => e.from != id && e.to != id)
  {
    FilterThins(edges, (e: Edge) => e.from != id && e.to != id,
                (e: Edge) => e.from != id && e.to != id);
  }

  lemma DeletedEdges(graph: Graph, id: Id)
    ensures Reduce(graph, Delete(id)).edges == WithoutNode(graph.edges, id)
  {
  }

  lemma DeletedLayout(graph: Graph, id: Id)
    ensures Reduce(graph, Delete(id)).layout == graph.layout - {id}
  {
  }

  /** A deletion removes the node, the edges at either of its ends and its place, and nothing else. */
  lemma DeleteExact(graph: Graph, id: Id)
    ensures var after := Reduce(graph, Delete(id));
            && Thinned(graph.nodes, after.nodes, (n: Node) => n.id != id)
            && Thinned(graph.edges, after.edges, (e: Edge) => e.from != id && e.to != id)
            && after.layout == graph.layout - {id}
  {
    DeletedNodes(graph, id);
    DeletedEdges(graph, id);
    WithoutNodeThins(graph.edges, id);
    DeletedLayout(graph, id);
  }

  // ------------------------------------------------------------------------- other edits

  /** A condition is set on the edges of the node's Yes output and on no other; every edge keeps its
      ends and its output. */
  lemma SetConditionExact(graph: Graph, id: Id, when: Condition)
    ensures var after := Reduce(graph, SetCondition(id, when));
            && after.nodes == graph.nodes && after.layout == graph.layout
            && |after.edges| == |graph.edges|
            && forall i :: 0 <= i < |graph.edges| ==>
                 var a, b := graph.edges[i], after.edges[i];
                 && b.from == a.from && b.to == a.to && b.default == a.default
                 && b.when == if a.from == id && !a.default && a.when.Some? then Some(when)
                              else a.when
  {
    var after := Reduce(graph, SetCondition(id, when));
    forall i | 0 <= i < |graph.edges|
      ensures after.edges[i] == if Leaves(graph.edges[i], id, Yes)
                                then graph.edges[i].(when := Some(when)) else graph.edges[i]
    {
    }
  }

  /** An update replaces the fields it names of the nodes with that id; ids and kinds stay. */
  lemma UpdateExact(graph: Graph, id: Id, name: Option<string>, settings: Option<string>)
    ensures var after := Reduce(graph, Update(id, name, settings));
            && after.edges == graph.edges && after.layout == graph.layout
            && |after.nodes| == |graph.nodes|
            && forall i :: 0 <= i < |graph.nodes| ==>
                 var a, b := graph.nodes[i], after.nodes[i];
                 && b.id == a.id && b.kind == a.kind
                 && b.name == (if a.id == id && name.Some? then name.value else a.name)
                 && b.settings
                    == (if a.id == id && settings.Some? then settings.value else a.settings)
  {
    var after := Reduce(graph, Update(id, name, settings));
    assert forall i :: 0 <= i < |graph.nodes| ==>
      after.nodes[i] == UpdateNode(graph.nodes[i], id, name, settings);
  }

  /** A new node comes last and brings no edges and no place; a move gives one node its place. */
  lemma AddAndMoveExact(graph: Graph, node: Node, id: Id, x: int, y: int)
    ensures var after := Reduce(graph, Add(node));
            && after.edges == graph.edges && after.layout == graph.layout
            && |after.nodes| == |graph.nodes| + 1
            && (forall i :: 0 <= i < |graph.nodes| ==> after.nodes[i] == graph.nodes[i])
            && after.nodes[|graph.nodes|] == node
    ensures var after := Reduce(graph, Move(id, x, y));
            && after.nodes == graph.nodes && after.edges == graph.edges
            && id in after.layout && after.layout[id].x == x && after.layout[id].y == y
            && forall k :: k != id ==>
                 && (k in after.layout <==> k in graph.layout)
                 && (k in graph.layout ==> after.layout[k] == graph.layout[k])
  {
  }

  /** The search and the walk take the edges of a node in the order the graph lists them. */
  lemma TargetsInOrder(edges: seq<Edge>, id: Id) returns (own: seq<Edge>)
    ensures Thinned(edges, own, (e: Edge) => e.from == id)
    ensures |Targets(edges, id)| == |own|
    ensures forall k :: 0 <= k < |own| ==> Targets(edges, id)[k] == own[k].to
  {
    var leaving := (e: Edge) => e.from == id;
    own := Filter(edges, leaving);
    FilterThins(edges, leaving, leaving);
  }

  /** The walk begins with the start nodes in the order the graph lists them. */
  lemma StartsInOrder(graph: Graph) returns (own: seq<Node>)
    ensures Thinned(graph.nodes, own, (n: Node) => n.kind == StartNode)
    ensures |StartIds(graph)| == |own|
    ensures forall k :: 0 <= k < |own| ==> StartIds(graph)[k] == own[k].id
  {
    var starts := (n: Node) => n.kind == StartNode;
    own := Filter(graph.nodes, starts);
    FilterThins(graph.nodes, starts, starts);
  }

  // ------------------------------------------------------------------------- edges that lead nowhere

  predicate HasNode(graph: Graph, id: Id) { exists n :: n in graph.nodes && n.id == id }

  lemma IdsAreNodes(graph: Graph, id: Id)
    ensures id in IdsOf(graph.nodes) <==> HasNode(graph, id)
  {
    if id in IdsOf(graph.nodes) {
      var i :| 0 <= i < |graph.nodes| && IdsOf(graph.nodes)[i] == id;
      assert graph.nodes[i] in graph.nodes;
    }
    if n :| n in graph.nodes && n.id == id {
      var i :| 0 <= i < |graph.nodes| && graph.nodes[i] == n;
      assert IdsOf(graph.nodes)[i] == id;
    }
  }

  lemma NodesStay(graph: Graph, op: Operation, id: Id)
    requires op.Delete? ==> op.id != id
    requires HasNode(graph, id)
    ensures HasNode(Reduce(graph, op), id)
  {
    var after := Reduce(graph, op);
    var n :| n in graph.nodes && n.id == id;
    var i :| 0 <= i < |graph.nodes| && graph.nodes[i] == n;
    match op
    case Add(_) => assert after.nodes[i] in after.nodes;
    case Update(_, _, _) => assert after.nodes[i].id == id && after.nodes[i] in after.nodes;
    case _ => assert n in after.nodes;
  }

  /** Where edges lead after an edit. */
  lemma EdgesStay(graph: Graph, op: Operation, e: Edge)
    requires e in Reduce(graph, op).edges
    ensures (op.Connect? && e.to == op.to)
            || exists x :: x in graph.edges && x.to == e.to && (op.Delete? ==> op.id != x.to)
  {
    match op
    case SetCondition(id, when) =>
      var after := Reduce(graph, op).edges;
      var i :| 0 <= i < |after| && after[i] == e;
      assert graph.edges[i] in graph.edges;
    case Connect(from, output, to) =>
      if e in graph.edges {} else { assert e.to == to; }
    case _ => assert e in graph.edges;
  }

  /** An edit of a graph whose edges all lead to nodes leaves such a graph if and only if it is not a
      connection made to something that is no node. */
  lemma TargetsStayNodes(graph: Graph, op: Operation)
    requires forall e :: e in graph.edges ==> HasNode(graph, e.to)
    ensures (forall e :: e in Submit(graph, op).edges ==> HasNode(Submit(graph, op), e.to)) <==>
            !(op.Connect? && !Reaches(graph.edges, op.to, op.from) && !HasNode(graph, op.to))
  {
    var after := Submit(graph, op);
    if op.Connect? && Reaches(graph.edges, op.to, op.from) {
    } else if op.Connect? && !HasNode(graph, op.to) {
      assert after.edges[|after.edges| - 1].to == op.to;
      assert after.edges[|after.edges| - 1] in after.edges;
      assert !HasNode(after, op.to);
    } else {
      forall e | e in after.edges ensures HasNode(after, e.to) {
        EdgesStay(graph, op, e);
        NodesStay(graph, op, e.to);
      }
    }
  }
}
