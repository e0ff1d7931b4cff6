/**
  The workflow graph editor: the loop guard that every edit passes, and the edits themselves. The
  guard is a depth-first search over the graph as it is before the edit.
 */
module WorkflowGraph {
  import opened Wrappers

  type Id = string

  datatype Kind = StartNode | ConditionNode | ApprovalNode | EndNode

  /** A node; everything the editor may change about it is one settings value. */
  datatype Node = Node(id: Id, kind: Kind, name: string, settings: string)

  datatype Condition = Condition(field: string, op: string, amount: string, currency: string)

  datatype Edge = Edge(from: Id, to: Id, default: bool, when: Option<Condition>)

  datatype Position = Position(x: int, y: int)

  datatype Graph = Graph(nodes: seq<Node>, edges: seq<Edge>, layout: map<Id, Position>)

  datatype Output = Next | Yes | No

  datatype Operation =
    | Add(node: Node)
    | Move(id: Id, x: int, y: int)
    | Update(id: Id, name: Option<string>, settings: Option<string>)
    | SetCondition(id: Id, when: Condition)
    | Delete(id: Id)
    | Connect(from: Id, output: Output, to: Id)
    | Disconnect(from: Id, output: Output)

  function EdgeOutput(e: Edge): Output {
    if e.default then No else if e.when.Some? then Yes else Next
  }

  // ------------------------------------------------------------------------- sequences

  function Filter<T(!new)>(xs: seq<T>, keep: T -> bool): (r: seq<T>)
    ensures forall x :: x in r <==> x in xs && keep(x)
    decreases |xs|
  {
    if xs == [] then []
    else if keep(xs[0]) then [xs[0]] + Filter(xs[1..], keep)
    else Filter(xs[1..], keep)
  }

  function MapSeq<T, U>(xs: seq<T>, f: T -> U): (r: seq<U>)
    ensures |r| == |xs| && forall i :: 0 <= i < |xs| ==> r[i] == f(xs[i])
  {
    seq(|xs|, i requires 0 <= i < |xs| => f(xs[i]))
  }

  // ------------------------------------------------------------------------- paths and cycles

  /** `p` runs from its first node to its last along edges. */
  ghost predicate IsPath(edges: seq<Edge>, p: seq<Id>) {
    p != [] && forall i :: 0 < i < |p| ==> HasEdge(edges, p[i - 1], p[i])
  }

  predicate HasEdge(edges: seq<Edge>, a: Id, b: Id) {
    exists e :: e in edges && e.from == a && e.to == b
  }

  ghost predicate PathFrom(edges: seq<Edge>, p: seq<Id>, a: Id, b: Id) {
    IsPath(edges, p) && p[0] == a && p[|p| - 1] == b
  }

  /** There is a path from `a` to `b`, possibly of no edges. */
  ghost predicate Reaches(edges: seq<Edge>, a: Id, b: Id) {
    exists p :: PathFrom(edges, p, a, b)
  }

  /** No edge leads back to where it starts. */
  ghost predicate Acyclic(edges: seq<Edge>) {
    forall e :: e in edges ==> !Reaches(edges, e.to, e.from)
  }

  lemma ReachesSelf(edges: seq<Edge>, a: Id)
    ensures Reaches(edges, a, a)
  {
    assert PathFrom(edges, [a], a, a);
  }

  lemma ReachesStep(edges: seq<Edge>, a: Id, b: Id, c: Id)
    requires Reaches(edges, a, b) && HasEdge(edges, b, c)
    ensures Reaches(edges, a, c)
  {
    var p :| PathFrom(edges, p, a, b);
    assert PathFrom(edges, p + [c], a, c);
  }

  lemma ReachesTrans(edges: seq<Edge>, a: Id, b: Id, c: Id)
    requires Reaches(edges, a, b) && Reaches(edges, b, c)
    ensures Reaches(edges, a, c)
  {
    var p :| PathFrom(edges, p, a, b);
    var q :| PathFrom(edges, q, b, c);
    var r := p + q[1..];
    forall i | 0 < i < |r| ensures HasEdge(edges, r[i - 1], r[i]) {
      if i >= |p| { assert r[i] == q[i - |p| + 1] && r[i - 1] == q[i - |p|]; }
    }
    assert PathFrom(edges, r, a, c);
  }

  /** A path that starts inside a set closed under edges stays inside it. */
  lemma ClosedSet(edges: seq<Edge>, s: set<Id>, p: seq<Id>)
    requires IsPath(edges, p) && p[0] in s
    requires forall e :: e in edges && e.from in s ==> e.to in s
    ensures forall i :: 0 <= i < |p| ==> p[i] in s
  {
    for i := 1 to |p|
      invariant forall k :: 0 <= k < i ==> p[k] in s
    {
      assert HasEdge(edges, p[i - 1], p[i]);
    }
  }

  /** Of a path to `b`, the part up to the first visit of `b` uses no edge out of `b`. */
  lemma FirstArrival(edges: seq<Edge>, p: seq<Id>, a: Id, b: Id) returns (q: seq<Id>)
    requires PathFrom(edges, p, a, b)
    ensures PathFrom(edges, q, a, b) && forall i :: 0 <= i < |q| - 1 ==> q[i] != b
  {
    var k := 0;
    while p[k] != b
      invariant 0 <= k < |p| && forall i :: 0 <= i < k ==> p[i] != b
      decreases |p| - k
    {
      k := k + 1;
    }
    q := p[..k + 1];
  }

  /** Reaching `b` does not depend on the edges that leave `b`. */
  lemma ReachesWithoutOwnEdges(edges: seq<Edge>, others: seq<Edge>, a: Id, b: Id)
    requires forall e :: e in edges && e.from != b ==> e in others
    requires Reaches(edges, a, b)
    ensures Reaches(others, a, b)
  {
    var p :| PathFrom(edges, p, a, b);
    var q := FirstArrival(edges, p, a, b);
    forall i | 0 < i < |q| ensures HasEdge(others, q[i - 1], q[i]) {
      assert HasEdge(edges, q[i - 1], q[i]);
      var e :| e in edges && e.from == q[i - 1] && e.to == q[i];
      assert e in others;
    }
    assert PathFrom(others, q, a, b);
  }

  lemma ReachesMore(edges: seq<Edge>, more: seq<Edge>, a: Id, b: Id)
    requires forall e :: e in edges ==> HasEdge(more, e.from, e.to)
    requires Reaches(edges, a, b)
    ensures Reaches(more, a, b)
  {
    var p :| PathFrom(edges, p, a, b);
    assert PathFrom(more, p, a, b);
  }

  /** Fewer links, or the same ones, cannot make a cycle. */
  lemma AcyclicFewer(edges: seq<Edge>, fewer: seq<Edge>)
    requires Acyclic(edges) && forall e :: e in fewer ==> HasEdge(edges, e.from, e.to)
    ensures Acyclic(fewer)
  {
    forall e | e in fewer ensures !Reaches(fewer, e.to, e.from) {
      var e0 :| e0 in edges && e0.from == e.from && e0.to == e.to;
      if Reaches(fewer, e.to, e.from) { ReachesMore(fewer, edges, e.to, e.from); }
    }
  }

  // ------------------------------------------------------------------------- the guard

  function Targets(edges: seq<Edge>, id: Id): (r: seq<Id>)
    ensures forall x :: x in r <==> HasEdge(edges, id, x)
  {
    var own := Filter(edges, (e: Edge) => e.from == id);
    var r := MapSeq(own, (e: Edge) => e.to);
    assert forall x | x in r :: HasEdge(edges, id, x) by {
      forall x | x in r ensures HasEdge(edges, id, x) {
        var i :| 0 <= i < |own| && r[i] == x;
        assert own[i] in own;
      }
    }
    assert forall x | HasEdge(edges, id, x) :: x in r by {
      forall x | HasEdge(edges, id, x) ensures x in r {
        var e :| e in edges && e.from == id && e.to == x;
        assert e in own;
        var i :| 0 <= i < |own| && own[i] == e;
        assert r[i] == x;
      }
    }
    r
  }

  function Ends(edges: seq<Edge>): set<Id> { set e | e in edges :: e.to }

  /** Would an edge from `from` to `to` close a loop? Depth-first, with a stack that may hold a node
      more than once. */
  method MakesLoop(graph: Graph, from: Id, to: Id) returns (loops: bool)
    ensures loops <==> Reaches(graph.edges, to, from)
  {
    var edges := graph.edges;
    var visited: set<Id> := {};
    var stack := [to];
    ghost var universe := Ends(edges) + {to};
    ReachesSelf(edges, to);
    while stack != []
      invariant visited <= universe && forall x :: x in stack ==> x in universe
      invariant from !in visited
      invariant forall x :: x in stack || x in visited ==> Reaches(edges, to, x)
      invariant to in visited || to in stack
      invariant forall x, y :: x in visited && HasEdge(edges, x, y) ==> y in visited || y in stack
      decreases universe - visited, |stack|
    {
      var id := stack[|stack| - 1];
      var rest := stack[..|stack| - 1];
      assert stack == rest + [id];
      stack := rest;
      if id == from { return true; }
      if id in visited { continue; }
      visited := visited + {id};
      var targets := Targets(edges, id);
      forall x | x in targets ensures Reaches(edges, to, x) && x in universe {
        ReachesStep(edges, to, id, x);
      }
      stack := stack + targets;
    }
    if p :| PathFrom(edges, p, to, from) {
      forall e | e in edges && e.from in visited ensures e.to in visited {
        assert HasEdge(edges, e.from, e.to);
      }
      ClosedSet(edges, visited, p);
    }
    loops := false;
  }

  // ------------------------------------------------------------------------- the edits

  const BLANK: Condition := Condition("", "gt", "", "")

  function SameOutput(e: Edge, from: Id, output: Output): bool {
    e.from == from && EdgeOutput(e) == output
  }

  function Without(edges: seq<Edge>, from: Id, output: Output): seq<Edge> {
    Filter(edges, (e: Edge) => !SameOutput(e, from, output))
  }

  function WithoutNode(edges: seq<Edge>, id: Id): seq<Edge> {
    Filter(edges, (e: Edge) => e.from != id && e.to != id)
  }

  /** The condition already on that output, if there is one. */
  function PreviousCondition(edges: seq<Edge>, from: Id, output: Output): Option<Condition>
    decreases |edges|
  {
    if edges == [] then None
    else if SameOutput(edges[0], from, output) then edges[0].when
    else PreviousCondition(edges[1..], from, output)
  }

  function NewEdge(edges: seq<Edge>, from: Id, output: Output, to: Id): (e: Edge)
    ensures e.from == from && e.to == to && EdgeOutput(e) == output
  {
    var previous := PreviousCondition(edges, from, output);
    Edge(from, to, output == No,
         if output == Yes then Some(if previous.Some? then previous.value else BLANK) else None)
  }

  function UpdateNode(n: Node, id: Id, name: Option<string>, settings: Option<string>): Node {
    if n.id != id then n
    else n.(name := if name.Some? then name.value else n.name,
            settings := if settings.Some? then settings.value else n.settings)
  }

  function Reduce(graph: Graph, op: Operation): Graph {
    match op
    case Add(node) => graph.(nodes := graph.nodes + [node])
    case Move(id, x, y) => graph.(layout := graph.layout[id := Position(x, y)])
    case Update(id, name, settings) =>
      graph.(nodes := MapSeq(graph.nodes, (n: Node) => UpdateNode(n, id, name, settings)))
    case SetCondition(id, when) =>
      graph.(edges := MapSeq(graph.edges, (e: Edge) =>
        if SameOutput(e, id, Yes) then e.(when := Some(when)) else e))
    case Delete(id) =>
      Graph(Filter(graph.nodes, (n: Node) => n.id != id),
            WithoutNode(graph.edges, id),
            graph.layout - {id})
    case Disconnect(from, output) => graph.(edges := Without(graph.edges, from, output))
    case Connect(from, output, to) =>
      graph.(edges := Without(graph.edges, from, output) + [NewEdge(graph.edges, from, output, to)])
  }

  /** The boundary every editor submits through. */
  method Operate(graph: Graph, op: Operation) returns (after: Graph, refused: bool)
    ensures refused <==> op.Connect? && Reaches(graph.edges, op.to, op.from)
    ensures after == if refused then graph else Reduce(graph, op)
    ensures after == Submit(graph, op)
  {
    if op.Connect? {
      var loops := MakesLoop(graph, op.from, op.to);
      if loops { return graph, true; }
    }
    return Reduce(graph, op), false;
  }

  // ------------------------------------------------------------------------- exactness

  lemma ReducedEdges(graph: Graph, from: Id, output: Output, to: Id)
    ensures var edges := Reduce(graph, Connect(from, output, to)).edges;
            && (forall e :: e in edges ==>
                  e in graph.edges || (e.from == from && e.to == to))
            && HasEdge(edges, from, to)
            && (forall e :: e in graph.edges && e.from != from ==> e in edges)
  {
    var edges := Reduce(graph, Connect(from, output, to)).edges;
    var e := NewEdge(graph.edges, from, output, to);
    assert edges[|edges| - 1] == e;
  }

  /** The guard is exact: on an acyclic graph it refuses a connection if and only if the reduced
      graph would have a cycle, although it looks at the graph before the old edge is removed. */
  lemma GuardExact(graph: Graph, from: Id, output: Output, to: Id)
    requires Acyclic(graph.edges)
    ensures Reaches(graph.edges, to, from)
            <==> !Acyclic(Reduce(graph, Connect(from, output, to)).edges)
  {
    var edges := Reduce(graph, Connect(from, output, to)).edges;
    ReducedEdges(graph, from, output, to);
    if Reaches(graph.edges, to, from) {
      ReachesWithoutOwnEdges(graph.edges, edges, to, from);
      var e :| e in edges && e.from == from && e.to == to;
    } else {
      forall e | e in edges ensures !Reaches(edges, e.to, e.from) {
        NoNewCycle(graph.edges, edges, from, to, e);
      }
    }
  }

  /** With a new edge that closes no loop, a path back along any edge would already have been there. */
  lemma NoNewCycle(edges: seq<Edge>, more: seq<Edge>, from: Id, to: Id, e: Edge)
    requires Acyclic(edges) && !Reaches(edges, to, from)
    requires forall x :: x in more ==> x in edges || (x.from == from && x.to == to)
    requires e in more
    ensures !Reaches(more, e.to, e.from)
  {
    if p :| PathFrom(more, p, e.to, e.from) {
      if e in edges {
        SplitAtNewEdge(edges, more, from, to, p);
        if Reaches(edges, p[0], from) && Reaches(edges, to, p[|p| - 1]) {
          assert HasEdge(edges, e.from, e.to);
          ReachesStep(edges, to, e.from, e.to);
          ReachesTrans(edges, to, e.to, from);
        }
      } else {
        SplitAtNewEdge(edges, more, from, to, p);
      }
    }
  }

  /** A path in the graph with a new edge is a path without it, or goes to its tail and comes from
      its head without it. */
  lemma {:induction false} SplitAtNewEdge(
    edges: seq<Edge>, more: seq<Edge>, from: Id, to: Id, p: seq<Id>)
    requires IsPath(more, p)
    requires forall x :: x in more ==> x in edges || (x.from == from && x.to == to)
    ensures Reaches(edges, p[0], p[|p| - 1])
            || (Reaches(edges, p[0], from) && Reaches(edges, to, p[|p| - 1]))
    decreases |p|
  {
    if |p| == 1 {
      ReachesSelf(edges, p[0]);
    } else {
      var q := p[..|p| - 1];
      var a, b := q[|q| - 1], p[|p| - 1];
      SplitAtNewEdge(edges, more, from, to, q);
      assert HasEdge(more, p[|p| - 2], p[|p| - 1]);
      if HasEdge(edges, a, b) {
        if Reaches(edges, p[0], a) { ReachesStep(edges, p[0], a, b); }
        if Reaches(edges, to, a) { ReachesStep(edges, to, a, b); }
      } else {
        assert a == from && b == to;
        ReachesSelf(edges, to);
        assert Reaches(edges, p[0], from);
      }
    }
  }

  // ------------------------------------------------------------------------- whole runs

  /** One submission, as a function of the graph. */
  ghost function Submit(graph: Graph, op: Operation): Graph {
    if op.Connect? && Reaches(graph.edges, op.to, op.from) then graph else Reduce(graph, op)
  }

  ghost function SubmitAll(graph: Graph, ops: seq<Operation>): Graph
    decreases |ops|
  {
    if ops == [] then graph else SubmitAll(Submit(graph, ops[0]), ops[1..])
  }

  /** An output of a node leads to one place at most. */
  ghost predicate OneEdgeAnOutput(edges: seq<Edge>) {
    forall i, j :: 0 <= i < j < |edges| ==>
      edges[i].from != edges[j].from || EdgeOutput(edges[i]) != EdgeOutput(edges[j])
  }

  lemma FilterKeepsOne(edges: seq<Edge>, keep: Edge -> bool)
    requires OneEdgeAnOutput(edges)
    ensures OneEdgeAnOutput(Filter(edges, keep))
    decreases |edges|
  {
    if edges != [] {
      FilterKeepsOne(edges[1..], keep);
      var rest := Filter(edges[1..], keep);
      forall e | e in rest ensures e.from != edges[0].from || EdgeOutput(e) != EdgeOutput(edges[0]) {
        var i :| 0 <= i < |edges[1..]| && edges[1..][i] == e;
        assert edges[i + 1] == e;
      }
    }
  }

  /** Every edit keeps the graph acyclic, however many edges its outputs have. */
  lemma SubmitKeeps(graph: Graph, op: Operation)
    requires Acyclic(graph.edges)
    ensures Acyclic(Submit(graph, op).edges)
  {
    match op
    case Connect(from, output, to) => GuardExact(graph, from, output, to);
    case Delete(id) => AcyclicFewer(graph.edges, Submit(graph, op).edges);
    case Disconnect(from, output) => AcyclicFewer(graph.edges, Submit(graph, op).edges);
    case SetCondition(id, when) => ConditionKeeps(graph, id, when);
    case _ =>
  }

  lemma ConditionKeeps(graph: Graph, id: Id, when: Condition)
    requires Acyclic(graph.edges)
    ensures Acyclic(Submit(graph, SetCondition(id, when)).edges)
  {
    var after := Submit(graph, SetCondition(id, when)).edges;
    forall e | e in after ensures HasEdge(graph.edges, e.from, e.to) {
      var i :| 0 <= i < |after| && after[i] == e;
      assert graph.edges[i] in graph.edges;
    }
    AcyclicFewer(graph.edges, after);
  }

  /** Safety over whole editing sessions: whatever is submitted to an acyclic graph, it stays
      acyclic. */
  lemma {:induction false} SessionsStayAcyclic(graph: Graph, ops: seq<Operation>)
    requires Acyclic(graph.edges)
    ensures Acyclic(SubmitAll(graph, ops).edges)
    decreases |ops|
  {
    if ops != [] {
      SubmitKeeps(graph, ops[0]);
      SessionsStayAcyclic(Submit(graph, ops[0]), ops[1..]);
    }
  }

  /** Every edit keeps single outputs single, with or without cycles. */
  lemma SubmitKeepsOne(graph: Graph, op: Operation)
    requires OneEdgeAnOutput(graph.edges)
    ensures OneEdgeAnOutput(Submit(graph, op).edges)
  {
    match op
    case Connect(from, output, to) => ConnectKeepsOne(graph, from, output, to);
    case Delete(id) => FilterKeepsOne(graph.edges, (e: Edge) => e.from != id && e.to != id);
    case Disconnect(from, output) =>
      FilterKeepsOne(graph.edges, (e: Edge) => !SameOutput(e, from, output));
    case _ =>
  }

  /** A connection leaves its own output with exactly the new edge, whatever was on it before. */
  lemma ConnectReplaces(graph: Graph, from: Id, output: Output, to: Id)
    ensures var after := Reduce(graph, Connect(from, output, to)).edges;
            forall i :: 0 <= i < |after| ==>
              (SameOutput(after[i], from, output) <==> i == |after| - 1)
              && (i == |after| - 1 ==> after[i].to == to)
  {
    var kept := Without(graph.edges, from, output);
    assert forall i :: 0 <= i < |kept| ==> kept[i] in kept;
  }

  lemma ConnectKeepsOne(graph: Graph, from: Id, output: Output, to: Id)
    requires OneEdgeAnOutput(graph.edges)
    ensures OneEdgeAnOutput(Submit(graph, Connect(from, output, to)).edges)
  {
    FilterKeepsOne(graph.edges, (e: Edge) => !SameOutput(e, from, output));
    ConnectReplaces(graph, from, output, to);
  }

  /** Over whole sessions, outputs that lead to one place at most keep doing so. */
  lemma {:induction false} SessionsKeepOne(graph: Graph, ops: seq<Operation>)
    requires OneEdgeAnOutput(graph.edges)
    ensures OneEdgeAnOutput(SubmitAll(graph, ops).edges)
    decreases |ops|
  {
    if ops != [] {
      SubmitKeepsOne(graph, ops[0]);
      SessionsKeepOne(Submit(graph, ops[0]), ops[1..]);
    }
  }
}
