/**
  The lineage view: a recursive query over the parent links of the ledger, and what it lists, for
  every entry the walk to its ancestors, one row an ancestor.
 */
module Lineage {
  import opened Collections
  import opened Wrappers
  import opened Ledger

  /** The one link the view follows. */
  function Parent(e: Entry): Option<nat> {
    if e.reverses.Some? then e.reverses else if e.releases.Some? then e.releases else e.converts
  }

  // ------------------------------------------------------------------------- the query

  datatype Row = Row(
    entry: nat,
    org: string,
    project: string,
    source: Source,
    sourceId: Option<string>,
    root: nat,
    depth: nat,
    parent: Option<nat>,
    visited: seq<nat>)

  function Start(e: Entry): Row {
    Row(e.id, e.org, e.project, e.source, e.sourceId, e.id, 0, Parent(e), [e.id])
  }

  function Extended(c: Row, p: Entry): Row {
    Row(c.entry, c.org, c.project, p.source, p.sourceId, p.id, c.depth + 1, Parent(p),
        c.visited + [p.id])
  }

  predicate Joins(c: Row, p: Entry) {
    c.parent == Some(p.id) && p.org == c.org && p.id !in c.visited
  }

  /** The join of one row of the working table with the ledger. */
  function Joined(ledger: seq<Entry>, c: Row): seq<Row> {
    if ledger == [] then [] else
      var p := ledger[|ledger| - 1];
      Joined(ledger[..|ledger| - 1], c) + if Joins(c, p) then [Extended(c, p)] else []
  }

  function Step(ledger: seq<Entry>, working: seq<Row>): seq<Row> {
    if working == [] then []
    else Step(ledger, working[..|working| - 1]) + Joined(ledger, working[|working| - 1])
  }

  function Ids(ledger: seq<Entry>): set<nat> { set e | e in ledger :: e.id }

  ghost predicate Sound(ledger: seq<Entry>, c: Row, n: nat) {
    |c.visited| == n + 1 && Distinct(c.visited) && forall id :: id in c.visited ==> id in Ids(ledger)
  }

  lemma {:induction false} IdsSize(ledger: seq<Entry>)
    ensures |Ids(ledger)| <= |ledger|
    decreases |ledger|
  {
    if ledger != [] {
      var front, last := ledger[..|ledger| - 1], ledger[|ledger| - 1];
      IdsSize(front);
      assert ledger == front + [last];
      assert Ids(ledger) == Ids(front) + {last.id};
    }
  }

  lemma {:induction false} JoinedSound(all: seq<Entry>, ledger: seq<Entry>, c: Row, n: nat)
    requires Sound(all, c, n) && Ids(ledger) <= Ids(all)
    ensures forall d :: d in Joined(ledger, c) ==> Sound(all, d, n + 1)
    decreases |ledger|
  {
    if ledger != [] {
      var p := ledger[|ledger| - 1];
      assert p in ledger && p.id in Ids(all);
      assert Ids(ledger[..|ledger| - 1]) <= Ids(ledger);
      JoinedSound(all, ledger[..|ledger| - 1], c, n);
    }
  }

  lemma {:induction false} StepSound(ledger: seq<Entry>, working: seq<Row>, n: nat)
    requires forall c :: c in working ==> Sound(ledger, c, n)
    ensures forall c :: c in Step(ledger, working) ==> Sound(ledger, c, n + 1)
    decreases |working|
  {
    if working != [] {
      StepSound(ledger, working[..|working| - 1], n);
      JoinedSound(ledger, ledger, working[|working| - 1], n);
    }
  }

  lemma SoundBound(ledger: seq<Entry>, c: Row, n: nat)
    requires Sound(ledger, c, n)
    ensures n < |ledger|
  {
    DistinctWithin(c.visited, Ids(ledger));
    IdsSize(ledger);
  }

  /** The recursive query: join the working table until a join gives nothing. It ends for all links,
      because a row's visited list holds distinct identifiers and grows by one each turn. */
  ghost function Collect(ledger: seq<Entry>, working: seq<Row>, n: nat): seq<Row>
    requires forall c :: c in working ==> Sound(ledger, c, n)
    decreases |ledger| - n
  {
    if working == [] then [] else
      SoundBound(ledger, working[0], n);
      StepSound(ledger, working, n);
      working + Collect(ledger, Step(ledger, working), n + 1)
  }

  function Starts(ledger: seq<Entry>): seq<Row> {
    seq(|ledger|, i requires 0 <= i < |ledger| => Start(ledger[i]))
  }

  ghost function View(ledger: seq<Entry>): seq<Row> {
    Collect(ledger, Starts(ledger), 0)
  }

  // ------------------------------------------------------------------------- meaning

  ghost predicate UniqueKeys(ledger: seq<Entry>) {
    forall i, j :: 0 <= i < j < |ledger| ==> ledger[i].id != ledger[j].id
  }

  /** The parent of a reversal is what it reverses; of another entry, what it releases; of one that
      does neither, what it converts. */
  predicate ChildOf(e: Entry, id: nat) {
    || e.reverses == Some(id)
    || (e.reverses.None? && e.releases == Some(id))
    || (e.reverses.None? && e.releases.None? && e.converts == Some(id))
  }

  predicate Root(e: Entry) { e.reverses.None? && e.releases.None? && e.converts.None? }

  predicate Linked(ledger: seq<Entry>, i: nat, j: nat)
    requires i < |ledger| && j < |ledger|
  {
    ChildOf(ledger[i], ledger[j].id) && ledger[i].org == ledger[j].org
  }

  /** Positions in the ledger, each the parent of the one before, none twice. */
  ghost predicate Walk(ledger: seq<Entry>, path: seq<nat>) {
    && path != [] && Distinct(path)
    && (forall k :: 0 <= k < |path| ==> path[k] < |ledger|)
    && forall k :: 0 <= k < |path| - 1 ==> Linked(ledger, path[k], path[k + 1])
  }

  function Last(path: seq<nat>): nat
    requires path != []
  {
    path[|path| - 1]
  }

  ghost predicate CanExtend(ledger: seq<Entry>, path: seq<nat>, j: nat)
    requires Walk(ledger, path) && j < |ledger|
  {
    Linked(ledger, Last(path), j) && j !in path
  }

  /** A walk that cannot be extended. */
  ghost predicate IsLineage(ledger: seq<Entry>, path: seq<nat>) {
    Walk(ledger, path) && forall j :: 0 <= j < |ledger| ==> !CanExtend(ledger, path, j)
  }

  lemma WalkLength(ledger: seq<Entry>, path: seq<nat>)
    requires Walk(ledger, path)
    ensures |path| <= |ledger|
  {
    DistinctWithin(path, Below(|ledger|));
  }

  function Below(n: nat): (s: set<nat>)
    ensures |s| == n && forall i: nat :: i in s <==> i < n
  {
    if n == 0 then {} else Below(n - 1) + {n - 1}
  }

  ghost function Grow(ledger: seq<Entry>, path: seq<nat>): (r: seq<nat>)
    requires Walk(ledger, path)
    ensures path <= r && IsLineage(ledger, r)
    decreases |ledger| - |path|
  {
    if j: nat :| j < |ledger| && CanExtend(ledger, path, j) then
      assert Walk(ledger, path + [j]);
      WalkLength(ledger, path + [j]);
      Grow(ledger, path + [j])
    else path
  }

  /** The ancestors of an entry, from itself on. */
  ghost function LineageOf(ledger: seq<Entry>, i: nat): (r: seq<nat>)
    requires i < |ledger|
    ensures IsLineage(ledger, r) && r[0] == i
  {
    Grow(ledger, [i])
  }

  function IdsOf(ledger: seq<Entry>, path: seq<nat>): seq<nat>
    requires forall k :: 0 <= k < |path| ==> path[k] < |ledger|
  {
    seq(|path|, k requires 0 <= k < |path| => ledger[path[k]].id)
  }

  /** The row that shows the last entry of a walk as an ancestor of its first. */
  ghost function RowOf(ledger: seq<Entry>, path: seq<nat>): Row
    requires Walk(ledger, path)
  {
    var e, p := ledger[path[0]], ledger[Last(path)];
    Row(e.id, e.org, e.project, p.source, p.sourceId, p.id, |path| - 1, Parent(p),
        IdsOf(ledger, path))
  }

  lemma {:induction false} WalkOrg(ledger: seq<Entry>, path: seq<nat>, k: nat)
    requires Walk(ledger, path) && k < |path|
    ensures ledger[path[k]].org == ledger[path[0]].org
    decreases k
  {
    if k > 0 {
      WalkOrg(ledger, path, k - 1);
      assert Linked(ledger, path[k - 1], path[k - 1 + 1]);
    }
  }

  lemma VisitedMeaning(ledger: seq<Entry>, path: seq<nat>, j: nat)
    requires UniqueKeys(ledger) && Walk(ledger, path) && j < |ledger|
    ensures ledger[j].id in IdsOf(ledger, path) <==> j in path
  {
    var ids := IdsOf(ledger, path);
    if ledger[j].id in ids {
      var k :| 0 <= k < |ids| && ids[k] == ledger[j].id;
      assert path[k] == j;
    }
    if j in path {
      var k :| 0 <= k < |path| && path[k] == j;
      assert ids[k] == ledger[j].id;
    }
  }

  lemma JoinsMeaning(ledger: seq<Entry>, path: seq<nat>, j: nat)
    requires UniqueKeys(ledger) && Walk(ledger, path) && j < |ledger|
    ensures Joins(RowOf(ledger, path), ledger[j]) <==> CanExtend(ledger, path, j)
  {
    WalkOrg(ledger, path, |path| - 1);
    VisitedMeaning(ledger, path, j);
  }

  lemma ExtendedMeaning(ledger: seq<Entry>, path: seq<nat>, j: nat)
    requires Walk(ledger, path) && j < |ledger| && CanExtend(ledger, path, j)
    ensures Walk(ledger, path + [j])
    ensures Extended(RowOf(ledger, path), ledger[j]) == RowOf(ledger, path + [j])
  {
    assert IdsOf(ledger, path + [j]) == IdsOf(ledger, path) + [ledger[j].id];
  }

  /** The join finds nothing unless some entry extends the walk. */
  lemma {:induction false} JoinedNothing(ledger: seq<Entry>, c: Row)
    requires forall j :: 0 <= j < |ledger| ==> !Joins(c, ledger[j])
    ensures Joined(ledger, c) == []
    decreases |ledger|
  {
    if ledger != [] { JoinedNothing(ledger[..|ledger| - 1], c); }
  }

  /** Identifiers are unique, so the join finds at most the one entry. */
  lemma {:induction false} JoinedOne(ledger: seq<Entry>, c: Row, j: nat)
    requires UniqueKeys(ledger) && j < |ledger| && Joins(c, ledger[j])
    ensures Joined(ledger, c) == [Extended(c, ledger[j])]
    decreases |ledger|
  {
    var front := ledger[..|ledger| - 1];
    if j == |ledger| - 1 {
      forall i | 0 <= i < |front| ensures !Joins(c, front[i]) { assert front[i].id != ledger[j].id; }
      JoinedNothing(front, c);
    } else {
      assert front[j] == ledger[j];
      JoinedOne(front, c, j);
      assert ledger[|ledger| - 1].id != ledger[j].id;
    }
  }

  lemma PrefixWalk(ledger: seq<Entry>, path: seq<nat>, n: nat)
    requires IsLineage(ledger, path) && n < |path|
    ensures Walk(ledger, path[..n + 1])
  {
    var front := path[..n + 1];
    forall k | 0 <= k < |front| - 1 ensures Linked(ledger, front[k], front[k + 1]) {
      assert Linked(ledger, path[k], path[k + 1]);
    }
  }

  /** The n-th row of an entry's lineage. */
  ghost function Shown(ledger: seq<Entry>, path: seq<nat>, n: nat): Row
    requires IsLineage(ledger, path) && n < |path|
  {
    PrefixWalk(ledger, path, n);
    RowOf(ledger, path[..n + 1])
  }

  /** One turn of the recursion takes a row to the next row of its entry, or to none at the end. */
  lemma ShownStep(ledger: seq<Entry>, path: seq<nat>, n: nat)
    requires UniqueKeys(ledger) && IsLineage(ledger, path) && n < |path|
    ensures Joined(ledger, Shown(ledger, path, n)) ==
              if n + 1 < |path| then [Shown(ledger, path, n + 1)] else []
  {
    PrefixWalk(ledger, path, n);
    var front := path[..n + 1];
    if n + 1 < |path| {
      var j := path[n + 1];
      assert Linked(ledger, path[n], path[n + 1]);
      JoinsMeaning(ledger, front, j);
      JoinedOne(ledger, RowOf(ledger, front), j);
      ExtendedMeaning(ledger, front, j);
      assert front + [j] == path[..n + 2];
    } else {
      assert front == path;
      forall j | 0 <= j < |ledger| ensures !Joins(RowOf(ledger, front), ledger[j]) {
        JoinsMeaning(ledger, front, j);
      }
      JoinedNothing(ledger, RowOf(ledger, front));
    }
  }

  /** The n-th row of an entry's lineage, if it has that many. */
  ghost function Part(ledger: seq<Entry>, n: nat, i: nat): (r: seq<Row>)
    requires i < |ledger|
    ensures |r| <= 1
  {
    var path := LineageOf(ledger, i);
    if n < |path| then [Shown(ledger, path, n)] else []
  }

  ghost function Parts(ledger: seq<Entry>, n: nat): seq<seq<Row>> {
    seq(|ledger|, i requires 0 <= i < |ledger| => Part(ledger, n, i))
  }

  function Concat(parts: seq<seq<Row>>): seq<Row> {
    if parts == [] then [] else Concat(parts[..|parts| - 1]) + parts[|parts| - 1]
  }

  /** The n-th rows of all entries that have one. */
  ghost function Level(ledger: seq<Entry>, n: nat): seq<Row> { Concat(Parts(ledger, n)) }

  lemma StepConcat(ledger: seq<Entry>, a: seq<Row>, b: seq<Row>)
    requires |b| <= 1
    ensures Step(ledger, a + b) == Step(ledger, a) + Step(ledger, b)
  {
    if b != [] {
      assert (a + b)[..|a + b| - 1] == a;
      assert b[..0] == [];
    } else {
      assert a + b == a;
    }
  }

  lemma PartStep(ledger: seq<Entry>, n: nat, i: nat)
    requires UniqueKeys(ledger) && i < |ledger|
    ensures Step(ledger, Part(ledger, n, i)) == Part(ledger, n + 1, i)
  {
    var path := LineageOf(ledger, i);
    if n < |path| {
      ShownStep(ledger, path, n);
      StepOne(ledger, Shown(ledger, path, n));
    }
  }

  lemma StepOne(ledger: seq<Entry>, c: Row)
    ensures Step(ledger, [c]) == Joined(ledger, c)
  {
    assert [c][..0] == [];
  }

  lemma {:induction false} StepParts(ledger: seq<Entry>, parts: seq<seq<Row>>, next: seq<seq<Row>>)
    requires |parts| == |next|
    requires forall i :: 0 <= i < |parts| ==> |parts[i]| <= 1 && Step(ledger, parts[i]) == next[i]
    ensures Step(ledger, Concat(parts)) == Concat(next)
    decreases |parts|
  {
    if parts != [] {
      var last := |parts| - 1;
      StepParts(ledger, parts[..last], next[..last]);
      StepConcat(ledger, Concat(parts[..last]), parts[last]);
    }
  }

  lemma LevelStep(ledger: seq<Entry>, n: nat)
    requires UniqueKeys(ledger)
    ensures Step(ledger, Level(ledger, n)) == Level(ledger, n + 1)
  {
    forall i | 0 <= i < |ledger| ensures Step(ledger, Part(ledger, n, i)) == Part(ledger, n + 1, i) {
      PartStep(ledger, n, i);
    }
    StepParts(ledger, Parts(ledger, n), Parts(ledger, n + 1));
  }

  lemma PartStart(ledger: seq<Entry>, i: nat)
    requires i < |ledger|
    ensures Part(ledger, 0, i) == [Start(ledger[i])]
  {
    var path := LineageOf(ledger, i);
    assert path[..1] == [i];
    assert IdsOf(ledger, [i]) == [ledger[i].id];
  }

  lemma {:induction false} ConcatOnes(parts: seq<seq<Row>>, rows: seq<Row>)
    requires |parts| == |rows| && forall i :: 0 <= i < |rows| ==> parts[i] == [rows[i]]
    ensures Concat(parts) == rows
    decreases |rows|
  {
    if rows != [] { ConcatOnes(parts[..|rows| - 1], rows[..|rows| - 1]); }
  }

  lemma LevelStart(ledger: seq<Entry>)
    ensures Level(ledger, 0) == Starts(ledger)
  {
    forall i | 0 <= i < |ledger| ensures Part(ledger, 0, i) == [Start(ledger[i])] {
      PartStart(ledger, i);
    }
    ConcatOnes(Parts(ledger, 0), Starts(ledger));
  }

  // ------------------------------------------------------------------------- results

  ghost function Levels(ledger: seq<Entry>, n: nat): seq<Row>
    decreases |ledger| - n
  {
    if n >= |ledger| then [] else Level(ledger, n) + Levels(ledger, n + 1)
  }

  lemma {:induction false} NoMoreLevels(ledger: seq<Entry>, n: nat)
    requires UniqueKeys(ledger) && Level(ledger, n) == []
    ensures Levels(ledger, n) == []
    decreases |ledger| - n
  {
    if n < |ledger| {
      LevelStep(ledger, n);
      NoMoreLevels(ledger, n + 1);
    }
  }

  lemma {:induction false} CollectMeaning(ledger: seq<Entry>, n: nat)
    requires UniqueKeys(ledger)
    requires forall c :: c in Level(ledger, n) ==> Sound(ledger, c, n)
    ensures Collect(ledger, Level(ledger, n), n) == Levels(ledger, n)
    decreases |ledger| - n
  {
    var working := Level(ledger, n);
    if working == [] {
      NoMoreLevels(ledger, n);
    } else {
      SoundBound(ledger, working[0], n);
      StepSound(ledger, working, n);
      LevelStep(ledger, n);
      CollectMeaning(ledger, n + 1);
    }
  }

  lemma ViewLevels(ledger: seq<Entry>)
    requires UniqueKeys(ledger)
    ensures View(ledger) == Levels(ledger, 0)
  {
    LevelStart(ledger);
    CollectMeaning(ledger, 0);
  }

  lemma {:induction false} InConcat(parts: seq<seq<Row>>, c: Row)
    ensures c in Concat(parts) <==> exists i :: 0 <= i < |parts| && c in parts[i]
    decreases |parts|
  {
    if parts != [] { InConcat(parts[..|parts| - 1], c); }
  }

  lemma InLevel(ledger: seq<Entry>, n: nat, c: Row)
    ensures c in Level(ledger, n) <==> exists i: nat :: i < |ledger| && c in Part(ledger, n, i)
    ensures c in Level(ledger, n) ==> c.depth == n && n < |ledger|
  {
    var parts := Parts(ledger, n);
    InConcat(parts, c);
    if i: nat :| i < |ledger| && c in Part(ledger, n, i) {
      assert c in parts[i];
      WalkLength(ledger, LineageOf(ledger, i));
    }
    if i :| 0 <= i < |parts| && c in parts[i] {
      assert c in Part(ledger, n, i);
    }
  }

  lemma {:induction false} InLevels(ledger: seq<Entry>, n: nat, c: Row)
    ensures c in Levels(ledger, n) <==>
              n <= c.depth < |ledger| && c in Level(ledger, c.depth)
    decreases |ledger| - n
  {
    if n < |ledger| {
      InLevels(ledger, n + 1, c);
      InLevel(ledger, n, c);
    }
  }

  /** For all parent links, cyclic or not, the view's rows are, for every entry, one for each entry of
      its lineage, the n-th with depth n; and no others. */
  lemma ViewListsLineages(ledger: seq<Entry>, c: Row)
    requires UniqueKeys(ledger)
    ensures c in View(ledger) <==>
              exists i: nat :: i < |ledger| && c.depth < |LineageOf(ledger, i)|
                               && c == Shown(ledger, LineageOf(ledger, i), c.depth)
  {
    ViewLevels(ledger);
    InLevels(ledger, 0, c);
    InLevel(ledger, c.depth, c);
    if i: nat :| i < |ledger| && c in Part(ledger, c.depth, i) {
      assert c.depth < |LineageOf(ledger, i)|;
    }
    if i: nat :| i < |ledger| && c.depth < |LineageOf(ledger, i)|
                 && c == Shown(ledger, LineageOf(ledger, i), c.depth) {
      WalkLength(ledger, LineageOf(ledger, i));
      assert c in Part(ledger, c.depth, i);
    }
  }

  predicate SameKey(a: Row, b: Row) { a.entry == b.entry && a.depth == b.depth }

  ghost predicate KeyedOnce(rows: seq<Row>) {
    forall x, y :: 0 <= x < y < |rows| ==> !SameKey(rows[x], rows[y])
  }

  lemma {:induction false} ConcatKeyedOnce(parts: seq<seq<Row>>, ids: seq<nat>)
    requires |parts| == |ids| && Distinct(ids)
    requires forall i :: 0 <= i < |parts| ==>
                           |parts[i]| <= 1 && forall c :: c in parts[i] ==> c.entry == ids[i]
    ensures KeyedOnce(Concat(parts))
    decreases |parts|
  {
    if parts != [] {
      var last := |parts| - 1;
      ConcatKeyedOnce(parts[..last], ids[..last]);
      forall c | c in Concat(parts[..last]) ensures c.entry != ids[last] {
        InConcat(parts[..last], c);
      }
    }
  }

  lemma LevelKeyedOnce(ledger: seq<Entry>, n: nat)
    requires UniqueKeys(ledger)
    ensures KeyedOnce(Level(ledger, n))
  {
    var ids := seq(|ledger|, i requires 0 <= i < |ledger| => ledger[i].id);
    ConcatKeyedOnce(Parts(ledger, n), ids);
  }

  /** The view lists an entry at most once at each depth. */
  lemma {:induction false} LevelsKeyedOnce(ledger: seq<Entry>, n: nat)
    requires UniqueKeys(ledger)
    ensures KeyedOnce(Levels(ledger, n))
    decreases |ledger| - n
  {
    if n < |ledger| {
      LevelKeyedOnce(ledger, n);
      LevelsKeyedOnce(ledger, n + 1);
      forall c | c in Level(ledger, n) ensures c.depth == n {
        InLevel(ledger, n, c);
      }
      forall c | c in Levels(ledger, n + 1) ensures c.depth > n {
        InLevels(ledger, n + 1, c);
      }
    }
  }

  lemma ViewKeyedOnce(ledger: seq<Entry>)
    requires UniqueKeys(ledger)
    ensures KeyedOnce(View(ledger))
  {
    ViewLevels(ledger);
    LevelsKeyedOnce(ledger, 0);
  }

  // ------------------------------------------------------------------------- roots

  predicate EarlierParent(ledger: seq<Entry>, i: nat)
    requires i < |ledger|
  {
    Root(ledger[i]) || exists j: nat :: j < i && Linked(ledger, i, j)
  }

  /** Every link is to an earlier entry of the same organization. */
  ghost predicate BackLinks(ledger: seq<Entry>) {
    forall i: nat :: i < |ledger| ==> EarlierParent(ledger, i)
  }

  lemma ReachableKeys(ledger: seq<Entry>)
    requires Reachable(ledger)
    ensures UniqueKeys(ledger)
  {
    forall i, j | 0 <= i < j < |ledger| ensures ledger[i].id != ledger[j].id {
      UniqueIds(ledger, i, j);
    }
  }

  /** Foreign keys make every link one to an earlier entry or to the entry itself. */
  lemma LinkTarget(ledger: seq<Entry>, i: nat) returns (t: nat)
    requires Reachable(ledger) && i < |ledger| && Parent(ledger[i]).Some?
    ensures t <= i && Parent(ledger[i]) == Some(ledger[t].id)
  {
    assert Permitted(ledger[..i], ledger[i]);
    var id := Parent(ledger[i]).value;
    if id == ledger[i].id {
      t := i;
    } else {
      assert HasId(ledger[..i], id);
      t :| 0 <= t < i && ledger[..i][t].id == id;
    }
  }

  lemma LinkedEarlier(ledger: seq<Entry>, i: nat, j: nat)
    requires Reachable(ledger) && i < |ledger| && j < |ledger| && i != j && Linked(ledger, i, j)
    ensures j < i
  {
    var t := LinkTarget(ledger, i);
    ReachableKeys(ledger);
  }

  lemma {:induction false} WalkDescends(ledger: seq<Entry>, path: seq<nat>, k: nat)
    requires Reachable(ledger) && Walk(ledger, path) && k < |path|
    ensures Last(path) <= path[k]
    decreases |path| - k
  {
    if k + 1 < |path| {
      assert Linked(ledger, path[k], path[k + 1]);
      LinkedEarlier(ledger, path[k], path[k + 1]);
      WalkDescends(ledger, path, k + 1);
    }
  }

  /** In a reachable ledger a lineage ends at a true root, or at an entry whose link is to itself or
      to another organization. */
  lemma LineageEnds(ledger: seq<Entry>, path: seq<nat>)
    requires Reachable(ledger) && IsLineage(ledger, path)
    ensures EarlierParent(ledger, Last(path)) ==> Root(ledger[Last(path)])
  {
    var last := Last(path);
    if j: nat :| j < last && Linked(ledger, last, j) {
      assert !CanExtend(ledger, path, j);
      var k :| 0 <= k < |path| && path[k] == j;
      WalkDescends(ledger, path, k);
    }
  }

  lemma LineageStops(ledger: seq<Entry>, i: nat)
    requires Reachable(ledger) && i < |ledger| && !EarlierParent(ledger, i)
    ensures Last(LineageOf(ledger, i)) == i
  {
    var path := LineageOf(ledger, i);
    if |path| > 1 {
      assert Linked(ledger, path[0], path[1]);
      LinkedEarlier(ledger, path[0], path[1]);
    }
  }

  ghost predicate EndsAtRoot(ledger: seq<Entry>, i: nat)
    requires i < |ledger|
  {
    Root(ledger[Last(LineageOf(ledger, i))])
  }

  /** Every lineage of a reachable ledger ends at a true root if and only if every link is to an
      earlier entry of the same organization. */
  lemma RootsExactly(ledger: seq<Entry>)
    requires Reachable(ledger)
    ensures BackLinks(ledger) <==> forall i: nat :: i < |ledger| ==> EndsAtRoot(ledger, i)
  {
    forall i: nat | i < |ledger|
      ensures BackLinks(ledger) ==> EndsAtRoot(ledger, i)
      ensures EndsAtRoot(ledger, i) ==> EarlierParent(ledger, i)
    {
      LineageEnds(ledger, LineageOf(ledger, i));
      if !EarlierParent(ledger, i) { LineageStops(ledger, i); }
    }
  }

  /** What the n-th row says: the entry with its organization and project, and its n-th ancestor with
      that one's source, source identifier and parent. */
  lemma ShownRow(ledger: seq<Entry>, path: seq<nat>, n: nat)
    requires IsLineage(ledger, path) && n < |path|
    ensures var c, e, p := Shown(ledger, path, n), ledger[path[0]], ledger[path[n]];
            && c.entry == e.id && c.org == e.org && c.project == e.project
            && c.source == p.source && c.sourceId == p.sourceId
            && c.root == p.id && c.depth == n
            && (c.parent.None? <==> Root(p))
            && (c.parent.Some? ==> ChildOf(p, c.parent.value))
            && (n + 1 < |path| ==> c.parent == Some(ledger[path[n + 1]].id))
            && |c.visited| == n + 1
            && forall k :: 0 <= k <= n ==> c.visited[k] == ledger[path[k]].id
  {
    if n + 1 < |path| { assert Linked(ledger, path[n], path[n + 1]); }
  }

  /** The deepest row of an entry names its true root, and is the only row of the entry that does. */
  lemma DeepestIsRoot(ledger: seq<Entry>, i: nat) returns (c: Row, r: nat)
    requires Reachable(ledger) && BackLinks(ledger) && i < |ledger|
    ensures c in View(ledger) && c.entry == ledger[i].id
    ensures r <= i && c.root == ledger[r].id && Root(ledger[r]) && ledger[r].org == ledger[i].org
    ensures forall d :: d in View(ledger) && d.entry == c.entry ==>
              d.depth <= c.depth && (d.parent.None? <==> d == c)
  {
    ReachableKeys(ledger);
    var path := LineageOf(ledger, i);
    r := Last(path);
    c := Shown(ledger, path, |path| - 1);
    ShownRow(ledger, path, |path| - 1);
    LineageEnds(ledger, path);
    WalkDescends(ledger, path, 0);
    WalkOrg(ledger, path, |path| - 1);
    assert EarlierParent(ledger, r);
    ViewListsLineages(ledger, c);
    forall d | d in View(ledger) && d.entry == c.entry
      ensures d.depth <= c.depth && (d.parent.None? <==> d == c)
    {
      RowsOfEntry(ledger, i, d);
    }
  }

  lemma RowsOfEntry(ledger: seq<Entry>, i: nat, d: Row)
    requires UniqueKeys(ledger) && i < |ledger| && d in View(ledger) && d.entry == ledger[i].id
    ensures var path := LineageOf(ledger, i);
            && d.depth < |path| && d == Shown(ledger, path, d.depth)
            && (d.depth + 1 < |path| ==> d.parent.Some?)
  {
    ViewListsLineages(ledger, d);
    var j: nat :| j < |ledger| && d.depth < |LineageOf(ledger, j)|
                  && d == Shown(ledger, LineageOf(ledger, j), d.depth);
    ShownRow(ledger, LineageOf(ledger, j), d.depth);
    assert i == j;
  }
}
