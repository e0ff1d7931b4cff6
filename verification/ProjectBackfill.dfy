/**
  The backfill of depth and root for projects that were there before the hierarchy trigger: a
  recursive query from the roots down, and the update whose check may refuse the whole migration.
 */
module ProjectBackfill {
  import opened Wrappers
  import opened ProjectForest

  type Links = map<Id, Link>

  datatype Row = Row(id: Id, org: string, depth: nat, root: Id)

  function Roots(links: Links): set<Row> {
    set id | id in links && links[id].parent.None? :: Row(id, links[id].org, 1, id)
  }

  predicate Child(links: Links, id: Id, t: Row) {
    id in links && links[id].parent == Some(t.id) && links[id].org == t.org && t.depth < 6
  }

  function Step(links: Links, working: set<Row>): set<Row> {
    set t, id | t in working && id in links && Child(links, id, t)
      :: Row(id, links[id].org, t.depth + 1, t.root)
  }

  /** The recursive query; its union drops rows already found. */
  function Collect(links: Links, all: set<Row>, working: set<Row>, n: nat): set<Row>
    requires n <= 6 && forall t :: t in working ==> t.depth == n
    decreases 6 - n
  {
    var next := Step(links, working) - all;
    if next == {} then all
    else
      assert n < 6 by { LastStep(links, working, n); }
      Collect(links, all + next, next, n + 1)
  }

  lemma LastStep(links: Links, working: set<Row>, n: nat)
    requires n <= 6 && forall t :: t in working ==> t.depth == n
    ensures Step(links, working) != {} ==> n < 6
  {
  }

  function Tree(links: Links): set<Row> { Collect(links, Roots(links), Roots(links), 1) }

  const UNSET_DEPTH := 1  // the column's default, kept by rows the query does not reach

  ghost predicate Reached(links: Links, id: Id, t: Row) {
    t in Tree(links) && id in links && t.id == id && t.org == links[id].org
  }

  ghost function Updated(links: Links, id: Id): Project
    requires id in links
  {
    if t :| Reached(links, id, t) then Project(links[id], t.depth, Some(t.root))
    else Project(links[id], UNSET_DEPTH, None)
  }

  /** The table after the migration, or None when the check on depth refuses it. */
  ghost function Backfill(links: Links): Option<Projects> {
    if exists id, t :: Reached(links, id, t) && t.depth > MAX_DEPTH then None
    else Some(map id | id in links :: Updated(links, id))
  }

  // ------------------------------------------------------------------------- levels

  function Level(links: Links, n: nat): set<Row>
    requires n > 0
    ensures forall t :: t in Level(links, n) ==> t.depth == n
    decreases n
  {
    if n == 1 then Roots(links) else Step(links, Level(links, n - 1))
  }

  lemma {:induction false} CollectLevels(links: Links, all: set<Row>, n: nat, t: Row)
    requires 1 <= n <= 6 && forall u :: u in all ==> u.depth <= n
    ensures t in Collect(links, all, Level(links, n), n) <==>
              t in all || InLevels(links, n + 1, t)
    decreases 6 - n
  {
    var next := Level(links, n + 1);
    CollectOnce(links, all, n);
    if next == {} {
      NoInLevels(links, n + 1, t);
    } else {
      CollectLevels(links, all + next, n + 1, t);
      NextInLevels(links, n + 1, t);
    }
  }

  lemma NoInLevels(links: Links, n: nat, t: Row)
    requires 1 <= n && Level(links, n) == {}
    ensures !InLevels(links, n, t)
  {
    LevelsEmpty(links, n, t.depth);
  }

  predicate InLevels(links: Links, n: nat, t: Row) {
    0 < n <= t.depth <= 6 && t in Level(links, t.depth)
  }

  lemma NextInLevels(links: Links, n: nat, t: Row)
    requires 0 < n <= 6
    ensures InLevels(links, n, t) <==> t in Level(links, n) || InLevels(links, n + 1, t)
  {
  }

  lemma CollectOnce(links: Links, all: set<Row>, n: nat)
    requires 1 <= n <= 6 && forall u :: u in all ==> u.depth <= n
    ensures var next := Level(links, n + 1);
            && (next != {} ==> n < 6)
            && Collect(links, all, Level(links, n), n) ==
                 if next == {} then all else Collect(links, all + next, next, n + 1)
  {
    NextLevel(links, all, n);
    LastStep(links, Level(links, n), n);
  }

  /** A new level repeats nothing already found. */
  lemma NextLevel(links: Links, all: set<Row>, n: nat)
    requires 1 <= n && forall u :: u in all ==> u.depth <= n
    ensures Step(links, Level(links, n)) - all == Level(links, n + 1)
  {
  }

  lemma {:induction false} LevelsEmpty(links: Links, n: nat, m: nat)
    requires 1 <= n && Level(links, n) == {}
    ensures n <= m ==> Level(links, m) == {}
    decreases m
  {
    if n < m { LevelsEmpty(links, n, m - 1); }
  }

  // ------------------------------------------------------------------------- meaning

  ghost predicate Shows(links: Links, t: Row, path: seq<Id>) {
    && RootPath(links, path) && |path| == t.depth && path[0] == t.id && End(path) == t.root
    && t.org == links[path[0]].org
  }

  lemma {:induction false} LevelShows(links: Links, t: Row) returns (path: seq<Id>)
    requires t.depth > 0 && t in Level(links, t.depth)
    ensures Shows(links, t, path)
    decreases t.depth
  {
    if t.depth == 1 {
      path := [t.id];
    } else {
      var u, id :| u in Level(links, t.depth - 1) && id in links && Child(links, id, u)
                   && t == Row(id, links[id].org, u.depth + 1, u.root);
      var rest := LevelShows(links, u);
      PathCons(links, id, rest);
      path := [id] + rest;
    }
  }

  lemma {:induction false} PathInLevel(links: Links, t: Row, path: seq<Id>)
    requires Shows(links, t, path) && t.depth <= 6
    ensures t in Level(links, t.depth)
    decreases t.depth
  {
    if t.depth > 1 {
      PathTail(links, path);
      var u := Row(path[1], links[path[1]].org, t.depth - 1, t.root);
      PathInLevel(links, u, path[1..]);
      assert Child(links, t.id, u);
    }
  }

  /** The query lists exactly the projects with a walk of at most six to a root, each with the length
      and the end of that walk. */
  lemma TreeMeaning(links: Links, t: Row)
    ensures t in Tree(links) <==> t.depth <= 6 && exists path :: Shows(links, t, path)
  {
    CollectLevels(links, Roots(links), 1, t);
    NextInLevels(links, 1, t);
    if t in Tree(links) {
      var path := LevelShows(links, t);
    }
    if path :| Shows(links, t, path) && t.depth <= 6 {
      PathInLevel(links, t, path);
    }
  }

  // ------------------------------------------------------------------------- results

  ghost predicate DeepAt(links: Links, path: seq<Id>) { RootPath(links, path) && |path| > 5 }

  ghost predicate TooDeep(links: Links) { exists path :: DeepAt(links, path) }

  /** A walk that is too long passes a project at the sixth level. */
  lemma {:induction false} SixthLevel(links: Links, path: seq<Id>) returns (t: Row)
    requires RootPath(links, path) && |path| > 5
    ensures t.depth == 6 && t.id in links && Reached(links, t.id, t)
    decreases |path|
  {
    if |path| > 6 {
      PathTail(links, path);
      t := SixthLevel(links, path[1..]);
    } else {
      t := Row(path[0], links[path[0]].org, 6, End(path));
      assert Shows(links, t, path);
      TreeMeaning(links, t);
    }
  }

  /** The migration is refused exactly when some project lies deeper than five levels. */
  lemma RefusedExactly(links: Links)
    ensures Backfill(links).None? <==> TooDeep(links)
  {
    if TooDeep(links) {
      var path :| DeepAt(links, path);
      var t := SixthLevel(links, path);
    }
    if id, t :| Reached(links, id, t) && t.depth > MAX_DEPTH {
      TreeMeaning(links, t);
      var path :| Shows(links, t, path);
      assert DeepAt(links, path);
    }
  }

  /** A project with a walk to a root gets its length and end; the others keep the default and no
      root. */
  lemma UpdatedMeaning(links: Links, id: Id)
    requires !TooDeep(links) && id in links
    ensures var row := Updated(links, id);
            && row.link == links[id]
            && (forall path :: RootPath(links, path) && path[0] == id ==>
                  row.depth == |path| && row.root == Some(End(path)))
            && (row.root.None? <==> forall path :: RootPath(links, path) ==> path[0] != id)
            && (row.root.None? ==> row.depth == 1)
  {
    forall path | RootPath(links, path) && path[0] == id
      ensures Updated(links, id).depth == |path| && Updated(links, id).root == Some(End(path))
    {
      UpdatedPath(links, id, path);
    }
    if t :| Reached(links, id, t) {
      TreeMeaning(links, t);
      var path :| Shows(links, t, path);
      assert RootPath(links, path) && path[0] == id;
    }
  }

  lemma UpdatedPath(links: Links, id: Id, path: seq<Id>)
    requires !TooDeep(links) && id in links && RootPath(links, path) && path[0] == id
    ensures Updated(links, id).depth == |path| && Updated(links, id).root == Some(End(path))
  {
    assert !DeepAt(links, path);
    var t := Row(id, links[id].org, |path|, End(path));
    assert Shows(links, t, path);
    TreeMeaning(links, t);
    assert Reached(links, id, t);
    forall u | Reached(links, id, u) ensures u == t {
      TreeMeaning(links, u);
      var other :| Shows(links, u, other);
      OnePath(links, path, other);
    }
  }

  ghost predicate Rooted(links: Links, id: Id) { exists path :: RootPath(links, path) && path[0] == id }

  /** The migration leaves a table whose columns mean what the trigger keeps if and only if every
      project has a walk of at most five to a root: no cycles, nothing deeper. */
  lemma BackfillExact(links: Links)
    ensures Backfill(links).Some? && Forest(Backfill(links).value) <==>
              !TooDeep(links) && forall id :: id in links ==> Rooted(links, id)
  {
    RefusedExactly(links);
    if !TooDeep(links) {
      var rows := Backfill(links).value;
      forall id | id in links ensures rows[id] == Updated(links, id) { }
      assert LinksOf(rows) == links;
      forall id | id in links ensures Truthful(rows, id) <==> Rooted(links, id) {
        UpdatedMeaning(links, id);
        if path :| RootPath(links, path) && path[0] == id {
          assert !DeepAt(links, path);
          assert Stored(rows, id, path);
        }
      }
    }
  }

  lemma SameRow(a: Projects, b: Projects, id: Id)
    requires Forest(a) && Forest(b) && LinksOf(a) == LinksOf(b) && id in a && id in b
    ensures a[id] == b[id]
  {
    assert Truthful(a, id) && Truthful(b, id);
    var p :| Stored(a, id, p);
    var q :| Stored(b, id, q);
    OnePath(LinksOf(a), p, q);
    assert LinksOf(a)[id] == LinksOf(b)[id];
  }

  lemma SameProjects(a: Projects, b: Projects)
    requires LinksOf(a) == LinksOf(b)
    ensures a.Keys == b.Keys
  {
    assert a.Keys == LinksOf(a).Keys && b.Keys == LinksOf(b).Keys;
  }

  /** The columns are determined by the links: the backfill computes what the trigger would have. */
  lemma SameLinksSameRows(a: Projects, b: Projects)
    requires Forest(a) && Forest(b) && LinksOf(a) == LinksOf(b)
    ensures a == b
  {
    SameProjects(a, b);
    forall id | id in a.Keys ensures a[id] == b[id] { SameRow(a, b, id); }
  }

  lemma ForestRooted(rows: Projects)
    requires Forest(rows)
    ensures !TooDeep(LinksOf(rows)) && forall id :: id in LinksOf(rows) ==> Rooted(LinksOf(rows), id)
  {
    forall path | RootPath(LinksOf(rows), path) ensures !DeepAt(LinksOf(rows), path) {
      assert Truthful(rows, path[0]);
      var p :| Stored(rows, path[0], p);
      OnePath(LinksOf(rows), p, path);
    }
    forall id | id in LinksOf(rows) ensures Rooted(LinksOf(rows), id) {
      assert Truthful(rows, id);
    }
  }

  lemma BackfillLinks(links: Links)
    requires Backfill(links).Some?
    ensures LinksOf(Backfill(links).value) == links
  {
  }

  /** Backfilling the links of any table that the trigger built gives that table back. */
  lemma BackfillRefinesTrigger(rows: Projects)
    requires Forest(rows)
    ensures Backfill(LinksOf(rows)) == Some(rows)
  {
    ForestRooted(rows);
    BackfillExact(LinksOf(rows));
    BackfillLinks(LinksOf(rows));
    SameLinksSameRows(rows, Backfill(LinksOf(rows)).value);
  }
}
