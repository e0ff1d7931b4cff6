/**
  The project hierarchy: the trigger that fills in depth and root on insert and freezes the links,
  and what the stored columns mean, the length and the end of the walk to the root.
 */
module ProjectForest {
  import opened Wrappers

  type Id = nat

  datatype Link = Link(org: string, parent: Option<Id>)
  datatype Project = Project(link: Link, depth: int, root: Option<Id>)
  type Projects = map<Id, Project>

  const MAX_DEPTH := 5

  // ------------------------------------------------------------------------- walks to the root

  function LinksOf(rows: Projects): map<Id, Link> { map id | id in rows :: rows[id].link }

  predicate IsParent(links: map<Id, Link>, child: Id, parent: Id)
    requires child in links && parent in links
  {
    links[child].parent == Some(parent) && links[child].org == links[parent].org
  }

  /** A project, its parent, and so on up to a project without one. */
  ghost predicate RootPath(links: map<Id, Link>, path: seq<Id>) {
    && path != [] && (forall id :: id in path ==> id in links)
    && (forall k :: 0 <= k < |path| - 1 ==> IsParent(links, path[k], path[k + 1]))
    && links[path[|path| - 1]].parent.None?
  }

  function End(path: seq<Id>): Id
    requires path != []
  {
    path[|path| - 1]
  }

  lemma PathTail(links: map<Id, Link>, path: seq<Id>)
    requires RootPath(links, path) && |path| > 1
    ensures RootPath(links, path[1..]) && IsParent(links, path[0], path[1]) && End(path[1..]) == End(path)
  {
    var tail := path[1..];
    forall k | 0 <= k < |tail| - 1 ensures IsParent(links, tail[k], tail[k + 1]) {
      assert IsParent(links, path[k + 1], path[k + 1 + 1]);
    }
    assert IsParent(links, path[0], path[0 + 1]);
  }

  lemma PathCons(links: map<Id, Link>, child: Id, path: seq<Id>)
    requires RootPath(links, path) && child in links && IsParent(links, child, path[0])
    ensures RootPath(links, [child] + path) && End([child] + path) == End(path)
  {
    var longer := [child] + path;
    forall k | 0 <= k < |longer| - 1 ensures IsParent(links, longer[k], longer[k + 1]) {
      if k > 0 { assert IsParent(links, path[k - 1], path[k - 1 + 1]); }
    }
  }

  /** A project has at most one walk to a root. */
  lemma {:induction false} OnePath(links: map<Id, Link>, p: seq<Id>, q: seq<Id>)
    requires RootPath(links, p) && RootPath(links, q) && p[0] == q[0]
    ensures p == q
    decreases |p|
  {
    if |p| > 1 { PathTail(links, p); }
    if |q| > 1 { PathTail(links, q); }
    if |p| > 1 && |q| > 1 { OnePath(links, p[1..], q[1..]); }
  }

  /** What the stored columns of a project are to mean. */
  ghost predicate Stored(rows: Projects, id: Id, path: seq<Id>)
    requires id in rows
  {
    && RootPath(LinksOf(rows), path) && path[0] == id
    && rows[id].depth == |path| && rows[id].root == Some(End(path))
  }

  ghost predicate Truthful(rows: Projects, id: Id)
    requires id in rows
  {
    rows[id].depth <= 5 && exists path :: Stored(rows, id, path)
  }

  /** Every stored depth is the length of the walk to the root, at most five, and every stored root
      is its end. */
  ghost predicate Forest(rows: Projects) {
    forall id :: id in rows ==> Truthful(rows, id)
  }

  /** What the trigger keeps, seen from one row and its parent's. */
  predicate Follows(rows: Projects, id: Id)
    requires id in rows
  {
    var row := rows[id];
    && 1 <= row.depth <= 5
    && match row.link.parent
       case None => row.depth == 1 && row.root == Some(id)
       case Some(p) =>
         && p in rows && rows[p].link.org == row.link.org
         && row.depth == rows[p].depth + 1 && row.root == rows[p].root
  }

  ghost predicate Consistent(rows: Projects) {
    forall id :: id in rows ==> Follows(rows, id)
  }

  lemma {:induction false} ConsistentPath(rows: Projects, id: Id) returns (path: seq<Id>)
    requires Consistent(rows) && id in rows
    ensures Stored(rows, id, path)
    decreases rows[id].depth
  {
    assert Follows(rows, id);
    match rows[id].link.parent
    case None => path := [id];
    case Some(p) =>
      assert Follows(rows, p);
      var rest := ConsistentPath(rows, p);
      PathCons(LinksOf(rows), id, rest);
      path := [id] + rest;
  }

  lemma StoredFollows(rows: Projects, id: Id)
    requires Forest(rows) && id in rows
    ensures Follows(rows, id)
  {
    assert Truthful(rows, id);
    var path :| Stored(rows, id, path);
    if |path| > 1 {
      PathTail(LinksOf(rows), path);
      var p := path[1];
      assert Truthful(rows, p);
      var rest :| Stored(rows, p, rest);
      OnePath(LinksOf(rows), rest, path[1..]);
    }
  }

  /** The step-by-step rule and the meaning of the columns are the same. */
  lemma ForestIffConsistent(rows: Projects)
    ensures Forest(rows) <==> Consistent(rows)
  {
    if Forest(rows) {
      forall id | id in rows ensures Follows(rows, id) { StoredFollows(rows, id); }
    }
    if Consistent(rows) {
      forall id | id in rows ensures Truthful(rows, id) {
        assert Follows(rows, id);
        var path := ConsistentPath(rows, id);
      }
    }
  }

  // ------------------------------------------------------------------------- acyclic

  /** The project n parents up, if there is one. */
  function Ancestor(rows: Projects, id: Id, n: nat): Option<Id>
    decreases n
  {
    if id !in rows then None
    else if n == 0 then Some(id)
    else match rows[id].link.parent
      case None => None
      case Some(p) => Ancestor(rows, p, n - 1)
  }

  lemma {:induction false} AncestorDepth(rows: Projects, id: Id, n: nat)
    requires Consistent(rows) && Ancestor(rows, id, n).Some?
    ensures var a := Ancestor(rows, id, n).value;
            a in rows && rows[a].depth + n == rows[id].depth && rows[a].root == rows[id].root
    decreases n
  {
    assert Follows(rows, id);
    if n > 0 { AncestorDepth(rows, rows[id].link.parent.value, n - 1); }
  }

  /** No project is its own ancestor, none has five ancestors, and all its ancestors share its root. */
  lemma Acyclic(rows: Projects, id: Id, n: nat)
    requires Forest(rows) && n > 0
    ensures Ancestor(rows, id, n) != Some(id)
    ensures n >= 5 ==> Ancestor(rows, id, n).None?
    ensures var a := Ancestor(rows, id, n);
            a.Some? ==> id in rows && a.value in rows && rows[a.value].root == rows[id].root
  {
    ForestIffConsistent(rows);
    if Ancestor(rows, id, n).Some? {
      AncestorDepth(rows, id, n);
      assert Follows(rows, id) && Follows(rows, Ancestor(rows, id, n).value);
    }
  }

  // ------------------------------------------------------------------------- the table

  datatype Refusal = ParentNotFound | DepthExceeded | DuplicateKey | Immutable | HasChildren

  datatype Op =
    | Insert(id: Id, link: Link)
    | Update(id: Id, link: Link)
    | Delete(id: Id)

  predicate ParentFound(rows: Projects, link: Link) {
    link.parent.Some? ==>
      link.parent.value in rows && rows[link.parent.value].link.org == link.org
  }

  predicate HasChild(rows: Projects, id: Id) {
    id in rows && exists c :: c in rows && c != id && rows[c].link.parent == Some(id)
                              && rows[c].link.org == rows[id].link.org
  }

  /** Why a statement is refused, if it is. */
  function Check(rows: Projects, op: Op): Option<Refusal> {
    match op
    case Insert(id, link) =>
      if !ParentFound(rows, link) then Some(ParentNotFound)
      else if link.parent.Some? && rows[link.parent.value].depth >= MAX_DEPTH then Some(DepthExceeded)
      else if id in rows then Some(DuplicateKey)
      else None
    case Update(id, link) =>
      if id in rows && link != rows[id].link then Some(Immutable) else None
    case Delete(id) =>
      if HasChild(rows, id) then Some(HasChildren) else None
  }

  function Filled(rows: Projects, id: Id, link: Link): Project
    requires ParentFound(rows, link)
  {
    match link.parent
    case None => Project(link, 1, Some(id))
    case Some(p) => Project(link, rows[p].depth + 1, rows[p].root)
  }

  /** The table after a statement; a refused one changes nothing. */
  function Apply(rows: Projects, op: Op): Projects {
    if Check(rows, op).Some? then rows else
      match op
      case Insert(id, link) => rows[id := Filled(rows, id, link)]
      case Update(_, _) => rows
      case Delete(id) => rows - {id}
  }

  function Run(rows: Projects, ops: seq<Op>): Projects
    decreases |ops|
  {
    if ops == [] then rows else Run(Apply(rows, ops[0]), ops[1..])
  }

  lemma ApplyKeeps(rows: Projects, op: Op)
    requires Consistent(rows)
    ensures Consistent(Apply(rows, op))
  {
    var next := Apply(rows, op);
    forall id | id in next ensures Follows(next, id) {
      if id in rows {
        assert Follows(rows, id);
      } else {
        assert op.Insert? && op.id == id;
        assert op.link.parent.Some? ==> Follows(rows, op.link.parent.value);
      }
    }
  }

  lemma ApplyKeepsForest(rows: Projects, op: Op)
    requires Forest(rows)
    ensures Forest(Apply(rows, op))
  {
    ForestIffConsistent(rows);
    ApplyKeeps(rows, op);
    ForestIffConsistent(Apply(rows, op));
  }

  /** Over every run of inserts, link updates and deletes the columns keep their meaning. */
  lemma {:induction false} RunKeepsForest(rows: Projects, ops: seq<Op>)
    requires Forest(rows)
    ensures Forest(Run(rows, ops))
    decreases |ops|
  {
    if ops != [] {
      ApplyKeepsForest(rows, ops[0]);
      RunKeepsForest(Apply(rows, ops[0]), ops[1..]);
    }
  }

  lemma {:induction false} LinksNeverChange(rows: Projects, ops: seq<Op>, id: Id)
    requires id in rows && id in Run(rows, ops) && forall op :: op in ops ==> !(op.Delete? && op.id == id)
    ensures Run(rows, ops)[id] == rows[id]
    decreases |ops|
  {
    if ops != [] {
      assert ops[0] in ops;
      LinksNeverChange(Apply(rows, ops[0]), ops[1..], id);
    }
  }

  lemma AcceptedPath(rows: Projects, id: Id, link: Link) returns (path: seq<Id>)
    requires Forest(rows) && id !in rows && Check(rows, Insert(id, link)).None?
    ensures RootPath(LinksOf(rows)[id := link], path) && path[0] == id && |path| <= 5
  {
    var next := Apply(rows, Insert(id, link));
    ApplyKeepsForest(rows, Insert(id, link));
    assert Truthful(next, id);
    path :| Stored(next, id, path);
    InsertedLinks(rows, id, link);
  }

  lemma InsertedLinks(rows: Projects, id: Id, link: Link)
    requires id !in rows && Check(rows, Insert(id, link)).None?
    ensures LinksOf(Apply(rows, Insert(id, link))) == LinksOf(rows)[id := link]
  {
  }

  lemma InsertedPath(rows: Projects, id: Id, link: Link, path: seq<Id>)
    requires Forest(rows) && id !in rows && RootPath(LinksOf(rows)[id := link], path)
    requires path[0] == id && |path| <= 5
    ensures Check(rows, Insert(id, link)).None?
  {
    var links := LinksOf(rows)[id := link];
    if |path| > 1 {
      PathTail(links, path);
      var p := path[1];
      assert p != id by { if p == id { OnePath(links, path, path[1..]); } }
      assert Truthful(rows, p);
      var rest :| Stored(rows, p, rest);
      PathKept(rows, id, link, rest);
      OnePath(links, rest, path[1..]);
    }
  }

  lemma PathKept(rows: Projects, id: Id, link: Link, path: seq<Id>)
    requires id !in rows && RootPath(LinksOf(rows), path)
    ensures RootPath(LinksOf(rows)[id := link], path)
  {
    var links := LinksOf(rows)[id := link];
    forall x | x in path ensures x in rows && links[x] == rows[x].link { }
    forall k | 0 <= k < |path| - 1 ensures IsParent(links, path[k], path[k + 1]) {
      assert IsParent(LinksOf(rows), path[k], path[k + 1]);
      assert path[k] in path && path[k + 1] in path;
    }
  }

  /** An insert with a new key is accepted exactly when the new project would have a walk of at most
      five to a root, all of it in its own organization. */
  lemma InsertExact(rows: Projects, id: Id, link: Link)
    requires Forest(rows) && id !in rows
    ensures Check(rows, Insert(id, link)).None? <==>
              exists path :: RootPath(LinksOf(rows)[id := link], path) && path[0] == id
                             && |path| <= 5
    ensures Check(rows, Insert(id, link)).None? ==>
              LinksOf(Apply(rows, Insert(id, link))) == LinksOf(rows)[id := link]
  {
    if Check(rows, Insert(id, link)).None? {
      var path := AcceptedPath(rows, id, link);
      InsertedLinks(rows, id, link);
    }
    if path :| RootPath(LinksOf(rows)[id := link], path) && path[0] == id && |path| <= 5 {
      InsertedPath(rows, id, link, path);
    }
  }

  lemma ChildBlocksDelete(rows: Projects, id: Id)
    requires HasChild(rows, id)
    ensures !Consistent(rows - {id})
  {
    var c :| c in rows && c != id && rows[c].link.parent == Some(id);
    assert !Follows(rows - {id}, c);
  }

  /** A delete is accepted exactly when the projects left are still a forest. */
  lemma DeleteExact(rows: Projects, id: Id)
    requires Forest(rows) && id in rows
    ensures Check(rows, Delete(id)).None? <==> Forest(rows - {id})
    ensures Apply(rows, Delete(id)) == if HasChild(rows, id) then rows else rows - {id}
  {
    ForestIffConsistent(rows - {id});
    if HasChild(rows, id) { ChildBlocksDelete(rows, id); } else { ApplyKeepsForest(rows, Delete(id)); }
  }

  class Table {
    var rows: Projects

    constructor ()
      ensures rows == map[] && Forest(rows)
    {
      rows := map[];
    }

    method InsertProject(id: Id, link: Link) returns (refusal: Option<Refusal>)
      requires Forest(rows)
      modifies this
      ensures Forest(rows)
      ensures refusal == Check(old(rows), Insert(id, link))
      ensures refusal == Some(ParentNotFound) <==>
                link.parent.Some? && (link.parent.value in old(rows) ==>
                                        old(rows)[link.parent.value].link.org != link.org)
      ensures refusal == Some(DepthExceeded) <==>
                refusal != Some(ParentNotFound) && link.parent.Some?
                && old(rows)[link.parent.value].depth == 5
      ensures refusal == None ==> id !in old(rows)
      ensures rows == Apply(old(rows), Insert(id, link))
    {
      ApplyKeepsForest(rows, Insert(id, link));
      var depth, root := 1, Some(id);
      if link.parent.Some? {
        var p := link.parent.value;
        if p !in rows || rows[p].link.org != link.org {
          return Some(ParentNotFound);
        }
        if rows[p].depth >= MAX_DEPTH {
          return Some(DepthExceeded);
        }
        depth, root := rows[p].depth + 1, rows[p].root;
      }
      if id in rows {
        return Some(DuplicateKey);
      }
      rows := rows[id := Project(link, depth, root)];
      refusal := None;
    }

    method UpdateLink(id: Id, link: Link) returns (refusal: Option<Refusal>)
      requires Forest(rows)
      ensures refusal == Check(rows, Update(id, link)) && Apply(rows, Update(id, link)) == rows
      ensures refusal == if id in rows && rows[id].link != link then Some(Immutable) else None
    {
      if id in rows && (link.parent != rows[id].link.parent || link.org != rows[id].link.org) {
        return Some(Immutable);
      }
      refusal := None;
    }
  }
}
