/**
  Discovery of the migration files: whether they form one linear chain in file name order, decided
  by counting references and walking down from the only head.
 */
module MigrationChain {
  import opened Collections
  import opened Wrappers

  datatype Revision = Revision(revision: string, down: Option<string>)

  /** A metadata attribute of a migration module. */
  datatype Attribute = Absent | Text(text: string) | Other

  /** A migration file, in the order of the file names, as loading it shows it. */
  datatype File = File(
    name: string, loads: bool, revision: Attribute, down: Attribute, upgrade: bool, downgrade: bool)

  datatype Error =
    | NoMigrations
    | NotLoadable(name: string)
    | NoRevision(name: string)
    | InvalidDown(revision: string)
    | NoUpgrade(revision: string)
    | NoDowngrade(revision: string)
    | Duplicate(revision: string)
    | UnknownDown(revision: string, unknown: string)
    | MultipleHeads(heads: set<string>)
    | NoHead(revision: string)
    | Cycle(revision: string)
    | NotIncluded(revision: string)
    | OrderDisagrees(revision: string)

  /** A file with all that a migration needs. */
  predicate Loadable(f: File) {
    && f.loads && f.revision.Text? && f.revision.text != ""
    && (f.down.Absent? || f.down.Text?) && f.upgrade && f.downgrade
  }

  /** The revision and predecessor that a file names. */
  function Named(f: File): Revision
    requires f.revision.Text?
  {
    Revision(f.revision.text, match f.down case Text(text) => Some(text) case _ => None)
  }

  /** The first thing wrong with the file, in the order: loading, revision, predecessor, upgrade,
      downgrade. */
  predicate FailsBy(f: File, e: Error) {
    match e
    case NotLoadable(name) => !f.loads && name == f.name
    case NoRevision(name) =>
      f.loads && name == f.name && f.revision in {Absent, Other, Text("")}
    case InvalidDown(r) => f.loads && r != "" && f.revision == Text(r) && f.down == Other
    case NoUpgrade(r) =>
      f.loads && r != "" && f.revision == Text(r) && f.down != Other && !f.upgrade
    case NoDowngrade(r) =>
      f.loads && r != "" && f.revision == Text(r) && f.down != Other && f.upgrade && !f.downgrade
    case _ => false
  }

  function RevisionOf(file: File): (r: Result<Revision, Error>)
    ensures r.Ok? <==> Loadable(file)
    ensures r.Ok? ==> r.value == Named(file)
    ensures r.Err? ==> FailsBy(file, r.error)
  {
    if !file.loads then Err(NotLoadable(file.name))
    else if !file.revision.Text? || file.revision.text == "" then Err(NoRevision(file.name))
    else if file.down.Other? then Err(InvalidDown(file.revision.text))
    else if !file.upgrade then Err(NoUpgrade(file.revision.text))
    else if !file.downgrade then Err(NoDowngrade(file.revision.text))
    else Ok(Revision(file.revision.text,
                     if file.down.Text? then Some(file.down.text) else None))
  }

  /** What a reader of the directory would call a linear chain: distinct revisions, the first with
      no predecessor and every later one naming the file before it. */
  ghost predicate Linear(revs: seq<Revision>) {
    && revs != []
    && DistinctNames(revs)
    && revs[0].down == None
    && forall i :: 0 < i < |revs| ==> revs[i].down == Some(revs[i - 1].revision)
  }

  ghost predicate DistinctNames(revs: seq<Revision>) {
    forall i, j :: 0 <= i < j < |revs| ==> revs[i].revision != revs[j].revision
  }

  predicate AllLoad(files: seq<File>) {
    forall i :: 0 <= i < |files| ==> Loadable(files[i])
  }

  function Revisions(files: seq<File>): (revs: seq<Revision>)
    requires AllLoad(files)
    ensures |revs| == |files|
  {
    seq(|files|, i requires 0 <= i < |files| => Named(files[i]))
  }

  type Index = map<string, Revision>

  /** The index holds exactly the given revisions, each under its own name. */
  ghost predicate Indexes(index: Index, revs: seq<Revision>) {
    && (forall i :: 0 <= i < |revs| ==> revs[i].revision in index && index[revs[i].revision] == revs[i])
    && (forall r :: r in index ==> index[r] in revs && index[r].revision == r)
  }

  /** Following predecessor links `k` times. */
  function Down(index: Index, r: string, k: nat): Option<string>
    decreases k
  {
    if k == 0 then Some(r)
    else if r !in index || index[r].down == None then None
    else Down(index, index[r].down.value, k - 1)
  }

  ghost predicate OnCycle(index: Index, r: string) {
    exists k :: k > 0 && Down(index, r, k) == Some(r)
  }

  // ------------------------------------------------------------------------- cycles

  /** A sequence of revisions each of which is the predecessor of the next. */
  ghost predicate Climbs(index: Index, p: seq<string>) {
    && (forall i :: 0 <= i < |p| ==> p[i] in index)
    && (forall i :: 0 < i < |p| ==> index[p[i]].down == Some(p[i - 1]))
  }

  lemma {:induction false} ClimbDown(index: Index, p: seq<string>, k: nat)
    requires Climbs(index, p) && k < |p|
    ensures Down(index, p[k], k) == Some(p[0])
    decreases k
  {
    if k > 0 { ClimbDown(index, p, k - 1); }
  }

  /** If every revision is somebody's predecessor, climbing from any of them comes back to it: the
      file named in the report really is on a cycle. */
  lemma {:induction false} NoHeadMeansCycle(index: Index, p: seq<string>)
    requires index.Keys <= Referenced(index) && p != [] && Climbs(index, p) && Distinct(p)
    ensures OnCycle(index, p[0])
    decreases |index.Keys| - |p|
  {
    var c := SuccessorOf(index, p[|p| - 1]);
    if c in p {
      ClimbCloses(index, p, c);
    } else {
      ClimbHigher(index, p, c);
      AtMostAll(index, p + [c]);
      NoHeadMeansCycle(index, p + [c]);
    }
  }

  /** Some revision that names `r` as its predecessor. */
  ghost function SuccessorOf(index: Index, r: string): (c: string)
    requires r in Referenced(index)
    ensures c in index && index[c].down == Some(r)
  {
    var c :| c in index && index[c].down == Some(r);
    c
  }

  lemma AtMostAll(index: Index, p: seq<string>)
    requires Climbs(index, p) && Distinct(p)
    ensures |p| <= |index.Keys|
  {
    DistinctSize(p);
    SubsetSize(Members(p), index.Keys);
  }

  /** A climb that meets itself meets its own start: only the top of it precedes the meeting point. */
  lemma ClimbCloses(index: Index, p: seq<string>, c: string)
    requires p != [] && Climbs(index, p) && c in p && index[c].down == Some(p[|p| - 1])
    requires Distinct(p)
    ensures OnCycle(index, p[0])
  {
    forall j | 0 < j < |p| ensures p[j] != c {
      assert p[j - 1] != p[|p| - 1];
    }
    assert c == p[0];
    ClimbDown(index, p, |p| - 1);
    assert Down(index, c, |p|) == Some(p[0]);
  }

  lemma ClimbHigher(index: Index, p: seq<string>, c: string)
    requires p != [] && Climbs(index, p) && c in index && index[c].down == Some(p[|p| - 1])
    requires Distinct(p) && c !in p
    ensures Climbs(index, p + [c]) && Distinct(p + [c]) && (p + [c])[0] == p[0]
  {
  }

  // ------------------------------------------------------------------------- the walk

  /** A walk from the head down. */
  ghost predicate Descends(index: Index, w: seq<Revision>) {
    && (forall i :: 0 <= i < |w| ==> w[i].revision in index && index[w[i].revision] == w[i])
    && (forall i :: 0 < i < |w| ==> w[i - 1].down == Some(w[i].revision))
  }

  lemma {:induction false} DescendDown(index: Index, w: seq<Revision>, i: nat, k: nat)
    requires Descends(index, w) && i + k < |w|
    ensures Down(index, w[i].revision, k) == Some(w[i + k].revision)
    decreases k
  {
    if k > 0 { DescendDown(index, w, i + 1, k - 1); }
  }

  lemma {:induction false} DownOneMore(index: Index, r: string, k: nat)
    ensures Down(index, r, k + 1) ==
              match Down(index, r, k)
              case None => None
              case Some(x) => if x in index then index[x].down else None
    decreases k
  {
    if k > 0 && r in index && index[r].down.Some? { DownOneMore(index, index[r].down.value, k - 1); }
  }

  /** Meeting a revision again on the way down means it lies on a cycle. */
  lemma RevisitMeansCycle(index: Index, w: seq<Revision>, r: string)
    requires Descends(index, w) && w != [] && w[|w| - 1].down == Some(r)
    requires exists i :: 0 <= i < |w| && w[i].revision == r
    ensures OnCycle(index, r)
  {
    var i :| 0 <= i < |w| && w[i].revision == r;
    DescendDown(index, w, i, |w| - 1 - i);
    DownOneMore(index, r, |w| - 1 - i);
    assert Down(index, r, |w| - i) == Some(r);
  }

  function Referenced(index: Index): set<string> {
    set r | r in index && index[r].down.Some? :: index[r].down.value
  }

  /** In a linear chain every revision but the last is referenced, and only by its successor. */
  lemma LinearReferenced(index: Index, revs: seq<Revision>, i: nat)
    requires Linear(revs) && Indexes(index, revs) && i < |revs|
    ensures revs[i].revision in Referenced(index) <==> i < |revs| - 1
  {
    var r := revs[i].revision;
    if i < |revs| - 1 {
      assert index[revs[i + 1].revision].down == Some(r);
    } else {
      forall c | c in index && index[c].down.Some? ensures index[c].down.value != r {
        var j :| 0 <= j < |revs| && revs[j] == index[c];
        assert revs[j - 1].revision == index[c].down.value;
      }
    }
  }

  /** A linear chain has its last file as its only head. */
  lemma LinearHead(index: Index, revs: seq<Revision>)
    requires Linear(revs) && Indexes(index, revs)
    ensures index.Keys - Referenced(index) == {revs[|revs| - 1].revision}
  {
    var top := revs[|revs| - 1].revision;
    forall r | r in index ensures r in Referenced(index) <==> r != top {
      var i :| 0 <= i < |revs| && revs[i] == index[r];
      LinearReferenced(index, revs, i);
    }
    assert top in index;
  }

  // ------------------------------------------------------------------------- discovery

  /** A file fails in just this way, and those before it load. */
  predicate FailsToLoad(files: seq<File>, e: Error) {
    exists i :: 0 <= i < |files| && FailsBy(files[i], e) && AllLoad(files[..i])
  }

  /** What an error reports is true of the files. */
  ghost predicate Honest(files: seq<File>, e: Error) {
    match e
    case NoMigrations => files == []
    case NotLoadable(_) => FailsToLoad(files, e)
    case NoRevision(_) => FailsToLoad(files, e)
    case InvalidDown(_) => FailsToLoad(files, e)
    case NoUpgrade(_) => FailsToLoad(files, e)
    case NoDowngrade(_) => FailsToLoad(files, e)
    case Duplicate(r) =>
      exists i, j :: 0 <= i < j < |files| && Loadable(files[i]) && Loadable(files[j]) &&
        files[i].revision == Text(r) == files[j].revision && AllLoad(files[..j])
    case _ => AllLoad(files) && DistinctNames(Revisions(files)) && HonestLinks(Revisions(files), e)
  }

  /** What the reports about links say is true of the files. */
  ghost predicate HonestLinks(revs: seq<Revision>, e: Error) {
    match e
    case UnknownDown(r, u) =>
      && Revision(r, Some(u)) in revs
      && forall i :: 0 <= i < |revs| ==> revs[i].revision != u
    case MultipleHeads(heads) =>
      |heads| > 1 && forall r :: r in heads <==>
        && (exists i :: 0 <= i < |revs| && revs[i].revision == r)
        && (forall i :: 0 <= i < |revs| ==> revs[i].down != Some(r))
    case NoHead(r) => revs != [] && r == revs[0].revision && forall index :: Indexes(index, revs) ==> OnCycle(index, r)
    case Cycle(r) => forall index :: Indexes(index, revs) ==> OnCycle(index, r)
    case NotIncluded(r) => Unreached(revs, r)
    case OrderDisagrees(r) => Misplaced(revs, r)
    case _ => false
  }

  /** No walk down from the only head meets `r`. */
  ghost predicate Unreached(revs: seq<Revision>, r: string) {
    && (exists i :: 0 <= i < |revs| && revs[i].revision == r)
    && exists head ::
      && (exists i :: 0 <= i < |revs| && revs[i].revision == head)
      && (forall i :: 0 <= i < |revs| ==> revs[i].down != Some(head))
      && forall index, k :: Indexes(index, revs) ==> Down(index, head, k) != Some(r)
  }

  /** The links do form a chain of all the files, but `r` is not where its name puts it. */
  ghost predicate Misplaced(revs: seq<Revision>, r: string) {
    exists chain, i ::
      && Linear(chain) && |chain| == |revs| && 0 <= i < |revs|
      && (forall x :: x in chain <==> x in revs)
      && revs[..i] == chain[..i] && revs[i] != chain[i] && revs[i].revision == r
  }

  lemma DuplicateIsReal(files: seq<File>, i: nat, j: nat)
    requires i < j < |files| && Loadable(files[i]) && Loadable(files[j]) && AllLoad(files[..j])
    requires files[i].revision == files[j].revision
    ensures Honest(files, Duplicate(files[j].revision.text))
    ensures !(AllLoad(files) && DistinctNames(Revisions(files)))
  {
    if AllLoad(files) {
      assert Revisions(files)[i].revision == Revisions(files)[j].revision;
    }
  }

  lemma IndexOneMore(index: Index, revs: seq<Revision>, item: Revision)
    requires Indexes(index, revs) && DistinctNames(revs) && item.revision !in index
    ensures Indexes(index[item.revision := item], revs + [item]) && DistinctNames(revs + [item])
  {
    var more := revs + [item];
    assert more[|revs|] == item;
    forall r | r in revs ensures r in more { }
  }

  method IndexFiles(files: seq<File>)
    returns (index: Index, order: seq<string>, failure: Option<Error>)
    ensures failure.Some? ==>
              Honest(files, failure.value) && !(AllLoad(files) && DistinctNames(Revisions(files)))
    ensures failure.None? ==>
              && AllLoad(files) && DistinctNames(Revisions(files)) && Indexes(index, Revisions(files))
              && order == seq(|files|, i requires 0 <= i < |files| => Revisions(files)[i].revision)
  {
    index, order := map[], [];
    for i := 0 to |files|
      invariant AllLoad(files[..i]) && DistinctNames(Revisions(files[..i]))
      invariant Indexes(index, Revisions(files[..i]))
      invariant |order| == i && forall k :: 0 <= k < i ==> order[k] == Revisions(files[..i])[k].revision
    {
      var item := RevisionOf(files[i]);
      if item.Err? { return index, order, Some(item.error); }
      var revs := Revisions(files[..i]);
      assert files[..i + 1] == files[..i] + [files[i]];
      if item.value.revision in index {
        var k :| 0 <= k < i && revs[k] == index[item.value.revision];
        assert files[..i][k] == files[k];
        DuplicateIsReal(files, k, i);
        return index, order, Some(Duplicate(item.value.revision));
      }
      assert Revisions(files[..i + 1]) == revs + [item.value];
      IndexOneMore(index, revs, item.value);
      index := index[item.value.revision := item.value];
      order := order + [item.value.revision];
    }
    assert files[..|files|] == files;
    failure := None;
  }

  method CheckDowns(index: Index, ghost revs: seq<Revision>, order: seq<string>)
    returns (failure: Option<Error>)
    requires Indexes(index, revs)
    requires order == seq(|revs|, i requires 0 <= i < |revs| => revs[i].revision)
    ensures failure.None? <==> forall i :: 0 <= i < |revs| && revs[i].down.Some? ==> revs[i].down.value in index
    ensures failure.Some? ==> failure.value.UnknownDown? && HonestLinks(revs, failure.value)
  {
    for i := 0 to |order|
      invariant forall k :: 0 <= k < i && revs[k].down.Some? ==> revs[k].down.value in index
    {
      var item := index[order[i]];
      if item.down.Some? && item.down.value !in index {
        return Some(UnknownDown(item.revision, item.down.value));
      }
    }
    failure := None;
  }

  // ------------------------------------------------------------------------- the walk, in loops

  function Names(w: seq<Revision>): (p: seq<string>)
    ensures |p| == |w|
  {
    seq(|w|, i requires 0 <= i < |w| => w[i].revision)
  }

  /** Walk down from a revision until there is no predecessor, or a revision comes up again. */
  method WalkDown(index: Index, head: string)
    returns (w: seq<Revision>, seen: set<string>, failure: Option<Error>)
    requires head in index && Closed(index)
    ensures failure.Some? ==> failure.value.Cycle? && OnCycle(index, failure.value.revision)
    ensures failure.None? ==>
              && Descends(index, w) && DistinctNames(w) && seen == Members(Names(w))
              && w != [] && w[0].revision == head && w[|w| - 1].down == None
  {
    w, seen := [], {};
    var cursor := Some(head);
    while cursor.Some?
      invariant cursor.Some? ==> cursor.value in index
      invariant Descends(index, w) && DistinctNames(w)
      invariant seen <= index.Keys && seen == Members(Names(w))
      invariant w == [] ==> cursor == Some(head)
      invariant w != [] ==> w[0].revision == head && cursor == w[|w| - 1].down
      decreases index.Keys - seen, cursor.Some?
    {
      var r := cursor.value;
      if r in seen {
        var i :| 0 <= i < |w| && Names(w)[i] == r;
        assert w[i].revision == r;
        RevisitMeansCycle(index, w, r);
        return w, seen, Some(Cycle(r));
      }
      seen := seen + {r};
      var item := index[r];
      WalkOne(index, w, item);
      w := w + [item];
      cursor := item.down;
    }
    failure := None;
  }

  lemma WalkOne(index: Index, w: seq<Revision>, item: Revision)
    requires Descends(index, w) && DistinctNames(w) && item.revision !in Members(Names(w))
    requires item.revision in index && index[item.revision] == item
    requires w != [] ==> w[|w| - 1].down == Some(item.revision)
    ensures Descends(index, w + [item]) && DistinctNames(w + [item])
    ensures Members(Names(w + [item])) == Members(Names(w)) + {item.revision}
  {
    assert forall i :: 0 <= i < |w| ==> Names(w)[i] == w[i].revision;
    assert Names(w + [item]) == Names(w) + [item.revision];
  }

  function Reversed(w: seq<Revision>): (r: seq<Revision>)
    ensures |r| == |w| && forall i :: 0 <= i < |w| ==> r[i] == w[|w| - 1 - i]
  {
    seq(|w|, i requires 0 <= i < |w| => w[|w| - 1 - i])
  }

  /** A complete walk, read backwards, is a linear chain. */
  lemma WalkIsLinear(index: Index, w: seq<Revision>)
    requires Descends(index, w) && DistinctNames(w) && w != [] && w[|w| - 1].down == None
    ensures Linear(Reversed(w))
  {
  }

  /** In a linear chain, going down from a file leads to the files before it and then stops. */
  lemma {:induction false} LinearDown(index: Index, revs: seq<Revision>, i: nat, k: nat)
    requires Linear(revs) && Indexes(index, revs) && i < |revs|
    ensures Down(index, revs[i].revision, k) == if k <= i then Some(revs[i - k].revision) else None
    decreases k
  {
    if k > 0 && i > 0 { LinearDown(index, revs, i - 1, k - 1); }
  }

  lemma LinearHasNoCycle(index: Index, revs: seq<Revision>, r: string)
    requires Linear(revs) && Indexes(index, revs) && r in index
    ensures !OnCycle(index, r)
  {
    var i :| 0 <= i < |revs| && revs[i] == index[r];
    forall k | k > 0 ensures Down(index, r, k) != Some(r) {
      LinearDown(index, revs, i, k);
    }
  }

  /** The walk down a linear chain meets every file, last to first. */
  lemma {:induction false} LinearWalk(index: Index, revs: seq<Revision>, w: seq<Revision>, k: nat)
    requires Linear(revs) && Indexes(index, revs) && Descends(index, w)
    requires w != [] && w[0].revision == revs[|revs| - 1].revision && w[|w| - 1].down == None
    requires k < |w|
    ensures k < |revs| && w[k] == revs[|revs| - 1 - k]
    ensures k == |w| - 1 ==> |w| == |revs|
    decreases k
  {
    if k > 0 {
      LinearWalk(index, revs, w, k - 1);
      var i := |revs| - k;
      assert w[k - 1].down == Some(w[k].revision) && w[k - 1] == revs[i];
      assert i > 0 && revs[i].down == Some(revs[i - 1].revision);
    }
    var j := |revs| - 1 - k;
    assert index[w[k].revision] == w[k] && index[revs[j].revision] == revs[j];
    assert j > 0 ==> revs[j].down == Some(revs[j - 1].revision);
    assert k == |w| - 1 ==> revs[j].down == None;
  }

  /** From the head, a complete walk is all there is. */
  lemma OffTheWalk(index: Index, w: seq<Revision>, k: nat)
    requires Descends(index, w) && w != [] && w[|w| - 1].down == None
    ensures Down(index, w[0].revision, k) == if k < |w| then Some(w[k].revision) else None
    decreases k
  {
    if k < |w| {
      DescendDown(index, w, 0, k);
    } else {
      OffTheWalk(index, w, k - 1);
      DownOneMore(index, w[0].revision, k - 1);
    }
  }

  lemma OneIndex(a: Index, b: Index, revs: seq<Revision>)
    requires Indexes(a, revs) && Indexes(b, revs)
    ensures a == b
  {
    InIndex(a, b, revs);
    InIndex(b, a, revs);
    assert a.Keys == b.Keys;
  }

  lemma InIndex(a: Index, b: Index, revs: seq<Revision>)
    requires Indexes(a, revs) && Indexes(b, revs)
    ensures forall r :: r in a ==> r in b && b[r] == a[r]
  {
    forall r | r in a ensures r in b && b[r] == a[r] {
      var i :| 0 <= i < |revs| && revs[i] == a[r];
    }
  }

  // ------------------------------------------------------------------------- the whole discovery

  lemma KeysCounted(index: Index, revs: seq<Revision>)
    requires Indexes(index, revs) && DistinctNames(revs)
    ensures |index.Keys| == |revs| && Members(Names(revs)) == index.Keys
  {
    var p := Names(revs);
    assert forall i :: 0 <= i < |revs| ==> p[i] == revs[i].revision;
    assert Distinct(p);
    DistinctSize(p);
    forall r | r in index ensures r in Members(p) {
      var i :| 0 <= i < |revs| && revs[i] == index[r];
      assert p[i] == r;
    }
    assert Members(p) == index.Keys;
  }

  /** The first revision in file order that the walk did not meet. */
  method FirstUnseen(order: seq<string>, seen: set<string>) returns (r: string)
    requires exists i :: 0 <= i < |order| && order[i] !in seen
    ensures r in order && r !in seen
    ensures exists i :: 0 <= i < |order| && order[i] == r && forall k :: 0 <= k < i ==> order[k] in seen
  {
    var i := 0;
    while order[i] in seen
      invariant 0 <= i < |order| && forall k :: 0 <= k < i ==> order[k] in seen
      decreases |order| - i
    {
      i := i + 1;
    }
    r := order[i];
  }

  /** The first place where the two orders differ. */
  method FirstMismatch(actual: seq<string>, expected: seq<string>) returns (i: nat)
    requires |actual| == |expected| && actual != expected
    ensures i < |actual| && actual[..i] == expected[..i] && actual[i] != expected[i]
  {
    i := 0;
    while i < |actual| && actual[i] == expected[i]
      invariant i <= |actual| && actual[..i] == expected[..i]
    {
      i := i + 1;
    }
    assert actual[..|actual|] == actual && expected[..|actual|] == expected;
  }

  lemma UnseenIsUnreached(index: Index, revs: seq<Revision>, w: seq<Revision>, head: string, r: string)
    requires Indexes(index, revs) && Descends(index, w) && w != [] && w[|w| - 1].down == None
    requires w[0].revision == head && head in index && head !in Referenced(index)
    requires r in index && r !in Members(Names(w))
    ensures Unreached(revs, r)
  {
    var i :| 0 <= i < |revs| && revs[i] == index[r];
    var h :| 0 <= h < |revs| && revs[h] == index[head];
    forall j | 0 <= j < |revs| ensures revs[j].down != Some(head) {
      assert revs[j].revision in index;
    }
    forall other: Index, k: nat | Indexes(other, revs) ensures Down(other, head, k) != Some(r) {
      OneIndex(index, other, revs);
      OffTheWalk(index, w, k);
      if k < |w| { assert Names(w)[k] == w[k].revision; }
    }
  }

  lemma MismatchIsMisplaced(
    index: Index, revs: seq<Revision>, chain: seq<Revision>, i: nat)
    requires Indexes(index, revs) && DistinctNames(revs) && Linear(chain)
    requires forall c :: c in chain ==> c.revision in index && index[c.revision] == c
    requires Members(Names(chain)) == index.Keys
    requires i < |revs| && i < |chain| && Names(revs)[..i] == Names(chain)[..i]
    requires Names(revs)[i] != Names(chain)[i]
    ensures Misplaced(revs, revs[i].revision)
  {
    KeysCounted(index, revs);
    DistinctSize(Names(chain));
    SameMembers(index, revs, chain);
    SamePrefix(index, revs, chain, i);
  }

  lemma SamePrefix(index: Index, revs: seq<Revision>, chain: seq<Revision>, i: nat)
    requires Indexes(index, revs)
    requires forall c :: c in chain ==> c.revision in index && index[c.revision] == c
    requires i < |revs| && i < |chain| && Names(revs)[..i] == Names(chain)[..i]
    ensures revs[..i] == chain[..i]
  {
    forall k | 0 <= k < i ensures revs[k] == chain[k] {
      assert Names(revs)[..i][k] == Names(chain)[..i][k];
      assert index[revs[k].revision] == revs[k] && chain[k] in chain;
    }
  }

  lemma SameMembers(index: Index, revs: seq<Revision>, chain: seq<Revision>)
    requires Indexes(index, revs)
    requires forall c :: c in chain ==> c.revision in index && index[c.revision] == c
    requires Members(Names(chain)) == index.Keys
    ensures forall x :: x in chain <==> x in revs
  {
    forall x | x in revs ensures x in chain {
      assert x.revision in Members(Names(chain));
      var k :| 0 <= k < |chain| && Names(chain)[k] == x.revision;
      assert chain[k] in chain;
    }
    forall x | x in chain ensures x in revs {
      assert index[x.revision] in revs;
    }
  }

  lemma LinearKnowsDowns(index: Index, revs: seq<Revision>)
    requires Indexes(index, revs)
    ensures Linear(revs) ==>
              forall i :: 0 <= i < |revs| && revs[i].down.Some? ==> revs[i].down.value in index
  {
    if Linear(revs) {
      forall i | 0 <= i < |revs| && revs[i].down.Some? ensures revs[i].down.value in index {
        assert revs[i - 1].revision in index;
      }
    }
  }

  /** Every predecessor named is known. */
  ghost predicate Closed(index: Index) {
    forall r :: r in index ==>
      index[r].revision == r && (index[r].down.Some? ==> index[r].down.value in index)
  }

  lemma IndexClosed(index: Index, revs: seq<Revision>)
    requires Indexes(index, revs)
    requires forall i :: 0 <= i < |revs| && revs[i].down.Some? ==> revs[i].down.value in index
    ensures Closed(index)
  {
    forall x | x in index ensures index[x].down.Some? ==> index[x].down.value in index {
      var i :| 0 <= i < |revs| && revs[i] == index[x];
    }
  }

  lemma ManyHeads(index: Index, revs: seq<Revision>, heads: set<string>)
    requires Indexes(index, revs) && heads == index.Keys - Referenced(index) && |heads| > 1
    ensures HonestLinks(revs, MultipleHeads(heads)) && !Linear(revs)
  {
    forall r ensures r in heads <==>
        && (exists i :: 0 <= i < |revs| && revs[i].revision == r)
        && (forall i :: 0 <= i < |revs| ==> revs[i].down != Some(r))
    {
      IsHead(index, revs, r);
    }
    if Linear(revs) { LinearHead(index, revs); }
  }

  lemma IsHead(index: Index, revs: seq<Revision>, r: string)
    requires Indexes(index, revs)
    ensures r in index && r !in Referenced(index) <==>
        && (exists i :: 0 <= i < |revs| && revs[i].revision == r)
        && (forall i :: 0 <= i < |revs| ==> revs[i].down != Some(r))
  {
    if r in index { var i :| 0 <= i < |revs| && revs[i] == index[r]; }
    if r in Referenced(index) {
      var c :| c in index && index[c].down == Some(r);
      var j :| 0 <= j < |revs| && revs[j] == index[c];
    } else {
      forall j | 0 <= j < |revs| ensures revs[j].down != Some(r) {
        assert revs[j].revision in index;
      }
    }
  }

  lemma NoneHeads(index: Index, revs: seq<Revision>)
    requires revs != [] && Indexes(index, revs) && index.Keys - Referenced(index) == {}
    ensures HonestLinks(revs, NoHead(revs[0].revision)) && !Linear(revs)
  {
    var r := revs[0].revision;
    assert index.Keys <= Referenced(index) by {
      forall x | x in index ensures x in Referenced(index) {
        assert x !in index.Keys - Referenced(index);
      }
    }
    NoHeadMeansCycle(index, [r]);
    CycleIsHonest(index, revs, r);
  }

  lemma CycleIsHonest(index: Index, revs: seq<Revision>, r: string)
    requires Indexes(index, revs) && OnCycle(index, r)
    ensures HonestLinks(revs, Cycle(r))
    ensures !Linear(revs)
  {
    forall other | Indexes(other, revs) ensures OnCycle(other, r) {
      OneIndex(index, other, revs);
    }
    var k :| k > 0 && Down(index, r, k) == Some(r);
    if Linear(revs) { LinearHasNoCycle(index, revs, r); }
  }

  /** Compare the completed walk with the files. */
  method Compare(index: Index, order: seq<string>, ghost revs: seq<Revision>,
                 ghost head: string, w: seq<Revision>, seen: set<string>)
    returns (r: Result<seq<Revision>, Error>)
    requires revs != [] && Indexes(index, revs) && DistinctNames(revs) && order == Names(revs)
    requires head in index && index.Keys - Referenced(index) == {head}
    requires Descends(index, w) && DistinctNames(w) && seen == Members(Names(w))
    requires w != [] && w[0].revision == head && w[|w| - 1].down == None
    ensures r.Ok? <==> Linear(revs)
    ensures r.Ok? ==> r.value == revs
    ensures r.Err? ==> HonestLinks(revs, r.error)
  {
    KeysCounted(index, revs);
    if Linear(revs) { LinearWalkIsAll(index, revs, w); }
    WalkCounted(index, w);
    if |seen| != |index| {
      SomeUnseen(index, order, seen);
      var missing := FirstUnseen(order, seen);
      UnseenIsUnreached(index, revs, w, head, missing);
      return Err(NotIncluded(missing));
    }
    SameSize(seen, index.Keys);
    var chain := Reversed(w);
    WalkIsLinear(index, w);
    ReversedNames(index, w);
    var chainOrder := Names(chain);
    DistinctSize(chainOrder);
    if order != chainOrder {
      var i := FirstMismatch(order, chainOrder);
      MismatchIsMisplaced(index, revs, chain, i);
      return Err(OrderDisagrees(order[i]));
    }
    SameNames(index, revs, chain);
    r := Ok(chain);
  }

  lemma LinearWalkIsAll(index: Index, revs: seq<Revision>, w: seq<Revision>)
    requires Linear(revs) && Indexes(index, revs) && Descends(index, w)
    requires w != [] && index.Keys - Referenced(index) == {w[0].revision} && w[|w| - 1].down == None
    ensures Reversed(w) == revs
  {
    LinearHead(index, revs);
    assert w[0].revision in index.Keys - Referenced(index);
    LinearWalk(index, revs, w, |w| - 1);
    forall k | 0 <= k < |w| ensures w[k] == revs[|revs| - 1 - k] {
      LinearWalk(index, revs, w, k);
    }
  }

  lemma WalkCounted(index: Index, w: seq<Revision>)
    requires Descends(index, w) && DistinctNames(w)
    ensures Members(Names(w)) <= index.Keys && Distinct(Names(w))
    ensures |Members(Names(w))| == |w|
  {
    assert forall i :: 0 <= i < |w| ==> Names(w)[i] == w[i].revision;
    DistinctSize(Names(w));
  }

  lemma SomeUnseen(index: Index, order: seq<string>, seen: set<string>)
    requires Members(order) == index.Keys && seen <= index.Keys && |seen| != |index|
    ensures exists i :: 0 <= i < |order| && order[i] !in seen
  {
    assert |index| == |index.Keys|;
    assert index.Keys == seen + (index.Keys - seen);
    var r :| r in index.Keys - seen;
    assert r in Members(order);
  }

  lemma ReversedNames(index: Index, w: seq<Revision>)
    requires Descends(index, w)
    ensures Members(Names(Reversed(w))) == Members(Names(w))
    ensures forall c :: c in Reversed(w) ==> c.revision in index && index[c.revision] == c
    ensures DistinctNames(w) ==> Distinct(Names(Reversed(w)))
  {
    var p, q := Names(w), Names(Reversed(w));
    assert forall i :: 0 <= i < |w| ==> q[i] == p[|w| - 1 - i] && p[i] == q[|w| - 1 - i];
    forall x ensures x in p <==> x in q {
      if x in p { var i :| 0 <= i < |p| && p[i] == x; assert q[|w| - 1 - i] == x; }
      if x in q { var i :| 0 <= i < |q| && q[i] == x; assert p[|w| - 1 - i] == x; }
    }
  }

  lemma SameNames(index: Index, revs: seq<Revision>, chain: seq<Revision>)
    requires Indexes(index, revs) && Names(revs) == Names(chain)
    requires forall c :: c in chain ==> c.revision in index && index[c.revision] == c
    ensures revs == chain
  {
    forall i | 0 <= i < |revs| ensures revs[i] == chain[i] {
      assert Names(revs)[i] == Names(chain)[i] && chain[i] in chain;
      assert index[revs[i].revision] == revs[i];
    }
  }

  /** Load and validate the files, in file name order: it succeeds exactly on a linear chain, which
      it returns, and what a failure reports is true. */
  method Discover(files: seq<File>) returns (r: Result<seq<Revision>, Error>)
    ensures r.Ok? <==> AllLoad(files) && Linear(Revisions(files))
    ensures r.Ok? ==> r.value == Revisions(files)
    ensures r.Err? ==> Honest(files, r.error)
  {
    if files == [] { return Err(NoMigrations); }
    var index, order, failure := IndexFiles(files);
    if failure.Some? { return Err(failure.value); }
    ghost var revs := Revisions(files);
    failure := CheckDowns(index, revs, order);
    LinearKnowsDowns(index, revs);
    if failure.Some? { return Err(failure.value); }
    r := Order(index, order, revs);
  }

  method Order(index: Index, order: seq<string>, ghost revs: seq<Revision>)
    returns (r: Result<seq<Revision>, Error>)
    requires revs != [] && Indexes(index, revs) && DistinctNames(revs) && order == Names(revs)
    requires forall i :: 0 <= i < |revs| && revs[i].down.Some? ==> revs[i].down.value in index
    ensures r.Ok? <==> Linear(revs)
    ensures r.Ok? ==> r.value == revs
    ensures r.Err? ==> HonestLinks(revs, r.error)
  {
    var heads := index.Keys - Referenced(index);
    if |heads| > 1 {
      ManyHeads(index, revs, heads);
      return Err(MultipleHeads(heads));
    }
    if heads == {} {
      NoneHeads(index, revs);
      return Err(NoHead(order[0]));
    }
    var head :| head in heads;
    assert heads == {head} by { SameSize({head}, heads); }
    IndexClosed(index, revs);
    r := WalkAndCompare(index, order, revs, head);
  }

  method WalkAndCompare(index: Index, order: seq<string>, ghost revs: seq<Revision>, head: string)
    returns (r: Result<seq<Revision>, Error>)
    requires revs != [] && Indexes(index, revs) && DistinctNames(revs) && order == Names(revs)
    requires head in index && index.Keys - Referenced(index) == {head} && Closed(index)
    ensures r.Ok? <==> Linear(revs)
    ensures r.Ok? ==> r.value == revs
    ensures r.Err? ==> HonestLinks(revs, r.error)
  {
    var w, seen, failure := WalkDown(index, head);
    if failure.Some? {
      CycleIsHonest(index, revs, failure.value.revision);
      return Err(failure.value);
    }
    r := Compare(index, order, revs, head, w, seen);
  }
}
