/** The project tree of the search form: the text filter, the grouping of
    each instance's projects by the namespace path in `name_with_namespace`,
    the conversion of that grouping into tree nodes with sorted children,
    and the key the node selection uses. */
module NamespaceTree {
  import opened Wrappers
  import opened Strings
  import opened Seqs
  import opened GitlabModel
  import GitlabProjects

  // ---------------------------------------------------------------------
  // Nodes
  // ---------------------------------------------------------------------

  /** `GitlabEntityNode.item`: the instance id of a root, a namespace, or a
      project tagged with its instance id. */
  datatype Item =
    | GitlabRoot(gitlabId: string)
    | Namespace(gitlabId: string, name: string)
    | ProjectItem(gitlabId: string, project: Project)

  /** A tree node and its children; the parent link is the path to it and
      the leaf set is computed separately. */
  datatype TreeNode = TreeNode(item: Item, children: seq<TreeNode>)

  /** The selection's `trackBy`: the instance id for a root,
      `${gitlab_id}_ns_${name}` for a namespace and
      `${gitlab_id}_project_${id}` for a project. The type guards test
      `gitlab_id` for truthiness, so with an empty instance id no branch is
      taken and the key is `undefined` (`None`). */
  function NodeKey(n: TreeNode): (r: Option<string>)
    ensures n.item.GitlabRoot? ==> r == Some(n.item.gitlabId)
    ensures !n.item.GitlabRoot? ==> (r.Some? <==> n.item.gitlabId != "")
    ensures r.Some? && n.item.Namespace? ==> r.value == n.item.gitlabId + "_ns_" + n.item.name
    ensures r.Some? && n.item.Namespace? ==> StartsWith(r.value, n.item.gitlabId + "_ns_")
    ensures r.Some? && n.item.ProjectItem? ==> StartsWith(r.value, n.item.gitlabId + "_project_")
    ensures r.Some? && n.item.ProjectItem? ==>
              ParseIntDecimal(Some(r.value[|n.item.gitlabId + "_project_"|..])) == Some(n.item.project.id)
  {
    match n.item
    case GitlabRoot(id) => Some(id)
    case Namespace(g, name) =>
      if g == "" then None
      else
        var r := g + "_ns_" + name;
        assert r[..|g + "_ns_"|] == g + "_ns_";
        Some(r)
    case ProjectItem(g, p) =>
      if g == "" then None
      else
        var r := g + "_project_" + IntToString(p.id);
        assert r[..|g + "_project_"|] == g + "_project_";
        assert r[|g + "_project_"|..] == IntToString(p.id);
        ParseIntOfIntToString(p.id);
        Some(r)
  }

  lemma NatToStringInjective(a: nat, b: nat)
    requires NatToString(a) == NatToString(b)
    ensures a == b
  {
    assert DecimalValue(NatToString(a)) == a;
  }

  lemma IntToStringInjective(a: int, b: int)
    requires IntToString(a) == IntToString(b)
    ensures a == b
  {
    if a < 0 && b < 0 {
      var sa := NatToString(-a);
      var sb := NatToString(-b);
      assert ("-" + sa)[1..] == sa && ("-" + sb)[1..] == sb;
      NatToStringInjective(-a, -b);
    } else if a >= 0 && b >= 0 {
      assert IntToString(a) == NatToString(a) && IntToString(b) == NatToString(b);
      NatToStringInjective(a, b);
    } else if a < 0 {
      MixedSigns(a, b);
    } else {
      MixedSigns(b, a);
    }
  }

  lemma MixedSigns(a: int, b: int)
    requires a < 0 <= b
    ensures IntToString(a) != IntToString(b)
  {
    assert IntToString(a)[0] == '-';
    assert IsDigit(IntToString(b)[0]);
  }

  /** Two project leaves of one instance (with a non-empty id) share a key
      exactly when their project ids are equal, and a project key never
      equals a namespace key of the same instance. */
  lemma ProjectKeysIdentifyProjects(g: string, p: Project, q: Project, name: string)
    requires g != ""
    ensures NodeKey(TreeNode(ProjectItem(g, p), [])) == NodeKey(TreeNode(ProjectItem(g, q), [])) <==> p.id == q.id
    ensures NodeKey(TreeNode(ProjectItem(g, p), [])) != NodeKey(TreeNode(Namespace(g, name), []))
  {
    var kp := g + "_project_" + IntToString(p.id);
    var kq := g + "_project_" + IntToString(q.id);
    if kp == kq {
      assert kp[|g + "_project_"|..] == IntToString(p.id);
      assert kq[|g + "_project_"|..] == IntToString(q.id);
      IntToStringInjective(p.id, q.id);
    }
    var kn := g + "_ns_" + name;
    assert kp[|g| + 1] == 'p' && kn[|g| + 1] == 'n';
  }

  // ---------------------------------------------------------------------
  // filterData
  // ---------------------------------------------------------------------

  /** The query as `filterData` uses it: `null` becomes "", then it is
      trimmed and lower-cased. */
  function FilterQuery(query: Option<string>): (q: string)
    ensures Lower(q) == q
    ensures q != [] ==> !IsJsSpace(q[0]) && !IsJsSpace(q[|q| - 1])
    ensures query.GetOr("") == "" ==> q == ""
  {
    var t := Trim(query.GetOr(""));
    LowerIdempotent(t);
    var q := Lower(t);
    assert q != [] ==> IsJsSpace(q[0]) == IsJsSpace(t[0]) && IsJsSpace(q[|q| - 1]) == IsJsSpace(t[|t| - 1]) by {
      if q != [] {
        LowerKeepsSpace(t[0]);
        LowerKeepsSpace(t[|t| - 1]);
      }
    }
    q
  }

  lemma LowerKeepsSpace(c: char)
    ensures IsJsSpace(LowerChar(c)) == IsJsSpace(c)
  {
  }

  /** A project passes the filter when its lower-cased
      `name_with_namespace` contains the query. */
  predicate Matches(q: string, p: Project) {
    Contains(Lower(p.nameWithNamespace), q)
  }

  /** The filter callback for query `q`. */
  function MatcherOf(q: string): Project -> bool {
    p => Matches(q, p)
  }

  /** `filterData`: every instance keeps its id and load date and only the
      projects that match the normalised query, which is returned beside
      the data. */
  function FilterData(datas: seq<GitlabProjects.GitlabData>, query: Option<string>): (r: (seq<GitlabProjects.GitlabData>, string))
    ensures r.1 == FilterQuery(query)
    ensures |r.0| == |datas|
    ensures forall i :: 0 <= i < |datas| ==> r.0[i].id == datas[i].id && r.0[i].loadDt == datas[i].loadDt
    ensures forall i :: 0 <= i < |datas| ==> r.0[i].projects == Filter(datas[i].projects, MatcherOf(r.1))
  {
    var q := FilterQuery(query);
    var filtered := seq(|datas|, i requires 0 <= i < |datas| =>
      GitlabProjects.GitlabData(datas[i].id, datas[i].loadDt, Filter(datas[i].projects, MatcherOf(q))));
    (filtered, q)
  }

  /** An instance keeps exactly the projects that match the query. */
  lemma FilterDataMembers(datas: seq<GitlabProjects.GitlabData>, query: Option<string>, i: nat, p: Project)
    requires i < |datas|
    ensures var r := FilterData(datas, query);
      p in r.0[i].projects <==> p in datas[i].projects && Matches(r.1, p)
  {
    var q := FilterQuery(query);
    FilterMembers(datas[i].projects, MatcherOf(q), p);
  }

  lemma {:induction false} FilterAll<T>(s: seq<T>, p: T -> bool)
    requires forall i :: 0 <= i < |s| ==> p(s[i])
    ensures Filter(s, p) == s
  {
    if s != [] {
      assert forall i :: 0 <= i < |s[1..]| ==> p(s[1..][i]) by {
        forall i | 0 <= i < |s[1..]| ensures p(s[1..][i]) {
          assert s[1..][i] == s[i + 1];
        }
      }
      FilterAll(s[1..], p);
      assert s == [s[0]] + s[1..];
    }
  }

  /** An empty (or blank, or `null`) query keeps every project. */
  lemma EmptyQueryKeepsAll(datas: seq<GitlabProjects.GitlabData>, query: Option<string>)
    requires FilterQuery(query) == ""
    ensures FilterData(datas, query).0 == datas
  {
    var r := FilterData(datas, query);
    forall i | 0 <= i < |datas|
      ensures r.0[i] == datas[i]
    {
      forall k | 0 <= k < |datas[i].projects|
        ensures Matches("", datas[i].projects[k])
      {
        ContainsEmpty(Lower(datas[i].projects[k].nameWithNamespace));
      }
      FilterAll(datas[i].projects, MatcherOf(""));
    }
  }

  // ---------------------------------------------------------------------
  // groupProjectByNamespaces
  // ---------------------------------------------------------------------

  /** `GitlabEntityValue`: the namespaces below (a `Map` from segment to
      value, in insertion order) and the projects placed here. */
  datatype Trie = Trie(namespaces: seq<NsEntry>, projects: seq<Project>)
  datatype NsEntry = NsEntry(name: string, sub: Trie)

  const NsNameSeparator := " / "

  function EmptyTrie(): Trie {
    Trie([], [])
  }

  /** Each segment is a key of its map at most once, at every level. */
  predicate WellFormed(t: Trie)
    decreases t
  {
    && (forall i, j :: 0 <= i < j < |t.namespaces| ==> t.namespaces[i].name != t.namespaces[j].name)
    && (forall i :: 0 <= i < |t.namespaces| ==> WellFormed(t.namespaces[i].sub))
  }

  /** The namespace path of a project: all but the last segment of its
      `name_with_namespace`, or `None` when there are fewer than two
      segments (the project is then skipped). */
  function NsPath(p: Project): (r: Option<seq<string>>)
    ensures r.None? <==> |Split(p.nameWithNamespace, NsNameSeparator)| < 2
    ensures r.Some? ==> |r.value| >= 1
    ensures r.Some? ==> var segs := Split(p.nameWithNamespace, NsNameSeparator);
              r.value + [segs[|segs| - 1]] == segs &&
              Join(r.value + [segs[|segs| - 1]], NsNameSeparator) == p.nameWithNamespace
  {
    var segs := Split(p.nameWithNamespace, NsNameSeparator);
    SplitJoin(p.nameWithNamespace, NsNameSeparator);
    if |segs| < 2 then None
    else
      assert segs[..|segs| - 1] + [segs[|segs| - 1]] == segs;
      Some(segs[..|segs| - 1])
  }

  /** `currentNsMap.has(name)`: the position of the segment in a map. */
  function NsIndex(es: seq<NsEntry>, name: string): (r: Option<nat>)
    ensures r.Some? ==> r.value < |es| && es[r.value].name == name
    ensures r.None? ==> forall i :: 0 <= i < |es| ==> es[i].name != name
  {
    if es == [] then None
    else if es[0].name == name then Some(0)
    else match NsIndex(es[1..], name)
      case None => None
      case Some(k) => Some(k + 1)
  }

  /** Walking the segments of `path`, creating each missing namespace, and
      pushing the project at the end of the walk. */
  function Insert(t: Trie, path: seq<string>, p: Project): (r: Trie)
    ensures path != [] ==> r.projects == t.projects
    decreases |path|
  {
    if path == [] then Trie(t.namespaces, t.projects + [p])
    else
      match NsIndex(t.namespaces, path[0])
      case Some(k) =>
        Trie(t.namespaces[k := NsEntry(path[0], Insert(t.namespaces[k].sub, path[1..], p))], t.projects)
      case None =>
        Trie(t.namespaces + [NsEntry(path[0], Insert(EmptyTrie(), path[1..], p))], t.projects)
  }

  /** One iteration of the `forEach` in `groupProjectByNamespaces`. */
  function Place(t: Trie, p: Project): (r: Trie)
    ensures r.projects == t.projects
  {
    match NsPath(p)
    case None => t
    case Some(path) => Insert(t, path, p)
  }

  /** `groupProjectByNamespaces`: the projects placed in order into an
      initially empty map; nothing is placed at the top level. */
  function GroupProjects(ps: seq<Project>): (r: Trie)
    ensures r.projects == []
    decreases |ps|
  {
    if ps == [] then EmptyTrie() else Place(GroupProjects(ps[..|ps| - 1]), ps[|ps| - 1])
  }

  /** The number of times `x` sits at namespace path `path`. */
  function Count(t: Trie, path: seq<string>, x: Project): nat
    decreases t
  {
    if path == [] then multiset(t.projects)[x] else CountEach(t.namespaces, path[0], path[1..], x)
  }

  function CountEach(es: seq<NsEntry>, name: string, rest: seq<string>, x: Project): nat
    decreases es
  {
    if es == [] then 0
    else (if es[0].name == name then Count(es[0].sub, rest, x) else 0) + CountEach(es[1..], name, rest, x)
  }

  function CountOf(e: NsEntry, name: string, rest: seq<string>, x: Project): nat {
    if e.name == name then Count(e.sub, rest, x) else 0
  }

  lemma {:induction false} CountEachSnoc(es: seq<NsEntry>, e: NsEntry, name: string, rest: seq<string>, x: Project)
    ensures CountEach(es + [e], name, rest, x) == CountEach(es, name, rest, x) + CountOf(e, name, rest, x)
  {
    if es == [] {
      assert [e][1..] == [];
    } else {
      assert (es + [e])[1..] == es[1..] + [e];
      CountEachSnoc(es[1..], e, name, rest, x);
    }
  }

  lemma {:induction false} CountEachUpdate(es: seq<NsEntry>, k: nat, e: NsEntry, name: string, rest: seq<string>, x: Project)
    requires k < |es|
    ensures CountEach(es[k := e], name, rest, x) + CountOf(es[k], name, rest, x)
         == CountEach(es, name, rest, x) + CountOf(e, name, rest, x)
  {
    if k > 0 {
      assert es[k := e][1..] == es[1..][k - 1 := e];
      CountEachUpdate(es[1..], k - 1, e, name, rest, x);
    } else {
      assert es[k := e][1..] == es[1..];
    }
  }

  lemma {:induction false} CountEmpty(path: seq<string>, x: Project)
    ensures Count(EmptyTrie(), path, x) == 0
  {
  }

  /** Inserting `p` at `path` adds exactly one occurrence of `p` at `path`
      and changes no other count. */
  lemma {:induction false} InsertCount(t: Trie, path: seq<string>, p: Project, q: seq<string>, x: Project)
    ensures Count(Insert(t, path, p), q, x) == Count(t, q, x) + (if q == path && x == p then 1 else 0)
    decreases |path|
  {
    if path == [] {
      if q == [] {
        assert multiset(t.projects + [p]) == multiset(t.projects) + multiset{p};
      }
    } else if q != [] {
      var r := Insert(t, path, p);
      var tail := q[1..];
      assert q == path <==> q[0] == path[0] && tail == path[1..] by {
        if q[0] == path[0] && tail == path[1..] {
          assert q == [q[0]] + tail && path == [path[0]] + path[1..];
        }
      }
      match NsIndex(t.namespaces, path[0])
      case Some(k) =>
        var e := NsEntry(path[0], Insert(t.namespaces[k].sub, path[1..], p));
        CountEachUpdate(t.namespaces, k, e, q[0], tail, x);
        InsertCount(t.namespaces[k].sub, path[1..], p, tail, x);
      case None =>
        var e := NsEntry(path[0], Insert(EmptyTrie(), path[1..], p));
        CountEachSnoc(t.namespaces, e, q[0], tail, x);
        InsertCount(EmptyTrie(), path[1..], p, tail, x);
        CountEmpty(tail, x);
    }
  }

  /** Inserting keeps every level free of repeated segments. */
  lemma {:induction false} InsertWellFormed(t: Trie, path: seq<string>, p: Project)
    requires WellFormed(t)
    ensures WellFormed(Insert(t, path, p))
    decreases |path|
  {
    if path != [] {
      match NsIndex(t.namespaces, path[0])
      case Some(k) =>
        InsertWellFormed(t.namespaces[k].sub, path[1..], p);
      case None =>
        InsertWellFormed(EmptyTrie(), path[1..], p);
    }
  }

  /** Grouping places each project with at least two segments under its
      namespace path, once per occurrence in the input, and nowhere else;
      a project with fewer segments appears nowhere. */
  lemma {:induction false} GroupProjectsPlacement(ps: seq<Project>, q: seq<string>, x: Project)
    ensures Count(GroupProjects(ps), q, x) == (if NsPath(x) == Some(q) then multiset(ps)[x] else 0)
    decreases |ps|
  {
    if ps == [] {
      CountEmpty(q, x);
    } else {
      var init := ps[..|ps| - 1];
      var last := ps[|ps| - 1];
      assert ps == init + [last];
      assert multiset(ps) == multiset(init) + multiset{last};
      GroupProjectsPlacement(init, q, x);
      match NsPath(last)
      case None =>
      case Some(path) =>
        InsertCount(GroupProjects(init), path, last, q, x);
    }
  }

  /** Every level of the grouping has each segment once. */
  lemma {:induction false} GroupProjectsWellFormed(ps: seq<Project>)
    ensures WellFormed(GroupProjects(ps))
    decreases |ps|
  {
    if ps != [] {
      var init := ps[..|ps| - 1];
      GroupProjectsWellFormed(init);
      match NsPath(ps[|ps| - 1])
      case None =>
      case Some(path) =>
        InsertWellFormed(GroupProjects(init), path, ps[|ps| - 1]);
    }
  }

  // ---------------------------------------------------------------------
  // convertGroupedByNsToNode / putToNode (the tree shape)
  // ---------------------------------------------------------------------

  function EntryName(e: NsEntry): string {
    e.name
  }

  function ProjectName(p: Project): string {
    p.name
  }

  function ItemName(n: TreeNode): string {
    match n.item
    case GitlabRoot(id) => id
    case Namespace(_, name) => name
    case ProjectItem(_, p) => p.name
  }

  predicate StrLt(a: string, b: string) {
    StrLe(a, b) && a != b
  }

  /** The order `putToNode` leaves siblings in: namespaces before projects,
      namespaces by strictly increasing name, projects by non-decreasing
      name; projects are leaves. */
  predicate Before(a: TreeNode, b: TreeNode) {
    match (a.item, b.item)
    case (Namespace(_, x), Namespace(_, y)) => StrLt(x, y)
    case (Namespace(_, _), ProjectItem(_, _)) => true
    case (ProjectItem(_, p), ProjectItem(_, q)) => StrLe(p.name, q.name)
    case _ => false
  }

  predicate Layered(cs: seq<TreeNode>) {
    && (forall i, j :: 0 <= i < j < |cs| ==> Before(cs[i], cs[j]))
    && (forall i :: 0 <= i < |cs| ==> cs[i].item.ProjectItem? ==> cs[i].children == [])
  }

  /** Every node of the tree has layered children. */
  predicate WellOrdered(n: TreeNode)
    decreases n
  {
    Layered(n.children) && forall i :: 0 <= i < |n.children| ==> WellOrdered(n.children[i])
  }

  /** The sorted projects of a level as leaf nodes. */
  function ProjectLeaves(gitlabId: string, ps: seq<Project>): (r: seq<TreeNode>)
    ensures |r| == |ps|
    ensures forall i :: 0 <= i < |ps| ==> r[i] == TreeNode(ProjectItem(gitlabId, ps[i]), [])
  {
    seq(|ps|, i requires 0 <= i < |ps| => TreeNode(ProjectItem(gitlabId, ps[i]), []))
  }

  /** `putToNode` applied from `node` down: the namespace children, their
      keys taken in sorted order, then the projects sorted by name. The
      stack of `convertGroupedByNsToNode` only fixes the order in which the
      nodes are filled in, not their contents. */
  function Convert(gitlabId: string, item: Item, t: Trie): (n: TreeNode)
    ensures n.item == item
    decreases t, 2
  {
    TreeNode(item, NamespaceChildren(gitlabId, t) + ProjectLeaves(gitlabId, SortBy(t.projects, ProjectName)))
  }

  /** The namespace children of a level: one converted node per segment,
      in sorted order of the segments. */
  function NamespaceChildren(gitlabId: string, t: Trie): (r: seq<TreeNode>)
    ensures |r| == |t.namespaces|
    decreases t, 1
  {
    var es := SortBy(t.namespaces, EntryName);
    SortedMembers(t.namespaces, es);
    seq(|es|, i requires 0 <= i < |es| => ConvertEntry(gitlabId, es[i], t))
  }

  /** The node of one segment of `parent`, holding its sub-grouping. */
  function ConvertEntry(gitlabId: string, e: NsEntry, ghost parent: Trie): (r: TreeNode)
    requires e in parent.namespaces
    ensures r.item == Namespace(gitlabId, e.name)
    decreases parent, 0
  {
    assert e.sub < e;
    Convert(gitlabId, Namespace(gitlabId, e.name), e.sub)
  }

  /** The `i`-th namespace child converts the `i`-th segment in sorted
      order. */
  lemma NamespaceChildAt(gitlabId: string, t: Trie, i: nat)
    requires i < |t.namespaces|
    ensures var es := SortBy(t.namespaces, EntryName);
      es[i] in t.namespaces &&
      NamespaceChildren(gitlabId, t)[i] == Convert(gitlabId, Namespace(gitlabId, es[i].name), es[i].sub)
  {
    SortedMembers(t.namespaces, SortBy(t.namespaces, EntryName));
  }

  /** A converted level has one child per segment and per project. */
  lemma ConvertLength(gitlabId: string, item: Item, t: Trie)
    ensures |Convert(gitlabId, item, t).children| == |t.namespaces| + |t.projects|
  {
  }

  /** A converted level starts with one node per segment, each a namespace
      of the same instance. */
  lemma ConvertNamespaceChildren(gitlabId: string, item: Item, t: Trie)
    ensures var n := Convert(gitlabId, item, t);
      forall i :: 0 <= i < |t.namespaces| ==> n.children[i].item.Namespace? && n.children[i].item.gitlabId == gitlabId
  {
    var cs := Convert(gitlabId, item, t).children;
    forall i | 0 <= i < |t.namespaces|
      ensures cs[i].item.Namespace? && cs[i].item.gitlabId == gitlabId
    {
      NamespaceChildAt(gitlabId, t, i);
      assert cs[i] == NamespaceChildren(gitlabId, t)[i];
    }
  }

  /** A converted level ends with one leaf per project, of the same
      instance. */
  lemma ConvertProjectChildren(gitlabId: string, item: Item, t: Trie)
    ensures var n := Convert(gitlabId, item, t);
      forall i :: |t.namespaces| <= i < |n.children| ==>
        n.children[i].item.ProjectItem? && n.children[i].item.gitlabId == gitlabId && n.children[i].children == []
  {
    var leaves := ProjectLeaves(gitlabId, SortBy(t.projects, ProjectName));
    var cs := Convert(gitlabId, item, t).children;
    forall i | |t.namespaces| <= i < |cs|
      ensures cs[i].item.ProjectItem? && cs[i].item.gitlabId == gitlabId && cs[i].children == []
    {
      var leaf := leaves[i - |t.namespaces|];
      assert cs[i] == leaf;
    }
  }

  lemma SortedMembers(s: seq<NsEntry>, r: seq<NsEntry>)
    requires multiset(r) == multiset(s)
    ensures forall i :: 0 <= i < |r| ==> r[i] in s
  {
    forall i | 0 <= i < |r| ensures r[i] in s {
      assert r[i] in multiset(r);
    }
  }

  /** One converted level: its namespace children carry the level's
      segments, as a permutation. */
  lemma ConvertLevelNamespaces(gitlabId: string, item: Item, t: Trie)
    ensures var n := Convert(gitlabId, item, t);
            multiset(MapSeq(n.children[..|t.namespaces|], ItemName)) == multiset(MapSeq(t.namespaces, EntryName))
  {
    var n := Convert(gitlabId, item, t);
    var es := SortBy(t.namespaces, EntryName);
    SortedMembers(t.namespaces, es);
    var nsNodes := NamespaceChildren(gitlabId, t);
    assert n.children[..|t.namespaces|] == nsNodes;
    assert MapSeq(nsNodes, ItemName) == MapSeq(es, EntryName) by {
      forall i | 0 <= i < |es| ensures ItemName(nsNodes[i]) == EntryName(es[i]) {
        assert nsNodes[i] == ConvertEntry(gitlabId, es[i], t);
      }
    }
    MapSeqPermutation(es, t.namespaces, EntryName);
  }

  /** One converted level: its project leaves carry the level's projects,
      as a permutation. */
  lemma ConvertLevelProjects(gitlabId: string, item: Item, t: Trie)
    ensures var n := Convert(gitlabId, item, t);
            multiset(MapSeq(n.children[|t.namespaces|..], LeafProject)) == multiset(t.projects)
  {
    var n := Convert(gitlabId, item, t);
    var es := SortBy(t.namespaces, EntryName);
    SortedMembers(t.namespaces, es);
    var ps := SortBy(t.projects, ProjectName);
    assert n.children[|t.namespaces|..] == ProjectLeaves(gitlabId, ps);
    assert MapSeq(ProjectLeaves(gitlabId, ps), LeafProject) == ps;
  }

  /** The project of a leaf; a placeholder for other nodes. */
  function LeafProject(n: TreeNode): Project {
    if n.item.ProjectItem? then n.item.project else Project(0, "", "", "")
  }

  /** A level whose segments are distinct converts to layered children. */
  lemma ConvertLayered(gitlabId: string, item: Item, t: Trie)
    requires forall i, j :: 0 <= i < j < |t.namespaces| ==> t.namespaces[i].name != t.namespaces[j].name
    ensures Layered(Convert(gitlabId, item, t).children)
  {
    ConvertProjectChildren(gitlabId, item, t);
    var cs := Convert(gitlabId, item, t).children;
    var es := SortBy(t.namespaces, EntryName);
    var ps := SortBy(t.projects, ProjectName);
    SortedMembers(t.namespaces, es);
    SortByOrdered(t.namespaces, EntryName);
    SortByOrdered(t.projects, ProjectName);
    var nsNodes := NamespaceChildren(gitlabId, t);
    var leaves := ProjectLeaves(gitlabId, ps);
    assert cs == nsNodes + leaves;
    forall i | 0 <= i < |es| ensures cs[i].item == Namespace(gitlabId, es[i].name) {
      assert cs[i] == nsNodes[i] == ConvertEntry(gitlabId, es[i], t);
    }
    forall i | |es| <= i < |cs| ensures cs[i].item == ProjectItem(gitlabId, ps[i - |es|]) {
      assert cs[i] == leaves[i - |es|];
    }
    forall i, j | 0 <= i < j < |cs| ensures Before(cs[i], cs[j]) {
      if j < |es| {
        assert StrLe(es[i].name, es[j].name);
        DistinctInSorted(t.namespaces, es, i, j);
      } else if i >= |es| {
        assert StrLe(ps[i - |es|].name, ps[j - |es|].name);
      }
    }
  }

  /** Converting a grouping without repeated segments gives a tree whose
      every node has layered children. */
  lemma {:induction false} ConvertOrdered(gitlabId: string, item: Item, t: Trie)
    requires WellFormed(t)
    ensures WellOrdered(Convert(gitlabId, item, t))
    decreases t
  {
    ConvertLayered(gitlabId, item, t);
    ConvertProjectChildren(gitlabId, item, t);
    var cs := Convert(gitlabId, item, t).children;
    forall i | 0 <= i < |cs| ensures WellOrdered(cs[i]) {
      if i < |t.namespaces| {
        NamespaceChildAt(gitlabId, t, i);
        var e := SortBy(t.namespaces, EntryName)[i];
        var a :| 0 <= a < |t.namespaces| && t.namespaces[a] == e;
        assert WellFormed(e.sub);
        assert e.sub < e;
        ConvertOrdered(gitlabId, Namespace(gitlabId, e.name), e.sub);
        assert cs[i] == NamespaceChildren(gitlabId, t)[i];
      } else {
        assert cs[i].children == [];
      }
    }
  }

  /** In a permutation of a sequence without repeated names, two positions
      hold different names. */
  lemma DistinctInSorted(s: seq<NsEntry>, r: seq<NsEntry>, i: nat, j: nat)
    requires forall x, y :: 0 <= x < y < |s| ==> s[x].name != s[y].name
    requires multiset(r) == multiset(s)
    requires i < j < |r|
    ensures r[i].name != r[j].name
  {
    assert r[i] in multiset(s) && r[j] in multiset(s);
    var a :| 0 <= a < |s| && s[a] == r[i];
    var b :| 0 <= b < |s| && s[b] == r[j];
    if a == b {
      MultisetOnce(s, a);
      CountTwo(r, i, j);
    }
  }

  lemma CountTwo<T>(r: seq<T>, i: nat, j: nat)
    requires i < j < |r| && r[i] == r[j]
    ensures multiset(r)[r[i]] >= 2
  {
    assert r == r[..i] + [r[i]] + r[i + 1..j] + [r[j]] + r[j + 1..];
  }

  /** An element of a sequence without repeated names occurs once. */
  lemma MultisetOnce(s: seq<NsEntry>, x: nat)
    requires forall a, b :: 0 <= a < b < |s| ==> s[a].name != s[b].name
    requires x < |s|
    ensures multiset(s)[s[x]] == 1
  {
    assert s == s[..x] + [s[x]] + s[x + 1..];
    assert s[x] !in s[..x] by {
      forall a | 0 <= a < x ensures s[..x][a] != s[x] { assert s[..x][a] == s[a]; }
    }
    assert s[x] !in s[x + 1..] by {
      var tail := s[x + 1..];
      forall a | 0 <= a < |tail| ensures tail[a] != s[x] {
        assert tail[a] == s[x + 1 + a];
      }
    }
  }

  function MapSeq<T, U>(s: seq<T>, f: T -> U): (r: seq<U>)
    ensures |r| == |s|
    ensures forall i :: 0 <= i < |s| ==> r[i] == f(s[i])
  {
    seq(|s|, i requires 0 <= i < |s| => f(s[i]))
  }

  lemma RemoveAt<T>(s: seq<T>, k: nat)
    requires k < |s|
    ensures multiset(s[..k] + s[k + 1..]) == multiset(s) - multiset{s[k]}
  {
    assert s == s[..k] + [s[k]] + s[k + 1..];
  }

  lemma MapSeqConcat<T, U>(a: seq<T>, b: seq<T>, f: T -> U)
    ensures MapSeq(a + b, f) == MapSeq(a, f) + MapSeq(b, f)
  {
  }

  /** Mapping a sequence with one element taken out. */
  lemma MapSeqSplit<T, U>(pre: seq<T>, x: T, post: seq<T>, f: T -> U)
    ensures multiset(MapSeq(pre + [x] + post, f)) == multiset{f(x)} + multiset(MapSeq(pre + post, f))
  {
    MapSeqConcat(pre + [x], post, f);
    MapSeqConcat(pre, [x], f);
    MapSeqConcat(pre, post, f);
  }

  /** Mapping a permutation gives a permutation. */
  lemma {:induction false} MapSeqPermutation<T, U>(a: seq<T>, b: seq<T>, f: T -> U)
    requires multiset(a) == multiset(b)
    ensures multiset(MapSeq(a, f)) == multiset(MapSeq(b, f))
    decreases |a|
  {
    if a == [] {
      assert b == [];
    } else {
      var x := a[0];
      assert x in multiset(b);
      var k :| 0 <= k < |b| && b[k] == x;
      var pre, post := b[..k], b[k + 1..];
      assert b == pre + [x] + post;
      assert a == [] + [x] + a[1..];
      RemoveAt(a, 0);
      RemoveAt(b, k);
      assert a[..0] + a[1..] == a[1..];
      MapSeqPermutation(a[1..], pre + post, f);
      MapSeqSplit([], x, a[1..], f);
      MapSeqSplit(pre, x, post, f);
      assert [] + a[1..] == a[1..];
    }
  }
}
