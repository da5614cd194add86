/** The second half of `convertGroupedByNsToNode`: the leaf set of every
    node, computed by a work queue seeded with the leaves and walking up
    through parent links. A node is named by its path of child indexes from
    the root, its parent by the path without the last index, and a JS `Set`
    by its insertion-ordered sequence of distinct elements. */
module LeafDescendants {
  import opened Seqs
  import opened GitlabModel
  import opened NamespaceTree
  import GitlabProjects

  type Path = seq<nat>

  // ---------------------------------------------------------------------
  // Paths in a tree
  // ---------------------------------------------------------------------

  predicate IsNode(t: TreeNode, p: Path)
    decreases p
  {
    p == [] || (p[0] < |t.children| && IsNode(t.children[p[0]], p[1..]))
  }

  function Sub(t: TreeNode, p: Path): TreeNode
    requires IsNode(t, p)
    decreases p
  {
    if p == [] then t else Sub(t.children[p[0]], p[1..])
  }

  predicate IsLeaf(t: TreeNode, p: Path) {
    IsNode(t, p) && Sub(t, p).children == []
  }

  predicate Prefix(a: Path, b: Path) {
    |a| <= |b| && b[..|a|] == a
  }

  predicate StrictPrefix(a: Path, b: Path) {
    |a| < |b| && b[..|a|] == a
  }

  function Parent(p: Path): Path
    requires p != []
  {
    p[..|p| - 1]
  }

  /** Reference definition: the leaves strictly below `p`. */
  predicate LeafBelow(t: TreeNode, p: Path, l: Path) {
    IsLeaf(t, l) && StrictPrefix(p, l)
  }

  /** Every path of the tree. */
  function AllPaths(t: TreeNode): set<Path>
    decreases t
  {
    {[]} + ChildPaths(t.children, 0)
  }

  function ChildPaths(cs: seq<TreeNode>, from: nat): set<Path>
    decreases cs
  {
    if cs == [] then {} else (set q | q in AllPaths(cs[0]) :: [from] + q) + ChildPaths(cs[1..], from + 1)
  }

  lemma {:induction false} ChildPathsMembers(cs: seq<TreeNode>, from: nat, p: Path)
    ensures p in ChildPaths(cs, from) <==> p != [] && from <= p[0] < from + |cs| && p[1..] in AllPaths(cs[p[0] - from])
    decreases cs
  {
    if cs != [] {
      ChildPathsMembers(cs[1..], from + 1, p);
      if p != [] && p[0] == from && p[1..] in AllPaths(cs[0]) {
        assert p == [from] + p[1..];
      }
      if p != [] && from + 1 <= p[0] < from + |cs| {
        assert cs[1..][p[0] - (from + 1)] == cs[p[0] - from];
      }
    }
  }

  /** `AllPaths` lists exactly the nodes. */
  lemma {:induction false} AllPathsAreNodes(t: TreeNode, p: Path)
    ensures p in AllPaths(t) <==> IsNode(t, p)
    decreases p
  {
    ChildPathsMembers(t.children, 0, p);
    if p != [] && p[0] < |t.children| {
      AllPathsAreNodes(t.children[p[0]], p[1..]);
    }
  }

  lemma {:induction false} ParentIsNode(t: TreeNode, p: Path)
    requires IsNode(t, p) && p != []
    ensures IsNode(t, Parent(p))
    decreases p
  {
    if |p| > 1 {
      ParentIsNode(t.children[p[0]], p[1..]);
      assert Parent(p) == [p[0]] + Parent(p[1..]);
    }
  }

  /** Below a leaf there is no node. */
  lemma {:induction false} NothingBelowLeaf(t: TreeNode, l: Path, x: Path)
    requires IsLeaf(t, l) && StrictPrefix(l, x)
    ensures !IsNode(t, x)
    decreases l
  {
    if l != [] && IsNode(t, x) {
      assert x[0] == l[0];
      assert x[1..][..|l[1..]|] == l[1..];
      NothingBelowLeaf(t.children[l[0]], l[1..], x[1..]);
    }
  }

  // ---------------------------------------------------------------------
  // getAllLeafDescendants
  // ---------------------------------------------------------------------

  function PrefixAll(i: nat, ps: seq<Path>): (r: seq<Path>)
    ensures |r| == |ps|
    ensures forall k :: 0 <= k < |ps| ==> r[k] == [i] + ps[k]
  {
    seq(|ps|, k requires 0 <= k < |ps| => [i] + ps[k])
  }

  /** `getAllLeafDescendants(node)`: a stack seeded with the node; a popped
      node with children pushes them all, a childless one is collected. The
      last child's leaves therefore come first. */
  function LeafOrder(t: TreeNode): seq<Path>
    decreases t
  {
    if t.children == [] then [[]] else ChildLeafOrder(t.children, 0)
  }

  function ChildLeafOrder(cs: seq<TreeNode>, from: nat): seq<Path>
    decreases cs
  {
    if cs == [] then [] else ChildLeafOrder(cs[1..], from + 1) + PrefixAll(from, LeafOrder(cs[0]))
  }

  lemma {:induction false} ChildLeafOrderMembers(cs: seq<TreeNode>, from: nat, p: Path)
    ensures p in ChildLeafOrder(cs, from) <==> p != [] && from <= p[0] < from + |cs| && p[1..] in LeafOrder(cs[p[0] - from])
    decreases cs
  {
    if cs != [] {
      ChildLeafOrderMembers(cs[1..], from + 1, p);
      var here := PrefixAll(from, LeafOrder(cs[0]));
      if p in here {
        var k :| 0 <= k < |here| && here[k] == p;
        assert p[1..] == LeafOrder(cs[0])[k];
      }
      if p != [] && p[0] == from && p[1..] in LeafOrder(cs[0]) {
        var k :| 0 <= k < |LeafOrder(cs[0])| && LeafOrder(cs[0])[k] == p[1..];
        assert p == [from] + p[1..];
        assert here[k] == p;
      }
      if p != [] && from + 1 <= p[0] < from + |cs| {
        assert cs[1..][p[0] - (from + 1)] == cs[p[0] - from];
      }
    }
  }

  /** The stack walk collects exactly the leaves. */
  lemma {:induction false} LeafOrderIsLeaves(t: TreeNode, p: Path)
    ensures p in LeafOrder(t) <==> IsLeaf(t, p)
    decreases p
  {
    if t.children != [] {
      ChildLeafOrderMembers(t.children, 0, p);
      if p != [] && p[0] < |t.children| {
        LeafOrderIsLeaves(t.children[p[0]], p[1..]);
      }
    }
  }

  // ---------------------------------------------------------------------
  // The propagation queue
  // ---------------------------------------------------------------------

  /** `set.add(x)` on an insertion-ordered set. */
  function SetAdd(s: seq<Path>, x: Path): (r: seq<Path>)
    ensures forall y :: y in r <==> y in s || y == x
    ensures Distinct(s) ==> Distinct(r)
    ensures |r| >= |s|
  {
    if x in s then s else s + [x]
  }

  /** `set.add(x)` for each `x` of `xs`, in order. */
  function SetAddAll(s: seq<Path>, xs: seq<Path>): (r: seq<Path>)
    ensures forall y :: y in r <==> y in s || y in xs
    ensures Distinct(s) ==> Distinct(r)
    ensures |r| >= |s|
    decreases |xs|
  {
    if xs == [] then s else SetAddAll(SetAdd(s, xs[0]), xs[1..])
  }

  /** The leaf sets (keyed by node) and the queue. */
  datatype Propagation = Propagation(desc: map<Path, seq<Path>>, queue: seq<Path>)

  predicate StepReady(st: Propagation) {
    && st.queue != []
    && st.queue[0] in st.desc
    && (st.queue[0] != [] ==> Parent(st.queue[0]) in st.desc)
  }

  /** One turn of the loop: take the head; a root is skipped; otherwise the
      parent's set receives the node itself when the node's set is empty,
      and the node's set otherwise; the parent is queued unless the rest of
      the queue already holds it. */
  function Step(st: Propagation): (r: Propagation)
    requires StepReady(st)
    ensures r.desc.Keys == st.desc.Keys
  {
    var q := st.queue[0];
    var rest := st.queue[1..];
    if q == [] then Propagation(st.desc, rest)
    else
      var parent := Parent(q);
      var grown := if |st.desc[q]| == 0 then SetAdd(st.desc[parent], q) else SetAddAll(st.desc[parent], st.desc[q]);
      Propagation(st.desc[parent := grown], if parent in rest then rest else rest + [parent])
  }

  /** The loop's starting point: every set empty, the leaves queued in the
      order `getAllLeafDescendants` returns them. */
  function Start(t: TreeNode): (st: Propagation) {
    Propagation(map p | p in AllPaths(t) :: [], LeafOrder(t))
  }

  /** `l` is known at `q`: `q` is `l` itself or its set holds `l`. */
  predicate Has(st: Propagation, q: Path, l: Path) {
    q == l || (q in st.desc && l in st.desc[q])
  }

  /** Leaf `l` has reached ancestor `a`, or is on its way: some queued node
      between them knows it. */
  ghost predicate Covered(st: Propagation, a: Path, l: Path) {
    Has(st, a, l) || exists k :: 0 <= k < |st.queue| && StrictPrefix(a, st.queue[k]) && Prefix(st.queue[k], l) && Has(st, st.queue[k], l)
  }

  ghost predicate Inv(t: TreeNode, st: Propagation) {
    && (forall p :: p in st.desc <==> IsNode(t, p))
    && (forall k :: 0 <= k < |st.queue| ==> IsNode(t, st.queue[k]))
    && (forall p, l :: p in st.desc && l in st.desc[p] ==> LeafBelow(t, p, l))
    && (forall p :: p in st.desc ==> Distinct(st.desc[p]))
    && (forall k :: 0 <= k < |st.queue| ==> IsLeaf(t, st.queue[k]) || |st.desc[st.queue[k]]| > 0)
    && (forall a, l :: LeafBelow(t, a, l) ==> Covered(st, a, l))
  }

  /** The loop's variant: each queued node weighs its depth plus one. */
  function Weight(queue: seq<Path>): nat {
    if queue == [] then 0 else |queue[0]| + 1 + Weight(queue[1..])
  }

  lemma {:induction false} WeightSnoc(queue: seq<Path>, p: Path)
    ensures Weight(queue + [p]) == Weight(queue) + |p| + 1
  {
    if queue == [] {
      assert [p][1..] == [];
    } else {
      assert (queue + [p])[1..] == queue[1..] + [p];
      WeightSnoc(queue[1..], p);
    }
  }

  lemma StepDecreases(st: Propagation)
    requires StepReady(st)
    ensures Weight(Step(st).queue) < Weight(st.queue)
  {
    var q := st.queue[0];
    if q != [] && Parent(q) !in st.queue[1..] {
      WeightSnoc(st.queue[1..], Parent(q));
    }
  }

  lemma StartInv(t: TreeNode)
    ensures Inv(t, Start(t))
  {
    var st := Start(t);
    forall p ensures p in st.desc <==> IsNode(t, p) {
      AllPathsAreNodes(t, p);
    }
    forall k | 0 <= k < |st.queue| ensures IsLeaf(t, st.queue[k]) {
      LeafOrderIsLeaves(t, st.queue[k]);
    }
    forall a, l | LeafBelow(t, a, l) ensures Covered(st, a, l) {
      LeafOrderIsLeaves(t, l);
      var k :| 0 <= k < |st.queue| && st.queue[k] == l;
      assert Prefix(l, l);
      assert Has(st, st.queue[k], l);
    }
  }

  lemma PrefixTrans(a: Path, b: Path, c: Path)
    requires Prefix(a, b) && Prefix(b, c)
    ensures Prefix(a, c)
  {
    assert c[..|a|] == c[..|b|][..|a|];
  }

  lemma ParentPrefix(q: Path)
    requires q != []
    ensures StrictPrefix(Parent(q), q)
  {
  }

  /** An ancestor of `q` other than its parent is an ancestor of the
      parent. */
  lemma AboveParent(a: Path, q: Path)
    requires StrictPrefix(a, q) && a != Parent(q)
    ensures StrictPrefix(a, Parent(q))
  {
    assert Parent(q)[..|a|] == q[..|a|];
  }

  /** The step never shrinks a set. */
  lemma StepGrows(st: Propagation, p: Path, l: Path)
    requires StepReady(st)
    requires p in st.desc && l in st.desc[p]
    ensures l in Step(st).desc[p]
  {
  }

  /** The head's knowledge moves to its parent. */
  lemma StepInforms(t: TreeNode, st: Propagation, l: Path)
    requires Inv(t, st) && StepReady(st)
    requires st.queue[0] != [] && Has(st, st.queue[0], l) && IsLeaf(t, l)
    ensures l in Step(st).desc[Parent(st.queue[0])]
  {
    var q := st.queue[0];
    if |st.desc[q]| > 0 && q == l {
      var x := st.desc[q][0];
      assert LeafBelow(t, q, x);
      NothingBelowLeaf(t, q, x);
    }
  }

  lemma StepCovers(t: TreeNode, st: Propagation, a: Path, l: Path)
    requires Inv(t, st) && StepReady(st) && LeafBelow(t, a, l)
    ensures Covered(Step(st), a, l)
  {
    var r := Step(st);
    if Has(st, a, l) {
      if a != l {
        StepGrows(st, a, l);
      }
      assert Has(r, a, l);
    } else {
      var k :| 0 <= k < |st.queue| && StrictPrefix(a, st.queue[k]) && Prefix(st.queue[k], l) && Has(st, st.queue[k], l);
      var w := st.queue[k];
      if k > 0 {
        assert r.queue[k - 1] == w;
        if w != l {
          StepGrows(st, w, l);
        }
        assert Has(r, w, l);
      } else {
        var parent := Parent(w);
        StepInforms(t, st, l);
        assert Has(r, parent, l);
        if a != parent {
          AboveParent(a, w);
          ParentPrefix(w);
          PrefixTrans(parent, w, l);
          var j :| 0 <= j < |r.queue| && r.queue[j] == parent;
          assert StrictPrefix(a, r.queue[j]) && Prefix(r.queue[j], l) && Has(r, r.queue[j], l);
        }
      }
    }
  }

  lemma StepSound(t: TreeNode, st: Propagation, p: Path, l: Path)
    requires Inv(t, st) && StepReady(st)
    requires p in Step(st).desc && l in Step(st).desc[p]
    ensures LeafBelow(t, p, l)
  {
    var q := st.queue[0];
    if q != [] && p == Parent(q) && l !in st.desc[p] {
      ParentPrefix(q);
      if |st.desc[q]| == 0 {
        assert l == q;
      } else {
        assert l in st.desc[q];
        assert LeafBelow(t, q, l);
        PrefixTrans(p, q, l);
      }
    }
  }

  lemma StepInv(t: TreeNode, st: Propagation)
    requires Inv(t, st) && st.queue != []
    ensures StepReady(st)
    ensures Inv(t, Step(st))
  {
    var q := st.queue[0];
    if q != [] {
      ParentIsNode(t, q);
    }
    var r := Step(st);
    forall k | 0 <= k < |r.queue| ensures IsNode(t, r.queue[k]) && (IsLeaf(t, r.queue[k]) || |r.desc[r.queue[k]]| > 0) {
      if k < |st.queue| - 1 {
        assert r.queue[k] == st.queue[k + 1];
      } else {
        assert r.queue[k] == Parent(q);
      }
    }
    forall p, l | p in r.desc && l in r.desc[p] ensures LeafBelow(t, p, l) {
      StepSound(t, st, p, l);
    }
    forall a, l | LeafBelow(t, a, l) ensures Covered(r, a, l) {
      StepCovers(t, st, a, l);
    }
  }

  /** The queue has run dry: every set holds exactly the leaves strictly
      below its node. */
  lemma FinishedExact(t: TreeNode, st: Propagation, p: Path, l: Path)
    requires Inv(t, st) && st.queue == [] && IsNode(t, p)
    ensures l in st.desc[p] <==> LeafBelow(t, p, l)
  {
    if LeafBelow(t, p, l) {
      assert Covered(st, p, l);
    }
  }

  /** The loop of `convertGroupedByNsToNode`: afterwards every node's set
      holds, without repetition, exactly the childless nodes strictly below
      it; a root without children gets an empty set. */
  method ComputeLeafDescendants(t: TreeNode) returns (desc: map<Path, seq<Path>>)
    ensures forall p :: p in desc <==> IsNode(t, p)
    ensures forall p, l :: p in desc ==> (l in desc[p] <==> LeafBelow(t, p, l))
    ensures forall p :: p in desc ==> Distinct(desc[p])
  {
    var st := Start(t);
    StartInv(t);
    while st.queue != []
      invariant Inv(t, st)
      decreases Weight(st.queue)
    {
      StepInv(t, st);
      StepDecreases(st);
      st := Step(st);
    }
    forall p, l | p in st.desc ensures l in st.desc[p] <==> LeafBelow(t, p, l) {
      FinishedExact(t, st, p, l);
    }
    desc := st.desc;
  }

  // ---------------------------------------------------------------------
  // getTreeNodes
  // ---------------------------------------------------------------------

  /** A converted instance: its root and the leaf set of every node. */
  datatype GitlabTree = GitlabTree(root: TreeNode, leafDescendants: map<Path, seq<Path>>)

  /** The leaf sets are the ones the loop computes. */
  ghost predicate ValidTree(g: GitlabTree) {
    && (forall p :: p in g.leafDescendants <==> IsNode(g.root, p))
    && (forall p, l :: p in g.leafDescendants ==> (l in g.leafDescendants[p] <==> LeafBelow(g.root, p, l)))
    && (forall p :: p in g.leafDescendants ==> Distinct(g.leafDescendants[p]))
  }

  /** The root node built for one instance: its projects grouped by
      namespace and converted under a root for the instance id. */
  function RootOf(data: GitlabProjects.GitlabData): (root: TreeNode)
    ensures root.item == GitlabRoot(data.id) && WellOrdered(root)
  {
    GroupProjectsWellFormed(data.projects);
    ConvertOrdered(data.id, GitlabRoot(data.id), GroupProjects(data.projects));
    Convert(data.id, GitlabRoot(data.id), GroupProjects(data.projects))
  }

  /** A root together with the leaf sets of its nodes. */
  method TreeOf(root: TreeNode) returns (g: GitlabTree)
    ensures ValidTree(g) && g.root == root
  {
    var desc := ComputeLeafDescendants(root);
    g := GitlabTree(root, desc);
  }

  /** `getTreeNodes`: one tree per instance, in order. */
  method GetTreeNodes(datas: seq<GitlabProjects.GitlabData>) returns (trees: seq<GitlabTree>)
    ensures |trees| == |datas|
    ensures forall i :: 0 <= i < |datas| ==> ValidTree(trees[i]) && trees[i].root == RootOf(datas[i])
  {
    trees := [];
    var i := 0;
    while i < |datas|
      invariant 0 <= i <= |datas| && |trees| == i
      invariant forall j :: 0 <= j < i ==> ValidTree(trees[j]) && trees[j].root == RootOf(datas[j])
    {
      var g := TreeOf(RootOf(datas[i]));
      trees := trees + [g];
      i := i + 1;
    }
  }
}
