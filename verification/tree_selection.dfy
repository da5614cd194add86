/** The selection side of `SearchFormComponent`. It covers:
    - the tri-state checkbox predicates over a node's leaf set;
    - the checkbox toggle;
    - the projects the form emits;
    - what happens to the selection when the input data or the filter
      query changes.
    The component builds its `SelectionModelTrackBy` in multiple mode and
    keys it by `NodeKey`. */
module TreeSelection {
  import opened Wrappers
  import opened Seqs
  import opened NamespaceTree
  import opened LeafDescendants
  import SelectionModel
  import GitlabProjects

  /** The component's `nodeSelection`, which is built with `multiple` set
      and never changes mode. */
  type NodeSelection = s: SelectionModel.Selection<Option<string>, TreeNode> | s.multiple
    witness SelectionModel.Selection([], true, None)

  predicate Valid(sel: NodeSelection) {
    SelectionModel.Valid(sel, NodeKey)
  }

  /** `nodeSelection.isSelected(node)`. */
  predicate Selects(sel: NodeSelection, n: TreeNode) {
    SelectionModel.IsSelected(sel, NodeKey, n)
  }

  function Keys(sel: NodeSelection): set<Option<string>> {
    SelectionModel.KeySet(sel.entries)
  }

  /** The field initialiser: an empty selection in multiple mode. */
  function InitialSelection(): (r: NodeSelection)
    ensures Valid(r) && SelectionModel.IsEmpty(r)
  {
    SelectionModel.NewSelects(NodeKey, true, []);
    SelectionModel.New(NodeKey, true, [])
  }

  // ---------------------------------------------------------------------
  // Leaf sets as nodes
  // ---------------------------------------------------------------------

  /** `node.leafDescendants.keys()`: the leaf nodes below `p`, in set
      order. */
  function LeafNodes(g: GitlabTree, p: Path): (r: seq<TreeNode>)
    requires ValidTree(g) && IsNode(g.root, p)
    ensures |r| == |g.leafDescendants[p]|
    ensures forall k :: 0 <= k < |r| ==>
      LeafBelow(g.root, p, g.leafDescendants[p][k]) && r[k] == Sub(g.root, g.leafDescendants[p][k])
  {
    var ls := g.leafDescendants[p];
    assert forall k :: 0 <= k < |ls| ==> ls[k] in g.leafDescendants[p];
    seq(|ls|, k requires 0 <= k < |ls| => Sub(g.root, ls[k]))
  }

  /** The keys of the leaf nodes below `p`. */
  function LeafKeys(g: GitlabTree, p: Path): set<Option<string>>
    requires ValidTree(g) && IsNode(g.root, p)
  {
    SelectionModel.TrackedKeys(LeafNodes(g, p), NodeKey)
  }

  /** Every leaf below `p` is listed by `LeafNodes`. */
  lemma LeafListed(g: GitlabTree, p: Path, l: Path) returns (k: nat)
    requires ValidTree(g) && IsNode(g.root, p) && LeafBelow(g.root, p, l)
    ensures k < |LeafNodes(g, p)| && g.leafDescendants[p][k] == l && LeafNodes(g, p)[k] == Sub(g.root, l)
  {
    assert p in g.leafDescendants;
    assert l in g.leafDescendants[p];
    k :| 0 <= k < |g.leafDescendants[p]| && g.leafDescendants[p][k] == l;
  }

  /** The keys of the leaf set are exactly the keys of the leaves below. */
  lemma LeafKeysAreLeaves(g: GitlabTree, p: Path)
    requires ValidTree(g) && IsNode(g.root, p)
    ensures forall l :: LeafBelow(g.root, p, l) ==> NodeKey(Sub(g.root, l)) in LeafKeys(g, p)
    ensures forall key :: key in LeafKeys(g, p) ==> exists l :: LeafBelow(g.root, p, l) && NodeKey(Sub(g.root, l)) == key
  {
    forall l | LeafBelow(g.root, p, l)
      ensures NodeKey(Sub(g.root, l)) in LeafKeys(g, p)
    {
      var k := LeafListed(g, p, l);
    }
    forall key | key in LeafKeys(g, p)
      ensures exists l :: LeafBelow(g.root, p, l) && NodeKey(Sub(g.root, l)) == key
    {
      var k :| 0 <= k < |LeafNodes(g, p)| && NodeKey(LeafNodes(g, p)[k]) == key;
      var l := g.leafDescendants[p][k];
      assert LeafBelow(g.root, p, l) && NodeKey(Sub(g.root, l)) == key;
    }
  }

  // ---------------------------------------------------------------------
  // Tri-state checkbox predicates
  // ---------------------------------------------------------------------

  /** The loop of `leafDescendantsAllSelected`: false at the first node
      that is not selected. */
  function AllSelected(sel: NodeSelection, nodes: seq<TreeNode>): (r: bool)
    ensures r <==> forall k :: 0 <= k < |nodes| ==> Selects(sel, nodes[k])
  {
    if nodes == [] then true
    else if !Selects(sel, nodes[0]) then false
    else AllSelected(sel, nodes[1..])
  }

  /** The loop of `leafDescendantsPartiallySelected`: true at the first
      node that is selected. */
  function AnySelected(sel: NodeSelection, nodes: seq<TreeNode>): (r: bool)
    ensures r <==> exists k :: 0 <= k < |nodes| && Selects(sel, nodes[k])
  {
    if nodes == [] then false
    else if Selects(sel, nodes[0]) then true
    else AnySelected(sel, nodes[1..])
  }

  /** `leafDescendantsAllSelected(node)`: every leaf below is selected,
      which holds vacuously when there is none. */
  function LeafDescendantsAllSelected(sel: NodeSelection, g: GitlabTree, p: Path): (r: bool)
    requires ValidTree(g) && IsNode(g.root, p)
    ensures r <==> forall l :: LeafBelow(g.root, p, l) ==> Selects(sel, Sub(g.root, l))
  {
    var leaves := LeafNodes(g, p);
    assert (forall l :: LeafBelow(g.root, p, l) ==> Selects(sel, Sub(g.root, l)))
        <== (forall k :: 0 <= k < |leaves| ==> Selects(sel, leaves[k])) by {
      forall l | LeafBelow(g.root, p, l)
        ensures exists k :: 0 <= k < |leaves| && leaves[k] == Sub(g.root, l)
      {
        var k := LeafListed(g, p, l);
      }
    }
    AllSelected(sel, leaves)
  }

  /** `leafDescendantsPartiallySelected(node, allSelected)`: false when the
      caller says all are selected, otherwise whether some leaf below is
      selected. */
  function LeafDescendantsPartiallySelected(sel: NodeSelection, g: GitlabTree, p: Path, allSelected: bool): (r: bool)
    requires ValidTree(g) && IsNode(g.root, p)
    ensures r <==> !allSelected && exists l :: LeafBelow(g.root, p, l) && Selects(sel, Sub(g.root, l))
  {
    if allSelected then false
    else
      var leaves := LeafNodes(g, p);
      assert (exists l :: LeafBelow(g.root, p, l) && Selects(sel, Sub(g.root, l)))
          ==> (exists k :: 0 <= k < |leaves| && Selects(sel, leaves[k])) by {
        forall l | LeafBelow(g.root, p, l) && Selects(sel, Sub(g.root, l))
          ensures exists k :: 0 <= k < |leaves| && Selects(sel, leaves[k])
        {
          var k := LeafListed(g, p, l);
        }
      }
      AnySelected(sel, leaves)
  }

  /** With the template's `allSelected`, the checkbox is indeterminate
      exactly when some leaf below is selected and some is not. */
  lemma PartiallySelectedMeansMixed(sel: NodeSelection, g: GitlabTree, p: Path)
    requires ValidTree(g) && IsNode(g.root, p)
    ensures LeafDescendantsPartiallySelected(sel, g, p, LeafDescendantsAllSelected(sel, g, p)) <==>
      (exists l :: LeafBelow(g.root, p, l) && Selects(sel, Sub(g.root, l))) &&
      (exists l :: LeafBelow(g.root, p, l) && !Selects(sel, Sub(g.root, l)))
  {
  }

  /** Some leaf lies below every node with children. */
  lemma {:induction false} SomeLeaf(t: TreeNode) returns (l: Path)
    ensures IsLeaf(t, l)
    ensures t.children != [] ==> l != []
    decreases t
  {
    if t.children == [] {
      l := [];
    } else {
      var below := SomeLeaf(t.children[0]);
      l := [0] + below;
      assert l[1..] == below;
    }
  }

  /** `nodeIsGitlabAndNotLoaded(node, level)`. */
  function NodeIsGitlabAndNotLoaded(g: GitlabTree, p: Path, level: nat): (r: bool)
    requires ValidTree(g) && IsNode(g.root, p)
    ensures r ==> level == 0
  {
    level == 0 && |g.leafDescendants[p]| == 0
  }

  /** A root shows as not loaded exactly when it has no children: any child,
      even an empty namespace, gives the root a leaf. */
  lemma NotLoadedIffChildless(g: GitlabTree)
    requires ValidTree(g)
    ensures NodeIsGitlabAndNotLoaded(g, [], 0) <==> g.root.children == []
  {
    var ls := g.leafDescendants[[]];
    if g.root.children == [] {
      forall l | IsNode(g.root, l) ensures l == [] {
      }
      assert |ls| > 0 ==> LeafBelow(g.root, [], ls[0]);
    } else {
      var l := SomeLeaf(g.root);
      assert LeafBelow(g.root, [], l);
      assert l in ls;
    }
  }

  // ---------------------------------------------------------------------
  // Toggling
  // ---------------------------------------------------------------------

  /** `nodeSelectionToggle(node, ev, isLeaf)`, without the emission: a leaf
      is toggled, an inner node selects or deselects its whole leaf set
      according to `ev.checked`. */
  function NodeSelectionToggle(sel: NodeSelection, g: GitlabTree, p: Path, checked: bool, isLeaf: bool): (r: NodeSelection)
    requires ValidTree(g) && IsNode(g.root, p)
    ensures Valid(sel) ==> Valid(r)
    ensures Valid(sel) && isLeaf ==> Selects(r, Sub(g.root, p)) == !Selects(sel, Sub(g.root, p))
    ensures Valid(sel) && isLeaf ==> Keys(r) - {NodeKey(Sub(g.root, p))} == Keys(sel) - {NodeKey(Sub(g.root, p))}
    ensures Valid(sel) && !isLeaf && checked ==> Keys(r) == Keys(sel) + LeafKeys(g, p)
    ensures !isLeaf && !checked ==> Keys(r) == Keys(sel) - LeafKeys(g, p)
  {
    if isLeaf then
      var n := Sub(g.root, p);
      var r := SelectionModel.Toggle(sel, NodeKey, n);
      assert Valid(sel) ==> Valid(r) && Selects(r, n) == !Selects(sel, n) && Keys(r) - {NodeKey(n)} == Keys(sel) - {NodeKey(n)} by {
        if Valid(sel) {
          SelectionModel.ToggleFlips(sel, NodeKey, n);
        }
      }
      r
    else if checked then
      var r := SelectionModel.Select(sel, NodeKey, LeafNodes(g, p)).value;
      assert Valid(sel) ==> Valid(r) && Keys(r) == Keys(sel) + LeafKeys(g, p) by {
        if Valid(sel) {
          SelectionModel.SelectValid(sel, NodeKey, LeafNodes(g, p));
        }
      }
      r
    else
      var r := SelectionModel.Deselect(sel, NodeKey, LeafNodes(g, p)).value;
      assert Valid(sel) ==> Valid(r) by {
        if Valid(sel) {
          SelectionModel.DeselectValid(sel, NodeKey, LeafNodes(g, p));
        }
      }
      r
  }

  /** Checking an inner node selects its whole leaf set and loses nothing
      that was selected; its checkbox then shows checked. */
  lemma CheckSelectsAllLeaves(sel: NodeSelection, g: GitlabTree, p: Path)
    requires ValidTree(g) && IsNode(g.root, p) && Valid(sel)
    ensures LeafDescendantsAllSelected(NodeSelectionToggle(sel, g, p, true, false), g, p)
    ensures !LeafDescendantsPartiallySelected(NodeSelectionToggle(sel, g, p, true, false), g, p, true)
    ensures forall n :: Selects(sel, n) ==> Selects(NodeSelectionToggle(sel, g, p, true, false), n)
  {
    LeafKeysAreLeaves(g, p);
  }

  /** Unchecking an inner node deselects its whole leaf set; its checkbox
      then shows neither checked nor indeterminate, unless it has no leaf
      at all. */
  lemma UncheckDeselectsAllLeaves(sel: NodeSelection, g: GitlabTree, p: Path)
    requires ValidTree(g) && IsNode(g.root, p)
    ensures forall l :: LeafBelow(g.root, p, l) ==> !Selects(NodeSelectionToggle(sel, g, p, false, false), Sub(g.root, l))
    ensures var r := NodeSelectionToggle(sel, g, p, false, false);
      !LeafDescendantsPartiallySelected(r, g, p, LeafDescendantsAllSelected(r, g, p))
    ensures var r := NodeSelectionToggle(sel, g, p, false, false);
      LeafDescendantsAllSelected(r, g, p) <==> |g.leafDescendants[p]| == 0
  {
    LeafKeysAreLeaves(g, p);
    var r := NodeSelectionToggle(sel, g, p, false, false);
    if |g.leafDescendants[p]| > 0 {
      var l := g.leafDescendants[p][0];
      assert LeafBelow(g.root, p, l) && !Selects(r, Sub(g.root, l));
    }
  }

  // ---------------------------------------------------------------------
  // Emitted projects
  // ---------------------------------------------------------------------

  /** `isGitlabProject(node.item)`: a root's item is a string and fails the
      guard, and so does a project whose instance id is empty. */
  predicate IsGitlabProjectItem(x: Item) {
    x.ProjectItem? && x.gitlabId != ""
  }

  /** `nodes.map(node => node.item)`. */
  function Items(nodes: seq<TreeNode>): (r: seq<Item>)
    ensures |r| == |nodes|
    ensures forall k :: 0 <= k < |nodes| ==> r[k] == nodes[k].item
  {
    seq(|nodes|, k requires 0 <= k < |nodes| => nodes[k].item)
  }

  /** `getSelectedProjects()`: the items of the selected nodes that pass
      the guard, in selection order. Reading `selected` fills the cache,
      so the selection is returned too. */
  function SelectedProjects(sel: NodeSelection): (r: (seq<Item>, NodeSelection))
    ensures forall k :: 0 <= k < |r.0| ==> IsGitlabProjectItem(r.0[k])
    ensures r.1.entries == sel.entries
    ensures Valid(sel) ==> Valid(r.1)
  {
    var (selected, cached) := SelectionModel.Selected(sel);
    (Filter(Items(selected), IsGitlabProjectItem), cached)
  }

  /** The emitted projects are exactly the guarded items of the selected
      nodes. */
  lemma SelectedProjectsAreSelectedItems(sel: NodeSelection)
    requires Valid(sel)
    ensures forall x :: x in SelectedProjects(sel).0 <==>
      IsGitlabProjectItem(x) && exists i :: 0 <= i < |sel.entries| && sel.entries[i].value.item == x
  {
    var items := Items(SelectionModel.Values(sel.entries));
    SelectionModel.SelectedReflectsEntries(sel, NodeKey);
    assert SelectedProjects(sel).0 == Filter(items, IsGitlabProjectItem);
    forall x | x in SelectedProjects(sel).0
      ensures exists i :: 0 <= i < |sel.entries| && sel.entries[i].value.item == x
    {
      assert x in items;
      var i :| 0 <= i < |items| && items[i] == x;
      assert sel.entries[i].value.item == x;
    }
    forall x, i | IsGitlabProjectItem(x) && 0 <= i < |sel.entries| && sel.entries[i].value.item == x
      ensures x in SelectedProjects(sel).0
    {
      assert items[i] == x;
    }
  }

  // ---------------------------------------------------------------------
  // Reactions to new data and new queries
  // ---------------------------------------------------------------------

  function IsNotRoot(n: TreeNode): bool {
    !n.item.GitlabRoot?
  }

  /** `clearNotRootNodeSelection()`: deselects every selected node that is
      not a root. */
  function ClearNotRootNodeSelection(sel: NodeSelection): (r: NodeSelection)
    ensures r.cache.None?
  {
    var (selected, cached) := SelectionModel.Selected(sel);
    SelectionModel.Deselect(cached, NodeKey, Filter(selected, IsNotRoot)).value
  }

  /** Only root nodes stay selected, and every selected non-root node is
      deselected. */
  lemma ClearNotRootKeepsOnlyRoots(sel: NodeSelection)
    requires Valid(sel)
    ensures Valid(ClearNotRootNodeSelection(sel))
    ensures forall i :: 0 <= i < |ClearNotRootNodeSelection(sel).entries| ==>
      ClearNotRootNodeSelection(sel).entries[i] in sel.entries &&
      ClearNotRootNodeSelection(sel).entries[i].value.item.GitlabRoot?
    ensures forall i :: 0 <= i < |sel.entries| && IsNotRoot(sel.entries[i].value) ==>
      !Selects(ClearNotRootNodeSelection(sel), sel.entries[i].value)
  {
    SelectionModel.SelectedReflectsEntries(sel, NodeKey);
    var cached := SelectionModel.Selected(sel).1;
    var values := SelectionModel.Values(sel.entries);
    var gone := Filter(values, IsNotRoot);
    SelectionModel.DeselectValid(cached, NodeKey, gone);
    SelectionModel.DeselectKeepsStored(cached, NodeKey, gone);
    var r := ClearNotRootNodeSelection(sel);
    assert Keys(r) == Keys(sel) - SelectionModel.TrackedKeys(gone, NodeKey);
    forall i | 0 <= i < |sel.entries| && IsNotRoot(sel.entries[i].value)
      ensures NodeKey(sel.entries[i].value) in SelectionModel.TrackedKeys(gone, NodeKey)
    {
      assert values[i] == sel.entries[i].value;
      var k :| 0 <= k < |gone| && gone[k] == values[i];
    }
    forall i | 0 <= i < |r.entries|
      ensures r.entries[i].value.item.GitlabRoot?
    {
      var j :| 0 <= j < |sel.entries| && sel.entries[j] == r.entries[i];
      assert r.entries[i].key in Keys(r);
    }
  }

  /** The keys of the leaf sets of the roots of `trees`. */
  function RootLeafKeys(trees: seq<GitlabTree>): set<Option<string>>
    requires forall i :: 0 <= i < |trees| ==> ValidTree(trees[i])
  {
    if trees == [] then {} else LeafKeys(trees[0], []) + RootLeafKeys(trees[1..])
  }

  lemma {:induction false} RootLeafKeysHasLeaves(trees: seq<GitlabTree>, i: nat, l: Path)
    requires forall j :: 0 <= j < |trees| ==> ValidTree(trees[j])
    requires i < |trees| && LeafBelow(trees[i].root, [], l)
    ensures NodeKey(Sub(trees[i].root, l)) in RootLeafKeys(trees)
  {
    if i == 0 {
      LeafKeysAreLeaves(trees[0], []);
    } else {
      RootLeafKeysHasLeaves(trees[1..], i - 1, l);
    }
  }

  /** `nodes.forEach(node => nodeSelection.select(...node.leafDescendants.keys()))`. */
  function SelectRootLeaves(sel: NodeSelection, trees: seq<GitlabTree>): (r: NodeSelection)
    requires forall i :: 0 <= i < |trees| ==> ValidTree(trees[i])
    ensures Valid(sel) ==> Valid(r) && Keys(r) == Keys(sel) + RootLeafKeys(trees)
    decreases |trees|
  {
    if trees == [] then sel
    else
      var next := SelectionModel.Select(sel, NodeKey, LeafNodes(trees[0], [])).value;
      assert Valid(sel) ==> Valid(next) && Keys(next) == Keys(sel) + LeafKeys(trees[0], []) by {
        if Valid(sel) {
          SelectionModel.SelectValid(sel, NodeKey, LeafNodes(trees[0], []));
        }
      }
      SelectRootLeaves(next, trees[1..])
  }

  /** After the select-all pass every leaf of every root is selected. */
  lemma SelectRootLeavesSelectsAll(sel: NodeSelection, trees: seq<GitlabTree>)
    requires forall i :: 0 <= i < |trees| ==> ValidTree(trees[i])
    requires Valid(sel)
    ensures forall i, l :: 0 <= i < |trees| && LeafBelow(trees[i].root, [], l) ==>
      Selects(SelectRootLeaves(sel, trees), Sub(trees[i].root, l))
  {
    forall i, l | 0 <= i < |trees| && LeafBelow(trees[i].root, [], l)
      ensures Selects(SelectRootLeaves(sel, trees), Sub(trees[i].root, l))
    {
      RootLeafKeysHasLeaves(trees, i, l);
    }
  }

  /** The `filterCtrl` validator `Validators.minLength(3)`: an empty value
      passes, as does one of at least three characters. The length counts
      characters, where JavaScript's `.length` counts UTF-16 code units. */
  predicate MinLengthValid(q: string) {
    |q| == 0 || |q| >= 3
  }

  /** The parts of the component's state that the selection depends on.
      `query` is the last raw query that passed the validity filter and
      `distinctUntilChanged`; `startWith('')` makes it "" before any
      typing. `nodes` is what `dataSource` holds. */
  datatype Form = Form(selection: NodeSelection, data: seq<GitlabProjects.GitlabData>, query: string, nodes: seq<GitlabTree>)

  /** The `filteredData$` subscriber. It filters the data and builds the
      trees. Under a query that is non-empty after normalisation, it
      selects every leaf of every root. Then it emits the selected
      projects. */
  method Render(sel: NodeSelection, datas: seq<GitlabProjects.GitlabData>, query: string)
    returns (out: NodeSelection, nodes: seq<GitlabTree>, emitted: seq<Item>)
    requires Valid(sel)
    ensures Valid(out)
    ensures |nodes| == |datas|
    ensures forall i :: 0 <= i < |datas| ==> ValidTree(nodes[i]) && nodes[i].root.item == GitlabRoot(datas[i].id)
    ensures forall i :: 0 <= i < |datas| ==> nodes[i].root == RootOf(FilterData(datas, Some(query)).0[i])
    ensures FilterQuery(Some(query)) == "" ==> out.entries == sel.entries
    ensures FilterQuery(Some(query)) != "" ==> Keys(out) == Keys(sel) + RootLeafKeys(nodes)
    ensures forall x :: x in emitted <==>
      IsGitlabProjectItem(x) && exists i :: 0 <= i < |out.entries| && out.entries[i].value.item == x
  {
    var filtered := FilterData(datas, Some(query));
    nodes := GetTreeNodes(filtered.0);
    var s := sel;
    if filtered.1 != "" {
      s := SelectRootLeaves(sel, nodes);
    }
    SelectedProjectsAreSelectedItems(s);
    var (projects, cached) := SelectedProjects(s);
    out := cached;
    emitted := projects;
  }

  /** The `gitlabItems` input setter, then the emission it causes: non-root
      nodes are deselected before the new data is rendered. */
  method SetGitlabItems(f: Form, items: seq<GitlabProjects.GitlabData>) returns (r: Form, emitted: seq<Item>)
    requires Valid(f.selection)
    ensures Valid(r.selection) && r.data == items && r.query == f.query && |r.nodes| == |items|
    ensures FilterQuery(Some(f.query)) == "" ==>
      forall i :: 0 <= i < |r.selection.entries| ==> r.selection.entries[i].value.item.GitlabRoot?
    ensures FilterQuery(Some(f.query)) != "" ==>
      forall i, l :: 0 <= i < |r.nodes| && LeafBelow(r.nodes[i].root, [], l) ==> Selects(r.selection, Sub(r.nodes[i].root, l))
  {
    var cleared := ClearNotRootNodeSelection(f.selection);
    ClearNotRootKeepsOnlyRoots(f.selection);
    var out, nodes;
    out, nodes, emitted := Render(cleared, items, f.query);
    r := Form(out, items, f.query, nodes);
    if FilterQuery(Some(f.query)) != "" {
      SelectRootLeavesSelectsAll(cleared, nodes);
      forall i, l | 0 <= i < |nodes| && LeafBelow(nodes[i].root, [], l)
        ensures Selects(out, Sub(nodes[i].root, l))
      {
        RootLeafKeysHasLeaves(nodes, i, l);
      }
    }
  }

  /** A settled value of `filterCtrl`. An invalid value or a repeat of the
      last one is dropped and nothing is emitted. Otherwise the selection is
      cleared and the data is rendered under the new query. */
  method QueryChanged(f: Form, q: string) returns (r: Form, emitted: Option<seq<Item>>)
    requires Valid(f.selection)
    ensures Valid(r.selection)
    ensures !MinLengthValid(q) || q == f.query ==> r == f && emitted.None?
    ensures MinLengthValid(q) && q != f.query ==> emitted.Some? && r.query == q && r.data == f.data
    ensures MinLengthValid(q) && q != f.query && FilterQuery(Some(q)) == "" ==> SelectionModel.IsEmpty(r.selection)
    ensures MinLengthValid(q) && q != f.query && FilterQuery(Some(q)) != "" ==>
      (forall i :: 0 <= i < |r.nodes| ==> ValidTree(r.nodes[i])) && Keys(r.selection) == RootLeafKeys(r.nodes)
  {
    if !MinLengthValid(q) || q == f.query {
      r := f;
      emitted := None;
    } else {
      var cleared := SelectionModel.Clear(f.selection, NodeKey);
      SelectionModel.KeySetEmpty(cleared.entries);
      assert Valid(cleared);
      var out, nodes, projects := Render(cleared, f.data, q);
      r := Form(out, f.data, q, nodes);
      emitted := Some(projects);
    }
  }
}
