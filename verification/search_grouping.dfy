/** The first half of `SearchResultService.search`: the `forEach` that
    groups the selected (instance, project) pairs by instance, keeping
    `configIndexes` from instance id to group position. */
module SearchGrouping {
  import opened Seqs
  import opened GitlabModel
  import ProjectQueries

  // ---------------------------------------------------------------------
  // Grouping the selection by instance
  // ---------------------------------------------------------------------

  /** One element of `byConfig`: an instance and its selected project ids. */
  datatype ConfigGroup = ConfigGroup(gitlabId: string, projectIds: seq<int>)

  /** The project ids selected for one instance, in selection order. */
  function ProjectIdsOf(selection: seq<SearchProject>, id: string): seq<int> {
    if selection == [] then []
    else
      var last := selection[|selection| - 1];
      ProjectIdsOf(selection[..|selection| - 1], id) + (if last.gitlabId == id then [last.projectId] else [])
  }

  function GroupsFor(ids: seq<string>, selection: seq<SearchProject>): (r: seq<ConfigGroup>)
    ensures |r| == |ids|
    ensures forall k :: 0 <= k < |ids| ==> r[k] == ConfigGroup(ids[k], ProjectIdsOf(selection, ids[k]))
  {
    if ids == [] then [] else [ConfigGroup(ids[0], ProjectIdsOf(selection, ids[0]))] + GroupsFor(ids[1..], selection)
  }

  /** Reference grouping: one group per distinct instance id, in order of
      first appearance, holding that instance's project ids. */
  function Grouping(selection: seq<SearchProject>): seq<ConfigGroup> {
    GroupsFor(Dedup(ProjectQueries.GitlabIds(selection)), selection)
  }

  function GroupIds(groups: seq<ConfigGroup>): (r: seq<string>)
    ensures |r| == |groups|
    ensures forall k :: 0 <= k < |groups| ==> r[k] == groups[k].gitlabId
  {
    if groups == [] then [] else [groups[0].gitlabId] + GroupIds(groups[1..])
  }

  /** `configIndexes` maps the instance id of every group to its
      position. */
  ghost predicate IndexesOf(indexes: map<string, nat>, groups: seq<ConfigGroup>) {
    && (forall id :: id in indexes <==> id in GroupIds(groups))
    && (forall id :: id in indexes ==> indexes[id] < |groups| && groups[indexes[id]].gitlabId == id)
  }

  /** The `forEach` over the selection, with `configIndexes` mapping each
      instance id seen so far to the position of its group. */
  method GroupByConfig(selection: seq<SearchProject>) returns (groups: seq<ConfigGroup>)
    ensures groups == Grouping(selection)
  {
    groups := [];
    var indexes: map<string, nat> := map[];
    var i := 0;
    assert ProjectQueries.GitlabIds([]) == [];
    assert selection[..0] == [];
    while i < |selection|
      invariant 0 <= i <= |selection|
      invariant groups == Grouping(selection[..i])
      invariant IndexesOf(indexes, groups)
    {
      groups, indexes := AddPair(groups, indexes, selection[..i], selection[i]);
      PrefixSnoc(selection, i);
      i := i + 1;
    }
    assert selection[..i] == selection;
  }

  /** One turn of the `forEach`: the pair joins the group of its instance,
      or opens a new group at the end whose position is recorded. */
  method AddPair(groups: seq<ConfigGroup>, indexes: map<string, nat>, ghost done: seq<SearchProject>, sp: SearchProject)
    returns (groups': seq<ConfigGroup>, indexes': map<string, nat>)
    requires groups == Grouping(done) && IndexesOf(indexes, groups)
    ensures groups' == Grouping(done + [sp]) && IndexesOf(indexes', groups')
  {
    if sp.gitlabId in indexes {
      var k := indexes[sp.gitlabId];
      var g := ConfigGroup(sp.gitlabId, groups[k].projectIds + [sp.projectId]);
      GroupingSnocPresent(done, sp, k);
      IndexesAfterUpdate(indexes, groups, k, g);
      groups', indexes' := groups[k := g], indexes;
    } else {
      var g := ConfigGroup(sp.gitlabId, [sp.projectId]);
      GroupIdsOfGrouping(done);
      DedupMembership(ProjectQueries.GitlabIds(done), sp.gitlabId);
      GroupingSnocAbsent(done, sp);
      IndexesAfterAppend(indexes, groups, g);
      groups' := groups + [g];
      indexes' := indexes[sp.gitlabId := |groups'| - 1];
    }
  }

  lemma IndexesAfterUpdate(indexes: map<string, nat>, groups: seq<ConfigGroup>, k: nat, g: ConfigGroup)
    requires IndexesOf(indexes, groups) && k < |groups| && g.gitlabId == groups[k].gitlabId
    ensures IndexesOf(indexes, groups[k := g])
  {
    assert GroupIds(groups[k := g]) == GroupIds(groups);
  }

  lemma IndexesAfterAppend(indexes: map<string, nat>, groups: seq<ConfigGroup>, g: ConfigGroup)
    requires IndexesOf(indexes, groups) && g.gitlabId !in indexes
    ensures IndexesOf(indexes[g.gitlabId := |groups|], groups + [g])
  {
    assert GroupIds(groups + [g]) == GroupIds(groups) + [g.gitlabId];
  }

  lemma GroupIdsOfGrouping(selection: seq<SearchProject>)
    ensures GroupIds(Grouping(selection)) == Dedup(ProjectQueries.GitlabIds(selection))
  {
  }

  lemma GitlabIdsSnoc(init: seq<SearchProject>, sp: SearchProject)
    ensures ProjectQueries.GitlabIds(init + [sp]) == ProjectQueries.GitlabIds(init) + [sp.gitlabId]
  {
  }

  lemma ProjectIdsSnoc(init: seq<SearchProject>, sp: SearchProject, id: string)
    ensures ProjectIdsOf(init + [sp], id) == ProjectIdsOf(init, id) + (if sp.gitlabId == id then [sp.projectId] else [])
  {
    assert (init + [sp])[..|init|] == init;
  }

  /** On a fixed list of distinct ids, a pair of a listed instance extends
      that instance's group only. */
  lemma GroupsForUpdate(d: seq<string>, init: seq<SearchProject>, sp: SearchProject, k: nat)
    requires Distinct(d) && k < |d| && d[k] == sp.gitlabId
    ensures GroupsFor(d, init + [sp])
            == GroupsFor(d, init)[k := ConfigGroup(d[k], ProjectIdsOf(init, d[k]) + [sp.projectId])]
  {
    var lhs := GroupsFor(d, init + [sp]);
    var rhs := GroupsFor(d, init)[k := ConfigGroup(d[k], ProjectIdsOf(init, d[k]) + [sp.projectId])];
    forall j | 0 <= j < |d|
      ensures lhs[j] == rhs[j]
    {
      ProjectIdsSnoc(init, sp, d[j]);
    }
  }

  /** A pair of an instance with no pairs yet opens a group at the end. */
  lemma GroupsForAppend(d: seq<string>, init: seq<SearchProject>, sp: SearchProject)
    requires sp.gitlabId !in d && ProjectIdsOf(init, sp.gitlabId) == []
    ensures GroupsFor(d + [sp.gitlabId], init + [sp]) == GroupsFor(d, init) + [ConfigGroup(sp.gitlabId, [sp.projectId])]
  {
    var lhs := GroupsFor(d + [sp.gitlabId], init + [sp]);
    var rhs := GroupsFor(d, init) + [ConfigGroup(sp.gitlabId, [sp.projectId])];
    forall j | 0 <= j < |d| + 1
      ensures lhs[j] == rhs[j]
    {
      if j < |d| {
        ProjectIdsSnoc(init, sp, d[j]);
      } else {
        ProjectIdsSnoc(init, sp, sp.gitlabId);
      }
    }
  }

  /** A pair of an instance already seen extends that instance's group. */
  lemma GroupingSnocPresent(init: seq<SearchProject>, sp: SearchProject, k: nat)
    requires k < |Dedup(ProjectQueries.GitlabIds(init))| && Dedup(ProjectQueries.GitlabIds(init))[k] == sp.gitlabId
    ensures Grouping(init + [sp])
            == Grouping(init)[k := ConfigGroup(sp.gitlabId, Grouping(init)[k].projectIds + [sp.projectId])]
  {
    var ids := ProjectQueries.GitlabIds(init);
    var d := Dedup(ids);
    GitlabIdsSnoc(init, sp);
    DedupSnoc(ids, sp.gitlabId);
    GroupsForUpdate(d, init, sp, k);
  }

  /** A pair of a new instance opens a group of its own at the end. */
  lemma GroupingSnocAbsent(init: seq<SearchProject>, sp: SearchProject)
    requires sp.gitlabId !in ProjectQueries.GitlabIds(init)
    ensures Grouping(init + [sp]) == Grouping(init) + [ConfigGroup(sp.gitlabId, [sp.projectId])]
  {
    var ids := ProjectQueries.GitlabIds(init);
    GitlabIdsSnoc(init, sp);
    DedupMembership(ids, sp.gitlabId);
    DedupSnoc(ids, sp.gitlabId);
    ProjectIdsAbsent(init, sp.gitlabId);
    GroupsForAppend(Dedup(ids), init, sp);
  }

  /** An instance id absent from the selection has no project ids. */
  lemma {:induction false} ProjectIdsAbsent(selection: seq<SearchProject>, id: string)
    requires id !in ProjectQueries.GitlabIds(selection)
    ensures ProjectIdsOf(selection, id) == []
  {
    if selection != [] {
      var init := selection[..|selection| - 1];
      assert selection == init + [selection[|selection| - 1]];
      GitlabIdsSnoc(init, selection[|selection| - 1]);
      ProjectIdsAbsent(init, id);
    }
  }

  function TotalSize(groups: seq<ConfigGroup>): nat {
    if groups == [] then 0 else |groups[0].projectIds| + TotalSize(groups[1..])
  }

  /** Each instance of the selection has exactly one group, the groups come
      in order of first appearance, each group lists its instance's project
      ids, and the group sizes add up to the selection length. */
  lemma GroupingShape(selection: seq<SearchProject>)
    ensures Distinct(GroupIds(Grouping(selection)))
    ensures GroupIds(Grouping(selection)) == ProjectQueries.SelectedGitlabs(selection)
    ensures forall k :: 0 <= k < |Grouping(selection)| ==>
              Grouping(selection)[k].projectIds == ProjectIdsOf(selection, Grouping(selection)[k].gitlabId)
    ensures TotalSize(Grouping(selection)) == |selection|
  {
    var ids := Dedup(ProjectQueries.GitlabIds(selection));
    assert GroupIds(Grouping(selection)) == ids;
    GroupingSize(selection);
  }

  lemma {:induction false} GroupingSize(selection: seq<SearchProject>)
    ensures TotalSize(Grouping(selection)) == |selection|
    decreases |selection|
  {
    if selection != [] {
      var n := |selection|;
      var init := selection[..n - 1];
      var sp := selection[n - 1];
      assert selection == init + [sp];
      GroupingSize(init);
      var gs := Grouping(init);
      GitlabIdsSnoc(init, sp);
      var ids := ProjectQueries.GitlabIds(init);
      DedupMembership(ids, sp.gitlabId);
      if sp.gitlabId in ids {
        var d := Dedup(ids);
        var k := FirstIndex(d, sp.gitlabId);
        GroupingSnocPresent(init, sp, k);
        TotalSizeUpdate(gs, k, ConfigGroup(sp.gitlabId, gs[k].projectIds + [sp.projectId]));
      } else {
        GroupingSnocAbsent(init, sp);
        TotalSizeSnoc(gs, ConfigGroup(sp.gitlabId, [sp.projectId]));
      }
    }
  }

  lemma {:induction false} TotalSizeUpdate(groups: seq<ConfigGroup>, k: nat, g: ConfigGroup)
    requires k < |groups|
    ensures TotalSize(groups[k := g]) + |groups[k].projectIds| == TotalSize(groups) + |g.projectIds|
  {
    if k > 0 {
      assert groups[k := g][1..] == groups[1..][k - 1 := g];
      TotalSizeUpdate(groups[1..], k - 1, g);
    }
  }

  lemma {:induction false} TotalSizeSnoc(groups: seq<ConfigGroup>, g: ConfigGroup)
    ensures TotalSize(groups + [g]) == TotalSize(groups) + |g.projectIds|
  {
    if groups != [] {
      assert (groups + [g])[1..] == groups[1..] + [g];
      TotalSizeSnoc(groups[1..], g);
    }
  }
}
