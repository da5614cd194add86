/** The query helpers shared by `GitlabProjectsQuery` and the older
    `SearchParamsQuery`, except `dataLoading`, which differs between the two
    and is modelled in both versions (`DataLoading`, `DataLoadingCopy`). */
module ProjectQueries {
  import opened Wrappers
  import opened Seqs
  import opened GitlabModel

  /** `projectSelected()`: whether anything is selected for search. */
  function ProjectSelected(selection: seq<SearchProject>): (r: bool)
    ensures r <==> selection != []
  {
    |selection| > 0
  }

  function GitlabIds(selection: seq<SearchProject>): (r: seq<string>)
    ensures |r| == |selection|
    ensures forall i :: 0 <= i < |selection| ==> r[i] == selection[i].gitlabId
  {
    if selection == [] then [] else [selection[0].gitlabId] + GitlabIds(selection[1..])
  }

  /** `getSelectedGitLabs()`: every instance id occurring in the selection,
      once, in order of first occurrence. */
  function SelectedGitlabs(selection: seq<SearchProject>): (r: seq<string>)
    ensures Distinct(r)
    ensures forall id :: id in r <==> exists i :: 0 <= i < |selection| && selection[i].gitlabId == id
  {
    var ids := GitlabIds(selection);
    var r := Dedup(ids);
    assert forall id :: id in r <==> exists i :: 0 <= i < |selection| && selection[i].gitlabId == id by {
      forall id
        ensures id in r <==> exists i :: 0 <= i < |selection| && selection[i].gitlabId == id
      {
        DedupMembership(ids, id);
        GitlabIdsMembership(selection, id);
      }
    }
    r
  }

  /** The instance ids come in order of their first occurrence in the
      selection. */
  lemma SelectedGitlabsOrder(selection: seq<SearchProject>)
    ensures forall i, j :: 0 <= i < j < |SelectedGitlabs(selection)| ==>
              FirstIndex(GitlabIds(selection), SelectedGitlabs(selection)[i])
              < FirstIndex(GitlabIds(selection), SelectedGitlabs(selection)[j])
  {
    DedupFirstOccurrenceOrder(GitlabIds(selection));
  }

  lemma GitlabIdsMembership(selection: seq<SearchProject>, id: string)
    ensures id in GitlabIds(selection) <==> exists i :: 0 <= i < |selection| && selection[i].gitlabId == id
  {
    var ids := GitlabIds(selection);
    if id in ids {
      var i :| 0 <= i < |ids| && ids[i] == id;
      assert selection[i].gitlabId == id;
    }
    if exists i :: 0 <= i < |selection| && selection[i].gitlabId == id {
      var i :| 0 <= i < |selection| && selection[i].gitlabId == id;
      assert ids[i] == id;
    }
  }

  /** `projects.find(p => p.id === projectID)`: the first project with
      that id. */
  function FindProject(projects: seq<Project>, projectId: int): (r: Option<Project>)
    ensures r.None? <==> forall i :: 0 <= i < |projects| ==> projects[i].id != projectId
    ensures r.Some? ==> exists i :: 0 <= i < |projects| && projects[i] == r.value && r.value.id == projectId
                          && forall j :: 0 <= j < i ==> projects[j].id != projectId
  {
    if projects == [] then None
    else if projects[0].id == projectId then
      assert projects[0] == projects[0];
      Some(projects[0])
    else
      var r := FindProject(projects[1..], projectId);
      assert r.Some? ==> exists i :: 0 <= i < |projects| && projects[i] == r.value && r.value.id == projectId
                          && forall j :: 0 <= j < i ==> projects[j].id != projectId by {
        if r.Some? {
          var i :| 0 <= i < |projects[1..]| && projects[1..][i] == r.value && r.value.id == projectId
                   && forall j :: 0 <= j < i ==> projects[1..][j].id != projectId;
          assert projects[i + 1] == r.value;
          assert forall j :: 0 <= j < i + 1 ==> projects[j].id != projectId by {
            forall j | 0 <= j < i + 1 ensures projects[j].id != projectId {
              if j > 0 { assert projects[j] == projects[1..][j - 1]; }
            }
          }
        }
      }
      r
  }

  /** `dataLoading()` of `GitlabProjectsQuery`: one entry per UI entity,
      the flag read with `?? false`. */
  function DataLoading(ui: map<string, Option<bool>>): (r: map<string, bool>)
    ensures r.Keys == ui.Keys
    ensures forall id :: id in ui ==> (r[id] <==> ui[id] == Some(true))
  {
    map id | id in ui :: ui[id].GetOr(false)
  }

  /** `dataLoading()` of the older `SearchParamsQuery`: the flags copied as
      they are, an undefined one staying undefined. */
  function DataLoadingCopy(ui: map<string, Option<bool>>): (r: map<string, Option<bool>>)
    ensures r.Keys == ui.Keys
    ensures forall id :: id in ui ==> r[id] == ui[id]
  {
    map id | id in ui :: ui[id]
  }

  /** The two variants agree on every entity whose flag is defined and
      differ only in reading an undefined flag as false. */
  lemma DataLoadingVariants(ui: map<string, Option<bool>>, id: string)
    requires id in ui
    ensures DataLoadingCopy(ui)[id].Some? ==> DataLoading(ui)[id] == DataLoadingCopy(ui)[id].value
    ensures DataLoadingCopy(ui)[id].None? ==> !DataLoading(ui)[id]
  {
  }
}
