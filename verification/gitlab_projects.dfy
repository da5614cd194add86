/** `GitlabProjectsService` and `GitlabProjectsQuery`: the per-instance
    project lists, kept in step with the configured instances and reloaded
    on demand. A reload is split into the synchronous start, the request it
    issues, and the completion step run when the request ends. */
module GitlabProjects {
  import opened Wrappers
  import opened Seqs
  import opened GitlabModel
  import EntityStore
  import DataSync
  import ProjectQueries
  import GitlabApi
  import ArrayDiff

  datatype GitlabData = GitlabData(id: string, loadDt: Option<string>, projects: seq<Project>)

  /** The entity store, its UI store of `isLoading` flags, the selection and
      Akita's cache flag. */
  datatype ProjectsState = ProjectsState(
    entities: seq<GitlabData>,
    ui: DataSync.LoadingFlags,
    searchProjects: seq<SearchProject>,
    hasCache: bool)

  function DataId(d: GitlabData): string {
    d.id
  }

  /** The entry a new instance starts with. */
  function Blank(id: string): (d: GitlabData)
    ensures d.id == id && d.loadDt.None? && d.projects == []
  {
    GitlabData(id, None, [])
  }

  function InitialState(): (s: ProjectsState)
    ensures s.entities == [] && s.ui == map[] && s.searchProjects == [] && !s.hasCache
  {
    ProjectsState([], map[], [], false)
  }

  // ---------------------------------------------------------------------
  // Sync with the config store
  // ---------------------------------------------------------------------

  /** The constructor's subscription, run on every emission of the config
      ids: blank entries for new instances, in config order; entries of
      removed instances go, with their UI entities. */
  method SyncWithConfigs(s: ProjectsState, configIds: seq<string>) returns (r: ProjectsState)
    requires Distinct(configIds) && Distinct(DataSync.Keys(s.entities, DataId))
    ensures r.entities == DataSync.Synced(s.entities, DataId, Blank, configIds)
    ensures forall id :: id in r.ui ==> id in s.ui || id in configIds
    ensures forall id :: id in configIds && id !in DataSync.Keys(s.entities, DataId) ==> id in r.ui
    ensures forall id :: id in r.ui && id !in s.ui ==> r.ui[id] == Some(false)
    ensures forall id :: id in s.ui && id in DataSync.Keys(s.entities, DataId) && id !in configIds ==> id !in r.ui
    ensures forall id :: id in s.ui && (id in configIds || id !in DataSync.Keys(s.entities, DataId)) ==>
              id in r.ui && r.ui[id] == s.ui[id]
    ensures r.searchProjects == s.searchProjects && r.hasCache == s.hasCache
  {
    var entities, added, removed := DataSync.Sync(s.entities, DataId, Blank, configIds);
    forall id | id in added
      ensures id in configIds && id !in DataSync.Keys(s.entities, DataId)
    {
      ArrayDiff.RetainMembership(configIds, DataSync.Keys(s.entities, DataId), false, id);
    }
    forall id | id in configIds && id !in DataSync.Keys(s.entities, DataId)
      ensures id in added
    {
      ArrayDiff.RetainMembership(configIds, DataSync.Keys(s.entities, DataId), false, id);
    }
    var ui := DataSync.UiAfterRemove(DataSync.UiAfterAdd(s.ui, added), removed);
    r := ProjectsState(entities, ui, s.searchProjects, s.hasCache);
  }

  // ---------------------------------------------------------------------
  // Reloading one instance
  // ---------------------------------------------------------------------

  /** The guard of `updateGitlabData`: a forced call, a missing entry, an
      entry without projects or an invalidated cache triggers a reload. */
  predicate NeedsReload(s: ProjectsState, id: string, force: bool) {
    || force
    || (match EntityStore.Find(s.entities, DataId, id)
        case None => true
        case Some(d) => |d.projects| == 0)
    || !s.hasCache
  }

  /** The first transaction of a reload: the entry is emptied and marked
      loading. */
  function BeginReload(s: ProjectsState, id: string): (r: ProjectsState)
    ensures |r.entities| == |s.entities|
    ensures forall i :: 0 <= i < |s.entities| ==>
              r.entities[i] == (if s.entities[i].id == id then Blank(id) else s.entities[i])
    ensures r.ui == DataSync.SetLoading(s.ui, id, true)
    ensures r.searchProjects == s.searchProjects && r.hasCache == s.hasCache
  {
    s.(entities := EntityStore.Update(s.entities, DataId, id, _ => Blank(id)),
       ui := DataSync.SetLoading(s.ui, id, true))
  }

  /** `getGitlabData`: the config to query and the options, or the error for
      an instance that is not configured. Archived projects are excluded
      exactly when the stored filter's flag is false. */
  function LoadRequest(configs: seq<GitlabConfig>, id: string, withArchivedProjects: bool)
    : (r: Result<(GitlabConfig, GitlabApi.ProjectRequestOptions), string>)
    ensures r.Failure? <==> !EntityStore.HasKey(configs, ConfigId, id)
    ensures r.Failure? ==> r.error == "no such gitlab in config: " + id
    ensures r.Success? ==> r.value.0 in configs && r.value.0.id == id
    ensures r.Success? ==> r.value.1.membership.None?
    ensures r.Success? ==> (r.value.1.archived == Some(false) <==> !withArchivedProjects)
    ensures r.Success? ==> (r.value.1.archived.None? <==> withArchivedProjects)
  {
    match EntityStore.Find(configs, ConfigId, id)
    case None => Failure("no such gitlab in config: " + id)
    case Some(config) =>
      var opts := GitlabApi.ProjectRequestOptions(None, if withArchivedProjects == false then Some(false) else None);
      Success((config, opts))
  }

  /** The completion step: a loaded list replaces the entry, stamped with
      `loadDt`, and revalidates the cache; on any outcome the loading flag is
      cleared. `loaded` is `None` when the request failed or was cut off. */
  function FinishReload(s: ProjectsState, id: string, loaded: Option<seq<Project>>, loadDt: string): (r: ProjectsState)
    ensures |r.entities| == |s.entities|
    ensures forall i :: 0 <= i < |s.entities| ==>
              r.entities[i] == (if s.entities[i].id == id && loaded.Some? then GitlabData(id, Some(loadDt), loaded.value)
                                else s.entities[i])
    ensures r.hasCache == (loaded.Some? || s.hasCache)
    ensures r.ui == DataSync.SetLoading(s.ui, id, false)
    ensures r.searchProjects == s.searchProjects
  {
    var entities := if loaded.Some? then EntityStore.Update(s.entities, DataId, id, _ => GitlabData(id, Some(loadDt), loaded.value))
                    else s.entities;
    ProjectsState(entities, DataSync.SetLoading(s.ui, id, false), s.searchProjects, loaded.Some? || s.hasCache)
  }

  /** A whole `updateGitlabData` call, from the guard to the completion;
      `reply` is the outcome of the project request, if one is made. */
  function UpdateGitlabData(s: ProjectsState, configs: seq<GitlabConfig>, withArchivedProjects: bool,
                            id: string, force: bool, reply: Option<seq<Project>>, loadDt: string): (r: ProjectsState)
    ensures !NeedsReload(s, id, force) ==> r == s
    ensures NeedsReload(s, id, force) ==>
              var loaded := if LoadRequest(configs, id, withArchivedProjects).Success? then reply else None;
              r == FinishReload(BeginReload(s, id), id, loaded, loadDt)
  {
    if !NeedsReload(s, id, force) then s
    else
      var started := BeginReload(s, id);
      var loaded := if LoadRequest(configs, id, withArchivedProjects).Success? then reply else None;
      FinishReload(started, id, loaded, loadDt)
  }

  /** After a reload the instance is no longer loading; it keeps the loaded
      list when the request succeeded and is left empty otherwise. */
  lemma ReloadOutcome(s: ProjectsState, configs: seq<GitlabConfig>, withArchivedProjects: bool,
                      id: string, force: bool, reply: Option<seq<Project>>, loadDt: string, i: nat)
    requires NeedsReload(s, id, force)
    requires i < |s.entities| && s.entities[i].id == id
    ensures var r := UpdateGitlabData(s, configs, withArchivedProjects, id, force, reply, loadDt);
      && (id in s.ui ==> r.ui[id] == Some(false))
      && (EntityStore.HasKey(configs, ConfigId, id) && reply.Some? ==>
            r.entities[i] == GitlabData(id, Some(loadDt), reply.value) && r.hasCache)
      && (!EntityStore.HasKey(configs, ConfigId, id) || reply.None? ==> r.entities[i] == Blank(id))
  {
    var started := BeginReload(s, id);
    assert started.entities[i] == Blank(id);
  }

  /** A successful reload of a non-empty list is cached: the next unforced
      call for that instance, in a store with unique ids, issues no request. */
  lemma ReloadThenCached(s: ProjectsState, configs: seq<GitlabConfig>, withArchivedProjects: bool,
                         id: string, force: bool, projects: seq<Project>, loadDt: string, i: nat)
    requires NeedsReload(s, id, force) && EntityStore.UniqueKeys(s.entities, DataId)
    requires i < |s.entities| && s.entities[i].id == id
    requires EntityStore.HasKey(configs, ConfigId, id) && projects != []
    ensures !NeedsReload(UpdateGitlabData(s, configs, withArchivedProjects, id, force, Some(projects), loadDt), id, false)
  {
    var r := UpdateGitlabData(s, configs, withArchivedProjects, id, force, Some(projects), loadDt);
    ReloadOutcome(s, configs, withArchivedProjects, id, force, Some(projects), loadDt, i);
    assert forall k :: 0 <= k < |r.entities| ==> DataId(r.entities[k]) == DataId(s.entities[k]);
    assert EntityStore.UniqueKeys(r.entities, DataId);
    EntityStore.FindUnique(r.entities, DataId, i);
  }

  // ---------------------------------------------------------------------
  // Cache and selection
  // ---------------------------------------------------------------------

  /** `resetDataCache`: only the cache flag changes. */
  function ResetDataCache(s: ProjectsState): (r: ProjectsState)
    ensures !r.hasCache
    ensures r.entities == s.entities && r.ui == s.ui && r.searchProjects == s.searchProjects
  {
    s.(hasCache := false)
  }

  /** After a cache reset every instance reloads on its next call. */
  lemma ResetForcesReload(s: ProjectsState, id: string)
    ensures NeedsReload(ResetDataCache(s), id, false)
  {
  }

  /** `setSearchProjects`: the selection is replaced, nothing else. */
  function SetSearchProjects(s: ProjectsState, projects: seq<SearchProject>): (r: ProjectsState)
    ensures r.searchProjects == projects
    ensures r.entities == s.entities && r.ui == s.ui && r.hasCache == s.hasCache
  {
    s.(searchProjects := projects)
  }

  /** The queries read the selection just set. */
  lemma SelectionQueries(s: ProjectsState, projects: seq<SearchProject>)
    ensures ProjectQueries.ProjectSelected(SetSearchProjects(s, projects).searchProjects) <==> |projects| > 0
    ensures ProjectQueries.SelectedGitlabs(SetSearchProjects(s, projects).searchProjects)
            == ProjectQueries.SelectedGitlabs(projects)
  {
  }

  // ---------------------------------------------------------------------
  // Queries
  // ---------------------------------------------------------------------

  /** `getProjectByIDs`: the first project with that id in the instance's
      entry; nothing when the entry or the project is missing. */
  function GetProjectByIDs(s: ProjectsState, gitlabId: string, projectId: int): (r: Option<Project>)
    ensures !EntityStore.HasKey(s.entities, DataId, gitlabId) ==> r.None?
    ensures r.Some? ==> r.value.id == projectId
    ensures r.Some? ==> exists i :: 0 <= i < |s.entities| && s.entities[i].id == gitlabId && r.value in s.entities[i].projects
    ensures EntityStore.UniqueKeys(s.entities, DataId) ==>
              forall i :: 0 <= i < |s.entities| && s.entities[i].id == gitlabId ==>
                (r.None? <==> forall k :: 0 <= k < |s.entities[i].projects| ==> s.entities[i].projects[k].id != projectId)
  {
    match EntityStore.Find(s.entities, DataId, gitlabId)
    case None => None
    case Some(d) =>
      var r := ProjectQueries.FindProject(d.projects, projectId);
      assert EntityStore.UniqueKeys(s.entities, DataId) ==>
               forall i :: 0 <= i < |s.entities| && s.entities[i].id == gitlabId ==> s.entities[i] == d by {
        if EntityStore.UniqueKeys(s.entities, DataId) {
          forall i | 0 <= i < |s.entities| && s.entities[i].id == gitlabId
            ensures s.entities[i] == d
          {
            EntityStore.FindUnique(s.entities, DataId, i);
          }
        }
      }
      assert d in s.entities;
      r
  }

  /** `dataLoading()` after a completed reload reports the instance as not
      loading. */
  lemma NotLoadingAfterFinish(s: ProjectsState, id: string, loaded: Option<seq<Project>>, loadDt: string)
    requires id in s.ui
    ensures id in ProjectQueries.DataLoading(FinishReload(s, id, loaded, loadDt).ui)
    ensures !ProjectQueries.DataLoading(FinishReload(s, id, loaded, loadDt).ui)[id]
  {
  }
}
