/** The older `SearchParamsService` and `SearchParamsQuery`: the same sync
    and queries, entries that also hold groups, a reload without a force
    flag that does not empty the entry first, and a request without
    options. */
module SearchParams {
  import opened Wrappers
  import opened Seqs
  import opened GitlabModel
  import EntityStore
  import DataSync
  import ArrayDiff
  import ProjectQueries

  datatype Group = Group(id: int, name: string, fullPath: string)

  datatype GitlabData = GitlabData(id: string, groups: seq<Group>, projects: seq<Project>)

  datatype ParamsState = ParamsState(
    entities: seq<GitlabData>,
    ui: DataSync.LoadingFlags,
    searchProjects: seq<SearchProject>,
    hasCache: bool)

  function DataId(d: GitlabData): string {
    d.id
  }

  function Blank(id: string): (d: GitlabData)
    ensures d.id == id && d.groups == [] && d.projects == []
  {
    GitlabData(id, [], [])
  }

  /** The constructor's subscription: blank entries for new instances, in
      config order; entries of removed instances go, with their UI
      entities. */
  method SyncWithConfigs(s: ParamsState, configIds: seq<string>) returns (r: ParamsState)
    requires Distinct(configIds) && Distinct(DataSync.Keys(s.entities, DataId))
    ensures r.entities == DataSync.Synced(s.entities, DataId, Blank, configIds)
    ensures forall id :: id in r.ui ==> id in s.ui || id in configIds
    ensures forall id :: id in configIds && id !in DataSync.Keys(s.entities, DataId) ==> id in r.ui
    ensures forall id :: id in r.ui && id !in s.ui ==> r.ui[id] == Some(false)
    ensures forall id :: id in s.ui && id in DataSync.Keys(s.entities, DataId) && id !in configIds ==> id !in r.ui
    ensures forall id :: id in s.ui && (id in configIds || id !in DataSync.Keys(s.entities, DataId)) ==>
              id in r.ui && r.ui[id] == s.ui[id]
    ensures r.searchProjects == s.searchProjects && r.hasCache == s.hasCache
  {
    var entities, added, removed := DataSync.Sync(s.entities, DataId, Blank, configIds);
    forall id | id in added
      ensures id in configIds && id !in DataSync.Keys(s.entities, DataId)
    {
      ArrayDiff.RetainMembership(configIds, DataSync.Keys(s.entities, DataId), false, id);
    }
    forall id | id in configIds && id !in DataSync.Keys(s.entities, DataId)
      ensures id in added
    {
      ArrayDiff.RetainMembership(configIds, DataSync.Keys(s.entities, DataId), false, id);
    }
    var ui := DataSync.UiAfterRemove(DataSync.UiAfterAdd(s.ui, added), removed);
    r := ParamsState(entities, ui, s.searchProjects, s.hasCache);
  }

  /** The guard of `updateGitlabData`: a missing entry, an entry without
      projects or an invalidated cache; there is no force flag. */
  predicate NeedsReload(s: ParamsState, id: string) {
    || (match EntityStore.Find(s.entities, DataId, id)
        case None => true
        case Some(d) => |d.projects| == 0)
    || !s.hasCache
  }

  /** `getGitlabData`: the config to query, or the error for an instance
      that is not configured. */
  function LoadRequest(configs: seq<GitlabConfig>, id: string): (r: Result<GitlabConfig, string>)
    ensures r.Failure? <==> !EntityStore.HasKey(configs, ConfigId, id)
    ensures r.Failure? ==> r.error == "no such gitlab in config: " + id
    ensures r.Success? ==> r.value in configs && r.value.id == id
  {
    match EntityStore.Find(configs, ConfigId, id)
    case None => Failure("no such gitlab in config: " + id)
    case Some(config) => Success(config)
  }

  /** A whole `updateGitlabData` call. The loading flag is raised, then the
      loaded `{id, projects}` is merged into the entry, so its groups stay,
      and the cache is revalidated; on any outcome the flag is lowered. */
  function UpdateGitlabData(s: ParamsState, configs: seq<GitlabConfig>, id: string, reply: Option<seq<Project>>)
    : (r: ParamsState)
    ensures !NeedsReload(s, id) ==> r == s
    ensures NeedsReload(s, id) ==> r.ui == DataSync.SetLoading(s.ui, id, false)
    ensures NeedsReload(s, id) ==> |r.entities| == |s.entities| && r.searchProjects == s.searchProjects
    ensures NeedsReload(s, id) && LoadRequest(configs, id).Success? && reply.Some? ==>
              r.hasCache && forall i :: 0 <= i < |s.entities| ==>
                r.entities[i] == (if s.entities[i].id == id then s.entities[i].(projects := reply.value) else s.entities[i])
    ensures NeedsReload(s, id) && (LoadRequest(configs, id).Failure? || reply.None?) ==>
              r.entities == s.entities && r.hasCache == s.hasCache
  {
    if !NeedsReload(s, id) then s
    else
      var started := s.(ui := DataSync.SetLoading(s.ui, id, true));
      var loaded := if LoadRequest(configs, id).Success? then reply else None;
      var done := if loaded.Some? then
                    started.(entities := EntityStore.Update(started.entities, DataId, id, (d: GitlabData) => d.(projects := loaded.value)),
                             hasCache := true)
                  else started;
      done.(ui := DataSync.SetLoading(done.ui, id, false))
  }

  /** Unlike the newer service, a failed reload leaves the old entry in
      place: nothing is emptied before the request. */
  lemma FailedReloadKeepsEntry(s: ParamsState, configs: seq<GitlabConfig>, id: string)
    requires NeedsReload(s, id)
    ensures UpdateGitlabData(s, configs, id, None).entities == s.entities
    ensures id in s.ui ==> !ProjectQueries.DataLoading(UpdateGitlabData(s, configs, id, None).ui)[id]
  {
  }

  /** `setSearchProjects`: the selection is replaced, nothing else. */
  function SetSearchProjects(s: ParamsState, projects: seq<SearchProject>): (r: ParamsState)
    ensures r.searchProjects == projects
    ensures r.entities == s.entities && r.ui == s.ui && r.hasCache == s.hasCache
  {
    s.(searchProjects := projects)
  }

  /** `getProjectByIDs`: the first project with that id in the instance's
      entry; nothing when the entry or the project is missing. */
  function GetProjectByIDs(s: ParamsState, gitlabId: string, projectId: int): (r: Option<Project>)
    ensures !EntityStore.HasKey(s.entities, DataId, gitlabId) ==> r.None?
    ensures r.Some? ==> r.value.id == projectId
    ensures r.Some? ==> exists i :: 0 <= i < |s.entities| && s.entities[i].id == gitlabId && r.value in s.entities[i].projects
    ensures EntityStore.UniqueKeys(s.entities, DataId) ==>
              forall i :: 0 <= i < |s.entities| && s.entities[i].id == gitlabId ==>
                (r.None? <==> forall k :: 0 <= k < |s.entities[i].projects| ==> s.entities[i].projects[k].id != projectId)
  {
    match EntityStore.Find(s.entities, DataId, gitlabId)
    case None => None
    case Some(d) =>
      var r := ProjectQueries.FindProject(d.projects, projectId);
      assert EntityStore.UniqueKeys(s.entities, DataId) ==>
               forall i :: 0 <= i < |s.entities| && s.entities[i].id == gitlabId ==> s.entities[i] == d by {
        if EntityStore.UniqueKeys(s.entities, DataId) {
          forall i | 0 <= i < |s.entities| && s.entities[i].id == gitlabId
            ensures s.entities[i] == d
          {
            EntityStore.FindUnique(s.entities, DataId, i);
          }
        }
      }
      assert d in s.entities;
      r
  }
}
