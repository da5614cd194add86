# GitLab Search UI — a Dafny model of its decision logic

GitLab Search UI is a browser application. The user registers several GitLab
instances, each with a URL, an access token and an optional per-minute
request quota. The application loads each instance's projects, shows them as
a namespace tree with tri-state checkboxes, and runs a code ("blob") search
over the selected projects of all instances. Results are shown with a
highlight language and a deep link to the matching line.

This project models the logic under the UI and the RxJS/HTTP plumbing:

- the GitLab API helpers: version parsing, the offset-or-keyset pagination
  choice, page following, the `Link` header capture and the request options;
- the per-instance rate limiter, as a count/timer/held-requests state machine;
- the config registry, which keeps one limiter per rate-limited instance;
- the search orchestrator, as a state machine stepped by "project searched",
  "rate-limit wait" and "stop" events;
- reconciliation of per-instance project data with the configs, and the
  cache-reload decisions, in both the current and the older store;
- the selection model keyed by a `trackBy` function;
- the namespace tree builder and the checkbox logic of the search form;
- the small helpers: language by extension, deep-link line number,
  `objectValues`, the type guards and the persisted-state hooks.

Time, HTTP replies, `guid()` and `new Date()` are inputs to the model.
Asynchronous flows become explicit events, handled one at a time. JavaScript
values that the code inspects dynamically (`typeof`, truthiness, `for … in`)
are a small `JsValue.Value` datatype. JavaScript `Set`s and `Map`s built from
arrays are sequences without repeats, in insertion order.

Modules (one per source file or component, plus shared helpers):
`Wrappers`, `Strings`, `Seqs`, `JsValue`, `EntityStore` (Akita entity-store
semantics), `GitlabModel`, `GitlabApi`, `RateLimit`, `ConfigRegistry`,
`LegacyConfig`, `ArrayDiff`, `DataSync`, `GitlabProjects`, `SearchParams`,
`ProjectQueries`, `SearchGrouping`, `SearchOrchestrator`, `SelectionModel`,
`NamespaceTree`, `LeafDescendants`, `TreeSelection`, `ResultView`,
`ObjectValues`, `TypeGuards`, `PersistState`.

## Model

| member | source | states |
|---|---|---|
| GitlabApi.ParseVersion | src/app/gitlab-api.service.ts:148-151 | A missing version object or an empty version string parses to nothing. |
| GitlabApi.ParseVersionRoundTrip | src/app/gitlab-api.service.ts:152-161 | A string of three dot-separated digit runs, followed by anything that does not start with a digit, parses to the decimal values of the three runs; the suffix is ignored. |
| GitlabApi.ParseVersionAt | src/app/gitlab-api.service.ts:152-161 | The same result, stated by the positions of the three digit runs and the two dots in the string. |
| GitlabApi.ParseVersionShape | src/app/gitlab-api.service.ts:152-161 | Conversely, every successful parse comes from such a string, and its numbers are the decimal values of the three runs. |
| GitlabApi.PaginationByVersion | src/app/gitlab-api.service.ts:58-64 | For a well-formed version, offset pagination is chosen exactly when major < 13 and minor < 1; keyset otherwise. |
| GitlabApi.UnknownVersionUsesOffset | src/app/gitlab-api.service.ts:59-61 | A missing or empty version selects offset pagination. |
| GitlabApi.Version12_5UsesKeyset | src/app/gitlab-api.service.ts:60 | Both clauses are needed for offset: 12.5.0 has a non-zero minor and uses keyset pagination. |
| GitlabApi.Version12_0UsesOffset | src/app/gitlab-api.service.ts:60 | 12.0.3 uses offset pagination. |
| GitlabApi.Version13UsesKeyset | src/app/gitlab-api.service.ts:152 | "13.0.0-ee" parses despite its suffix and uses keyset pagination. |
| GitlabApi.LastPageFirstLength | src/app/gitlab-api.service.ts:97 | The combined result is as long as all page bodies together. |
| GitlabApi.OffsetChain | src/app/gitlab-api.service.ts:104-129 | If pages before `k` ask for more and page `k` stops, the run returns the bodies of those pages, last page first, and reads no reply after page `k`. |
| GitlabApi.OffsetConstantTotal | src/app/gitlab-api.service.ts:120-124 | With a constant `x-total-pages` header T, exactly pages 1..T are fetched and returned last page first. |
| GitlabApi.OffsetErrorFails | src/app/gitlab-api.service.ts:117-126 | Offset mode has no error handler: a failed page fails the whole run. |
| GitlabApi.TotalPagesHeaderExamples | src/app/gitlab-api.service.ts:120-121 | A missing, empty or non-numeric header parses to NaN, so the run stops; "0" parses to 0, which also stops it. |
| GitlabApi.LinkHeader | src/app/gitlab-api.service.ts:87 | The `Link` header is used when it is present and non-empty; otherwise `Links` is used. |
| GitlabApi.KeysetStep | src/app/gitlab-api.service.ts:86-91 | A failed keyset request becomes an empty page with no next link. |
| GitlabApi.KeysetFrom | src/app/gitlab-api.service.ts:66-101 | Keyset page following never fails as a whole. |
| GitlabApi.KeysetChain | src/app/gitlab-api.service.ts:92-98 | While replies carry a next link the chain continues; it ends at the first reply without one. The pages come last page first, and no later reply is read. |
| GitlabApi.KeysetFailureTruncates | src/app/gitlab-api.service.ts:91 | A failed page ends the run with exactly the pages fetched before it, and nothing is requested after it. |
| GitlabApi.FindLink | src/app/gitlab-api.service.ts:143-144 | It finds the match a backtracking engine reports for `<(.*)>; rel="(\w*)"`: the leftmost `<`, then the longest capture; it finds none exactly when no match exists. |
| GitlabApi.ParseLink | src/app/gitlab-api.service.ts:139-146 | A null header gives null. Otherwise the result is null exactly when no match exists, and else is the capture of the preferred match. |
| GitlabApi.ParseLinkCapture | src/app/gitlab-api.service.ts:143-145 | `<u>; rel="w"` yields `u` whatever the word `w` is; the rel value is never checked. |
| GitlabApi.ParseLinkAt | src/app/gitlab-api.service.ts:143-145 | A match at the start of the header whose close is the last one captures everything up to that close. |
| GitlabApi.ParseLinkGreedyExample | src/app/gitlab-api.service.ts:143 | For a prev/next header pair, the greedy capture spans from the first `<` to the last `>; rel=`. |
| GitlabApi.GetProjOptions | src/app/gitlab-api.service.ts:164-173 | `membership` is "true" unless the caller sets it. Every caller key appears, stringified, and caller values win. `archived` appears only when the caller sets it. |
| GitlabApi.KeysetParams | src/app/gitlab-api.service.ts:69-76 | The first keyset request sends simple, per_page 50, order_by id and pagination keyset, plus every project option. |
| GitlabApi.OffsetParams | src/app/gitlab-api.service.ts:106-113 | An offset request sends simple, per_page 50, the page number in decimal and order_by id, plus every project option. |
| GitlabApi.GetAllProjects | src/app/gitlab-api.service.ts:58-64 | The version selects the strategy. Offset mode returns the offset run; keyset mode never fails. |
| GitlabApi.TagRows | src/app/gitlab-api.service.ts:42-55 | Every search row is tagged with the instance id, and the row count and order are kept. |
| RateLimit.Init | src/app/gitlab-config/rate-limit-controller.class.ts:7-13 | A new controller has count 0, no held requests, no timer and an open reset channel. |
| RateLimit.Subscribe | src/app/gitlab-config/rate-limit-controller.class.ts:15-29 | At the limit, a request is held without counting it, or passes at once after destroy. Below the limit, the count rises by exactly 1 and the request passes through. A new reset timer starts when the count becomes 1 or the previous timer has closed, including after destroy; otherwise the running timer is kept. |
| RateLimit.Released | src/app/gitlab-config/rate-limit-controller.class.ts:18 | Releasing held requests keeps their order. Each gets a wait event first when the reset fires, and none after destroy. |
| RateLimit.Fire | src/app/gitlab-config/rate-limit-controller.class.ts:22-25 | The timer resets the count to 0 and releases every held request with a wait event. |
| RateLimit.Destroy | src/app/gitlab-config/rate-limit-controller.class.ts:31-34 | Destroy cancels the timer and closes the reset channel; held requests run at once, without a wait event. |
| RateLimit.InitValid | src/app/gitlab-config/rate-limit-controller.class.ts:7-13 | With limit ≥ 1 the new controller satisfies the bound invariant 0 ≤ count ≤ limit. |
| RateLimit.SubscribePreservesValid | src/app/gitlab-config/rate-limit-controller.class.ts:15-29 | A request keeps the invariant. |
| RateLimit.FirePreservesValid | src/app/gitlab-config/rate-limit-controller.class.ts:22-25 | A timer firing keeps the invariant. |
| RateLimit.DestroyPreservesValid | src/app/gitlab-config/rate-limit-controller.class.ts:31-34 | Destroy keeps the invariant. |
| RateLimit.DestroyedNeverHolds | src/app/gitlab-config/rate-limit-controller.class.ts:17-18 | After destroy, no request is ever held. |
| RateLimit.Run | src/app/gitlab-config/rate-limit-controller.class.ts:15-29 | A burst of requests emits at most one item per request and keeps the limit and channel state. |
| RateLimit.RunWithinWindow | src/app/gitlab-config/rate-limit-controller.class.ts:15-29 | Within one window the first `limit - count` requests pass through and the rest are held in arrival order. The count stops at the limit and the invariant holds. |
| RateLimit.BurstThenReset | src/app/gitlab-config/rate-limit-controller.class.ts:15-25 | From a new controller, `limit` requests pass, a timer runs, and its firing releases the rest with wait events and resets the count. |
| ConfigRegistry.InitialState | src/app/gitlab-config/state/gitlab-config.store.ts:21-30 | The store starts with no configs, theme mode auto and archived projects hidden. |
| ConfigRegistry.Start | src/app/gitlab-config/state/gitlab-config.service.ts:13-14 | The service starts with the initial store, no limiters and alive. |
| ConfigRegistry.LimitersFor | src/app/gitlab-config/state/gitlab-config.service.ts:20-24 | A limiter exists exactly for the ids of configs with a positive rate limit, each one fresh for that limit. |
| ConfigRegistry.Rehydrate | src/app/gitlab-config/state/gitlab-config.service.ts:17-25 | After rehydration the state is the persisted one, and the limiters are exactly those of the persisted configs with a positive limit; after destroy nothing happens. |
| ConfigRegistry.RehydrateValid | src/app/gitlab-config/state/gitlab-config.service.ts:17-25 | Rehydration keeps ids unique and every limiter valid. |
| ConfigRegistry.Add | src/app/gitlab-config/state/gitlab-config.service.ts:36-47 | Nothing changes until the version reply arrives. Then the config is stored with the fresh id and the fetched version, and a fresh limiter is registered only for a positive limit. Other limiters are untouched. |
| ConfigRegistry.AddValid | src/app/gitlab-config/state/gitlab-config.service.ts:36-47 | `add` keeps ids unique and limiters valid. |
| ConfigRegistry.ApplyPatch | src/app/gitlab-config/state/gitlab-config.service.ts:50 | Each field given in the patch replaces the stored one, the others are kept, and the id never changes. |
| ConfigRegistry.Unregister | src/app/gitlab-config/state/gitlab-config.service.ts:51-54 | A registered limiter is destroyed, its destroy emissions are returned, and it is deleted; other limiters stay. |
| ConfigRegistry.Update | src/app/gitlab-config/state/gitlab-config.service.ts:49-58 | The patch is applied to that id only. The old limiter is destroyed. A new one exists exactly when the patch carries a positive limit. |
| ConfigRegistry.UpdateValid | src/app/gitlab-config/state/gitlab-config.service.ts:49-58 | `update` keeps ids unique and limiters valid. |
| ConfigRegistry.UpdateWithoutRateLimitUnlimits | src/app/gitlab-config/state/gitlab-config.service.ts:55-57 | A patch without a rate limit keeps the stored limit but leaves the instance without a limiter. |
| ConfigRegistry.Remove | src/app/gitlab-config/state/gitlab-config.service.ts:60-66 | The config is deleted, its limiter is destroyed and removed, and other ids are untouched. |
| ConfigRegistry.RemoveValid | src/app/gitlab-config/state/gitlab-config.service.ts:60-66 | `remove` keeps ids unique and limiters valid. |
| ConfigRegistry.ToggleThemeMode | src/app/gitlab-config/state/gitlab-config.service.ts:68-72 | Toggling touches only the theme mode. |
| ConfigRegistry.ToggleThemeModeTwice | src/app/gitlab-config/state/gitlab-config.service.ts:68-72 | Light maps to dark, and dark and auto map to light. The result is never auto, toggling twice restores light or dark, and auto becomes dark after two toggles. |
| ConfigRegistry.SetFilter | src/app/gitlab-config/state/gitlab-config.service.ts:74-77 | Setting the filter touches only the filter. |
| ConfigRegistry.SetFilterMerge | src/app/gitlab-config/state/gitlab-config.service.ts:74-77 | An empty patch changes nothing, a patch applied twice acts once, and two patches act like their merge. |
| ConfigRegistry.ApplyVersions | src/app/gitlab-config/state/gitlab-config.service.ts:94-98 | The transaction keeps the number of configs and their ids. |
| ConfigRegistry.UpdateVersions | src/app/gitlab-config/state/gitlab-config.service.ts:79-101 | The refresh changes only configs; limiters, theme and filter are kept, and nothing changes after destroy. |
| ConfigRegistry.UpdateVersionsInPlace | src/app/gitlab-config/state/gitlab-config.service.ts:92-99 | Each config whose fetch succeeded gets the new version, and each whose fetch failed keeps its old one. |
| ConfigRegistry.ApplyVersionsPrefix | src/app/gitlab-config/state/gitlab-config.service.ts:94-98 | After the first n replies, exactly the configs among them with a successful reply carry their new version. |
| ConfigRegistry.ApplyVersionsAt | src/app/gitlab-config/state/gitlab-config.service.ts:94-98 | The same, for one position whose id no other config shares. |
| ConfigRegistry.UpdateVersionsSkipsUnknown | src/app/gitlab-config/state/gitlab-config.service.ts:96 | A config that is absent from the snapshot is untouched by the refresh. |
| ConfigRegistry.GetGitlabRequest | src/app/gitlab-config/state/gitlab-config.service.ts:103-108 | A request goes through the instance's limiter exactly when one is registered; otherwise it passes unchanged. |
| ConfigRegistry.RequestValid | src/app/gitlab-config/state/gitlab-config.service.ts:103-108 | A request keeps the registry invariant. |
| ConfigRegistry.TimerFired | src/app/gitlab-config/rate-limit-controller.class.ts:22-25 | A reset timer firing steps only that instance's limiter. |
| ConfigRegistry.TimerFiredValid | src/app/gitlab-config/rate-limit-controller.class.ts:22-25 | A timer firing keeps the registry invariant. |
| ConfigRegistry.ServiceDestroy | src/app/gitlab-config/state/gitlab-config.service.ts:28-34 | Destroy ends the service and destroys every limiter, keeping the state. |
| LegacyConfig.InitialState | src/app/state/gitlab-config.store.ts:16-22 | The older store starts empty in light mode. |
| LegacyConfig.Add | src/app/state/gitlab-config.service.ts:10-12 | The config is appended under the fresh id, keys stay unique, and the theme is kept. |
| LegacyConfig.ApplyPatch | src/app/state/gitlab-config.service.ts:14-16 | Given fields replace stored ones, the others are kept, and the id never changes. |
| LegacyConfig.Update | src/app/state/gitlab-config.service.ts:14-16 | Only configs with the given id are patched. |
| LegacyConfig.Remove | src/app/state/gitlab-config.service.ts:18-20 | Exactly the configs with other ids remain. The list is the entity-store removal, so they keep their order (`EntityStore.RemoveFilters`). |
| LegacyConfig.ToggleThemeMode | src/app/state/gitlab-config.service.ts:22-26 | The mode always changes, and the configs are kept. |
| LegacyConfig.ToggleThemeModeInvolution | src/app/state/gitlab-config.service.ts:22-26 | With only light and dark, toggling twice restores the state. |
| ArrayDiff.Retain | src/app/utils/array-diff.ts:20-31 | Filtering by membership in another collection never lengthens the input. |
| ArrayDiff.RetainMembership | src/app/utils/array-diff.ts:20-31 | An element is kept exactly when it is in the input and its membership in the other collection is the one asked for. |
| ArrayDiff.SetDiffPartition | src/app/utils/array-diff.ts:18-33 | added = curr \ prev, common = curr ∩ prev and removed = prev \ curr. The three are pairwise disjoint, added ∪ common = curr and removed ∪ common = prev. |
| ArrayDiff.DiffWithItself | src/app/utils/array-diff.ts:18-33 | Diffing a set with itself gives nothing added or removed, and common is the set. |
| ArrayDiff.DiffSets | src/app/utils/array-diff.ts:18-33 | The two loops compute the set difference, and each part has no repeats. |
| ArrayDiff.DiffArraysWithSets | src/app/utils/array-diff.ts:35-43 | Duplicates are dropped and the membership laws hold. The parts follow first-occurrence order: curr for added and common, prev for removed. |
| DataSync.Select | src/app/gitlab-projects/state/gitlab-projects.service.ts:28-29 | Exactly the entries whose key has the asked-for membership are kept. |
| DataSync.Sync | src/app/gitlab-projects/state/gitlab-projects.service.ts:24-39 | The diff, add and remove steps give the synced entries. The added ids are the config ids without an entry; the removed ids are the stored ids without a config. |
| DataSync.SyncSteps | src/app/gitlab-projects/state/gitlab-projects.service.ts:25-38 | Adding blanks for the diff's added ids and then removing its removed ids equals the synced entries. |
| DataSync.AddAllFresh | src/app/gitlab-projects/state/gitlab-projects.service.ts:36 | Adding entries whose ids are all new appends them in order. |
| DataSync.SyncedKeys | src/app/gitlab-projects/state/gitlab-projects.service.ts:24-39 | After sync, the stored ids are exactly the config ids. |
| DataSync.SyncedEntries | src/app/gitlab-projects/state/gitlab-projects.service.ts:24-39 | Entries of kept ids stay unchanged. Every entry is either such an entry or a blank for a new config id. |
| DataSync.UiAfterAdd | src/app/gitlab-projects/state/gitlab-projects.store.ts:24-26 | Added ids get UI entities with `isLoading` false, and existing UI entities are kept. |
| DataSync.UiAfterRemove | src/app/gitlab-projects/state/gitlab-projects.service.ts:37 | Exactly the UI entities of removed ids go; the others are kept. |
| DataSync.SetLoading | src/app/gitlab-projects/state/gitlab-projects.service.ts:47-50 | Only the flag of the given id changes, and only if the id has a UI entity. |
| GitlabProjects.Blank | src/app/gitlab-projects/state/gitlab-projects.service.ts:30-34 | A new instance's entry has no load date and no projects. |
| GitlabProjects.InitialState | src/app/gitlab-projects/state/gitlab-projects.store.ts:20-27 | The store starts empty, with no selection and no cache. |
| GitlabProjects.SyncWithConfigs | src/app/gitlab-projects/state/gitlab-projects.service.ts:20-40 | Entries are synced with the config ids. New ids get UI entities with `isLoading` false, and UI entities of removed ids go. Other UI entities, the selection and the cache flag are kept. |
| GitlabProjects.BeginReload | src/app/gitlab-projects/state/gitlab-projects.service.ts:45-51 | The reloaded entry is reset to blank and marked loading; everything else is kept. |
| GitlabProjects.LoadRequest | src/app/gitlab-projects/state/gitlab-projects.service.ts:89-97 | An unknown instance gives the "no such gitlab in config" error. Otherwise the request uses its config and sends `archived=false` exactly when archived projects are hidden. |
| GitlabProjects.FinishReload | src/app/gitlab-projects/state/gitlab-projects.service.ts:55-66 | A successful load stores the projects with the load date and sets the cache flag. On any outcome loading ends. |
| GitlabProjects.UpdateGitlabData | src/app/gitlab-projects/state/gitlab-projects.service.ts:42-71 | Without the need to reload nothing changes. Otherwise the begin step runs, then the finish step with the reply, or with a failure for an unknown instance. |
| GitlabProjects.ReloadOutcome | src/app/gitlab-projects/state/gitlab-projects.service.ts:44-66 | After a reload, loading is false. A known instance with a reply has its projects and the cache is set; a failure leaves the entry blank. |
| GitlabProjects.ReloadThenCached | src/app/gitlab-projects/state/gitlab-projects.service.ts:44-59 | After a successful reload with projects, a second unforced call does not reload. |
| GitlabProjects.ResetDataCache | src/app/gitlab-projects/state/gitlab-projects.service.ts:73-75 | Only the cache flag is cleared. |
| GitlabProjects.ResetForcesReload | src/app/gitlab-projects/state/gitlab-projects.service.ts:73-75 | After a cache reset, every instance reloads. |
| GitlabProjects.SetSearchProjects | src/app/gitlab-projects/state/gitlab-projects.service.ts:77-82 | Only the selection is replaced. |
| GitlabProjects.SelectionQueries | src/app/gitlab-projects/state/gitlab-projects.query.ts:17-23 | After setting a selection, "project selected" holds iff it is non-empty, and the selected instances are those of the new selection. |
| GitlabProjects.GetProjectByIDs | src/app/gitlab-projects/state/gitlab-projects.query.ts:25-27 | A missing instance gives nothing, and a found project has the id and belongs to that instance. With unique entries, nothing is found iff no project of the instance has the id. |
| GitlabProjects.NotLoadingAfterFinish | src/app/gitlab-projects/state/gitlab-projects.service.ts:61-66 | After the finish step, the instance reads as not loading. |
| SearchParams.Blank | src/app/search-params/state/search-params.service.ts:33-37 | A new instance's entry has no groups and no projects. |
| SearchParams.SyncWithConfigs | src/app/search-params/state/search-params.service.ts:21-43 | The older store syncs its entries and UI entities with the config ids, as the current one does. |
| SearchParams.LoadRequest | src/app/search-params/state/search-params.service.ts:88-92 | An unknown instance gives the "no such gitlab in config" error; otherwise its config is used. |
| SearchParams.UpdateGitlabData | src/app/search-params/state/search-params.service.ts:45-74 | There is no force flag and no blanking. A reload stores the reply's projects and sets the cache; a failure keeps the entry. Loading ends either way. |
| SearchParams.FailedReloadKeepsEntry | src/app/search-params/state/search-params.service.ts:52-69 | A failed reload keeps the entries and ends loading. |
| SearchParams.SetSearchProjects | src/app/search-params/state/search-params.service.ts:76-81 | Only the selection is replaced. |
| SearchParams.GetProjectByIDs | src/app/search-params/state/search-params.query.ts:25-27 | The same lookup laws as in the current store. |
| ProjectQueries.ProjectSelected | src/app/gitlab-projects/state/gitlab-projects.query.ts:17-19 | It holds iff the selection is non-empty. |
| ProjectQueries.GitlabIds | src/app/gitlab-projects/state/gitlab-projects.query.ts:22 | The instance id of each selected project, in order. |
| ProjectQueries.SelectedGitlabs | src/app/gitlab-projects/state/gitlab-projects.query.ts:21-23 | The distinct instance ids of the selection. |
| ProjectQueries.SelectedGitlabsOrder | src/app/gitlab-projects/state/gitlab-projects.query.ts:21-23 | They come in order of first appearance. |
| ProjectQueries.FindProject | src/app/gitlab-projects/state/gitlab-projects.query.ts:26 | The first project with the id, or nothing iff none has it. |
| ProjectQueries.DataLoading | src/app/gitlab-projects/state/gitlab-projects.query.ts:29-41 | One key per UI entity; the value is true iff `isLoading` is true, and it defaults to false. |
| ProjectQueries.DataLoadingCopy | src/app/search-params/state/search-params.query.ts:29-41 | The older query copies `isLoading` per UI entity, with no default. |
| ProjectQueries.DataLoadingVariants | src/app/search-params/state/search-params.query.ts:35 | The two variants agree where the flag is set; the newer one reads false where it is missing. |
| SearchGrouping.GroupByConfig | src/app/search-result/state/search-result.service.ts:33-42 | The `forEach` with its index map computes the grouping of the selection. |
| SearchGrouping.AddPair | src/app/search-result/state/search-result.service.ts:35-41 | One turn of the loop extends the grouping by one selected project and keeps the index map exact. |
| SearchGrouping.GroupingSnocPresent | src/app/search-result/state/search-result.service.ts:36-37 | The grouping of a longer selection extends the existing group. |
| SearchGrouping.GroupingSnocAbsent | src/app/search-result/state/search-result.service.ts:38-40 | The grouping of a longer selection gains a new group at the end. |
| SearchGrouping.GroupingShape | src/app/search-result/state/search-result.service.ts:33-42 | There is one group per distinct instance, in order of first appearance. Each group lists its instance's project ids in selection order, and the sizes add up to the selection length. |
| SearchGrouping.GroupingSize | src/app/search-result/state/search-result.service.ts:33-42 | The group sizes add up to the selection length. |
| SearchOrchestrator.Initial | src/app/search-result/state/search-result.store.ts:20-27 | No rows, not loading, no progress, no live search. |
| SearchOrchestrator.Branches | src/app/search-result/state/search-result.service.ts:39 | Branches are built iff every group's instance has a config. Each branch then holds its config and its group's project ids; otherwise the error names a missing instance. |
| SearchOrchestrator.Prepare | src/app/search-result/state/search-result.service.ts:27-42 | An empty query or a missing or empty selection is ignored. A started run has total = selection length, done 0, and one branch per group. |
| SearchOrchestrator.Reset | src/app/search-result/state/search-result.service.ts:67-71 | The reset transaction empties the rows and sets progress to {0, total}. It ends with loading off, because `set([])` clears the flag that `setLoading(true)` raised. |
| SearchOrchestrator.Search | src/app/search-result/state/search-result.service.ts:27-83 | An ignored search changes nothing. A started one resets the store and adds a live run, leaving earlier runs alive; a rejected one changes nothing. |
| SearchOrchestrator.SearchExclusive | src/app/search-result/state/search-result.service.ts:72-81 | A new search that first ends any earlier run leaves exactly one live run. |
| SearchOrchestrator.SearchExclusiveIsStopThenSearch | src/app/search-result/state/search-result.service.ts:97-99 | The exclusive search is `stopSearching()` followed by `search()`. |
| SearchOrchestrator.DecorateAll | src/app/search-result/state/search-result.service.ts:111-118 | Every row of a batch is decorated, and the count and order are kept. |
| SearchOrchestrator.Enrich | src/app/search-result/state/search-result.service.ts:106-128 | Every row gets the instance URL. Project URL and name are set iff the project is found. A failed request yields an empty batch when the error handler can name the project. |
| SearchOrchestrator.WithIds | src/app/search-result/state/search-result.service.ts:56 | Each row gets its own `guid()`, in order. |
| SearchOrchestrator.GuidFreshBatch | src/app/search-result/state/search-result.service.ts:56 | Fresh guids make a batch whose ids repeat neither among themselves nor in the store. |
| SearchOrchestrator.UpsertFresh | src/app/search-result/state/search-result.service.ts:55-58 | Upserting a batch with fresh ids appends it. |
| SearchOrchestrator.IdleIffNothingPending | src/app/search-result/state/search-result.service.ts:72 | `forkJoin` completes exactly when no branch has a project left. |
| SearchOrchestrator.Finalize | src/app/search-result/state/search-result.service.ts:74-79 | A run's finalization clears loading and progress, keeps the rows and ends that run. |
| SearchOrchestrator.Record | src/app/search-result/state/search-result.service.ts:51-59 | One finished project raises done by 1, keeps total and keeps loading. The batch is upserted with fresh ids, and only that branch advances. |
| SearchOrchestrator.Settle | src/app/search-result/state/search-result.service.ts:72-79 | A run with no work left is finalized; otherwise nothing changes. |
| SearchOrchestrator.Stop | src/app/search-result/state/search-result.service.ts:97-104 | Stop or destroy ends every run and keeps the rows. Loading and progress are cleared when a run was live. |
| SearchOrchestrator.Step | src/app/search-result/state/search-result.service.ts:46-83 | A wait event changes nothing and a stop stops. A search reply is recorded and settled, while a failure that escapes the handler finalizes the run. |
| SearchOrchestrator.InitialCoherent | src/app/search-result/state/search-result.store.ts:20-27 | The initial state is coherent: at most one run, and the store shows it. A live run shows loading exactly once a project has answered. |
| SearchOrchestrator.PendingOfBranches | src/app/search-result/state/search-result.service.ts:46-48 | The branches hold as many project searches as the selection has projects. |
| SearchOrchestrator.SearchExclusiveCoherent | src/app/search-result/state/search-result.service.ts:67-72 | An exclusive search keeps the store coherent. |
| SearchOrchestrator.StopCoherent | src/app/search-result/state/search-result.service.ts:74-80 | Stop keeps the store coherent. |
| SearchOrchestrator.ProjectSearchedCoherent | src/app/search-result/state/search-result.service.ts:51-59 | A finished project search keeps the store coherent when the guids are fresh. |
| SearchOrchestrator.StepCoherent | src/app/search-result/state/search-result.service.ts:46-83 | Every enabled event keeps the store coherent. |
| SearchOrchestrator.OverlappingSearchesMix | src/app/search-result/state/search-result.service.ts:72-81 | Two searches in a row leave two runs alive. When the first one finishes, its rows appear under the second query and loading and progress are cleared while the second run is still live. |
| SelectionModel.Values | src/app/search-form/selection-model-track-by.class.ts:12 | The stored values in insertion order. |
| SelectionModel.EmptyIffNothingSelected | src/app/search-form/selection-model-track-by.class.ts:52-62 | `isEmpty` holds iff no value is selected, and `hasValue` is its negation. |
| SelectionModel.Delete | src/app/search-form/selection-model-track-by.class.ts:86 | `Map.delete` keeps, in insertion order, exactly the entries under other keys. |
| SelectionModel.DeleteKeys | src/app/search-form/selection-model-track-by.class.ts:84-88 | Deleting removes exactly that key. |
| SelectionModel.DeleteValid | src/app/search-form/selection-model-track-by.class.ts:84-88 | Deleting removes exactly that key and keeps the map well formed. |
| SelectionModel.UnmarkEachValid | src/app/search-form/selection-model-track-by.class.ts:39 | Unmarking values removes exactly their keys and keeps the map well formed. |
| SelectionModel.UnmarkEachFilters | src/app/search-form/selection-model-track-by.class.ts:37-41 | Unmarking some values keeps, in insertion order, exactly the entries whose key is none of the values' keys. |
| SelectionModel.UnmarkEachSubset | src/app/search-form/selection-model-track-by.class.ts:37-41 | Unmarking only ever drops entries. |
| SelectionModel.UnmarkAllEmpties | src/app/search-form/selection-model-track-by.class.ts:96-100 | Unmarking every stored value empties a well-formed map. |
| SelectionModel.Mark | src/app/search-form/selection-model-track-by.class.ts:75-82 | A value whose key is present is not stored again. |
| SelectionModel.MarkValid | src/app/search-form/selection-model-track-by.class.ts:75-82 | After marking, the value's key is present and the map is well formed. Multiple mode only adds that key after the old entries; single mode keeps at most one entry. |
| SelectionModel.MarkEachValid | src/app/search-form/selection-model-track-by.class.ts:33 | Marking values adds exactly their keys in multiple mode, and keeps at most one entry in single mode. |
| SelectionModel.VerifyValueAssignment | src/app/search-form/selection-model-track-by.class.ts:90-94 | The error is raised iff more than one value is passed in single mode. |
| SelectionModel.Select | src/app/search-form/selection-model-track-by.class.ts:31-35 | `select` fails exactly under that error, and otherwise drops the cache. |
| SelectionModel.SelectValid | src/app/search-form/selection-model-track-by.class.ts:31-35 | `select` keeps the model well formed. Multiple mode adds exactly the values' keys and keeps the old entries; single mode keeps at most one entry. |
| SelectionModel.SelectSingleReplaces | src/app/search-form/selection-model-track-by.class.ts:77-80 | In single mode, selecting an unselected value replaces the selection with it. |
| SelectionModel.SelectPresentKeepsStored | src/app/search-form/selection-model-track-by.class.ts:76 | Selecting a value whose key is present keeps the stored value. |
| SelectionModel.Deselect | src/app/search-form/selection-model-track-by.class.ts:37-41 | `deselect` fails exactly under that error. Otherwise it removes exactly the values' keys, and the other entries keep their insertion order. |
| SelectionModel.DeselectValid | src/app/search-form/selection-model-track-by.class.ts:37-41 | `deselect` keeps the model well formed. |
| SelectionModel.DeselectKeepsStored | src/app/search-form/selection-model-track-by.class.ts:37-41 | `deselect` only drops entries. |
| SelectionModel.Toggle | src/app/search-form/selection-model-track-by.class.ts:43-45 | `toggle` drops the cache and keeps the mode. |
| SelectionModel.ToggleFlips | src/app/search-form/selection-model-track-by.class.ts:43-45 | `toggle` flips `isSelected(value)`, keeps the model well formed, and in multiple mode leaves other keys alone. |
| SelectionModel.Clear | src/app/search-form/selection-model-track-by.class.ts:47-50 | `clear` empties a well-formed map and drops the cache. |
| SelectionModel.Selected | src/app/search-form/selection-model-track-by.class.ts:10-15 | Reading `selected` caches the returned list and leaves the map unchanged. |
| SelectionModel.SelectedReflectsEntries | src/app/search-form/selection-model-track-by.class.ts:10-15 | The list read is always the stored values in insertion order, because every mutation drops the cache. |
| SelectionModel.New | src/app/search-form/selection-model-track-by.class.ts:17-29 | The constructor fixes the mode and starts without a cache. |
| SelectionModel.NewSelects | src/app/search-form/selection-model-track-by.class.ts:17-29 | Multiple mode marks every initial value; single mode marks only the first. No initial values give an empty model. |
| NamespaceTree.NodeKey | src/app/search-form/search-form.component.ts:117-127 | A root's key is its instance id. A namespace's key is exactly `<gitlab_id>_ns_<name>`. A project's key starts with `<gitlab_id>_project_`, and the rest parses back to the project id. A non-root item whose instance id is empty has no key. |
| NamespaceTree.ProjectKeysIdentifyProjects | src/app/search-form/search-form.component.ts:122-125 | Within an instance, two project keys are equal iff the project ids are, and no project key equals a namespace key. |
| NamespaceTree.FilterQuery | src/app/search-form/search-form.component.ts:352 | The normalised query is lower-case and has no leading or trailing white space; a missing or empty query gives "". |
| NamespaceTree.FilterData | src/app/search-form/search-form.component.ts:351-361 | Every instance keeps its id and load date, and its projects are filtered by the normalised query. |
| NamespaceTree.FilterDataMembers | src/app/search-form/search-form.component.ts:357 | A project is kept iff its lower-cased `name_with_namespace` contains the query. |
| NamespaceTree.EmptyQueryKeepsAll | src/app/search-form/search-form.component.ts:352-357 | An empty query keeps all data. |
| NamespaceTree.NsPath | src/app/search-form/search-form.component.ts:234-240 | There is no namespace path exactly when the name has fewer than two `' / '` segments. Otherwise the path is every segment but the last, so the path plus the last segment, joined with `' / '`, gives back `name_with_namespace`. |
| NamespaceTree.NsIndex | src/app/search-form/search-form.component.ts:247-251 | The position of a segment in its level, or nothing iff the segment is absent. |
| NamespaceTree.Insert | src/app/search-form/search-form.component.ts:242-257 | Inserting below a non-empty path leaves the projects of the current level alone. |
| NamespaceTree.Place | src/app/search-form/search-form.component.ts:233-257 | Placing a project never adds to the top level's project list. |
| NamespaceTree.GroupProjects | src/app/search-form/search-form.component.ts:231-260 | The top level of the grouping holds no projects. |
| NamespaceTree.InsertCount | src/app/search-form/search-form.component.ts:244-256 | An insert adds exactly one copy of the project, at exactly its path. |
| NamespaceTree.InsertWellFormed | src/app/search-form/search-form.component.ts:247-252 | Inserting keeps each segment unique at every level. |
| NamespaceTree.GroupProjectsPlacement | src/app/search-form/search-form.component.ts:231-260 | Each project appears exactly as often as in the input, under its namespace path; dropped names appear nowhere. |
| NamespaceTree.GroupProjectsWellFormed | src/app/search-form/search-form.component.ts:244-253 | The grouping has unique segments at every level. |
| NamespaceTree.ProjectLeaves | src/app/search-form/search-form.component.ts:315-320 | Each project becomes a childless node of its instance, in order. |
| NamespaceTree.Convert | src/app/search-form/search-form.component.ts:262-272 | The converted node carries the given item. |
| NamespaceTree.NamespaceChildren | src/app/search-form/search-form.component.ts:302-313 | One child per namespace of the level. |
| NamespaceTree.ConvertEntry | src/app/search-form/search-form.component.ts:304-311 | A namespace entry becomes a namespace node of the instance. |
| NamespaceTree.NamespaceChildAt | src/app/search-form/search-form.component.ts:303-311 | The i-th namespace child is the conversion of the i-th namespace in sorted order. |
| NamespaceTree.ConvertLength | src/app/search-form/search-form.component.ts:302-321 | A node has as many children as its level has namespaces and projects. |
| NamespaceTree.ConvertNamespaceChildren | src/app/search-form/search-form.component.ts:303-313 | The first children are namespace nodes of the instance. |
| NamespaceTree.ConvertProjectChildren | src/app/search-form/search-form.component.ts:315-320 | The remaining children are childless project nodes of the instance. |
| NamespaceTree.ConvertLevelNamespaces | src/app/search-form/search-form.component.ts:303-311 | The namespace children are a permutation of the level's namespaces. |
| NamespaceTree.ConvertLevelProjects | src/app/search-form/search-form.component.ts:315-320 | The project children are a permutation of the level's projects. |
| NamespaceTree.ConvertLayered | src/app/search-form/search-form.component.ts:303-320 | All namespace children come before all project children. |
| NamespaceTree.ConvertOrdered | src/app/search-form/search-form.component.ts:303-318 | At every level, namespaces are sorted strictly by name, then projects by name. |
| LeafDescendants.LeafOrderIsLeaves | src/app/search-form/search-form.component.ts:329-341 | The initial queue lists exactly the childless nodes. |
| LeafDescendants.SetAdd | src/app/search-form/search-form.component.ts:281-284 | `Set.add` adds the element, keeps the others and never repeats. |
| LeafDescendants.SetAddAll | src/app/search-form/search-form.component.ts:283-285 | Adding each of several elements gives the union, without repeats. |
| LeafDescendants.Step | src/app/search-form/search-form.component.ts:276-290 | One turn of the queue loop keeps the set of tracked nodes. |
| LeafDescendants.StepDecreases | src/app/search-form/search-form.component.ts:275-291 | Every turn lowers a well-founded weight of the queue, so the loop ends. |
| LeafDescendants.StartInv | src/app/search-form/search-form.component.ts:274 | The loop invariant holds with empty sets and the leaves queued. |
| LeafDescendants.StepCovers | src/app/search-form/search-form.component.ts:280-290 | No leaf below a node is lost: after a turn it is in the node's set or still on its way up the queue. |
| LeafDescendants.StepSound | src/app/search-form/search-form.component.ts:280-286 | A set only ever holds leaves strictly below its node. |
| LeafDescendants.StepInv | src/app/search-form/search-form.component.ts:275-291 | A turn is always possible on a non-empty queue and keeps the invariant. |
| LeafDescendants.FinishedExact | src/app/search-form/search-form.component.ts:275-291 | With the queue empty, each node's set is exactly the leaves strictly below it. |
| LeafDescendants.ComputeLeafDescendants | src/app/search-form/search-form.component.ts:274-291 | Every node's `leafDescendants` is exactly the childless nodes strictly below it, without repeats. |
| LeafDescendants.RootOf | src/app/search-form/search-form.component.ts:224-225 | An instance's root carries its id, and the tree below it is ordered. |
| LeafDescendants.TreeOf | src/app/search-form/search-form.component.ts:262-293 | The converted tree has exact leaf-descendant sets. |
| LeafDescendants.GetTreeNodes | src/app/search-form/search-form.component.ts:221-229 | One valid tree per instance, in order. |
| TreeSelection.InitialSelection | src/app/search-form/search-form.component.ts:117-127 | The node selection starts well formed and empty. |
| TreeSelection.LeafNodes | src/app/search-form/search-form.component.ts:188 | The leaf nodes iterated are the leaves below the node. |
| TreeSelection.LeafKeysAreLeaves | src/app/search-form/search-form.component.ts:209 | The keys of the leaf descendants are exactly the keys of the leaves below the node. |
| TreeSelection.AllSelected | src/app/search-form/search-form.component.ts:188-191 | True iff every listed node is selected. |
| TreeSelection.AnySelected | src/app/search-form/search-form.component.ts:197-200 | True iff some listed node is selected. |
| TreeSelection.LeafDescendantsAllSelected | src/app/search-form/search-form.component.ts:187-192 | True iff every leaf below the node is selected, so vacuously true with none. |
| TreeSelection.LeafDescendantsPartiallySelected | src/app/search-form/search-form.component.ts:195-201 | False when all are selected; otherwise true iff some leaf below the node is selected. |
| TreeSelection.PartiallySelectedMeansMixed | src/app/search-form/search-form.component.ts:186-201 | With the first test's result passed in, "partially selected" means some leaf selected and some not. |
| TreeSelection.NodeIsGitlabAndNotLoaded | src/app/search-form/search-form.component.ts:217-219 | Only level 0 can read as not loaded. |
| TreeSelection.NotLoadedIffChildless | src/app/search-form/search-form.component.ts:217-219 | A root reads as not loaded iff it has no children. |
| TreeSelection.NodeSelectionToggle | src/app/search-form/search-form.component.ts:204-215 | A leaf's selection flips and nothing else changes. An inner node selects or deselects exactly its leaves' keys, as `checked` says. |
| TreeSelection.CheckSelectsAllLeaves | src/app/search-form/search-form.component.ts:208-209 | Checking an inner node selects all its leaves and deselects nothing. |
| TreeSelection.UncheckDeselectsAllLeaves | src/app/search-form/search-form.component.ts:210-211 | Unchecking deselects all its leaves; the node then shows unchecked, or all-selected when it has no leaves. |
| TreeSelection.SelectedProjects | src/app/search-form/search-form.component.ts:343-345 | Only project items with an instance id are emitted, and reading the list leaves the selection unchanged. |
| TreeSelection.SelectedProjectsAreSelectedItems | src/app/search-form/search-form.component.ts:343-345 | An item is emitted iff it is such a project item of a selected node. |
| TreeSelection.ClearNotRootNodeSelection | src/app/search-form/search-form.component.ts:347-349 | Clearing non-root nodes drops the cache. |
| TreeSelection.ClearNotRootKeepsOnlyRoots | src/app/search-form/search-form.component.ts:347-349 | Only selected roots remain, and every non-root node is deselected. |
| TreeSelection.RootLeafKeysHasLeaves | src/app/search-form/search-form.component.ts:157-159 | Every leaf of every root contributes its key. |
| TreeSelection.SelectRootLeaves | src/app/search-form/search-form.component.ts:156-160 | Selecting each root's leaves adds exactly their keys. |
| TreeSelection.SelectRootLeavesSelectsAll | src/app/search-form/search-form.component.ts:156-160 | Afterwards every leaf of every root is selected. |
| TreeSelection.Render | src/app/search-form/search-form.component.ts:153-163 | The trees are rebuilt from the filtered data. An empty normalised query keeps the selection; otherwise all root leaves are added. Exactly the selected project items are emitted. |
| TreeSelection.SetGitlabItems | src/app/search-form/search-form.component.ts:87-94 | New data first clears non-root selections. Under an empty query only roots stay selected; otherwise every leaf is selected. |
| TreeSelection.QueryChanged | src/app/search-form/search-form.component.ts:141-149 | An invalid or unchanged query does nothing. A new query clears the selection and re-renders: nothing stays selected for an empty query, and exactly the root leaves for a non-empty one. |
| ResultView.Extension | src/app/search-result/search-result.component.ts:70 | A found extension is a non-empty run of word characters that ends the name, right after a dot. |
| ResultView.ExtensionIffDotWordSuffix | src/app/search-result/search-result.component.ts:57-58 | Conversely, `ext` is found iff the name ends in `.` + `ext` and `ext` is a non-empty word run. |
| ResultView.LangAsWritten | src/app/search-result/search-result.component.ts:55-61 | The bracket lookup as written can return an inherited `Object.prototype` member, and only for names the table does not hold. |
| ResultView.LangAsWrittenConstructor | src/app/search-result/search-result.component.ts:60 | For a `.constructor` file the lookup as written returns the inherited `constructor`, not a language. |
| ResultView.LangAsWrittenProto | src/app/search-result/search-result.component.ts:60 | For a `.__proto__` file it returns the inherited `__proto__`. |
| ResultView.InheritedNamesAreNotOwn | src/app/search-result/search-result.component.ts:6-43 | Neither name is a key of the table, though both are inherited. |
| ResultView.MixedCaseInheritedNames | src/app/search-result/search-result.component.ts:59 | Every other inherited name has an upper-case letter, so a lower-cased extension cannot reach it. |
| ResultView.InheritedOnlyConstructorOrProto | src/app/search-result/search-result.component.ts:59-60 | The only inherited members the lookup as written can return are `constructor` and `__proto__`. |
| ResultView.ExtensionExample | src/app/search-result/search-result.component.ts:70 | `base.ext` has extension `ext` for any word run `ext`. |
| ResultView.Lang | src/app/search-result/search-result.component.ts:55-61 | An extension whose lower-cased form is a key of the table gives that key's language. An extension that is not a key, or a name with no extension, gives "plaintext". |
| ResultView.LangCorrectsInherited | src/app/search-result/search-result.component.ts:60 | The corrected lookup agrees with the one as written on every table hit, and gives "plaintext" where that one returned an inherited member. |
| ResultView.LangLowerCasesExtension | src/app/search-result/search-result.component.ts:59 | The extension is lower-cased first, so `.PY` gives python. |
| ResultView.LangNeedsDot | src/app/search-result/search-result.component.ts:57-58 | A name of word characters only has no extension and gives "plaintext" in both versions. |
| ResultView.LangIgnoresInherited | src/app/search-result/search-result.component.ts:60 | The corrected lookup gives "plaintext" for `.constructor` and `.__proto__`. |
| ResultView.FindIndex | src/app/search-result/search-result.component.ts:65 | `findIndex` gives the first line that mentions the query case-insensitively, or -1 iff none does. |
| ResultView.LineNumber | src/app/search-result/search-result.component.ts:64-66 | The line number is startline plus k, where no data line before k mentions the query. Line k mentions it unless no line does, in which case k is 0. `getURL` in the results list computes the same. |
| ResultView.LineNumberFirstMatch | src/app/search-result/search-result.component.ts:64-66 | Whenever line j is the first data line that mentions the query, the link points at startline + j. |
| ResultView.LineNumberNoMatch | src/app/search-results/search-results.component.ts:17-20 | When no data line mentions the query, the link points at startline. |
| ResultView.EmptyQueryLinksFirstLine | src/app/search-results/search-results.component.ts:18-20 | An empty query matches the first line, so the link points at startline. |
| ResultView.Url | src/app/search-result/search-result.component.ts:67 | The link starts with `<projectURL>/blob/<ref>/<path>#L`. |
| ResultView.UrlCarriesLineNumber | src/app/search-result/search-result.component.ts:66-67 | What follows that prefix parses back to the line number. |
| ObjectValues.ObjectValues | src/app/utils/object-values.ts:1-21 | A non-object or null input gives []. Every output element is a string or a number. |
| ObjectValues.Contribution | src/app/utils/object-values.ts:9-16 | A property contributes only strings and numbers. |
| ObjectValues.PropsValues | src/app/utils/object-values.ts:6-19 | The own properties, in key order, contribute only strings and numbers. |
| ObjectValues.ObjectValuesConcat | src/app/utils/object-values.ts:6-19 | Values are appended in key iteration order: the properties of two halves give the two results concatenated. |
| ObjectValues.SingleProperty | src/app/utils/object-values.ts:9-16 | A string or number is kept. An object or array is flattened in place. Null, booleans, undefined and functions contribute nothing. |
| ObjectValues.ArrayIsIndexedObject | src/app/utils/object-values.ts:6-7 | An array contributes like the object of its index keys. |
| TypeGuards.Guard | src/app/gitlab-projects/state/gitlab-projects.model.ts:48-54 | `undefined` throws the TypeError of reading `gitlab_id`, and only `undefined` does. Otherwise the guard is truthy iff the value is non-null, `gitlab_id` is truthy and `type` equals the tag. |
| TypeGuards.IsGitlabProject | src/app/gitlab-projects/state/gitlab-projects.model.ts:48-50 | Throws only for `undefined`; otherwise truthy iff non-null with a truthy `gitlab_id` and `type` "project". |
| TypeGuards.IsGitlabNamespace | src/app/gitlab-projects/state/gitlab-projects.model.ts:52-54 | The same, for `type` "namespace". |
| TypeGuards.IsGitlabGroup | src/app/search-params/state/search-param.model.ts:59-61 | The same, for `type` "group". |
| TypeGuards.TypeofClauseIsVacuous | src/app/gitlab-projects/state/gitlab-projects.model.ts:49 | `typeof (v === 'object')` is always "boolean", so the chain's value is the same without that operand. |
| TypeGuards.GuardsAreExclusive | src/app/search-params/state/search-param.model.ts:55-61 | No value passes two guards with different tags: project against namespace, project against group, or namespace against group. |
| PersistState.GitlabProjectsPersistFn | src/main.ts:32-35 | The persisted projects slice has exactly `entities` and `ids`, copied from the state. |
| PersistState.PersistedSlice | src/main.ts:38-40 | Only gitlab-config, gitlab-projects and UI/gitlab-projects are written, and gitlab-projects through its select function. |
| PersistState.SearchProjectsNotPersisted | src/main.ts:32-36 | The selection of projects is not persisted. |
| PersistState.ClearLoading | src/main.ts:47 | An object entity gets `isLoading` false and keeps its other fields; any other value is left alone. |
| PersistState.ClearEach | src/main.ts:45-48 | The `for … in` loop clears each entity in place, keeping every key. |
| PersistState.ClearItems | src/main.ts:45-48 | The same loop over an array of entities. |
| PersistState.PreStoreUpdate | src/main.ts:41-52 | Any other store, or falsy entities, returns the state unchanged. |
| PersistState.RehydrationClearsLoading | src/main.ts:41-52 | On rehydration, every object entity has `isLoading` false and keeps its other fields. Null and non-object entities are untouched, and no other part of the state changes. |
| EntityStore.Find | src/app/gitlab-projects/state/gitlab-projects.query.ts:26 | `getEntity` finds an entity with that id iff one exists. |
| EntityStore.FindUnique | src/app/gitlab-projects/state/gitlab-projects.query.ts:26 | With unique ids, the entity found is the stored one. |
| EntityStore.Add | src/app/gitlab-config/state/gitlab-config.service.ts:42 | An entity whose id is already stored is skipped; a new one is appended. Ids stay unique. |
| EntityStore.Update | src/app/gitlab-projects/state/gitlab-projects.service.ts:47-50 | Only entities with that id are changed. |
| EntityStore.Replace | src/app/gitlab-config/state/gitlab-config.service.ts:96 | Only entities with that id are replaced. |
| EntityStore.UpdateKeepsKeys | src/app/gitlab-config/state/gitlab-config.service.ts:50 | An update that keeps ids keeps them unique. |
| EntityStore.Remove | src/app/gitlab-config/state/gitlab-config.service.ts:61 | Exactly the entities with other ids remain, and ids stay unique. |
| EntityStore.RemoveFilters | src/app/gitlab-config/state/gitlab-config.service.ts:61 | Removal filters out the id, so the remaining entities keep their order, as Akita's filter of the id list does. |
| EntityStore.RemoveAbsent | src/app/gitlab-config/state/gitlab-config.service.ts:61 | Removing an absent id changes nothing. |
| JsValue.SetProp | src/main.ts:47 | A property assignment sets that key and leaves the others. |
| JsValue.IndexProps | src/app/utils/object-values.ts:6 | An array's `for … in` keys carry its items in order. |
| Strings.Lower | src/app/search-form/search-form.component.ts:357 | `toLowerCase` maps each character, keeping the length. |
| Strings.LowerIdempotent | src/app/search-form/search-form.component.ts:352 | Lower-casing twice equals lower-casing once. |
| Strings.Trim | src/app/search-form/search-form.component.ts:352 | `trim` returns a slice of the input with only white space cut at both ends, and the result neither starts nor ends with white space. |
| Strings.Split | src/app/search-result/search-result.component.ts:64 | `split` always gives at least one piece. |
| Strings.SplitJoin | src/app/search-result/search-result.component.ts:64 | Joining the pieces with the separator gives back the input, and no piece contains the separator. |
| Strings.ParseIntDecimal | src/app/gitlab-api.service.ts:120 | A missing header parses to NaN. |
| Strings.ParseIntOfNatToString | src/app/gitlab-api.service.ts:120 | Parsing the decimal text of a count gives the count back. |
| Strings.ParseIntOfIntToString | src/app/search-result/search-result.component.ts:67 | Parsing the decimal text of any integer gives it back. |
| Seqs.Dedup | src/app/gitlab-projects/state/gitlab-projects.query.ts:22 | `Array.from(new Set(s))` has no repeats and the same members as `s`. |
| Seqs.DedupFirstOccurrenceOrder | src/app/utils/array-diff.ts:36 | Its elements come in order of first occurrence. |
| Seqs.Filter | src/app/search-form/search-form.component.ts:357 | `filter` keeps exactly the elements that pass. |
| Seqs.FilterMembers | src/app/search-form/search-form.component.ts:357 | An element is in the result iff it is in the input and passes. |
| Seqs.SortBy | src/app/search-form/search-form.component.ts:318 | Sorting is a permutation. |
| Seqs.SortByOrdered | src/app/search-form/search-form.component.ts:318 | The result is ordered by the key. |

## Left out

- HTTP transport, the `Private-Token` header and URL building are left out. Each reply is an input: a body, an `x-total-pages` header text, a `Link`/`Links` header, or a failure.
- RxJS timing is left out: timers, `delayWhen`, `debounceTime`, `forkJoin` concurrency and `takeUntil`. Each becomes an explicit event, stepped one at a time. The 60-second reset interval is the `RateLimit.Fire` event.
- Akita internals are left out: transactions, cache TTL, `persistState` storage and `selectPersistStateInit`. A transaction is one state step. `update(id, { ...config, version })` is modelled as replacing the entity, since every field is given.
- `guid()` and `new Date().toISOString()` are parameters (`guid: nat -> string`, `freshId`, `loadDt`).
- Regular expressions are dedicated scanners for the version prefix, the `Link` capture and the extension suffix, not a general regex engine.
- `toLowerCase` is modelled for ASCII letters only. Other Unicode case mappings are out.
- Strings are sequences of Unicode characters, not UTF-16 code units. `Validators.minLength(3)` in `TreeSelection.MinLengthValid` therefore counts characters: a query of one character beyond U+FFFF followed by "a" has length 3 in JavaScript and passes, but the model counts 2 and rejects it. `Strings.StrLe`, the order of `a.name > b.name`, is code-point order, so it differs from JavaScript's code-unit order when a name holds characters beyond U+FFFF.
- JavaScript numbers are unbounded integers. The precision loss of `parseInt` on very long digit runs is not modelled.
- Strings.ParseIntDecimal: its contract only states the missing-header case. The other cases are stated by `GitlabApi.TotalPagesHeaderExamples`, `Strings.ParseIntOfNatToString` and `Strings.ParseIntOfIntToString`.
- GitlabApi.KeysetFrom: its contract only says that the run never fails. The pages it returns are stated by `GitlabApi.KeysetChain` and `GitlabApi.KeysetFailureTruncates`.
- GitlabApi.GetAllProjects: in keyset mode the contract only says the run does not fail, for the same reason.
- A page chain that the server never ends is a finite reply sequence running out (`OutOfPages`). In keyset mode this is a `Link` that always names a next page. In offset mode it is an `x-total-pages` value that is non-zero and never equals the current page, for example "-1" or a total that shrinks below the page already reached; the source then keeps requesting pages.
- ConfigRegistry.ServiceDestroy: the emissions that destroying each limiter releases are not returned; only the resulting state is stated.
- `getVersion`, `getProjects`, `getApiV4URL` and `getAuthHeader` only build HTTP calls and are left out.
- `SelectionModelTrackBy.sort` reorders only a cached array and is left out. So are `isMultipleSelection` and the plain accessors.
- The search form's MatTree expansion, `displayNodeContext`, `getNodeDataLoading`, `loadDtById` and `gitlabUrlByID` only feed rendering and are left out.
- Seqs.SortBy: the project comparator `(a, b) => a.name > b.name ? 1 : -1` is inconsistent for equal names. The model sorts stably by name, so the relative order of projects with equal names is not claimed.
- `search()` with a selected instance that has no config throws while the branches are being built, before the reset transaction. The model returns an error and changes nothing.
- The error handler of the project search dereferences the project it looks up. When the project is unknown the handler throws; the model then finalizes the run, as the throw ends the `forkJoin`.
- An array-valued entity in `preStoreUpdate` would gain an `isLoading` property, which the value model cannot hold on an array. Only object entities are claimed.
- The persist hook of the older NgModule bootstrap repeats the one in `src/main.ts`, so one model covers both.
- `SearchResultService.add`, `update` and `remove` are single Akita store calls and are covered by the `EntityStore` functions.
- `console.warn` and `console.error` output are left out.

## Findings

| source | as written | input that shows it | evidently intended | confidence | as-written member | corrected member |
|---|---|---|---|---|---|---|
| src/app/search-result/state/search-result.service.ts:72-81 | A new `search()` does not end the previous `forkJoin`: only destroy and `stopSearching` do. | Two searches of the same selection with non-empty queries, then the first run's project reply arrives. Its rows are added under the second query, and its `finalize` clears loading and progress while the second run is still live. | A new search supersedes the one in flight, as `stopSearching()` followed by `search()` does. | not executed; the overlap needs a second search before the first completes | SearchOrchestrator.OverlappingSearchesMix | SearchOrchestrator.SearchExclusive |
| src/app/search-result/search-result.component.ts:60 | `extToLang[ext] ?? 'plaintext'` also finds properties inherited from `Object.prototype`. | A file named `x.constructor`: the lookup returns the `Object` constructor function instead of a language name. `x.__proto__` returns `Object.prototype`. | Only the table's own keys map to a language; any other extension gives "plaintext". | not executed | ResultView.LangAsWrittenConstructor | ResultView.LangIgnoresInherited |
