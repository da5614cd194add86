/** `SearchResultService`: a search groups the selection by instance, runs
    one branch per instance whose project searches go one after another,
    and every finished project search updates the shared progress and the
    result store. The asynchronous run is a sequence of events, each one
    state step: a project search of some branch finishing, a rate-limit
    wait event, and a stop (`stopSearching`, or `ngOnDestroy`, which has
    the same effect on the store). The selection and the project lists are
    read from the search-params store. */
module SearchOrchestrator {
  import opened Wrappers
  import opened Seqs
  import opened GitlabModel
  import EntityStore
  import ProjectQueries
  import SearchParams
  import GitlabApi
  import opened SearchGrouping

  // ---------------------------------------------------------------------
  // State
  // ---------------------------------------------------------------------

  datatype Progress = Progress(done: nat, total: nat)

  /** The result store: the rows keyed by `resultID`, the loading flag and
      the `ui.progress` field. */
  datatype ResultState = ResultState(rows: seq<SearchResult>, loading: bool, progress: Option<Progress>)

  /** One element of `searchRequests$`: an instance's config and the ids of
      the projects still to be searched, in order. */
  datatype Branch = Branch(config: GitlabConfig, pending: seq<int>)

  /** One live `forkJoin` subscription: the selection length, its own
      `projectSearched` counter, its branches and the rows it has
      upserted. */
  datatype Run = Run(total: nat, done: nat, branches: seq<Branch>, rows: seq<SearchResult>)

  datatype Orchestrator = Orchestrator(store: ResultState, runs: seq<Run>)

  /** A selected instance without a config: `getSearchRequest` dereferences
      the missing config while `search` builds the requests. */
  datatype SearchError = MissingConfig(gitlabId: string)

  function ResultId(r: SearchResult): string {
    r.resultID
  }

  /** The store's initial state and no subscription. */
  function Initial(): (o: Orchestrator)
    ensures o.runs == [] && o.store.rows == [] && !o.store.loading && o.store.progress.None?
  {
    Orchestrator(ResultState([], false, None), [])
  }

  // ---------------------------------------------------------------------
  // Starting a search
  // ---------------------------------------------------------------------

  function ConfigFor(configs: seq<GitlabConfig>, id: string): Option<GitlabConfig> {
    EntityStore.Find(configs, ConfigId, id)
  }

  /** `byConfig.map(...)`: one branch per group with its instance's config;
      the first group without a config makes the construction throw. */
  function Branches(groups: seq<ConfigGroup>, configs: seq<GitlabConfig>): (r: Result<seq<Branch>, SearchError>)
    ensures r.Success? <==> forall k :: 0 <= k < |groups| ==> EntityStore.HasKey(configs, ConfigId, groups[k].gitlabId)
    ensures r.Success? ==> |r.value| == |groups|
    ensures r.Success? ==> forall k :: 0 <= k < |groups| ==>
              r.value[k].config.id == groups[k].gitlabId && r.value[k].config in configs
              && r.value[k].pending == groups[k].projectIds
    ensures r.Failure? ==>
              (!EntityStore.HasKey(configs, ConfigId, r.error.gitlabId)
               && exists k :: 0 <= k < |groups| && groups[k].gitlabId == r.error.gitlabId)
  {
    if groups == [] then Success([])
    else
      match ConfigFor(configs, groups[0].gitlabId)
      case None => Failure(MissingConfig(groups[0].gitlabId))
      case Some(c) =>
        match Branches(groups[1..], configs)
        case Failure(e) => Failure(e)
        case Success(rest) => Success([Branch(c, groups[0].projectIds)] + rest)
  }

  /** What a call of `search` does before subscribing: nothing (the guard),
      throw, or start a run with a fresh counter. */
  datatype Launch = Ignored | Rejected(error: SearchError) | Started(run: Run)

  /** The guard of `search`: a non-empty query and a non-empty array of
      selected projects (`None` stands for a value that is not an array). */
  predicate Accepts(query: string, selection: Option<seq<SearchProject>>) {
    query != "" && selection.Some? && selection.value != []
  }

  function Prepare(query: string, selection: Option<seq<SearchProject>>, configs: seq<GitlabConfig>): (l: Launch)
    ensures !Accepts(query, selection) <==> l.Ignored?
    ensures l.Started? ==> l.run.total == |selection.value| && l.run.done == 0 && l.run.rows == []
    ensures l.Started? ==> |l.run.branches| == |Grouping(selection.value)|
    ensures l.Started? ==> forall k :: 0 <= k < |l.run.branches| ==>
              l.run.branches[k].config.id == Grouping(selection.value)[k].gitlabId
              && l.run.branches[k].config in configs
              && l.run.branches[k].pending == Grouping(selection.value)[k].projectIds
    ensures l.Rejected? ==>
              (!EntityStore.HasKey(configs, ConfigId, l.error.gitlabId)
               && l.error.gitlabId in ProjectQueries.SelectedGitlabs(selection.value))
  {
    if !Accepts(query, selection) then Ignored
    else
      var groups := Grouping(selection.value);
      match Branches(groups, configs)
      case Failure(e) =>
        GroupingShape(selection.value);
        assert e.gitlabId in GroupIds(groups);
        Rejected(e)
      case Success(bs) => Started(Run(|selection.value|, 0, bs, []))
  }

  /** The transaction before subscribing: `setLoading(true)` is followed by
      `set([])`, and Akita's `set` writes `loading: false` along with the
      empty rows, so the transaction ends with no rows, loading off and
      progress `{done: 0, total}`. Loading only turns on with the first
      upserted batch (`Record`). */
  function Reset(total: nat): (s: ResultState)
    ensures s.rows == [] && !s.loading && s.progress == Some(Progress(0, total))
  {
    ResultState([], false, Some(Progress(0, total)))
  }

  /** `search(query)` as written: a new run is added while earlier runs
      keep going, since only a stop or destroy ends a subscription. */
  function Search(o: Orchestrator, query: string, selection: Option<seq<SearchProject>>, configs: seq<GitlabConfig>)
    : (r: Result<Orchestrator, SearchError>)
    ensures !Accepts(query, selection) ==> r == Success(o)
    ensures r.Failure? ==> Prepare(query, selection, configs).Rejected?
    ensures Prepare(query, selection, configs).Started? ==>
              r == Success(Orchestrator(Reset(|selection.value|), o.runs + [Prepare(query, selection, configs).run]))
  {
    match Prepare(query, selection, configs)
    case Ignored => Success(o)
    case Rejected(e) => Failure(e)
    case Started(run) => Success(Orchestrator(Reset(run.total), o.runs + [run]))
  }

  /** The corrected `search`: starting a run ends every earlier one, as a
      stop would, before the reset. */
  function SearchExclusive(o: Orchestrator, query: string, selection: Option<seq<SearchProject>>, configs: seq<GitlabConfig>)
    : (r: Result<Orchestrator, SearchError>)
    ensures !Accepts(query, selection) ==> r == Success(o)
    ensures r.Success? && Accepts(query, selection) ==> |r.value.runs| == 1
  {
    match Prepare(query, selection, configs)
    case Ignored => Success(o)
    case Rejected(e) => Failure(e)
    case Started(run) => Success(Orchestrator(Reset(run.total), [run]))
  }

  /** The corrected search is a stop followed by the search as written. */
  lemma SearchExclusiveIsStopThenSearch(o: Orchestrator, query: string, selection: Option<seq<SearchProject>>, configs: seq<GitlabConfig>)
    requires Accepts(query, selection)
    ensures SearchExclusive(o, query, selection, configs) == Search(Stop(o), query, selection, configs)
  {
    match Prepare(query, selection, configs)
    case Ignored =>
    case Rejected(_) =>
    case Started(run) =>
      assert Stop(o).runs + [run] == [run];
  }

  // ---------------------------------------------------------------------
  // Enriching one project's rows (`getSearchRequest`)
  // ---------------------------------------------------------------------

  /** The `forEach` body of the `map`: project URL and name when the project
      is known, and always the instance URL. */
  function Decorate(row: RichSearchResult, config: GitlabConfig, project: Option<Project>): RichSearchResult {
    row.(projectURL := if project.Some? then Some(project.value.webUrl) else row.projectURL,
         projectName := if project.Some? then Some(project.value.nameWithNamespace) else row.projectName,
         gitlabURL := Some(config.gitlabURL))
  }

  function DecorateAll(rows: seq<RichSearchResult>, config: GitlabConfig, project: Option<Project>): (r: seq<RichSearchResult>)
    ensures |r| == |rows|
    ensures forall i :: 0 <= i < |rows| ==> r[i] == Decorate(rows[i], config, project)
  {
    if rows == [] then [] else [Decorate(rows[0], config, project)] + DecorateAll(rows[1..], config, project)
  }

  /** `getSearchRequest`: `raws` is the reply of the blob search (`None` when
      it failed) and `params` the search-params store when it arrived. The
      rows are tagged and enriched when the instance's entry exists; if the
      request failed, or the missing entry makes the `map` throw, the error
      handler yields no rows, and throws itself when the project is
      unknown. */
  function Enrich(config: GitlabConfig, projectId: int, params: SearchParams.ParamsState, raws: Option<seq<SearchResultRaw>>)
    : (r: Result<seq<RichSearchResult>, string>)
    ensures raws.Some? && EntityStore.HasKey(params.entities, SearchParams.DataId, config.id) ==>
              r.Success? && |r.value| == |raws.value|
    ensures raws.Some? && EntityStore.HasKey(params.entities, SearchParams.DataId, config.id) ==>
              forall i :: 0 <= i < |r.value| ==>
                && r.value[i].raw == raws.value[i]
                && r.value[i].gitlabID == Some(config.id)
                && r.value[i].gitlabURL == Some(config.gitlabURL)
                && r.value[i].projectURL.Some? == SearchParams.GetProjectByIDs(params, config.id, projectId).Some?
                && r.value[i].projectName.Some? == SearchParams.GetProjectByIDs(params, config.id, projectId).Some?
                && (SearchParams.GetProjectByIDs(params, config.id, projectId).Some? ==>
                      r.value[i].projectURL == Some(SearchParams.GetProjectByIDs(params, config.id, projectId).value.webUrl)
                      && r.value[i].projectName == Some(SearchParams.GetProjectByIDs(params, config.id, projectId).value.nameWithNamespace))
    ensures !(raws.Some? && EntityStore.HasKey(params.entities, SearchParams.DataId, config.id)) ==>
              (r.Success? <==> SearchParams.GetProjectByIDs(params, config.id, projectId).Some?)
              && (r.Success? ==> r.value == [])
  {
    var entry := EntityStore.Find(params.entities, SearchParams.DataId, config.id);
    if raws.Some? && entry.Some? then
      var project := ProjectQueries.FindProject(entry.value.projects, projectId);
      assert project == SearchParams.GetProjectByIDs(params, config.id, projectId);
      Success(DecorateAll(GitlabApi.TagRows(config, raws.value), config, project))
    else if SearchParams.GetProjectByIDs(params, config.id, projectId).Some? then Success([])
    else Failure("project not found: " + config.id)
  }

  // ---------------------------------------------------------------------
  // Finished project searches
  // ---------------------------------------------------------------------

  /** `resultID: guid()` for every row of a batch; `guid(k)` is the id the
      k-th row receives. */
  function WithIds(rows: seq<RichSearchResult>, guid: nat -> string, from: nat): (r: seq<SearchResult>)
    ensures |r| == |rows|
    ensures forall i :: 0 <= i < |rows| ==> r[i] == SearchResult(rows[i], guid(from + i))
    decreases |rows|
  {
    if rows == [] then [] else [SearchResult(rows[0], guid(from))] + WithIds(rows[1..], guid, from + 1)
  }

  /** `upsert` of one row: it replaces the row with the same id, otherwise
      it is appended. */
  function UpsertOne(rows: seq<SearchResult>, r: SearchResult): seq<SearchResult> {
    if EntityStore.HasKey(rows, ResultId, r.resultID) then EntityStore.Update(rows, ResultId, r.resultID, _ => r)
    else rows + [r]
  }

  /** `upsertMany`: the rows of the batch, one after another. */
  function Upsert(rows: seq<SearchResult>, batch: seq<SearchResult>): seq<SearchResult>
    decreases |batch|
  {
    if batch == [] then rows else Upsert(UpsertOne(rows, batch[0]), batch[1..])
  }

  /** The ids of a batch are fresh: pairwise distinct and absent from the
      store, as `guid()` guarantees. */
  predicate FreshIds(rows: seq<SearchResult>, batch: seq<SearchResult>) {
    && (forall i, j :: 0 <= i < j < |batch| ==> batch[i].resultID != batch[j].resultID)
    && (forall i :: 0 <= i < |batch| ==> !EntityStore.HasKey(rows, ResultId, batch[i].resultID))
  }

  /** `guid()` never repeats and never hits a stored id. */
  ghost predicate GuidFresh(rows: seq<SearchResult>, guid: nat -> string) {
    && (forall k: nat, l: nat :: k != l ==> guid(k) != guid(l))
    && (forall k: nat :: !EntityStore.HasKey(rows, ResultId, guid(k)))
  }

  lemma GuidFreshBatch(rows: seq<SearchResult>, batch: seq<RichSearchResult>, guid: nat -> string)
    requires GuidFresh(rows, guid)
    ensures FreshIds(rows, WithIds(batch, guid, 0))
  {
    var w := WithIds(batch, guid, 0);
    forall i, j | 0 <= i < j < |w| ensures w[i].resultID != w[j].resultID {
      assert w[i].resultID == guid(i) && w[j].resultID == guid(j);
    }
    forall i | 0 <= i < |w| ensures !EntityStore.HasKey(rows, ResultId, w[i].resultID) {
      assert w[i].resultID == guid(i);
    }
  }

  /** With fresh ids, upserting appends the batch in order. */
  lemma {:induction false} UpsertFresh(rows: seq<SearchResult>, batch: seq<SearchResult>)
    requires FreshIds(rows, batch)
    ensures Upsert(rows, batch) == rows + batch
    decreases |batch|
  {
    if batch != [] {
      var next := rows + [batch[0]];
      assert UpsertOne(rows, batch[0]) == next;
      FreshIdsTail(rows, batch);
      UpsertFresh(next, batch[1..]);
      Seqs.SnocThenRest(rows, batch);
    }
  }

  /** After storing the first row of a fresh batch, the rest is fresh. */
  lemma FreshIdsTail(rows: seq<SearchResult>, batch: seq<SearchResult>)
    requires FreshIds(rows, batch) && batch != []
    ensures FreshIds(rows + [batch[0]], batch[1..])
  {
    forall i | 0 <= i < |batch[1..]|
      ensures !EntityStore.HasKey(rows + [batch[0]], ResultId, batch[1..][i].resultID)
    {
      assert batch[1..][i] == batch[i + 1];
      EntityStore.HasKeySnoc(rows, ResultId, batch[0], batch[i + 1].resultID);
    }
  }

  function PendingCount(branches: seq<Branch>): nat {
    if branches == [] then 0 else |branches[0].pending| + PendingCount(branches[1..])
  }

  /** Every branch has searched all its projects: `forkJoin` completes. */
  predicate AllIdle(branches: seq<Branch>) {
    forall k :: 0 <= k < |branches| ==> branches[k].pending == []
  }

  lemma {:induction false} IdleIffNothingPending(branches: seq<Branch>)
    ensures AllIdle(branches) <==> PendingCount(branches) == 0
  {
    if branches != [] {
      IdleIffNothingPending(branches[1..]);
      assert AllIdle(branches) <==> branches[0].pending == [] && AllIdle(branches[1..]) by {
        if branches[0].pending == [] && AllIdle(branches[1..]) {
          forall k | 0 <= k < |branches| ensures branches[k].pending == [] {
            if k > 0 { assert branches[k] == branches[1..][k - 1]; }
          }
        }
      }
    }
  }

  lemma {:induction false} PendingCountUpdate(branches: seq<Branch>, k: nat, b: Branch)
    requires k < |branches|
    ensures PendingCount(branches[k := b]) + |branches[k].pending| == PendingCount(branches) + |b.pending|
  {
    if k > 0 {
      assert branches[k := b][1..] == branches[1..][k - 1 := b];
      PendingCountUpdate(branches[1..], k - 1, b);
    }
  }

  /** `finalize` of a run's subscription: loading off, progress `null`; the
      rows stay. */
  function Finalize(o: Orchestrator, ri: nat): (r: Orchestrator)
    requires ri < |o.runs|
    ensures r.store.rows == o.store.rows && !r.store.loading && r.store.progress.None?
    ensures r.runs == o.runs[..ri] + o.runs[ri + 1..]
  {
    Orchestrator(o.store.(loading := false, progress := None), o.runs[..ri] + o.runs[ri + 1..])
  }

  /** A project search of branch `bi` of run `ri` has emitted its rows (the
      `tap`): the run's counter goes up by one, progress shows it against
      the run's total, the batch is upserted with loading kept on, and the
      branch moves on to its next project. */
  function Record(o: Orchestrator, ri: nat, bi: nat, rows: seq<RichSearchResult>, guid: nat -> string): (r: Orchestrator)
    requires ri < |o.runs| && bi < |o.runs[ri].branches| && o.runs[ri].branches[bi].pending != []
    ensures |r.runs| == |o.runs|
    ensures forall j :: 0 <= j < |o.runs| && j != ri ==> r.runs[j] == o.runs[j]
    ensures r.runs[ri].done == o.runs[ri].done + 1 && r.runs[ri].total == o.runs[ri].total
    ensures r.store.progress == Some(Progress(o.runs[ri].done + 1, o.runs[ri].total))
    ensures r.store.loading
    ensures r.store.rows == Upsert(o.store.rows, WithIds(rows, guid, 0))
    ensures r.runs[ri].rows == o.runs[ri].rows + WithIds(rows, guid, 0)
    ensures |r.runs[ri].branches| == |o.runs[ri].branches|
    ensures r.runs[ri].branches[bi].pending == o.runs[ri].branches[bi].pending[1..]
    ensures r.runs[ri].branches[bi].config == o.runs[ri].branches[bi].config
    ensures forall k :: 0 <= k < |o.runs[ri].branches| && k != bi ==> r.runs[ri].branches[k] == o.runs[ri].branches[k]
  {
    var run := o.runs[ri];
    var b := run.branches[bi];
    var batch := WithIds(rows, guid, 0);
    var next := Run(run.total, run.done + 1, run.branches[bi := b.(pending := b.pending[1..])], run.rows + batch);
    Orchestrator(ResultState(Upsert(o.store.rows, batch), true, Some(Progress(next.done, next.total))), o.runs[ri := next])
  }

  /** `forkJoin` completes once every branch is idle, and the run ends. */
  function Settle(o: Orchestrator, ri: nat): (r: Orchestrator)
    requires ri < |o.runs|
    ensures AllIdle(o.runs[ri].branches) ==> r == Finalize(o, ri)
    ensures !AllIdle(o.runs[ri].branches) ==> r == o
  {
    if AllIdle(o.runs[ri].branches) then Finalize(o, ri) else o
  }

  /** The events of a running search. */
  datatype Event =
    | ProjectSearched(ri: nat, bi: nat, params: SearchParams.ParamsState, raws: Option<seq<SearchResultRaw>>, guid: nat -> string)
    | RateLimitWait(ri: nat, bi: nat)
    | StopRequested

  /** An event can only come from a live branch with a project in flight. */
  predicate Enabled(o: Orchestrator, e: Event) {
    match e
    case ProjectSearched(ri, bi, _, _, _) =>
      ri < |o.runs| && bi < |o.runs[ri].branches| && o.runs[ri].branches[bi].pending != []
    case RateLimitWait(ri, bi) =>
      ri < |o.runs| && bi < |o.runs[ri].branches| && o.runs[ri].branches[bi].pending != []
    case StopRequested => true
  }

  /** `stopSearching()` and `ngOnDestroy()`: every live subscription is
      ended, and with it finalized. */
  function Stop(o: Orchestrator): (r: Orchestrator)
    ensures r.runs == []
    ensures r.store.rows == o.store.rows
    ensures o.runs != [] ==> !r.store.loading && r.store.progress.None?
    ensures o.runs == [] ==> r == o
  {
    if o.runs == [] then o else Orchestrator(o.store.(loading := false, progress := None), [])
  }

  /** One event. A finished project search records its rows and may
      complete the run; an error thrown by the enrichment errors the
      `forkJoin`, which finalizes the run. */
  function Step(o: Orchestrator, e: Event): (r: Orchestrator)
    requires Enabled(o, e)
    ensures e.RateLimitWait? ==> r == o
    ensures e.StopRequested? ==> r == Stop(o)
    ensures e.ProjectSearched? ==>
              var b := o.runs[e.ri].branches[e.bi];
              match Enrich(b.config, b.pending[0], e.params, e.raws)
              case Failure(_) => r == Finalize(o, e.ri)
              case Success(rows) => r == Settle(Record(o, e.ri, e.bi, rows, e.guid), e.ri)
  {
    match e
    case RateLimitWait(_, _) => o
    case StopRequested => Stop(o)
    case ProjectSearched(ri, bi, params, raws, guid) =>
      var b := o.runs[ri].branches[bi];
      match Enrich(b.config, b.pending[0], params, raws)
      case Failure(_) => Finalize(o, ri)
      case Success(rows) => Settle(Record(o, ri, bi, rows, guid), ri)
  }

  // ---------------------------------------------------------------------
  // The invariant of the corrected service
  // ---------------------------------------------------------------------

  /** A live run's bookkeeping: its counter plus what is still pending is
      its total, it is not finished, and the store shows exactly its rows
      and its progress, with loading on exactly once a project has
      answered. */
  predicate RunShown(run: Run, store: ResultState) {
    && run.done + PendingCount(run.branches) == run.total
    && !AllIdle(run.branches)
    && (store.loading <==> run.done > 0)
    && store.progress == Some(Progress(run.done, run.total))
    && store.rows == run.rows
  }

  /** At most one run; without one the store is idle, with one it shows
      that run. */
  predicate Coherent(o: Orchestrator) {
    && |o.runs| <= 1
    && (o.runs == [] ==> !o.store.loading && o.store.progress.None?)
    && (o.runs != [] ==> RunShown(o.runs[0], o.store))
  }

  lemma InitialCoherent()
    ensures Coherent(Initial())
  {
  }

  lemma {:induction false} PendingOfBranches(groups: seq<ConfigGroup>, configs: seq<GitlabConfig>)
    requires Branches(groups, configs).Success?
    ensures PendingCount(Branches(groups, configs).value) == TotalSize(groups)
  {
    if groups != [] {
      PendingOfBranches(groups[1..], configs);
    }
  }

  /** A corrected search starts a run showing `{0, total}` with every
      selected project pending, or leaves the state alone. */
  lemma SearchExclusiveCoherent(o: Orchestrator, query: string, selection: Option<seq<SearchProject>>, configs: seq<GitlabConfig>)
    requires Coherent(o)
    ensures SearchExclusive(o, query, selection, configs).Success? ==>
              Coherent(SearchExclusive(o, query, selection, configs).value)
  {
    if Accepts(query, selection) && Prepare(query, selection, configs).Started? {
      var sel := selection.value;
      var groups := Grouping(sel);
      var bs := Branches(groups, configs).value;
      PendingOfBranches(groups, configs);
      GroupingShape(sel);
      IdleIffNothingPending(bs);
    }
  }

  /** Stopping keeps the invariant. */
  lemma StopCoherent(o: Orchestrator)
    requires Coherent(o)
    ensures Coherent(Stop(o))
  {
  }

  /** A finished project search keeps the invariant when `guid()` gives
      fresh ids: the store then holds the run's rows followed by the batch,
      and progress counts one more project. */
  lemma ProjectSearchedCoherent(o: Orchestrator, e: Event)
    requires Coherent(o) && Enabled(o, e) && e.ProjectSearched?
    requires GuidFresh(o.store.rows, e.guid)
    ensures Coherent(Step(o, e))
  {
    var run := o.runs[e.ri];
    var b := run.branches[e.bi];
    match Enrich(b.config, b.pending[0], e.params, e.raws)
    case Failure(_) =>
    case Success(rows) =>
      var batch := WithIds(rows, e.guid, 0);
      GuidFreshBatch(o.store.rows, rows, e.guid);
      UpsertFresh(o.store.rows, batch);
      var rec := Record(o, e.ri, e.bi, rows, e.guid);
      PendingCountUpdate(run.branches, e.bi, b.(pending := b.pending[1..]));
      IdleIffNothingPending(rec.runs[e.ri].branches);
  }

  /** Every enabled event keeps the invariant of the corrected service. */
  lemma StepCoherent(o: Orchestrator, e: Event)
    requires Coherent(o) && Enabled(o, e)
    requires e.ProjectSearched? ==> GuidFresh(o.store.rows, e.guid)
    ensures Coherent(Step(o, e))
  {
    if e.ProjectSearched? {
      ProjectSearchedCoherent(o, e);
    }
  }

  // ---------------------------------------------------------------------
  // Overlapping searches as written
  // ---------------------------------------------------------------------

  /** A selection of one project groups into one group. */
  lemma SingleGrouping(sp: SearchProject)
    ensures Grouping([sp]) == [ConfigGroup(sp.gitlabId, [sp.projectId])]
  {
    var sel := [sp];
    assert ProjectQueries.GitlabIds(sel) == [sp.gitlabId];
    assert Dedup([sp.gitlabId]) == [sp.gitlabId] by {
      assert [sp.gitlabId][..0] == [];
    }
    assert ProjectIdsOf(sel, sp.gitlabId) == [sp.projectId] by {
      assert sel[..0] == [];
    }
  }

  /** Searching one project of a configured instance starts one branch. */
  lemma SinglePrepare(c: GitlabConfig, projectId: int, query: string)
    requires query != ""
    ensures Prepare(query, Some([SearchProject(c.id, projectId)]), [c]) == Started(Run(1, 0, [Branch(c, [projectId])], []))
  {
    SingleGrouping(SearchProject(c.id, projectId));
    var groups := [ConfigGroup(c.id, [projectId])];
    assert ConfigFor([c], c.id) == Some(c);
    assert groups[1..] == [];
    assert Branches([], [c]) == Success([]);
    assert [Branch(c, [projectId])] + [] == [Branch(c, [projectId])];
    assert Branches(groups, [c]) == Success([Branch(c, [projectId])]);
  }

  /** Two searches of the same project, the second started while the first
      is still running: when the first run's project search returns rows,
      they land in the second search's results, and the first run's
      completion switches loading off and clears the progress although the
      second run is still waiting for its project. */
  lemma OverlappingSearchesMix(c: GitlabConfig, projectId: int, first: string, second: string,
                               params: SearchParams.ParamsState, raws: seq<SearchResultRaw>, guid: nat -> string)
    requires first != "" && second != "" && raws != []
    requires EntityStore.HasKey(params.entities, SearchParams.DataId, c.id)
    requires GuidFresh([], guid)
    ensures
      var sel := Some([SearchProject(c.id, projectId)]);
      var o1 := Search(Initial(), first, sel, [c]);
      o1.Success? &&
      var o2 := Search(o1.value, second, sel, [c]);
      o2.Success? &&
      var e := ProjectSearched(0, 0, params, Some(raws), guid);
      Enabled(o2.value, e) &&
      var after := Step(o2.value, e);
      && after.runs == [Run(1, 0, [Branch(c, [projectId])], [])]
      && |after.store.rows| == |raws|
      && (forall i :: 0 <= i < |raws| ==> after.store.rows[i].row.raw == raws[i])
      && !after.store.loading && after.store.progress.None?
      && !Coherent(after)
  {
    var run := Run(1, 0, [Branch(c, [projectId])], []);
    TwoSearches(c, projectId, first, second);
    FirstFinishes(Orchestrator(Reset(1), [run, run]), run, params, raws, guid);
  }

  /** The two searches of that scenario, each adding one run. */
  lemma TwoSearches(c: GitlabConfig, projectId: int, first: string, second: string)
    requires first != "" && second != ""
    ensures var sel := Some([SearchProject(c.id, projectId)]);
      var run := Run(1, 0, [Branch(c, [projectId])], []);
      && Search(Initial(), first, sel, [c]) == Success(Orchestrator(Reset(1), [run]))
      && Search(Orchestrator(Reset(1), [run]), second, sel, [c]) == Success(Orchestrator(Reset(1), [run, run]))
  {
    var sel := [SearchProject(c.id, projectId)];
    var run := Run(1, 0, [Branch(c, [projectId])], []);
    SinglePrepare(c, projectId, first);
    SinglePrepare(c, projectId, second);
    assert Initial().runs + [run] == [run];
    assert [run] + [run] == [run, run];
  }

  /** The older of two identical runs finishing its only project. */
  lemma FirstFinishes(o: Orchestrator, run: Run, params: SearchParams.ParamsState, raws: seq<SearchResultRaw>, guid: nat -> string)
    requires o.runs == [run, run] && o.store == Reset(1)
    requires run.branches != [] && |run.branches[0].pending| == 1 && |run.branches| == 1
    requires EntityStore.HasKey(params.entities, SearchParams.DataId, run.branches[0].config.id)
    requires GuidFresh([], guid)
    ensures
      var e := ProjectSearched(0, 0, params, Some(raws), guid);
      Enabled(o, e) &&
      var after := Step(o, e);
      && after.runs == [run]
      && |after.store.rows| == |raws|
      && (forall i :: 0 <= i < |raws| ==> after.store.rows[i].row.raw == raws[i])
      && !after.store.loading && after.store.progress.None?
  {
    var b := run.branches[0];
    var rows := Enrich(b.config, b.pending[0], params, Some(raws)).value;
    var batch := WithIds(rows, guid, 0);
    GuidFreshBatch([], rows, guid);
    UpsertFresh([], batch);
    assert [] + batch == batch;
    var rec := Record(o, 0, 0, rows, guid);
    assert rec.runs[0].branches[0].pending == [];
    assert AllIdle(rec.runs[0].branches);
    assert rec.runs[..0] + rec.runs[1..] == [run];
  }
}
