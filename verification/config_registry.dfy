/** `GitlabConfigService`: the config store together with the map from
    config id to rate limiter. Asynchronous replies (the version fetch of
    `add`, the version refresh of `updateVersions`) are separate completion
    steps; after `ngOnDestroy` they are ignored, as `takeUntil(destroy$)`
    unsubscribes them. */
module ConfigRegistry {
  import opened Wrappers
  import opened GitlabModel
  import opened EntityStore
  import opened RateLimit

  datatype ThemeMode = Light | Dark | Auto

  datatype StoredFilter = StoredFilter(withArchivedProjects: bool)

  /** `Partial<StoredFilter>`. */
  datatype FilterPatch = FilterPatch(withArchivedProjects: Option<bool>)

  datatype ConfigState = ConfigState(configs: seq<GitlabConfig>, themeMode: ThemeMode, filter: StoredFilter)

  datatype Registry = Registry(state: ConfigState, limiters: map<string, Limiter>, alive: bool)

  /** A registry step and what the requests it touched receive. */
  datatype Outcome = Outcome(registry: Registry, emitted: seq<Emission>)

  /** The store's initial value: theme `auto`, archived projects hidden. */
  function InitialState(): (s: ConfigState)
    ensures s.configs == [] && s.themeMode == Auto && !s.filter.withArchivedProjects
  {
    ConfigState([], Auto, StoredFilter(false))
  }

  function Start(): (r: Registry)
    ensures r.state == InitialState() && r.limiters == map[] && r.alive
  {
    Registry(InitialState(), map[], true)
  }

  /** Every registered limiter satisfies the limiter invariant and config
      ids are unique. */
  predicate RegistryValid(reg: Registry) {
    && UniqueKeys(reg.state.configs, ConfigId)
    && forall id :: id in reg.limiters ==> Valid(reg.limiters[id])
  }

  /** A limiter as `new RateLimitController(rateLimit)` creates it. */
  predicate FreshFor(l: Limiter, rateLimit: Option<int>) {
    rateLimit.Some? && l == Init(rateLimit.value)
  }

  /** Config `i` of `cs` has id `id` and a positive quota. */
  predicate QuotaAt(cs: seq<GitlabConfig>, i: int, id: string) {
    0 <= i < |cs| && cs[i].id == id && HasQuota(cs[i].rateLimit)
  }

  /** The limiters created for `configs`, a later config overwriting an
      earlier one with the same id. */
  function LimitersFor(cs: seq<GitlabConfig>): (r: map<string, Limiter>)
    ensures forall id :: id in r <==> exists i :: QuotaAt(cs, i, id)
    ensures forall id :: id in r ==> exists i :: QuotaAt(cs, i, id) && FreshFor(r[id], cs[i].rateLimit)
  {
    if cs == [] then map[]
    else
      var init := cs[..|cs| - 1];
      var last := cs[|cs| - 1];
      var before := LimitersFor(init);
      assert forall i, id :: QuotaAt(init, i, id) ==> QuotaAt(cs, i, id);
      assert forall i, id :: QuotaAt(cs, i, id) && i < |cs| - 1 ==> QuotaAt(init, i, id);
      assert QuotaAt(cs, |cs| - 1, last.id) <==> HasQuota(last.rateLimit);
      if HasQuota(last.rateLimit) then before[last.id := Init(last.rateLimit.value)] else before
  }

  /** Startup: once the persisted state is in the store, a limiter is
      registered for each stored config with `rateLimit > 0`. */
  function Rehydrate(reg: Registry, persisted: ConfigState): (r: Registry)
    ensures !reg.alive ==> r == reg
    ensures reg.alive ==> r.state == persisted
    ensures reg.alive && reg.limiters == map[] ==>
              forall id :: id in r.limiters <==> exists i :: QuotaAt(persisted.configs, i, id)
  {
    if !reg.alive then reg
    else Registry(persisted, reg.limiters + LimitersFor(persisted.configs), true)
  }

  lemma RehydrateValid(reg: Registry, persisted: ConfigState)
    requires RegistryValid(reg) && UniqueKeys(persisted.configs, ConfigId)
    ensures RegistryValid(Rehydrate(reg, persisted))
  {
    var created := LimitersFor(persisted.configs);
    forall id | id in created ensures Valid(created[id]) {
      var i :| QuotaAt(persisted.configs, i, id) && FreshFor(created[id], persisted.configs[i].rateLimit);
    }
  }

  /** Completion of `add`: nothing happens until the version fetch succeeds;
      then the config is stored under the fresh id with the fetched version,
      and a limiter is registered when `rateLimit > 0`. */
  function Add(reg: Registry, input: GitlabConfig, reply: Option<GitlabVersion>, freshId: string): (r: Registry)
    ensures reply.None? || !reg.alive ==> r == reg
    ensures reply.Some? && reg.alive ==>
              r.state.configs == EntityStore.Add(reg.state.configs, ConfigId, input.(id := freshId, version := reply))
    ensures reply.Some? && reg.alive && HasQuota(input.rateLimit) ==>
              freshId in r.limiters && FreshFor(r.limiters[freshId], input.rateLimit)
    ensures reply.Some? && reg.alive && !HasQuota(input.rateLimit) ==> r.limiters == reg.limiters
    ensures forall id :: id != freshId ==> (id in r.limiters <==> id in reg.limiters)
    ensures forall id :: id != freshId && id in r.limiters ==> r.limiters[id] == reg.limiters[id]
    ensures r.state.themeMode == reg.state.themeMode && r.state.filter == reg.state.filter
  {
    if reply.None? || !reg.alive then reg
    else
      var configs := EntityStore.Add(reg.state.configs, ConfigId, input.(id := freshId, version := reply));
      var limiters := if HasQuota(input.rateLimit) then reg.limiters[freshId := Init(input.rateLimit.value)] else reg.limiters;
      reg.(state := reg.state.(configs := configs), limiters := limiters)
  }

  /** `Partial<GitlabConfig>` without the id; `None` fields are absent. */
  datatype ConfigPatch = ConfigPatch(
    gitlabURL: Option<string>,
    token: Option<string>,
    rateLimit: Option<int>,
    version: Option<Option<GitlabVersion>>)

  function ApplyPatch(c: GitlabConfig, p: ConfigPatch): (r: GitlabConfig)
    ensures r.id == c.id
    ensures r.gitlabURL == p.gitlabURL.GetOr(c.gitlabURL) && r.token == p.token.GetOr(c.token)
    ensures r.rateLimit == (if p.rateLimit.Some? then p.rateLimit else c.rateLimit)
    ensures r.version == p.version.GetOr(c.version)
  {
    GitlabConfig(c.id, p.gitlabURL.GetOr(c.gitlabURL), p.token.GetOr(c.token),
                 if p.rateLimit.Some? then p.rateLimit else c.rateLimit, p.version.GetOr(c.version))
  }

  /** Destroys and unregisters the limiter of `id`, if there is one. */
  function Unregister(limiters: map<string, Limiter>, id: string): (r: (map<string, Limiter>, seq<Emission>))
    ensures id !in r.0 && forall k :: k != id ==> (k in r.0 <==> k in limiters)
    ensures forall k :: k in r.0 ==> r.0[k] == limiters[k]
    ensures id in limiters ==> r.1 == Destroy(limiters[id]).emitted
    ensures id !in limiters ==> r.1 == []
  {
    if id in limiters then (limiters - {id}, Destroy(limiters[id]).emitted) else (limiters, [])
  }

  /** `update`: the patch is merged into the stored config; any limiter of
      the id is destroyed and dropped, and a new one is registered only when
      the patch itself carries `rateLimit > 0`. */
  function Update(reg: Registry, id: string, patch: ConfigPatch): (r: Outcome)
    ensures r.registry.state.configs == EntityStore.Update(reg.state.configs, ConfigId, id, c => ApplyPatch(c, patch))
    ensures id in r.registry.limiters <==> HasQuota(patch.rateLimit)
    ensures HasQuota(patch.rateLimit) ==> FreshFor(r.registry.limiters[id], patch.rateLimit)
    ensures forall k :: k != id ==> (k in r.registry.limiters <==> k in reg.limiters)
    ensures forall k :: k != id && k in reg.limiters ==> r.registry.limiters[k] == reg.limiters[k]
    ensures r.emitted == (if id in reg.limiters then Destroy(reg.limiters[id]).emitted else [])
  {
    var configs := EntityStore.Update(reg.state.configs, ConfigId, id, c => ApplyPatch(c, patch));
    var (rest, released) := Unregister(reg.limiters, id);
    var limiters := if HasQuota(patch.rateLimit) then rest[id := Init(patch.rateLimit.value)] else rest;
    Outcome(reg.(state := reg.state.(configs := configs), limiters := limiters), released)
  }

  /** A patch without `rateLimit` leaves the id unlimited even when the
      stored config keeps its positive `rateLimit`. */
  lemma UpdateWithoutRateLimitUnlimits(reg: Registry, id: string, patch: ConfigPatch, i: nat)
    requires patch.rateLimit.None? && i < |reg.state.configs| && reg.state.configs[i].id == id
    ensures Update(reg, id, patch).registry.state.configs[i].rateLimit == reg.state.configs[i].rateLimit
    ensures id !in Update(reg, id, patch).registry.limiters
  {
  }

  /** `remove`: the config is deleted, and its limiter destroyed and
      dropped; other ids are untouched. */
  function Remove(reg: Registry, id: string): (r: Outcome)
    ensures r.registry.state.configs == EntityStore.Remove(reg.state.configs, ConfigId, id)
    ensures id !in r.registry.limiters
    ensures forall k :: k != id ==> (k in r.registry.limiters <==> k in reg.limiters)
    ensures forall k :: k in r.registry.limiters ==> r.registry.limiters[k] == reg.limiters[k]
    ensures r.emitted == (if id in reg.limiters then Destroy(reg.limiters[id]).emitted else [])
  {
    var (rest, released) := Unregister(reg.limiters, id);
    Outcome(reg.(state := reg.state.(configs := EntityStore.Remove(reg.state.configs, ConfigId, id)), limiters := rest), released)
  }

  lemma UpdateValid(reg: Registry, id: string, patch: ConfigPatch)
    requires RegistryValid(reg)
    ensures RegistryValid(Update(reg, id, patch).registry)
  {
    UpdateKeepsKeys(reg.state.configs, ConfigId, id, c => ApplyPatch(c, patch));
  }

  lemma RemoveValid(reg: Registry, id: string)
    requires RegistryValid(reg)
    ensures RegistryValid(Remove(reg, id).registry)
  {
  }

  lemma AddValid(reg: Registry, input: GitlabConfig, reply: Option<GitlabVersion>, freshId: string)
    requires RegistryValid(reg)
    ensures RegistryValid(Add(reg, input, reply, freshId))
  {
  }

  /** `toggleThemeMode`: light becomes dark, dark and auto become light. */
  function ToggleThemeMode(s: ConfigState): (r: ConfigState)
    ensures r.configs == s.configs && r.filter == s.filter
  {
    s.(themeMode := if s.themeMode == Light then Dark else Light)
  }

  /** Toggling is an involution on light and dark, but not on auto: two
      toggles from auto end in dark. */
  lemma ToggleThemeModeTwice(s: ConfigState)
    ensures s.themeMode != Auto ==> ToggleThemeMode(ToggleThemeMode(s)) == s
    ensures s.themeMode == Auto ==> ToggleThemeMode(s).themeMode == Light
    ensures s.themeMode == Auto ==> ToggleThemeMode(ToggleThemeMode(s)).themeMode == Dark
    ensures ToggleThemeMode(s).themeMode != Auto
  {
  }

  /** `setFilter`: the partial filter spread over the current one. */
  function SetFilter(s: ConfigState, patch: FilterPatch): (r: ConfigState)
    ensures r.configs == s.configs && r.themeMode == s.themeMode
  {
    s.(filter := StoredFilter(patch.withArchivedProjects.GetOr(s.filter.withArchivedProjects)))
  }

  /** The later of two patches wins field by field. */
  function MergeFilterPatch(p: FilterPatch, q: FilterPatch): FilterPatch {
    FilterPatch(if q.withArchivedProjects.Some? then q.withArchivedProjects else p.withArchivedProjects)
  }

  /** Unspecified fields are kept, a patch applied twice acts once, and two
      patches act like their merge. */
  lemma SetFilterMerge(s: ConfigState, p: FilterPatch, q: FilterPatch)
    ensures SetFilter(s, FilterPatch(None)) == s
    ensures SetFilter(SetFilter(s, p), p) == SetFilter(s, p)
    ensures SetFilter(SetFilter(s, p), q) == SetFilter(s, MergeFilterPatch(p, q))
  {
  }

  /** Applies the successful version replies `0..n-1` to the store, each as
      an update of the snapshot config with its new version. */
  function ApplyVersions(cs: seq<GitlabConfig>, snapshot: seq<GitlabConfig>, replies: seq<Option<GitlabVersion>>, n: nat): (r: seq<GitlabConfig>)
    requires n <= |snapshot| == |replies|
    ensures |r| == |cs|
    ensures forall j :: 0 <= j < |cs| ==> r[j].id == cs[j].id
    decreases n
  {
    if n == 0 then cs
    else
      var before := ApplyVersions(cs, snapshot, replies, n - 1);
      if replies[n - 1].None? then before
      else
        EntityStore.Replace(before, ConfigId, snapshot[n - 1].id, snapshot[n - 1].(version := replies[n - 1]))
  }

  /** Completion of `updateVersions`, given the configs read when it was
      called and one reply per config (`None` where the fetch failed). */
  function UpdateVersions(reg: Registry, snapshot: seq<GitlabConfig>, replies: seq<Option<GitlabVersion>>): (r: Registry)
    requires |snapshot| == |replies|
    ensures !reg.alive ==> r == reg
    ensures r.limiters == reg.limiters && r.state.themeMode == reg.state.themeMode && r.state.filter == reg.state.filter
    ensures |r.state.configs| == |reg.state.configs|
  {
    if !reg.alive then reg
    else reg.(state := reg.state.(configs := ApplyVersions(reg.state.configs, snapshot, replies, |replies|)))
  }

  /** When the store has not changed since the call, every config whose
      fetch succeeded gets the new version and the others keep theirs, all
      in one step. */
  lemma UpdateVersionsInPlace(reg: Registry, replies: seq<Option<GitlabVersion>>)
    requires reg.alive && UniqueKeys(reg.state.configs, ConfigId) && |replies| == |reg.state.configs|
    ensures forall j :: 0 <= j < |replies| ==>
              UpdateVersions(reg, reg.state.configs, replies).state.configs[j]
                == (if replies[j].Some? then reg.state.configs[j].(version := replies[j]) else reg.state.configs[j])
  {
    ApplyVersionsPrefix(reg.state.configs, replies, |replies|);
  }

  lemma ApplyVersionsPrefix(cs: seq<GitlabConfig>, replies: seq<Option<GitlabVersion>>, n: nat)
    requires UniqueKeys(cs, ConfigId) && n <= |replies| == |cs|
    ensures forall j :: 0 <= j < |cs| ==>
              ApplyVersions(cs, cs, replies, n)[j]
                == (if j < n && replies[j].Some? then cs[j].(version := replies[j]) else cs[j])
  {
    forall j | 0 <= j < |cs|
      ensures ApplyVersions(cs, cs, replies, n)[j]
                == (if j < n && replies[j].Some? then cs[j].(version := replies[j]) else cs[j])
    {
      assert forall i :: 0 <= i < |cs| && i != j ==> ConfigId(cs[i]) != ConfigId(cs[j]);
      ApplyVersionsAt(cs, replies, n, j);
    }
  }

  /** The same statement for one position whose id no other config has. */
  lemma {:induction false} ApplyVersionsAt(cs: seq<GitlabConfig>, replies: seq<Option<GitlabVersion>>, n: nat, j: nat)
    requires n <= |replies| == |cs| && j < |cs|
    requires forall i :: 0 <= i < |cs| && i != j ==> cs[i].id != cs[j].id
    ensures ApplyVersions(cs, cs, replies, n)[j]
              == (if j < n && replies[j].Some? then cs[j].(version := replies[j]) else cs[j])
    decreases n
  {
    if n > 0 {
      var k := n - 1;
      ApplyVersionsAt(cs, replies, k, j);
      var before := ApplyVersions(cs, cs, replies, k);
      var now := ApplyVersions(cs, cs, replies, n);
      if replies[k].None? {
        assert now == before;
        if k == j {
          assert replies[j].None?;
        }
      } else {
        var u := cs[k].(version := replies[k]);
        assert now == EntityStore.Replace(before, ConfigId, cs[k].id, u);
        if k == j {
          assert ConfigId(before[j]) == cs[j].id;
          assert now[j] == u == cs[j].(version := replies[j]);
        } else {
          assert ConfigId(before[j]) == cs[j].id != cs[k].id;
          assert now[j] == before[j];
        }
      }
    }
  }

  /** A config that the snapshot does not know (added meanwhile) is left
      untouched. */
  lemma UpdateVersionsSkipsUnknown(reg: Registry, snapshot: seq<GitlabConfig>, replies: seq<Option<GitlabVersion>>, j: nat)
    requires |snapshot| == |replies| && j < |reg.state.configs|
    requires forall i :: 0 <= i < |snapshot| ==> snapshot[i].id != reg.state.configs[j].id
    ensures UpdateVersions(reg, snapshot, replies).state.configs[j] == reg.state.configs[j]
  {
    ApplyVersionsSkips(reg.state.configs, snapshot, replies, |replies|, j);
  }

  lemma {:induction false} ApplyVersionsSkips(cs: seq<GitlabConfig>, snapshot: seq<GitlabConfig>, replies: seq<Option<GitlabVersion>>, n: nat, j: nat)
    requires n <= |snapshot| == |replies| && j < |cs|
    requires forall i :: 0 <= i < |snapshot| ==> snapshot[i].id != cs[j].id
    ensures ApplyVersions(cs, snapshot, replies, n)[j] == cs[j]
    decreases n
  {
    if n > 0 {
      ApplyVersionsSkips(cs, snapshot, replies, n - 1, j);
    }
  }

  /** `getGitlabRequest` at subscription time: through the limiter exactly
      when one is registered for the config id, otherwise the source runs
      unchanged. */
  function GetGitlabRequest(reg: Registry, configId: string, req: nat): (r: Outcome)
    ensures configId !in reg.limiters ==> r == Outcome(reg, [PassThrough(req)])
    ensures configId in reg.limiters ==>
              && r.emitted == Subscribe(reg.limiters[configId], req).emitted
              && r.registry.limiters == reg.limiters[configId := Subscribe(reg.limiters[configId], req).next]
    ensures r.registry.state == reg.state && r.registry.alive == reg.alive
  {
    if configId in reg.limiters then
      var step := Subscribe(reg.limiters[configId], req);
      Outcome(reg.(limiters := reg.limiters[configId := step.next]), step.emitted)
    else Outcome(reg, [PassThrough(req)])
  }

  /** The reset timer of a registered limiter fires. */
  function TimerFired(reg: Registry, configId: string): (r: Outcome)
    requires configId in reg.limiters && reg.limiters[configId].timer.Running?
    ensures r.emitted == Fire(reg.limiters[configId]).emitted
    ensures r.registry.limiters == reg.limiters[configId := Fire(reg.limiters[configId]).next]
  {
    var step := Fire(reg.limiters[configId]);
    Outcome(reg.(limiters := reg.limiters[configId := step.next]), step.emitted)
  }

  lemma RequestValid(reg: Registry, configId: string, req: nat)
    requires RegistryValid(reg)
    ensures RegistryValid(GetGitlabRequest(reg, configId, req).registry)
  {
    if configId in reg.limiters {
      SubscribePreservesValid(reg.limiters[configId], req);
    }
  }

  lemma TimerFiredValid(reg: Registry, configId: string)
    requires RegistryValid(reg) && configId in reg.limiters && reg.limiters[configId].timer.Running?
    ensures RegistryValid(TimerFired(reg, configId).registry)
  {
    FirePreservesValid(reg.limiters[configId]);
  }

  /** `ngOnDestroy`: pending replies are dropped from now on and every
      registered limiter is destroyed (it stays in the map). */
  function ServiceDestroy(reg: Registry): (r: Registry)
    ensures !r.alive && r.state == reg.state
    ensures r.limiters.Keys == reg.limiters.Keys
    ensures forall id :: id in r.limiters ==> r.limiters[id] == Destroy(reg.limiters[id]).next
  {
    reg.(alive := false, limiters := map id | id in reg.limiters :: Destroy(reg.limiters[id]).next)
  }
}
