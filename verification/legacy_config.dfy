/** The older `GitlabConfigService` under `src/app/state`: plain store
    operations and a two-valued theme. */
module LegacyConfig {
  import opened Wrappers
  import opened GitlabModel
  import EntityStore

  /** Only two theme modes exist here. */
  datatype ThemeMode = Light | Dark

  datatype LegacyGitlabConfig = LegacyGitlabConfig(
    id: string,
    gitlabURL: string,
    token: string,
    ignoreSSL: bool,
    version: Option<GitlabVersion>)

  datatype LegacyState = LegacyState(configs: seq<LegacyGitlabConfig>, themeMode: ThemeMode)

  function ConfigId(c: LegacyGitlabConfig): string {
    c.id
  }

  function InitialState(): (s: LegacyState)
    ensures s.configs == [] && s.themeMode == Light
  {
    LegacyState([], Light)
  }

  /** `add`: the config stored under a fresh id. */
  function Add(s: LegacyState, input: LegacyGitlabConfig, freshId: string): (r: LegacyState)
    ensures !EntityStore.HasKey(s.configs, ConfigId, freshId) ==> r.configs == s.configs + [input.(id := freshId)]
    ensures r.themeMode == s.themeMode
    ensures EntityStore.UniqueKeys(s.configs, ConfigId) ==> EntityStore.UniqueKeys(r.configs, ConfigId)
  {
    s.(configs := EntityStore.Add(s.configs, ConfigId, input.(id := freshId)))
  }

  /** `Partial<GitlabConfig>` without the id. */
  datatype LegacyPatch = LegacyPatch(
    gitlabURL: Option<string>,
    token: Option<string>,
    ignoreSSL: Option<bool>,
    version: Option<Option<GitlabVersion>>)

  function ApplyPatch(c: LegacyGitlabConfig, p: LegacyPatch): (r: LegacyGitlabConfig)
    ensures r.id == c.id
    ensures r.gitlabURL == p.gitlabURL.GetOr(c.gitlabURL) && r.token == p.token.GetOr(c.token)
    ensures r.ignoreSSL == p.ignoreSSL.GetOr(c.ignoreSSL) && r.version == p.version.GetOr(c.version)
  {
    LegacyGitlabConfig(c.id, p.gitlabURL.GetOr(c.gitlabURL), p.token.GetOr(c.token),
                       p.ignoreSSL.GetOr(c.ignoreSSL), p.version.GetOr(c.version))
  }

  /** `update`: only the config with the given id is patched. */
  function Update(s: LegacyState, id: string, patch: LegacyPatch): (r: LegacyState)
    ensures |r.configs| == |s.configs| && r.themeMode == s.themeMode
    ensures forall i :: 0 <= i < |s.configs| ==>
              r.configs[i] == (if s.configs[i].id == id then ApplyPatch(s.configs[i], patch) else s.configs[i])
  {
    s.(configs := EntityStore.Update(s.configs, ConfigId, id, c => ApplyPatch(c, patch)))
  }

  /** `remove`: only the config with the given id is deleted, and the
      others keep their order. */
  function Remove(s: LegacyState, id: string): (r: LegacyState)
    ensures r.themeMode == s.themeMode
    ensures r.configs == EntityStore.Remove(s.configs, ConfigId, id)
    ensures forall i :: 0 <= i < |r.configs| ==> r.configs[i].id != id && r.configs[i] in s.configs
    ensures forall i :: 0 <= i < |s.configs| && s.configs[i].id != id ==> s.configs[i] in r.configs
  {
    var configs := EntityStore.Remove(s.configs, ConfigId, id);
    assert forall i :: 0 <= i < |configs| ==> configs[i].id != id;
    s.(configs := configs)
  }

  /** `toggleThemeMode`: light becomes dark and dark becomes light. */
  function ToggleThemeMode(s: LegacyState): (r: LegacyState)
    ensures r.configs == s.configs && r.themeMode != s.themeMode
  {
    s.(themeMode := if s.themeMode == Light then Dark else Light)
  }

  /** With only two modes, toggling twice restores the original state. */
  lemma ToggleThemeModeInvolution(s: LegacyState)
    ensures ToggleThemeMode(ToggleThemeMode(s)) == s
  {
  }
}
