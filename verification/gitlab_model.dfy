/** Records shared by the services: instance configs, projects, the search
    selection and search-result rows. Only the fields the modelled logic
    reads are kept. */
module GitlabModel {
  import opened Wrappers

  /** Reply of `GET /api/v4/version`. */
  datatype GitlabVersion = GitlabVersion(version: string, revision: string)

  /** A configured GitLab instance; `rateLimit` is the optional requests per
      minute quota. */
  datatype GitlabConfig = GitlabConfig(
    id: string,
    gitlabURL: string,
    token: string,
    rateLimit: Option<int>,
    version: Option<GitlabVersion>)

  /** The key of the config store. */
  function ConfigId(c: GitlabConfig): string {
    c.id
  }

  /** The `rateLimit && rateLimit > 0` test guarding limiter creation. */
  predicate HasQuota(rateLimit: Option<int>) {
    rateLimit.Some? && rateLimit.value > 0
  }

  datatype Project = Project(id: int, name: string, nameWithNamespace: string, webUrl: string)

  /** One selected (instance, project) pair. */
  datatype SearchProject = SearchProject(gitlabId: string, projectId: int)

  /** One row of `GET /projects/:id/search?scope=blobs`. */
  datatype SearchResultRaw = SearchResultRaw(
    basename: string,
    data: string,
    path: string,
    filename: string,
    id: Option<int>,
    ref: string,
    startline: int,
    projectId: int)

  /** A raw row plus the optional fields added while the search runs. */
  datatype RichSearchResult = RichSearchResult(
    raw: SearchResultRaw,
    gitlabID: Option<string>,
    projectURL: Option<string>,
    gitlabURL: Option<string>,
    projectName: Option<string>)

  /** A row of the result store, keyed by the synthetic `resultID`. */
  datatype SearchResult = SearchResult(row: RichSearchResult, resultID: string)

  function Untagged(raw: SearchResultRaw): RichSearchResult {
    RichSearchResult(raw, None, None, None, None)
  }
}
