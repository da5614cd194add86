/** The type guards `isGitlabProject`, `isGitlabNamespace` and
    `isGitlabGroup`. Each evaluates
    `v !== null && typeof (v === 'object') && v.gitlab_id && v.type === tag`
    and returns the value of that `&&` chain, which callers use for its
    truthiness. */
module TypeGuards {
  import opened Wrappers
  import opened JsValue

  /** The TypeError raised by reading `gitlab_id` of `undefined`. */
  const UndefinedRead := "TypeError: cannot read property 'gitlab_id' of undefined"

  /** The value of the guard's `&&` chain for the given `type` tag. The
      second operand, `typeof (v === 'object')`, is the string "boolean".
      `undefined` passes the first two operands, so reading `v.gitlab_id`
      throws. */
  function Guard(v: Value, tag: string): (r: Result<Value, string>)
    ensures r.Failure? <==> v.Undefined?
    ensures r.Failure? ==> r.error == UndefinedRead
    ensures r.Success? ==> (Truthy(r.value) <==> !v.Null? && Truthy(Get(v, "gitlab_id")) && Get(v, "type") == Str(tag))
  {
    if v.Null? then Success(Bool(false))
    else
      var typeofClause := Str(TypeOf(Bool(v == Str("object"))));
      if !Truthy(typeofClause) then Success(typeofClause)
      else if v.Undefined? then Failure(UndefinedRead)
      else
        var gitlabId := Get(v, "gitlab_id");
        if !Truthy(gitlabId) then Success(gitlabId)
        else Success(Bool(Get(v, "type") == Str(tag)))
  }

  /** `typeof (v === 'object')` is always the non-empty string "boolean", so
      the guard is the same chain without that operand. */
  lemma TypeofClauseIsVacuous(v: Value, tag: string)
    ensures Guard(v, tag) ==
      (if v.Null? then Success(Bool(false))
       else if v.Undefined? then Failure(UndefinedRead)
       else if !Truthy(Get(v, "gitlab_id")) then Success(Get(v, "gitlab_id"))
       else Success(Bool(Get(v, "type") == Str(tag))))
  {
  }

  function IsGitlabProject(v: Value): (r: Result<Value, string>)
    ensures r.Failure? <==> v.Undefined?
    ensures r.Success? ==> (Truthy(r.value) <==> !v.Null? && Truthy(Get(v, "gitlab_id")) && Get(v, "type") == Str("project"))
  {
    Guard(v, "project")
  }

  function IsGitlabNamespace(v: Value): (r: Result<Value, string>)
    ensures r.Failure? <==> v.Undefined?
    ensures r.Success? ==> (Truthy(r.value) <==> !v.Null? && Truthy(Get(v, "gitlab_id")) && Get(v, "type") == Str("namespace"))
  {
    Guard(v, "namespace")
  }

  function IsGitlabGroup(v: Value): (r: Result<Value, string>)
    ensures r.Failure? <==> v.Undefined?
    ensures r.Success? ==> (Truthy(r.value) <==> !v.Null? && Truthy(Get(v, "gitlab_id")) && Get(v, "type") == Str("group"))
  {
    Guard(v, "group")
  }

  /** The guard returned normally with a truthy value. */
  predicate Passes(r: Result<Value, string>) {
    r.Success? && Truthy(r.value)
  }

  /** No value passes two guards with different tags. */
  lemma GuardsAreExclusive(v: Value)
    ensures !(Passes(IsGitlabProject(v)) && Passes(IsGitlabNamespace(v)))
    ensures !(Passes(IsGitlabProject(v)) && Passes(IsGitlabGroup(v)))
    ensures !(Passes(IsGitlabNamespace(v)) && Passes(IsGitlabGroup(v)))
  {
  }
}
