/** RequestContext.cs: a culture-tagged variable store. A variable may hold
    `null`; reading an absent variable also gives `null`. */
module RequestContexts {
  import opened Wrappers
  import opened Errors
  import opened Values

  datatype Culture = Invariant | Named(name: string)

  datatype RequestContext = RequestContext(culture: Culture, vars: map<string, Option<Value>>)

  /** The parameterless constructor: invariant culture, no variables. */
  function New(): (r: RequestContext)
    ensures r.culture == Invariant && forall n :: Get(r, n) == None
  {
    RequestContext(Invariant, map[])
  }

  /** The culture constructor rejects a null culture. */
  function NewWithCulture(culture: Option<Culture>): (r: Result<RequestContext, Error>)
    ensures culture.None? <==> r == Failure(ArgumentNull)
    ensures r.Success? ==> r.value.culture == culture.value && forall n :: Get(r.value, n) == None
  {
    if culture.None? then Failure(ArgumentNull) else Success(RequestContext(culture.value, map[]))
  }

  /** The stored value, `None` standing for `null` (also for an absent name). */
  function Get(ctx: RequestContext, name: string): Option<Value> {
    if name in ctx.vars then ctx.vars[name] else None
  }

  function Set(ctx: RequestContext, name: string, value: Option<Value>): (r: RequestContext)
    ensures Get(r, name) == value
    ensures forall n :: n != name ==> Get(r, n) == Get(ctx, n)
    ensures r.culture == ctx.culture
  {
    ctx.(vars := ctx.vars[name := value])
  }

  function Remove(ctx: RequestContext, name: string): (r: RequestContext)
    ensures Get(r, name) == None
    ensures forall n :: n != name ==> Get(r, n) == Get(ctx, n)
    ensures r.culture == ctx.culture
  {
    ctx.(vars := ctx.vars - {name})
  }

  function Clear(ctx: RequestContext): (r: RequestContext)
    ensures forall n :: Get(r, n) == None
    ensures r.culture == ctx.culture
  {
    ctx.(vars := map[])
  }

  /** `SetVariable`: a null name throws; otherwise the value (possibly null)
      is stored and every other name is untouched. */
  function SetVariable(ctx: RequestContext, name: Option<string>, value: Option<Value>): (r: Result<RequestContext, Error>)
    ensures name.None? <==> r == Failure(ArgumentNull)
    ensures r.Success? ==> Get(r.value, name.value) == value
    ensures r.Success? ==> forall n :: n != name.value ==> Get(r.value, n) == Get(ctx, n)
  {
    if name.None? then Failure(ArgumentNull) else Success(Set(ctx, name.value, value))
  }

  /** `GetVariable`: a null name throws. */
  function GetVariable(ctx: RequestContext, name: Option<string>): (r: Result<Option<Value>, Error>)
    ensures name.None? <==> r == Failure(ArgumentNull)
    ensures name.Some? ==> r == Success(if name.value in ctx.vars then ctx.vars[name.value] else None)
  {
    if name.None? then Failure(ArgumentNull) else Success(Get(ctx, name.value))
  }

  /** `RemoveVariable`: a null name throws; an absent name is harmless. */
  function RemoveVariable(ctx: RequestContext, name: Option<string>): (r: Result<RequestContext, Error>)
    ensures name.None? <==> r == Failure(ArgumentNull)
    ensures r.Success? ==> Get(r.value, name.value) == None
    ensures r.Success? ==> forall n :: n != name.value ==> Get(r.value, n) == Get(ctx, n)
  {
    if name.None? then Failure(ArgumentNull) else Success(Remove(ctx, name.value))
  }

  /** Setting, then removing, a name that was absent gives back a context
      that reads the same everywhere. */
  lemma SetRemoveRestores(ctx: RequestContext, name: string, value: Option<Value>)
    requires name !in ctx.vars
    ensures Remove(Set(ctx, name, value), name) == ctx
  {
    assert Remove(Set(ctx, name, value), name).vars == ctx.vars;
  }
}
