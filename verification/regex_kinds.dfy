/** The four regular-expression kinds. The match itself is the `isMatch`
    oracle (an unanchored search, as `Regex.IsMatch` is); what the model
    fixes is which text is searched, how it is parsed first, and what the
    context path reads. */
module RegexKinds {
  import opened Wrappers
  import opened Errors
  import opened Strings
  import opened Numbers
  import opened Values
  import opened RequestContexts
  import opened TextCursors
  import opened Kinds
  import opened ValueKinds

  predicate IsRegexKind(k: Kind) {
    k.RegexWord? || k.RegexText? || k.LongRegex? || k.RegexLong?
  }

  /** Whether the kind's values are `long` rather than `string`. */
  predicate IsLongRegex(k: Kind) {
    k.LongRegex? || k.RegexLong?
  }

  /** `TryParse`: a non-empty string for the string kinds, `long.TryParse`
      for the `long` ones; a missing token parses to nothing. */
  function RegexParse(k: Kind, text: Option<string>): (r: Option<Value>)
    requires IsRegexKind(k)
    ensures r.Some? ==> text.Some?
    ensures !IsLongRegex(k) ==> (r.Some? <==> text.Some? && text.value != [])
    ensures !IsLongRegex(k) && r.Some? ==> r.value == VStr(text.value)
    ensures IsLongRegex(k) ==> (r.Some? <==> text.Some? && ParseInt64(text.value).Some?)
    ensures IsLongRegex(k) && r.Some? ==> r.value.VLong? && r.value.l == ParseInt64(text.value).value
  {
    if text.None? then None
    else if IsLongRegex(k) then
      var n := ParseLong(text.value);
      if n.Some? then Some(VLong(n.value)) else None
    else if text.value == [] then None
    else Some(VStr(text.value))
  }

  /** `TryGetTokenFromInput`: the next word (the rest of the input for
      `RegexText`), parsed, then searched with the pattern; without a pattern
      nothing matches. */
  function RegexInput(isMatch: (string, string) -> bool, k: Kind, c: Cursor): (r: Extraction)
    requires Valid(c) && IsRegexKind(k)
    ensures var step := if k.RegexText? then All(c) else Next(c);
      && r.cursor == step.cursor
      && r.result.Success?
      && (r.result.value.Some? <==>
            RegexParse(k, step.token).Some? && k.pattern.Some? && isMatch(k.pattern.value, step.token.value))
      && (r.result.value.Some? ==> r.result.value == RegexParse(k, step.token))
  {
    var step := if k.RegexText? then All(c) else Next(c);
    var parsed := RegexParse(k, step.token);
    if parsed.Some? && k.pattern.Some? && isMatch(k.pattern.value, step.token.value) then
      Extraction(Success(parsed), step.cursor)
    else Extraction(Success(None), step.cursor)
  }

  /** `contextTokenValue is T`. */
  predicate HasKindType(k: Kind, v: Value) {
    if IsLongRegex(k) then v.VLong? else v.VStr?
  }

  /** `TryGetTokenFromContext`: the variable under the token's own name (no
      alias), if it has the kind's type and its text matches the pattern. */
  function RegexContext(isMatch: (string, string) -> bool, k: Kind, name: string, ctx: RequestContext): (r: Option<Value>)
    requires IsRegexKind(k)
    ensures r.Some? ==> Get(ctx, name) == r
    ensures r.Some? <==>
      var v := Get(ctx, name);
      v.Some? && HasKindType(k, v.value) && k.pattern.Some? && isMatch(k.pattern.value, ValueToString(v.value))
  {
    var v := Get(ctx, name);
    if v.Some? && HasKindType(k, v.value) && k.pattern.Some? && isMatch(k.pattern.value, ValueToString(v.value)) then v
    else None
  }

  /** A `long` regex kind reads back any 64-bit value written in decimal
      that the pattern accepts. */
  lemma LongRegexReadsFormatted(isMatch: (string, string) -> bool, k: Kind, c: Cursor, n: Int64)
    requires Valid(c) && IsLongRegex(k) && !IsEmpty(c) && Peek(c).value == IntToString(n)
    requires k.pattern.Some? && isMatch(k.pattern.value, IntToString(n))
    ensures RegexInput(isMatch, k, c).result == Success(Some(VLong(n)))
  {
    FormatParseRoundTrip(n, INT64_MIN, INT64_MAX);
  }

  /** The input path and the context path agree: a word read from the input
      matches exactly when the same word stored under the token's name does,
      and both give the same value. */
  lemma InputAgreesWithContext(isMatch: (string, string) -> bool, k: Kind, c: Cursor, name: string, ctx: RequestContext)
    requires Valid(c) && k.RegexWord? && !IsEmpty(c)
    requires Get(ctx, name) == Some(VStr(Peek(c).value))
    ensures RegexInput(isMatch, k, c).result.value.Some? ==>
      RegexContext(isMatch, k, name, ctx) == RegexInput(isMatch, k, c).result.value
    ensures RegexContext(isMatch, k, name, ctx).Some? && Peek(c).value != [] ==>
      RegexInput(isMatch, k, c).result.value == RegexContext(isMatch, k, name, ctx)
  {
  }

  /** The same for a `long` kind: a stored `long` matches exactly when its
      decimal text read from the input does. */
  lemma LongInputAgreesWithContext(isMatch: (string, string) -> bool, k: Kind, c: Cursor, name: string, ctx: RequestContext, n: Int64)
    requires Valid(c) && IsLongRegex(k) && !IsEmpty(c) && Peek(c).value == IntToString(n)
    requires Get(ctx, name) == Some(VLong(n))
    ensures RegexInput(isMatch, k, c).result.value == RegexContext(isMatch, k, name, ctx)
  {
    FormatParseRoundTrip(n, INT64_MIN, INT64_MAX);
  }

  /** A stored value of the other type never matches, whatever the pattern. */
  lemma ContextTypeMismatch(isMatch: (string, string) -> bool, k: Kind, name: string, ctx: RequestContext)
    requires IsRegexKind(k)
    requires Get(ctx, name).Some? && !HasKindType(k, Get(ctx, name).value)
    ensures RegexContext(isMatch, k, name, ctx).None?
  {
  }
}
