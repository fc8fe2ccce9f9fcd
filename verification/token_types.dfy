/** TokenType.cs: the object-level entry points every slot is matched
    through, dispatching on the kind. */
module TokenTypes {
  import opened Wrappers
  import opened Errors
  import opened Values
  import opened RequestContexts
  import opened TextCursors
  import opened Kinds
  import opened ValueKinds
  import opened TextKinds
  import opened RegexKinds
  import opened Env

  /** The type argument `T` of the kind's class, as the value it yields. */
  predicate OfKindType(k: Kind, v: Value) {
    match k
    case Integer(_) => v.VInt?
    case Long(_) => v.VLong?
    case LongRegex(_) => v.VLong?
    case RegexLong(_) => v.VLong?
    case Decimal(_) => v.VDec?
    case _ => v.VStr?
  }

  /** The kinds that may take more than one word: free text with a
      vocabulary, and the whole-remainder kinds. */
  predicate TakesManyWords(k: Kind) {
    IsTextTokenType(k) || k.RegexText?
  }

  /** The kind's own `TryGetTokenFromInput(ITextCursor, out T)`. A free-text
      slot reads exactly what the code reads and matches exactly when it
      does; an `LDText` match then answers with the first vocabulary entry
      near the query, where the code answers with the query itself. */
  function KindInput(o: Oracles, k: Kind, c: Cursor): (r: Extraction)
    requires Valid(c)
    ensures Shrunk(c, r.cursor)
    ensures r.result.Success? && r.result.value.Some? ==> OfKindType(k, r.result.value.value)
    ensures !TakesManyWords(k) ==> |Remaining(r.cursor)| + 1 >= |Remaining(c)|
    ensures IsValueKind(k) ==> r == ValueKindInput(o.parseDecimal, k, c)
    ensures IsTextTokenType(k) ==> r == TextInput(k, c)
    ensures IsRegexKind(k) ==> r == RegexInput(o.isMatch, k, c)
  {
    if IsValueKind(k) then
      var r := ValueKindInput(o.parseDecimal, k, c);
      NextShrinks(c);
      r
    else if IsTextTokenType(k) then TextInput(k, c)
    else
      var r := RegexInput(o.isMatch, k, c);
      NextShrinks(c);
      r
  }

  /** A free-text slot reads exactly what the code reads and matches
      exactly when it does; an exact `Text` slot answers as the code does,
      and an `LDText` match answers with the first vocabulary entry near the
      query the code would answer with. */
  lemma FreeTextInput(o: Oracles, k: Kind, c: Cursor)
    requires Valid(c) && IsTextTokenType(k)
    ensures var r := KindInput(o, k, c);
      var w := TextInputAsWritten(k, c);
      && r.cursor == w.cursor
      && (r.result.Success? && r.result.value.Some? <==> w.result.value.Some?)
      && (k.Text? ==> r == w)
      && (k.LDText? && r.result.Success? && r.result.value.Some? && k.text.validValues.Some? && k.text.validValues.value != [] ==>
            && w.result.value.value.VStr?
            && r.result.value.value == VStr(FirstWithin(k.text.validValues.value, k.maxDistance, w.result.value.value.s).value))
  {
    CorrectedAnswer(k, c);
  }

  /** The kind's own `TryGetTokenFromContext(IRequestContext, out T)`. */
  function KindContext(o: Oracles, k: Kind, name: string, ctx: RequestContext): (r: Result<Option<Value>, Error>)
    ensures r.Success? && r.value.Some? ==> OfKindType(k, r.value.value)
    ensures r.Failure? ==> r.error == InvalidCast
  {
    if IsValueKind(k) then ValueKindContext(k, name, ctx)
    else if IsTextTokenType(k) then TextContext(k, name, ctx)
    else Success(RegexContext(o.isMatch, k, name, ctx))
  }

  /** `TryGetTokenFromInput(ITextCursor, out object)`: an empty cursor is no
      match and the kind is not asked; otherwise the kind's answer, `null`
      standing for every failed attempt. */
  function FromInput(o: Oracles, t: TokenType, c: Cursor): (r: Extraction)
    requires Valid(c)
    ensures Shrunk(c, r.cursor)
    ensures IsEmpty(c) ==> r == Extraction(Success(None), c)
    ensures !IsEmpty(c) ==> r == KindInput(o, t.kind, c)
    ensures r.result.Success? && r.result.value.Some? ==> OfKindType(t.kind, r.result.value.value)
  {
    if IsEmpty(c) then Extraction(Success(None), c)
    else KindInput(o, t.kind, c)
  }

  /** `TryGetTokenFromContext(IRequestContext, out object)`: the kind's
      answer passed through. */
  function FromContext(o: Oracles, t: TokenType, ctx: RequestContext): (r: Result<Option<Value>, Error>)
    ensures r == KindContext(o, t.kind, t.name, ctx)
    ensures r.Success? && r.value.Some? ==> OfKindType(t.kind, r.value.value)
  {
    KindContext(o, t.kind, t.name, ctx)
  }
}
