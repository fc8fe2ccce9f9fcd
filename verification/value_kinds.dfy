/** `ValueTokenTypeBase<T>` and its subclasses: kinds that read one word,
    convert it to a `T` and, when a vocabulary is configured, look the value
    up in it. */
module ValueKinds {
  import opened Wrappers
  import opened Errors
  import opened Strings
  import opened Numbers
  import opened Values
  import opened RequestContexts
  import opened TextCursors
  import opened Kinds
  import Levenshtein
  import Soundex

  /** What a kind's `TryGetTokenFromInput` leaves behind: the match (`None`
      for `false`), or the exception it throws, and the moved cursor. */
  datatype Extraction = Extraction(result: Result<Option<Value>, Error>, cursor: Cursor)

  function MapOption<T, U>(o: Option<T>, f: T -> U): (r: Option<U>)
    ensures r.Some? <==> o.Some?
    ensures o.Some? ==> r.value == f(o.value)
  {
    if o.Some? then Some(f(o.value)) else None
  }

  /** The index of the first entry at or after `from` that `compare` accepts
      against `value`, or `|vocabulary|`. */
  function FirstIndex<T>(vocabulary: seq<T>, value: T, compare: (T, T) -> bool, from: nat): (r: nat)
    requires from <= |vocabulary|
    ensures from <= r <= |vocabulary|
    ensures r < |vocabulary| ==> compare(vocabulary[r], value)
    ensures forall j :: from <= j < r ==> !compare(vocabulary[j], value)
    decreases |vocabulary| - from
  {
    if from == |vocabulary| then from
    else if compare(vocabulary[from], value) then from
    else FirstIndex(vocabulary, value, compare, from + 1)
  }

  /** The default `HasMatch`: `validValues.First(v => Compare(v, value))`,
      the entry in vocabulary spelling. */
  function FirstMatch<T>(vocabulary: seq<T>, value: T, compare: (T, T) -> bool): (r: Option<T>)
    ensures r.None? <==> forall i :: 0 <= i < |vocabulary| ==> !compare(vocabulary[i], value)
    ensures r.Some? ==> (exists i :: 0 <= i < |vocabulary| && vocabulary[i] == r.value && compare(r.value, value)
                           && forall j :: 0 <= j < i ==> !compare(vocabulary[j], value))
  {
    var i := FirstIndex(vocabulary, value, compare, 0);
    if i < |vocabulary| then Some(vocabulary[i]) else None
  }

  /** `GetValidValues`: a non-blank `ValidValuesVariableName` names a context
      variable holding the vocabulary (an absent or wrongly typed one reads as
      empty; a missing context throws), otherwise the literal `ValidValues`. */
  function GetValidValues<T>(cfg: ValueConfig<T>, context: Option<RequestContext>, read: Option<Value> -> seq<T>)
    : (r: Result<Option<seq<T>>, Error>)
    ensures (cfg.validValuesVariableName.None? || IsBlank(cfg.validValuesVariableName.value)) ==> r == Success(cfg.validValues)
    ensures cfg.validValuesVariableName.Some? && !IsBlank(cfg.validValuesVariableName.value) ==>
      if context.None? then r == Failure(NullReference)
      else r == Success(Some(read(Get(context.value, cfg.validValuesVariableName.value))))
  {
    match cfg.validValuesVariableName
    case Some(name) =>
      if IsBlank(name) then Success(cfg.validValues)
      else if context.None? then Failure(NullReference)
      else Success(Some(read(Get(context.value, name))))
    case None => Success(cfg.validValues)
  }

  /** `TryGetTokenFromInput`: one `Next`, whatever happens next; an empty
      word or a failed conversion is no match; with no vocabulary the
      converted word matches, otherwise `hasMatch` decides. */
  function ValueInput<T>(
    c: Cursor, cfg: ValueConfig<T>, parse: string -> Option<T>, read: Option<Value> -> seq<T>,
    hasMatch: (T, seq<T>) -> Option<T>, wrap: T -> Value): (r: Extraction)
    requires Valid(c)
    ensures r.cursor == Next(c).cursor
    ensures var w := Next(c).token;
      (w.None? || w.value == [] || parse(w.value).None?) ==> r.result == Success(None)
    ensures var w := Next(c).token;
      w.Some? && w.value != [] && parse(w.value).Some? ==>
        match GetValidValues(cfg, c.context, read)
        case Failure(e) => r.result == Failure(e)
        case Success(None) => r.result == Success(Some(wrap(parse(w.value).value)))
        case Success(Some(vocabulary)) => r.result == Success(MapOption(hasMatch(parse(w.value).value, vocabulary), wrap))
  {
    var step := Next(c);
    if step.token.None? || step.token.value == [] then Extraction(Success(None), step.cursor)
    else match parse(step.token.value)
      case None => Extraction(Success(None), step.cursor)
      case Some(parsed) =>
        match GetValidValues(cfg, c.context, read)
        case Failure(e) => Extraction(Failure(e), step.cursor)
        case Success(None) => Extraction(Success(Some(wrap(parsed))), step.cursor)
        case Success(Some(vocabulary)) => Extraction(Success(MapOption(hasMatch(parsed, vocabulary), wrap)), step.cursor)
  }

  /** The variable a value or text kind reads from the context: the alias
      when it is not blank, else the slot name. */
  function ContextVariable(name: string, alias: Option<string>): (r: string)
    ensures alias.Some? && !IsBlank(alias.value) ==> r == alias.value
    ensures alias.None? || IsBlank(alias.value) ==> r == name
  {
    if alias.Some? && !IsBlank(alias.value) then alias.value else name
  }

  /** `TryGetTokenFromContext`: a null variable is no match; `(T)obj` on a
      value of another type throws; the value then goes through the same
      vocabulary check as a word from the input. */
  function ValueContext<T>(
    ctx: RequestContext, name: string, cfg: ValueConfig<T>, cast: Value -> Option<T>, read: Option<Value> -> seq<T>,
    hasMatch: (T, seq<T>) -> Option<T>, wrap: T -> Value): (r: Result<Option<Value>, Error>)
    ensures var v := Get(ctx, ContextVariable(name, cfg.contextVariableName));
      v.None? ==> r == Success(None)
    ensures var v := Get(ctx, ContextVariable(name, cfg.contextVariableName));
      v.Some? && cast(v.value).None? ==> r == Failure(InvalidCast)
    ensures var v := Get(ctx, ContextVariable(name, cfg.contextVariableName));
      v.Some? && cast(v.value).Some? ==>
        match GetValidValues(cfg, Some(ctx), read)
        case Failure(_) => false
        case Success(None) => r == Success(Some(wrap(cast(v.value).value)))
        case Success(Some(vocabulary)) => r == Success(MapOption(hasMatch(cast(v.value).value, vocabulary), wrap))
  {
    var v := Get(ctx, ContextVariable(name, cfg.contextVariableName));
    if v.None? then Success(None)
    else match cast(v.value)
      case None => Failure(InvalidCast)
      case Some(tokenValue) =>
        match GetValidValues(cfg, Some(ctx), read)
        case Failure(e) => Failure(e)
        case Success(None) => Success(Some(wrap(tokenValue)))
        case Success(Some(vocabulary)) => Success(MapOption(hasMatch(tokenValue, vocabulary), wrap))
  }

  // ---- Compare and HasMatch of each kind ----

  /** `WordTokenType.Compare`: ordinal case-insensitive equality. */
  function WordMatch(value: string, vocabulary: seq<string>): (r: Option<string>) {
    FirstMatch(vocabulary, value, (x: string, y: string) => EqualsIgnoreCase(x, y))
  }

  /** The default `Compare` of the numeric kinds: value equality. */
  function EqualMatch<T(==)>(value: T, vocabulary: seq<T>): (r: Option<T>) {
    FirstMatch(vocabulary, value, (x: T, y: T) => x == y)
  }

  /** Whether distance `d` passes the `LevenshteinDistanceWordTokenType`
      guard against the best distance so far, which starts at
      `int.MaxValue`. */
  predicate Within(d: int, maxDistance: int) {
    d <= maxDistance && d < INT32_MAX
  }

  /** The `HasMatch` loop of `LevenshteinDistanceWordTokenType` from entry
      `i` on, with `best` the index kept so far (-1 for none). */
  function BestIndex(value: string, vocabulary: seq<string>, maxDistance: int, i: nat, best: int, bestDistance: int): (r: int)
    requires i <= |vocabulary| && -1 <= best < i
    requires best == -1 ==> bestDistance == INT32_MAX
    requires best == -1 ==> forall k :: 0 <= k < i ==> !Within(Levenshtein.Distance(value, vocabulary[k]), maxDistance)
    requires best >= 0 ==> Within(bestDistance, maxDistance) && bestDistance == Levenshtein.Distance(value, vocabulary[best])
    requires best >= 0 ==> forall k :: 0 <= k < i && Within(Levenshtein.Distance(value, vocabulary[k]), maxDistance) ==>
      bestDistance <= Levenshtein.Distance(value, vocabulary[k])
    requires best >= 0 ==> forall k :: 0 <= k < best ==>
      (!Within(Levenshtein.Distance(value, vocabulary[k]), maxDistance) || bestDistance < Levenshtein.Distance(value, vocabulary[k]))
    ensures -1 <= r < |vocabulary|
    ensures r == -1 <==> forall k :: 0 <= k < |vocabulary| ==> !Within(Levenshtein.Distance(value, vocabulary[k]), maxDistance)
    ensures r >= 0 ==> IsBest(value, vocabulary, maxDistance, r)
    decreases |vocabulary| - i
  {
    if i == |vocabulary| then best
    else
      var d := Levenshtein.Distance(value, vocabulary[i]);
      if d <= maxDistance && d < bestDistance then
        if d == 0 then i
        else BestIndex(value, vocabulary, maxDistance, i + 1, i, d)
      else BestIndex(value, vocabulary, maxDistance, i + 1, best, bestDistance)
  }

  /** Entry `k` is within `maxDistance` of the word, no entry is closer, and
      every earlier entry is farther: the first entry of least distance. */
  predicate IsBest(value: string, vocabulary: seq<string>, maxDistance: int, k: int)
    requires 0 <= k < |vocabulary|
  {
    Within(Levenshtein.Distance(value, vocabulary[k]), maxDistance)
    && (forall j :: 0 <= j < |vocabulary| && Within(Levenshtein.Distance(value, vocabulary[j]), maxDistance) ==>
          Levenshtein.Distance(value, vocabulary[k]) <= Levenshtein.Distance(value, vocabulary[j]))
    && (forall j :: 0 <= j < k ==>
          (!Within(Levenshtein.Distance(value, vocabulary[j]), maxDistance)
           || Levenshtein.Distance(value, vocabulary[k]) < Levenshtein.Distance(value, vocabulary[j])))
  }

  /** `LevenshteinDistanceWordTokenType.HasMatch`. */
  function ClosestMatch(value: string, vocabulary: seq<string>, maxDistance: int): (r: Option<string>)
    ensures r.None? <==> forall k :: 0 <= k < |vocabulary| ==> !Within(Levenshtein.Distance(value, vocabulary[k]), maxDistance)
    ensures r.Some? ==> (exists k :: 0 <= k < |vocabulary| && vocabulary[k] == r.value && IsBest(value, vocabulary, maxDistance, k))
  {
    var k := BestIndex(value, vocabulary, maxDistance, 0, -1, INT32_MAX);
    if k < 0 then None else Some(vocabulary[k])
  }

  /** At most one entry is the first of least distance, so the scan's
      answer is determined by the vocabulary alone. */
  lemma BestIsUnique(value: string, vocabulary: seq<string>, maxDistance: int, a: int, b: int)
    requires 0 <= a < |vocabulary| && 0 <= b < |vocabulary|
    requires IsBest(value, vocabulary, maxDistance, a) && IsBest(value, vocabulary, maxDistance, b)
    ensures a == b
  {
  }

  // ---- The four value kinds and the two fuzzy word kinds ----

  function ParseWord(w: string): Option<string> { Some(w) }

  function ParseInt(w: string): Option<Int32> {
    var n := ParseInt32(w);
    if n.Some? then Some(n.value as Int32) else None
  }

  function ParseLong(w: string): Option<Int64> {
    var n := ParseInt64(w);
    if n.Some? then Some(n.value as Int64) else None
  }

  /** The vocabulary-matching step of a string-valued kind. */
  function StringHasMatch(k: Kind): (string, seq<string>) -> Option<string>
    requires k.Word? || k.LDWord? || k.SWord?
  {
    match k
    case Word(_) => (v: string, vocabulary: seq<string>) => WordMatch(v, vocabulary)
    case LDWord(_, maxDistance) => (v: string, vocabulary: seq<string>) => ClosestMatch(v, vocabulary, maxDistance)
    case SWord(_) => (v: string, vocabulary: seq<string>) => Soundex.SoundexMatch(v, vocabulary)
  }

  predicate IsValueKind(k: Kind) {
    k.Word? || k.LDWord? || k.SWord? || k.Integer? || k.Long? || k.Decimal?
  }

  /** `TryGetTokenFromInput` of the value kinds. */
  function ValueKindInput(parseDecimal: string -> Option<real>, k: Kind, c: Cursor): (r: Extraction)
    requires Valid(c) && IsValueKind(k)
    ensures r.cursor == Next(c).cursor
  {
    match k
    case Integer(cfg) =>
      ValueInput(c, cfg, ParseInt, IntsOrEmpty, (v: Int32, vs: seq<Int32>) => EqualMatch(v, vs), (v: Int32) => VInt(v))
    case Long(cfg) =>
      ValueInput(c, cfg, ParseLong, LongsOrEmpty, (v: Int64, vs: seq<Int64>) => EqualMatch(v, vs), (v: Int64) => VLong(v))
    case Decimal(cfg) =>
      ValueInput(c, cfg, parseDecimal, DecimalsOrEmpty, (v: real, vs: seq<real>) => EqualMatch(v, vs), (v: real) => VDec(v))
    case _ =>
      ValueInput(c, k.cfg, ParseWord, StringsOrEmpty, StringHasMatch(k), (v: string) => VStr(v))
  }

  /** `TryGetTokenFromContext` of the value kinds. */
  function ValueKindContext(k: Kind, name: string, ctx: RequestContext): (r: Result<Option<Value>, Error>)
    requires IsValueKind(k)
  {
    match k
    case Integer(cfg) =>
      ValueContext(ctx, name, cfg, AsInt, IntsOrEmpty, (v: Int32, vs: seq<Int32>) => EqualMatch(v, vs), (v: Int32) => VInt(v))
    case Long(cfg) =>
      ValueContext(ctx, name, cfg, AsLong, LongsOrEmpty, (v: Int64, vs: seq<Int64>) => EqualMatch(v, vs), (v: Int64) => VLong(v))
    case Decimal(cfg) =>
      ValueContext(ctx, name, cfg, AsDecimal, DecimalsOrEmpty, (v: real, vs: seq<real>) => EqualMatch(v, vs), (v: real) => VDec(v))
    case _ =>
      ValueContext(ctx, name, k.cfg, AsString, StringsOrEmpty, StringHasMatch(k), (v: string) => VStr(v))
  }

  // ---- What the kinds answer ----

  /** With a literal vocabulary the word kind answers with the first entry
      equal to the word ignoring case, in vocabulary spelling, and with
      nothing when no entry is. */
  lemma WordKindMatches(parseDecimal: string -> Option<real>, cfg: ValueConfig<string>, c: Cursor)
    requires Valid(c) && cfg.validValues.Some? && cfg.validValuesVariableName.None?
    requires Next(c).token.Some? && Next(c).token.value != []
    ensures var w := Next(c).token.value;
      var vocabulary := cfg.validValues.value;
      var r := ValueKindInput(parseDecimal, Word(cfg), c).result;
      r.Success?
      && (r.value.None? <==> forall i :: 0 <= i < |vocabulary| ==> !EqualsIgnoreCase(vocabulary[i], w))
      && (r.value.Some? ==>
            exists i :: 0 <= i < |vocabulary| && r.value.value == VStr(vocabulary[i]) &&
              EqualsIgnoreCase(vocabulary[i], w) && forall j :: 0 <= j < i ==> !EqualsIgnoreCase(vocabulary[j], w))
  {
    var w := Next(c).token.value;
    var vocabulary := cfg.validValues.value;
    var m := WordMatch(w, vocabulary);
    assert ValueKindInput(parseDecimal, Word(cfg), c).result == Success(MapOption(m, (v: string) => VStr(v)));
  }

  /** Without a vocabulary the integer kind matches exactly the words that
      read as a 32-bit integer, with that number; anything else, including a
      number out of range, is no match rather than an error. */
  lemma IntegerKindMatches(parseDecimal: string -> Option<real>, cfg: ValueConfig<Int32>, c: Cursor)
    requires Valid(c) && cfg.validValues.None? && cfg.validValuesVariableName.None?
    ensures var w := Next(c).token;
      var r := ValueKindInput(parseDecimal, Integer(cfg), c).result;
      r.Success?
      && (r.value.Some? <==> w.Some? && ParseInt32(w.value).Some?)
      && (r.value.Some? ==> r.value.value.VInt? && ParseIntegerText(w.value) == Some(r.value.value.i as int))
  {
    var w := Next(c).token;
    if w.Some? && w.value == [] {
      assert Trim(w.value) == [];
    }
  }

  /** The same for the 64-bit kind. */
  lemma LongKindMatches(parseDecimal: string -> Option<real>, cfg: ValueConfig<Int64>, c: Cursor)
    requires Valid(c) && cfg.validValues.None? && cfg.validValuesVariableName.None?
    ensures var w := Next(c).token;
      var r := ValueKindInput(parseDecimal, Long(cfg), c).result;
      r.Success?
      && (r.value.Some? <==> w.Some? && ParseInt64(w.value).Some?)
      && (r.value.Some? ==> r.value.value.VLong? && ParseIntegerText(w.value) == Some(r.value.value.l as int))
  {
    var w := Next(c).token;
    if w.Some? && w.value == [] {
      assert Trim(w.value) == [];
    }
  }

  /** A vocabulary held in a context variable replaces the literal one; a
      variable that is missing or holds something other than a list of the
      kind's values gives an empty vocabulary, so nothing matches. */
  lemma VariableVocabularyOverrides(parseDecimal: string -> Option<real>, cfg: ValueConfig<string>, c: Cursor)
    requires Valid(c) && c.context.Some?
    requires cfg.validValuesVariableName.Some? && !IsBlank(cfg.validValuesVariableName.value)
    requires var v := Get(c.context.value, cfg.validValuesVariableName.value); v.None? || !v.value.VStrs?
    ensures ValueKindInput(parseDecimal, Word(cfg), c).result == Success(None)
  {
    var w := Next(c).token;
    if w.Some? && w.value != [] {
      assert GetValidValues(cfg, c.context, StringsOrEmpty) == Success(Some([]));
      assert WordMatch(w.value, []) == None;
    }
  }

  /** `:Word(sum)` reads `SUM` and answers in vocabulary spelling. */
  lemma VocabularySpelling(parseDecimal: string -> Option<real>, ctx: Option<RequestContext>)
    ensures ValueKindInput(parseDecimal, Word(ValueConfig(Some(["sum"]), None, None)), TextCursors.New("SUM", ctx)).result
      == Success(Some(VStr("sum")))
  {
    Tokenizer.TokenizeJoin(["SUM"]);
    assert Join(' ', ["SUM"]) == "SUM";
    var c := TextCursors.New("SUM", ctx);
    assert Next(c).token == Some("SUM");
    assert EqualsIgnoreCase("sum", "SUM") by {
      assert Fold("sum") == "sum" && Fold("SUM") == "sum";
    }
    assert WordMatch("SUM", ["sum"]) == Some("sum");
  }

  /** `:Word(plus,more)` rejects `minus`. */
  lemma VocabularyRejects()
    ensures WordMatch("minus", ["plus", "more"]) == None
  {
    assert !EqualsIgnoreCase("plus", "minus") by { assert |Fold("plus")| != |Fold("minus")|; }
    assert !EqualsIgnoreCase("more", "minus") by { assert |Fold("more")| != |Fold("minus")|; }
  }

  /** `:LDWord(reminders)` accepts `reminder`, one insertion away. */
  lemma OneEditAccepted()
    ensures ClosestMatch("reminder", ["reminders"], 2) == Some("reminders")
  {
    Levenshtein.OneInsertion("reminder", 's');
    assert "reminder" + ['s'] == "reminders";
  }
}
