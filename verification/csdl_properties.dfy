/** CsdlToken.ToTokenType: a unit becomes an instance of the class its kind
    name is registered under, and each initializer entry is then written into
    the instance property of that name. The reflection over the instance's
    public properties is modelled as the closed list of properties each
    class declares. */
module CsdlProperties {
  import opened Wrappers
  import opened Errors
  import opened Strings
  import opened Numbers
  import opened Kinds
  import opened Env
  import opened CsdlTokens

  /** A property's current value, as one of the types the classes use. */
  datatype PropertyValue =
    | AsWords(words: Option<seq<string>>)
    | AsInts(ints: Option<seq<int>>)
    | AsDecimals(decimals: Option<seq<real>>)
    | AsText(text: Option<string>)
    | AsNumber(number: int)

  /** The settable public properties each class declares. */
  function DeclaredProperties(c: KindClass): set<string> {
    match c
    case WordClass | IntegerClass | LongClass | DecimalClass | SWordClass =>
      {"ValidValues", "ValidValuesVariableName", "ContextVariableName"}
    case LDWordClass => {"ValidValues", "ValidValuesVariableName", "ContextVariableName", "MaxDistance"}
    case TextClass => {"ValidValues", "ContextVariableName"}
    case LDTextClass => {"ValidValues", "ContextVariableName", "MaxDistance"}
    case _ => {"Pattern"}
  }

  /** The get-only properties every token type has. */
  const READ_ONLY: set<string> := {"Name", "IsContextual", "IsOptional", "InvertParsing"}

  /** The property marked `IsDefault`: the vocabulary, or the pattern. */
  function DefaultProperty(c: KindClass): (p: string)
    ensures p in DeclaredProperties(c)
  {
    match c
    case RegexWordClass | RegexTextClass | LongRegexClass | RegexLongClass => "Pattern"
    case _ => "ValidValues"
  }

  function ValueProperty<T>(vocabulary: PropertyValue, c: ValueConfig<T>, prop: string): Option<PropertyValue> {
    if prop == "ValidValues" then Some(vocabulary)
    else if prop == "ValidValuesVariableName" then Some(AsText(c.validValuesVariableName))
    else if prop == "ContextVariableName" then Some(AsText(c.contextVariableName))
    else None
  }

  function TextProperty(c: TextConfig, prop: string): Option<PropertyValue> {
    if prop == "ValidValues" then Some(AsWords(c.validValues))
    else if prop == "ContextVariableName" then Some(AsText(c.contextVariableName))
    else None
  }

  /** The getter of the settable property `prop`; `None` when the class
      declares no such property. */
  function PropertyOf(k: Kind, prop: string): Option<PropertyValue> {
    match k
    case Word(c) => ValueProperty(AsWords(c.validValues), c, prop)
    case SWord(c) => ValueProperty(AsWords(c.validValues), c, prop)
    case LDWord(c, d) => if prop == "MaxDistance" then Some(AsNumber(d)) else ValueProperty(AsWords(c.validValues), c, prop)
    case Integer(c) => ValueProperty(AsInts(c.validValues), c, prop)
    case Long(c) => ValueProperty(AsInts(c.validValues), c, prop)
    case Decimal(c) => ValueProperty(AsDecimals(c.validValues), c, prop)
    case Text(c) => TextProperty(c, prop)
    case LDText(c, d) => if prop == "MaxDistance" then Some(AsNumber(d)) else TextProperty(c, prop)
    case RegexWord(p) => if prop == "Pattern" then Some(AsText(p)) else None
    case RegexText(p) => if prop == "Pattern" then Some(AsText(p)) else None
    case LongRegex(p) => if prop == "Pattern" then Some(AsText(p)) else None
    case RegexLong(p) => if prop == "Pattern" then Some(AsText(p)) else None
  }

  /** The declared properties are exactly the ones with a getter. */
  lemma DeclaredIsReadable(k: Kind, prop: string)
    ensures prop in DeclaredProperties(ClassOf(k)) <==> PropertyOf(k, prop).Some?
  {
  }

  // ---- Conversions (Convert.ChangeType from string) ----

  /** `Int32.Parse`: bad syntax is a format error, a value out of range an
      overflow. */
  function ToInt32(s: string): (r: Result<Int32, Error>)
    ensures r.Success? <==> ParseInt32(s).Some?
    ensures r.Success? ==> r.value == ParseInt32(s).value
    ensures r.Failure? ==> (r.error == Format <==> ParseIntegerText(s).None?)
    ensures r.Failure? ==> r.error == Format || r.error == Overflow
  {
    match ParseIntegerText(s)
    case None => Failure(Format)
    case Some(v) => if INT32_MIN <= v <= INT32_MAX then Success(v) else Failure(Overflow)
  }

  /** `Int64.Parse`. */
  function ToInt64(s: string): (r: Result<Int64, Error>)
    ensures r.Success? <==> ParseInt64(s).Some?
    ensures r.Success? ==> r.value == ParseInt64(s).value
    ensures r.Failure? ==> (r.error == Format <==> ParseIntegerText(s).None?)
    ensures r.Failure? ==> r.error == Format || r.error == Overflow
  {
    match ParseIntegerText(s)
    case None => Failure(Format)
    case Some(v) => if INT64_MIN <= v <= INT64_MAX then Success(v) else Failure(Overflow)
  }

  /** `Decimal.Parse` in the current culture. */
  function ToDecimal(parseDecimal: string -> Option<real>, s: string): (r: Result<real, Error>)
    ensures r.Success? <==> parseDecimal(s).Some?
    ensures r.Success? ==> r.value == parseDecimal(s).value
    ensures r.Failure? ==> r.error == Format
  {
    match parseDecimal(s)
    case None => Failure(Format)
    case Some(v) => Success(v)
  }

  /** `Boolean.Parse`: `true` or `false` in any case, white space around. */
  function ToBoolean(s: string): (r: Option<bool>)
    ensures r.Some? <==> EqualsIgnoreCase(Trim(s), "true") || EqualsIgnoreCase(Trim(s), "false")
  {
    if EqualsIgnoreCase(Trim(s), "true") then Some(true)
    else if EqualsIgnoreCase(Trim(s), "false") then Some(false)
    else None
  }

  /** Every element converted in order; the first failure is the error. */
  function ConvertAll<T>(parts: seq<string>, convert: string -> Result<T, Error>): (r: Result<seq<T>, Error>)
    ensures r.Success? <==> forall i :: 0 <= i < |parts| ==> convert(parts[i]).Success?
    ensures r.Success? ==> |r.value| == |parts| && forall i :: 0 <= i < |parts| ==> convert(parts[i]) == Success(r.value[i])
    ensures r.Failure? ==> exists i :: 0 <= i < |parts| && convert(parts[i]) == Failure(r.error)
  {
    if parts == [] then Success([])
    else match convert(parts[0])
      case Failure(e) => Failure(e)
      case Success(v) =>
        match ConvertAll(parts[1..], convert)
        case Failure(e) =>
          assert exists i :: 0 <= i < |parts[1..]| && convert(parts[1..][i]) == Failure(e);
          var i :| 0 <= i < |parts[1..]| && convert(parts[1..][i]) == Failure(e);
          assert convert(parts[i + 1]) == Failure(e);
          Failure(e)
        case Success(vs) =>
          assert forall i :: 1 <= i < |parts| ==> parts[1..][i - 1] == parts[i];
          Success([v] + vs)
  }

  /** A conversion failure inside the JSON deserializer surfaces as its own
      reader error. */
  function JsonFailure<T>(res: Result<T, Error>, replaced: bool): (r: Result<T, Error>)
    ensures r.Success? <==> res.Success?
    ensures r.Success? ==> r == res
    ensures r.Failure? ==> r.error == (if replaced then JsonReader else res.error)
  {
    if res.Failure? && replaced then Failure(JsonReader) else res
  }

  // ---- Property setters ----

  /** `r` is `k` with at most the property `prop` changed: same class, and
      every other property reads as before. */
  ghost predicate OnlyChanged(k: Kind, r: Kind, prop: string) {
    && ClassOf(r) == ClassOf(k)
    && forall p :: p != prop ==> PropertyOf(r, p) == PropertyOf(k, p)
  }

  /** The vocabulary of a word or text kind replaced. */
  function StoreWords(k: Kind, ws: seq<string>): (r: Kind)
    requires k.Word? || k.SWord? || k.LDWord? || k.Text? || k.LDText?
    ensures OnlyChanged(k, r, "ValidValues")
    ensures PropertyOf(r, "ValidValues") == Some(AsWords(Some(ws)))
  {
    if k.Word? then Word(k.cfg.(validValues := Some(ws)))
    else if k.SWord? then SWord(k.cfg.(validValues := Some(ws)))
    else if k.LDWord? then LDWord(k.cfg.(validValues := Some(ws)), k.maxDistance)
    else if k.Text? then Text(k.text.(validValues := Some(ws)))
    else LDText(k.text.(validValues := Some(ws)), k.maxDistance)
  }

  /** The vocabulary of an integer kind replaced by the pieces converted
      with `Int32.Parse`, or the first conversion error. */
  function StoreInts(k: Kind, ps: seq<string>): (r: Result<Kind, Error>)
    requires k.Integer?
    ensures r.Success? ==> OnlyChanged(k, r.value, "ValidValues")
    ensures r.Success? <==> forall i :: 0 <= i < |ps| ==> ParseInt32(ps[i]).Some?
    ensures r.Success? ==>
      && r.value.Integer? && r.value.ints.validValues.Some? && |r.value.ints.validValues.value| == |ps|
      && forall i :: 0 <= i < |ps| ==> Some(r.value.ints.validValues.value[i]) == ParseInt32(ps[i])
    ensures r.Failure? ==> r.error == Format || r.error == Overflow
  {
    var conv := ConvertAll(ps, ToInt32);
    if conv.Failure? then Failure(conv.error)
    else Success(Integer(k.ints.(validValues := Some(conv.value))))
  }

  /** The same for a long kind, with `Int64.Parse`. */
  function StoreLongs(k: Kind, ps: seq<string>): (r: Result<Kind, Error>)
    requires k.Long?
    ensures r.Success? ==> OnlyChanged(k, r.value, "ValidValues")
    ensures r.Success? <==> forall i :: 0 <= i < |ps| ==> ParseInt64(ps[i]).Some?
    ensures r.Failure? ==> r.error == Format || r.error == Overflow
  {
    var conv := ConvertAll(ps, ToInt64);
    if conv.Failure? then Failure(conv.error)
    else Success(Long(k.longs.(validValues := Some(conv.value))))
  }

  /** The same for a decimal kind, with the culture's decimal parser. */
  function StoreDecimals(o: Oracles, k: Kind, ps: seq<string>): (r: Result<Kind, Error>)
    requires k.Decimal?
    ensures r.Success? ==> OnlyChanged(k, r.value, "ValidValues")
    ensures r.Success? <==> forall i :: 0 <= i < |ps| ==> o.parseDecimal(ps[i]).Some?
    ensures r.Failure? ==> r.error == Format
  {
    var conv := ConvertAll(ps, s => ToDecimal(o.parseDecimal, s));
    if conv.Failure? then Failure(conv.error)
    else Success(Decimal(k.decimals.(validValues := Some(conv.value))))
  }

  /** `ValidValues`: the default property splits its text at every `,` and
      converts each piece; named explicitly, the text is a JSON array and
      every failure is a JSON reader error. */
  function SetValidValues(o: Oracles, k: Kind, text: string, isDefault: bool): (r: Result<Kind, Error>)
    requires "ValidValues" in DeclaredProperties(ClassOf(k))
    ensures r.Success? ==> OnlyChanged(k, r.value, "ValidValues")
    ensures !isDefault && o.parseJsonArray(text).None? ==> r == Failure(JsonReader)
    ensures !isDefault && r.Failure? ==> r.error == JsonReader
    ensures r.Failure? ==> r.error == Format || r.error == Overflow || r.error == JsonReader
    ensures (k.Word? || k.SWord? || k.LDWord? || k.Text? || k.LDText?) ==>
      var words := if isDefault then Some(Split(text, ',')) else o.parseJsonArray(text);
      words.Some? ==> r.Success? && PropertyOf(r.value, "ValidValues") == Some(AsWords(words))
    ensures isDefault && k.Integer? ==>
      var pieces := Split(text, ',');
      && (r.Success? <==> forall i :: 0 <= i < |pieces| ==> ParseInt32(pieces[i]).Some?)
      && (r.Success? ==>
            && r.value.Integer? && r.value.ints.validValues.Some? && |r.value.ints.validValues.value| == |pieces|
            && forall i :: 0 <= i < |pieces| ==> Some(r.value.ints.validValues.value[i]) == ParseInt32(pieces[i]))
  {
    var words := if isDefault then Some(Split(text, ',')) else o.parseJsonArray(text);
    if words.None? then Failure(JsonReader)
    else if k.Integer? then
      var stored := StoreInts(k, words.value);
      assert isDefault ==> words.value == Split(text, ',');
      JsonFailure(stored, !isDefault)
    else if k.Long? then JsonFailure(StoreLongs(k, words.value), !isDefault)
    else if k.Decimal? then JsonFailure(StoreDecimals(o, k, words.value), !isDefault)
    else Success(StoreWords(k, words.value))
  }

  /** `ValidValuesVariableName`, on the classes that declare it. */
  function SetVariableName(k: Kind, text: string): (r: Kind)
    ensures OnlyChanged(k, r, "ValidValuesVariableName")
    ensures "ValidValuesVariableName" in DeclaredProperties(ClassOf(k)) ==>
      PropertyOf(r, "ValidValuesVariableName") == Some(AsText(Some(text)))
  {
    match k
    case Word(c) => Word(c.(validValuesVariableName := Some(text)))
    case SWord(c) => SWord(c.(validValuesVariableName := Some(text)))
    case LDWord(c, d) => LDWord(c.(validValuesVariableName := Some(text)), d)
    case Integer(c) => Integer(c.(validValuesVariableName := Some(text)))
    case Long(c) => Long(c.(validValuesVariableName := Some(text)))
    case Decimal(c) => Decimal(c.(validValuesVariableName := Some(text)))
    case _ => k
  }

  /** `ContextVariableName`, on the classes that declare it. */
  function SetContextName(k: Kind, text: string): (r: Kind)
    ensures OnlyChanged(k, r, "ContextVariableName")
    ensures "ContextVariableName" in DeclaredProperties(ClassOf(k)) ==>
      PropertyOf(r, "ContextVariableName") == Some(AsText(Some(text)))
  {
    match k
    case Word(c) => Word(c.(contextVariableName := Some(text)))
    case SWord(c) => SWord(c.(contextVariableName := Some(text)))
    case LDWord(c, d) => LDWord(c.(contextVariableName := Some(text)), d)
    case Integer(c) => Integer(c.(contextVariableName := Some(text)))
    case Long(c) => Long(c.(contextVariableName := Some(text)))
    case Decimal(c) => Decimal(c.(contextVariableName := Some(text)))
    case Text(c) => Text(c.(contextVariableName := Some(text)))
    case LDText(c, d) => LDText(c.(contextVariableName := Some(text)), d)
    case _ => k
  }

  /** `MaxDistance`, on the two Levenshtein classes. */
  function SetMaxDistance(k: Kind, d: Int32): (r: Kind)
    ensures OnlyChanged(k, r, "MaxDistance")
    ensures "MaxDistance" in DeclaredProperties(ClassOf(k)) ==> PropertyOf(r, "MaxDistance") == Some(AsNumber(d))
  {
    match k
    case LDWord(c, _) => LDWord(c, d)
    case LDText(c, _) => LDText(c, d)
    case _ => k
  }

  /** `Pattern`, on the four regular-expression classes. */
  function SetPattern(k: Kind, p: string): (r: Kind)
    ensures OnlyChanged(k, r, "Pattern")
    ensures "Pattern" in DeclaredProperties(ClassOf(k)) ==> PropertyOf(r, "Pattern") == Some(AsText(Some(p)))
  {
    match k
    case RegexWord(_) => RegexWord(Some(p))
    case RegexText(_) => RegexText(Some(p))
    case LongRegex(_) => LongRegex(Some(p))
    case RegexLong(_) => RegexLong(Some(p))
    case _ => k
  }

  /** `property.SetValue(tokenType, Convert(text))` for a declared property:
      only that property changes. */
  function SetProperty(o: Oracles, k: Kind, prop: string, text: string, isDefault: bool): (r: Result<Kind, Error>)
    requires prop in DeclaredProperties(ClassOf(k))
    ensures r.Success? ==> OnlyChanged(k, r.value, prop)
    ensures r.Failure? ==> r.error in {Format, Overflow, JsonReader, TargetInvocation}
    ensures prop == "ValidValuesVariableName" || prop == "ContextVariableName" ==>
      r.Success? && PropertyOf(r.value, prop) == Some(AsText(Some(text)))
    ensures prop == "MaxDistance" ==>
      && (r.Success? <==> ParseInt32(text).Some?)
      && (r.Success? ==> PropertyOf(r.value, prop) == Some(AsNumber(ParseInt32(text).value)))
      && (r.Failure? ==> r.error == Format || r.error == Overflow)
    ensures prop == "Pattern" ==>
      && (r.Success? <==> o.isValidPattern(text))
      && (r.Success? ==> PropertyOf(r.value, prop) == Some(AsText(Some(text))))
      && (r.Failure? ==> r.error == TargetInvocation)
  {
    if prop == "ValidValues" then SetValidValues(o, k, text, isDefault)
    else if prop == "ValidValuesVariableName" then Success(SetVariableName(k, text))
    else if prop == "ContextVariableName" then Success(SetContextName(k, text))
    else if prop == "MaxDistance" then
      var d := ToInt32(text);
      if d.Failure? then Failure(d.error) else Success(SetMaxDistance(k, d.value))
    else if o.isValidPattern(text) then Success(SetPattern(k, text))
    else Failure(TargetInvocation)
  }

  /** One initializer entry: the default key stands for the class's default
      property; a read-only property first converts its text, then refuses to
      be set; any other name is unknown. */
  function ApplyEntry(o: Oracles, k: Kind, entry: (string, string)): (r: Result<Kind, Error>)
    ensures var prop := if entry.0 == DEFAULT_PROPERTY then DefaultProperty(ClassOf(k)) else entry.0;
      && (r.Success? <==> prop in DeclaredProperties(ClassOf(k)) && SetProperty(o, k, prop, entry.1, entry.0 == DEFAULT_PROPERTY).Success?)
      && (r.Success? ==> ClassOf(r.value) == ClassOf(k))
      && (r.Success? ==> forall p :: p != prop ==> PropertyOf(r.value, p) == PropertyOf(k, p))
      && (prop !in DeclaredProperties(ClassOf(k)) && prop !in READ_ONLY ==> r == Failure(Argument(UnknownProperty)))
      && (prop == "Name" ==> r == Failure(Argument(NoSetter)))
    ensures r.Failure? ==> r.error != Argument(UnknownKind)
  {
    var isDefault := entry.0 == DEFAULT_PROPERTY;
    var prop := if isDefault then DefaultProperty(ClassOf(k)) else entry.0;
    if prop in DeclaredProperties(ClassOf(k)) then
      SetProperty(o, k, prop, entry.1, isDefault)
    else if prop == "Name" then Failure(Argument(NoSetter))
    else if prop in READ_ONLY then
      if ToBoolean(entry.1).None? then Failure(Format) else Failure(Argument(NoSetter))
    else Failure(Argument(UnknownProperty))
  }

  /** The entries applied in order; the first failure stops the loop. */
  function ApplyEntries(o: Oracles, k: Kind, entries: seq<(string, string)>): (r: Result<Kind, Error>)
    ensures r.Success? ==> ClassOf(r.value) == ClassOf(k)
    ensures r.Failure? ==> r.error != Argument(UnknownKind)
    ensures entries == [] ==> r == Success(k)
    decreases |entries|
  {
    if entries == [] then Success(k)
    else match ApplyEntry(o, k, entries[0])
      case Failure(e) => Failure(e)
      case Success(k1) => ApplyEntries(o, k1, entries[1..])
  }

  /** The property an entry writes to. */
  function Target(c: KindClass, key: string): string {
    if key == DEFAULT_PROPERTY then DefaultProperty(c) else key
  }

  /** A property no entry writes to keeps its value. */
  lemma {:induction false} UntouchedPropertyKept(o: Oracles, k: Kind, entries: seq<(string, string)>, p: string)
    requires ApplyEntries(o, k, entries).Success?
    requires forall i :: 0 <= i < |entries| ==> Target(ClassOf(k), entries[i].0) != p
    ensures PropertyOf(ApplyEntries(o, k, entries).value, p) == PropertyOf(k, p)
    decreases |entries|
  {
    if entries != [] {
      var k1 := ApplyEntry(o, k, entries[0]).value;
      assert Target(ClassOf(k), entries[0].0) != p;
      assert forall i :: 0 <= i < |entries[1..]| ==> Target(ClassOf(k1), entries[1..][i].0) != p by {
        assert ClassOf(k1) == ClassOf(k);
        forall i | 0 <= i < |entries[1..]|
          ensures Target(ClassOf(k1), entries[1..][i].0) != p
        {
          assert entries[1..][i] == entries[i + 1];
        }
      }
      UntouchedPropertyKept(o, k1, entries[1..], p);
    }
  }

  /** `ToTokenType`: the class registered under the unit's kind name,
      created with the unit's name and flags, then initialized. */
  function ToTokenType(o: Oracles, registry: map<string, KindClass>, u: CsdlToken): (r: Result<TokenType, Error>)
    ensures u.tokenTypeName !in registry <==> r == Failure(Argument(UnknownKind))
    ensures r.Success? ==>
      && r.value.name == u.name && r.value.isContextual == u.isContextual
      && r.value.isOptional == u.isOptional && r.value.invertParsing == u.invertParsing
      && ClassOf(r.value.kind) == registry[u.tokenTypeName]
    ensures u.tokenTypeName in registry ==>
      var created := DefaultKind(registry[u.tokenTypeName]);
      && (u.properties.None? ==> r.Success? && r.value.kind == created)
      && (u.properties.Some? ==> (r.Success? <==> ApplyEntries(o, created, u.properties.value).Success?))
  {
    if u.tokenTypeName !in registry then Failure(Argument(UnknownKind))
    else
      var t := Create(registry[u.tokenTypeName], u.name, u.isContextual, u.isOptional, u.invertParsing);
      if u.properties.None? then Success(t)
      else match ApplyEntries(o, t.kind, u.properties.value)
        case Failure(e) => Failure(e)
        case Success(k) => Success(t.(kind := k))
  }

  /** A bare initializer on a word kind is its vocabulary, split at every
      comma and nothing more. */
  lemma WordVocabularyFromInitializer(o: Oracles, registry: map<string, KindClass>, u: CsdlToken, text: string)
    requires u.tokenTypeName in registry && registry[u.tokenTypeName] == WordClass
    requires u.properties == Some([(DEFAULT_PROPERTY, text)])
    ensures ToTokenType(o, registry, u).Success?
    ensures ToTokenType(o, registry, u).value.kind == Word(ValueConfig(Some(Split(text, ',')), None, None))
  {
    var entries := [(DEFAULT_PROPERTY, text)];
    assert entries[1..] == [];
  }

  lemma MaxDistanceEntry(o: Oracles, k: Kind, n: Int32)
    requires k.LDWord? || k.LDText?
    ensures SetProperty(o, k, "MaxDistance", IntToString(n), false).Success?
    ensures PropertyOf(SetProperty(o, k, "MaxDistance", IntToString(n), false).value, "MaxDistance") == Some(AsNumber(n))
  {
    FormatParseRoundTrip(n, INT32_MIN, INT32_MAX);
  }

  /** Writing an in-range number into `MaxDistance` as text sets it to that
      number. */
  lemma MaxDistanceRoundTrip(o: Oracles, k: Kind, n: Int32)
    requires k.LDWord? || k.LDText?
    ensures ApplyEntries(o, k, [("MaxDistance", IntToString(n))]).Success?
    ensures PropertyOf(ApplyEntries(o, k, [("MaxDistance", IntToString(n))]).value, "MaxDistance") == Some(AsNumber(n))
  {
    var entries := [("MaxDistance", IntToString(n))];
    assert "MaxDistance" != DEFAULT_PROPERTY;
    if k.LDWord? {
      assert DeclaredProperties(ClassOf(k)) == {"ValidValues", "ValidValuesVariableName", "ContextVariableName", "MaxDistance"};
    } else {
      assert DeclaredProperties(ClassOf(k)) == {"ValidValues", "ContextVariableName", "MaxDistance"};
    }
    MaxDistanceEntry(o, k, n);
    var s := SetProperty(o, k, "MaxDistance", IntToString(n), false);
    assert ApplyEntry(o, k, entries[0]) == s;
    assert entries[1..] == [];
    assert ApplyEntries(o, k, entries) == ApplyEntries(o, s.value, []);
  }
}
