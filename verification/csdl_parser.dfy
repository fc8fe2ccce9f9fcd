/** CsdlParser.cs: the registry of kind classes by short name, and `Parse`,
    which builds a `Syntax` from a CSDL pattern through that registry. The
    registry is a value passed in and returned instead of a static
    dictionary. */
module CsdlParser {
  import opened Wrappers
  import opened Errors
  import opened Strings
  import opened RequestContexts
  import opened Kinds
  import opened Syntaxes
  import opened Env
  import opened CsdlSyntaxes

  type Registry = map<string, KindClass>

  /** `RegisterTokenType<T>`: a class without the short-name attribute is
      rejected, and so is a short name already present. */
  function Register(registry: Registry, c: ClassRef): (r: Result<Registry, Error>)
    ensures c.NotDecorated? ==> r == Failure(Argument(ArgumentReason.NotDecorated))
    ensures c.Decorated? && ShortName(c.cls) in registry ==> r == Failure(Argument(AlreadyRegistered))
    ensures c.Decorated? && ShortName(c.cls) !in registry ==>
      && r.Success? && ShortName(c.cls) in r.value && r.value[ShortName(c.cls)] == c.cls
      && r.value.Keys == registry.Keys + {ShortName(c.cls)}
      && forall n :: n in registry ==> r.value[n] == registry[n]
  {
    match c
    case NotDecorated(_) => Failure(Argument(ArgumentReason.NotDecorated))
    case Decorated(cls) =>
      if ShortName(cls) in registry then Failure(Argument(AlreadyRegistered))
      else Success(registry[ShortName(cls) := cls])
  }

  /** `UnregisterTokenType<T>`: a class without the attribute is rejected,
      and so is a short name that is not present. */
  function Unregister(registry: Registry, c: ClassRef): (r: Result<Registry, Error>)
    ensures c.NotDecorated? ==> r == Failure(Argument(ArgumentReason.NotDecorated))
    ensures c.Decorated? && ShortName(c.cls) !in registry ==> r == Failure(Argument(NotRegistered))
    ensures c.Decorated? && ShortName(c.cls) in registry ==>
      && r.Success? && r.value.Keys == registry.Keys - {ShortName(c.cls)}
      && forall n :: n in r.value ==> r.value[n] == registry[n]
  {
    match c
    case NotDecorated(_) => Failure(Argument(ArgumentReason.NotDecorated))
    case Decorated(cls) =>
      if ShortName(cls) in registry then Success(registry - {ShortName(cls)})
      else Failure(Argument(NotRegistered))
  }

  /** Registering a class and unregistering it again restores the
      registry. */
  lemma RegisterThenUnregister(registry: Registry, cls: KindClass)
    requires ShortName(cls) !in registry
    ensures Register(registry, Decorated(cls)).Success?
    ensures Unregister(Register(registry, Decorated(cls)).value, Decorated(cls)) == Success(registry)
  {
    var added := Register(registry, Decorated(cls)).value;
    var removed := Unregister(added, Decorated(cls)).value;
    assert removed.Keys == registry.Keys;
    assert removed == registry;
  }

  /** Unregistering a class and registering it again restores the
      registry when the short name held that class. */
  lemma UnregisterThenRegister(registry: Registry, cls: KindClass)
    requires ShortName(cls) in registry && registry[ShortName(cls)] == cls
    ensures Unregister(registry, Decorated(cls)).Success?
    ensures Register(Unregister(registry, Decorated(cls)).value, Decorated(cls)) == Success(registry)
  {
    var removed := Unregister(registry, Decorated(cls)).value;
    var added := Register(removed, Decorated(cls)).value;
    assert added.Keys == registry.Keys;
    assert added == registry;
  }

  /** The registry the static constructor builds from the library's own
      assembly: every kind class under its short name. */
  function DefaultRegistry(): Registry {
    map[
      "Word" := WordClass, "Integer" := IntegerClass, "Long" := LongClass,
      "Decimal" := DecimalClass, "LDWord" := LDWordClass, "SWord" := SWordClass,
      "Text" := TextClass, "LDText" := LDTextClass, "RegexWord" := RegexWordClass,
      "RegexText" := RegexTextClass, "LongRegex" := LongRegexClass, "RegexLong" := RegexLongClass]
  }

  /** Every class is in the default registry under its short name, and
      every entry is keyed by its own class's short name. */
  lemma DefaultRegistryComplete(c: KindClass)
    ensures ShortName(c) in DefaultRegistry() && DefaultRegistry()[ShortName(c)] == c
    ensures forall n :: n in DefaultRegistry() ==> ShortName(DefaultRegistry()[n]) == n
  {
  }

  /** So registering any class on top of the default registry fails. */
  lemma DefaultRegistryFull(c: KindClass)
    ensures Register(DefaultRegistry(), Decorated(c)) == Failure(Argument(AlreadyRegistered))
  {
    DefaultRegistryComplete(c);
  }

  /** `Parse(pattern, culture)`: the pattern constructor, then `GetSyntax`. */
  function ParseWithCulture(o: Oracles, registry: Registry, pattern: string, culture: Culture): (r: Result<Syntax, Error>)
    ensures FromPattern(o.parseJsonObject, pattern).Failure? ==> r == Failure(FromPattern(o.parseJsonObject, pattern).error)
    ensures FromPattern(o.parseJsonObject, pattern).Success? ==>
      r == GetSyntax(o, registry, FromPattern(o.parseJsonObject, pattern).value, culture)
    ensures r.Success? ==> r.value.culture == culture
    ensures IsBlank(pattern) ==> r == Failure(ArgumentNull)
  {
    match FromPattern(o.parseJsonObject, pattern)
    case Failure(e) => Failure(e)
    case Success(s) => GetSyntax(o, registry, s, culture)
  }

  /** `Parse(pattern)`: the invariant culture. */
  function Parse(o: Oracles, registry: Registry, pattern: string): (r: Result<Syntax, Error>)
    ensures r == ParseWithCulture(o, registry, pattern, Invariant)
    ensures r.Success? ==> r.value.culture == Invariant
  {
    ParseWithCulture(o, registry, pattern, Invariant)
  }
}
