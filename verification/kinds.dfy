/** The token kinds of Takenet.Textc as one closed datatype: each
    constructor carries the configuration its class exposes as token type
    properties. A `TokenType` is a kind together with the slot's name and
    flags. */
module Kinds {
  import opened Wrappers
  import opened Numbers

  /** The properties of `ValueTokenTypeBase<T>`: a literal vocabulary (the
      default property), the name of a context variable holding the
      vocabulary, and an alias for context lookup. */
  datatype ValueConfig<T> = ValueConfig(
    validValues: Option<seq<T>>,
    validValuesVariableName: Option<string>,
    contextVariableName: Option<string>)

  /** The properties of `TextTokenType`. */
  datatype TextConfig = TextConfig(
    validValues: Option<seq<string>>,
    contextVariableName: Option<string>)

  datatype Kind =
    | Word(cfg: ValueConfig<string>)                       // WordTokenType
    | Integer(ints: ValueConfig<Int32>)                    // IntegerTokenType
    | Long(longs: ValueConfig<Int64>)                      // LongTokenType
    | Decimal(decimals: ValueConfig<real>)                 // DecimalTokenType
    | LDWord(cfg: ValueConfig<string>, maxDistance: Int32) // LevenshteinDistanceWordTokenType
    | SWord(cfg: ValueConfig<string>)                      // SoundexWordTokenType
    | Text(text: TextConfig)                               // TextTokenType
    | LDText(text: TextConfig, maxDistance: Int32)         // LevenshteinDistanceTextTokenType
    | RegexWord(pattern: Option<string>)                   // RegexWordTokenType
    | RegexText(pattern: Option<string>)                   // RegexTextTokenType
    | LongRegex(pattern: Option<string>)                   // LongRegexTokenType
    | RegexLong(pattern: Option<string>)                   // RegexLongTokenType

  datatype TokenType = TokenType(
    name: string,
    isContextual: bool,
    isOptional: bool,
    invertParsing: bool,
    kind: Kind)

  /** The token type classes the registry can hold. */
  datatype KindClass =
    | WordClass | IntegerClass | LongClass | DecimalClass | LDWordClass | SWordClass
    | TextClass | LDTextClass | RegexWordClass | RegexTextClass | LongRegexClass | RegexLongClass

  /** A class handed to `RegisterTokenType<T>`: one of the kinds above, or a
      class without `TokenTypeAttribute`. */
  datatype ClassRef = Decorated(cls: KindClass) | NotDecorated(typeName: string)

  function ClassOf(k: Kind): KindClass {
    match k
    case Word(_) => WordClass
    case Integer(_) => IntegerClass
    case Long(_) => LongClass
    case Decimal(_) => DecimalClass
    case LDWord(_, _) => LDWordClass
    case SWord(_) => SWordClass
    case Text(_) => TextClass
    case LDText(_, _) => LDTextClass
    case RegexWord(_) => RegexWordClass
    case RegexText(_) => RegexTextClass
    case LongRegex(_) => LongRegexClass
    case RegexLong(_) => RegexLongClass
  }

  /** The `ShortName` of each class's `TokenTypeAttribute`. */
  function ShortName(c: KindClass): string {
    match c
    case WordClass => "Word"
    case IntegerClass => "Integer"
    case LongClass => "Long"
    case DecimalClass => "Decimal"
    case LDWordClass => "LDWord"
    case SWordClass => "SWord"
    case TextClass => "Text"
    case LDTextClass => "LDText"
    case RegexWordClass => "RegexWord"
    case RegexTextClass => "RegexText"
    case LongRegexClass => "LongRegex"
    case RegexLongClass => "RegexLong"
  }

  /** `GetType().Name` of each class. */
  function ClassName(c: KindClass): string {
    match c
    case WordClass => "WordTokenType"
    case IntegerClass => "IntegerTokenType"
    case LongClass => "LongTokenType"
    case DecimalClass => "DecimalTokenType"
    case LDWordClass => "LevenshteinDistanceWordTokenType"
    case SWordClass => "SoundexWordTokenType"
    case TextClass => "TextTokenType"
    case LDTextClass => "LevenshteinDistanceTextTokenType"
    case RegexWordClass => "RegexWordTokenType"
    case RegexTextClass => "RegexTextTokenType"
    case LongRegexClass => "LongRegexTokenType"
    case RegexLongClass => "RegexLongTokenType"
  }

  /** Distinct classes have distinct short names, so the registry can be
      keyed by short name. */
  lemma ShortNamesDistinct(a: KindClass, b: KindClass)
    ensures ShortName(a) == ShortName(b) <==> a == b
  {
  }

  /** `is TextTokenType`: the free-text kind and its fuzzy subclass. */
  predicate IsTextTokenType(k: Kind) {
    k.Text? || k.LDText?
  }

  /** `is TextTokenType || is RegexTextTokenType`: the kinds the ratio and
      match-count scorers treat as free text. */
  predicate IsFreeText(k: Kind) {
    IsTextTokenType(k) || k.RegexText?
  }

  /** A freshly created instance: every property unset, `MaxDistance` 2. */
  function DefaultKind(c: KindClass): (k: Kind)
    ensures ClassOf(k) == c
  {
    var v := ValueConfig(None, None, None);
    var t := TextConfig(None, None);
    match c
    case WordClass => Word(v)
    case IntegerClass => Integer(ValueConfig(None, None, None))
    case LongClass => Long(ValueConfig(None, None, None))
    case DecimalClass => Decimal(ValueConfig(None, None, None))
    case LDWordClass => LDWord(v, 2)
    case SWordClass => SWord(v)
    case TextClass => Text(t)
    case LDTextClass => LDText(t, 2)
    case RegexWordClass => RegexWord(None)
    case RegexTextClass => RegexText(None)
    case LongRegexClass => LongRegex(None)
    case RegexLongClass => RegexLong(None)
  }

  /** `ITokenTypeFactory.Create`: an instance of the class with the slot's
      name and flags. */
  function Create(c: KindClass, name: string, isContextual: bool, isOptional: bool, invertParsing: bool): (r: TokenType)
    ensures r.name == name && r.isContextual == isContextual
    ensures r.isOptional == isOptional && r.invertParsing == invertParsing
    ensures ClassOf(r.kind) == c
  {
    TokenType(name, isContextual, isOptional, invertParsing, DefaultKind(c))
  }

  /** `ToString`: `Name:ClassName`. */
  function TokenTypeToString(t: TokenType): (r: string)
    ensures |r| == |t.name| + 1 + |ClassName(ClassOf(t.kind))|
    ensures r[..|t.name|] == t.name && r[|t.name|] == ':'
    ensures r[|t.name| + 1..] == ClassName(ClassOf(t.kind))
  {
    t.name + ":" + ClassName(ClassOf(t.kind))
  }
}
