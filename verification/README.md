# Takenet.Textc matching engine in Dafny

This project models the matching engine of the Takenet.Textc library. The
engine turns a line of user text into a command invocation. It has these
parts:

- **CSDL front end.** A pattern language compiles to a `Syntax`, an array of
  token-type slots.
  - `^` anchors the parsing direction.
  - `[...]` demands a perfect match.
  - A unit is written `name+:Kind?~(initializer)`.
  - The front end can also render a syntax back to text.
  - A registry maps kind names to kinds.
- **`TextCursor`.** A two-ended cursor over the words of the input, with one
  checkpoint and a direction bit.
- **`SyntaxParser.TryParse`.** It fills a syntax's slots from both ends
  towards the middle:
  - it saves and rolls back the cursor;
  - it falls back to the request context;
  - it skips optional slots;
  - it flips direction where a slot asks for it;
  - it checks for a perfect match at the end.
- **Token kinds.**
  - Word, Integer, Long and Decimal value kinds.
  - The free-text kind, with its fuzzy Levenshtein variant. The matcher
    uses the corrected fuzzy answer, a vocabulary entry, where the code
    answers with the query itself (see "## Findings").
  - The legacy free-text kind of the older Takenet.Text library.
  - Levenshtein and Soundex word kinds.
  - Four regular-expression kinds.
- **String algorithms.**
  - Two Levenshtein dynamic programs, each proved equal to one recursive
    definition.
  - Soundex.
  - Norvig's spelling corrector, with its `From`/`To` substring helpers.
  - The punctuation splitter.
- **Ranking and effects.**
  - Four expression scorers.
  - `TextProcessor`'s candidate selection, ending in a "no match" error when
    nothing matches.
  - `ParsedInput`'s write-back of contextual tokens.
  - `RequestContext` as a map.

Every operation is a pure function over immutable datatypes. The cursor and
the request context are value records threaded through the matcher.

Outcomes of the C# code that are exceptions are modelled as values:

- `Result` for exceptions that propagate: argument errors, invalid casts,
  null references, division by zero, and "no match".
- `Option` for `null` results.

Some library calls are not modelled. They are fields of an `Oracles` value
passed as a parameter:

- the regular-expression engine;
- culture-dependent `decimal` parsing;
- JSON decoding of CSDL initializers.

Snapshot differences in the source are resolved as follows:

- `Syntax` carries a culture tag, because `CsdlSyntax.GetSyntax` and
  `TextProcessor` use one.
- `Expression` has named fields, so the order of its constructor arguments
  does not matter.

## Model

| member | source | states |
|---|---|---|
| RequestContexts.New | src/Takenet.Textc/RequestContext.cs:12-16 | the parameterless context has the invariant culture and reads `null` for every name |
| RequestContexts.NewWithCulture | src/Takenet.Textc/RequestContext.cs:18-23 | a null culture is rejected with `ArgumentNull` and only then; otherwise the context keeps the culture and starts empty |
| RequestContexts.SetVariable | src/Takenet.Textc/RequestContext.cs:29-34 | a null name fails with `ArgumentNull` and only then; the value, even `null`, is read back under the name and every other name reads as before |
| RequestContexts.GetVariable | src/Takenet.Textc/RequestContext.cs:36-42 | a null name fails with `ArgumentNull` and only then; an absent name reads `null` |
| RequestContexts.RemoveVariable | src/Takenet.Textc/RequestContext.cs:44-48 | a null name fails with `ArgumentNull` and only then; the name then reads `null` and every other name reads as before |
| RequestContexts.Clear | src/Takenet.Textc/RequestContext.cs:50-53 | every name reads `null` afterwards and the culture is kept |
| RequestContexts.SetRemoveRestores | src/Takenet.Textc/RequestContext.cs:29-48 | storing a fresh name and removing it again gives back the same context |
| CsdlParser.Register | src/Takenet.Textc/Csdl/CsdlParser.cs:59-84 | a class without the attribute, or whose short name is taken, is rejected with `ArgumentException`; otherwise exactly that name is added and every other entry is kept |
| CsdlParser.Unregister | src/Takenet.Textc/Csdl/CsdlParser.cs:92-117 | a class without the attribute, or whose short name is absent, is rejected; otherwise exactly that name is removed |
| CsdlParser.RegisterThenUnregister | src/Takenet.Textc/Csdl/CsdlParser.cs:59-117 | registering a new class and unregistering it gives back the registry |
| CsdlParser.UnregisterThenRegister | src/Takenet.Textc/Csdl/CsdlParser.cs:59-117 | unregistering a registered class and registering it again gives back the registry |
| CsdlParser.DefaultRegistryComplete | src/Takenet.Textc/Csdl/CsdlParser.cs:19-51 | the registry the static constructor builds holds every kind class under its own short name |
| CsdlParser.DefaultRegistryFull | src/Takenet.Textc/Csdl/CsdlParser.cs:19-84 | registering any kind class again on top of the default registry fails as a duplicate |
| CsdlParser.ParseWithCulture | src/Takenet.Textc/Csdl/CsdlParser.cs:135-139 | a pattern the CSDL constructor rejects gives its error (a blank one `ArgumentNull`); otherwise the result is that of `GetSyntax`, and a syntax carries the requested culture |
| CsdlParser.Parse | src/Takenet.Textc/Csdl/CsdlParser.cs:124-127 | parsing without a culture is parsing with the invariant culture |
| CsdlProperties.DefaultProperty | src/Takenet.Textc/Csdl/CsdlToken.cs:54-76 | the property marked as the default one is a property the class declares (the vocabulary, or the pattern on the regular-expression classes) |
| CsdlProperties.DeclaredIsReadable | src/Takenet.Textc/Csdl/CsdlToken.cs:80-83 | a property name is found on a class exactly when the class declares it |
| CsdlProperties.ToInt32 | src/Takenet.Textc/Csdl/CsdlToken.cs:86-89 | converting to `int` succeeds exactly on a well-formed 32-bit number; bad syntax is a format error, a number out of range an overflow |
| CsdlProperties.ToInt64 | src/Takenet.Textc/Csdl/CsdlToken.cs:86-89 | the same for `long` and the 64-bit range |
| CsdlProperties.ToDecimal | src/Takenet.Textc/Csdl/CsdlToken.cs:86-89 | converting to `decimal` succeeds exactly when the culture's decimal parser accepts the text, and fails with a format error otherwise |
| CsdlProperties.ToBoolean | src/Takenet.Textc/Csdl/CsdlToken.cs:86-89 | converting to `bool` succeeds exactly on `true` or `false`, in any case, with white space around |
| CsdlProperties.ConvertAll | src/Takenet.Textc/Csdl/CsdlToken.cs:97-104 | the element-wise conversion succeeds exactly when every piece converts, keeps order and length, and otherwise fails with the error of some piece |
| CsdlProperties.JsonFailure | src/Takenet.Textc/Csdl/CsdlToken.cs:106-110 | a conversion failure inside the JSON deserializer surfaces as a reader error; a success is unchanged |
| CsdlProperties.StoreWords | src/Takenet.Textc/Csdl/CsdlToken.cs:112 | storing a word vocabulary changes `ValidValues` to exactly those words and no other property |
| CsdlProperties.StoreInts | src/Takenet.Textc/Csdl/CsdlToken.cs:97-112 | an integer vocabulary is stored exactly when every piece parses as a 32-bit number, element by element in order, and nothing else changes |
| CsdlProperties.StoreLongs | src/Takenet.Textc/Csdl/CsdlToken.cs:97-112 | a long vocabulary is stored exactly when every piece parses as a 64-bit number, and nothing else changes |
| CsdlProperties.StoreDecimals | src/Takenet.Textc/Csdl/CsdlToken.cs:97-112 | a decimal vocabulary is stored exactly when every piece parses as a decimal, and nothing else changes |
| CsdlProperties.SetValidValues | src/Takenet.Textc/Csdl/CsdlToken.cs:86-112 | the default property splits its text at every comma and converts each piece; a named `ValidValues` goes through the JSON reader and every failure is a reader error; only `ValidValues` changes |
| CsdlProperties.SetVariableName | src/Takenet.Textc/Csdl/CsdlToken.cs:112 | `ValidValuesVariableName` is set to the text on the classes that declare it, and nothing else changes |
| CsdlProperties.SetContextName | src/Takenet.Textc/Csdl/CsdlToken.cs:112 | `ContextVariableName` is set to the text on the classes that declare it, and nothing else changes |
| CsdlProperties.SetMaxDistance | src/Takenet.Textc/Csdl/CsdlToken.cs:112 | `MaxDistance` is set on the two Levenshtein classes, and nothing else changes |
| CsdlProperties.SetPattern | src/Takenet.Textc/Csdl/CsdlToken.cs:112 | `Pattern` is set on the four regular-expression classes, and nothing else changes |
| CsdlProperties.SetProperty | src/Takenet.Textc/Csdl/CsdlToken.cs:83-113 | writing a declared property changes only it; the text names are stored as given, `MaxDistance` succeeds exactly on a 32-bit number, `Pattern` exactly on a valid regular expression (otherwise the setter's exception) |
| CsdlProperties.ApplyEntry | src/Takenet.Textc/Csdl/CsdlToken.cs:49-118 | one initializer entry succeeds exactly when its property (the default key standing for the default property) is declared and the write succeeds; an unknown name is an `ArgumentException`; only that property changes |
| CsdlProperties.ApplyEntries | src/Takenet.Textc/Csdl/CsdlToken.cs:47-120 | the entries are applied in order, the class is kept, an empty initializer changes nothing and the first failure stops the loop |
| CsdlProperties.UntouchedPropertyKept | src/Takenet.Textc/Csdl/CsdlToken.cs:47-120 | a property that no initializer entry targets keeps the value the instance was created with |
| CsdlProperties.ToTokenType | src/Takenet.Textc/Csdl/CsdlToken.cs:37-127 | an unregistered kind name fails with `ArgumentException` and only then; the instance has the unit's name and flags and the registered class; without an initializer it is the class's default instance, with one it succeeds exactly when all entries apply |
| CsdlProperties.WordVocabularyFromInitializer | src/Takenet.Textc/Csdl/CsdlToken.cs:91-105 | a bare initializer on a word kind becomes its vocabulary, split at every comma, and nothing else |
| CsdlProperties.MaxDistanceRoundTrip | src/Takenet.Textc/Csdl/CsdlToken.cs:86-112 | writing a 32-bit number as text into `MaxDistance` sets it to that number |
| CsdlTokens.AlnumRun | src/Takenet.Textc/Csdl/CsdlToken.cs:20-21 | the `[A-Za-z0-9]` runs of the unit pattern: the run is a prefix and stops at the first character that is not a letter or digit |
| CsdlTokens.FindClose | src/Takenet.Textc/Csdl/CsdlToken.cs:20-21 | the lazy `.*?` of the initializer: the first occurrence of the closing text, with no line break before it |
| CsdlTokens.InitializerLength | src/Takenet.Textc/Csdl/CsdlToken.cs:20-21 | an initializer, when present, starts with `(` and ends with `)` and lies inside the text |
| CsdlTokens.MatchAt | src/Takenet.Textc/Csdl/CsdlToken.cs:20-21 | a unit matched at the start is at least two characters long and holds the `:` |
| CsdlTokens.Scan | src/Takenet.Textc/Csdl/CsdlToken.cs:145-147 | every match `Regex.Matches` finds with the unit pattern holds a `:` and has at least two characters |
| CsdlTokens.AutoName | src/Takenet.Textc/Csdl/CsdlToken.cs:152 | the fallback name `t{i}` starts with `t` and does not end in `+` |
| CsdlTokens.NameOf | src/Takenet.Textc/Csdl/CsdlToken.cs:175-188 | an empty name or a bare `+` becomes the fallback name; the token is contextual exactly when that name ends in `+`, and the name kept is it with the whole trailing run of `+` removed |
| CsdlTokens.InitializerEntries | src/Takenet.Textc/Csdl/CsdlToken.cs:198-221 | a `{...}` initializer gives the JSON object's entries, a repeated key throws and bad JSON is a reader error; other non-blank text is the default property with outer `'` removed; blank text gives no entries |
| CsdlTokens.KindAndFlags | src/Takenet.Textc/Csdl/CsdlToken.cs:228-238 | the token is optional exactly when the kind text ends in `?`; a trailing `~` is looked at afterwards; the kind name is the text with a trailing run of `?`/`~` removed |
| CsdlTokens.ParseKind | src/Takenet.Textc/Csdl/CsdlToken.cs:191-238 | without `(` the kind text gives the kind and flags and always succeeds; with one the token has an initializer; the only failures are out-of-range, JSON reader and duplicate-key errors |
| CsdlTokens.ParseKindInitializer | src/Takenet.Textc/Csdl/CsdlToken.cs:193-221 | a `)` before the `(` is an out-of-range error; otherwise the trimmed text between the `(` and the last `)` is the initializer, and the unit succeeds exactly when it does |
| CsdlTokens.FromText | src/Takenet.Textc/Csdl/CsdlToken.cs:163-244 | blank text fails as `null` and only then; text without `:` fails with `ArgumentException` and only then; otherwise the name comes from before the first `:`, the kind from after it, and the unit fails exactly when its kind part does |
| CsdlTokens.FromParts | src/Takenet.Textc/Csdl/CsdlToken.cs:246-265 | an empty name or kind name fails as `null` and only then; otherwise the unit carries the given parts, is not contextual, and its text is `name:kind` |
| CsdlTokens.UnitsFrom | src/Takenet.Textc/Csdl/CsdlToken.cs:148-155 | every match is converted in order with fallback name `t{i}`, `i` counting every match; the first failing conversion ends the loop with its error |
| CsdlTokens.ScannedNeverNull | src/Takenet.Textc/Csdl/CsdlToken.cs:145-167 | no match of the unit pattern is blank, so the conversion loop never fails as `null` |
| CsdlTokens.GetTokensFromPattern | src/Takenet.Textc/Csdl/CsdlToken.cs:145-156 | one unit per match, in order, each keeping its match's text; no failure is a `null` argument |
| CsdlTokens.MatchPlainUnit | src/Takenet.Textc/Csdl/CsdlToken.cs:20-21 | a unit of letters and digits around one `:`, followed by a space or by nothing, is matched whole |
| CsdlTokens.ScanSkipsSpace | src/Takenet.Textc/Csdl/CsdlToken.cs:20-147 | no unit starts at a space, so a leading space changes nothing in the matches |
| CsdlTokens.ScanPlainUnits | src/Takenet.Textc/Csdl/CsdlToken.cs:145-147 | plain units joined by single spaces are found again, exactly and in order |
| CsdlTokens.FromPlainUnit | src/Takenet.Textc/Csdl/CsdlToken.cs:163-226 | a plain unit always converts: its name is the text before `:` (the fallback name when that is empty), its kind the text after, with no flags and no initializer |
| CsdlTokens.AutoNamed | src/Takenet.Textc/Csdl/CsdlToken.cs:152-182 | the unit at match index `i` whose name is empty or a bare `+` is named `t{i}` and is not contextual |
| CsdlTokens.OptionalBeforeInvert | src/Takenet.Textc/Csdl/CsdlToken.cs:228-238 | the suffixes are looked at optional-first: `K?~` is inverted, not optional, with kind name `K?`, and `K~?` is both, with kind name `K` |
| CsdlTokens.PlainPatternUnits | src/Takenet.Textc/Csdl/CsdlToken.cs:145-156 | a pattern of plain units separated by single spaces gives back those units, in order, each keeping its text |
| CsdlSyntaxes.Anchored | src/Takenet.Textc/Csdl/CsdlSyntax.cs:29-39 | a leading `^` is removed (every one) and parses left to right, winning over a trailing one; the syntax is right to left exactly when only a trailing `^` is present, and then every trailing `^` is removed |
| CsdlSyntaxes.Bracketed | src/Takenet.Textc/Csdl/CsdlSyntax.cs:41-48 | perfect match exactly when the text starts with `[` and ends with `]`; then every leading `[` and trailing `]` is gone, otherwise the text is unchanged |
| CsdlSyntaxes.Layout | src/Takenet.Textc/Csdl/CsdlSyntax.cs:27-50 | the direction is decided before the brackets are looked at, on the text the anchor leaves |
| CsdlSyntaxes.FromPattern | src/Takenet.Textc/Csdl/CsdlSyntax.cs:19-51 | a blank pattern fails as `null` and only then; otherwise the syntax keeps the original text, both flags of the layout, and the units the scanner finds in the trimmed rest, failing exactly when those do |
| CsdlSyntaxes.TokenTexts | src/Takenet.Textc/Csdl/CsdlSyntax.cs:67-70 | the units' texts, one per unit, in order |
| CsdlSyntaxes.Render | src/Takenet.Textc/Csdl/CsdlSyntax.cs:53-83 | a `null` unit array fails as `null` and only then; otherwise the flags and units are kept and the text is the units' texts each followed by a space, trimmed, bracketed for a perfect match, then followed by `^` for right to left |
| CsdlSyntaxes.Slots | src/Takenet.Textc/Csdl/CsdlSyntax.cs:102-115 | the slot loop succeeds exactly when no two units share a name and every remaining unit converts; each slot is its unit's conversion; with every unit convertible, a failure is the duplicate-name `InvalidOperationException` |
| CsdlSyntaxes.GetSyntax | src/Takenet.Textc/Csdl/CsdlSyntax.cs:100-119 | succeeds exactly when the unit names are distinct and every unit converts; one filled slot per unit in order, with direction, perfect-match flag and culture copied |
| CsdlSyntaxes.LayoutOfRendered | src/Takenet.Textc/Csdl/CsdlSyntax.cs:19-82 | the text the render constructor builds around a body gives that body and both flags back to the pattern constructor |
| CsdlSyntaxes.RenderThenParse | src/Takenet.Textc/Csdl/CsdlSyntax.cs:19-83 | rendering plain units and parsing the text again gives back the direction, the perfect-match flag and the units' texts, in order |
| CsdlSyntaxes.EmptyRenderIsBlank | src/Takenet.Textc/Csdl/CsdlSyntax.cs:19-83 | an empty unit list without flags renders to the empty text, which the pattern constructor rejects as `null` |
| Tokenizer.QuoteEnd | src/Takenet.Textc/TextCursor.cs:30 | the `["].+?["]` alternative: a quoted run ends at the first closing quote after at least one character, with no line feed inside |
| Tokenizer.RunEnd | src/Takenet.Textc/TextCursor.cs:30 | the `[^ ]+` alternative: the run ends at the first space or at the end of the text |
| Tokenizer.RawTokens | src/Takenet.Textc/TextCursor.cs:30-31 | the regular-expression matches, left to right; none is empty |
| Tokenizer.Tokenize | src/Takenet.Textc/TextCursor.cs:30-33 | one token per match, in order, each with every `'` deleted |
| Tokenizer.TokenizeJoin | src/Takenet.Textc/TextCursor.cs:30-33 | words without spaces, quotes or apostrophes joined by single spaces are tokenized back into the same words |
| Tokenizer.QuotedAndApostrophe | src/Takenet.Textc/TextCursor.cs:30-32 | a quoted phrase is one token and keeps its quotes; an apostrophe inside a word is dropped |
| TextCursors.Remaining | src/Takenet.Textc/TextCursor.cs:44-168 | the tokens between the two bounds; the cursor is empty exactly when none remain |
| TextCursors.New | src/Takenet.Textc/TextCursor.cs:27-36 | the new cursor holds every token of the text, parses left to right and keeps the context |
| TextCursors.Reset | src/Takenet.Textc/TextCursor.cs:159-163 | both bounds and both checkpoints go back to the whole array, so every token remains |
| TextCursors.Peek | src/Takenet.Textc/TextCursor.cs:130-141 | `null` exactly when the cursor is empty; otherwise the first remaining token, or the last when parsing right to left; nothing moves |
| TextCursors.Next | src/Takenet.Textc/TextCursor.cs:70-87 | the peeked token; a non-empty one is consumed from the active end only, and a missing or empty one leaves the cursor unchanged |
| TextCursors.ToString | src/Takenet.Textc/TextCursor.cs:44-59 | the remaining tokens separated by single spaces |
| TextCursors.All | src/Takenet.Textc/TextCursor.cs:93-106 | the remaining tokens joined by spaces, after which the cursor is empty; only the active bound moves |
| TextCursors.SavePosition | src/Takenet.Textc/TextCursor.cs:111-115 | the checkpoint becomes the current bounds and nothing else changes |
| TextCursors.RollbackPosition | src/Takenet.Textc/TextCursor.cs:120-124 | the bounds go back to the checkpoint; the direction is not restored |
| TextCursors.InvertParsing | src/Takenet.Textc/TextCursor.cs:151-154 | only the direction flips |
| TextCursors.SetDirection | src/Takenet.Textc/TextCursor.cs:146 | only the direction changes, to the value given |
| TextCursors.SaveThenRollback | src/Takenet.Textc/TextCursor.cs:111-124 | whatever was consumed after a save, rolling back gives the saved cursor back, with the direction as it is now |
| TextCursors.NextShrinks | src/Takenet.Textc/TextCursor.cs:70-87 | a consuming `Next` removes exactly one token and any other leaves the count unchanged |
| TextCursors.AllOfFreshCursor | src/Takenet.Textc/TextCursor.cs:27-106 | a fresh cursor over words joined by spaces gives the same text back from `All`, in either direction |
| TextCursors.QueryShift | src/Takenet.Textc/TextCursor.cs:70-87 | the words read after one consumed word are the words of the cursor before it, shifted by one |
| Kinds.ShortNamesDistinct | src/Takenet.Textc/Csdl/CsdlParser.cs:19-51 | distinct classes have distinct short names, so the registry can be keyed by short name |
| Kinds.Create | src/Takenet.Textc/Types/TokenType.cs:9-15 | the new instance carries the slot's name and its three flags and is of the class asked for |
| Kinds.TokenTypeToString | src/Takenet.Textc/Types/TokenType.cs:17-20 | the text is the slot name, a `:` and the class name |
| TokenTypes.KindInput | src/Takenet.Textc/Types/TokenType.cs:22 | the kind's own extraction only consumes tokens, gives a value of the kind's type, and takes at most one word unless it is a free-text kind; each kind answers as its own extraction, a free-text kind through the corrected reading of "## Findings" |
| TokenTypes.FreeTextInput | src/Takenet.Textc/Types/LevenshteinDistanceTextTokenType.cs:19-27 | a free-text slot moves the cursor and matches exactly as the code does; an exact `Text` slot answers as the code does, and a fuzzy `LDText` match answers with the first vocabulary entry near the code's query instead of the query |
| TokenTypes.KindContext | src/Takenet.Textc/Types/TokenType.cs:24 | the kind's context lookup gives a value of the kind's type, and its only failure is an invalid cast |
| TokenTypes.FromInput | src/Takenet.Textc/Types/TokenType.cs:34-54 | an empty cursor is no match and the kind is not asked; otherwise the kind's answer; a value is of the kind's type |
| TokenTypes.FromContext | src/Takenet.Textc/Types/TokenType.cs:56-71 | the kind's context answer passed through, of the kind's type |
| ValueKinds.FirstMatch | src/Takenet.Textc/Types/ValueTokenTypeBase.cs:100-114 | no answer exactly when no entry compares equal; otherwise the first entry that does, in vocabulary spelling |
| ValueKinds.GetValidValues | src/Takenet.Textc/Types/ValueTokenTypeBase.cs:116-123 | a non-blank variable name reads the vocabulary from the context (an absent or wrongly typed variable is an empty vocabulary, a missing context a null reference); otherwise the literal `ValidValues` |
| ValueKinds.ValueInput | src/Takenet.Textc/Types/ValueTokenTypeBase.cs:24-48 | exactly one `Next` whatever happens; an empty word or a failed conversion is no match; without a vocabulary the converted word matches, otherwise the vocabulary check decides; a vocabulary lookup's exception propagates |
| ValueKinds.ContextVariable | src/Takenet.Textc/Types/ValueTokenTypeBase.cs:55-59 | the alias when it is not blank, otherwise the slot name |
| ValueKinds.ValueContext | src/Takenet.Textc/Types/ValueTokenTypeBase.cs:50-79 | a `null` variable is no match; a value of another type is an invalid cast; otherwise the value goes through the same vocabulary check as a word from the input |
| ValueKinds.BestIndex | src/Takenet.Textc/Types/LevenshteinDistanceWordTokenType.cs:18-46 | the scan finds no entry exactly when none is within `MaxDistance` (and below `int.MaxValue`); otherwise the first entry of least distance |
| ValueKinds.ClosestMatch | src/Takenet.Textc/Types/LevenshteinDistanceWordTokenType.cs:18-46 | no answer exactly when no entry is within `MaxDistance`; otherwise an entry within it that no entry beats and every earlier entry is farther from |
| ValueKinds.BestIsUnique | src/Takenet.Textc/Types/LevenshteinDistanceWordTokenType.cs:29-41 | at most one entry is the first of least distance, so the answer depends on the vocabulary alone |
| ValueKinds.ValueKindInput | src/Takenet.Textc/Types/ValueTokenTypeBase.cs:24-48 | every value kind consumes exactly what one `Next` consumes |
| ValueKinds.WordKindMatches | src/Takenet.Textc/Types/WordTokenType.cs:14-17 | with a literal vocabulary the word kind answers with the first entry equal to the word ignoring case, in vocabulary spelling, and with nothing exactly when no entry is |
| ValueKinds.IntegerKindMatches | src/Takenet.Textc/Types/IntegerTokenType.cs:8-15 | without a vocabulary the integer kind matches exactly the words that read as a 32-bit integer, with that number; anything else is no match rather than an error |
| ValueKinds.LongKindMatches | src/Takenet.Textc/Types/LongTokenType.cs:5-12 | the same for the 64-bit kind |
| ValueKinds.VariableVocabularyOverrides | src/Takenet.Textc/Types/ValueTokenTypeBase.cs:116-121 | a variable vocabulary that is missing or of the wrong type makes every word fail to match |
| ValueKinds.VocabularySpelling | src/Takenet.Textc/Types/WordTokenType.cs:14-17 | the vocabulary `sum` reads the word `SUM` and answers `sum` |
| ValueKinds.VocabularyRejects | src/Takenet.Textc/Types/WordTokenType.cs:14-17 | the vocabulary `plus,more` rejects `minus` |
| ValueKinds.OneEditAccepted | src/Takenet.Textc/Types/LevenshteinDistanceWordTokenType.cs:18-46 | the vocabulary `reminders` accepts `reminder`, one insertion away |
| RegexKinds.RegexParse | src/Takenet.Textc/Types/RegexWordTokenType.cs:13-17 | the string kinds accept exactly a non-empty token, as it is; the `long` kinds exactly a token `long.TryParse` accepts, with that number |
| RegexKinds.RegexInput | src/Takenet.Textc/Types/RegexTokenTypeBase.cs:27-36 | the next word (the whole rest for `RegexText`) is consumed; it matches exactly when it parses, a pattern is set and the pattern finds it, and the value is the parsed one |
| RegexKinds.RegexContext | src/Takenet.Textc/Types/RegexTokenTypeBase.cs:38-60 | the variable under the slot's own name matches exactly when it has the kind's type and its text satisfies the pattern, and the value is the stored one |
| RegexKinds.LongRegexReadsFormatted | src/Takenet.Textc/Types/LongRegexTokenType.cs:13-16 | a `long` regular-expression kind reads back any 64-bit number written in decimal that its pattern accepts |
| RegexKinds.InputAgreesWithContext | src/Takenet.Textc/Types/RegexTokenTypeBase.cs:27-60 | a word read from the input matches exactly when the same word stored under the slot name does, and both give the same value |
| RegexKinds.LongInputAgreesWithContext | src/Takenet.Textc/Types/RegexTokenTypeBase.cs:27-60 | a stored `long` matches exactly when its decimal text read from the input does |
| RegexKinds.ContextTypeMismatch | src/Takenet.Textc/Types/RegexTokenTypeBase.cs:45 | a stored value of the other type never matches |
| Levenshtein.Symmetric | src/Takenet.Textc/Types/StringExtensions.cs:14-46 | the distance does not depend on the order of its arguments |
| Levenshtein.EqualLast | src/Takenet.Textc/Types/StringExtensions.cs:37-38 | when the last characters agree the distance is the diagonal one, so the table's copy step is exact |
| Levenshtein.LowerBound | src/Takenet.Textc/Types/StringExtensions.cs:14-46 | the distance is at least the difference in length |
| Levenshtein.UpperBound | src/Takenet.Textc/Types/StringExtensions.cs:14-46 | the distance is at most the length of the longer string, and at most the sum of both lengths |
| Levenshtein.OneInsertion | src/Takenet.Textc/Types/StringExtensions.cs:14-46 | one character appended costs exactly one edit |
| Levenshtein.OneInsertionBetween | src/Takenet.Textc/Types/StringExtensions.cs:14-46 | one character inserted anywhere costs at most one edit |
| Levenshtein.CountBound | src/Takenet.Textc/Types/StringExtensions.cs:14-46 | each edit adds at most one character of any chosen set, so the surplus of such characters bounds the distance from below |
| Levenshtein.DistanceProperties | src/Takenet.Textc/Types/StringExtensions.cs:14-46 | zero on equal strings, symmetric, at least the length difference and at most the longer length |
| Levenshtein.NewTable | src/Takenet.Textc/Types/StringExtensions.cs:18-33 | the fresh table's first row and first column count up from zero |
| Levenshtein.FillColumn | src/Takenet.Textc/Types/StringExtensions.cs:36-44 | after one column is filled top to bottom it holds the prefix distances, and the first row is untouched |
| Levenshtein.CalculateLevenshteinDistance | src/Takenet.Textc/Types/StringExtensions.cs:14-46 | the column-by-column table returns exactly the edit distance, with the shortcuts for an empty string |
| Levenshtein.FillRow | src/Takenet.Textc/Types/LevenshteinDistanceWordTokenType.cs:84-93 | after one row is filled left to right it holds the prefix distances, and the first column is untouched |
| Levenshtein.ComputeLevenshteinDistance | src/Takenet.Textc/Types/LevenshteinDistanceWordTokenType.cs:54-97 | the row-by-row table of the fuzzy word kind returns exactly the edit distance |
| Levenshtein.ImplementationsAgree | src/Takenet.Textc/Types/LevenshteinDistanceWordTokenType.cs:54-97 | the two table implementations return the same number on every pair of strings |
| Soundex.Code | src/Takenet.Textc/Types/SoundexWordTokenType.cs:48-59 | each letter's code is a digit `0`..`6` or the skip mark `#` |
| Soundex.PadCode | src/Takenet.Textc/Types/SoundexWordTokenType.cs:72 | the code is padded on the right with `0` to four characters |
| Soundex.SoundexCode | src/Takenet.Textc/Types/SoundexWordTokenType.cs:46-73 | the code has four characters: the first letter of the upper-cased word (or `0000` without letters), then digits `1`..`6` and only trailing zeros |
| Soundex.CaseInsensitive | src/Takenet.Textc/Types/SoundexWordTokenType.cs:51 | lower-casing or upper-casing the word does not change its code |
| Soundex.NonLetterIgnored | src/Takenet.Textc/Types/SoundexWordTokenType.cs:53-57 | a character that is not an ASCII letter does not change the code |
| Soundex.LetterCodes | src/Takenet.Textc/Types/SoundexWordTokenType.cs:48 | the code of each letter `A`..`Z` as the alphabet string gives it: vowels, `Y` `0`, `H` and `W` `#`, `BFPV` `1`, `CGJKQSXZ` `2`, `DT` `3`, `L` `4`, `MN` `5`, `R` `6` |
| Soundex.CompleteCode | src/Takenet.Textc/Types/SoundexWordTokenType.cs:53-57 | once the code has four characters, nothing appended to the word changes it |
| Soundex.SameCodeCollapses | src/Takenet.Textc/Types/SoundexWordTokenType.cs:61-69 | a letter right after one with the same code is not coded again, also when the earlier one is the first letter |
| Soundex.HWSkipped | src/Takenet.Textc/Types/SoundexWordTokenType.cs:63-64 | `H` and `W` after the first letter are dropped without resetting the repeat check, so the code is that of the word without them |
| Soundex.VowelResets | src/Takenet.Textc/Types/SoundexWordTokenType.cs:65-69 | a vowel or `Y` sets the last code to `0`, so the next coded letter is appended even when it repeats the code before the vowel |
| Soundex.RobertCode | src/Takenet.Textc/Types/SoundexWordTokenType.cs:46-73 | `Robert` has the code `R163` |
| Soundex.AshcraftCode | src/Takenet.Textc/Types/SoundexWordTokenType.cs:46-73 | `Ashcraft` has the code `A261`: `H` is skipped and `C` repeats the code of `S` |
| Soundex.TymczakCode | src/Takenet.Textc/Types/SoundexWordTokenType.cs:46-73 | `Tymczak` has the code `T522`: `Z` repeats `C`, but `K` after the vowel `A` is coded again |
| Soundex.PfisterCode | src/Takenet.Textc/Types/SoundexWordTokenType.cs:46-73 | `Pfister` has the code `P236`: `F` repeats the code of the first letter `P` |
| Soundex.CatherineKatherine | src/Takenet.Textc/Types/SoundexWordTokenType.cs:46-73 | `Catherine` and `Katherine` have different codes because the first letter is kept; each matches only itself |
| Soundex.FirstWithCode | src/Takenet.Textc/Types/SoundexWordTokenType.cs:26-35 | the index found has the word's code and no earlier entry has it |
| Soundex.SoundexMatch | src/Takenet.Textc/Types/SoundexWordTokenType.cs:20-38 | no answer exactly when no entry shares the word's code; otherwise the first entry that does |
| TextKinds.Grow | src/Takenet.Textc/Types/TextTokenType.cs:33-45 | the growth loop consumes words only from the active end of the cursor, and a query it keeps is non-empty and accepted |
| TextKinds.FirstWithin | src/Takenet.Textc/Types/LevenshteinDistanceTextTokenType.cs:19-27 | there is an entry within the distance exactly when the fuzzy test accepts the query, and the one returned is the first such entry |
| TextKinds.Answer | src/Takenet.Textc/Types/TextTokenType.cs:47-51 | the exact kind answers with the query; the fuzzy kind answers with the first entry within the distance |
| TextKinds.TextInputAsWritten | src/Takenet.Textc/Types/TextTokenType.cs:21-65 | without a vocabulary the kind takes all of the remaining input and matches exactly when that is non-empty; with one it answers with an accepted query as typed |
| TextKinds.TextInput | src/Takenet.Textc/Types/TextTokenType.cs:21-65 | corrected reading: the same cursor movement, and a fuzzy match answers with a vocabulary entry |
| TextKinds.TextContext | src/Takenet.Textc/Types/TextTokenType.cs:77-114 | a missing variable gives no value, a non-string one an invalid cast; a string matches exactly when there is no vocabulary or an entry equals it ignoring case, and the value is the stored one |
| TextKinds.QueryAtTaken | src/Takenet.Textc/Types/TextTokenType.cs:40-42 | growing the empty query word by word lays the taken words out in input order in both directions |
| TextKinds.RejectedBeforeAll | src/Takenet.Textc/Types/TextTokenType.cs:33-45 | the stepwise rejection record is equivalent to every shorter query being rejected |
| TextKinds.GrowCount | src/Takenet.Textc/Types/TextTokenType.cs:36 | the loop consumes no more words than remain |
| TextKinds.GrowSpec | src/Takenet.Textc/Types/TextTokenType.cs:33-45 | the loop consumes words until the first accepted query and answers with it; every shorter query was rejected, and without an answer the last one was too |
| TextKinds.GrowReaches | src/Takenet.Textc/Types/TextTokenType.cs:34-45 | when every earlier query passes the length guard and the m-th is accepted, the loop answers after at most m words |
| TextKinds.GrowWithin | src/Takenet.Textc/Types/TextTokenType.cs:34 | when no entry is as long as the m-th query, the loop consumes at most m words |
| TextKinds.GrowAnswersAt | src/Takenet.Textc/Types/TextTokenType.cs:33-45 | when exactly the m-th query is the first accepted and the guard held before it, the loop answers with that query after exactly m words |
| TextKinds.GrowGivesUp | src/Takenet.Textc/Types/TextTokenType.cs:33-45 | when the first m queries are rejected and no entry is as long as the m-th, the loop answers nothing |
| TextKinds.GrowFromEmpty | src/Takenet.Textc/Types/TextTokenType.cs:30-45 | from the empty query the remaining input loses exactly the consumed words at the active end, no earlier query was accepted, and the answer is the accepted query of all of them |
| TextKinds.ShortestMatch | src/Takenet.Textc/Types/TextTokenType.cs:26-52 | with a vocabulary the kind answers with the shortest accepted query from the active end, in input spelling |
| TextKinds.QueryOfSolidWords | src/Takenet.Textc/Types/TextTokenType.cs:40-44 | for words without surrounding white space the trimmed query is the words joined by single spaces, in either direction |
| TextKinds.GrowSolidWords | src/Takenet.Textc/Types/TextTokenType.cs:33-45 | on such words the loop's answer is the consumed words joined by single spaces |
| TextKinds.MatchIsConsumedWords | src/Takenet.Textc/Types/TextTokenType.cs:26-52 | on such words the kind as written answers with the consumed words joined by single spaces |
| TextKinds.CorrectedAnswer | src/Takenet.Textc/Types/LevenshteinDistanceTextTokenType.cs:19-27 | the corrected kind moves the cursor exactly as the code does and matches exactly when it does; the exact kind is unchanged and the fuzzy kind answers with the first entry near the code's query |
| TextKinds.FuzzyMatchIsEntry | src/Takenet.Textc/Types/LevenshteinDistanceTextTokenType.cs:19-27 | with a vocabulary the fuzzy kind rejects every shorter query and answers with the first entry within the distance of the consumed query |
| TextKinds.FuzzyAcceptor | src/Takenet.Textc/Types/LevenshteinDistanceTextTokenType.cs:13-27 | the fuzzy kind's acceptance test is "some entry within the distance" |
| TestTexts.TypedWords | src/Takenet.Textc.UnitTests/Types/LevenshteinDistanceTextTokenTypeTests.cs:15-33 | the tokenizer splits the typed test text into its four words |
| TestTexts.FarWords | src/Takenet.Textc.UnitTests/Types/LevenshteinDistanceTextTokenTypeTests.cs:35-52 | the tokenizer splits the distant test text into its five words |
| TextKindExamples.OutOfReach | src/Takenet.Textc/Types/LevenshteinDistanceTextTokenType.cs:19-27 | a query more than two characters shorter than every entry is not accepted |
| TextKindExamples.TypedNearSample | src/Takenet.Textc.UnitTests/Types/LevenshteinDistanceTextTokenTypeTests.cs:15-33 | the typed text is within one edit of the entry the test expects |
| TextKindExamples.VeryFarFromSample | src/Takenet.Textc.UnitTests/Types/LevenshteinDistanceTextTokenTypeTests.cs:35-52 | the four-word prefix of the distant text is at least four edits from the entry |
| TextKindExamples.NearMissGrowth | src/Takenet.Textc.UnitTests/Types/LevenshteinDistanceTextTokenTypeTests.cs:15-33 | on the typed text the loop consumes all four words and keeps the whole text |
| TextKindExamples.NearMissAsWritten | src/Takenet.Textc/Types/LevenshteinDistanceTextTokenType.cs:19-27 | as written, the kind answers "this is an sample", not the entry "this is a sample" the test expects |
| TextKindExamples.NearMissCorrected | src/Takenet.Textc.UnitTests/Types/LevenshteinDistanceTextTokenTypeTests.cs:15-33 | the corrected kind answers "this is a sample", as the test expects |
| TextKindExamples.DistantGrowth | src/Takenet.Textc.UnitTests/Types/LevenshteinDistanceTextTokenTypeTests.cs:35-52 | on the distant text the loop stops without an answer |
| TextKindExamples.DistantTextRejected | src/Takenet.Textc.UnitTests/Types/LevenshteinDistanceTextTokenTypeTests.cs:35-52 | the distant text does not match, either as written or corrected, as the test expects |
| LegacyText.Candidates | src/Takenet.Text/Types/TextTokenType.cs:56-66 | the entries that still extend the query are drawn from the vocabulary |
| LegacyText.HasCandidateIff | src/Takenet.Text/Types/TextTokenType.cs:56-69 | there is a candidate exactly when some entry starts with the query (ends with it, right to left) ignoring case |
| LegacyText.EqualExtends | src/Takenet.Text/Types/TextTokenType.cs:56-74 | an entry equal to the query ignoring case also extends it |
| LegacyText.HasEqualCandidateIff | src/Takenet.Text/Types/TextTokenType.cs:74 | some candidate equals the query exactly when some entry does, so filtering by extension loses no exact match |
| LegacyText.LegacyGrow | src/Takenet.Text/Types/TextTokenType.cs:32-83 | the loop consumes words only at the active end of the cursor |
| LegacyText.VocabularyGrow | src/Takenet.Text/Types/TextTokenType.cs:28-83 | the loop over a vocabulary from the empty query only shrinks the cursor |
| LegacyText.LegacyInput | src/Takenet.Text/Types/TextTokenType.cs:20-103 | without a vocabulary the kind takes all of the remaining input and matches exactly when it is non-empty; with one it answers with the non-empty match the loop kept, and the cursor is the loop's |
| LegacyText.LegacyContext | src/Takenet.Text/Types/TextTokenType.cs:105-142 | a missing variable gives no value, a non-string one an invalid cast; a string matches exactly when there is no vocabulary or an entry equals it ignoring case |
| LegacyText.QueriesAfter | src/Takenet.Text/Types/TextTokenType.cs:41-50 | one query per consumed word |
| LegacyText.GrowSteps | src/Takenet.Text/Types/TextTokenType.cs:72 | the loop consumes no more words than remain |
| LegacyText.LatestAppend | src/Takenet.Text/Types/TextTokenType.cs:74-77 | the last kept match over two runs of queries is the later run's, starting from the earlier run's |
| LegacyText.TurnOn | src/Takenet.Text/Types/TextTokenType.cs:34-78 | a turn that consumes a word continues the loop on the rest of the input with the grown query |
| LegacyText.TurnOff | src/Takenet.Text/Types/TextTokenType.cs:36-39 | the loop stops unchanged at the end of the input, a blank word, or a query no entry extends |
| LegacyText.LegacyGrowSpec | src/Takenet.Text/Types/TextTokenType.cs:32-83 | the loop's run: every consumed word kept it going, it stopped for one of its three reasons, and its answer is the last query kept as a match |
| LegacyText.LegacyGrowTrace | src/Takenet.Text/Types/TextTokenType.cs:32-83 | every consumed query had a candidate and the answer is the last one kept as a match |
| LegacyText.LegacyGrowStopped | src/Takenet.Text/Types/TextTokenType.cs:36-82 | the loop stopped at the end of the input, a blank word, or before a query that does not keep it going |
| LegacyText.LatestIsLast | src/Takenet.Text/Types/TextTokenType.cs:74-77 | the kept match is a query that matched, and no later query matched |
| LegacyText.VocabularyPromising | src/Takenet.Text/Types/TextTokenType.cs:63-69 | every word the loop consumed grew a query that some entry still extends |
| LegacyText.VocabularyStopped | src/Takenet.Text/Types/TextTokenType.cs:36-82 | the loop over a vocabulary stopped at the end, a blank word, or a query no entry extends |
| LegacyText.VocabularyLatest | src/Takenet.Text/Types/TextTokenType.cs:74-77 | the match is the last consumed query that some entry equals ignoring case |
| LegacyText.LegacyLongestMatch | src/Takenet.Text/Types/TextTokenType.cs:28-89 | the whole loop over a vocabulary: how many words it consumed and why it stopped, and that its match is the longest query some entry equals |
| LegacyText.VocabularyMatchIsEntry | src/Takenet.Text/Types/TextTokenType.cs:74-77 | the kept match equals an entry ignoring case |
| LegacyText.LegacyValueInVocabulary | src/Takenet.Text/Types/TextTokenType.cs:25-90 | a value the kind reads with a vocabulary equals some entry ignoring case |
| LegacyText.PastTheMatch | src/Takenet.Text/Types/TextTokenType.cs:69-77 | the cursor can end past the match: a matching word followed by a promising non-matching one consumes both and answers with the first |
| SyntaxParser.SlotStep | src/Takenet.Textc/SyntaxParser.cs:20-44 | one slot keeps the same input; a token it records has the slot's type and a value of its kind; the attempt fails exactly when nothing was found and the slot is mandatory; a context token rolls the cursor back; only an invalid cast or a null reference propagates |
| SyntaxParser.ValueKindFailure | src/Takenet.Textc/Types/ValueTokenTypeBase.cs:116-123 | the only exception a kind raises while reading input is a null reference, from a vocabulary variable read without a context |
| SyntaxParser.Visit | src/Takenet.Textc/SyntaxParser.cs:18-44 | a null slot is passed over without touching the cursor; any other slot behaves as one step |
| SyntaxParser.AfterSlot | src/Takenet.Textc/SyntaxParser.cs:55-59 | after a slot that asks for it the cursor's direction flips, and nothing else about the cursor changes |
| SyntaxParser.Align | src/Takenet.Textc/SyntaxParser.cs:15-60 | the loop fills slots only inside the window, each with a fitting token; when it completes every mandatory slot is filled, and when it stops early some mandatory slot stayed empty |
| SyntaxParser.TryParse | src/Takenet.Textc/SyntaxParser.cs:8-76 | a match holds one fitting token per slot, fills every mandatory slot, and leaves no text over for a perfect-match syntax |
| SyntaxParser.TryParseDecision | src/Takenet.Textc/SyntaxParser.cs:62-75 | the parser raises exactly when the loop raises; it gives up exactly when a mandatory slot stayed empty or a perfect-match syntax left text over; otherwise the expression holds the loop's tokens and all of the final cursor's remaining text |
| SyntaxParser.AlignOverNullSlots | src/Takenet.Textc/SyntaxParser.cs:20-53 | a window of null slots is passed over leaving the cursor and the tokens unchanged |
| SyntaxParser.NullSlotsMatchAll | src/Takenet.Textc/SyntaxParser.cs:62-68 | a syntax of null slots only, not demanding a perfect match, matches with the whole input as remaining text |
| SyntaxParser.VisitOnEmpty | src/Takenet.Textc/SyntaxParser.cs:25-43 | on an empty input a slot can only be filled from the context, and without a context nothing raises |
| SyntaxParser.AlignOnEmptyCursor | src/Takenet.Textc/SyntaxParser.cs:15-60 | on an empty input every slot the loop fills comes from the context |
| SyntaxParser.AlignOnEmptyWithoutContext | src/Takenet.Textc/SyntaxParser.cs:29-30 | on an empty input without a context the loop raises nothing |
| SyntaxParser.EmptyInputFillsFromContext | src/Takenet.Textc/SyntaxParser.cs:8-76 | every token of a parse of an empty input comes from the context |
| SyntaxParser.EmptyInputWithoutContext | src/Takenet.Textc/SyntaxParser.cs:8-76 | on an empty input without a context a syntax matches exactly when none of its slots is mandatory |
| ParsedInputs.NewParsedInput | src/Takenet.Textc/ParsedInput.cs:11-25 | the constructor fails with an argument-null error exactly when the expression or the processor is missing, and otherwise keeps both |
| ParsedInputs.WriteBack | src/Takenet.Textc/ParsedInput.cs:38-45 | writing tokens back keeps the context's culture |
| ParsedInputs.WriteBackUntouched | src/Takenet.Textc/ParsedInput.cs:38-45 | a variable that no written token names keeps its value |
| ParsedInputs.WriteBackLast | src/Takenet.Textc/ParsedInput.cs:38-45 | a written token's name ends up holding the value of the last written token with that name |
| ParsedInputs.NothingWritten | src/Takenet.Textc/ParsedInput.cs:38-42 | when no token is an input token of a contextual type with a value, the context is returned unchanged |
| ParsedInputs.Submit | src/Takenet.Textc/ParsedInput.cs:31-46 | a cancelled token fails with a cancellation before anything else; otherwise there is a context afterwards exactly when the expression has one, and it is the written-back one |
| Syntaxes.SlotTexts | src/Takenet.Textc/Syntax.cs:52-55 | one text per slot, the slot's own |
| Syntaxes.SlotsToString | src/Takenet.Textc/Syntax.cs:46-59 | a missing slot array renders as the empty string |
| Syntaxes.ClassNameSolid | src/Takenet.Textc/Types/TokenType.cs:17-20 | every kind's class name ends in a letter, so no white space surrounds it |
| Syntaxes.SlotTextSolid | src/Takenet.Textc/Types/TokenType.cs:17-20 | a slot's text has no white space at its ends unless its name starts with white space |
| Syntaxes.SyntaxToStringJoins | src/Takenet.Textc/Syntax.cs:46-59 | with every slot set and no name starting with white space, the rendering is the slot texts joined by single spaces |
| Syntaxes.EmptySyntaxRendersEmpty | src/Takenet.Textc/Syntax.cs:46-59 | a syntax without slots renders as the empty string |
| Scorers.Count | src/Takenet.Textc/Scorers/ExpressionScorer.cs:13-18 | a LINQ count over n elements is at most n |
| Scorers.CountMonotone | src/Takenet.Textc/Scorers/ExpressionScorer.cs:13-18 | counting a weaker predicate never gives less |
| Scorers.CountAll | src/Takenet.Textc/Scorers/ExpressionScorer.cs:13-18 | the count reaches n exactly when every element qualifies |
| Scorers.CountMissing | src/Takenet.Textc/Scorers/ExpressionScorer.cs:13-18 | one element that does not qualify keeps the count below n |
| Scorers.DefaultScore | src/Takenet.Textc/Scorers/ExpressionScorer.cs:7-21 | the default score fails exactly when a slot is null (a null reference) or the syntax has no slots (a division by zero), and is otherwise non-negative |
| Scorers.DefaultPartsBounded | src/Takenet.Textc/Scorers/ExpressionScorer.cs:12-18 | each part of the points is bounded by its part of the maximum |
| Scorers.DefaultScoreBounded | src/Takenet.Textc/Scorers/ExpressionScorer.cs:7-21 | for an expression the parser could return, the default score lies between 0 and 1 |
| Scorers.DefaultScoreOne | src/Takenet.Textc/Scorers/ExpressionScorer.cs:7-21 | the default score is 1 exactly when every slot was filled from the input |
| Scorers.AllFromInputIsFull | src/Takenet.Textc/Scorers/ExpressionScorer.cs:12-18 | an expression filled entirely from the input earns the maximum points |
| Scorers.DefaultScoreMonotone | src/Takenet.Textc/Scorers/ExpressionScorer.cs:7-21 | filling an empty slot, or taking a filled one from the input instead of the context, never lowers the default score |
| Scorers.DefaultPointsMonotone | src/Takenet.Textc/Scorers/ExpressionScorer.cs:15-18 | the same for the points before division |
| Scorers.RatioScore | src/Takenet.Textc/Scorers/RatioExpressionScorer.cs:18-36 | a null slot, or a null token when free text is counted, fails with a null reference; it fails otherwise exactly when the maximum is zero; a score is non-negative |
| Scorers.TextPartBounded | src/Takenet.Textc/Scorers/RatioExpressionScorer.cs:27-33 | the free-text tokens are no more than the free-text slots |
| Scorers.RatioScoreBounded | src/Takenet.Textc/Scorers/RatioExpressionScorer.cs:18-36 | the ratio score lies between 0 and 1 |
| Scorers.RatioIgnoringCap | src/Takenet.Textc/Scorers/RatioExpressionScorer.cs:13-35 | when free-text matches are ignored, the default, a syntax with k free-text slots scores at most (max - k) / max |
| Scorers.MatchCountScore | src/Takenet.Textc/Scorers/MatchCountExpressionScorer.cs:18-23 | the match count is at most the number of tokens |
| Scorers.MatchCountIgnoring | src/Takenet.Textc/Scorers/MatchCountExpressionScorer.cs:18-23 | without ignoring, every present token counts; ignoring leaves out exactly the free-text tokens, so it never counts more |
| Scorers.CountSplit | src/Takenet.Textc/Scorers/MatchCountExpressionScorer.cs:20-22 | the present tokens split into the counted ones and the free-text ones |
| Scorers.MaxMatchesScore | src/Takenet.Textc/Scorers/MaxMatchesExpressionScorer.cs:8-14 | the score is at most twice the number of tokens |
| Scorers.MaxMatchesAppend | src/Takenet.Textc/Scorers/MaxMatchesExpressionScorer.cs:8-14 | one more token raises the score by 2 when it comes from the input and is not free text, by 1 otherwise, so the score is not normalized by the syntax's length |
| Scorers.Score | src/Takenet.Textc/Scorers/RatioExpressionScorer.cs:13-16 | the counting scorers never fail; the default and ratio scorers fail only with a null reference or a division by zero |
| TextProcessors.InsertByPriority | src/Takenet.Textc/TextProcessor.cs:75 | one step of the stable sort by priority: the new preprocessor is added once and the run order is kept |
| TextProcessors.PriorityOrder | src/Takenet.Textc/TextProcessor.cs:75 | the preprocessors are each run exactly once, lower priority first and, at equal priority, in the order they were added |
| TextProcessors.Priorities | src/Takenet.Textc/TextProcessor.cs:75 | one priority per preprocessor, its own |
| TextProcessors.InsertLast | src/Takenet.Textc/TextProcessor.cs:55-75 | a preprocessor added with a priority at least everyone's runs last |
| TextProcessors.EqualPrioritiesKeepOrder | src/Takenet.Textc/TextProcessor.cs:75 | preprocessors of equal priority run in the order they were added |
| TextProcessors.LowerPriorityFirst | src/Takenet.Textc/TextProcessor.cs:73-79 | of two preprocessors the lower priority runs first, whatever the order they were added in, and its output is the other's input |
| TextProcessors.AttemptCursor | src/Takenet.Textc/TextProcessor.cs:88-90 | before each attempt the cursor takes the syntax's direction and is reset to the whole preprocessed input |
| TextProcessors.AttemptCursorForgets | src/Takenet.Textc/TextProcessor.cs:88-90 | so nothing an earlier attempt did to the shared cursor is seen by the next one |
| TextProcessors.Attempt | src/Takenet.Textc/TextProcessor.cs:88-92 | an attempt raises only an invalid cast or a null reference, and a match it returns is of that syntax in that context |
| TextProcessors.Attempts | src/Takenet.Textc/TextProcessor.cs:82-92 | every syntax is tried from the same cursor over the preprocessed input |
| TextProcessors.FirstMatch | src/Takenet.Textc/TextProcessor.cs:86-98 | the inner loop stops at the first eligible syntax that matches, having passed over every earlier one because it was of another culture or did not match; with no match every syntax was passed over |
| TextProcessors.ProcessorMatch | src/Takenet.Textc/TextProcessor.cs:84-98 | a processor without syntaxes contributes nothing; filtering syntaxes by culture without a context raises a null reference |
| TextProcessors.Matches | src/Takenet.Textc/TextProcessor.cs:84-99 | the outer loop succeeds exactly when every processor's attempt does, and then holds each processor's first match in order |
| TextProcessors.Candidates | src/Takenet.Textc/TextProcessor.cs:81-95 | the parsed inputs line up with the processors: one exactly where that processor matched, holding its expression and processor |
| TextProcessors.Rank | src/Takenet.Textc/TextProcessor.cs:102-104 | ranking succeeds exactly when every candidate is scored, and each candidate's keys are its score and its count of present tokens |
| TextProcessors.Best | src/Takenet.Textc/TextProcessor.cs:102-105 | the pick is empty exactly when there are no candidates; otherwise no candidate outranks it and it outranks every earlier one, so ties go to the first |
| TextProcessors.BaseCursor | src/Takenet.Textc/TextProcessor.cs:73-82 | the cursor is built over the preprocessed text with the request context |
| TextProcessors.Select | src/Takenet.Textc/TextProcessor.cs:81-114 | a failure is an invalid cast, a null reference, a division by zero or "no match" for this input; a winner belongs to the processor at its index |
| TextProcessors.Process | src/Takenet.Textc/TextProcessor.cs:65-114 | a null input fails with an argument-null error and only then; a blank one fails with an argument error; otherwise the result is the selection over the preprocessed input, and "no match" carries the original input |
| TextProcessors.KeyOf | src/Takenet.Textc/TextProcessor.cs:103-104 | the sort keys of an expression are its score and its count of present tokens |
| TextProcessors.RunSucceeded | src/Takenet.Textc/TextProcessor.cs:84-105 | a successful run went through every processor's attempts and scored every candidate, and the winner is the best-ranked one |
| TextProcessors.ProcessWinner | src/Takenet.Textc/TextProcessor.cs:86-109 | the winner is the first match of its processor, of an eligible syntax of that processor, and the context is what writing its tokens back leaves |
| TextProcessors.ProcessRanking | src/Takenet.Textc/TextProcessor.cs:102-105 | no candidate has higher keys than the winner, and every candidate from an earlier processor has lower ones |
| TextProcessors.ProcessNoMatch | src/Takenet.Textc/TextProcessor.cs:107-114 | "no match" with the original input is raised exactly when no processor matched |
| TextProcessors.NothingMatched | src/Takenet.Textc/TextProcessor.cs:111-114 | when no processor matched, "no match" is raised |
| TextProcessors.SomethingMatched | src/Takenet.Textc/TextProcessor.cs:102-110 | when some processor matched or raised, "no match" is not the outcome |
| TextProcessors.MatchesWithoutContext | src/Takenet.Textc/TextProcessor.cs:86 | without a context a processor with a syntax raises a null reference |
| TextProcessors.ProcessWithoutContext | src/Takenet.Textc/TextProcessor.cs:84-114 | without a context nothing can match: a processor with a syntax raises a null reference, and with none the outcome is "no match" |
| SpellCorrection.ShiftMod | src/Takenet.Textc/PreProcessors/SpellCorrect.cs:148-160 | the remainders the two string helpers take are a plain subtraction below twice the length |
| SpellCorrection.From | src/Takenet.Textc/PreProcessors/SpellCorrect.cs:139-149 | the characters from index n on; a negative n counts from the end, one reaching past the start gives the whole string, and an index past the end gives the empty string |
| SpellCorrection.To | src/Takenet.Textc/PreProcessors/SpellCorrect.cs:151-161 | the characters before index n; a negative n drops that many from the end, one reaching past the start gives the empty string, and an index past the end gives the whole string |
| SpellCorrection.ToThenFrom | src/Takenet.Textc/PreProcessors/SpellCorrect.cs:139-161 | the two helpers cut the string at the same place for every n, so their concatenation is the string |
| SpellCorrection.Distinct | src/Takenet.Textc/PreProcessors/SpellCorrect.cs:38-41 | the same words, each once |
| SpellCorrection.DistinctKeeps | src/Takenet.Textc/PreProcessors/SpellCorrect.cs:38-41 | a sequence without repetitions is kept as it is |
| SpellCorrection.Union | src/Takenet.Textc/PreProcessors/SpellCorrect.cs:38-41 | the union holds exactly the words of either side, each once |
| SpellCorrection.Deletes | src/Takenet.Textc/PreProcessors/SpellCorrect.cs:24-27 | one word per character, with that character removed |
| SpellCorrection.Transposes | src/Takenet.Textc/PreProcessors/SpellCorrect.cs:28-30 | one word per pair of neighbours, with the pair swapped |
| SpellCorrection.FlattenLength | src/Takenet.Textc/PreProcessors/SpellCorrect.cs:31-36 | flattening rows of equal length n gives n times as many words |
| SpellCorrection.InFlatten | src/Takenet.Textc/PreProcessors/SpellCorrect.cs:31-36 | a word is in the flattened rows exactly when some row holds it |
| SpellCorrection.Grid | src/Takenet.Textc/PreProcessors/SpellCorrect.cs:31-36 | one word per split and letter |
| SpellCorrection.InGrid | src/Takenet.Textc/PreProcessors/SpellCorrect.cs:31-36 | the grid holds exactly the words made at some split with some letter |
| SpellCorrection.Replaces | src/Takenet.Textc/PreProcessors/SpellCorrect.cs:31-33 | 26 words per character |
| SpellCorrection.Inserts | src/Takenet.Textc/PreProcessors/SpellCorrect.cs:34-36 | 26 words per character, since every split point lies inside the word |
| SpellCorrection.Edits | src/Takenet.Textc/PreProcessors/SpellCorrect.cs:20-42 | the edits are listed without repetitions |
| SpellCorrection.DeletesAre | src/Takenet.Textc/PreProcessors/SpellCorrect.cs:24-27 | the deletions are exactly the words with one character removed |
| SpellCorrection.TransposesAre | src/Takenet.Textc/PreProcessors/SpellCorrect.cs:28-30 | the transpositions are exactly the words with two neighbours swapped |
| SpellCorrection.ReplacerAt | src/Takenet.Textc/PreProcessors/SpellCorrect.cs:33 | at a split inside the word the character there is replaced by the letter |
| SpellCorrection.ReplacesAre | src/Takenet.Textc/PreProcessors/SpellCorrect.cs:31-33 | the replacements are exactly the words with one character replaced by a lower-case letter |
| SpellCorrection.InsertsAre | src/Takenet.Textc/PreProcessors/SpellCorrect.cs:34-36 | the insertions are exactly the words with a lower-case letter inserted before one of the characters |
| SpellCorrection.EditsAre | src/Takenet.Textc/PreProcessors/SpellCorrect.cs:20-42 | the edits are exactly the words one deletion, transposition, replacement or insertion away |
| SpellCorrection.EditLength | src/Takenet.Textc/PreProcessors/SpellCorrect.cs:20-42 | an edit changes the length by at most one |
| SpellCorrection.NoEditsOfEmpty | src/Takenet.Textc/PreProcessors/SpellCorrect.cs:22-23 | the empty word has no split point, so it has no edits, not even insertions |
| SpellCorrection.Occurrences | src/Takenet.Textc/PreProcessors/SpellCorrect.cs:108-110 | a word occurs zero times exactly when it is absent |
| SpellCorrection.OccurrencesCount | src/Takenet.Textc/PreProcessors/SpellCorrect.cs:109-110 | a word's occurrences are the number of positions that hold it, the `Count()` of its group |
| SpellCorrection.CorpusOf | src/Takenet.Textc/PreProcessors/SpellCorrect.cs:106-111 | the corpus holds exactly the lower-cased sample words, and each word's rank is the number of sample positions whose word lower-cases to it (so at least one) |
| SpellCorrection.ExtractWords | src/Takenet.Textc/PreProcessors/SpellCorrect.cs:129-134 | the extracted words are non-empty runs of ASCII letters |
| SpellCorrection.TextCorpusWords | src/Takenet.Textc/PreProcessors/SpellCorrect.cs:102-111 | a corpus built from a text holds only non-empty lower-case words |
| SpellCorrection.Known | src/Takenet.Textc/PreProcessors/SpellCorrect.cs:124-127 | the known words are exactly the given words the corpus holds, in their order |
| SpellCorrection.InsertByRank | src/Takenet.Textc/PreProcessors/SpellCorrect.cs:55 | one step of the stable sort keeps the same words plus the new one, and puts it in front only when it outranks the head |
| SpellCorrection.InsertDescending | src/Takenet.Textc/PreProcessors/SpellCorrect.cs:55 | inserting into a sequence sorted by descending rank keeps it sorted |
| SpellCorrection.SortByRank | src/Takenet.Textc/PreProcessors/SpellCorrect.cs:54-63 | sorting by descending rank is a permutation that is sorted |
| SpellCorrection.FirstBest | src/Takenet.Textc/PreProcessors/SpellCorrect.cs:55-63 | the first position holding the highest rank |
| SpellCorrection.SortedHead | src/Takenet.Textc/PreProcessors/SpellCorrect.cs:54-76 | the sort's head is the first of the highest-ranked words, as a stable sort gives |
| SpellCorrection.SecondPass | src/Takenet.Textc/PreProcessors/SpellCorrect.cs:58-61 | the second pass holds only known words |
| SpellCorrection.SecondPassHolds | src/Takenet.Textc/PreProcessors/SpellCorrect.cs:58-61 | a word is in the second pass exactly when the corpus knows it and it is an edit of one of the edits |
| SpellCorrection.SortKeepsKnown | src/Takenet.Textc/PreProcessors/SpellCorrect.cs:54-55 | sorting keeps a list of known words a list of known words of the same length |
| SpellCorrection.Corrections | src/Takenet.Textc/PreProcessors/SpellCorrect.cs:44-65 | a known word is its own only correction; the corrections are non-empty and known; there are none exactly when the word is unknown and nothing known is one or two edits away |
| SpellCorrection.Correct | src/Takenet.Textc/PreProcessors/SpellCorrect.cs:67-80 | a correction is a known word; a known word is its own correction; there is none exactly when there are no corrections |
| SpellCorrection.CorrectOneEdit | src/Takenet.Textc/PreProcessors/SpellCorrect.cs:50-76 | an unknown word with a known word one edit away is corrected to the first of the highest-ranked such words |
| SpellCorrection.CorrectIsBest | src/Takenet.Textc/PreProcessors/SpellCorrect.cs:44-80 | for an unknown word with a known edit, the correction is itself an edit and no known edit outranks it |
| SpellCorrection.CorrectTwoEdits | src/Takenet.Textc/PreProcessors/SpellCorrect.cs:58-76 | with no known word one edit away, the correction is the first of the highest-ranked known words two edits away |
| SpellCorrection.NoCorrection | src/Takenet.Textc/PreProcessors/SpellCorrect.cs:63-79 | a word with nothing known within two edits stays uncorrected |
| SpellCorrectPreProcessors.CorrectWord | src/Takenet.Textc/PreProcessors/SpellCorrectPreProcessor.cs:56-76 | a word that parses as a decimal, has at most one character, is known, or has no correction is kept; otherwise it becomes its correction, which the corpus knows |
| SpellCorrectPreProcessors.CorrectWords | src/Takenet.Textc/PreProcessors/SpellCorrectPreProcessor.cs:56-77 | one word out per word in, each corrected on its own |
| SpellCorrectPreProcessors.ProcessTextWords | src/Takenet.Textc/PreProcessors/SpellCorrectPreProcessor.cs:50-80 | a text of words separated by single spaces comes back as the corrected words joined by single spaces |
| SpellCorrectPreProcessors.KnownTextUnchanged | src/Takenet.Textc/PreProcessors/SpellCorrectPreProcessor.cs:50-80 | a text of known words, numbers and single characters comes back unchanged |
| SpellCorrectPreProcessors.AsPreProcessor | src/Takenet.Textc/PreProcessors/SpellCorrectPreProcessor.cs:12-82 | a running instance keeps its own priority and corrects with the shared corpus, whatever the request context |
| SpellCorrectPreProcessors.FromText | src/Takenet.Textc/PreProcessors/SpellCorrectPreProcessor.cs:29-35 | the constructor from a text keeps the priority and stores a corpus of non-empty lower-case letter runs in the shared field |
| SpellCorrectPreProcessors.FromWords | src/Takenet.Textc/PreProcessors/SpellCorrectPreProcessor.cs:42-48 | the constructor from a word list keeps the priority and stores a corpus knowing every sample word lower-cased |
| SpellCorrectPreProcessors.LastBuiltCorpusWins | src/Takenet.Textc/PreProcessors/SpellCorrectPreProcessor.cs:12-65 | once a second instance is built, both instances correct with its corpus and differ only in priority |
| Runs.RunLength | src/Takenet.Textc/Splitters/PunctuationTextSplitter.cs:18-19 | the leading run is free of separators and ends at a separator or the end of the text |
| Runs.Kept | src/Takenet.Textc/Splitters/PunctuationTextSplitter.cs:18-19 | the text with its separators deleted is no longer and holds no separator |
| Runs.KeptAppend | src/Takenet.Textc/Splitters/PunctuationTextSplitter.cs:18-19 | deleting separators distributes over concatenation |
| Runs.KeptSingle | src/Takenet.Textc/Splitters/PunctuationTextSplitter.cs:18-19 | a single character is kept exactly when it is not a separator; with `Runs.KeptAppend` this fixes the kept text as the non-separators of the text in their order |
| Runs.KeptCounts | src/Takenet.Textc/Splitters/PunctuationTextSplitter.cs:18-19 | a separator never occurs in the kept text, and every other character occurs exactly as often as in the text |
| Runs.Pieces | src/Takenet.Textc/Splitters/PunctuationTextSplitter.cs:18-19 | the pieces are non-empty, free of separators, and together are the text with its separators deleted |
| Runs.PiecesAtSeparator | src/Takenet.Textc/Splitters/PunctuationTextSplitter.cs:18-19 | splitting at a separator gives the pieces of the text before it followed by those of the text after it |
| Runs.PiecesOfRun | src/Takenet.Textc/Splitters/PunctuationTextSplitter.cs:18-19 | a non-empty run without separators is one piece |
| Runs.PiecesAfterSeparators | src/Takenet.Textc/Splitters/PunctuationTextSplitter.cs:18-19 | separators in front change no piece, since empty entries are removed |
| Runs.PiecesOfLayout | src/Takenet.Textc/Splitters/PunctuationTextSplitter.cs:18-19 | any text made of separator gaps around non-empty separator-free pieces, with a non-empty gap between neighbours, splits into exactly those pieces, so no piece is cut and no two are merged |
| PunctuationSplitter.Split | src/Takenet.Textc/Splitters/PunctuationTextSplitter.cs:8-19 | a null input gives null and only then; the pieces are non-empty, free of the six markers, and together are the input with its markers deleted |
| PunctuationSplitter.SplitIsMaximalRuns | src/Takenet.Textc/Splitters/PunctuationTextSplitter.cs:8-19 | the splitter answers with the maximal marker-free runs of any text laid out from them |
| PunctuationSplitter.SplitSentences | src/Takenet.Textc/Splitters/PunctuationTextSplitter.cs:8-19 | two sentences joined by a marker come back apart |
| Strings.TrimStart | src/Takenet.Textc/Csdl/CsdlSyntax.cs:27 | no longer than the text, and not starting with white space |
| Strings.TrimEnd | src/Takenet.Textc/Csdl/CsdlSyntax.cs:27 | no longer than the text, and not ending with white space |
| Strings.TrimStartSuffix | src/Takenet.Textc/Csdl/CsdlSyntax.cs:27 | trimming the start keeps a suffix of the text and drops only white space |
| Strings.TrimEndPrefix | src/Takenet.Textc/Csdl/CsdlSyntax.cs:27 | trimming the end keeps a prefix of the text and drops only white space |
| Strings.Trim | src/Takenet.Textc/Types/TextTokenType.cs:44 | the trimmed text has no white space at either end, and is empty exactly when the text is blank |
| Strings.TrimChars | src/Takenet.Textc/Types/TextTokenType.cs:44 | every character of the trimmed text comes from the text |
| Strings.TrimStartChar | src/Takenet.Textc/Csdl/CsdlSyntax.cs:33 | exactly the leading run of the character is removed |
| Strings.TrimEndChar | src/Takenet.Textc/Csdl/CsdlToken.cs:187 | exactly the trailing run of the character is removed |
| Strings.Fold | src/Takenet.Textc/Types/TextTokenType.cs:69-74 | the lower-cased text has the same length, character by character |
| Strings.Upper | src/Takenet.Textc/Types/SoundexWordTokenType.cs:51 | the upper-cased text has the same length, character by character |
| Strings.Join | src/Takenet.Textc/TextCursor.cs:44-59 | joining no parts gives the empty string, and one part gives that part |
| Strings.IndexOf | src/Takenet.Textc/Csdl/CsdlToken.cs:172 | the first index of the character, or -1 exactly when it does not occur |
| Strings.LastIndexOf | src/Takenet.Textc/Csdl/CsdlToken.cs:200 | the last index of the character, or -1 exactly when it does not occur |
| Strings.Split | src/Takenet.Textc/PreProcessors/SpellCorrectPreProcessor.cs:52 | at least one piece, none holding the separator, and joining the pieces with it gives the text back |
| Strings.Remove | src/Takenet.Textc/TextCursor.cs:32 | the character no longer occurs, every other character occurs exactly as often as before, and the text is no longer; it is `Runs.Kept` with the character as the only separator, so the kept characters stay in order |
| Strings.NatToString | src/Takenet.Textc/Csdl/CsdlToken.cs:152 | a natural number prints as at least one digit and only digits |
| Strings.TrimLeadingSpace | src/Takenet.Textc/Types/TextTokenType.cs:40-44 | trimming a space in front of a word with no white space at its ends gives the word |
| Strings.TrimTrailingSpace | src/Takenet.Textc/Types/TextTokenType.cs:40-44 | trimming a space after such a word gives the word |
| Strings.JoinSolid | src/Takenet.Textc/TextCursor.cs:44-59 | words without white space at their ends joined by spaces have none at their ends either |
| Strings.JoinSnoc | src/Takenet.Textc/TextCursor.cs:44-59 | joining is the join of all but the last part, a space, and the last part |
| Strings.SpaceTerminatedJoin | src/Takenet.Textc/Syntax.cs:52-58 | every part followed by a space is the parts joined by spaces plus a final space |
| Strings.IndexOfAfter | src/Takenet.Textc/Csdl/CsdlToken.cs:172 | the first occurrence after a prefix without the character is at the prefix's length |
| Strings.SplitCons | src/Takenet.Textc/PreProcessors/SpellCorrectPreProcessor.cs:52 | splitting cuts off a leading part without the separator |
| Strings.SplitJoin | src/Takenet.Textc/PreProcessors/SpellCorrectPreProcessor.cs:52 | splitting undoes joining when no part holds the separator |
| Strings.TrimSpaceTerminated | src/Takenet.Textc/PreProcessors/SpellCorrectPreProcessor.cs:71-79 | words without white space at their ends, each followed by a space, trimmed, are the words joined by single spaces |
| Numbers.ParseIntegerText | src/Takenet.Textc/Types/ValueTokenTypeBase.cs:81-93 | text that parses as an integer starts, once trimmed, with a digit or a sign |
| Numbers.ParseInteger | src/Takenet.Textc/Types/ValueTokenTypeBase.cs:81-93 | a parsed value lies in the width's range, and a value outside it is an overflow that does not parse |
| Numbers.DigitsOfNat | src/Takenet.Textc/Types/ValueTokenTypeBase.cs:81-93 | the digits printed for a natural number read back as that number |
| Numbers.ParseNonNegative | src/Takenet.Textc/Types/ValueTokenTypeBase.cs:81-93 | a non-negative in-range number printed and parsed comes back |
| Numbers.ParseNegative | src/Takenet.Textc/Types/ValueTokenTypeBase.cs:81-93 | a negative in-range number printed and parsed comes back |
| Numbers.FormatParseRoundTrip | src/Takenet.Textc/Types/ValueTokenTypeBase.cs:81-93 | printing an in-range integer and parsing it back gives the integer |
| Numbers.TrimmedIsSelf | src/Takenet.Textc/Types/ValueTokenTypeBase.cs:81-93 | text with no white space at its ends is its own trim |
| Numbers.NoDigitsNoNumber | src/Takenet.Textc/Types/ValueTokenTypeBase.cs:81-93 | a word without digits never parses, so the integer kinds treat it as no match rather than an error |
| CsdlSyntaxes.RenderedText | src/Takenet.Textc/Csdl/CsdlSyntax.cs:53-83 | rendering plain tokens gives their texts joined by spaces, bracketed when a perfect match is demanded and anchored on the parsing side |
| CsdlSyntaxes.ParseRendered | src/Takenet.Textc/Csdl/CsdlSyntax.cs:19-51 | parsing such a rendered text recovers the direction, the perfect-match flag and the tokens of its body |
| CsdlTokens.FromTextWithoutInitializer | src/Takenet.Textc/Csdl/CsdlToken.cs:163-244 | a unit without an initializer takes its name and contextual flag from the left of its first colon and its kind and flags from the right |
| TextCursors.RenderJoins | src/Takenet.Textc/TextCursor.cs:44-59 | the cursor's text is the words between its ends joined by single spaces |
| Levenshtein.SelfDistance | src/Takenet.Textc/Types/StringExtensions.cs:14-46 | a string is at distance zero from itself |

## Left out

- Strings.Fold, Strings.EqualsIgnoreCase and Strings.IsWhiteSpace: these are ASCII-only. The source compares with `StringComparison.InvariantCultureIgnoreCase`, `OrdinalIgnoreCase` and culture-aware `ToLower`/`ToUpper`, and its white space is Unicode white space. Culture and Unicode tables are outside the model.
- Scorers.DefaultScore and Scorers.RatioScore: C# `decimal` is an exact `real`, so scores are exact rationals and decimal division rounding is lost.
- Regular expressions (`Regex.IsMatch`, pattern validity), `decimal.Parse`/`decimal.TryParse` and JSON decoding (`JObject.Parse`, `JArray`) are `Oracles` parameters. The .NET implementations are external libraries.
- CsdlProperties.JsonFailure: every JSON failure, whether a malformed initializer or a conversion error inside the deserializer, is the single `JsonReader` error, without the reader's position or message; CsdlTokens.InitializerEntries and CsdlProperties.SetValidValues report it the same way.
- Reflection is replaced by explicit tables, and `Convert.ChangeType` by explicit parsers:
  - property setting through `TokenTypePropertyAttribute`;
  - kind discovery through assembly scanning (`CsdlParser.cs:19-51` is a fixed registry here);
  - `ActivatorTokenTypeFactory`.
- Numbers.ParseInteger: integer parsing follows the invariant culture only.
- `CreateBasicSyntaxForMethod` (`CsdlParser.cs:144-175`): it reads method signatures through reflection.
- Asynchrony is dropped: `ProcessAsync`, `ProcessTextAsync`, `SubmitAsync` and `ConfigureAwait` are synchronous functions. Cancellation is a boolean flag.
- Command dispatch is not modelled, because it uses reflection, `DynamicInvoke` and `dynamic` task results:
  - `ICommandProcessor.ProcessAsync`;
  - the `dynamic` task-result extraction and output processors (`ParsedInput.cs:48-62`);
  - `DelegateCommandProcessor`, `ReflectionCommandProcessor`, `TypeUtil` and `HttpCommandProcessor`.
- The `TextProcessor` constructors' argument-null checks are not modelled. `AddTextPreProcessor` and `AddCommandProcessor` only append to lists, which are sequence parameters here.
- The `Uri` constructors of the spelling preprocessor are not modelled. They read the sample with `File.ReadAllText`, which is file I/O; the model starts from the text they read.
- TokenTypes.KindInput: a fuzzy `LDText` slot answers with the first vocabulary entry within `MaxDistance` of the accepted query (TextKinds.TextInput), which its unit tests expect. The code answers with the query itself (TextKinds.TextInputAsWritten, `LevenshteinDistanceTextTokenType.cs:19-27`). The cursor movement and whether the slot matches are the code's, so only the value stored for an `LDText` slot differs from the program; `SyntaxParser.TryParse` and `TextProcessors.Process` inherit this corrected answer.
- SpellCorrection.From and SpellCorrection.To: the `null` string case (`return null`) is not modelled, because every caller passes a non-null word.
- PunctuationSplitter.Split: its own contract gives non-empty, marker-free pieces whose concatenation is the input without markers. Maximality is stated from the other side, by `PunctuationSplitter.SplitIsMaximalRuns` and `Runs.PiecesOfLayout`: a text laid out from pieces with markers between them splits into exactly those pieces. That every text has such a layout is not proved.
- The CSDL unit `K?~` is modelled as the code reads it. `TrimEnd('~')` runs after the optional check, so the unit is inverted, not optional, and has the kind name `K?`.
- `DoubleMetaphoneWordTokenType` is not part of this model; its implementation is not available.
- `TextNormalizerPreProcessor`, `DictionaryReplacerPreProcessor`, `JoinWordsPreProcessor`, `ToLowerCasePreProcessor`, `TrimTextPreprocessor` and `RequestContextExtensions` are not modelled. They are thin wrappers over library calls or rely on Unicode normalization.
- `RedisRequestContext` is network I/O and `SynchronizedCollectionWrapper` is locking; neither is modelled.
- Of the older Takenet.Text library only `TextTokenType` is modelled. Its other files repeat the Textc logic, or do not compile against each other.
- Samples, console loops and test fixtures are not modelled.

## Findings

| source | as written | input that shows it | evidently intended | confidence | as-written member | corrected member |
|---|---|---|---|---|---|---|
| src/Takenet.Textc/Types/LevenshteinDistanceTextTokenType.cs:19-27 | the fuzzy free-text kind accepts a query when some entry is within `MaxDistance` edits, but answers with the query as typed | vocabulary `this is other sample`, `this is a sample`; input `this is an sample` (the unit test at src/Takenet.Textc.UnitTests/Types/LevenshteinDistanceTextTokenTypeTests.cs:15-33) | the answer is the vocabulary entry `this is a sample`, as the test asserts | not executed | TextKindExamples.NearMissAsWritten | TextKindExamples.NearMissCorrected |
