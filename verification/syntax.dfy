/** Syntax.cs, Token.cs and Expression.cs: the slots a text is parsed
    against, and what a successful parse yields. */
module Syntaxes {
  import opened Wrappers
  import opened Strings
  import opened Values
  import opened RequestContexts
  import opened Kinds

  /** A syntax: one slot per token type (a slot may be `null`), the parsing
      direction, whether the whole input must be consumed, and the culture
      it applies to. The record is immutable, so the flags cannot change
      once it is built. */
  datatype Syntax = Syntax(
    tokenTypes: seq<Option<TokenType>>,
    rightToLeft: bool,
    perfectMatchOnly: bool,
    culture: Culture)

  /** Where a token's value came from. */
  datatype TokenSource = InputSource | ContextSource

  datatype Token = Token(value: Value, source: TokenSource, tokenType: TokenType)

  /** One token per slot (`None` for a slot left empty), the text left over
      after the last slot, the syntax and the request context. */
  datatype Expression = Expression(
    tokens: seq<Option<Token>>,
    remainingText: string,
    syntax: Syntax,
    context: Option<RequestContext>)

  /** `AppendFormat("{0} ", slot)` writes nothing for a `null` slot. */
  function SlotText(slot: Option<TokenType>): string {
    if slot.None? then [] else TokenTypeToString(slot.value)
  }

  function SlotTexts(slots: seq<Option<TokenType>>): (r: seq<string>)
    ensures |r| == |slots|
    ensures forall i :: 0 <= i < |slots| ==> r[i] == SlotText(slots[i])
  {
    seq(|slots|, i requires 0 <= i < |slots| => SlotText(slots[i]))
  }

  /** `Syntax.ToString` over a slot array that may itself be `null`: each
      slot's text followed by a space, the whole trimmed. */
  function SlotsToString(slots: Option<seq<Option<TokenType>>>): (r: string)
    ensures slots.None? ==> r == []
  {
    if slots.None? then [] else Trim(SpaceTerminated(SlotTexts(slots.value)))
  }

  function SyntaxToString(s: Syntax): string {
    SlotsToString(Some(s.tokenTypes))
  }

  /** Every class name ends in a letter. */
  lemma ClassNameSolid(c: KindClass)
    ensures Solid(ClassName(c))
  {
  }

  /** A slot's text has no white space at its ends unless the slot's name
      starts with white space. */
  lemma SlotTextSolid(t: TokenType)
    requires t.name == [] || !IsWhiteSpace(t.name[0])
    ensures Solid(TokenTypeToString(t))
  {
    var s := TokenTypeToString(t);
    var cn := ClassName(ClassOf(t.kind));
    ClassNameSolid(ClassOf(t.kind));
    assert s[|s| - 1] == cn[|cn| - 1];
    if t.name == [] {
      assert s[0] == ':';
    } else {
      assert s[0] == t.name[0];
    }
  }

  /** When every slot is set and no name starts with white space, the
      rendering is the slots' `Name:ClassName` texts separated by single
      spaces, with nothing before the first or after the last. */
  lemma SyntaxToStringJoins(s: Syntax)
    requires s.tokenTypes != []
    requires forall i :: 0 <= i < |s.tokenTypes| ==> s.tokenTypes[i].Some?
    requires forall i :: 0 <= i < |s.tokenTypes| ==>
      s.tokenTypes[i].value.name == [] || !IsWhiteSpace(s.tokenTypes[i].value.name[0])
    ensures SyntaxToString(s) == Join(' ', SlotTexts(s.tokenTypes))
  {
    var ws := SlotTexts(s.tokenTypes);
    forall i | 0 <= i < |ws|
      ensures Solid(ws[i])
    {
      SlotTextSolid(s.tokenTypes[i].value);
    }
    JoinSolid(ws);
    SpaceTerminatedJoin(ws);
    TrimTrailingSpace(Join(' ', ws));
  }

  /** A syntax without slots renders as the empty string. */
  lemma EmptySyntaxRendersEmpty(s: Syntax)
    requires s.tokenTypes == []
    ensures SyntaxToString(s) == []
  {
    assert SpaceTerminated(SlotTexts(s.tokenTypes)) == [];
  }
}
