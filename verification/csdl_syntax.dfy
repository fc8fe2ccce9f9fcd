/** CsdlSyntax.cs: a whole CSDL pattern (direction anchor, perfect-match
    brackets, units), the constructor that renders units back to text, and
    the conversion to a `Syntax` through the kind registry. */
module CsdlSyntaxes {
  import opened Wrappers
  import opened Errors
  import opened Strings
  import opened Numbers
  import opened RequestContexts
  import opened Kinds
  import opened Syntaxes
  import opened Env
  import opened CsdlTokens
  import opened CsdlProperties

  datatype CsdlSyntax = CsdlSyntax(
    syntaxText: string,
    rightToLeft: bool,
    perfectMatchOnly: bool,
    tokens: seq<CsdlToken>)

  /** The direction anchor: a leading `^` (every one removed) parses left to
      right and wins over a trailing `^` (every one removed), which parses
      right to left; with neither the text is unchanged. */
  function Anchored(t: string): (r: (string, bool))
    requires t != []
    ensures r.1 <==> t[0] != '^' && t[|t| - 1] == '^'
    ensures t[0] == '^' ==> r.0 == TrimStartChar(t, '^')
    ensures r.1 ==> r.0 == TrimEndChar(t, '^')
    ensures t[0] != '^' && t[|t| - 1] != '^' ==> r.0 == t
  {
    if t[0] == '^' then (TrimStartChar(t, '^'), false)
    else if t[|t| - 1] == '^' then (TrimEndChar(t, '^'), true)
    else (t, false)
  }

  /** The perfect-match brackets: text that starts with `[` and ends with `]`
      loses every leading `[` and every trailing `]`. */
  function Bracketed(t: string): (r: (string, bool))
    ensures r.1 <==> |t| > 0 && t[0] == '[' && t[|t| - 1] == ']'
    ensures r.1 ==> |r.0| + 2 <= |t| && (r.0 == [] || (r.0[0] != '[' && r.0[|r.0| - 1] != ']'))
    ensures !r.1 ==> r.0 == t
  {
    if |t| > 0 && t[0] == '[' && t[|t| - 1] == ']' then
      var inner := TrimStartChar(t, '[');
      assert inner != [] ==> inner[|inner| - 1] == ']';
      var r := TrimEndChar(inner, ']');
      assert r != [] ==> r[0] == inner[0];
      (r, true)
    else (t, false)
  }

  /** The trimmed pattern split into its unit text, its direction and its
      perfect-match flag. */
  function Layout(t: string): (r: (string, bool, bool))
    requires t != []
    ensures r.1 == Anchored(t).1 && r.2 == Bracketed(Anchored(t).0).1
  {
    var a := Anchored(t);
    var b := Bracketed(a.0);
    (Trim(b.0), a.1, b.1)
  }

  /** The pattern constructor. */
  function FromPattern(parseJsonObject: string -> Option<seq<(string, string)>>, syntaxText: string): (r: Result<CsdlSyntax, Error>)
    ensures IsBlank(syntaxText) <==> r == Failure(ArgumentNull)
    ensures !IsBlank(syntaxText) ==>
      var l := Layout(Trim(syntaxText));
      var tokens := GetTokensFromPattern(parseJsonObject, l.0);
      && (r.Success? <==> tokens.Success?)
      && (r.Success? ==> r.value == CsdlSyntax(syntaxText, l.1, l.2, tokens.value))
  {
    if IsBlank(syntaxText) then Failure(ArgumentNull)
    else
      var l := Layout(Trim(syntaxText));
      match GetTokensFromPattern(parseJsonObject, l.0)
      case Failure(e) =>
        assert e != ArgumentNull;
        Failure(e)
      case Success(tokens) => Success(CsdlSyntax(syntaxText, l.1, l.2, tokens))
  }

  function TokenTexts(tokens: seq<CsdlToken>): (r: seq<string>)
    ensures |r| == |tokens|
    ensures forall i :: 0 <= i < |tokens| ==> r[i] == tokens[i].tokenText
  {
    seq(|tokens|, i requires 0 <= i < |tokens| => tokens[i].tokenText)
  }

  /** The render constructor: each unit's text followed by a space, the whole
      trimmed, wrapped in brackets for a perfect match, then followed by `^`
      for right to left. A `null` unit array is rejected. */
  function Render(rightToLeft: bool, perfectMatchOnly: bool, tokens: Option<seq<CsdlToken>>): (r: Result<CsdlSyntax, Error>)
    ensures tokens.None? <==> r == Failure(ArgumentNull)
    ensures r.Success? ==>
      && r.value.rightToLeft == rightToLeft && r.value.perfectMatchOnly == perfectMatchOnly
      && r.value.tokens == tokens.value
    ensures r.Success? ==>
      var body := Trim(SpaceTerminated(TokenTexts(tokens.value)));
      var bracketed := if perfectMatchOnly then "[" + body + "]" else body;
      r.value.syntaxText == if rightToLeft then bracketed + "^" else bracketed
  {
    if tokens.None? then Failure(ArgumentNull)
    else
      var body := Trim(SpaceTerminated(TokenTexts(tokens.value)));
      Success(CsdlSyntax(Anchor(Bracket(body, perfectMatchOnly), rightToLeft), rightToLeft, perfectMatchOnly, tokens.value))
  }

  /** `ToString`. */
  function CsdlSyntaxToString(s: CsdlSyntax): string {
    s.syntaxText
  }

  /** No two units share a name. */
  predicate DistinctNames(tokens: seq<CsdlToken>) {
    forall i, j :: 0 <= i < j < |tokens| ==> tokens[i].name != tokens[j].name
  }

  /** The slot loop of `GetSyntax` from unit `i` on, `built` holding the
      slots of the units before it: a unit whose name an earlier slot
      already has is rejected before it is converted. */
  function Slots(o: Oracles, registry: map<string, KindClass>, tokens: seq<CsdlToken>, i: nat, built: seq<TokenType>)
    : (r: Result<seq<TokenType>, Error>)
    requires i == |built| <= |tokens|
    requires forall j :: 0 <= j < i ==> built[j].name == tokens[j].name
    requires forall j :: 0 <= j < i ==> ToTokenType(o, registry, tokens[j]) == Success(built[j])
    requires forall j, l :: 0 <= j < l < i ==> tokens[j].name != tokens[l].name
    ensures r.Success? ==> |r.value| == |tokens|
    ensures r.Success? ==> forall j :: 0 <= j < |tokens| ==> ToTokenType(o, registry, tokens[j]) == Success(r.value[j])
    ensures r.Success? ==> DistinctNames(tokens)
    ensures r.Success? <==>
      DistinctNames(tokens) && forall j :: i <= j < |tokens| ==> ToTokenType(o, registry, tokens[j]).Success?
    ensures r.Failure? && (forall j :: i <= j < |tokens| ==> ToTokenType(o, registry, tokens[j]).Success?) ==>
      r.error == InvalidOperation
    decreases |tokens| - i
  {
    if i == |tokens| then Success(built)
    else if exists j :: 0 <= j < i && built[j].name == tokens[i].name then Failure(InvalidOperation)
    else
      match ToTokenType(o, registry, tokens[i])
      case Failure(e) => Failure(e)
      case Success(t) =>
        SlotsExtend(o, registry, tokens, i, built, t);
        Slots(o, registry, tokens, i + 1, built + [t])
  }

  /** One more unit converted keeps what `Slots` expects of `built`. */
  lemma SlotsExtend(o: Oracles, registry: map<string, KindClass>, tokens: seq<CsdlToken>, i: nat, built: seq<TokenType>, t: TokenType)
    requires i == |built| < |tokens|
    requires forall j :: 0 <= j < i ==> built[j].name == tokens[j].name
    requires forall j :: 0 <= j < i ==> ToTokenType(o, registry, tokens[j]) == Success(built[j])
    requires forall j, l :: 0 <= j < l < i ==> tokens[j].name != tokens[l].name
    requires !exists j :: 0 <= j < i && built[j].name == tokens[i].name
    requires ToTokenType(o, registry, tokens[i]) == Success(t)
    ensures forall j :: 0 <= j < i + 1 ==> (built + [t])[j].name == tokens[j].name
    ensures forall j :: 0 <= j < i + 1 ==> ToTokenType(o, registry, tokens[j]) == Success((built + [t])[j])
    ensures forall j, l :: 0 <= j < l < i + 1 ==> tokens[j].name != tokens[l].name
  {
    var b := built + [t];
    forall j | 0 <= j < i + 1
      ensures b[j].name == tokens[j].name && ToTokenType(o, registry, tokens[j]) == Success(b[j])
    {
      if j < i { assert b[j] == built[j]; }
    }
  }

  /** `GetSyntax`: one slot per unit, in order, with the direction, the
      perfect-match flag and the culture copied. */
  function GetSyntax(o: Oracles, registry: map<string, KindClass>, s: CsdlSyntax, culture: Culture): (r: Result<Syntax, Error>)
    ensures r.Success? <==>
      DistinctNames(s.tokens) && forall j :: 0 <= j < |s.tokens| ==> ToTokenType(o, registry, s.tokens[j]).Success?
    ensures (forall j :: 0 <= j < |s.tokens| ==> ToTokenType(o, registry, s.tokens[j]).Success?) && !DistinctNames(s.tokens) ==>
      r == Failure(InvalidOperation)
    ensures r.Success? ==>
      && |r.value.tokenTypes| == |s.tokens|
      && (forall j :: 0 <= j < |s.tokens| ==> r.value.tokenTypes[j] == Some(ToTokenType(o, registry, s.tokens[j]).value))
      && r.value.rightToLeft == s.rightToLeft && r.value.perfectMatchOnly == s.perfectMatchOnly
      && r.value.culture == culture
  {
    match Slots(o, registry, s.tokens, 0, [])
    case Failure(e) => Failure(e)
    case Success(slots) =>
      Success(Syntax(seq(|slots|, j requires 0 <= j < |slots| => Some(slots[j])), s.rightToLeft, s.perfectMatchOnly, culture))
  }

  // ---- Rendering and re-parsing ----

  lemma TrimStartOne(s: string, c: char)
    requires s != [] && s[0] != c
    ensures TrimStartChar([c] + s, c) == s
  {
    assert ([c] + s)[1..] == s;
  }

  lemma TrimEndOne(s: string, c: char)
    requires s != [] && s[|s| - 1] != c
    ensures TrimEndChar(s + [c], c) == s
  {
    assert (s + [c])[..|s|] == s;
  }

  /** A plain unit starts with a letter, a digit or `:` and ends with a
      letter or a digit. */
  lemma PlainUnitEnds(u: string)
    requires PlainUnit(u)
    ensures Solid(u) && (IsAlphaNumeric(u[0]) || u[0] == ':') && IsAlphaNumeric(u[|u| - 1])
  {
    var k := IndexOf(u, ':');
    if k != 0 {
      assert IsAlphaNumeric(u[0]);
    }
    assert IsAlphaNumeric(u[|u| - 1]);
  }

  lemma {:induction false} JoinLast(ws: seq<string>)
    requires ws != [] && ws[|ws| - 1] != []
    ensures |Join(' ', ws)| > 0
    ensures Join(' ', ws)[|Join(' ', ws)| - 1] == ws[|ws| - 1][|ws[|ws| - 1]| - 1]
  {
    if |ws| >= 2 {
      JoinSnoc(ws);
    }
  }

  /** Plain units rendered with single spaces, with nothing to trim and no
      anchor or bracket at either end. */
  lemma RenderedBody(tokens: seq<CsdlToken>)
    requires tokens != [] && forall i :: 0 <= i < |tokens| ==> PlainUnit(tokens[i].tokenText)
    ensures Trim(SpaceTerminated(TokenTexts(tokens))) == Join(' ', TokenTexts(tokens))
    ensures RenderableBody(Join(' ', TokenTexts(tokens)))
  {
    var ws := TokenTexts(tokens);
    forall i | 0 <= i < |ws|
      ensures Solid(ws[i])
    {
      PlainUnitEnds(ws[i]);
    }
    JoinSolid(ws);
    SpaceTerminatedJoin(ws);
    TrimTrailingSpace(Join(' ', ws));
    PlainUnitEnds(ws[0]);
    PlainUnitEnds(ws[|ws| - 1]);
    JoinLast(ws);
  }

  predicate RenderableBody(body: string) {
    Solid(body) && (IsAlphaNumeric(body[0]) || body[0] == ':') && IsAlphaNumeric(body[|body| - 1])
  }

  function Bracket(body: string, perfectMatchOnly: bool): string {
    if perfectMatchOnly then "[" + body + "]" else body
  }

  function Anchor(bracketed: string, rightToLeft: bool): string {
    if rightToLeft then bracketed + "^" else bracketed
  }

  lemma BracketedOfRendered(body: string, perfectMatchOnly: bool)
    requires RenderableBody(body)
    ensures Bracketed(Bracket(body, perfectMatchOnly)) == (body, perfectMatchOnly)
  {
    if perfectMatchOnly {
      assert "[" + body + "]" == ['['] + (body + "]");
      TrimStartOne(body + "]", '[');
      TrimEndOne(body, ']');
    }
  }

  lemma AnchoredOfRendered(body: string, perfectMatchOnly: bool, rightToLeft: bool)
    requires RenderableBody(body)
    ensures var b := Bracket(body, perfectMatchOnly);
      Anchor(b, rightToLeft) != [] && Anchored(Anchor(b, rightToLeft)) == (b, rightToLeft)
  {
    var b := Bracket(body, perfectMatchOnly);
    assert b[0] != '^' && b[|b| - 1] != '^';
    if rightToLeft {
      TrimEndOne(b, '^');
    }
  }

  lemma TrimRendered(body: string, perfectMatchOnly: bool, rightToLeft: bool)
    requires RenderableBody(body)
    ensures var text := Anchor(Bracket(body, perfectMatchOnly), rightToLeft);
      !IsBlank(text) && Trim(text) == text
  {
    var b := Bracket(body, perfectMatchOnly);
    var text := Anchor(b, rightToLeft);
    assert text[0] == b[0];
    assert !IsWhiteSpace(text[|text| - 1]);
    TrimmedIsSelf(text);
  }

  /** The layout of a rendered pattern gives back the body and both flags. */
  lemma LayoutOfRendered(body: string, rightToLeft: bool, perfectMatchOnly: bool)
    requires RenderableBody(body)
    ensures var text := Anchor(Bracket(body, perfectMatchOnly), rightToLeft);
      && !IsBlank(text) && Trim(text) == text
      && Layout(text) == (body, rightToLeft, perfectMatchOnly)
  {
    TrimRendered(body, perfectMatchOnly, rightToLeft);
    AnchoredOfRendered(body, perfectMatchOnly, rightToLeft);
    BracketedOfRendered(body, perfectMatchOnly);
    TrimmedIsSelf(body);
  }

  /** Rendering plain units and parsing the text again gives back the
      direction, the perfect-match flag and the units' texts, in order. */
  lemma RenderThenParse(parseJsonObject: string -> Option<seq<(string, string)>>, rightToLeft: bool, perfectMatchOnly: bool,
                        tokens: seq<CsdlToken>)
    requires tokens != [] && forall i :: 0 <= i < |tokens| ==> PlainUnit(tokens[i].tokenText)
    ensures Render(rightToLeft, perfectMatchOnly, Some(tokens)).Success?
    ensures var p := FromPattern(parseJsonObject, Render(rightToLeft, perfectMatchOnly, Some(tokens)).value.syntaxText);
      && p.Success?
      && p.value.rightToLeft == rightToLeft && p.value.perfectMatchOnly == perfectMatchOnly
      && |p.value.tokens| == |tokens|
      && forall i :: 0 <= i < |tokens| ==> p.value.tokens[i].tokenText == tokens[i].tokenText
  {
    var body := Join(' ', TokenTexts(tokens));
    RenderedText(rightToLeft, perfectMatchOnly, tokens);
    RenderedBody(tokens);
    PlainPatternUnits(parseJsonObject, TokenTexts(tokens));
    ParseRendered(parseJsonObject, body, rightToLeft, perfectMatchOnly);
  }

  lemma RenderedText(rightToLeft: bool, perfectMatchOnly: bool, tokens: seq<CsdlToken>)
    requires tokens != [] && forall i :: 0 <= i < |tokens| ==> PlainUnit(tokens[i].tokenText)
    ensures Render(rightToLeft, perfectMatchOnly, Some(tokens)).Success?
    ensures Render(rightToLeft, perfectMatchOnly, Some(tokens)).value.syntaxText
      == Anchor(Bracket(Join(' ', TokenTexts(tokens)), perfectMatchOnly), rightToLeft)
  {
    RenderedBody(tokens);
  }

  lemma ParseRendered(parseJsonObject: string -> Option<seq<(string, string)>>, body: string, rightToLeft: bool, perfectMatchOnly: bool)
    requires RenderableBody(body) && GetTokensFromPattern(parseJsonObject, body).Success?
    ensures var text := Anchor(Bracket(body, perfectMatchOnly), rightToLeft);
      FromPattern(parseJsonObject, text)
      == Success(CsdlSyntax(text, rightToLeft, perfectMatchOnly, GetTokensFromPattern(parseJsonObject, body).value))
  {
    LayoutOfRendered(body, rightToLeft, perfectMatchOnly);
  }

  /** An empty unit list renders to text the pattern constructor rejects,
      unless a bracket or an anchor was written. */
  lemma EmptyRenderIsBlank(parseJsonObject: string -> Option<seq<(string, string)>>)
    ensures Render(false, false, Some([])).value.syntaxText == []
    ensures FromPattern(parseJsonObject, Render(false, false, Some([])).value.syntaxText) == Failure(ArgumentNull)
  {
    assert SpaceTerminated(TokenTexts([])) == [];
  }
}
