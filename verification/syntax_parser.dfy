/** SyntaxParser.cs: the slots of a syntax are filled from both ends of
    the slot array towards the middle, following the cursor's direction. */
module SyntaxParser {
  import opened Wrappers
  import opened Errors
  import opened Strings
  import opened Values
  import opened RequestContexts
  import opened TextCursors
  import opened Kinds
  import opened ValueKinds
  import opened TokenTypes
  import opened Syntaxes
  import opened Env

  /** The outcome of one slot: the token recorded (if any), whether the
      attempt failed there, and the cursor afterwards. */
  datatype Attempt = Attempt(token: Option<Token>, failed: bool, cursor: Cursor)

  /** A slot that must be filled for the syntax to match. */
  predicate Mandatory(slot: Option<TokenType>) {
    slot.Some? && !slot.value.isOptional
  }

  /** What a recorded token must be: of the slot's type, with a value of the
      kind's type, and when it came from the context, exactly what the
      context answered. */
  predicate Fits(o: Oracles, slot: Option<TokenType>, ctx: Option<RequestContext>, tok: Option<Token>) {
    tok.Some? ==>
      && slot == Some(tok.value.tokenType)
      && OfKindType(tok.value.tokenType.kind, tok.value.value)
      && (tok.value.source == ContextSource ==>
            ctx.Some? && FromContext(o, tok.value.tokenType, ctx.value) == Success(Some(tok.value.value)))
  }

  /** The cursor `d` still reads the same array with the same context. */
  predicate SameInput(c: Cursor, d: Cursor) {
    Valid(d) && d.tokens == c.tokens && d.context == c.context
  }

  /** The body of the loop for one non-null slot: save, try the input; on
      no match roll back and try the context when there is one; failing
      that, an optional slot rolls back and stays empty and a mandatory one
      ends the attempt. An exception from a kind propagates. */
  function SlotStep(o: Oracles, t: TokenType, ctx: Option<RequestContext>, c: Cursor): (r: Result<Attempt, Error>)
    requires Valid(c)
    ensures r.Success? ==> SameInput(c, r.value.cursor) && r.value.cursor.rightToLeft == c.rightToLeft
    ensures r.Success? ==> Fits(o, Some(t), ctx, r.value.token)
    ensures r.Success? ==> (r.value.failed <==> r.value.token.None? && !t.isOptional)
    ensures var input := FromInput(o, t, SavePosition(c));
      r.Success? && r.value.token.Some? && r.value.token.value.source == InputSource ==>
        input.result == Success(Some(r.value.token.value.value)) && r.value.cursor == input.cursor
    ensures var input := FromInput(o, t, SavePosition(c));
      r.Success? && r.value.token.None? ==>
        input.result == Success(None)
        && (ctx.Some? ==> FromContext(o, t, ctx.value) == Success(None))
        && (!r.value.failed ==> r.value.cursor == SavePosition(c))
    ensures r.Success? && r.value.token.Some? && r.value.token.value.source == ContextSource ==>
      FromInput(o, t, SavePosition(c)).result == Success(None) && r.value.cursor == SavePosition(c)
    ensures r.Failure? ==> r.error == InvalidCast || r.error == NullReference
  {
    var saved := SavePosition(c);
    var input := FromInput(o, t, saved);
    match input.result
    case Failure(e) =>
      ValueKindFailure(o, t.kind, saved);
      Failure(e)
    case Success(Some(v)) => Success(Attempt(Some(Token(v, InputSource, t)), false, input.cursor))
    case Success(None) =>
      var fromContext := if ctx.Some? then FromContext(o, t, ctx.value) else Success(None);
      match fromContext
      case Failure(e) => Failure(e)
      case Success(Some(v)) => Success(Attempt(Some(Token(v, ContextSource, t)), false, RollbackPosition(input.cursor)))
      case Success(None) =>
        if !t.isOptional then Success(Attempt(None, true, input.cursor))
        else Success(Attempt(None, false, RollbackPosition(input.cursor)))
  }

  /** The only exception a kind raises on input: a vocabulary variable with
      no context to read it from. */
  lemma ValueKindFailure(o: Oracles, k: Kind, c: Cursor)
    requires Valid(c)
    ensures KindInput(o, k, c).result.Failure? ==> KindInput(o, k, c).result.error == NullReference
  {
  }

  /** A slot of the array: `null` slots are passed over. */
  function Visit(o: Oracles, slot: Option<TokenType>, ctx: Option<RequestContext>, c: Cursor): (r: Result<Attempt, Error>)
    requires Valid(c)
    ensures r.Success? ==> SameInput(c, r.value.cursor) && r.value.cursor.rightToLeft == c.rightToLeft
    ensures r.Success? ==> Fits(o, slot, ctx, r.value.token)
    ensures r.Success? ==> (r.value.failed <==> r.value.token.None? && Mandatory(slot))
    ensures slot.None? ==> r == Success(Attempt(None, false, c))
    ensures r.Failure? ==> r.error == InvalidCast || r.error == NullReference
  {
    if slot.None? then Success(Attempt(None, false, c)) else SlotStep(o, slot.value, ctx, c)
  }

  /** The state of the loop when it stops. */
  datatype Outcome = Outcome(matched: bool, tokens: seq<Option<Token>>, cursor: Cursor)

  /** The slot the loop handles next. */
  function Position(c: Cursor, leftPos: int, rightPos: int): int {
    if c.rightToLeft then rightPos else leftPos
  }

  /** The cursor after a slot: flipped when the slot asks for it, the
      following slots then being read from the other end. */
  function AfterSlot(slot: Option<TokenType>, c: Cursor): (r: Cursor)
    ensures r.tokens == c.tokens && r.context == c.context && r.left == c.left && r.right == c.right
    ensures r.leftCheckpoint == c.leftCheckpoint && r.rightCheckpoint == c.rightCheckpoint
    ensures r.rightToLeft == (if slot.Some? && slot.value.invertParsing then !c.rightToLeft else c.rightToLeft)
  {
    if slot.Some? && slot.value.invertParsing then InvertParsing(c) else c
  }

  /** The `while (leftPos <= rightPos)` loop. Slots outside the window
      `leftPos..rightPos` are done; each round handles one end of the
      window, in the direction the cursor had before the slot. */
  function Align(o: Oracles, slots: seq<Option<TokenType>>, ctx: Option<RequestContext>, c: Cursor,
                 leftPos: int, rightPos: int, tokens: seq<Option<Token>>): (r: Result<Outcome, Error>)
    requires Valid(c)
    requires 0 <= leftPos <= rightPos + 1 <= |slots| && |tokens| == |slots|
    requires forall i :: leftPos <= i <= rightPos ==> tokens[i].None?
    ensures r.Success? ==> SameInput(c, r.value.cursor) && |r.value.tokens| == |slots|
    ensures r.Success? ==> forall i :: 0 <= i < |slots| && !(leftPos <= i <= rightPos) ==> r.value.tokens[i] == tokens[i]
    ensures r.Success? ==> forall i :: leftPos <= i <= rightPos ==> Fits(o, slots[i], ctx, r.value.tokens[i])
    ensures r.Success? && r.value.matched ==>
      forall i :: leftPos <= i <= rightPos ==> (Mandatory(slots[i]) ==> r.value.tokens[i].Some?)
    ensures r.Success? && !r.value.matched ==>
      exists i :: leftPos <= i <= rightPos && Mandatory(slots[i]) && r.value.tokens[i].None?
    ensures r.Failure? ==> r.error == InvalidCast || r.error == NullReference
    decreases rightPos - leftPos + 1
  {
    if leftPos > rightPos then Success(Outcome(true, tokens, c))
    else
      var pos := Position(c, leftPos, rightPos);
      match Visit(o, slots[pos], ctx, c)
      case Failure(e) => Failure(e)
      case Success(a) =>
        var tokens1 := tokens[pos := a.token];
        if a.failed then Success(Outcome(false, tokens1, a.cursor))
        else
          var left1 := if c.rightToLeft then leftPos else leftPos + 1;
          var right1 := if c.rightToLeft then rightPos - 1 else rightPos;
          Align(o, slots, ctx, AfterSlot(slots[pos], a.cursor), left1, right1, tokens1)
  }

  /** `TryParse`: the loop over all slots, then the rest of the input taken
      with `All`; a match needs every mandatory slot filled and, for a
      perfect-match syntax, nothing left over. */
  function TryParse(o: Oracles, c: Cursor, syntax: Syntax, ctx: Option<RequestContext>): (r: Result<Option<Expression>, Error>)
    requires Valid(c)
    ensures r.Success? && r.value.Some? ==>
      var e := r.value.value;
      && e.syntax == syntax && e.context == ctx
      && |e.tokens| == |syntax.tokenTypes|
      && (forall i :: 0 <= i < |e.tokens| ==> Fits(o, syntax.tokenTypes[i], ctx, e.tokens[i]))
      && (forall i :: 0 <= i < |e.tokens| ==> (Mandatory(syntax.tokenTypes[i]) ==> e.tokens[i].Some?))
      && (syntax.perfectMatchOnly ==> e.remainingText == [])
    ensures r.Success? && r.value.None? ==>
      syntax.perfectMatchOnly || exists i :: 0 <= i < |syntax.tokenTypes| && Mandatory(syntax.tokenTypes[i])
    ensures r.Failure? ==> r.error == InvalidCast || r.error == NullReference
  {
    var n := |syntax.tokenTypes|;
    match Align(o, syntax.tokenTypes, ctx, c, 0, n - 1, seq(n, _ => None))
    case Failure(e) => Failure(e)
    case Success(out) =>
      var remaining := All(out.cursor).token.value;
      if out.matched && (!syntax.perfectMatchOnly || remaining == []) then
        Success(Some(Expression(out.tokens, remaining, syntax, ctx)))
      else Success(None)
  }

  /** When `TryParse` gives up: it raises exactly when the loop raises, and
      otherwise it declines exactly when a mandatory slot stayed empty or a
      perfect-match syntax left words unread; a match carries the loop's
      tokens and the words the loop left, joined by spaces. */
  lemma TryParseDecision(o: Oracles, c: Cursor, syntax: Syntax, ctx: Option<RequestContext>)
    requires Valid(c)
    ensures var n := |syntax.tokenTypes|;
      var a := Align(o, syntax.tokenTypes, ctx, c, 0, n - 1, seq(n, _ => None));
      var r := TryParse(o, c, syntax, ctx);
      && (r.Failure? <==> a.Failure?)
      && (a.Success? ==>
            var rest := Join(' ', Remaining(a.value.cursor));
            && (r.value.None? <==>
                  (exists i :: 0 <= i < n && Mandatory(syntax.tokenTypes[i]) && a.value.tokens[i].None?)
                  || (syntax.perfectMatchOnly && rest != []))
            && (r.value.Some? ==> r.value.value.tokens == a.value.tokens && r.value.value.remainingText == rest))
  {
  }

  // ---- What the loop does on special inputs ----

  /** Slots that are all `null` are passed over without touching the
      cursor or the tokens. */
  lemma {:induction false} AlignOverNullSlots(o: Oracles, slots: seq<Option<TokenType>>, ctx: Option<RequestContext>, c: Cursor,
                                              leftPos: int, rightPos: int, tokens: seq<Option<Token>>)
    requires Valid(c)
    requires 0 <= leftPos <= rightPos + 1 <= |slots| && |tokens| == |slots|
    requires forall i :: leftPos <= i <= rightPos ==> tokens[i].None? && slots[i].None?
    ensures Align(o, slots, ctx, c, leftPos, rightPos, tokens) == Success(Outcome(true, tokens, c))
    decreases rightPos - leftPos + 1
  {
    if leftPos <= rightPos {
      var pos := Position(c, leftPos, rightPos);
      assert tokens[pos := None] == tokens;
      var left1 := if c.rightToLeft then leftPos else leftPos + 1;
      var right1 := if c.rightToLeft then rightPos - 1 else rightPos;
      AlignOverNullSlots(o, slots, ctx, c, left1, right1, tokens);
    }
  }

  /** A syntax whose slots are all `null` and that does not demand a perfect
      match accepts any input, leaving every token empty and the whole input
      as the remainder. */
  lemma NullSlotsMatchAll(o: Oracles, c: Cursor, syntax: Syntax, ctx: Option<RequestContext>)
    requires Valid(c) && !syntax.perfectMatchOnly
    requires forall i :: 0 <= i < |syntax.tokenTypes| ==> syntax.tokenTypes[i].None?
    ensures TryParse(o, c, syntax, ctx)
      == Success(Some(Expression(seq(|syntax.tokenTypes|, _ => None), Join(' ', Remaining(c)), syntax, ctx)))
  {
    var n := |syntax.tokenTypes|;
    AlignOverNullSlots(o, syntax.tokenTypes, ctx, c, 0, n - 1, seq(n, _ => None));
  }

  /** One slot on an input with nothing left to read: the cursor stays
      empty, a recorded token comes from the context, and without a context
      nothing can fail. */
  lemma VisitOnEmpty(o: Oracles, slot: Option<TokenType>, ctx: Option<RequestContext>, c: Cursor)
    requires Valid(c) && IsEmpty(c)
    ensures var r := Visit(o, slot, ctx, c);
      r.Success? ==>
        && IsEmpty(r.value.cursor)
        && (r.value.token.Some? ==> r.value.token.value.source == ContextSource)
    ensures ctx.None? ==> Visit(o, slot, ctx, c).Success?
  {
    if slot.Some? {
      assert FromInput(o, slot.value, SavePosition(c)).result == Success(None);
    }
  }

  /** With nothing left to read, no slot is filled from the input, and the
      cursor stays empty. */
  lemma {:induction false} AlignOnEmptyCursor(o: Oracles, slots: seq<Option<TokenType>>, ctx: Option<RequestContext>, c: Cursor,
                                              leftPos: int, rightPos: int, tokens: seq<Option<Token>>)
    requires Valid(c) && IsEmpty(c)
    requires 0 <= leftPos <= rightPos + 1 <= |slots| && |tokens| == |slots|
    requires forall i :: leftPos <= i <= rightPos ==> tokens[i].None?
    ensures var r := Align(o, slots, ctx, c, leftPos, rightPos, tokens);
      r.Success? ==>
        && IsEmpty(r.value.cursor)
        && forall i :: leftPos <= i <= rightPos && r.value.tokens[i].Some? ==> r.value.tokens[i].value.source == ContextSource
    decreases rightPos - leftPos + 1
  {
    if leftPos <= rightPos {
      var pos := Position(c, leftPos, rightPos);
      VisitOnEmpty(o, slots[pos], ctx, c);
      var a := Visit(o, slots[pos], ctx, c);
      if a.Success? && !a.value.failed {
        var left1 := if c.rightToLeft then leftPos else leftPos + 1;
        var right1 := if c.rightToLeft then rightPos - 1 else rightPos;
        AlignOnEmptyCursor(o, slots, ctx, AfterSlot(slots[pos], a.value.cursor), left1, right1, tokens[pos := a.value.token]);
      }
    }
  }

  /** With nothing left to read and no context, the loop raises nothing. */
  lemma {:induction false} AlignOnEmptyWithoutContext(o: Oracles, slots: seq<Option<TokenType>>, c: Cursor,
                                                      leftPos: int, rightPos: int, tokens: seq<Option<Token>>)
    requires Valid(c) && IsEmpty(c)
    requires 0 <= leftPos <= rightPos + 1 <= |slots| && |tokens| == |slots|
    requires forall i :: leftPos <= i <= rightPos ==> tokens[i].None?
    ensures Align(o, slots, None, c, leftPos, rightPos, tokens).Success?
    decreases rightPos - leftPos + 1
  {
    if leftPos <= rightPos {
      var pos := Position(c, leftPos, rightPos);
      VisitOnEmpty(o, slots[pos], None, c);
      var a := Visit(o, slots[pos], None, c);
      if !a.value.failed {
        var left1 := if c.rightToLeft then leftPos else leftPos + 1;
        var right1 := if c.rightToLeft then rightPos - 1 else rightPos;
        AlignOnEmptyWithoutContext(o, slots, AfterSlot(slots[pos], a.value.cursor), left1, right1, tokens[pos := a.value.token]);
      }
    }
  }

  /** Every token of a parse of an empty input comes from the context. */
  lemma EmptyInputFillsFromContext(o: Oracles, c: Cursor, syntax: Syntax, ctx: Option<RequestContext>)
    requires Valid(c) && IsEmpty(c)
    ensures var r := TryParse(o, c, syntax, ctx);
      r.Success? && r.value.Some? ==>
        forall i :: 0 <= i < |r.value.value.tokens| && r.value.value.tokens[i].Some? ==>
          r.value.value.tokens[i].value.source == ContextSource
  {
    var n := |syntax.tokenTypes|;
    AlignOnEmptyCursor(o, syntax.tokenTypes, ctx, c, 0, n - 1, seq(n, _ => None));
  }

  /** With no input left and no context, a syntax matches exactly when none
      of its slots is mandatory. */
  lemma EmptyInputWithoutContext(o: Oracles, c: Cursor, syntax: Syntax)
    requires Valid(c) && IsEmpty(c)
    ensures TryParse(o, c, syntax, None).Success?
    ensures TryParse(o, c, syntax, None).value.Some?
      <==> forall i :: 0 <= i < |syntax.tokenTypes| ==> !Mandatory(syntax.tokenTypes[i])
  {
    var n := |syntax.tokenTypes|;
    AlignOnEmptyCursor(o, syntax.tokenTypes, None, c, 0, n - 1, seq(n, _ => None));
    AlignOnEmptyWithoutContext(o, syntax.tokenTypes, c, 0, n - 1, seq(n, _ => None));
    var r := Align(o, syntax.tokenTypes, None, c, 0, n - 1, seq(n, _ => None));
    assert Remaining(r.value.cursor) == [];
    if forall i :: 0 <= i < n ==> !Mandatory(syntax.tokenTypes[i]) {
      assert r.value.matched;
    }
  }
}
