/** ParsedInput.cs: a matched expression paired with the command processor
    whose syntax it matched, and the write-back of contextual tokens into
    the request context before the command is dispatched. */
module ParsedInputs {
  import opened Wrappers
  import opened Errors
  import opened Values
  import opened RequestContexts
  import opened Kinds
  import opened Syntaxes

  /** A command processor as the engine sees it: a name and its syntaxes in
      declaration order. */
  datatype CommandProcessor = CommandProcessor(name: string, syntaxes: seq<Syntax>)

  datatype ParsedInput = ParsedInput(expression: Expression, processor: CommandProcessor)

  /** The constructor rejects a `null` expression and a `null` processor. */
  function NewParsedInput(expression: Option<Expression>, processor: Option<CommandProcessor>): (r: Result<ParsedInput, Error>)
    ensures r.Failure? <==> expression.None? || processor.None?
    ensures r.Failure? ==> r.error == ArgumentNull
    ensures r.Success? ==> r.value.expression == expression.value && r.value.processor == processor.value
  {
    if expression.None? then Failure(ArgumentNull)
    else if processor.None? then Failure(ArgumentNull)
    else Success(ParsedInput(expression.value, processor.value))
  }

  /** A token that is written back: present, of a contextual type, and
      read from the input. Its value is never `null` here, since every
      value the kinds produce is an object. */
  predicate Written(t: Option<Token>) {
    t.Some? && t.value.tokenType.isContextual && t.value.source == InputSource
  }

  /** The name a written token is stored under. */
  function SlotName(t: Option<Token>): string
    requires t.Some?
  {
    t.value.tokenType.name
  }

  /** No written token carries the name `n`. */
  predicate NotWrittenTo(tokens: seq<Option<Token>>, n: string) {
    forall i :: 0 <= i < |tokens| && Written(tokens[i]) ==> SlotName(tokens[i]) != n
  }

  /** Token `i` is written and no later written token has its name. */
  predicate LastWriteAt(tokens: seq<Option<Token>>, i: int) {
    && 0 <= i < |tokens| && Written(tokens[i])
    && forall j :: i < j < |tokens| && Written(tokens[j]) ==> SlotName(tokens[j]) != SlotName(tokens[i])
  }

  /** The `foreach` over the qualifying tokens, in slot order: each one is
      stored under its slot's name with `SetVariable`. */
  function WriteBack(ctx: RequestContext, tokens: seq<Option<Token>>): (r: RequestContext)
    ensures r.culture == ctx.culture
    decreases |tokens|
  {
    if tokens == [] then ctx
    else
      var last := tokens[|tokens| - 1];
      var before := WriteBack(ctx, tokens[..|tokens| - 1]);
      if Written(last) then Set(before, SlotName(last), Some(last.value.value)) else before
  }

  /** A name no written token carries keeps its value. */
  lemma {:induction false} WriteBackUntouched(ctx: RequestContext, tokens: seq<Option<Token>>, n: string)
    requires NotWrittenTo(tokens, n)
    ensures Get(WriteBack(ctx, tokens), n) == Get(ctx, n)
    decreases |tokens|
  {
    if tokens != [] {
      var prefix := tokens[..|tokens| - 1];
      assert NotWrittenTo(prefix, n) by {
        forall i | 0 <= i < |prefix| && Written(prefix[i])
          ensures SlotName(prefix[i]) != n
        {
          assert prefix[i] == tokens[i];
        }
      }
      WriteBackUntouched(ctx, prefix, n);
    }
  }

  /** A written token's name ends up holding the value of the last written
      token with that name. */
  lemma {:induction false} WriteBackLast(ctx: RequestContext, tokens: seq<Option<Token>>, i: int)
    requires LastWriteAt(tokens, i)
    ensures Get(WriteBack(ctx, tokens), SlotName(tokens[i])) == Some(tokens[i].value.value)
    decreases |tokens|
  {
    var k := |tokens| - 1;
    var prefix := tokens[..k];
    if i < k {
      assert !Written(tokens[k]) || SlotName(tokens[k]) != SlotName(tokens[i]);
      assert LastWriteAt(prefix, i) by {
        assert prefix[i] == tokens[i];
        forall j | i < j < |prefix| && Written(prefix[j])
          ensures SlotName(prefix[j]) != SlotName(prefix[i])
        {
          assert prefix[j] == tokens[j];
        }
      }
      WriteBackLast(ctx, prefix, i);
    }
  }

  /** Tokens taken from the context, and tokens of non-contextual types,
      are never written back: with none of the other kind the context is
      returned as it was. */
  lemma {:induction false} NothingWritten(ctx: RequestContext, tokens: seq<Option<Token>>)
    requires forall i :: 0 <= i < |tokens| ==> !Written(tokens[i])
    ensures WriteBack(ctx, tokens) == ctx
    decreases |tokens|
  {
    if tokens != [] {
      NothingWritten(ctx, tokens[..|tokens| - 1]);
    }
  }

  /** `SubmitAsync` up to the dispatch: a cancelled token throws before
      anything is written; without a context nothing is written;
      otherwise the context after the write-back. */
  function Submit(p: ParsedInput, cancelled: bool): (r: Result<Option<RequestContext>, Error>)
    ensures cancelled <==> r == Failure(OperationCanceled)
    ensures !cancelled ==> r.Success? && (r.value.None? <==> p.expression.context.None?)
    ensures !cancelled && p.expression.context.Some? ==>
      r.value == Some(WriteBack(p.expression.context.value, p.expression.tokens))
  {
    if cancelled then Failure(OperationCanceled)
    else if p.expression.context.None? then Success(None)
    else Success(Some(WriteBack(p.expression.context.value, p.expression.tokens)))
  }
}
