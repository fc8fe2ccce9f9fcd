/** TextProcessor.cs: `ProcessAsync` without its asynchrony. The input is
    checked, preprocessed, and tried against every command processor's
    syntaxes; each processor contributes its first match, the best match
    by score and then token count wins, and its contextual tokens are
    written back. The command itself is not dispatched here. */
module TextProcessors {
  import opened Wrappers
  import opened Errors
  import opened Strings
  import opened RequestContexts
  import opened TextCursors
  import opened Syntaxes
  import opened Env
  import opened SyntaxParser
  import opened Scorers
  import opened ParsedInputs

  /** A text preprocessor: its `Priority` and the text it makes of a text
      in a request context. */
  datatype PreProcessor = PreProcessor(priority: int, process: (string, Option<RequestContext>) -> string)

  // ---- The order preprocessors run in ----

  /** Preprocessor `a` runs before preprocessor `b`: a lower priority, or
      the same priority and added earlier (`OrderBy` is stable). */
  predicate RunsBefore(priorities: seq<int>, a: nat, b: nat)
    requires a < |priorities| && b < |priorities|
  {
    priorities[a] < priorities[b] || (priorities[a] == priorities[b] && a < b)
  }

  /** Every position refers to a preprocessor, in run order. */
  predicate InRunOrder(priorities: seq<int>, order: seq<nat>) {
    && (forall i :: 0 <= i < |order| ==> order[i] < |priorities|)
    && (forall i, j :: 0 <= i < j < |order| ==> RunsBefore(priorities, order[i], order[j]))
  }

  /** One step of the stable sort: `k`, added after everything in `order`,
      goes in front of the first preprocessor of a higher priority. */
  function InsertByPriority(priorities: seq<int>, order: seq<nat>, k: nat): (r: seq<nat>)
    requires k < |priorities| && InRunOrder(priorities, order)
    requires forall i :: 0 <= i < |order| ==> order[i] < k
    ensures |r| == |order| + 1
    ensures forall x :: x in r <==> x in order || x == k
    ensures InRunOrder(priorities, r)
  {
    if order == [] then [k]
    else if priorities[order[0]] > priorities[k] then [k] + order
    else
      var rest := InsertByPriority(priorities, order[1..], k);
      assert forall j :: 0 <= j < |rest| ==> RunsBefore(priorities, order[0], rest[j]) by {
        forall j | 0 <= j < |rest|
          ensures RunsBefore(priorities, order[0], rest[j])
        {
          assert rest[j] in rest;
          if rest[j] != k {
            var m :| 0 <= m < |order[1..]| && order[1..][m] == rest[j];
            assert order[m + 1] == rest[j];
          }
        }
      }
      [order[0]] + rest
  }

  /** `OrderBy(p => p.Priority)` over the first `n` preprocessors: each of
      them exactly once, in run order. */
  function PriorityOrder(priorities: seq<int>, n: nat): (r: seq<nat>)
    requires n <= |priorities|
    ensures |r| == n
    ensures forall x :: x in r <==> 0 <= x < n
    ensures InRunOrder(priorities, r)
  {
    if n == 0 then []
    else
      var before := PriorityOrder(priorities, n - 1);
      assert forall i :: 0 <= i < |before| ==> before[i] in before;
      InsertByPriority(priorities, before, n - 1)
  }

  function Priorities(ps: seq<PreProcessor>): (r: seq<int>)
    ensures |r| == |ps| && forall i :: 0 <= i < |ps| ==> r[i] == ps[i].priority
  {
    seq(|ps|, i requires 0 <= i < |ps| => ps[i].priority)
  }

  /** Inserting a preprocessor whose priority is at least everyone's
      appends it. */
  lemma {:induction false} InsertLast(priorities: seq<int>, order: seq<nat>, k: nat)
    requires k < |priorities| && InRunOrder(priorities, order)
    requires forall i :: 0 <= i < |order| ==> order[i] < k && priorities[order[i]] <= priorities[k]
    ensures InsertByPriority(priorities, order, k) == order + [k]
  {
    if order != [] {
      InsertLast(priorities, order[1..], k);
      assert [order[0]] + (order[1..] + [k]) == order + [k];
    }
  }

  /** Preprocessors of equal priority run in the order they were added. */
  lemma {:induction false} EqualPrioritiesKeepOrder(priorities: seq<int>, n: nat)
    requires n <= |priorities|
    requires forall i :: 0 <= i < |priorities| ==> priorities[i] == priorities[0]
    ensures PriorityOrder(priorities, n) == seq(n, i => i)
  {
    if n > 0 {
      EqualPrioritiesKeepOrder(priorities, n - 1);
      var before := PriorityOrder(priorities, n - 1);
      InsertLast(priorities, before, n - 1);
      assert before + [n - 1] == seq(n, i => i);
    }
  }

  /** The texts through the preprocessors named by `order`, in turn. */
  function RunInOrder(ps: seq<PreProcessor>, order: seq<nat>, text: string, ctx: Option<RequestContext>): string
    requires forall i :: 0 <= i < |order| ==> order[i] < |ps|
    decreases |order|
  {
    if order == [] then text
    else RunInOrder(ps, order[1..], ps[order[0]].process(text, ctx), ctx)
  }

  /** The `foreach` over the preprocessors ordered by priority. */
  function Preprocess(ps: seq<PreProcessor>, text: string, ctx: Option<RequestContext>): string {
    var order := PriorityOrder(Priorities(ps), |ps|);
    RunInOrder(ps, order, text, ctx)
  }

  /** Two preprocessors of different priority run lowest first, whatever
      order they were added in. */
  lemma LowerPriorityFirst(a: PreProcessor, b: PreProcessor, text: string, ctx: Option<RequestContext>)
    requires a.priority > b.priority
    ensures Preprocess([a, b], text, ctx) == a.process(b.process(text, ctx), ctx)
  {
    var ps := Priorities([a, b]);
    assert ps == [a.priority, b.priority];
    var order := PriorityOrder(ps, 2);
    assert 0 in order && 1 in order;
    assert order[0] != order[1] by {
      assert RunsBefore(ps, order[0], order[1]);
    }
    assert order == [1, 0];
    assert order[1..] == [0];
    var once := b.process(text, ctx);
    assert RunInOrder([a, b], order, text, ctx) == RunInOrder([a, b], [0], once, ctx);
    assert RunInOrder([a, b], [0], once, ctx) == RunInOrder([a, b], [], a.process(once, ctx), ctx);
  }

  // ---- Trying the syntaxes ----

  /** `s.Culture.Equals(context.Culture) || s.Culture.Equals(InvariantCulture)`. */
  predicate Eligible(s: Syntax, ctx: RequestContext) {
    s.culture == ctx.culture || s.culture == Invariant
  }

  /** Before each attempt the cursor is set to the syntax's direction and
      reset. */
  function AttemptCursor(base: Cursor, s: Syntax): (r: Cursor)
    ensures Valid(r) && r.tokens == base.tokens && r.context == base.context
    ensures r.rightToLeft == s.rightToLeft && Remaining(r) == base.tokens
  {
    Reset(SetDirection(base, s.rightToLeft))
  }

  /** So nothing an earlier attempt did to the shared cursor is seen by
      the next one. */
  lemma AttemptCursorForgets(c: Cursor, d: Cursor, s: Syntax)
    requires c.tokens == d.tokens && c.context == d.context
    ensures AttemptCursor(c, s) == AttemptCursor(d, s)
  {
  }

  /** A way of trying one syntax in a request context. The loops below do
      not depend on how a syntax is parsed, so they take the attempt as a
      parameter; `ProcessAsync` uses `Attempt`. */
  type Attempter = (RequestContext, Syntax) -> Result<Option<Expression>, Error>

  /** What the loops rely on from an attempt: it throws only an invalid
      cast or a null reference, and its expression is of the syntax tried
      in the context given. */
  ghost predicate Sound(attempt: Attempter) {
    forall ctx, s :: Throws(attempt(ctx, s)) && Answers(attempt(ctx, s), ctx, s)
  }

  predicate Throws(a: Result<Option<Expression>, Error>) {
    a.Failure? ==> a.error == InvalidCast || a.error == NullReference
  }

  predicate Answers(a: Result<Option<Expression>, Error>, ctx: RequestContext, s: Syntax) {
    a.Success? && a.value.Some? ==> a.value.value.syntax == s && a.value.value.context == Some(ctx)
  }

  /** `TryParse` on the cursor reset for the syntax. */
  function Attempt(o: Oracles, base: Cursor, ctx: RequestContext, s: Syntax): (r: Result<Option<Expression>, Error>)
    ensures Throws(r) && Answers(r, ctx, s)
  {
    TryParse(o, AttemptCursor(base, s), s, Some(ctx))
  }

  /** Every syntax tried from the same cursor. */
  function Attempts(o: Oracles, base: Cursor): (r: Attempter)
    ensures Sound(r)
  {
    (ctx, s) => Attempt(o, base, ctx, s)
  }

  /** A syntax the loop moves past: of another culture, or not matching. */
  predicate Skipped(attempt: Attempter, ctx: RequestContext, s: Syntax) {
    !Eligible(s, ctx) || attempt(ctx, s) == Success(None)
  }

  /** Which syntax of a processor matched, and the expression. */
  datatype Match = Match(syntaxIndex: nat, expression: Expression)

  /** The inner `foreach` from `from` on, left at the first match. */
  function FirstMatch(attempt: Attempter, ctx: RequestContext, syntaxes: seq<Syntax>, from: nat): (r: Result<Option<Match>, Error>)
    requires Sound(attempt) && from <= |syntaxes|
    ensures r.Success? && r.value.Some? ==>
      var k := r.value.value.syntaxIndex;
      && from <= k < |syntaxes| && Eligible(syntaxes[k], ctx)
      && attempt(ctx, syntaxes[k]) == Success(Some(r.value.value.expression))
      && forall j :: from <= j < k ==> Skipped(attempt, ctx, syntaxes[j])
    ensures r.Success? && r.value.None? ==> forall j :: from <= j < |syntaxes| ==> Skipped(attempt, ctx, syntaxes[j])
    ensures r.Failure? ==> r.error == InvalidCast || r.error == NullReference
    decreases |syntaxes| - from
  {
    if from == |syntaxes| then Success(None)
    else if !Eligible(syntaxes[from], ctx) then FirstMatch(attempt, ctx, syntaxes, from + 1)
    else
      var a := attempt(ctx, syntaxes[from]);
      assert Throws(a);
      if a.Failure? then Failure(a.error)
      else if a.value.None? then FirstMatch(attempt, ctx, syntaxes, from + 1)
      else Success(Some(Match(from, a.value.value)))
  }

  /** One command processor's contribution. Filtering its syntaxes reads
      the context's culture, so a `null` context throws as soon as there
      is a syntax to filter. */
  function ProcessorMatch(attempt: Attempter, ctx: Option<RequestContext>, p: CommandProcessor): (r: Result<Option<Match>, Error>)
    requires Sound(attempt)
    ensures p.syntaxes == [] ==> r == Success(None)
    ensures p.syntaxes != [] && ctx.None? ==> r == Failure(NullReference)
    ensures r.Failure? ==> r.error == InvalidCast || r.error == NullReference
  {
    if p.syntaxes == [] then Success(None)
    else if ctx.None? then Failure(NullReference)
    else FirstMatch(attempt, ctx.value, p.syntaxes, 0)
  }

  /** The outer `foreach`: every processor from `from` on, in order; an
      exception ends the loop. */
  function Matches(attempt: Attempter, ctx: Option<RequestContext>, processors: seq<CommandProcessor>, from: nat): (r: Result<seq<Option<Match>>, Error>)
    requires Sound(attempt) && from <= |processors|
    ensures r.Success? <==> forall i :: from <= i < |processors| ==> ProcessorMatch(attempt, ctx, processors[i]).Success?
    ensures r.Success? ==> |r.value| == |processors| - from
    ensures r.Success? ==> forall i :: 0 <= i < |r.value| ==> ProcessorMatch(attempt, ctx, processors[from + i]) == Success(r.value[i])
    ensures r.Failure? ==> r.error == InvalidCast || r.error == NullReference
    decreases |processors| - from
  {
    if from == |processors| then Success([])
    else
      var head := ProcessorMatch(attempt, ctx, processors[from]);
      if head.Failure? then Failure(head.error)
      else
        var tail := Matches(attempt, ctx, processors, from + 1);
        if tail.Failure? then Failure(tail.error)
        else
          var all := [head.value] + tail.value;
          assert all[0] == head.value;
          assert forall i :: 1 <= i < |all| ==> all[i] == tail.value[i - 1] && from + i == from + 1 + (i - 1);
          Success(all)
  }

  /** The `parsedInputList`, kept aligned with the processors: position `i`
      holds processor `i`'s parsed input when it has one. */
  function Candidates(processors: seq<CommandProcessor>, ms: seq<Option<Match>>): (r: seq<Option<ParsedInput>>)
    requires |ms| == |processors|
    ensures |r| == |ms|
    ensures forall i :: 0 <= i < |ms| ==> (r[i].Some? <==> ms[i].Some?)
    ensures forall i :: 0 <= i < |ms| && ms[i].Some? ==>
      r[i].value.expression == ms[i].value.expression && r[i].value.processor == processors[i]
  {
    seq(|ms|, i requires 0 <= i < |ms| =>
      if ms[i].Some? then Some(ParsedInput(ms[i].value.expression, processors[i])) else None)
  }

  // ---- Ranking ----

  /** The two sort keys: the score, then the number of tokens present. */
  datatype Ranked = Ranked(score: real, count: nat)

  predicate Outranks(a: Ranked, b: Ranked) {
    a.score > b.score || (a.score == b.score && a.count > b.count)
  }

  /** Every candidate's keys, in order; the first scorer exception
      propagates. */
  function Rank(scorer: Scorer, cands: seq<Option<ParsedInput>>, from: nat): (r: Result<seq<Option<Ranked>>, Error>)
    requires from <= |cands|
    ensures r.Success? <==> forall i :: from <= i < |cands| && cands[i].Some? ==> Score(scorer, cands[i].value.expression).Success?
    ensures r.Success? ==> |r.value| == |cands| - from
    ensures r.Success? ==> forall i :: 0 <= i < |r.value| ==>
      && (r.value[i].Some? <==> cands[from + i].Some?)
      && (r.value[i].Some? ==>
            r.value[i].value == Ranked(Score(scorer, cands[from + i].value.expression).value, Hits(cands[from + i].value.expression)))
    ensures r.Failure? ==> r.error == NullReference || r.error == DivideByZero
    decreases |cands| - from
  {
    if from == |cands| then Success([])
    else
      var head: Result<Option<Ranked>, Error> :=
        if cands[from].None? then Success(None)
        else
          var e := cands[from].value.expression;
          match Score(scorer, e)
          case Failure(err) => Failure(err)
          case Success(s) => Success(Some(Ranked(s, Hits(e))));
      match head
      case Failure(err) => Failure(err)
      case Success(h) =>
        match Rank(scorer, cands, from + 1)
        case Failure(err) => Failure(err)
        case Success(rest) => Success([h] + rest)
  }

  /** `OrderByDescending(score).ThenByDescending(count).FirstOrDefault()`
      over the first `n` entries: the earliest entry no other outranks. */
  function Best(ranks: seq<Option<Ranked>>, n: nat): (r: Option<nat>)
    requires n <= |ranks|
    ensures r.None? <==> forall i :: 0 <= i < n ==> ranks[i].None?
    ensures r.Some? ==> r.value < n && ranks[r.value].Some?
    ensures r.Some? ==> forall i :: 0 <= i < n && ranks[i].Some? ==> !Outranks(ranks[i].value, ranks[r.value].value)
    ensures r.Some? ==> forall i :: 0 <= i < r.value && ranks[i].Some? ==> Outranks(ranks[r.value].value, ranks[i].value)
  {
    if n == 0 then None
    else
      var b := Best(ranks, n - 1);
      if ranks[n - 1].None? then b
      else if b.None? || Outranks(ranks[n - 1].value, ranks[b.value].value) then Some(n - 1)
      else b
  }

  // ---- ProcessAsync ----

  /** The cursor built over the preprocessed text. */
  function BaseCursor(pre: seq<PreProcessor>, input: string, ctx: Option<RequestContext>): (r: Cursor)
    ensures Valid(r) && r.context == ctx
  {
    TextCursors.New(Preprocess(pre, input, ctx), ctx)
  }

  /** The winner: which processor it came from, its parsed input, and the
      request context after the write-back. */
  datatype Processed = Processed(processorIndex: nat, selected: ParsedInput, context: Option<RequestContext>)

  /** `ProcessAsync` once the input is known not to be blank: every
      processor's first match, the candidates ranked, the best one chosen
      and its tokens written back. */
  function Select(attempt: Attempter, scorer: Scorer, processors: seq<CommandProcessor>,
                  input: string, ctx: Option<RequestContext>): (r: Result<Processed, Error>)
    requires Sound(attempt)
    ensures r.Failure? ==> r.error in {InvalidCast, NullReference, DivideByZero, MatchNotFound(input)}
    ensures r.Success? ==> r.value.processorIndex < |processors| && r.value.selected.processor == processors[r.value.processorIndex]
  {
    var ms := Matches(attempt, ctx, processors, 0);
    if ms.Failure? then Failure(ms.error)
    else
      var cands := Candidates(processors, ms.value);
      var ranks := Rank(scorer, cands, 0);
      if ranks.Failure? then Failure(ranks.error)
      else
        var best := Best(ranks.value, |ranks.value|);
        if best.None? then Failure(MatchNotFound(input))
        else
          var p := cands[best.value].value;
          Success(Processed(best.value, p, Submit(p, false).value))
  }

  /** `ProcessAsync`: a `null` input and a blank one are refused before
      anything runs; otherwise the syntaxes are tried with `TryParse` on
      the preprocessed input. */
  function Process(o: Oracles, scorer: Scorer, pre: seq<PreProcessor>, processors: seq<CommandProcessor>,
                   input: Option<string>, ctx: Option<RequestContext>): (r: Result<Processed, Error>)
    ensures input.None? <==> r == Failure(ArgumentNull)
    ensures input.Some? && IsBlank(input.value) ==> r == Failure(Argument(BlankInput))
    ensures input.Some? && !IsBlank(input.value) ==>
      r == Select(Attempts(o, BaseCursor(pre, input.value, ctx)), scorer, processors, input.value, ctx)
    ensures r.Failure? && r.error.MatchNotFound? ==> r.error.inputText == input.value
    ensures r.Success? ==> r.value.processorIndex < |processors| && r.value.selected.processor == processors[r.value.processorIndex]
  {
    if input.None? then Failure(ArgumentNull)
    else if IsBlank(input.value) then Failure(Argument(BlankInput))
    else Select(Attempts(o, BaseCursor(pre, input.value, ctx)), scorer, processors, input.value, ctx)
  }

  // ---- What a run guarantees ----

  /** The sort keys of an expression the scorer accepts. */
  function KeyOf(scorer: Scorer, e: Expression): (r: Ranked)
    requires Score(scorer, e).Success?
    ensures r.score == Score(scorer, e).value && r.count == Hits(e)
  {
    Ranked(Score(scorer, e).value, Hits(e))
  }

  /** A successful run: every processor's attempts went through, and every
      candidate was scored. */
  lemma RunSucceeded(attempt: Attempter, scorer: Scorer, processors: seq<CommandProcessor>,
                     input: string, ctx: Option<RequestContext>)
    requires Sound(attempt) && Select(attempt, scorer, processors, input, ctx).Success?
    ensures Matches(attempt, ctx, processors, 0).Success?
    ensures var ms := Matches(attempt, ctx, processors, 0).value;
      && Rank(scorer, Candidates(processors, ms), 0).Success?
      && Best(Rank(scorer, Candidates(processors, ms), 0).value, |processors|)
           == Some(Select(attempt, scorer, processors, input, ctx).value.processorIndex)
  {
  }

  /** The winner is processor `w`'s first match, of an eligible syntax of
      that processor, and the context is what the write-back leaves. */
  lemma ProcessWinner(attempt: Attempter, scorer: Scorer, processors: seq<CommandProcessor>,
                      input: string, ctx: Option<RequestContext>)
    requires Sound(attempt) && Select(attempt, scorer, processors, input, ctx).Success?
    ensures var r := Select(attempt, scorer, processors, input, ctx).value;
      var m := ProcessorMatch(attempt, ctx, processors[r.processorIndex]);
      && ctx.Some? && m.Success? && m.value.Some?
      && r.selected.expression == m.value.value.expression
      && m.value.value.syntaxIndex < |processors[r.processorIndex].syntaxes|
      && r.selected.expression.syntax == processors[r.processorIndex].syntaxes[m.value.value.syntaxIndex]
      && Eligible(r.selected.expression.syntax, ctx.value)
      && r.context == Some(WriteBack(ctx.value, r.selected.expression.tokens))
  {
    var r := Select(attempt, scorer, processors, input, ctx).value;
    var w := r.processorIndex;
    RunSucceeded(attempt, scorer, processors, input, ctx);
    var ms := Matches(attempt, ctx, processors, 0).value;
    assert ProcessorMatch(attempt, ctx, processors[w]) == Success(ms[w]);
    var k := ms[w].value.syntaxIndex;
    assert Answers(attempt(ctx.value, processors[w].syntaxes[k]), ctx.value, processors[w].syntaxes[k]);
  }

  /** Every other candidate has keys no greater than the winner's, and
      every candidate from an earlier processor has smaller keys. */
  lemma ProcessRanking(attempt: Attempter, scorer: Scorer, processors: seq<CommandProcessor>,
                       input: string, ctx: Option<RequestContext>, i: nat)
    requires Sound(attempt) && Select(attempt, scorer, processors, input, ctx).Success?
    requires i < |processors|
    requires ProcessorMatch(attempt, ctx, processors[i]).Success?
    requires ProcessorMatch(attempt, ctx, processors[i]).value.Some?
    ensures var r := Select(attempt, scorer, processors, input, ctx).value;
      var e := ProcessorMatch(attempt, ctx, processors[i]).value.value.expression;
      && Score(scorer, e).Success? && Score(scorer, r.selected.expression).Success?
      && !Outranks(KeyOf(scorer, e), KeyOf(scorer, r.selected.expression))
      && (i < r.processorIndex ==> Outranks(KeyOf(scorer, r.selected.expression), KeyOf(scorer, e)))
  {
    var r := Select(attempt, scorer, processors, input, ctx).value;
    var w := r.processorIndex;
    RunSucceeded(attempt, scorer, processors, input, ctx);
    var ms := Matches(attempt, ctx, processors, 0).value;
    var cands := Candidates(processors, ms);
    var ranks := Rank(scorer, cands, 0).value;
    assert ProcessorMatch(attempt, ctx, processors[i]) == Success(ms[i]);
    assert cands[i].Some? && cands[w].Some?;
    assert ranks[i] == Some(KeyOf(scorer, cands[i].value.expression));
    assert ranks[w] == Some(KeyOf(scorer, r.selected.expression));
  }

  /** `MatchNotFoundException` with the original input is raised exactly
      when no processor matched. */
  lemma ProcessNoMatch(attempt: Attempter, scorer: Scorer, processors: seq<CommandProcessor>,
                       input: string, ctx: Option<RequestContext>)
    requires Sound(attempt)
    ensures Select(attempt, scorer, processors, input, ctx) == Failure(MatchNotFound(input))
      <==> forall i :: 0 <= i < |processors| ==> ProcessorMatch(attempt, ctx, processors[i]) == Success(None)
  {
    if forall i :: 0 <= i < |processors| ==> ProcessorMatch(attempt, ctx, processors[i]) == Success(None) {
      NothingMatched(attempt, scorer, processors, input, ctx);
    } else {
      var i :| 0 <= i < |processors| && ProcessorMatch(attempt, ctx, processors[i]) != Success(None);
      SomethingMatched(attempt, scorer, processors, input, ctx, i);
    }
  }

  lemma NothingMatched(attempt: Attempter, scorer: Scorer, processors: seq<CommandProcessor>,
                       input: string, ctx: Option<RequestContext>)
    requires Sound(attempt)
    requires forall i :: 0 <= i < |processors| ==> ProcessorMatch(attempt, ctx, processors[i]) == Success(None)
    ensures Select(attempt, scorer, processors, input, ctx) == Failure(MatchNotFound(input))
  {
    var ms := Matches(attempt, ctx, processors, 0).value;
    var cands := Candidates(processors, ms);
    assert forall i :: 0 <= i < |processors| ==> cands[i].None? by {
      forall i | 0 <= i < |processors|
        ensures cands[i].None?
      {
        assert ProcessorMatch(attempt, ctx, processors[i]) == Success(ms[i]);
      }
    }
    var ranks := Rank(scorer, cands, 0);
    assert ranks.Success?;
    assert Best(ranks.value, |ranks.value|).None?;
  }

  lemma SomethingMatched(attempt: Attempter, scorer: Scorer, processors: seq<CommandProcessor>,
                         input: string, ctx: Option<RequestContext>, i: nat)
    requires Sound(attempt)
    requires i < |processors| && ProcessorMatch(attempt, ctx, processors[i]) != Success(None)
    ensures Select(attempt, scorer, processors, input, ctx) != Failure(MatchNotFound(input))
  {
    var mr := Matches(attempt, ctx, processors, 0);
    if mr.Success? {
      assert ProcessorMatch(attempt, ctx, processors[i]) == Success(mr.value[i]);
      var ranks := Rank(scorer, Candidates(processors, mr.value), 0);
      if ranks.Success? {
        assert ranks.value[i].Some?;
      }
    }
  }

  lemma {:induction false} MatchesWithoutContext(attempt: Attempter, processors: seq<CommandProcessor>, from: nat, i: nat)
    requires Sound(attempt) && from <= i < |processors| && processors[i].syntaxes != []
    ensures Matches(attempt, None, processors, from) == Failure(NullReference)
    decreases |processors| - from
  {
    if processors[from].syntaxes == [] {
      MatchesWithoutContext(attempt, processors, from + 1, i);
    }
  }

  /** Without a request context nothing can match: a processor with a
      syntax throws, and with none there is no match. */
  lemma ProcessWithoutContext(attempt: Attempter, scorer: Scorer, processors: seq<CommandProcessor>, input: string)
    requires Sound(attempt)
    ensures var r := Select(attempt, scorer, processors, input, None);
      && r.Failure?
      && ((exists i :: 0 <= i < |processors| && processors[i].syntaxes != []) ==> r.error == NullReference)
      && ((forall i :: 0 <= i < |processors| ==> processors[i].syntaxes == []) ==> r.error == MatchNotFound(input))
  {
    if forall i :: 0 <= i < |processors| ==> processors[i].syntaxes == [] {
      ProcessNoMatch(attempt, scorer, processors, input, None);
    } else {
      var i :| 0 <= i < |processors| && processors[i].syntaxes != [];
      MatchesWithoutContext(attempt, processors, 0, i);
    }
  }
}
