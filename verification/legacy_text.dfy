/** The free-text kind of the older Takenet.Text library: it peeks before
    consuming, keeps growing while some vocabulary entry still extends the
    query, and answers with the last query that equalled an entry, so the
    longest one reached. It works on the same cursor as the newer kind. */
module LegacyText {
  import opened Wrappers
  import opened Errors
  import opened Strings
  import opened Values
  import opened RequestContexts
  import opened TextCursors
  import opened Kinds
  import opened ValueKinds
  import opened TextKinds

  /** `entry.StartsWith(query)`, or `EndsWith` right to left, ignoring case. */
  predicate Extends(entry: string, query: string, rightToLeft: bool) {
    if rightToLeft then EndsWithIgnoreCase(entry, query) else StartsWithIgnoreCase(entry, query)
  }

  /** `ValidValues.Where(…)`: the entries that still extend the query, in
      vocabulary order. */
  function Candidates(vocabulary: seq<string>, query: string, rightToLeft: bool): (r: seq<string>)
    ensures |r| <= |vocabulary|
    decreases |vocabulary|
  {
    if |vocabulary| == 0 then []
    else
      var rest := Candidates(vocabulary[1..], query, rightToLeft);
      if Extends(vocabulary[0], query, rightToLeft) then [vocabulary[0]] + rest else rest
  }

  /** `matchTexts.Length >= 1`: some entry still extends the query. */
  predicate HasCandidate(vocabulary: seq<string>, query: string, rightToLeft: bool) {
    |Candidates(vocabulary, query, rightToLeft)| >= 1
  }

  /** `Any(t => t.Equals(queryText, …))` over `texts`. */
  predicate AnyEquals(texts: seq<string>, query: string)
    decreases |texts|
  {
    |texts| > 0 && (EqualsIgnoreCase(texts[0], query) || AnyEquals(texts[1..], query))
  }

  /** `matchTexts.Any(t => t.Equals(queryText, …))`: a candidate equal to the
      query ignoring case. */
  predicate HasEqualCandidate(vocabulary: seq<string>, query: string, rightToLeft: bool) {
    AnyEquals(Candidates(vocabulary, query, rightToLeft), query)
  }

  /** There is a candidate exactly when some entry extends the query. */
  lemma {:induction false} HasCandidateIff(vocabulary: seq<string>, query: string, rightToLeft: bool)
    ensures HasCandidate(vocabulary, query, rightToLeft)
      <==> exists i :: 0 <= i < |vocabulary| && Extends(vocabulary[i], query, rightToLeft)
    decreases |vocabulary|
  {
    if |vocabulary| > 0 {
      var tail := vocabulary[1..];
      HasCandidateIff(tail, query, rightToLeft);
      if exists i :: 0 <= i < |tail| && Extends(tail[i], query, rightToLeft) {
        var i :| 0 <= i < |tail| && Extends(tail[i], query, rightToLeft);
        assert vocabulary[i + 1] == tail[i];
      }
      if exists i :: 0 <= i < |vocabulary| && Extends(vocabulary[i], query, rightToLeft) {
        var i :| 0 <= i < |vocabulary| && Extends(vocabulary[i], query, rightToLeft);
        if i > 0 {
          assert tail[i - 1] == vocabulary[i];
        }
      }
    }
  }

  /** An entry equal to the query ignoring case also extends it. */
  lemma EqualExtends(entry: string, query: string, rightToLeft: bool)
    requires EqualsIgnoreCase(entry, query)
    ensures Extends(entry, query, rightToLeft)
  {
    assert |entry| == |query|;
    assert entry[..|query|] == entry;
    assert entry[|entry| - |query|..] == entry;
  }

  /** Some candidate equals the query exactly when some entry does: the
      filter by extension loses no exact match. */
  lemma {:induction false} HasEqualCandidateIff(vocabulary: seq<string>, query: string, rightToLeft: bool)
    ensures HasEqualCandidate(vocabulary, query, rightToLeft) <==> ExactAccepts(vocabulary, query)
    decreases |vocabulary|
  {
    if |vocabulary| > 0 {
      var tail := vocabulary[1..];
      var rest := Candidates(tail, query, rightToLeft);
      HasEqualCandidateIff(tail, query, rightToLeft);
      if Extends(vocabulary[0], query, rightToLeft) {
        assert ([vocabulary[0]] + rest)[1..] == rest;
      } else if EqualsIgnoreCase(vocabulary[0], query) {
        EqualExtends(vocabulary[0], query, rightToLeft);
      }
      if ExactAccepts(tail, query) {
        var i :| 0 <= i < |tail| && EqualsIgnoreCase(tail[i], query);
        assert vocabulary[i + 1] == tail[i];
      }
      if ExactAccepts(vocabulary, query) {
        var i :| 0 <= i < |vocabulary| && EqualsIgnoreCase(vocabulary[i], query);
        if i > 0 {
          assert tail[i - 1] == vocabulary[i];
        }
      }
    }
  }

  /** The query grown by one word: the word goes after the query, or before
      it right to left, and the result is trimmed. */
  function Extend(rightToLeft: bool, query: string, word: string): string {
    Trim(if rightToLeft then word + " " + query else query + " " + word)
  }

  /** The `while (true)` loop from a query built so far and the match kept
      so far: peek, stop on a missing or blank word, grow the query, consume
      the word only while some entry extends the query. How the query grows,
      which queries keep the loop going and which ones are kept as the match
      are parameters, so that the loop can be reasoned about on its own. */
  function LegacyGrow(grow: (string, string) -> string, promising: string -> bool, exact: string -> bool,
                      c: Cursor, query: string, matchText: Option<string>): (r: Growth)
    requires Valid(c)
    ensures Shrunk(c, r.cursor)
    ensures !c.rightToLeft ==> r.cursor.right == c.right
    ensures c.rightToLeft ==> r.cursor.left == c.left
    decreases |Remaining(c)|
  {
    var peek := Peek(c);
    if peek.None? || IsBlank(peek.value) then Growth(matchText, c)
    else
      var q := grow(query, peek.value);
      if promising(q) then
        var next := Next(c).cursor;
        LegacyGrow(grow, promising, exact, next, q, if exact(q) then Some(q) else matchText)
      else Growth(matchText, c)
  }

  function Grower(rightToLeft: bool): (string, string) -> string {
    (q, w) => Extend(rightToLeft, q, w)
  }

  function Promising(vocabulary: seq<string>, rightToLeft: bool): string -> bool {
    q => HasCandidate(vocabulary, q, rightToLeft)
  }

  function Exact(vocabulary: seq<string>, rightToLeft: bool): string -> bool {
    q => HasEqualCandidate(vocabulary, q, rightToLeft)
  }

  /** The loop as the legacy kind runs it over a vocabulary, from the empty
      query and no match. */
  function VocabularyGrow(vocabulary: seq<string>, c: Cursor): (r: Growth)
    requires Valid(c)
    ensures Shrunk(c, r.cursor)
  {
    LegacyGrow(Grower(c.rightToLeft), Promising(vocabulary, c.rightToLeft), Exact(vocabulary, c.rightToLeft), c, "", None)
  }

  /** `TryGetTokenFromInput` of the legacy kind: without a vocabulary the
      rest of the input; with one, the match the loop kept, if any. */
  function LegacyInput(cfg: TextConfig, c: Cursor): (r: Extraction)
    requires Valid(c)
    ensures Shrunk(c, r.cursor) && r.result.Success?
    ensures (cfg.validValues.None? || cfg.validValues.value == []) ==>
      r.cursor == All(c).cursor
      && (r.result.value.Some? <==> Join(' ', Remaining(c)) != [])
      && (r.result.value.Some? ==> r.result.value.value == VStr(Join(' ', Remaining(c))))
    ensures cfg.validValues.Some? && cfg.validValues.value != [] ==>
      var g := VocabularyGrow(cfg.validValues.value, c);
      r.cursor == g.cursor
      && (r.result.value.Some? <==> g.matchText.Some? && g.matchText.value != [])
      && (r.result.value.Some? ==> r.result.value.value == VStr(g.matchText.value))
  {
    if cfg.validValues.Some? && |cfg.validValues.value| > 0 then
      var g := VocabularyGrow(cfg.validValues.value, c);
      if g.matchText.Some? && g.matchText.value != [] then Extraction(Success(Some(VStr(g.matchText.value))), g.cursor)
      else Extraction(Success(None), g.cursor)
    else
      var step := All(c);
      if step.token.value == [] then Extraction(Success(None), step.cursor)
      else Extraction(Success(Some(VStr(step.token.value))), step.cursor)
  }

  /** `TryGetTokenFromContext` of the legacy kind: the same code as the newer
      kind's. */
  function LegacyContext(cfg: TextConfig, name: string, ctx: RequestContext): (r: Result<Option<Value>, Error>)
    ensures var v := Get(ctx, ContextVariable(name, cfg.contextVariableName));
      && (v.None? ==> r == Success(None))
      && (v.Some? && !v.value.VStr? ==> r == Failure(InvalidCast))
      && (v.Some? && v.value.VStr? ==>
            r.Success? && (r.value.Some? ==> r.value.value == v.value)
            && (r.value.Some? <==>
                  (cfg.validValues.None? || cfg.validValues.value == [] || ExactAccepts(cfg.validValues.value, v.value.s))))
  {
    TextContext(Text(cfg), name, ctx)
  }

  // ---- The loop as a whole ----

  /** The queries after one, two, … `k` consumed words. */
  function QueriesAfter(grow: (string, string) -> string, c: Cursor, q0: string, k: nat): (qs: seq<string>)
    requires Valid(c) && k <= |Remaining(c)|
    ensures |qs| == k
  {
    seq(k, j requires 0 <= j < k => QueryAt(grow, c, q0, j + 1))
  }

  /** The reference answer: the last query in `qs` that `exact` holds of,
      else the match held before. */
  function Latest(exact: string -> bool, qs: seq<string>, m0: Option<string>): Option<string> {
    if |qs| == 0 then m0
    else if exact(qs[|qs| - 1]) then Some(qs[|qs| - 1])
    else Latest(exact, qs[..|qs| - 1], m0)
  }

  /** Every query in `qs` kept the loop going. */
  predicate AllPromising(promising: string -> bool, qs: seq<string>) {
    forall j :: 0 <= j < |qs| ==> promising(qs[j])
  }

  /** The consumed queries `qs` each kept the loop going and `m` is the last
      one kept as a match, else `m0`. */
  predicate TraceOf(promising: string -> bool, exact: string -> bool, qs: seq<string>, m0: Option<string>, m: Option<string>) {
    AllPromising(promising, qs) && m == Latest(exact, qs, m0)
  }

  /** After `k` words the loop had a reason to stop: the input ended, the
      next word is blank, or the query it would make does not keep it going. */
  predicate StoppedAt(grow: (string, string) -> string, promising: string -> bool, c: Cursor, q0: string, k: nat)
    requires Valid(c) && k <= |Remaining(c)|
  {
    k < |Remaining(c)| ==>
      IsBlank(NextWord(c, k)) || !promising(QueryAt(grow, c, q0, k + 1))
  }

  /** What the loop did over `k` words, answering `m`: every consumed word
      kept it going, its answer is the reference one, and it stopped for a
      reason. */
  predicate StoryOf(grow: (string, string) -> string, promising: string -> bool, exact: string -> bool,
                    c: Cursor, q0: string, m0: Option<string>, k: nat, m: Option<string>)
    requires Valid(c) && k <= |Remaining(c)|
  {
    TraceOf(promising, exact, QueriesAfter(grow, c, q0, k), m0, m) && StoppedAt(grow, promising, c, q0, k)
  }

  /** How many words the loop consumed. */
  function GrowSteps(grow: (string, string) -> string, promising: string -> bool, exact: string -> bool,
                 c: Cursor, q0: string, m0: Option<string>): (k: nat)
    requires Valid(c)
    ensures k <= |Remaining(c)|
  {
    var r := LegacyGrow(grow, promising, exact, c, q0, m0);
    ShrunkAtOneEnd(c, r.cursor);
    |Remaining(c)| - |Remaining(r.cursor)|
  }

  /** The queries the loop grew, one per consumed word. */
  function GrowQueries(grow: (string, string) -> string, promising: string -> bool, exact: string -> bool,
                   c: Cursor, q0: string, m0: Option<string>): (qs: seq<string>)
    requires Valid(c)
    ensures |qs| == GrowSteps(grow, promising, exact, c, q0, m0)
  {
    QueriesAfter(grow, c, q0, GrowSteps(grow, promising, exact, c, q0, m0))
  }

  lemma QueriesShift(grow: (string, string) -> string, c: Cursor, q0: string, k: nat)
    requires Valid(c) && !IsEmpty(c) && Next(c).token.value != []
    requires k + 1 <= |Remaining(c)|
    ensures k <= |Remaining(Next(c).cursor)|
    ensures QueriesAfter(grow, c, q0, k + 1)
      == [grow(q0, NextWord(c, 0))] + QueriesAfter(grow, Next(c).cursor, grow(q0, NextWord(c, 0)), k)
  {
    var q1 := grow(q0, NextWord(c, 0));
    var c1 := Next(c).cursor;
    var before := QueriesAfter(grow, c, q0, k + 1);
    var after := QueriesAfter(grow, c1, q1, k);
    assert before[0] == q1 by {
      QueryShift(grow, c, q0, 0);
    }
    forall j | 0 <= j < k
      ensures before[j + 1] == after[j]
    {
      QueryShift(grow, c, q0, j + 1);
    }
  }

  lemma {:induction false} LatestAppend(exact: string -> bool, a: seq<string>, b: seq<string>, m0: Option<string>)
    ensures Latest(exact, a + b, m0) == Latest(exact, b, Latest(exact, a, m0))
  {
    if |b| > 0 {
      assert (a + b)[..|a + b| - 1] == a + b[..|b| - 1];
      LatestAppend(exact, a, b[..|b| - 1], m0);
    } else {
      assert a + b == a;
    }
  }

  lemma LatestSingle(exact: string -> bool, q: string, m0: Option<string>)
    ensures Latest(exact, [q], m0) == if exact(q) then Some(q) else m0
  {
    assert [q][..0] == [];
  }

  lemma TraceCons(promising: string -> bool, exact: string -> bool, q: string, qs1: seq<string>, m0: Option<string>, m: Option<string>)
    requires promising(q) && TraceOf(promising, exact, qs1, Latest(exact, [q], m0), m)
    ensures TraceOf(promising, exact, [q] + qs1, m0, m)
  {
    var qs := [q] + qs1;
    forall j | 0 <= j < |qs|
      ensures promising(qs[j])
    {
      if j > 0 {
        assert qs[j] == qs1[j - 1];
      }
    }
    LatestAppend(exact, [q], qs1, m0);
  }

  lemma GrowHalts(grow: (string, string) -> string, promising: string -> bool, exact: string -> bool,
                  c: Cursor, q0: string, m0: Option<string>)
    requires Valid(c)
    requires IsEmpty(c) || IsBlank(Peek(c).value) || !promising(grow(q0, Peek(c).value))
    ensures LegacyGrow(grow, promising, exact, c, q0, m0) == Growth(m0, c)
  {
  }

  lemma GrowUnfold(grow: (string, string) -> string, promising: string -> bool, exact: string -> bool,
                   c: Cursor, q0: string, m0: Option<string>)
    requires Valid(c) && !IsEmpty(c) && !IsBlank(Peek(c).value) && promising(grow(q0, Peek(c).value))
    ensures var q1 := grow(q0, Peek(c).value);
      LegacyGrow(grow, promising, exact, c, q0, m0)
      == LegacyGrow(grow, promising, exact, Next(c).cursor, q1, if exact(q1) then Some(q1) else m0)
  {
  }

  /** A turn of the loop that consumes the next word, in terms of the words
      still to come. */
  lemma TurnOn(grow: (string, string) -> string, promising: string -> bool, exact: string -> bool,
               c: Cursor, q0: string, m0: Option<string>)
    requires Valid(c) && |Remaining(c)| >= 1
    requires !IsBlank(NextWord(c, 0)) && promising(grow(q0, NextWord(c, 0)))
    ensures Next(c).token.value != [] && |Remaining(Next(c).cursor)| + 1 == |Remaining(c)|
    ensures |Remaining(c)| >= 2 ==> NextWord(Next(c).cursor, 0) == NextWord(c, 1)
    ensures |Remaining(c)| >= 3 ==> NextWord(Next(c).cursor, 1) == NextWord(c, 2)
    ensures var q1 := grow(q0, NextWord(c, 0));
      LegacyGrow(grow, promising, exact, c, q0, m0)
      == LegacyGrow(grow, promising, exact, Next(c).cursor, q1, if exact(q1) then Some(q1) else m0)
  {
    assert NextWord(c, 0) == Peek(c).value;
    StepShape(c);
    if |Remaining(c)| >= 2 {
      NextWordShift(c, 0);
    }
    if |Remaining(c)| >= 3 {
      NextWordShift(c, 1);
    }
    GrowUnfold(grow, promising, exact, c, q0, m0);
  }

  /** The loop stops at once, in terms of the words still to come. */
  lemma TurnOff(grow: (string, string) -> string, promising: string -> bool, exact: string -> bool,
                c: Cursor, q0: string, m0: Option<string>)
    requires Valid(c)
    requires |Remaining(c)| == 0 || IsBlank(NextWord(c, 0)) || !promising(grow(q0, NextWord(c, 0)))
    ensures LegacyGrow(grow, promising, exact, c, q0, m0) == Growth(m0, c)
  {
    if |Remaining(c)| > 0 {
      assert NextWord(c, 0) == Peek(c).value;
    }
    GrowHalts(grow, promising, exact, c, q0, m0);
  }

  /** A turn that consumes a word counts one more step. */
  lemma StepsOn(grow: (string, string) -> string, promising: string -> bool, exact: string -> bool,
                c: Cursor, q0: string, m0: Option<string>)
    requires Valid(c) && |Remaining(c)| >= 1
    requires !IsBlank(NextWord(c, 0)) && promising(grow(q0, NextWord(c, 0)))
    ensures var q1 := grow(q0, NextWord(c, 0));
      GrowSteps(grow, promising, exact, c, q0, m0)
      == GrowSteps(grow, promising, exact, Next(c).cursor, q1, if exact(q1) then Some(q1) else m0) + 1
  {
    TurnOn(grow, promising, exact, c, q0, m0);
  }

  lemma StoppedShift(grow: (string, string) -> string, promising: string -> bool, c: Cursor, q0: string, k1: nat, k: nat)
    requires Valid(c) && |Remaining(c)| >= 1 && !IsBlank(NextWord(c, 0)) && Next(c).token.value != []
    requires k1 <= |Remaining(Next(c).cursor)|
    requires StoppedAt(grow, promising, Next(c).cursor, grow(q0, NextWord(c, 0)), k1)
    requires k == k1 + 1
    ensures k <= |Remaining(c)| && StoppedAt(grow, promising, c, q0, k)
  {
    if k1 + 1 < |Remaining(c)| {
      NextWordShift(c, k1);
      QueryShift(grow, c, q0, k1 + 1);
    }
  }

  /** The loop as a whole: it consumes words while the grown query keeps
      it going, and answers with the last query kept as a match. */
  lemma LegacyGrowSpec(grow: (string, string) -> string, promising: string -> bool, exact: string -> bool,
                       c: Cursor, q0: string, m0: Option<string>)
    requires Valid(c)
    ensures StoryOf(grow, promising, exact, c, q0, m0, GrowSteps(grow, promising, exact, c, q0, m0),
                    LegacyGrow(grow, promising, exact, c, q0, m0).matchText)
  {
    LegacyGrowTrace(grow, promising, exact, c, q0, m0);
    LegacyGrowStopped(grow, promising, exact, c, q0, m0);
  }

  /** Every consumed word kept the loop going, and the answer is the last
      query kept as a match. */
  lemma {:induction false} LegacyGrowTrace(grow: (string, string) -> string, promising: string -> bool, exact: string -> bool,
                                           c: Cursor, q0: string, m0: Option<string>)
    requires Valid(c)
    ensures TraceOf(promising, exact, GrowQueries(grow, promising, exact, c, q0, m0), m0,
                    LegacyGrow(grow, promising, exact, c, q0, m0).matchText)
    decreases |Remaining(c)|
  {
    if |Remaining(c)| == 0 || IsBlank(NextWord(c, 0)) || !promising(grow(q0, NextWord(c, 0))) {
      TurnOff(grow, promising, exact, c, q0, m0);
      assert QueriesAfter(grow, c, q0, 0) == [];
    } else {
      var q1 := grow(q0, NextWord(c, 0));
      TurnOn(grow, promising, exact, c, q0, m0);
      LegacyGrowTrace(grow, promising, exact, Next(c).cursor, q1, if exact(q1) then Some(q1) else m0);
      TraceStep(grow, promising, exact, c, q0, m0);
    }
  }

  /** A turn that consumes a word adds its query in front of the trace of
      the rest of the loop. */
  lemma TraceStep(grow: (string, string) -> string, promising: string -> bool, exact: string -> bool,
                  c: Cursor, q0: string, m0: Option<string>)
    requires Valid(c) && |Remaining(c)| >= 1
    requires !IsBlank(NextWord(c, 0)) && promising(grow(q0, NextWord(c, 0)))
    requires var q1 := grow(q0, NextWord(c, 0));
      var m1 := if exact(q1) then Some(q1) else m0;
      TraceOf(promising, exact, GrowQueries(grow, promising, exact, Next(c).cursor, q1, m1), m1,
              LegacyGrow(grow, promising, exact, Next(c).cursor, q1, m1).matchText)
    ensures TraceOf(promising, exact, GrowQueries(grow, promising, exact, c, q0, m0), m0,
                    LegacyGrow(grow, promising, exact, c, q0, m0).matchText)
  {
    var q1 := grow(q0, NextWord(c, 0));
    var c1 := Next(c).cursor;
    var m1 := if exact(q1) then Some(q1) else m0;
    TurnOn(grow, promising, exact, c, q0, m0);
    StepsOn(grow, promising, exact, c, q0, m0);
    QueriesShift(grow, c, q0, GrowSteps(grow, promising, exact, c1, q1, m1));
    LatestSingle(exact, q1, m0);
    TraceCons(promising, exact, q1, GrowQueries(grow, promising, exact, c1, q1, m1), m0,
              LegacyGrow(grow, promising, exact, c1, q1, m1).matchText);
  }

  /** The loop stopped at the end of the input, at a blank word, or before
      a query that does not keep it going. */
  lemma {:induction false} LegacyGrowStopped(grow: (string, string) -> string, promising: string -> bool, exact: string -> bool,
                                             c: Cursor, q0: string, m0: Option<string>)
    requires Valid(c)
    ensures StoppedAt(grow, promising, c, q0, GrowSteps(grow, promising, exact, c, q0, m0))
    decreases |Remaining(c)|
  {
    if |Remaining(c)| == 0 || IsBlank(NextWord(c, 0)) || !promising(grow(q0, NextWord(c, 0))) {
      TurnOff(grow, promising, exact, c, q0, m0);
    } else {
      var q1 := grow(q0, NextWord(c, 0));
      var m1 := if exact(q1) then Some(q1) else m0;
      TurnOn(grow, promising, exact, c, q0, m0);
      LegacyGrowStopped(grow, promising, exact, Next(c).cursor, q1, m1);
      StepsOn(grow, promising, exact, c, q0, m0);
      StoppedShift(grow, promising, c, q0, GrowSteps(grow, promising, exact, Next(c).cursor, q1, m1),
                   GrowSteps(grow, promising, exact, c, q0, m0));
    }
  }

  /** The answer the reference gives is a query kept as a match, and no
      later query was. */
  lemma {:induction false} LatestIsLast(exact: string -> bool, qs: seq<string>, m: string)
    requires Latest(exact, qs, None) == Some(m)
    ensures exists i :: 0 <= i < |qs| && qs[i] == m && exact(m) && forall j :: i < j < |qs| ==> !exact(qs[j])
  {
    var n := |qs| - 1;
    if !exact(qs[n]) {
      var init := qs[..n];
      LatestIsLast(exact, init, m);
      var i :| 0 <= i < |init| && init[i] == m && exact(m) && forall j :: i < j < |init| ==> !exact(init[j]);
      assert qs[i] == m;
      forall j | i < j < |qs|
        ensures !exact(qs[j])
      {
        if j < n {
          assert qs[j] == init[j];
        }
      }
    }
  }

  /** How many words the loop over a vocabulary consumed. */
  function VocabularyTaken(vocabulary: seq<string>, c: Cursor): nat
    requires Valid(c)
  {
    GrowSteps(Grower(c.rightToLeft), Promising(vocabulary, c.rightToLeft), Exact(vocabulary, c.rightToLeft), c, "", None)
  }

  /** The queries the loop over a vocabulary grew, one per consumed word. */
  function VocabularyQueries(vocabulary: seq<string>, c: Cursor): (qs: seq<string>)
    requires Valid(c)
    ensures |qs| == VocabularyTaken(vocabulary, c)
  {
    GrowQueries(Grower(c.rightToLeft), Promising(vocabulary, c.rightToLeft), Exact(vocabulary, c.rightToLeft), c, "", None)
  }

  lemma PromisingQueries(vocabulary: seq<string>, rightToLeft: bool, qs: seq<string>)
    requires AllPromising(Promising(vocabulary, rightToLeft), qs)
    ensures forall j :: 0 <= j < |qs| ==> HasCandidate(vocabulary, qs[j], rightToLeft)
  {
    forall j | 0 <= j < |qs|
      ensures HasCandidate(vocabulary, qs[j], rightToLeft)
    {
      assert Promising(vocabulary, rightToLeft)(qs[j]);
    }
  }

  /** Every word the loop over a vocabulary consumed grew a query that some
      entry still extends. */
  lemma VocabularyPromising(vocabulary: seq<string>, c: Cursor)
    requires Valid(c)
    ensures var qs := VocabularyQueries(vocabulary, c);
      forall j :: 0 <= j < |qs| ==> HasCandidate(vocabulary, qs[j], c.rightToLeft)
  {
    LegacyGrowTrace(Grower(c.rightToLeft), Promising(vocabulary, c.rightToLeft), Exact(vocabulary, c.rightToLeft), c, "", None);
    PromisingQueries(vocabulary, c.rightToLeft, VocabularyQueries(vocabulary, c));
  }

  lemma StoppedMeans(vocabulary: seq<string>, c: Cursor, k: nat)
    requires Valid(c) && k <= |Remaining(c)|
    requires StoppedAt(Grower(c.rightToLeft), Promising(vocabulary, c.rightToLeft), c, "", k)
    ensures k < |Remaining(c)| ==>
      IsBlank(NextWord(c, k)) || !HasCandidate(vocabulary, QueryAt(Grower(c.rightToLeft), c, "", k + 1), c.rightToLeft)
  {
    if k < |Remaining(c)| && !IsBlank(NextWord(c, k)) {
      assert !Promising(vocabulary, c.rightToLeft)(QueryAt(Grower(c.rightToLeft), c, "", k + 1));
    }
  }

  /** The loop over a vocabulary stopped at the end of the input, at a blank
      word, or before a query that no entry extends. */
  lemma VocabularyStopped(vocabulary: seq<string>, c: Cursor)
    requires Valid(c)
    ensures var k := VocabularyTaken(vocabulary, c);
      k <= |Remaining(c)|
      && (k < |Remaining(c)| ==>
            IsBlank(NextWord(c, k)) || !HasCandidate(vocabulary, QueryAt(Grower(c.rightToLeft), c, "", k + 1), c.rightToLeft))
  {
    LegacyGrowStopped(Grower(c.rightToLeft), Promising(vocabulary, c.rightToLeft), Exact(vocabulary, c.rightToLeft), c, "", None);
    StoppedMeans(vocabulary, c, VocabularyTaken(vocabulary, c));
  }

  /** The match of the loop over a vocabulary is the last of its queries
      that some entry equals ignoring case. */
  lemma VocabularyLatest(vocabulary: seq<string>, c: Cursor)
    requires Valid(c)
    ensures VocabularyGrow(vocabulary, c).matchText
      == Latest(Exact(vocabulary, c.rightToLeft), VocabularyQueries(vocabulary, c), None)
  {
    LegacyGrowTrace(Grower(c.rightToLeft), Promising(vocabulary, c.rightToLeft), Exact(vocabulary, c.rightToLeft), c, "", None);
  }

  /** The legacy loop over a vocabulary: it consumed `k` words, each of which
      grew a query that some entry still starts with (ends with, right to
      left); it stopped at the end, a blank word, or a query no entry
      extends; and its match is the last of its queries that some entry
      equals ignoring case, so the longest one reached. */
  lemma LegacyLongestMatch(vocabulary: seq<string>, c: Cursor)
    requires Valid(c)
    ensures var rtl := c.rightToLeft;
      var g := VocabularyGrow(vocabulary, c);
      var k := VocabularyTaken(vocabulary, c);
      var qs := VocabularyQueries(vocabulary, c);
      && k <= |Remaining(c)| && |Remaining(g.cursor)| == |Remaining(c)| - k
      && qs == QueriesAfter(Grower(rtl), c, "", k)
      && (forall j :: 0 <= j < k ==> HasCandidate(vocabulary, qs[j], rtl))
      && (k < |Remaining(c)| ==>
            IsBlank(NextWord(c, k)) || !HasCandidate(vocabulary, QueryAt(Grower(rtl), c, "", k + 1), rtl))
      && g.matchText == Latest(Exact(vocabulary, rtl), qs, None)
  {
    VocabularyPromising(vocabulary, c);
    VocabularyStopped(vocabulary, c);
    VocabularyLatest(vocabulary, c);
    ShrunkAtOneEnd(c, VocabularyGrow(vocabulary, c).cursor);
  }

  /** The match the loop over a vocabulary keeps equals an entry ignoring
      case. */
  lemma VocabularyMatchIsEntry(vocabulary: seq<string>, c: Cursor)
    requires Valid(c)
    ensures var g := VocabularyGrow(vocabulary, c);
      g.matchText.Some? ==> HasEqualCandidate(vocabulary, g.matchText.value, c.rightToLeft)
  {
    var exact := Exact(vocabulary, c.rightToLeft);
    var m := VocabularyGrow(vocabulary, c).matchText;
    if m.Some? {
      VocabularyLatest(vocabulary, c);
      LatestIsLast(exact, VocabularyQueries(vocabulary, c), m.value);
      assert exact(m.value);
    }
  }

  /** A value of the legacy kind equals some vocabulary entry ignoring case. */
  lemma LegacyValueInVocabulary(cfg: TextConfig, c: Cursor)
    requires Valid(c) && cfg.validValues.Some? && cfg.validValues.value != []
    ensures var r := LegacyInput(cfg, c);
      r.result.value.Some? ==>
        r.result.value.value.VStr? && ExactAccepts(cfg.validValues.value, r.result.value.value.s)
  {
    var vocabulary := cfg.validValues.value;
    var g := VocabularyGrow(vocabulary, c);
    VocabularyMatchIsEntry(vocabulary, c);
    if g.matchText.Some? {
      HasEqualCandidateIff(vocabulary, g.matchText.value, c.rightToLeft);
    }
  }

  /** The cursor can end past the match: when the query of one word is kept
      as a match, a second word still leaves a longer entry possible but is
      no match, and a third word (if any) rules every entry out, both words
      are consumed while the answer is the first query. */
  lemma PastTheMatch(grow: (string, string) -> string, promising: string -> bool, exact: string -> bool,
                     c: Cursor, q0: string)
    requires Valid(c) && |Remaining(c)| >= 2
    requires !IsBlank(NextWord(c, 0)) && !IsBlank(NextWord(c, 1))
    requires var q1 := grow(q0, NextWord(c, 0));
      promising(q1) && exact(q1)
    requires var q2 := grow(grow(q0, NextWord(c, 0)), NextWord(c, 1));
      promising(q2) && !exact(q2)
      && (|Remaining(c)| > 2 ==> IsBlank(NextWord(c, 2)) || !promising(grow(q2, NextWord(c, 2))))
    ensures var r := LegacyGrow(grow, promising, exact, c, q0, None);
      r.matchText == Some(grow(q0, NextWord(c, 0)))
      && |Remaining(r.cursor)| == |Remaining(c)| - 2
  {
    var q1 := grow(q0, NextWord(c, 0));
    var q2 := grow(q1, NextWord(c, 1));
    TurnOn(grow, promising, exact, c, q0, None);
    var c1 := Next(c).cursor;
    TurnOn(grow, promising, exact, c1, q1, Some(q1));
    TurnOff(grow, promising, exact, Next(c1).cursor, q2, Some(q1));
  }
}
