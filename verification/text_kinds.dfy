/** The free-text kinds of Takenet.Textc (`TextTokenType` and its fuzzy
    subclass `LevenshteinDistanceTextTokenType`): with a vocabulary they grow
    a query one word at a time and stop at the first query the vocabulary
    accepts; without one they take the rest of the input. */
module TextKinds {
  import opened Wrappers
  import opened Errors
  import opened Strings
  import opened Values
  import opened RequestContexts
  import opened TextCursors
  import opened Kinds
  import opened ValueKinds
  import Levenshtein

  /** `TextTokenType.TryGetMatchText`: an entry equal to the query ignoring
      case. */
  predicate ExactAccepts(vocabulary: seq<string>, query: string) {
    exists i :: 0 <= i < |vocabulary| && EqualsIgnoreCase(vocabulary[i], query)
  }

  /** `LevenshteinDistanceTextTokenType.TryGetMatchText`: an entry within
      `maxDistance` edits of the query, characters compared exactly. */
  predicate FuzzyAccepts(vocabulary: seq<string>, maxDistance: int, query: string) {
    exists i :: 0 <= i < |vocabulary| && Levenshtein.Distance(vocabulary[i], query) <= maxDistance
  }

  /** The loop guard `ValidValues.Any(v => v.Length >= queryText.Length)`. */
  predicate SomeAtLeast(vocabulary: seq<string>, n: int) {
    exists i :: 0 <= i < |vocabulary| && |vocabulary[i]| >= n
  }

  /** The state the growth loop ends in: the accepted query, if any, and
      the cursor. */
  datatype Growth = Growth(matchText: Option<string>, cursor: Cursor)

  /** The `while` loop of `TryGetTokenFromInput`, from a query built so far:
      take a word with `Next`, stop on a missing or blank one, append it (or
      prepend it when parsing right to left) and test the trimmed query. */
  function Grow(vocabulary: seq<string>, accepts: string -> bool, c: Cursor, query: string): (r: Growth)
    requires Valid(c)
    ensures Shrunk(c, r.cursor)
    ensures !c.rightToLeft ==> r.cursor.right == c.right
    ensures c.rightToLeft ==> r.cursor.left == c.left
    ensures r.matchText.Some? ==> accepts(r.matchText.value) && r.matchText.value != []
    decreases |Remaining(c)|
  {
    if !SomeAtLeast(vocabulary, |query|) then Growth(None, c)
    else
      var step := Next(c);
      if step.token.None? || IsBlank(step.token.value) then Growth(None, step.cursor)
      else
        var q := Extender(c.rightToLeft)(query, step.token.value);
        NotBlankAround(if c.rightToLeft then [] else query + " ", step.token.value, if c.rightToLeft then " " + query else []);
        assert q == (if c.rightToLeft then [] else query + " ") + step.token.value + (if c.rightToLeft then " " + query else []);
        if accepts(Trim(q)) then Growth(Some(Trim(q)), step.cursor)
        else Grow(vocabulary, accepts, step.cursor, q)
  }

  /** How the loop extends its query by a word: `$"{queryText} {tokenPeek}"`,
      or the word in front when parsing right to left. */
  function Extender(rightToLeft: bool): (string, string) -> string {
    if rightToLeft then (q: string, w: string) => w + " " + q
    else (q: string, w: string) => q + " " + w
  }

  /** The acceptance test of a free-text kind. */
  function Acceptor(k: Kind): string -> bool
    requires IsTextTokenType(k)
  {
    match k
    case Text(cfg) =>
      var vocabulary := if cfg.validValues.Some? then cfg.validValues.value else [];
      (q: string) => ExactAccepts(vocabulary, q)
    case LDText(cfg, maxDistance) =>
      var vocabulary := if cfg.validValues.Some? then cfg.validValues.value else [];
      (q: string) => FuzzyAccepts(vocabulary, maxDistance, q)
  }

  /** The first entry within `maxDistance` edits of the query, the entry a
      fuzzy match stands for. */
  function FirstWithin(vocabulary: seq<string>, maxDistance: int, query: string): (r: Option<string>)
    ensures r.Some? <==> FuzzyAccepts(vocabulary, maxDistance, query)
    ensures r.Some? ==>
      exists i :: && 0 <= i < |vocabulary| && vocabulary[i] == r.value
                  && Levenshtein.Distance(r.value, query) <= maxDistance
                  && forall j :: 0 <= j < i ==> Levenshtein.Distance(vocabulary[j], query) > maxDistance
    decreases |vocabulary|
  {
    if vocabulary == [] then None
    else if Levenshtein.Distance(vocabulary[0], query) <= maxDistance then Some(vocabulary[0])
    else
      var r := FirstWithin(vocabulary[1..], maxDistance, query);
      assert forall i :: 1 <= i < |vocabulary| ==> vocabulary[1..][i - 1] == vocabulary[i];
      assert FuzzyAccepts(vocabulary[1..], maxDistance, query) ==> FuzzyAccepts(vocabulary, maxDistance, query);
      r
  }

  /** What a free-text kind answers for the query it accepted: `Text` the
      query in input spelling, `LDText` the first vocabulary entry close to
      it (the answer its unit tests expect; the code answers with the query). */
  function Answer(k: Kind, query: string): (r: string)
    requires IsTextTokenType(k)
    ensures k.Text? ==> r == query
    ensures k.LDText? && Acceptor(k)(query) ==>
      var vocabulary := if k.text.validValues.Some? then k.text.validValues.value else [];
      exists i :: && 0 <= i < |vocabulary| && vocabulary[i] == r
                  && Levenshtein.Distance(r, query) <= k.maxDistance
                  && forall j :: 0 <= j < i ==> Levenshtein.Distance(vocabulary[j], query) > k.maxDistance
  {
    if k.LDText? then
      var vocabulary := if k.text.validValues.Some? then k.text.validValues.value else [];
      match FirstWithin(vocabulary, k.maxDistance, query)
      case Some(e) => e
      case None => query
    else query
  }

  /** `TryGetTokenFromInput` as written: grow against a non-empty
      vocabulary and answer with the accepted query, or take everything left
      and match when it is not empty. */
  function TextInputAsWritten(k: Kind, c: Cursor): (r: Extraction)
    requires Valid(c) && IsTextTokenType(k)
    ensures Shrunk(c, r.cursor) && r.result.Success?
    ensures (k.text.validValues.None? || k.text.validValues.value == []) ==>
      r.cursor == All(c).cursor
      && (r.result.value.Some? <==> Join(' ', Remaining(c)) != [])
      && (r.result.value.Some? ==> r.result.value.value == VStr(Join(' ', Remaining(c))))
    ensures k.text.validValues.Some? && k.text.validValues.value != [] && r.result.value.Some? ==>
      r.result.value.value.VStr? && Acceptor(k)(r.result.value.value.s)
  {
    var cfg := k.text;
    if cfg.validValues.Some? && |cfg.validValues.value| > 0 then
      var g := Grow(cfg.validValues.value, Acceptor(k), c, "");
      Extraction(Success(MapOption(g.matchText, (s: string) => VStr(s))), g.cursor)
    else
      var step := All(c);
      if step.token.value == [] then Extraction(Success(None), step.cursor)
      else Extraction(Success(Some(VStr(step.token.value))), step.cursor)
  }

  /** `TryGetTokenFromInput`, with the answer to an accepted query taken
      from the vocabulary for `LDText`: a `Text` match answers with the
      query, an `LDText` match with an entry of the vocabulary. */
  function TextInput(k: Kind, c: Cursor): (r: Extraction)
    requires Valid(c) && IsTextTokenType(k)
    ensures Shrunk(c, r.cursor) && r.result.Success?
    ensures (k.text.validValues.None? || k.text.validValues.value == []) ==>
      r.cursor == All(c).cursor
      && (r.result.value.Some? <==> Join(' ', Remaining(c)) != [])
      && (r.result.value.Some? ==> r.result.value.value == VStr(Join(' ', Remaining(c))))
    ensures k.text.validValues.Some? && k.text.validValues.value != [] && r.result.value.Some? ==>
      && r.result.value.value.VStr?
      && (k.Text? ==> Acceptor(k)(r.result.value.value.s))
      && (k.LDText? ==> r.result.value.value.s in k.text.validValues.value)
  {
    var w := TextInputAsWritten(k, c);
    if k.text.validValues.Some? && k.text.validValues.value != [] && w.result.value.Some? then
      Extraction(Success(Some(VStr(Answer(k, w.result.value.value.s)))), w.cursor)
    else w
  }

  /** A string with a character that is not white space stays so when
      text is added on either side. */
  lemma NotBlankAround(a: string, w: string, b: string)
    requires !IsBlank(w)
    ensures !IsBlank(a + w + b)
  {
    var i :| 0 <= i < |w| && !IsWhiteSpace(w[i]);
    assert (a + w + b)[|a| + i] == w[i];
  }

  /** `TryGetTokenFromContext`: the alias or the slot name; a value that is
      not a string throws; with a vocabulary it must equal an entry ignoring
      case, without one any value matches. */
  function TextContext(k: Kind, name: string, ctx: RequestContext): (r: Result<Option<Value>, Error>)
    requires IsTextTokenType(k)
    ensures var v := Get(ctx, ContextVariable(name, k.text.contextVariableName));
      && (v.None? ==> r == Success(None))
      && (v.Some? && !v.value.VStr? ==> r == Failure(InvalidCast))
      && (v.Some? && v.value.VStr? ==>
            r.Success? && (r.value.Some? ==> r.value.value == v.value)
            && (r.value.Some? <==>
                  (k.text.validValues.None? || k.text.validValues.value == []
                   || ExactAccepts(k.text.validValues.value, v.value.s))))
  {
    var cfg := k.text;
    var v := Get(ctx, ContextVariable(name, cfg.contextVariableName));
    if v.None? then Success(None)
    else match AsString(v.value)
      case None => Failure(InvalidCast)
      case Some(s) =>
        if cfg.validValues.Some? && |cfg.validValues.value| > 0 then
          if exists i :: 0 <= i < |cfg.validValues.value| && EqualsIgnoreCase(cfg.validValues.value[i], s)
          then Success(Some(VStr(s)))
          else Success(None)
        else Success(Some(VStr(s)))
  }

  // ---- The growth loop as a whole ----

  /** The query left to right after the words `ws`: each one preceded by a
      space, as `$"{queryText} {tokenPeek}"` builds it. */
  function LeadSpaced(ws: seq<string>): string {
    if |ws| == 0 then [] else LeadSpaced(ws[..|ws| - 1]) + " " + ws[|ws| - 1]
  }

  /** The untrimmed query after the words `ws` (in input order): right to
      left each word is prepended with a space after it. */
  function Query(rightToLeft: bool, ws: seq<string>): string {
    if rightToLeft then SpaceTerminated(ws) else LeadSpaced(ws)
  }

  /** The first `k` words at the active end, in input order. */
  function Taken(c: Cursor, k: nat): seq<string>
    requires Valid(c) && k <= |Remaining(c)|
  {
    var rest := Remaining(c);
    if c.rightToLeft then rest[|rest| - k..] else rest[..k]
  }

  /** No token of white space only. The tokenizer splits on spaces alone,
      so a cursor built from text does not guarantee this: a tab between two
      spaces is a token of its own. On such a token the growth loop stops
      without a match (`Grow`); the lemmas below that require this predicate
      describe the inputs where that stop does not occur. */
  predicate NoBlankWords(c: Cursor)
    requires Valid(c)
  {
    forall i :: c.left <= i <= c.right ==> c.tokens[i] == [] || !IsBlank(c.tokens[i])
  }

  /** The trimmed query the loop tests after taking the first `j` words at
      the active end. */
  function QueryAfter(c: Cursor, j: nat): string
    requires Valid(c) && j <= |Remaining(c)|
  {
    Trim(Query(c.rightToLeft, Taken(c, j)))
  }

  /** Extending the empty query word by word gives the words taken, in
      input order, as `Query` lays them out. */
  lemma {:induction false} QueryAtTaken(c: Cursor, j: nat)
    requires Valid(c) && j <= |Remaining(c)|
    ensures QueryAt(Extender(c.rightToLeft), c, "", j) == Query(c.rightToLeft, Taken(c, j))
    decreases j
  {
    if j > 0 {
      QueryAtTaken(c, j - 1);
      var rest := Remaining(c);
      if c.rightToLeft {
        assert Taken(c, j)[0] == NextWord(c, j - 1);
        assert Taken(c, j)[1..] == Taken(c, j - 1);
      } else {
        assert Taken(c, j)[j - 1] == NextWord(c, j - 1);
        assert Taken(c, j)[..j - 1] == Taken(c, j - 1);
      }
    }
  }

  /** Every query of fewer than `k` words grown from `q0` was rejected,
      stated one word at a time (`RejectedBeforeAll` gives the quantified
      form). */
  predicate RejectedBefore(grow: (string, string) -> string, accepts: string -> bool, c: Cursor, q0: string, k: nat)
    requires Valid(c) && k <= |Remaining(c)|
    decreases k
  {
    k <= 1 || (RejectedBefore(grow, accepts, c, q0, k - 1) && !accepts(Trim(QueryAt(grow, c, q0, k - 1))))
  }

  lemma {:induction false} RejectedBeforeAll(grow: (string, string) -> string, accepts: string -> bool, c: Cursor, q0: string, k: nat)
    requires Valid(c) && k <= |Remaining(c)|
    ensures RejectedBefore(grow, accepts, c, q0, k) <==> forall j :: 1 <= j < k ==> !accepts(Trim(QueryAt(grow, c, q0, j)))
    decreases k
  {
    if k > 1 {
      RejectedBeforeAll(grow, accepts, c, q0, k - 1);
      assert RejectedBefore(grow, accepts, c, q0, k)
        == (RejectedBefore(grow, accepts, c, q0, k - 1) && !accepts(Trim(QueryAt(grow, c, q0, k - 1))));
    }
  }

  /** How many words the loop consumed. */
  function GrowCount(vocabulary: seq<string>, accepts: string -> bool, c: Cursor, query: string): (n: nat)
    requires Valid(c)
    ensures n <= |Remaining(c)|
  {
    var r := Grow(vocabulary, accepts, c, query);
    ShrunkAtOneEnd(c, r.cursor);
    |Remaining(c)| - |Remaining(r.cursor)|
  }

  /** The loop consumed `k` words from `q0` and answered `m`: every shorter
      query was rejected; a match is the trimmed query of all `k` words, and
      without one the query of all `k` was rejected too. */
  predicate GrowthStory(grow: (string, string) -> string, accepts: string -> bool, c: Cursor, q0: string, k: nat, m: Option<string>)
    requires Valid(c) && k <= |Remaining(c)|
  {
    RejectedBefore(grow, accepts, c, q0, k)
    && (m.Some? ==> k >= 1 && m.value == Trim(QueryAt(grow, c, q0, k)))
    && (m.None? && k >= 1 ==> !accepts(Trim(QueryAt(grow, c, q0, k))))
  }

  /** A rejected first word in front of rejections from the cursor after it
      gives rejections one word longer from the cursor before it. */
  lemma {:induction false} RejectedShift(grow: (string, string) -> string, accepts: string -> bool, c: Cursor, q0: string, k1: nat)
    requires Valid(c) && !IsEmpty(c) && Next(c).token.value != []
    requires k1 <= |Remaining(Next(c).cursor)|
    requires RejectedBefore(grow, accepts, Next(c).cursor, grow(q0, NextWord(c, 0)), k1)
    requires !accepts(Trim(grow(q0, NextWord(c, 0))))
    ensures k1 + 1 <= |Remaining(c)| && RejectedBefore(grow, accepts, c, q0, k1 + 1)
    decreases k1
  {
    if k1 > 1 {
      RejectedShift(grow, accepts, c, q0, k1 - 1);
      QueryShift(grow, c, q0, k1 - 1);
    } else if k1 == 1 {
      assert QueryAt(grow, c, q0, 1) == grow(q0, NextWord(c, 0));
    }
  }

  /** A rejected first word in front of a story of `k1` words from the
      cursor after it gives a story of `k == k1 + 1` words from the cursor
      before it, with the same answer. */
  lemma StoryCons(grow: (string, string) -> string, accepts: string -> bool, c: Cursor, q0: string,
                  k1: nat, m1: Option<string>, k: nat, m: Option<string>)
    requires Valid(c) && !IsEmpty(c) && Next(c).token.value != []
    requires k1 <= |Remaining(Next(c).cursor)|
    requires GrowthStory(grow, accepts, Next(c).cursor, grow(q0, NextWord(c, 0)), k1, m1)
    requires !accepts(Trim(grow(q0, NextWord(c, 0))))
    requires k == k1 + 1 && m == m1
    ensures k <= |Remaining(c)| && GrowthStory(grow, accepts, c, q0, k, m)
  {
    RejectedShift(grow, accepts, c, q0, k1);
    QueryShift(grow, c, q0, k1);
  }

  /** A turn of the loop that consumes a word whose query is rejected. */
  lemma GrowOn(vocabulary: seq<string>, accepts: string -> bool, c: Cursor, query: string)
    requires Valid(c) && SomeAtLeast(vocabulary, |query|) && !IsEmpty(c) && !IsBlank(NextWord(c, 0))
    requires !accepts(Trim(Extender(c.rightToLeft)(query, NextWord(c, 0))))
    ensures Next(c).token.value != [] && |Remaining(Next(c).cursor)| + 1 == |Remaining(c)|
    ensures var q1 := Extender(c.rightToLeft)(query, NextWord(c, 0));
      Grow(vocabulary, accepts, c, query) == Grow(vocabulary, accepts, Next(c).cursor, q1)
      && GrowCount(vocabulary, accepts, c, query) == GrowCount(vocabulary, accepts, Next(c).cursor, q1) + 1
  {
    assert NextWord(c, 0) == Peek(c).value;
    StepShape(c);
  }

  /** The loop stops at once: no entry is long enough, the input ended, the
      word is missing, or its query is accepted. */
  lemma GrowBase(vocabulary: seq<string>, accepts: string -> bool, c: Cursor, query: string)
    requires Valid(c) && NoBlankWords(c)
    requires !SomeAtLeast(vocabulary, |query|) || IsEmpty(c) || IsBlank(NextWord(c, 0))
      || accepts(Trim(Extender(c.rightToLeft)(query, NextWord(c, 0))))
    ensures GrowthStory(Extender(c.rightToLeft), accepts, c, query,
                        GrowCount(vocabulary, accepts, c, query), Grow(vocabulary, accepts, c, query).matchText)
  {
    if SomeAtLeast(vocabulary, |query|) && !IsEmpty(c) {
      assert NextWord(c, 0) == Peek(c).value;
      if IsBlank(Peek(c).value) {
        assert Peek(c).value == [];
      }
    }
  }

  /** The loop consumes words until the first accepted query and answers
      with it: no shorter query was accepted. */
  lemma {:induction false} GrowSpec(vocabulary: seq<string>, accepts: string -> bool, c: Cursor, query: string)
    requires Valid(c) && NoBlankWords(c)
    ensures GrowthStory(Extender(c.rightToLeft), accepts, c, query,
                        GrowCount(vocabulary, accepts, c, query), Grow(vocabulary, accepts, c, query).matchText)
    decreases |Remaining(c)|
  {
    if !SomeAtLeast(vocabulary, |query|) || IsEmpty(c) || IsBlank(NextWord(c, 0))
      || accepts(Trim(Extender(c.rightToLeft)(query, NextWord(c, 0)))) {
      GrowBase(vocabulary, accepts, c, query);
    } else {
      GrowOn(vocabulary, accepts, c, query);
      assert NoBlankWords(Next(c).cursor);
      var c1 := Next(c).cursor;
      var q1 := Extender(c.rightToLeft)(query, NextWord(c, 0));
      GrowSpec(vocabulary, accepts, c1, q1);
      StoryCons(Extender(c.rightToLeft), accepts, c, query,
                GrowCount(vocabulary, accepts, c1, q1), Grow(vocabulary, accepts, c1, q1).matchText,
                GrowCount(vocabulary, accepts, c, query), Grow(vocabulary, accepts, c, query).matchText);
    }
  }

  /** The loop reaches the `m`-th word when every query before it finds an
      entry at least as long and every word is there: then it answers, and
      consumes at most `m` words. */
  lemma {:induction false} GrowReaches(vocabulary: seq<string>, accepts: string -> bool, c: Cursor, query: string, m: nat)
    requires Valid(c) && NoBlankWords(c) && 1 <= m <= |Remaining(c)|
    requires forall j :: 0 <= j < m ==> NextWord(c, j) != []
    requires forall j :: 0 <= j < m ==> SomeAtLeast(vocabulary, |QueryAt(Extender(c.rightToLeft), c, query, j)|)
    requires accepts(Trim(QueryAt(Extender(c.rightToLeft), c, query, m)))
    ensures Grow(vocabulary, accepts, c, query).matchText.Some?
    ensures GrowCount(vocabulary, accepts, c, query) <= m
    decreases m
  {
    var grow := Extender(c.rightToLeft);
    var w := NextWord(c, 0);
    assert SomeAtLeast(vocabulary, |QueryAt(grow, c, query, 0)|);
    assert QueryAt(grow, c, query, 1) == grow(query, w);
    if accepts(Trim(grow(query, w))) {
      ReachFirst(vocabulary, accepts, c, query);
    } else {
      assert m != 1;
      ReachShift(vocabulary, accepts, c, query, m);
      QueryShift(grow, c, query, m - 1);
      GrowReaches(vocabulary, accepts, Next(c).cursor, grow(query, w), m - 1);
    }
  }

  /** The first word is there and not blank: the loop takes it. */
  lemma FirstSolid(c: Cursor)
    requires Valid(c) && NoBlankWords(c) && !IsEmpty(c) && NextWord(c, 0) != []
    ensures !IsBlank(NextWord(c, 0))
  {
    var i := if c.rightToLeft then c.right else c.left;
    assert NextWord(c, 0) == c.tokens[i];
  }

  /** The loop answers with the first word when its query is accepted. */
  lemma ReachFirst(vocabulary: seq<string>, accepts: string -> bool, c: Cursor, query: string)
    requires Valid(c) && NoBlankWords(c) && !IsEmpty(c) && NextWord(c, 0) != []
    requires SomeAtLeast(vocabulary, |query|)
    requires accepts(Trim(Extender(c.rightToLeft)(query, NextWord(c, 0))))
    ensures Grow(vocabulary, accepts, c, query).matchText.Some?
    ensures GrowCount(vocabulary, accepts, c, query) <= 1
  {
    FirstSolid(c);
    assert NextWord(c, 0) == Peek(c).value;
  }

  /** A rejected first word: the conditions of `GrowReaches` hold one word
      further on, and whatever the loop does from there it does from here
      with one more word consumed. */
  lemma ReachShift(vocabulary: seq<string>, accepts: string -> bool, c: Cursor, query: string, m: nat)
    requires Valid(c) && NoBlankWords(c) && 2 <= m <= |Remaining(c)|
    requires forall j :: 0 <= j < m ==> NextWord(c, j) != []
    requires forall j :: 0 <= j < m ==> SomeAtLeast(vocabulary, |QueryAt(Extender(c.rightToLeft), c, query, j)|)
    requires !accepts(Trim(Extender(c.rightToLeft)(query, NextWord(c, 0))))
    ensures var c1, q1 := Next(c).cursor, Extender(c.rightToLeft)(query, NextWord(c, 0));
      && Valid(c1) && NoBlankWords(c1) && m - 1 <= |Remaining(c1)| && c1.rightToLeft == c.rightToLeft
      && (forall j :: 0 <= j < m - 1 ==> NextWord(c1, j) != [])
      && (forall j :: 0 <= j < m - 1 ==> SomeAtLeast(vocabulary, |QueryAt(Extender(c1.rightToLeft), c1, q1, j)|))
      && Grow(vocabulary, accepts, c, query) == Grow(vocabulary, accepts, c1, q1)
      && GrowCount(vocabulary, accepts, c, query) == GrowCount(vocabulary, accepts, c1, q1) + 1
  {
    var grow := Extender(c.rightToLeft);
    var c1, q1 := Next(c).cursor, grow(query, NextWord(c, 0));
    assert SomeAtLeast(vocabulary, |QueryAt(grow, c, query, 0)|);
    FirstSolid(c);
    GrowOn(vocabulary, accepts, c, query);
    assert NoBlankWords(c1);
    ReachWords(vocabulary, c, query, m);
  }

  /** The words and the guards before the `m`-th word, one word further on. */
  lemma ReachWords(vocabulary: seq<string>, c: Cursor, query: string, m: nat)
    requires Valid(c) && 2 <= m <= |Remaining(c)| && Next(c).token.value != []
    requires forall j :: 0 <= j < m ==> NextWord(c, j) != []
    requires forall j :: 0 <= j < m ==> SomeAtLeast(vocabulary, |QueryAt(Extender(c.rightToLeft), c, query, j)|)
    ensures var c1, q1 := Next(c).cursor, Extender(c.rightToLeft)(query, NextWord(c, 0));
      && m - 1 <= |Remaining(c1)|
      && (forall j :: 0 <= j < m - 1 ==> NextWord(c1, j) != [])
      && (forall j :: 0 <= j < m - 1 ==> SomeAtLeast(vocabulary, |QueryAt(Extender(c1.rightToLeft), c1, q1, j)|))
  {
    var grow := Extender(c.rightToLeft);
    var c1, q1 := Next(c).cursor, grow(query, NextWord(c, 0));
    forall j | 0 <= j < m - 1
      ensures NextWord(c1, j) != []
      ensures SomeAtLeast(vocabulary, |QueryAt(grow, c1, q1, j)|)
    {
      NextWordShift(c, j);
      QueryShift(grow, c, query, j);
    }
  }

  /** The loop consumes at most `m` words when no entry is as long as the
      query of the first `m`. */
  lemma {:induction false} GrowWithin(vocabulary: seq<string>, accepts: string -> bool, c: Cursor, query: string, m: nat)
    requires Valid(c) && NoBlankWords(c) && m <= |Remaining(c)|
    requires !SomeAtLeast(vocabulary, |QueryAt(Extender(c.rightToLeft), c, query, m)|)
    ensures GrowCount(vocabulary, accepts, c, query) <= m
    decreases m
  {
    var grow := Extender(c.rightToLeft);
    if m > 0 && SomeAtLeast(vocabulary, |query|) && !IsBlank(NextWord(c, 0)) && !accepts(Trim(grow(query, NextWord(c, 0)))) {
      WithinShift(vocabulary, accepts, c, query, m);
      GrowWithin(vocabulary, accepts, Next(c).cursor, grow(query, NextWord(c, 0)), m - 1);
    } else if m > 0 && SomeAtLeast(vocabulary, |query|) {
      assert NextWord(c, 0) == Peek(c).value;
    }
  }

  /** A rejected first word: the condition of `GrowWithin` holds one word
      further on, and the loop from there consumes one word fewer. */
  lemma WithinShift(vocabulary: seq<string>, accepts: string -> bool, c: Cursor, query: string, m: nat)
    requires Valid(c) && NoBlankWords(c) && 1 <= m <= |Remaining(c)|
    requires !SomeAtLeast(vocabulary, |QueryAt(Extender(c.rightToLeft), c, query, m)|)
    requires SomeAtLeast(vocabulary, |query|) && !IsBlank(NextWord(c, 0))
    requires !accepts(Trim(Extender(c.rightToLeft)(query, NextWord(c, 0))))
    ensures var c1, q1 := Next(c).cursor, Extender(c.rightToLeft)(query, NextWord(c, 0));
      && Valid(c1) && NoBlankWords(c1) && m - 1 <= |Remaining(c1)| && c1.rightToLeft == c.rightToLeft
      && !SomeAtLeast(vocabulary, |QueryAt(Extender(c1.rightToLeft), c1, q1, m - 1)|)
      && GrowCount(vocabulary, accepts, c, query) == GrowCount(vocabulary, accepts, c1, q1) + 1
  {
    GrowOn(vocabulary, accepts, c, query);
    assert NoBlankWords(Next(c).cursor);
    QueryShift(Extender(c.rightToLeft), c, query, m - 1);
  }

  /** The loop answers with the `m`-th query when every earlier query was
      rejected but still found an entry at least as long, and the `m`-th
      is accepted. */
  lemma GrowAnswersAt(vocabulary: seq<string>, accepts: string -> bool, c: Cursor, m: nat)
    requires Valid(c) && NoBlankWords(c) && 1 <= m <= |Remaining(c)|
    requires forall j :: 0 <= j < m ==> NextWord(c, j) != []
    requires forall j :: 0 <= j < m ==> SomeAtLeast(vocabulary, |QueryAt(Extender(c.rightToLeft), c, "", j)|)
    requires forall j :: 1 <= j < m ==> !accepts(QueryAfter(c, j))
    requires accepts(QueryAfter(c, m))
    ensures Grow(vocabulary, accepts, c, "").matchText == Some(QueryAfter(c, m))
    ensures GrowCount(vocabulary, accepts, c, "") == m
  {
    QueryAtTaken(c, m);
    GrowReaches(vocabulary, accepts, c, "", m);
    GrowFromEmpty(vocabulary, accepts, c);
  }

  /** The loop answers nothing when the queries of the first `m` words are
      all rejected and no entry is as long as the `m`-th. */
  lemma GrowGivesUp(vocabulary: seq<string>, accepts: string -> bool, c: Cursor, m: nat)
    requires Valid(c) && NoBlankWords(c) && m <= |Remaining(c)|
    requires !SomeAtLeast(vocabulary, |QueryAt(Extender(c.rightToLeft), c, "", m)|)
    requires forall j :: 1 <= j <= m ==> !accepts(QueryAfter(c, j))
    ensures Grow(vocabulary, accepts, c, "").matchText == None
  {
    GrowWithin(vocabulary, accepts, c, "", m);
    GrowFromEmpty(vocabulary, accepts, c);
  }

  /** Growing from an empty query consumes words from the active end only,
      up to the first accepted query. */
  lemma GrowFromEmpty(vocabulary: seq<string>, accepts: string -> bool, c: Cursor)
    requires Valid(c) && NoBlankWords(c)
    ensures var g := Grow(vocabulary, accepts, c, "");
      var n := GrowCount(vocabulary, accepts, c, "");
      && |Remaining(g.cursor)| == |Remaining(c)| - n
      && (!c.rightToLeft ==> Remaining(g.cursor) == Remaining(c)[n..])
      && (c.rightToLeft ==> Remaining(g.cursor) == Remaining(c)[..|Remaining(c)| - n])
      && (forall j :: 1 <= j < n ==> !accepts(QueryAfter(c, j)))
      && (g.matchText.Some? ==> n >= 1 && g.matchText.value == QueryAfter(c, n) && accepts(QueryAfter(c, n)))
  {
    var n := GrowCount(vocabulary, accepts, c, "");
    GrowSpec(vocabulary, accepts, c, "");
    ShrunkAtOneEnd(c, Grow(vocabulary, accepts, c, "").cursor);
    RejectedBeforeAll(Extender(c.rightToLeft), accepts, c, "", n);
    forall j | 1 <= j < n
      ensures !accepts(QueryAfter(c, j))
    {
      QueryAtTaken(c, j);
    }
    QueryAtTaken(c, n);
  }

  /** With a vocabulary the loop as written consumes words from the active
      end up to the first query the vocabulary accepts, and answers with
      that query in input spelling; every shorter query was rejected. */
  lemma ShortestMatch(k: Kind, c: Cursor)
    requires Valid(c) && NoBlankWords(c) && IsTextTokenType(k)
    requires k.text.validValues.Some? && k.text.validValues.value != []
    ensures var r := TextInputAsWritten(k, c);
      var n := |Remaining(c)| - |Remaining(r.cursor)|;
      0 <= n <= |Remaining(c)|
      && (!c.rightToLeft ==> Remaining(r.cursor) == Remaining(c)[n..])
      && (c.rightToLeft ==> Remaining(r.cursor) == Remaining(c)[..|Remaining(c)| - n])
      && (forall j :: 1 <= j < n ==> !Acceptor(k)(QueryAfter(c, j)))
      && (r.result.value.Some? ==>
            n >= 1 && r.result.value.value == VStr(QueryAfter(c, n)) && Acceptor(k)(QueryAfter(c, n)))
  {
    var g := Grow(k.text.validValues.value, Acceptor(k), c, "");
    var r := TextInputAsWritten(k, c);
    assert r.cursor == g.cursor;
    assert r.result.value.Some? ==> g.matchText.Some? && r.result.value.value == VStr(g.matchText.value);
    GrowFromEmpty(k.text.validValues.value, Acceptor(k), c);
  }

  lemma {:induction false} LeadSpacedJoin(ws: seq<string>)
    requires ws != []
    ensures LeadSpaced(ws) == " " + Join(' ', ws)
  {
    if |ws| > 1 {
      LeadSpacedJoin(ws[..|ws| - 1]);
      JoinSnoc(ws);
    } else {
      assert ws[..0] == [];
    }
  }

  /** On words without white space at their ends the trimmed query is the
      words joined by single spaces, in input order, whichever the direction. */
  lemma QueryOfSolidWords(rightToLeft: bool, ws: seq<string>)
    requires ws != [] && forall i :: 0 <= i < |ws| ==> Solid(ws[i])
    ensures Trim(Query(rightToLeft, ws)) == Join(' ', ws)
  {
    JoinSolid(ws);
    if rightToLeft {
      SpaceTerminatedJoin(ws);
      TrimTrailingSpace(Join(' ', ws));
    } else {
      LeadSpacedJoin(ws);
      TrimLeadingSpace(Join(' ', ws));
    }
  }

  /** Solid words stay solid when taken from the active end. */
  lemma TakenSolid(c: Cursor, n: nat)
    requires Valid(c) && n <= |Remaining(c)|
    requires forall i :: c.left <= i <= c.right ==> Solid(c.tokens[i])
    ensures forall i :: 0 <= i < |Taken(c, n)| ==> Solid(Taken(c, n)[i])
  {
    var t := Taken(c, n);
    forall i | 0 <= i < |t|
      ensures Solid(t[i])
    {
      if c.rightToLeft {
        assert t[i] == c.tokens[c.right + 1 - n + i];
      } else {
        assert t[i] == c.tokens[c.left + i];
      }
    }
  }

  /** Solid words are never blank. */
  lemma SolidNotBlank(c: Cursor)
    requires Valid(c)
    requires forall i :: c.left <= i <= c.right ==> Solid(c.tokens[i])
    ensures NoBlankWords(c)
  {
    forall i | c.left <= i <= c.right
      ensures c.tokens[i] == [] || !IsBlank(c.tokens[i])
    {
      assert Solid(c.tokens[i]);
    }
  }

  /** On ordinary words the growth loop answers with the consumed words
      joined by single spaces. */
  lemma GrowSolidWords(vocabulary: seq<string>, accepts: string -> bool, c: Cursor)
    requires Valid(c) && forall i :: c.left <= i <= c.right ==> Solid(c.tokens[i])
    ensures var g := Grow(vocabulary, accepts, c, "");
      var n := GrowCount(vocabulary, accepts, c, "");
      g.matchText.Some? ==> n >= 1 && g.matchText.value == Join(' ', Taken(c, n))
  {
    var g := Grow(vocabulary, accepts, c, "");
    var n := GrowCount(vocabulary, accepts, c, "");
    assert g.matchText.Some? ==> n >= 1 && g.matchText.value == QueryAfter(c, n) by {
      SolidNotBlank(c);
      GrowFromEmpty(vocabulary, accepts, c);
    }
    if g.matchText.Some? {
      TakenSolid(c, n);
      QueryOfSolidWords(c.rightToLeft, Taken(c, n));
    }
  }

  /** So on ordinary words the loop as written answers with the consumed
      words joined by single spaces, in input spelling. */
  lemma MatchIsConsumedWords(k: Kind, c: Cursor)
    requires Valid(c) && IsTextTokenType(k)
    requires k.text.validValues.Some? && k.text.validValues.value != []
    requires forall i :: c.left <= i <= c.right ==> Solid(c.tokens[i])
    ensures var r := TextInputAsWritten(k, c);
      var n := |Remaining(c)| - |Remaining(r.cursor)|;
      0 <= n <= |Remaining(c)|
      && (r.result.value.Some? ==> n >= 1 && r.result.value.value == VStr(Join(' ', Taken(c, n))))
  {
    var g := Grow(k.text.validValues.value, Acceptor(k), c, "");
    assert TextInputAsWritten(k, c) == Extraction(Success(MapOption(g.matchText, (s: string) => VStr(s))), g.cursor);
    GrowSolidWords(k.text.validValues.value, Acceptor(k), c);
  }

  // ---- The answer to an accepted query ----

  /** The corrected kind reads exactly what the code reads and differs only
      in the answer to a fuzzy match: `Text` is unchanged, and `LDText`
      answers with the first entry within `maxDistance` of the query the
      code would answer with. */
  lemma CorrectedAnswer(k: Kind, c: Cursor)
    requires Valid(c) && IsTextTokenType(k)
    ensures var r := TextInput(k, c);
      var w := TextInputAsWritten(k, c);
      && r.cursor == w.cursor
      && (r.result.value.Some? <==> w.result.value.Some?)
      && (k.Text? ==> r == w)
      && (k.LDText? && r.result.value.Some? && k.text.validValues.Some? && k.text.validValues.value != [] ==>
            && w.result.value.value.VStr?
            && Acceptor(k)(w.result.value.value.s)
            && r.result.value.value == VStr(FirstWithin(k.text.validValues.value, k.maxDistance, w.result.value.value.s).value))
  {
  }

  /** With a vocabulary an `LDText` slot consumes words up to the first
      query within `maxDistance` of some entry and answers with the first
      such entry. */
  lemma FuzzyMatchIsEntry(k: Kind, c: Cursor)
    requires Valid(c) && NoBlankWords(c) && k.LDText?
    requires k.text.validValues.Some? && k.text.validValues.value != []
    ensures var r := TextInput(k, c);
      var vocabulary := k.text.validValues.value;
      var n := |Remaining(c)| - |Remaining(r.cursor)|;
      && 0 <= n <= |Remaining(c)|
      && (forall j :: 1 <= j < n ==> !FuzzyAccepts(vocabulary, k.maxDistance, QueryAfter(c, j)))
      && (r.result.value.Some? ==>
            && n >= 1
            && FirstWithin(vocabulary, k.maxDistance, QueryAfter(c, n)).Some?
            && r.result.value.value == VStr(FirstWithin(vocabulary, k.maxDistance, QueryAfter(c, n)).value))
  {
    var vocabulary := k.text.validValues.value;
    ShortestMatch(k, c);
    CorrectedAnswer(k, c);
    var w := TextInputAsWritten(k, c);
    var n := |Remaining(c)| - |Remaining(w.cursor)|;
    forall j | 1 <= j < n
      ensures !FuzzyAccepts(vocabulary, k.maxDistance, QueryAfter(c, j))
    {
      FuzzyAcceptor(k, QueryAfter(c, j));
    }
  }

  /** The acceptance test of an `LDText` kind with a vocabulary. */
  lemma FuzzyAcceptor(k: Kind, q: string)
    requires k.LDText? && k.text.validValues.Some?
    ensures IsTextTokenType(k) && Acceptor(k)(q) == FuzzyAccepts(k.text.validValues.value, k.maxDistance, q)
  {
  }
}
