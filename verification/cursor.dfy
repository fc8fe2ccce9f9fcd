/** The word tokenizer of `TextCursor`: leftmost matches of either a
    double-quoted run or a run of non-space characters, each with every `'`
    deleted afterwards. */
module Tokenizer {
  import opened Wrappers
  import opened Strings

  /** Where a quoted run that opens at `s[0]` ends (one past its closing
      quote): the lazy `.+?` needs at least one character and never crosses
      a line feed. */
  function QuoteEnd(s: string, k: nat): (r: Option<nat>)
    requires 1 <= k <= |s|
    ensures r.Some? ==> k < r.value <= |s| && 3 <= r.value && s[r.value - 1] == '"'
    ensures r.Some? ==> forall j :: k <= j < r.value ==> s[j] != '\n'
    ensures r.Some? ==> forall j :: 2 <= j < r.value - 1 && k <= j ==> s[j] != '"'
    decreases |s| - k
  {
    if k == |s| then None
    else if s[k] == '\n' then None
    else if k >= 2 && s[k] == '"' then Some(k + 1)
    else QuoteEnd(s, k + 1)
  }

  /** The end of the run of non-space characters starting at `k`. */
  function RunEnd(s: string, k: nat): (r: nat)
    requires k <= |s|
    ensures k <= r <= |s|
    ensures r == |s| || s[r] == ' '
    ensures forall j :: k <= j < r ==> s[j] != ' '
    decreases |s| - k
  {
    if k == |s| || s[k] == ' ' then k else RunEnd(s, k + 1)
  }

  /** The regex matches, left to right, before the `'` removal. */
  function RawTokens(s: string): (r: seq<string>)
    ensures forall i :: 0 <= i < |r| ==> |r[i]| > 0
    decreases |s|
  {
    if |s| == 0 then []
    else if s[0] == ' ' then RawTokens(s[1..])
    else
      var e := if s[0] == '"' && QuoteEnd(s, 1).Some? then QuoteEnd(s, 1).value else RunEnd(s, 0);
      [s[..e]] + RawTokens(s[e..])
  }

  /** The token array of a cursor over `s`. */
  function Tokenize(s: string): (r: seq<string>)
    ensures |r| == |RawTokens(s)|
    ensures forall i :: 0 <= i < |r| ==> r[i] == Remove(RawTokens(s)[i], '\'')
    ensures forall i :: 0 <= i < |r| ==> '\'' !in r[i]
  {
    var raw := RawTokens(s);
    seq(|raw|, i requires 0 <= i < |raw| => Remove(raw[i], '\''))
  }

  /** A plain word: what the tokenizer gives back unchanged. */
  predicate PlainWord(w: string) {
    |w| > 0 && ' ' !in w && '"' !in w && '\'' !in w
  }

  lemma {:induction false} RunOverWord(w: string, tail: string, k: nat)
    requires k <= |w| && ' ' !in w && (tail == [] || tail[0] == ' ')
    ensures RunEnd(w + tail, k) == |w|
    decreases |w| - k
  {
    var s := w + tail;
    if k < |w| {
      assert s[k] == w[k];
      RunOverWord(w, tail, k + 1);
    } else if tail != [] {
      assert s[k] == tail[0];
    }
  }

  lemma {:induction false} RemoveAbsent(s: string, c: char)
    requires c !in s
    ensures Remove(s, c) == s
    decreases |s|
  {
    if |s| > 0 {
      assert c !in s[1..];
      assert s == [s[0]] + s[1..];
      RemoveCons(s[0], s[1..], c);
      RemoveAbsent(s[1..], c);
    }
  }

  lemma {:induction false} RawTokensOfJoin(ws: seq<string>)
    requires forall i :: 0 <= i < |ws| ==> PlainWord(ws[i])
    ensures RawTokens(Join(' ', ws)) == ws
    decreases |ws|
  {
    if |ws| == 1 {
      var w := ws[0];
      RunOverWord(w, [], 0);
      assert w + [] == w;
      assert w[..|w|] == w && w[|w|..] == [];
    } else if |ws| > 1 {
      var w := ws[0];
      var rest := Join(' ', ws[1..]);
      var s := Join(' ', ws);
      assert s == w + (" " + rest);
      RunOverWord(w, " " + rest, 0);
      assert s[0] == w[0];
      assert s[..|w|] == w;
      assert s[|w|..] == " " + rest;
      assert (" " + rest)[1..] == rest;
      RawTokensOfJoin(ws[1..]);
      assert RawTokens(s) == [w] + RawTokens(" " + rest);
      assert ws == [w] + ws[1..];
    }
  }

  /** Words without spaces, quotes or apostrophes, joined by single spaces,
      are tokenized back into the same words. */
  lemma TokenizeJoin(ws: seq<string>)
    requires forall i :: 0 <= i < |ws| ==> PlainWord(ws[i])
    ensures Tokenize(Join(' ', ws)) == ws
  {
    RawTokensOfJoin(ws);
    forall i | 0 <= i < |ws|
      ensures Remove(ws[i], '\'') == ws[i]
    {
      RemoveAbsent(ws[i], '\'');
    }
  }

  /** A quoted phrase is one token and keeps its quotes; an apostrophe
      inside a word is dropped. */
  lemma QuotedAndApostrophe()
    ensures RawTokens("\"a b\"") == ["\"a b\""]
    ensures Tokenize("it's") == ["its"]
  {
    var q := "\"a b\"";
    assert QuoteEnd(q, 1) == Some(5) by {
      assert q[1] == 'a' && q[2] == ' ' && q[3] == 'b' && q[4] == '"';
    }
    assert q[..5] == q && q[5..] == [];
    var w := "it's";
    RunOverWord(w, [], 0);
    assert w + [] == w;
    assert w[..4] == w && w[4..] == [];
    assert RawTokens(w) == [w];
    assert Remove(w, '\'') == "its" by {
      assert w == ['i'] + "t's" && "t's" == ['t'] + "'s" && "'s" == ['\''] + "s" && "s" == ['s'] + [];
      RemoveCons('i', "t's", '\'');
      RemoveCons('t', "'s", '\'');
      RemoveCons('\'', "s", '\'');
      RemoveCons('s', [], '\'');
    }
  }
}

/** TextCursor.cs: a two-ended cursor over the token array of the input.
    Tokens are consumed from the left end, or from the right end when the
    cursor parses right to left; one checkpoint can be saved and restored. */
module TextCursors {
  import opened Wrappers
  import opened Strings
  import opened Tokenizer
  import opened RequestContexts

  datatype Cursor = Cursor(
    tokens: seq<string>,
    left: int,
    right: int,
    leftCheckpoint: int,
    rightCheckpoint: int,
    rightToLeft: bool,
    context: Option<RequestContext>)

  /** The bounds stay within the array, crossing by at most one when the
      cursor is empty; the checkpoint is a position of the same kind. */
  predicate Valid(c: Cursor) {
    0 <= c.left <= c.right + 1 <= |c.tokens|
    && 0 <= c.leftCheckpoint <= c.rightCheckpoint + 1 <= |c.tokens|
  }

  /** `d` is `c` after consuming tokens: the same array, direction, context
      and checkpoint, with the bounds moved inwards. */
  predicate Shrunk(c: Cursor, d: Cursor) {
    Valid(d) && d.tokens == c.tokens && d.rightToLeft == c.rightToLeft && d.context == c.context
    && d.leftCheckpoint == c.leftCheckpoint && d.rightCheckpoint == c.rightCheckpoint
    && c.left <= d.left && d.right <= c.right
  }

  lemma ShrunkTransitive(a: Cursor, b: Cursor, c: Cursor)
    requires Shrunk(a, b) && Shrunk(b, c)
    ensures Shrunk(a, c)
  {
  }

  /** A cursor shrunk at one end only still holds a suffix, or a prefix,
      of what it held. */
  lemma ShrunkAtOneEnd(c: Cursor, d: Cursor)
    requires Valid(c) && Shrunk(c, d)
    ensures |Remaining(d)| <= |Remaining(c)|
    ensures d.right == c.right ==> Remaining(d) == Remaining(c)[|Remaining(c)| - |Remaining(d)|..]
    ensures d.left == c.left ==> Remaining(d) == Remaining(c)[..|Remaining(d)|]
  {
    if d.left == c.left {
      assert c.tokens[c.left..d.right + 1] == c.tokens[c.left..c.right + 1][..d.right + 1 - c.left];
    }
  }

  /** The result of `Next` or `All`: the text returned and the moved cursor. */
  datatype Step = Step(token: Option<string>, cursor: Cursor)

  predicate IsEmpty(c: Cursor) {
    c.left > c.right
  }

  /** The tokens not consumed yet, in input order. */
  function Remaining(c: Cursor): (r: seq<string>)
    requires Valid(c)
    ensures |r| == c.right + 1 - c.left
    ensures r == [] <==> IsEmpty(c)
  {
    c.tokens[c.left..c.right + 1]
  }

  /** The constructor: tokenize the text and reset; parsing starts left to
      right. */
  function New(text: string, context: Option<RequestContext>): (r: Cursor)
    ensures Valid(r)
    ensures r.tokens == Tokenize(text) && r.context == context && !r.rightToLeft
    ensures Remaining(r) == Tokenize(text)
  {
    Reset(Cursor(Tokenize(text), 0, 0, 0, 0, false, context))
  }

  /** Both bounds and both checkpoints back to the whole array. */
  function Reset(c: Cursor): (r: Cursor)
    ensures Valid(r)
    ensures r.left == 0 && r.right == |c.tokens| - 1
    ensures r.leftCheckpoint == 0 && r.rightCheckpoint == |c.tokens| - 1
    ensures r.tokens == c.tokens && r.rightToLeft == c.rightToLeft && r.context == c.context
    ensures Remaining(r) == c.tokens
  {
    var n := |c.tokens|;
    var r := c.(left := 0, right := n - 1, leftCheckpoint := 0, rightCheckpoint := n - 1);
    assert c.tokens[0..n] == c.tokens;
    r
  }

  /** The next token at the active end, without moving. */
  function Peek(c: Cursor): (r: Option<string>)
    requires Valid(c)
    ensures r.None? <==> IsEmpty(c)
    ensures r.Some? && !c.rightToLeft ==> r.value == Remaining(c)[0]
    ensures r.Some? && c.rightToLeft ==> r.value == Remaining(c)[|Remaining(c)| - 1]
  {
    if IsEmpty(c) then None
    else if c.rightToLeft then Some(c.tokens[c.right])
    else Some(c.tokens[c.left])
  }

  /** `Next`: the peeked token, and the active end moved past it unless it is
      missing or empty (a lone `'` yields an empty token that blocks). */
  function Next(c: Cursor): (r: Step)
    requires Valid(c)
    ensures Valid(r.cursor) && Shrunk(c, r.cursor)
    ensures r.token == Peek(c)
    ensures r.token.Some? && r.token.value != [] && !c.rightToLeft ==> Remaining(r.cursor) == Remaining(c)[1..]
    ensures r.token.Some? && r.token.value != [] && c.rightToLeft ==> Remaining(r.cursor) == Remaining(c)[..|Remaining(c)| - 1]
    ensures !(r.token.Some? && r.token.value != []) ==> r.cursor == c
    ensures r.cursor.tokens == c.tokens && r.cursor.rightToLeft == c.rightToLeft && r.cursor.context == c.context
    ensures r.cursor.leftCheckpoint == c.leftCheckpoint && r.cursor.rightCheckpoint == c.rightCheckpoint
  {
    var token := Peek(c);
    if token.Some? && token.value != [] then
      if c.rightToLeft then
        DropLast(c.tokens, c.left, c.right);
        Step(token, c.(right := c.right - 1))
      else Step(token, c.(left := c.left + 1))
    else Step(token, c)
  }

  lemma DropLast(t: seq<string>, l: int, r: int)
    requires 0 <= l <= r < |t|
    ensures t[l..r] == t[l..r + 1][..r - l]
  {
  }

  /** The `StringBuilder` loop of `ToString`: tokens `i..right` with a space
      after each one but the last. */
  function Render(tokens: seq<string>, i: int, right: int): string
    requires 0 <= i && right < |tokens|
    decreases right - i + 1
  {
    if i > right then []
    else tokens[i] + (if i + 1 <= right then " " else []) + Render(tokens, i + 1, right)
  }

  lemma {:induction false} RenderJoins(tokens: seq<string>, i: int, right: int)
    requires 0 <= i <= right + 1 <= |tokens|
    ensures Render(tokens, i, right) == Join(' ', tokens[i..right + 1])
    decreases right - i + 1
  {
    if i <= right {
      RenderJoins(tokens, i + 1, right);
      var parts := tokens[i..right + 1];
      assert parts[1..] == tokens[i + 1..right + 1];
      if i + 1 <= right {
        assert Render(tokens, i + 1, right) == Join(' ', parts[1..]);
      } else {
        assert Render(tokens, i + 1, right) == [];
      }
    }
  }

  /** `ToString`: the remaining tokens separated by single spaces. */
  function ToString(c: Cursor): (r: string)
    requires Valid(c)
    ensures r == Join(' ', Remaining(c))
  {
    RenderJoins(c.tokens, c.left, c.right);
    Render(c.tokens, c.left, c.right)
  }

  /** `All`: the remaining text, after which the cursor is empty. The bound
      that moves is the active one. */
  function All(c: Cursor): (r: Step)
    requires Valid(c)
    ensures Valid(r.cursor) && IsEmpty(r.cursor) && Shrunk(c, r.cursor)
    ensures r.token == Some(Join(' ', Remaining(c)))
    ensures c.rightToLeft ==> r.cursor.left == c.left && r.cursor.right == c.left - 1
    ensures !c.rightToLeft ==> r.cursor.right == c.right && r.cursor.left == c.right + 1
    ensures r.cursor.tokens == c.tokens && r.cursor.rightToLeft == c.rightToLeft && r.cursor.context == c.context
    ensures r.cursor.leftCheckpoint == c.leftCheckpoint && r.cursor.rightCheckpoint == c.rightCheckpoint
  {
    var text := ToString(c);
    if c.rightToLeft then Step(Some(text), c.(right := c.left - 1))
    else Step(Some(text), c.(left := c.right + 1))
  }

  function SavePosition(c: Cursor): (r: Cursor)
    requires Valid(c)
    ensures Valid(r)
    ensures r.leftCheckpoint == c.left && r.rightCheckpoint == c.right
    ensures r.left == c.left && r.right == c.right && r.tokens == c.tokens
    ensures r.rightToLeft == c.rightToLeft && r.context == c.context
  {
    c.(leftCheckpoint := c.left, rightCheckpoint := c.right)
  }

  /** Both bounds back to the checkpoint; the direction is not part of it. */
  function RollbackPosition(c: Cursor): (r: Cursor)
    requires Valid(c)
    ensures Valid(r)
    ensures r.left == c.leftCheckpoint && r.right == c.rightCheckpoint
    ensures r.leftCheckpoint == c.leftCheckpoint && r.rightCheckpoint == c.rightCheckpoint
    ensures r.tokens == c.tokens && r.rightToLeft == c.rightToLeft && r.context == c.context
  {
    c.(left := c.leftCheckpoint, right := c.rightCheckpoint)
  }

  function InvertParsing(c: Cursor): (r: Cursor)
    ensures r.rightToLeft == !c.rightToLeft
    ensures r == c.(rightToLeft := r.rightToLeft)
  {
    c.(rightToLeft := !c.rightToLeft)
  }

  /** The `RightToLeftParsing` setter. */
  function SetDirection(c: Cursor, rightToLeft: bool): (r: Cursor)
    ensures r.rightToLeft == rightToLeft
    ensures r == c.(rightToLeft := rightToLeft)
  {
    c.(rightToLeft := rightToLeft)
  }

  /** Whatever was consumed after a save, rolling back gives the saved
      cursor back, apart from the direction, which is kept as it is now. */
  lemma SaveThenRollback(c: Cursor, d: Cursor)
    requires Valid(c) && Valid(d)
    requires d.tokens == c.tokens && d.context == c.context
    requires d.leftCheckpoint == c.left && d.rightCheckpoint == c.right
    ensures RollbackPosition(d) == SavePosition(c).(rightToLeft := d.rightToLeft)
  {
  }

  /** A successful `Next` shrinks the cursor by exactly one token. */
  lemma NextShrinks(c: Cursor)
    requires Valid(c)
    ensures var r := Next(c);
      |Remaining(r.cursor)| == |Remaining(c)| - (if r.token.Some? && r.token.value != [] then 1 else 0)
  {
  }

  /** A fresh cursor over words joined by spaces gives the same text back
      from `All`, whatever the direction. */
  lemma AllOfFreshCursor(ws: seq<string>, context: Option<RequestContext>, rightToLeft: bool)
    requires forall i :: 0 <= i < |ws| ==> PlainWord(ws[i])
    ensures All(SetDirection(New(Join(' ', ws), context), rightToLeft)).token == Some(Join(' ', ws))
  {
    TokenizeJoin(ws);
  }

  // ---- Words at the active end ----

  /** The word after the first `k` at the active end. */
  function NextWord(c: Cursor, k: nat): string
    requires Valid(c) && k < |Remaining(c)|
  {
    var rest := Remaining(c);
    if c.rightToLeft then rest[|rest| - 1 - k] else rest[k]
  }

  /** The query grown from `q0` by the first `k` words at the active end,
      one at a time. */
  function QueryAt(grow: (string, string) -> string, c: Cursor, q0: string, k: nat): string
    requires Valid(c) && k <= |Remaining(c)|
    decreases k
  {
    if k == 0 then q0 else grow(QueryAt(grow, c, q0, k - 1), NextWord(c, k - 1))
  }

  lemma NextWordShift(c: Cursor, k: nat)
    requires Valid(c) && !IsEmpty(c) && Next(c).token.value != []
    requires k + 1 < |Remaining(c)|
    ensures k < |Remaining(Next(c).cursor)| && NextWord(Next(c).cursor, k) == NextWord(c, k + 1)
  {
  }

  /** The queries after a consumed word are the queries after one more word
      from the cursor before it. */
  lemma {:induction false} QueryShift(grow: (string, string) -> string, c: Cursor, q0: string, k: nat)
    requires Valid(c) && !IsEmpty(c) && Next(c).token.value != []
    requires k + 1 <= |Remaining(c)|
    ensures k <= |Remaining(Next(c).cursor)|
    ensures QueryAt(grow, c, q0, k + 1) == QueryAt(grow, Next(c).cursor, grow(q0, NextWord(c, 0)), k)
    decreases k
  {
    if k > 0 {
      QueryShift(grow, c, q0, k - 1);
      NextWordShift(c, k - 1);
    }
  }

  /** A word that is neither missing nor blank is consumed by `Next`. */
  lemma StepShape(c: Cursor)
    requires Valid(c) && !IsEmpty(c) && !IsBlank(Peek(c).value)
    ensures Next(c).token.value != []
    ensures |Remaining(Next(c).cursor)| + 1 == |Remaining(c)|
  {
  }
}
