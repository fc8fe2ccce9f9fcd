/** The four expression scorers of the Scorers folder. Every score is a
    count of slots or tokens with some property; the normalized ones
    divide two counts and are exact rationals here. */
module Scorers {
  import opened Wrappers
  import opened Errors
  import opened Kinds
  import opened Syntaxes

  // ---- Counting ----

  /** How many indices below `n` satisfy `p`: LINQ's `Count(predicate)`
      over a sequence of length `n`. */
  function Count(n: nat, p: nat -> bool): (r: nat)
    ensures r <= n
  {
    if n == 0 then 0 else Count(n - 1, p) + (if p(n - 1) then 1 else 0)
  }

  lemma {:induction false} CountMonotone(n: nat, p: nat -> bool, q: nat -> bool)
    requires forall i :: 0 <= i < n && p(i) ==> q(i)
    ensures Count(n, p) <= Count(n, q)
  {
    if n > 0 {
      CountMonotone(n - 1, p, q);
    }
  }

  lemma {:induction false} CountSame(n: nat, p: nat -> bool, q: nat -> bool)
    requires forall i :: 0 <= i < n ==> (p(i) <==> q(i))
    ensures Count(n, p) == Count(n, q)
  {
    if n > 0 {
      CountSame(n - 1, p, q);
    }
  }

  /** The count reaches `n` exactly when every index qualifies. */
  lemma {:induction false} CountAll(n: nat, p: nat -> bool)
    ensures Count(n, p) == n <==> forall i :: 0 <= i < n ==> p(i)
  {
    if n > 0 {
      CountAll(n - 1, p);
    }
  }

  lemma {:induction false} CountMissing(n: nat, p: nat -> bool, j: nat)
    requires j < n && !p(j)
    ensures Count(n, p) < n
  {
    if j < n - 1 {
      CountMissing(n - 1, p, j);
    }
  }

  // ---- What is counted ----

  /** Slot `i` of the syntax is set and not optional (`!t.IsOptional`). */
  predicate MandatorySlotAt(s: Syntax, i: int) {
    0 <= i < |s.tokenTypes| && s.tokenTypes[i].Some? && !s.tokenTypes[i].value.isOptional
  }

  /** Slot `i` is `TextTokenType` (or its subclass) or `RegexTextTokenType`. */
  predicate TextSlotAt(s: Syntax, i: int) {
    0 <= i < |s.tokenTypes| && s.tokenTypes[i].Some? && IsFreeText(s.tokenTypes[i].value.kind)
  }

  /** A slot is `null`: reading `IsOptional` on it throws. */
  predicate HasNullSlot(s: Syntax) {
    exists i :: 0 <= i < |s.tokenTypes| && s.tokenTypes[i].None?
  }

  /** A token is `null`: reading its `Type` throws. */
  predicate HasNullToken(e: Expression) {
    exists i :: 0 <= i < |e.tokens| && e.tokens[i].None?
  }

  predicate HitAt(e: Expression, i: int) {
    0 <= i < |e.tokens| && e.tokens[i].Some?
  }

  predicate InputHitAt(e: Expression, i: int) {
    HitAt(e, i) && e.tokens[i].value.source == InputSource
  }

  predicate MandatoryHitAt(e: Expression, i: int) {
    HitAt(e, i) && !e.tokens[i].value.tokenType.isOptional
  }

  predicate TextHitAt(e: Expression, i: int) {
    HitAt(e, i) && IsFreeText(e.tokens[i].value.tokenType.kind)
  }

  function MandatorySlots(s: Syntax): nat {
    Count(|s.tokenTypes|, i => MandatorySlotAt(s, i))
  }

  function TextSlots(s: Syntax): nat {
    Count(|s.tokenTypes|, i => TextSlotAt(s, i))
  }

  function Hits(e: Expression): nat {
    Count(|e.tokens|, i => HitAt(e, i))
  }

  function InputHits(e: Expression): nat {
    Count(|e.tokens|, i => InputHitAt(e, i))
  }

  function MandatoryHits(e: Expression): nat {
    Count(|e.tokens|, i => MandatoryHitAt(e, i))
  }

  function TextHits(e: Expression): nat {
    Count(|e.tokens|, i => TextHitAt(e, i))
  }

  /** What the parser guarantees of an expression it returns: one token
      position per slot, and a token only where the slot is set, of that
      slot's type. */
  predicate Consistent(e: Expression) {
    && |e.tokens| == |e.syntax.tokenTypes|
    && forall i :: 0 <= i < |e.tokens| && e.tokens[i].Some? ==>
         e.syntax.tokenTypes[i] == Some(e.tokens[i].value.tokenType)
  }

  /** The most points a syntax can give under the default scorer. */
  function DefaultMax(s: Syntax): nat {
    2 * |s.tokenTypes| + MandatorySlots(s)
  }

  function DefaultPoints(e: Expression): nat {
    Hits(e) + InputHits(e) + MandatoryHits(e)
  }

  // ---- ExpressionScorer ----

  /** `ExpressionScorer.GetScore`: a point per token, a point per token
      from the input, and a point per token of a mandatory type, over
      twice the slots plus the mandatory slots. */
  function DefaultScore(e: Expression): (r: Result<real, Error>)
    ensures r.Failure? <==> HasNullSlot(e.syntax) || |e.syntax.tokenTypes| == 0
    ensures HasNullSlot(e.syntax) ==> r == Failure(NullReference)
    ensures !HasNullSlot(e.syntax) && |e.syntax.tokenTypes| == 0 ==> r == Failure(DivideByZero)
    ensures r.Success? ==> r.value >= 0.0
  {
    if HasNullSlot(e.syntax) then Failure(NullReference)
    else if DefaultMax(e.syntax) == 0 then Failure(DivideByZero)
    else Success(DefaultPoints(e) as real / DefaultMax(e.syntax) as real)
  }

  lemma DivideMonotone(a: nat, b: nat, m: nat)
    requires 0 < m && a <= b
    ensures a as real / m as real <= b as real / m as real
  {
  }

  lemma RatioAtMostOne(a: nat, b: nat)
    requires 0 < b && a <= b
    ensures a as real / b as real <= 1.0
    ensures a as real / b as real == 1.0 <==> a == b
  {
  }

  /** The parts of the default score are each bounded by their part of
      the maximum. */
  lemma DefaultPartsBounded(e: Expression)
    requires Consistent(e)
    ensures Hits(e) <= |e.syntax.tokenTypes|
    ensures InputHits(e) <= |e.syntax.tokenTypes|
    ensures MandatoryHits(e) <= MandatorySlots(e.syntax)
    ensures DefaultPoints(e) <= DefaultMax(e.syntax)
  {
    CountMonotone(|e.tokens|, i => MandatoryHitAt(e, i), i => MandatorySlotAt(e.syntax, i));
  }

  /** For a consistent expression the default score lies in [0, 1]. */
  lemma DefaultScoreBounded(e: Expression)
    requires Consistent(e) && DefaultScore(e).Success?
    ensures 0.0 <= DefaultScore(e).value <= 1.0
  {
    DefaultPartsBounded(e);
    RatioAtMostOne(DefaultPoints(e), DefaultMax(e.syntax));
  }

  /** The default score is 1 exactly when every slot was filled from the
      input. */
  lemma DefaultScoreOne(e: Expression)
    requires Consistent(e) && DefaultScore(e).Success?
    ensures DefaultScore(e).value == 1.0 <==> forall i :: 0 <= i < |e.tokens| ==> InputHitAt(e, i)
  {
    DefaultPartsBounded(e);
    RatioAtMostOne(DefaultPoints(e), DefaultMax(e.syntax));
    CountAll(|e.tokens|, i => InputHitAt(e, i));
    if forall i :: 0 <= i < |e.tokens| ==> InputHitAt(e, i) {
      AllFromInputIsFull(e);
      assert DefaultScore(e).value == DefaultPoints(e) as real / DefaultMax(e.syntax) as real;
    } else {
      var j :| 0 <= j < |e.tokens| && !InputHitAt(e, j);
      CountMissing(|e.tokens|, i => InputHitAt(e, i), j);
      assert DefaultPoints(e) < DefaultMax(e.syntax);
    }
  }

  lemma AllFromInputIsFull(e: Expression)
    requires Consistent(e)
    requires forall i :: 0 <= i < |e.tokens| ==> InputHitAt(e, i)
    ensures DefaultPoints(e) == DefaultMax(e.syntax)
  {
    var n := |e.tokens|;
    CountAll(n, i => InputHitAt(e, i));
    forall i | 0 <= i < n
      ensures HitAt(e, i)
      ensures MandatoryHitAt(e, i) <==> MandatorySlotAt(e.syntax, i)
    {
      assert InputHitAt(e, i);
    }
    CountAll(n, i => HitAt(e, i));
    CountSame(n, i => MandatoryHitAt(e, i), i => MandatorySlotAt(e.syntax, i));
    assert Hits(e) == n;
    assert InputHits(e) == n;
    assert MandatoryHits(e) == Count(n, i => MandatorySlotAt(e.syntax, i));
    assert MandatorySlots(e.syntax) == Count(n, i => MandatorySlotAt(e.syntax, i));
  }

  /** `b` keeps every token of `a`, may fill slots `a` left empty, and may
      turn a token taken from the context into the same token taken from
      the input. */
  predicate Improves(a: Option<Token>, b: Option<Token>) {
    a == b || a.None? || (a.Some? && b == Some(a.value.(source := InputSource)))
  }

  /** Filling an empty slot, or switching a filled slot from the context to
      the input, never lowers the default score. */
  lemma DefaultScoreMonotone(e: Expression, f: Expression)
    requires Consistent(e) && Consistent(f) && e.syntax == f.syntax
    requires forall i :: 0 <= i < |e.tokens| ==> Improves(e.tokens[i], f.tokens[i])
    requires DefaultScore(e).Success?
    ensures DefaultScore(f).Success? && DefaultScore(e).value <= DefaultScore(f).value
  {
    DefaultPointsMonotone(e, f);
    DivideMonotone(DefaultPoints(e), DefaultPoints(f), DefaultMax(e.syntax));
  }

  lemma DefaultPointsMonotone(e: Expression, f: Expression)
    requires |e.tokens| == |f.tokens|
    requires forall i :: 0 <= i < |e.tokens| ==> Improves(e.tokens[i], f.tokens[i])
    ensures DefaultPoints(e) <= DefaultPoints(f)
  {
    var n := |e.tokens|;
    CountMonotone(n, i => HitAt(e, i), i => HitAt(f, i));
    CountMonotone(n, i => InputHitAt(e, i), i => InputHitAt(f, i));
    CountMonotone(n, i => MandatoryHitAt(e, i), i => MandatoryHitAt(f, i));
  }

  // ---- RatioExpressionScorer ----

  function RatioMax(s: Syntax): nat {
    2 * |s.tokenTypes| + MandatorySlots(s) + TextSlots(s)
  }

  function RatioPoints(e: Expression, ignoresText: bool): nat {
    DefaultPoints(e) + (if ignoresText then 0 else TextHits(e))
  }

  /** `RatioExpressionScorer.GetScore`: the default points with a further
      point per free-text slot in the maximum and, unless free-text
      matches are ignored, per free-text token in the points. When they
      are not ignored every token's type is read, so a `null` token
      throws. */
  function RatioScore(e: Expression, ignoresText: bool): (r: Result<real, Error>)
    ensures HasNullSlot(e.syntax) ==> r == Failure(NullReference)
    ensures !HasNullSlot(e.syntax) && !ignoresText && HasNullToken(e) ==> r == Failure(NullReference)
    ensures r.Failure? && r.error != NullReference <==>
      !HasNullSlot(e.syntax) && (ignoresText || !HasNullToken(e)) && |e.syntax.tokenTypes| == 0
    ensures r.Success? ==> r.value >= 0.0
  {
    if HasNullSlot(e.syntax) then Failure(NullReference)
    else if !ignoresText && HasNullToken(e) then Failure(NullReference)
    else if RatioMax(e.syntax) == 0 then Failure(DivideByZero)
    else Success(RatioPoints(e, ignoresText) as real / RatioMax(e.syntax) as real)
  }

  lemma TextPartBounded(e: Expression)
    requires Consistent(e)
    ensures TextHits(e) <= TextSlots(e.syntax)
  {
    CountMonotone(|e.tokens|, i => TextHitAt(e, i), i => TextSlotAt(e.syntax, i));
  }

  /** The ratio score never exceeds 1. */
  lemma RatioScoreBounded(e: Expression, ignoresText: bool)
    requires Consistent(e) && RatioScore(e, ignoresText).Success?
    ensures 0.0 <= RatioScore(e, ignoresText).value <= 1.0
  {
    DefaultPartsBounded(e);
    TextPartBounded(e);
    RatioAtMostOne(RatioPoints(e, ignoresText), RatioMax(e.syntax));
  }

  /** When free-text matches are ignored (the default), a syntax with `k`
      free-text slots scores at most `(max - k) / max`. */
  lemma RatioIgnoringCap(e: Expression)
    requires Consistent(e) && RatioScore(e, true).Success?
    ensures RatioScore(e, true).value <=
      (RatioMax(e.syntax) - TextSlots(e.syntax)) as real / RatioMax(e.syntax) as real
  {
    DefaultPartsBounded(e);
    DivideMonotone(RatioPoints(e, true), RatioMax(e.syntax) - TextSlots(e.syntax), RatioMax(e.syntax));
  }

  // ---- MatchCountExpressionScorer ----

  predicate CountedMatchAt(e: Expression, ignoresText: bool, i: int) {
    HitAt(e, i) && (!ignoresText || !IsFreeText(e.tokens[i].value.tokenType.kind))
  }

  /** `MatchCountExpressionScorer.GetScore`: the tokens present, leaving
      out free-text ones when those are ignored. */
  function MatchCountScore(e: Expression, ignoresText: bool): (r: nat)
    ensures r <= |e.tokens|
  {
    Count(|e.tokens|, i => CountedMatchAt(e, ignoresText, i))
  }

  /** Not ignoring counts every token; ignoring counts exactly the tokens
      that are not free text, which is never more. */
  lemma MatchCountIgnoring(e: Expression)
    ensures MatchCountScore(e, false) == Hits(e)
    ensures MatchCountScore(e, true) + TextHits(e) == Hits(e)
    ensures MatchCountScore(e, true) <= MatchCountScore(e, false)
  {
    CountSame(|e.tokens|, i => CountedMatchAt(e, false, i), i => HitAt(e, i));
    CountSplit(|e.tokens|, e);
  }

  lemma {:induction false} CountSplit(n: nat, e: Expression)
    requires n <= |e.tokens|
    ensures Count(n, i => CountedMatchAt(e, true, i)) + Count(n, i => TextHitAt(e, i)) == Count(n, i => HitAt(e, i))
  {
    if n > 0 {
      CountSplit(n - 1, e);
    }
  }

  // ---- MaxMatchesExpressionScorer ----

  /** A token from the input whose type is not `TextTokenType`;
      `RegexTextTokenType` is not excluded. */
  predicate WeightyInputAt(e: Expression, i: int) {
    InputHitAt(e, i) && !IsTextTokenType(e.tokens[i].value.tokenType.kind)
  }

  /** `MaxMatchesExpressionScorer.GetScore`: a point per token and another
      per input token that is not free text; not normalized. */
  function MaxMatchesScore(e: Expression): (r: nat)
    ensures r <= 2 * |e.tokens|
  {
    Hits(e) + Count(|e.tokens|, i => WeightyInputAt(e, i))
  }

  /** Appending a slot's token raises the score by 2 for an input token of
      a kind other than free text (a `RegexText` token included), by 1
      otherwise, so a longer syntax can outscore a shorter one. */
  lemma MaxMatchesAppend(e: Expression, t: Token)
    ensures MaxMatchesScore(e.(tokens := e.tokens + [Some(t)])) ==
      MaxMatchesScore(e) + (if t.source == InputSource && !IsTextTokenType(t.tokenType.kind) then 2 else 1)
  {
    var f := e.(tokens := e.tokens + [Some(t)]);
    var n := |e.tokens|;
    assert f.tokens[n] == Some(t);
    CountSame(n, i => HitAt(f, i), i => HitAt(e, i));
    CountSame(n, i => WeightyInputAt(f, i), i => WeightyInputAt(e, i));
  }

  // ---- The scorer a text processor is built with ----

  datatype Scorer =
    | DefaultScorer
    | RatioScorer(ignoresText: bool)
    | MatchCountScorer(ignoresText: bool)
    | MaxMatchesScorer

  /** `IExpressionScorer.GetScore` for each implementation. The optional
      constructor argument of the ratio and match-count scorers defaults
      to ignoring free-text matches. */
  function Score(s: Scorer, e: Expression): (r: Result<real, Error>)
    ensures s.MatchCountScorer? || s.MaxMatchesScorer? ==> r.Success? && r.value >= 0.0
    ensures s.DefaultScorer? ==> r == DefaultScore(e)
    ensures s.RatioScorer? ==> r == RatioScore(e, s.ignoresText)
    ensures r.Failure? ==> r.error == NullReference || r.error == DivideByZero
  {
    match s
    case DefaultScorer => DefaultScore(e)
    case RatioScorer(ignoresText) => RatioScore(e, ignoresText)
    case MatchCountScorer(ignoresText) => Success(MatchCountScore(e, ignoresText) as real)
    case MaxMatchesScorer => Success(MaxMatchesScore(e) as real)
  }
}
