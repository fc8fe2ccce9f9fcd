/** The edit distance used by the fuzzy kinds: a recursive definition over
    prefixes, and the two dynamic-programming implementations of the source
    (`StringExtensions.CalculateLevenshteinDistance` and the private
    `ComputeLevenshteinDistance` of the fuzzy word kind), each proved equal to
    it. Characters are compared exactly, so the distance is case-sensitive. */
module Levenshtein {

  function Min(a: int, b: int): int { if a <= b then a else b }

  function Min3(a: int, b: int, c: int): (r: int)
    ensures r <= a && r <= b && r <= c
    ensures r == a || r == b || r == c
  {
    Min(Min(a, b), c)
  }

  /** Edit distance between the prefixes `s[..i]` and `t[..j]`: delete,
      insert or substitute, each at cost one. */
  function Lev(s: string, t: string, i: nat, j: nat): nat
    requires i <= |s| && j <= |t|
    decreases i + j
  {
    if i == 0 then j
    else if j == 0 then i
    else Min3(Lev(s, t, i - 1, j) + 1,
              Lev(s, t, i, j - 1) + 1,
              Lev(s, t, i - 1, j - 1) + (if s[i - 1] == t[j - 1] then 0 else 1))
  }

  function Distance(s: string, t: string): nat {
    Lev(s, t, |s|, |t|)
  }

  /** Each prefix step costs at most one. */
  lemma StepBounds(s: string, t: string, i: nat, j: nat)
    requires i <= |s| && j <= |t|
    ensures i > 0 ==> Lev(s, t, i, j) <= Lev(s, t, i - 1, j) + 1
    ensures j > 0 ==> Lev(s, t, i, j) <= Lev(s, t, i, j - 1) + 1
    ensures i > 0 && j > 0 ==> Lev(s, t, i, j) <= Lev(s, t, i - 1, j - 1) + 1
  {
  }

  /** Dropping the last character of `t` raises the distance by at most one. */
  lemma {:induction false} ShorterTarget(s: string, t: string, i: nat, j: nat)
    requires i <= |s| && 1 <= j <= |t|
    ensures Lev(s, t, i, j - 1) <= Lev(s, t, i, j) + 1
  {
    if i > 0 {
      StepBounds(s, t, i, j - 1);
      var d := Lev(s, t, i, j);
      if d == Lev(s, t, i - 1, j) + 1 {
        ShorterTarget(s, t, i - 1, j);
      }
    }
  }

  /** Exchanging the arguments does not change the distance. */
  lemma {:induction false} Symmetric(s: string, t: string, i: nat, j: nat)
    requires i <= |s| && j <= |t|
    ensures Lev(s, t, i, j) == Lev(t, s, j, i)
    decreases i + j
  {
    if i > 0 && j > 0 {
      Symmetric(s, t, i - 1, j);
      Symmetric(s, t, i, j - 1);
      Symmetric(s, t, i - 1, j - 1);
    }
  }

  /** Dropping the last character of `s` raises the distance by at most one. */
  lemma ShorterSource(s: string, t: string, i: nat, j: nat)
    requires 1 <= i <= |s| && j <= |t|
    ensures Lev(s, t, i - 1, j) <= Lev(s, t, i, j) + 1
  {
    Symmetric(s, t, i - 1, j);
    Symmetric(s, t, i, j);
    ShorterTarget(t, s, j, i);
  }

  /** When the last characters agree the distance is the diagonal one: the
      shortcut `StringExtensions` takes. */
  lemma EqualLast(s: string, t: string, i: nat, j: nat)
    requires 1 <= i <= |s| && 1 <= j <= |t| && s[i - 1] == t[j - 1]
    ensures Lev(s, t, i, j) == Lev(s, t, i - 1, j - 1)
  {
    ShorterTarget(s, t, i - 1, j);
    ShorterSource(s, t, i, j - 1);
  }

  lemma {:induction false} SelfDistance(s: string, i: nat)
    requires i <= |s|
    ensures Lev(s, s, i, i) == 0
  {
    if i > 0 {
      SelfDistance(s, i - 1);
    }
  }

  /** Strings that agree on their first `i` characters are at distance zero
      there. */
  lemma {:induction false} CommonPrefix(s: string, t: string, i: nat)
    requires i <= |s| && i <= |t| && s[..i] == t[..i]
    ensures Lev(s, t, i, i) == 0
  {
    if i > 0 {
      assert s[i - 1] == s[..i][i - 1] && t[i - 1] == t[..i][i - 1];
      assert s[..i - 1] == s[..i][..i - 1] && t[..i - 1] == t[..i][..i - 1];
      CommonPrefix(s, t, i - 1);
      EqualLast(s, t, i, i);
    }
  }

  lemma {:induction false} LowerBound(s: string, t: string, i: nat, j: nat)
    requires i <= |s| && j <= |t|
    ensures i - j <= Lev(s, t, i, j) && j - i <= Lev(s, t, i, j)
    decreases i + j
  {
    if i > 0 && j > 0 {
      LowerBound(s, t, i - 1, j);
      LowerBound(s, t, i, j - 1);
      LowerBound(s, t, i - 1, j - 1);
      var d := Lev(s, t, i, j);
      assert d == Lev(s, t, i - 1, j) + 1 || d == Lev(s, t, i, j - 1) + 1
        || d >= Lev(s, t, i - 1, j - 1);
    }
  }

  lemma {:induction false} UpperBound(s: string, t: string, i: nat, j: nat)
    requires i <= |s| && j <= |t|
    ensures Lev(s, t, i, j) <= i || Lev(s, t, i, j) <= j
    ensures Lev(s, t, i, j) <= i + j
    decreases i + j
  {
    if i > 0 && j > 0 {
      UpperBound(s, t, i - 1, j - 1);
      StepBounds(s, t, i, j);
    }
  }

  /** One character appended costs exactly one insertion. */
  lemma OneInsertion(s: string, c: char)
    ensures Distance(s, s + [c]) == 1
  {
    var t := s + [c];
    assert t[..|s|] == s[..|s|];
    CommonPrefix(s, t, |s|);
    StepBounds(s, t, |s|, |s| + 1);
    LowerBound(s, t, |s|, |s| + 1);
  }

  /** A run the two strings share, read in step, costs nothing. */
  lemma {:induction false} CommonRun(s: string, t: string, i: nat, j: nat, k: nat)
    requires i + k <= |s| && j + k <= |t| && s[i..i + k] == t[j..j + k]
    ensures Lev(s, t, i + k, j + k) == Lev(s, t, i, j)
  {
    if k > 0 {
      assert s[i..i + (k - 1)] == s[i..i + k][..k - 1] && t[j..j + (k - 1)] == t[j..j + k][..k - 1];
      CommonRun(s, t, i, j, k - 1);
      assert s[i + k - 1] == s[i..i + k][k - 1] && t[j + k - 1] == t[j..j + k][k - 1];
      EqualLast(s, t, i + k, j + k);
    }
  }

  /** A string with one character inserted at `p` is at most one edit
      away. */
  lemma InsertedAt(s: string, t: string, p: nat)
    requires p <= |s| && |t| == |s| + 1
    requires s[..p] == t[..p] && s[p..] == t[p + 1..]
    ensures Distance(s, t) <= 1
  {
    CommonPrefix(s, t, p);
    StepBounds(s, t, p, p + 1);
    var k := |s| - p;
    assert s[p..p + k] == s[p..] && t[p + 1..p + 1 + k] == t[p + 1..];
    CommonRun(s, t, p, p + 1, k);
  }

  /** One character inserted between two parts costs at most one edit. */
  lemma OneInsertionBetween(a: string, c: char, b: string)
    ensures Distance(a + b, a + [c] + b) <= 1
  {
    var s, t := a + b, a + [c] + b;
    assert s[..|a|] == a && t[..|a|] == a;
    assert s[|a|..] == b && t[|a| + 1..] == b;
    InsertedAt(s, t, |a|);
  }

  /** How many of the first `i` characters of `s` lie in `x`. */
  function CountIn(s: string, x: set<char>, i: nat): (r: nat)
    requires i <= |s|
    ensures r <= i
  {
    if i == 0 then 0 else CountIn(s, x, i - 1) + (if s[i - 1] in x then 1 else 0)
  }

  /** An edit adds at most one character of a set, so the surplus of such
      characters in `t` is a lower bound on the distance. */
  lemma {:induction false} CountBound(s: string, t: string, x: set<char>, i: nat, j: nat)
    requires i <= |s| && j <= |t|
    ensures CountIn(t, x, j) - CountIn(s, x, i) <= Lev(s, t, i, j)
    decreases i + j
  {
    if i > 0 && j > 0 {
      CountBound(s, t, x, i - 1, j);
      CountBound(s, t, x, i, j - 1);
      CountBound(s, t, x, i - 1, j - 1);
    }
  }

  /** The properties the distance is used for: zero on equal strings,
      symmetric, and between the length difference and the longer length. */
  lemma DistanceProperties(s: string, t: string)
    ensures Distance(s, s) == 0
    ensures Distance(s, t) == Distance(t, s)
    ensures |s| - |t| <= Distance(s, t) && |t| - |s| <= Distance(s, t)
    ensures Distance(s, t) <= |s| || Distance(s, t) <= |t|
    ensures Distance(s, t) <= |s| + |t|
  {
    SelfDistance(s, |s|);
    Symmetric(s, t, |s|, |t|);
    LowerBound(s, t, |s|, |t|);
    UpperBound(s, t, |s|, |t|);
  }

  /** A fresh `(n + 1) x (m + 1)` table whose first row and first column
      hold the distances from and to the empty prefix. */
  method NewTable(n: nat, m: nat) returns (d: array2<int>)
    ensures fresh(d) && d.Length0 == n + 1 && d.Length1 == m + 1
    ensures forall a :: 0 <= a <= n ==> d[a, 0] == a
    ensures forall b :: 0 <= b <= m ==> d[0, b] == b
  {
    d := new int[n + 1, m + 1];
    var i := 0;
    while i <= n
      invariant 0 <= i <= n + 1
      invariant forall a :: 0 <= a < i ==> d[a, 0] == a
    {
      d[i, 0] := i;
      i := i + 1;
    }
    var j := 0;
    while j <= m
      invariant 0 <= j <= m + 1
      invariant forall a :: 0 <= a <= n ==> d[a, 0] == a
      invariant forall b :: 0 <= b < j ==> d[0, b] == b
    {
      d[0, j] := j;
      j := j + 1;
    }
  }

  /** The table shape for `s` against `t`. */
  predicate Shaped(s: string, t: string, d: array2<int>)
  {
    d.Length0 == |s| + 1 && d.Length1 == |t| + 1
  }

  /** Columns `0 .. cols - 1` of the table hold the prefix distances. */
  predicate ColumnsDone(s: string, t: string, d: array2<int>, cols: nat)
    reads d
    requires Shaped(s, t, d) && cols <= |t| + 1
  {
    forall a, b :: 0 <= a <= |s| && 0 <= b < cols ==> d[a, b] == Lev(s, t, a, b)
  }

  /** Rows `0 .. rows - 1` of the table hold the prefix distances. */
  predicate RowsDone(s: string, t: string, d: array2<int>, rows: nat)
    reads d
    requires Shaped(s, t, d) && rows <= |s| + 1
  {
    forall a, b :: 0 <= a < rows && 0 <= b <= |t| ==> d[a, b] == Lev(s, t, a, b)
  }

  /** One column of `CalculateLevenshteinDistance`, top to bottom. */
  method FillColumn(s: string, t: string, d: array2<int>, j: nat)
    modifies d
    requires Shaped(s, t, d) && 1 <= j <= |t|
    requires ColumnsDone(s, t, d, j)
    requires forall b :: 0 <= b <= |t| ==> d[0, b] == b
    ensures ColumnsDone(s, t, d, j + 1)
    ensures forall b :: 0 <= b <= |t| ==> d[0, b] == b
  {
    var n := |s|;
    var i := 1;
    assert d[0, j] == Lev(s, t, 0, j);
    while i <= n
      invariant 1 <= i <= n + 1
      invariant forall b :: 0 <= b <= |t| ==> d[0, b] == b
      invariant ColumnsDone(s, t, d, j)
      invariant forall a {:trigger d[a, j]} :: 0 <= a < i ==> d[a, j] == Lev(s, t, a, j)
    {
      ghost var want := Lev(s, t, i, j);
      if s[i - 1] == t[j - 1] {
        EqualLast(s, t, i, j);
        var diag := d[i - 1, j - 1];
        assert diag == Lev(s, t, i - 1, j - 1);
        d[i, j] := diag;
      } else {
        var up, left, diag := d[i - 1, j], d[i, j - 1], d[i - 1, j - 1];
        assert up == Lev(s, t, i - 1, j) && left == Lev(s, t, i, j - 1) && diag == Lev(s, t, i - 1, j - 1);
        d[i, j] := Min(Min(up + 1, left + 1), diag + 1);
      }
      assert d[i, j] == want;
      i := i + 1;
    }
  }

  /** `StringExtensions.CalculateLevenshteinDistance`: column by column,
      copying the diagonal when the characters agree. */
  method CalculateLevenshteinDistance(s: string, t: string) returns (r: int)
    ensures r == Distance(s, t)
  {
    var n := |s|;
    var m := |t|;
    if n == 0 {
      return m;
    }
    if m == 0 {
      return n;
    }
    var d := NewTable(n, m);
    var j := 1;
    while j <= m
      invariant 1 <= j <= m + 1
      invariant forall b :: 0 <= b <= m ==> d[0, b] == b
      invariant ColumnsDone(s, t, d, j)
    {
      FillColumn(s, t, d, j);
      j := j + 1;
    }
    return d[n, m];
  }

  /** One row of `ComputeLevenshteinDistance`, left to right. */
  method FillRow(s: string, t: string, d: array2<int>, i: nat)
    modifies d
    requires Shaped(s, t, d) && 1 <= i <= |s|
    requires RowsDone(s, t, d, i)
    requires d[i, 0] == i
    ensures RowsDone(s, t, d, i + 1)
    ensures forall a :: 0 <= a <= |s| ==> d[a, 0] == old(d[a, 0])
  {
    var m := |t|;
    var j := 1;
    while j <= m
      invariant 1 <= j <= m + 1
      invariant RowsDone(s, t, d, i)
      invariant forall a :: 0 <= a <= |s| ==> d[a, 0] == old(d[a, 0])
      invariant forall b {:trigger d[i, b]} :: 0 <= b < j ==> d[i, b] == Lev(s, t, i, b)
    {
      var cost := if t[j - 1] == s[i - 1] then 0 else 1;
      var up, left, diag := d[i - 1, j], d[i, j - 1], d[i - 1, j - 1];
      assert up == Lev(s, t, i - 1, j) && left == Lev(s, t, i, j - 1) && diag == Lev(s, t, i - 1, j - 1);
      ghost var want := Lev(s, t, i, j);
      d[i, j] := Min(Min(up + 1, left + 1), diag + cost);
      assert d[i, j] == want;
      j := j + 1;
    }
  }

  /** The fuzzy word kind's private `ComputeLevenshteinDistance`: row by row,
      always taking the three-way minimum with a substitution cost. */
  method ComputeLevenshteinDistance(s: string, t: string) returns (r: int)
    ensures r == Distance(s, t)
  {
    var n := |s|;
    var m := |t|;
    if n == 0 {
      return m;
    }
    if m == 0 {
      return n;
    }
    var d := NewTable(n, m);
    var i := 1;
    while i <= n
      invariant 1 <= i <= n + 1
      invariant RowsDone(s, t, d, i)
      invariant forall a :: 0 <= a <= n ==> d[a, 0] == a
    {
      FillRow(s, t, d, i);
      i := i + 1;
    }
    return d[n, m];
  }

  /** The two implementations agree on every pair of strings. */
  method ImplementationsAgree(s: string, t: string) returns (same: bool)
    ensures same
  {
    var a := CalculateLevenshteinDistance(s, t);
    var b := ComputeLevenshteinDistance(s, t);
    same := a == b;
  }
}
