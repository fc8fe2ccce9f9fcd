/** Splitting a text into the maximal runs of characters that are not
    separators, dropping the separators and every empty piece: what
    `string.Split(separators, RemoveEmptyEntries)` does with one-character
    separators, and what a `[a-z]+` match list gives with letters as the
    kept characters. */
module Runs {

  /** The leading run of kept characters. */
  function RunLength(s: string, sep: char -> bool): (r: nat)
    ensures r <= |s|
    ensures forall i :: 0 <= i < r ==> !sep(s[i])
    ensures r < |s| ==> sep(s[r])
  {
    if s == [] || sep(s[0]) then 0 else 1 + RunLength(s[1..], sep)
  }

  /** The pieces concatenated. */
  function Concat(ps: seq<string>): string {
    if ps == [] then [] else ps[0] + Concat(ps[1..])
  }

  /** The text with every separator deleted: each other character is kept
      as often as it occurs, and in order (`KeptAppend`, `KeptSingle`). */
  function Kept(s: string, sep: char -> bool): (r: string)
    ensures |r| <= |s|
    ensures forall i :: 0 <= i < |r| ==> !sep(r[i])
  {
    if s == [] then [] else (if sep(s[0]) then [] else [s[0]]) + Kept(s[1..], sep)
  }

  /** A separator is gone and every other character occurs as often as in
      the text. */
  lemma {:induction false} KeptCounts(s: string, sep: char -> bool)
    ensures forall x :: multiset(Kept(s, sep))[x] == if sep(x) then 0 else multiset(s)[x]
    decreases |s|
  {
    if s != [] {
      KeptCounts(s[1..], sep);
      assert s == [s[0]] + s[1..];
      assert multiset(s) == multiset{s[0]} + multiset(s[1..]);
    }
  }

  /** One character is kept exactly when it is not a separator. */
  lemma KeptSingle(x: char, sep: char -> bool)
    ensures Kept([x], sep) == if sep(x) then [] else [x]
  {
    assert [x][1..] == [];
  }

  lemma {:induction false} KeptAppend(a: string, b: string, sep: char -> bool)
    ensures Kept(a + b, sep) == Kept(a, sep) + Kept(b, sep)
  {
    if a != [] {
      assert (a + b)[0] == a[0];
      assert (a + b)[1..] == a[1..] + b;
      KeptAppend(a[1..], b, sep);
    } else {
      assert a + b == b;
    }
  }

  lemma {:induction false} KeptOfRun(a: string, sep: char -> bool)
    requires forall i :: 0 <= i < |a| ==> !sep(a[i])
    ensures Kept(a, sep) == a
  {
    if a != [] {
      KeptOfRun(a[1..], sep);
    }
  }

  /** The maximal runs of kept characters, left to right. No piece is
      empty, no piece holds a separator, and together they are the text
      with its separators deleted. */
  function Pieces(s: string, sep: char -> bool): (r: seq<string>)
    ensures forall i :: 0 <= i < |r| ==> r[i] != []
    ensures forall i, j :: 0 <= i < |r| && 0 <= j < |r[i]| ==> !sep(r[i][j])
    ensures Concat(r) == Kept(s, sep)
    decreases |s|
  {
    if s == [] then []
    else if sep(s[0]) then
      assert Kept(s, sep) == Kept(s[1..], sep);
      Pieces(s[1..], sep)
    else
      var k := RunLength(s, sep);
      var rest := Pieces(s[k..], sep);
      assert s == s[..k] + s[k..];
      KeptAppend(s[..k], s[k..], sep);
      KeptOfRun(s[..k], sep);
      [s[..k]] + rest
  }

  lemma {:induction false} RunLengthAppend(a: string, b: string, sep: char -> bool)
    requires RunLength(a, sep) < |a| || (b != [] && sep(b[0])) || b == []
    ensures RunLength(a + b, sep) == RunLength(a, sep)
  {
    if a != [] && !sep(a[0]) {
      assert (a + b)[1..] == a[1..] + b;
      RunLengthAppend(a[1..], b, sep);
    }
  }

  /** Splitting at a separator splits the pieces: the pieces of `a`, then
      those of `b`. */
  lemma {:induction false} PiecesAtSeparator(a: string, m: char, b: string, sep: char -> bool)
    requires sep(m)
    ensures Pieces(a + [m] + b, sep) == Pieces(a, sep) + Pieces(b, sep)
    decreases |a|
  {
    var s := a + [m] + b;
    if a == [] {
      assert s[1..] == b;
    } else if sep(a[0]) {
      assert s[1..] == a[1..] + [m] + b;
      PiecesAtSeparator(a[1..], m, b, sep);
    } else {
      var k := RunLength(a, sep);
      RunLengthAppend(a, [m] + b, sep);
      assert s == a + ([m] + b);
      assert s[..k] == a[..k];
      if k < |a| {
        assert s[k..] == a[k..] + [m] + b;
        PiecesAtSeparator(a[k..], m, b, sep);
      } else {
        assert s[k..] == [m] + b;
        assert ([m] + b)[1..] == b;
        assert a[k..] == [];
      }
    }
  }

  /** A run without separators is one piece. */
  lemma {:induction false} PiecesOfRun(a: string, sep: char -> bool)
    requires a != [] && forall i :: 0 <= i < |a| ==> !sep(a[i])
    ensures Pieces(a, sep) == [a]
  {
    assert !sep(a[0]);
    var k := RunLength(a, sep);
    assert k == |a|;
    assert a[..k] == a;
    assert a[k..] == [];
    assert Pieces(a, sep) == [a[..k]] + Pieces(a[k..], sep);
  }

  // ---- The pieces are the maximal runs ----

  /** Only separators. */
  predicate Separators(g: string, sep: char -> bool) {
    forall i :: 0 <= i < |g| ==> sep(g[i])
  }

  /** A text laid out as gaps around pieces:
      `gaps[0] + ps[0] + gaps[1] + ... + ps[n - 1] + gaps[n]`. */
  function Layout(gaps: seq<string>, ps: seq<string>): string
    requires |gaps| == |ps| + 1
    decreases |ps|
  {
    if ps == [] then gaps[0] else gaps[0] + ps[0] + Layout(gaps[1..], ps[1..])
  }

  /** Separators in front change no piece. */
  lemma {:induction false} PiecesAfterSeparators(g: string, x: string, sep: char -> bool)
    requires Separators(g, sep)
    ensures Pieces(g + x, sep) == Pieces(x, sep)
  {
    if g != [] {
      assert (g + x)[0] == g[0];
      assert (g + x)[1..] == g[1..] + x;
      PiecesAfterSeparators(g[1..], x, sep);
    } else {
      assert g + x == x;
    }
  }

  /** Part of the first gap can be moved out in front. */
  lemma {:induction false} LayoutShift(gaps: seq<string>, ps: seq<string>, a: string, b: string)
    requires |gaps| == |ps| + 1 && gaps[0] == a + b
    ensures Layout(gaps, ps) == a + Layout([b] + gaps[1..], ps)
  {
    var gaps' := [b] + gaps[1..];
    assert gaps'[0] == b && gaps'[1..] == gaps[1..];
    if ps != [] {
      var l := Layout(gaps[1..], ps[1..]);
      var p := ps[0];
      assert Layout(gaps, ps) == (a + b) + p + l;
      assert Layout(gaps', ps) == b + p + l;
      assert (a + b) + p + l == a + (b + p + l);
    }
  }

  /** The layout after the first piece, with the first marker of the gap
      that follows it taken out. */
  lemma {:induction false} LayoutAfterFirst(gaps: seq<string>, ps: seq<string>, sep: char -> bool)
    requires |gaps| == |ps| + 1 && ps != [] && gaps[1] != []
    requires forall i :: 0 <= i < |gaps| ==> Separators(gaps[i], sep)
    ensures var gaps' := [gaps[1][1..]] + gaps[2..];
      && Layout(gaps, ps) == gaps[0] + (ps[0] + [gaps[1][0]] + Layout(gaps', ps[1..]))
      && sep(gaps[1][0])
      && forall i :: 0 <= i < |gaps'| ==> Separators(gaps'[i], sep)
  {
    var m := gaps[1][0];
    var gaps' := [gaps[1][1..]] + gaps[2..];
    assert gaps[1] == [m] + gaps[1][1..];
    LayoutShift(gaps[1..], ps[1..], [m], gaps[1][1..]);
    assert gaps[1..][1..] == gaps[2..];
    forall i | 0 <= i < |gaps'|
      ensures Separators(gaps'[i], sep)
    {
      if i > 0 {
        assert gaps'[i] == gaps[i + 1];
      }
    }
  }

  /** Whatever the gaps of separators around them, as long as the pieces
      are non-empty runs without separators and the gaps between two
      pieces are not empty, splitting gives back exactly those pieces: a
      piece is never cut, and two pieces are never merged. */
  lemma {:induction false} PiecesOfLayout(gaps: seq<string>, ps: seq<string>, sep: char -> bool)
    requires |gaps| == |ps| + 1
    requires forall i :: 0 <= i < |gaps| ==> Separators(gaps[i], sep)
    requires forall i :: 0 < i < |ps| ==> gaps[i] != []
    requires forall i :: 0 <= i < |ps| ==> ps[i] != [] && forall j :: 0 <= j < |ps[i]| ==> !sep(ps[i][j])
    ensures Pieces(Layout(gaps, ps), sep) == ps
    decreases |ps|
  {
    if ps == [] {
      PiecesAfterSeparators(gaps[0], [], sep);
      assert gaps[0] + [] == gaps[0];
    } else if gaps[1] == [] {
      LastPieceOfLayout(gaps, ps, sep);
    } else {
      var m := gaps[1][0];
      var gaps' := [gaps[1][1..]] + gaps[2..];
      LayoutAfterFirst(gaps, ps, sep);
      var rest := Layout(gaps', ps[1..]);
      assert forall i :: 0 < i < |ps[1..]| ==> gaps'[i] == gaps[i + 1];
      PiecesOfLayout(gaps', ps[1..], sep);
      PiecesAfterSeparators(gaps[0], ps[0] + [m] + rest, sep);
      PiecesAtSeparator(ps[0], m, rest, sep);
      PiecesOfRun(ps[0], sep);
      assert ps == [ps[0]] + ps[1..];
    }
  }

  /** A piece with nothing after it is the last piece. */
  lemma {:induction false} LastPieceOfLayout(gaps: seq<string>, ps: seq<string>, sep: char -> bool)
    requires |gaps| == |ps| + 1 && ps != [] && gaps[1] == []
    requires Separators(gaps[0], sep)
    requires forall i :: 0 < i < |ps| ==> gaps[i] != []
    requires ps[0] != [] && forall j :: 0 <= j < |ps[0]| ==> !sep(ps[0][j])
    ensures Pieces(Layout(gaps, ps), sep) == ps
  {
    assert |ps| == 1;
    assert Layout(gaps[1..], ps[1..]) == [];
    assert Layout(gaps, ps) == gaps[0] + ps[0];
    PiecesAfterSeparators(gaps[0], ps[0], sep);
    PiecesOfRun(ps[0], sep);
  }
}

/** PunctuationTextSplitter.cs. */
module PunctuationSplitter {
  import opened Wrappers
  import opened Runs

  /** `SplitMarkers`: `,` `;` `.` `!` `:` `?`. */
  predicate IsMarker(c: char) {
    c == ',' || c == ';' || c == '.' || c == '!' || c == ':' || c == '?'
  }

  /** `inputText?.Split(SplitMarkers, RemoveEmptyEntries)`: `null` for
      `null`, otherwise the non-empty marker-free pieces, which concatenate
      to the input with its markers deleted. */
  function Split(input: Option<string>): (r: Option<seq<string>>)
    ensures input.None? <==> r.None?
    ensures r.Some? ==> forall i :: 0 <= i < |r.value| ==> r.value[i] != []
    ensures r.Some? ==> forall i, j :: 0 <= i < |r.value| && 0 <= j < |r.value[i]| ==> !IsMarker(r.value[i][j])
    ensures r.Some? ==> Concat(r.value) == Kept(input.value, IsMarker)
  {
    if input.None? then None else Some(Pieces(input.value, IsMarker))
  }

  /** The pieces are the maximal marker-free runs: whatever non-empty
      marker-free pieces a text is made of, with markers around and at
      least one marker between two of them, `Split` gives back exactly
      those pieces. */
  lemma SplitIsMaximalRuns(gaps: seq<string>, ps: seq<string>)
    requires |gaps| == |ps| + 1
    requires forall i :: 0 <= i < |gaps| ==> Separators(gaps[i], IsMarker)
    requires forall i :: 0 < i < |ps| ==> gaps[i] != []
    requires forall i :: 0 <= i < |ps| ==> ps[i] != [] && forall j :: 0 <= j < |ps[i]| ==> !IsMarker(ps[i][j])
    ensures Split(Some(Layout(gaps, ps))) == Some(ps)
  {
    PiecesOfLayout(gaps, ps, IsMarker);
  }

  /** Sentences joined by a marker come back apart. */
  lemma SplitSentences(a: string, m: char, b: string)
    requires IsMarker(m)
    requires a != [] && forall i :: 0 <= i < |a| ==> !IsMarker(a[i])
    requires b != [] && forall i :: 0 <= i < |b| ==> !IsMarker(b[i])
    ensures Split(Some(a + [m] + b)) == Some([a, b])
  {
    PiecesAtSeparator(a, m, b, IsMarker);
    PiecesOfRun(a, IsMarker);
    PiecesOfRun(b, IsMarker);
    assert Pieces(a + [m] + b, IsMarker) == [a] + [b];
    assert [a] + [b] == [a, b];
  }
}
