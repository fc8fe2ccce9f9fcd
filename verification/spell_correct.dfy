/** SpellCorrect.cs: Norvig's spelling corrector. A word the corpus knows
    is kept; otherwise the known words one edit away win, then those two
    edits away, the most frequent first. */
module SpellCorrection {
  import opened Wrappers
  import opened Strings
  import Runs

  const ALPHABET: string := "abcdefghijklmnopqrstuvwxyz"

  /** `(len + n) % len` for the shifts `From` and `To` use. */
  lemma ShiftMod(a: int, m: int)
    requires 0 < m && 0 <= a < 2 * m
    ensures a % m == (if a < m then a else a - m)
  {
    if a >= m {
      assert a == 1 * m + (a - m);
    } else {
      assert a == 0 * m + a;
    }
  }

  /** `str.From(n)`: the characters from index `n` on; a negative `n`
      counts from the end. */
  function From(s: string, n: int): (r: string)
    ensures 0 <= n <= |s| ==> r == s[n..]
    ensures -|s| < n < 0 ==> r == s[|s| + n..]
    ensures n <= -|s| ==> r == s
    ensures n > |s| ==> r == []
  {
    var len := |s|;
    if n >= len then []
    else if n == 0 || -n >= len then s
    else
      ShiftMod(len + n, len);
      ShiftMod(len - n, len);
      s[(len + n) % len .. (len + n) % len + (len - n) % len]
  }

  /** `str.To(n)`: the characters before index `n`; a negative `n` drops
      that many from the end. */
  function To(s: string, n: int): (r: string)
    ensures 0 <= n <= |s| ==> r == s[..n]
    ensures -|s| < n < 0 ==> r == s[..|s| + n]
    ensures n <= -|s| ==> r == []
    ensures n > |s| ==> r == s
  {
    var len := |s|;
    if n == 0 || -n >= len then []
    else if n >= len then s
    else
      ShiftMod(len + n, len);
      s[..(len + n) % len]
  }

  /** `To` and `From` cut the string at the same place, for every `n`. */
  lemma ToThenFrom(s: string, n: int)
    ensures To(s, n) + From(s, n) == s
  {
    if 0 <= n <= |s| {
      assert s == s[..n] + s[n..];
    } else if -|s| < n < 0 {
      assert s == s[..|s| + n] + s[|s| + n..];
    }
  }

  /** The words in first-occurrence order, each once: `Distinct()`. */
  function Distinct(s: seq<string>): (r: seq<string>)
    ensures forall x :: x in r <==> x in s
    ensures forall i, j :: 0 <= i < j < |r| ==> r[i] != r[j]
    decreases |s|
  {
    if s == [] then []
    else
      var d := Distinct(s[..|s| - 1]);
      assert forall x :: x in s <==> x in s[..|s| - 1] || x == s[|s| - 1];
      if s[|s| - 1] in d then d else d + [s[|s| - 1]]
  }

  /** A sequence without repetitions is its own `Distinct`. */
  lemma {:induction false} DistinctKeeps(s: seq<string>)
    requires forall i, j :: 0 <= i < j < |s| ==> s[i] != s[j]
    ensures Distinct(s) == s
  {
    if s != [] {
      var p := s[..|s| - 1];
      DistinctKeeps(p);
      assert s[|s| - 1] !in p;
      assert s == p + [s[|s| - 1]];
    }
  }

  /** `a.Union(b)`: the distinct words of `a`, then those of `b` not met yet. */
  function Union(a: seq<string>, b: seq<string>): (r: seq<string>)
    ensures forall x :: x in r <==> x in a || x in b
    ensures forall i, j :: 0 <= i < j < |r| ==> r[i] != r[j]
  {
    Distinct(a + b)
  }

  // The edits of each kind, at split `i` with `a = word.To(i)` and
  // `b = word.From(i)` for `i` in `0 .. |word| - 1`.

  /** `a + b.From(1)`: `b` is never empty, so no split is filtered out. */
  function Deletes(w: string): (r: seq<string>)
    ensures |r| == |w|
    ensures forall i :: 0 <= i < |w| ==> r[i] == w[..i] + w[i + 1..]
  {
    seq(|w|, i requires 0 <= i < |w| => To(w, i) + From(From(w, i), 1))
  }

  /** `a + b[1] + b[0] + b.From(2)` where `b` has at least two characters. */
  function Transposes(w: string): (r: seq<string>)
    ensures |r| == (if |w| > 1 then |w| - 1 else 0)
    ensures forall i :: 0 <= i < |r| ==> r[i] == w[..i] + [w[i + 1], w[i]] + w[i + 2..]
  {
    seq(if |w| > 1 then |w| - 1 else 0,
      i requires 0 <= i < |w| - 1 =>
        var b := From(w, i);
        To(w, i) + [b[1], b[0]] + From(b, 2))
  }

  /** `SelectMany`: the rows one after the other. */
  function Flatten(rows: seq<seq<string>>): seq<string> {
    if |rows| == 0 then [] else Flatten(rows[..|rows| - 1]) + rows[|rows| - 1]
  }

  lemma {:induction false} FlattenLength(rows: seq<seq<string>>, n: nat)
    requires forall i :: 0 <= i < |rows| ==> |rows[i]| == n
    ensures |Flatten(rows)| == n * |rows|
  {
    if |rows| > 0 {
      FlattenLength(rows[..|rows| - 1], n);
    }
  }

  lemma {:induction false} InFlatten(rows: seq<seq<string>>, x: string)
    ensures x in Flatten(rows) <==> exists i :: 0 <= i < |rows| && x in rows[i]
  {
    if |rows| > 0 {
      var init := rows[..|rows| - 1];
      InFlatten(init, x);
      assert forall i :: 0 <= i < |init| ==> init[i] == rows[i];
    }
  }

  /** `from i in splits from c in alphabet select make(i, c)`: for each of
      the `n` splits in turn, one word per letter in alphabet order. */
  function Grid(n: nat, make: (int, char) -> string): (r: seq<string>)
    ensures |r| == 26 * n
  {
    var rows := seq(n, i => seq(26, j requires 0 <= j < 26 => make(i, ALPHABET[j])));
    FlattenLength(rows, 26);
    Flatten(rows)
  }

  /** The grid holds exactly the words made at some split with some letter. */
  lemma InGrid(n: nat, make: (int, char) -> string, x: string)
    ensures x in Grid(n, make) <==> exists i, c :: 0 <= i < n && c in ALPHABET && x == make(i, c)
  {
    var rows := seq(n, i => seq(26, j requires 0 <= j < 26 => make(i, ALPHABET[j])));
    assert Grid(n, make) == Flatten(rows);
    InFlatten(rows, x);
    if x in Flatten(rows) {
      var i :| 0 <= i < |rows| && x in rows[i];
      var j :| 0 <= j < 26 && rows[i][j] == x;
      assert ALPHABET[j] in ALPHABET && x == make(i, ALPHABET[j]);
    }
    if exists i, c :: 0 <= i < n && c in ALPHABET && x == make(i, c) {
      var i, c :| 0 <= i < n && c in ALPHABET && x == make(i, c);
      var j := LetterIndex(c);
      assert rows[i][j] == x;
    }
  }

  /** `a + c + b.From(1)` at split `i`. */
  function Replacer(w: string): (int, char) -> string {
    (i: int, c: char) => To(w, i) + [c] + From(From(w, i), 1)
  }

  /** `a + c + b` at split `i`. */
  function Inserter(w: string): (int, char) -> string {
    (i: int, c: char) => To(w, i) + [c] + From(w, i)
  }

  /** `a + c + b.From(1)` for every split and, within it, every letter. */
  function Replaces(w: string): (r: seq<string>)
    ensures |r| == 26 * |w|
  {
    Grid(|w|, Replacer(w))
  }

  /** `a + c + b` for every split and every letter. */
  function Inserts(w: string): (r: seq<string>)
    ensures |r| == 26 * |w|
  {
    Grid(|w|, Inserter(w))
  }

  /** Every word one edit from `w`, each once. */
  function Edits(w: string): (r: seq<string>)
    ensures forall i, j :: 0 <= i < j < |r| ==> r[i] != r[j]
  {
    Union(Union(Union(Deletes(w), Transposes(w)), Replaces(w)), Inserts(w))
  }

  predicate IsDelete(w: string, x: string) {
    exists i :: 0 <= i < |w| && x == w[..i] + w[i + 1..]
  }

  predicate IsTranspose(w: string, x: string) {
    exists i :: 0 <= i < |w| - 1 && x == w[..i] + [w[i + 1], w[i]] + w[i + 2..]
  }

  predicate IsReplace(w: string, x: string) {
    exists i, c :: 0 <= i < |w| && c in ALPHABET && x == w[..i] + [c] + w[i + 1..]
  }

  predicate IsInsert(w: string, x: string) {
    exists i, c :: 0 <= i < |w| && c in ALPHABET && x == w[..i] + [c] + w[i..]
  }

  /** One edit: a deleted character, two neighbours swapped, a character
      replaced by a letter, or a letter inserted before a character. */
  predicate IsEdit(w: string, x: string) {
    IsDelete(w, x) || IsTranspose(w, x) || IsReplace(w, x) || IsInsert(w, x)
  }

  lemma DeletesAre(w: string, x: string)
    ensures x in Deletes(w) <==> IsDelete(w, x)
  {
    var r := Deletes(w);
    if x in r {
      var i :| 0 <= i < |r| && r[i] == x;
    }
  }

  lemma TransposesAre(w: string, x: string)
    ensures x in Transposes(w) <==> IsTranspose(w, x)
  {
    var r := Transposes(w);
    if x in r {
      var i :| 0 <= i < |r| && r[i] == x;
    }
    if IsTranspose(w, x) {
      var i :| 0 <= i < |w| - 1 && x == w[..i] + [w[i + 1], w[i]] + w[i + 2..];
      assert r[i] == x;
    }
  }

  /** The position of a letter in the alphabet. */
  lemma LetterIndex(c: char) returns (j: nat)
    requires c in ALPHABET
    ensures j < 26 && ALPHABET[j] == c
  {
    j :| 0 <= j < |ALPHABET| && ALPHABET[j] == c;
  }

  /** At a split inside the word, `Replacer` replaces that character. */
  lemma ReplacerAt(w: string, i: int, c: char)
    requires 0 <= i < |w|
    ensures Replacer(w)(i, c) == w[..i] + [c] + w[i + 1..]
  {
    assert From(w, i) == w[i..] && From(w[i..], 1) == w[i + 1..];
  }

  lemma ReplacesAre(w: string, x: string)
    ensures x in Replaces(w) <==> IsReplace(w, x)
  {
    InGrid(|w|, Replacer(w), x);
    if x in Replaces(w) {
      var i, c :| 0 <= i < |w| && c in ALPHABET && x == Replacer(w)(i, c);
      ReplacerAt(w, i, c);
    }
    if IsReplace(w, x) {
      var i, c :| 0 <= i < |w| && c in ALPHABET && x == w[..i] + [c] + w[i + 1..];
      ReplacerAt(w, i, c);
    }
  }

  lemma InsertsAre(w: string, x: string)
    ensures x in Inserts(w) <==> IsInsert(w, x)
  {
    InGrid(|w|, Inserter(w), x);
    if IsInsert(w, x) {
      var i, c :| 0 <= i < |w| && c in ALPHABET && x == w[..i] + [c] + w[i..];
      assert x == Inserter(w)(i, c);
    }
  }

  /** The edits are exactly the words one edit away. */
  lemma EditsAre(w: string, x: string)
    ensures x in Edits(w) <==> IsEdit(w, x)
  {
    DeletesAre(w, x);
    TransposesAre(w, x);
    ReplacesAre(w, x);
    InsertsAre(w, x);
  }

  /** An edit changes the length by at most one. */
  lemma {:induction false} EditLength(w: string, x: string)
    requires IsEdit(w, x)
    ensures |w| - 1 <= |x| <= |w| + 1
  {
    if IsDelete(w, x) {
      var i :| 0 <= i < |w| && x == w[..i] + w[i + 1..];
    } else if IsTranspose(w, x) {
      var i :| 0 <= i < |w| - 1 && x == w[..i] + [w[i + 1], w[i]] + w[i + 2..];
    } else if IsReplace(w, x) {
      var i, c :| 0 <= i < |w| && c in ALPHABET && x == w[..i] + [c] + w[i + 1..];
    } else {
      var i, c :| 0 <= i < |w| && c in ALPHABET && x == w[..i] + [c] + w[i..];
    }
  }

  /** Every split point is inside the word, so the empty word has no edits,
      not even insertions. */
  lemma NoEditsOfEmpty()
    ensures Edits([]) == []
  {
    assert Deletes([]) == [] && Transposes([]) == [] && Replaces([]) == [] && Inserts([]) == [];
  }

  /** `Corpus`: each lower-cased sample word with its number of occurrences. */
  datatype Corpus = Corpus(rankings: map<string, nat>)

  function Occurrences(ws: seq<string>, w: string): (r: nat)
    ensures r == 0 <==> w !in ws
  {
    if ws == [] then 0 else (if ws[0] == w then 1 else 0) + Occurrences(ws[1..], w)
  }

  lemma {:induction false} OccurrencesSnoc(ws: seq<string>, x: string, w: string)
    ensures Occurrences(ws + [x], w) == Occurrences(ws, w) + (if x == w then 1 else 0)
  {
    if ws != [] {
      assert (ws + [x])[1..] == ws[1..] + [x];
      OccurrencesSnoc(ws[1..], x, w);
    } else {
      assert ws + [x] == [x];
    }
  }

  /** The occurrences are the number of positions holding the word. */
  lemma {:induction false} OccurrencesCount(ws: seq<string>, w: string)
    ensures Occurrences(ws, w) == |set i | 0 <= i < |ws| && ws[i] == w|
    decreases |ws|
  {
    var all := set i | 0 <= i < |ws| && ws[i] == w;
    if ws == [] {
      assert all == {};
    } else {
      var init := ws[..|ws| - 1];
      var x := ws[|ws| - 1];
      assert ws == init + [x];
      OccurrencesSnoc(init, x, w);
      OccurrencesCount(init, w);
      var before := set i | 0 <= i < |init| && init[i] == w;
      if x == w {
        assert all == before + {|init|};
        assert |init| !in before;
      } else {
        assert all == before;
      }
    }
  }

  /** `new Corpus(IEnumerable<string>)`: the words lower-cased, grouped and
      counted. A word's rank is the number of sample positions whose word
      lower-cases to it. */
  function CorpusOf(sample: seq<string>): (r: Corpus)
    ensures forall w :: w in r.rankings <==> exists i :: 0 <= i < |sample| && Fold(sample[i]) == w
    ensures forall w :: w in r.rankings ==> r.rankings[w] >= 1
    ensures forall w :: w in r.rankings ==> r.rankings[w] == |set i | 0 <= i < |sample| && Fold(sample[i]) == w|
  {
    var lowered := seq(|sample|, i requires 0 <= i < |sample| => Fold(sample[i]));
    assert forall w :: w in lowered <==> exists i :: 0 <= i < |sample| && Fold(sample[i]) == w by {
      forall w
        ensures w in lowered <==> exists i :: 0 <= i < |sample| && Fold(sample[i]) == w
      {
        if w in lowered {
          var i :| 0 <= i < |lowered| && lowered[i] == w;
        }
        if exists i :: 0 <= i < |sample| && Fold(sample[i]) == w {
          var i :| 0 <= i < |sample| && Fold(sample[i]) == w;
          assert lowered[i] == w;
        }
      }
    }
    var r := Corpus(map w | w in lowered :: Occurrences(lowered, w));
    assert forall w :: w in r.rankings ==> r.rankings[w] == |set i | 0 <= i < |sample| && Fold(sample[i]) == w| by {
      forall w | w in r.rankings
        ensures r.rankings[w] == |set i | 0 <= i < |sample| && Fold(sample[i]) == w|
      {
        OccurrencesCount(lowered, w);
        assert (set i | 0 <= i < |lowered| && lowered[i] == w) == (set i | 0 <= i < |sample| && Fold(sample[i]) == w);
      }
    }
    r
  }

  predicate NotLetter(c: char) {
    !IsAsciiLetter(c)
  }

  /** `ExtractWords`: the matches of `[a-z]+` ignoring case, which are the
      maximal runs of ASCII letters. */
  function ExtractWords(text: string): (r: seq<string>)
    ensures forall i :: 0 <= i < |r| ==> r[i] != []
    ensures forall i, j :: 0 <= i < |r| && 0 <= j < |r[i]| ==> IsAsciiLetter(r[i][j])
  {
    Runs.Pieces(text, NotLetter)
  }

  /** `new Corpus(string)`: the corpus of the words in a text. */
  function CorpusOfText(text: string): Corpus {
    CorpusOf(ExtractWords(text))
  }

  /** A text corpus holds only non-empty lower-case words. */
  lemma TextCorpusWords(text: string, w: string)
    requires w in CorpusOfText(text).rankings
    ensures w != [] && forall j :: 0 <= j < |w| ==> 'a' <= w[j] <= 'z'
  {
    var words := ExtractWords(text);
    var i :| 0 <= i < |words| && Fold(words[i]) == w;
    forall j | 0 <= j < |w|
      ensures 'a' <= w[j] <= 'z'
    {
      assert IsAsciiLetter(words[i][j]);
    }
  }

  /** `Rank`: the number of occurrences, and 1 for an unknown word. */
  function Rank(c: Corpus, w: string): nat {
    if w in c.rankings then c.rankings[w] else 1
  }

  predicate Contains(c: Corpus, w: string) {
    w in c.rankings
  }

  /** `Known`: the words the corpus holds, in their order. */
  function Known(c: Corpus, ws: seq<string>): (r: seq<string>)
    ensures forall x :: x in r <==> x in ws && Contains(c, x)
    ensures forall i :: 0 <= i < |r| ==> Contains(c, r[i])
    decreases |ws|
  {
    if ws == [] then []
    else
      var k := Known(c, ws[..|ws| - 1]);
      assert forall x :: x in ws <==> x in ws[..|ws| - 1] || x == ws[|ws| - 1];
      if Contains(c, ws[|ws| - 1]) then k + [ws[|ws| - 1]] else k
  }

  predicate Descending(c: Corpus, ws: seq<string>) {
    forall i, j :: 0 <= i < j < |ws| ==> Rank(c, ws[i]) >= Rank(c, ws[j])
  }

  /** One step of a stable sort by descending rank: `w` goes after every
      leading word ranked at least as high. */
  function InsertByRank(c: Corpus, sorted: seq<string>, w: string): (r: seq<string>)
    ensures multiset(r) == multiset(sorted) + multiset{w}
    ensures forall x :: x in r <==> x in sorted || x == w
    ensures r[0] == (if sorted == [] || Rank(c, sorted[0]) < Rank(c, w) then w else sorted[0])
  {
    if sorted == [] || Rank(c, sorted[0]) < Rank(c, w) then [w] + sorted
    else
      assert sorted == [sorted[0]] + sorted[1..];
      [sorted[0]] + InsertByRank(c, sorted[1..], w)
  }

  /** Inserting into a descending sequence keeps it descending. */
  lemma {:induction false} InsertDescending(c: Corpus, sorted: seq<string>, w: string)
    requires Descending(c, sorted)
    ensures Descending(c, InsertByRank(c, sorted, w))
  {
    if sorted != [] && Rank(c, sorted[0]) >= Rank(c, w) {
      var rest := InsertByRank(c, sorted[1..], w);
      InsertDescending(c, sorted[1..], w);
      var r := [sorted[0]] + rest;
      assert r == InsertByRank(c, sorted, w);
      forall j | 0 < j < |r|
        ensures Rank(c, r[0]) >= Rank(c, r[j])
      {
        assert r[j] == rest[j - 1];
        assert rest[j - 1] in rest;
        if rest[j - 1] != w {
          var m :| 0 <= m < |sorted[1..]| && sorted[1..][m] == rest[j - 1];
          assert sorted[m + 1] == rest[j - 1];
        }
      }
    }
  }

  /** `OrderByDescending(corpus.Rank)`: a stable sort, highest rank first. */
  function SortByRank(c: Corpus, ws: seq<string>): (r: seq<string>)
    ensures multiset(r) == multiset(ws)
    ensures Descending(c, r)
    decreases |ws|
  {
    if ws == [] then []
    else
      assert ws == ws[..|ws| - 1] + [ws[|ws| - 1]];
      var sorted := SortByRank(c, ws[..|ws| - 1]);
      InsertDescending(c, sorted, ws[|ws| - 1]);
      InsertByRank(c, sorted, ws[|ws| - 1])
  }

  /** The first position holding the highest rank: what a stable sort puts
      in front. */
  function FirstBest(c: Corpus, ws: seq<string>): (k: nat)
    requires ws != []
    ensures k < |ws|
    ensures forall j :: 0 <= j < |ws| ==> Rank(c, ws[j]) <= Rank(c, ws[k])
    ensures forall j :: 0 <= j < k ==> Rank(c, ws[j]) < Rank(c, ws[k])
    decreases |ws|
  {
    if |ws| == 1 then 0
    else
      var p := ws[..|ws| - 1];
      var b := FirstBest(c, p);
      assert forall j :: 0 <= j < |p| ==> p[j] == ws[j];
      if Rank(c, ws[b]) < Rank(c, ws[|ws| - 1]) then |ws| - 1 else b
  }

  /** The sort is stable where `Correct` looks: its head is the first of
      the highest-ranked words. */
  lemma {:induction false} SortedHead(c: Corpus, ws: seq<string>)
    requires ws != []
    ensures SortByRank(c, ws)[0] == ws[FirstBest(c, ws)]
    decreases |ws|
  {
    if |ws| > 1 {
      var p := ws[..|ws| - 1];
      SortedHead(c, p);
      assert p[FirstBest(c, p)] == ws[FirstBest(c, p)];
    }
  }

  /** The second pass: for each edit in turn, its own edits the corpus
      knows. Words reached twice are kept twice. */
  function SecondPass(c: Corpus, edits: seq<string>): (r: seq<string>)
    ensures forall x :: x in r ==> Contains(c, x)
    decreases |edits|
  {
    if edits == [] then []
    else SecondPass(c, edits[..|edits| - 1]) + Known(c, Edits(edits[|edits| - 1]))
  }

  /** A word is in the second pass exactly when the corpus knows it and it
      is an edit of one of the edits. */
  lemma {:induction false} SecondPassHolds(c: Corpus, edits: seq<string>, x: string)
    ensures x in SecondPass(c, edits) <==> Contains(c, x) && exists e :: e in edits && x in Edits(e)
    decreases |edits|
  {
    if edits != [] {
      var p := edits[..|edits| - 1];
      var last := edits[|edits| - 1];
      SecondPassHolds(c, p, x);
      assert forall e :: e in edits <==> e in p || e == last;
    }
  }

  /** Sorting keeps the words, so a sorted list of known words is one. */
  lemma SortKeepsKnown(c: Corpus, ws: seq<string>)
    requires forall i :: 0 <= i < |ws| ==> Contains(c, ws[i])
    ensures |SortByRank(c, ws)| == |ws|
    ensures forall i :: 0 <= i < |ws| ==> Contains(c, SortByRank(c, ws)[i])
  {
    var sorted := SortByRank(c, ws);
    assert |sorted| == |multiset(sorted)| == |multiset(ws)| == |ws|;
    forall i | 0 <= i < |sorted|
      ensures Contains(c, sorted[i])
    {
      assert sorted[i] in multiset(sorted);
      assert sorted[i] in multiset(ws);
      var j :| 0 <= j < |ws| && ws[j] == sorted[i];
    }
  }

  /** `Corrections`: the word itself when the corpus knows it; otherwise its
      known edits, highest rank first; otherwise the known edits of its
      edits the same way; otherwise `null`. */
  function Corrections(c: Corpus, w: string): (r: Option<seq<string>>)
    ensures r.Some? ==> r.value != [] && forall i :: 0 <= i < |r.value| ==> Contains(c, r.value[i])
    ensures Contains(c, w) ==> r == Some([w])
    ensures r.None? <==> !Contains(c, w) && Known(c, Edits(w)) == [] && SecondPass(c, Edits(w)) == []
  {
    if Contains(c, w) then Some([w])
    else
      var edits := Edits(w);
      var known := Known(c, edits);
      if known != [] then
        SortKeepsKnown(c, known);
        Some(SortByRank(c, known))
      else
        var second := SecondPass(c, edits);
        if second != [] then
          SortKeepsKnown(c, second);
          Some(SortByRank(c, second))
        else None
  }

  /** `Correct`: the first correction, or `null` when there is none. */
  function Correct(c: Corpus, w: string): (r: Option<string>)
    ensures r.Some? ==> Contains(c, r.value)
    ensures Contains(c, w) ==> r == Some(w)
    ensures r.None? <==> Corrections(c, w).None?
  {
    match Corrections(c, w)
    case None => None
    case Some(cs) => Some(cs[0])
  }

  /** An unknown word with a known word one edit away is corrected to the
      first of the highest-ranked such words. */
  lemma CorrectOneEdit(c: Corpus, w: string)
    requires !Contains(c, w) && Known(c, Edits(w)) != []
    ensures var known := Known(c, Edits(w));
      Correct(c, w) == Some(known[FirstBest(c, known)])
  {
    SortedHead(c, Known(c, Edits(w)));
  }

  /** Among the known words one edit away, none outranks the correction. */
  lemma CorrectIsBest(c: Corpus, w: string, x: string)
    requires !Contains(c, w) && IsEdit(w, x) && Contains(c, x)
    ensures Correct(c, w).Some?
    ensures IsEdit(w, Correct(c, w).value)
    ensures Rank(c, x) <= Rank(c, Correct(c, w).value)
  {
    var known := Known(c, Edits(w));
    EditsAre(w, x);
    assert x in known;
    CorrectOneEdit(c, w);
    var k := FirstBest(c, known);
    assert known[k] in known;
    EditsAre(w, known[k]);
    var m :| 0 <= m < |known| && known[m] == x;
  }

  /** With no known word one edit away, the correction is the first of the
      highest-ranked known words two edits away. */
  lemma CorrectTwoEdits(c: Corpus, w: string)
    requires !Contains(c, w) && Known(c, Edits(w)) == [] && SecondPass(c, Edits(w)) != []
    ensures var second := SecondPass(c, Edits(w));
      Correct(c, w) == Some(second[FirstBest(c, second)])
  {
    SortedHead(c, SecondPass(c, Edits(w)));
  }

  /** A word nothing known is within two edits of stays uncorrected. */
  lemma NoCorrection(c: Corpus, w: string)
    requires !Contains(c, w)
    requires forall x :: IsEdit(w, x) ==> !Contains(c, x)
    requires forall e, x :: IsEdit(w, e) && IsEdit(e, x) ==> !Contains(c, x)
    ensures Correct(c, w) == None
  {
    var edits := Edits(w);
    if Known(c, edits) != [] {
      var x := Known(c, edits)[0];
      assert x in Known(c, edits);
      EditsAre(w, x);
      assert false;
    }
    if SecondPass(c, edits) != [] {
      var x := SecondPass(c, edits)[0];
      SecondPassHolds(c, edits, x);
      var e :| e in edits && x in Edits(e);
      EditsAre(w, e);
      EditsAre(e, x);
      assert false;
    }
  }
}
