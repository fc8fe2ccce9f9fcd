/** The Soundex phonetic code of the `SWord` kind and its vocabulary lookup. */
module Soundex {
  import opened Wrappers
  import opened Strings

  /** Code of each letter `A`..`Z`: `0` for vowels and `Y` (never emitted,
      but they separate repeated codes), `#` for `H` and `W` (skipped). */
  const ALPHABET: string := "0123012#02245501262301#202"

  predicate IsUpperLetter(c: char) { 'A' <= c <= 'Z' }

  /** The code of a letter `A`..`Z`; any other character is treated like
      `H` and `W`. */
  function Code(c: char): (k: char)
    ensures k == '#' || '0' <= k <= '6'
  {
    if IsUpperLetter(c) then ALPHABET[c as int - 'A' as int] else '#'
  }

  /** The letters `A`..`Z` of the upper-cased word, in order. */
  function Letters(w: string): string
  {
    if |w| == 0 then []
    else (if IsUpperLetter(UpperChar(w[0])) then [UpperChar(w[0])] else []) + Letters(w[1..])
  }

  lemma {:induction false} LettersAreUpper(w: string)
    ensures forall k :: 0 <= k < |Letters(w)| ==> IsUpperLetter(Letters(w)[k])
  {
    if |w| > 0 {
      LettersAreUpper(w[1..]);
    }
  }

  /** A code under construction: a letter followed by digits `1`..`6`,
      at most four characters. */
  predicate Partial(acc: string) {
    |acc| <= 4
    && (|acc| > 0 ==> IsUpperLetter(acc[0]))
    && forall k :: 1 <= k < |acc| ==> '1' <= acc[k] <= '6'
  }

  /** The body of the letter loop: the first letter is kept as is, a `#`
      letter is skipped without updating `last`, a non-zero code different
      from `last` is appended, and every other letter only updates `last`.
      Letters are no longer taken once four characters are collected. */
  function Accumulate(letters: string, acc: string, last: char): string
    decreases |letters|
  {
    if |letters| == 0 || |acc| >= 4 then acc
    else
      var c := letters[0];
      var k := Code(c);
      if |acc| == 0 then Accumulate(letters[1..], acc + [c], k)
      else if k == '#' then Accumulate(letters[1..], acc, last)
      else if k != '0' && k != last then Accumulate(letters[1..], acc + [k], k)
      else Accumulate(letters[1..], acc, k)
  }

  /** The loop only extends the code, keeps its shape, and starts it with the
      first letter. */
  lemma {:induction false} AccumulateShape(letters: string, acc: string, last: char)
    requires forall k :: 0 <= k < |letters| ==> IsUpperLetter(letters[k])
    requires Partial(acc)
    ensures Partial(Accumulate(letters, acc, last))
    ensures |acc| <= |Accumulate(letters, acc, last)|
    ensures Accumulate(letters, acc, last)[..|acc|] == acc
    ensures |acc| == 0 && |letters| > 0 ==>
              |Accumulate(letters, acc, last)| > 0 && Accumulate(letters, acc, last)[0] == letters[0]
    decreases |letters|
  {
    if |letters| > 0 && |acc| < 4 {
      var c := letters[0];
      var k := Code(c);
      if |acc| == 0 {
        AccumulateShape(letters[1..], acc + [c], k);
      } else if k == '#' {
        AccumulateShape(letters[1..], acc, last);
      } else if k != '0' && k != last {
        AccumulateShape(letters[1..], acc + [k], k);
        assert (acc + [k])[..|acc|] == acc;
      } else {
        AccumulateShape(letters[1..], acc, k);
      }
    }
  }

  /** `PadRight(4, '0')`. */
  function PadCode(s: string): (r: string)
    requires |s| <= 4
    ensures |r| == 4 && r[..|s|] == s
    ensures forall k :: |s| <= k < 4 ==> r[k] == '0'
  {
    s + seq(4 - |s|, _ => '0')
  }

  /** The private `Soundex` of the `SWord` kind. */
  function SoundexCode(word: string): (r: string)
    ensures |r| == 4
    ensures Letters(word) == [] ==> r == "0000"
    ensures Letters(word) != [] ==> r[0] == Letters(word)[0]
    ensures forall k :: 1 <= k < 4 ==> '0' <= r[k] <= '6'
    ensures forall k, m :: 1 <= k < m < 4 && r[k] == '0' ==> r[m] == '0'
  {
    var acc := Accumulate(Letters(word), [], '?');
    LettersAreUpper(word);
    AccumulateShape(Letters(word), [], '?');
    var r := PadCode(acc);
    assert forall k :: 1 <= k < 4 && r[k] == '0' ==> k >= |acc|;
    r
  }

  lemma {:induction false} LettersConcat(a: string, b: string)
    ensures Letters(a + b) == Letters(a) + Letters(b)
    decreases |a|
  {
    if |a| > 0 {
      var head := if IsUpperLetter(UpperChar(a[0])) then [UpperChar(a[0])] else [];
      assert (a + b)[0] == a[0];
      assert (a + b)[1..] == a[1..] + b;
      assert Letters(a + b) == head + Letters(a[1..] + b);
      assert Letters(a) == head + Letters(a[1..]);
      LettersConcat(a[1..], b);
    } else {
      assert a + b == b;
    }
  }

  lemma {:induction false} LettersFold(w: string)
    ensures Letters(Fold(w)) == Letters(w)
    decreases |w|
  {
    if |w| > 0 {
      assert Fold(w)[1..] == Fold(w[1..]);
      LettersFold(w[1..]);
    }
  }

  lemma {:induction false} LettersUpper(w: string)
    ensures Letters(Upper(w)) == Letters(w)
    decreases |w|
  {
    if |w| > 0 {
      assert Upper(w)[1..] == Upper(w[1..]);
      LettersUpper(w[1..]);
    }
  }

  /** Case does not matter: the lower-cased and the upper-cased word have the
      same code as the word. */
  lemma CaseInsensitive(w: string)
    ensures SoundexCode(Fold(w)) == SoundexCode(w)
    ensures SoundexCode(Upper(w)) == SoundexCode(w)
  {
    LettersFold(w);
    LettersUpper(w);
  }

  /** A character that is not an ASCII letter does not change the code,
      wherever it stands. */
  lemma NonLetterIgnored(a: string, c: char, b: string)
    requires !IsAsciiLetter(c)
    ensures SoundexCode(a + [c] + b) == SoundexCode(a + b)
  {
    LettersConcat(a + [c], b);
    LettersConcat(a, [c]);
    LettersConcat(a, b);
    assert !IsUpperLetter(UpperChar(c));
    assert [c][1..] == [];
    assert Letters([c]) == [];
    assert Letters(a + [c]) == Letters(a);
    assert Letters(a + [c] + b) == Letters(a + b);
  }

  // ---- The coding rules ----

  /** Once four characters are collected, later letters are not read. */
  lemma {:induction false} AccumulateFull(p: string, q: string, acc: string, last: char)
    requires |Accumulate(p, acc, last)| >= 4
    ensures Accumulate(p + q, acc, last) == Accumulate(p, acc, last)
    decreases |p|
  {
    if |p| == 0 {
      assert p + q == q;
    } else if |acc| < 4 {
      assert (p + q)[0] == p[0];
      assert (p + q)[1..] == p[1..] + q;
      var c := p[0];
      var k := Code(c);
      if |acc| == 0 {
        AccumulateFull(p[1..], q, acc + [c], k);
      } else if k == '#' {
        AccumulateFull(p[1..], q, acc, last);
      } else if k != '0' && k != last {
        AccumulateFull(p[1..], q, acc + [k], k);
      } else {
        AccumulateFull(p[1..], q, acc, k);
      }
    }
  }

  /** A letter right after one with the same code adds nothing, the first
      letter included. */
  lemma {:induction false} AccumulateRepeat(p: string, x: char, y: char, rest: string, acc: string, last: char)
    requires Code(x) == Code(y)
    ensures Accumulate(p + [x, y] + rest, acc, last) == Accumulate(p + [x] + rest, acc, last)
    decreases |p|
  {
    var long := p + [x, y] + rest;
    var short := p + [x] + rest;
    if |p| == 0 {
      assert long == [x] + ([y] + rest);
      assert short == [x] + rest;
      assert long[1..] == [y] + rest && ([y] + rest)[1..] == rest;
      assert short[1..] == rest;
    } else if |acc| < 4 {
      assert long[0] == p[0] && short[0] == p[0];
      assert long[1..] == p[1..] + [x, y] + rest;
      assert short[1..] == p[1..] + [x] + rest;
      var c := p[0];
      var k := Code(c);
      if |acc| == 0 {
        AccumulateRepeat(p[1..], x, y, rest, acc + [c], k);
      } else if k == '#' {
        AccumulateRepeat(p[1..], x, y, rest, acc, last);
      } else if k != '0' && k != last {
        AccumulateRepeat(p[1..], x, y, rest, acc + [k], k);
      } else {
        AccumulateRepeat(p[1..], x, y, rest, acc, k);
      }
    }
  }

  /** A letter coded `#` after the first letter is skipped and leaves the
      repeat check as it was. */
  lemma {:induction false} AccumulateSkip(p: string, h: char, rest: string, acc: string, last: char)
    requires Code(h) == '#' && (|acc| > 0 || |p| > 0)
    ensures Accumulate(p + [h] + rest, acc, last) == Accumulate(p + rest, acc, last)
    decreases |p|
  {
    var long := p + [h] + rest;
    var short := p + rest;
    if |p| == 0 {
      assert long == [h] + rest && long[1..] == rest;
      assert short == rest;
    } else if |acc| < 4 {
      assert long[0] == p[0] && short[0] == p[0];
      assert long[1..] == p[1..] + [h] + rest;
      assert short[1..] == p[1..] + rest;
      var c := p[0];
      var k := Code(c);
      if |acc| == 0 {
        AccumulateSkip(p[1..], h, rest, acc + [c], k);
      } else if k == '#' {
        AccumulateSkip(p[1..], h, rest, acc, last);
      } else if k != '0' && k != last {
        AccumulateSkip(p[1..], h, rest, acc + [k], k);
      } else {
        AccumulateSkip(p[1..], h, rest, acc, k);
      }
    }
  }

  /** `H` and `W` are the letters coded `#`. */
  lemma HWCode(h: char)
    requires UpperChar(h) == 'H' || UpperChar(h) == 'W'
    ensures IsAsciiLetter(h) && Code(UpperChar(h)) == '#'
  {
    assert ALPHABET[7] == '#';
    assert ALPHABET[22] == '#';
  }

  /** The letters of one ASCII letter. */
  lemma LettersOfLetter(x: char)
    requires IsAsciiLetter(x)
    ensures Letters([x]) == [UpperChar(x)]
  {
    assert [x][1..] == [];
  }

  /** A code with no padding is complete: nothing appended to the word
      changes it. */
  lemma CompleteCode(a: string, b: string)
    requires SoundexCode(a)[3] != '0'
    ensures SoundexCode(a + b) == SoundexCode(a)
  {
    var acc := Accumulate(Letters(a), [], '?');
    LettersAreUpper(a);
    AccumulateShape(Letters(a), [], '?');
    assert |acc| == 4;
    LettersConcat(a, b);
    AccumulateFull(Letters(a), Letters(b), [], '?');
  }

  /** Two letters in a row with the same code count once, also when the
      first of them is the word's first letter (`Pfister`). */
  lemma SameCodeCollapses(a: string, x: char, y: char, b: string)
    requires IsAsciiLetter(x) && IsAsciiLetter(y) && Code(UpperChar(x)) == Code(UpperChar(y))
    ensures SoundexCode(a + [x, y] + b) == SoundexCode(a + [x] + b)
  {
    LettersOfLetter(x);
    LettersOfLetter(y);
    LettersConcat(a + [x], [y]);
    assert a + [x, y] == a + [x] + [y];
    LettersConcat(a + [x, y], b);
    LettersConcat(a + [x], b);
    LettersConcat(a, [x]);
    assert Letters(a + [x, y] + b) == Letters(a) + [UpperChar(x), UpperChar(y)] + Letters(b);
    assert Letters(a + [x] + b) == Letters(a) + [UpperChar(x)] + Letters(b);
    AccumulateRepeat(Letters(a), UpperChar(x), UpperChar(y), Letters(b), [], '?');
  }

  /** `H` and `W` after the first letter are skipped without resetting the
      repeat check, so the letters around them still collapse (`Ashcraft`). */
  lemma HWSkipped(a: string, h: char, b: string)
    requires Letters(a) != [] && (UpperChar(h) == 'H' || UpperChar(h) == 'W')
    ensures SoundexCode(a + [h] + b) == SoundexCode(a + b)
  {
    HWCode(h);
    LettersOfLetter(h);
    LettersConcat(a + [h], b);
    LettersConcat(a, [h]);
    LettersConcat(a, b);
    assert Letters(a + [h] + b) == Letters(a) + [UpperChar(h)] + Letters(b);
    AccumulateSkip(Letters(a), UpperChar(h), Letters(b), [], '?');
  }

  /** A vowel (or `Y`) resets the repeat check: the next coded letter is
      appended even when its code is the one before the vowel. */
  lemma VowelResets(v: char, y: char, rest: string, acc: string, last: char)
    requires 0 < |acc| < 4 && Code(v) == '0' && Code(y) != '0' && Code(y) != '#'
    ensures Accumulate([v, y] + rest, acc, last) == Accumulate(rest, acc + [Code(y)], Code(y))
  {
    assert ([v, y] + rest)[1..] == [y] + rest;
    assert ([y] + rest)[1..] == rest;
  }

  /** The code of every letter, read off the alphabet. */
  lemma LetterCodes()
    ensures Code('A') == '0'
    ensures Code('B') == '1'
    ensures Code('C') == '2'
    ensures Code('D') == '3'
    ensures Code('E') == '0'
    ensures Code('F') == '1'
    ensures Code('G') == '2'
    ensures Code('H') == '#'
    ensures Code('I') == '0'
    ensures Code('J') == '2'
    ensures Code('K') == '2'
    ensures Code('L') == '4'
    ensures Code('M') == '5'
    ensures Code('N') == '5'
    ensures Code('O') == '0'
    ensures Code('P') == '1'
    ensures Code('Q') == '2'
    ensures Code('R') == '6'
    ensures Code('S') == '2'
    ensures Code('T') == '3'
    ensures Code('U') == '0'
    ensures Code('V') == '1'
    ensures Code('W') == '#'
    ensures Code('X') == '2'
    ensures Code('Y') == '0'
    ensures Code('Z') == '2'
  {
    assert ALPHABET[0] == '0';
    assert ALPHABET[1] == '1';
    assert ALPHABET[2] == '2';
    assert ALPHABET[3] == '3';
    assert ALPHABET[4] == '0';
    assert ALPHABET[5] == '1';
    assert ALPHABET[6] == '2';
    assert ALPHABET[7] == '#';
    assert ALPHABET[8] == '0';
    assert ALPHABET[9] == '2';
    assert ALPHABET[10] == '2';
    assert ALPHABET[11] == '4';
    assert ALPHABET[12] == '5';
    assert ALPHABET[13] == '5';
    assert ALPHABET[14] == '0';
    assert ALPHABET[15] == '1';
    assert ALPHABET[16] == '2';
    assert ALPHABET[17] == '6';
    assert ALPHABET[18] == '2';
    assert ALPHABET[19] == '3';
    assert ALPHABET[20] == '0';
    assert ALPHABET[21] == '1';
    assert ALPHABET[22] == '#';
    assert ALPHABET[23] == '2';
    assert ALPHABET[24] == '0';
    assert ALPHABET[25] == '2';
  }

  /** `Robert`: vowels are not coded, `B`, `R` and `T` give `1`, `6`, `3`. */
  lemma RobertCode()
    ensures SoundexCode("Robert") == "R163"
  {
    RobertLetters();
    RobertSteps();
  }

  lemma RobertLetters()
    ensures Letters("Robert") == "ROBERT"
  {
    assert Letters("t") == "T" + Letters("");
    assert Letters("rt") == "R" + Letters("t");
    assert Letters("ert") == "E" + Letters("rt");
    assert Letters("bert") == "B" + Letters("ert");
    assert Letters("obert") == "O" + Letters("bert");
    assert Letters("Robert") == "R" + Letters("obert");
  }

  lemma RobertSteps()
    ensures Accumulate("ROBERT", [], '?') == "R163"
  {
    LetterCodes();
    calc {
      Accumulate("ROBERT", [], '?');
      Accumulate("OBERT", "R", '6');
      Accumulate("BERT", "R", '0');
      Accumulate("ERT", "R1", '1');
      Accumulate("RT", "R1", '0');
      Accumulate("T", "R16", '6');
      Accumulate("", "R163", '3');
    }
  }

  /** `Ashcraft`: `H` is skipped and `C` repeats the code of `S`, so it
      counts once; the fourth character ends the code. */
  lemma AshcraftCode()
    ensures SoundexCode("Ashcraft") == "A261"
  {
    AshcraftLetters();
    AshcraftSteps();
  }

  lemma AshcraftLetters()
    ensures Letters("Ashcraft") == "ASHCRAFT"
  {
    assert Letters("t") == "T" + Letters("");
    assert Letters("ft") == "F" + Letters("t");
    assert Letters("aft") == "A" + Letters("ft");
    assert Letters("raft") == "R" + Letters("aft");
    assert Letters("craft") == "C" + Letters("raft");
    assert Letters("hcraft") == "H" + Letters("craft");
    assert Letters("shcraft") == "S" + Letters("hcraft");
    assert Letters("Ashcraft") == "A" + Letters("shcraft");
  }

  lemma AshcraftSteps()
    ensures Accumulate("ASHCRAFT", [], '?') == "A261"
  {
    LetterCodes();
    calc {
      Accumulate("ASHCRAFT", [], '?');
      Accumulate("SHCRAFT", "A", '0');
      Accumulate("HCRAFT", "A2", '2');
      Accumulate("CRAFT", "A2", '2');
      Accumulate("RAFT", "A2", '2');
      Accumulate("AFT", "A26", '6');
      Accumulate("FT", "A26", '0');
      Accumulate("T", "A261", '1');
    }
  }

  /** `Tymczak`: `Z` repeats the code of `C`, but the vowel `A` between
      `Z` and `K` lets `K` be coded again. */
  lemma TymczakCode()
    ensures SoundexCode("Tymczak") == "T522"
  {
    TymczakLetters();
    TymczakSteps();
  }

  lemma TymczakLetters()
    ensures Letters("Tymczak") == "TYMCZAK"
  {
    assert Letters("k") == "K" + Letters("");
    assert Letters("ak") == "A" + Letters("k");
    assert Letters("zak") == "Z" + Letters("ak");
    assert Letters("czak") == "C" + Letters("zak");
    assert Letters("mczak") == "M" + Letters("czak");
    assert Letters("ymczak") == "Y" + Letters("mczak");
    assert Letters("Tymczak") == "T" + Letters("ymczak");
  }

  lemma TymczakSteps()
    ensures Accumulate("TYMCZAK", [], '?') == "T522"
  {
    LetterCodes();
    calc {
      Accumulate("TYMCZAK", [], '?');
      Accumulate("YMCZAK", "T", '3');
      Accumulate("MCZAK", "T", '0');
      Accumulate("CZAK", "T5", '5');
      Accumulate("ZAK", "T52", '2');
      Accumulate("AK", "T52", '2');
      Accumulate("K", "T52", '0');
      Accumulate("", "T522", '2');
    }
  }

  /** `Pfister`: `F` has the code of the first letter `P` and is not coded. */
  lemma PfisterCode()
    ensures SoundexCode("Pfister") == "P236"
  {
    PfisterLetters();
    PfisterSteps();
  }

  lemma PfisterLetters()
    ensures Letters("Pfister") == "PFISTER"
  {
    assert Letters("r") == "R" + Letters("");
    assert Letters("er") == "E" + Letters("r");
    assert Letters("ter") == "T" + Letters("er");
    assert Letters("ster") == "S" + Letters("ter");
    assert Letters("ister") == "I" + Letters("ster");
    assert Letters("fister") == "F" + Letters("ister");
    assert Letters("Pfister") == "P" + Letters("fister");
  }

  lemma PfisterSteps()
    ensures Accumulate("PFISTER", [], '?') == "P236"
  {
    LetterCodes();
    calc {
      Accumulate("PFISTER", [], '?');
      Accumulate("FISTER", "P", '1');
      Accumulate("ISTER", "P", '1');
      Accumulate("STER", "P", '0');
      Accumulate("TER", "P2", '2');
      Accumulate("ER", "P23", '3');
      Accumulate("R", "P23", '0');
      Accumulate("", "P236", '6');
    }
  }

  /** `Catherine` and `Katherine` sound alike but start with different
      letters, so their codes differ and neither matches the other. */
  lemma CatherineKatherine()
    ensures SoundexCode("Catherine") != SoundexCode("Katherine")
    ensures SoundexMatch("Catherine", ["Katherine"]).None?
    ensures SoundexMatch("Catherine", ["Katherine", "Catherine"]) == Some("Catherine")
  {
    assert Letters("Catherine")[0] == 'C' by {
      assert Letters("Catherine") == ['C'] + Letters("atherine");
    }
    assert Letters("Katherine")[0] == 'K' by {
      assert Letters("Katherine") == ['K'] + Letters("atherine");
    }
    assert ["Katherine", "Catherine"][1] == "Catherine";
  }

  /** The index of the first vocabulary entry at or after `from` whose code
      is `code`, or -1. */
  function FirstWithCode(code: string, vocabulary: seq<string>, from: nat): (r: int)
    requires from <= |vocabulary|
    ensures r == -1 || from <= r < |vocabulary|
    ensures r >= 0 ==> SoundexCode(vocabulary[r]) == code
    ensures forall j :: from <= j < |vocabulary| && (r == -1 || j < r) ==> SoundexCode(vocabulary[j]) != code
    decreases |vocabulary| - from
  {
    if from == |vocabulary| then -1
    else if SoundexCode(vocabulary[from]) == code then from
    else FirstWithCode(code, vocabulary, from + 1)
  }

  /** `HasMatch` of the `SWord` kind: the first vocabulary entry whose code
      equals the word's, in vocabulary spelling. */
  function SoundexMatch(value: string, vocabulary: seq<string>): (r: Option<string>)
    ensures r.None? <==> forall v :: v in vocabulary ==> SoundexCode(v) != SoundexCode(value)
    ensures r.Some? ==> (exists i :: 0 <= i < |vocabulary| && vocabulary[i] == r.value
                          && SoundexCode(r.value) == SoundexCode(value)
                          && (forall j :: 0 <= j < i ==> SoundexCode(vocabulary[j]) != SoundexCode(value)))
  {
    var i := FirstWithCode(SoundexCode(value), vocabulary, 0);
    if i < 0 then None else Some(vocabulary[i])
  }
}
