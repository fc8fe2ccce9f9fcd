/** The texts of the unit tests of `LevenshteinDistanceTextTokenType` and
    the words the tokenizer splits them into. */
module TestTexts {
  import opened Strings
  import Tokenizer

  const Other := "this is other sample"
  const Sample := "this is a sample"
  const Typed := "this is an sample"

  const TypedList: seq<string> := ["this", "is", "an", "sample"]
  const FarList: seq<string> := ["this", "text", "is", "very", "different"]
  /** `this text is very different`, built from its words. */
  const Far := Join(' ', FarList)

  /** The typed text is its words joined by single spaces. */
  lemma TypedJoined()
    ensures Join(' ', TypedList) == Typed
  {
    var ws := TypedList;
    assert Join(' ', ws[3..]) == "sample";
    assert ws[2..][1..] == ws[3..];
    assert Join(' ', ws[2..]) == "an sample";
    assert ws[1..][1..] == ws[2..];
    assert Join(' ', ws[1..]) == "is an sample";
    assert Join(' ', ws) == "this" + " " + "is an sample";
  }

  /** A word of lower-case letters is an ordinary word. */
  lemma LetterWord(w: string)
    requires w != [] && forall i :: 0 <= i < |w| ==> 'a' <= w[i] <= 'z'
    ensures Tokenizer.PlainWord(w)
  {
  }

  /** The words of the typed text. */
  lemma TypedWords()
    ensures Tokenizer.Tokenize(Typed) == TypedList
  {
    TypedJoined();
    forall i | 0 <= i < |TypedList|
      ensures Tokenizer.PlainWord(TypedList[i])
    {
      LetterWord(TypedList[i]);
    }
    Tokenizer.TokenizeJoin(TypedList);
  }

  /** The words of the distant text. */
  lemma FarWords()
    ensures Tokenizer.Tokenize(Far) == FarList
  {
    forall i | 0 <= i < |FarList|
      ensures Tokenizer.PlainWord(FarList[i])
    {
      LetterWord(FarList[i]);
    }
    Tokenizer.TokenizeJoin(FarList);
  }
}

module TextKindExamples {
  import opened Wrappers
  import opened Strings
  import opened Values
  import opened TextCursors
  import opened RequestContexts
  import opened Kinds
  import opened ValueKinds
  import opened TextKinds
  import opened TestTexts
  import Levenshtein

  /** A fuzzy free-text kind with the given vocabulary and the default
      distance. */
  function Fuzzy(vocabulary: seq<string>): (k: Kind)
    ensures k.LDText? && IsTextTokenType(k) && k.maxDistance == 2
    ensures k.text.validValues == Some(vocabulary)
  {
    LDText(TextConfig(Some(vocabulary), None), 2)
  }

  // ---- Distances ----

  /** An entry more than two characters longer than the query is out of
      reach. */
  lemma OutOfReach(vocabulary: seq<string>, q: string)
    requires forall i :: 0 <= i < |vocabulary| ==> |vocabulary[i]| > |q| + 2
    ensures !FuzzyAccepts(vocabulary, 2, q)
  {
    forall i | 0 <= i < |vocabulary|
      ensures Levenshtein.Distance(vocabulary[i], q) > 2
    {
      Levenshtein.DistanceProperties(vocabulary[i], q);
    }
  }

  /** The typed text is one insertion away from the entry: the first nine
      characters agree, then `n` is inserted, then ` sample` agrees. */
  lemma TypedNearSample()
    ensures Levenshtein.Distance(Sample, Typed) <= 1
  {
    assert Sample == "this is a" + " sample" && Typed == "this is a" + ['n'] + " sample";
    Levenshtein.OneInsertionBetween("this is a", 'n', " sample");
  }

  /** `this text is very` holds four of `x`, `v`, `r`, `y` and the entry
      none, so at least four edits separate them. */
  lemma VeryFarFromSample()
    ensures Levenshtein.Distance(Sample, "this text is very") >= 4
  {
    var s, t, x := Sample, "this text is very", {'x', 'v', 'r', 'y'};
    // The tallies, two characters at a time.
    assert Levenshtein.CountIn(t, x, 2) == 0 && Levenshtein.CountIn(t, x, 4) == 0;
    assert Levenshtein.CountIn(t, x, 6) == 0 && Levenshtein.CountIn(t, x, 8) == 1;
    assert Levenshtein.CountIn(t, x, 10) == 1 && Levenshtein.CountIn(t, x, 12) == 1;
    assert Levenshtein.CountIn(t, x, 14) == 2 && Levenshtein.CountIn(t, x, 16) == 3;
    assert Levenshtein.CountIn(t, x, 17) == 4;
    assert Levenshtein.CountIn(s, x, 2) == 0 && Levenshtein.CountIn(s, x, 4) == 0;
    assert Levenshtein.CountIn(s, x, 6) == 0 && Levenshtein.CountIn(s, x, 8) == 0;
    assert Levenshtein.CountIn(s, x, 10) == 0 && Levenshtein.CountIn(s, x, 12) == 0;
    assert Levenshtein.CountIn(s, x, 14) == 0 && Levenshtein.CountIn(s, x, 16) == 0;
    Levenshtein.CountBound(s, t, x, 16, 17);
  }

  // ---- The cursors of the tests ----

  /** A fresh cursor over words without white space at their ends reads
      them in order and none is blank. */
  lemma WordsLeftToRight(c: Cursor, ws: seq<string>)
    requires Valid(c) && !c.rightToLeft && c.tokens == ws && Remaining(c) == ws
    requires forall i :: 0 <= i < |ws| ==> Solid(ws[i])
    ensures NoBlankWords(c)
    ensures forall j :: 0 <= j < |ws| ==> NextWord(c, j) == ws[j] && NextWord(c, j) != []
  {
    SolidNotBlank(c);
  }

  /** The queries the loop builds from the typed text, before and after
      trimming. */
  lemma TypedQueries(c: Cursor)
    requires Valid(c) && !c.rightToLeft && Remaining(c) == TypedList
    ensures var grow := Extender(false);
      && QueryAt(grow, c, "", 0) == ""
      && QueryAt(grow, c, "", 1) == " this"
      && QueryAt(grow, c, "", 2) == " this is"
      && QueryAt(grow, c, "", 3) == " this is an"
      && QueryAt(grow, c, "", 4) == " " + Typed
  {
    var grow := Extender(false);
    assert NextWord(c, 0) == "this" && NextWord(c, 1) == "is";
    assert NextWord(c, 2) == "an" && NextWord(c, 3) == "sample";
    assert QueryAt(grow, c, "", 1) == "" + " " + "this";
    assert QueryAt(grow, c, "", 2) == " this" + " " + "is";
    assert QueryAt(grow, c, "", 3) == " this is" + " " + "an";
    assert QueryAt(grow, c, "", 4) == " this is an" + " " + "sample";
  }

  lemma TypedTrimmed(c: Cursor)
    requires Valid(c) && !c.rightToLeft && Remaining(c) == TypedList
    ensures QueryAfter(c, 1) == "this" && QueryAfter(c, 2) == "this is"
    ensures QueryAfter(c, 3) == "this is an" && QueryAfter(c, 4) == Typed
  {
    TypedQueries(c);
    QueryAtTaken(c, 1);
    QueryAtTaken(c, 2);
    QueryAtTaken(c, 3);
    QueryAtTaken(c, 4);
    TrimLeadingSpace("this");
    TrimLeadingSpace("this is");
    TrimLeadingSpace("this is an");
    TrimLeadingSpace(Typed);
  }

  /** The queries the loop builds from the distant text. */
  lemma FarQueries(c: Cursor)
    requires Valid(c) && !c.rightToLeft && Remaining(c) == FarList
    ensures var grow := Extender(false);
      && QueryAt(grow, c, "", 1) == " this"
      && QueryAt(grow, c, "", 2) == " this text"
      && QueryAt(grow, c, "", 3) == " this text is"
      && QueryAt(grow, c, "", 4) == " this text is very"
  {
    var grow := Extender(false);
    assert NextWord(c, 0) == "this" && NextWord(c, 1) == "text";
    assert NextWord(c, 2) == "is" && NextWord(c, 3) == "very";
    assert QueryAt(grow, c, "", 1) == "" + " " + "this";
    assert QueryAt(grow, c, "", 2) == " this" + " " + "text";
    assert QueryAt(grow, c, "", 3) == " this text" + " " + "is";
    assert QueryAt(grow, c, "", 4) == " this text is" + " " + "very";
  }

  lemma FarTrimmed(c: Cursor)
    requires Valid(c) && !c.rightToLeft && Remaining(c) == FarList
    ensures QueryAfter(c, 1) == "this" && QueryAfter(c, 2) == "this text"
    ensures QueryAfter(c, 3) == "this text is" && QueryAfter(c, 4) == "this text is very"
  {
    FarQueries(c);
    QueryAtTaken(c, 1);
    QueryAtTaken(c, 2);
    QueryAtTaken(c, 3);
    QueryAtTaken(c, 4);
    TrimLeadingSpace("this");
    TrimLeadingSpace("this text");
    TrimLeadingSpace("this text is");
    TrimLeadingSpace("this text is very");
  }

  // ---- The tests ----

  /** Vocabulary `this is other sample`, `this is a sample`; input `this is
      an sample`: no entry is within two edits of `this`, `this is` or
      `this is an`, and `this is a sample` is one edit from the whole input. */
  lemma NearMissQueries(c: Cursor)
    requires Valid(c) && !c.rightToLeft && Remaining(c) == TypedList
    ensures var k := Fuzzy([Other, Sample]);
      && QueryAfter(c, 4) == Typed
      && (forall j :: 1 <= j < 4 ==> !Acceptor(k)(QueryAfter(c, j)))
      && Acceptor(k)(QueryAfter(c, 4))
  {
    var vocabulary := [Other, Sample];
    var k := Fuzzy(vocabulary);
    TypedTrimmed(c);
    forall j | 1 <= j < 4
      ensures !Acceptor(k)(QueryAfter(c, j))
    {
      FuzzyAcceptor(k, QueryAfter(c, j));
      OutOfReach(vocabulary, QueryAfter(c, j));
    }
    FuzzyAcceptor(k, Typed);
    TypedNearSample();
    assert vocabulary[1] == Sample;
  }

  /** Every query before the fourth is shorter than `this is other
      sample`, so the loop keeps going. */
  lemma NearMissGuards(c: Cursor)
    requires Valid(c) && !c.rightToLeft && Remaining(c) == TypedList
    ensures forall j :: 0 <= j < 4 ==> SomeAtLeast([Other, Sample], |QueryAt(Extender(c.rightToLeft), c, "", j)|)
  {
    var vocabulary := [Other, Sample];
    TypedQueries(c);
    forall j | 0 <= j < 4
      ensures SomeAtLeast(vocabulary, |QueryAt(Extender(false), c, "", j)|)
    {
      assert |vocabulary[0]| == 20;
    }
  }

  /** So the loop consumes all four words and answers with the whole input. */
  lemma NearMissGrowth(c: Cursor)
    requires Valid(c) && !c.rightToLeft && c.tokens == TypedList && Remaining(c) == TypedList
    ensures Grow([Other, Sample], Acceptor(Fuzzy([Other, Sample])), c, "").matchText == Some(Typed)
  {
    WordsLeftToRight(c, TypedList);
    NearMissQueries(c);
    NearMissGuards(c);
    GrowAnswersAt([Other, Sample], Acceptor(Fuzzy([Other, Sample])), c, 4);
  }

  /** So the code answers with the text as typed, not with the entry the
      test expects. */
  lemma NearMissAsWritten(ctx: Option<RequestContext>)
    ensures TextInputAsWritten(Fuzzy([Other, Sample]), TextCursors.New(Typed, ctx)).result == Success(Some(VStr(Typed)))
    ensures TextInputAsWritten(Fuzzy([Other, Sample]), TextCursors.New(Typed, ctx)).result != Success(Some(VStr(Sample)))
  {
    var c := TextCursors.New(Typed, ctx);
    TypedWords();
    NearMissGrowth(c);
    assert |Typed| != |Sample|;
  }

  /** The same input read by the corrected kind: the answer is the entry
      `this is a sample`, as the test expects. */
  lemma NearMissCorrected(ctx: Option<RequestContext>)
    ensures TextInput(Fuzzy([Other, Sample]), TextCursors.New(Typed, ctx)).result == Success(Some(VStr(Sample)))
  {
    var vocabulary := [Other, Sample];
    NearMissAsWritten(ctx);
    CorrectedAnswer(Fuzzy(vocabulary), TextCursors.New(Typed, ctx));
    assert Levenshtein.Distance(Other, Typed) >= 3 by {
      Levenshtein.DistanceProperties(Other, Typed);
    }
    TypedNearSample();
    assert FirstWithin(vocabulary[1..], 2, Typed) == Some(Sample);
  }

  /** Vocabulary `this is a sample`; input `this text is very different`:
      none of the first four queries is within two edits of the entry. */
  lemma DistantQueries(c: Cursor)
    requires Valid(c) && !c.rightToLeft && Remaining(c) == FarList
    ensures forall j :: 1 <= j <= 4 ==> !Acceptor(Fuzzy([Sample]))(QueryAfter(c, j))
  {
    var vocabulary := [Sample];
    var k := Fuzzy(vocabulary);
    FarTrimmed(c);
    FarRejects("this");
    FarRejects("this text");
    FarRejects("this text is");
    VeryFarFromSample();
    FuzzyAcceptor(k, "this text is very");
    forall j | 1 <= j <= 4
      ensures !Acceptor(k)(QueryAfter(c, j))
    {
      assert j == 1 || j == 2 || j == 3 || j == 4;
    }
  }

  /** A query more than two characters shorter than `this is a sample` is
      rejected. */
  lemma FarRejects(q: string)
    requires |q| < 14
    ensures !Acceptor(Fuzzy([Sample]))(q)
  {
    FuzzyAcceptor(Fuzzy([Sample]), q);
    OutOfReach([Sample], q);
  }

  /** The fourth query is longer than the entry, so the loop stops there
      empty-handed. */
  lemma DistantGrowth(c: Cursor)
    requires Valid(c) && !c.rightToLeft && c.tokens == FarList && Remaining(c) == FarList
    ensures Grow([Sample], Acceptor(Fuzzy([Sample])), c, "").matchText == None
  {
    WordsLeftToRight(c, FarList);
    FarQueries(c);
    DistantQueries(c);
    GrowGivesUp([Sample], Acceptor(Fuzzy([Sample])), c, 4);
  }

  /** So the kind does not match, as written and corrected. */
  lemma DistantTextRejected(ctx: Option<RequestContext>)
    ensures TextInputAsWritten(Fuzzy([Sample]), TextCursors.New(Far, ctx)).result == Success(None)
    ensures TextInput(Fuzzy([Sample]), TextCursors.New(Far, ctx)).result == Success(None)
  {
    var c := TextCursors.New(Far, ctx);
    FarWords();
    DistantGrowth(c);
    CorrectedAnswer(Fuzzy([Sample]), c);
  }
}
