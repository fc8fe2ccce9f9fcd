/** SpellCorrectPreProcessor.cs: the text preprocessor that corrects the
    spelling of each space-separated word against a corpus. Numbers and
    one-character words are left alone, as are words with no correction. */
module SpellCorrectPreProcessors {
  import opened Wrappers
  import opened Strings
  import opened RequestContexts
  import opened Env
  import opened SpellCorrection
  import TextProcessors

  /** One word of the text: a word that parses as a decimal, or is at most
      one character long, is kept; otherwise its correction, when it has
      one. */
  function CorrectWord(o: Oracles, c: Corpus, word: string): (r: string)
    ensures o.parseDecimal(word).Some? || |word| <= 1 ==> r == word
    ensures Contains(c, word) ==> r == word
    ensures r != word ==> Contains(c, r) && Correct(c, word) == Some(r)
    ensures o.parseDecimal(word).None? && |word| > 1 && Correct(c, word).Some? ==> r == Correct(c, word).value
  {
    if o.parseDecimal(word).None? && |word| > 1 then
      match Correct(c, word)
      case Some(x) => x
      case None => word
    else word
  }

  function CorrectWords(o: Oracles, c: Corpus, ws: seq<string>): (r: seq<string>)
    ensures |r| == |ws|
    ensures forall i :: 0 <= i < |ws| ==> r[i] == CorrectWord(o, c, ws[i])
  {
    seq(|ws|, i requires 0 <= i < |ws| => CorrectWord(o, c, ws[i]))
  }

  /** `ProcessTextAsync`: the text split at every space (empty pieces
      kept), each piece corrected and followed by a space, the whole
      trimmed. The request context is not consulted. */
  function ProcessText(o: Oracles, c: Corpus, text: string): string {
    Trim(SpaceTerminated(CorrectWords(o, c, Split(text, ' '))))
  }

  /** For words separated by single spaces whose corrections have no white
      space at either end, the result is the corrections separated by
      single spaces. */
  lemma ProcessTextWords(o: Oracles, c: Corpus, ws: seq<string>)
    requires ws != [] && forall i :: 0 <= i < |ws| ==> ' ' !in ws[i]
    requires forall i :: 0 <= i < |ws| ==> Solid(CorrectWord(o, c, ws[i]))
    ensures ProcessText(o, c, Join(' ', ws)) == Join(' ', CorrectWords(o, c, ws))
  {
    var fixed := CorrectWords(o, c, ws);
    calc {
      ProcessText(o, c, Join(' ', ws));
      Trim(SpaceTerminated(CorrectWords(o, c, Split(Join(' ', ws), ' '))));
      { SplitJoin(ws, ' '); }
      Trim(SpaceTerminated(fixed));
      { SolidWords(o, c, ws);
        TrimSpaceTerminated(fixed); }
      Join(' ', fixed);
    }
  }

  lemma SolidWords(o: Oracles, c: Corpus, ws: seq<string>)
    requires forall i :: 0 <= i < |ws| ==> Solid(CorrectWord(o, c, ws[i]))
    ensures forall i :: 0 <= i < |ws| ==> Solid(CorrectWords(o, c, ws)[i])
  {
  }

  /** A text of known words, numbers and single characters comes back
      unchanged. */
  lemma KnownTextUnchanged(o: Oracles, c: Corpus, ws: seq<string>)
    requires ws != []
    requires forall i :: 0 <= i < |ws| ==> ' ' !in ws[i] && Solid(ws[i])
    requires forall i :: 0 <= i < |ws| ==>
      Contains(c, ws[i]) || o.parseDecimal(ws[i]).Some? || |ws[i]| <= 1
    ensures ProcessText(o, c, Join(' ', ws)) == Join(' ', ws)
  {
    var fixed := CorrectWords(o, c, ws);
    assert fixed == ws;
    ProcessTextWords(o, c, ws);
  }

  // ---- The shared corpus ----

  /** An instance holds only its priority (0 by default). Its corpus is
      the static `_spellCorrect` field shared by every instance, which the
      model threads explicitly: each constructor returns the value it
      stores there, and an instance is run with the value the field holds
      at that moment. */
  datatype SpellCorrectPreProcessor = SpellCorrectPreProcessor(priority: int)

  /** The preprocessor as the text processor runs it: the instance's
      priority and a transformation that reads the shared corpus and
      ignores the request context. */
  function AsPreProcessor(o: Oracles, shared: Corpus, p: SpellCorrectPreProcessor): (r: TextProcessors.PreProcessor)
    ensures r.priority == p.priority
    ensures forall text, ctx :: r.process(text, ctx) == ProcessText(o, shared, text)
  {
    TextProcessors.PreProcessor(p.priority, (text, ctx) => ProcessText(o, shared, text))
  }

  /** The constructor from a text: the corpus of its letter runs, stored
      in the shared field whatever it held before. */
  function FromText(sample: string, priority: int): (r: (SpellCorrectPreProcessor, Corpus))
    ensures r.0.priority == priority
    ensures forall w :: w in r.1.rankings ==> w != [] && forall j :: 0 <= j < |w| ==> 'a' <= w[j] <= 'z'
  {
    var c := CorpusOfText(sample);
    assert forall w :: w in c.rankings ==> w != [] && forall j :: 0 <= j < |w| ==> 'a' <= w[j] <= 'z' by {
      forall w | w in c.rankings
        ensures w != [] && forall j :: 0 <= j < |w| ==> 'a' <= w[j] <= 'z'
      {
        TextCorpusWords(sample, w);
      }
    }
    (SpellCorrectPreProcessor(priority), c)
  }

  /** The constructor from a word list: every word lower-cased and
      counted, stored in the shared field whatever it held before. */
  function FromWords(sample: seq<string>, priority: int): (r: (SpellCorrectPreProcessor, Corpus))
    ensures r.0.priority == priority
    ensures forall i :: 0 <= i < |sample| ==> Contains(r.1, Fold(sample[i]))
  {
    (SpellCorrectPreProcessor(priority), CorpusOf(sample))
  }

  /** Two instances built one after the other, from any samples: once the
      second exists, both correct with the corpus of the second sample, and
      they differ only in priority. This records how the static field is
      shared; it follows from the definitions above, since an instance keeps
      no corpus of its own, and needs no proof steps. */
  lemma LastBuiltCorpusWins(o: Oracles, first: seq<string>, second: string, p1: int, p2: int,
                            text: string, ctx: Option<RequestContext>)
    ensures var (a, _) := FromWords(first, p1);
      var (b, shared) := FromText(second, p2);
      && AsPreProcessor(o, shared, a).process(text, ctx) == AsPreProcessor(o, shared, b).process(text, ctx)
      && AsPreProcessor(o, shared, a).process(text, ctx) == ProcessText(o, CorpusOfText(second), text)
      && AsPreProcessor(o, shared, a).priority == p1 && AsPreProcessor(o, shared, b).priority == p2
  {
  }
}
