/**
  The decision logic of the Mood2Emoji widget: a profanity filter over a
  fixed word list and a three-way mood classifier that turns a sentence
  into an emoji, an explanation and a polarity score.

  The sentiment polarity comes from a third-party library; here it is the
  parameter `polarityOf`, an arbitrary function from the original text to
  a real number.
 */
module Mood2Emoji {
  import opened PyStr

  /** The words the filter refuses, in the order the filter tries them. */
  const BadWords: seq<string> := ["bad", "stupid", "hate", "dumb", "idiot"]

  /** Every listed word is already in lower case, so each one can match the
      lowercased text, and none is shorter than three characters. */
  lemma BadWordsShape()
    ensures forall w :: w in BadWords ==> Lower(w) == w && |w| >= 3
  {
    forall w | w in BadWords ensures Lower(w) == w {
      LowerFixesLowercase(w);
    }
  }

  /** Some word of `words` is a substring of `t`. */
  predicate MentionsAny(words: seq<string>, t: string) {
    exists w | w in words :: Contains(t, w)
  }

  /** The filter's verdict: some bad word occurs in the lowercased text.
      A text shorter than the shortest bad word is never flagged. */
  predicate Flagged(text: string)
    ensures Flagged(text) ==> |text| >= 3
  {
    MentionsAny(BadWords, Lower(text))
  }

  /** The scan of the filter, over any word list: lowers the text once, then
      tries the words in list order and answers `true` at the first one
      found in it. */
  method FilterWords(words: seq<string>, text: string) returns (found: bool)
    ensures found <==> exists w, i :: w in words && OccursAt(Lower(text), w, i)
    ensures found == MentionsAny(words, Lower(text))
  {
    var lowered := Lower(text);
    for k := 0 to |words|
      invariant forall j :: 0 <= j < k ==> !Contains(lowered, words[j])
    {
      if Contains(lowered, words[k]) {
        ContainsIff(lowered, words[k]);
        return true;
      }
    }
    forall w, i | w in words ensures !OccursAt(lowered, w, i) {
      ContainsIff(lowered, w);
    }
    return false;
  }

  /** The filter: the scan over the fixed list of bad words. */
  method FilterBadWords(text: string) returns (found: bool)
    ensures found <==> exists w, i :: w in BadWords && OccursAt(Lower(text), w, i)
    ensures found == Flagged(text)
  {
    found := FilterWords(BadWords, text);
  }

  /** The verdict stated without the scan: a bad word starts at some index
      of the lowercased text. */
  lemma FlaggedIff(text: string)
    ensures Flagged(text) <==> exists w, i :: w in BadWords && OccursAt(Lower(text), w, i)
  {
    forall w | w in BadWords {
      ContainsIff(Lower(text), w);
    }
  }

  /** Two word lists that are reorderings of each other give the same
      verdict, so the order in which the scan tries the words, and hence
      where it stops, does not matter. */
  lemma ReorderedWordsSameVerdict(words: seq<string>, others: seq<string>, t: string)
    requires multiset(words) == multiset(others)
    ensures MentionsAny(words, t) == MentionsAny(others, t)
  {
    forall w ensures w in words <==> w in others {
      assert w in words <==> w in multiset(words);
      assert w in others <==> w in multiset(others);
    }
  }

  /** Running the scan over any reordering of the bad words gives the
      filter's own answer. */
  method ReorderedScanAgrees(words: seq<string>, text: string) returns (reordered: bool, original: bool)
    requires multiset(words) == multiset(BadWords)
    ensures reordered == original == Flagged(text)
  {
    reordered := FilterWords(words, text);
    original := FilterBadWords(text);
    ReorderedWordsSameVerdict(words, BadWords, Lower(text));
  }

  /** The verdict does not change when the text is lowercased first. */
  lemma FlaggedIgnoresLowering(text: string)
    ensures Flagged(Lower(text)) == Flagged(text)
  {
    LowerIdempotent(text);
  }

  /** Changing the case of letters never changes the verdict. */
  lemma FlaggedIgnoresCase(a: string, b: string)
    requires SameUpToCase(a, b)
    ensures Flagged(a) == Flagged(b)
  {
    SameUpToCaseLower(a, b);
  }

  /** A bad word inside a longer word still counts, whatever its case:
      "Badly" is flagged because of "bad". */
  lemma BadWordInsideLongerWord()
    ensures Flagged("That was Badly done")
  {
    var t := Lower("That was Badly done");
    assert t[9..12] == "bad";
    assert OccursAt(t, "bad", 9);
    FlaggedIff("That was Badly done");
  }

  /** A sentence with no bad word in it passes the filter, even though it
      shares letters with several of them. */
  lemma CleanSentencePasses()
    ensures !Flagged("The sky is blue")
  {
    var t := Lower("The sky is blue");
    assert t == "the sky is blue";
    forall w, i | w in BadWords ensures !OccursAt(t, w, i) {
      if 0 <= i && i + |w| <= |t| {
        assert i in {0, 1, 2, 3, 4, 5, 6, 7, 8, 9, 10, 11, 12};
        assert t[i] != w[0] || t[i + 1] != w[1];
        MismatchAt(t, w, i);
      }
    }
    FlaggedIff("The sky is blue");
  }

  datatype Mood = Happy | Sad | Neutral

  /** What the widget shows: a mood, an explanation and the polarity score. */
  datatype Analysis = Analysis(mood: Mood, explanation: string, score: real)

  /** The emoji for each mood (grinning, disappointed and neutral face):
      a single code point. */
  function Emoji(m: Mood): (r: string)
    ensures |r| == 1
  {
    match m
    case Happy => "\U{1F600}"
    case Sad => "\U{1F61E}"
    case Neutral => "\U{1F610}"
  }

  /** Different moods show different emojis and different explanations. */
  lemma MoodsDistinguishable(m: Mood, other: Mood)
    requires m != other
    ensures Emoji(m) != Emoji(other)
    ensures Explanation(m) != Explanation(other)
  {
  }

  const PleaseEnterText: string := "Please enter some text!"
  const KindWords: string := "Let's use kind words!"

  /** The value of the literal `0.1` as a binary64 float, which is what the
      classifier compares against: the double nearest to one tenth. */
  const Tenth: real := 0.1000000000000000055511151231257827021181583404541015625

  /** Buckets a polarity score with strict thresholds at plus and minus one
      tenth: above is happy, below the negative threshold is sad, and the
      closed interval between them, both ends included, is neutral. */
  function Classify(polarity: real): (m: Mood)
    ensures m == Happy <==> polarity > Tenth
    ensures m == Sad <==> polarity < -Tenth
    ensures m == Neutral <==> -Tenth <= polarity <= Tenth
  {
    if polarity > Tenth then Happy
    else if polarity < -Tenth then Sad
    else Neutral
  }

  /** The fixed explanation attached to a classified mood: different for
      each mood (see MoodsDistinguishable), and different from both notices
      of the early exits. */
  function Explanation(m: Mood): (r: string)
    ensures r != PleaseEnterText && r != KindWords
  {
    match m
    case Happy => "Sounds happy! This sentence has positive words."
    case Sad => "Sounds a bit sad. This sentence has negative words."
    case Neutral => "Sounds neutral. Not too happy, not too sad."
  }

  /** Blank input, `not text.strip()`: empty or whitespace only. */
  predicate IsBlank(text: string)
    ensures IsBlank(text) <==> AllSpace(text)
  {
    Strip(text) == []
  }

  /** The classifier: blank input first, then the filter, and only then the
      polarity of the original text, bucketed and returned unchanged. The
      mood always agrees with the bucket of the returned score, and the
      score is either the fixed 0.0 of an early exit or the polarity. */
  function AnalyzeMood(text: string, polarityOf: string -> real): (r: Analysis)
    ensures r.mood == Classify(r.score)
    ensures r.score == 0.0 || r.score == polarityOf(text)
    ensures r.explanation in {PleaseEnterText, KindWords, Explanation(r.mood)}
  {
    if IsBlank(text) then Analysis(Neutral, PleaseEnterText, 0.0)
    else if Flagged(text) then Analysis(Neutral, KindWords, 0.0)
    else
      var polarity := polarityOf(text);
      var mood := Classify(polarity);
      Analysis(mood, Explanation(mood), polarity)
  }

  /** Empty or all-whitespace input gets the fixed prompt, whatever the
      polarity function and whatever bad words the text might hold. */
  lemma BlankInputFirst(text: string, polarityOf: string -> real)
    requires AllSpace(text)
    ensures AnalyzeMood(text, polarityOf) == Analysis(Neutral, PleaseEnterText, 0.0)
  {
  }

  /** Non-blank text holding a bad word gets the fixed reminder. */
  lemma BadWordSecond(text: string, polarityOf: string -> real)
    requires !AllSpace(text)
    requires Flagged(text)
    ensures AnalyzeMood(text, polarityOf) == Analysis(Neutral, KindWords, 0.0)
  {
  }

  /** On both early exits the polarity function has no influence on the
      result. */
  lemma EarlyExitIgnoresPolarity(text: string, p1: string -> real, p2: string -> real)
    requires AllSpace(text) || Flagged(text)
    ensures AnalyzeMood(text, p1) == AnalyzeMood(text, p2)
  {
  }

  /** When neither early exit fires, the score is the polarity of the
      original text, unchanged, and the mood and explanation are those of
      its bucket. */
  lemma ScorePassedThrough(text: string, polarityOf: string -> real)
    requires !AllSpace(text)
    requires !Flagged(text)
    ensures AnalyzeMood(text, polarityOf).score == polarityOf(text)
    ensures AnalyzeMood(text, polarityOf).mood == Classify(polarityOf(text))
    ensures AnalyzeMood(text, polarityOf).explanation == Explanation(Classify(polarityOf(text)))
  {
  }

  /** Both thresholds and zero itself are neutral, and each score lands in
      exactly one bucket. */
  lemma ClassifyBoundaries(polarity: real)
    ensures Classify(Tenth) == Neutral && Classify(-Tenth) == Neutral && Classify(0.0) == Neutral
    ensures (polarity > Tenth) || (polarity < -Tenth) || (-Tenth <= polarity <= Tenth)
  {
  }

  /** The explanation alone tells which branch produced a result: the blank
      notice only for blank input, the kind-words notice only for flagged
      non-blank input, and a mood explanation only when the score was used. */
  lemma ExplanationTellsBranch(text: string, polarityOf: string -> real)
    ensures AnalyzeMood(text, polarityOf).explanation == PleaseEnterText <==> AllSpace(text)
    ensures AnalyzeMood(text, polarityOf).explanation == KindWords <==> !AllSpace(text) && Flagged(text)
  {
  }

  /** Classification is monotone: a higher score never gives a sadder mood. */
  lemma ClassifyMonotone(p: real, q: real)
    requires p <= q
    ensures Classify(p) == Happy ==> Classify(q) == Happy
    ensures Classify(q) == Sad ==> Classify(p) == Sad
  {
  }

  /** The teacher-mode progress bar value: maps the polarity range [-1, 1]
      onto [0, 1], with -1 at the empty end and 1 at the full end. */
  function Progress(polarity: real): (r: real)
    ensures -1.0 <= polarity <= 1.0 ==> 0.0 <= r <= 1.0
    ensures polarity == -1.0 ==> r == 0.0
    ensures polarity == 1.0 ==> r == 1.0
    ensures polarity == 0.0 ==> r == 0.5
  {
    (polarity + 1.0) / 2.0
  }

  /** The map is strictly increasing, so the bar keeps the order of scores. */
  lemma ProgressStrictlyIncreasing(p: real, q: real)
    requires p < q
    ensures Progress(p) < Progress(q)
  {
  }

  /** When the polarity of the text lies in [-1, 1], so does the score of
      every analysis, and the progress bar value lies in [0, 1]. */
  lemma AnalysisProgressInRange(text: string, polarityOf: string -> real)
    requires -1.0 <= polarityOf(text) <= 1.0
    ensures -1.0 <= AnalyzeMood(text, polarityOf).score <= 1.0
    ensures 0.0 <= Progress(AnalyzeMood(text, polarityOf).score) <= 1.0
  {
  }
}
