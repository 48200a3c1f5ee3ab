# Mood2Emoji decision logic in Dafny

Mood2Emoji is a small educational widget. It reads a sentence, refuses
blank input, refuses sentences that hold a word from a fixed list, and
otherwise classifies the sentiment polarity of the sentence as happy, sad
or neutral. The result is an emoji, an explanation and the polarity score.
This project models that decision logic and proves its properties:

- `pystr.dfy` (module `PyStr`) models the three Python string builtins the
  logic uses. These are `str.strip()` for the blank test, `str.lower()`
  (ASCII letters only) and the substring test `w in s`. Each has a
  reference definition and a lemma that connects the two.
- `mood2emoji.dfy` (module `Mood2Emoji`) models the word list `BAD_WORDS`
  and the filter `filter_bad_words`. The filter's scan is a method whose
  loop tries the words of a list in order and returns at the first hit.
  It is proved equal to "some word of the list occurs in the lowercased
  text", so any reordering of the list gives the same answer. The module
  also models the classifier `analyze_mood` as a function and the
  teacher-mode progress value `(polarity + 1) / 2`.

The sentiment polarity comes from the TextBlob library. Here it is the
parameter `polarityOf: string -> real`, an arbitrary function applied to
the original text.

The threshold `0.1` is modelled as `Tenth`, the exact value of the binary64
double nearest to one tenth. That is the value Python compares against, so
a score equal to that double lands in the neutral bucket in the model too.

## Model

| member | source | states |
|---|---|---|
| PyStr.SpaceCharacters | app.py:21 | `IsSpace`, the whitespace that `text.strip()` removes: among ASCII exactly tab, line feed, vertical tab, form feed, carriage return, the four separators U+1C-U+1F and space; none beyond U+3000 |
| PyStr.StripLeading | app.py:21 | the result is the suffix of the text from its first non-whitespace character; everything removed is whitespace |
| PyStr.StripTrailing | app.py:21 | the result is the prefix of the text up to its last non-whitespace character; everything removed is whitespace |
| PyStr.Strip | app.py:21 | `text.strip()` is a contiguous block of the text; it is empty exactly when the text is empty or all whitespace, and otherwise starts and ends with non-whitespace |
| PyStr.StripEmptyIffAllSpace | app.py:21 | stripping leading and then trailing whitespace leaves nothing exactly when the text is empty or all whitespace |
| PyStr.StripIdempotent | app.py:21 | stripping twice equals stripping once |
| PyStr.Lower | app.py:10 | lowering keeps the length and leaves no upper-case ASCII letter |
| PyStr.LowerFixesLowercase | app.py:10 | lowering a text with no upper-case letter returns it unchanged |
| PyStr.LowerIdempotent | app.py:10 | lowering twice equals lowering once |
| PyStr.SameUpToCaseLower | app.py:10 | texts that differ only in letter case lower to the same text |
| PyStr.Contains | app.py:12 | `word in text_lower`: the empty word is found in every text, a text is found in itself, and a word longer than the text is never found |
| PyStr.ContainsIff | app.py:12 | the substring scan `word in text_lower` succeeds exactly when the word occurs at some index, with no word-boundary condition |
| Mood2Emoji.BadWordsShape | app.py:6 | every word of `BAD_WORDS` is already lower case, so it can match the lowered text, and has at least three characters |
| Mood2Emoji.Flagged | app.py:8-14 | the filter's verdict, "some bad word is a substring of the lowered text"; a text shorter than three characters is never flagged |
| Mood2Emoji.FilterWords | app.py:10-14 | the early-return loop over a word list answers true exactly when some word of the list occurs at some index of the lowercased text |
| Mood2Emoji.FilterBadWords | app.py:8-14 | the filter, the loop over `BAD_WORDS`, answers true exactly when some bad word occurs at some index of the lowercased text |
| Mood2Emoji.FlaggedIff | app.py:6-14 | the filter verdict is the existential "some listed word is a contiguous substring of the lowercased text" |
| Mood2Emoji.ReorderedWordsSameVerdict | app.py:11-14 | two word lists that are reorderings of each other give the same verdict |
| Mood2Emoji.ReorderedScanAgrees | app.py:11-14 | the loop run over any reordering of `BAD_WORDS` returns the filter's own answer, so where the scan stops does not matter |
| Mood2Emoji.FlaggedIgnoresLowering | app.py:10 | filtering the lowercased text gives the same verdict as filtering the text |
| Mood2Emoji.FlaggedIgnoresCase | app.py:10 | changing the case of any letters never changes the verdict |
| Mood2Emoji.BadWordInsideLongerWord | app.py:12 | "That was Badly done" is flagged: a bad word inside a longer word, in any case, counts |
| Mood2Emoji.CleanSentencePasses | app.py:6-14 | "The sky is blue" is not flagged |
| Mood2Emoji.Emoji | app.py:22-40 | each mood's emoji is a single code point |
| Mood2Emoji.Explanation | app.py:35-41 | each mood's explanation differs from both early-exit notices |
| Mood2Emoji.MoodsDistinguishable | app.py:33-41 | different moods have different emojis and different explanations |
| Mood2Emoji.IsBlank | app.py:21 | `not text.strip()` holds exactly when the text is empty or all whitespace |
| Mood2Emoji.Classify | app.py:33-41 | above 0.1 is happy, below -0.1 is sad, and from -0.1 to 0.1 inclusive is neutral, each in both directions |
| Mood2Emoji.ClassifyBoundaries | app.py:33-41 | exactly 0.1, exactly -0.1 and 0 are neutral, and every score falls in one of the three ranges |
| Mood2Emoji.ClassifyMonotone | app.py:33-41 | a higher score never gives a sadder mood |
| Mood2Emoji.AnalyzeMood | app.py:16-43 | the mood always equals the bucket of the returned score; the score is 0.0 or the polarity of the text; the explanation is one of the two fixed notices or the mood's own explanation |
| Mood2Emoji.BlankInputFirst | app.py:21-22 | empty or all-whitespace text yields (neutral, "Please enter some text!", 0.0) for every polarity function, bad words or not |
| Mood2Emoji.BadWordSecond | app.py:25-26 | non-blank flagged text yields (neutral, "Let's use kind words!", 0.0) |
| Mood2Emoji.EarlyExitIgnoresPolarity | app.py:21-30 | on blank or flagged input, two different polarity functions give the same result |
| Mood2Emoji.ScorePassedThrough | app.py:29-43 | otherwise the score is the polarity of the original text unchanged, with the mood and explanation of its bucket |
| Mood2Emoji.ExplanationTellsBranch | app.py:21-43 | the blank notice appears exactly for blank input, and the kind-words notice exactly for flagged non-blank input |
| Mood2Emoji.Progress | app.py:159 | polarity in [-1, 1] maps into [0, 1]; -1 maps to 0, 1 to 1 and 0 to 0.5 |
| Mood2Emoji.ProgressStrictlyIncreasing | app.py:159 | the progress map is strictly increasing |
| Mood2Emoji.AnalysisProgressInRange | app.py:137-159 | when the polarity of the text is in [-1, 1], the shown score is in [-1, 1] and its progress value is in [0, 1] |

## Left out

- `main` (app.py:84-173) and `show_teacher_mode` (app.py:45-81): Streamlit page layout, widgets, buttons and rendering. This includes the guard that analyses only when the button was pressed and the input is non-empty.
- TextBlob's sentiment computation (app.py:29-30): third-party code that is not available here. Its polarity is the arbitrary parameter `polarityOf`. The model does not assume it lies in [-1, 1], except where a lemma says so.
- Floating point: polarity and progress are `real`. The threshold is the exact value of the double `0.1`, so the comparisons agree with Python for every finite double score. NaN and the infinities are not modelled. The rounding of `(polarity + 1) / 2` is not modelled either.
- PyStr.Lower: folds only ASCII `A`-`Z`. Python's `str.lower()` also folds non-ASCII letters, and some of them change the length (for example U+0130). So the lowered text can differ from Python's. For this word list the filter's verdict cannot differ. Only two non-ASCII characters lower to ASCII letters. U+212A lowers to "k", and no listed word contains "k". U+0130 lowers to "i" followed by U+0307, so that "i" could only end a match, and no listed word ends in "i". A listed word with a "k", or one ending in "i", would break this agreement.
- PyStr.StripLeading, PyStr.StripTrailing: the whitespace set is the one Python's `str.isspace` uses in its current Unicode database. A later Unicode version that adds whitespace characters is not tracked.
- The emoji strings are the function `Mood2Emoji.Emoji` of the mood. The model carries the mood in the result instead of the emoji string.
- The unused `import re` (app.py:3).
