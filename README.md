# Digital hadith MVP: the text and scoring helpers

`app.py` is a two-page Streamlit application for hadith study:

- **Search page.** It normalizes each line of an Arabic query. It then marks every record whose text (`matn`) contains most of the line's words. With the "strict" checkbox ticked, which is the default, only the marked records are kept. Otherwise every record is kept (app.py:120, 135-136).
- **Analysis page.** The analyst scores every chain of narration (`isnad`) of the chosen hadith from 0 to 10. The page combines these path scores into one unit score and shows a badge and a verdict sentence.

This project models the pure helpers behind both pages, in four modules.

- **`ArabicText`** (`arabic_text.dfy`): `normalize_ar` and `tokenize_ar`.
  - The normalizer runs five steps in order: remove the `AR_DIACRITICS` code points, fold the alef, alef-maksura and taa-marbuta letters, blank every character outside `\w`, `\s` and U+0600..U+06FF, collapse whitespace runs, and trim.
  - Every regular-expression class is a character predicate.
  - The tokenizer is Python's argument-less `str.split()`.
- **`Matching`** (`matching.dfy`): `contains_most_words`, the token-coverage matcher. It also has a token-level form, `Covers`.
- **`Scoring`** (`scoring.dfy`): `hadith_global_score`. It computes `0.5·max + 0.3·average + 0.2·#{s ≥ 7}`, capped at 10 and rounded to one decimal, and returns 0 for an empty list.
- **`Bands`** (`bands.dfy`): `score_color` and `hadith_description`. Both are five-way threshold maps at 9, 7, 5 and 3, written as one band function and two label tables.

The analysis page scores each record row as its own path (app.py:180-194).

## Model

| member | source | states |
|---|---|---|
| ArabicText.IsSpace | app.py:44 | the class `\s` and the whitespace of `str.split()` and `str.strip()`: Python's `str.isspace` code points |
| ArabicText.IsDiacritic | app.py:35 | the class `AR_DIACRITICS`: U+0617..U+061A, U+064B..U+0652, U+0670, U+06D6..U+06ED |
| ArabicText.InArabicBlock | app.py:43 | the range U+0600..U+06FF of the punctuation filter |
| ArabicText.IsWordChar | app.py:43 | the class `\w`, exact up to U+00FF |
| ArabicText.IsKept | app.py:43 | a character the punctuation filter keeps: `\w`, `\s` or the Arabic block |
| ArabicText.RemoveDiacritics | app.py:35-40 | no character of the result is in `AR_DIACRITICS`; a text without diacritics is returned unchanged |
| ArabicText.RemoveDiacriticsKeepsOthers | app.py:35-40 | every non-diacritic character occurs in the result exactly as often as in the input |
| ArabicText.RemoveDiacriticsAppend | app.py:35-40 | removal works character by character and keeps the order: the removal of `a + b` is the removal of `a` followed by that of `b`, and one character is dropped exactly when it is a diacritic |
| ArabicText.FoldLetter | app.py:41-42 | أ, إ and آ become ا, ى becomes ي, ة becomes ه; no other character changes; the result is never one of the five folded letters |
| ArabicText.FoldLetters | app.py:41-42 | same length; no folded letter is left; every other character stays in place; a diacritic stays a diacritic |
| ArabicText.ReplaceForeign | app.py:43 | same length; position by position, a `\w`, `\s` or Arabic-block character is kept and any other character becomes a space |
| ArabicText.SkipSpaces | app.py:44 | the result is a suffix of the input that does not start with whitespace, and everything dropped is whitespace |
| ArabicText.TrimEnd | app.py:44 | the result is a prefix of the input that does not end with whitespace, and everything dropped is whitespace |
| ArabicText.CollapseSpaces | app.py:44 | the result is single-spaced: any whitespace is a plain space and no two whitespace characters are adjacent; it is empty only for empty input; it starts with whitespace iff the input does |
| ArabicText.CollapseKeepsWords | app.py:44 | the collapse keeps every word, in order (the split of the result is the split of the input), and the result ends with whitespace exactly when the input does |
| ArabicText.CollapseKeepsChars | app.py:44 | the collapse only introduces plain spaces, so every property of all input characters that the space also has holds of the output |
| ArabicText.CollapseKeepsSingleSpaced | app.py:44 | a single-spaced text comes out of the collapse unchanged |
| ArabicText.Strip | app.py:44 | the result is trimmed and is a slice of the input with only whitespace outside it |
| ArabicText.StripKeepsShape | app.py:44 | trimming a single-spaced string of normalized characters gives a normal form |
| ArabicText.Normalize | app.py:37-39 | empty input gives the empty string |
| ArabicText.NormalizeIsNormalForm | app.py:37-44 | every output has no leading or trailing whitespace and no two adjacent whitespace characters; it has no diacritic, none of أ إ آ ى ة, and nothing outside `\w`, `\s` and the Arabic block |
| ArabicText.NormalizeFixesNormalForms | app.py:37-44 | `normalize_ar(t) == t` exactly when `t` is in that normal form |
| ArabicText.NormalizeIdempotent | app.py:37-44 | `normalize_ar(normalize_ar(x)) == normalize_ar(x)` |
| ArabicText.TakeWord | app.py:47 | the first word is a whitespace-free prefix that ends at whitespace or at the end of the text |
| ArabicText.Split | app.py:47 | `str.split()` yields only non-empty tokens without whitespace |
| ArabicText.SplitKeepsChars | app.py:47 | every token consists of characters of the split text |
| ArabicText.SplitAtWord | app.py:47 | splitting a text that starts with a word yields that word followed by the split of the rest |
| ArabicText.SplitSkip | app.py:47 | leading whitespace does not change the split |
| ArabicText.SplitConsSpace | app.py:47 | a non-space character before whitespace or the end of the text is a word of its own |
| ArabicText.SplitConsWord | app.py:47 | a non-space character directly before a word becomes part of that word |
| ArabicText.JoinSplit | app.py:47 | joining the words of a trimmed, single-spaced text with single spaces gives the text back |
| ArabicText.Tokenize | app.py:46-47 | empty input gives `[]`; no token is empty or contains whitespace; every token is made of normalized characters |
| ArabicText.TokenizeJoin | app.py:46-47 | joining the tokens with single spaces reproduces `normalize_ar(text)` |
| ArabicText.TokenizeNormalized | app.py:46-47 | tokenizing the normalized text gives the same tokens as tokenizing the raw text |
| Matching.Shared | app.py:54 | the shared count never exceeds the number of reference tokens |
| Matching.SharedCountsPositions | app.py:54 | the shared count is the number of reference positions, repeats included, whose token occurs in the candidate list |
| Matching.SharedAllIff | app.py:54 | the shared count equals the reference length iff every reference token occurs in the candidate |
| Matching.SharedMonotone | app.py:54 | a candidate holding every token of another shares at least as many |
| Matching.Covers | app.py:52-53 | an empty reference token list never matches |
| Matching.CoverageRule | app.py:52-55 | the match holds iff the reference has tokens and `shared ≥ threshold · len(ref)` |
| Matching.DefaultThresholdRule | app.py:49-55 | with the default threshold 0.8 the match holds iff the reference has tokens and `5·shared ≥ 4·len(ref)` |
| Matching.SelfCover | app.py:52-55 | a non-empty token list covers itself at any threshold up to 1 |
| Matching.CoverMonotone | app.py:54-55 | adding candidate tokens never turns a match into a non-match |
| Matching.ThresholdMonotone | app.py:55 | a lower threshold accepts every pair a higher one accepts |
| Matching.ContainsMostWords | app.py:49-53 | a reference without tokens never matches |
| Matching.SelfMatch | app.py:49-55 | `contains_most_words(x, x, t)` holds for every `x` with a token and every `t ≤ 1` |
| Matching.CandidateTokenSetOnly | app.py:49-55 | only the set of candidate tokens matters: a candidate with a superset of tokens matches whenever the other does, and equal token sets match alike whatever their order and repeats |
| Matching.NormalizedInputsMatchAlike | app.py:130-133 | passing the already-normalized query, or an already-normalized candidate, gives the same verdict as the raw text |
| Scoring.Max | app.py:88 | `max(scores)` is one of the scores and bounds them all |
| Scoring.StrongCount | app.py:90 | the count of scores `≥ 7` never exceeds the number of scores |
| Scoring.StrongCountPositions | app.py:90 | the strong-path count is exactly the number of positions holding a score `≥ 7` |
| Scoring.StrongCountSnoc | app.py:90 | appending a score adds one to the count exactly when that score is `≥ 7` |
| Scoring.Sum | app.py:89 | `sum(scores)`; its properties are stated by the `Sum…` and `Average…` lemmas |
| Scoring.SumAtMost | app.py:89 | scores that are all at most `m` sum to at most `len(scores) · m` |
| Scoring.AverageAtMostMax | app.py:88-89 | the average `sum / len` never exceeds `max` |
| Scoring.AverageNonNegative | app.py:89 | the average of non-negative scores is non-negative |
| Scoring.Weighted | app.py:88-91 | `0.5·max + 0.3·avg + 0.2·#{s ≥ 7}` is at most `0.8·max + 0.2·#{s ≥ 7}`, and at least `0.5·max` for non-negative scores |
| Scoring.Min | app.py:92 | `min(x, 10)` is one of its arguments and no larger than either |
| Scoring.Round1 | app.py:92 | rounding to one decimal moves the value by at most half a tenth |
| Scoring.Round1Monotone | app.py:92 | rounding is non-decreasing and leaves 0 and 10 alone |
| Scoring.GlobalScore | app.py:85-92 | the unit score never exceeds 10 |
| Scoring.SumNonNegative | app.py:89 | non-negative scores have a non-negative sum |
| Scoring.SumUpdate | app.py:89 | changing one score changes the sum by exactly the difference |
| Scoring.StrongCountUpdate | app.py:90 | raising one score never lowers the strong-path count |
| Scoring.MaxUpdate | app.py:88 | raising one score never lowers the maximum |
| Scoring.SumAndCountPermutation | app.py:89-90 | sum and strong-path count do not depend on the order of the scores |
| Scoring.MaxPermutation | app.py:88 | the maximum does not depend on the order of the scores |
| Scoring.GlobalScoreBounds | app.py:85-92 | an empty list scores 0; a list of non-negative scores (the 0..10 slider values of app.py:187-191) scores within [0, 10] |
| Scoring.GlobalScoreSingle | app.py:85-92 | one score `s` gives `round(min(0.8·s + 0.2·[s ≥ 7], 10), 1)` |
| Scoring.GlobalScorePermutation | app.py:85-92 | the unit score is invariant under permutation of the path scores |
| Scoring.GlobalScoreMonotone | app.py:85-92 | raising one path's score, the others held fixed, never lowers the unit score |
| Bands.BandOf | app.py:74-83 | the `if`/`elif` chain on 9, 7, 5 and 3 puts every score in a band whose interval contains it |
| Bands.ColorLabel | app.py:75-83 | the five badge texts of `score_color`, one per band |
| Bands.DescriptionLabel | app.py:96-104 | the five sentences of `hadith_description`, one per band |
| Bands.ScoreColor | app.py:73-83 | `score_color(score)` is a band's badge exactly when the score lies in that band's interval |
| Bands.HadithDescription | app.py:94-104 | `hadith_description(score)` is a band's sentence exactly when the score lies in that band's interval |
| Bands.BandIntervals | app.py:73-83 | the chain of thresholds picks band `b` exactly when the score lies in `b`'s interval: ≥9, [7,9), [5,7), [3,5), <3 |
| Bands.BandMonotone | app.py:94-104 | a higher score never lands in a lower band |
| Bands.LabelsDistinct | app.py:73-104 | different bands get different badges and different sentences |
| Bands.SameBands | app.py:73-104 | `score_color` gives two scores the same badge iff `hadith_description` gives them the same sentence iff they are in the same band |
| Bands.SinglePathBelowTopBand | app.py:85-104 | a unit score from one slider value in 0..10 is at most 8.2 and is never described as "very strong" |
| Bands.ThreePathExample | app.py:85-104 | paths scored 9, 7 and 5 give the unit score 7.0, described as the "strong" sentence |

## Left out

- Page plumbing is not modelled: widgets, page configuration, `st.experimental_rerun`, and the session-state navigation `go_to_analysis` / `go_to_search` (app.py:14-30). They only assign two session fields and rerun the page.
- `load_data` (app.py:60-66) is not modelled. It is CSV file I/O through pandas plus framework caching.
- The pandas search pipeline (app.py:126-160) is not modelled: copy, `apply`, `concat`, `drop_duplicates` and `groupby`. Its only logic of its own is the matcher, which is modelled. `NormalizedInputsMatchAlike` covers the query normalization it does first.
- The analysis loop (app.py:180-202) is not modelled as a loop. It collects one slider value per row and calls the modelled scorer and classifiers.
- The verdict selector and the notes box (app.py:207-215) are not modelled. They are UI input, and saving only shows a message.
- ArabicText.Normalize: non-string input, which `str(text)` coerces (app.py:40), is not modelled. Only string input is.
- ArabicText.IsWordChar: matches Python's `\w` exactly for code points up to U+00FF only, and accepts nothing above U+00FF. The Arabic block U+0600..U+06FF is kept anyway, through `IsKept`. Every other letter or digit that Python's `\w` accepts becomes a space in the model. For this application the ones that matter are the Arabic letters outside the block: Arabic Supplement (U+0750..U+077F), Arabic Extended-A (U+08A0..U+08FF) and the presentation forms (U+FB50..U+FDFF, U+FE70..U+FEFF), common in text copied from PDFs. Greek, CJK and other scripts are affected the same way. Reproducing Unicode's full alphanumeric table is out of scope.
- Scoring.Round1: rounds half up on exact reals. Python's `round(x, 1)` rounds the binary double half to even. So values that lie exactly on a half tenth, or whose double is just below one, can round differently.
- Scoring.GlobalScore: computes over exact `real` arithmetic, not IEEE-754 doubles, for the weights and the average.
- Matching.Covers: compares the exact ratio `shared / len(ref_tokens)` with the threshold. Python divides in doubles, so a ratio that lies on the threshold exactly can compare differently.
- Scoring.GlobalScore: takes scores as integers, which is what the 0..10 slider produces (app.py:187-191). Fractional scores are not modelled.
- Bands.BandOf: takes any real as its score. It does not model Python comparisons on mixed int and float values, which agree with the real order.
