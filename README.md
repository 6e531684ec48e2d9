# Quiz utilities of crypto-iq-app, modelled in Dafny

This project models the quiz helpers in `src/utils/quiz.ts`. The quiz pages use these helpers to shuffle a question's options and to mark typed answers. The model has four modules:

- `Text` models the string primitives the helpers rely on. These are JavaScript's `toLowerCase`, `trim`, and the regular-expression class `\s`. Whitespace is the exact ECMAScript WhiteSpace and LineTerminator set. Lower-casing is restricted to the ASCII letters.
- `Shuffle` models `shuffleOptions` and `shuffleOptionsSeeded`.
  - `shuffleOptions` is the in-place Fisher–Yates shuffle of the position array, as a method on an `array<int>`.
  - `shuffleOptionsSeeded` is the stable sort of the positions by a seeded key, as an in-place insertion sort on an `array<nat>`.
  - In both, the options are then read off in the new order, and the new position of the correct option is looked up with `indexOf` or `findIndex`.
- `Distance` models `levenshteinDistance`.
  - The method fills an (m+1)×(n+1) `array2` exactly as the nested loops do.
  - It is proved equal to `EditDistance`, the recursive minimal-edit definition, applied to the lower-cased strings.
- `Answers` models `checkAnswerWithTypoTolerance` and `normalizeAnswer` as functions with lemmas.
  - `checkAnswerWithTypoTolerance` first tries an exact match after lowering and trimming. Otherwise it accepts an edit distance within a budget that depends on the answer's length.
  - `normalizeAnswer` lower-cases, trims, and collapses whitespace runs.

How the sources of nondeterminism are handled:

- **Randomness.** `shuffleOptions` takes the values of `Math.random()` as a parameter `draws`. In the round whose loop index is `i`, the swap partner is `draws[i]`, which must lie in `[0, i]`. Every property is proved for every such draw sequence. `ShuffleOptions` is proved to return `Permute(options, FisherYates(draws, n))`, where `FisherYates` replays the loop's swaps as a recursive function.
- **The seeded hash.** `shuffleOptionsSeeded` takes a parameter `hash: int -> real` in place of the floating-point sine hash. Position `i` gets the key `hash(seed + i * 1000)`.
- **The sort.** The comparator `a.sort - b.sort` together with a stable sort orders entries by key, and entries with equal keys by position. `KeyOrderedUnique` proves that exactly one order has this property, so any stable sort gives the same result as the insertion sort used here.
- **Determinism.** `ShuffleOptionsSeeded` is proved to return `Permute(options, SortedPositions(key, n))`, a function of its inputs alone. So the same options and seed always give the same output.

## Model

| member | source | states |
|---|---|---|
| Text.IsWhitespace | src/utils/quiz.ts:107-108 | The characters `trim` strips and `\s` matches: exactly the ECMAScript WhiteSpace and LineTerminator characters. |
| Text.Lower | src/utils/quiz.ts:64-65 | An upper-case ASCII letter becomes a lower-case letter. Any other character is unchanged. Whitespace stays whitespace. |
| Text.LowerStr | src/utils/quiz.ts:64-65 | Lower-casing keeps the length of the string. |
| Text.LowerStrIsLower | src/utils/quiz.ts:107-108 | The lower-cased string is lower-case. Lower-casing a lower-case string changes nothing. |
| Text.LowerStrAppend | src/utils/quiz.ts:135 | Lower-casing a concatenation lower-cases each part. |
| Text.LowerStrWhitespace | src/utils/quiz.ts:135 | Lower-casing an all-whitespace string leaves it all whitespace. |
| Text.TrimStart | src/utils/quiz.ts:107-108 | Gives a suffix of the input. Only whitespace is dropped, and the result does not start with whitespace. |
| Text.TrimEnd | src/utils/quiz.ts:107-108 | Gives a prefix of the input. Only whitespace is dropped, and the result does not end with whitespace. |
| Text.Trim | src/utils/quiz.ts:107-108 | The trimmed string is no longer than the input and has no whitespace at either end. |
| Text.TrimInfix | src/utils/quiz.ts:107-108 | The trimmed string is a contiguous infix of the input with only whitespace on both sides. |
| Text.TrimStartOfWhitespace | src/utils/quiz.ts:135 | `trimStart` of a whitespace run followed by a string that does not start with whitespace is that string. |
| Text.TrimStartAppend | src/utils/quiz.ts:135 | When the left part ends in a non-whitespace character, `trimStart` of a concatenation only touches the left part. |
| Text.TrimEndAppend | src/utils/quiz.ts:135 | When the right part starts with a non-whitespace character, `trimEnd` of a concatenation only touches the right part. |
| Text.TrimStartKeepsLast | src/utils/quiz.ts:135 | A last character that is not whitespace survives `trimStart`. |
| Text.TrimEndKeepsFirst | src/utils/quiz.ts:135 | A first character that is not whitespace survives `trimEnd`. |
| Text.TrimNoop | src/utils/quiz.ts:135 | Trimming a string without whitespace at its ends returns it unchanged. |
| Text.TrimIsLower | src/utils/quiz.ts:107-108 | Trimming a lower-case string leaves it lower-case. |
| Text.VisibleAppend | src/utils/quiz.ts:135 | The non-whitespace characters of a concatenation are those of each part, in order. |
| Text.VisibleOfWhitespace | src/utils/quiz.ts:135 | An all-whitespace string has no non-whitespace characters. |
| Text.VisibleTrim | src/utils/quiz.ts:107-108 | Trimming keeps every non-whitespace character, in order. |
| Distance.Min3 | src/utils/quiz.ts:83-87 | `Math.min` of three numbers: no larger than any of them, and equal to one of them. |
| Distance.PrefixDistance | src/utils/quiz.ts:74-87 | The edit distance of two prefixes, by the recursion the table follows: the first row and column count characters, and a cell is the least of deletion, insertion, and a free match or a substitution. Its properties are the lemmas below. |
| Distance.EditDistance | src/utils/quiz.ts:59-62 | The least number of single-character edits between two whole strings, the prefix distance of the full lengths. |
| Distance.PrefixDistanceDropRight | src/utils/quiz.ts:59-62 | Dropping the last character of the second prefix changes the distance by at most one. |
| Distance.PrefixDistanceSymmetric | src/utils/quiz.ts:59-62 | The prefix distance is symmetric in its two strings. |
| Distance.PrefixDistanceDropLeft | src/utils/quiz.ts:59-62 | Dropping the last character of the first prefix changes the distance by at most one. |
| Distance.PrefixDistanceMatch | src/utils/quiz.ts:80-81 | When the last characters agree, the distance equals the distance without them. This justifies the table's match case `dp[i-1][j-1]` against the full minimum. |
| Distance.PrefixDistanceZero | src/utils/quiz.ts:59-62 | The distance is zero exactly when the two prefixes are equal. |
| Distance.PrefixDistanceLowerBound | src/utils/quiz.ts:59-62 | The distance is at least the difference of the prefix lengths. |
| Distance.PrefixDistanceUpperBound | src/utils/quiz.ts:59-62 | The distance is at most the longer prefix length. |
| Distance.EditDistanceBounds | src/utils/quiz.ts:74-75 | The distance lies between the length difference and the longer length. Against the empty string it is the other string's length. |
| Distance.EditDistanceSymmetric | src/utils/quiz.ts:59-62 | The edit distance is symmetric. |
| Distance.EditDistanceZero | src/utils/quiz.ts:59-62 | The edit distance is zero if and only if the strings are equal. |
| Distance.Mismatches | src/utils/quiz.ts:86-87 | The number of positions below `i` where the strings differ, which is at most `i`. |
| Distance.PrefixDistanceMismatches | src/utils/quiz.ts:86-87 | For equal-length prefixes, the distance is at most the number of differing positions, because each difference costs one substitution. |
| Distance.EditDistanceMismatches | src/utils/quiz.ts:86-87 | For equal-length strings, the edit distance is at most the number of differing positions. |
| Distance.Levenshtein | src/utils/quiz.ts:63-65 | The edit distance of the two lower-cased strings. `LevenshteinDistance` is proved to compute it. |
| Distance.LevenshteinSymmetric | src/utils/quiz.ts:63-65 | `levenshteinDistance` is symmetric. |
| Distance.LevenshteinBounds | src/utils/quiz.ts:63-92 | `levenshteinDistance` lies between the length difference and the longer length. |
| Distance.LevenshteinZero | src/utils/quiz.ts:63-65 | `levenshteinDistance` is zero exactly when the strings agree after lower-casing. |
| Distance.FillRow | src/utils/quiz.ts:79-89 | The inner loop fills row `i` with the true prefix distances, given the previous rows and the first cell of row `i`. No other row changes. |
| Distance.LevenshteinDistance | src/utils/quiz.ts:63-93 | The table's last cell is the edit distance of the lower-cased strings. Against the empty string it is the other string's length. |
| Shuffle.Range | src/utils/quiz.ts:11 | The initial position list is `0 .. n-1`. |
| Shuffle.PermutationInRange | src/utils/quiz.ts:19-20 | A permutation of `0 .. n-1` has length `n` and only valid positions. |
| Shuffle.Permute | src/utils/quiz.ts:20 | Reading options off a position list gives `options[p[k]]` at each index `k`. |
| Shuffle.PermuteAppend | src/utils/quiz.ts:20 | Reading options off a concatenation is the concatenation of the two readings. |
| Shuffle.PermuteSplice | src/utils/quiz.ts:20 | Removing one position from the list removes exactly its option from the reading. |
| Shuffle.PermuteSameMultiset | src/utils/quiz.ts:20 | Two position lists with the same elements give option lists with the same elements. |
| Shuffle.IndexOf | src/utils/quiz.ts:21 | Gives the first position holding `x`, or -1 exactly when `x` is absent. |
| Shuffle.PermutationTracks | src/utils/quiz.ts:19-23 | For any permutation, the options are rearranged with none lost or repeated. The new index points at the correct option when `correctIndex` is valid, and is -1 otherwise. |
| Shuffle.Swap | src/utils/quiz.ts:16 | Exchanges the two entries and keeps every other one, so the multiset of entries is kept. |
| Shuffle.SwapRounds | src/utils/quiz.ts:14-17 | The rounds `i` down to 1 of the loop, each swapping position `k` with `draws[k]`, keep the multiset of entries. |
| Shuffle.FisherYates | src/utils/quiz.ts:11-17 | The order the loop leaves the positions in, for given draws. It is a permutation of `0 .. n-1` whatever the draws are. |
| Shuffle.SwapInPlace | src/utils/quiz.ts:16 | The destructuring swap on the array leaves it equal to `Swap` of its old contents. |
| Shuffle.SwapRoundsStep | src/utils/quiz.ts:14-17 | One round of the loop moves from the rounds still to do from `i` to those from `i - 1`, towards the same final order. |
| Shuffle.FisherYatesInPlace | src/utils/quiz.ts:14-17 | The loop turns the array `0 .. n-1` into exactly `FisherYates(draws, n)`. |
| Shuffle.ShuffleOptions | src/utils/quiz.ts:6-24 | The result is `Permute(options, FisherYates(draws, n))` and the new index is `IndexOf` that order, so the draws fix the output. For every admissible draw sequence the result is a permutation of `options`, and `shuffledOptions[newCorrectIndex] == options[correctIndex]` for a valid index. An invalid index gives -1. |
| Shuffle.Before | src/utils/quiz.ts:50 | The order the comparator `a.sort - b.sort` and a stable sort give: by key, and by position on equal keys. |
| Shuffle.KeyOrderedTail | src/utils/quiz.ts:50 | Dropping the first entry of a key-ordered list keeps it key-ordered. |
| Shuffle.KeyOrderedFirst | src/utils/quiz.ts:50 | Two key-ordered lists with the same elements have the same first entry. |
| Shuffle.KeyOrderedUnique | src/utils/quiz.ts:50 | Two key-ordered lists with the same elements are equal, so every stable sort by key gives the same order. |
| Shuffle.InsertByKey | src/utils/quiz.ts:50 | Inserting a position adds exactly that position. |
| Shuffle.InsertAllAfter | src/utils/quiz.ts:50 | Inserting an entry that comes after `y` keeps every entry after `y`. |
| Shuffle.InsertKeyOrdered | src/utils/quiz.ts:50 | Inserting a new position into a key-ordered list keeps it key-ordered. |
| Shuffle.SortedPositions | src/utils/quiz.ts:44-50 | The sorted order is a permutation of `0 .. n-1`. |
| Shuffle.SortedPositionsOrdered | src/utils/quiz.ts:44-50 | The sorted order is key-ordered: by key, with equal keys in position order. |
| Shuffle.InsertingStart | src/utils/quiz.ts:50 | Before a round of the insertion sort, the midway state holds with the new entry still in place. |
| Shuffle.InsertingStep | src/utils/quiz.ts:50 | Swapping the new entry left past a strictly larger key keeps the midway state. |
| Shuffle.InsertingDone | src/utils/quiz.ts:50 | Once the new entry meets a key no larger than its own, the prefix is key-ordered. |
| Shuffle.SwapAdjacent | src/utils/quiz.ts:50 | Swaps two neighbouring entries and keeps the multiset of entries. |
| Shuffle.InsertLast | src/utils/quiz.ts:50 | One insertion round extends the key-ordered prefix by one entry. The rest of the array is unchanged and the multiset is kept. |
| Shuffle.SortByKey | src/utils/quiz.ts:50 | The in-place sort leaves the positions key-ordered and keeps the multiset. |
| Shuffle.SeededKey | src/utils/quiz.ts:46 | Position `i` gets the key `hash(seed + i * 1000)`. |
| Shuffle.ShuffleOptionsSeeded | src/utils/quiz.ts:29-57 | The result is a function of `(options, seed, hash)` only. It is a permutation of `options`, and `newCorrectIndex` points at the correct option for a valid index. `findIndex` gives -1 for an invalid index. |
| Answers.Prepare | src/utils/quiz.ts:107-108 | The answer as it is compared: `toLowerCase`, then `trim`. Its properties are `PrepareShape` and `PrepareVisible`. |
| Answers.PrepareShape | src/utils/quiz.ts:107-108 | A prepared answer is lower-case with no whitespace at either end. |
| Answers.PrepareVisible | src/utils/quiz.ts:107-108 | A prepared answer keeps every non-whitespace character of the lower-cased answer, in order. |
| Answers.AllowedTypos | src/utils/quiz.ts:119-126 | The typo budget for a correct answer of a given length. Up to five characters it is 1 or 2, whatever `maxTypos` is. |
| Answers.CheckAnswerWithTypoTolerance | src/utils/quiz.ts:102-129 | An exact match after lower-casing and trimming is accepted, whatever `maxTypos` is. |
| Answers.DistanceOfPrepared | src/utils/quiz.ts:114 | The second lower-casing inside `levenshteinDistance` does not change the prepared answers. |
| Answers.CheckAnswerWithinBudget | src/utils/quiz.ts:111-128 | For `maxTypos >= 0`, an answer is accepted if and only if its edit distance is within the length-banded budget: 1 up to 3 characters, 2 up to 5, otherwise `maxTypos`. |
| Answers.CheckAnswerAcceptsSubstitutions | src/utils/quiz.ts:114-128 | A same-length answer with no more differing characters than the budget is accepted. |
| Answers.CheckAnswerLengthBound | src/utils/quiz.ts:114-128 | A non-exact accepted answer differs in length from the correct one by at most the budget. |
| Answers.CheckAnswerShortIgnoresMax | src/utils/quiz.ts:119-126 | For correct answers of at most five characters, `maxTypos` has no effect. |
| Answers.CheckAnswerMonotone | src/utils/quiz.ts:119-128 | Raising `maxTypos` never rejects an answer that was accepted. |
| Answers.CheckAnswerNegativeMax | src/utils/quiz.ts:119-128 | A negative `maxTypos` is not rejected. On a correct answer longer than five characters it accepts only the exact match. |
| Answers.CheckAnswerIgnoresCase | src/utils/quiz.ts:107-108 | Lower-casing either input first does not change the verdict. |
| Answers.CollapseWhitespace | src/utils/quiz.ts:135 | `replace(/\s+/g, ' ')` is never longer than its input. What it does to runs of whitespace is stated by the lemmas below. |
| Answers.CollapsedTail | src/utils/quiz.ts:135 | Dropping the first character of a collapsed string keeps it collapsed. |
| Answers.CollapseEnds | src/utils/quiz.ts:135 | Collapsing keeps emptiness, and whether the string starts or ends with whitespace. |
| Answers.ConsCollapsed | src/utils/quiz.ts:135 | A non-whitespace character, or one space before a non-whitespace character, keeps a collapsed string collapsed. |
| Answers.CollapseCollapsed | src/utils/quiz.ts:135 | After `replace(/\s+/g, ' ')`, every whitespace character is one space with no whitespace after it. |
| Answers.VisibleCollapse | src/utils/quiz.ts:135 | Collapsing keeps every non-whitespace character, in order. |
| Answers.CollapsedHead | src/utils/quiz.ts:135 | A collapsed string that starts with whitespace starts with one space followed by something else. |
| Answers.CollapseNoop | src/utils/quiz.ts:135 | Collapsing an already collapsed string changes nothing. |
| Answers.CollapseIsLower | src/utils/quiz.ts:135 | Collapsing a lower-case string leaves it lower-case. |
| Answers.CollapseSpliceEmpty | src/utils/quiz.ts:135 | A leading whitespace run before a non-whitespace character becomes one space. |
| Answers.CollapseCons | src/utils/quiz.ts:135 | A non-whitespace first character is kept. A whitespace first character becomes one space and swallows the whitespace after it. |
| Answers.CollapseAppend | src/utils/quiz.ts:135 | Collapsing a concatenation collapses each part on its own, when the cut does not fall inside a whitespace run. |
| Answers.CollapseSplice | src/utils/quiz.ts:135 | A whitespace run between two parts that do not touch it with whitespace becomes exactly one space, and the parts are collapsed on their own. |
| Answers.NormalizeAnswer | src/utils/quiz.ts:134-136 | The normalised answer is never longer than the input. Where its spaces go is stated by `NormalizeSplice` and `NormalizeSpacesBetweenWords`. |
| Answers.PrepareSplice | src/utils/quiz.ts:135 | Lower-casing and trimming two words with whitespace between them trims only the outer ends and keeps the inner whitespace. The prepared words still end and start with non-whitespace. |
| Answers.NormalizeSplice | src/utils/quiz.ts:132-135 | Normalising two words with a whitespace run between them gives each word normalised, joined by exactly one space. No space between words is lost and none is added. |
| Answers.NormalizeIsLower | src/utils/quiz.ts:131-136 | The normalised answer is lower-case. |
| Answers.NormalizeShape | src/utils/quiz.ts:131-136 | The normalised answer has no whitespace at either end, and its whitespace comes only as single spaces. |
| Answers.NormalizeSpacesBetweenWords | src/utils/quiz.ts:131-136 | Every whitespace character left is a single `' '` with a non-whitespace character on each side. |
| Answers.NormalizeVisible | src/utils/quiz.ts:134-136 | Normalising keeps every non-whitespace character of the lower-cased answer, in order. |
| Answers.NormalizeIdempotent | src/utils/quiz.ts:134-136 | Normalising twice is the same as normalising once. |
| Answers.NormalizeIgnoresCase | src/utils/quiz.ts:134-136 | Lower-casing first does not change the normalised answer. |

## Left out

- The sine-based hash `seededRandom` (lines 38-41) computes in floating point. It is replaced by a caller-supplied `hash: int -> real`. Keys are exact reals: no NaN, no rounding of `seed + i * 1000`, and the range `[0, 1)` is not modelled.
- `Math.random()` (line 15) is replaced by the parameter `draws`. The model proves nothing about how uniformly the shuffle distributes its results.
- `toLowerCase` is modelled for the ASCII letters only. Strings are sequences of characters, not UTF-16 code units, so `length` of text with surrogate pairs is not modelled.
- The `{index, sort}` pair objects of `shuffleOptionsSeeded` are modelled as a position `i` together with its key `key(i)`. `Array.prototype.sort` is modelled as an in-place insertion sort. `KeyOrderedUnique` shows that this matches any stable sort with the same comparator.
- The `dp` array of arrays of `levenshteinDistance` is modelled as one `array2`.
- The triangle inequality of the edit distance is not proved.
- ShuffleOptions and ShuffleOptionsSeeded: they follow the code, not the stricter intent that an out-of-range `correctIndex` is an error. The code returns -1 from `indexOf`/`findIndex`, and so does the model.
- `CheckAnswerWithTypoTolerance` follows the code: a negative `maxTypos` is not rejected. `CheckAnswerNegativeMax` states what happens instead.
- The comment at line 117 speaks of words under 5 characters. The code uses the bands "at most 3" and "at most 5", and the model follows the code.
- Everything outside `src/utils/quiz.ts` is not part of this model. That covers the quiz and daily pages that call these helpers, score and streak bookkeeping, and the question bank.
