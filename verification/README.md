# Word-level diff of an AI text detector/humanizer

This project models `computeWordDiff`, the word-level diff the tool uses to
show what a rewrite changed. The diff works in three stages:

1. **Tokenise.** Both texts are split with `split(/(\s+)/)`. The capturing
   group keeps every whitespace run as a token of its own, so joining the
   tokens gives back the text exactly.
2. **Fill the table.** An (m+1)×(n+1) table `C` is filled with the lengths of
   the longest common subsequences (LCS) of the token prefixes.
3. **Walk back.** A walk goes from `(m, n)` back to `(0, 0)` and puts a
   `same`, `added` or `removed` part in front of the output at each step. When
   the tokens differ and the two neighbours of the table tie, the step is
   `added`.

Modules:

- `Tokenize` (`tokenize.dfy`): `IsWhitespace` lists the characters that
  ECMAScript's `\s` matches. `Split` is the capturing split. `IsCapturingSplit`
  is an independent description of its result, and `SplitCharacterisation`
  proves that `Split` is the one token sequence that fits this description.
- `Subsequence` (`lcs.dfy`): `Lcs` is the LCS-length recurrence on
  sequences. It is the reference for the table, and its lemmas cover bounds,
  symmetry and monotonicity.
- `WordDiff` (`diff.dfy`): the `DiffPart` record and the walk. `DiffWalk` is a
  functional reference for the walk. `FillTable`, `Backtrack` and
  `ComputeWordDiff` are the imperative algorithm, proved equal to that
  reference. The lemmas cover reconstruction, counts, optimality over all
  edit scripts, identity, the tie-break and two worked examples.

## Model

| member | source | states |
|---|---|---|
| Tokenize.IsWhitespace | utils/diff.ts:11-12 | defines the characters `\s` matches in `split(/(\s+)/)`: the ECMAScript white space and line terminator code points (tab, line feed, vertical tab, form feed, carriage return, space, U+00A0, U+1680, U+2000–U+200A, U+2028, U+2029, U+202F, U+205F, U+3000, U+FEFF) |
| Tokenize.Split | utils/diff.ts:11-12 | joining the tokens of a text, in order, gives back the text exactly |
| Tokenize.SplitShape | utils/diff.ts:11-12 | the tokens alternate: a whitespace-free word (possibly empty, but never empty between two runs) at even indices, a non-empty whitespace run at odd indices, and there is an odd number of tokens |
| Tokenize.SplitUnique | utils/diff.ts:11-12 | any token sequence with that alternating shape that joins to the text is exactly the split, so the whitespace runs are maximal |
| Tokenize.SplitCharacterisation | utils/diff.ts:11-12 | a token sequence is the split of a text if and only if it has the capturing-split shape for that text |
| Tokenize.SplitLastEmpty | utils/diff.ts:11-12 | the last token is empty exactly when the text is empty or ends with whitespace |
| Tokenize.EmptyTokenAtEdges | utils/diff.ts:11-12 | the split holds an empty token exactly when the text is empty or starts or ends with whitespace |
| Subsequence.Lcs | utils/diff.ts:20-28 | defines the value the table cell `C[i][j]` must hold: 0 on an empty prefix, the diagonal plus one on equal last tokens (line 23), otherwise the larger of the two neighbours (line 25) |
| Subsequence.LcsBound | utils/diff.ts:18-28 | every table entry is at most `min(i, j)` |
| Subsequence.LcsMonotoneRight | utils/diff.ts:25 | the left neighbour `C[i][j-1]` never exceeds `C[i][j]` |
| Subsequence.LcsMonotoneLeft | utils/diff.ts:25 | the upper neighbour `C[i-1][j]` never exceeds `C[i][j]` |
| Subsequence.LcsDropLeft | utils/diff.ts:20-28 | one more token on one side raises the LCS length by at most one |
| WordDiff.PartType | utils/diff.ts:2 | defines the three `type` tags of a part: `same`, `added`, `removed` |
| WordDiff.DiffPart | utils/diff.ts:1-4 | defines a part as a `type` tag with a token `value` |
| WordDiff.DiffWalk | utils/diff.ts:35-47 | defines the reference walk from the ends of both token sequences: a match on the last tokens is `same`, else a step left on `C[i][j-1] >= C[i-1][j]` (or `i == 0`) is `added`, else `removed`, each part placed in front of the earlier ones |
| WordDiff.Diff | utils/diff.ts:8-50 | defines `computeWordDiff(text1, text2)` as the reference walk over the two capturing splits |
| WordDiff.FillTable | utils/diff.ts:18-28 | the nested loops leave `C[i][j]` equal to the LCS length of the first `i` tokens of the first text and the first `j` tokens of the second, for every cell of the (m+1)×(n+1) table |
| WordDiff.Backtrack | utils/diff.ts:30-47 | from a correct table, the walk terminates at `(0, 0)`, exactly one of its three guarded steps applies at each point, and it returns the reference walk; the number of `same` parts plus `C[i][j]` stays `C[m][n]`, so it ends with `C[m][n]` `same` parts |
| WordDiff.ComputeWordDiff | utils/diff.ts:8-50 | the `same` and `removed` values join to the first text, the `same` and `added` values join to the second, there are LCS-many `same` parts, and every other token of each text is `added` or `removed` |
| WordDiff.WalkReconstructs | utils/diff.ts:35-47 | in output order, the `same`+`removed` values are exactly the first token sequence and the `same`+`added` values are exactly the second |
| WordDiff.WalkCounts | utils/diff.ts:20-47 | the walk emits `Lcs(a, b)` `same` parts, as many `added` parts as `b` has tokens beyond `Lcs(a, b)`, and as many `removed` parts as `a` has tokens beyond it |
| WordDiff.ScriptBound | utils/diff.ts:18-28 | no sequence of parts that rebuilds both token sequences has more `same` parts than the LCS length |
| WordDiff.WalkIsOptimal | utils/diff.ts:35-47 | the walk keeps at least as many tokens as any other edit script between the two texts, and so has no more `added` plus `removed` parts |
| WordDiff.WalkIdentity | utils/diff.ts:36-39 | diffing a token sequence against itself stays on the diagonal and gives one `same` part per token |
| WordDiff.DiffIdentity | utils/diff.ts:8-50 | `computeWordDiff(t, t)` is one `same` part per token of `t`, with no `added` or `removed` part |
| WordDiff.TieBreak | utils/diff.ts:40-42 | when the last tokens differ and `C[i][j-1] == C[i-1][j]`, both neighbours equal `C[i][j]` (either step keeps an LCS), and the walk emits the second text's token as `added` rather than removing the first text's token |
| WordDiff.DiffFromEmpty | utils/diff.ts:8-50 | diffing `""` against `"x"` gives `removed ""` followed by `added "x"`, because splitting an empty text yields one empty token |
| WordDiff.DiffReplacedWord | utils/diff.ts:8-50 | `"The cat sat"` against `"The dog sat"` gives `same "The"`, `same " "`, `removed "cat"`, `added "dog"`, `same " "`, `same "sat"` |
| WordDiff.LcsEmptyToken | utils/diff.ts:20-28 | against the single empty token, the LCS length is 1 if the other side holds an empty token and 0 otherwise |
| WordDiff.WalkFromEmptyToken | utils/diff.ts:35-47 | when the other side holds no empty token, the walk from the single empty token is one empty `removed` part followed by every token of the other side as `added`, in order |
| WordDiff.DiffFromEmptyText | utils/diff.ts:8-50 | `computeWordDiff("", t)` has no `removed` part if and only if `t` is empty or starts or ends with whitespace; then it has exactly one `same` part and every other token of `t` is `added`; otherwise it is `removed ""` followed by every token of `t` as `added` |

Notes on the model:

- The diff of an empty text is not always "only `added`".
  `"".split(/(\s+)/)` is `[""]`, so the empty original is one empty token.
  If the revised text is non-empty and neither starts nor ends with
  whitespace, its split has no empty token, and the empty token becomes an
  empty `removed` part in front of the `added` parts (`DiffFromEmpty`,
  `DiffFromEmptyText`). If the revised text starts or ends with whitespace,
  its split begins or ends with an empty word. That word matches the empty
  token, so it shows up as an empty `same` part and there is no `removed`
  part. For example, `computeWordDiff("", " x")` is `same ""`, `added " "`,
  `added "x"`. `DiffFromEmptyText` states both cases for every text.
- Adjacent parts of the same type are never merged. The code does not merge
  them, and neither does the model.
- The table is built as a sequence of rows. The code fills a zero-initialised
  array of arrays in place. Both give the same `C[i][j]` for every cell, and
  the model proves this value is `Lcs` of the prefixes.

## Left out

- Phrase highlighting: the source files contain no highlighting routine. The
  only trace of one is the optional `highlightedSentences` field in
  `types.ts`, so there is nothing to model.
- The React view layer (`App.tsx`, `App.Professional.tsx`, `components/*`): it
  is layout, styling and event handling, with no algorithm to state.
- Settings and history persistence in `localStorage`, export through a data
  URI, and the clipboard with its timer: these are browser side effects.
- The detection and humanizing service calls: they are asynchronous network
  calls into a file that is not part of this model.
- Score-to-colour banding, the cap of ten history items, and the word count:
  these are small presentation snippets, not part of the diff.
- String encoding: JavaScript strings are UTF-16 code units, and the model
  uses Dafny `char` (Unicode scalar values). Every character `\s` matches is in
  the Basic Multilingual Plane and none is a surrogate, so a surrogate pair
  never splits a token and tokenisation agrees for every text without lone
  surrogates. The model does not represent lone surrogates.
