# NWAlgo in Dafny

NWAlgo is a desktop tool for aligning biological sequences. This project models its computing core and proves properties of the model:

- **Pairwise global alignment.** `needlemanWunsch` fills an `(m+1)×(n+1)` score matrix with linear gap costs. It then traces back from the bottom-right corner, preferring diagonal, then up, then left. It returns both gapped strings, the coordinate path, the match count, the gap count and the final score.
- **Center-star multiple alignment.** `ProgressiveAligner.align` scores every pair of inputs. It picks as center the input with the smallest total score, where the first index wins ties. Every other input is aligned, in input order, against the current center row. The center's new gaps are carried into every row built so far (`mergeAligned`). The finished rows are summarised by their gap count, their fully conserved columns and their sum-of-pairs score (`calculateTotalScore`). `MSAModeViewModel` holds a private copy of this code, and the same members model both.
- **FASTA readers.** The top-level `parseFasta` is lenient. The copies in `CommonView` and `MSAModeViewModel` are strict: they drop blank lines and reject a record whose sequence is empty.
- **View-model state.** The sequence and score setters of `CommonView`, `FastModeViewModel` (letters only, at most 20) and `ReportModeViewModel` (letters only), and the score setters and `alignSequences` of `MSAModeViewModel`.

The project has six modules, one per file:

| module | file | contents |
|---|---|---|
| `Wrappers` | wrappers.dfy | `Option` and `Result` |
| `Text` | text.dfy | the gap marker `-`, and the Kotlin string operations the core relies on (`trim`, `split`, `lines`, `uppercase`, `isLetter`, `isWhitespace`, the regex `\s`), over ASCII |
| `Algorithm` | algorithm.dfy | `needlemanWunsch` |
| `Progressive` | progressive.dfy | the center-star aligner |
| `FastaParser` | fasta.dfy | the three FASTA readers |
| `ViewModels` | view_models.dfy | the view-model classes |

### How `Algorithm` is specified

`NeedlemanWunsch` keeps the source's imperative form:

- a 2-D array filled by nested loops;
- a traceback `while` loop that appends to builders, which are reversed at the end.

It is proved to return exactly `GlobalAlignment`, a specification assembled from these parts:

- `Cell`: the recurrence, cell by cell;
- `IsScoreMatrix`: the matrix's border and recurrence;
- `Trace`: the moves the traceback takes on a given matrix;
- `Row1`, `Row2` and `Walk`: those moves rendered as the two gapped strings and the path.

The remaining properties are lemmas about that specification.

### How `Progressive` is specified

The center-star aligner is specified by `ProgressiveResult`. Its loop is specified by `Grow` and `Extend`, stated over any pairwise aligner that keeps the shape of its inputs. `PairAligner` is Needleman–Wunsch itself.

### How the source maps onto the model

- Kotlin's `match` field is `matchScore` here (`match` is a Dafny keyword). `mismatch` and `gap` become `mismatchScore` and `gapScore` to match.
- `identityPercent`, a `Double`, is the integer pair `Identity(matches, columns)`.
- A thrown exception (`require`, `IllegalArgumentException`) is a `Failure` value.
- A nullable argument is an `Option`.
- `FastModeViewModel` and `ReportModeViewModel` extend `CommonView` in Kotlin. Here each holds its `CommonView` as `view`.

## Model

| member | source | states |
|---|---|---|
| Algorithm.NeedlemanWunsch | composeApp/src/desktopMain/kotlin/com/edu/nwalgo/backend/algo/Algorithm.kt:13-89 | The returned record is exactly `GlobalAlignment(seq1, seq2, scores)`: the score matrix, the traceback's gapped strings, its path, its matches, its gap moves, and the bottom-right cell as the score |
| Algorithm.InitBorders | composeApp/src/desktopMain/kotlin/com/edu/nwalgo/backend/algo/Algorithm.kt:27-28 | Row 0 and column 0 hold `k * gap` at index `k`, and every inner cell keeps its value |
| Algorithm.FillMatrix | composeApp/src/desktopMain/kotlin/com/edu/nwalgo/backend/algo/Algorithm.kt:31-38 | After the nested loops, every cell equals the cell of the score matrix that the border and the recurrence determine |
| Algorithm.Traceback | composeApp/src/desktopMain/kotlin/com/edu/nwalgo/backend/algo/Algorithm.kt:41-70 | The `while` loop's reversed strings, its path, and its match and gap counters are exactly what the traceback collects from `(m, n)` down to `(0, 0)` |
| Algorithm.BackStep | composeApp/src/desktopMain/kotlin/com/edu/nwalgo/backend/algo/Algorithm.kt:50-69 | One iteration moves out of `(i, j)` along the chosen move; `i + j` strictly decreases, and the indices stay in range |
| Algorithm.Max3 | composeApp/src/desktopMain/kotlin/com/edu/nwalgo/backend/algo/Algorithm.kt:36 | `maxOf` is at least each of its three arguments and equal to one of them |
| Algorithm.PairScoreSymmetric | composeApp/src/desktopMain/kotlin/com/edu/nwalgo/backend/algo/ProgressiveAligner.kt:93-103 | A column scores the same whichever of its two characters comes first, so scoring each pair of rows once (`j` from `i + 1`) loses nothing |
| Algorithm.Matrix | composeApp/src/desktopMain/kotlin/com/edu/nwalgo/backend/algo/Algorithm.kt:23-38 | The cell-by-cell recurrence forms a matrix of `(m+1)` rows of `(n+1)` cells, with the gap borders and the three-way maximum inside |
| Algorithm.CellAgrees | composeApp/src/desktopMain/kotlin/com/edu/nwalgo/backend/algo/Algorithm.kt:27-37 | Every cell of any matrix with those borders and that recurrence equals the recurrence's value |
| Algorithm.ScoreMatrixUnique | composeApp/src/desktopMain/kotlin/com/edu/nwalgo/backend/algo/Algorithm.kt:23-38 | The borders and the recurrence determine the matrix completely |
| Algorithm.SwapTransposes | composeApp/src/desktopMain/kotlin/com/edu/nwalgo/backend/algo/Algorithm.kt:27-37 | Aligning `seq2` against `seq1` gives the transpose of the matrix for `seq1` against `seq2` |
| Algorithm.ScoreSymmetric | composeApp/src/desktopMain/kotlin/com/edu/nwalgo/backend/algo/Algorithm.kt:27-37 | The optimal score, and the reported score, are the same when the two inputs are swapped |
| Algorithm.ChooseInColumnZero | composeApp/src/desktopMain/kotlin/com/edu/nwalgo/backend/algo/Algorithm.kt:57-67 | In column 0 the up test always succeeds, so the left branch (which reads `seq2[j - 1]`) only ever runs with `j > 0` |
| Algorithm.Trace | composeApp/src/desktopMain/kotlin/com/edu/nwalgo/backend/algo/Algorithm.kt:48-70 | The traceback from `(i, j)` uses exactly `i` characters of `seq1` and `j` of `seq2`, so it ends at `(0, 0)` |
| Algorithm.TraceStep | composeApp/src/desktopMain/kotlin/com/edu/nwalgo/backend/algo/Algorithm.kt:50-69 | The traceback from `(i, j)` is the traceback from the cell the chosen move comes from, followed by that move |
| Algorithm.TraceIsPreferred | composeApp/src/desktopMain/kotlin/com/edu/nwalgo/backend/algo/Algorithm.kt:51-63 | At every step the traceback takes diagonal when its test holds, up only when diagonal fails, and left only when both fail |
| Algorithm.TraceScoreIsCell | composeApp/src/desktopMain/kotlin/com/edu/nwalgo/backend/algo/Algorithm.kt:51-68 | The moves of the traceback collect exactly the score of the cell they start from |
| Algorithm.NoAlignmentScoresHigher | composeApp/src/desktopMain/kotlin/com/edu/nwalgo/backend/algo/Algorithm.kt:31-37 | No sequence of moves that uses `i` and `j` characters scores more than cell `(i, j)` |
| Algorithm.AlignmentIsOptimal | composeApp/src/desktopMain/kotlin/com/edu/nwalgo/backend/algo/Algorithm.kt:31-37 | No alignment of the two inputs, scored by moves or column by column, scores more than the reported score |
| Algorithm.AlignmentShape | composeApp/src/desktopMain/kotlin/com/edu/nwalgo/backend/algo/Algorithm.kt:75-87 | The record's matrix satisfies the borders and recurrence, its score is the bottom-right cell and the optimum, the aligned strings are equally long and one shorter than the path, and each keeps its input's non-gap count |
| Algorithm.AlignmentPath | composeApp/src/desktopMain/kotlin/com/edu/nwalgo/backend/algo/Algorithm.kt:49-73 | The path starts at `(0, 0)` and ends at `(m, n)`, and each step is `(1,1)`, `(1,0)` or `(0,1)` |
| Algorithm.AlignmentOfGapFree | composeApp/src/desktopMain/kotlin/com/edu/nwalgo/backend/algo/Algorithm.kt:51-78 | For inputs without `-`, the following hold: removing `-` gives back each input; no column pairs `-` with `-`; the gap count is the number of `-` in both strings; the matches are the equal columns; scoring the columns gives the score |
| Algorithm.AlignedStrings | composeApp/src/desktopMain/kotlin/com/edu/nwalgo/backend/algo/Algorithm.kt:52-78 | Each aligned string on its own: equal lengths, the first keeps `seq1`'s non-gap count, a gap-free input is recovered by removing `-`, and the score is the optimum |
| Algorithm.Row1Strips | composeApp/src/desktopMain/kotlin/com/edu/nwalgo/backend/algo/Algorithm.kt:52-64 | The first aligned string, with `-` removed, is the consumed prefix of a gap-free `seq1` |
| Algorithm.Row2Strips | composeApp/src/desktopMain/kotlin/com/edu/nwalgo/backend/algo/Algorithm.kt:53-65 | The second aligned string, with `-` removed, is the consumed prefix of a gap-free `seq2` |
| Algorithm.Row1KeepsNonGaps | composeApp/src/desktopMain/kotlin/com/edu/nwalgo/backend/algo/Algorithm.kt:52-64 | The first aligned string has as many non-gap characters as the consumed prefix of `seq1` |
| Algorithm.Row2KeepsNonGaps | composeApp/src/desktopMain/kotlin/com/edu/nwalgo/backend/algo/Algorithm.kt:53-65 | The second aligned string has as many non-gap characters as the consumed prefix of `seq2` |
| Algorithm.GapColumns | composeApp/src/desktopMain/kotlin/com/edu/nwalgo/backend/algo/Algorithm.kt:52-66 | With gap-free inputs, no column holds two gaps, the gap moves are the `-` characters in both strings, and the matches are the equal columns |
| Algorithm.ScoredColumns | composeApp/src/desktopMain/kotlin/com/edu/nwalgo/backend/algo/Algorithm.kt:51-68 | With gap-free inputs, the column-by-column score of the two strings is the score the moves collect |
| Algorithm.MatchCount | composeApp/src/desktopMain/kotlin/com/edu/nwalgo/backend/algo/Algorithm.kt:54 | The match counter never exceeds the number of columns |
| Algorithm.GapMoves | composeApp/src/desktopMain/kotlin/com/edu/nwalgo/backend/algo/Algorithm.kt:60-66 | The gap counter never exceeds the number of columns |
| Algorithm.Walk | composeApp/src/desktopMain/kotlin/com/edu/nwalgo/backend/algo/Algorithm.kt:49-73 | The path has one more cell than there are moves; it starts at `(0, 0)` and ends at the characters used |
| Algorithm.WalkIsUnitSteps | composeApp/src/desktopMain/kotlin/com/edu/nwalgo/backend/algo/Algorithm.kt:49-67 | Consecutive path cells differ by `(1,1)`, `(1,0)` or `(0,1)` |
| Algorithm.UnwindRows | composeApp/src/desktopMain/kotlin/com/edu/nwalgo/backend/algo/Algorithm.kt:52-76 | Reversing the strings the loop collects backwards gives the gapped strings of the traceback's moves, and the counters are its matches and gap moves |
| Algorithm.UnwindPath | composeApp/src/desktopMain/kotlin/com/edu/nwalgo/backend/algo/Algorithm.kt:49-73 | Adding `(0, 0)` to the collected cells and reversing gives the forward path |
| Text.Reverse | composeApp/src/desktopMain/kotlin/com/edu/nwalgo/backend/algo/Algorithm.kt:73-76 | The reversal puts element `k` at position `len - 1 - k` and keeps the length |
| Text.GapCount | composeApp/src/desktopMain/kotlin/com/edu/nwalgo/backend/algo/ProgressiveAligner.kt:44 | Counting `-` gives at most the length |
| Text.GapCountZero | composeApp/src/desktopMain/kotlin/com/edu/nwalgo/backend/algo/ProgressiveAligner.kt:44 | The count is zero exactly when there is no `-` |
| Text.Strip | composeApp/src/desktopMain/kotlin/com/edu/nwalgo/backend/algo/Algorithm.kt:52-65 | Removing `-` leaves the non-gap characters |
| Text.Upper | composeApp/src/desktopMain/kotlin/com/edu/nwalgo/fastaparser/parseFasta.kt:7 | `uppercase()` keeps the length, leaves no lower-case letter, and changes only lower-case letters |
| Text.UpperChar | composeApp/src/desktopMain/kotlin/com/edu/nwalgo/fastaparser/parseFasta.kt:7 | One character uppercased: no longer lower-case, a letter exactly when the input is, unchanged if not lower-case |
| Text.UpperKeepsLetters | composeApp/src/desktopMain/kotlin/com/edu/nwalgo/backend/fastMode/FastModeViewModel.kt:24-31 | Uppercasing keeps an all-letter string all letters, and only such strings |
| Text.UpperKeepsUpper | composeApp/src/desktopMain/kotlin/com/edu/nwalgo/fastaparser/parseFasta.kt:7 | Uppercasing changes nothing exactly when there is no lower-case letter |
| Text.Trim | composeApp/src/desktopMain/kotlin/com/edu/nwalgo/fastaparser/parseFasta.kt:4 | `trim()` leaves no whitespace at either end |
| Text.TrimStart | composeApp/src/desktopMain/kotlin/com/edu/nwalgo/fastaparser/parseFasta.kt:4 | The result is a suffix, and the dropped prefix is blank |
| Text.TrimEnd | composeApp/src/desktopMain/kotlin/com/edu/nwalgo/fastaparser/parseFasta.kt:4 | The result is a prefix, and the dropped suffix is blank |
| Text.TrimEmpty | composeApp/src/desktopMain/kotlin/com/edu/nwalgo/fastaparser/parseFasta.kt:4 | Trimming leaves nothing exactly when the string is blank |
| Text.TrimKeeps | composeApp/src/desktopMain/kotlin/com/edu/nwalgo/fastaparser/parseFasta.kt:4 | A string without whitespace at either end is its own trim |
| Text.Split | composeApp/src/desktopMain/kotlin/com/edu/nwalgo/fastaparser/parseFasta.kt:4 | `split(">")` gives at least one piece, and no piece holds `>` |
| Text.JoinOfSplit | composeApp/src/desktopMain/kotlin/com/edu/nwalgo/fastaparser/parseFasta.kt:4 | Joining the pieces with `>` gives back the split string |
| Text.SplitOfJoin | composeApp/src/desktopMain/kotlin/com/edu/nwalgo/fastaparser/parseFasta.kt:4 | Splitting joined pieces that hold no `>` gives back the pieces |
| Text.Lines | composeApp/src/desktopMain/kotlin/com/edu/nwalgo/fastaparser/parseFasta.kt:5 | `lines()` gives at least one line, and no line holds a line break |
| Text.ConcatOfLines | composeApp/src/desktopMain/kotlin/com/edu/nwalgo/fastaparser/parseFasta.kt:5-7 | Concatenating the lines gives the text without its line breaks |
| Text.LinesAsSplit | composeApp/src/desktopMain/kotlin/com/edu/nwalgo/fastaparser/parseFasta.kt:5 | Without `\r`, the lines are the pieces between line feeds |
| Text.RemoveSpaces | composeApp/src/desktopMain/kotlin/com/edu/nwalgo/fastaparser/parseFasta.kt:7 | Removing `\s` leaves no `\s` character and never lengthens the string |
| Text.RemoveSpacesAppend | composeApp/src/desktopMain/kotlin/com/edu/nwalgo/fastaparser/parseFasta.kt:7 | Removing `\s` works piece by piece: the result for `a + b` is the result for `a` followed by the result for `b` |
| Text.RemoveSpacesOne | composeApp/src/desktopMain/kotlin/com/edu/nwalgo/fastaparser/parseFasta.kt:7 | One character is dropped exactly when it matches `\s`, and otherwise kept |
| Text.RemoveSpacesKeeps | composeApp/src/desktopMain/kotlin/com/edu/nwalgo/fastaparser/parseFasta.kt:7 | Removing `\s` changes nothing exactly when there is none |
| Progressive.MergeRow | composeApp/src/desktopMain/kotlin/com/edu/nwalgo/backend/algo/ProgressiveAligner.kt:67-79 | A merged row is as long as the new aligned center |
| Progressive.MergeRowAt | composeApp/src/desktopMain/kotlin/com/edu/nwalgo/backend/algo/ProgressiveAligner.kt:70-76 | Column `k` of a merged row is `-` under a `-` of the center; otherwise it is the row's character numbered by the center's non-gaps before `k`, an index always within the row |
| Progressive.MergeRowStrip | composeApp/src/desktopMain/kotlin/com/edu/nwalgo/backend/algo/ProgressiveAligner.kt:64-82 | Removing `-` from a merged row gives the row's first `NonGapCount(center)` characters, with `-` removed: nothing is reordered, and characters beyond the covered part are dropped |
| Progressive.MergeRowRestores | composeApp/src/desktopMain/kotlin/com/edu/nwalgo/backend/algo/ProgressiveAligner.kt:64-82 | Merging a row into a center that is the row's own characters with `-` inserted gives the center back |
| Progressive.MergeRowLosesCharacters | composeApp/src/desktopMain/kotlin/com/edu/nwalgo/backend/algo/ProgressiveAligner.kt:70-76 | The merge cannot tell an old gap from a new one: `"AB"` merged along `"A-"` becomes `"A-"` and loses its `B` |
| Progressive.MergeAligned | composeApp/src/desktopMain/kotlin/com/edu/nwalgo/backend/algo/ProgressiveAligner.kt:64-82 | One output row per input row, in order, each the row merged along the new center |
| Progressive.MergeOne | composeApp/src/desktopMain/kotlin/com/edu/nwalgo/backend/algo/ProgressiveAligner.kt:68-78 | The cursor loop produces exactly the merged row |
| Progressive.CalculateTotalScore | composeApp/src/desktopMain/kotlin/com/edu/nwalgo/backend/algo/ProgressiveAligner.kt:83-109 | The triple loop returns the sum, over every column of row 0 and every pair `i < j` of rows, of the column score with gap taking precedence |
| Progressive.SumOfPairsOfOne | composeApp/src/desktopMain/kotlin/com/edu/nwalgo/backend/algo/ProgressiveAligner.kt:93-106 | A single row has no pairs and scores 0 |
| Progressive.SumOfPairsOfTwo | composeApp/src/desktopMain/kotlin/com/edu/nwalgo/backend/algo/ProgressiveAligner.kt:93-106 | For two rows, the sum-of-pairs score is the pairwise column score |
| Progressive.ConservedColumns | composeApp/src/desktopMain/kotlin/com/edu/nwalgo/backend/algo/ProgressiveAligner.kt:45-48 | The conserved-column count is at most the number of columns |
| Progressive.ConservedOfTwo | composeApp/src/desktopMain/kotlin/com/edu/nwalgo/backend/algo/ProgressiveAligner.kt:45-48 | For two rows with no column of two gaps, the conserved columns are the equal columns |
| Progressive.StatisticsOfTwo | composeApp/src/desktopMain/kotlin/com/edu/nwalgo/backend/algo/ProgressiveAligner.kt:44-60 | For two such rows, the gap total, the conserved columns and the sum-of-pairs score are the pairwise gap count, matches and column score |
| Progressive.PairwiseScores | composeApp/src/desktopMain/kotlin/com/edu/nwalgo/backend/algo/ProgressiveAligner.kt:15-26 | The nested loops fill an `n×n` table whose entry `(a, b)` is the optimal score of the earlier against the later input, and whose diagonal is 0 |
| Progressive.AlignmentScore | composeApp/src/desktopMain/kotlin/com/edu/nwalgo/backend/algo/ProgressiveAligner.kt:20-21 | The table entry taken from `needlemanWunsch` is the optimal score |
| Progressive.PairwiseTable | composeApp/src/desktopMain/kotlin/com/edu/nwalgo/backend/algo/ProgressiveAligner.kt:15 | The table is `n×n` |
| Progressive.PairwiseTableScores | composeApp/src/desktopMain/kotlin/com/edu/nwalgo/backend/algo/ProgressiveAligner.kt:18-26 | The table is symmetric with a zero diagonal, and each off-diagonal entry is the optimal score of the two inputs |
| Progressive.RowTotals | composeApp/src/desktopMain/kotlin/com/edu/nwalgo/backend/algo/ProgressiveAligner.kt:29 | One total per row |
| Progressive.FirstMinIndex | composeApp/src/desktopMain/kotlin/com/edu/nwalgo/backend/algo/ProgressiveAligner.kt:30 | `minByOrNull` picks an index whose value is minimal, and no earlier index has that value |
| Progressive.CenterIndex | composeApp/src/desktopMain/kotlin/com/edu/nwalgo/backend/algo/ProgressiveAligner.kt:29-30 | The center is an index of the inputs |
| Progressive.CenterOfTwo | composeApp/src/desktopMain/kotlin/com/edu/nwalgo/backend/algo/ProgressiveAligner.kt:29-30 | With two inputs the totals tie, so the center is the first input |
| Progressive.PairAlignerProperties | composeApp/src/desktopMain/kotlin/com/edu/nwalgo/backend/algo/ProgressiveAligner.kt:37 | The aligner the loop uses returns two equally long strings, keeps the center row's non-gap count, and gives a gap-free input back once `-` is removed |
| Progressive.Extend | composeApp/src/desktopMain/kotlin/com/edu/nwalgo/backend/algo/ProgressiveAligner.kt:37-41 | One round keeps the rows equally long and adds exactly one row |
| Progressive.Grow | composeApp/src/desktopMain/kotlin/com/edu/nwalgo/backend/algo/ProgressiveAligner.kt:32-42 | After the loop has passed index `k`, the rows are equally long, and there is one row per visited input plus the center |
| Progressive.CenterStarRows | composeApp/src/desktopMain/kotlin/com/edu/nwalgo/backend/algo/ProgressiveAligner.kt:32-42 | The finished rows are equally long, and there is one per input |
| Progressive.OriginIsOneToOne | composeApp/src/desktopMain/kotlin/com/edu/nwalgo/backend/algo/ProgressiveAligner.kt:32-42 | `Origin` and `RowOf` are inverse index maps between rows and inputs: row 0 is the center, and the others follow in input order, skipping the center |
| Progressive.GrowPlacesInput | composeApp/src/desktopMain/kotlin/com/edu/nwalgo/backend/algo/ProgressiveAligner.kt:32-41 | Row 0 starts as the center; the round for input `i`, when it is not the center, appends that input aligned against row 0 at row `RowOf(center, i)` |
| Progressive.ExtendKeepsPrefixes | composeApp/src/desktopMain/kotlin/com/edu/nwalgo/backend/algo/ProgressiveAligner.kt:40 | A round only ever shortens what an existing row holds, read without `-` |
| Progressive.ExtendFromInputs | composeApp/src/desktopMain/kotlin/com/edu/nwalgo/backend/algo/ProgressiveAligner.kt:37-41 | A round keeps every row a prefix of its input (read without `-`) and appends the next input intact |
| Progressive.GrowRows | composeApp/src/desktopMain/kotlin/com/edu/nwalgo/backend/algo/ProgressiveAligner.kt:32-42 | With gap-free inputs, this holds after every round |
| Progressive.CenterStarRowsFromInputs | composeApp/src/desktopMain/kotlin/com/edu/nwalgo/backend/algo/ProgressiveAligner.kt:32-42 | The finished rows: one per input, all one length, row `r` read without `-` a prefix of input `Origin(center, r)`, and the last row exactly its input |
| Progressive.RowsOfTwo | composeApp/src/desktopMain/kotlin/com/edu/nwalgo/backend/algo/ProgressiveAligner.kt:32-42 | With two gap-free inputs, the rows are exactly the pairwise alignment of the two |
| Progressive.TwoSequences | composeApp/src/desktopMain/kotlin/com/edu/nwalgo/backend/algo/ProgressiveAligner.kt:11-62 | With two gap-free inputs, the multiple alignment reports the pairwise result: the same strings, matches, columns, gap count and score |
| Progressive.AlignOne | composeApp/src/desktopMain/kotlin/com/edu/nwalgo/backend/algo/ProgressiveAligner.kt:37-41 | One round of the loop is `Extend` with Needleman–Wunsch |
| Progressive.AlignToCenter | composeApp/src/desktopMain/kotlin/com/edu/nwalgo/backend/algo/ProgressiveAligner.kt:32-42 | The merging loop leaves exactly the rows `Grow` specifies, with Needleman–Wunsch as the aligner |
| Progressive.PerformProgressiveAlignment | composeApp/src/desktopMain/kotlin/com/edu/nwalgo/backend/algo/ProgressiveAligner.kt:15-61 | The result is exactly `ProgressiveResult`: the center-star rows, the conserved columns over the row length, the total gap count and the sum-of-pairs score |
| Progressive.ProgressiveAligner.constructor | composeApp/src/desktopMain/kotlin/com/edu/nwalgo/backend/algo/ProgressiveAligner.kt:5-9 | The aligner keeps the three scores it is given, by default 1, -1 and -1 |
| Progressive.ProgressiveAligner.Align | composeApp/src/desktopMain/kotlin/com/edu/nwalgo/backend/algo/ProgressiveAligner.kt:11-62 | Fewer than two inputs fail with "Need at least 2 sequences"; otherwise the result is `ProgressiveResult` under the aligner's scores |
| FastaParser.NonBlank | composeApp/src/desktopMain/kotlin/com/edu/nwalgo/fastaparser/parseFasta.kt:4 | `filter { it.isNotBlank() }` keeps no blank string and never lengthens the list |
| FastaParser.NonBlankAppend | composeApp/src/desktopMain/kotlin/com/edu/nwalgo/fastaparser/parseFasta.kt:4 | The filter works piece by piece: what survives of `a + b` is what survives of `a`, then of `b`, in order |
| FastaParser.NonBlankKeepsAll | composeApp/src/desktopMain/kotlin/com/edu/nwalgo/fastaparser/parseFasta.kt:4 | The filter keeps everything exactly when nothing is blank |
| FastaParser.NonBlankEmpty | composeApp/src/desktopMain/kotlin/com/edu/nwalgo/fastaparser/parseFasta.kt:4 | The filter leaves nothing exactly when everything is blank |
| FastaParser.Pieces | composeApp/src/desktopMain/kotlin/com/edu/nwalgo/fastaparser/parseFasta.kt:4 | Every piece of the trimmed, split content that is kept is non-blank |
| FastaParser.PiecesOfBlank | composeApp/src/desktopMain/kotlin/com/edu/nwalgo/fastaparser/parseFasta.kt:4 | Blank content has no pieces |
| FastaParser.ParseFasta | composeApp/src/desktopMain/kotlin/com/edu/nwalgo/fastaparser/parseFasta.kt:3-10 | The lenient reader returns one record per non-blank piece and never fails |
| FastaParser.LenientHeader | composeApp/src/desktopMain/kotlin/com/edu/nwalgo/fastaparser/parseFasta.kt:6 | The lenient header is trimmed |
| FastaParser.LenientSequence | composeApp/src/desktopMain/kotlin/com/edu/nwalgo/fastaparser/parseFasta.kt:7 | The lenient sequence has no whitespace and no lower-case letter |
| FastaParser.ParseFastaFields | composeApp/src/desktopMain/kotlin/com/edu/nwalgo/fastaparser/parseFasta.kt:3-10 | Every record of the lenient reader has a trimmed header and a clean sequence |
| FastaParser.ParseFastaOfBlank | composeApp/src/desktopMain/kotlin/com/edu/nwalgo/fastaparser/parseFasta.kt:4 | Blank content, including the empty string, gives no records |
| FastaParser.LenientBlankFirstLine | composeApp/src/desktopMain/kotlin/com/edu/nwalgo/fastaparser/parseFasta.kt:5-6 | A piece whose first physical line is blank gets an empty header |
| FastaParser.SequenceIsClean | composeApp/src/desktopMain/kotlin/com/edu/nwalgo/fastaparser/parseFasta.kt:7 | The sequence pipeline leaves no whitespace and no lower-case letter |
| FastaParser.StrictEntry | composeApp/src/desktopMain/kotlin/com/edu/nwalgo/backend/commonViewModel/CommonView.kt:262-267 | A record the strict reader accepts has a non-blank sequence |
| FastaParser.Collect | composeApp/src/desktopMain/kotlin/com/edu/nwalgo/backend/commonViewModel/CommonView.kt:261-268 | `map` with a throwing body succeeds exactly when every piece succeeds, and then returns their records in order; otherwise it fails with the error of the first failing piece |
| FastaParser.CollectAll | composeApp/src/desktopMain/kotlin/com/edu/nwalgo/backend/commonViewModel/CommonView.kt:261-268 | When every piece reads as its record, the records are returned |
| FastaParser.ParseFastaStrict | composeApp/src/desktopMain/kotlin/com/edu/nwalgo/backend/commonViewModel/CommonView.kt:260-269 | On success there is one record per non-blank piece, and every sequence is non-blank |
| FastaParser.StrictFailsOn | composeApp/src/desktopMain/kotlin/com/edu/nwalgo/backend/commonViewModel/CommonView.kt:262-266 | A non-blank piece keeps a line; the strict reader fails on it exactly when its remaining lines give a blank sequence |
| FastaParser.NeverMissingHeader | composeApp/src/desktopMain/kotlin/com/edu/nwalgo/backend/commonViewModel/CommonView.kt:263 | The "missing header" error never occurs |
| FastaParser.StrictFields | composeApp/src/desktopMain/kotlin/com/edu/nwalgo/backend/commonViewModel/CommonView.kt:262-267 | A record a strict reader accepts has a trimmed, non-empty header and a sequence without whitespace or lower-case letters |
| FastaParser.ParseFastaStrictFields | composeApp/src/desktopMain/kotlin/com/edu/nwalgo/backend/commonViewModel/CommonView.kt:260-269 | On success, every record has a trimmed, non-empty header and a sequence without whitespace or lower-case letters |
| FastaParser.HasNonBlankLine | composeApp/src/desktopMain/kotlin/com/edu/nwalgo/backend/commonViewModel/CommonView.kt:262-263 | A non-blank piece keeps at least one line after blank lines are dropped |
| FastaParser.StrictSkipsBlankLine | composeApp/src/desktopMain/kotlin/com/edu/nwalgo/backend/commonViewModel/CommonView.kt:262 | Blank lines before the header do not change what the strict reader returns |
| FastaParser.ErrorMessage | composeApp/src/desktopMain/kotlin/com/edu/nwalgo/backend/commonViewModel/CommonView.kt:263-266 | The missing-header error gives the fixed text; the empty-sequence error gives the prefix followed by the header, which can be read back after it |
| FastaParser.MessagesTellErrorsApart | composeApp/src/desktopMain/kotlin/com/edu/nwalgo/backend/msa/MSAModeViewModel.kt:258-260 | With either reader's texts (`CommonView` or `MSAModeViewModel`), equal messages come from the same error with the same header |
| FastaParser.ReadLenient | composeApp/src/desktopMain/kotlin/com/edu/nwalgo/fastaparser/parseFasta.kt:5-8 | The lenient reader reads a well-formed record back from its text |
| FastaParser.ReadStrict | composeApp/src/desktopMain/kotlin/com/edu/nwalgo/backend/commonViewModel/CommonView.kt:262-267 | The strict reader reads a well-formed record back from its text |
| FastaParser.PiecesOfRender | composeApp/src/desktopMain/kotlin/com/edu/nwalgo/fastaparser/parseFasta.kt:4 | Trimming, splitting and filtering the text of well-formed records gives one piece per record |
| FastaParser.ParseRender | composeApp/src/desktopMain/kotlin/com/edu/nwalgo/fastaparser/parseFasta.kt:3-10 | Reading the written text of well-formed records with the lenient reader gives the same records |
| FastaParser.ParseRenderStrict | composeApp/src/desktopMain/kotlin/com/edu/nwalgo/backend/commonViewModel/CommonView.kt:260-269 | Reading the written text of well-formed records with the strict reader gives the same records |
| ViewModels.ValidateReport | composeApp/src/desktopMain/kotlin/com/edu/nwalgo/backend/reportMode/ReportModeViewModel.kt:13-19 | Accepted exactly when the input is present and all letters; the error is "letters only"; an accepted value is the input uppercased |
| ViewModels.ValidateFast | composeApp/src/desktopMain/kotlin/com/edu/nwalgo/backend/fastMode/FastModeViewModel.kt:23-32 | Accepted exactly when the input is present, all letters and at most 20 long; "letters only" exactly when the letter check fails, and "too long" exactly when it passes; an accepted value is the input uppercased |
| ViewModels.FastIsStricter | composeApp/src/desktopMain/kotlin/com/edu/nwalgo/backend/fastMode/FastModeViewModel.kt:23-32 | Whatever the fast mode accepts, the report mode accepts and stores the same way; whatever the report mode rejects, the fast mode rejects with the same message |
| ViewModels.StoredSequenceIsAccepted | composeApp/src/desktopMain/kotlin/com/edu/nwalgo/backend/reportMode/ReportModeViewModel.kt:13-19 | Entering a stored sequence again stores it unchanged, in either mode |
| ViewModels.FastModeBoundary | composeApp/src/desktopMain/kotlin/com/edu/nwalgo/backend/fastMode/FastModeViewModel.kt:27 | 20 letters are accepted; 21 are rejected as too long |
| ViewModels.CommonView.constructor | composeApp/src/desktopMain/kotlin/com/edu/nwalgo/backend/commonViewModel/CommonView.kt:31-146 | Empty sequences, scores 1, -1 and -2, and no error messages |
| ViewModels.CommonView.Result | composeApp/src/desktopMain/kotlin/com/edu/nwalgo/backend/commonViewModel/CommonView.kt:85-86 | `result` is the pairwise alignment of the current sequences under the current scores; its score is the optimum, and its strings are equally long |
| ViewModels.CommonView.ClearErrorMessages | composeApp/src/desktopMain/kotlin/com/edu/nwalgo/backend/commonViewModel/CommonView.kt:157-163 | All five errors are cleared; sequences and scores are kept |
| ViewModels.CommonView.UpdateSeq1 | composeApp/src/desktopMain/kotlin/com/edu/nwalgo/backend/commonViewModel/CommonView.kt:171-173 | The base setter changes nothing |
| ViewModels.CommonView.UpdateSeq2 | composeApp/src/desktopMain/kotlin/com/edu/nwalgo/backend/commonViewModel/CommonView.kt:180-182 | The base setter changes nothing |
| ViewModels.CommonView.UpdateMatch | composeApp/src/desktopMain/kotlin/com/edu/nwalgo/backend/commonViewModel/CommonView.kt:192-199 | A missing number sets the match error and keeps the score; a number is stored and the error cleared; every other field is kept |
| ViewModels.CommonView.UpdateMismatch | composeApp/src/desktopMain/kotlin/com/edu/nwalgo/backend/commonViewModel/CommonView.kt:209-216 | The same for the mismatch score |
| ViewModels.CommonView.UpdateGap | composeApp/src/desktopMain/kotlin/com/edu/nwalgo/backend/commonViewModel/CommonView.kt:225-232 | The same for the gap score |
| ViewModels.CommonView.StoreSeq1 | composeApp/src/desktopMain/kotlin/com/edu/nwalgo/backend/fastMode/FastModeViewModel.kt:24-32 | A rejection sets only the first sequence's error; an acceptance stores the value and clears the error; every other field is kept |
| ViewModels.CommonView.StoreSeq2 | composeApp/src/desktopMain/kotlin/com/edu/nwalgo/backend/fastMode/FastModeViewModel.kt:38-46 | The same for the second sequence |
| ViewModels.FastModeViewModel.constructor | composeApp/src/desktopMain/kotlin/com/edu/nwalgo/backend/fastMode/FastModeViewModel.kt:21 | A fresh `CommonView` in its initial state |
| ViewModels.FastModeViewModel.UpdateSeq1 | composeApp/src/desktopMain/kotlin/com/edu/nwalgo/backend/fastMode/FastModeViewModel.kt:23-35 | `seq1` becomes the uppercased input, or keeps its value and gets `ValidateFast`'s error; the other sequence, its error and the scores are kept |
| ViewModels.FastModeViewModel.UpdateSeq2 | composeApp/src/desktopMain/kotlin/com/edu/nwalgo/backend/fastMode/FastModeViewModel.kt:37-49 | The same for `seq2` |
| ViewModels.ReportModeViewModel.constructor | composeApp/src/desktopMain/kotlin/com/edu/nwalgo/backend/reportMode/ReportModeViewModel.kt:9 | A fresh `CommonView` in its initial state |
| ViewModels.ReportModeViewModel.UpdateSeq1 | composeApp/src/desktopMain/kotlin/com/edu/nwalgo/backend/reportMode/ReportModeViewModel.kt:13-22 | `seq1` becomes the uppercased input, or keeps its value and gets "letters only"; any length is accepted; the other fields are kept |
| ViewModels.ReportModeViewModel.UpdateSeq2 | composeApp/src/desktopMain/kotlin/com/edu/nwalgo/backend/reportMode/ReportModeViewModel.kt:23-31 | The same for `seq2` |
| ViewModels.MSAModeViewModel.constructor | composeApp/src/desktopMain/kotlin/com/edu/nwalgo/backend/msa/MSAModeViewModel.kt:35-71 | No result yet, and scores 1, -1 and -1 |
| ViewModels.MSAModeViewModel.UpdateMatchScore | composeApp/src/desktopMain/kotlin/com/edu/nwalgo/backend/msa/MSAModeViewModel.kt:78-80 | Sets the match score only |
| ViewModels.MSAModeViewModel.UpdateMismatchScore | composeApp/src/desktopMain/kotlin/com/edu/nwalgo/backend/msa/MSAModeViewModel.kt:86-88 | Sets the mismatch score only |
| ViewModels.MSAModeViewModel.UpdateGapScore | composeApp/src/desktopMain/kotlin/com/edu/nwalgo/backend/msa/MSAModeViewModel.kt:94-96 | Sets the gap score only |
| ViewModels.MSAModeViewModel.AlignSequences | composeApp/src/desktopMain/kotlin/com/edu/nwalgo/backend/msa/MSAModeViewModel.kt:105-110 | Fewer than two sequences leave the result as it was; otherwise the result becomes the center-star alignment under the current scores, computed as in `performProgressiveAlignment` (lines 121-231 of the same file); the scores are kept |

## Left out

- **MSAModeViewModel's private copies.** `performProgressiveAlignment`, `mergeAligned` and `calculateTotalScore` in composeApp/src/desktopMain/kotlin/com/edu/nwalgo/backend/msa/MSAModeViewModel.kt:121-231 are the code of `ProgressiveAligner` line for line. They are not modelled twice: `Progressive.PerformProgressiveAlignment`, `Progressive.MergeAligned` and `Progressive.CalculateTotalScore` stand for both.
- **MSAModeViewModel's `parseFasta`.** It is modelled by `FastaParser.ParseFastaStrict` together with `FastaParser.ErrorMessage` and the texts `MSAMissingHeader` and `MSAEmptySequence`. It lacks `CommonView`'s missing-header check, but that check can never fire (`FastaParser.NeverMissingHeader`).
- Progressive.CenterStarRowsFromInputs: states that each earlier row, read without `-`, is a prefix of its input, not the input itself. The center row is re-aligned together with the gaps it already has, and `mergeAligned` cannot tell those gaps from new ones, so earlier rows can lose characters. For example, inputs `["A", "AB", "AB"]` with scores 1, -1, -1 end as `["A-", "A-", "AB"]`. `Progressive.MergeRowLosesCharacters` shows the mechanism on one row. The counterexample itself, a full three-input run, is not proved.
- **Identity percentage.** `identityPercent` and `identity` are `Double` quotients times 100, which are NaN for an empty alignment. The model keeps the numerator and denominator as `Identity(matches, columns)`.
- **Integer width.** Kotlin `Int` overflow, e.g. `i * gap` or the accumulated totals, is not modelled; scores are unbounded integers.
- **Characters.** `isLetter`, `isWhitespace`, `uppercase()`, `trim()` and the regex `\s` are modelled over ASCII. Unicode letters and whitespace, and case mappings that change length, are not modelled.
- **Unused arrays.** The `pairwiseAlignments` arrays (composeApp/src/desktopMain/kotlin/com/edu/nwalgo/backend/algo/ProgressiveAligner.kt:16,23-24) are never read, so they are left out.
- **Default arguments.** Dafny's default parameters stand in for the `ProgressiveAligner` constructor's defaults. `Align` itself takes the sequences as a `seq<string>`, not a `List`.
- **File and UI plumbing.** These are file dialogs, file reads and calls into `DocumentManager`, which is not part of this model:
  - `pickFastaFile`, `loadFastaFromFileSeq1/2`, `loadFirstFastaSequence`;
  - the PDF/PNG/SVG exports, `showVisualization`;
  - the Compose `mutableStateOf`/`StateFlow` observers (fields are plain fields here).
- **Unmodelled files.** The Compose screens, navigation, the matrix image, the legacy `graphics/AlignmentViewModel.kt` and `graphics/NeedlemanWunschViewModel.kt`, and `fastaTest.kt` carry no core logic. `FastaEntry`'s own source file is not part of this model; it is declared here as a two-field datatype.
- **Inheritance.** It is modelled as composition. A `FastModeViewModel` or `ReportModeViewModel` holds its `CommonView` as `view`, and dynamic dispatch from `CommonView`'s loaders to the overriding setters is not modelled.
