# Smith-Waterman local aligner, modelled in Dafny

This project models a small Smith-Waterman local aligner in two variants:

- `swaligner.py` scores a pair of symbols uniformly: `match = 3` when they are equal, `mismatch = -3` otherwise.
- `swaligner_adjusted.py` looks each pair up in the `adjusted_scores` table: 3 for identical bases, 1 for a transition (A with G, C with T), -3 otherwise. A pair missing from the table raises `KeyError`.

Both variants charge a gap penalty of -2. They share the rest of the pipeline:

1. `create_score_matrix` fills the `(|seq1|+1) x (|seq2|+1)` matrix in row-major order. It keeps the first cell, in row-major order, that holds the largest score, and asserts that this score is above 0.
2. `trace` walks back from that cell to a zero cell.
3. `check` lists the matrix values along the trace.
4. `trace_string` renders the trace as text of the form `r<col>c<row> -> ...`. The code writes the column after `r` and the row after `c`, and the model keeps that.
5. `align` (only in the adjusted file) renders two gapped tracks and a similarity line.

The modules follow that structure:

- `Types`: positions, row-major order, `Option`.
- `ScoreMatrix`: `calc_score` and `create_score_matrix`. The scoring scheme is a parameter, so one builder serves both variants.
- `Traceback`: `trace` as written, and a corrected walk.
- `Views`: `check`, `trace_string` and its parser, and `align` as written next to a corrected renderer.
- `SwAligner` and `SwAlignerAdjusted`: the two scoring schemes, their builders, and concrete examples.

The score matrix is an `array2<int>` that the builder allocates and fills in place. `trace`, `check`, `trace_string` and `align` are loops over sequences, proved against specification functions: the ghost function `Walk` and the functions `TraceText` and `AlignAsWritten`.

Rendered with one column per step of the trace, `seq1 = seq2 = "AC"` gives `AC` / `AC` / `**`; the code prints `-AC` / `-AC` / `***`. The model follows the code (`Views.AlignAsWritten`, proved in `SwAlignerAdjusted.WorkedExampleAlignment`). The intended rendering is kept as `Views.AlignCorrected`.

## Model

| member | source | states |
|---|---|---|
| Types.Max4 | swaligner_adjusted.py:52 | the result is one of the four arguments and no smaller than any of them (Python's `max`) |
| ScoreMatrix.CalcScore | swaligner_adjusted.py:44-52 | no score exactly when the pair `(seq1[x-1], seq2[y-1])` has none (the `KeyError`); otherwise the maximum of 0, diagonal + similarity, up + gap and left + gap |
| ScoreMatrix.CreateScoreMatrix | swaligner_adjusted.py:22-42 | the matrix is `(|seq1|+1) x (|seq2|+1)`; `KeyError` exactly when some pair has no score; otherwise every cell is the Smith-Waterman recurrence over a zero boundary, no cell is negative, the assertion fails exactly when the matrix is all zero, and the returned position is interior, positive and the first maximum in row-major order |
| ScoreMatrix.FillRow | swaligner_adjusted.py:35-40 | one pass of the inner loop keeps the fill invariant for the whole row, or stops on a pair of that row that has no score; no row other than `i` changes |
| ScoreMatrix.FillCell | swaligner_adjusted.py:36-40 | scoring one cell succeeds exactly when its pair has a score; the strict `>` keeps the earlier cell on a tie, so the running maximum stays the first maximum; no cell other than `(x, y)` changes |
| ScoreMatrix.FilledGrid | swaligner_adjusted.py:34-41 | after the loops: every pair was scored, the matrix is the score grid, and `max_pos` is `None` exactly when all cells are zero, otherwise the first maximum |
| ScoreMatrix.RecurrenceDeterminesGrid | swaligner_adjusted.py:30-40 | any matrix with a zero row 0 and column 0 whose interior satisfies the recurrence is the score matrix |
| ScoreMatrix.ScoreGridFacts | swaligner_adjusted.py:30-52 | the score matrix has a zero boundary and no negative cell |
| ScoreMatrix.FirstMaxUnique | swaligner_adjusted.py:37-39 | two first maxima are the same cell, so the matrix determines `max_pos` |
| ScoreMatrix.AllZeroIffNoPositivePair | swaligner_adjusted.py:41 | with a non-positive gap the matrix is all zero exactly when no pair of symbols scores above zero |
| Traceback.Step | swaligner_adjusted.py:78-89 | the nested if/elif as four exclusive cases: diagonal iff `diag >= left` and `diag >= up`; left iff `left > diag` and `left >= up`; up iff `up > left > diag`; no move iff `diag >= left` and `diag < up` |
| Traceback.StepPicksLargest | swaligner_adjusted.py:78-89 | every move the step takes goes to a neighbour with the largest of the three scores |
| Traceback.Neighbour | swaligner_adjusted.py:80-89 | a diagonal move lowers `row + col` by 2, left and up moves by 1, and no move keeps the position |
| Traceback.WalkShape | swaligner_adjusted.py:70-91 | the trace starts at the start position and has at most `row + col + 1` cells; each cell follows the step rule from the one before, with every cell but the last nonzero and `row + col` falling; it ends on a zero cell, or it stalls on a nonzero cell where no branch moves |
| Traceback.Trace | swaligner_adjusted.py:70-91 | the `while` loop returns exactly the walk `Walk` describes, or reports the cell where it would spin forever |
| Traceback.StepCorrected | swaligner_adjusted.py:78-89 | the intended step always moves, to a largest neighbour: it is `trace`'s move wherever that moves, and up, the one largest neighbour, where no branch moves |
| Traceback.WalkCorrectedShape | swaligner_adjusted.py:70-91 | with the intended step, the walk always ends on a zero cell within `row + col + 1` cells; each step goes to a largest neighbour and lowers `row + col` |
| Traceback.TraceCorrected | swaligner_adjusted.py:70-91 | the same loop with the intended step returns exactly `WalkCorrected` |
| Traceback.WalkCorrectedExtendsWalk | swaligner_adjusted.py:70-91 | the path of `trace` is always a prefix of the corrected walk, and the two are equal whenever `trace` ends |
| Traceback.WorkedWalk | swaligner_adjusted.py:70-91 | on a zero-bordered 3x3 matrix with interior 3, 1, 1, 6 the first maximum is `(2, 2)` and `trace` returns `[(2,2), (1,1), (0,0)]` |
| Views.Check | swaligner_adjusted.py:104-108 | one value per trace element, element `k` being the matrix value at `trace[k]` |
| Views.TraceValues | swaligner_adjusted.py:104-108 | along a trace, `check` starts with the start cell's value, and every value but the last is nonzero; the last is zero exactly when `trace` finishes |
| Views.NatToString | swaligner_adjusted.py:98 | `str(n)` is a non-empty string of digits: `"0"` for 0, and otherwise it does not start with `'0'` |
| Views.DigitsValueOfNatToString | swaligner_adjusted.py:98 | the digits of `str(n)` read back as `n` |
| Views.TraceString | swaligner_adjusted.py:94-101 | the loop builds exactly `TraceText`: the labels `r<col>c<row>` joined by `" -> "`, with none after the last |
| Views.JoinStep | swaligner_adjusted.py:96-100 | one iteration, with or without the trailing arrow, keeps the text built so far a prefix of the full text |
| Views.ParseLabelOfLabel | swaligner_adjusted.py:98-100 | one label `r<col>c<row>` parses back to its position and leaves what follows it |
| Views.TraceTextRoundTrip | swaligner_adjusted.py:94-101 | the text parses back to the original trace, so distinct traces give distinct texts |
| Views.Reverse | swaligner_adjusted.py:133 | `s[::-1]`: the same length, character `k` being character `|s| - 1 - k` |
| Views.MarksOf | swaligner_adjusted.py:131-136 | `'*'` exactly where the two tracks hold the same character, `' '` elsewhere |
| Views.BuildTracks | swaligner_adjusted.py:114-130 | the first loop emits, for element `k`, `seq[idx[k]-1]` when `idx[k]-1 >= 0` and it differs from the previous element's `idx - 1` (0 before the first element), otherwise `'-'` |
| Views.SimilarityLine | swaligner_adjusted.py:131-136 | the second loop builds exactly the similarity line of the reversed tracks |
| Views.AlignAsWritten | swaligner_adjusted.py:111-139 | each of the three printed lines has one character per trace element |
| Views.Align | swaligner_adjusted.py:111-139 | `align` returns exactly `AlignAsWritten`: the reversed tracks and their similarity line |
| Views.AlignColumns | swaligner_adjusted.py:118-136 | column `|trace|-1-k` of each track is the character chosen for trace element `k`, and a column is marked `'*'` exactly when the two tracks agree, a gap against a gap included |
| Views.AlignDropsFirstRowSymbol | swaligner_adjusted.py:114-124 | a trace that starts in row 1 contributes a gap where `seq1[0]` belongs |
| Views.AlignCorrected | swaligner_adjusted.py:111-139 | the intended rendering has one column per step; a column is marked `'*'` exactly when both tracks hold the same symbol and it is not a gap |
| Views.AlignCorrectedSpellsSubstrings | swaligner_adjusted.py:111-130 | along a step path, the ungapped top track is `seq1[last.row..first.row]` and the ungapped bottom track is `seq2[last.col..first.col]` |
| Views.TrackSpellsStretch | swaligner_adjusted.py:118-128 | along indices that fall by 0 or 1 per step, one track's symbols are the stretch of the sequence they cover |
| Views.TracksNeverBothGaps | swaligner_adjusted.py:118-128 | in the intended rendering no column is a gap against a gap |
| Views.WalkIsStepPath | swaligner_adjusted.py:70-91 | every path `trace` produces moves by one diagonal, left or upper step at a time |
| Views.WalkCorrectedIsStepPath | swaligner_adjusted.py:70-91 | the corrected walk moves by one diagonal, left or upper step at a time |
| SwAligner.PairScore | swaligner.py:43 | the similarity is `match` or `mismatch`, positive exactly when the symbols are equal |
| SwAligner.UniformScoresEverything | swaligner.py:43 | the uniform scheme scores every pair, so this variant never raises `KeyError` |
| SwAligner.CreateScoreMatrix | swaligner.py:18-38 | the score grid with a zero boundary and no negative cell, never `KeyError`; the assertion fails exactly when no symbol of `seq1` occurs in `seq2`; otherwise the position is the positive first maximum |
| SwAligner.NoCommonSymbolIffAllZero | swaligner.py:37 | the uniform matrix is all zero exactly when the sequences share no symbol |
| SwAligner.WorkedExample | swaligner.py:18-86 | for `"AC"`/`"AC"` the interior is 3, 1, 1, 6, the maximum is at `(2, 2)`, and `trace` returns `[(2,2), (1,1), (0,0)]` |
| SwAligner.WorkedExampleText | swaligner.py:89-96 | `trace_string` of that path is `"r2c2 -> r1c1 -> r0c0"` |
| SwAligner.StallExample | swaligner.py:65-86 | for `"AA"`/`"ACA"` the first maximum 4 is at `(2, 3)`, where no branch of `trace` moves; the corrected walk reaches `(0, 0)` in five cells |
| SwAligner.StallWalk | swaligner.py:65-86 | on that matrix's values alone, `trace` stalls at `(2, 3)` and the corrected walk is `[(2,3), (1,3), (1,2), (1,1), (0,0)]` |
| SwAlignerAdjusted.Lookup | swaligner_adjusted.py:47-48 | a score exactly when the two-letter key is in `adjusted_scores`, and then it is that entry |
| SwAlignerAdjusted.TableKeys | swaligner_adjusted.py:9-12 | the table has an entry exactly for the pairs of nucleotides `ACGT` |
| SwAlignerAdjusted.TableMatchesIntendedScore | swaligner_adjusted.py:9-12 | every entry is 3 for identical bases, 1 for a transition and -3 for a transversion |
| SwAlignerAdjusted.TableSymmetric | swaligner_adjusted.py:9-12 | swapping the two symbols changes neither whether there is an entry nor its value |
| SwAlignerAdjusted.PositiveScores | swaligner_adjusted.py:9-12 | a pair scores above zero exactly when both bases are purines or both are pyrimidines |
| SwAlignerAdjusted.ScoredIffBases | swaligner_adjusted.py:44-48 | every lookup succeeds exactly when one sequence is empty or both are made of `ACGT` |
| SwAlignerAdjusted.CreateScoreMatrix | swaligner_adjusted.py:22-42 | `KeyError` exactly when both sequences are non-empty and one holds a symbol outside `ACGT`; the assertion fails exactly when every pair is a transversion; otherwise the score grid and its positive first maximum |
| SwAlignerAdjusted.NoPositivePairIffAllZero | swaligner_adjusted.py:41 | the table matrix is all zero exactly when no pair is identical or a transition |
| SwAlignerAdjusted.StallExample | swaligner_adjusted.py:78-89 | for `"AG"`/`"G"` the first maximum 3 is at `(2, 1)`, where no branch of `trace` moves; the corrected walk is `[(2,1), (1,1), (0,0)]` |
| SwAlignerAdjusted.WorkedExample | swaligner_adjusted.py:22-91 | under the table, `"AC"`/`"AC"` has the interior 3, 1, 1, 6, the maximum at `(2, 2)`, and `trace` returns `[(2,2), (1,1), (0,0)]` |
| SwAlignerAdjusted.WorkedExampleAlignment | swaligner_adjusted.py:111-139 | `align` on that path gives `-AC`/`-AC`/`***`; the intended rendering is `AC`/`AC`/`**` |
| SwAlignerAdjusted.SingleSymbolExample | swaligner_adjusted.py:22-91 | under the table, for `"A"`/`"A"` the maximum is at `(1, 1)` and `trace` returns `[(1,1), (0,0)]` |
| SwAlignerAdjusted.SingleSymbolAlignment | swaligner_adjusted.py:111-139 | `align` on that path gives `--`/`--`/`**`; the intended rendering is `A`/`A`/`*` |
| SwAlignerAdjusted.MisplacedGapsAlignment | swaligner_adjusted.py:111-139 | on the path `[(3,2), (2,2), (1,1), (0,0)]` over `"XYZ"`/`"PQ"`, `align` gives `-XYZ`/`-P-Q`/`*   `, setting `Z` against `Q` and `Y` against a gap; the intended rendering is `XYZ`/`PQ-`/three spaces |

## Left out

- `print_matrix` is not modelled. It only prints the matrix through numpy.
- `trace_string` and `align` print their results; the model returns the printed text as a value (`TraceText`, `Alignment`), without the `Seq1:\t`, `Seq2:\t` and `\t` prefixes.
- The `__main__` block and the hard-coded `seq1`/`seq2` are left out. The sequences are parameters, and `rows`/`cols` are `|seq1| + 1` and `|seq2| + 1`.
- The comment that `seq2` should be longer than `seq1` is not enforced by the code, and the model does not require it.
- `trace`, `check` and `trace_string` are identical in both files (`swaligner.py:65-103` and `swaligner_adjusted.py:70-108`). Each is modelled once, in `Traceback` and `Views`.
- `match` and `mismatch` are unused in `swaligner_adjusted.py` and are not modelled there.
- The mix of a tab and spaces at `swaligner_adjusted.py:119` is whitespace only; the line is modelled as part of the loop body.
- Traceback.Trace: requires a zero row 0 and column 0, which is what `create_score_matrix` returns. On other matrices Python's index -1 would wrap to the last row or column; that is not modelled.
- Traceback.Trace: the endless `while` loop is reported as the outcome `Diverges` rather than as non-termination.
- Views.Check: requires every position to lie in the matrix. Python's `IndexError` and negative-index wrap-around are not modelled.
- Views.Align: requires every row of the trace to be at most `|seq1|` and every column at most `|seq2|`, as positions taken from the score matrix are. Python's `IndexError` beyond that is not modelled.
- ScoreMatrix.CreateScoreMatrix: on `KeyError` the partly filled matrix is not described, because Python discards it with the exception.
- Python's `int(...)` conversions in `trace` act on integers already and are left out.
- Strings are sequences of characters; `str` is modelled for the non-negative integers the positions hold.

## Findings

| source | as written | input that shows it | evidently intended | confidence | as-written member | corrected member |
|---|---|---|---|---|---|---|
| swaligner_adjusted.py:78-89 (also swaligner.py:73-84) | when `diag >= left` but `diag < up`, no branch moves, the position and `start_val` stay the same, and the `while` loop never ends | uniform scoring, `seq1 = "AA"`, `seq2 = "ACA"`: the maximum 4 at `(2, 3)` has diagonal 1, left 1, up 3; with the table, `seq1 = "AG"`, `seq2 = "G"`: the maximum 3 at `(2, 1)` has diagonal 0, left 0, up 1 | keep every move the code makes and, where no branch moves, go up to the one largest neighbour, so the walk reaches a zero cell; where the code ends, the corrected walk gives the same path (`Traceback.WalkCorrectedExtendsWalk`) | not executed | SwAligner.StallExample | Traceback.TraceCorrected |
| swaligner_adjusted.py:114-130 | the previous row and column start at 0, so a trace that starts in row or column 1 prints a gap instead of `seq1[0]` or `seq2[0]`; the final zero cell adds a column, and a gap against a gap is marked `*`; each column takes the symbol of the cell the step arrives at, not the one it leaves, so after an up or left move the gaps sit against the wrong symbols | `seq1 = "A"`, `seq2 = "A"`, trace `[(1,1), (0,0)]`: prints `--`/`--`/`**`; `seq1 = "XYZ"`, `seq2 = "PQ"`, trace `[(3,2), (2,2), (1,1), (0,0)]`: prints `-XYZ`/`-P-Q`/`*   `, `Z` against `Q` and `Y` against a gap (`SwAlignerAdjusted.MisplacedGapsAlignment`) | one column per step, each with the symbols of the cell the step leaves: `A` over `A` marked `*`, and `XYZ` over `PQ-` | not executed | SwAlignerAdjusted.SingleSymbolAlignment | Views.AlignCorrected |
