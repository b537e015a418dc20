# Gotoh affine-gap alignment, modelled in Dafny

This project models the alignment engine of `GotohAlign`, a pairwise aligner
for two strings over the letters 'A'..'Z' with affine gap penalties (gap open
12, gap extend 2) and a 26 x 26 substitution table `W`. The aligner keeps three
score matrices: `X` (best score ending in a gap in x), `Y` (ending in a gap in
y) and `Z` (ending in a paired column). Each alignment mode runs three steps:

1. It initialises row 0 and column 0 of the three matrices. There is one
   initialiser per mode: global, semiglobal and local.
2. A forward pass fills the interior with a max-of-three recurrence.
3. A backward pass walks back through the matrices. It prepends one column at
   a time to the output rows `x_out`, `y_out` and `annotation`, and sets
   `score`.

The project has five modules:

- `Text`: the gap marker, runs of a repeated character, and `Ungap`, which
  deletes gap markers from a row.
- `Scoring`: the three matrices as a value (`Grid` of `Scores`), with:
  - each mode's boundary;
  - the recurrence `Next`;
  - a reference definition `Cell` of every cell.

  It also proves lemmas about that grid: it is determined by the boundary
  and the recurrence, it is symmetric when x and y are exchanged, local
  scores dominate, and the semiglobal boundary has quirks.
- `Argmax`: the row-major search that `max_idx` performs, as a function, with
  a proof that it finds the first strict maximum above -99.
- `Traceback`: the three tracebacks as functions of a grid. It covers:
  - the tie-break at a cell;
  - the walk and where it stops;
  - the semiglobal end cell and its gap runs;
  - local mode's end cell and padding;
  - what the outputs spell once gaps are deleted.
- `Gotoh`: the aligner itself, a class with the three matrices as `array2`
  fields and the output rows and score as fields. Every method is the loop or
  sequence of steps of the source, proved against the functions above. The
  ghost function `Snapshot()` reads the three arrays as a `Grid`, so every
  contract can name the grid before a call.

## Model

| member | source | states |
|---|---|---|
| `Gotoh.GotohAlign.constructor` | Align.java:15-20 | keeps the two sequences and the table and sets score 0; the three output rows, which Java leaves null here, start empty |
| `Gotoh.GotohAlign.ResetState` | GotohAlign.java:13-21 | empties the three output rows, sets score 0, and allocates three fresh (xlen+1) x (ylen+1) matrices holding 0 everywhere |
| `Gotoh.GotohAlign.InitializeGlobal` | GotohAlign.java:24-46 | row 0 and column 0 of X, Y and Z hold -99 except Z[0][0] = 0, in fresh matrices of the right shape, with empty outputs |
| `Gotoh.GotohAlign.InitializeSemiglobal` | GotohAlign.java:49-73 | X and Y hold 0 at index 0 and -12 - 2(k-1) at index k >= 1 along row 0 and column 0; Z holds -99 there except Z[0][0] = 0 |
| `Gotoh.GotohAlign.InitializeLocal` | GotohAlign.java:76-100 | X and Y hold 0 along row 0 and column 0; Z holds -99 there except Z[0][0] = 0 |
| `Gotoh.GotohAlign.ForwardPass` | GotohAlign.java:104-126 | afterwards every interior cell obeys the gap-in-x, gap-in-y and paired recurrences, and row 0 and column 0 are unchanged |
| `Gotoh.GotohAlign.FillRow` | GotohAlign.java:108-124 | given filled rows above i, fills row i left to right so that each cell obeys the recurrence, without touching the boundary |
| `Gotoh.GotohAlign.Fill` | GotohAlign.java:241-242 | the initialiser of a mode followed by the forward pass leaves exactly the reference grid of that mode in the matrices |
| `Gotoh.GotohAlign.FilledIsReference` | GotohAlign.java:104-126 | matrices that hold a mode's boundary and obey the recurrence are that mode's reference grid |
| `Gotoh.GotohAlign.PrependColumn` | GotohAlign.java:137-163 | takes the largest of X, Y and Z at (i, j) with ties to X then Y, prepends the column of that move and returns the cell the move steps back to |
| `Gotoh.GotohAlign.BackwardPassGlobal` | GotohAlign.java:129-166 | sets score to Z[i0][j0], returns the cell where the walk from (i0, j0) stops, and prepends exactly the walk's columns to the outputs |
| `Gotoh.GotohAlign.PrependGapsInX` | GotohAlign.java:192-196 | prepends y[lo..hi] set against gap markers with blank annotation |
| `Gotoh.GotohAlign.PrependGapsInY` | GotohAlign.java:201-205 | prepends x[lo..hi] set against gap markers with blank annotation |
| `Gotoh.GotohAlign.MaxIdx` | GotohAlign.java:263-280 | returns the first cell in row-major order above -99 and above every earlier value, or (-1, -1) when no value exceeds -99 |
| `Gotoh.GotohAlign.SemiglobalCandidates` | GotohAlign.java:172-182 | the row found in Z's last column without the corner and the column found in Z's last row without the corner, by `max_idx` |
| `Gotoh.GotohAlign.LastRowTable` | GotohAlign.java:172-177 | a fresh 1 x ylen table holding Z[xlen][0..ylen-1] |
| `Gotoh.GotohAlign.LastColumnTable` | GotohAlign.java:178-180 | a fresh xlen x 1 table holding Z[0..xlen-1][ylen] |
| `Gotoh.GotohAlign.BackwardPassSemiglobal` | GotohAlign.java:168-232 | fails, with nothing changed, exactly when the source would index with -1; otherwise prepends the semiglobal alignment of the grid and sets its score |
| `Gotoh.GotohAlign.BackwardPassSemiglobalFrom` | GotohAlign.java:186-231 | from an end cell on the last row or column, prepends the trailing gap run, the global walk and the leading gap runs, and sets the score of the end cell |
| `Gotoh.GotohAlign.PrependTrailingGaps` | GotohAlign.java:186-206 | prepends the rest of y against gaps when the end cell is on the last row, the rest of x against gaps otherwise |
| `Gotoh.GotohAlign.PrependLeadingGaps` | GotohAlign.java:214-231 | prepends the first j letters of y against gaps, then in front of them the first i letters of x against gaps |
| `Gotoh.GotohAlign.LocalEnd` | GotohAlign.java:284-286 | the local end cell is the first strict maximum of Z |
| `Gotoh.GotohAlign.WalkLocal` | GotohAlign.java:299-331 | walks back from (p, q) until row 0, column 0 or a cell whose best score is negative, prepending exactly the walk's columns |
| `Gotoh.GotohAlign.BackwardPassLocal` | GotohAlign.java:282-344 | fails exactly where the source would fail: with nothing changed when no Z exceeds -99, and with the score and x's row written when y's suffix is out of range; otherwise sets both rows, prepends the annotation and sets the score of the local alignment |
| `Gotoh.GotohAlign.BackwardPassLocalFrom` | GotohAlign.java:287-343 | the local traceback from a known end cell, with the same failure and success outcomes |
| `Gotoh.GotohAlign.PadSuffixes` | GotohAlign.java:289-297 | sets the rows to the unaligned suffixes, the shorter one padded with spaces; fails after x's row when y would be cut at xlen out of range |
| `Gotoh.GotohAlign.PadPrefixes` | GotohAlign.java:333-342 | prepends the unaligned prefixes, the shorter one padded, and as many spaces to the annotation |
| `Gotoh.GotohAlign.AlignGlobal` | GotohAlign.java:237-246 | leaves the global reference grid in the matrices and exactly its global alignment and corner score in the outputs |
| `Gotoh.GotohAlign.AlignSemiglobal` | GotohAlign.java:251-260 | leaves the semiglobal reference grid in the matrices; fails with empty outputs exactly when there is no end cell, otherwise outputs the semiglobal alignment and its score |
| `Gotoh.GotohAlign.AlignLocal` | GotohAlign.java:347-355 | leaves the local reference grid in the matrices; succeeds exactly when the local alignment completes, and then outputs its rows, annotation and score |
| `Scoring.Weight` | GotohAlign.java:120 | defines the substitution score of a pair as the table entry at (letter - 'A', letter - 'A') |
| `Scoring.Next` | GotohAlign.java:110-123 | defines one interior cell from its left, upper and diagonal neighbours: gap in x from the left cell, gap in y from the upper cell (opening a gap costs 12 more, every gap column 2), paired from the best diagonal score plus the pair's table entry |
| `Scoring.BoundaryGap` | GotohAlign.java:24-100 | defines the gap-matrix boundary value at index k: -99 in global mode, 0 at k = 0 and -12 - 2(k-1) after in semiglobal mode, 0 in local mode |
| `Scoring.Boundary` | GotohAlign.java:24-100 | defines a row-0 or column-0 cell: both gap scores the mode's boundary value, Z equal to 0 at the corner and -99 elsewhere |
| `Scoring.Cell` | GotohAlign.java:104-126 | defines every cell of a mode's matrices: the boundary on row 0 and column 0, the recurrence on the neighbours' cells inside |
| `Scoring.Reference` | GotohAlign.java:104-126 | the grid of all cells of a mode, (xlen+1) x (ylen+1), each equal to its reference cell |
| `Scoring.ReferenceIsFilled` | GotohAlign.java:104-126 | the reference grid has its mode's boundary and obeys the recurrence at every interior cell |
| `Scoring.CellDetermined` | GotohAlign.java:104-126 | in any grid with a mode's boundary that obeys the recurrence, each cell is the reference cell |
| `Scoring.GridDetermined` | GotohAlign.java:104-126 | boundary and recurrence determine the whole grid |
| `Scoring.NextSwap` | GotohAlign.java:110-117 | the gap-in-x and gap-in-y recurrences are mirror images of each other |
| `Scoring.SwappedGridIsFilled` | GotohAlign.java:104-126 | transposing a filled grid and exchanging X with Y gives a filled grid of the problem with x and y exchanged |
| `Scoring.CellsSymmetric` | GotohAlign.java:104-126 | with a symmetric table, exchanging x and y transposes every cell and exchanges its gap scores; the corner Z is unchanged |
| `Scoring.NextMonotone` | GotohAlign.java:107-125 | raising any neighbour never lowers a cell |
| `Scoring.LocalDominates` | GotohAlign.java:76-126 | every cell of the local matrices is at least the same cell of the global or semiglobal matrices |
| `Scoring.SemiglobalBoundaryQuirks` | GotohAlign.java:53-65 | the semiglobal boundary charges -12 for one gap column, while an interior cell whose left neighbour is best as a paired column opens a gap in x for 12 + 2 = 14 (lines 110-112); it stays between -99 and 0 for indices 1 to 44 and falls below the -99 sentinel at every index from 45 on |
| `Argmax.Scan` | GotohAlign.java:268-278 | defines the row-major loop of `max_idx` from cell (p, q) on: a cell replaces the running candidate only when its value is strictly above the candidate's; the result is no position or a cell of the table |
| `Argmax.FirstMax` | GotohAlign.java:263-280 | the result is (-1, -1) or a cell of the table |
| `Argmax.ScanFindsFirstMax` | GotohAlign.java:268-278 | a scan started from a state that is the first maximum of the cells seen so far ends with the first maximum of the whole table |
| `Argmax.FirstMaxCorrect` | GotohAlign.java:263-280 | the position found is the first strict maximum above -99, or (-1, -1) exactly when no value exceeds -99 |
| `Argmax.FirstMaxUnique` | GotohAlign.java:263-280 | at most one position has that meaning |
| `Argmax.FirstMaxIs` | GotohAlign.java:263-280 | any position with that meaning is the one `max_idx` returns |
| `Traceback.Choose` | GotohAlign.java:137-163 | gap in x exactly when X is the largest, gap in y exactly when Y beats X strictly and is at least Z, paired exactly when Z beats both strictly |
| `Traceback.Column` | GotohAlign.java:141-162 | defines the column each move emits: gap over y[j-1], x[i-1] over gap, or x[i-1] over y[j-1] with its match mark |
| `Traceback.Back` | GotohAlign.java:145-161 | defines the cell each move steps back to: j-1 for a gap in x, i-1 for a gap in y, both for a paired column |
| `Traceback.ColumnWellFormed` | GotohAlign.java:141-162 | every emitted column is a gap against a letter with a blank mark, or two letters marked a bar when equal and ':' when not |
| `Traceback.GapsRecover` | GotohAlign.java:192-205 | a gap run is well formed and deleting gaps from it leaves its letters on one side and nothing on the other |
| `Traceback.Trace` | GotohAlign.java:135-164 | the walk stops at or before its start, on row 0, column 0 or (locally) a negative cell |
| `Traceback.TraceWellFormed` | GotohAlign.java:135-164 | the walk's rows have one length and every column is well formed |
| `Traceback.WalkStep` | GotohAlign.java:135-164 | prepending the chosen column and stepping back keeps the loop invariant of the walk |
| `Traceback.WalkDone` | GotohAlign.java:135-164 | at a stopping cell the rows hold the whole walk |
| `Traceback.ColumnRecovers` | GotohAlign.java:141-162 | deleting the gap from a column gives back the letters its move consumes |
| `Traceback.TraceRecovers` | GotohAlign.java:135-164 | deleting gaps from the walk's rows gives x[i_end..i0] and y[j_end..j0] |
| `Traceback.GlobalAlignment` | GotohAlign.java:237-246 | defines global mode's outcome: the walk from the far corner, scored by Z there |
| `Traceback.GlobalRecovers` | GotohAlign.java:237-246 | the global rows are well formed and spell a suffix of x and a suffix of y, one of them the whole sequence |
| `Traceback.LastRow` | GotohAlign.java:172-177 | the 1 x ylen table of Z along the last row without the corner |
| `Traceback.LastColumn` | GotohAlign.java:173-180 | the xlen x 1 table of Z along the last column without the corner |
| `Traceback.SemiglobalStart` | GotohAlign.java:181-206 | an end cell, when there is one, lies on the last row or the last column |
| `Traceback.SemiglobalFails` | GotohAlign.java:181-188 | there is no end cell exactly when the last column or the last row (without the corner) has no Z above -99, including when x or y is empty |
| `Traceback.SemiglobalStartIsBest` | GotohAlign.java:172-206 | the end cell scores above -99 and at least every candidate; a tie between the lines goes to the last column and within a line to the first cell |
| `Traceback.TrailingGaps` | GotohAlign.java:186-206 | defines the trailing gap run: the rest of y against gaps for an end cell on the last row, the rest of x otherwise |
| `Traceback.TrailingRecovers` | GotohAlign.java:186-206 | the trailing gap run spells the rest of x and the rest of y |
| `Traceback.LeadingGaps` | GotohAlign.java:214-231 | defines the leading gap runs: x's first i letters against gaps, followed by y's first j letters against gaps |
| `Traceback.LeadingRecovers` | GotohAlign.java:214-231 | the leading gap runs spell the first i letters of x and the first j of y |
| `Traceback.SemiglobalFrom` | GotohAlign.java:186-231 | defines the semiglobal outcome from an end cell: leading runs, global walk, trailing run, scored by Z at the end cell |
| `Traceback.SemiglobalAlignment` | GotohAlign.java:168-232 | defines semiglobal mode's outcome: none without an end cell, otherwise the outcome from it |
| `Traceback.SemiglobalFromRecovers` | GotohAlign.java:168-232 | from any end cell on the last row or column the output is well formed and spells all of x and all of y |
| `Traceback.SemiglobalRecovers` | GotohAlign.java:168-232 | every semiglobal alignment has rows of one length, well-formed columns, and spells x and y once gaps are deleted |
| `Traceback.LocalFrom` | GotohAlign.java:287-343 | defines local mode's outcome from end cell (p, q): the failure when y would be cut at xlen out of range, otherwise prefixes, walked columns and suffixes with the source's space padding, the annotation and Z at (p, q) |
| `Traceback.LocalAlignment` | GotohAlign.java:282-344 | defines local mode's outcome: none when no Z exceeds -99, otherwise the outcome from the first maximal Z |
| `Traceback.LocalScoreIsMax` | GotohAlign.java:284-287 | with Z[0][0] = 0 the local end cell exists and its score is the largest Z of the grid, so never negative |
| `Traceback.LocalAnnotation` | GotohAlign.java:299-342 | the local annotation is abs(i - j) spaces for the stop cell followed by exactly the walked columns, which spell the crossed stretches and stop at row 0, column 0 or a negative cell |
| `Traceback.LocalEmptyX` | GotohAlign.java:282-344 | with empty x, local mode reports score 0, no column, and y as padding |
| `Traceback.GlobalDropsLetters` | GotohAlign.java:131-164 | with x = "AA", y = "B" and any table charging at least 100 for 'A' against 'B', the global output holds no letter of x and the single letter of y, so the walk's stop at column 0 loses letters of x |
| `Traceback.LocalBadSuffixReached` | GotohAlign.java:284-294 | with x = "A", y = "BA" and any table scoring 'A' with 'A' above 0 and above 'A' with 'B', local mode ends at (1, 2) and fails at the out-of-range cut of y, having written score W[A][A] and x's row " " |
| `Traceback.LocalAtLeastGlobal` | GotohAlign.java:237-355 | on the same input, local mode completes a traceback start and reports at least the global score |
| `Traceback.LocalScoreSymmetric` | GotohAlign.java:347-355 | with a symmetric table, local mode finds an end cell for (x, y) and for (y, x) and reports the same score for both |
| `Traceback.SemiglobalScoreSymmetric` | GotohAlign.java:251-260 | with a symmetric table, semiglobal mode fails for (x, y) exactly when it fails for (y, x), and otherwise reports the same score |
| `Traceback.SemiglobalTransposed` | GotohAlign.java:168-232 | for matrices whose Z values are each other's transpose, semiglobal mode fails for both or for neither, and otherwise reports the same score |
| `Traceback.StartTransposedNone` | GotohAlign.java:181-188 | the transpose exchanges the last row and the last column, so one end-cell search finds nothing exactly when the other does |
| `Traceback.StartTransposedScore` | GotohAlign.java:181-206 | both end cells hold the best of the same candidate values, so they hold the same score |

## Behaviour of the code that the model keeps

- Global mode's walk from (|x|, |y|) stops as soon as it reaches row 0 or
  column 0, not at (0, 0). The -99 sentinel is finite and nothing prepends
  the letters that are left over. So the output spells a suffix of x and a
  suffix of y, one of them the whole sequence (`Traceback.GlobalRecovers`),
  and letters of the other really are lost: with x = "AA", y = "B" and a
  table charging 100 or more for 'A' against 'B', no letter of x is output
  (`Traceback.GlobalDropsLetters`). With an empty x or y the output is
  empty.
- Semiglobal mode picks its end cell from Z's last row and last column
  without the corner cell. It fails (the source indexes with -1) when x or
  y is empty, or when either line has no Z above -99.
- The semiglobal boundary `-12 - 2(k-1)` charges one gap column less than
  the interior does, and drops below -99 from index 45 on. So semiglobal
  scores do not dominate global scores cell by cell; only local scores
  dominate both (`Scoring.LocalDominates`).
- Local mode cuts y's right padding at `|x|`, not `|y|`. When the end cell
  has p < q and not q <= |x| <= |y|, the substring is out of range. That
  happens after the score and x's row are written, and the model reports
  it as a failure with that state. A filled grid does reach it: with
  x = "A", y = "BA" and a table scoring 'A' with 'A' at 1 and 'A' with 'B'
  at -1, the end cell is (1, 2) (`Traceback.LocalBadSuffixReached`).

## Left out

- Console output: `print_alignment`, `print_array`, `describe` and the header lines that the `align_*` methods print.
- `Align.all_alignments`: it only calls the three modes in turn.
- Upper-casing in the `Align` constructor: the model instead requires both sequences to consist of 'A'..'Z'.
- The substitution table `W` is not declared in either source file. It is a constructor parameter holding a 26 x 26 table of integers.
- Java's 32-bit `int` arithmetic: the model computes with unbounded integers and assumes nothing overflows. That matches the source only while every score fits in 32 bits. It does for table entries of ordinary size and inputs shorter than millions of letters. It does not for arbitrary entries: a table entry of -2^31 makes `Z[1][1] - 12` wrap to a large positive value at GotohAlign.java:112, where the model keeps the true negative score.
- Exceptions: an out-of-range array index or substring is modelled as a `false` result, with the state the source leaves at the point where it throws.
- The `int[][]` matrices, and the temporary `last_row` / `last_col` tables, are modelled as rectangular `array2<int>`. Jagged rows are not modelled.
- Allocation timing: the constructor already allocates zeroed matrices, where the Java fields stay null until `reset_state`. This makes the class invariant hold from the start; every `align_*` still reallocates.
- Gotoh.GotohAlign.constructor: Java leaves `x_out`, `y_out` and `annotation` null until `reset_state` sets them to `""` (Align.java:10-12, GotohAlign.java:14-16); the model has no null string and starts them empty. No modelled method reads them before `reset_state`.
- Step splits: `FillRow`, `Fill`, `SemiglobalCandidates`, `LastRowTable`, `LastColumnTable`, `BackwardPassSemiglobalFrom`, `PrependTrailingGaps`, `PrependLeadingGaps`, `LocalEnd`, `WalkLocal`, `BackwardPassLocalFrom`, `PadSuffixes` and `PadPrefixes` are stretches of the source's method bodies, made into methods of their own. They do not add or reorder any state change.
- Local padding: no equal-length guarantee is stated for local output, because the source's padding does not give one.
- Gotoh.GotohAlign.AlignLocal: states the outputs only when the traceback completes. The partial outputs of the failing case are stated by `BackwardPassLocal`.
