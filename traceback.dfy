/** The three tracebacks of the aligner as functions of the filled matrices:
    which column each cell emits, where each walk starts and stops, and the
    padding the local mode adds around its segment. */
module Traceback {
  import opened Text
  import opened Scoring
  import opened Argmax

  datatype Option<T> = None | Some(value: T)

  /** The kind of column emitted at a cell. */
  datatype Move = GapInX | GapInY | Paired

  /** The tie-break at a cell: the largest of the three scores, preferring a
      gap in x, then a gap in y, then a paired column. */
  function Choose(s: Scores): (mv: Move)
    ensures mv == GapInX <==> s.gx >= s.gy && s.gx >= s.m
    ensures mv == GapInY <==> s.gy > s.gx && s.gy >= s.m
    ensures mv == Paired <==> s.m > s.gx && s.m > s.gy
  {
    var best := Best(s);
    if best == s.gx then GapInX else if best == s.gy then GapInY else Paired
  }

  /** Rows of aligned output: x's row, y's row and the annotation row. */
  datatype Aligned = Aligned(xs: string, ys: string, ann: string)

  const Empty: Aligned := Aligned([], [], [])

  /** `a` followed by `b`, row by row. */
  function Join(a: Aligned, b: Aligned): Aligned {
    Aligned(a.xs + b.xs, a.ys + b.ys, a.ann + b.ann)
  }

  /** The annotation of a paired column. */
  function Mark(a: char, b: char): char {
    if a == b then '|' else ':'
  }

  /** A column is a gap in x, a gap in y (both annotated with a space), or a
      pair of symbols annotated '|' when they are equal and ':' when not. */
  predicate ColumnOk(a: char, b: char, mark: char) {
    || (a == Gap && b != Gap && mark == ' ')
    || (a != Gap && b == Gap && mark == ' ')
    || (a != Gap && b != Gap && mark == Mark(a, b))
  }

  /** Three rows of one length, column by column well formed. */
  predicate WellFormed(al: Aligned) {
    && |al.xs| == |al.ys| == |al.ann|
    && forall k :: 0 <= k < |al.xs| ==> ColumnOk(al.xs[k], al.ys[k], al.ann[k])
  }

  lemma JoinWellFormed(a: Aligned, b: Aligned)
    requires WellFormed(a) && WellFormed(b)
    ensures WellFormed(Join(a, b))
  {
    var j := Join(a, b);
    forall k | 0 <= k < |j.xs|
      ensures ColumnOk(j.xs[k], j.ys[k], j.ann[k])
    {
      if k >= |a.xs| {
        assert j.xs[k] == b.xs[k - |a.xs|] && j.ys[k] == b.ys[k - |a.xs|] && j.ann[k] == b.ann[k - |a.xs|];
      }
    }
  }

  lemma JoinEmpty(a: Aligned)
    ensures Join(a, Empty) == a
  {
    assert a.xs + [] == a.xs && a.ys + [] == a.ys && a.ann + [] == a.ann;
  }

  lemma JoinAssoc(a: Aligned, b: Aligned, c: Aligned)
    ensures Join(Join(a, b), c) == Join(a, Join(b, c))
  {
    AppendAssoc(a.xs, b.xs, c.xs);
    AppendAssoc(a.ys, b.ys, c.ys);
    AppendAssoc(a.ann, b.ann, c.ann);
  }

  /** Joining two well-formed blocks gives a well-formed block that spells
      what the first spells followed by what the second spells. */
  lemma JoinRecovers(a: Aligned, b: Aligned)
    requires WellFormed(a) && WellFormed(b)
    ensures WellFormed(Join(a, b))
    ensures Ungap(Join(a, b).xs) == Ungap(a.xs) + Ungap(b.xs)
    ensures Ungap(Join(a, b).ys) == Ungap(a.ys) + Ungap(b.ys)
  {
    JoinWellFormed(a, b);
    UngapAppend(a.xs, b.xs);
    UngapAppend(a.ys, b.ys);
  }

  /** Columns that set the letters `s` of y against gaps in x. */
  function GapsInX(s: string): Aligned {
    Aligned(Repeat(Gap, |s|), s, Repeat(' ', |s|))
  }

  /** Columns that set the letters `s` of x against gaps in y. */
  function GapsInY(s: string): Aligned {
    Aligned(s, Repeat(Gap, |s|), Repeat(' ', |s|))
  }

  /** A gap run is well formed, and deleting its gaps leaves the letters on
      one side and nothing on the other. */
  lemma GapsRecover(s: string)
    requires IsLetters(s)
    ensures WellFormed(GapsInX(s)) && Ungap(GapsInX(s).xs) == [] && Ungap(GapsInX(s).ys) == s
    ensures WellFormed(GapsInY(s)) && Ungap(GapsInY(s).xs) == s && Ungap(GapsInY(s).ys) == []
  {
    UngapGaps(|s|);
    UngapLetters(s);
  }

  /** The column emitted at cell (i, j) for move `mv`. */
  function Column(mv: Move, x: string, y: string, i: nat, j: nat): Aligned
    requires 1 <= i <= |x| && 1 <= j <= |y|
  {
    match mv
    case GapInX => Aligned([Gap], [y[j - 1]], [' '])
    case GapInY => Aligned([x[i - 1]], [Gap], [' '])
    case Paired => Aligned([x[i - 1]], [y[j - 1]], [Mark(x[i - 1], y[j - 1])])
  }

  /** Each column pairs a letter with a gap, or two letters. */
  lemma ColumnWellFormed(mv: Move, x: string, y: string, i: nat, j: nat)
    requires IsLetters(x) && IsLetters(y) && 1 <= i <= |x| && 1 <= j <= |y|
    ensures WellFormed(Column(mv, x, y, i, j))
  {
    assert x[i - 1] != Gap && y[j - 1] != Gap;
  }

  /** The cell a move steps back to. */
  function Back(mv: Move, i: nat, j: nat): (nat, nat)
    requires i >= 1 && j >= 1
  {
    match mv
    case GapInX => (i, j - 1)
    case GapInY => (i - 1, j)
    case Paired => (i - 1, j - 1)
  }

  /** The walk stops on row 0 or column 0; the local walk also stops at a
      cell whose best score is negative. */
  predicate Stops(g: Grid, x: string, y: string, i: nat, j: nat, local: bool)
    requires Shaped(g, x, y) && i <= |x| && j <= |y|
  {
    i == 0 || j == 0 || (local && Best(g[i][j]) < 0)
  }

  /** The columns a walk emits and the cell where it stops. */
  datatype Traced = Traced(cols: Aligned, i: nat, j: nat)

  /** The walk back from cell (i, j), one column per step, the column for
      the first step ending up last. */
  function Trace(g: Grid, x: string, y: string, i: nat, j: nat, local: bool): (t: Traced)
    requires Shaped(g, x, y) && IsLetters(x) && IsLetters(y)
    requires i <= |x| && j <= |y|
    ensures t.i <= i && t.j <= j
    ensures Stops(g, x, y, t.i, t.j, local)
    decreases i + j
  {
    if Stops(g, x, y, i, j, local) then Traced(Empty, i, j)
    else
      var mv := Choose(g[i][j]);
      var (pi, pj) := Back(mv, i, j);
      var t := Trace(g, x, y, pi, pj, local);
      Traced(Join(t.cols, Column(mv, x, y, i, j)), t.i, t.j)
  }

  /** Every column the walk emits is well formed. */
  lemma {:induction false} TraceWellFormed(g: Grid, x: string, y: string, i: nat, j: nat, local: bool)
    requires Shaped(g, x, y) && IsLetters(x) && IsLetters(y)
    requires i <= |x| && j <= |y|
    ensures WellFormed(Trace(g, x, y, i, j, local).cols)
    decreases i + j
  {
    if !Stops(g, x, y, i, j, local) {
      var mv := Choose(g[i][j]);
      var (pi, pj) := Back(mv, i, j);
      TraceWellFormed(g, x, y, pi, pj, local);
      ColumnWellFormed(mv, x, y, i, j);
      JoinWellFormed(Trace(g, x, y, pi, pj, local).cols, Column(mv, x, y, i, j));
    }
  }

  /** One step of the walk: away from a stopping cell, the walk from (i, j)
      is the walk from the cell its move steps back to, followed by the
      column of that move. */
  lemma TraceStep(g: Grid, x: string, y: string, i: nat, j: nat, local: bool)
    requires Shaped(g, x, y) && IsLetters(x) && IsLetters(y)
    requires i <= |x| && j <= |y| && !Stops(g, x, y, i, j, local)
    ensures var mv := Choose(g[i][j]);
      var t := Trace(g, x, y, Back(mv, i, j).0, Back(mv, i, j).1, local);
      Trace(g, x, y, i, j, local) == Traced(Join(t.cols, Column(mv, x, y, i, j)), t.i, t.j)
  {
  }

  /** What a walk that prepends columns to `rows` keeps: started at
      (i0, j0) with `start` and now at (i, j) with `rows`, the rows equal
      the columns of the walk from (i0, j0) that the walk from (i, j) has
      not yet produced, followed by `start`. */
  predicate WalkedFrom(g: Grid, x: string, y: string, i0: nat, j0: nat, start: Aligned,
                       i: nat, j: nat, rows: Aligned, local: bool)
    requires Shaped(g, x, y) && IsLetters(x) && IsLetters(y)
    requires i0 <= |x| && j0 <= |y| && i <= |x| && j <= |y|
  {
    var t, u := Trace(g, x, y, i0, j0, local), Trace(g, x, y, i, j, local);
    t.i == u.i && t.j == u.j && Join(t.cols, start) == Join(u.cols, rows)
  }

  /** Prepending the column chosen at (i, j) and stepping back keeps
      `WalkedFrom`. */
  lemma WalkStep(g: Grid, x: string, y: string, i0: nat, j0: nat, start: Aligned,
                 i: nat, j: nat, rows: Aligned, local: bool)
    requires Shaped(g, x, y) && IsLetters(x) && IsLetters(y)
    requires i0 <= |x| && j0 <= |y| && i <= |x| && j <= |y|
    requires !Stops(g, x, y, i, j, local)
    requires WalkedFrom(g, x, y, i0, j0, start, i, j, rows, local)
    ensures var mv := Choose(g[i][j]);
      WalkedFrom(g, x, y, i0, j0, start, Back(mv, i, j).0, Back(mv, i, j).1,
                 Join(Column(mv, x, y, i, j), rows), local)
  {
    TraceStep(g, x, y, i, j, local);
  }

  /** At a stopping cell the rows hold the whole walk from (i0, j0). */
  lemma WalkDone(g: Grid, x: string, y: string, i0: nat, j0: nat, start: Aligned,
                 i: nat, j: nat, rows: Aligned, local: bool)
    requires Shaped(g, x, y) && IsLetters(x) && IsLetters(y)
    requires i0 <= |x| && j0 <= |y| && i <= |x| && j <= |y|
    requires Stops(g, x, y, i, j, local)
    requires WalkedFrom(g, x, y, i0, j0, start, i, j, rows, local)
    ensures var t := Trace(g, x, y, i0, j0, local);
      t.i == i && t.j == j && rows == Join(t.cols, start)
  {
  }

  /** Deleting the gap from one column gives back the symbols its move
      consumes. */
  lemma ColumnRecovers(mv: Move, x: string, y: string, i: nat, j: nat)
    requires IsLetters(x) && IsLetters(y) && 1 <= i <= |x| && 1 <= j <= |y|
    ensures var (pi, pj) := Back(mv, i, j);
      var c := Column(mv, x, y, i, j);
      Ungap(c.xs) == x[pi..i] && Ungap(c.ys) == y[pj..j]
  {
    var c := Column(mv, x, y, i, j);
    assert c.xs[1..] == [] && c.ys[1..] == [];
  }

  lemma ExtendRecovers(row: string, col: string, s: string, lo: nat, mid: nat, hi: nat)
    requires lo <= mid <= hi <= |s|
    requires Ungap(row) == s[lo..mid] && Ungap(col) == s[mid..hi]
    ensures Ungap(row + col) == s[lo..hi]
  {
    UngapAppend(row, col);
    assert s[lo..hi] == s[lo..mid] + s[mid..hi];
  }

  /** Deleting the gaps from the traced rows gives back the stretch of x
      and of y that the walk crossed. */
  lemma {:induction false} TraceRecovers(g: Grid, x: string, y: string, i: nat, j: nat, local: bool)
    requires Shaped(g, x, y) && IsLetters(x) && IsLetters(y)
    requires i <= |x| && j <= |y|
    ensures var t := Trace(g, x, y, i, j, local);
      Ungap(t.cols.xs) == x[t.i..i] && Ungap(t.cols.ys) == y[t.j..j]
    decreases i + j
  {
    if !Stops(g, x, y, i, j, local) {
      var mv := Choose(g[i][j]);
      var (pi, pj) := Back(mv, i, j);
      var t := Trace(g, x, y, pi, pj, local);
      var c := Column(mv, x, y, i, j);
      assert Trace(g, x, y, i, j, local) == Traced(Join(t.cols, c), t.i, t.j);
      TraceRecovers(g, x, y, pi, pj, local);
      ColumnRecovers(mv, x, y, i, j);
      ExtendRecovers(t.cols.xs, c.xs, x, t.i, pi, i);
      ExtendRecovers(t.cols.ys, c.ys, y, t.j, pj, j);
    }
  }

  /** Output rows and reported score of one traceback. */
  datatype Outcome = Outcome(cols: Aligned, score: int)

  /** Global mode: the walk from the far corner, scored by Z there. */
  function GlobalAlignment(g: Grid, x: string, y: string): Outcome
    requires Shaped(g, x, y) && IsLetters(x) && IsLetters(y)
  {
    Outcome(Trace(g, x, y, |x|, |y|, false).cols, g[|x|][|y|].m)
  }

  /** The global walk ends on row 0 or column 0, so its rows spell a suffix
      of x and a suffix of y, one of them the whole sequence. */
  lemma GlobalRecovers(g: Grid, x: string, y: string)
    requires Shaped(g, x, y) && IsLetters(x) && IsLetters(y)
    ensures var o := GlobalAlignment(g, x, y);
      var u, v := Ungap(o.cols.xs), Ungap(o.cols.ys);
      && WellFormed(o.cols)
      && |u| <= |x| && u == x[|x| - |u|..]
      && |v| <= |y| && v == y[|y| - |v|..]
      && (u == x || v == y)
  {
    var t := Trace(g, x, y, |x|, |y|, false);
    TraceRecovers(g, x, y, |x|, |y|, false);
    TraceWellFormed(g, x, y, |x|, |y|, false);
    assert GlobalAlignment(g, x, y).cols == t.cols;
    assert t.i == 0 || t.j == 0;
    assert x[0..|x|] == x && y[0..|y|] == y;
  }

  /** Z along the last row, columns 0..|y|-1, as the 1 x |y| table that
      semiglobal mode scans. */
  function LastRow(g: Grid, x: string, y: string): (a: seq<seq<int>>)
    requires Shaped(g, x, y)
    ensures |a| == 1 && Rect(a, |y|)
    ensures forall t :: 0 <= t < |y| ==> a[0][t] == g[|x|][t].m
  {
    [seq(|y|, t requires 0 <= t < |y| => g[|x|][t].m)]
  }

  /** Z along the last column, rows 0..|x|-1, as the |x| x 1 table that
      semiglobal mode scans. */
  function LastColumn(g: Grid, x: string, y: string): (a: seq<seq<int>>)
    requires Shaped(g, x, y)
    ensures |a| == |x| && Rect(a, 1)
    ensures forall t :: 0 <= t < |x| ==> a[t][0] == g[t][|y|].m
  {
    seq(|x|, t requires 0 <= t < |x| => [g[t][|y|].m])
  }

  /** Semiglobal mode's end cell: the best last-row candidate (|x|, maxCol)
      when it strictly beats the best last-column candidate (maxRow, |y|),
      that one otherwise; none when either scan finds nothing. */
  function SemiglobalStart(g: Grid, x: string, y: string): (r: Option<(nat, nat)>)
    requires Shaped(g, x, y)
    ensures r.Some? ==> r.value.0 <= |x| && r.value.1 <= |y|
    ensures r.Some? ==> r.value.0 == |x| || r.value.1 == |y|
  {
    var maxRow := FirstMax(LastColumn(g, x, y), 1).0;
    var maxCol := FirstMax(LastRow(g, x, y), |y|).1;
    if maxRow < 0 || maxCol < 0 then None
    else if g[maxRow][|y|].m < g[|x|][maxCol].m then Some((|x|, maxCol))
    else Some((maxRow, |y|))
  }

  /** The trailing gap run after end cell (si, sj): the rest of y against
      gaps when the cell is on the last row, the rest of x otherwise. */
  function TrailingGaps(x: string, y: string, si: nat, sj: nat): Aligned
    requires si <= |x| && sj <= |y|
  {
    if si == |x| then GapsInX(y[sj..]) else GapsInY(x[si..])
  }

  /** From a cell on the last row or column, the trailing run spells the
      rest of x and the rest of y. */
  lemma TrailingRecovers(x: string, y: string, si: nat, sj: nat)
    requires IsLetters(x) && IsLetters(y) && si <= |x| && sj <= |y|
    requires si == |x| || sj == |y|
    ensures var al := TrailingGaps(x, y, si, sj);
      WellFormed(al) && Ungap(al.xs) == x[si..] && Ungap(al.ys) == y[sj..]
  {
    if si == |x| {
      GapsRecover(y[sj..]);
    } else {
      GapsRecover(x[si..]);
    }
  }

  /** The leading gap runs before the walk's stop cell (i, j): x's first i
      letters against gaps, then y's first j letters against gaps. */
  function LeadingGaps(x: string, y: string, i: nat, j: nat): Aligned
    requires i <= |x| && j <= |y|
  {
    Join(GapsInY(x[..i]), GapsInX(y[..j]))
  }

  /** The leading runs spell the first i letters of x and the first j of y. */
  lemma LeadingRecovers(x: string, y: string, i: nat, j: nat)
    requires IsLetters(x) && IsLetters(y) && i <= |x| && j <= |y|
    ensures var al := LeadingGaps(x, y, i, j);
      WellFormed(al) && Ungap(al.xs) == x[..i] && Ungap(al.ys) == y[..j]
  {
    var front, back := GapsInY(x[..i]), GapsInX(y[..j]);
    GapsRecover(x[..i]);
    GapsRecover(y[..j]);
    JoinRecovers(front, back);
    assert x[..i] + [] == x[..i];
  }

  /** Semiglobal output from end cell (si, sj) on the last row or column:
      the leading gap runs, the global walk, the trailing gap run. */
  function SemiglobalFrom(g: Grid, x: string, y: string, si: nat, sj: nat): Outcome
    requires Shaped(g, x, y) && IsLetters(x) && IsLetters(y)
    requires si <= |x| && sj <= |y| && (si == |x| || sj == |y|)
  {
    var tail := TrailingGaps(x, y, si, sj);
    var t := Trace(g, x, y, si, sj, false);
    Outcome(Join(LeadingGaps(x, y, t.i, t.j), Join(t.cols, tail)), g[si][sj].m)
  }

  /** Semiglobal mode: nothing when no end cell is found. */
  function SemiglobalAlignment(g: Grid, x: string, y: string): Option<Outcome>
    requires Shaped(g, x, y) && IsLetters(x) && IsLetters(y)
  {
    match SemiglobalStart(g, x, y)
    case None => None
    case Some((si, sj)) => Some(SemiglobalFrom(g, x, y, si, sj))
  }

  /** Semiglobal mode fails (by indexing with -1) exactly when x or y is
      empty or one of the two candidate lines has no value above -99. */
  lemma SemiglobalFails(g: Grid, x: string, y: string)
    requires Shaped(g, x, y) && IsLetters(x) && IsLetters(y)
    ensures SemiglobalStart(g, x, y).None? <==>
      || (forall t :: 0 <= t < |x| ==> g[t][|y|].m <= Unreachable)
      || (forall t :: 0 <= t < |y| ==> g[|x|][t].m <= Unreachable)
  {
    var col, row := LastColumn(g, x, y), LastRow(g, x, y);
    FirstMaxCorrect(col, 1);
    FirstMaxCorrect(row, |y|);
    var maxRow, maxCol := FirstMax(col, 1).0, FirstMax(row, |y|).1;
    if maxRow >= 0 {
      assert g[maxRow][|y|].m == col[maxRow][0];
    }
    if maxCol >= 0 {
      assert g[|x|][maxCol].m == row[0][maxCol];
    }
    if forall t :: 0 <= t < |x| ==> g[t][|y|].m <= Unreachable {
      assert forall r, c :: 0 <= r < |col| && 0 <= c < 1 ==> col[r][c] <= Start.v;
    }
    if forall t :: 0 <= t < |y| ==> g[|x|][t].m <= Unreachable {
      assert forall r, c :: 0 <= r < |row| && 0 <= c < |y| ==> row[r][c] <= Start.v;
    }
  }

  /** The end cell holds the best score among the candidates (the last row
      and the last column, both without the corner); a tie between the two
      lines goes to the last column, and within a line to the first cell. */
  lemma SemiglobalStartIsBest(g: Grid, x: string, y: string)
    requires Shaped(g, x, y) && IsLetters(x) && IsLetters(y)
    requires SemiglobalStart(g, x, y).Some?
    ensures var (si, sj) := SemiglobalStart(g, x, y).value;
      && ((si == |x| && sj < |y|) || (si < |x| && sj == |y|))
      && g[si][sj].m > Unreachable
      && (forall t :: 0 <= t < |y| ==> g[|x|][t].m <= g[si][sj].m)
      && (forall t :: 0 <= t < |x| ==> g[t][|y|].m <= g[si][sj].m)
      && (si == |x| ==> forall t :: 0 <= t < |x| ==> g[t][|y|].m < g[si][sj].m)
      && (si == |x| ==> forall t :: 0 <= t < sj ==> g[|x|][t].m < g[si][sj].m)
      && (sj == |y| ==> forall t :: 0 <= t < si ==> g[t][|y|].m < g[si][sj].m)
  {
    var col, row := LastColumn(g, x, y), LastRow(g, x, y);
    FirstMaxCorrect(col, 1);
    FirstMaxCorrect(row, |y|);
    var maxRow, maxCol := FirstMax(col, 1).0, FirstMax(row, |y|).1;
    assert g[maxRow][|y|].m == col[maxRow][0];
    assert g[|x|][maxCol].m == row[0][maxCol];
    assert forall t :: 0 <= t < |x| ==> g[t][|y|].m == col[t][0];
    assert forall t :: 0 <= t < |y| ==> g[|x|][t].m == row[0][t];
  }

  /** Deleting the gaps from the output for an end cell on the last row or
      the last column gives back all of x and all of y, and the three rows
      have one length. */
  lemma SemiglobalFromRecovers(g: Grid, x: string, y: string, si: nat, sj: nat)
    requires Shaped(g, x, y) && IsLetters(x) && IsLetters(y)
    requires si <= |x| && sj <= |y| && (si == |x| || sj == |y|)
    ensures var o := SemiglobalFrom(g, x, y, si, sj);
      WellFormed(o.cols) && Ungap(o.cols.xs) == x && Ungap(o.cols.ys) == y
  {
    var tail := TrailingGaps(x, y, si, sj);
    var t := Trace(g, x, y, si, sj, false);
    var lead := LeadingGaps(x, y, t.i, t.j);
    assert SemiglobalFrom(g, x, y, si, sj).cols == Join(lead, Join(t.cols, tail));
    TrailingRecovers(x, y, si, sj);
    LeadingRecovers(x, y, t.i, t.j);
    TraceRecovers(g, x, y, si, sj, false);
    TraceWellFormed(g, x, y, si, sj, false);
    JoinRecovers(t.cols, tail);
    JoinRecovers(lead, Join(t.cols, tail));
    ThreeParts(x, t.i, si);
    ThreeParts(y, t.j, sj);
  }

  lemma ThreeParts(s: string, a: nat, b: nat)
    requires a <= b <= |s|
    ensures s == s[..a] + (s[a..b] + s[b..])
  {
  }

  /** Hence every semiglobal alignment spells all of x and all of y. */
  lemma SemiglobalRecovers(g: Grid, x: string, y: string)
    requires Shaped(g, x, y) && IsLetters(x) && IsLetters(y)
    requires SemiglobalAlignment(g, x, y).Some?
    ensures var o := SemiglobalAlignment(g, x, y).value;
      WellFormed(o.cols) && Ungap(o.cols.xs) == x && Ungap(o.cols.ys) == y
  {
    var (si, sj) := SemiglobalStart(g, x, y).value;
    SemiglobalFromRecovers(g, x, y, si, sj);
  }

  /** Z of every cell, as the table local mode scans. */
  function ZValues(g: Grid, x: string, y: string): (a: seq<seq<int>>)
    requires Shaped(g, x, y)
    ensures |a| == |x| + 1 && Rect(a, |y| + 1)
    ensures forall r, c :: 0 <= r <= |x| && 0 <= c <= |y| ==> a[r][c] == g[r][c].m
  {
    seq(|x| + 1, r requires 0 <= r <= |x| => seq(|y| + 1, c requires 0 <= c <= |y| => g[r][c].m))
  }

  function Abs(n: int): nat {
    if n < 0 then -n else n
  }

  /** What local mode leaves behind: nothing when no cell exceeds -99; the
      score and x's row when the substring for y's row is out of bounds;
      otherwise both rows, the annotation it prepends and the score. */
  datatype LocalOutcome =
    | NoStart
    | BadSuffix(score: int, xs: string)
    | LocalDone(xs: string, ys: string, ann: string, score: int)

  /** Local mode from end cell (p, q): pad the unaligned suffixes (failing
      where y's suffix would be taken up to |x| out of range), walk back
      until a negative cell or row 0 or column 0, pad the unaligned
      prefixes. */
  function LocalFrom(g: Grid, x: string, y: string, p: nat, q: nat): LocalOutcome
    requires Shaped(g, x, y) && IsLetters(x) && IsLetters(y)
    requires p <= |x| && q <= |y|
  {
    var score := g[p][q].m;
    var right := Repeat(' ', Abs(p - q));
    if p < q && !(q <= |x| <= |y|) then BadSuffix(score, x[p..] + right)
    else
      var xr := if p < q then x[p..] + right else x[p..];
      var yr := if p < q then y[q..|x|] else y[q..] + right;
      var t := Trace(g, x, y, p, q, true);
      var left := Repeat(' ', Abs(t.i - t.j));
      var xl := if t.i < t.j then left + x[..t.i] else x[..t.i];
      var yl := if t.i < t.j then y[..t.j] else left + y[..t.j];
      LocalDone(xl + (t.cols.xs + xr), yl + (t.cols.ys + yr), left + t.cols.ann, score)
  }

  /** Local mode: end at the first maximal Z; nothing when no Z exceeds -99. */
  function LocalAlignment(g: Grid, x: string, y: string): LocalOutcome
    requires Shaped(g, x, y) && IsLetters(x) && IsLetters(y)
  {
    var (p, q) := FirstMax(ZValues(g, x, y), |y| + 1);
    if p < 0 || q < 0 then NoStart else LocalFrom(g, x, y, p, q)
  }

  /** Once the end cell is known, the local alignment is the one from it. */
  lemma LocalAlignmentAt(g: Grid, x: string, y: string, p: int, q: int)
    requires Shaped(g, x, y) && IsLetters(x) && IsLetters(y)
    requires (p, q) == FirstMax(ZValues(g, x, y), |y| + 1) && 0 <= p && 0 <= q
    ensures p <= |x| && q <= |y|
    ensures LocalAlignment(g, x, y) == LocalFrom(g, x, y, p, q)
  {
  }

  /** The local alignment from (p, q), given where its walk stops and the
      columns it collects. */
  lemma LocalFromDone(g: Grid, x: string, y: string, p: nat, q: nat, cols: Aligned, i: nat, j: nat)
    requires Shaped(g, x, y) && IsLetters(x) && IsLetters(y)
    requires p <= |x| && q <= |y| && !(p < q && !(q <= |x| <= |y|))
    requires Trace(g, x, y, p, q, true) == Traced(cols, i, j)
    ensures i <= p && j <= q
    ensures var right, left := Repeat(' ', Abs(p - q)), Repeat(' ', Abs(i - j));
      LocalFrom(g, x, y, p, q) == LocalDone(
        (if i < j then left + x[..i] else x[..i]) + (cols.xs + (if p < q then x[p..] + right else x[p..])),
        (if i < j then y[..j] else left + y[..j]) + (cols.ys + (if p < q then y[q..|x|] else y[q..] + right)),
        left + cols.ann,
        g[p][q].m)
  {
  }

  /** With Z[0][0] = 0 the local end cell always exists, and its score is
      the largest Z of the whole grid, hence never negative. */
  lemma LocalScoreIsMax(g: Grid, x: string, y: string)
    requires Shaped(g, x, y) && IsLetters(x) && IsLetters(y)
    requires g[0][0].m == 0
    ensures var o := LocalAlignment(g, x, y);
      && !o.NoStart?
      && o.score >= 0
      && (forall r, c :: 0 <= r <= |x| && 0 <= c <= |y| ==> g[r][c].m <= o.score)
  {
    var a := ZValues(g, x, y);
    FirstMaxCorrect(a, |y| + 1);
    assert a[0][0] == 0;
  }

  /** The local annotation is |i - j| spaces for the stop cell (i, j)
      followed by exactly the traced columns, which spell the crossed
      stretches of x and y and stop at row 0, column 0 or a negative cell. */
  lemma LocalAnnotation(g: Grid, x: string, y: string)
    requires Shaped(g, x, y) && IsLetters(x) && IsLetters(y)
    requires LocalAlignment(g, x, y).LocalDone?
    ensures var (p, q) := FirstMax(ZValues(g, x, y), |y| + 1);
      && 0 <= p <= |x| && 0 <= q <= |y|
      && var t := Trace(g, x, y, p, q, true);
      && LocalAlignment(g, x, y).ann == Repeat(' ', Abs(t.i - t.j)) + t.cols.ann
      && WellFormed(t.cols)
      && Ungap(t.cols.xs) == x[t.i..p] && Ungap(t.cols.ys) == y[t.j..q]
      && (t.i == 0 || t.j == 0 || Best(g[t.i][t.j]) < 0)
  {
    var (p, q) := FirstMax(ZValues(g, x, y), |y| + 1);
    TraceRecovers(g, x, y, p, q, true);
    TraceWellFormed(g, x, y, p, q, true);
  }

  /** Local mode with empty x against y reports score 0 and no scored
      column: y appears only as unaligned padding. */
  lemma LocalEmptyX(g: Grid, x: string, y: string)
    requires Shaped(g, x, y) && IsLetters(x) && IsLetters(y)
    requires BoundaryOf(g, x, y, Local) && x == []
    ensures LocalAlignment(g, x, y) == LocalDone([], y, [], 0)
  {
    var a := ZValues(g, x, y);
    assert a[0][0] == 0;
    forall c | 0 < c <= |y|
      ensures a[0][c] == Unreachable
    {
      assert g[0][c] == Boundary(Local, 0, c);
    }
    FirstMaxIs(a, |y| + 1, 0, 0);
    assert y[0..] == y;
  }

  /** Global mode can lose letters of x: with x = "AA", y = "B" and a table
      that charges at least 100 for pairing 'A' with 'B', the walk from (2, 1)
      takes a gap in x to (2, 0) and stops there, so the output holds no
      letter of x at all. */
  lemma GlobalDropsLetters(W: seq<seq<int>>)
    requires IsTable(W) && W[0][1] <= -100
    ensures var o := GlobalAlignment(Reference(Global, "AA", "B", W), "AA", "B");
      Ungap(o.cols.xs) == [] && Ungap(o.cols.ys) == "B"
  {
  }

  /** Local mode can reach the out-of-range suffix: with x = "A", y = "BA"
      and a table that scores 'A' with 'A' above 0 and above 'A' with 'B',
      the end cell is (1, 2), and y's suffix would be cut at |x| = 1 from
      index 2. */
  lemma LocalBadSuffixReached(W: seq<seq<int>>)
    requires IsTable(W) && W[0][0] > 0 && W[0][1] < W[0][0]
    ensures LocalAlignment(Reference(Local, "A", "BA", W), "A", "BA") == BadSuffix(W[0][0], " ")
  {
    var x, y := "A", "BA";
    var g: Grid := Reference(Local, x, y, W);
    assert Weight(W, x[0], y[0]) == W[0][1];
    assert Weight(W, x[0], y[1]) == W[0][0];
    assert g[1][1].m == W[0][1] by {
      assert g[1][1] == Cell(Local, x, y, W, 1, 1);
    }
    assert g[1][2].m == W[0][0] by {
      assert g[1][2] == Cell(Local, x, y, W, 1, 2);
    }
    var a := ZValues(g, x, y);
    assert a[0] == [0, Unreachable, Unreachable] by {
      assert g[0][1] == Boundary(Local, 0, 1);
      assert g[0][2] == Boundary(Local, 0, 2);
    }
    assert a[1] == [Unreachable, W[0][1], W[0][0]] by {
      assert g[1][0] == Boundary(Local, 1, 0);
    }
    LastCellFirstMax(a, W[0][1], W[0][0]);
    assert Repeat(' ', 1) == " ";
  }

  /** In a 2 x 3 table of this shape the scan ends on the last cell. */
  lemma LastCellFirstMax(a: seq<seq<int>>, b: int, c: int)
    requires a == [[0, Unreachable, Unreachable], [Unreachable, b, c]]
    requires c > 0 && c > b
    ensures FirstMax(a, 3) == (1, 2)
  {
    FirstMaxIs(a, 3, 1, 2);
  }

  /** Local mode reports at least the global score of the same input. */
  lemma LocalAtLeastGlobal(x: string, y: string, W: seq<seq<int>>)
    requires IsLetters(x) && IsLetters(y) && IsTable(W)
    ensures var o := LocalAlignment(Reference(Local, x, y, W), x, y);
      !o.NoStart? && o.score >= GlobalAlignment(Reference(Global, x, y, W), x, y).score
  {
    var g := Reference(Local, x, y, W);
    LocalScoreIsMax(g, x, y);
    LocalDominates(Global, x, y, W, |x|, |y|);
  }

  /** With a symmetric table, local mode scores the same when x and y are
      exchanged: both runs find an end cell, and each reports the largest Z,
      which the exchange only transposes. */
  lemma LocalScoreSymmetric(x: string, y: string, W: seq<seq<int>>)
    requires IsLetters(x) && IsLetters(y) && Transposed(W, W)
    ensures var o, o' := LocalAlignment(Reference(Local, x, y, W), x, y),
                         LocalAlignment(Reference(Local, y, x, W), y, x);
      !o.NoStart? && !o'.NoStart? && o.score == o'.score
  {
    var g: Grid, h: Grid := Reference(Local, x, y, W), Reference(Local, y, x, W);
    CellsSymmetric(Local, x, y, W);
    LocalScoreIsMax(g, x, y);
    LocalScoreIsMax(h, y, x);
    var a, b := ZValues(g, x, y), ZValues(h, y, x);
    FirstMaxCorrect(a, |y| + 1);
    FirstMaxCorrect(b, |x| + 1);
    var (p, q) := FirstMax(a, |y| + 1);
    var (p', q') := FirstMax(b, |x| + 1);
    assert LocalAlignment(g, x, y).score == g[p][q].m;
    assert LocalAlignment(h, y, x).score == h[p'][q'].m;
    assert h[q][p].m == g[p][q].m;
    assert g[q'][p'].m == h[p'][q'].m;
  }

  /** With a symmetric table, semiglobal mode fails for (x, y) exactly when
      it fails for (y, x), and otherwise reports the same score. */
  lemma SemiglobalScoreSymmetric(x: string, y: string, W: seq<seq<int>>)
    requires IsLetters(x) && IsLetters(y) && Transposed(W, W)
    ensures var r, r' := SemiglobalAlignment(Reference(Semiglobal, x, y, W), x, y),
                         SemiglobalAlignment(Reference(Semiglobal, y, x, W), y, x);
      && (r.None? <==> r'.None?)
      && (r.Some? ==> r.value.score == r'.value.score)
  {
    CellsSymmetric(Semiglobal, x, y, W);
    SemiglobalTransposed(Reference(Semiglobal, x, y, W), Reference(Semiglobal, y, x, W), x, y);
  }

  /** For any grid h whose Z is the transpose of g's Z, both semiglobal
      runs find an end cell or neither does, and the end cells hold the
      same score. */
  lemma SemiglobalTransposed(g: Grid, h: Grid, x: string, y: string)
    requires Shaped(g, x, y) && Shaped(h, y, x) && IsLetters(x) && IsLetters(y)
    requires forall i, j :: 0 <= i <= |x| && 0 <= j <= |y| ==> h[j][i].m == g[i][j].m
    ensures var r, r' := SemiglobalAlignment(g, x, y), SemiglobalAlignment(h, y, x);
      && (r.None? <==> r'.None?)
      && (r.Some? ==> r.value.score == r'.value.score)
  {
    StartTransposedNone(g, h, x, y);
    if SemiglobalStart(g, x, y).Some? {
      StartTransposedScore(g, h, x, y);
    }
  }

  /** The exchange turns the last column into the last row and back, so
      one grid lacks a candidate above -99 exactly when the other does. */
  lemma StartTransposedNone(g: Grid, h: Grid, x: string, y: string)
    requires Shaped(g, x, y) && Shaped(h, y, x) && IsLetters(x) && IsLetters(y)
    requires forall i, j :: 0 <= i <= |x| && 0 <= j <= |y| ==> h[j][i].m == g[i][j].m
    ensures SemiglobalStart(g, x, y).None? <==> SemiglobalStart(h, y, x).None?
  {
    assert forall t :: 0 <= t < |x| ==> h[|y|][t].m == g[t][|y|].m;
    assert forall t :: 0 <= t < |y| ==> h[t][|x|].m == g[|x|][t].m;
    SemiglobalFails(g, x, y);
    SemiglobalFails(h, y, x);
  }

  /** Each end cell holds the best candidate, and the candidates of one
      grid are those of the other, transposed. */
  lemma StartTransposedScore(g: Grid, h: Grid, x: string, y: string)
    requires Shaped(g, x, y) && Shaped(h, y, x) && IsLetters(x) && IsLetters(y)
    requires forall i, j :: 0 <= i <= |x| && 0 <= j <= |y| ==> h[j][i].m == g[i][j].m
    requires SemiglobalStart(g, x, y).Some? && SemiglobalStart(h, y, x).Some?
    ensures var (si, sj) := SemiglobalStart(g, x, y).value;
      var (si', sj') := SemiglobalStart(h, y, x).value;
      g[si][sj].m == h[si'][sj'].m
  {
    SemiglobalStartIsBest(g, x, y);
    SemiglobalStartIsBest(h, y, x);
    var (si, sj) := SemiglobalStart(g, x, y).value;
    var (si', sj') := SemiglobalStart(h, y, x).value;
    assert h[sj][si].m == g[si][sj].m;
    assert g[sj'][si'].m == h[si'][sj'].m;
  }
}
