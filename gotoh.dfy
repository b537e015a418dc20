/** The aligner object: three score matrices filled in place by a boundary
    initialiser and a forward pass, then read back by one of three
    tracebacks that prepend columns to the output rows. */
module Gotoh {
  import opened Text
  import opened Scoring
  import opened Argmax
  import opened Traceback

  /** The cells of a two-dimensional array, row by row. */
  ghost function Rows(a: array2<int>): (r: seq<seq<int>>)
    reads a
    ensures |r| == a.Length0 && Rect(r, a.Length1)
    ensures forall i, j :: 0 <= i < a.Length0 && 0 <= j < a.Length1 ==> r[i][j] == a[i, j]
  {
    seq(a.Length0, i requires 0 <= i < a.Length0 reads a =>
      seq(a.Length1, j requires 0 <= j < a.Length1 reads a => a[i, j]))
  }

  class GotohAlign {
    const x: string
    const y: string
    /** The substitution table, indexed by letter - 'A'. */
    const W: seq<seq<int>>

    /** Best scores ending in a gap in x, a gap in y, and a paired column. */
    var X: array2<int>
    var Y: array2<int>
    var Z: array2<int>

    var xOut: string
    var yOut: string
    var annotation: string
    var score: int

    /** The inputs the aligner accepts: letters 'A'..'Z' and a 26 x 26 table. */
    predicate Inputs() {
      IsLetters(x) && IsLetters(y) && IsTable(W)
    }

    /** Three distinct matrices of (|x| + 1) x (|y| + 1) cells. */
    ghost predicate Valid()
      reads this`X, this`Y, this`Z
    {
      && Inputs()
      && X.Length0 == Y.Length0 == Z.Length0 == |x| + 1
      && X.Length1 == Y.Length1 == Z.Length1 == |y| + 1
      && X != Y && Y != Z && X != Z
    }

    /** The three scores stored at cell (i, j). */
    ghost function At(i: nat, j: nat): Scores
      requires Valid() && i <= |x| && j <= |y|
      reads this`X, this`Y, this`Z, X, Y, Z
    {
      Scores(X[i, j], Y[i, j], Z[i, j])
    }

    /** The matrices as a grid value. */
    ghost function Snapshot(): (g: Grid)
      requires Valid()
      reads this`X, this`Y, this`Z, X, Y, Z
      ensures Shaped(g, x, y)
    {
      var a, b, c := X, Y, Z;
      seq(|x| + 1, i requires 0 <= i <= |x| reads a, b, c =>
        seq(|y| + 1, j requires 0 <= j <= |y| reads a, b, c => Scores(a[i, j], b[i, j], c[i, j])))
    }

    /** Cell (i, j) of the grid is what the matrices hold there. */
    lemma SnapshotAt(i: nat, j: nat)
      requires Valid() && i <= |x| && j <= |y|
      ensures Snapshot()[i][j] == At(i, j)
    {
    }

    lemma SnapshotCells()
      requires Valid()
      ensures forall i, j :: 0 <= i <= |x| && 0 <= j <= |y| ==> Snapshot()[i][j] == At(i, j)
    {
      forall i, j | 0 <= i <= |x| && 0 <= j <= |y| {
        SnapshotAt(i, j);
      }
    }

    /** While the matrices and their fields are untouched, the grid is the
        same. */
    twostate lemma SnapshotKept()
      requires old(Valid())
      requires unchanged(this`X, this`Y, this`Z) && unchanged(X, Y, Z)
      ensures Valid() && Snapshot() == old(Snapshot())
    {
    }

    /** The three output rows. */
    function Out(): Aligned
      reads this`xOut, this`yOut, this`annotation
    {
      Aligned(xOut, yOut, annotation)
    }

    /** Interior cell (i, j) holds what the recurrence computes from its
        neighbours. */
    ghost predicate FilledAt(i: nat, j: nat)
      requires Valid() && 1 <= i <= |x| && 1 <= j <= |y|
      reads this`X, this`Y, this`Z, X, Y, Z
    {
      Scores(X[i, j], Y[i, j], Z[i, j]) ==
        Next(Scores(X[i, j - 1], Y[i, j - 1], Z[i, j - 1]),
             Scores(X[i - 1, j], Y[i - 1, j], Z[i - 1, j]),
             Scores(X[i - 1, j - 1], Y[i - 1, j - 1], Z[i - 1, j - 1]),
             Weight(W, x[i - 1], y[j - 1]))
    }

    constructor(x0: string, y0: string, W0: seq<seq<int>>)
      requires IsLetters(x0) && IsLetters(y0) && IsTable(W0)
      ensures x == x0 && y == y0 && W == W0
      ensures Valid() && Out() == Empty && score == 0
    {
      x, y, W := x0, y0, W0;
      X := new int[|x0| + 1, |y0| + 1]((i, j) => 0);
      Y := new int[|x0| + 1, |y0| + 1]((i, j) => 0);
      Z := new int[|x0| + 1, |y0| + 1]((i, j) => 0);
      xOut, yOut, annotation, score := [], [], [], 0;
    }

    /** Clears the outputs and allocates three zeroed matrices. */
    method ResetState()
      requires Inputs()
      modifies this`X, this`Y, this`Z, this`xOut, this`yOut, this`annotation, this`score
      ensures Valid() && fresh(X) && fresh(Y) && fresh(Z)
      ensures Out() == Empty && score == 0
      ensures forall i, j :: 0 <= i <= |x| && 0 <= j <= |y| ==> At(i, j) == Scores(0, 0, 0)
    {
      xOut, yOut, annotation, score := [], [], [], 0;
      X := new int[|x| + 1, |y| + 1]((i, j) => 0);
      Y := new int[|x| + 1, |y| + 1]((i, j) => 0);
      Z := new int[|x| + 1, |y| + 1]((i, j) => 0);
    }

    /** Global boundary: every row-0 and column-0 cell is -99 except
        Z[0][0] = 0. */
    method InitializeGlobal()
      requires Inputs()
      modifies this`X, this`Y, this`Z, this`xOut, this`yOut, this`annotation, this`score
      ensures Valid() && fresh(X) && fresh(Y) && fresh(Z)
      ensures Out() == Empty && score == 0
      ensures BoundaryOf(Snapshot(), x, y, Global)
    {
      ResetState();
      for i := 0 to |x| + 1
        modifies X, Y, Z
        invariant forall k :: 0 <= k < i ==> X[k, 0] == Y[k, 0] == Z[k, 0] == Unreachable
      {
        X[i, 0] := Unreachable;
        Y[i, 0] := Unreachable;
        Z[i, 0] := Unreachable;
      }
      for j := 0 to |y| + 1
        modifies X, Y, Z
        invariant forall k :: 0 <= k <= |x| ==> X[k, 0] == Y[k, 0] == Z[k, 0] == Unreachable
        invariant forall k :: 0 <= k < j ==> X[0, k] == Y[0, k] == Z[0, k] == Unreachable
      {
        X[0, j] := Unreachable;
        Y[0, j] := Unreachable;
        Z[0, j] := Unreachable;
      }
      Z[0, 0] := 0;
    }

    /** Semiglobal boundary: the gap matrices hold 0 at index 0 and
        -12 - 2 * (k - 1) at index k >= 1; Z is -99 except Z[0][0] = 0. */
    method InitializeSemiglobal()
      requires Inputs()
      modifies this`X, this`Y, this`Z, this`xOut, this`yOut, this`annotation, this`score
      ensures Valid() && fresh(X) && fresh(Y) && fresh(Z)
      ensures Out() == Empty && score == 0
      ensures BoundaryOf(Snapshot(), x, y, Semiglobal)
    {
      ResetState();
      for i := 0 to |x| + 1
        modifies X, Y, Z
        invariant forall k :: 0 <= k < i ==>
          X[k, 0] == Y[k, 0] == BoundaryGap(Semiglobal, k) && Z[k, 0] == Unreachable
      {
        X[i, 0] := if i == 0 then 0 else -GapOpen - GapExtend * (i - 1);
        Y[i, 0] := if i == 0 then 0 else -GapOpen - GapExtend * (i - 1);
        Z[i, 0] := Unreachable;
      }
      for j := 0 to |y| + 1
        modifies X, Y, Z
        invariant forall k :: 0 <= k <= |x| ==>
          X[k, 0] == Y[k, 0] == BoundaryGap(Semiglobal, k) && Z[k, 0] == Unreachable
        invariant forall k :: 0 <= k < j ==>
          X[0, k] == Y[0, k] == BoundaryGap(Semiglobal, k) && Z[0, k] == Unreachable
      {
        X[0, j] := if j == 0 then 0 else -GapOpen - GapExtend * (j - 1);
        Y[0, j] := if j == 0 then 0 else -GapOpen - GapExtend * (j - 1);
        Z[0, j] := Unreachable;
      }
      Z[0, 0] := 0;
    }

    /** Local boundary: the gap matrices are 0 along row 0 and column 0; Z is
        -99 there except Z[0][0] = 0. */
    method InitializeLocal()
      requires Inputs()
      modifies this`X, this`Y, this`Z, this`xOut, this`yOut, this`annotation, this`score
      ensures Valid() && fresh(X) && fresh(Y) && fresh(Z)
      ensures Out() == Empty && score == 0
      ensures BoundaryOf(Snapshot(), x, y, Local)
    {
      ResetState();
      for i := 0 to |x| + 1
        modifies X, Y, Z
        invariant forall k :: 0 <= k < i ==> X[k, 0] == Y[k, 0] == 0 && Z[k, 0] == Unreachable
      {
        X[i, 0] := 0;
        Y[i, 0] := 0;
        Z[i, 0] := Unreachable;
      }
      for j := 0 to |y| + 1
        modifies X, Y, Z
        invariant forall k :: 0 <= k <= |x| ==> X[k, 0] == Y[k, 0] == 0 && Z[k, 0] == Unreachable
        invariant forall k :: 0 <= k < j ==> X[0, k] == Y[0, k] == 0 && Z[0, k] == Unreachable
      {
        X[0, j] := 0;
        Y[0, j] := 0;
        Z[0, j] := Unreachable;
      }
      Z[0, 0] := 0;
    }

    /** Fills every interior cell, row by row, from its left, upper and
        diagonal neighbours; row 0 and column 0 are left as they were. */
    method ForwardPass()
      requires Valid()
      modifies X, Y, Z
      ensures Valid()
      ensures Recurrent(Snapshot(), x, y, W)
      ensures SameBoundary(Snapshot(), old(Snapshot()), x, y)
    {
      for i := 1 to |x| + 1
        invariant forall r, c :: 1 <= r < i && 1 <= c <= |y| ==> FilledAt(r, c)
        invariant forall r :: 0 <= r <= |x| ==> X[r, 0] == old(X[r, 0]) && Y[r, 0] == old(Y[r, 0]) && Z[r, 0] == old(Z[r, 0])
        invariant forall c :: 0 <= c <= |y| ==> X[0, c] == old(X[0, c]) && Y[0, c] == old(Y[0, c]) && Z[0, c] == old(Z[0, c])
      {
        FillRow(i);
      }
      var g := Snapshot();
      SnapshotCells();
      forall i: nat, j: nat | 1 <= i <= |x| && 1 <= j <= |y|
        ensures RecurrentAt(g, x, y, W, i, j)
      {
        assert FilledAt(i, j);
      }
    }

    /** Fills row i left to right, given that the rows above it are filled;
        row 0 and column 0 are left as they were. */
    method FillRow(i: nat)
      requires Valid() && 1 <= i <= |x|
      requires forall r, c :: 1 <= r < i && 1 <= c <= |y| ==> FilledAt(r, c)
      modifies X, Y, Z
      ensures forall r, c :: 1 <= r <= i && 1 <= c <= |y| ==> FilledAt(r, c)
      ensures forall r :: 0 <= r <= |x| ==> X[r, 0] == old(X[r, 0]) && Y[r, 0] == old(Y[r, 0]) && Z[r, 0] == old(Z[r, 0])
      ensures forall c :: 0 <= c <= |y| ==> X[0, c] == old(X[0, c]) && Y[0, c] == old(Y[0, c]) && Z[0, c] == old(Z[0, c])
    {
      for j := 1 to |y| + 1
        invariant forall r, c :: 1 <= r < i && 1 <= c <= |y| ==> FilledAt(r, c)
        invariant forall c :: 1 <= c < j ==> FilledAt(i, c)
        invariant forall r :: 0 <= r <= |x| ==> X[r, 0] == old(X[r, 0]) && Y[r, 0] == old(Y[r, 0]) && Z[r, 0] == old(Z[r, 0])
        invariant forall c :: 0 <= c <= |y| ==> X[0, c] == old(X[0, c]) && Y[0, c] == old(Y[0, c]) && Z[0, c] == old(Z[0, c])
      {
        label before:
        X[i, j] := Max(X[i, j - 1], Max(Y[i, j - 1] - GapOpen, Z[i, j - 1] - GapOpen)) - GapExtend;
        Y[i, j] := Max(X[i - 1, j] - GapOpen, Max(Y[i - 1, j], Z[i - 1, j] - GapOpen)) - GapExtend;
        var w := W[x[i - 1] as int - 'A' as int][y[j - 1] as int - 'A' as int];
        Z[i, j] := Max(X[i - 1, j - 1], Max(Y[i - 1, j - 1], Z[i - 1, j - 1])) + w;
        forall r, c | (1 <= r < i && 1 <= c <= |y|) || (r == i && 1 <= c < j)
          ensures FilledAt(r, c)
        {
          assert old@before(FilledAt(r, c));
        }
        assert FilledAt(i, j);
      }
    }

    /** One traceback step at interior cell (i, j): takes the largest of
        X, Y and Z there (ties to X, then Y), prepends the column it stands
        for and returns the cell it steps back to. */
    method PrependColumn(i: nat, j: nat) returns (pi: nat, pj: nat)
      requires Valid() && 1 <= i <= |x| && 1 <= j <= |y|
      modifies this`xOut, this`yOut, this`annotation
      ensures var mv := Choose(At(i, j));
        (pi, pj) == Back(mv, i, j) && Out() == Join(Column(mv, x, y, i, j), old(Out()))
    {
      var max := Max(X[i, j], Max(Y[i, j], Z[i, j]));
      if max == X[i, j] {
        xOut := [Gap] + xOut;
        yOut := [y[j - 1]] + yOut;
        annotation := [' '] + annotation;
        pi, pj := i, j - 1;
      } else if max == Y[i, j] {
        xOut := [x[i - 1]] + xOut;
        yOut := [Gap] + yOut;
        annotation := [' '] + annotation;
        pi, pj := i - 1, j;
      } else {
        xOut := [x[i - 1]] + xOut;
        yOut := [y[j - 1]] + yOut;
        annotation := [Mark(x[i - 1], y[j - 1])] + annotation;
        pi, pj := i - 1, j - 1;
      }
    }

    /** Walks back from (i0, j0) until row 0 or column 0, prepending one
        column per step; sets the score to Z[i0][j0] and returns the cell
        where the walk stopped. */
    method BackwardPassGlobal(i0: nat, j0: nat) returns (i: nat, j: nat)
      requires Valid() && i0 <= |x| && j0 <= |y|
      modifies this`xOut, this`yOut, this`annotation, this`score
      ensures var t := Trace(old(Snapshot()), x, y, i0, j0, false);
        i == t.i && j == t.j && Out() == Join(t.cols, old(Out()))
      ensures score == Z[i0, j0]
    {
      ghost var g := Snapshot();
      score := Z[i0, j0];
      i, j := i0, j0;
      while i > 0 && j > 0
        invariant i <= i0 && j <= j0
        invariant score == Z[i0, j0]
        invariant WalkedFrom(g, x, y, i0, j0, old(Out()), i, j, Out(), false)
        decreases i + j
      {
        SnapshotAt(i, j);
        WalkStep(g, x, y, i0, j0, old(Out()), i, j, Out(), false);
        i, j := PrependColumn(i, j);
      }
      WalkDone(g, x, y, i0, j0, old(Out()), i, j, Out(), false);
    }

    /** Prepends y[lo..hi] set against gaps in x, last letter first. */
    method PrependGapsInX(lo: nat, hi: nat)
      requires Inputs() && lo <= hi <= |y|
      modifies this`xOut, this`yOut, this`annotation
      ensures Out() == Join(GapsInX(y[lo..hi]), old(Out()))
    {
      var t := hi;
      while t > lo
        invariant lo <= t <= hi
        invariant xOut == Repeat(Gap, hi - t) + old(xOut)
        invariant yOut == y[t..hi] + old(yOut)
        invariant annotation == Repeat(' ', hi - t) + old(annotation)
      {
        xOut := [Gap] + xOut;
        annotation := [' '] + annotation;
        yOut := [y[t - 1]] + yOut;
        assert y[t - 1..hi] == [y[t - 1]] + y[t..hi];
        t := t - 1;
      }
    }

    /** Prepends x[lo..hi] set against gaps in y, last letter first. */
    method PrependGapsInY(lo: nat, hi: nat)
      requires Inputs() && lo <= hi <= |x|
      modifies this`xOut, this`yOut, this`annotation
      ensures Out() == Join(GapsInY(x[lo..hi]), old(Out()))
    {
      var t := hi;
      while t > lo
        invariant lo <= t <= hi
        invariant xOut == x[t..hi] + old(xOut)
        invariant yOut == Repeat(Gap, hi - t) + old(yOut)
        invariant annotation == Repeat(' ', hi - t) + old(annotation)
      {
        xOut := [x[t - 1]] + xOut;
        annotation := [' '] + annotation;
        yOut := [Gap] + yOut;
        assert x[t - 1..hi] == [x[t - 1]] + x[t..hi];
        t := t - 1;
      }
    }

    /** Row-major scan for the first value above -99 and above everything
        before it; (-1, -1) when there is none. */
    method MaxIdx(a: array2<int>) returns (maxI: int, maxJ: int)
      ensures (maxI, maxJ) == FirstMax(Rows(a), a.Length1)
      ensures IsFirstMax(Rows(a), a.Length1, maxI, maxJ)
    {
      ghost var rows := Rows(a);
      var maxVal := Start.v;
      maxI, maxJ := Start.i, Start.j;
      for i := 0 to a.Length0
        invariant InRange(rows, a.Length1, Candidate(maxI, maxJ, maxVal))
        invariant Scan(rows, a.Length1, i, 0, Candidate(maxI, maxJ, maxVal)) == Scan(rows, a.Length1, 0, 0, Start)
      {
        for j := 0 to a.Length1
          invariant InRange(rows, a.Length1, Candidate(maxI, maxJ, maxVal))
          invariant Scan(rows, a.Length1, i, j, Candidate(maxI, maxJ, maxVal)) == Scan(rows, a.Length1, 0, 0, Start)
        {
          if a[i, j] > maxVal {
            maxI, maxJ, maxVal := i, j, a[i, j];
          }
        }
      }
      FirstMaxCorrect(rows, a.Length1);
    }

    /** Picks the end cell on the last row or column of Z, emits the trailing
        gap run, the global walk and the leading gap runs. Returns false,
        with nothing changed, where the source would index with -1. */
    method BackwardPassSemiglobal() returns (ok: bool)
      requires Valid()
      modifies this`xOut, this`yOut, this`annotation, this`score
      ensures var r := SemiglobalAlignment(old(Snapshot()), x, y);
        && (ok <==> r.Some?)
        && (!ok ==> Out() == old(Out()) && score == old(score))
        && (ok ==> Out() == Join(r.value.cols, old(Out())) && score == r.value.score)
    {
      var maxRow, maxCol := SemiglobalCandidates();
      if maxRow < 0 || maxCol < 0 {
        return false;
      }
      var si: nat, sj: nat;
      if Z[maxRow, |y|] < Z[|x|, maxCol] {
        si, sj := |x|, maxCol;
      } else {
        si, sj := maxRow, |y|;
      }
      SnapshotAt(maxRow, |y|);
      SnapshotAt(|x|, maxCol);
      assert SemiglobalStart(old(Snapshot()), x, y) == Some((si, sj));
      BackwardPassSemiglobalFrom(si, sj);
      ok := true;
    }

    /** The two `max_idx` scans of semiglobal mode: over Z's last column
        (rows 0..|x|-1) and over Z's last row (columns 0..|y|-1), each copied
        into a fresh table first. */
    method SemiglobalCandidates() returns (maxRow: int, maxCol: int)
      requires Valid()
      ensures maxRow == FirstMax(LastColumn(Snapshot(), x, y), 1).0
      ensures maxCol == FirstMax(LastRow(Snapshot(), x, y), |y|).1
    {
      var lastRow := LastRowTable();
      var lastCol := LastColumnTable();
      SnapshotKept();
      var rowIdx, _ := MaxIdx(lastCol);
      var _, colIdx := MaxIdx(lastRow);
      SnapshotKept();
      maxRow, maxCol := rowIdx, colIdx;
    }

    /** A fresh 1 x |y| table holding Z's last row without its last cell. */
    method LastRowTable() returns (a: array2<int>)
      requires Valid()
      ensures fresh(a) && Rows(a) == LastRow(Snapshot(), x, y)
    {
      a := new int[1, |y|];
      for t := 0 to |y|
        modifies a
        invariant forall k :: 0 <= k < t ==> a[0, k] == Z[|x|, k]
      {
        a[0, t] := Z[|x|, t];
      }
      ghost var g := Snapshot();
      forall k | 0 <= k < |y|
        ensures Rows(a)[0][k] == LastRow(g, x, y)[0][k]
      {
        SnapshotAt(|x|, k);
      }
      assert Rows(a)[0] == LastRow(g, x, y)[0];
    }

    /** A fresh |x| x 1 table holding Z's last column without its last cell. */
    method LastColumnTable() returns (a: array2<int>)
      requires Valid()
      ensures fresh(a) && Rows(a) == LastColumn(Snapshot(), x, y)
    {
      a := new int[|x|, 1];
      for t := 0 to |x|
        modifies a
        invariant forall k :: 0 <= k < t ==> a[k, 0] == Z[k, |y|]
      {
        a[t, 0] := Z[t, |y|];
      }
      ghost var g := Snapshot();
      forall t | 0 <= t < |x|
        ensures Rows(a)[t] == LastColumn(g, x, y)[t]
      {
        SnapshotAt(t, |y|);
        assert Rows(a)[t][0] == LastColumn(g, x, y)[t][0];
      }
    }

    /** Semiglobal output from end cell (si, sj): the trailing gap run, the
        global walk back from (si, sj), then the leading gap runs. */
    method BackwardPassSemiglobalFrom(si: nat, sj: nat)
      requires Valid() && si <= |x| && sj <= |y| && (si == |x| || sj == |y|)
      modifies this`xOut, this`yOut, this`annotation, this`score
      ensures var o := SemiglobalFrom(old(Snapshot()), x, y, si, sj);
        Out() == Join(o.cols, old(Out())) && score == o.score
    {
      ghost var g := Snapshot();
      PrependTrailingGaps(si, sj);
      ghost var tailed := Out();
      SnapshotKept();
      var i, j := BackwardPassGlobal(si, sj);
      ghost var walked := Out();
      PrependLeadingGaps(i, j);
      SnapshotAt(si, sj);
      ghost var t := Trace(g, x, y, si, sj, false);
      JoinAssoc(t.cols, TrailingGaps(x, y, si, sj), old(Out()));
      JoinAssoc(LeadingGaps(x, y, i, j), Join(t.cols, TrailingGaps(x, y, si, sj)), old(Out()));
    }

    /** Step 1: the rest of y against gaps when the end cell is on the last
        row, the rest of x against gaps otherwise. */
    method PrependTrailingGaps(si: nat, sj: nat)
      requires Inputs() && si <= |x| && sj <= |y| && (si == |x| || sj == |y|)
      modifies this`xOut, this`yOut, this`annotation
      ensures Out() == Join(TrailingGaps(x, y, si, sj), old(Out()))
    {
      if si == |x| {
        PrependGapsInX(sj, |y|);
        assert y[sj..|y|] == y[sj..];
      } else {
        PrependGapsInY(si, |x|);
        assert x[si..|x|] == x[si..];
      }
    }

    /** Step 3: the first j letters of y against gaps, then in front of them
        the first i letters of x against gaps. */
    method PrependLeadingGaps(i: nat, j: nat)
      requires Inputs() && i <= |x| && j <= |y|
      modifies this`xOut, this`yOut, this`annotation
      ensures Out() == Join(LeadingGaps(x, y, i, j), old(Out()))
    {
      if j > 0 {
        PrependGapsInX(0, j);
      }
      assert y[0..j] == y[..j];
      ghost var back := Out();
      assert back == Join(GapsInX(y[..j]), old(Out()));
      if i > 0 {
        PrependGapsInY(0, i);
      }
      assert x[0..i] == x[..i];
      assert Out() == Join(GapsInY(x[..i]), back);
      JoinAssoc(GapsInY(x[..i]), GapsInX(y[..j]), old(Out()));
    }

    /** The Z table read row by row is the grid's `m` values. */
    lemma ZRows()
      requires Valid()
      ensures Rows(Z) == ZValues(Snapshot(), x, y)
    {
      ghost var g := Snapshot();
      forall r | 0 <= r <= |x|
        ensures Rows(Z)[r] == ZValues(g, x, y)[r]
      {
        forall c | 0 <= c <= |y|
          ensures Rows(Z)[r][c] == ZValues(g, x, y)[r][c]
        {
          SnapshotAt(r, c);
        }
      }
    }

    /** The local end cell: `max_idx` over the Z table. */
    method LocalEnd() returns (p: int, q: int)
      requires Valid()
      ensures (p, q) == FirstMax(ZValues(Snapshot(), x, y), |y| + 1)
    {
      ZRows();
      p, q := MaxIdx(Z);
    }

    /** The local segment: walks back from (p, q) while neither index is 0
        and the cell's best score is not negative, prepending one column
        per step; returns the cell where the walk stopped. */
    method WalkLocal(p: nat, q: nat) returns (i: nat, j: nat)
      requires Valid() && p <= |x| && q <= |y|
      modifies this`xOut, this`yOut, this`annotation
      ensures var t := Trace(old(Snapshot()), x, y, p, q, true);
        i == t.i && j == t.j && Out() == Join(t.cols, old(Out()))
    {
      ghost var g := Snapshot();
      i, j := p, q;
      while i > 0 && j > 0
        invariant i <= p && j <= q
        invariant WalkedFrom(g, x, y, p, q, old(Out()), i, j, Out(), true)
        decreases i + j
      {
        SnapshotAt(i, j);
        var max := Max(X[i, j], Max(Y[i, j], Z[i, j]));
        if max < 0 {
          break;
        }
        WalkStep(g, x, y, p, q, old(Out()), i, j, Out(), true);
        i, j := PrependColumn(i, j);
      }
      WalkDone(g, x, y, p, q, old(Out()), i, j, Out(), true);
    }

    /** Ends at the first maximal Z, pads the unaligned suffixes, walks back
        until a negative cell or row 0 or column 0, pads the unaligned
        prefixes. Returns false where the source would index with -1 or
        take an out-of-range substring, with the state as it was then. */
    method BackwardPassLocal() returns (ok: bool)
      requires Valid()
      modifies this`xOut, this`yOut, this`annotation, this`score
      ensures var o := LocalAlignment(old(Snapshot()), x, y);
        && (ok <==> o.LocalDone?)
        && (o.NoStart? ==> Out() == old(Out()) && score == old(score))
        && (o.BadSuffix? ==>
              xOut == o.xs && yOut == old(yOut) && annotation == old(annotation) && score == o.score)
        && (o.LocalDone? ==>
              xOut == o.xs && yOut == o.ys && annotation == o.ann + old(annotation) && score == o.score)
    {
      var p, q := LocalEnd();
      if p < 0 || q < 0 {
        return false;
      }
      LocalAlignmentAt(old(Snapshot()), x, y, p, q);
      ok := BackwardPassLocalFrom(p, q);
    }

    /** The local traceback once its end cell (p, q) is known. */
    method BackwardPassLocalFrom(p: nat, q: nat) returns (ok: bool)
      requires Valid() && p <= |x| && q <= |y|
      modifies this`xOut, this`yOut, this`annotation, this`score
      ensures var o := LocalFrom(old(Snapshot()), x, y, p, q);
        && (ok <==> o.LocalDone?)
        && (o.BadSuffix? ==>
              xOut == o.xs && yOut == old(yOut) && annotation == old(annotation) && score == o.score)
        && (o.LocalDone? ==>
              xOut == o.xs && yOut == o.ys && annotation == o.ann + old(annotation) && score == o.score)
    {
      ghost var g := Snapshot();
      SnapshotAt(p, q);
      score := Z[p, q];
      ok := PadSuffixes(p, q);
      if !ok {
        return;
      }
      SnapshotKept();
      var i, j := WalkLocal(p, q);
      PadPrefixes(i, j);
      ghost var t := Trace(g, x, y, p, q, true);
      LocalFromDone(g, x, y, p, q, t.cols, i, j);
      AppendAssoc(Repeat(' ', Abs(i as int - j)), t.cols.ann, old(annotation));
    }

    /** Sets the output rows to the unaligned suffixes after (p, q), the
        shorter one padded with spaces. Fails, after setting the first row,
        where the source takes y's substring up to |x| past its end. */
    method PadSuffixes(p: nat, q: nat) returns (ok: bool)
      requires Inputs() && p <= |x| && q <= |y|
      modifies this`xOut, this`yOut
      ensures var pad := Repeat(' ', Abs(p - q));
        && (ok <==> !(p < q && !(q <= |x| <= |y|)))
        && xOut == (if p < q then x[p..] + pad else x[p..])
        && yOut == (if !ok then old(yOut) else if p < q then y[q..|x|] else y[q..] + pad)
    {
      var rightPad := Repeat(' ', Abs(p - q));
      if p < q {
        xOut := x[p..] + rightPad;
        if !(q <= |x| <= |y|) {
          return false;
        }
        yOut := y[q..|x|];
      } else {
        xOut := x[p..];
        yOut := y[q..] + rightPad;
      }
      ok := true;
    }

    /** Prepends the unaligned prefixes before (i, j), the shorter one
        padded with spaces, and as many spaces to the annotation. */
    method PadPrefixes(i: nat, j: nat)
      requires Inputs() && i <= |x| && j <= |y|
      modifies this`xOut, this`yOut, this`annotation
      ensures var pad := Repeat(' ', Abs(i as int - j));
        && xOut == (if i < j then pad + x[..i] else x[..i]) + old(xOut)
        && yOut == (if i < j then y[..j] else pad + y[..j]) + old(yOut)
        && annotation == pad + old(annotation)
    {
      var leftPad := Repeat(' ', Abs(i as int - j));
      if i < j {
        xOut := leftPad + x[..i] + xOut;
        yOut := y[..j] + yOut;
      } else {
        xOut := x[..i] + xOut;
        yOut := leftPad + y[..j] + yOut;
      }
      annotation := leftPad + annotation;
    }

    method AlignGlobal()
      requires Inputs()
      modifies this`X, this`Y, this`Z, this`xOut, this`yOut, this`annotation, this`score
      ensures Valid() && Snapshot() == Reference(Global, x, y, W)
      ensures var o := GlobalAlignment(Reference(Global, x, y, W), x, y);
        Out() == o.cols && score == o.score
    {
      Fill(Global);
      label filled:
      var _, _ := BackwardPassGlobal(|x|, |y|);
      SnapshotKept@filled();
      SnapshotAt(|x|, |y|);
      JoinEmpty(GlobalAlignment(Reference(Global, x, y, W), x, y).cols);
    }

    /** Semiglobal alignment; false where the source would index with -1,
        with the outputs still empty. */
    method AlignSemiglobal() returns (ok: bool)
      requires Inputs()
      modifies this`X, this`Y, this`Z, this`xOut, this`yOut, this`annotation, this`score
      ensures Valid() && Snapshot() == Reference(Semiglobal, x, y, W)
      ensures var r := SemiglobalAlignment(Reference(Semiglobal, x, y, W), x, y);
        && (ok <==> r.Some?)
        && (!ok ==> Out() == Empty && score == 0)
        && (ok ==> Out() == r.value.cols && score == r.value.score)
    {
      Fill(Semiglobal);
      ghost var r := SemiglobalAlignment(Snapshot(), x, y);
      label filled:
      ok := BackwardPassSemiglobal();
      SnapshotKept@filled();
      if ok {
        JoinEmpty(r.value.cols);
      }
    }

    /** Local alignment; false where the source would fail, with the outputs
        as far as it got. */
    method AlignLocal() returns (ok: bool)
      requires Inputs()
      modifies this`X, this`Y, this`Z, this`xOut, this`yOut, this`annotation, this`score
      ensures Valid() && Snapshot() == Reference(Local, x, y, W)
      ensures var o := LocalAlignment(Reference(Local, x, y, W), x, y);
        && (ok <==> o.LocalDone?)
        && (o.LocalDone? ==> Out() == Aligned(o.xs, o.ys, o.ann) && score == o.score)
    {
      Fill(Local);
      label filled:
      ok := BackwardPassLocal();
      SnapshotKept@filled();
    }

    /** The first two steps of every `align_*`: the boundary of `mode`,
        then the forward pass; the matrices then hold the reference grid. */
    method Fill(mode: Mode)
      requires Inputs()
      modifies this`X, this`Y, this`Z, this`xOut, this`yOut, this`annotation, this`score
      ensures Valid() && fresh(X) && fresh(Y) && fresh(Z)
      ensures Out() == Empty && score == 0
      ensures Snapshot() == Reference(mode, x, y, W)
    {
      match mode {
        case Global => InitializeGlobal();
        case Semiglobal => InitializeSemiglobal();
        case Local => InitializeLocal();
      }
      ghost var g0 := Snapshot();
      ForwardPass();
      FilledIsReference(mode, g0);
    }

    /** After a forward pass over the boundary of `mode` the matrices hold
        the reference grid of `mode`. */
    lemma FilledIsReference(mode: Mode, g0: Grid)
      requires Valid() && Shaped(g0, x, y) && BoundaryOf(g0, x, y, mode)
      requires Recurrent(Snapshot(), x, y, W) && SameBoundary(Snapshot(), g0, x, y)
      ensures Snapshot() == Reference(mode, x, y, W)
    {
      GridDetermined(Snapshot(), mode, x, y, W);
    }
  }
}
