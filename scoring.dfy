/** The three score matrices of Gotoh's affine-gap alignment as values:
    their boundary in each mode, the recurrence that fills their interior,
    and a reference definition of every cell. */
module Scoring {
  import opened Text

  /** Marks a state that cannot be reached at a boundary cell. */
  const Unreachable: int := -99
  /** Paid once when a gap run is opened from another state. */
  const GapOpen: int := 12
  /** Paid for every column of a gap run. */
  const GapExtend: int := 2

  datatype Mode = Global | Semiglobal | Local

  /** The three scores held at one cell (i, j): best alignment of x[..i]
      with y[..j] ending in a gap in x (`gx`), a gap in y (`gy`), or a
      paired column (`m`). */
  datatype Scores = Scores(gx: int, gy: int, m: int)

  /** The matrices X, Y and Z side by side: grid[i][j] holds cell (i, j). */
  type Grid = seq<seq<Scores>>

  /** A 26 x 26 substitution table indexed by letter - 'A'. */
  predicate IsTable(W: seq<seq<int>>) {
    |W| == 26 && forall r :: 0 <= r < 26 ==> |W[r]| == 26
  }

  function Weight(W: seq<seq<int>>, a: char, b: char): int
    requires IsTable(W) && 'A' <= a <= 'Z' && 'A' <= b <= 'Z'
  {
    W[a as int - 'A' as int][b as int - 'A' as int]
  }

  /** `T` is `W` with its two indices exchanged. */
  predicate Transposed(W: seq<seq<int>>, T: seq<seq<int>>) {
    IsTable(W) && IsTable(T) && forall r, c :: 0 <= r < 26 && 0 <= c < 26 ==> T[r][c] == W[c][r]
  }

  function Max(a: int, b: int): int
  {
    if a >= b then a else b
  }

  /** max(a, max(b, c)), the nesting used throughout the aligner. */
  function Max3(a: int, b: int, c: int): int
  {
    Max(a, Max(b, c))
  }

  function Best(s: Scores): int {
    Max3(s.gx, s.gy, s.m)
  }

  /** The affine-gap recurrence: the cell whose left, upper and diagonal
      neighbours are `left`, `up` and `diag`, where `w` scores the pair of
      symbols that meet at it. */
  function Next(left: Scores, up: Scores, diag: Scores, w: int): Scores {
    Scores(Max3(left.gx, left.gy - GapOpen, left.m - GapOpen) - GapExtend,
           Max3(up.gx - GapOpen, up.gy, up.m - GapOpen) - GapExtend,
           Max3(diag.gx, diag.gy, diag.m) + w)
  }

  /** The value each mode gives the gap matrices at boundary index k. */
  function BoundaryGap(mode: Mode, k: nat): int {
    match mode
    case Global => Unreachable
    case Semiglobal => if k == 0 then 0 else -GapOpen - GapExtend * (k - 1)
    case Local => 0
  }

  /** A cell of row 0 or column 0 as each mode's initialiser writes it. */
  function Boundary(mode: Mode, i: nat, j: nat): (s: Scores)
    requires i == 0 || j == 0
    ensures s.gx == s.gy
    ensures s.m == (if i == 0 && j == 0 then 0 else Unreachable)
  {
    Scores(BoundaryGap(mode, i + j), BoundaryGap(mode, i + j),
           if i == 0 && j == 0 then 0 else Unreachable)
  }

  /** Reference definition of every cell: boundary for row 0 and column 0,
      recurrence everywhere else. */
  function Cell(mode: Mode, x: string, y: string, W: seq<seq<int>>, i: nat, j: nat): Scores
    requires IsLetters(x) && IsLetters(y) && IsTable(W)
    requires i <= |x| && j <= |y|
    decreases i + j
  {
    if i == 0 || j == 0 then Boundary(mode, i, j)
    else Next(Cell(mode, x, y, W, i, j - 1), Cell(mode, x, y, W, i - 1, j),
              Cell(mode, x, y, W, i - 1, j - 1), Weight(W, x[i - 1], y[j - 1]))
  }

  /** The grid has (|x| + 1) rows of (|y| + 1) cells. */
  predicate Shaped(g: Grid, x: string, y: string) {
    |g| == |x| + 1 && forall r :: 0 <= r < |g| ==> |g[r]| == |y| + 1
  }

  /** Row 0 and column 0 hold the boundary of `mode`. */
  predicate BoundaryOf(g: Grid, x: string, y: string, mode: Mode)
    requires Shaped(g, x, y)
  {
    (forall i :: 0 <= i <= |x| ==> g[i][0] == Boundary(mode, i, 0)) &&
    (forall j :: 0 <= j <= |y| ==> g[0][j] == Boundary(mode, 0, j))
  }

  /** Row 0 and column 0 of the two grids agree. */
  predicate SameBoundary(g: Grid, h: Grid, x: string, y: string)
    requires Shaped(g, x, y) && Shaped(h, x, y)
  {
    (forall i :: 0 <= i <= |x| ==> g[i][0] == h[i][0]) &&
    (forall j :: 0 <= j <= |y| ==> g[0][j] == h[0][j])
  }

  /** Interior cell (i, j) follows the recurrence from its neighbours. */
  predicate RecurrentAt(g: Grid, x: string, y: string, W: seq<seq<int>>, i: nat, j: nat)
    requires Shaped(g, x, y) && IsLetters(x) && IsLetters(y) && IsTable(W)
    requires 1 <= i <= |x| && 1 <= j <= |y|
  {
    g[i][j] == Next(g[i][j - 1], g[i - 1][j], g[i - 1][j - 1], Weight(W, x[i - 1], y[j - 1]))
  }

  /** Every interior cell follows the recurrence. */
  predicate Recurrent(g: Grid, x: string, y: string, W: seq<seq<int>>)
    requires Shaped(g, x, y) && IsLetters(x) && IsLetters(y) && IsTable(W)
  {
    forall i: nat, j: nat :: 1 <= i <= |x| && 1 <= j <= |y| ==> RecurrentAt(g, x, y, W, i, j)
  }

  /** The filled matrices of `mode`, cell by cell. */
  function Reference(mode: Mode, x: string, y: string, W: seq<seq<int>>): (g: Grid)
    requires IsLetters(x) && IsLetters(y) && IsTable(W)
    ensures Shaped(g, x, y)
    ensures forall i, j :: 0 <= i <= |x| && 0 <= j <= |y| ==> g[i][j] == Cell(mode, x, y, W, i, j)
  {
    seq(|x| + 1, i requires 0 <= i <= |x| =>
      seq(|y| + 1, j requires 0 <= j <= |y| => Cell(mode, x, y, W, i, j)))
  }

  /** The reference grid has the boundary of its mode and obeys the
      recurrence, so a forward pass can produce it. */
  lemma ReferenceIsFilled(mode: Mode, x: string, y: string, W: seq<seq<int>>)
    requires IsLetters(x) && IsLetters(y) && IsTable(W)
    ensures BoundaryOf(Reference(mode, x, y, W), x, y, mode)
    ensures Recurrent(Reference(mode, x, y, W), x, y, W)
  {
    var g := Reference(mode, x, y, W);
    forall i: nat, j: nat | 1 <= i <= |x| && 1 <= j <= |y|
      ensures RecurrentAt(g, x, y, W, i, j)
    {
    }
  }

  /** A grid with the boundary of `mode` that obeys the recurrence holds
      the reference value in every cell. */
  lemma {:induction false} CellDetermined(g: Grid, mode: Mode, x: string, y: string, W: seq<seq<int>>, i: nat, j: nat)
    requires IsLetters(x) && IsLetters(y) && IsTable(W) && Shaped(g, x, y)
    requires BoundaryOf(g, x, y, mode) && Recurrent(g, x, y, W)
    requires i <= |x| && j <= |y|
    ensures g[i][j] == Cell(mode, x, y, W, i, j)
    decreases i + j
  {
    if i > 0 && j > 0 {
      assert RecurrentAt(g, x, y, W, i, j);
      CellDetermined(g, mode, x, y, W, i, j - 1);
      CellDetermined(g, mode, x, y, W, i - 1, j);
      CellDetermined(g, mode, x, y, W, i - 1, j - 1);
    } else if i == 0 {
      assert g[0][j] == Boundary(mode, 0, j);
    } else {
      assert g[i][0] == Boundary(mode, i, 0);
    }
  }

  /** The boundary and the recurrence fix the whole grid: filling the same
      boundary twice gives the same matrices. */
  lemma GridDetermined(g: Grid, mode: Mode, x: string, y: string, W: seq<seq<int>>)
    requires IsLetters(x) && IsLetters(y) && IsTable(W) && Shaped(g, x, y)
    requires BoundaryOf(g, x, y, mode) && Recurrent(g, x, y, W)
    ensures g == Reference(mode, x, y, W)
  {
    var h := Reference(mode, x, y, W);
    forall i | 0 <= i <= |x|
      ensures g[i] == h[i]
    {
      forall j | 0 <= j <= |y|
        ensures g[i][j] == h[i][j]
      {
        CellDetermined(g, mode, x, y, W, i, j);
      }
    }
  }

  /** The cell with its two gap scores exchanged. */
  function Swap(s: Scores): Scores {
    Scores(s.gy, s.gx, s.m)
  }

  /** The grid of the problem with x and y exchanged, read off `g`:
      transposed, with the two gap matrices exchanged. */
  function SwapGrid(g: Grid, x: string, y: string): (h: Grid)
    requires Shaped(g, x, y)
    ensures Shaped(h, y, x)
    ensures forall j, i :: 0 <= j <= |y| && 0 <= i <= |x| ==> h[j][i] == Swap(g[i][j])
  {
    seq(|y| + 1, j requires 0 <= j <= |y| =>
      seq(|x| + 1, i requires 0 <= i <= |x| => Swap(g[i][j])))
  }

  /** Exchanging the roles of x and y (and transposing the table) keeps the
      boundary and the recurrence: the swapped grid is a filled grid of the
      swapped problem. */
  lemma SwappedGridIsFilled(g: Grid, mode: Mode, x: string, y: string, W: seq<seq<int>>, T: seq<seq<int>>)
    requires IsLetters(x) && IsLetters(y) && Transposed(W, T) && Shaped(g, x, y)
    requires BoundaryOf(g, x, y, mode) && Recurrent(g, x, y, W)
    ensures BoundaryOf(SwapGrid(g, x, y), y, x, mode)
    ensures Recurrent(SwapGrid(g, x, y), y, x, T)
  {
    var h := SwapGrid(g, x, y);
    forall j: nat, i: nat | 1 <= j <= |y| && 1 <= i <= |x|
      ensures RecurrentAt(h, y, x, T, j, i)
    {
      assert RecurrentAt(g, x, y, W, i, j);
      assert Weight(T, y[j - 1], x[i - 1]) == Weight(W, x[i - 1], y[j - 1]);
      NextSwap(g[i][j - 1], g[i - 1][j], g[i - 1][j - 1], Weight(W, x[i - 1], y[j - 1]));
    }
  }

  /** With a symmetric table, every cell of the swapped problem is the
      transposed cell with its gap scores exchanged; in particular the score
      at the far corner (the global score) does not depend on which
      sequence is called x. */
  lemma CellsSymmetric(mode: Mode, x: string, y: string, W: seq<seq<int>>)
    requires IsLetters(x) && IsLetters(y) && Transposed(W, W)
    ensures forall i, j :: 0 <= i <= |x| && 0 <= j <= |y| ==>
      Reference(mode, y, x, W)[j][i] == Swap(Reference(mode, x, y, W)[i][j])
    ensures Reference(mode, y, x, W)[|y|][|x|].m == Reference(mode, x, y, W)[|x|][|y|].m
  {
    var g := Reference(mode, x, y, W);
    ReferenceIsFilled(mode, x, y, W);
    SwappedGridIsFilled(g, mode, x, y, W, W);
    GridDetermined(SwapGrid(g, x, y), mode, y, x, W);
  }

  /** The recurrence treats the two gap matrices alike. */
  lemma NextSwap(left: Scores, up: Scores, diag: Scores, w: int)
    ensures Next(Swap(up), Swap(left), Swap(diag), w) == Swap(Next(left, up, diag, w))
  {
  }

  /** Each of the three scores of `s` is at least that of `t`. */
  predicate AtLeast(s: Scores, t: Scores) {
    s.gx >= t.gx && s.gy >= t.gy && s.m >= t.m
  }

  /** Free leading gaps never lower a score: every cell of the local
      matrices is at least the same cell in any other mode. */
  lemma {:induction false} LocalDominates(mode: Mode, x: string, y: string, W: seq<seq<int>>, i: nat, j: nat)
    requires IsLetters(x) && IsLetters(y) && IsTable(W)
    requires i <= |x| && j <= |y|
    ensures AtLeast(Cell(Local, x, y, W, i, j), Cell(mode, x, y, W, i, j))
    decreases i + j
  {
    if i > 0 && j > 0 {
      LocalDominates(mode, x, y, W, i, j - 1);
      LocalDominates(mode, x, y, W, i - 1, j);
      LocalDominates(mode, x, y, W, i - 1, j - 1);
      NextMonotone(Cell(Local, x, y, W, i, j - 1), Cell(Local, x, y, W, i - 1, j), Cell(Local, x, y, W, i - 1, j - 1),
                   Cell(mode, x, y, W, i, j - 1), Cell(mode, x, y, W, i - 1, j), Cell(mode, x, y, W, i - 1, j - 1),
                   Weight(W, x[i - 1], y[j - 1]));
    }
  }

  /** Raising any neighbour never lowers a cell. */
  lemma NextMonotone(l1: Scores, u1: Scores, d1: Scores, l2: Scores, u2: Scores, d2: Scores, w: int)
    requires AtLeast(l1, l2) && AtLeast(u1, u2) && AtLeast(d1, d2)
    ensures AtLeast(Next(l1, u1, d1, w), Next(l2, u2, d2, w))
  {
  }

  /** The semiglobal boundary charges -12 for the first gap column while the
      interior charges -14 for opening a gap after a paired column, and from
      index 45 on the boundary falls below the sentinel that global mode uses. */
  lemma SemiglobalBoundaryQuirks()
    ensures Boundary(Semiglobal, 0, 1).gx == -GapOpen
    ensures forall left: Scores, up: Scores, diag: Scores, w: int ::
      left.m - GapOpen >= left.gx && left.m >= left.gy ==>
        Next(left, up, diag, w).gx == left.m - GapOpen - GapExtend
    ensures forall k: nat :: 1 <= k < 45 ==> Unreachable < BoundaryGap(Semiglobal, k) < 0
    ensures forall k: nat :: k >= 45 ==> BoundaryGap(Semiglobal, k) < BoundaryGap(Global, k)
  {
  }
}
