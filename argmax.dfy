/** The search that `max_idx` performs: a row-major scan of a rectangular
    table for the first value that is strictly above -99 and strictly above
    every value before it. */
module Argmax {

  /** The scan's running state: the position found so far and its value. */
  datatype Candidate = Candidate(i: int, j: int, v: int)

  /** Before any cell is seen: no position, threshold -99. */
  const Start: Candidate := Candidate(-1, -1, -99)

  /** Every row of `a` has `cols` entries. */
  predicate Rect(a: seq<seq<int>>, cols: nat) {
    forall r :: 0 <= r < |a| ==> |a[r]| == cols
  }

  /** Cell (r, c) comes before cell (p, q) in row-major order. */
  predicate Earlier(r: int, c: int, p: int, q: int) {
    r < p || (r == p && c < q)
  }

  /** No position yet, or a cell of the table. */
  predicate InRange(a: seq<seq<int>>, cols: nat, b: Candidate) {
    (b.i == -1 && b.j == -1) || (0 <= b.i < |a| && 0 <= b.j < cols)
  }

  /** The scan from cell (p, q) to the end, starting from state `b`. */
  function Scan(a: seq<seq<int>>, cols: nat, p: nat, q: nat, b: Candidate): (r: Candidate)
    requires Rect(a, cols) && p <= |a| && q <= cols
    requires InRange(a, cols, b)
    ensures InRange(a, cols, r)
    decreases |a| - p, cols - q
  {
    if p == |a| then b
    else if q == cols then Scan(a, cols, p + 1, 0, b)
    else Scan(a, cols, p, q + 1, if a[p][q] > b.v then Candidate(p, q, a[p][q]) else b)
  }

  /** The position `max_idx` returns. */
  function FirstMax(a: seq<seq<int>>, cols: nat): (r: (int, int))
    requires Rect(a, cols)
    ensures r == (-1, -1) || (0 <= r.0 < |a| && 0 <= r.1 < cols)
  {
    var b := Scan(a, cols, 0, 0, Start);
    (b.i, b.j)
  }

  /** What the returned position means: (-1, -1) exactly when no value
      exceeds -99; otherwise a cell above -99 that no value exceeds and that
      every earlier cell falls strictly below. */
  ghost predicate IsFirstMax(a: seq<seq<int>>, cols: nat, p: int, q: int)
    requires Rect(a, cols)
  {
    if p == -1 && q == -1 then
      forall r, c :: 0 <= r < |a| && 0 <= c < cols ==> a[r][c] <= Start.v
    else
      && 0 <= p < |a| && 0 <= q < cols && a[p][q] > Start.v
      && (forall r, c :: 0 <= r < |a| && 0 <= c < cols ==> a[r][c] <= a[p][q])
      && (forall r, c :: 0 <= r < |a| && 0 <= c < cols && Earlier(r, c, p, q) ==> a[r][c] < a[p][q])
  }

  /** The scan state `b` is the first maximum of the cells before (p, q). */
  ghost predicate Seen(a: seq<seq<int>>, cols: nat, p: int, q: int, b: Candidate)
    requires Rect(a, cols)
  {
    if b.i == -1 && b.j == -1 then
      b.v == Start.v &&
      forall r, c :: 0 <= r < |a| && 0 <= c < cols && Earlier(r, c, p, q) ==> a[r][c] <= Start.v
    else
      && 0 <= b.i < |a| && 0 <= b.j < cols && Earlier(b.i, b.j, p, q)
      && a[b.i][b.j] == b.v && b.v > Start.v
      && (forall r, c :: 0 <= r < |a| && 0 <= c < cols && Earlier(r, c, p, q) ==> a[r][c] <= b.v)
      && (forall r, c :: 0 <= r < |a| && 0 <= c < cols && Earlier(r, c, b.i, b.j) ==> a[r][c] < b.v)
  }

  lemma {:induction false} ScanFindsFirstMax(a: seq<seq<int>>, cols: nat, p: nat, q: nat, b: Candidate)
    requires Rect(a, cols) && p <= |a| && q <= cols
    requires InRange(a, cols, b) && Seen(a, cols, p, q, b)
    ensures var r := Scan(a, cols, p, q, b); IsFirstMax(a, cols, r.i, r.j)
    decreases |a| - p, cols - q
  {
    if p == |a| {
    } else if q == cols {
      ScanFindsFirstMax(a, cols, p + 1, 0, b);
    } else {
      var b' := if a[p][q] > b.v then Candidate(p, q, a[p][q]) else b;
      assert Seen(a, cols, p, q + 1, b');
      ScanFindsFirstMax(a, cols, p, q + 1, b');
    }
  }

  /** `FirstMax` returns the first strict maximum above -99, or (-1, -1). */
  lemma FirstMaxCorrect(a: seq<seq<int>>, cols: nat)
    requires Rect(a, cols)
    ensures IsFirstMax(a, cols, FirstMax(a, cols).0, FirstMax(a, cols).1)
  {
    ScanFindsFirstMax(a, cols, 0, 0, Start);
  }

  /** At most one position has that meaning. */
  lemma FirstMaxUnique(a: seq<seq<int>>, cols: nat, p: int, q: int, p': int, q': int)
    requires Rect(a, cols)
    requires IsFirstMax(a, cols, p, q) && IsFirstMax(a, cols, p', q')
    ensures p == p' && q == q'
  {
  }

  /** Hence `FirstMax` is the only position with that meaning. */
  lemma FirstMaxIs(a: seq<seq<int>>, cols: nat, p: int, q: int)
    requires Rect(a, cols) && IsFirstMax(a, cols, p, q)
    ensures FirstMax(a, cols) == (p, q)
  {
    FirstMaxCorrect(a, cols);
    FirstMaxUnique(a, cols, p, q, FirstMax(a, cols).0, FirstMax(a, cols).1);
  }
}
