/** Character-level helpers for aligned output: the gap marker, runs of a
    repeated character, and removal of gap markers from an aligned row. */
module Text {

  /** The character written into an aligned row opposite a symbol of the
      other sequence. */
  const Gap: char := '-'

  /** Sequences accepted by the aligner: only the letters 'A'..'Z', which
      index the 26 x 26 substitution table. */
  predicate IsLetters(s: string) {
    forall k :: 0 <= k < |s| ==> 'A' <= s[k] <= 'Z'
  }

  /** `n` copies of `c`. */
  function Repeat(c: char, n: nat): (s: string)
    ensures |s| == n
    ensures forall k :: 0 <= k < n ==> s[k] == c
  {
    if n == 0 then [] else [c] + Repeat(c, n - 1)
  }

  /** Prepending two pieces one after the other prepends their
      concatenation. */
  lemma AppendAssoc(a: string, b: string, c: string)
    ensures a + (b + c) == (a + b) + c
  {
  }

  /** The row with every gap marker deleted. */
  function Ungap(s: string): (r: string)
    ensures |r| <= |s|
    ensures Gap !in r
  {
    if s == [] then []
    else (if s[0] == Gap then [] else [s[0]]) + Ungap(s[1..])
  }

  lemma {:induction false} UngapAppend(a: string, b: string)
    ensures Ungap(a + b) == Ungap(a) + Ungap(b)
  {
    if a != [] {
      var head := if a[0] == Gap then [] else [a[0]];
      assert (a + b)[0] == a[0] && (a + b)[1..] == a[1..] + b;
      assert Ungap(a + b) == head + Ungap(a[1..] + b);
      UngapAppend(a[1..], b);
      assert Ungap(a) == head + Ungap(a[1..]);
    } else {
      assert a + b == b;
    }
  }

  /** A row of letters has no gap markers to delete. */
  lemma {:induction false} UngapLetters(s: string)
    requires IsLetters(s)
    ensures Ungap(s) == s
  {
    if s != [] {
      UngapLetters(s[1..]);
    }
  }

  /** A run of gap markers disappears completely. */
  lemma {:induction false} UngapGaps(n: nat)
    ensures Ungap(Repeat(Gap, n)) == []
  {
    if n > 0 {
      assert Repeat(Gap, n)[1..] == Repeat(Gap, n - 1);
      UngapGaps(n - 1);
    }
  }
}
