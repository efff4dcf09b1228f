/**
 * The enumeration of `combinations.py`: for r from 1 to |S|, every tuple
 * `itertools.combinations(S, r)` yields, in the order it yields them. The list
 * S is a parameter (the script draws it at random); what the script prints is
 * the sequence of tuples `Printed(S)`.
 */
module Combinations {
  import opened Lists

  // ---------------------------------------------------------------------------
  // itertools.combinations
  // ---------------------------------------------------------------------------

  /**
   * `itertools.combinations(s, r)`: first every selection that takes s[0]
   * followed by the (r - 1)-selections of the rest, then the r-selections of
   * the rest. There is one empty selection, and none when r exceeds |s|.
   */
  function Combos(s: seq<int>, r: nat): (cs: seq<seq<int>>)
    decreases |s|
    ensures |cs| > 0 <==> r <= |s|
  {
    if r == 0 then [[]]
    else if |s| < r then []
    else Prepend(s[0], Combos(s[1..], r - 1)) + Combos(s[1..], r)
  }

  /** Every combination of size r has exactly r elements. */
  lemma {:induction false} CombosLength(s: seq<int>, r: nat, q: int)
    requires 0 <= q < |Combos(s, r)|
    ensures |Combos(s, r)[q]| == r
    decreases |s|
  {
    if r > 0 && |s| >= r {
      var taken, skipped := Combos(s[1..], r - 1), Combos(s[1..], r);
      assert Combos(s, r) == Prepend(s[0], taken) + skipped;
      if q < |taken| {
        assert Combos(s, r)[q] == [s[0]] + taken[q];
        CombosLength(s[1..], r - 1, q);
      } else {
        assert Combos(s, r)[q] == skipped[q - |taken|];
        CombosLength(s[1..], r, q - |taken|);
      }
    }
  }

  // ---------------------------------------------------------------------------
  // the positions a combination selects
  // ---------------------------------------------------------------------------

  /** Strictly increasing positions. */
  predicate Increasing(c: seq<int>) {
    forall a, b :: 0 <= a < b < |c| ==> c[a] < c[b]
  }

  /** Every position of c lies in [lo, n). */
  predicate Within(c: seq<int>, lo: int, n: int) {
    forall k :: 0 <= k < |c| ==> lo <= c[k] < n
  }

  /**
   * The r-element sets of positions in [lo, n), each as an increasing
   * sequence, in lexicographic order.
   */
  function Positions(lo: nat, n: nat, r: nat): seq<seq<int>>
    decreases n - lo
  {
    if r == 0 then [[]]
    else if n < lo + r then []
    else Prepend(lo, Positions(lo + 1, n, r - 1)) + Positions(lo + 1, n, r)
  }

  /** The elements of s at positions c, in that order. */
  function Select(s: seq<int>, c: seq<int>): (r: seq<int>)
    requires Within(c, 0, |s|)
    ensures |r| == |c|
  {
    seq(|c|, k requires 0 <= k < |c| => s[c[k]])
  }

  /** Each entry of Positions(lo, n, r) is r strictly increasing positions in [lo, n). */
  lemma {:induction false} PositionsShape(lo: nat, n: nat, r: nat, q: int)
    requires 0 <= q < |Positions(lo, n, r)|
    ensures var c := Positions(lo, n, r)[q]; |c| == r && Increasing(c) && Within(c, lo, n)
    decreases n - lo
  {
    if r > 0 {
      var taken, skipped := Positions(lo + 1, n, r - 1), Positions(lo + 1, n, r);
      assert Positions(lo, n, r) == Prepend(lo, taken) + skipped;
      if q < |taken| {
        assert Positions(lo, n, r)[q] == [lo] + taken[q];
        PositionsShape(lo + 1, n, r - 1, q);
        IncreasingCons(lo, taken[q], n);
      } else {
        assert Positions(lo, n, r)[q] == skipped[q - |taken|];
        PositionsShape(lo + 1, n, r, q - |taken|);
      }
    }
  }

  /** A position below all of t's, put in front of t, keeps the positions increasing. */
  lemma IncreasingCons(lo: int, t: seq<int>, n: int)
    requires Increasing(t) && Within(t, lo + 1, n) && lo < n
    ensures Increasing([lo] + t) && Within([lo] + t, lo, n)
  {
    var c := [lo] + t;
    forall a, b | 0 <= a < b < |c| ensures c[a] < c[b] {
      assert c[b] == t[b - 1];
      if a > 0 {
        assert c[a] == t[a - 1];
      }
    }
    forall k | 0 <= k < |c| ensures lo <= c[k] < n {
      if k > 0 {
        assert c[k] == t[k - 1];
      }
    }
  }

  /** Every r strictly increasing positions in [lo, n) are one entry of Positions(lo, n, r). */
  lemma PositionsComplete(lo: nat, n: nat, c: seq<int>)
    requires Increasing(c) && Within(c, lo, n)
    ensures c in Positions(lo, n, |c|)
  {
    var q := PositionIndex(lo, n, c);
  }

  /** The entry of Positions(lo, n, |c|) that holds c. */
  lemma {:induction false} PositionIndex(lo: nat, n: nat, c: seq<int>) returns (q: nat)
    requires Increasing(c) && Within(c, lo, n)
    ensures q < |Positions(lo, n, |c|)| && Positions(lo, n, |c|)[q] == c
    decreases n - lo
  {
    if c == [] {
      q := 0;
    } else {
      assert c[|c| - 1] < n;
      assert lo + |c| <= n by {
        IncreasingSpread(c, 0, |c| - 1);
      }
      var taken, skipped := Positions(lo + 1, n, |c| - 1), Positions(lo + 1, n, |c|);
      assert Positions(lo, n, |c|) == Prepend(lo, taken) + skipped;
      if c[0] == lo {
        var tail := c[1..];
        assert Increasing(tail) && Within(tail, lo + 1, n) by {
          assert forall k :: 0 <= k < |tail| ==> tail[k] == c[k + 1];
        }
        q := PositionIndex(lo + 1, n, tail);
        assert c == [lo] + tail;
        assert Prepend(lo, taken)[q] == c;
      } else {
        assert Within(c, lo + 1, n);
        var p := PositionIndex(lo + 1, n, c);
        q := |taken| + p;
      }
    }
  }

  /** Strictly increasing integers spread at least as far apart as their distance in the sequence. */
  lemma {:induction false} IncreasingSpread(c: seq<int>, a: int, b: int)
    requires Increasing(c) && 0 <= a <= b < |c|
    ensures c[b] - c[a] >= b - a
    decreases b - a
  {
    if a < b {
      IncreasingSpread(c, a + 1, b);
    }
  }

  /** Entry by entry, the tuples cs are the elements of s at the positions ps. */
  predicate Selects(s: seq<int>, cs: seq<seq<int>>, ps: seq<seq<int>>) {
    |cs| == |ps| && forall q :: 0 <= q < |ps| ==> Within(ps[q], 0, |s|) && cs[q] == Select(s, ps[q])
  }

  /** Taking s[lo] in front of every tuple matches putting position lo in front of every position set. */
  lemma SelectsPrepend(s: seq<int>, lo: int, cs: seq<seq<int>>, ps: seq<seq<int>>)
    requires 0 <= lo < |s| && Selects(s, cs, ps)
    ensures Selects(s, Prepend(s[lo], cs), Prepend(lo, ps))
  {
    var cs', ps' := Prepend(s[lo], cs), Prepend(lo, ps);
    forall q | 0 <= q < |ps'| ensures Within(ps'[q], 0, |s|) && cs'[q] == Select(s, ps'[q]) {
      var c := ps[q];
      assert ps'[q] == [lo] + c;
      assert Select(s, [lo] + c) == [s[lo]] + Select(s, c);
    }
  }

  lemma SelectsAppend(s: seq<int>, cs1: seq<seq<int>>, ps1: seq<seq<int>>, cs2: seq<seq<int>>, ps2: seq<seq<int>>)
    requires Selects(s, cs1, ps1) && Selects(s, cs2, ps2)
    ensures Selects(s, cs1 + cs2, ps1 + ps2)
  {
    var cs, ps := cs1 + cs2, ps1 + ps2;
    forall q | 0 <= q < |ps| ensures Within(ps[q], 0, |s|) && cs[q] == Select(s, ps[q]) {
      if q < |ps1| {
        assert cs[q] == cs1[q] && ps[q] == ps1[q];
      } else {
        assert cs[q] == cs2[q - |ps1|] && ps[q] == ps2[q - |ps1|];
      }
    }
  }

  /**
   * The tuples of `itertools.combinations(s[lo..], r)` are, in order, the
   * elements of s at the position sets Positions(lo, |s|, r).
   */
  lemma {:induction false} CombosSelect(s: seq<int>, lo: nat, r: nat)
    requires lo <= |s|
    ensures Selects(s, Combos(s[lo..], r), Positions(lo, |s|, r))
    decreases |s| - lo
  {
    if r == 0 {
      assert Select(s, []) == [];
    } else if |s| - lo >= r {
      var t := s[lo..];
      assert t[0] == s[lo] && t[1..] == s[lo + 1..];
      var taken, skipped := Combos(s[lo + 1..], r - 1), Combos(s[lo + 1..], r);
      var takenAt, skippedAt := Positions(lo + 1, |s|, r - 1), Positions(lo + 1, |s|, r);
      assert Combos(t, r) == Prepend(s[lo], taken) + skipped;
      assert Positions(lo, |s|, r) == Prepend(lo, takenAt) + skippedAt;
      CombosSelect(s, lo + 1, r - 1);
      CombosSelect(s, lo + 1, r);
      SelectsPrepend(s, lo, taken, takenAt);
      SelectsAppend(s, Prepend(s[lo], taken), Prepend(lo, takenAt), skipped, skippedAt);
    }
  }

  /**
   * `itertools.combinations(s, r)` yields one tuple per set of r positions:
   * the q-th tuple takes the elements of s at r strictly increasing positions,
   * keeping their order.
   */
  lemma OrderPreservingSelections(s: seq<int>, r: nat)
    ensures |Combos(s, r)| == |Positions(0, |s|, r)|
    ensures forall q :: 0 <= q < |Positions(0, |s|, r)| ==>
      var c := Positions(0, |s|, r)[q];
      |c| == r && Increasing(c) && Within(c, 0, |s|) && Combos(s, r)[q] == Select(s, c)
  {
    assert s[0..] == s;
    CombosSelect(s, 0, r);
    forall q | 0 <= q < |Positions(0, |s|, r)|
      ensures var c := Positions(0, |s|, r)[q]; |c| == r && Increasing(c) && Within(c, 0, |s|)
    {
      PositionsShape(0, |s|, r, q);
    }
  }

  // ---------------------------------------------------------------------------
  // counting
  // ---------------------------------------------------------------------------

  /** The binomial coefficient C(n, k), by Pascal's rule. */
  function Binom(n: nat, k: nat): nat {
    if k == 0 then 1
    else if n == 0 then 0
    else Binom(n - 1, k - 1) + Binom(n - 1, k)
  }

  function Pow2(n: nat): nat {
    if n == 0 then 1 else 2 * Pow2(n - 1)
  }

  /** C(n, k) is 0 when k exceeds n. */
  lemma {:induction false} BinomAbove(n: nat, k: nat)
    requires k > n
    ensures Binom(n, k) == 0
  {
    if n > 0 {
      BinomAbove(n - 1, k - 1);
      BinomAbove(n - 1, k);
    }
  }

  /** `itertools.combinations(s, r)` yields C(|s|, r) tuples. */
  lemma {:induction false} CombosCount(s: seq<int>, r: nat)
    ensures |Combos(s, r)| == Binom(|s|, r)
    decreases |s|
  {
    if r > 0 {
      if |s| < r {
        BinomAbove(|s|, r);
      } else {
        var t := s[1..];
        assert Combos(s, r) == Prepend(s[0], Combos(t, r - 1)) + Combos(t, r);
        CombosCount(t, r - 1);
        CombosCount(t, r);
        assert Binom(|s|, r) == Binom(|t|, r - 1) + Binom(|t|, r);
      }
    }
  }

  /** C(n, 0) + C(n, 1) + ... + C(n, m). */
  function BinomSum(n: nat, m: nat): nat {
    if m == 0 then Binom(n, 0) else BinomSum(n, m - 1) + Binom(n, m)
  }

  /** Pascal's rule summed: the first m + 1 entries of row n + 1 add up to those of row n and the first m of row n. */
  lemma {:induction false} BinomSumStep(n: nat, m: nat)
    ensures BinomSum(n + 1, m) == BinomSum(n, m) + (if m == 0 then 0 else BinomSum(n, m - 1))
  {
    if m > 0 {
      BinomSumStep(n, m - 1);
    }
  }

  /** Row n of Pascal's triangle adds up to 2^n. */
  lemma {:induction false} BinomRowSum(n: nat)
    ensures BinomSum(n, n) == Pow2(n)
  {
    if n > 0 {
      BinomRowSum(n - 1);
      BinomSumStep(n - 1, n);
      BinomAbove(n - 1, n);
    }
  }

  // ---------------------------------------------------------------------------
  // the script: r from 1 to |S|
  // ---------------------------------------------------------------------------

  /** The tuples the script prints, r from 1 to |s|. */
  function Printed(s: seq<int>): (ps: seq<seq<int>>)
    ensures |ps| > 0 <==> |s| > 0
  {
    PrintedFrom(s, 1)
  }

  /** The tuples printed for r, r + 1, ..., |s|. */
  function PrintedFrom(s: seq<int>, r: nat): (ps: seq<seq<int>>)
    decreases |s| + 1 - r
    ensures |ps| > 0 <==> r <= |s|
  {
    if r > |s| then [] else Combos(s, r) + PrintedFrom(s, r + 1)
  }

  /** The a-th tuple of ps, if there is one, has between lo and hi elements. */
  predicate LengthAt(ps: seq<seq<int>>, a: int, lo: int, hi: int) {
    0 <= a < |ps| ==> lo <= |ps[a]| <= hi
  }

  /** Every tuple of ps has between lo and hi elements. */
  ghost predicate LengthsWithin(ps: seq<seq<int>>, lo: int, hi: int) {
    forall a :: LengthAt(ps, a, lo, hi)
  }

  /** If ps has an a-th and a b-th tuple, with a <= b, the a-th is no longer. */
  predicate NoLongerAt(ps: seq<seq<int>>, a: int, b: int) {
    0 <= a <= b < |ps| ==> |ps[a]| <= |ps[b]|
  }

  /** No tuple of ps is longer than one that comes after it. */
  ghost predicate GroupedByLength(ps: seq<seq<int>>) {
    forall a, b :: NoLongerAt(ps, a, b)
  }

  /** All the tuples `itertools.combinations(s, r)` yields have r elements. */
  lemma CombosLengths(s: seq<int>, r: nat)
    ensures LengthsWithin(Combos(s, r), r, r)
  {
    forall q ensures LengthAt(Combos(s, r), q, r, r) {
      if 0 <= q < |Combos(s, r)| {
        CombosLength(s, r, q);
      }
    }
  }

  /** A block of r-tuples followed by grouped longer tuples is grouped. */
  lemma GroupedAppend(all: seq<seq<int>>, here: seq<seq<int>>, later: seq<seq<int>>, r: int, hi: int)
    requires all == here + later && LengthsWithin(here, r, r) && r <= hi
    requires LengthsWithin(later, r + 1, hi) && GroupedByLength(later)
    ensures LengthsWithin(all, r, hi) && GroupedByLength(all)
  {
    forall a ensures LengthAt(all, a, r, hi) {
      if 0 <= a < |here| {
        assert LengthAt(here, a, r, r) && all[a] == here[a];
      } else if |here| <= a < |all| {
        assert LengthAt(later, a - |here|, r + 1, hi) && all[a] == later[a - |here|];
      }
    }
    forall a, b ensures NoLongerAt(all, a, b) {
      if 0 <= a <= b < |all| {
        if b < |here| {
          assert LengthAt(here, a, r, r) && LengthAt(here, b, r, r);
          assert all[a] == here[a] && all[b] == here[b];
        } else if a < |here| {
          assert LengthAt(here, a, r, r) && LengthAt(later, b - |here|, r + 1, hi);
          assert all[a] == here[a] && all[b] == later[b - |here|];
        } else {
          assert NoLongerAt(later, a - |here|, b - |here|);
          assert all[a] == later[a - |here|] && all[b] == later[b - |here|];
        }
      }
    }
  }

  /** From r on, the printed tuples have between r and |s| elements, shorter ones first. */
  lemma {:induction false} PrintedFromShape(s: seq<int>, r: nat)
    ensures LengthsWithin(PrintedFrom(s, r), r, |s|) && GroupedByLength(PrintedFrom(s, r))
    decreases |s| + 1 - r
  {
    if r <= |s| {
      assert PrintedFrom(s, r) == Combos(s, r) + PrintedFrom(s, r + 1);
      CombosLengths(s, r);
      PrintedFromShape(s, r + 1);
      GroupedAppend(PrintedFrom(s, r), Combos(s, r), PrintedFrom(s, r + 1), r, |s|);
    }
  }

  /** The script never prints the empty tuple, and prints shorter tuples before longer ones. */
  lemma PrintedShape(s: seq<int>)
    ensures forall a :: 0 <= a < |Printed(s)| ==> 1 <= |Printed(s)[a]| <= |s|
    ensures forall a, b :: 0 <= a <= b < |Printed(s)| ==> |Printed(s)[a]| <= |Printed(s)[b]|
  {
    PrintedFromShape(s, 1);
    forall a | 0 <= a < |Printed(s)| ensures 1 <= |Printed(s)[a]| <= |s| {
      assert LengthAt(Printed(s), a, 1, |s|);
    }
    forall a, b | 0 <= a <= b < |Printed(s)| ensures |Printed(s)[a]| <= |Printed(s)[b]| {
      assert NoLongerAt(Printed(s), a, b);
    }
  }

  /** From r on, the number printed is the rest of row |s| of Pascal's triangle. */
  lemma {:induction false} PrintedFromCount(s: seq<int>, r: nat)
    requires 1 <= r <= |s| + 1
    ensures |PrintedFrom(s, r)| + BinomSum(|s|, r - 1) == BinomSum(|s|, |s|)
    decreases |s| + 1 - r
  {
    if r <= |s| {
      var here, later := Combos(s, r), PrintedFrom(s, r + 1);
      assert PrintedFrom(s, r) == here + later;
      PrintedFromCount(s, r + 1);
      assert |later| + BinomSum(|s|, r) == BinomSum(|s|, |s|);
      CombosCount(s, r);
      assert BinomSum(|s|, r) == BinomSum(|s|, r - 1) + |here|;
    }
  }

  /** The script prints 2^|s| - 1 tuples in all. */
  lemma PrintedCount(s: seq<int>)
    ensures |Printed(s)| == Pow2(|s|) - 1
  {
    PrintedFromCount(s, 1);
    BinomRowSum(|s|);
  }
}
