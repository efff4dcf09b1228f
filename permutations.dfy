/**
 * The brute-force sort of `permutations.py`: walk the permutations of S in
 * the order `itertools.permutations` yields them, test each one for being
 * non-decreasing, and keep the last one that is. The list S is a parameter
 * (the script draws it at random).
 */
module Permutations {
  import opened Lists

  // ---------------------------------------------------------------------------
  // itertools.permutations
  // ---------------------------------------------------------------------------

  /** s without the element at position k. */
  function Remove(s: seq<int>, k: int): (r: seq<int>)
    requires 0 <= k < |s|
    ensures |r| == |s| - 1
    ensures multiset(s) == multiset(r) + multiset{s[k]}
  {
    assert s == s[..k] + [s[k]] + s[k + 1..];
    s[..k] + s[k + 1..]
  }

  /**
   * `itertools.permutations(s)`: the arrangements of the positions of s in
   * lexicographic order of positions; equal elements at different positions
   * give separate (equal) permutations. The empty list has one permutation,
   * the empty one.
   */
  function Perms(s: seq<int>): (ps: seq<seq<int>>)
    decreases |s|, 1, 0
    ensures |ps| > 0
  {
    if s == [] then [[]] else PermsFrom(s, 0)
  }

  /** The permutations of s whose first element comes from position k or later. */
  function PermsFrom(s: seq<int>, k: int): (ps: seq<seq<int>>)
    requires 0 <= k <= |s|
    decreases |s|, 0, |s| - k
    ensures |ps| > 0 <==> k < |s|
  {
    if k == |s| then [] else Prepend(s[k], Perms(Remove(s, k))) + PermsFrom(s, k + 1)
  }

  function Factorial(n: nat): nat {
    if n == 0 then 1 else n * Factorial(n - 1)
  }

  /** f added to itself m times. */
  function Times(m: nat, f: nat): nat {
    if m == 0 then 0 else f + Times(m - 1, f)
  }

  lemma {:induction false} TimesIsProduct(m: nat, f: nat)
    ensures Times(m, f) == m * f
  {
    if m > 0 {
      TimesIsProduct(m - 1, f);
    }
  }

  /** There are |s|! permutations, duplicates in s included. */
  lemma {:induction false} PermsCount(s: seq<int>)
    ensures |Perms(s)| == Factorial(|s|)
    decreases |s|, 1, 0
  {
    if s != [] {
      PermsFromCount(s, 0);
      TimesIsProduct(|s|, Factorial(|s| - 1));
    }
  }

  /** Each starting position contributes (|s| - 1)! permutations. */
  lemma {:induction false} PermsFromCount(s: seq<int>, k: int)
    requires 0 <= k <= |s| && s != []
    ensures |PermsFrom(s, k)| == Times(|s| - k, Factorial(|s| - 1))
    decreases |s|, 0, |s| - k
  {
    if k < |s| {
      var rest := Perms(Remove(s, k));
      assert PermsFrom(s, k) == Prepend(s[k], rest) + PermsFrom(s, k + 1);
      PermsCount(Remove(s, k));
      PermsFromCount(s, k + 1);
    }
  }

  /** Every permutation is a rearrangement of s. */
  lemma {:induction false} PermsSound(s: seq<int>)
    ensures forall p :: p in Perms(s) ==> multiset(p) == multiset(s)
    decreases |s|, 1, 0
  {
    if s != [] {
      PermsFromSound(s, 0);
    }
  }

  lemma {:induction false} PermsFromSound(s: seq<int>, k: int)
    requires 0 <= k <= |s|
    ensures forall p :: p in PermsFrom(s, k) ==> multiset(p) == multiset(s)
    decreases |s|, 0, |s| - k
  {
    if k < |s| {
      var rest := Perms(Remove(s, k));
      PermsSound(Remove(s, k));
      PermsFromSound(s, k + 1);
      assert PermsFrom(s, k) == Prepend(s[k], rest) + PermsFrom(s, k + 1);
      forall p | p in PermsFrom(s, k) ensures multiset(p) == multiset(s) {
        if p in Prepend(s[k], rest) {
          var q :| 0 <= q < |rest| && p == [s[k]] + rest[q];
          assert rest[q] in rest;
        } else {
          assert p in PermsFrom(s, k + 1);
        }
      }
    }
  }

  /** Dropping the first element removes one occurrence of it. */
  lemma MultisetTail(p: seq<int>)
    requires p != []
    ensures multiset(p[1..]) == multiset(p) - multiset{p[0]}
  {
    assert p == [p[0]] + p[1..];
  }

  /** Every rearrangement of s is among its permutations. */
  lemma {:induction false} PermsComplete(s: seq<int>, p: seq<int>)
    requires multiset(p) == multiset(s)
    ensures p in Perms(s)
    decreases |s|
  {
    assert |p| == |multiset(p)| == |s|;
    if s != [] {
      assert p == [p[0]] + p[1..];
      assert p[0] in multiset(s);
      var k :| 0 <= k < |s| && s[k] == p[0];
      MultisetTail(p);
      assert multiset(Remove(s, k)) == multiset(s) - multiset{s[k]};
      PermsComplete(Remove(s, k), p[1..]);
      var rest := Perms(Remove(s, k));
      var q :| 0 <= q < |rest| && rest[q] == p[1..];
      assert Prepend(s[k], rest)[q] == [s[k]] + p[1..] == p;
      PermsFromContains(s, 0, k, p);
    }
  }

  /** The block of permutations starting at position k lies within PermsFrom(s, j) for j <= k. */
  lemma {:induction false} PermsFromContains(s: seq<int>, j: int, k: int, p: seq<int>)
    requires 0 <= j <= k < |s| && p in Prepend(s[k], Perms(Remove(s, k)))
    ensures p in PermsFrom(s, j)
    decreases k - j
  {
    if j < k {
      PermsFromContains(s, j + 1, k, p);
    }
  }

  // ---------------------------------------------------------------------------
  // the is_ordered test
  // ---------------------------------------------------------------------------

  /** Each element is at most the next one. */
  predicate Ordered(p: seq<int>) {
    forall k :: 1 <= k < |p| ==> p[k - 1] <= p[k]
  }

  /** The inner loop of the script: `is_ordered` ends true exactly when p is ordered. */
  method CheckOrdered(p: seq<int>) returns (isOrdered: bool)
    ensures isOrdered <==> Ordered(p)
  {
    isOrdered := true;
    var i := 1;
    while i < |p|
      invariant 1 <= i && (p != [] ==> i <= |p|)
      invariant isOrdered <==> forall k :: 1 <= k < i && k < |p| ==> p[k - 1] <= p[k]
    {
      isOrdered := isOrdered && p[i - 1] <= p[i];
      i := i + 1;
    }
  }

  /** In an ordered sequence every element is at most every later one. */
  lemma {:induction false} OrderedStep(p: seq<int>, a: int, b: int)
    requires Ordered(p) && 0 <= a <= b < |p|
    ensures p[a] <= p[b]
    decreases b - a
  {
    if a < b {
      OrderedStep(p, a + 1, b);
    }
  }

  lemma OrderedTail(p: seq<int>)
    requires Ordered(p) && p != []
    ensures Ordered(p[1..])
  {
    forall k | 1 <= k < |p| - 1 ensures p[1..][k - 1] <= p[1..][k] {
      assert p[1..][k - 1] == p[k] && p[1..][k] == p[k + 1];
    }
  }

  /** Two ordered rearrangements of the same elements are equal. */
  lemma {:induction false} OrderedUnique(p: seq<int>, q: seq<int>)
    requires Ordered(p) && Ordered(q) && multiset(p) == multiset(q)
    ensures p == q
    decreases |p|
  {
    assert |p| == |multiset(p)| == |q|;
    if p != [] {
      assert p[0] in multiset(q) && q[0] in multiset(p);
      var a :| 0 <= a < |q| && q[a] == p[0];
      var b :| 0 <= b < |p| && p[b] == q[0];
      OrderedStep(p, 0, b);
      OrderedStep(q, 0, a);
      assert p[0] == q[0];
      MultisetTail(p);
      MultisetTail(q);
      OrderedTail(p);
      OrderedTail(q);
      OrderedUnique(p[1..], q[1..]);
    }
  }

  // ---------------------------------------------------------------------------
  // the reference order: insertion sort
  // ---------------------------------------------------------------------------

  function Insert(x: int, s: seq<int>): (r: seq<int>)
    requires Ordered(s)
    ensures Ordered(r) && multiset(r) == multiset(s) + multiset{x} && |r| == |s| + 1
    ensures r != [] && (r[0] == x || (s != [] && r[0] == s[0]))
  {
    if s == [] || x <= s[0] then
      [x] + s
    else
      var t := Insert(x, s[1..]);
      assert s == [s[0]] + s[1..];
      [s[0]] + t
  }

  /** `sorted(s)`: the ordered rearrangement of s. */
  function Sort(s: seq<int>): (r: seq<int>)
    ensures Ordered(r) && multiset(r) == multiset(s)
  {
    if s == [] then []
    else
      assert s == [s[0]] + s[1..];
      Insert(s[0], Sort(s[1..]))
  }

  // ---------------------------------------------------------------------------
  // the outer loop: keep the last ordered permutation
  // ---------------------------------------------------------------------------

  /**
   * The last ordered entry of ps, or [] (the initial `o`) when there is none:
   * either no entry is ordered and the result is [], or the result is an
   * ordered entry at a position after which no entry is ordered.
   */
  function LastOrderedIn(ps: seq<seq<int>>): (o: seq<int>)
    ensures || (o == [] && forall p :: 0 <= p < |ps| ==> !Ordered(ps[p]))
            || exists p :: 0 <= p < |ps| && ps[p] == o && Ordered(o) && forall q :: p < q < |ps| ==> !Ordered(ps[q])
  {
    if ps == [] then []
    else if Ordered(ps[|ps| - 1]) then ps[|ps| - 1]
    else
      var front := ps[..|ps| - 1];
      assert forall p :: 0 <= p < |front| ==> front[p] == ps[p];
      LastOrderedIn(front)
  }

  /** The value the script prints is `sorted(S)`, duplicates included. */
  lemma LastOrderedIsSorted(s: seq<int>)
    ensures LastOrderedIn(Perms(s)) == Sort(s)
  {
    PermsComplete(s, Sort(s));
    var t :| 0 <= t < |Perms(s)| && Perms(s)[t] == Sort(s);
    assert Ordered(Perms(s)[t]);
    var o := LastOrderedIn(Perms(s));
    var p :| 0 <= p < |Perms(s)| && Perms(s)[p] == o && Ordered(o);
    assert o in Perms(s);
    PermsSound(s);
    OrderedUnique(LastOrderedIn(Perms(s)), Sort(s));
  }

  /**
   * The script: o starts as [] and is reassigned to every ordered
   * permutation in turn. It ends as the last ordered permutation, which is
   * the ordered rearrangement of s, non-empty when s is.
   */
  method LastOrdered(s: seq<int>) returns (o: seq<int>)
    ensures o == LastOrderedIn(Perms(s))
    ensures Ordered(o) && multiset(o) == multiset(s) && o == Sort(s)
    ensures |o| == |s|
  {
    var perms := Perms(s);
    o := [];
    for n := 0 to |perms|
      invariant o == LastOrderedIn(perms[..n])
    {
      assert perms[..n + 1][..n] == perms[..n];
      var isOrdered := CheckOrdered(perms[n]);
      if isOrdered {
        o := perms[n];
      }
    }
    assert perms[..|perms|] == perms;
    LastOrderedIsSorted(s);
    assert |o| == |multiset(o)| == |s|;
  }
}
