/**
 * What the automated players read and compute: the knowledge grid `MATRIX`,
 * the local risk and safety estimates, the list of unexplored squares, and the
 * deterministic part of how the heuristic player (`forma1`) and the
 * brute-force player (`forma2`) choose a square.
 */
module Strategy {
  import opened Wrappers
  import opened Grid

  /** A cell of `MATRIX`: `'?'` until the square is revealed, then its neighbour mine count. */
  datatype Mark = Unknown | Known(count: nat)

  /** `MATRIX`, indexed `[column][row]`; the source builds it ROWS x COLUMNS, which agree. */
  type Matrix = seq<seq<Mark>>

  predicate Shaped(m: Matrix) {
    |m| == COLUMNS && forall c :: 0 <= c < |m| ==> |m[c]| == ROWS
  }

  function MarkAt(m: Matrix, sq: Square): Mark
    requires Shaped(m) && OnBoard(sq.0, sq.1)
  {
    m[sq.0][sq.1]
  }

  predicate AllOnBoard(squares: seq<Square>) {
    forall sq :: sq in squares ==> OnBoard(sq.0, sq.1)
  }

  /** How many of the listed squares are still `'?'` in the grid. */
  function CountUnknown(m: Matrix, squares: seq<Square>): (n: nat)
    requires Shaped(m) && AllOnBoard(squares)
    ensures n <= |squares|
    ensures n == 0 <==> forall sq :: sq in squares ==> MarkAt(m, sq).Known?
  {
    if squares == [] then 0
    else (if MarkAt(m, squares[0]).Unknown? then 1 else 0) + CountUnknown(m, squares[1..])
  }

  // ---------------------------------------------------------------------------
  // Exact fractions in place of the source's float divisions
  // ---------------------------------------------------------------------------

  /** The quotient num / den of two naturals; every use has den > 0. */
  datatype Frac = Frac(num: nat, den: nat)

  /** x < y as rationals, decided by cross-multiplication. */
  predicate Less(x: Frac, y: Frac) {
    x.num * y.den < y.num * x.den
  }

  lemma LessTransitive(x: Frac, y: Frac, z: Frac)
    requires x.den > 0 && y.den > 0 && z.den > 0
    requires Less(x, y) && Less(y, z)
    ensures Less(x, z)
  {
    assert x.num * y.den * z.den < y.num * x.den * z.den;
    assert y.num * z.den * x.den < z.num * y.den * x.den;
    assert x.num * z.den * y.den < z.num * x.den * y.den;
  }

  /** x < y and y <= z give x < z. */
  lemma LessThenAtMost(x: Frac, y: Frac, z: Frac)
    requires x.den > 0 && y.den > 0 && z.den > 0
    requires Less(x, y) && !Less(z, y)
    ensures Less(x, z)
  {
    assert x.num * y.den * z.den < y.num * x.den * z.den;
    assert y.num * z.den * x.den <= z.num * y.den * x.den;
    assert x.num * z.den * y.den < z.num * x.den * y.den;
  }

  // ---------------------------------------------------------------------------
  // calculate_risk and is_safe
  // ---------------------------------------------------------------------------

  /** The value of `calculate_risk`: `float('inf')` or a finite ratio. */
  datatype Risk = Infinite | Finite(ratio: Frac)

  /** Python's `<` on the risk values: infinity is below nothing, and every finite risk is below infinity. */
  predicate RiskLess(a: Risk, b: Risk) {
    a.Finite? && (b.Infinite? || Less(a.ratio, b.ratio))
  }

  /** `risk > 0.5`; infinity exceeds it. */
  predicate ExceedsHalf(r: Risk) {
    r.Infinite? || 2 * r.ratio.num > r.ratio.den
  }

  lemma RiskLessTransitive(a: Risk, b: Risk, c: Risk)
    requires a.Finite? ==> a.ratio.den > 0
    requires b.Finite? ==> b.ratio.den > 0
    requires c.Finite? ==> c.ratio.den > 0
    requires RiskLess(a, b) && RiskLess(b, c)
    ensures RiskLess(a, c)
  {
    if c.Finite? {
      LessTransitive(a.ratio, b.ratio, c.ratio);
    }
  }

  lemma RiskLessThenAtMost(a: Risk, b: Risk, c: Risk)
    requires a.Finite? ==> a.ratio.den > 0
    requires b.Finite? ==> b.ratio.den > 0
    requires c.Finite? ==> c.ratio.den > 0
    requires RiskLess(a, b) && !RiskLess(c, b)
    ensures RiskLess(a, c)
  {
    if c.Finite? {
      LessThenAtMost(a.ratio, b.ratio, c.ratio);
    }
  }

  /** The bounds of (a * b) / (c * c) when a <= c and 0 < b <= c. */
  lemma ProductBounds(a: nat, b: nat, c: nat)
    requires a <= c && 0 < b <= c
    ensures 0 <= a * b <= c * c && 0 < c * c
    ensures a * b == 0 <==> a == 0
  {
    assert a * b <= c * b;
    assert c * b <= c * c;
    assert a > 0 ==> a * b >= b;
  }

  /**
   * `calculate_risk(square)`: infinite when no neighbour is still `'?'`,
   * otherwise (mines / total) * (unexplored / total) over the listed
   * neighbours, kept as the single fraction (mines * unexplored) / total^2.
   */
  function CalculateRisk(mines: set<int>, m: Matrix, sq: Square): (r: Risk)
    requires Shaped(m)
    ensures var adj := AdjacentSquares(mines, sq.0, sq.1);
      && (r.Infinite? <==> forall a :: a in adj.squares ==> MarkAt(m, a).Known?)
      && (r.Finite? ==> 0 < r.ratio.den && r.ratio.num <= r.ratio.den)
      && (r.Finite? ==> (r.ratio.num == 0 <==> adj.numMines == 0))
  {
    var adj := AdjacentSquares(mines, sq.0, sq.1);
    var unexplored := CountUnknown(m, adj.squares);
    if unexplored == 0 then Infinite
    else
      var total := |adj.squares|;
      ProductBounds(adj.numMines, unexplored, total);
      Finite(Frac(adj.numMines * unexplored, total * total))
  }

  /** A risk from `CalculateRisk` never exceeds 1 and is the fraction of a positive denominator. */
  predicate WellFormedRisk(r: Risk) {
    r.Finite? ==> 0 < r.ratio.den && r.ratio.num <= r.ratio.den
  }

  /**
   * The loop of `is_safe` over the neighbours, returning False at the first
   * unexplored neighbour whose risk exceeds 0.5. The source also tests
   * `MATRIX[..] == 'X'`, which no grid cell ever holds; `Mark` has no such value.
   */
  function NoRiskyUnknown(mines: set<int>, m: Matrix, squares: seq<Square>): (ok: bool)
    requires Shaped(m) && AllOnBoard(squares)
    ensures ok <==> forall a :: a in squares && MarkAt(m, a).Unknown? ==> !ExceedsHalf(CalculateRisk(mines, m, a))
  {
    if squares == [] then true
    else if MarkAt(m, squares[0]).Unknown? && ExceedsHalf(CalculateRisk(mines, m, squares[0])) then false
    else NoRiskyUnknown(mines, m, squares[1..])
  }

  /**
   * `is_safe(square)`: no mine among the counted neighbours, and no unexplored
   * neighbour riskier than one half. It reads the true mine positions.
   */
  function IsSafe(mines: set<int>, m: Matrix, sq: Square): (safe: bool)
    requires Shaped(m)
    ensures safe ==> forall a, b :: Adjacent(sq.0, sq.1, a, b) && OnBoard(a, b) && Flat(a, b) != 0 ==> Flat(a, b) !in mines
    ensures safe <==>
      && (forall a :: a in AdjacentSquares(mines, sq.0, sq.1).squares ==> Flat(a.0, a.1) !in mines)
      && (forall a :: a in AdjacentSquares(mines, sq.0, sq.1).squares && MarkAt(m, a).Unknown? ==>
            !ExceedsHalf(CalculateRisk(mines, m, a)))
  {
    AdjacentSquaresComplete(mines, sq.0, sq.1);
    var adj := AdjacentSquares(mines, sq.0, sq.1);
    if adj.numMines > 0 then false
    else NoRiskyUnknown(mines, m, adj.squares)
  }

  /** A neighbour that is still unexplored and has infinite risk makes a square unsafe. */
  lemma InfiniteRiskNeighbourUnsafe(mines: set<int>, m: Matrix, sq: Square, a: Square)
    requires Shaped(m)
    requires a in AdjacentSquares(mines, sq.0, sq.1).squares
    requires MarkAt(m, a).Unknown? && CalculateRisk(mines, m, a).Infinite?
    ensures !IsSafe(mines, m, sq)
  {
  }

  // ---------------------------------------------------------------------------
  // The unexplored squares, in the source's scan order
  // ---------------------------------------------------------------------------

  /** Scan order: i outer, j inner, which is increasing flat index. */
  predicate InScanOrder(u: seq<Square>) {
    forall p, q :: 0 <= p < q < |u| ==> Flat(u[p].0, u[p].1) < Flat(u[q].0, u[q].1)
  }

  /** The squares marked `'?'` whose flat index is at least k, in scan order. */
  function UnexploredFrom(m: Matrix, k: int): (u: seq<Square>)
    requires Shaped(m) && 0 <= k <= SQUARES
    ensures forall sq :: sq in u ==> OnBoard(sq.0, sq.1) && k <= Flat(sq.0, sq.1) && MarkAt(m, sq).Unknown?
    ensures forall a, b :: OnBoard(a, b) && k <= Flat(a, b) && m[a][b].Unknown? ==> (a, b) in u
    ensures InScanOrder(u)
    decreases SQUARES - k
  {
    if k == SQUARES then []
    else
      var sq := (k / ROWS, k % ROWS);
      SquareOfIndex(k);
      var rest := UnexploredFrom(m, k + 1);
      if MarkAt(m, sq).Unknown? then [sq] + rest else rest
  }

  /** `[(i, j) for i in range(ROWS) for j in range(COLUMNS) if MATRIX[i][j] == '?']`. */
  function Unexplored(m: Matrix): (u: seq<Square>)
    requires Shaped(m)
    ensures forall sq :: sq in u <==> OnBoard(sq.0, sq.1) && MarkAt(m, sq).Unknown?
    ensures InScanOrder(u) && AllOnBoard(u)
  {
    UnexploredFrom(m, 0)
  }

  /** `[square for square in unexplored_squares if is_safe(square)]`. */
  function SafeAmong(mines: set<int>, m: Matrix, u: seq<Square>): (s: seq<Square>)
    requires Shaped(m)
    ensures forall sq :: sq in s <==> sq in u && IsSafe(mines, m, sq)
    ensures |s| <= |u|
  {
    if u == [] then []
    else (if IsSafe(mines, m, u[0]) then [u[0]] else []) + SafeAmong(mines, m, u[1..])
  }

  function SafeMoves(mines: set<int>, m: Matrix): (moves: seq<Square>)
    requires Shaped(m)
    ensures forall sq :: sq in moves <==> OnBoard(sq.0, sq.1) && MarkAt(m, sq).Unknown? && IsSafe(mines, m, sq)
  {
    SafeAmong(mines, m, Unexplored(m))
  }

  // ---------------------------------------------------------------------------
  // forma1: the greedy scan for the lowest score
  // ---------------------------------------------------------------------------

  /** `(num_mines + unexplored_adj_count) / (adj_count + 1)` for a square. */
  function Score(mines: set<int>, m: Matrix, sq: Square): (f: Frac)
    requires Shaped(m)
    ensures 0 < f.den <= 9 && f.num <= 2 * (f.den - 1)
  {
    var adj := AdjacentSquares(mines, sq.0, sq.1);
    Frac(adj.numMines + CountUnknown(m, adj.squares), |adj.squares| + 1)
  }

  /** The scores of the squares of `u`, position by position. */
  function Scores(mines: set<int>, m: Matrix, u: seq<Square>): (keys: seq<Frac>)
    requires Shaped(m)
    ensures |keys| == |u| && forall p :: 0 <= p < |keys| ==> keys[p].den > 0
  {
    if u == [] then [] else [Score(mines, m, u[0])] + Scores(mines, m, u[1..])
  }

  lemma {:induction false} ScoresAt(mines: set<int>, m: Matrix, u: seq<Square>, p: int)
    requires Shaped(m) && 0 <= p < |u|
    ensures Scores(mines, m, u)[p] == Score(mines, m, u[p])
  {
    if p > 0 {
      ScoresAt(mines, m, u[1..], p - 1);
    }
  }

  /**
   * Among the first n keys, position k holds the first lowest one: no key
   * there is strictly lower, and every key before position k is strictly higher.
   */
  ghost predicate FirstLowest(keys: seq<Frac>, n: int, k: int) {
    && 0 <= k < n <= |keys|
    && (forall p :: 0 <= p < n ==> !Less(keys[p], keys[k]))
    && (forall p :: 0 <= p < k ==> Less(keys[k], keys[p]))
  }

  /** `sq` is the square `forma1` settles on: the first lowest-scoring unexplored square. */
  ghost predicate LowestScoreChoice(mines: set<int>, m: Matrix, sq: Square)
    requires Shaped(m)
  {
    exists k :: 0 <= k < |Unexplored(m)| && Unexplored(m)[k] == sq &&
      FirstLowest(Scores(mines, m, Unexplored(m)), |Unexplored(m)|, k)
  }

  /**
   * The scan of `forma1` over the unexplored squares, keeping the first square
   * whose score is strictly below the best so far (which starts at infinity).
   */
  method ChooseLowestScore(mines: set<int>, m: Matrix) returns (best: Option<Square>)
    requires Shaped(m)
    ensures best.None? <==> Unexplored(m) == []
    ensures best.Some? ==> best.value in Unexplored(m) && LowestScoreChoice(mines, m, best.value)
  {
    ghost var pos;
    best, pos := LowestScoring(mines, m, Unexplored(m));
  }

  /** The loop of `forma1` over the candidate squares `u`. */
  method LowestScoring(mines: set<int>, m: Matrix, u: seq<Square>) returns (best: Option<Square>, ghost pos: int)
    requires Shaped(m)
    ensures best.None? <==> u == []
    ensures best.Some? ==> 0 <= pos < |u| && u[pos] == best.value && FirstLowest(Scores(mines, m, u), |u|, pos)
  {
    ghost var keys := Scores(mines, m, u);
    best := None;
    var bestScore: Option<Frac> := None;
    pos := 0;
    var n := 0;
    while n < |u|
      invariant 0 <= n <= |u|
      invariant best.None? <==> n == 0
      invariant best.None? <==> bestScore.None?
      invariant best.Some? ==> 0 <= pos < n && u[pos] == best.value && bestScore.value == keys[pos]
      invariant best.Some? ==> FirstLowest(keys, n, pos)
    {
      var square := u[n];
      var score := Score(mines, m, square);
      ScoresAt(mines, m, u, n);
      assert score == keys[n];
      if bestScore.None? || Less(score, bestScore.value) {
        if best.Some? {
          LowerKeyTakesOver(keys, n, pos);
        } else {
          assert !Less(score, score);
        }
        bestScore := Some(score);
        best := Some(square);
        pos := n;
      } else {
        HigherKeyKeepsLowest(keys, n, pos);
      }
      n := n + 1;
    }
  }

  /** A key strictly below the first lowest so far becomes the first lowest. */
  lemma LowerKeyTakesOver(keys: seq<Frac>, n: int, pos: int)
    requires n < |keys| && FirstLowest(keys, n, pos) && Less(keys[n], keys[pos])
    requires forall p :: 0 <= p < |keys| ==> keys[p].den > 0
    ensures FirstLowest(keys, n + 1, n)
  {
    forall p | 0 <= p < n ensures !Less(keys[p], keys[n]) {
      if Less(keys[p], keys[n]) {
        LessTransitive(keys[p], keys[n], keys[pos]);
      }
    }
    forall p | 0 <= p < n ensures Less(keys[n], keys[p]) {
      LessThenAtMost(keys[n], keys[pos], keys[p]);
    }
  }

  /** A key not strictly below the first lowest so far leaves it in place. */
  lemma HigherKeyKeepsLowest(keys: seq<Frac>, n: int, pos: int)
    requires n < |keys| && FirstLowest(keys, n, pos) && !Less(keys[n], keys[pos])
    ensures FirstLowest(keys, n + 1, pos)
  {
  }

  // ---------------------------------------------------------------------------
  // forma2: a safe square if there is one, else the least-risk square
  // ---------------------------------------------------------------------------

  /** The risks of the squares of `u`, position by position. */
  function Risks(mines: set<int>, m: Matrix, u: seq<Square>): (keys: seq<Risk>)
    requires Shaped(m)
    ensures |keys| == |u| && forall p :: 0 <= p < |keys| ==> WellFormedRisk(keys[p])
  {
    if u == [] then [] else [CalculateRisk(mines, m, u[0])] + Risks(mines, m, u[1..])
  }

  lemma {:induction false} RisksAt(mines: set<int>, m: Matrix, u: seq<Square>, p: int)
    requires Shaped(m) && 0 <= p < |u|
    ensures Risks(mines, m, u)[p] == CalculateRisk(mines, m, u[p])
  {
    if p > 0 {
      RisksAt(mines, m, u[1..], p - 1);
    }
  }

  /** Position k holds the first least risk of `keys`, the element Python's `min` returns. */
  ghost predicate FirstLeastRisk(keys: seq<Risk>, k: int) {
    && 0 <= k < |keys|
    && (forall p :: 0 <= p < |keys| ==> !RiskLess(keys[p], keys[k]))
    && (forall p :: 0 <= p < k ==> RiskLess(keys[k], keys[p]))
  }

  /**
   * `min(..., key=calculate_risk)` on the keys: left to right, the candidate
   * is replaced only by a strictly smaller key.
   */
  function LeastRiskPosition(keys: seq<Risk>): (k: nat)
    requires |keys| > 0 && forall p :: 0 <= p < |keys| ==> WellFormedRisk(keys[p])
    ensures FirstLeastRisk(keys, k)
  {
    if |keys| == 1 then 0
    else
      var c := LeastRiskPosition(keys[..|keys| - 1]);
      if RiskLess(keys[|keys| - 1], keys[c]) then
        LastRiskTakesOver(keys, c);
        |keys| - 1
      else
        LastRiskKeepsLeast(keys, c);
        c
  }

  /** A last key strictly below the first least of the others becomes the first least. */
  lemma LastRiskTakesOver(keys: seq<Risk>, c: int)
    requires |keys| > 1 && forall p :: 0 <= p < |keys| ==> WellFormedRisk(keys[p])
    requires FirstLeastRisk(keys[..|keys| - 1], c) && RiskLess(keys[|keys| - 1], keys[c])
    ensures FirstLeastRisk(keys, |keys| - 1)
  {
    var front, last := keys[..|keys| - 1], keys[|keys| - 1];
    assert keys[c] == front[c];
    forall p | 0 <= p < |keys| ensures !RiskLess(keys[p], last) {
      if p < |keys| - 1 && RiskLess(keys[p], last) {
        assert keys[p] == front[p];
        RiskLessTransitive(keys[p], last, keys[c]);
      }
    }
    forall p | 0 <= p < |keys| - 1 ensures RiskLess(last, keys[p]) {
      assert keys[p] == front[p];
      RiskLessThenAtMost(last, keys[c], keys[p]);
    }
  }

  /** A last key not strictly below the first least of the others leaves it in place. */
  lemma LastRiskKeepsLeast(keys: seq<Risk>, c: int)
    requires |keys| > 1
    requires FirstLeastRisk(keys[..|keys| - 1], c) && !RiskLess(keys[|keys| - 1], keys[c])
    ensures FirstLeastRisk(keys, c)
  {
    var front := keys[..|keys| - 1];
    assert forall p :: 0 <= p < |keys| - 1 ==> keys[p] == front[p];
  }

  /**
   * `sq` is a square `forma2` may play: a safe unexplored square when there is
   * one, otherwise the first least-risk unexplored square.
   */
  ghost predicate SafeOrLeastRiskChoice(mines: set<int>, m: Matrix, sq: Square)
    requires Shaped(m)
  {
    if SafeMoves(mines, m) != [] then sq in SafeMoves(mines, m)
    else
      exists k :: 0 <= k < |Unexplored(m)| && Unexplored(m)[k] == sq &&
        FirstLeastRisk(Risks(mines, m, Unexplored(m)), k)
  }

  /**
   * The choice `forma2` makes: when some unexplored square is safe, any one of
   * them (the source draws it with `random.choice`); otherwise the first
   * least-risk unexplored square. With nothing unexplored the source's `min`
   * raises ValueError; here the choice is None.
   */
  method ChooseSafeOrLeastRisk(mines: set<int>, m: Matrix) returns (choice: Option<Square>)
    requires Shaped(m)
    ensures choice.None? <==> Unexplored(m) == []
    ensures choice.Some? ==> choice.value in Unexplored(m) && SafeOrLeastRiskChoice(mines, m, choice.value)
  {
    var u := Unexplored(m);
    var safeMoves := SafeAmong(mines, m, u);
    if safeMoves != [] {
      var k :| 0 <= k < |safeMoves|;
      assert safeMoves[k] in safeMoves;
      return Some(safeMoves[k]);
    }
    if u == [] {
      return None;
    }
    var k := LeastRiskPosition(Risks(mines, m, u));
    return Some(u[k]);
  }
}
