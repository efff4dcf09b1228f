/**
 * Board geometry of the Minesweeper engine: the constants, the mapping from a
 * (column, row) pair to a flat board index, and the scan of a square's
 * neighbourhood that counts the mines around it.
 */
module Grid {
  import opened Wrappers

  const ROWS: int := 10
  const COLUMNS: int := 10
  const MINE_COUNT: int := 10
  const SQUARES: int := ROWS * COLUMNS

  /** A (column, row) pair, the form in which the engine passes squares around. */
  type Square = (int, int)

  predicate OnBoard(i: int, j: int) {
    0 <= i < COLUMNS && 0 <= j < ROWS
  }

  /** The flat index of square (i, j); meaningful only on the board. */
  function Flat(i: int, j: int): int {
    i * ROWS + j
  }

  /** `get_index`: the flat index of (i, j), or None when the square is off the board. */
  function GetIndex(i: int, j: int): (r: Option<int>)
    ensures r.None? <==> !OnBoard(i, j)
    ensures r.Some? ==> r.value == Flat(i, j) && 0 <= r.value < SQUARES
  {
    if 0 > i || i >= COLUMNS || 0 > j || j >= ROWS then None else Some(i * ROWS + j)
  }

  /** Distinct on-board squares never share a flat index. */
  lemma GetIndexInjective(i: int, j: int, i': int, j': int)
    requires GetIndex(i, j).Some? && GetIndex(i, j) == GetIndex(i', j')
    ensures i == i' && j == j'
  {
  }

  /** Every flat index below ROWS * COLUMNS is the index of exactly the square it decodes to. */
  lemma GetIndexOnto(k: int)
    requires 0 <= k < SQUARES
    ensures OnBoard(k / ROWS, k % ROWS) && GetIndex(k / ROWS, k % ROWS) == Some(k)
  {
  }

  /** Flat index k belongs to square (k / ROWS, k % ROWS) and to no other on-board square. */
  lemma SquareOfIndex(k: int)
    requires 0 <= k < SQUARES
    ensures OnBoard(k / ROWS, k % ROWS) && Flat(k / ROWS, k % ROWS) == k
    ensures forall a, b :: OnBoard(a, b) && Flat(a, b) == k ==> a == k / ROWS && b == k % ROWS
  {
  }

  /** Square (a, b) is one of the eight squares around (i, j). */
  predicate Adjacent(i: int, j: int, a: int, b: int) {
    -1 <= a - i <= 1 && -1 <= b - j <= 1 && (a, b) != (i, j)
  }

  /**
   * The offsets visited by the neighbour scan, `di` outer and `dj` inner, each
   * running over [-1, 0, 1]: (-1, -1), (-1, 0), (-1, 1), (0, -1), (0, 0), ...
   */
  function Neighbourhood(): seq<Square> {
    seq(9, OffsetAt)
  }

  /** The k-th offset of the scan: `di` is the (k / 3)-th and `dj` the (k % 3)-th entry of [-1, 0, 1]. */
  function OffsetAt(k: int): Square {
    (k / 3 - 1, k % 3 - 1)
  }

  predicate Distinct<T(==)>(s: seq<T>) {
    forall p, q :: 0 <= p < q < |s| ==> s[p] != s[q]
  }

  /** The first of distinct elements does not occur among the others. */
  lemma DistinctHead<T>(s: seq<T>)
    requires Distinct(s) && s != []
    ensures s[0] !in s[1..]
  {
    forall k | 0 <= k < |s| - 1 ensures s[1..][k] != s[0] {
      assert s[1..][k] == s[k + 1];
    }
  }

  /** A new element in front of distinct elements keeps them distinct. */
  lemma DistinctCons<T>(x: T, s: seq<T>)
    requires Distinct(s) && x !in s
    ensures Distinct([x] + s)
  {
    forall p, q | 0 <= p < q < |s| + 1 ensures ([x] + s)[p] != ([x] + s)[q] {
      if p == 0 {
        assert ([x] + s)[q] == s[q - 1];
      } else {
        assert ([x] + s)[p] == s[p - 1] && ([x] + s)[q] == s[q - 1];
      }
    }
  }

  /** What `adjacent_squares` returns: the mine count and the listed neighbours, in scan order. */
  datatype Adjacency = Adjacency(numMines: nat, squares: seq<Square>)

  /** The listed squares whose flat index holds a mine. */
  function MinedSquares(mines: set<int>, squares: seq<Square>): set<Square> {
    set sq | sq in squares && Flat(sq.0, sq.1) in mines
  }

  /**
   * One step of the loop in `adjacent_squares`: the neighbour at offset d when
   * the scan keeps it. The offset (0, 0) is skipped, and so is every neighbour
   * whose index is falsy: off the board (None) or, because `not 0` holds in
   * Python, flat index 0.
   */
  function Listed(i: int, j: int, d: Square): (r: Option<Square>)
    ensures r.Some? <==> d != (0, 0) && OnBoard(i + d.0, j + d.1) && Flat(i + d.0, j + d.1) != 0
    ensures r.Some? ==> r.value == (i + d.0, j + d.1)
  {
    var (di, dj) := d;
    var proposed := GetIndex(i + di, j + dj);
    if di == 0 && dj == 0 then None
    else if proposed.None? || proposed.value == 0 then None
    else Some((i + di, j + dj))
  }

  /** The loop of `adjacent_squares` over the offsets `offs`, in their order. */
  function Scan(mines: set<int>, i: int, j: int, offs: seq<Square>): (r: Adjacency)
    requires Offsets(offs)
    ensures |r.squares| <= |offs| && r.numMines <= |r.squares|
    ensures (0, 0) in offs ==> |r.squares| < |offs|
    ensures forall sq :: sq in r.squares ==>
      OnBoard(sq.0, sq.1) && Flat(sq.0, sq.1) != 0 && Adjacent(i, j, sq.0, sq.1) && (sq.0 - i, sq.1 - j) in offs
    ensures Distinct(r.squares)
  {
    if offs == [] then Adjacency(0, [])
    else
      var rest := Scan(mines, i, j, offs[1..]);
      match Listed(i, j, offs[0])
      case None => rest
      case Some(sq) =>
        DistinctHead(offs);
        assert (sq.0 - i, sq.1 - j) == offs[0];
        DistinctCons(sq, rest.squares);
        Adjacency(rest.numMines + (if Flat(sq.0, sq.1) in mines then 1 else 0), [sq] + rest.squares)
  }

  /** The neighbourhood offsets are distinct and each lies within one step. */
  predicate Offsets(offs: seq<Square>) {
    Distinct(offs) && forall d :: d in offs ==> -1 <= d.0 <= 1 && -1 <= d.1 <= 1
  }

  /**
   * `adjacent_squares(i, j)`: the on-board neighbours of (i, j) except the one
   * with flat index 0, and the number of mines among them.
   */
  function AdjacentSquares(mines: set<int>, i: int, j: int): (r: Adjacency)
    ensures |r.squares| <= 8 && r.numMines <= |r.squares|
    ensures forall sq :: sq in r.squares ==>
      Adjacent(i, j, sq.0, sq.1) && OnBoard(sq.0, sq.1) && Flat(sq.0, sq.1) != 0
    ensures Distinct(r.squares)
    ensures r.numMines == |MinedSquares(mines, r.squares)|
    ensures r.numMines == 0 <==> forall sq :: sq in r.squares ==> Flat(sq.0, sq.1) !in mines
  {
    NeighbourhoodOffsets();
    NeighbourhoodCount(mines, i, j);
    Scan(mines, i, j, Neighbourhood())
  }

  lemma NeighbourhoodOffsets()
    ensures Offsets(Neighbourhood()) && (0, 0) in Neighbourhood() && |Neighbourhood()| == 9
  {
    assert Neighbourhood()[4] == (0, 0);
  }

  /** `adjacent_squares` misses no on-board neighbour except the one with flat index 0. */
  lemma AdjacentSquaresComplete(mines: set<int>, i: int, j: int)
    ensures forall a, b :: Adjacent(i, j, a, b) && OnBoard(a, b) && Flat(a, b) != 0 ==>
      (a, b) in AdjacentSquares(mines, i, j).squares
  {
    forall a, b | Adjacent(i, j, a, b) && OnBoard(a, b) && Flat(a, b) != 0
      ensures (a, b) in AdjacentSquares(mines, i, j).squares
    {
      NeighbourListed(mines, i, j, a, b);
    }
  }

  /** One neighbour of the completeness statement above. */
  lemma NeighbourListed(mines: set<int>, i: int, j: int, a: int, b: int)
    requires Adjacent(i, j, a, b) && OnBoard(a, b) && Flat(a, b) != 0
    ensures (a, b) in AdjacentSquares(mines, i, j).squares
  {
    var d := (a - i, b - j);
    assert (i + d.0, j + d.1) == (a, b);
    NeighbourhoodOffsets();
    OffsetScanned(d);
    ScanComplete(mines, i, j, Neighbourhood(), d);
    assert AdjacentSquares(mines, i, j) == Scan(mines, i, j, Neighbourhood());
  }

  /** The scan order of the neighbourhood, written out. */
  lemma NeighbourhoodListed()
    ensures Neighbourhood() == [(-1, -1), (-1, 0), (-1, 1), (0, -1), (0, 0), (0, 1), (1, -1), (1, 0), (1, 1)]
  {
  }

  /** Every offset within one step is visited by the scan. */
  lemma OffsetScanned(d: Square)
    requires -1 <= d.0 <= 1 && -1 <= d.1 <= 1
    ensures d in Neighbourhood()
  {
    NeighbourhoodListed();
  }

  /** The mine count of the full scan is the number of listed squares holding a mine. */
  lemma NeighbourhoodCount(mines: set<int>, i: int, j: int)
    ensures Offsets(Neighbourhood())
    ensures var r := Scan(mines, i, j, Neighbourhood());
      && r.numMines == |MinedSquares(mines, r.squares)|
      && (r.numMines == 0 <==> forall sq :: sq in r.squares ==> Flat(sq.0, sq.1) !in mines)
  {
    NeighbourhoodOffsets();
    var r := Scan(mines, i, j, Neighbourhood());
    ScanCount(mines, i, j, Neighbourhood());
    if r.numMines == 0 {
      forall sq | sq in r.squares ensures Flat(sq.0, sq.1) !in mines {
        assert sq !in MinedSquares(mines, r.squares);
      }
    } else {
      assert MinedSquares(mines, r.squares) != {};
      var sq :| sq in MinedSquares(mines, r.squares);
    }
  }

  lemma {:induction false} ScanComplete(mines: set<int>, i: int, j: int, offs: seq<Square>, d: Square)
    requires Offsets(offs)
    requires d in offs && d != (0, 0) && OnBoard(i + d.0, j + d.1) && Flat(i + d.0, j + d.1) != 0
    ensures (i + d.0, j + d.1) in Scan(mines, i, j, offs).squares
  {
    if d != offs[0] {
      ScanComplete(mines, i, j, offs[1..], d);
    }
  }

  lemma {:induction false} ScanCount(mines: set<int>, i: int, j: int, offs: seq<Square>)
    requires Offsets(offs)
    ensures Scan(mines, i, j, offs).numMines == |MinedSquares(mines, Scan(mines, i, j, offs).squares)|
  {
    if offs != [] {
      ScanCount(mines, i, j, offs[1..]);
      var rest := Scan(mines, i, j, offs[1..]);
      match Listed(i, j, offs[0])
      case None =>
        assert Scan(mines, i, j, offs) == rest;
      case Some(sq) =>
        DistinctHead(offs);
        assert (sq.0 - i, sq.1 - j) == offs[0];
        assert sq !in rest.squares;
        assert Scan(mines, i, j, offs).squares == [sq] + rest.squares;
        MinedCons(mines, sq, rest.squares);
    }
  }

  lemma MinedCons(mines: set<int>, sq: Square, rest: seq<Square>)
    requires sq !in rest
    ensures |MinedSquares(mines, [sq] + rest)| == |MinedSquares(mines, rest)| + (if Flat(sq.0, sq.1) in mines then 1 else 0)
  {
    var extra: set<Square> := if Flat(sq.0, sq.1) in mines then {sq} else {};
    assert MinedSquares(mines, [sq] + rest) == MinedSquares(mines, rest) + extra;
  }

  /** The neighbour list of a square depends only on where the square is, not on the mines. */
  lemma {:induction false} ScanIgnoresMines(mines: set<int>, mines': set<int>, i: int, j: int, offs: seq<Square>)
    requires Offsets(offs)
    ensures Scan(mines, i, j, offs).squares == Scan(mines', i, j, offs).squares
  {
    if offs != [] {
      ScanIgnoresMines(mines, mines', i, j, offs[1..]);
    }
  }

  /**
   * The `if not proposed_index` test drops flat index 0, so a mine on square
   * (0, 0) is never counted by `adjacent_squares`: counting with or without it
   * gives the same number.
   */
  lemma OriginMineNeverCounted(mines: set<int>, i: int, j: int)
    ensures AdjacentSquares(mines, i, j).numMines == AdjacentSquares(mines - {0}, i, j).numMines
    ensures (0, 0) !in AdjacentSquares(mines, i, j).squares
  {
    NeighbourhoodOffsets();
    ScanIgnoresMines(mines, mines - {0}, i, j, Neighbourhood());
    var squares := AdjacentSquares(mines, i, j).squares;
    forall sq ensures sq in MinedSquares(mines, squares) <==> sq in MinedSquares(mines - {0}, squares) {
      if sq in squares {
        assert Flat(sq.0, sq.1) != 0;
      }
    }
    assert MinedSquares(mines, squares) == MinedSquares(mines - {0}, squares);
  }
}
