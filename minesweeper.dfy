/**
 * The game state of the Minesweeper engine and the operations that change it:
 * revealing a square with its flood fill (`update_board`), showing the mines
 * after a loss (`reveal_mines`), the win test (`has_won`) and the two automated
 * players that pick a square and reveal it (`forma1`, `forma2`).
 */
module Minesweeper {
  import opened Wrappers
  import opened Grid
  import opened Strategy

  /** What a cell of `BOARD` shows. */
  datatype Cell =
    | Hidden        // not revealed yet
    | Blank         // a revealed square with no counted neighbour mine
    | Count(n: nat) // the coloured neighbour mine count of a revealed square
    | HitMine       // the red marker on the mine the player selected
    | RevealedMine  // the yellow marker on the other mines after a loss

  /** The cell `update_board` writes on a revealed safe square with n counted neighbour mines. */
  function Label(n: nat): (c: Cell)
    ensures c.Blank? <==> n == 0
    ensures c.Count? <==> n > 0
    ensures c.Count? ==> c.n == n
  {
    if n == 0 then Blank else Count(n)
  }

  /** The flat indices below n. */
  function IndicesBelow(n: nat): (r: set<int>)
    ensures forall k :: k in r <==> 0 <= k < n
    ensures |r| == n
  {
    if n == 0 then {} else IndicesBelow(n - 1) + {n - 1}
  }

  /** The flat indices of the board. */
  function AllIndices(): set<int> {
    IndicesBelow(SQUARES)
  }

  /** A set with no element is the empty set. */
  lemma EmptyIfNoElement(s: set<int>)
    requires forall x :: x !in s
    ensures s == {}
  {
    assert forall x :: x in s <==> x in {};
  }

  /** A non-empty set has an element. */
  lemma NonEmptyHasElement(s: set<int>)
    requires s != {}
    ensures exists x :: x in s
  {
    if forall x :: x !in s {
      EmptyIfNoElement(s);
      assert false;
    }
  }

  /** The elements of a sequence of indices, as a set. */
  function Elements(s: seq<int>): set<int> {
    set c | c in s
  }

  // ---------------------------------------------------------------------------
  // The state, by flat index
  // ---------------------------------------------------------------------------

  /** The grid entry of the square with flat index k. */
  function MarkOf(m: Matrix, k: int): Mark
    requires Shaped(m) && 0 <= k < SQUARES
  {
    m[k / ROWS][k % ROWS]
  }

  /** The neighbour mine count `adjacent_squares` reports for flat index k. */
  function TrueCount(mines: set<int>, k: int): nat
    requires 0 <= k < SQUARES
  {
    AdjacentSquares(mines, k / ROWS, k % ROWS).numMines
  }

  /**
   * What cell k of a state may show, and must show once visited: the grid and
   * the board record only true counts of visited safe squares, mine markers
   * stand only on mines, and a visited safe square outside `pending` shows its
   * count in both. The flood fill marks a square visited before revealing it;
   * that square is the pending one.
   */
  ghost predicate CellOk(board: seq<Cell>, mines: set<int>, extended: set<int>, matrix: Matrix, pending: set<int>, k: int)
    requires |board| == SQUARES && Shaped(matrix) && 0 <= k < SQUARES
  {
    && (MarkOf(matrix, k).Known? ==>
          k in extended && k !in mines && MarkOf(matrix, k) == Known(TrueCount(mines, k)))
    && (board[k].Blank? || board[k].Count? ==>
          k in extended && k !in mines && board[k] == Label(TrueCount(mines, k)))
    && (board[k].HitMine? || board[k].RevealedMine? ==> k in mines)
    && (k in extended && k !in mines && k !in pending ==>
          MarkOf(matrix, k) == Known(TrueCount(mines, k)) && board[k] == Label(TrueCount(mines, k)))
  }

  /** A well-shaped state whose every cell is as `CellOk` demands. */
  ghost predicate RevealedExcept(board: seq<Cell>, mines: set<int>, extended: set<int>, matrix: Matrix, pending: set<int>) {
    && |board| == SQUARES && Shaped(matrix)
    && (forall k :: k in mines ==> 0 <= k < SQUARES)
    && (forall k :: k in extended ==> 0 <= k < SQUARES)
    && forall k :: 0 <= k < SQUARES ==> CellOk(board, mines, extended, matrix, pending, k)
  }

  /** Cell k shows the same on the board and in the grid in two states. */
  ghost predicate Same(board0: seq<Cell>, matrix0: Matrix, board1: seq<Cell>, matrix1: Matrix, k: int)
    requires |board0| == |board1| == SQUARES && Shaped(matrix0) && Shaped(matrix1) && 0 <= k < SQUARES
  {
    board1[k] == board0[k] && MarkOf(matrix1, k) == MarkOf(matrix0, k)
  }

  /** Between two well-shaped states, only the cells of `changed` differ. */
  ghost predicate Frame(board0: seq<Cell>, matrix0: Matrix, board1: seq<Cell>, matrix1: Matrix, changed: set<int>) {
    && |board0| == |board1| == SQUARES && Shaped(matrix0) && Shaped(matrix1)
    && forall k :: 0 <= k < SQUARES && k !in changed ==> Same(board0, matrix0, board1, matrix1, k)
  }

  /** The grid entry of an on-board square, read through its flat index. */
  lemma MarkOfSquare(m: Matrix, i: int, j: int)
    requires Shaped(m) && OnBoard(i, j)
    ensures 0 <= Flat(i, j) < SQUARES && MarkOf(m, Flat(i, j)) == m[i][j]
    ensures Flat(i, j) / ROWS == i && Flat(i, j) % ROWS == j
  {
    SquareOfIndex(Flat(i, j));
  }

  /** In a state with nothing pending, a visited safe square shows its true count. */
  lemma ShowsTrueCount(board: seq<Cell>, mines: set<int>, extended: set<int>, matrix: Matrix, i: int, j: int)
    requires RevealedExcept(board, mines, extended, matrix, {}) && OnBoard(i, j)
    requires Flat(i, j) in extended && Flat(i, j) !in mines
    ensures var n := AdjacentSquares(mines, i, j).numMines;
      matrix[i][j] == Known(n) && board[Flat(i, j)] == Label(n)
  {
    MarkOfSquare(matrix, i, j);
    assert CellOk(board, mines, extended, matrix, {}, Flat(i, j));
  }

  /** Marking an index visited keeps the state as it was, with that index pending. */
  lemma MarkVisited(board: seq<Cell>, mines: set<int>, extended: set<int>, matrix: Matrix, index: int, pending: set<int>)
    requires RevealedExcept(board, mines, extended, matrix, pending) && 0 <= index < SQUARES
    ensures RevealedExcept(board, mines, extended + {index}, matrix, pending + {index})
  {
    forall k | 0 <= k < SQUARES ensures CellOk(board, mines, extended + {index}, matrix, pending + {index}, k) {
      assert CellOk(board, mines, extended, matrix, pending, k);
    }
  }

  /**
   * Writing the true count of a visited safe square into the grid and its
   * label on the board reveals it, and changes nothing else.
   */
  lemma RevealSafe(board: seq<Cell>, mines: set<int>, extended: set<int>, matrix: Matrix, i: int, j: int)
    requires OnBoard(i, j) && RevealedExcept(board, mines, extended, matrix, {Flat(i, j)})
    requires Flat(i, j) in extended && Flat(i, j) !in mines
    ensures var n := AdjacentSquares(mines, i, j).numMines;
      var board' := board[Flat(i, j) := Label(n)];
      var matrix' := matrix[i := matrix[i][j := Known(n)]];
      && RevealedExcept(board', mines, extended, matrix', {})
      && Frame(board, matrix, board', matrix', {Flat(i, j)})
  {
    var index, n := Flat(i, j), AdjacentSquares(mines, i, j).numMines;
    var board' := board[index := Label(n)];
    var matrix' := matrix[i := matrix[i][j := Known(n)]];
    MarkOfSquare(matrix', i, j);
    assert TrueCount(mines, index) == n;
    forall k | 0 <= k < SQUARES && k != index
      ensures Same(board, matrix, board', matrix', k)
    {
      SquareOfIndex(k);
    }
    forall k | 0 <= k < SQUARES ensures CellOk(board', mines, extended, matrix', {}, k) {
      if k != index {
        assert Same(board, matrix, board', matrix', k);
        assert CellOk(board, mines, extended, matrix, {index}, k);
      }
    }
  }

  /** A mine square pending in the flood fill needs no reveal; the hit marker keeps the state as it was. */
  lemma MineVisited(board: seq<Cell>, mines: set<int>, extended: set<int>, matrix: Matrix, index: int)
    requires RevealedExcept(board, mines, extended, matrix, {index}) && index in mines
    ensures RevealedExcept(board, mines, extended, matrix, {})
    ensures RevealedExcept(board[index := HitMine], mines, extended, matrix, {})
  {
    var board' := board[index := HitMine];
    forall k | 0 <= k < SQUARES
      ensures CellOk(board, mines, extended, matrix, {}, k)
      ensures CellOk(board', mines, extended, matrix, {}, k)
    {
      assert CellOk(board, mines, extended, matrix, {index}, k);
    }
  }

  /** The revealed-mine marker on an unvisited mine keeps the state as it was. */
  lemma MineRevealed(board: seq<Cell>, mines: set<int>, extended: set<int>, matrix: Matrix, index: int)
    requires RevealedExcept(board, mines, extended, matrix, {}) && index in mines
    ensures RevealedExcept(board[index := RevealedMine], mines, extended, matrix, {})
  {
    var board' := board[index := RevealedMine];
    forall k | 0 <= k < SQUARES ensures CellOk(board', mines, extended, matrix, {}, k) {
      assert CellOk(board, mines, extended, matrix, {}, k);
    }
  }

  /** A state with nothing pending also satisfies the invariant with one index pending. */
  lemma AddPending(board: seq<Cell>, mines: set<int>, extended: set<int>, matrix: Matrix, index: int)
    requires RevealedExcept(board, mines, extended, matrix, {})
    ensures RevealedExcept(board, mines, extended, matrix, {index})
  {
    forall k | 0 <= k < SQUARES ensures CellOk(board, mines, extended, matrix, {index}, k) {
      assert CellOk(board, mines, extended, matrix, {}, k);
    }
  }

  /** Two frames in a row are one frame covering both changed sets. */
  lemma FrameCompose(board0: seq<Cell>, matrix0: Matrix, board1: seq<Cell>, matrix1: Matrix,
                     board2: seq<Cell>, matrix2: Matrix, changed1: set<int>, changed2: set<int>, changed: set<int>)
    requires Frame(board0, matrix0, board1, matrix1, changed1)
    requires Frame(board1, matrix1, board2, matrix2, changed2)
    requires changed1 + changed2 <= changed
    ensures Frame(board0, matrix0, board2, matrix2, changed)
  {
    forall k | 0 <= k < SQUARES && k !in changed ensures Same(board0, matrix0, board2, matrix2, k) {
      assert Same(board0, matrix0, board1, matrix1, k) && Same(board1, matrix1, board2, matrix2, k);
    }
  }

  /** Nothing changes between a state and itself. */
  lemma FrameSelf(board: seq<Cell>, matrix: Matrix)
    requires |board| == SQUARES && Shaped(matrix)
    ensures Frame(board, matrix, board, matrix, {})
  {
    forall k | 0 <= k < SQUARES ensures Same(board, matrix, board, matrix, k) { }
  }

  /** A frame stays a frame when the changed set grows. */
  lemma FrameWiden(board0: seq<Cell>, matrix0: Matrix, board1: seq<Cell>, matrix1: Matrix, changed: set<int>, changed': set<int>)
    requires Frame(board0, matrix0, board1, matrix1, changed) && changed <= changed'
    ensures Frame(board0, matrix0, board1, matrix1, changed')
  {
    forall k | 0 <= k < SQUARES && k !in changed' ensures Same(board0, matrix0, board1, matrix1, k) {
      assert k !in changed;
    }
  }

  /**
   * From (e0, b0, m0) to (e, b, m) the squares of `swept` were visited, each
   * once, none visited before, none a mine, none (0, 0), and only their cells
   * changed.
   */
  ghost predicate Swept(e0: set<int>, e: set<int>, swept: seq<int>, mines: set<int>,
                        b0: seq<Cell>, m0: Matrix, b: seq<Cell>, m: Matrix)
  {
    && e == e0 + Elements(swept) && Distinct(swept)
    && (forall c :: c in swept ==> c !in e0 && c !in mines && c != 0)
    && Frame(b0, m0, b, m, e - e0)
  }

  /** The squares before position s were visited, and now the one at s is too. */
  lemma VisitedPrefix(squares: seq<Square>, s: int, e1: set<int>, e2: set<int>)
    requires 0 <= s < |squares|
    requires forall t :: 0 <= t < s ==> Flat(squares[t].0, squares[t].1) in e1
    requires e1 <= e2 && Flat(squares[s].0, squares[s].1) in e2
    ensures forall t :: 0 <= t <= s ==> Flat(squares[t].0, squares[t].1) in e2
  {
  }

  /** Appending the squares of one more pass to those of the earlier passes. */
  lemma CascadeStep(e0: set<int>, e1: set<int>, e2: set<int>, earlier: seq<int>, visited: seq<int>, mines: set<int>,
                    b0: seq<Cell>, m0: Matrix, b1: seq<Cell>, m1: Matrix, b2: seq<Cell>, m2: Matrix)
    requires Swept(e0, e1, earlier, mines, b0, m0, b1, m1)
    requires Swept(e1, e2, visited, mines, b1, m1, b2, m2)
    ensures Swept(e0, e2, earlier + visited, mines, b0, m0, b2, m2)
  {
    FrameCompose(b0, m0, b1, m1, b2, m2, e1 - e0, e2 - e1, e2 - e0);
    DistinctConcat(earlier, visited);
  }

  /** What a pass that recursed into `aindex` leaves behind, in terms of the squares it lists. */
  lemma VisitFacts(e0: set<int>, aindex: int, e1: set<int>, sub: seq<int>, mines: set<int>,
                   b0: seq<Cell>, m0: Matrix, b1: seq<Cell>, m1: Matrix)
    requires aindex !in e0 && aindex !in mines && aindex != 0
    requires e1 == e0 + {aindex} + {aindex} + Elements(sub)
    requires Distinct(sub)
    requires forall c :: c in sub ==> c !in e0 + {aindex} && c != aindex && c !in mines && c != 0
    requires Frame(b0, m0, b1, m1, (e1 - (e0 + {aindex})) + {aindex})
    ensures Swept(e0, e1, [aindex] + sub, mines, b0, m0, b1, m1)
  {
    FrameWiden(b0, m0, b1, m1, (e1 - (e0 + {aindex})) + {aindex}, e1 - e0);
    DistinctConcat([aindex], sub);
  }

  /**
   * What `update_board(square, True)` leaves behind, from the state b0, m0,
   * e0 to the state b, m, e: the square is on the board and visited; the
   * result is a hit exactly when it is a mine, and then the square shows the
   * hit marker and nothing else changes. A safe square shows its true count
   * in the grid and on the board. With mines around it nothing else is
   * visited; with none, every listed neighbour is visited, and `cascade`,
   * the squares of the recursive calls, is the flood fill from the square:
   * new, distinct, safe squares, each reached from the square, and closed.
   * Only the square and the newly visited squares change.
   */
  ghost predicate Selected(mines: set<int>, b0: seq<Cell>, m0: Matrix, e0: set<int>,
                           b: seq<Cell>, m: Matrix, e: set<int>, sq: Square, hit: bool, cascade: seq<int>) {
    var (i, j) := sq;
    && OnBoard(i, j) && Flat(i, j) in e && e0 <= e
    && var n := TrueCount(mines, Flat(i, j));
    && (hit <==> Flat(i, j) in mines)
    && |b0| == |b| == SQUARES && Shaped(m)
    && (hit ==> b == b0[Flat(i, j) := HitMine] && m == m0 && e == e0 + {Flat(i, j)})
    && (!hit ==> m[i][j] == Known(n) && b[Flat(i, j)] == Label(n))
    && (!hit && n == 0 ==> forall a :: a in AdjacentSquares(mines, i, j).squares ==> Flat(a.0, a.1) in e)
    && e == e0 + {Flat(i, j)} + Elements(cascade)
    && (hit || n > 0 ==> cascade == [])
    && Distinct(cascade)
    && (forall c :: c in cascade ==> c !in e0 && c != Flat(i, j) && c !in mines && c != 0)
    && Reached(mines, Flat(i, j), cascade) && Closed(mines, e, cascade)
    && Frame(b0, m0, b, m, (e - e0) + {Flat(i, j)})
  }

  // ---------------------------------------------------------------------------
  // The reach of the flood fill
  // ---------------------------------------------------------------------------

  /** `adjacent_squares` lists the square with flat index c as a neighbour of the square with flat index k. */
  ghost predicate Lists(mines: set<int>, k: int, c: int) {
    && 0 <= k < SQUARES
    && exists sq :: sq in AdjacentSquares(mines, k / ROWS, k % ROWS).squares && Flat(sq.0, sq.1) == c
  }

  /** If swept[t] has no counted mine around it, every neighbour listed for it is in e. */
  ghost predicate ClosedAt(mines: set<int>, e: set<int>, swept: seq<int>, t: int) {
    0 <= t < |swept| && 0 <= swept[t] < SQUARES && TrueCount(mines, swept[t]) == 0 ==>
      forall sq :: sq in AdjacentSquares(mines, swept[t] / ROWS, swept[t] % ROWS).squares ==> Flat(sq.0, sq.1) in e
  }

  /** The flood fill went on from every square of `swept` with no counted mine around it. */
  ghost predicate Closed(mines: set<int>, e: set<int>, swept: seq<int>) {
    forall t :: ClosedAt(mines, e, swept, t)
  }

  /**
   * swept[t] is linked from `origin`, or from an earlier square of `swept`
   * from which the chain goes on.
   */
  ghost predicate ChainAt(link: (int, int) -> bool, onward: int -> bool, origin: int, swept: seq<int>, t: int) {
    0 <= t < |swept| ==>
      || link(origin, swept[t])
      || exists u :: 0 <= u < t && onward(swept[u]) && link(swept[u], swept[t])
  }

  /** Every square of `swept` is linked from `origin` or from an earlier square of `swept` that goes on. */
  ghost predicate Chain(link: (int, int) -> bool, onward: int -> bool, origin: int, swept: seq<int>) {
    forall t :: ChainAt(link, onward, origin, swept, t)
  }

  /** The square with flat index k is on the board and has no counted mine around it. */
  ghost predicate NoneAround(mines: set<int>, k: int) {
    0 <= k < SQUARES && TrueCount(mines, k) == 0
  }

  /**
   * The flood fill from `origin` reached every square of `swept`, in the
   * order listed: each one is listed as a neighbour of `origin`, or of an
   * earlier square of `swept` with no counted mine around it.
   */
  ghost predicate Reached(mines: set<int>, origin: int, swept: seq<int>) {
    Chain((k, c) => Lists(mines, k, c), k => NoneAround(mines, k), origin, swept)
  }

  /** A chain from a, entered from `origin` through a link to a. */
  lemma ChainCons(link: (int, int) -> bool, onward: int -> bool, origin: int, a: int, sub: seq<int>)
    requires link(origin, a) && (sub != [] ==> onward(a)) && Chain(link, onward, a, sub)
    ensures Chain(link, onward, origin, [a] + sub)
  {
    var s := [a] + sub;
    forall t ensures ChainAt(link, onward, origin, s, t) {
      if t == 0 {
        assert s[0] == a;
      } else if 1 <= t < |s| {
        assert s[t] == sub[t - 1] && s[0] == a;
        assert ChainAt(link, onward, a, sub, t - 1);
        if !link(a, sub[t - 1]) {
          var u :| 0 <= u < t - 1 && onward(sub[u]) && link(sub[u], sub[t - 1]);
          assert s[u + 1] == sub[u];
        }
      }
    }
  }

  /** Two chains from the same origin, one after the other. */
  lemma ChainConcat(link: (int, int) -> bool, onward: int -> bool, origin: int, earlier: seq<int>, later: seq<int>)
    requires Chain(link, onward, origin, earlier) && Chain(link, onward, origin, later)
    ensures Chain(link, onward, origin, earlier + later)
  {
    var s := earlier + later;
    forall t ensures ChainAt(link, onward, origin, s, t) {
      if 0 <= t < |earlier| {
        assert s[t] == earlier[t];
        assert ChainAt(link, onward, origin, earlier, t);
        if !link(origin, earlier[t]) {
          var u :| 0 <= u < t && onward(earlier[u]) && link(earlier[u], earlier[t]);
          assert s[u] == earlier[u];
        }
      } else if |earlier| <= t < |s| {
        var t2 := t - |earlier|;
        assert s[t] == later[t2];
        assert ChainAt(link, onward, origin, later, t2);
        if !link(origin, later[t2]) {
          var u :| 0 <= u < t2 && onward(later[u]) && link(later[u], later[t2]);
          assert s[u + |earlier|] == later[u];
        }
      }
    }
  }

  /** A square of the board lists its neighbours under its flat index. */
  lemma ListedNeighbour(mines: set<int>, i: int, j: int, sq: Square)
    requires OnBoard(i, j) && sq in AdjacentSquares(mines, i, j).squares
    ensures Lists(mines, Flat(i, j), Flat(sq.0, sq.1))
  {
    SquareOfIndex(Flat(i, j));
    assert Flat(i, j) / ROWS == i && Flat(i, j) % ROWS == j;
  }

  /** An empty sweep reaches nothing and leaves nothing open. */
  lemma NothingSwept(mines: set<int>, e: set<int>, origin: int)
    ensures Closed(mines, e, []) && Reached(mines, origin, [])
  {
    forall t ensures ClosedAt(mines, e, [], t) { }
    var link, onward := (k, c) => Lists(mines, k, c), k => NoneAround(mines, k);
    forall t ensures ChainAt(link, onward, origin, [], t) { }
  }

  /** Visited squares stay visited, so a closed sweep stays closed. */
  lemma ClosedGrow(mines: set<int>, e: set<int>, e': set<int>, swept: seq<int>)
    requires Closed(mines, e, swept) && e <= e'
    ensures Closed(mines, e', swept)
  {
    forall t ensures ClosedAt(mines, e', swept, t) {
      assert ClosedAt(mines, e, swept, t);
    }
  }

  /** One pass, into square a and then the sweep `sub` of its own reveal, leaves nothing open. */
  lemma PassClosed(mines: set<int>, e: set<int>, a: int, sub: seq<int>)
    requires 0 <= a < SQUARES
    requires TrueCount(mines, a) == 0 ==>
      forall sq :: sq in AdjacentSquares(mines, a / ROWS, a % ROWS).squares ==> Flat(sq.0, sq.1) in e
    requires Closed(mines, e, sub)
    ensures Closed(mines, e, [a] + sub)
  {
    var s := [a] + sub;
    forall t ensures ClosedAt(mines, e, s, t) {
      if t == 0 {
        assert s[0] == a;
      } else if 1 <= t < |s| {
        assert s[t] == sub[t - 1];
        assert ClosedAt(mines, e, sub, t - 1);
      }
    }
  }

  /** One pass, into square a and then the sweep `sub` of its own reveal, seen from the square that lists a. */
  lemma PassReached(mines: set<int>, origin: int, a: int, sub: seq<int>)
    requires Lists(mines, origin, a) && 0 <= a < SQUARES
    requires sub != [] ==> TrueCount(mines, a) == 0
    requires Reached(mines, a, sub)
    ensures Reached(mines, origin, [a] + sub)
  {
    ChainCons((k, c) => Lists(mines, k, c), k => NoneAround(mines, k), origin, a, sub);
  }

  /** The passes so far followed by one more pass leave nothing open. */
  lemma SweepsClosed(mines: set<int>, e: set<int>, earlier: seq<int>, visited: seq<int>)
    requires Closed(mines, e, earlier) && Closed(mines, e, visited)
    ensures Closed(mines, e, earlier + visited)
  {
    var s := earlier + visited;
    forall t ensures ClosedAt(mines, e, s, t) {
      if 0 <= t < |earlier| {
        assert s[t] == earlier[t];
        assert ClosedAt(mines, e, earlier, t);
      } else if |earlier| <= t < |s| {
        assert s[t] == visited[t - |earlier|];
        assert ClosedAt(mines, e, visited, t - |earlier|);
      }
    }
  }

  /** The passes so far followed by one more pass, all seen from the same origin. */
  lemma SweepsReached(mines: set<int>, origin: int, earlier: seq<int>, visited: seq<int>)
    requires Reached(mines, origin, earlier) && Reached(mines, origin, visited)
    ensures Reached(mines, origin, earlier + visited)
  {
    ChainConcat((k, c) => Lists(mines, k, c), k => NoneAround(mines, k), origin, earlier, visited);
  }

  /** Two sequences of distinct indices with no index in common concatenate to one. */
  lemma DistinctConcat(a: seq<int>, b: seq<int>)
    requires Distinct(a) && Distinct(b)
    requires forall c :: c in b ==> c !in a
    ensures Distinct(a + b)
    ensures Elements(a + b) == Elements(a) + Elements(b)
  {
    var s := a + b;
    forall p, q | 0 <= p < q < |s| ensures s[p] != s[q] {
      if q < |a| {
      } else if p < |a| {
        assert s[q] in b;
      } else {
        assert s[p] == b[p - |a|] && s[q] == b[q - |a|];
      }
    }
  }

  /** The module globals `BOARD`, `MINES`, `EXTENDED` and `MATRIX` of one game. */
  class Game {
    var board: seq<Cell>
    var mines: set<int>
    var extended: set<int>
    var matrix: Matrix

    /** A consistent state in which every visited safe square shows its true count. */
    ghost predicate Valid()
      reads this
    {
      RevealedExcept(board, mines, extended, matrix, {})
    }

    /**
     * `create_board` with the mine positions given: every cell hidden, every
     * grid entry `'?'`, nothing visited.
     */
    constructor (initialMines: set<int>)
      requires |initialMines| == MINE_COUNT && forall k :: k in initialMines ==> 0 <= k < SQUARES
      ensures Valid()
      ensures board == seq(SQUARES, _ => Hidden) && mines == initialMines && extended == {}
      ensures forall i, j :: OnBoard(i, j) ==> matrix[i][j] == Unknown
    {
      board := seq(SQUARES, _ => Hidden);
      mines := initialMines;
      extended := {};
      matrix := seq(COLUMNS, _ => seq(ROWS, _ => Unknown));
    }

    /**
     * `update_board((i, j), selected)`. The square is marked visited. A mine
     * ends it: when selected, its cell becomes the hit marker and the result is
     * True; reached by the cascade, nothing else changes. A safe square records
     * its count in the grid and on the board; with no counted mine around, the
     * cascade visits every listed neighbour not visited yet, marking each one
     * before revealing it. `cascade` lists the squares of those recursive
     * calls, at every depth, in call order.
     */
    method UpdateBoard(i: int, j: int, selected: bool) returns (hit: bool, ghost cascade: seq<int>)
      requires OnBoard(i, j) && RevealedExcept(board, mines, extended, matrix, {Flat(i, j)})
      modifies this
      decreases AllIndices() - extended, 2
      ensures Valid() && mines == old(mines)
      ensures hit <==> selected && Flat(i, j) in mines
      ensures extended == old(extended) + {Flat(i, j)} + Elements(cascade)
      // a mine
      ensures Flat(i, j) in mines ==>
        && cascade == [] && matrix == old(matrix)
        && board == (if selected then old(board)[Flat(i, j) := HitMine] else old(board))
      // a safe square records its true count
      ensures Flat(i, j) !in mines ==>
        matrix[i][j] == Known(TrueCount(mines, Flat(i, j))) && board[Flat(i, j)] == Label(TrueCount(mines, Flat(i, j)))
      // with mines around it, nothing else changes
      ensures Flat(i, j) !in mines && TrueCount(mines, Flat(i, j)) > 0 ==>
        && cascade == []
        && board == old(board)[Flat(i, j) := Count(TrueCount(mines, Flat(i, j)))]
        && matrix == old(matrix)[i := old(matrix)[i][j := Known(TrueCount(mines, Flat(i, j)))]]
      // with none, every listed neighbour ends up visited
      ensures Flat(i, j) !in mines && TrueCount(mines, Flat(i, j)) == 0 ==>
        forall sq :: sq in AdjacentSquares(mines, i, j).squares ==> Flat(sq.0, sq.1) in extended
      // each recursive call goes to a square not visited before, none twice, never a mine, never (0, 0)
      ensures Distinct(cascade)
      ensures forall c :: c in cascade ==> c !in old(extended) && c != Flat(i, j) && c !in mines && c != 0
      // each one is listed by (i, j) or by an earlier one with no counted mine around it,
      // and the flood fill went on from every one with no counted mine around it
      ensures Reached(mines, Flat(i, j), cascade) && Closed(mines, extended, cascade)
      // only the square itself and the newly visited squares change
      ensures Frame(old(board), old(matrix), board, matrix, (extended - old(extended)) + {Flat(i, j)})
    {
      var index := GetIndex(i, j).value;
      MarkVisited(board, mines, extended, matrix, index, {index});
      assert {index} + {index} == {index};
      extended := extended + {index};
      cascade := [];
      MarkOfSquare(matrix, i, j);

      if index in mines {
        MineVisited(board, mines, extended, matrix, index);
        hit := selected;
        if selected {
          board := board[index := HitMine];
        }
      } else {
        var adj := AdjacentSquares(mines, i, j);
        RevealSafe(board, mines, extended, matrix, i, j);
        matrix := matrix[i := matrix[i][j := Known(adj.numMines)]];
        if adj.numMines > 0 {
          board := board[index := Count(adj.numMines)];
        } else {
          board := board[index := Blank];
          FrameWiden(old(board), old(matrix), board, matrix, {index}, (extended - old(extended)) + {index});
          cascade := Cascade(i, j, index);
        }
        hit := false;
        ShowsTrueCount(board, mines, extended, matrix, i, j);
      }
      if cascade == [] {
        NothingSwept(mines, extended, index);
      }
    }

    /**
     * The loop of `update_board` over the neighbours listed for a revealed
     * square (i, j) with no counted mine around it.
     */
    method Cascade(i: int, j: int, ghost index: int) returns (ghost cascade: seq<int>)
      requires OnBoard(i, j) && index == Flat(i, j) && Valid() && index in extended
      requires AdjacentSquares(mines, i, j).numMines == 0
      modifies this
      decreases AllIndices() - extended, 1
      ensures Valid() && mines == old(mines)
      ensures forall sq :: sq in AdjacentSquares(mines, i, j).squares ==> Flat(sq.0, sq.1) in extended
      ensures Swept(old(extended), extended, cascade, mines, old(board), old(matrix), board, matrix)
      ensures Reached(mines, index, cascade) && Closed(mines, extended, cascade)
    {
      var adj := AdjacentSquares(mines, i, j);
      cascade := [];
      FrameSelf(board, matrix);
      NothingSwept(mines, extended, index);
      var s := 0;
      while s < |adj.squares|
        invariant 0 <= s <= |adj.squares|
        invariant Valid() && mines == old(mines)
        invariant forall t :: 0 <= t < s ==> Flat(adj.squares[t].0, adj.squares[t].1) in extended
        invariant Swept(old(extended), extended, cascade, mines, old(board), old(matrix), board, matrix)
        invariant Reached(mines, index, cascade) && Closed(mines, extended, cascade)
      {
        var asquare := adj.squares[s];
        assert asquare in adj.squares;
        ghost var board1, matrix1, extended1, cascade1 := board, matrix, extended, cascade;
        assert Flat(asquare.0, asquare.1) !in mines;
        assert AllIndices() - extended <= AllIndices() - old(extended);
        ListedNeighbour(mines, i, j, asquare);
        var visited := VisitNeighbour(asquare.0, asquare.1, index);
        ClosedGrow(mines, extended1, extended, cascade1);
        SweepsClosed(mines, extended, cascade1, visited);
        SweepsReached(mines, index, cascade1, visited);
        CascadeStep(old(extended), extended1, extended, cascade1, visited, mines,
                    old(board), old(matrix), board1, matrix1, board, matrix);
        cascade := cascade + visited;
        VisitedPrefix(adj.squares, s, extended1, extended);
        s := s + 1;
      }
    }

    /**
     * One pass of the cascade loop of `update_board` over the listed
     * neighbours: a neighbour already visited is skipped; otherwise it is
     * marked visited and revealed as not selected. `visited` lists the squares
     * the pass recursed into, itself first.
     */
    method VisitNeighbour(a: int, b: int, ghost origin: int) returns (ghost visited: seq<int>)
      requires OnBoard(a, b) && Flat(a, b) != 0 && Flat(a, b) !in mines && Valid()
      requires Lists(mines, origin, Flat(a, b))
      modifies this
      decreases AllIndices() - extended, 0
      ensures Valid() && mines == old(mines)
      ensures Flat(a, b) in extended
      ensures visited == [] <==> Flat(a, b) in old(extended)
      ensures visited != [] ==> visited[0] == Flat(a, b)
      ensures Swept(old(extended), extended, visited, mines, old(board), old(matrix), board, matrix)
      ensures Reached(mines, origin, visited) && Closed(mines, extended, visited)
    {
      var aindex := GetIndex(a, b).value;
      if aindex in extended {
        FrameSelf(board, matrix);
        NothingSwept(mines, extended, origin);
        visited := [];
      } else {
        MarkVisited(board, mines, extended, matrix, aindex, {});
        assert {} + {aindex} == {aindex};
        extended := extended + {aindex};
        assert aindex in AllIndices() - old(extended);
        var subHit, sub := UpdateBoard(a, b, false);
        VisitFacts(old(extended), aindex, extended, sub, mines, old(board), old(matrix), board, matrix);
        MarkOfSquare(matrix, a, b);
        PassClosed(mines, extended, aindex, sub);
        PassReached(mines, origin, aindex, sub);
        visited := [aindex] + sub;
      }
    }

    /**
     * `reveal_mines`: every mine not visited shows the revealed-mine marker;
     * nothing else changes.
     */
    method RevealMines()
      requires Valid()
      modifies this
      ensures Valid()
      ensures mines == old(mines) && extended == old(extended) && matrix == old(matrix)
      ensures |board| == |old(board)|
      ensures forall k :: 0 <= k < |board| ==>
        board[k] == if k in mines && k !in extended then RevealedMine else old(board)[k]
    {
      var todo := mines;
      while todo != {}
        invariant todo <= mines
        invariant Valid()
        invariant mines == old(mines) && extended == old(extended) && matrix == old(matrix)
        invariant |board| == |old(board)|
        invariant forall k :: 0 <= k < |board| ==>
          board[k] == if k in mines - todo && k !in extended then RevealedMine else old(board)[k]
        decreases todo
      {
        NonEmptyHasElement(todo);
        var index :| index in todo;
        if index !in extended {
          MineRevealed(board, mines, extended, matrix, index);
          board := board[index := RevealedMine];
        }
        todo := todo - {index};
      }
    }

    /**
     * `has_won`: the visited squares and the mines together cover the board;
     * in a consistent state, exactly when every safe square is visited.
     */
    function HasWon(): (won: bool)
      reads this
      ensures Valid() ==> (won <==> forall k :: 0 <= k < SQUARES && k !in mines ==> k in extended)
    {
      CoverIffFull(extended + mines, SQUARES);
      assert Valid() ==> |board| == SQUARES && forall k :: k in extended + mines ==> 0 <= k < SQUARES;
      SafeCovered(extended, mines, SQUARES);
      |extended + mines| == |board|
    }

    /**
     * The game is won exactly when every safe square has been visited, which
     * is exactly when every safe square's count is recorded in the grid.
     */
    lemma WonIffEverySafeSquareRevealed()
      requires Valid()
      ensures HasWon() <==> forall k :: 0 <= k < SQUARES && k !in mines ==> k in extended
      ensures HasWon() <==> forall i, j :: OnBoard(i, j) && Flat(i, j) !in mines ==> matrix[i][j].Known?
    {
      CoverIffFull(extended + mines, SQUARES);
      if HasWon() {
        forall k | 0 <= k < SQUARES && k !in mines ensures k in extended {
          assert k in extended + mines;
        }
        forall i, j | OnBoard(i, j) && Flat(i, j) !in mines ensures matrix[i][j].Known? {
          MarkOfSquare(matrix, i, j);
          assert Flat(i, j) in extended + mines;
          ShowsTrueCount(board, mines, extended, matrix, i, j);
        }
      } else {
        var k :| 0 <= k < SQUARES && k !in extended + mines;
        SquareOfIndex(k);
        MarkOfSquare(matrix, k / ROWS, k % ROWS);
        assert CellOk(board, mines, extended, matrix, {}, k);
        assert !matrix[k / ROWS][k % ROWS].Known?;
      }
    }

    /** `update_board(square, True)`, the step both players end with: reveal the chosen square as a selection. */
    method Select(sq: Square) returns (hit: bool, ghost cascade: seq<int>)
      requires OnBoard(sq.0, sq.1) && Valid()
      modifies this
      ensures Valid() && mines == old(mines)
      ensures Selected(mines, old(board), old(matrix), old(extended), board, matrix, extended, sq, hit, cascade)
    {
      AddPending(board, mines, extended, matrix, Flat(sq.0, sq.1));
      hit, cascade := UpdateBoard(sq.0, sq.1, true);
    }

    /**
     * `forma1`: choose the first lowest-scoring unexplored square and reveal
     * it as a player's selection. With nothing unexplored it returns None and
     * changes nothing.
     */
    method Forma1() returns (square: Option<Square>, hit: bool, ghost cascade: seq<int>)
      requires Valid()
      modifies this
      ensures Valid() && mines == old(mines)
      ensures square.None? <==> Unexplored(old(matrix)) == []
      ensures square.None? ==>
        !hit && board == old(board) && extended == old(extended) && matrix == old(matrix)
      ensures square.Some? ==>
        && LowestScoreChoice(old(mines), old(matrix), square.value)
        && Selected(mines, old(board), old(matrix), old(extended), board, matrix, extended, square.value, hit, cascade)
    {
      var best := ChooseLowestScore(mines, matrix);
      if best.None? {
        return None, false, [];
      }
      hit, cascade := Select(best.value);
      return best, hit, cascade;
    }

    /**
     * `forma2`: play a safe unexplored square if there is one, otherwise the
     * first least-risk unexplored square, revealing it as a player's selection.
     * With nothing unexplored the source's `min` raises ValueError; here the
     * result is None and nothing changes.
     */
    method Forma2() returns (square: Option<Square>, hit: bool, ghost cascade: seq<int>)
      requires Valid()
      modifies this
      ensures Valid() && mines == old(mines)
      ensures square.None? <==> Unexplored(old(matrix)) == []
      ensures square.None? ==>
        !hit && board == old(board) && extended == old(extended) && matrix == old(matrix)
      ensures square.Some? ==>
        && SafeOrLeastRiskChoice(old(mines), old(matrix), square.value)
        && Selected(mines, old(board), old(matrix), old(extended), board, matrix, extended, square.value, hit, cascade)
    {
      var choice := ChooseSafeOrLeastRisk(mines, matrix);
      if choice.None? {
        return None, false, [];
      }
      hit, cascade := Select(choice.value);
      return choice, hit, cascade;
    }
  }

  /** A set of indices below n has n elements exactly when it holds all of them. */
  lemma CoverIffFull(s: set<int>, n: nat)
    ensures (forall k :: k in s ==> 0 <= k < n) ==> (|s| == n <==> forall k :: 0 <= k < n ==> k in s)
  {
    var all := IndicesBelow(n);
    if exists k :: k in s && !(0 <= k < n) {
    } else if forall k :: 0 <= k < n ==> k in s {
      assert s <= all;
      assert s == all;
    } else {
      var x :| 0 <= x < n && x !in s;
      assert s <= all;
      assert s <= all - {x};
      assert |all - {x}| == n - 1;
      SubsetSize(s, all - {x});
    }
  }

  /** The visited squares and the mines cover the indices below n exactly when every unmined one is visited. */
  lemma SafeCovered(e: set<int>, m: set<int>, n: nat)
    ensures (forall k :: 0 <= k < n ==> k in e + m) <==> (forall k :: 0 <= k < n && k !in m ==> k in e)
  {
    if forall k :: 0 <= k < n ==> k in e + m {
      forall k | 0 <= k < n && k !in m ensures k in e {
        assert k in e + m;
      }
    }
  }

  lemma SubsetSize(a: set<int>, b: set<int>)
    requires a <= b
    ensures |a| <= |b|
  {
    assert b == a + (b - a);
  }
}
