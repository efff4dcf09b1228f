# Minesweeper engine, brute-force sort and combination enumeration, in Dafny

This project models three Python programs and proves properties of the models.

**The Minesweeper engine (`main.py`).** A 10 x 10 board holds 10 mines. The
engine keeps four globals: `BOARD` (what each cell shows), `MINES` (the mined
flat indices), `EXTENDED` (the visited flat indices) and `MATRIX` (the
knowledge grid, `'?'` or a neighbour mine count). They become the fields of
the class `Minesweeper.Game`. The model covers:

- `get_index`, the conversion of a square to its flat index;
- `adjacent_squares`, the neighbour scan;
- `update_board`, the reveal and its flood fill, as mutually recursive methods;
- `reveal_mines` and `has_won`;
- the two automated players, `forma1` (lowest heuristic score) and `forma2`
  (a safe square, else the least-risk square), with `calculate_risk` and
  `is_safe`.

The neighbour scan skips every candidate whose index is falsy. Flat index 0,
the square (0, 0), is falsy as well as off-board squares. So (0, 0) is never
listed as a neighbour, its mine is never counted, and the flood fill never
reaches it. The model keeps this behaviour as written, and
`Grid.OriginMineNeverCounted` states it.

Mines are placed at random in the source. In the model they are a parameter
of the constructor. `random.choice` in `forma2` becomes a choice of any safe
square. The floating-point risk and score become exact fractions, compared by
cross-multiplication.

**The brute-force sort (`permutations.py`).** The script walks the
permutations of a list S in the order `itertools.permutations` yields them. It
keeps the last one that is non-decreasing. The model proves that the kept
permutation is `sorted(S)`:

- it is ordered;
- it is a rearrangement of S;
- it has S's length, so it is non-empty when S is.

**The combination enumeration (`combinations.py`).** For r = 1 .. |S| the
script prints every tuple of `itertools.combinations(S, r)`. The model proves
that:

- each tuple takes the elements of S at r strictly increasing positions, in
  order;
- there are C(|S|, r) tuples for each r;
- 2^|S| - 1 tuples are printed in all;
- no tuple is empty, and shorter tuples come before longer ones.

Files:

- `wrappers.dfy`: Option.
- `grid.dfy`: constants, `get_index`, `adjacent_squares`.
- `strategy.dfy`: the `MATRIX` cell type, `calculate_risk`, `is_safe`, the
  unexplored list, and the choice loops of `forma1` and `forma2`.
- `minesweeper.dfy`: the `Game` class.
- `lists.dfy`: a sequence helper shared by the two scripts.
- `permutations.dfy` and `combinations.dfy`: the two scripts.

## Model

| member | source | states |
|---|---|---|
| Grid.GetIndex | main.py:28-31 | None exactly when the square is off the board; otherwise the index i * ROWS + j, which lies in [0, ROWS * COLUMNS) |
| Grid.GetIndexInjective | main.py:28-31 | two on-board squares with the same index are the same square |
| Grid.GetIndexOnto | main.py:28-31 | every index below ROWS * COLUMNS is the index of the square (k / ROWS, k % ROWS) |
| Grid.Listed | main.py:76-84 | the scan keeps the neighbour at an offset exactly when the offset is not (0, 0), the neighbour is on the board and its index is not 0 |
| Grid.Scan | main.py:71-91 | the scan over distinct offsets lists distinct on-board neighbours of (i, j), none with index 0, each at one of the offsets; it lists at most one square per offset, fewer when (0, 0) is among them, and counts no more mines than squares |
| Grid.AdjacentSquares | main.py:70-91 | at most 8 distinct listed neighbours, each adjacent, on the board and not index 0; the mine count is the number of listed squares holding a mine, and it is 0 exactly when no listed square is mined |
| Grid.AdjacentSquaresComplete | main.py:73-89 | every on-board neighbour of (i, j) whose index is not 0 is listed |
| Grid.ScanIgnoresMines | main.py:79-89 | which neighbours are listed does not depend on where the mines are |
| Grid.OriginMineNeverCounted | main.py:82-87 | because index 0 is falsy, a mine on (0, 0) changes no neighbour count, and (0, 0) is never listed |
| Strategy.CountUnknown | main.py:169-172 | the number of listed squares still '?' is at most their number, and 0 exactly when all are revealed |
| Strategy.CalculateRisk | main.py:164-185 | infinite exactly when no listed neighbour is '?'; otherwise a fraction in [0, 1] with a positive denominator, which is 0 exactly when no mine is counted |
| Strategy.NoRiskyUnknown | main.py:150-157 | the loop passes exactly when no listed '?' neighbour has a risk above one half |
| Strategy.IsSafe | main.py:140-159 | safe exactly when no listed neighbour is mined and no listed '?' neighbour has a risk above one half; a safe square has no mine on any neighbour except possibly (0, 0) |
| Strategy.InfiniteRiskNeighbourUnsafe | main.py:156 | an unexplored neighbour with infinite risk makes a square unsafe, since infinity exceeds 0.5 |
| Strategy.UnexploredFrom | main.py:190 | the '?' squares from a flat index on: each listed one is on the board and unexplored, every such square is listed, and they come in scan order |
| Strategy.Unexplored | main.py:215 | a square is listed exactly when it is on the board and '?'; the list is in scan order (i outer, j inner) |
| Strategy.SafeAmong | main.py:193 | keeps exactly the candidates that are safe |
| Strategy.SafeMoves | main.py:190-193 | a square is a safe move exactly when it is on the board, still '?' and safe |
| Strategy.Score | main.py:225-231 | the score (mines + unexplored neighbours) / (neighbours + 1) has a denominator from 1 to 9 and is below 2 |
| Strategy.LowestScoring | main.py:217-235 | None exactly when there is no candidate; otherwise the candidate at the first position of lowest score: no score is lower and every earlier score is higher |
| Strategy.ChooseLowestScore | main.py:215-235 | the square forma1 settles on: None exactly when nothing is unexplored, otherwise the first lowest-scoring unexplored square |
| Strategy.LeastRiskPosition | main.py:205 | the position Python's `min` returns: no risk is lower than its risk, and every earlier risk is higher |
| Strategy.ChooseSafeOrLeastRisk | main.py:189-205 | None exactly when nothing is unexplored; otherwise a safe unexplored square when there is one, else the first least-risk unexplored square |
| Minesweeper.Game.constructor | main.py:34-45 | every cell hidden, every grid entry '?', nothing visited, the given mines; the state is consistent |
| Minesweeper.Game.UpdateBoard | main.py:94-126 | the square is visited; the result is True exactly when it is a selected mine. A selected mine gets the hit marker, and a mine reached by the flood fill changes nothing else. A safe square records its true count in the grid and on the board. With mines around it nothing else changes; with none, every listed neighbour ends up visited. Each recursive call goes to a square not visited before, never twice, never to a mine, never to (0, 0). Each one is listed as a neighbour of (i, j) or of an earlier one with no counted mine around it, and from every one with no counted mine around it the flood fill visits all its listed neighbours. Only the visited cells change, and the state stays consistent |
| Minesweeper.Game.Cascade | main.py:118-126 | after the loop over the listed neighbours every one of them is visited; the squares recursed into are new, distinct, not mines and not (0, 0), and only their cells changed; each is listed by (i, j) or by an earlier one with no counted mine around it, and every one with no counted mine around it has all its listed neighbours visited |
| Minesweeper.Game.VisitNeighbour | main.py:121-126 | a neighbour already visited is skipped with no change; otherwise it is visited and revealed first, and the pass lists it first among the squares it recursed into; each of those is listed by the square whose loop this is, or by an earlier one with no counted mine around it, and every one with no counted mine around it has all its listed neighbours visited |
| Minesweeper.Label | main.py:108-119 | the cell of a revealed safe square is blank exactly when no neighbour mine is counted, and otherwise shows the count |
| Minesweeper.RevealSafe | main.py:106-119 | writing the true count into the grid and the matching label on the board reveals a visited safe square and changes no other cell |
| Minesweeper.Game.RevealMines | main.py:129-133 | every mine not visited shows the revealed-mine marker, every other cell is unchanged, and so are the mines, the visited set and the grid |
| Minesweeper.Game.HasWon | main.py:136-137 | in a consistent state, the union of the visited squares and the mines covers the board exactly when every safe square is visited |
| Minesweeper.Game.WonIffEverySafeSquareRevealed | main.py:136-137 | the union of the visited squares and the mines covers the board exactly when every safe square is visited, and exactly when every safe square has its count in the grid |
| Minesweeper.Game.Select | main.py:94-126 | revealing a chosen square as a selection: it is visited; the result is a hit exactly when it is a mine, and then it shows the hit marker and nothing else changes. A safe square shows its true count in the grid and on the board. With mines around it nothing else is visited. With none, every listed neighbour is visited, and the squares visited besides it are exactly those of the recursive calls: new, distinct, not mines, not (0, 0), each listed by the square or by an earlier one with no counted mine around it, and every one with no counted mine around it has all its listed neighbours visited. Only the square and the newly visited squares change, and the state stays consistent |
| Minesweeper.Game.Forma1 | main.py:214-243 | None exactly when nothing is unexplored, and then nothing changes; otherwise the first lowest-scoring square is revealed as a selection, with every guarantee of Select: a hit exactly when it is a mine, the hit marker on a mine, the true count on a safe square, nothing else visited around a counted mine, otherwise exactly the flood fill from the square, and no change outside the square and the newly visited squares |
| Minesweeper.Game.Forma2 | main.py:189-212 | None exactly when nothing is unexplored; otherwise a safe square, or failing that the first least-risk square, is revealed as a selection, with the same guarantees as Forma1 |
| Permutations.Perms | permutations.py:8 | every list, the empty one included, has at least one permutation |
| Permutations.PermsFrom | permutations.py:8 | the permutations starting with the element at position k or later: there are some exactly when k is a position of S |
| Permutations.PermsCount | permutations.py:8 | for a list S of length n, `itertools.permutations(S)` yields n! permutations, duplicates included |
| Permutations.PermsSound | permutations.py:8 | every permutation yielded is a rearrangement of S |
| Permutations.PermsComplete | permutations.py:8 | every rearrangement of S is yielded |
| Permutations.CheckOrdered | permutations.py:9-11 | `is_ordered` ends True exactly when each element is at most the next |
| Permutations.OrderedUnique | permutations.py:9-13 | two ordered rearrangements of the same elements are equal |
| Permutations.Sort | permutations.py:8-13 | the reference `sorted(S)`: ordered and a rearrangement of S |
| Permutations.LastOrderedIn | permutations.py:5-13 | the value `o` ends with: [] when no permutation is ordered; otherwise an ordered permutation after which no permutation is ordered |
| Permutations.LastOrderedIsSorted | permutations.py:8-13 | the last ordered permutation is `sorted(S)` |
| Permutations.LastOrdered | permutations.py:5-13 | the loop leaves `o` equal to the last ordered permutation, which is ordered, a rearrangement of S, equal to `sorted(S)` and as long as S |
| Combinations.Combos | combinations.py:8 | `itertools.combinations(S, r)` yields some tuple exactly when r is at most len(S) |
| Combinations.CombosLength | combinations.py:8 | every tuple of `itertools.combinations(S, r)` has r elements |
| Combinations.PositionsShape | combinations.py:8 | every position set has r strictly increasing positions within range |
| Combinations.PositionsComplete | combinations.py:8 | every set of strictly increasing positions within range is one of the position sets |
| Combinations.CombosSelect | combinations.py:8 | position by position, the tuples of `combinations(S[lo..], r)` are the elements of S at the position sets, in order |
| Combinations.OrderPreservingSelections | combinations.py:8-9 | the q-th tuple takes the elements of S at r strictly increasing positions, one tuple per position set |
| Combinations.CombosCount | combinations.py:8-9 | for a list S of length n, `combinations(S, r)` yields C(n, r) tuples, and none when r exceeds n |
| Combinations.BinomRowSum | combinations.py:7-9 | C(n, 0) + ... + C(n, n) = 2^n |
| Combinations.PrintedFrom | combinations.py:7-9 | from r on, something is printed exactly when r is at most len(S) |
| Combinations.Printed | combinations.py:7-9 | the script prints something exactly when S is not empty |
| Combinations.PrintedFromShape | combinations.py:7-9 | from r on, the printed tuples have between r and len(S) elements, shorter ones first |
| Combinations.PrintedShape | combinations.py:7-9 | no printed tuple is empty or longer than S, and no tuple is printed after a longer one |
| Combinations.PrintedFromCount | combinations.py:7-9 | from r on, the script prints the rest of row len(S) of Pascal's triangle |
| Combinations.PrintedCount | combinations.py:7-9 | the script prints 2^len(S) - 1 tuples in all |

## Left out

- Colours (`Colors`, `colorize`) and the cell texts: `BOARD` cells are the datatype `Cell` (hidden, blank, count, hit mine, revealed mine).
- `draw_board`, `parse_selection` and `random_player`: display, input parsing and a random player, not game logic.
- The `__main__` driver loop and every `print`, because they are I/O.
- `create_board`'s random mine placement: the mines are a constructor parameter (MINE_COUNT distinct on-board indices).
- Floating point: the risk and the score are exact fractions instead of doubles. Over the values the game can produce, the exact order is the order of the doubles. A score is one division with a denominator of at most 9, so it is the correctly rounded value of its fraction. A finite risk is computed as fl(fl(n / t) * fl(u / t)) with n, u <= t <= 8, which is not always the rounding of n * u / t^2. Two different risks differ by far more than that error. Equal risks still give the same double: t = 4 and t = 8 are exact in binary, t = 7 occurs only at the square (1, 1), and a t = 7 risk ties with a risk of another t only at 0 or 1. Every other tie is a commuted product or a rescaling by a power of two (fl(4/5) = 4 * fl(1/5)). The threshold 0.5 is exact.
- `is_safe`'s test `MATRIX[..] == 'X'` can never fire, because the grid only ever holds `'?'` or a count, so the grid type has no such value.
- Minesweeper.Game.UpdateBoard: requires an on-board square and a consistent state. Every caller in the model supplies one. Off the board the source adds None to `EXTENDED` (main.py:96-97) and then fails in one of two ways. A coordinate of 10 or more, or below -10, makes `MATRIX[i][j]` raise IndexError (main.py:107). A coordinate from -10 to -1 wraps around under Python's negative indexing: `MATRIX[-1][5]` silently records the count of the off-board square (-1, 5) in the entry of (9, 5), and then `BOARD[None] = ...` raises TypeError (main.py:116 or 119). The model does not capture either failure.
- Strategy.ChooseSafeOrLeastRisk: `random.choice` becomes "some safe unexplored square". The model does not capture the uniform distribution.
- Minesweeper.Game.Forma2: with nothing unexplored, it returns None and changes nothing. The source's `min` raises ValueError there.
- S in both scripts is a parameter of any length, not a random list of 4 (permutations) or 15 (combinations) integers in [-10, 10]. The printed output is the returned value or sequence.
- `itertools.permutations` and `itertools.combinations` are recursive definitions that yield the documented order (lexicographic by position). The library's iterative code is not part of this model.
