/**
 * The rules of the 3x3 board: cells, the eight winning lines, the win test
 * (checkWin), the full-board test and the list of free cells that the easy
 * opponent draws from.
 */
module Board {

  /** One square: free (the empty string in the game), or holding X or O. */
  datatype Cell = Empty | X | O

  /** A mark a player can place. */
  type Side = c: Cell | c != Empty witness X

  /** A cell position, 0..8, row-major. */
  type Index = i: nat | i < 9

  /** The board: nine cells, row-major. */
  type Grid = b: seq<Cell> | |b| == 9 witness [Empty, Empty, Empty, Empty, Empty, Empty, Empty, Empty, Empty]

  const EmptyGrid: Grid := [Empty, Empty, Empty, Empty, Empty, Empty, Empty, Empty, Empty]

  /** The other mark: O for X, X for anything else. */
  function Opponent(p: Side): (q: Side)
    ensures q != p
  {
    if p == X then O else X
  }

  /** The table of winning lines: three rows, three columns, two diagonals. */
  const WinConditions: seq<(Index, Index, Index)> :=
    [(0, 1, 2), (3, 4, 5), (6, 7, 8),
     (0, 3, 6), (1, 4, 7), (2, 5, 8),
     (0, 4, 8), (2, 4, 6)]

  /** The first cell of the line is taken and all three cells hold the same mark. */
  predicate LineComplete(b: Grid, line: (Index, Index, Index))
  {
    b[line.0] != Empty && b[line.0] == b[line.1] && b[line.1] == b[line.2]
  }

  /** checkWin: some line of the table is complete. */
  predicate CheckWin(b: Grid)
  {
    exists k :: 0 <= k < |WinConditions| && LineComplete(b, WinConditions[k])
  }

  /** No cell is free. */
  predicate IsFull(b: Grid)
    ensures IsFull(b) <==> EmptyCount(b) == 0
  {
    forall i :: 0 <= i < 9 ==> b[i] != Empty
  }

  /** How many free cells remain; every placement lowers it. */
  function EmptyCount(b: seq<Cell>): nat
  {
    multiset(b)[Empty]
  }

  /** How many times mark `c` appears on the board. */
  function Count(b: seq<Cell>, c: Cell): nat
  {
    multiset(b)[c]
  }

  // ---------------------------------------------------------------------
  // An independent reading of "three in a row", in grid coordinates.

  /** The cell in row `r`, column `c`. */
  function At(b: Grid, r: nat, c: nat): Cell
    requires r < 3 && c < 3
  {
    b[3 * r + c]
  }

  predicate Same(x: Cell, y: Cell, z: Cell)
  {
    x != Empty && x == y && y == z
  }

  predicate RowWon(b: Grid, r: nat)
    requires r < 3
  {
    Same(At(b, r, 0), At(b, r, 1), At(b, r, 2))
  }

  predicate ColumnWon(b: Grid, c: nat)
    requires c < 3
  {
    Same(At(b, 0, c), At(b, 1, c), At(b, 2, c))
  }

  /** Some row, some column or one of the two diagonals holds one mark three times. */
  ghost predicate ThreeInARow(b: Grid)
  {
    (exists r :: 0 <= r < 3 && RowWon(b, r))
    || (exists c :: 0 <= c < 3 && ColumnWon(b, c))
    || Same(At(b, 0, 0), At(b, 1, 1), At(b, 2, 2))
    || Same(At(b, 0, 2), At(b, 1, 1), At(b, 2, 0))
  }

  /** The table-driven test of `checkWin` is exactly "three in a row" on the grid. */
  lemma CheckWinIsThreeInARow(b: Grid)
    ensures CheckWin(b) <==> ThreeInARow(b)
  {
    if CheckWin(b) {
      var k :| 0 <= k < |WinConditions| && LineComplete(b, WinConditions[k]);
      if k < 3 {
        assert RowWon(b, k);
      } else if k < 6 {
        assert ColumnWon(b, k - 3);
      }
    }
    if ThreeInARow(b) {
      if r :| 0 <= r < 3 && RowWon(b, r) {
        assert LineComplete(b, WinConditions[r]);
      } else if c :| 0 <= c < 3 && ColumnWon(b, c) {
        assert LineComplete(b, WinConditions[c + 3]);
      } else if Same(At(b, 0, 0), At(b, 1, 1), At(b, 2, 2)) {
        assert LineComplete(b, WinConditions[6]);
      } else {
        assert LineComplete(b, WinConditions[7]);
      }
    }
  }

  /** Placing a mark on a free cell never breaks a completed line. */
  lemma CheckWinStaysWon(b: Grid, i: Index, p: Side)
    requires CheckWin(b) && b[i] == Empty
    ensures CheckWin(b[i := p])
  {
    var k :| 0 <= k < |WinConditions| && LineComplete(b, WinConditions[k]);
    assert LineComplete(b[i := p], WinConditions[k]);
  }

  // ---------------------------------------------------------------------
  // Free cells.

  /** The free cells below `n`, in ascending order. */
  function EmptyIndices(b: Grid, n: nat): (r: seq<Index>)
    requires n <= 9
    ensures forall k :: 0 <= k < |r| ==> r[k] < n && b[r[k]] == Empty
    ensures forall i: nat :: i < n && b[i] == Empty ==> i in r
    ensures forall k, l :: 0 <= k < l < |r| ==> r[k] < r[l]
  {
    if n == 0 then []
    else if b[n - 1] == Empty then EmptyIndices(b, n - 1) + [n - 1]
    else EmptyIndices(b, n - 1)
  }

  /**
   * The candidate list of easyComputerMove (the board mapped to indices of
   * free cells, then filtered): every free cell, ascending, and nothing else.
   */
  function AvailableMoves(b: Grid): (r: seq<Index>)
    ensures forall i: nat :: i in r <==> i < 9 && b[i] == Empty
    ensures forall k, l :: 0 <= k < l < |r| ==> r[k] < r[l]
    ensures |r| == 0 <==> IsFull(b)
  {
    var r := EmptyIndices(b, 9);
    assert |r| > 0 ==> b[r[0]] == Empty;
    assert !IsFull(b) ==> exists i: nat :: i < 9 && b[i] == Empty && i in r;
    r
  }

  /** A placement on a free cell uses up exactly that cell. */
  lemma PlaceUsesOneCell(b: Grid, i: Index, p: Side)
    requires b[i] == Empty
    ensures EmptyCount(b[i := p]) == EmptyCount(b) - 1
    ensures Count(b[i := p], p) == Count(b, p) + 1
    ensures Count(b[i := p], Opponent(p)) == Count(b, Opponent(p))
  {
  }
}
