/**
 * The move searches of the computer opponent, as functions of the board:
 * the exhaustive search `minimax` and the one-move lookahead
 * `findWinningMove`. The class `Game` (module Session) runs them in place on
 * its board array and is proved to compute exactly these functions.
 *
 * The search is the game's own variant, not textbook minimax: a terminal board
 * scores +10 when the side TO MOVE there is the computer (in a child, the
 * side that just moved completed the line), -10 otherwise, 0 for a full
 * board; and every
 * level takes the maximum of its children, the first one in index order.
 */
module Search {
  import opened Board

  datatype Option<T> = None | Some(value: T)

  /** What minimax returns: a score, and the chosen cell unless the board was terminal. */
  datatype Evaluation = Evaluation(score: int, index: Option<Index>)

  /** Math.max over a non-empty list. */
  function Max(s: seq<int>): (m: int)
    requires |s| > 0
    ensures m in s
    ensures forall k :: 0 <= k < |s| ==> s[k] <= m
  {
    if |s| == 1 then s[0]
    else
      var rest := Max(s[1..]);
      if s[0] >= rest then s[0] else rest
  }

  /** Array indexOf: the first position holding `v`, or -1. */
  function IndexOf(s: seq<int>, v: int): (k: int)
    ensures -1 <= k < |s|
    ensures k == -1 <==> v !in s
    ensures 0 <= k ==> s[k] == v && forall j :: 0 <= j < k ==> s[j] != v
  {
    if |s| == 0 then -1
    else if s[0] == v then 0
    else
      var k := IndexOf(s[1..], v);
      if k == -1 then -1 else k + 1
  }

  /**
   * minimax(board, player) with computerSymbol == `computer`: the terminal
   * tests first, then one child per free cell in ascending order (that cell
   * set to `player`, the opponent to move), and the first child of highest score.
   */
  function Minimax(b: Grid, player: Side, computer: Side): (e: Evaluation)
    ensures e.score == 10 || e.score == 0 || e.score == -10
    ensures e.index.None? <==> CheckWin(b) || IsFull(b)
    ensures e.index.Some? ==> b[e.index.value] == Empty
    decreases EmptyCount(b), 10
  {
    if CheckWin(b) then Evaluation(if player == computer then 10 else -10, None)
    else if IsFull(b) then Evaluation(0, None)
    else
      var scores := ChildScores(b, player, computer, 9);
      var moves := EmptyIndices(b, 9);
      assert exists i: nat :: i < 9 && b[i] == Empty && i in moves;
      var best := IndexOf(scores, Max(scores));
      Evaluation(scores[best], Some(moves[best]))
  }

  /** The `scores` list after the loop has visited cells 0 .. n-1. */
  function ChildScores(b: Grid, player: Side, computer: Side, n: nat): (scores: seq<int>)
    requires n <= 9
    ensures |scores| == |EmptyIndices(b, n)|
    ensures forall k :: 0 <= k < |scores| ==> scores[k] == 10 || scores[k] == 0 || scores[k] == -10
    decreases EmptyCount(b), n
  {
    if n == 0 then []
    else if b[n - 1] == Empty then ChildScores(b, player, computer, n - 1) + [ChildScore(b, player, computer, n - 1)]
    else ChildScores(b, player, computer, n - 1)
  }

  /** The score of the child in which `player` has taken free cell `i`. */
  function ChildScore(b: Grid, player: Side, computer: Side, i: Index): (score: int)
    requires b[i] == Empty
    ensures score == 10 || score == 0 || score == -10
    decreases EmptyCount(b), 0
  {
    Minimax(b[i := player], Opponent(player), computer).score
  }

  /** The k-th collected score belongs to the k-th free cell. */
  lemma {:induction false} ChildScoresAt(b: Grid, player: Side, computer: Side, n: nat, k: nat)
    requires n <= 9 && k < |EmptyIndices(b, n)|
    ensures ChildScores(b, player, computer, n)[k] == ChildScore(b, player, computer, EmptyIndices(b, n)[k])
  {
    if b[n - 1] == Empty && k == |EmptyIndices(b, n)| - 1 {
    } else if b[n - 1] == Empty {
      ChildScoresAt(b, player, computer, n - 1, k);
    } else {
      ChildScoresAt(b, player, computer, n - 1, k);
    }
  }

  /**
   * On a board with no complete line and a free cell, minimax picks a free
   * cell whose child score is the highest of all children, and every free cell
   * before it scores strictly less: the maximum at every level, ties to the
   * lowest index.
   */
  lemma MinimaxPicksFirstBestChild(b: Grid, player: Side, computer: Side)
    requires !CheckWin(b) && !IsFull(b)
    ensures Minimax(b, player, computer).index.Some?
    ensures var e := Minimax(b, player, computer);
      var i := e.index.value;
      b[i] == Empty
      && e.score == ChildScore(b, player, computer, i)
      && (forall j: Index :: b[j] == Empty ==> ChildScore(b, player, computer, j) <= e.score)
      && (forall j: Index :: j < i && b[j] == Empty ==> ChildScore(b, player, computer, j) < e.score)
  {
    var scores := ChildScores(b, player, computer, 9);
    var moves := EmptyIndices(b, 9);
    assert exists i: nat :: i < 9 && b[i] == Empty && i in moves;
    var best := IndexOf(scores, Max(scores));
    var e := Minimax(b, player, computer);
    assert e == Evaluation(scores[best], Some(moves[best]));
    ChildScoresAt(b, player, computer, 9, best);
    forall j: Index | b[j] == Empty
      ensures ChildScore(b, player, computer, j) <= e.score
      ensures j < moves[best] ==> ChildScore(b, player, computer, j) < e.score
    {
      var k := FreeCellPosition(b, player, computer, j);
      assert k < best || moves[best] <= j by {
        if best < k {
          assert moves[best] < moves[k];
        }
      }
    }
  }

  /** Where the score of free cell `j` sits in the collected scores. */
  lemma FreeCellPosition(b: Grid, player: Side, computer: Side, j: Index) returns (k: nat)
    requires b[j] == Empty
    ensures k < |EmptyIndices(b, 9)| && EmptyIndices(b, 9)[k] == j
    ensures ChildScores(b, player, computer, 9)[k] == ChildScore(b, player, computer, j)
  {
    var moves := EmptyIndices(b, 9);
    k :| 0 <= k < |moves| && moves[k] == j;
    ChildScoresAt(b, player, computer, 9, k);
  }

  /** At a terminal board minimax chooses nothing and scores from the mover's side. */
  lemma MinimaxAtTerminal(b: Grid, player: Side, computer: Side)
    requires CheckWin(b) || IsFull(b)
    ensures Minimax(b, player, computer).index == None
    ensures Minimax(b, player, computer).score ==
      if CheckWin(b) then (if player == computer then 10 else -10) else 0
  {
  }

  /**
   * Completing a line is scored against the side that completed it: a cell
   * that wins on the spot scores -10 for the computer and +10 for its opponent.
   */
  lemma CompletingMoveScore(b: Grid, player: Side, computer: Side, i: Index)
    requires b[i] == Empty && CheckWin(b[i := player])
    ensures ChildScore(b, player, computer, i) == if player == computer then -10 else 10
  {
  }

  /** No line of the table is complete on `b`, checked line by line. */
  lemma NoLineComplete(b: Grid)
    requires !LineComplete(b, WinConditions[0]) && !LineComplete(b, WinConditions[1])
    requires !LineComplete(b, WinConditions[2]) && !LineComplete(b, WinConditions[3])
    requires !LineComplete(b, WinConditions[4]) && !LineComplete(b, WinConditions[5])
    requires !LineComplete(b, WinConditions[6]) && !LineComplete(b, WinConditions[7])
    ensures !CheckWin(b)
  {
    forall k | 0 <= k < |WinConditions| ensures !LineComplete(b, WinConditions[k]) {
      assert k in {0, 1, 2, 3, 4, 5, 6, 7};
    }
  }

  /** After the computer takes cell 1, the opponent's only move, cell 0, completes the first column. */
  lemma OpponentWinsAfterCellOne(b1: Grid)
    requires b1 == [Empty, O, O, X, O, X, X, X, O]
    ensures Minimax(b1, X, O) == Evaluation(10, Some(0))
  {
    NoLineComplete(b1);
    assert b1[0] == Empty;
    assert LineComplete(b1[0 := X], WinConditions[3]);
    CompletingMoveScore(b1, X, O, 0);
    MinimaxPicksFirstBestChild(b1, X, O);
    var i := Minimax(b1, X, O).index.value;
    assert i == 0 by {
      assert i in {0, 1, 2, 3, 4, 5, 6, 7, 8};
    }
  }

  /** The computer's children on that board: cell 0 wins at once, cell 1 lets the opponent win. */
  lemma ChildrenOfTrap(b: Grid)
    requires b == [Empty, Empty, O, X, O, X, X, X, O]
    ensures ChildScore(b, O, O, 0) == -10
    ensures ChildScore(b, O, O, 1) == 10
  {
    assert LineComplete(b[0 := O], WinConditions[6]);
    CompletingMoveScore(b, O, O, 0);
    OpponentWinsAfterCellOne(b[1 := O]);
  }

  /**
   * A board on which the computer (O, to move) can win at once at cell 0, yet
   * minimax answers cell 1 with score 10: from there the opponent completes the
   * first column.
   */
  lemma DeclinesImmediateWin(b: Grid)
    requires b == [Empty, Empty, O, X, O, X, X, X, O]
    ensures !CheckWin(b) && CheckWin(b[0 := O]) && CheckWin(b[1 := O][0 := X])
    ensures Minimax(b, O, O) == Evaluation(10, Some(1))
  {
    NoLineComplete(b);
    assert LineComplete(b[0 := O], WinConditions[6]);
    assert LineComplete(b[1 := O][0 := X], WinConditions[3]);
    assert b[0] == Empty;
    ChildrenOfTrap(b);
    MinimaxPicksFirstBestChild(b, O, O);
    var i := Minimax(b, O, O).index.value;
    assert i == 0 || i == 1 by {
      assert i in {0, 1, 2, 3, 4, 5, 6, 7, 8};
    }
  }

  /**
   * findWinningMove(symbol), reading cells `from` onwards: the first free cell
   * where `symbol` completes a line, or -1 when there is none.
   */
  function FirstWinningMove(b: Grid, symbol: Side, from: nat): (k: int)
    requires from <= 9
    ensures k == -1 || (from <= k < 9 && b[k] == Empty && CheckWin(b[k := symbol]))
    ensures forall i: Index :: from <= i && (k == -1 || i < k) && b[i] == Empty ==> !CheckWin(b[i := symbol])
    decreases 9 - from
  {
    if from == 9 then -1
    else if b[from] == Empty && CheckWin(b[from := symbol]) then from
    else FirstWinningMove(b, symbol, from + 1)
  }
}
