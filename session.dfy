/**
 * The game session: the module-level variables of the game (board, side to
 * move, the two players' marks, whether a game is running, the mode, the
 * difficulty and the three counters) as the fields of class `Game`, and the
 * handlers that update them: a cell click, the computer's reply, game start.
 *
 * Each handler is proved to produce the state that a function on `State`
 * values describes (`Click`, `ComputerPlace`, `Start`); what the game promises
 * about those functions, such as the turn order and the score accounting, is
 * proved as lemmas about them.
 */
module Session {
  import opened Board
  import opened Search

  /** The chosen difficulty: unset until one is picked; anything but Easy plays the search. */
  datatype Difficulty = Unset | Easy | Hard

  /** A snapshot of every variable of the session. */
  datatype State = State(
    board: Grid,
    currentPlayer: Side,
    playerSymbol: Side,
    computerSymbol: Side,
    gameActive: bool,
    vsComputer: bool,
    difficulty: Difficulty,
    wins: nat,
    losses: nat,
    ties: nat)

  /** Games decided so far. */
  function Tally(s: State): nat
  {
    s.wins + s.losses + s.ties
  }

  /** The values the variables start with when the page loads. */
  const Initial: State := State(EmptyGrid, X, X, O, true, false, Unset, 0, 0, 0)

  /** startGame(symbol): the player takes `symbol`, the computer the other mark, and the board is reset. */
  function Start(s: State, symbol: Side): (t: State)
    ensures t.board == EmptyGrid && t.gameActive
    ensures t.currentPlayer == t.playerSymbol == symbol && t.computerSymbol != symbol
    ensures t.vsComputer == s.vsComputer && t.difficulty == s.difficulty
    ensures t.wins == s.wins && t.losses == s.losses && t.ties == s.ties
  {
    s.(board := EmptyGrid, currentPlayer := symbol, playerSymbol := symbol,
       computerSymbol := Opponent(symbol), gameActive := true)
  }

  /** A click on cell `index` is taken only on a free cell of a running game. */
  predicate Accepts(s: State, index: Index)
    ensures Accepts(s, index) ==> s.gameActive && !IsFull(s.board)
  {
    s.board[index] == Empty && s.gameActive
  }

  /**
   * handleCellClick on cell `index`: the side to move takes the cell; a
   * completed line ends the game and credits a win when that side is the
   * player's mark and a loss otherwise; a full board ends it as a tie;
   * otherwise the turn passes to the other mark.
   */
  function Click(s: State, index: Index): (t: State)
    ensures !Accepts(s, index) ==> t == s
    ensures Accepts(s, index) ==> t.board == s.board[index := s.currentPlayer]
    ensures t.playerSymbol == s.playerSymbol && t.computerSymbol == s.computerSymbol
    ensures t.vsComputer == s.vsComputer && t.difficulty == s.difficulty
    ensures (s.gameActive && !t.gameActive) <==> Accepts(s, index) && (CheckWin(t.board) || IsFull(t.board))
    ensures t.gameActive ==> t.currentPlayer == if Accepts(s, index) then Opponent(s.currentPlayer) else s.currentPlayer
    ensures Accepts(s, index) && (CheckWin(t.board) || IsFull(t.board)) ==> t.currentPlayer == s.currentPlayer
    ensures Tally(t) == Tally(s) + if s.gameActive && !t.gameActive then 1 else 0
    ensures t.wins == s.wins + if Accepts(s, index) && CheckWin(t.board) && s.currentPlayer == s.playerSymbol then 1 else 0
    ensures t.losses == s.losses + if Accepts(s, index) && CheckWin(t.board) && s.currentPlayer != s.playerSymbol then 1 else 0
    ensures t.ties == s.ties + if Accepts(s, index) && !CheckWin(t.board) && IsFull(t.board) then 1 else 0
  {
    if !Accepts(s, index) then s
    else
      var b := s.board[index := s.currentPlayer];
      if CheckWin(b) then
        if s.currentPlayer == s.playerSymbol then s.(board := b, gameActive := false, wins := s.wins + 1)
        else s.(board := b, gameActive := false, losses := s.losses + 1)
      else if IsFull(b) then s.(board := b, gameActive := false, ties := s.ties + 1)
      else s.(board := b, currentPlayer := Opponent(s.currentPlayer))
  }

  /**
   * The second half of computerMove, once a cell has been chosen: the
   * computer's mark goes there; a completed line counts a loss and a full
   * board a tie, both ending the game; otherwise the player is to move.
   * Nothing happens when no cell was chosen.
   */
  function ComputerPlace(s: State, move: Option<Index>): (t: State)
    ensures move.None? ==> t == s
    ensures move.Some? ==> t.board == s.board[move.value := s.computerSymbol]
    ensures t.playerSymbol == s.playerSymbol && t.computerSymbol == s.computerSymbol
    ensures t.vsComputer == s.vsComputer && t.difficulty == s.difficulty
    ensures t.wins == s.wins
    ensures t.losses == s.losses + if move.Some? && CheckWin(t.board) then 1 else 0
    ensures t.ties == s.ties + if move.Some? && !CheckWin(t.board) && IsFull(t.board) then 1 else 0
    ensures Tally(t) == Tally(s) + if move.Some? && (CheckWin(t.board) || IsFull(t.board)) then 1 else 0
    ensures move.Some? && (CheckWin(t.board) || IsFull(t.board)) ==> !t.gameActive && t.currentPlayer == s.currentPlayer
    ensures move.Some? && !CheckWin(t.board) && !IsFull(t.board) ==> t.gameActive == s.gameActive && t.currentPlayer == s.playerSymbol
  {
    match move
    case None => s
    case Some(m) =>
      var b := s.board[m := s.computerSymbol];
      if CheckWin(b) then s.(board := b, gameActive := false, losses := s.losses + 1)
      else if IsFull(b) then s.(board := b, gameActive := false, ties := s.ties + 1)
      else s.(board := b, currentPlayer := s.playerSymbol)
  }

  /**
   * What holds between moves: the computer has the other mark, and a running
   * game has no complete line, a free cell, and marks that alternate starting
   * with the player's (the player's mark is one ahead exactly when the other
   * mark is to move).
   */
  ghost predicate Invariant(s: State)
  {
    s.computerSymbol == Opponent(s.playerSymbol)
    && (s.gameActive ==>
          !CheckWin(s.board) && !IsFull(s.board)
          && Count(s.board, s.playerSymbol)
             == Count(s.board, s.computerSymbol) + if s.currentPlayer == s.playerSymbol then 0 else 1)
  }

  /** The empty board: no complete line, not full, no marks. */
  lemma EmptyGridFacts()
    ensures !CheckWin(EmptyGrid) && !IsFull(EmptyGrid)
    ensures Count(EmptyGrid, X) == 0 && Count(EmptyGrid, O) == 0
  {
    NoLineComplete(EmptyGrid);
    assert EmptyGrid[0] == Empty;
    assert X !in EmptyGrid && O !in EmptyGrid;
  }

  lemma InitialInvariant()
    ensures Invariant(Initial)
  {
    EmptyGridFacts();
  }

  /** Every new game starts in a state that satisfies the invariant. */
  lemma StartInvariant(s: State, symbol: Side)
    ensures Invariant(Start(s, symbol))
  {
    EmptyGridFacts();
  }

  /** A click, accepted or not, keeps the invariant. */
  lemma ClickInvariant(s: State, index: Index)
    requires Invariant(s)
    ensures Invariant(Click(s, index))
  {
    if Accepts(s, index) {
      PlaceUsesOneCell(s.board, index, s.currentPlayer);
    }
  }

  /**
   * The computer's reply keeps the invariant when it comes on its turn (or
   * after the game has ended) and takes a free cell.
   */
  lemma ComputerPlaceInvariant(s: State, move: Option<Index>)
    requires Invariant(s)
    requires s.gameActive ==> s.currentPlayer == s.computerSymbol
    requires move.Some? ==> s.board[move.value] == Empty
    ensures Invariant(ComputerPlace(s, move))
  {
    if move.Some? {
      PlaceUsesOneCell(s.board, move.value, s.computerSymbol);
    }
  }

  /**
   * On its turn in a running game, the hard opponent always finds a cell, and
   * its reply keeps the invariant.
   */
  lemma HardReplyInvariant(s: State)
    requires Invariant(s) && s.gameActive && s.currentPlayer == s.computerSymbol
    ensures Search.Minimax(s.board, s.computerSymbol, s.computerSymbol).index.Some?
    ensures Invariant(ComputerPlace(s, Search.Minimax(s.board, s.computerSymbol, s.computerSymbol).index))
  {
    ComputerPlaceInvariant(s, Search.Minimax(s.board, s.computerSymbol, s.computerSymbol).index);
  }

  /**
   * computerMove does not look at gameActive: when a reply arrives after a
   * click has already ended the game on a completed line, and the selector
   * still returns a free cell (the easy one does while a cell is free; the
   * search returns none on a won board), the reply places a mark and counts a
   * second loss for that game.
   */
  lemma LateReplyCountsAnotherLoss(s: State, m: Index)
    requires !s.gameActive && CheckWin(s.board) && s.board[m] == Empty
    ensures ComputerPlace(s, Some(m)).losses == s.losses + 1
    ensures Tally(ComputerPlace(s, Some(m))) == Tally(s) + 1
  {
    CheckWinStaysWon(s.board, m, s.computerSymbol);
  }

  /**
   * The same late reply from the hard opponent does nothing: on a board with a
   * completed line the search chooses no cell, so nothing is placed or counted.
   */
  lemma LateHardReplyChangesNothing(s: State)
    requires CheckWin(s.board)
    ensures ComputerPlace(s, Search.Minimax(s.board, s.computerSymbol, s.computerSymbol).index) == s
  {
  }

  /**
   * A click never checks whose turn it is, so the invariant needs each reply
   * to come on the computer's turn. Against the easy opponent: X takes cell 0,
   * which schedules the reply; before it arrives, a second click places O on
   * cell 1; the reply then places O on cell 2. The game is still running and
   * the computer's mark is ahead of the player's.
   */
  lemma ClickDuringReplyDelayBreaksInvariant()
    ensures var s0 := Start(Initial.(vsComputer := true, difficulty := Easy), X);
      var s1 := Click(s0, 0);
      var s3 := ComputerPlace(Click(s1, 1), Some(2));
      Invariant(s0)
      && s1.gameActive && s1.vsComputer && s1.currentPlayer == s1.computerSymbol
      && s3.gameActive && Count(s3.board, O) == Count(s3.board, X) + 1
      && !Invariant(s3)
  {
    var s0 := Start(Initial.(vsComputer := true, difficulty := Easy), X);
    StartInvariant(Initial.(vsComputer := true, difficulty := Easy), X);
    var s3 := RaceSteps(s0);
    EmptyGridFacts();
    PlaceUsesOneCell(EmptyGrid, 0, X);
    PlaceUsesOneCell(EmptyGrid[0 := X], 1, O);
    PlaceUsesOneCell(EmptyGrid[0 := X][1 := O], 2, O);
  }

  /** The three steps of that sequence, state by state. */
  lemma RaceSteps(s0: State) returns (s3: State)
    requires s0.board == EmptyGrid && s0.gameActive && s0.vsComputer
    requires s0.currentPlayer == s0.playerSymbol == X && s0.computerSymbol == O
    ensures var s1 := Click(s0, 0);
      s1 == s0.(board := EmptyGrid[0 := X], currentPlayer := O)
      && s3 == ComputerPlace(Click(s1, 1), Some(2))
      && s3 == s0.(board := EmptyGrid[0 := X][1 := O][2 := O])
  {
    var b1 := EmptyGrid[0 := X];
    var b2 := b1[1 := O];
    var b3 := b2[2 := O];
    assert b1 == [X, Empty, Empty, Empty, Empty, Empty, Empty, Empty, Empty];
    assert b2 == [X, O, Empty, Empty, Empty, Empty, Empty, Empty, Empty];
    assert b3 == [X, O, O, Empty, Empty, Empty, Empty, Empty, Empty];
    NoLineComplete(b1);
    NoLineComplete(b2);
    NoLineComplete(b3);
    assert b1[1] == Empty && b2[2] == Empty && b3[3] == Empty;
    var s1 := QuietClick(s0, 0);
    var s2 := QuietClick(s1, 1);
    s3 := QuietReply(s2, 2);
  }

  /** A taken click that completes no line and leaves a free cell passes the turn. */
  lemma QuietClick(s: State, i: Index) returns (t: State)
    requires Accepts(s, i)
    requires !CheckWin(s.board[i := s.currentPlayer]) && !IsFull(s.board[i := s.currentPlayer])
    ensures t == Click(s, i)
    ensures t == s.(board := s.board[i := s.currentPlayer], currentPlayer := Opponent(s.currentPlayer))
  {
    t := Click(s, i);
  }

  /** A reply that completes no line and leaves a free cell hands the turn to the player. */
  lemma QuietReply(s: State, i: Index) returns (t: State)
    requires !CheckWin(s.board[i := s.computerSymbol]) && !IsFull(s.board[i := s.computerSymbol])
    ensures t == ComputerPlace(s, Some(i))
    ensures t == s.(board := s.board[i := s.computerSymbol], currentPlayer := s.playerSymbol)
  {
    t := ComputerPlace(s, Some(i));
  }

  /** The game page: every module-level variable of the session is a field. */
  class Game {
    var board: array<Cell>
    var currentPlayer: Side
    var playerSymbol: Side
    var computerSymbol: Side
    var gameActive: bool
    var vsComputer: bool
    var computerDifficulty: Difficulty
    var wins: nat
    var losses: nat
    var ties: nat

    ghost predicate Valid()
      reads this
    {
      board.Length == 9
    }

    ghost function Snapshot(): State
      reads this, board
      requires Valid()
    {
      State(board[..], currentPlayer, playerSymbol, computerSymbol, gameActive,
            vsComputer, computerDifficulty, wins, losses, ties)
    }

    /** The variables' values when the page loads. */
    constructor ()
      ensures Valid() && fresh(board) && Snapshot() == Initial
    {
      board := new Cell[9](_ => Empty);
      currentPlayer := X;
      playerSymbol := X;
      computerSymbol := O;
      gameActive := true;
      vsComputer := false;
      computerDifficulty := Unset;
      wins, losses, ties := 0, 0, 0;
      new;
      assert board[..] == EmptyGrid;
    }

    /** The mode buttons: against another player or against the computer. */
    method SelectMode(againstComputer: bool)
      requires Valid()
      modifies this
      ensures Valid() && board == old(board)
      ensures Snapshot() == old(Snapshot()).(vsComputer := againstComputer)
    {
      vsComputer := againstComputer;
    }

    /** startSymbolSelection(difficulty): records the difficulty. */
    method SelectDifficulty(difficulty: Difficulty)
      requires Valid()
      modifies this
      ensures Valid() && board == old(board)
      ensures Snapshot() == old(Snapshot()).(difficulty := difficulty)
    {
      computerDifficulty := difficulty;
    }

    /** startGame(symbol). */
    method StartGame(symbol: Side)
      requires Valid()
      modifies this
      ensures Valid() && fresh(board)
      ensures Snapshot() == Start(old(Snapshot()), symbol)
    {
      playerSymbol := symbol;
      computerSymbol := if symbol == X then O else X;
      ResetBoard();
    }

    /** resetBoard: a new empty board, a running game, the player to move. */
    method ResetBoard()
      requires Valid()
      modifies this
      ensures Valid() && fresh(board)
      ensures Snapshot() == old(Snapshot()).(board := EmptyGrid, gameActive := true, currentPlayer := old(playerSymbol))
    {
      board := new Cell[9](_ => Empty);
      assert board[..] == EmptyGrid;
      gameActive := true;
      currentPlayer := playerSymbol;
    }

    /**
     * handleCellClick on cell `index`. `replyDue` says that the computer's
     * reply is to be scheduled (the timer is not modelled: the caller runs
     * ComputerMove when it fires).
     */
    method HandleCellClick(index: Index) returns (replyDue: bool)
      requires Valid()
      modifies this, board
      ensures Valid() && board == old(board)
      ensures Snapshot() == Click(old(Snapshot()), index)
      ensures replyDue <==> Accepts(old(Snapshot()), index) && gameActive && vsComputer && currentPlayer == computerSymbol
    {
      ghost var s := Snapshot();
      if board[index] != Empty || !gameActive {
        return false;
      }
      board[index] := currentPlayer;
      assert board[..] == s.board[index := currentPlayer];

      if CheckWin(board[..]) {
        gameActive := false;
        if currentPlayer == playerSymbol {
          wins := wins + 1;
        } else {
          losses := losses + 1;
        }
        return false;
      }

      if IsFull(board[..]) {
        gameActive := false;
        ties := ties + 1;
        return false;
      }

      currentPlayer := if currentPlayer == X then O else X;
      replyDue := vsComputer && currentPlayer == computerSymbol;
    }

    /**
     * computerMove: the easy selector when the difficulty is Easy, the hard
     * one otherwise, then the chosen cell is played.
     */
    method ComputerMove() returns (move: Option<Index>)
      requires Valid()
      modifies this, board
      ensures Valid() && board == old(board)
      ensures computerDifficulty == Easy ==>
        (move.Some? <==> !IsFull(old(board[..]))) && (move.Some? ==> old(board[move.value]) == Empty)
      ensures computerDifficulty != Easy ==>
        move == Search.Minimax(old(board[..]), computerSymbol, computerSymbol).index
      ensures Snapshot() == ComputerPlace(old(Snapshot()), move)
    {
      if computerDifficulty == Easy {
        move := EasyComputerMove();
      } else {
        move := HardComputerMove();
      }
      assert Snapshot() == old(Snapshot());
      PlayComputerMove(move);
    }

    /**
     * The part of computerMove after a cell is chosen: the computer's mark
     * goes there, then the win and full-board tests, as ComputerPlace says.
     */
    method PlayComputerMove(move: Option<Index>)
      requires Valid()
      modifies this, board
      ensures Valid() && board == old(board)
      ensures Snapshot() == ComputerPlace(old(Snapshot()), move)
    {
      if move.Some? {
        board[move.value] := computerSymbol;
        assert board[..] == old(board[..])[move.value := computerSymbol];

        if CheckWin(board[..]) {
          gameActive := false;
          losses := losses + 1;
          return;
        }

        if IsFull(board[..]) {
          gameActive := false;
          ties := ties + 1;
          return;
        }

        currentPlayer := playerSymbol;
      }
    }

    /**
     * easyComputerMove: some free cell, or none on a full board. Which one is
     * left open; the game draws it at random.
     */
    method EasyComputerMove() returns (move: Option<Index>)
      requires Valid()
      ensures move.Some? <==> !IsFull(board[..])
      ensures move.Some? ==> board[move.value] == Empty
    {
      var availableMoves := AvailableMoves(board[..]);
      if |availableMoves| == 0 {
        return None;
      }
      var k :| 0 <= k < |availableMoves|;
      move := Some(availableMoves[k]);
    }

    /** hardComputerMove: the cell minimax chooses for the computer's mark. */
    method HardComputerMove() returns (move: Option<Index>)
      requires Valid()
      modifies board
      ensures board[..] == old(board[..])
      ensures move == Search.Minimax(old(board[..]), computerSymbol, computerSymbol).index
    {
      var result := Minimax(computerSymbol);
      move := result.index;
    }

    /**
     * findWinningMove(symbol): tries `symbol` on each free cell in turn,
     * checks for a win and clears the cell again; answers the first winning
     * cell or -1.
     */
    method FindWinningMove(symbol: Side) returns (found: int)
      requires Valid()
      modifies board
      ensures board[..] == old(board[..])
      ensures found == FirstWinningMove(old(board[..]), symbol, 0)
    {
      ghost var b: Grid := board[..];
      var index := 0;
      while index < 9
        invariant index <= 9
        invariant board[..] == b
        invariant FirstWinningMove(b, symbol, index) == FirstWinningMove(b, symbol, 0)
      {
        if board[index] == Empty {
          board[index] := symbol;
          assert board[..] == b[index := symbol];
          var win := CheckWin(board[..]);
          board[index] := Empty;
          assert board[..] == b;
          if win {
            return index;
          }
        }
        index := index + 1;
      }
      return -1;
    }

    /**
     * minimax(board, player) on the shared board: each free cell in turn gets
     * `player`'s mark, is searched with the opponent to move, and is cleared
     * again; the board is left as it was found.
     */
    method Minimax(player: Side) returns (e: Evaluation)
      requires Valid()
      modifies board
      ensures board[..] == old(board[..])
      ensures e == Search.Minimax(old(board[..]), player, computerSymbol)
      decreases EmptyCount(board[..])
    {
      var opponent := if player == X then O else X;

      if CheckWin(board[..]) {
        return Evaluation(if player == computerSymbol then 10 else -10, None);
      }
      if IsFull(board[..]) {
        return Evaluation(0, None);
      }

      ghost var b: Grid := board[..];
      var scores: seq<int> := [];
      var moves: seq<Index> := [];
      var index := 0;
      while index < 9
        invariant index <= 9
        invariant board[..] == b
        invariant scores == ChildScores(b, player, computerSymbol, index)
        invariant moves == EmptyIndices(b, index)
      {
        if board[index] == Empty {
          board[index] := player;
          assert board[..] == b[index := player];
          PlaceUsesOneCell(b, index, player);
          var result := Minimax(opponent);
          board[index] := Empty;
          assert board[..] == b;
          scores := scores + [result.score];
          moves := moves + [index];
        }
        index := index + 1;
      }

      assert exists i: nat :: i < 9 && b[i] == Empty && i in moves;
      var bestMoveIndex := IndexOf(scores, Max(scores));
      e := Evaluation(scores[bestMoveIndex], Some(moves[bestMoveIndex]));
    }
  }
}
