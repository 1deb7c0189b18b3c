# Tic-tac-toe rules engine and computer opponent

A Dafny model of the game logic of a browser tic-tac-toe game (`3.js`): the
win test over the eight lines of the 3x3 board, the session state that a cell
click and the computer's reply update (board, side to move, the two marks,
whether a game is running, mode, difficulty, wins/losses/ties), game start
and board reset, and the three move selectors — a random free cell ("easy"),
the exhaustive search `minimax` ("hard") and the one-move lookahead
`findWinningMove`.

Three modules:

- `Board` (`board.dfy`): cells, the table of winning lines, `CheckWin`,
  `IsFull`, the free-cell list. `CheckWin` is proved equal to an independent
  row/column/diagonal definition in grid coordinates.
- `Search` (`search.dfy`): the searches as functions of the board. `Minimax`
  is the game's own variant, kept as written:
  - a terminal board scores +10 when the side *to move* there is the
    computer, -10 otherwise, 0 when full;
  - every level takes the maximum of its children (no alternation);
  - ties go to the lowest cell (indexOf of the maximum).
  `MinimaxPicksFirstBestChild` characterises the choice. `CompletingMoveScore`
  and `DeclinesImmediateWin` show the consequence of that scoring: a cell that
  completes the computer's line scores -10 for the computer, so on a concrete
  board the hard opponent passes up a win and lets the player complete a line.
- `Session` (`session.dfy`): class `Game`, whose fields are the game's
  module-level variables. Its methods are the handlers:
  - `HandleCellClick` and `ComputerMove` update the fields;
  - `Minimax` and `FindWinningMove` place a mark on the shared board array,
    search, then clear the cell again.
  Each method is proved to compute a function on `State` values (`Click`,
  `ComputerPlace`, `Start`) or on the board (`Search.Minimax`,
  `FirstWinningMove`), and to leave the board as it found it where the source
  undoes its trial moves. The lemmas about those functions give the session
  invariant, as long as each reply comes on the computer's turn: the
  computer holds the other mark, and a running game has no complete line,
  has a free cell, and has marks that alternate starting with the player's. The contracts of `Click` and `ComputerPlace` state the score
  accounting counter by counter.

Behaviour of the code worth knowing, all kept in the model:

- The win test answers only yes/no; there is no separate winner or tie
  outcome. A tie is "no line, board full", tested after the win test.
- A click on a taken cell, or after the game ended, is ignored silently (no
  error).
- The hard opponent does not play textbook minimax. It does not always take
  an immediate win (`Search.DeclinesImmediateWin`).
- A click never checks whose turn it is. During the delay before the
  computer's reply, the player can place the computer's mark. The reply
  that follows then puts the computer's mark ahead of the player's in a game
  that is still running, which breaks the alternation of the session
  invariant (`Session.ClickDuringReplyDelayBreaksInvariant`).
- `computerMove` never checks `gameActive`. Suppose the player's click ends
  the game on a complete line before the reply arrives. With the easy
  selector, while a free cell remains, the reply still places a mark and
  counts another loss (`Session.LateReplyCountsAnotherLoss`). With the hard
  selector it does nothing, because the search chooses no cell on a won
  board (`Session.LateHardReplyChangesNothing`). On a full board neither
  selector returns a cell.
- In `handleCellClick` both arms of the mode test increment `losses`.
- `resetBoard` makes the player's mark move first, even when it is O.

Inputs from outside the core are parameters or choices:

- the clicked cell is an `Index` (0..8);
- the random draw of the easy opponent is a nondeterministic choice among the
  free cells (`:|`);
- the 500 ms timer is the `replyDue` result of `HandleCellClick`, after which
  the caller runs `ComputerMove`.

## Model

| member | source | states |
|---|---|---|
| `Board.Opponent` | 3.js:243 | The other mark differs from the given one. |
| `Board.CheckWin` | 3.js:159-175 | Some line of the eight-line table is taken and holds one mark three times. Its meaning on the grid is proved by `Board.CheckWinIsThreeInARow`. |
| `Board.IsFull` | 3.js:101 | Every cell is taken, which holds exactly when the count of free cells is zero. |
| `Board.CheckWinIsThreeInARow` | 3.js:159-175 | The table-driven win test holds exactly when some row, column or diagonal of the 3x3 grid holds one mark three times (both directions). |
| `Board.CheckWinStaysWon` | 3.js:159-175 | Placing a mark on a free cell never undoes a completed line. |
| `Board.EmptyIndices` | 3.js:251-258 | The cells visited so far that were free, in ascending order: each is free, every free cell below the bound is listed, strictly increasing. |
| `Board.AvailableMoves` | 3.js:218-219 | The easy opponent's candidate list holds exactly the free cells, ascending, and is empty exactly when the board is full. |
| `Board.PlaceUsesOneCell` | 3.js:251-256 | A mark on a free cell removes one free cell and adds one mark of that side, leaving the other side's count alone (the search's termination measure and the turn count). |
| `Search.Max` | 3.js:261 | The largest score is one of the scores and no score exceeds it. |
| `Search.IndexOf` | 3.js:261 | The first position of a value, or -1 exactly when it is absent; no earlier position holds it. |
| `Search.Minimax` | 3.js:242-263 | The score is always 10, 0 or -10; no cell is chosen exactly when the board has a complete line or is full; a chosen cell is free. |
| `Search.ChildScores` | 3.js:248-259 | One score per free cell visited, each 10, 0 or -10. |
| `Search.ChildScore` | 3.js:253-254 | The score of the child in which the side to move has taken a free cell, with the other side to move; it is 10, 0 or -10. |
| `Search.ChildScoresAt` | 3.js:251-259 | The k-th collected score is the search result of the child made by taking the k-th free cell. |
| `Search.MinimaxPicksFirstBestChild` | 3.js:248-262 | On a non-terminal board the chosen cell is free, its child score is the result, no free cell scores higher, and every free cell before it scores strictly lower. |
| `Search.MinimaxAtTerminal` | 3.js:245-246 | At a board with a complete line the score is +10 if the side to move is the computer and -10 otherwise; at a full board 0; no cell is chosen. |
| `Search.CompletingMoveScore` | 3.js:243-254 | A cell that completes a line for the mover scores -10 when the mover is the computer and +10 when it is the player. |
| `Search.DeclinesImmediateWin` | 3.js:242-263 | On the board `_ _ O / X O X / X X O`, O (the computer, to move) would win at cell 0, but the search answers cell 1 with score 10, after which X completes the first column. |
| `Search.FirstWinningMove` | 3.js:229-239 | The first free cell at which the mark completes a line, or -1 exactly when no free cell does. |
| `Session.Start` | 3.js:73-80 | A new game has an empty board and is running. The chosen mark is the player's and moves first. The computer has the other mark. Mode, difficulty and counters are kept. |
| `Session.Accepts` | 3.js:86 | A click is taken only on a free cell of a running game; such a game's board is not full. |
| `Session.Click` | 3.js:83-108 | A click on a taken cell or after the game is over changes nothing. Otherwise only that cell changes, to the mark to move. The game ends exactly when a line is complete or the board is full, and the side to move is then kept. Counter by counter: `wins` goes up by one exactly when the click completes a line with the player's mark, `losses` exactly when it completes a line with the other mark, `ties` exactly when it fills the board without a line. Otherwise the turn passes. |
| `Session.ComputerPlace` | 3.js:130-150 | With no chosen cell nothing changes. Otherwise only that cell changes, to the computer's mark. `wins` never changes. `losses` goes up by one exactly when the placement leaves a complete line, `ties` exactly when it fills the board without one; either way the game ends and the side to move is kept. Otherwise the game's running flag is unchanged and the player is to move. |
| `Session.InitialInvariant` | 3.js:12-21 | The page-load values satisfy the session invariant. |
| `Session.StartInvariant` | 3.js:201-208 | Every game start establishes the session invariant. |
| `Session.ClickInvariant` | 3.js:86-108 | Every click keeps the session invariant (no complete line and a free cell while running, alternating marks). |
| `Session.ComputerPlaceInvariant` | 3.js:130-150 | The computer's reply on its turn at a free cell keeps the session invariant. |
| `Session.HardReplyInvariant` | 3.js:224-226 | On its turn in a running game the hard opponent always finds a cell, and placing it keeps the invariant. |
| `Session.LateReplyCountsAnotherLoss` | 3.js:130-139 | A reply that still places a mark on a free cell after a game already ended on a complete line counts one more loss (this happens with the easy selector). |
| `Session.ClickDuringReplyDelayBreaksInvariant` | 3.js:83-111 | Against the easy opponent, X on cell 0 schedules the reply. A second click during the delay places O on cell 1, and the reply on cell 2 leaves a running game with two O's and one X, which violates the session invariant. |
| `Session.QuietClick` | 3.js:86-108 | A taken click that completes no line and leaves a free cell only places the mark and passes the turn. |
| `Session.QuietReply` | 3.js:130-148 | A reply that completes no line and leaves a free cell only places the computer's mark and gives the player the turn. |
| `Session.LateHardReplyChangesNothing` | 3.js:124-130 | On a board with a complete line the hard selector chooses no cell, so its reply changes nothing. |
| `Session.Game.constructor` | 3.js:12-21 | The fields start with the page-load values (empty board, X to move, player X, computer O, running, two-player mode, no difficulty, zero counters). |
| `Session.Game.SelectMode` | 3.js:30-40 | Only the mode changes. |
| `Session.Game.SelectDifficulty` | 3.js:46-50 | Only the difficulty changes. |
| `Session.Game.StartGame` | 3.js:73-80 | The new state is `Start` of the old one, on a fresh board array. |
| `Session.Game.ResetBoard` | 3.js:201-208 | A fresh empty board, a running game, the player's mark to move; nothing else changes. |
| `Session.Game.HandleCellClick` | 3.js:83-114 | The new state is `Click` of the old one; a reply is due exactly when the click was taken, the game goes on, the mode is against the computer and the computer's mark is to move. |
| `Session.Game.ComputerMove` | 3.js:121-151 | The easy selector returns a free cell exactly when one exists. The hard selector returns the cell `Search.Minimax` chooses for the computer. The new state is `ComputerPlace` of the old one with that choice. |
| `Session.Game.PlayComputerMove` | 3.js:130-150 | The new state is `ComputerPlace` of the old one with the given choice, on the same board array. |
| `Session.Game.EasyComputerMove` | 3.js:218-221 | Returns some free cell, and none exactly when the board is full; the board is only read. |
| `Session.Game.HardComputerMove` | 3.js:224-226 | Returns the cell `Search.Minimax` chooses for the computer's mark, and leaves the board as it was. |
| `Session.Game.FindWinningMove` | 3.js:229-239 | Returns `FirstWinningMove` of the board, and leaves the board as it was after the trial placements. |
| `Session.Game.Minimax` | 3.js:242-263 | Returns `Search.Minimax` of the shared board with the computer's mark, and leaves the board as it was after the trial placements. |

## Left out

- Page elements: element lookups, showing and hiding screens, cell text,
  `updateGameStatus` and `updateScoreBoard` rendering. They are presentation
  only.
- `gameOver` is modelled only through its effect `gameActive = false`. The
  result messages it shows are not modelled.
- Event-listener registration, the play/back/home buttons and `window.close`
  are left out. They are navigation between screens and a host call.
- The 500 ms `setTimeout` before the computer's reply is not modelled.
  `HandleCellClick` reports that a reply is due, and the caller runs
  `ComputerMove`. Interleavings with other clicks are whatever order the
  caller chooses.
- Reading the cell number from the clicked element's attribute (a string) is
  not modelled; the index is an `Index` in 0..8.
- Session.Game.EasyComputerMove: does not model `Math.random`'s distribution.
  The choice is any free cell, so uniformity over the free cells is not
  stated.
- `findWinningMove` is modelled and proved, but no handler of the game calls
  it, and neither does the model.
