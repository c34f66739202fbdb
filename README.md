# Tic-tac-toe decision engine

A Dafny model of the decision engine of `tictactoe.py`, a console
tic-tac-toe game where a human (`O`) plays against the computer (`X`). The
model covers:

- the board and its win lines;
- the winner, draw and available-moves queries, and the scan for moves that win at once;
- the memo key of the search;
- the memoized minimax search, which places and reverts marks on the board in place;
- the selector `best_ai_move`;
- the selector `choose_ai_move`, which plays the perfect move or makes a deliberate mistake, depending on the difficulty.

The files follow the structure of the program:

- `board.dfy` (module `Board`): cells, `WinLines`, `Winner`, `IsDraw`,
  `AvailableMoves` and the in-place `WinningMoves` scan.
- `memokey.dfy` (module `MemoKey`): `BoardKey` and a parser that inverts it,
  which proves the key injective.
- `search.dfy` (module `Search`): the game value `Value` of a position,
  defined by recursion on the number of empty cells, and the method
  `Minimax`, which works in place on an `array<Cell>` with a `MemoTable`.
  `Minimax` is proved to return `Value` whenever every memo entry already
  holds the value of its key, and to keep the memo that way.
- `selector.dfy` (module `Selector`): the scan of `best_ai_move`, specified
  by the fold `ScanMoves`, and `choose_ai_move`. The random draws of
  `choose_ai_move` become parameters.

The board is an `array<Cell>` of length 9, changed in place as the source
does. Every method that places a mark promises that the board is unchanged
on return. In each method, the specification functions are written over
the board's contents `b[..]`.

## Model

| member | source | states |
|---|---|---|
| Board.WinnerOf | tictactoe.py:29-31 | the scan of `winner` over a list of lines, in order; its own contract says only that a result is never EMPTY, and `Board.WinnerOfMeaning` gives its full meaning |
| Board.Winner | tictactoe.py:28-32 | `winner`: the scan over the eight win lines; its own contract says only that a result is never EMPTY, and `Board.WinnerMeaning` gives its full meaning |
| Board.WinnerOfMeaning | tictactoe.py:28-32 | scanning a list of lines finds nothing exactly when no line is complete; a result is a non-empty mark owning a line, and every earlier line is incomplete |
| Board.WinnerMeaning | tictactoe.py:12-16 | over the eight win lines in source order, `winner` is None exactly when no line holds three equal non-empty marks; otherwise it is the non-empty mark that owns the first complete line |
| Board.AvailableFrom | tictactoe.py:37-38 | the empty cells from index i on: each returned index is in range and empty, the list ascends strictly, and every empty index at or after i is in it |
| Board.AvailableMoves | tictactoe.py:37-38 | exactly the indices of empty cells, in strictly ascending order |
| Board.NoMovesIffFull | tictactoe.py:37-38 | there is no move exactly when no cell is empty |
| Board.MoveIndex | tictactoe.py:37-38 | every empty cell has a position in `available_moves`: an index i with `AvailableMoves(s)[i] == m` |
| Board.IsDraw | tictactoe.py:34-35 | a draw holds exactly when there is no winner and no move is left |
| Board.NonTerminalHasMove | tictactoe.py:55-61 | a board with no winner that is not a draw has an empty cell, so the search below it has a move |
| Board.CountEmptyPlace | tictactoe.py:72 | placing a mark on an empty cell decreases the number of empty cells by one: the measure on which the search terminates |
| Board.PlaceRevert | tictactoe.py:72-74 | unfolding helper for the revert steps: writing a mark to an empty cell and then writing EMPTY back gives the original board |
| Board.ImmediateWins | tictactoe.py:43-46 | a move is kept exactly when it is among the visited moves and placing the player's mark there makes that player the winner |
| Board.ImmediateWinsStep | tictactoe.py:43-46 | unfolding helper for one loop iteration of `winning_moves`: the next move is appended exactly when it wins at once |
| Board.ImmediateWinsAscending | tictactoe.py:43-46 | a filter applied to an ascending list of moves yields an ascending list |
| Board.WinningMovesMeaning | tictactoe.py:40-48 | `winning_moves` ascends, is a subset of `available_moves`, and holds m exactly when m is empty and placing the player's mark there wins |
| Board.WinningMoves | tictactoe.py:40-48 | the in-place scan returns the immediate wins over `available_moves`, and the board is unchanged on return |
| MemoKey.CellChar | tictactoe.py:8-10 | the marks `O`, `X` and space; it has no contract of its own, and `MemoKey.CharCell` states that it can be read back |
| MemoKey.CharCell | tictactoe.py:8-10 | reading a character back gives a cell only if that cell is written as that character |
| MemoKey.Join | tictactoe.py:52 | the joined board has one character per cell, and each character reads back as its cell |
| MemoKey.ParseJoin | tictactoe.py:52 | parsing a joined board gives back the board |
| MemoKey.BoardKey | tictactoe.py:51-52 | `board_key`: the joined board followed by the turn's mark; it has no contract of its own, and `MemoKey.KeyRoundTrip` and `MemoKey.BoardKeyInjective` give its meaning |
| MemoKey.KeyRoundTrip | tictactoe.py:51-52 | the key of a (board, turn) pair parses back to exactly that pair |
| MemoKey.BoardKeyInjective | tictactoe.py:51-52 | two states with the same key have the same board and the same turn, so distinct states never share a memo entry |
| Search.Value | tictactoe.py:54-86 | the game value that `minimax` computes: 1, -1 or 0 on a finished game, otherwise the fold of the children over `available_moves`; it has no contract of its own, and `Search.ValueRange`, `Search.ValueIsMinimax` and `Search.ValueAttained` give its meaning |
| Search.ChildrenBest | tictactoe.py:69-86 | the value of `best` after the search loop has visited a prefix of the moves, from -10 (AI) or 10 (otherwise); it has no contract of its own, and `Search.ChildrenBestRange`, `Search.ChildrenBestBound` and `Search.ChildrenBestAttained` give its meaning |
| Search.ChildrenBestStep | tictactoe.py:71-75 | unfolding helper for one loop iteration: it combines `best` with the value of the next move (max for AI, min otherwise) |
| Search.ValueUnfold | tictactoe.py:67-86 | unfolding helper for the definition of `Value`: on a board where the game goes on, the game value is the loop's `best` over `available_moves` |
| Search.ValueRange | tictactoe.py:54-86 | every game value is -1, 0 or 1 |
| Search.ChildrenBestRange | tictactoe.py:69-86 | over at least one move, the loop's `best` leaves its start -10/10 and lies in -1..1 |
| Search.ChildrenBestBound | tictactoe.py:69-86 | the loop's `best` is at least (AI to move) or at most (otherwise) the value of every visited move |
| Search.ChildrenBestAttained | tictactoe.py:69-86 | over at least one move, some visited move attains the loop's `best` |
| Search.ValueIsMinimax | tictactoe.py:69-86 | on a board where the game goes on, the value is at least every child's value when AI moves and at most every child's value when HUMAN moves |
| Search.ValueAttained | tictactoe.py:69-86 | on a board where the game goes on, some empty cell's child value equals the value, so the value is the maximum/minimum over the children |
| Search.StoreKeepsSound | tictactoe.py:63-86 | storing a state's true value under its key keeps every memo entry equal to the value of the state it names |
| Search.MemoTable.constructor | tictactoe.py:89 | a new memo is empty |
| Search.Minimax | tictactoe.py:54-86 | with a sound memo: returns the game value (1/-1/0 on AI-win, HUMAN-win or draw); on a memo hit returns the stored score; restores the board; on a board where the game goes on, the returned score is stored under `board_key(b, turn)`; keeps the memo sound and only adds entries; terminal boards and memo hits leave the memo unchanged |
| Search.MaxOverMoves | tictactoe.py:69-77 | the AI loop returns the maximum (from -10) of the children's values, restores the board, and keeps the memo sound |
| Search.MinOverMoves | tictactoe.py:78-86 | the HUMAN loop returns the minimum (from 10) of the children's values, restores the board, and keeps the memo sound |
| Selector.ScanMoves | tictactoe.py:101-137 | the state of the loop of `best_ai_move` after a prefix of the moves: still scanning with best score and move, or stopped on an immediate win; it has no contract of its own, and `Selector.ScanningNoWin`, `Selector.ScanningBest`, `Selector.WonFacts` and `Selector.ScanWonStays` give its meaning |
| Selector.BestMove | tictactoe.py:88-140 | the move `best_ai_move` returns; it has no contract of its own, and `Selector.BestMoveCorrect` gives its meaning |
| Selector.ScanStepWon | tictactoe.py:101-110 | unfolding helper for one loop iteration: a scan still in progress that meets an immediately winning move stops on it |
| Selector.ScanStepScore | tictactoe.py:113-137 | unfolding helper for one loop iteration: a scan still in progress that meets a move that does not win at once replaces the best move only on a strictly greater minimax score |
| Selector.ScanStepStopped | tictactoe.py:106-110 | unfolding helper for one loop iteration: a scan that has stopped on a win is not changed by further moves |
| Selector.ScanWonStays | tictactoe.py:106-110 | once the scan stops on a win, the remaining moves do not change the result: the early return |
| Selector.ScanningNoWin | tictactoe.py:101-110 | while the scan goes on, no visited move wins at once |
| Selector.ScanningBest | tictactoe.py:135-137 | while the scan goes on, the best move (-1 before any move) is a visited empty cell with the largest minimax score, and every earlier visited move scores strictly less |
| Selector.WonFacts | tictactoe.py:101-110 | a stopped scan stopped on the lowest visited move that wins at once |
| Selector.BestMoveCorrect | tictactoe.py:88-140 | `best_ai_move` gives -1 on a full board, otherwise an empty cell among `available_moves`; if a move wins at once, the lowest such move; otherwise the lowest move with the greatest minimax score |
| Selector.ImmediateWinExample | tictactoe.py:101-110 | with AI on 0 and 1 and HUMAN on 3 and 4, the selector completes the top row at 2 |
| Selector.BestAiMove | tictactoe.py:88-140 | the in-place loop with its early return computes `BestMove` of the board it was given, with one fresh memo, and restores the board |
| Selector.OtherMoves | tictactoe.py:170 | a move is kept exactly when it is one of the moves and differs from the best move |
| Selector.Decide | tictactoe.py:150-173 | "hard", a single move and a draw below the perfect-play probability each give the best move; otherwise the result exists exactly when some move differs from the best, and it is such a move |
| Selector.DecideMistake | tictactoe.py:170-171 | unfolding helper for the mistake branch of `Decide`: the result is the other move at index `pick` modulo their number |
| Selector.MistakeReachesEveryOther | tictactoe.py:170-171 | on the mistake branch, every move other than the best is the result for some `pick`, so the parameter ranges over all that `random.choice` can draw |
| Selector.MistakeAvailable | tictactoe.py:154-171 | with two or more empty cells and a difficulty other than hard, the mistake branch always yields an empty cell other than the perfect move |
| Selector.ChooseAiMove | tictactoe.py:142-173 | `choose_ai_move` returns what `Decide` gives for the board's moves and perfect move, and restores the board |

## Left out

- `print_board`, `ask_human_move`, `choose_starting_player`, `choose_difficulty` and `main` are left out: these are console I/O and the interactive game loop.
- All printed narration inside `best_ai_move` and `choose_ai_move` is left out, since it never affects which move is chosen. This includes:
  - the threat lists (lines 93-99 and 113);
  - the score table with its flags (lines 121-133);
  - the "Chosen move" lines (lines 107, 109 and 139);
  - the messages at lines 166 and 172.
  The `winning_moves` call at line 113 changes nothing either: it restores the board. It is modelled on its own as `Board.WinningMoves`.
- Randomness is not modelled; the draws become parameters:
  - `playBest` stands for the outcome of `random.random() < p_best` (line 165);
  - `pick` stands for the index `random.choice` draws, taken modulo the number of other moves (line 171).
- The probabilities 0.7 and 0.35 (lines 159-162) are left out, because they only affect the draw behind `playBest`. So `Easy` and `Medium` behave the same in the model.
- The difficulty is a `Difficulty` datatype, not a string. In the source, any string other than "hard" and "medium" behaves like "easy"; `Easy` stands for all of them.
- Statistical claims about how often each difficulty errs are not modelled.
- Two more concrete boards are not evaluated, for the same reason as the draw below: each needs a whole game subtree searched.
  - The blocking board: HUMAN on 0 and 1, AI on 4, where the answer is 2.
  - The empty board, where the lowest-index tie-break picks the first best move.
- That perfect play from the empty board always draws is not proved: it needs evaluating the whole game tree, which is beyond what the verifier handles cheaply. Only a small concrete board (`Selector.ImmediateWinExample`) is evaluated.
- Selector.ChooseAiMove: on a board with no move other than the best, the source's `random.choice` raises IndexError. The model returns `None` there instead of raising an exception.
- Search.Minimax: its contract cannot say that terminal boards do not *read* the memo. It only states that they leave it unchanged.
- Search.Minimax: the two loops of `minimax` are the separate methods `Search.MaxOverMoves` and `Search.MinOverMoves`, which it calls. `MinOverMoves` takes the turn as a ghost parameter so that its result matches the game value of the turn passed in.
- A turn value other than `X` or `O` takes the HUMAN branch of `minimax`, as in the source. The model has no such value, because `Cell` has only three cases: the third, Empty, is played as HUMAN here too.
