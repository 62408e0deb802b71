# Tic-tac-toe game state, in Dafny

This project models the game logic of a browser tic-tac-toe component (`src/main.rs`). It has two parts:

- **Winner evaluation** (module `Board`). `calculate_winner` scans the eight lines in a fixed order: rows top to bottom, then columns left to right, then the two diagonals. It returns the mark on the first line whose three squares hold the same mark, or `None` if there is no such line. In the model the `SquareValue` variants `X`, `O` and `None` are `Cell.X`, `Cell.O` and `Cell.Empty`, and a `[SquareValue; 9]` array is a `Snapshot`.
- **Game state** (modules `History` and `Game`). The component keeps `history`, every board snapshot so far, and `step`, the snapshot being viewed.
  - `handle_click(i)` ignores the click when the viewed snapshot already has a winner or square `i` is taken. Otherwise it drops the snapshots after `step`, appends a copy of the viewed snapshot with square `i` marked, and advances `step`. The mark is X from an even step and O from an odd one.
  - `jump_to(s)` only sets `step`.
  - The component's `winner` state is recomputed from `history[step]` whenever either changes, so the model has no separate field for it. `Game.TicTacToe.CurrentWinner` is `Winner(history[step])`.

`History.Click` is the pure specification of a click. The method `Game.TicTacToe.HandleClick` follows the handler step by step: truncate the copy, read the viewed snapshot, check, mark, append, then store. Its contract ties the new state to `Click`.

The history invariant `History.ValidHistory` has two parts:
- Snapshot 0 is the empty board.
- Each later snapshot is one legal move after the snapshot before it. The earlier snapshot has no winner, and exactly one of its empty squares receives the mark of the player for that step.

Both handlers preserve this invariant. On top of it the model proves three things:
- the mark counts of every snapshot (X and O alternate, and a game has at most nine moves);
- after a move, only the player who made it can hold a line, so on any board reached in play the order of the scan does not matter;
- the "next player" that is displayed is the player whose mark the next accepted click places.

Two behaviours of the code are easy to misread:
- **No draw check.** `src/main.rs:126` rejects a click only when there is a winner or the square is taken. A full board still rejects every click, because every square is taken (`History.FullBoardRejects`).
- **No bounds check in `jump_to`.** An out-of-range step would panic at the next read of `history[step]` (`src/main.rs:150`). The view offers only indices below `history.len()` (`src/main.rs:162-168`), so `JumpTo` requires `s < |history|`.

## Model

| member | source | states |
|---|---|---|
| Board.WinnerFrom | src/main.rs:95-105 | Scanning the lines from position k on returns `Empty` exactly when none of them is complete. Otherwise it returns the mark of a complete line that has no complete line before it in the scan. |
| Board.Winner | src/main.rs:83-106 | The winner is `Empty` if and only if no line is complete. Otherwise it is the mark on the first complete line in the order rows, columns, diagonals. |
| Board.WinnerOfFirstLine | src/main.rs:95-102 | For any line that is complete with no complete line before it, the winner is that line's mark. This is the early return on the first match. |
| Board.WinnerHoldsLine | src/main.rs:97-101 | A non-empty winner holds a whole line. A player who holds no line is never the winner. |
| Board.EmptyBoardHasNoWinner | src/main.rs:79-105 | The initial empty board has no winner. |
| History.PlayerAt | src/main.rs:130-134 | The mark placed from step n is never `Empty`. It is X exactly when n is even. |
| History.MoveChangesOneSquare | src/main.rs:125-134 | A move changes exactly one square. That square goes from empty to the mover's mark. |
| History.Click | src/main.rs:118-140 | A rejected click (winner present or square taken) returns the same history and step. An accepted click returns the old `history[..step+1]` followed by the viewed snapshot with square i marked by `PlayerAt(step)`, and step + 1, so the new length is step + 2. A valid history stays valid, with the step in range. |
| History.FullBoardRejects | src/main.rs:123-128 | When every square of the viewed snapshot is taken, a click on any square leaves history and step unchanged, although the code has no draw check. |
| History.WonBoardFreezes | src/main.rs:126-128 | While the viewed snapshot has a winner, a click on any square leaves history and step unchanged. |
| History.WonSnapshotIsLast | src/main.rs:123-138 | In a valid history a won snapshot is always the last one: no move is ever recorded after a win. This is a corollary of the invariant `ValidHistory`, which `History.Click` preserves. |
| History.HistoryCounts | src/main.rs:123-138 | Snapshot n of a valid history holds (n+1)/2 X's, n/2 O's and 9-n empty squares. So the marks alternate X, O, X, … starting with X. |
| History.HistoryAtMostTen | src/main.rs:123-138 | A valid history has at most ten snapshots, that is, at most nine moves. |
| History.OnlyMoverCanWin | src/main.rs:123-134 | After a legal move, every complete line carries the mark just placed, and the winner is either `Empty` or that mark. |
| History.ScanOrderIrrelevant | src/main.rs:84-105 | On every snapshot of a valid history, all complete lines carry the winner's mark. The tie-break order of the scan is therefore never observable in play. |
| History.StatusOf | src/main.rs:154-156 | The status line shows a winner exactly when the snapshot has one, and that winner holds a line. Otherwise it names the next player, who is X exactly when the step is even. |
| History.StatusAgreesWithClick | src/main.rs:130-155 | The announced next player is the mark that the next accepted click places. While a winner is announced, every click is ignored. |
| Game.TicTacToe.constructor | src/main.rs:79-80 | A new game holds only the empty board and views step 0. The invariant holds. |
| Game.TicTacToe.Current | src/main.rs:150 | The displayed board is `history[step]`. After `step` moves it holds (step+1)/2 X's, step/2 O's and 9-step empty squares. |
| Game.TicTacToe.CurrentWinner | src/main.rs:108-116 | The stored winner is always the evaluation of the viewed snapshot. A non-empty winner is the player who made the last move (`PlayerAt(step - 1)`), and its snapshot is the last one in the history. |
| Game.TicTacToe.HandleClick | src/main.rs:118-140 | The new (history, step) equals `Click` of the old ones. A rejected click changes nothing. An accepted click keeps `history[..step+1]`, appends the viewed snapshot with square i marked for `PlayerAt(step)`, and advances step by one. The invariant is preserved. |
| Game.TicTacToe.JumpTo | src/main.rs:142-145 | Sets step to s and leaves the history untouched. The invariant is preserved. |
| Game.JumpAndReturn | src/main.rs:142-150 | Jumping to any entry and back to the step viewed before restores the same step and displayed board, with the history unchanged. |

## Left out

- The `Square` and `Board` view components, the `html!` markup and the rendering of the move list (`src/main.rs:21-75`, `147-183`). These are presentation. The status line at `src/main.rs:154-156` is kept as `History.StatusOf`, without its text formatting.
- The `Display` implementation for `SquareValue` (`src/main.rs:11-19`). It is text formatting only.
- The framework's state hooks and effect scheduling (`use_state_eq`, `use_effect_with_deps`, callback cloning, re-render timing). The stored `winner` is modelled as always equal to the winner of `history[step]`. The model does not capture the brief moment between a state change and the effect that refreshes it.
- `main` and application start-up (`src/main.rs:186-188`), and the commented-out undo button (`src/main.rs:159`), which has no behaviour.
- Game.TicTacToe.HandleClick: the square index is restricted to 0..8, the only values the board view sends (`src/main.rs:46-71`). In the source an index of 9 or more would panic when no winner is set, and would be ignored when one is, because the `||` at `src/main.rs:126` never reads the square then. Neither case is modelled.
- Game.TicTacToe.JumpTo: requires `s < |history|` instead of modelling the panic an out-of-range step would cause at the next render. The view offers only in-range entries.
- The `usize` arithmetic of `step + 1` is modelled with unbounded integers. It cannot overflow, because a history holds at most ten snapshots (`History.HistoryAtMostTen`).
