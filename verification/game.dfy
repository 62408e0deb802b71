/** The game component's state: the history of snapshots and the viewed step, with the
    two handlers that change them. */
module Game {
  import opened Board
  import opened History

  class TicTacToe {
    /** Every snapshot of the game so far, the empty board first. */
    var history: seq<Snapshot>
    /** The index of the snapshot being viewed and played from. */
    var step: nat

    ghost predicate Valid()
      reads this
    {
      ValidHistory(history) && step < |history|
    }

    /** A new game: only the empty board, viewed at step 0. */
    constructor ()
      ensures Valid()
      ensures history == [EmptyBoard()] && step == 0
    {
      history := [EmptyBoard()];
      step := 0;
    }

    /** The snapshot on display: after `step` moves it holds `step` marks,
        X's and O's in turn starting with X. */
    function Current(): (b: Snapshot)
      reads this
      requires Valid()
      ensures b == history[step]
      ensures Count(b, X) == (step + 1) / 2 && Count(b, O) == step / 2 && Count(b, Empty) == 9 - step
    {
      HistoryCounts(history, step);
      history[step]
    }

    /** The winner the game holds for the viewed snapshot; it is always the
        evaluation of that snapshot, never a value kept apart from it. Only the
        player who made the last move can be the winner, and a won snapshot is
        always the last one recorded. */
    function CurrentWinner(): (w: Cell)
      reads this
      requires Valid()
      ensures w == Winner(history[step])
      ensures w != Empty ==> step > 0 && w == PlayerAt(step - 1) && step == |history| - 1
    {
      var w := Winner(history[step]);
      if step == 0 then
        EmptyBoardHasNoWinner();
        w
      else
        assert LegalMove(history[step - 1], history[step], step - 1);
        OnlyMoverCanWin(history[step - 1], history[step], step - 1);
        if w == Empty then w
        else
          WonSnapshotIsLast(history, step);
          w
    }

    /** A click on square `i`: ignored when the viewed snapshot is won or the square
        is taken; otherwise the snapshots after the viewed one are dropped, the viewed
        one with square `i` marked for the player to move is appended, and the view
        advances to it. */
    method HandleClick(i: Index)
      requires Valid()
      modifies this
      ensures Valid()
      ensures (history, step) == Click(old(history), old(step), i)
      ensures Rejects(old(history[step]), i) ==> history == old(history) && step == old(step)
      ensures !Rejects(old(history[step]), i) ==>
        step == old(step) + 1 && |history| == old(step) + 2 &&
        history[..step] == old(history[..step + 1]) &&
        history[step] == old(history[step])[i := PlayerAt(old(step))]
    {
      var newHistory := history[..step + 1];
      var current := newHistory[step];
      if CurrentWinner() != Empty || current[i] != Empty {
        return;
      }
      current := current[i := if step % 2 == 0 then X else O];
      newHistory := newHistory + [current];
      ghost var clicked := Click(history, step, i);
      history := newHistory;
      step := step + 1;
      assert (history, step) == clicked;
    }

    /** A click on history entry `s`: view snapshot `s`; the history stays as it is. */
    method JumpTo(s: nat)
      requires Valid() && s < |history|
      modifies this
      ensures Valid()
      ensures history == old(history) && step == s
    {
      step := s;
    }
  }

  /** Jumping to any entry and back to the entry viewed before leaves the game as it was. */
  method JumpAndReturn(g: TicTacToe, s: nat)
    requires g.Valid() && s < |g.history|
    modifies g
    ensures g.Valid()
    ensures g.history == old(g.history) && g.step == old(g.step) && g.Current() == old(g.Current())
  {
    var back := g.step;
    g.JumpTo(s);
    assert g.Current() == g.history[s];
    g.JumpTo(back);
  }

  /** The first four moves of the top-row game below. */
  method TopRowOpening() returns (g: TicTacToe)
    ensures fresh(g) && g.Valid() && g.step == 4
    ensures g.history[g.step] == [X, X, Empty, O, O, Empty, Empty, Empty, Empty]
  {
    g := new TicTacToe();
    EmptyBoardHasNoWinner();
    g.HandleClick(0);
    assert g.history[g.step] == [X, Empty, Empty, Empty, Empty, Empty, Empty, Empty, Empty];
    NoLineYet(g.history[g.step]);
    g.HandleClick(3);
    assert g.history[g.step] == [X, Empty, Empty, O, Empty, Empty, Empty, Empty, Empty];
    NoLineYet(g.history[g.step]);
    g.HandleClick(1);
    assert g.history[g.step] == [X, X, Empty, O, Empty, Empty, Empty, Empty, Empty];
    NoLineYet(g.history[g.step]);
    g.HandleClick(4);
  }

  /** X takes the top row while O plays 3 and 4; after that the board ignores clicks. */
  method TopRowScenario() {
    var g := TopRowOpening();
    NoLineYet(g.history[g.step]);
    g.HandleClick(2);
    assert g.history[g.step] == [X, X, X, O, O, Empty, Empty, Empty, Empty];
    assert FirstComplete(g.history[g.step], 0);
    WinnerOfFirstLine(g.history[g.step], 0);
    assert StatusOf(g.history[g.step], g.step) == Won(X);
    var before := g.history;
    g.HandleClick(8);
    assert g.history == before && g.step == 5;
  }

  /** The four moves of the game that the branching example below goes back into. */
  method BranchingOpening() returns (g: TicTacToe)
    ensures fresh(g) && g.Valid() && g.step == 4 && |g.history| == 5
    ensures g.history[1] == [Empty, Empty, Empty, Empty, X, Empty, Empty, Empty, Empty]
  {
    g := new TicTacToe();
    EmptyBoardHasNoWinner();
    g.HandleClick(4);
    assert g.history[g.step] == [Empty, Empty, Empty, Empty, X, Empty, Empty, Empty, Empty];
    NoLineYet(g.history[g.step]);
    g.HandleClick(0);
    assert g.history[g.step] == [O, Empty, Empty, Empty, X, Empty, Empty, Empty, Empty];
    NoLineYet(g.history[g.step]);
    g.HandleClick(8);
    assert g.history[g.step] == [O, Empty, Empty, Empty, X, Empty, Empty, Empty, X];
    NoLineYet(g.history[g.step]);
    g.HandleClick(2);
  }

  /** Four moves, back to move 1, and a new move there drops moves 2 to 4. */
  method BranchingScenario() {
    var g := BranchingOpening();
    g.JumpTo(1);
    NoLineYet(g.history[g.step]);
    assert |g.history| == 5 && StatusOf(g.history[g.step], g.step) == NextPlayer(O);
    g.HandleClick(6);
    assert |g.history| == 3 && g.step == 2;
    assert g.history[g.step] == [Empty, Empty, Empty, Empty, X, Empty, O, Empty, Empty];
  }

  /** The first five moves of the drawn game below. */
  method DrawOpening() returns (g: TicTacToe)
    ensures fresh(g) && g.Valid() && g.step == 5
    ensures g.history[g.step] == [X, O, X, X, O, Empty, Empty, Empty, Empty]
  {
    g := new TicTacToe();
    EmptyBoardHasNoWinner();
    g.HandleClick(0);
    assert g.history[g.step] == [X, Empty, Empty, Empty, Empty, Empty, Empty, Empty, Empty];
    NoLineYet(g.history[g.step]);
    g.HandleClick(1);
    assert g.history[g.step] == [X, O, Empty, Empty, Empty, Empty, Empty, Empty, Empty];
    NoLineYet(g.history[g.step]);
    g.HandleClick(2);
    assert g.history[g.step] == [X, O, X, Empty, Empty, Empty, Empty, Empty, Empty];
    NoLineYet(g.history[g.step]);
    g.HandleClick(4);
    assert g.history[g.step] == [X, O, X, Empty, O, Empty, Empty, Empty, Empty];
    NoLineYet(g.history[g.step]);
    g.HandleClick(3);
  }

  /** Nine moves fill the board with no line for either player: nobody wins, and
      since every square is taken, every further click is ignored. */
  method DrawScenario() {
    var g := DrawOpening();
    NoLineYet(g.history[g.step]);
    g.HandleClick(5);
    assert g.history[g.step] == [X, O, X, X, O, O, Empty, Empty, Empty];
    NoLineYet(g.history[g.step]);
    g.HandleClick(7);
    assert g.history[g.step] == [X, O, X, X, O, O, Empty, X, Empty];
    NoLineYet(g.history[g.step]);
    g.HandleClick(6);
    assert g.history[g.step] == [X, O, X, X, O, O, O, X, Empty];
    NoLineYet(g.history[g.step]);
    g.HandleClick(8);
    assert g.history[g.step] == [X, O, X, X, O, O, O, X, X];
    NoLineYet(g.history[g.step]);
    assert StatusOf(g.history[g.step], g.step) == NextPlayer(O) && g.step == 9;
    var before := g.history;
    g.HandleClick(4);
    assert g.history == before && g.step == 9;
  }
}
