/** The game's history of snapshots, the invariant it keeps, and the effect of a click on it. */
module History {
  import opened Board

  /** The mark placed by the move made from step `n`: X from an even step, O from an odd one. */
  function PlayerAt(n: nat): (p: Cell)
    ensures p != Empty
    ensures p == X <==> n % 2 == 0
  {
    if n % 2 == 0 then X else O
  }

  /** `after` is `before` with the empty square `i` taken by `p`, every other square unchanged. */
  predicate MoveAt(before: Snapshot, after: Snapshot, i: Index, p: Cell) {
    before[i] == Empty && after == before[i := p]
  }

  /** A move changes exactly one square, the one it marks, from empty to the mover's mark. */
  lemma MoveChangesOneSquare(before: Snapshot, after: Snapshot, i: Index, p: Cell)
    requires MoveAt(before, after, i, p) && p != Empty
    ensures forall k: Index :: before[k] != after[k] <==> k == i
    ensures before[i] == Empty && after[i] == p
  {
  }

  /** `after` follows from `before` by the move made from step `n`:
      nobody has won at `before`, and one empty square gets the mark of PlayerAt(n). */
  predicate LegalMove(before: Snapshot, after: Snapshot, n: nat) {
    Winner(before) == Empty && exists i: Index :: MoveAt(before, after, i, PlayerAt(n))
  }

  /** The history invariant: it starts with the empty board and every snapshot
      is one legal move after the one before it. */
  predicate ValidHistory(h: seq<Snapshot>) {
    |h| >= 1 && h[0] == EmptyBoard() &&
    forall n :: 1 <= n < |h| ==> LegalMove(h[n - 1], h[n], n - 1)
  }

  /** A click on square `i` of snapshot `b` is ignored: the game is already won, or the square is taken. */
  predicate Rejects(b: Snapshot, i: Index) {
    Winner(b) != Empty || b[i] != Empty
  }

  /** The history and step after a click on square `i` while `step` is viewed. */
  function Click(h: seq<Snapshot>, step: nat, i: Index): (r: (seq<Snapshot>, nat))
    requires step < |h|
    ensures Rejects(h[step], i) ==> r == (h, step)
    ensures !Rejects(h[step], i) ==>
      r.1 == step + 1 && |r.0| == step + 2 && r.0[..step + 1] == h[..step + 1] &&
      MoveAt(h[step], r.0[step + 1], i, PlayerAt(step))
    ensures ValidHistory(h) ==> ValidHistory(r.0) && r.1 < |r.0|
  {
    if Rejects(h[step], i) then (h, step)
    else
      var h' := h[..step + 1] + [h[step][i := PlayerAt(step)]];
      assert LegalMove(h'[step], h'[step + 1], step) by {
        assert MoveAt(h'[step], h'[step + 1], i, PlayerAt(step));
      }
      (h', step + 1)
  }

  /** A click on a full board changes nothing, even though no draw is detected as such. */
  lemma FullBoardRejects(h: seq<Snapshot>, step: nat, i: Index)
    requires step < |h| && forall k: Index :: h[step][k] != Empty
    ensures Click(h, step, i) == (h, step)
  {
  }

  /** Once the viewed snapshot is won, clicks change nothing. */
  lemma WonBoardFreezes(h: seq<Snapshot>, step: nat, i: Index)
    requires step < |h| && Winner(h[step]) != Empty
    ensures Click(h, step, i) == (h, step)
  {
  }

  /** A won snapshot is always the last one of a valid history. */
  lemma WonSnapshotIsLast(h: seq<Snapshot>, n: nat)
    requires ValidHistory(h) && n < |h| && Winner(h[n]) != Empty
    ensures n == |h| - 1
  {
    forall m | 0 <= m < |h| - 1 ensures Winner(h[m]) == Empty {
      assert LegalMove(h[m], h[m + 1], m);
    }
  }

  /** How many squares of `s` hold `c`. */
  function Count(s: seq<Cell>, c: Cell): (k: nat)
    ensures k <= |s|
  {
    if s == [] then 0 else (if s[0] == c then 1 else 0) + Count(s[1..], c)
  }

  /** Replacing one square moves one unit of the count from the old mark to the new one. */
  lemma {:induction false} CountUpdate(s: seq<Cell>, i: nat, p: Cell, c: Cell)
    requires i < |s|
    ensures Count(s[i := p], c) ==
      Count(s, c) - (if s[i] == c then 1 else 0) + (if p == c then 1 else 0)
  {
    if i == 0 {
      assert s[i := p][1..] == s[1..];
    } else {
      assert s[i := p][1..] == s[1..][i - 1 := p];
      CountUpdate(s[1..], i - 1, p, c);
    }
  }

  /** A sequence of one mark counts all its squares for that mark and none for any other. */
  lemma {:induction false} CountUniform(s: seq<Cell>, c: Cell, d: Cell)
    requires forall k :: 0 <= k < |s| ==> s[k] == c
    ensures Count(s, d) == if c == d then |s| else 0
  {
    if s != [] {
      CountUniform(s[1..], c, d);
    }
  }

  /** Snapshot `n` of a valid history holds n marks: (n + 1) / 2 X's and n / 2 O's,
      so X and O alternate and X is never behind. */
  lemma {:induction false} HistoryCounts(h: seq<Snapshot>, n: nat)
    requires ValidHistory(h) && n < |h|
    ensures Count(h[n], X) == (n + 1) / 2
    ensures Count(h[n], O) == n / 2
    ensures Count(h[n], Empty) == 9 - n
  {
    if n == 0 {
      CountUniform(h[0], Empty, X);
      CountUniform(h[0], Empty, O);
      CountUniform(h[0], Empty, Empty);
    } else {
      HistoryCounts(h, n - 1);
      assert LegalMove(h[n - 1], h[n], n - 1);
      var i: Index :| MoveAt(h[n - 1], h[n], i, PlayerAt(n - 1));
      CountUpdate(h[n - 1], i, PlayerAt(n - 1), X);
      CountUpdate(h[n - 1], i, PlayerAt(n - 1), O);
      CountUpdate(h[n - 1], i, PlayerAt(n - 1), Empty);
    }
  }

  /** A game has at most nine moves, so a valid history holds at most ten snapshots. */
  lemma HistoryAtMostTen(h: seq<Snapshot>)
    requires ValidHistory(h)
    ensures |h| <= 10
  {
    HistoryCounts(h, |h| - 1);
  }

  /** After a legal move only the player who made it can hold a line: every complete
      line carries that player's mark, and so does the winner if there is one. */
  lemma OnlyMoverCanWin(before: Snapshot, after: Snapshot, n: nat)
    requires LegalMove(before, after, n)
    ensures forall j :: 0 <= j < |LINES| && Complete(after, LINES[j]) ==> after[LINES[j].a] == PlayerAt(n)
    ensures Winner(after) == Empty || Winner(after) == PlayerAt(n)
  {
  }

  /** On every snapshot of a valid history all complete lines carry the same mark,
      the winner's: the order in which the lines are scanned never matters in play. */
  lemma ScanOrderIrrelevant(h: seq<Snapshot>, n: nat)
    requires ValidHistory(h) && n < |h|
    ensures forall j :: 0 <= j < |LINES| && Complete(h[n], LINES[j]) ==> h[n][LINES[j].a] == Winner(h[n])
  {
    if n == 0 {
      EmptyBoardHasNoWinner();
    } else {
      assert LegalMove(h[n - 1], h[n], n - 1);
      OnlyMoverCanWin(h[n - 1], h[n], n - 1);
    }
  }

  /** What the game shows beside the board: the winner, or whose move is next. */
  datatype Status = Won(winner: Cell) | NextPlayer(player: Cell)

  /** The status for snapshot `b` viewed at `step`. */
  function StatusOf(b: Snapshot, step: nat): (s: Status)
    ensures s.Won? <==> Winner(b) != Empty
    ensures s.Won? ==> s.winner == Winner(b) && HasLine(b, s.winner)
    ensures s.NextPlayer? ==> s.player == PlayerAt(step) && (s.player == X <==> step % 2 == 0)
  {
    var w := Winner(b);
    if w == Empty then NextPlayer(PlayerAt(step))
    else
      WinnerHoldsLine(b, w);
      Won(w)
  }

  /** The player announced as next is the one whose mark the next accepted click places,
      and while a winner is announced every click is ignored. */
  lemma StatusAgreesWithClick(h: seq<Snapshot>, step: nat, i: Index)
    requires step < |h|
    ensures StatusOf(h[step], step).NextPlayer? && h[step][i] == Empty ==>
      Click(h, step, i).0[step + 1][i] == StatusOf(h[step], step).player
    ensures StatusOf(h[step], step).Won? ==> Click(h, step, i) == (h, step)
  {
  }
}
