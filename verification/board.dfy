/** Board snapshots of the tic-tac-toe game and the evaluation of the winner on one of them. */
module Board {

  /** The content of one square: a player's mark, or nothing yet. */
  datatype Cell = X | O | Empty

  /** A square, numbered row by row: 0 1 2 / 3 4 5 / 6 7 8. */
  type Index = i: int | 0 <= i < 9

  /** One snapshot of the board: exactly nine squares. */
  type Snapshot = b: seq<Cell> | |b| == 9
    witness [Empty, Empty, Empty, Empty, Empty, Empty, Empty, Empty, Empty]

  /** Three squares that win when one player holds all of them. */
  datatype Line = Line(a: Index, b: Index, c: Index)

  /** The eight lines, in the order the evaluation scans them:
      the rows top to bottom, the columns left to right, then the two diagonals. */
  const LINES: seq<Line> := [
    Line(0, 1, 2), Line(3, 4, 5), Line(6, 7, 8),
    Line(0, 3, 6), Line(1, 4, 7), Line(2, 5, 8),
    Line(0, 4, 8), Line(2, 4, 6)
  ]

  /** The board every game starts from. */
  function EmptyBoard(): Snapshot {
    seq(9, _ => Empty)
  }

  /** The three squares of `l` hold the same mark, and it is not `Empty`. */
  predicate Complete(b: Snapshot, l: Line) {
    b[l.a] != Empty && b[l.a] == b[l.b] && b[l.a] == b[l.c]
  }

  /** Line `j` is complete and no line scanned before it is. */
  predicate FirstComplete(b: Snapshot, j: int) {
    0 <= j < |LINES| && Complete(b, LINES[j]) &&
    forall j' :: 0 <= j' < j ==> !Complete(b, LINES[j'])
  }

  /** Player `p` holds some whole line of `b`. */
  predicate HasLine(b: Snapshot, p: Cell) {
    exists j :: 0 <= j < |LINES| && Complete(b, LINES[j]) && b[LINES[j].a] == p
  }

  /** The scan of the lines from position `k` on: the mark of the first complete one, or `Empty`. */
  function WinnerFrom(b: Snapshot, k: nat): (w: Cell)
    requires k <= |LINES|
    decreases |LINES| - k
    ensures w == Empty <==> forall j :: k <= j < |LINES| ==> !Complete(b, LINES[j])
    ensures w != Empty ==>
      exists j :: k <= j < |LINES| && Complete(b, LINES[j]) && w == b[LINES[j].a] &&
        forall j' :: k <= j' < j ==> !Complete(b, LINES[j'])
  {
    if k == |LINES| then Empty
    else if Complete(b, LINES[k]) then b[LINES[k].a]
    else WinnerFrom(b, k + 1)
  }

  /** The winner of a snapshot: the mark on the first complete line in scan order,
      and `Empty` exactly when no line is complete. */
  function Winner(b: Snapshot): (w: Cell)
    ensures w == Empty <==> forall j :: 0 <= j < |LINES| ==> !Complete(b, LINES[j])
    ensures w != Empty ==> exists j :: FirstComplete(b, j) && w == b[LINES[j].a]
  {
    WinnerFrom(b, 0)
  }

  /** Whatever line comes first among the complete ones decides the winner. */
  lemma WinnerOfFirstLine(b: Snapshot, j: int)
    requires FirstComplete(b, j)
    ensures Winner(b) == b[LINES[j].a]
  {
  }

  /** A non-empty winner holds a whole line, and a player holding no line is not the winner. */
  lemma WinnerHoldsLine(b: Snapshot, p: Cell)
    requires p != Empty
    ensures Winner(b) == p ==> HasLine(b, p)
    ensures !HasLine(b, p) ==> Winner(b) != p
  {
  }

  /** Nobody has won on the empty board. */
  lemma EmptyBoardHasNoWinner()
    ensures Winner(EmptyBoard()) == Empty
  {
  }

  /** Lets a caller conclude that a concrete board with no complete line has no winner. */
  lemma NoLineYet(b: Snapshot)
    requires forall j :: 0 <= j < |LINES| ==> !Complete(b, LINES[j])
    ensures Winner(b) == Empty
  {
  }
}
