/** Vocabulary of the tic-tac-toe board component: the two players, the
    cells, the fixed 9-cell board, the table of winning lines, the starting
    position, and the counting of marks used by the reset button. */
module Rules {

  /** The two marks; PlayerOne moves first. */
  datatype Player = PlayerOne | PlayerTwo

  /** The alternation used after a move that does not win. */
  function Other(p: Player): (q: Player)
    ensures q != p
  {
    if p == PlayerOne then PlayerTwo else PlayerOne
  }

  /** A cell is either empty (the empty string in the component) or holds
      one player's mark. */
  datatype Cell = Empty | Marked(owner: Player)

  /** A board position: 0..8, row `i / 3`, column `i % 3`. */
  type Index = i: int | 0 <= i < 9

  /** The board always has exactly nine cells. */
  type Board = b: seq<Cell> | |b| == 9 witness [Empty, Empty, Empty, Empty, Empty, Empty, Empty, Empty, Empty]

  /** A line of the table, or the empty result of the win check. */
  type Line = seq<Index>

  /** The starting board: every cell empty. */
  const DefaultBoxes: Board := [Empty, Empty, Empty, Empty, Empty, Empty, Empty, Empty, Empty]

  /** The player who moves first after a start or a reset. */
  const DefaultPlayer: Player := PlayerOne

  /** The eight winning triples in their declared order: the three rows,
      then the three columns, then the two diagonals. */
  const WinningIndices: seq<Line> := [
    [0, 1, 2], [3, 4, 5], [6, 7, 8],
    [0, 3, 6], [1, 4, 7], [2, 5, 8],
    [0, 4, 8], [2, 4, 6]
  ]

  /** Number of cells of `b` that hold exactly `c`. */
  function Count(b: seq<Cell>, c: Cell): nat
  {
    if |b| == 0 then 0 else (if b[0] == c then 1 else 0) + Count(b[1..], c)
  }

  /** Number of non-empty cells: the length of the board filtered by
      truthiness, as the reset button computes it. */
  function MarkedCount(b: seq<Cell>): (n: nat)
    ensures n == |b| - Count(b, Empty)
  {
    if |b| == 0 then 0 else (if b[0] != Empty then 1 else 0) + MarkedCount(b[1..])
  }

  /** Writing `c` over cell `i` moves one unit of count from the old
      content of the cell to `c`, and leaves every other count alone. */
  lemma {:induction false} CountUpdate(b: seq<Cell>, i: int, c: Cell, d: Cell)
    requires 0 <= i < |b|
    ensures Count(b[i := c], d)
         == Count(b, d) - (if b[i] == d then 1 else 0) + (if c == d then 1 else 0)
  {
    if i == 0 {
      assert b[i := c][1..] == b[1..];
    } else {
      assert b[i := c][1..] == b[1..][i - 1 := c];
      CountUpdate(b[1..], i - 1, c, d);
    }
  }

  /** The marked cells are exactly the cells of the first player plus the
      cells of the second player. */
  lemma {:induction false} MarkedCountSplits(b: seq<Cell>)
    ensures MarkedCount(b) == Count(b, Marked(PlayerOne)) + Count(b, Marked(PlayerTwo))
  {
    if |b| > 0 {
      MarkedCountSplits(b[1..]);
      match b[0]
      case Empty =>
      case Marked(p) => assert p == PlayerOne || p == PlayerTwo;
    }
  }

  /** A board has no marked cell exactly when every cell is empty. */
  lemma {:induction false} NoMarksIffAllEmpty(b: seq<Cell>)
    ensures MarkedCount(b) == 0 <==> forall k :: 0 <= k < |b| ==> b[k] == Empty
  {
    if |b| > 0 {
      NoMarksIffAllEmpty(b[1..]);
      assert forall k :: 1 <= k < |b| ==> b[k] == b[1..][k - 1];
    }
  }

  /** The reset button's "nothing played" test holds exactly on the
      starting board. */
  lemma NoMarksIffDefault(b: Board)
    ensures MarkedCount(b) == 0 <==> b == DefaultBoxes
  {
    NoMarksIffAllEmpty(b);
    if MarkedCount(b) == 0 {
      assert forall k :: 0 <= k < 9 ==> b[k] == DefaultBoxes[k];
    }
  }
}
