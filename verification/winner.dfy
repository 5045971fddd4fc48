/** Win detection: the component keeps every line of the table whose cells
    all hold the first player's mark or all hold the second player's mark,
    and reports the first one kept, or the empty line when none is kept. */
module Winner {
  import opened Rules

  /** The three forms a cell can take. */
  lemma CellCases(c: Cell)
    ensures c == Empty || c == Marked(PlayerOne) || c == Marked(PlayerTwo)
  {
    match c
    case Empty =>
    case Marked(p) => assert p == PlayerOne || p == PlayerTwo;
  }

  /** Every cell named by `line` holds `c` (the array `every` test); on a
      triple, that is each of its three cells. */
  predicate Every(b: Board, line: Line, c: Cell)
    ensures |line| == 3 ==>
              (Every(b, line, c) <==> b[line[0]] == c && b[line[1]] == c && b[line[2]] == c)
  {
    forall k :: 0 <= k < |line| ==> b[line[k]] == c
  }

  /** Reference notion of a win, stated independently of the filter: a
      triple whose three cells hold the same non-empty mark. */
  predicate ThreeInARow(b: Board, line: Line)
  {
    |line| == 3 && b[line[0]] != Empty && b[line[0]] == b[line[1]] == b[line[2]]
  }

  /** The filter condition: the line is all first-player marks or all
      second-player marks. On a triple this is exactly three in a row. */
  predicate IsWinning(b: Board, line: Line)
    ensures |line| == 3 ==> (IsWinning(b, line) <==> ThreeInARow(b, line))
  {
    CellCases(if |line| > 0 then b[line[0]] else Empty);
    Every(b, line, Marked(PlayerOne)) || Every(b, line, Marked(PlayerTwo))
  }

  /** Every line of the table is a triple. */
  lemma TableLinesAreTriples()
    ensures forall l :: l in WinningIndices ==> |l| == 3
  {
  }

  /** The lines of the table are pairwise distinct. */
  lemma TableLinesDistinct()
    ensures forall i, j :: 0 <= i < j < |WinningIndices| ==> WinningIndices[i] != WinningIndices[j]
  {
  }

  /** On the table, the filter condition is exactly three in a row. */
  lemma TableWinningIsThreeInARow(b: Board)
    ensures forall l :: l in WinningIndices ==> (IsWinning(b, l) <==> ThreeInARow(b, l))
  {
    TableLinesAreTriples();
  }

  /** The table's `filter`: the winning lines of `lines`, in order. */
  function Filter(b: Board, lines: seq<Line>): (r: seq<Line>)
    ensures |r| <= |lines|
    ensures forall l :: l in r ==> l in lines && IsWinning(b, l)
    ensures forall l :: l in lines && IsWinning(b, l) ==> l in r
    ensures r == [] <==> forall l :: l in lines ==> !IsWinning(b, l)
  {
    if |lines| == 0 then []
    else (if IsWinning(b, lines[0]) then [lines[0]] else []) + Filter(b, lines[1..])
  }

  /** The win check: the first line the filter keeps, or the empty line.
      Its result is empty exactly when no line of the table is three in a
      row; otherwise it is a line of the table that is three in a row. */
  function CheckWinner(b: Board): (r: Line)
    ensures r == [] <==> forall l :: l in WinningIndices ==> !ThreeInARow(b, l)
    ensures r != [] ==> r in WinningIndices && ThreeInARow(b, r)
  {
    TableWinningIsThreeInARow(b);
    var filtered := Filter(b, WinningIndices);
    assert |filtered| > 0 ==> filtered[0] in filtered;
    if |filtered| > 0 then filtered[0] else []
  }

  /** Reference scan in declared order: the first three-in-a-row line of
      `lines`, or the empty line. */
  function FirstWin(b: Board, lines: seq<Line>): Line
  {
    if |lines| == 0 then []
    else if ThreeInARow(b, lines[0]) then lines[0]
    else FirstWin(b, lines[1..])
  }

  /** The head of the filter is the first line the reference scan finds. */
  lemma {:induction false} FilterHeadIsFirstWin(b: Board, lines: seq<Line>)
    requires forall l :: l in lines ==> |l| == 3
    ensures Filter(b, lines) == [] ==> FirstWin(b, lines) == []
    ensures Filter(b, lines) != [] ==> Filter(b, lines)[0] == FirstWin(b, lines)
  {
    if |lines| > 0 {
      if !IsWinning(b, lines[0]) {
        assert Filter(b, lines) == Filter(b, lines[1..]);
        assert forall l :: l in lines[1..] ==> l in lines;
        FilterHeadIsFirstWin(b, lines[1..]);
      }
    }
  }

  /** The win check agrees with the declared-order reference scan. */
  lemma CheckWinnerIsFirstWin(b: Board)
    ensures CheckWinner(b) == FirstWin(b, WinningIndices)
  {
    TableLinesAreTriples();
    FilterHeadIsFirstWin(b, WinningIndices);
  }

  /** The reference scan returns the line at the first winning position. */
  lemma {:induction false} FirstWinAt(b: Board, lines: seq<Line>, k: nat)
    requires k < |lines| && ThreeInARow(b, lines[k])
    requires forall j :: 0 <= j < k ==> !ThreeInARow(b, lines[j])
    ensures FirstWin(b, lines) == lines[k]
  {
    if k > 0 {
      assert !ThreeInARow(b, lines[0]);
      FirstWinAt(b, lines[1..], k - 1);
    }
  }

  /** Tie-break: when several lines are three in a row, the win check
      reports the earliest one in the table's declared order (rows, then
      columns, then diagonals). */
  lemma CheckWinnerPicksFirst(b: Board, k: nat)
    requires k < |WinningIndices| && ThreeInARow(b, WinningIndices[k])
    requires forall j :: 0 <= j < k ==> !ThreeInARow(b, WinningIndices[j])
    ensures CheckWinner(b) == WinningIndices[k]
  {
    CheckWinnerIsFirstWin(b);
    FirstWinAt(b, WinningIndices, k);
  }

  /** A winning line reported by the check is the earliest three-in-a-row
      line of the table: every line before it in declared order fails. */
  lemma CheckWinnerEarlierLinesFail(b: Board, k: nat)
    requires k < |WinningIndices| && CheckWinner(b) == WinningIndices[k]
    ensures forall j :: 0 <= j < k ==> !ThreeInARow(b, WinningIndices[j])
  {
    TableLinesDistinct();
    var j := 0;
    while j < k
      invariant j <= k
      invariant forall i :: 0 <= i < j ==> !ThreeInARow(b, WinningIndices[i])
    {
      if ThreeInARow(b, WinningIndices[j]) {
        CheckWinnerPicksFirst(b, j);
        assert false;
      }
      j := j + 1;
    }
  }

  /** Worked tie-break: with the top row and the left column both held by
      the first player, the top row is reported, being declared first. */
  lemma TieBreakExample(b: Board)
    requires b[0] == b[1] == b[2] == b[3] == b[6] == Marked(PlayerOne)
    ensures CheckWinner(b) == [0, 1, 2]
  {
    CheckWinnerPicksFirst(b, 0);
  }
}
