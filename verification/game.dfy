/** The board component's state and its event handlers, each one atomic
    transition from the state before the event to the state after it. */
module Game {
  import opened Rules
  import opened Winner

  /** The component's three pieces of state: the board, the player whose
      mark the next move writes, and whether the reset confirmation modal
      is open. */
  datatype State = State(boxes: Board, player: Player, modalOpen: bool)

  /** The state on first render. */
  const Initial: State := State(DefaultBoxes, DefaultPlayer, false)

  /** The component's `hasWinner`: the win check found a line, which is
      the case exactly when some line of the table is three in a row. */
  predicate HasWinner(b: Board)
    ensures HasWinner(b) <==> exists l :: l in WinningIndices && ThreeInARow(b, l)
  {
    CheckWinner(b) != []
  }

  /** Nobody has won on the starting board. */
  lemma DefaultHasNoWinner()
    ensures !HasWinner(DefaultBoxes)
  {
    assert forall k: Index :: DefaultBoxes[k] == Empty;
  }

  /** The move handler itself: write the current player's mark at `i` on a
      copy of the board, and hand the turn to the other player unless the
      new board has a winner. It does no legality check of its own. */
  function PlayMove(s: State, i: Index): (r: State)
    ensures r.boxes[i] == Marked(s.player)
    ensures forall j: Index :: j != i ==> r.boxes[j] == s.boxes[j]
    ensures !HasWinner(r.boxes) ==> r.player == Other(s.player)
    ensures HasWinner(r.boxes) ==> r.player == s.player
    ensures r.modalOpen == s.modalOpen
  {
    var newBoxes := s.boxes[i := Marked(s.player)];
    var nextPlayer := if CheckWinner(newBoxes) == [] then Other(s.player) else s.player;
    State(newBoxes, nextPlayer, s.modalOpen)
  }

  /** A cell button is enabled (the negation of its `disabled` expression)
      exactly when the cell is empty and no line of the table is three in a
      row. */
  predicate CellEnabled(s: State, i: Index)
    ensures CellEnabled(s, i) <==>
              s.boxes[i] == Empty && forall l :: l in WinningIndices ==> !ThreeInARow(s.boxes, l)
  {
    !(s.boxes[i] != Empty || HasWinner(s.boxes))
  }

  /** A click on cell `i`: a disabled cell ignores it, an enabled one plays
      the move, which marks exactly one more cell. */
  function Click(s: State, i: Index): (r: State)
    ensures !CellEnabled(s, i) ==> r == s
    ensures CellEnabled(s, i) ==> r == PlayMove(s, i)
    ensures CellEnabled(s, i) ==> r.boxes[i] == Marked(s.player)
    ensures CellEnabled(s, i) ==> MarkedCount(r.boxes) == MarkedCount(s.boxes) + 1
    ensures CellEnabled(s, i) ==> Count(r.boxes, Marked(s.player)) == Count(s.boxes, Marked(s.player)) + 1
    ensures CellEnabled(s, i) ==> Count(r.boxes, Marked(Other(s.player))) == Count(s.boxes, Marked(Other(s.player)))
  {
    if CellEnabled(s, i) then
      var r := PlayMove(s, i);
      assert r.boxes == s.boxes[i := Marked(s.player)];
      MarkedCountSplits(s.boxes);
      MarkedCountSplits(r.boxes);
      CountUpdate(s.boxes, i, Marked(s.player), Marked(s.player));
      CountUpdate(s.boxes, i, Marked(s.player), Marked(Other(s.player)));
      r
    else
      s
  }

  /** The reset button is disabled while no cell is marked, that is,
      exactly on the starting board. */
  function ResetDisabled(s: State): (disabled: bool)
    ensures disabled <==> s.boxes == DefaultBoxes
  {
    NoMarksIffDefault(s.boxes);
    MarkedCount(s.boxes) == 0
  }

  /** The reset button: disabled on an untouched board; after a win it
      restores the starting board and player at once (the modal flag is
      left as it was); otherwise it only opens the confirmation modal. */
  function ResetClick(s: State): (r: State)
    ensures ResetDisabled(s) ==> r == s
    ensures !ResetDisabled(s) && HasWinner(s.boxes) ==>
              r.boxes == DefaultBoxes && r.player == DefaultPlayer && r.modalOpen == s.modalOpen
    ensures !HasWinner(s.boxes) ==>
              r.boxes == s.boxes && r.player == s.player && (r.modalOpen <==> s.modalOpen || !ResetDisabled(s))
  {
    if ResetDisabled(s) then s
    else if HasWinner(s.boxes) then State(DefaultBoxes, DefaultPlayer, s.modalOpen)
    else s.(modalOpen := true)
  }

  /** "yes" in the modal: back to the starting board and player, modal
      closed; afterwards nobody has won and nothing is marked. */
  function ConfirmYes(s: State): (r: State)
    ensures r == Initial
    ensures !HasWinner(r.boxes) && ResetDisabled(r)
  {
    DefaultHasNoWinner();
    State(DefaultBoxes, DefaultPlayer, false)
  }

  /** "no" in the modal (also how the modal closes itself): only the
      modal flag changes. */
  function ConfirmNo(s: State): (r: State)
    ensures r.boxes == s.boxes && r.player == s.player && !r.modalOpen
  {
    s.(modalOpen := false)
  }

  /** Immediate reset of a won game reaches the same board and player as
      a confirmed reset; on an undecided game a repeated reset request
      changes nothing more, and a request followed by "no" leaves the game
      exactly as it was apart from the closed modal. */
  lemma ResetFlow(s: State)
    requires !ResetDisabled(s)
    ensures HasWinner(s.boxes) ==>
              ResetClick(s).(modalOpen := false) == ConfirmYes(s)
    ensures !HasWinner(s.boxes) ==>
              ResetClick(ResetClick(s)) == ResetClick(s)
    ensures !HasWinner(s.boxes) ==>
              ConfirmNo(ResetClick(s)) == s.(modalOpen := false)
  {
  }

  /** After a win every cell ignores clicks, so the board is frozen until a
      reset. */
  lemma NoMoveAfterWin(s: State, i: Index)
    requires HasWinner(s.boxes)
    ensures Click(s, i) == s
  {
  }

  /** A move by `p` on a board without a winner can only create winning
      lines through the cell just played, all of them in `p`'s mark: so
      the player kept after a winning move is the mark that won. */
  lemma NewWinnerIsMover(b: Board, i: Index, p: Player)
    requires !HasWinner(b)
    ensures var nb := b[i := Marked(p)];
            forall l :: l in WinningIndices && ThreeInARow(nb, l) ==>
              i in l && nb[l[0]] == nb[l[1]] == nb[l[2]] == Marked(p)
  {
  }

  /** A winning move leaves the turn with the mover, and the reported line
      runs through the cell played and holds the mover's mark. */
  lemma WinningMoveKeepsMover(s: State, i: Index)
    requires CellEnabled(s, i)
    requires HasWinner(PlayMove(s, i).boxes)
    ensures PlayMove(s, i).player == s.player
    ensures var w := CheckWinner(PlayMove(s, i).boxes);
            i in w && forall k :: 0 <= k < |w| ==> PlayMove(s, i).boxes[w[k]] == Marked(s.player)
  {
    var r := PlayMove(s, i);
    assert r.boxes == s.boxes[i := Marked(s.player)];
    NewWinnerIsMover(s.boxes, i, s.player);
  }
}
