/** Whole sessions: any sequence of user events from the first render, and
    the invariant every such session keeps. */
module Play {
  import opened Rules
  import opened Winner
  import opened Game

  /** The component's inputs: a click on one of the nine cells, a click on
      the reset button, and the modal's "yes" and "no". */
  datatype Event = CellClick(i: Index) | ResetButton | Yes | No

  /** One event handled to completion. The board changes only by a reset
      to the starting board or by the current player's mark landing on the
      clicked cell, which was empty; the turn changes only by a move or by a
      reset to the first player. */
  function Step(s: State, e: Event): (r: State)
    ensures r.boxes != s.boxes ==>
              r.boxes == DefaultBoxes
              || (e.CellClick? && s.boxes[e.i] == Empty && r.boxes == s.boxes[e.i := Marked(s.player)])
    ensures r.player != s.player ==> e.CellClick? || r.player == DefaultPlayer
  {
    match e
    case CellClick(i) => Click(s, i)
    case ResetButton => ResetClick(s)
    case Yes => ConfirmYes(s)
    case No => ConfirmNo(s)
  }

  /** The events handled one after another. */
  function Run(s: State, events: seq<Event>): State
    decreases |events|
  {
    if |events| == 0 then s else Run(Step(s, events[0]), events[1..])
  }

  /** Marks of the first player minus marks of the second player. */
  function Balance(b: Board): int
  {
    Count(b, Marked(PlayerOne)) - Count(b, Marked(PlayerTwo))
  }

  /** The turn and the marks agree. While nobody has won, the first player
      is to move on an even balance and the second player on a balance of
      one; once someone has won, the turn stays with the player who made
      the winning move, and the reported line holds that player's mark. */
  predicate Consistent(s: State)
  {
    var w := CheckWinner(s.boxes);
    if w == [] then
      (s.player == PlayerOne && Balance(s.boxes) == 0)
      || (s.player == PlayerTwo && Balance(s.boxes) == 1)
    else
      ((s.player == PlayerOne && Balance(s.boxes) == 1)
       || (s.player == PlayerTwo && Balance(s.boxes) == 0))
      && forall k :: 0 <= k < |w| ==> s.boxes[w[k]] == Marked(s.player)
  }

  /** The first render is consistent. */
  lemma InitialConsistent()
    ensures Consistent(Initial)
  {
    DefaultHasNoWinner();
    assert Count(DefaultBoxes, Marked(PlayerOne)) == 0;
    assert Count(DefaultBoxes, Marked(PlayerTwo)) == 0;
  }

  /** An enabled move keeps the turn and the marks in step. */
  lemma MoveKeepsConsistent(s: State, i: Index)
    requires Consistent(s)
    requires CellEnabled(s, i)
    ensures Consistent(Click(s, i))
  {
    var r := Click(s, i);
    assert r == PlayMove(s, i);
    if HasWinner(r.boxes) {
      WinningMoveKeepsMover(s, i);
    }
  }

  /** Every event keeps the turn and the marks in step. */
  lemma StepKeepsConsistent(s: State, e: Event)
    requires Consistent(s)
    ensures Consistent(Step(s, e))
  {
    match e
    case CellClick(i) =>
      if CellEnabled(s, i) {
        MoveKeepsConsistent(s, i);
      }
    case ResetButton =>
      if !ResetDisabled(s) && HasWinner(s.boxes) {
        InitialConsistent();
        assert ResetClick(s).boxes == Initial.boxes && ResetClick(s).player == Initial.player;
      }
    case Yes =>
      InitialConsistent();
    case No =>
  }

  /** Any run of events from a consistent state ends consistent. */
  lemma {:induction false} RunKeepsConsistent(s: State, events: seq<Event>)
    requires Consistent(s)
    ensures Consistent(Run(s, events))
    decreases |events|
  {
    if |events| > 0 {
      StepKeepsConsistent(s, events[0]);
      RunKeepsConsistent(Step(s, events[0]), events[1..]);
    }
  }

  /** In every session the first player has as many marks as the second
      player, or exactly one more. */
  lemma MarkBalance(events: seq<Event>)
    ensures 0 <= Balance(Run(Initial, events).boxes) <= 1
  {
    InitialConsistent();
    RunKeepsConsistent(Initial, events);
  }

  /** In every session, a reported winning line holds the mark of the
      player the title names, which is the player who completed it. */
  lemma WinnerIsNamedPlayer(events: seq<Event>)
    ensures var s := Run(Initial, events);
            var w := CheckWinner(s.boxes);
            forall k :: 0 <= k < |w| ==> s.boxes[w[k]] == Marked(s.player)
  {
    InitialConsistent();
    RunKeepsConsistent(Initial, events);
  }

  /** One event marks at most one more cell. */
  lemma StepMarksAtMostOne(s: State, e: Event)
    ensures MarkedCount(Step(s, e).boxes) <= MarkedCount(s.boxes) + 1
  {
    match e
    case CellClick(i) =>
    case ResetButton =>
      if !ResetDisabled(s) && HasWinner(s.boxes) {
        NoMarksIffDefault(DefaultBoxes);
      }
    case Yes =>
      NoMarksIffDefault(DefaultBoxes);
    case No =>
  }

  /** A run never marks more cells than it has events. */
  lemma {:induction false} RunMarksAtMostEvents(s: State, events: seq<Event>)
    ensures MarkedCount(Run(s, events).boxes) <= MarkedCount(s.boxes) + |events|
    decreases |events|
  {
    if |events| > 0 {
      StepMarksAtMostOne(s, events[0]);
      RunMarksAtMostEvents(Step(s, events[0]), events[1..]);
    }
  }

  /** In every session the board holds no more marks than events handled. */
  lemma MarksAtMostMoves(events: seq<Event>)
    ensures MarkedCount(Run(Initial, events).boxes) <= |events|
  {
    NoMarksIffDefault(DefaultBoxes);
    RunMarksAtMostEvents(Initial, events);
  }
}
