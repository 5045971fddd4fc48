# Tic-tac-toe board component, modelled in Dafny

The component `Board` in `src/components/board.tsx` holds the whole game: a
nine-cell board, the player whose mark the next move writes, and a flag for
the "are you sure you want to reset?" modal. The model has four modules:

- `Rules` (`rules.dfy`): the two players, the cells (`Empty` or `Marked(p)`
  instead of the emoji strings), the board as a 9-element sequence, the
  ordered table of eight winning triples, the starting board and player, and
  counting of marks.
- `Winner` (`winner.dfy`): `checkWinner` written the way the component writes
  it, as a filter over the table followed by "first kept line or `[]`". It is
  tied to two independent references. `ThreeInARow` is a triple whose three
  cells hold the same non-empty mark. `FirstWin` is a scan of the table in
  declared order.
- `Game` (`game.dfy`): the state record and one pure function per event
  handler. `PlayMove` is the move handler. `Click` adds the cell button's
  `disabled` guard, and a click on a disabled cell is a no-op. The module also
  has the reset button, its disabled rule, and the modal's "yes" and "no".
- `Play` (`play.dfy`): sessions, meaning any sequence of events from the first
  render. Every session keeps an invariant that ties the turn to the marks.
  The invariant gives the mark balance (first player's marks minus second
  player's marks is 0 or 1). It also shows that a reported winning line holds
  the mark that the title names.

Cell indices are the subset type `Index` (0..8). The component only ever
passes the index of one of the nine rendered cells, so the move handler needs
no other precondition.

## Model

| member | source | states |
|---|---|---|
| Rules.Other | src/components/board.tsx:50 | the turn passes to the other mark, never the same one |
| Rules.NoMarksIffDefault | src/components/board.tsx:97 | the board filtered by non-empty cells has length 0 exactly when it is the all-empty starting board |
| Rules.MarkedCountSplits | src/components/board.tsx:97 | the non-empty cells are the first player's cells plus the second player's cells |
| Rules.MarkedCount | src/components/board.tsx:97 | the number of truthy (non-empty) cells is the board length minus the number of empty cells |
| Winner.Every | src/components/board.tsx:35-36 | `every` over a triple holds exactly when each of its three cells holds the given mark |
| Winner.IsWinning | src/components/board.tsx:34-37 | on a triple, "all cells hold the first mark or all hold the second mark" is the same as "three equal non-empty cells" |
| Winner.TableLinesDistinct | src/components/board.tsx:16-25 | the eight lines of the table are pairwise different |
| Winner.Filter | src/components/board.tsx:33-38 | the filter keeps every winning line and only winning lines, and keeps none exactly when no line wins |
| Winner.CheckWinner | src/components/board.tsx:32-42 | the result is `[]` exactly when no table line is three in a row; otherwise it is a table line whose three cells hold the same non-empty mark |
| Winner.CheckWinnerIsFirstWin | src/components/board.tsx:32-42 | the win check equals a scan of the table in declared order that returns the first three-in-a-row line |
| Winner.CheckWinnerPicksFirst | src/components/board.tsx:16-41 | when line k is the first three-in-a-row line of the table, the win check returns line k, whatever later lines also match |
| Winner.CheckWinnerEarlierLinesFail | src/components/board.tsx:16-41 | no line declared before the reported line is three in a row |
| Winner.TieBreakExample | src/components/board.tsx:16-41 | when the top row and the left column both win, the top row is reported, because it is declared first |
| Game.DefaultHasNoWinner | src/components/board.tsx:13-42 | nobody has won on the starting board |
| Game.HasWinner | src/components/board.tsx:54-55 | `hasWinner` holds exactly when some line of the table is three in a row |
| Game.CellEnabled | src/components/board.tsx:79 | a cell button is enabled exactly when the cell is empty and no table line is three in a row |
| Game.PlayMove | src/components/board.tsx:44-52 | the mover's mark is written at the index and every other cell is unchanged; the turn passes exactly when the new board has no winner |
| Game.Click | src/components/board.tsx:76-79 | a disabled cell ignores the click; an enabled click is exactly the move handler, marks exactly one more cell, and adds one to the mover's count and nothing to the other player's count |
| Game.ResetDisabled | src/components/board.tsx:97 | the reset button is disabled exactly on the starting board |
| Game.ResetClick | src/components/board.tsx:88-97 | disabled means no change; with a winner, the starting board and player come back without opening the modal; without a winner, only the modal opens |
| Game.ConfirmYes | src/components/board.tsx:108-112 | "yes" restores the first-render state with the modal closed; afterwards there is no winner and reset is disabled |
| Game.ConfirmNo | src/components/board.tsx:117-119 | "no" closes the modal and leaves the board and player alone |
| Game.ResetFlow | src/components/board.tsx:88-118 | an immediate reset of a won game and a confirmed reset reach the same board and player; on an undecided game a second reset request changes nothing, and a request that is then cancelled changes nothing but the modal flag |
| Game.NoMoveAfterWin | src/components/board.tsx:79 | once there is a winner, every cell click is a no-op |
| Game.NewWinnerIsMover | src/components/board.tsx:44-51 | a move on a board with no winner can only create winning lines that pass through the played cell and hold the mover's mark |
| Game.WinningMoveKeepsMover | src/components/board.tsx:49-59 | after a winning move the turn stays with the mover, and the reported line passes through the played cell in the mover's mark |
| Play.Step | src/components/board.tsx:76-118 | an event changes the board only by resetting it or by writing the current player's mark on the clicked empty cell, and changes the turn only by a move or a reset to the first player |
| Play.InitialConsistent | src/components/board.tsx:13-30 | the first render satisfies the turn/marks invariant |
| Play.MoveKeepsConsistent | src/components/board.tsx:44-52 | an enabled move keeps the turn/marks invariant |
| Play.StepKeepsConsistent | src/components/board.tsx:44-118 | every event handler keeps the turn/marks invariant |
| Play.RunKeepsConsistent | src/components/board.tsx:44-118 | any sequence of events keeps the turn/marks invariant |
| Play.MarkBalance | src/components/board.tsx:13-50 | in every session the first player has as many marks as the second player, or one more |
| Play.WinnerIsNamedPlayer | src/components/board.tsx:49-59 | in every session, a reported winning line holds the mark of the player the title shows |
| Play.StepMarksAtMostOne | src/components/board.tsx:44-118 | one event marks at most one more cell |
| Play.MarksAtMostMoves | src/components/board.tsx:44-118 | a session never has more marked cells than events handled |

## Left out

- Rendering: the JSX, the `classnames` composition, hover styling and the
  highlight of the winning cells (`src/components/board.tsx:56-124`, apart from
  the guards at lines 79 and 97). These are presentation only.
- The title text (`'winner'` / `'player'` followed by the mark, line 59). It is
  not modelled as a function. `Play.WinnerIsNamedPlayer` states the fact the
  title depends on.
- The `Button`, `Modal` and `Title` components (lines 6-8). Their source is
  outside this model. The modal is only the `modalOpen` flag. When the modal
  closes itself through its `setIsOpen` callback, the effect is the same as
  "no" (`Game.ConfirmNo`).
- Whether the open modal's overlay blocks clicks on the board and on the reset
  button is up to the `Modal` component. The model therefore accepts every
  event in every state. Each handler does exactly what its own code does,
  whatever the flag says.
- React's `useState` batching and re-rendering. Each handler is one atomic
  transition.
- Move history and eviction of old marks: `src/components/board.tsx` has
  neither, so the model has none.
- Legality in the move handler: `playMove` (lines 44-52) has no legality
  check. The only guard is the cell button's `disabled` expression (line 79).
  `Game.PlayMove` is unguarded and `Game.Click` applies the guard.
- The emoji mark strings. They are replaced by the `Player` enumeration.
