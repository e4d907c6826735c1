# Gomoku game logic and room protocol, in Dafny

This project models the game logic of a two-player online Gomoku page (`script.js`). Two
clients play on one `gridSize × gridSize` board and share a room record at `games/{id}` in a
replicated store. The model has three parts.

- **Board and move log** (`grid.dfy`, `game.dfy`). The board is a `seq<seq<int>>` of cells
  0 (empty), 1 (black) and 2 (white). The move log is a `seq<Move>`. A `Client` holds one
  browser's globals: `gridSize`, `board`, `moves`, `current`, `myPlayer`, `gameOver` and
  `gameId`. `myPlayer` and `gameId` are `Option`s, where JavaScript uses `null`.
  `InitBoard`, `PlaceStone` and `Undo` are pure functions from one `Client` to the next.
  `Grid.Consistent` is the board/log invariant:
  - the board is square and holds only 0, 1 and 2;
  - the number of stones equals the number of logged moves;
  - every logged move's cell holds that move's player;
  - no two logged moves share a cell.
- **Win detection** (`win.dfy`). `Walk` mirrors the two `while` loops. `AxisCount` mirrors one
  iteration of the axis loop, and `CheckWin` mirrors the whole loop. `Line`, `Ahead`,
  `Behind`, `AxisHasFive` and `HasFive` give an independent reference definition: "some axis
  has `f` stones ahead and `g` behind with `f + g + 1 ≥ 5`". The contract of `CheckWin` proves
  that `CheckWin` and `HasFive` agree in both directions. Runs longer than five also count as wins.
  `Walk` reads a cell only after `InBounds` holds for it, and Dafny checks every index it
  reads. The win test is a pure function, so it cannot change the board. The win test and
  `placeStone` only need the board to cover the local `gridSize` square (`Grid.Covers`). A board
  received from a peer may be larger than that.
- **Room records** (`session.dfy`). The store is a `map<string, Record>`. Each room handler
  is one sequential step over a `Client` and the store:
  - `Create`, `Join` and `Restart` model the buttons;
  - `Sync` models `syncGameState`;
  - `Apply` models the `value` listener;
  - `Click` and `UndoClick` model placing or undoing followed by publishing.

`scenarios.dfy` checks two concrete cases: a 15×15 game won by a horizontal five, and a
create/join/third-join sequence.

In these places the model follows the code, which a reader might not expect:
- `placeStone` has no bounds check. The hit test only produces on-board cells, so in the model
  the bounds are a `requires`.
- `current` passes to the other player even after a winning move.
- Undo is refused once `gameOver` is set. So the code's `gameOver = false` in the undo handler
  never changes anything, and a finished game is never reopened (`Undo` ensures
  `r.gameOver == c.gameOver`).
- Joining does not write `current`. The joined record keeps whatever `current` it had.
- `initBoard` does not reject board sizes below 5.

## Model

| member | source | states |
|---|---|---|
| Grid.EmptyBoard | script.js:80 | the initial board is `n × n` and every cell is empty |
| Grid.SetCell | script.js:169 | writing one cell keeps the board's shape, sets that cell, and leaves every other cell as it was |
| Grid.Other | script.js:176 | the turn passes to the other player: black goes to white, white goes to black, and the result is always a player |
| Grid.EmptyBoardConsistent | script.js:80-81 | a fresh board with an empty log satisfies the board/log invariant |
| Grid.PlacePreservesConsistent | script.js:169-170 | putting a player's stone on an empty cell and appending that move keeps the board/log invariant |
| Grid.UndoPreservesConsistent | script.js:276-277 | popping the last move and clearing its cell keeps the board/log invariant |
| Game.InitBoard | script.js:77-85 | the board becomes `gridSize × gridSize` and all empty, the log becomes empty, black moves, the game is not over, the room and colour are kept, and the invariant holds |
| Game.ChangeSize | script.js:285 | a new size gives a fresh all-empty board of exactly that size, with black to move, and the board/log invariant holds |
| Game.PlaceStone | script.js:165-178 | for any board covering the local size's square, nothing changes if the game is over, it is not this client's turn, or the cell is taken. Otherwise only cell (x,y) changes and it now holds the mover's colour; exactly `{x,y,player}` is appended; `gameOver` is the win test's answer; the turn passes to the other player even on a win |
| Game.PlaceStoneValid | script.js:165-176 | placing a stone preserves the client invariant (board/log consistency, turn and colour are players) |
| Game.Undo | script.js:274-279 | nothing changes if the log is empty, the game is over, or it is not this client's turn. Otherwise only the last move is removed, only its cell is cleared, and the turn goes to that move's player. `gameOver` never changes |
| Game.UndoValid | script.js:274-279 | the last move's cell can always be indexed, and undo preserves the client invariant |
| Game.PlaceThenOpponentUndo | script.js:274-279 | a non-winning stone followed by the opponent's undo restores the board, the log and the turn exactly |
| Grid.InBoundsReadable | script.js:193-195 | every cell `inBounds` admits can be read on a board covering the game's square; on an exact `n × n` board, `inBounds` admits exactly the readable cells |
| WinDetector.Walk | script.js:185-187 | one walk counts a run of cells that are all in bounds and all hold the player, and the run cannot be extended by one more cell |
| WinDetector.LineAtMostWalk | script.js:185-187 | a walk stops only at the end of the run: no run from the same start is longer than the count |
| WinDetector.AxisCountIff | script.js:183-188 | `AxisCount`, one pass of the axis loop, reaches five exactly when it has `f` stones ahead and `g` behind with `f + g + 1 ≥ 5` |
| WinDetector.CheckAxesIff | script.js:181-190 | `CheckAxes`, the loop over a list of axes, answers true exactly when one of those axes has five |
| WinDetector.CheckWin | script.js:180-191 | `checkWin` is true exactly when one of the four axes through the cell holds five or more of the player's stones, counting the cell itself; overlines count |
| Session.NewRoom | script.js:215-222 | a new room record is waiting, has seat 1 taken and seat 2 free, has black to move, and holds the given board and an empty log |
| Session.Create | script.js:210-222 | creating a room gives the creator black and the new room id, starts a fresh valid game, adds under the new, non-empty id exactly the waiting record `NewRoom` describes (no game-over flag and no winner), and leaves every other record alone |
| Session.Join | script.js:230-256 | an empty id is its own rejection. Otherwise the join succeeds exactly when the room exists, is waiting and seat 2 is free. On success the joiner gets white, the room id and a fresh valid game at its own size; only that record changes, to seat 2 taken and status playing |
| Session.JoinOnlyOnce | script.js:239-244 | after one successful join, every later join of the same room is refused |
| Session.Restart | script.js:258-272 | in a room, a confirmed restart deletes the record, clears room and colour, and starts a fresh valid game; an unconfirmed one changes nothing. Outside a room, a restart only resets the board. The local size never changes |
| Session.RestartClosesRoom | script.js:261-264 | after a confirmed restart the room's record is gone and it can no longer be joined |
| Session.WinnerField | script.js:36 | the published winner is this client's own colour when the game is over, and absent otherwise |
| Session.Sync | script.js:28-37 | outside a room nothing is written. Otherwise only the room's record changes: it carries the board, log, turn, game-over flag and winner, keeps its seat and status fields, and is created if it was missing |
| Session.Apply | script.js:45-57 | a missing record changes nothing. Otherwise board and log are taken when present and kept when absent, the turn is always taken, `gameOver` is set only when the record says true, and size, colour and room stay local |
| Session.ApplyIdempotent | script.js:54-57 | applying the same snapshot twice gives the same state as applying it once |
| Session.SyncThenApply | script.js:28-57 | what one client publishes, a peer receives exactly: board, log, turn and game-over flag, while the peer keeps its own colour, room and size |
| Session.OwnEchoUnchanged | script.js:28-57 | when the listener delivers a client's own published snapshot back to it, the client's state is unchanged |
| Session.ForeignBoardBreaksGrid | script.js:54 | a client whose size is 19 that receives a 15×15 board ends up with a board that is not `gridSize × gridSize` |
| Session.ApplySized | script.js:54-57 | like `Apply`, but it also takes the board size from the incoming board, so a square incoming board leaves a consistent local size |
| Session.ApplySizedIdempotent | script.js:54-57 | applying the same snapshot twice with the size fix gives the same state as applying it once |
| Session.Click | script.js:165-178 | a click publishes only when the stone was actually placed; a refused click leaves both the client and the store unchanged |
| Session.UndoClick | script.js:274-282 | undo publishes only when something was undone; a refused undo leaves both the client and the store unchanged |
| Session.WinnerIsMover | script.js:172-177 | a stone that completes five ends the game, and the published record names the mover as winner |
| Session.OpponentTakesBack | script.js:274-281 | A plays a non-winning stone and publishes it; B applies it with the listener as written and undoes. B then holds A's earlier board, log and turn, and so does the published record |
| Scenarios.RowOfFiveWins | script.js:180-191 | on 15×15, black at (3..6,7) and white at (3..5,8), black's stone at (7,7) wins |
| Scenarios.CreateJoinRefuse | script.js:239-244 | a created room is waiting with seat 1 taken. The first join succeeds and sets status playing and seat 2 taken; the record still has black to move from its creation. A third client is refused |

## Findings

| source | as written | input that shows it | evidently intended | confidence | as-written member | corrected member |
|---|---|---|---|---|---|---|
| script.js:54 | the listener adopts the remote board but keeps the local `gridSize` (script.js:15, 285) | the creator plays on 15×15 and the joiner's size selector says 19: the joiner's board has 15 rows while `drawBoard`, the hit test and `inBounds` all use 19 | both clients play on the room's board at the room's size | medium, not executed | Session.ForeignBoardBreaksGrid | Session.ApplySized |

## Left out

- Canvas drawing (`drawBoard`, `drawStone`), coordinate labels, `updateTurnText`, the
  coordinate toggle and all message strings: these are presentation only.
- `getCellFromEvent`: this is pixel hit-testing on DOM events. It returns a cell within the local
  `gridSize`, or no cell at all. That result appears as the bounds `requires` of `Game.PlaceStone`
  and `Session.Click`. It does not promise the board is that large; see the next line.
- Game.PlaceStone: requires the board to cover the local `gridSize` square (`Grid.Covers`). The
  same requires sits on `Session.Click` and on the win test. A larger board received from a peer is
  modelled. A smaller one is not. On a smaller board the code does nothing when `x` is past the
  end of row `y`, and throws when row `y` does not exist. `checkWin` and `drawBoard` also throw
  when they reach a missing row. The Findings row describes how such a board arises.
- Firebase I/O is not modelled: `push`, `set`, `update`, `once`, `on`, promise sequencing and
  `onDisconnect().remove()`. The store is a map. Each handler is one sequential step. A fresh
  `push()` key is a `requires` that the id is non-empty and unused.
- Two clients joining at the same time, and last-writer-wins races between the peers, are not
  modelled. The join reads and then writes, so it is not exclusive under concurrency. Joins are
  modelled one after another.
- `alert` and `confirm` dialogs: `Restart` takes the user's answer as a parameter, and
  `Join` returns `NoRoomId` or `Refused` in place of an alert.
- Session.Join: the id is taken as already trimmed. `String.prototype.trim` is not modelled.
- Session.Sync: the store's own encoding is not modelled. The real store drops empty arrays and
  null fields, so an empty move log reaches the peer as an absent field. Here the log is always
  written as present. As a result, `Session.SyncThenApply` holds only under this abstraction.
  Suppose B takes back A's only move. In the real store A then receives no `moves` field. A keeps
  its one-entry log (script.js:55) over an empty board, and the board/log invariant breaks at A.
- Session.Apply: the record's `current` is always present. Room creation and `syncGameState` write
  it. The join's update writes only `player2` and `status`, into a record that already exists. The
  JavaScript case of a record with no `current` does not arise. The join's record vanishing between
  its read and its update is a race, and races are left out.
- The `value` listener also fires right after `Create` and `Join`, and after each of the client's
  own `syncGameState` writes. The model leaves each delivery as a separate `Apply` step. The echo
  of a client's own write changes nothing (`Session.OwnEchoUnchanged`).
- Restart does not detach the `value` listener (script.js:261-264). The peer's next publish
  recreates the record (`Session.Sync` does model a missing record being created). The restarted
  client would still apply that record. Listener registration is not modelled, so this stays
  unmodelled too.
