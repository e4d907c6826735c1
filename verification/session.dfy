/** The session records kept in the shared store at `games/{id}`, and the handlers
    that read and write them: creating a room, joining it, restarting, publishing
    the local snapshot, and applying an incoming one. The store is a map from room
    id to record; each handler is one sequential step over the client and the store. */
module Session {
  import opened Optional
  import opened Grid
  import opened WinDetector
  import opened Game

  const StatusWaiting: string := "waiting"
  const StatusPlaying: string := "playing"

  /** A stored record. Fields a writer never set are None. `current` is always present:
      room creation and every snapshot write it, and the join's update writes only
      `player2` and `status` into a record that already exists. */
  datatype Record = Record(
    board: Option<Board>,
    moves: Option<seq<Move>>,
    current: int,
    gameOver: Option<bool>,
    winner: Option<int>,
    player1: Option<bool>,
    player2: Option<bool>,
    status: Option<string>)

  type Store = map<string, Record>

  /** The value of an optional boolean field under JavaScript truthiness. */
  predicate Truthy(f: Option<bool>) {
    f == Some(true)
  }

  // ----- creating a room -----

  /** The record a new room starts with. */
  function NewRoom(board: Board): (rec: Record)
    ensures rec.status == Some(StatusWaiting)
    ensures rec.player1 == Some(true) && rec.player2 == Some(false)
    ensures rec.current == Black && rec.moves == Some([]) && rec.board == Some(board)
    ensures rec.gameOver.None? && rec.winner.None?
  {
    Record(Some(board), Some([]), Black, None, None, Some(true), Some(false), Some(StatusWaiting))
  }

  /** "Create room": start a fresh local game, take black, and store a waiting
      record under the fresh key `id` the store handed out. Such a key is never empty,
      and the code treats an empty room id as no room at all. */
  function Create(c: Client, st: Store, id: string): (r: (Client, Store))
    requires id != "" && id !in st
    ensures var (c', st') := r;
      && c'.gameId == Some(id) && c'.myPlayer == Some(Black)
      && IsGrid(c'.board, c.gridSize) && AllEmpty(c'.board) && c'.moves == []
      && c'.current == Black && !c'.gameOver && Valid(c')
      && st'.Keys == st.Keys + {id}
      && (forall k :: k in st ==> st'[k] == st[k])
      && st'[id] == NewRoom(c'.board)
  {
    var init := InitBoard(c);
    var c' := init.(gameId := Some(id), myPlayer := Some(Black));
    assert Valid(c');
    (c', st[id := NewRoom(c'.board)])
  }

  // ----- joining a room -----

  /** The join guard: the room exists, is waiting, and its second seat is free. */
  predicate Joinable(st: Store, id: string) {
    id in st && st[id].status == Some(StatusWaiting) && !Truthy(st[id].player2)
  }

  datatype JoinResult =
    | NoRoomId                                  // the id box was empty
    | Refused                                   // missing room, or already started
    | Joined(client: Client, store: Store)

  /** "Join room" with the trimmed id the user typed. */
  function Join(c: Client, st: Store, roomId: string): (r: JoinResult)
    ensures roomId == "" <==> r.NoRoomId?
    ensures r.Joined? <==> roomId != "" && Joinable(st, roomId)
    ensures r.Joined? ==>
      && r.client.gameId == Some(roomId) && r.client.myPlayer == Some(White)
      && IsGrid(r.client.board, c.gridSize) && AllEmpty(r.client.board) && r.client.moves == []
      && r.client.current == Black && !r.client.gameOver
      && r.client.gridSize == c.gridSize && Valid(r.client)
      && r.store.Keys == st.Keys
      && (forall k :: k in st && k != roomId ==> r.store[k] == st[k])
      && r.store[roomId] == st[roomId].(player2 := Some(true), status := Some(StatusPlaying))
  {
    if roomId == "" then NoRoomId
    else if roomId in st && st[roomId].status == Some(StatusWaiting) && !Truthy(st[roomId].player2) then
      var rec := st[roomId].(player2 := Some(true), status := Some(StatusPlaying));
      var c' := InitBoard(c.(gameId := Some(roomId), myPlayer := Some(White)));
      Joined(c', st[roomId := rec])
    else Refused
  }

  /** Once a join has succeeded, every later join of the same room is refused. */
  lemma JoinOnlyOnce(c: Client, st: Store, roomId: string, other: Client)
    requires Join(c, st, roomId).Joined?
    ensures Join(other, Join(c, st, roomId).store, roomId) == Refused
  {
  }

  // ----- restarting -----

  /** "Restart": in a room and confirmed, delete the room's record and leave the room;
      in a room but not confirmed, nothing; outside a room, just a fresh board. */
  function Restart(c: Client, st: Store, confirmed: bool): (r: (Client, Store))
    ensures c.gameId.Some? && !confirmed ==> r == (c, st)
    ensures c.gameId.Some? && confirmed ==>
      && r.1 == st - {c.gameId.value}
      && r.0.gameId.None? && r.0.myPlayer.None? && r.0.gridSize == c.gridSize
      && IsGrid(r.0.board, c.gridSize) && AllEmpty(r.0.board) && r.0.moves == []
      && r.0.current == Black && !r.0.gameOver
    ensures c.gameId.None? ==>
      && r.1 == st && r.0.gameId.None? && r.0.myPlayer == c.myPlayer && r.0.gridSize == c.gridSize
      && IsGrid(r.0.board, c.gridSize) && AllEmpty(r.0.board) && r.0.moves == []
      && r.0.current == Black && !r.0.gameOver
    ensures c.gameId.Some? && confirmed ==> Valid(r.0)
    ensures c.gameId.None? ==> Consistent(r.0.board, r.0.gridSize, r.0.moves)
  {
    match c.gameId
    case Some(id) =>
      if confirmed then (InitBoard(c.(gameId := None, myPlayer := None)), st - {id}) else (c, st)
    case None => (InitBoard(c), st)
  }

  /** After a confirmed restart the room is gone: nobody can join it. */
  lemma RestartClosesRoom(c: Client, st: Store, other: Client)
    requires c.gameId.Some?
    ensures c.gameId.value !in Restart(c, st, true).1
    ensures !Join(other, Restart(c, st, true).1, c.gameId.value).Joined?
  {
  }

  // ----- publishing and applying snapshots -----

  /** The winner field of an outgoing snapshot: this client's colour when the game
      is over, none otherwise. */
  function WinnerField(c: Client): (w: Option<int>)
    ensures c.gameOver ==> w == c.myPlayer
    ensures !c.gameOver ==> w.None?
  {
    if c.gameOver then c.myPlayer else None
  }

  /** syncGameState: merge the local snapshot into the room's record; outside a room
      nothing is written. A missing record is created with only the snapshot fields. */
  function Sync(c: Client, st: Store): (st': Store)
    ensures c.gameId.None? ==> st' == st
    ensures c.gameId.Some? ==>
      var id := c.gameId.value;
      && st'.Keys == st.Keys + {id}
      && (forall k :: k in st && k != id ==> st'[k] == st[k])
      && st'[id].board == Some(c.board) && st'[id].moves == Some(c.moves)
      && st'[id].current == c.current && st'[id].gameOver == Some(c.gameOver)
      && st'[id].winner == (if c.gameOver then c.myPlayer else None)
      && (id in st ==> st'[id].player1 == st[id].player1 && st'[id].player2 == st[id].player2
                       && st'[id].status == st[id].status)
      && (id !in st ==> st'[id].player1.None? && st'[id].player2.None? && st'[id].status.None?)
  {
    match c.gameId
    case None => st
    case Some(id) =>
      var base := if id in st then st[id] else Record(None, None, c.current, None, None, None, None, None);
      st[id := base.(board := Some(c.board), moves := Some(c.moves), current := c.current,
                     gameOver := Some(c.gameOver), winner := WinnerField(c))]
  }

  /** The `value` listener: a missing record changes nothing; otherwise board and moves
      are taken when present, the turn unconditionally, and gameOver defaults to false. */
  function Apply(c: Client, rec: Option<Record>): (r: Client)
    ensures rec.None? ==> r == c
    ensures rec.Some? ==>
      && (rec.value.board.Some? ==> r.board == rec.value.board.value)
      && (rec.value.board.None? ==> r.board == c.board)
      && (rec.value.moves.Some? ==> r.moves == rec.value.moves.value)
      && (rec.value.moves.None? ==> r.moves == c.moves)
      && r.current == rec.value.current
      && (r.gameOver <==> rec.value.gameOver == Some(true))
    ensures r.gridSize == c.gridSize && r.myPlayer == c.myPlayer && r.gameId == c.gameId
  {
    match rec
    case None => c
    case Some(s) =>
      c.(board := s.board.GetOr(c.board),
         moves := s.moves.GetOr(c.moves),
         current := s.current,
         gameOver := s.gameOver.GetOr(false))
  }

  /** Applying the same snapshot twice is the same as applying it once. */
  lemma ApplyIdempotent(c: Client, rec: Option<Record>)
    ensures Apply(Apply(c, rec), rec) == Apply(c, rec)
  {
  }

  /** What one client publishes, another in the same room receives: after applying
      it, the receiver holds the sender's board, log, turn and game-over flag, and
      keeps its own colour, room and size. */
  lemma SyncThenApply(sender: Client, receiver: Client, st: Store)
    requires sender.gameId.Some?
    ensures var got := Apply(receiver, Some(Sync(sender, st)[sender.gameId.value]));
      && got.board == sender.board && got.moves == sender.moves
      && got.current == sender.current && got.gameOver == sender.gameOver
      && got.myPlayer == receiver.myPlayer && got.gameId == receiver.gameId
      && got.gridSize == receiver.gridSize
  {
  }

  /** The listener also fires on a client's own write; that echo changes nothing. */
  lemma OwnEchoUnchanged(c: Client, st: Store)
    requires c.gameId.Some?
    ensures Apply(c, Some(Sync(c, st)[c.gameId.value])) == c
  {
    SyncThenApply(c, c, st);
  }

  /** The listener as written keeps the local board size while taking the remote
      board, so a client whose size selector differs from the room creator's ends up
      with a board that is not `gridSize` by `gridSize`; drawing the board, the hit
      test and the win test then index rows that do not exist. */
  lemma ForeignBoardBreaksGrid()
    ensures var c := Client(19, EmptyBoard(19), [], Black, Some(White), false, Some("room"));
      var rec := NewRoom(EmptyBoard(15)).(player2 := Some(true), status := Some(StatusPlaying));
      IsGrid(c.board, c.gridSize) && !IsGrid(Apply(c, Some(rec)).board, Apply(c, Some(rec)).gridSize)
  {
  }

  /** The listener with the board size adopted from the incoming board, as the rest of
      this model uses it: everything `Apply` does, and the local board stays a square
      grid of the local size whenever the incoming board is square. */
  function ApplySized(c: Client, rec: Option<Record>): (r: Client)
    ensures r.board == Apply(c, rec).board && r.moves == Apply(c, rec).moves
    ensures r.current == Apply(c, rec).current && r.gameOver == Apply(c, rec).gameOver
    ensures r.myPlayer == c.myPlayer && r.gameId == c.gameId
    ensures IsGrid(c.board, c.gridSize)
            && (rec.Some? && rec.value.board.Some? ==> IsGrid(rec.value.board.value, |rec.value.board.value|))
            ==> IsGrid(r.board, r.gridSize)
  {
    var r := Apply(c, rec);
    if rec.Some? && rec.value.board.Some? then r.(gridSize := |rec.value.board.value|) else r
  }

  /** Applying the same snapshot twice with the size fix is the same as applying it once. */
  lemma ApplySizedIdempotent(c: Client, rec: Option<Record>)
    ensures ApplySized(ApplySized(c, rec), rec) == ApplySized(c, rec)
  {
  }

  // ----- the move and undo buttons, with publishing -----

  /** A click on cell (x, y): place the stone and, only when it was placed, publish. */
  function Click(c: Client, st: Store, x: int, y: int): (r: (Client, Store))
    requires Covers(c.board, c.gridSize) && InBounds(c.gridSize, x, y)
    ensures !MayPlace(c, x, y) ==> r == (c, st)
    ensures MayPlace(c, x, y) ==> r.0 == PlaceStone(c, x, y) && r.1 == Sync(r.0, st)
  {
    if MayPlace(c, x, y) then
      var c' := PlaceStone(c, x, y);
      (c', Sync(c', st))
    else (c, st)
  }

  /** The undo button: undo and, only when something was undone, publish. */
  function UndoClick(c: Client, st: Store): (r: (Client, Store))
    requires |c.moves| > 0 ==> Indexable(c.board, Last(c.moves).x, Last(c.moves).y)
    ensures !MayUndo(c) ==> r == (c, st)
    ensures MayUndo(c) ==> r.0 == Undo(c) && r.1 == Sync(r.0, st)
  {
    if MayUndo(c) then
      var c' := Undo(c);
      (c', Sync(c', st))
    else (c, st)
  }

  /** A winning stone publishes the mover as winner. */
  lemma WinnerIsMover(c: Client, st: Store, x: int, y: int)
    requires Covers(c.board, c.gridSize) && InBounds(c.gridSize, x, y)
    requires c.gameId.Some? && MayPlace(c, x, y)
    requires HasFive(SetCell(c.board, x, y, c.current), c.gridSize, x, y, c.current)
    ensures var (c', st') := Click(c, st, x, y);
      c'.gameOver && st'[c.gameId.value].gameOver == Some(true)
      && st'[c.gameId.value].winner == Some(c.current)
  {
  }

  /** Two clients in one room: A plays a non-winning stone and publishes it, B applies
      the record and presses undo. B then holds A's board, log and turn from before the
      move, and the store's record carries them too. */
  lemma OpponentTakesBack(a: Client, b: Client, st: Store, x: int, y: int)
    requires Covers(a.board, a.gridSize) && InBounds(a.gridSize, x, y)
    requires a.gameId.Some? && b.gameId == a.gameId
    requires MayPlace(a, x, y) && !PlaceStone(a, x, y).gameOver
    requires b.myPlayer == Some(Other(a.current))
    ensures var id := a.gameId.value;
      var (a', st1) := Click(a, st, x, y);
      var b1 := Apply(b, Some(st1[id]));
      |b1.moves| > 0 && Indexable(b1.board, Last(b1.moves).x, Last(b1.moves).y) &&
      var (b2, st2) := UndoClick(b1, st1);
      && b2.board == a.board && b2.moves == a.moves && b2.current == a.current && !b2.gameOver
      && st2[id].board == Some(a.board) && st2[id].moves == Some(a.moves)
      && st2[id].current == a.current
  {
    var id := a.gameId.value;
    var (a', st1) := Click(a, st, x, y);
    var b1 := Apply(b, Some(st1[id]));
    assert b1.board == a'.board && b1.moves == a'.moves && b1.current == a'.current;
    PlaceThenOpponentUndo(a, x, y);
    assert b1 == a'.(myPlayer := b.myPlayer, gridSize := b.gridSize);
  }
}
