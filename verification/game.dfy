/** One client's local game state and the moves it applies: board initialisation,
    placing a stone with turn gating, undoing the last move, and changing the size. */
module Game {
  import opened Optional
  import opened Grid
  import opened WinDetector

  /** The client's globals: board size, board, move log, whose turn it is, this
      client's colour (None before it creates or joins a room), whether the game is
      over, and the room it is in (None when in no room). */
  datatype Client = Client(
    gridSize: nat,
    board: Board,
    moves: seq<Move>,
    current: int,
    myPlayer: Option<int>,
    gameOver: bool,
    gameId: Option<string>)

  /** The client-side invariant: board and log agree, the turn is a player's, and this
      client's colour, when set, is a player's. */
  predicate Valid(c: Client) {
    && Consistent(c.board, c.gridSize, c.moves)
    && IsPlayer(c.current)
    && (c.myPlayer.Some? ==> IsPlayer(c.myPlayer.value))
  }

  /** A fresh game at the client's board size: empty board, empty log, black to move. */
  function InitBoard(c: Client): (r: Client)
    ensures IsGrid(r.board, c.gridSize) && AllEmpty(r.board)
    ensures r.moves == [] && r.current == Black && !r.gameOver
    ensures r.gridSize == c.gridSize && r.myPlayer == c.myPlayer && r.gameId == c.gameId
    ensures Consistent(r.board, r.gridSize, r.moves)
  {
    EmptyBoardConsistent(c.gridSize);
    c.(board := EmptyBoard(c.gridSize), moves := [], current := Black, gameOver := false)
  }

  /** Picking another board size starts a fresh game at that size. */
  function ChangeSize(c: Client, n: nat): (r: Client)
    ensures r.gridSize == n && IsGrid(r.board, n) && AllEmpty(r.board)
    ensures r.moves == [] && r.current == Black && !r.gameOver
    ensures r.myPlayer == c.myPlayer && r.gameId == c.gameId
    ensures Consistent(r.board, r.gridSize, r.moves)
  {
    InitBoard(c.(gridSize := n))
  }

  /** The guard of placeStone: the game is running, it is this client's turn, and the
      cell is empty. */
  predicate MayPlace(c: Client, x: int, y: int)
    requires Indexable(c.board, x, y)
  {
    !c.gameOver && c.myPlayer == Some(c.current) && c.board[y][x] == Empty
  }

  /** placeStone: a click on cell (x, y), which the hit test guarantees is within the
      local size. The board must cover that square; a board received from a peer may
      be larger than the local size. */
  function PlaceStone(c: Client, x: int, y: int): (r: Client)
    requires Covers(c.board, c.gridSize) && InBounds(c.gridSize, x, y)
    ensures !MayPlace(c, x, y) ==> r == c
    ensures MayPlace(c, x, y) ==>
      var p := c.current;
      && SameShape(r.board, c.board)
      && r.board[y][x] == p
      && (forall j, i :: 0 <= j < |c.board| && 0 <= i < |c.board[j]| && (i != x || j != y) ==>
            r.board[j][i] == c.board[j][i])
      && r.moves == c.moves + [Move(x, y, p)]
      && r.gameOver == CheckWin(r.board, c.gridSize, x, y, p)
      && r.current == Other(p)
      && r.gridSize == c.gridSize && r.myPlayer == c.myPlayer && r.gameId == c.gameId
  {
    if c.gameOver || c.myPlayer != Some(c.current) then c
    else if c.board[y][x] != Empty then c
    else
      var p := c.myPlayer.value;
      var b := SetCell(c.board, x, y, p);
      SetCellCovers(c.board, c.gridSize, x, y, p);
      // gameOver is false here, so it ends up equal to the win test.
      var over := if CheckWin(b, c.gridSize, x, y, p) then true else c.gameOver;
      c.(board := b, moves := c.moves + [Move(x, y, p)], gameOver := over, current := Other(p))
  }

  /** The guard of the undo button: a move to take back, the game not over, and this
      client's turn (so it takes back the opponent's last move). */
  predicate MayUndo(c: Client) {
    |c.moves| > 0 && !c.gameOver && c.myPlayer == Some(c.current)
  }

  function Last(moves: seq<Move>): Move
    requires |moves| > 0
  {
    moves[|moves| - 1]
  }

  /** The undo button: drop the last move, clear its cell, and give the turn back to
      whoever played it. */
  function Undo(c: Client): (r: Client)
    requires |c.moves| > 0 ==> Indexable(c.board, Last(c.moves).x, Last(c.moves).y)
    ensures !MayUndo(c) ==> r == c
    ensures MayUndo(c) ==>
      var m := Last(c.moves);
      && SameShape(r.board, c.board)
      && r.board[m.y][m.x] == Empty
      && (forall j, i :: 0 <= j < |c.board| && 0 <= i < |c.board[j]| && (i != m.x || j != m.y) ==>
            r.board[j][i] == c.board[j][i])
      && c.moves == r.moves + [m]
      && r.current == m.player
      && r.gridSize == c.gridSize && r.myPlayer == c.myPlayer && r.gameId == c.gameId
    // Undo is refused once the game is over, so the reset of gameOver never changes it.
    ensures r.gameOver == c.gameOver
  {
    if |c.moves| == 0 || c.gameOver || c.myPlayer != Some(c.current) then c
    else
      var m := Last(c.moves);
      c.(moves := c.moves[..|c.moves| - 1],
         board := SetCell(c.board, m.x, m.y, Empty),
         current := m.player,
         gameOver := false)
  }

  /** placeStone keeps the board/log invariant. */
  lemma PlaceStoneValid(c: Client, x: int, y: int)
    requires Valid(c) && InBounds(c.gridSize, x, y)
    ensures Valid(PlaceStone(c, x, y))
  {
    if MayPlace(c, x, y) {
      PlacePreservesConsistent(c.board, c.gridSize, c.moves, x, y, c.current);
    }
  }

  /** Undo keeps the board/log invariant. */
  lemma UndoValid(c: Client)
    requires Valid(c)
    ensures |c.moves| > 0 ==> Indexable(c.board, Last(c.moves).x, Last(c.moves).y)
    ensures Valid(Undo(c))
  {
    if |c.moves| > 0 {
      assert Holds(c.board, c.gridSize, Last(c.moves));
    }
    if MayUndo(c) {
      UndoPreservesConsistent(c.board, c.gridSize, c.moves);
      assert Holds(c.board, c.gridSize, Last(c.moves));
    }
  }

  /** A non-winning stone followed by the opponent's undo restores board, log and turn.
      The opponent is modelled as the same state seen from the other colour, which is
      what the opponent holds once it has applied the published snapshot. */
  lemma PlaceThenOpponentUndo(c: Client, x: int, y: int)
    requires Covers(c.board, c.gridSize) && InBounds(c.gridSize, x, y)
    requires MayPlace(c, x, y) && !PlaceStone(c, x, y).gameOver
    ensures var placed := PlaceStone(c, x, y);
      var u := Undo(placed.(myPlayer := Some(Other(c.current))));
      u.board == c.board && u.moves == c.moves && u.current == c.current && !u.gameOver
  {
    var placed := PlaceStone(c, x, y);
    var opp := placed.(myPlayer := Some(Other(c.current)));
    assert Last(opp.moves) == Move(x, y, c.current);
    assert opp.moves[..|opp.moves| - 1] == c.moves;
    SetCellRestore(c.board, x, y, c.current);
  }
}
