/** Worked examples of the rules on concrete values. */
module Scenarios {
  import opened Optional
  import opened Grid
  import opened WinDetector
  import opened Game
  import opened Session

  /** Black at (3,7) (4,7) (5,7) (6,7), white at (3,8) (4,8) (5,8), then black at (7,7)
      on a 15 by 15 board: the last stone completes five in a row on row 7. */
  lemma RowOfFiveWins()
    ensures var b0 := EmptyBoard(15);
      var b1 := SetCell(SetCell(SetCell(SetCell(b0, 3, 7, Black), 4, 7, Black), 5, 7, Black), 6, 7, Black);
      var b2 := SetCell(SetCell(SetCell(b1, 3, 8, White), 4, 8, White), 5, 8, White);
      CheckWin(SetCell(b2, 7, 7, Black), 15, 7, 7, Black)
  {
    var b0 := EmptyBoard(15);
    var b1 := SetCell(SetCell(SetCell(SetCell(b0, 3, 7, Black), 4, 7, Black), 5, 7, Black), 6, 7, Black);
    var b2 := SetCell(SetCell(SetCell(b1, 3, 8, White), 4, 8, White), 5, 8, White);
    var b := SetCell(b2, 7, 7, Black);
    var d := Dir(1, 0);
    assert b[7][3] == Black && b[7][4] == Black && b[7][5] == Black && b[7][6] == Black;
    assert Line(b, 15, 3, 7, Neg(d), Black, 1);
    assert Line(b, 15, 4, 7, Neg(d), Black, 2);
    assert Line(b, 15, 5, 7, Neg(d), Black, 3);
    assert Line(b, 15, 6, 7, Neg(d), Black, 4);
    assert Ahead(b, 15, 7, 7, d, Black, 0) && Behind(b, 15, 7, 7, d, Black, 4);
    assert AxisHasFive(b, 15, 7, 7, Axes[0], Black);
  }

  /** A creates a room, B joins it and the room is playing with black to move; a third
      client C is then refused. */
  lemma CreateJoinRefuse(a: Client, b: Client, cc: Client, st: Store, id: string)
    requires id !in st && id != ""
    ensures var (a1, st1) := Create(a, st, id);
      var j := Join(b, st1, id);
      && st1[id].status == Some(StatusWaiting) && st1[id].player1 == Some(true)
      && j.Joined?
      && j.store[id].status == Some(StatusPlaying) && j.store[id].player2 == Some(true)
      && j.store[id].current == Black
      && j.client.myPlayer == Some(White)
      && Join(cc, j.store, id) == Refused
  {
    var (a1, st1) := Create(a, st, id);
    JoinOnlyOnce(b, st1, id, cc);
  }
}
