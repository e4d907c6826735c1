/** The board and the move log: a square grid of cells holding 0 (empty),
    1 (black) or 2 (white), and the ordered list of moves that filled it. */
module Grid {

  type Board = seq<seq<int>>

  const Empty: int := 0
  const Black: int := 1
  const White: int := 2

  predicate IsPlayer(v: int) {
    v == Black || v == White
  }

  predicate IsCell(v: int) {
    v == Empty || IsPlayer(v)
  }

  /** One entry of the move log: column `x`, row `y`, and who played it. */
  datatype Move = Move(x: int, y: int, player: int)

  /** The opponent of `p`; anything other than black counts as white. */
  function Other(p: int): (q: int)
    ensures IsPlayer(q)
    ensures p == Black ==> q == White
    ensures p == White ==> q == Black
  {
    if p == Black then White else Black
  }

  predicate InBounds(n: int, x: int, y: int) {
    x >= 0 && y >= 0 && x < n && y < n
  }

  /** `b` is an `n` by `n` grid (rows indexed by y, columns by x). */
  predicate IsGrid(b: Board, n: int) {
    |b| == n && forall j :: 0 <= j < |b| ==> |b[j]| == n
  }

  /** Rows 0 to n-1 exist and each has at least `n` cells, so every cell that is in
      bounds for an `n` by `n` game can be read. The board may be larger than that. */
  predicate Covers(b: Board, n: int) {
    n <= |b| && forall j :: 0 <= j < n ==> n <= |b[j]|
  }

  /** `b[y][x]` can be read. */
  predicate Indexable(b: Board, x: int, y: int) {
    0 <= y < |b| && 0 <= x < |b[y]|
  }

  predicate SameShape(a: Board, b: Board) {
    |a| == |b| && forall j :: 0 <= j < |a| ==> |a[j]| == |b[j]|
  }

  predicate CellsValid(b: Board) {
    forall j, i :: 0 <= j < |b| && 0 <= i < |b[j]| ==> IsCell(b[j][i])
  }

  predicate AllEmpty(b: Board) {
    forall j, i :: 0 <= j < |b| && 0 <= i < |b[j]| ==> b[j][i] == Empty
  }

  /** A cell the bounds test admits can be read on any board covering the game's
      square, and on an exact `n` by `n` grid the bounds test admits exactly the
      readable cells. */
  lemma InBoundsReadable(b: Board, n: int, x: int, y: int)
    ensures Covers(b, n) && InBounds(n, x, y) ==> Indexable(b, x, y)
    ensures IsGrid(b, n) ==> (InBounds(n, x, y) <==> Indexable(b, x, y))
  {
  }

  /** Writing a cell keeps a board covering the game's square. */
  lemma SetCellCovers(b: Board, n: int, x: int, y: int, v: int)
    requires Indexable(b, x, y)
    ensures Covers(b, n) ==> Covers(SetCell(b, x, y, v), n)
  {
  }

  /** A fresh `n` by `n` board of empty cells. */
  function EmptyBoard(n: nat): (b: Board)
    ensures IsGrid(b, n)
    ensures AllEmpty(b)
  {
    seq(n, _ => seq(n, _ => Empty))
  }

  /** The board with cell `(x, y)` set to `v` and every other cell as before. */
  function SetCell(b: Board, x: int, y: int, v: int): (r: Board)
    requires Indexable(b, x, y)
    ensures SameShape(r, b)
    ensures r[y][x] == v
    ensures forall j, i :: 0 <= j < |b| && 0 <= i < |b[j]| && (i != x || j != y) ==> r[j][i] == b[j][i]
  {
    b[y := b[y][x := v]]
  }

  /** Writing back the value a cell held restores the board exactly. */
  lemma SetCellRestore(b: Board, x: int, y: int, v: int)
    requires Indexable(b, x, y)
    ensures SetCell(SetCell(b, x, y, v), x, y, b[y][x]) == b
  {
    var r := SetCell(SetCell(b, x, y, v), x, y, b[y][x]);
    assert r[y] == b[y];
  }

  function Stone(v: int): nat {
    if v != Empty then 1 else 0
  }

  /** Number of non-empty cells of a row. */
  function RowStones(row: seq<int>): nat {
    if |row| == 0 then 0 else Stone(row[0]) + RowStones(row[1..])
  }

  /** Number of non-empty cells of a board. */
  function Stones(b: Board): nat {
    if |b| == 0 then 0 else RowStones(b[0]) + Stones(b[1..])
  }

  lemma {:induction false} RowStonesUpdate(row: seq<int>, x: int, v: int)
    requires 0 <= x < |row|
    ensures RowStones(row[x := v]) == RowStones(row) - Stone(row[x]) + Stone(v)
  {
    if x > 0 {
      assert row[x := v][1..] == row[1..][x - 1 := v];
      RowStonesUpdate(row[1..], x - 1, v);
    } else {
      assert row[x := v][1..] == row[1..];
    }
  }

  lemma {:induction false} StonesUpdateRow(b: Board, y: int, row: seq<int>)
    requires 0 <= y < |b|
    ensures Stones(b[y := row]) == Stones(b) - RowStones(b[y]) + RowStones(row)
  {
    if y > 0 {
      assert b[y := row][1..] == b[1..][y - 1 := row];
      StonesUpdateRow(b[1..], y - 1, row);
    } else {
      assert b[y := row][1..] == b[1..];
    }
  }

  /** Setting one cell changes the stone count by what that cell gained or lost. */
  lemma StonesSetCell(b: Board, x: int, y: int, v: int)
    requires Indexable(b, x, y)
    ensures Stones(SetCell(b, x, y, v)) == Stones(b) - Stone(b[y][x]) + Stone(v)
  {
    RowStonesUpdate(b[y], x, v);
    StonesUpdateRow(b, y, b[y][x := v]);
  }

  lemma {:induction false} EmptyRowHasNoStones(row: seq<int>)
    requires forall i :: 0 <= i < |row| ==> row[i] == Empty
    ensures RowStones(row) == 0
  {
    if |row| > 0 {
      EmptyRowHasNoStones(row[1..]);
    }
  }

  lemma {:induction false} EmptyBoardHasNoStones(b: Board)
    requires AllEmpty(b)
    ensures Stones(b) == 0
  {
    if |b| > 0 {
      EmptyRowHasNoStones(b[0]);
      assert AllEmpty(b[1..]) by {
        forall j, i | 0 <= j < |b[1..]| && 0 <= i < |b[1..][j]|
          ensures b[1..][j][i] == Empty
        {
          assert b[1..][j] == b[j + 1];
        }
      }
      EmptyBoardHasNoStones(b[1..]);
    }
  }

  /** Move `m` names an in-bounds cell of `b`, which holds `m`'s player. */
  predicate Holds(b: Board, n: int, m: Move) {
    IsPlayer(m.player) && InBounds(n, m.x, m.y) && Indexable(b, m.x, m.y) && b[m.y][m.x] == m.player
  }

  predicate SameCell(m1: Move, m2: Move) {
    m1.x == m2.x && m1.y == m2.y
  }

  /** The board/log invariant: an `n` by `n` board of valid cells whose stone count
      equals the log length, each logged move's cell holding that move's player,
      and no two logged moves on the same cell. */
  predicate Consistent(b: Board, n: int, moves: seq<Move>) {
    && IsGrid(b, n)
    && CellsValid(b)
    && Stones(b) == |moves|
    && (forall k :: 0 <= k < |moves| ==> Holds(b, n, moves[k]))
    && (forall k, l :: 0 <= k < l < |moves| ==> !SameCell(moves[k], moves[l]))
  }

  /** A fresh board with an empty log is consistent. */
  lemma EmptyBoardConsistent(n: nat)
    ensures Consistent(EmptyBoard(n), n, [])
  {
    EmptyBoardHasNoStones(EmptyBoard(n));
  }

  /** Placing player `p` on an empty cell and logging it keeps the invariant. */
  lemma PlacePreservesConsistent(b: Board, n: int, moves: seq<Move>, x: int, y: int, p: int)
    requires Consistent(b, n, moves)
    requires InBounds(n, x, y) && b[y][x] == Empty && IsPlayer(p)
    ensures Consistent(SetCell(b, x, y, p), n, moves + [Move(x, y, p)])
  {
    var b' := SetCell(b, x, y, p);
    var moves' := moves + [Move(x, y, p)];
    StonesSetCell(b, x, y, p);
    forall k | 0 <= k < |moves|
      ensures !SameCell(moves[k], Move(x, y, p))
    {
      assert Holds(b, n, moves[k]);
    }
    forall k | 0 <= k < |moves'|
      ensures Holds(b', n, moves'[k])
    {
      if k < |moves| {
        assert moves'[k] == moves[k];
        assert Holds(b, n, moves[k]);
      }
    }
  }

  /** Clearing the last logged move's cell and dropping it from the log keeps the invariant. */
  lemma UndoPreservesConsistent(b: Board, n: int, moves: seq<Move>)
    requires Consistent(b, n, moves) && |moves| > 0
    ensures var last := moves[|moves| - 1];
      Consistent(SetCell(b, last.x, last.y, Empty), n, moves[..|moves| - 1])
  {
    var last := moves[|moves| - 1];
    assert Holds(b, n, last);
    var b' := SetCell(b, last.x, last.y, Empty);
    var moves' := moves[..|moves| - 1];
    StonesSetCell(b, last.x, last.y, Empty);
    forall k | 0 <= k < |moves'|
      ensures Holds(b', n, moves'[k])
    {
      assert moves'[k] == moves[k];
      assert Holds(b, n, moves[k]);
      assert !SameCell(moves[k], last);
    }
  }
}
