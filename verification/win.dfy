/** Win detection: from the cell just played, walk both ways along each of the four
    axes counting contiguous stones of the player; a total of five or more wins.
    Longer runs (overlines) win too. */
module WinDetector {
  import opened Grid

  /** A step direction (dx, dy). */
  datatype Dir = Dir(dx: int, dy: int)

  /** The four axes in the order they are tried: horizontal, vertical, and the
      two diagonals. */
  const Axes: seq<Dir> := [Dir(1, 0), Dir(0, 1), Dir(1, 1), Dir(1, -1)]

  function Neg(d: Dir): Dir {
    Dir(-d.dx, -d.dy)
  }

  /** A unit step to one of the eight neighbouring cells. */
  predicate Unit(d: Dir) {
    -1 <= d.dx <= 1 && -1 <= d.dy <= 1 && (d.dx != 0 || d.dy != 0)
  }

  /** Steps left before a walk from column/row (cx, cy) along `d` leaves the grid. */
  function Reach(n: int, cx: int, cy: int, d: Dir): int {
    if d.dx == 1 then n - cx
    else if d.dx == -1 then cx + 1
    else if d.dy == 1 then n - cy
    else cy + 1
  }

  /** Number of contiguous cells holding `p` met by walking from (cx, cy) along `d`,
      starting with (cx, cy) itself and stopping at the first cell that is out of
      bounds or does not hold `p`. Only in-bounds cells are read. The count is a run
      of exactly that length: the `r` cells walked over hold `p`, and no run of
      `r + 1` starts there. */
  function Walk(b: Board, n: int, cx: int, cy: int, d: Dir, p: int): (r: nat)
    requires Covers(b, n) && Unit(d)
    ensures Line(b, n, cx, cy, d, p, r)
    ensures !Line(b, n, cx, cy, d, p, r + 1)
    decreases Reach(n, cx, cy, d)
  {
    if InBounds(n, cx, cy) && b[cy][cx] == p then 1 + Walk(b, n, cx + d.dx, cy + d.dy, d, p) else 0
  }

  /** The stones counted on one axis: the played cell, then the walks forward and backward. */
  function AxisCount(b: Board, n: int, x: int, y: int, d: Dir, p: int): nat
    requires Covers(b, n) && Unit(d)
  {
    1 + Walk(b, n, x + d.dx, y + d.dy, d, p) + Walk(b, n, x - d.dx, y - d.dy, Neg(d), p)
  }

  /** The loop over the axes in `ds`, answering true at the first axis that reaches five. */
  function CheckAxes(b: Board, n: int, x: int, y: int, p: int, ds: seq<Dir>): bool
    requires Covers(b, n) && forall k :: 0 <= k < |ds| ==> Unit(ds[k])
  {
    |ds| > 0 && (AxisCount(b, n, x, y, ds[0], p) >= 5 || CheckAxes(b, n, x, y, p, ds[1..]))
  }

  /** Does the stone of `p` at (x, y) complete a line of five or more? True exactly
      when some axis through (x, y) holds a run of five or more stones of `p`,
      (x, y) itself included; overlines count. */
  function CheckWin(b: Board, n: int, x: int, y: int, p: int): (r: bool)
    requires Covers(b, n)
    ensures r <==> HasFive(b, n, x, y, p)
  {
    CheckAxesIff(b, n, x, y, p, Axes);
    CheckAxes(b, n, x, y, p, Axes)
  }

  // ----- reference definition -----

  /** The `k` cells starting at (cx, cy) and stepping along `d` are all in bounds and hold `p`. */
  predicate Line(b: Board, n: int, cx: int, cy: int, d: Dir, p: int, k: nat)
    requires Covers(b, n)
    decreases k
  {
    k == 0 || (InBounds(n, cx, cy) && b[cy][cx] == p && Line(b, n, cx + d.dx, cy + d.dy, d, p, k - 1))
  }

  /** The `k` cells just ahead of (x, y) along `d` hold `p`. */
  predicate Ahead(b: Board, n: int, x: int, y: int, d: Dir, p: int, k: nat)
    requires Covers(b, n)
  {
    Line(b, n, x + d.dx, y + d.dy, d, p, k)
  }

  /** The `k` cells just behind (x, y) along `d` hold `p`. */
  predicate Behind(b: Board, n: int, x: int, y: int, d: Dir, p: int, k: nat)
    requires Covers(b, n)
  {
    Line(b, n, x - d.dx, y - d.dy, Neg(d), p, k)
  }

  /** Along axis `d` there are `f` stones of `p` just ahead of (x, y) and `g` just
      behind it, with `f + g + 1 >= 5`. */
  ghost predicate AxisHasFive(b: Board, n: int, x: int, y: int, d: Dir, p: int)
    requires Covers(b, n)
  {
    exists f: nat, g: nat :: f + g + 1 >= 5 && Ahead(b, n, x, y, d, p, f) && Behind(b, n, x, y, d, p, g)
  }

  /** Some axis through (x, y) carries five or more in a row counting (x, y) itself. */
  ghost predicate HasFive(b: Board, n: int, x: int, y: int, p: int)
    requires Covers(b, n)
  {
    exists k :: 0 <= k < |Axes| && AxisHasFive(b, n, x, y, Axes[k], p)
  }

  /** No run from (cx, cy) is longer than the walk: the walk is maximal. */
  lemma {:induction false} LineAtMostWalk(b: Board, n: int, cx: int, cy: int, d: Dir, p: int, k: nat)
    requires Covers(b, n) && Unit(d)
    requires Line(b, n, cx, cy, d, p, k)
    ensures k <= Walk(b, n, cx, cy, d, p)
    decreases k
  {
    if k > 0 {
      LineAtMostWalk(b, n, cx + d.dx, cy + d.dy, d, p, k - 1);
    }
  }

  /** One axis reaches five exactly when the reference says it has five. */
  lemma AxisCountIff(b: Board, n: int, x: int, y: int, d: Dir, p: int)
    requires Covers(b, n) && Unit(d)
    ensures AxisCount(b, n, x, y, d, p) >= 5 <==> AxisHasFive(b, n, x, y, d, p)
  {
    var f := Walk(b, n, x + d.dx, y + d.dy, d, p);
    var g := Walk(b, n, x - d.dx, y - d.dy, Neg(d), p);
    assert Ahead(b, n, x, y, d, p, f) && Behind(b, n, x, y, d, p, g);
    if AxisHasFive(b, n, x, y, d, p) {
      var f', g' :| f' + g' + 1 >= 5 && Ahead(b, n, x, y, d, p, f') && Behind(b, n, x, y, d, p, g');
      LineAtMostWalk(b, n, x + d.dx, y + d.dy, d, p, f');
      LineAtMostWalk(b, n, x - d.dx, y - d.dy, Neg(d), p, g');
    }
  }

  /** The axis loop finds five exactly when one of its axes has five. */
  lemma {:induction false} CheckAxesIff(b: Board, n: int, x: int, y: int, p: int, ds: seq<Dir>)
    requires Covers(b, n) && forall k :: 0 <= k < |ds| ==> Unit(ds[k])
    ensures CheckAxes(b, n, x, y, p, ds) <==> exists k :: 0 <= k < |ds| && AxisHasFive(b, n, x, y, ds[k], p)
  {
    if |ds| > 0 {
      AxisCountIff(b, n, x, y, ds[0], p);
      CheckAxesIff(b, n, x, y, p, ds[1..]);
      if exists k :: 0 <= k < |ds| && AxisHasFive(b, n, x, y, ds[k], p) {
        var k :| 0 <= k < |ds| && AxisHasFive(b, n, x, y, ds[k], p);
        if k > 0 {
          assert ds[1..][k - 1] == ds[k];
        }
      }
      if exists k :: 0 <= k < |ds[1..]| && AxisHasFive(b, n, x, y, ds[1..][k], p) {
        var k :| 0 <= k < |ds[1..]| && AxisHasFive(b, n, x, y, ds[1..][k], p);
        assert ds[k + 1] == ds[1..][k];
      }
    }
  }
}
