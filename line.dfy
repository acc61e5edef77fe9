/** `draw_2d_line`: the all-octant, integer-error form of Bresenham's line
    algorithm used by the brush tool, followed by `np.unique(..., axis=0)`. */
module Line {
  import opened Outcomes
  import opened NpUnique

  /** Two distinct cells that touch by a side or a corner. */
  predicate Adjacent8(p: Cell, q: Cell) {
    p != q && -1 <= p.0 - q.0 <= 1 && -1 <= p.1 - q.1 <= 1
  }

  predicate Between(v: int, a: int, b: int) {
    (a <= v <= b) || (b <= v <= a)
  }

  /** The cell lies in the bounding box of the two endpoints. */
  predicate InBox(p: Cell, x0: int, y0: int, x1: int, y1: int) {
    Between(p.0, x0, x1) && Between(p.1, y0, y1)
  }

  /** `v` is `k` unit steps from `start` in the direction of `end`
      (the sign `sx` or `sy` of the source). */
  predicate Toward(start: int, end: int, v: int, k: int) {
    if start < end then v == start + k else v == start - k
  }

  /** The walk of the `while True` loop, in the order the cells are appended:
      it starts at the first endpoint, ends at the second, moves to a neighbouring
      cell at every step and makes exactly one step per unit of the longer
      coordinate difference. With integer endpoints the two inner `break`s are
      never reached: the loop always ends at its first test. */
  method Walk(x0: int, y0: int, x1: int, y1: int) returns (voxels: seq<Cell>)
    ensures |voxels| == Max(Abs(x1 - x0), Abs(y1 - y0)) + 1
    ensures voxels[0] == (x0, y0) && voxels[|voxels| - 1] == (x1, y1)
    ensures forall k :: 0 <= k < |voxels| - 1 ==> Adjacent8(voxels[k], voxels[k + 1])
    ensures forall k :: 0 <= k < |voxels| ==> InBox(voxels[k], x0, y0, x1, y1)
    ensures NoDup(voxels)
  {
    var dx := Abs(x1 - x0);
    var sx := if x0 < x1 then 1 else -1;
    var dy := -(Abs(y1 - y0) as int);
    var sy := if y0 < y1 then 1 else -1;
    var error := dx + dy;
    var x, y := x0, y0;
    voxels := [];
    ghost var a, b := dx, -dy;
    ghost var i, j := 0, 0;
    while true
      invariant Balanced(a, b, i, j, error)
      invariant Toward(x0, x1, x, i) && Toward(y0, y1, y, j)
      invariant |voxels| == if a >= b then i else j
      invariant WalkSoFar(voxels, x0, y0, x1, y1, a >= b)
      invariant voxels == [] ==> (x, y) == (x0, y0)
      invariant voxels != [] ==> Adjacent8(voxels[|voxels| - 1], (x, y))
      decreases a + b - i - j
    {
      ExtendWalk(voxels, x0, y0, x1, y1, x, y, i, j, a >= b);
      voxels := voxels + [(x, y)];
      if Abs(x - x1) < 1 && Abs(y - y1) < 1 {
        break;
      }
      var stopped;
      x, y, error, stopped, i, j := Advance(x0, y0, x1, y1, x, y, error, a, b, i, j);
      if stopped {
        assert false;
        break;
      }
    }
    WalkNoDup(voxels, x0, y0, x1, y1, a >= b);
  }

  /** One pass of the loop after the first test, with `i` and `j` the steps
      taken so far along x and y: it takes the x step, the y step or both, and
      never reaches either of the inner `break`s. */
  method Advance(x0: int, y0: int, x1: int, y1: int, x: int, y: int, error: int,
                 ghost a: int, ghost b: int, ghost i: int, ghost j: int)
    returns (x': int, y': int, error': int, stopped: bool, ghost i': int, ghost j': int)
    requires a == Abs(x1 - x0) && b == Abs(y1 - y0)
    requires Balanced(a, b, i, j, error)
    requires Toward(x0, x1, x, i) && Toward(y0, y1, y, j)
    requires !(Abs(x - x1) < 1 && Abs(y - y1) < 1)
    ensures !stopped
    ensures Balanced(a, b, i', j', error')
    ensures Toward(x0, x1, x', i') && Toward(y0, y1, y', j')
    ensures i + j < i' + j'
    ensures if a >= b then i' == i + 1 else j' == j + 1
    ensures Adjacent8((x, y), (x', y'))
  {
    var dx := Abs(x1 - x0);
    var sx := if x0 < x1 then 1 else -1;
    var dy := -(Abs(y1 - y0) as int);
    var sy := if y0 < y1 then 1 else -1;
    StepBalanced(a, b, i, j, error);
    x', y', error', stopped, i', j' := x, y, error, false, i, j;
    var e2 := 2 * error;
    if e2 >= dy {
      if Abs(x - x1) < 1 {
        assert false;
        stopped := true;
        return;
      }
      error' := error' + dy;
      x' := x' + sx;
      i' := i' + 1;
    }
    if e2 <= dx {
      if Abs(y - y1) < 1 {
        assert false;
        stopped := true;
        return;
      }
      error' := error' + dx;
      y' := y' + sy;
      j' := j' + 1;
    }
  }

  /** The cells appended so far: the first is the start, each touches the next,
      all lie in the bounding box, and the k-th is k steps along the longer axis. */
  predicate WalkSoFar(voxels: seq<Cell>, x0: int, y0: int, x1: int, y1: int, xMajor: bool) {
    && (voxels != [] ==> voxels[0] == (x0, y0))
    && (forall k :: 0 <= k < |voxels| - 1 ==> Adjacent8(voxels[k], voxels[k + 1]))
    && (forall k :: 0 <= k < |voxels| ==> InBox(voxels[k], x0, y0, x1, y1))
    && (xMajor ==> forall k :: 0 <= k < |voxels| ==> Toward(x0, x1, voxels[k].0, k))
    && (!xMajor ==> forall k :: 0 <= k < |voxels| ==> Toward(y0, y1, voxels[k].1, k))
  }

  lemma ExtendWalk(voxels: seq<Cell>, x0: int, y0: int, x1: int, y1: int, x: int, y: int, i: int, j: int, xMajor: bool)
    requires WalkSoFar(voxels, x0, y0, x1, y1, xMajor)
    requires 0 <= i <= Abs(x1 - x0) && 0 <= j <= Abs(y1 - y0)
    requires Toward(x0, x1, x, i) && Toward(y0, y1, y, j)
    requires |voxels| == if xMajor then i else j
    requires voxels == [] ==> (x, y) == (x0, y0)
    requires voxels != [] ==> Adjacent8(voxels[|voxels| - 1], (x, y))
    ensures WalkSoFar(voxels + [(x, y)], x0, y0, x1, y1, xMajor)
  {
  }

  lemma WalkNoDup(voxels: seq<Cell>, x0: int, y0: int, x1: int, y1: int, xMajor: bool)
    requires WalkSoFar(voxels, x0, y0, x1, y1, xMajor)
    ensures NoDup(voxels)
  {
    forall k, l | 0 <= k < l < |voxels| ensures voxels[k] != voxels[l] {
      if xMajor { assert voxels[k].0 != voxels[l].0; } else { assert voxels[k].1 != voxels[l].1; }
    }
  }

  lemma MulStep(a: int, n: int)
    ensures a * (n + 1) == a * n + a
  {
  }

  /** With the x coordinate at its end and the y coordinate short of it, the
      error term is too small for the x step to be taken. */
  /** The loop's error term after `i` steps along x and `j` along y, with
      `a` and `b` the absolute coordinate differences. */
  ghost predicate Balanced(a: int, b: int, i: int, j: int, error: int) {
    && 0 <= i <= a && 0 <= j <= b
    && error == a * (1 + j) - b * (1 + i)
    && (a >= b ==> 2 * error >= -b)
    && (b >= a ==> 2 * error <= a)
  }

  /** One pass of the loop short of the end: a step is taken along x exactly
      when `2 * error >= -b`, along y exactly when `2 * error <= a`; at least one
      is taken, neither overshoots, and the error term stays balanced. */
  lemma StepBalanced(a: int, b: int, i: int, j: int, error: int)
    requires Balanced(a, b, i, j, error) && (i < a || j < b)
    ensures 2 * error >= -b ==> i < a
    ensures 2 * error <= a ==> j < b
    ensures 2 * error >= -b || 2 * error <= a
    ensures Balanced(a, b,
                     if 2 * error >= -b then i + 1 else i,
                     if 2 * error <= a then j + 1 else j,
                     error + (if 2 * error >= -b then -b else 0) + (if 2 * error <= a then a else 0))
  {
    if i == a { NoEarlyStopX(a, b, j); }
    if j == b { NoEarlyStopY(a, b, i); }
    MulStep(a, 1 + j);
    MulStep(b, 1 + i);
  }

  /** Taking the x step, the y step or both keeps each coordinate its number
      of steps from the start, and moves to a neighbouring cell. */
  lemma StepMoves(x0: int, y0: int, x1: int, y1: int, x: int, y: int, i: int, j: int, stepX: bool, stepY: bool)
    requires Toward(x0, x1, x, i) && Toward(y0, y1, y, j)
    requires stepX || stepY
    ensures var x' := if stepX then x + (if x0 < x1 then 1 else -1) else x;
            var y' := if stepY then y + (if y0 < y1 then 1 else -1) else y;
            && Toward(x0, x1, x', if stepX then i + 1 else i)
            && Toward(y0, y1, y', if stepY then j + 1 else j)
            && Adjacent8((x, y), (x', y'))
  {
  }

  lemma NoEarlyStopX(a: int, b: int, j: int)
    requires 0 <= a && 0 <= j < b
    ensures 2 * (a * (1 + j) - b * (1 + a)) < -b
  {
    var c := b - 1 - j;
    assert a * c >= 0;
    assert a * (1 + j) == a + a * j;
    assert b * (1 + a) == b + a * b;
    assert a * c == a * b - a - a * j;
  }

  /** With the y coordinate at its end and the x coordinate short of it, the
      error term is too large for the y step to be taken. */
  lemma NoEarlyStopY(a: int, b: int, i: int)
    requires 0 <= b && 0 <= i < a
    ensures 2 * (a * (1 + b) - b * (1 + i)) > a
  {
    var d := a - 1 - i;
    assert b * d >= 0;
    assert a * (1 + b) == a + a * b;
    assert b * (1 + i) == b + b * i;
    assert b * d == a * b - b - b * i;
  }

  /** `draw_2d_line(x0, y0, x1, y1)` with integer endpoints: the cells of the walk,
      each once, sorted by row then column. */
  method DrawLine(x0: int, y0: int, x1: int, y1: int) returns (cells: seq<Cell>)
    ensures AscendingRows(cells)
    ensures |cells| == Max(Abs(x1 - x0), Abs(y1 - y0)) + 1
    ensures (x0, y0) in cells && (x1, y1) in cells
    ensures forall k :: 0 <= k < |cells| ==> InBox(cells[k], x0, y0, x1, y1)
  {
    var voxels := Walk(x0, y0, x1, y1);
    cells := UniqueRows(voxels);
    assert (set c | c in cells) == (set c | c in voxels);
    NoDupCard(voxels);
    AscendingNoDup(cells);
    NoDupCard(cells);
    assert voxels[|voxels| - 1] in voxels;
    forall k | 0 <= k < |cells| ensures InBox(cells[k], x0, y0, x1, y1) {
      assert cells[k] in voxels;
      var m :| 0 <= m < |voxels| && voxels[m] == cells[k];
    }
  }

  lemma AscendingNoDup(s: seq<Cell>)
    requires AscendingRows(s)
    ensures NoDup(s)
  {
  }
}
