/**
 * The watermark tiling of the drawing effect: the number of tiles on each
 * side of the centre, and the nested loop that draws the text once per
 * grid cell. Drawing is abstracted as the trace of the grid indices
 * `(i, j)` that `fillText` is called with, in call order.
 */
module TileGrid {

  datatype Tile = Tile(i: int, j: int)

  const Origin := Tile(0, 0)

  predicate InGrid(t: Tile, xCount: nat, yCount: nat) {
    -(xCount as int) <= t.i <= xCount && -(yCount as int) <= t.j <= yCount
  }

  /** Row-major order of the loops: `i` outer, `j` inner. */
  predicate Before(a: Tile, b: Tile) {
    a.i < b.i || (a.i == b.i && a.j < b.j)
  }

  /** The loop body draws `(i, j)` unless it is the origin. */
  predicate DrawnBefore(t: Tile, i: int, j: int) {
    t != Origin && (t.i < i || (t.i == i && t.j < j))
  }

  /**
   * The nested loop over `i` in `[-xCount, xCount]` and `j` in
   * `[-yCount, yCount]` that skips the origin, followed by the one draw at
   * the origin. Every cell is drawn exactly once, the origin last.
   */
  method DrawGrid(xCount: nat, yCount: nat) returns (trace: seq<Tile>)
    ensures |trace| == (2 * xCount + 1) * (2 * yCount + 1)
    ensures forall k :: 0 <= k < |trace| ==> InGrid(trace[k], xCount, yCount)
    ensures forall i, j :: -(xCount as int) <= i <= xCount && -(yCount as int) <= j <= yCount ==> Tile(i, j) in trace
    ensures forall a, b :: 0 <= a < b < |trace| ==> trace[a] != trace[b]
    ensures trace[|trace| - 1] == Origin
    ensures forall a, b :: 0 <= a < b < |trace| - 1 ==> Before(trace[a], trace[b])
  {
    var rowLength := 2 * yCount + 1;
    trace := [];
    var i := -(xCount as int);
    while i <= xCount
      invariant -(xCount as int) <= i <= xCount + 1
      invariant |trace| == (i + xCount) * rowLength - (if i > 0 then 1 else 0)
      invariant forall k :: 0 <= k < |trace| ==> InGrid(trace[k], xCount, yCount) && DrawnBefore(trace[k], i, -(yCount as int))
      invariant forall a, b :: 0 <= a < b < |trace| ==> Before(trace[a], trace[b])
      invariant forall t :: InGrid(t, xCount, yCount) && DrawnBefore(t, i, -(yCount as int)) ==> t in trace
    {
      var j := -(yCount as int);
      while j <= yCount
        invariant -(yCount as int) <= j <= yCount + 1
        invariant |trace| == (i + xCount) * rowLength + (j + yCount) - (if i > 0 || (i == 0 && j > 0) then 1 else 0)
        invariant forall k :: 0 <= k < |trace| ==> InGrid(trace[k], xCount, yCount) && DrawnBefore(trace[k], i, j)
        invariant forall a, b :: 0 <= a < b < |trace| ==> Before(trace[a], trace[b])
        invariant forall t :: InGrid(t, xCount, yCount) && DrawnBefore(t, i, j) ==> t in trace
      {
        if i != 0 || j != 0 {
          trace := trace + [Tile(i, j)];
        }
        j := j + 1;
      }
      assert j == yCount + 1;
      forall t | InGrid(t, xCount, yCount)
        ensures DrawnBefore(t, i, j) <==> DrawnBefore(t, i + 1, -(yCount as int))
      {
      }
      assert (i + 1 + xCount) * rowLength == (i + xCount) * rowLength + rowLength;
      i := i + 1;
    }
    assert forall t :: InGrid(t, xCount, yCount) && t != Origin ==> DrawnBefore(t, i, -(yCount as int));
    var body := trace;
    trace := trace + [Origin];
    assert forall t :: InGrid(t, xCount, yCount) ==> t in trace by {
      forall t | InGrid(t, xCount, yCount) ensures t in trace {
        if t != Origin {
          assert t in body;
        }
      }
    }
    assert forall i', j' :: -(xCount as int) <= i' <= xCount && -(yCount as int) <= j' <= yCount ==> InGrid(Tile(i', j'), xCount, yCount);
  }

  /** `Math.ceil` on reals. */
  function Ceil(x: real): (r: int)
    ensures r as real - 1.0 < x <= r as real
  {
    -((-x).Floor)
  }

  /** `xCount`: tiles of width `pitch` on each side of the centre cover the diagonal, and no fewer do. */
  function XCount(diagonal: real, pitch: real): (r: nat)
    requires diagonal >= 0.0 && pitch > 0.0
    ensures diagonal <= r as real * pitch
    ensures r > 0 ==> (r - 1) as real * pitch < diagonal
  {
    var q := diagonal / pitch;
    var c := Ceil(q);
    var cr := c as real;
    assert q * pitch == diagonal;
    MulMonotone(q, cr, pitch);
    assert q * pitch <= cr * pitch;
    MulStrict((c - 1) as real, q, pitch);
    assert (c - 1) as real * pitch < diagonal;
    assert diagonal <= cr * pitch;
    c
  }

  /** `yCount`: rows of height `rowStep` on each side of the centre cover half the diagonal, and no fewer do. */
  function YCount(diagonal: real, rowStep: real): (r: nat)
    requires diagonal >= 0.0 && rowStep > 0.0
    ensures diagonal <= 2.0 * r as real * rowStep
    ensures r > 0 ==> 2.0 * (r - 1) as real * rowStep < diagonal
  {
    var q := diagonal / rowStep / 2.0;
    var c := Ceil(q);
    var cr := c as real;
    var h := 2.0 * rowStep;
    assert q * h == diagonal;
    MulMonotone(q, cr, h);
    assert q * h <= cr * h;
    assert cr * h == 2.0 * cr * rowStep;
    MulStrict((c - 1) as real, q, h);
    assert (c - 1) as real * h < diagonal;
    assert (c - 1) as real * h == 2.0 * (c - 1) as real * rowStep;
    c
  }

  /** The font size: `size` times the larger of 15 and a 25th of the shorter canvas side. */
  function FontSize(size: real, width: real, height: real): (r: real)
    requires size > 0.0
    ensures r >= 15.0 * size
    ensures width <= height ==> r >= size * (width / 25.0)
    ensures height <= width ==> r >= size * (height / 25.0)
    ensures || r == 15.0 * size
            || (width <= height && r == size * (width / 25.0))
            || (height <= width && r == size * (height / 25.0))
  {
    var shorter := if width <= height then width else height;
    var scale := if 15.0 >= shorter / 25.0 then 15.0 else shorter / 25.0;
    assert size * scale >= size * 15.0;
    assert size * scale >= size * (shorter / 25.0);
    size * scale
  }

  /** The distance between rows: `space` font sizes, never less than `15 * size * space`. */
  function RowStep(size: real, space: real, width: real, height: real): (r: real)
    requires size > 0.0 && space > 0.0
    ensures r == space * FontSize(size, width, height)
    ensures r >= space * (15.0 * size) > 0.0
  {
    var fontSize := FontSize(size, width, height);
    MulMonotone(15.0 * size, fontSize, space);
    MulStrict(0.0, space, 15.0 * size);
    space * fontSize
  }

  /**
   * The drawing effect from the font size on, for a `width` by `height`
   * canvas whose diagonal is `diagonal`: nothing is drawn when the text has
   * no width; otherwise the grid of `XCount` by `YCount` tiles, the rows
   * `space` font sizes apart. `textWidth` and `margin` are what
   * `measureText` gives for the text and for one wide character.
   */
  method DrawTiles(width: real, height: real, diagonal: real, size: real, space: real, textWidth: real, margin: real)
    returns (trace: seq<Tile>, xCount: nat, yCount: nat)
    requires diagonal >= 0.0 && diagonal * diagonal == width * width + height * height
    requires size > 0.0 && space > 0.0 && margin >= 0.0
    ensures textWidth <= 0.0 ==> trace == [] && xCount == 0 && yCount == 0
    ensures textWidth > 0.0 ==>
      && xCount == XCount(diagonal, textWidth + margin)
      && yCount == YCount(diagonal, RowStep(size, space, width, height))
    ensures textWidth > 0.0 ==> |trace| == (2 * xCount + 1) * (2 * yCount + 1) && trace[|trace| - 1] == Origin
    ensures forall k :: 0 <= k < |trace| ==> InGrid(trace[k], xCount, yCount)
    ensures textWidth > 0.0 ==> forall i, j :: -(xCount as int) <= i <= xCount && -(yCount as int) <= j <= yCount ==> Tile(i, j) in trace
    ensures forall a, b :: 0 <= a < b < |trace| ==> trace[a] != trace[b]
  {
    if textWidth <= 0.0 {
      return [], 0, 0;
    }
    xCount := XCount(diagonal, textWidth + margin);
    yCount := YCount(diagonal, RowStep(size, space, width, height));
    trace := DrawGrid(xCount, yCount);
  }

  // ----- coverage of the rotated canvas -----

  /** The tile index nearest to coordinate `x` along an axis with spacing `pitch`. */
  function NearestIndex(x: real, pitch: real): (r: int)
    requires pitch > 0.0
    ensures r as real <= x / pitch + 0.5 < r as real + 1.0
  {
    (x / pitch + 0.5).Floor
  }

  /** The nearest tile is within half a spacing of the coordinate. */
  lemma NearestIndexDistance(x: real, pitch: real)
    requires pitch > 0.0
    ensures -pitch / 2.0 <= x - NearestIndex(x, pitch) as real * pitch < pitch / 2.0
  {
    var nr := NearestIndex(x, pitch) as real;
    var q := x / pitch;
    assert q * pitch == x;
    var u := q + 0.5;
    assert u * pitch == q * pitch + 0.5 * pitch;
    MulMonotone(nr, u, pitch);
    MulStrict(u, nr + 1.0, pitch);
    assert (nr + 1.0) * pitch == nr * pitch + pitch;
  }

  lemma MulMonotone(a: real, b: real, p: real)
    requires a <= b && p > 0.0
    ensures a * p <= b * p
  {
  }

  lemma MulStrict(a: real, b: real, p: real)
    requires a < b && p > 0.0
    ensures a * p < b * p
  {
  }

  /** A point of the canvas, relative to its centre, is no further from it than half the diagonal. */
  lemma CanvasPointsWithinHalfDiagonal(width: real, height: real, diagonal: real, u: real, v: real)
    requires width >= 0.0 && height >= 0.0 && diagonal >= 0.0
    requires diagonal * diagonal == width * width + height * height
    requires -width / 2.0 <= u <= width / 2.0 && -height / 2.0 <= v <= height / 2.0
    ensures 4.0 * (u * u + v * v) <= diagonal * diagonal
  {
    SquareBound(u, width / 2.0);
    SquareBound(v, height / 2.0);
  }

  lemma SquareBound(x: real, b: real)
    requires -b <= x <= b
    ensures x * x <= b * b
  {
    var y := if x >= 0.0 then x else -x;
    assert x * x == y * y;
    if y < b {
      MulStrict(0.0, b - y, b + y);
      assert (b - y) * (b + y) == b * b - y * y;
    } else {
      assert y == b;
    }
  }

  /** If `|x| > b >= 0` then `x * x > b * b`. */
  lemma SquareBoundStrict(x: real, b: real)
    requires b >= 0.0 && (x > b || x < -b)
    ensures x * x > b * b
  {
    var y := if x > b then x else -x;
    assert x * x == y * y;
    MulStrict(0.0, y - b, y + b);
    assert (y - b) * (y + b) == y * y - b * b;
  }

  lemma AbsFromSquare(x: real, h: real)
    requires h >= 0.0 && x * x <= h * h
    ensures -h <= x <= h
  {
    if x > h || x < -h {
      SquareBoundStrict(x, h);
    }
  }

  /** Along an axis, a coordinate within `reach` of the centre has its nearest index within `count`. */
  lemma NearestWithinCount(x: real, pitch: real, count: nat, reach: real)
    requires pitch > 0.0 && reach >= 0.0 && -reach <= x <= reach
    requires reach <= count as real * pitch
    ensures -(count as int) <= NearestIndex(x, pitch) <= count
  {
    var q := x / pitch;
    DivBound(x, count as real, pitch);
    DivBound(-x, count as real, pitch);
    assert -x / pitch == -q;
  }

  lemma DivBound(x: real, c: real, p: real)
    requires p > 0.0 && x <= c * p
    ensures x / p <= c
  {
    var q := x / p;
    assert q * p == x;
    if q > c {
      MulStrict(c, q, p);
    }
  }

  /** A point within half the diagonal of the centre is within half the diagonal along each axis. */
  lemma HalfDiagonalBound(x: real, y: real, diagonal: real)
    requires diagonal >= 0.0 && 4.0 * (x * x + y * y) <= diagonal * diagonal
    ensures -diagonal / 2.0 <= x <= diagonal / 2.0 && -diagonal / 2.0 <= y <= diagonal / 2.0
  {
    var half := diagonal / 2.0;
    assert half * half * 4.0 == diagonal * diagonal;
    assert x * x >= 0.0 && y * y >= 0.0;
    assert x * x <= half * half;
    assert y * y <= half * half;
    AbsFromSquare(x, half);
    AbsFromSquare(y, half);
  }

  /** Both counts reach at least half the diagonal from the centre. */
  lemma CountsReachHalfDiagonal(diagonal: real, pitch: real, rowStep: real)
    requires diagonal >= 0.0 && pitch > 0.0 && rowStep > 0.0
    ensures diagonal / 2.0 <= XCount(diagonal, pitch) as real * pitch
    ensures diagonal / 2.0 <= YCount(diagonal, rowStep) as real * rowStep
  {
    var yr := YCount(diagonal, rowStep) as real;
    assert 2.0 * yr * rowStep == 2.0 * (yr * rowStep);
  }

  /** Along one axis: the nearest tile to a coordinate within `reach` is drawn and within half a spacing. */
  lemma AxisCovered(v: real, spacing: real, count: nat, reach: real)
    requires spacing > 0.0 && reach >= 0.0 && -reach <= v <= reach
    requires reach <= count as real * spacing
    ensures -(count as int) <= NearestIndex(v, spacing) <= count
    ensures -spacing / 2.0 <= v - NearestIndex(v, spacing) as real * spacing < spacing / 2.0
  {
    NearestWithinCount(v, spacing, count, reach);
    NearestIndexDistance(v, spacing);
  }

  /**
   * The tiles leave no gap after rotation: every point of the rotated frame
   * within half the diagonal of the centre along both axes lies within half
   * a tile of a drawn grid cell. Every canvas point is that close to the
   * centre whatever the angle (`CanvasPointsWithinHalfDiagonal`,
   * `HalfDiagonalBound`).
   */
  lemma GridCoversRotatedCanvas(pitch: real, diagonal: real, rowStep: real, x: real, y: real)
    requires pitch > 0.0 && diagonal >= 0.0 && rowStep > 0.0
    requires -diagonal / 2.0 <= x <= diagonal / 2.0 && -diagonal / 2.0 <= y <= diagonal / 2.0
    ensures InGrid(Tile(NearestIndex(x, pitch), NearestIndex(y, rowStep)), XCount(diagonal, pitch), YCount(diagonal, rowStep))
    ensures -pitch / 2.0 <= x - NearestIndex(x, pitch) as real * pitch < pitch / 2.0
    ensures -rowStep / 2.0 <= y - NearestIndex(y, rowStep) as real * rowStep < rowStep / 2.0
  {
    CountsReachHalfDiagonal(diagonal, pitch, rowStep);
    AxisCovered(x, pitch, XCount(diagonal, pitch), diagonal / 2.0);
    AxisCovered(y, rowStep, YCount(diagonal, rowStep), diagonal / 2.0);
  }
}
