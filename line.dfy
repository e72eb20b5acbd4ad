/**
 * `draw_line` and its helper `interpolate`: a DDA rasteriser that walks the
 * dominant axis one pixel at a time and interpolates the other coordinate.
 * The f64 accumulation is taken over exact reals.
 */
module Line {
  import opened Numeric
  import opened CanvasCore

  /** A canvas coordinate pair as the rasteriser holds it (two isize values). */
  type Point = (int, int)

  /** Number of values in the inclusive range `lo..=hi`. */
  function Count(lo: int, hi: int): nat
  {
    if lo <= hi then hi - lo + 1 else 0
  }

  /** The inclusive range `lo..=hi`. */
  function Range(lo: int, hi: int): (r: seq<int>)
    ensures |r| == Count(lo, hi)
    ensures forall k :: 0 <= k < |r| ==> r[k] == lo + k
  {
    seq(Count(lo, hi), k => lo + k)
  }

  /** `Iterator::zip`: pairs up the two sequences and stops at the shorter one. */
  function Zip(steps: seq<int>, ds: seq<int>): (r: seq<Point>)
    ensures |r| == Min(|steps|, |ds|)
    ensures forall k :: 0 <= k < |r| ==> r[k] == (steps[k], ds[k])
  {
    seq(Min(|steps|, |ds|), k requires 0 <= k < Min(|steps|, |ds|) => (steps[k], ds[k]))
  }

  /** Exchanges the two coordinates of every pair. */
  function Transposed(ps: seq<Point>): (r: seq<Point>)
    ensures |r| == |ps|
    ensures forall k :: 0 <= k < |r| ==> r[k] == (ps[k].1, ps[k].0)
  {
    seq(|ps|, k requires 0 <= k < |ps| => (ps[k].1, ps[k].0))
  }

  /** The per-step increment of the secondary coordinate. */
  function Slope(i0: int, d0: int, i1: int, d1: int): real
    requires i0 != i1
  {
    (d1 - d0) as real / (i1 - i0) as real
  }

  /** The k-th interpolated value: `d0 + k * slope`, converted with `as isize`. */
  function Interpolated(i0: int, d0: int, i1: int, d1: int, k: int): int
    requires i0 != i1
  {
    Trunc(Unrounded(i0, d0, i1, d1, k))
  }

  /** What `interpolate((i0, d0), (i1, d1))` returns, one value per step of `i0..=i1`. */
  function Interpolation(i0: int, d0: int, i1: int, d1: int): (ds: seq<int>)
    ensures |ds| == if i0 == i1 then 1 else Count(i0, i1)
  {
    if i0 == i1 then [d0]
    else seq(Count(i0, i1), k => Interpolated(i0, d0, i1, d1, k))
  }

  /** `interpolate`: accumulates the slope step by step and truncates each partial sum. */
  method Interpolate(i0: int, d0: int, i1: int, d1: int) returns (values: seq<int>)
    ensures values == Interpolation(i0, d0, i1, d1)
  {
    if i0 == i1 {
      return [d0];
    }
    values := [];
    var a := (d1 - d0) as real / (i1 - i0) as real;
    var d := d0 as real;
    var i := i0;
    while i <= i1
      invariant i == i0 || i0 <= i <= i1 + 1
      invariant |values| == i - i0
      invariant d == Unrounded(i0, d0, i1, d1, i - i0)
      invariant forall k :: 0 <= k < |values| ==> values[k] == Interpolated(i0, d0, i1, d1, k)
      decreases i1 - i
    {
      values := values + [Trunc(d)];
      UnroundedStep(i0, d0, i1, d1, i - i0);
      d := d + a;
      i := i + 1;
    }
  }

  /** `k * (delta / n)` lies between 0 and `delta` when `0 <= k <= n`. */
  lemma ScaledBetween(k: real, n: real, delta: real)
    requires 0.0 <= k <= n && 0.0 < n
    ensures 0.0 <= delta ==> 0.0 <= k * (delta / n) <= delta
    ensures delta < 0.0 ==> delta <= k * (delta / n) <= 0.0
  {
    var a := delta / n;
    assert n * a == delta;
    assert n * a - k * a == (n - k) * a;
    if 0.0 <= delta {
      assert 0.0 <= a;
    } else {
      assert a < 0.0;
    }
  }

  /** A quotient by a positive `n` of a value no larger than `n` in magnitude is in [-1, 1]. */
  lemma UnitQuotient(delta: real, n: real)
    requires 0.0 < n && -n <= delta <= n
    ensures 0.0 <= delta ==> 0.0 <= delta / n <= 1.0
    ensures delta < 0.0 ==> -1.0 <= delta / n < 0.0
  {
    var a := delta / n;
    assert n * a == delta;
    if a < 0.0 {
      assert n * a < 0.0;
    }
  }

  /** The value before truncation at step k. */
  function Unrounded(i0: int, d0: int, i1: int, d1: int, k: int): real
    requires i0 != i1
  {
    d0 as real + k as real * Slope(i0, d0, i1, d1)
  }

  /** Each step adds the slope once: the accumulation of `d += a`. */
  lemma UnroundedStep(i0: int, d0: int, i1: int, d1: int, k: int)
    requires i0 != i1
    ensures Unrounded(i0, d0, i1, d1, k + 1) == Unrounded(i0, d0, i1, d1, k) + Slope(i0, d0, i1, d1)
  {
    var a := Slope(i0, d0, i1, d1);
    assert (k + 1) as real * a == k as real * a + a;
  }

  /** After all `i1 - i0` steps the accumulation reaches `d1` exactly. */
  lemma UnroundedLast(i0: int, d0: int, i1: int, d1: int)
    requires i0 != i1
    ensures Unrounded(i0, d0, i1, d1, i1 - i0) == d1 as real
  {
    var n := (i1 - i0) as real;
    var delta := (d1 - d0) as real;
    assert n * (delta / n) == delta;
  }

  /**
   * Over a non-empty range the interpolation starts at `d0`; it ends at `d1`
   * unless the range is a single step, where only `d0` is returned.
   */
  lemma InterpolationEnds(i0: int, d0: int, i1: int, d1: int)
    requires i0 <= i1
    ensures Interpolation(i0, d0, i1, d1)[0] == d0
    ensures i0 < i1 ==> Interpolation(i0, d0, i1, d1)[i1 - i0] == d1
  {
    if i0 != i1 {
      var ds := Interpolation(i0, d0, i1, d1);
      assert ds[0] == Trunc(Unrounded(i0, d0, i1, d1, 0));
      assert ds[i1 - i0] == Trunc(Unrounded(i0, d0, i1, d1, i1 - i0));
      UnroundedLast(i0, d0, i1, d1);
      TruncOfInt(d0);
      TruncOfInt(d1);
    }
  }

  /** Every interpolated value lies between `d0` and `d1`. */
  lemma InterpolationBetween(i0: int, d0: int, i1: int, d1: int, k: int)
    requires i0 <= i1 && 0 <= k <= i1 - i0
    ensures Min(d0, d1) <= Interpolation(i0, d0, i1, d1)[k] <= Max(d0, d1)
  {
    if i0 != i1 {
      var ds := Interpolation(i0, d0, i1, d1);
      assert ds[k] == Trunc(Unrounded(i0, d0, i1, d1, k));
      ScaledBetween(k as real, (i1 - i0) as real, (d1 - d0) as real);
      TruncBetween(Unrounded(i0, d0, i1, d1, k), Min(d0, d1), Max(d0, d1));
    }
  }

  /**
   * When the secondary delta is at most the dominant one, consecutive values
   * move by at most one, in the direction from `d0` to `d1`.
   */
  lemma {:induction false} InterpolationStep(i0: int, d0: int, i1: int, d1: int, k: int)
    requires i0 <= i1 && Abs(d1 - d0) <= i1 - i0 && 0 <= k < i1 - i0
    ensures d0 <= d1 ==> Interpolation(i0, d0, i1, d1)[k] <= Interpolation(i0, d0, i1, d1)[k + 1] <= Interpolation(i0, d0, i1, d1)[k] + 1
    ensures d1 <= d0 ==> Interpolation(i0, d0, i1, d1)[k + 1] <= Interpolation(i0, d0, i1, d1)[k] <= Interpolation(i0, d0, i1, d1)[k + 1] + 1
  {
    var ds := Interpolation(i0, d0, i1, d1);
    var u, v := Unrounded(i0, d0, i1, d1, k), Unrounded(i0, d0, i1, d1, k + 1);
    assert ds[k] == Trunc(u) && ds[k + 1] == Trunc(v);
    UnroundedStep(i0, d0, i1, d1, k);
    UnitQuotient((d1 - d0) as real, (i1 - i0) as real);
    if d0 <= d1 {
      TruncStep(u, v);
    } else {
      TruncStep(v, u);
    }
  }

  /** draw_line's branch test: strictly more horizontal than vertical. */
  predicate Horizontal(p0: Point, p1: Point)
  {
    Abs(p1.0 - p0.0) > Abs(p1.1 - p0.1)
  }

  /** The endpoint the walk starts from, after the swap that orders the dominant axis. */
  function Start(p0: Point, p1: Point): (s: Point)
    ensures s == p0 || s == p1
    ensures Horizontal(p0, p1) ==> s.0 <= p0.0 && s.0 <= p1.0
    ensures !Horizontal(p0, p1) ==> s.1 <= p0.1 && s.1 <= p1.1
  {
    if Horizontal(p0, p1) then (if p0.0 > p1.0 then p1 else p0)
    else (if p0.1 > p1.1 then p1 else p0)
  }

  /** The endpoint the walk ends at. */
  function End(p0: Point, p1: Point): (e: Point)
    ensures e == p0 || e == p1
    ensures Horizontal(p0, p1) ==> p0.0 <= e.0 && p1.0 <= e.0
    ensures !Horizontal(p0, p1) ==> p0.1 <= e.1 && p1.1 <= e.1
  {
    if Horizontal(p0, p1) then (if p0.0 > p1.0 then p0 else p1)
    else (if p0.1 > p1.1 then p0 else p1)
  }

  /** The pixels `draw_line(p0, p1)` writes, in the order it writes them. */
  function LinePixels(p0: Point, p1: Point): seq<Point>
  {
    var a, b := Start(p0, p1), End(p0, p1);
    if Horizontal(p0, p1) then
      Zip(Range(a.0, b.0), Interpolation(a.0, a.1, b.0, b.1))
    else
      Transposed(Zip(Range(a.1, b.1), Interpolation(a.1, a.0, b.1, b.0)))
  }

  /** The number of steps along the dominant axis. */
  function Steps(p0: Point, p1: Point): nat
  {
    Max(Abs(p1.0 - p0.0), Abs(p1.1 - p0.1))
  }

  /**
   * The walk: one pixel per unit of the dominant axis, which is x exactly when
   * |dx| > |dy| (equal deltas walk y), starting at `Start` and ending at `End`.
   */
  lemma {:induction false} LineWalk(p0: Point, p1: Point)
    ensures |LinePixels(p0, p1)| == Steps(p0, p1) + 1
    ensures LinePixels(p0, p1)[0] == Start(p0, p1)
    ensures LinePixels(p0, p1)[Steps(p0, p1)] == End(p0, p1)
    ensures Horizontal(p0, p1) ==> forall k :: 0 <= k < |LinePixels(p0, p1)| ==> LinePixels(p0, p1)[k].0 == Start(p0, p1).0 + k
    ensures !Horizontal(p0, p1) ==> forall k :: 0 <= k < |LinePixels(p0, p1)| ==> LinePixels(p0, p1)[k].1 == Start(p0, p1).1 + k
  {
    var a, b := Start(p0, p1), End(p0, p1);
    if Horizontal(p0, p1) {
      InterpolationEnds(a.0, a.1, b.0, b.1);
    } else {
      InterpolationEnds(a.1, a.0, b.1, b.0);
    }
  }

  /** A degenerate segment is a single pixel. */
  lemma LineSinglePoint(p: Point)
    ensures LinePixels(p, p) == [p]
  {
    LineWalk(p, p);
  }

  /** Both endpoints are drawn. */
  lemma LineEndpoints(p0: Point, p1: Point)
    ensures p0 in LinePixels(p0, p1) && p1 in LinePixels(p0, p1)
  {
    LineWalk(p0, p1);
  }

  /** Swapping the endpoints gives the same writes in the same order. */
  lemma LineSymmetric(p0: Point, p1: Point)
    ensures LinePixels(p0, p1) == LinePixels(p1, p0)
  {
    assert Start(p0, p1) == Start(p1, p0) && End(p0, p1) == End(p1, p0);
  }

  /** Every pixel lies in the bounding box of the two endpoints. */
  lemma {:induction false} LineInBox(p0: Point, p1: Point, k: int)
    requires 0 <= k < |LinePixels(p0, p1)|
    ensures Min(p0.0, p1.0) <= LinePixels(p0, p1)[k].0 <= Max(p0.0, p1.0)
    ensures Min(p0.1, p1.1) <= LinePixels(p0, p1)[k].1 <= Max(p0.1, p1.1)
  {
    var a, b := Start(p0, p1), End(p0, p1);
    LineWalk(p0, p1);
    if Horizontal(p0, p1) {
      InterpolationBetween(a.0, a.1, b.0, b.1, k);
    } else {
      InterpolationBetween(a.1, a.0, b.1, b.0, k);
    }
  }

  /**
   * The line has no gaps: consecutive pixels advance by one along the dominant
   * axis and by at most one along the other.
   */
  lemma {:induction false} LineConnected(p0: Point, p1: Point, k: int)
    requires 0 <= k < |LinePixels(p0, p1)| - 1
    ensures Abs(LinePixels(p0, p1)[k + 1].0 - LinePixels(p0, p1)[k].0) <= 1
    ensures Abs(LinePixels(p0, p1)[k + 1].1 - LinePixels(p0, p1)[k].1) <= 1
    ensures LinePixels(p0, p1)[k] != LinePixels(p0, p1)[k + 1]
  {
    var a, b := Start(p0, p1), End(p0, p1);
    LineWalk(p0, p1);
    if Horizontal(p0, p1) {
      InterpolationStep(a.0, a.1, b.0, b.1, k);
    } else {
      InterpolationStep(a.1, a.0, b.1, b.0, k);
    }
  }

  /** A segment along a row covers every pixel of the row between its ends. */
  lemma HorizontalRun(x0: int, x1: int, y: int, x: int)
    requires x0 <= x <= x1
    ensures (x, y) in LinePixels((x0, y), (x1, y))
  {
    var p0, p1 := (x0, y), (x1, y);
    if x0 == x1 {
      LineSinglePoint(p0);
    } else {
      LineWalk(p0, p1);
      LineInBox(p0, p1, x - x0);
      assert LinePixels(p0, p1)[x - x0] == (x, y);
    }
  }

  /** A segment along a column covers every pixel of the column between its ends. */
  lemma VerticalRun(x: int, y0: int, y1: int, y: int)
    requires y0 <= y <= y1
    ensures (x, y) in LinePixels((x, y0), (x, y1))
  {
    var p0, p1 := (x, y0), (x, y1);
    LineWalk(p0, p1);
    LineInBox(p0, p1, y - y0);
    assert LinePixels(p0, p1)[y - y0] == (x, y);
  }

  predicate InCanvas(canvas: Canvas, p: Point)
  {
    0 <= p.0 < canvas.width && 0 <= p.1 < canvas.height
  }

  /** The zip loop of draw_line: writes opaque white at each pair in turn. */
  method PlotAll(canvas: Canvas, pts: seq<Point>)
    requires canvas.Valid()
    requires forall k :: 0 <= k < |pts| ==> InCanvas(canvas, pts[k])
    modifies canvas.data
    ensures forall x: nat, y: nat :: x < canvas.width && y < canvas.height ==>
      canvas.At(x, y) == if (x, y) in pts then OpaqueWhite else old(canvas.At(x, y))
  {
    for k := 0 to |pts|
      invariant forall x: nat, y: nat :: x < canvas.width && y < canvas.height ==>
        canvas.At(x, y) == if (x, y) in pts[..k] then OpaqueWhite else old(canvas.At(x, y))
    {
      var (x, y) := pts[k];
      canvas.Set(x, y, OpaqueWhite);
      assert pts[..k + 1] == pts[..k] + [pts[k]];
    }
    assert pts[..|pts|] == pts;
  }

  /**
   * `draw_line`: paints exactly the pixels of `LinePixels(p0, p1)` opaque white
   * and leaves every other cell as it was.
   */
  method DrawLine(canvas: Canvas, p0: Point, p1: Point)
    requires canvas.Valid() && InCanvas(canvas, p0) && InCanvas(canvas, p1)
    modifies canvas.data
    ensures forall x: nat, y: nat :: x < canvas.width && y < canvas.height ==>
      canvas.At(x, y) == if (x, y) in LinePixels(p0, p1) then OpaqueWhite else old(canvas.At(x, y))
  {
    forall k | 0 <= k < |LinePixels(p0, p1)|
      ensures InCanvas(canvas, LinePixels(p0, p1)[k])
    {
      LineInBox(p0, p1, k);
    }
    var (x0, y0) := p0;
    var (x1, y1) := p1;
    if Abs(x1 - x0) > Abs(y1 - y0) {
      if x0 > x1 {
        x0, x1 := x1, x0;
        y0, y1 := y1, y0;
      }
      assert (x0, y0) == Start(p0, p1) && (x1, y1) == End(p0, p1);
      var ys := Interpolate(x0, y0, x1, y1);
      assert Zip(Range(x0, x1), ys) == LinePixels(p0, p1);
      PlotAll(canvas, Zip(Range(x0, x1), ys));
    } else {
      if y0 > y1 {
        x0, x1 := x1, x0;
        y0, y1 := y1, y0;
      }
      assert (x0, y0) == Start(p0, p1) && (x1, y1) == End(p0, p1);
      var xs := Interpolate(y0, x0, y1, x1);
      assert Transposed(Zip(Range(y0, y1), xs)) == LinePixels(p0, p1);
      PlotAll(canvas, Transposed(Zip(Range(y0, y1), xs)));
    }
  }
}
