/**
 * The frame-time history and `draw_frame_time_graph`: a bordered box with a
 * polyline of the recent frame durations, newest sample on the right.
 * Durations are f64 seconds in the program; they are exact reals here.
 */
module FrameGraph {
  import opened Numeric
  import opened CanvasCore
  import opened Line

  /** Inset, in pixels, of the plotted area inside the border. */
  const Margin: nat := 10
  /** The capacity the history is created with (`VecDeque::with_capacity`). */
  const RequestedCapacity: nat := 500

  /** The `len() == capacity()` eviction followed by `push_back`, on values. */
  function Pushed(h: seq<real>, capacity: nat, x: real): (r: seq<real>)
    requires 0 < capacity && |h| <= capacity
    ensures |r| <= capacity && 0 < |r|
    ensures |r| == if |h| == capacity then capacity else |h| + 1
    ensures r[|r| - 1] == x
    ensures forall k :: 0 <= k < |r| - 1 ==> r[k] == h[|h| - (|r| - 1) + k]
  {
    if |h| == capacity then h[1..] + [x] else h + [x]
  }

  /** The last `n` elements of `s`, or all of `s` when it is shorter. */
  function Newest(s: seq<real>, n: nat): (r: seq<real>)
    ensures |r| == Min(|s|, n)
  {
    s[|s| - Min(|s|, n)..]
  }

  /** The history after one push per frame, frame times `xs` in order. */
  function PushAll(h: seq<real>, capacity: nat, xs: seq<real>): (r: seq<real>)
    requires 0 < capacity && |h| <= capacity
    decreases |xs|
  {
    if xs == [] then h else PushAll(Pushed(h, capacity, xs[0]), capacity, xs[1..])
  }

  lemma PushedIsNewest(h: seq<real>, capacity: nat, x: real)
    requires 0 < capacity && |h| <= capacity
    ensures Pushed(h, capacity, x) == Newest(h + [x], capacity)
  {
  }

  lemma NewestOfNewest(s: seq<real>, t: seq<real>, n: nat)
    ensures Newest(Newest(s, n) + t, n) == Newest(s + t, n)
  {
    var l, r := Newest(Newest(s, n) + t, n), Newest(s + t, n);
    assert |l| == |r|;
    forall k | 0 <= k < |l|
      ensures l[k] == r[k]
    {
      var m := Min(|s|, n);
      var st := s + t;
      var nt := Newest(s, n) + t;
      assert l[k] == nt[|nt| - |l| + k];
      assert r[k] == st[|st| - |r| + k];
      if |nt| - |l| + k < m {
        assert nt[|nt| - |l| + k] == s[|s| - m + (|nt| - |l| + k)];
      }
    }
  }

  /** One more push extends the history of a prefix of the frame times to the history of the next prefix. */
  lemma PushedPrefix(frames: seq<real>, capacity: nat, n: nat)
    requires 0 < capacity && n < |frames|
    ensures Pushed(Newest(frames[..n], capacity), capacity, frames[n]) == Newest(frames[..n + 1], capacity)
  {
    PushedIsNewest(Newest(frames[..n], capacity), capacity, frames[n]);
    NewestOfNewest(frames[..n], [frames[n]], capacity);
    assert frames[..n] + [frames[n]] == frames[..n + 1];
  }

  /**
   * Whatever the frame times, the history holds the newest `capacity` of
   * them (all of them while fewer have been pushed), oldest first.
   */
  lemma {:induction false} PushAllKeepsNewest(h: seq<real>, capacity: nat, xs: seq<real>)
    requires 0 < capacity && |h| <= capacity
    ensures PushAll(h, capacity, xs) == Newest(h + xs, capacity)
    decreases |xs|
  {
    if xs == [] {
      assert h + xs == h;
    } else {
      var h' := Pushed(h, capacity, xs[0]);
      PushAllKeepsNewest(h', capacity, xs[1..]);
      PushedIsNewest(h, capacity, xs[0]);
      NewestOfNewest(h + [xs[0]], xs[1..], capacity);
      assert h + [xs[0]] + xs[1..] == h + xs;
    }
  }

  /** The bounded history of frame durations (seconds), oldest first. */
  class FrameHistory {
    const capacity: nat
    var samples: seq<real>

    ghost predicate Valid()
      reads this
    {
      RequestedCapacity <= capacity && |samples| <= capacity
    }

    /** `with_capacity(500)`: an empty history whose capacity is at least 500. */
    constructor (capacity: nat)
      requires RequestedCapacity <= capacity
      ensures Valid() && this.capacity == capacity && samples == []
    {
      this.capacity := capacity;
      samples := [];
    }

    /** Records one frame time, evicting the oldest first when the history is full. */
    method Push(elapsed: real)
      requires Valid()
      modifies this
      ensures Valid()
      ensures samples == Pushed(old(samples), capacity, elapsed)
    {
      if |samples| == capacity {
        samples := samples[1..];
      }
      samples := samples + [elapsed];
    }
  }

  /** `map`: the linear remap of `x` from the range `fromStart..fromEnd` onto `toStart..toEnd`. */
  function Map(x: real, fromStart: real, fromEnd: real, toStart: real, toEnd: real): real
    requires fromStart != fromEnd
  {
    toStart + (x - fromStart) * ((toEnd - toStart) / (fromEnd - fromStart))
  }

  /** The ends of the source range go to the ends of the target range. */
  lemma MapEndpoints(fromStart: real, fromEnd: real, toStart: real, toEnd: real)
    requires fromStart != fromEnd
    ensures Map(fromStart, fromStart, fromEnd, toStart, toEnd) == toStart
    ensures Map(fromEnd, fromStart, fromEnd, toStart, toEnd) == toEnd
  {
    var s := (toEnd - toStart) / (fromEnd - fromStart);
    assert (fromEnd - fromStart) * s == toEnd - toStart;
  }

  /** The remap is affine: it preserves every weighted average of two points. */
  lemma MapAffine(x: real, y: real, t: real, fromStart: real, fromEnd: real, toStart: real, toEnd: real)
    requires fromStart != fromEnd
    ensures Map(x + t * (y - x), fromStart, fromEnd, toStart, toEnd)
         == Map(x, fromStart, fromEnd, toStart, toEnd)
          + t * (Map(y, fromStart, fromEnd, toStart, toEnd) - Map(x, fromStart, fromEnd, toStart, toEnd))
  {
    var s := (toEnd - toStart) / (fromEnd - fromStart);
    assert (x + t * (y - x) - fromStart) * s == (x - fromStart) * s + t * ((y - fromStart) * s - (x - fromStart) * s);
  }

  /** Remapping back with the ranges exchanged gives the original value. */
  lemma MapRoundTrip(x: real, fromStart: real, fromEnd: real, toStart: real, toEnd: real)
    requires fromStart != fromEnd && toStart != toEnd
    ensures Map(Map(x, fromStart, fromEnd, toStart, toEnd), toStart, toEnd, fromStart, fromEnd) == x
  {
    var s := (toEnd - toStart) / (fromEnd - fromStart);
    var s' := (fromEnd - fromStart) / (toEnd - toStart);
    assert s * s' == 1.0;
    var y := Map(x, fromStart, fromEnd, toStart, toEnd);
    assert y - toStart == (x - fromStart) * s;
    assert (x - fromStart) * s * s' == (x - fromStart) * (s * s');
  }

  /** A value inside the source range lands inside the target range, whichever way either runs. */
  lemma MapBetween(x: real, fromStart: real, fromEnd: real, toStart: real, toEnd: real)
    requires fromStart < fromEnd && fromStart <= x <= fromEnd
    ensures toStart <= toEnd ==> toStart <= Map(x, fromStart, fromEnd, toStart, toEnd) <= toEnd
    ensures toEnd <= toStart ==> toEnd <= Map(x, fromStart, fromEnd, toStart, toEnd) <= toStart
  {
    ScaledBetween(x - fromStart, fromEnd - fromStart, toEnd - toStart);
  }

  /** `fold(seed, f64::min)` over `s`. */
  function FoldMin(s: seq<real>, acc: real): (m: real)
    ensures m <= acc && (m == acc || m in s)
    ensures forall k :: 0 <= k < |s| ==> m <= s[k]
    decreases |s|
  {
    if s == [] then acc
    else FoldMin(s[1..], if s[0] < acc then s[0] else acc)
  }

  /** `fold(seed, f64::max)` over `s`. */
  function FoldMax(s: seq<real>, acc: real): (m: real)
    ensures acc <= m && (m == acc || m in s)
    ensures forall k :: 0 <= k < |s| ==> s[k] <= m
    decreases |s|
  {
    if s == [] then acc
    else FoldMax(s[1..], if acc < s[0] then s[0] else acc)
  }

  /** The durations in milliseconds, oldest first. */
  function Millis(samples: seq<real>): (ms: seq<real>)
    ensures |ms| == |samples|
    ensures forall k :: 0 <= k < |ms| ==> ms[k] == samples[k] * 1000.0
  {
    seq(|samples|, k requires 0 <= k < |samples| => samples[k] * 1000.0)
  }

  /** The shortest duration in milliseconds; the f64::MAX seed is replaced by the first sample. */
  function Fastest(samples: seq<real>): (m: real)
    requires samples != []
    ensures m in Millis(samples)
    ensures forall k :: 0 <= k < |samples| ==> m <= Millis(samples)[k]
  {
    assert forall k :: 1 <= k < |samples| ==> Millis(samples)[1..][k - 1] == Millis(samples)[k];
    FoldMin(Millis(samples)[1..], Millis(samples)[0])
  }

  /** The longest duration in milliseconds; the f64::MIN seed is replaced by the first sample. */
  function Slowest(samples: seq<real>): (m: real)
    requires samples != []
    ensures m in Millis(samples)
    ensures forall k :: 0 <= k < |samples| ==> Millis(samples)[k] <= m
  {
    assert forall k :: 1 <= k < |samples| ==> Millis(samples)[1..][k - 1] == Millis(samples)[k];
    FoldMax(Millis(samples)[1..], Millis(samples)[0])
  }

  /** The plot column of the i-th newest sample: index 0 at the right edge, index capacity-1 at the left. */
  function PlotX(i: nat, capacity: nat, gx: nat, w: nat): int
    requires 2 <= capacity && Margin <= gx + w
  {
    Trunc(Map(i as real, 0.0, (capacity - 1) as real, (gx + w - Margin) as real, (gx + Margin) as real))
  }

  /**
   * The plot row of a duration: the fastest at the bottom, the slowest at the
   * top. When every duration is equal the f64 remap divides by zero and the
   * resulting NaN converts to row 0.
   */
  function PlotY(ms: real, fastest: real, slowest: real, gy: nat, h: nat): int
    requires Margin <= gy + h
  {
    if fastest == slowest then 0
    else Trunc(Map(ms, fastest, slowest, (gy + h - Margin) as real, (gy + Margin) as real))
  }

  /** The polyline vertices: the history newest first, each sample at (PlotX, PlotY). */
  function GraphPoints(samples: seq<real>, capacity: nat, gx: nat, gy: nat, w: nat, h: nat): (pts: seq<Point>)
    requires 2 <= capacity && Margin <= gx + w && Margin <= gy + h
    ensures |pts| == |samples|
  {
    if samples == [] then []
    else
      var ms := Millis(samples);
      var fastest, slowest := Fastest(samples), Slowest(samples);
      seq(|samples|, i requires 0 <= i < |samples| =>
        (PlotX(i, capacity, gx, w), PlotY(ms[|samples| - 1 - i], fastest, slowest, gy, h)))
  }

  /** The four sides of the box from (gx, gy) to (gx + w, gy + h): top, bottom, left, right. */
  function Border(gx: nat, gy: nat, w: nat, h: nat): seq<(Point, Point)>
  {
    [((gx, gy), (gx + w, gy)),
     ((gx, gy + h), (gx + w, gy + h)),
     ((gx, gy), (gx, gy + h)),
     ((gx + w, gy), (gx + w, gy + h))]
  }

  /** `windows(2)`: one segment per pair of consecutive vertices. */
  function Windows(pts: seq<Point>): (segs: seq<(Point, Point)>)
    ensures |segs| == if |pts| < 2 then 0 else |pts| - 1
    ensures forall k :: 0 <= k < |segs| ==> segs[k] == (pts[k], pts[k + 1])
  {
    if |pts| < 2 then []
    else seq(|pts| - 1, k requires 0 <= k < |pts| - 1 => (pts[k], pts[k + 1]))
  }

  /** Every segment the graph draws, in drawing order. */
  function GraphSegments(samples: seq<real>, capacity: nat, gx: nat, gy: nat, w: nat, h: nat): seq<(Point, Point)>
    requires 2 <= capacity && Margin <= gx + w && Margin <= gy + h
  {
    Border(gx, gy, w, h) + Windows(GraphPoints(samples, capacity, gx, gy, w, h))
  }

  /** Whether some segment of `segs` draws pixel `p`. */
  ghost predicate Covered(segs: seq<(Point, Point)>, p: Point)
  {
    exists k :: 0 <= k < |segs| && p in LinePixels(segs[k].0, segs[k].1)
  }

  predicate SegmentsInCanvas(canvas: Canvas, segs: seq<(Point, Point)>)
  {
    forall k :: 0 <= k < |segs| ==> InCanvas(canvas, segs[k].0) && InCanvas(canvas, segs[k].1)
  }

  /** The border and then `len - 1` polyline segments: none below two samples. */
  lemma GraphSegmentCount(samples: seq<real>, capacity: nat, gx: nat, gy: nat, w: nat, h: nat)
    requires 2 <= capacity && Margin <= gx + w && Margin <= gy + h
    ensures |GraphSegments(samples, capacity, gx, gy, w, h)| == if |samples| < 2 then 4 else 3 + |samples|
    ensures GraphSegments(samples, capacity, gx, gy, w, h)[..4] == Border(gx, gy, w, h)
  {
  }

  /** The newest sample is plotted at the right edge of the plot area, `gx + w - Margin`. */
  lemma NewestAtRight(samples: seq<real>, capacity: nat, gx: nat, gy: nat, w: nat, h: nat)
    requires 2 <= capacity && Margin <= gx + w && Margin <= gy + h && samples != []
    ensures GraphPoints(samples, capacity, gx, gy, w, h)[0].0 == gx + w - Margin
  {
    MapEndpoints(0.0, (capacity - 1) as real, (gx + w - Margin) as real, (gx + Margin) as real);
    TruncOfInt(gx + w - Margin);
  }

  /** In a full history the oldest sample is plotted at the left edge of the plot area, `gx + Margin`. */
  lemma OldestAtLeftWhenFull(samples: seq<real>, capacity: nat, gx: nat, gy: nat, w: nat, h: nat)
    requires 2 <= capacity && Margin <= gx + w && Margin <= gy + h && |samples| == capacity
    ensures GraphPoints(samples, capacity, gx, gy, w, h)[capacity - 1].0 == gx + Margin
  {
    MapEndpoints(0.0, (capacity - 1) as real, (gx + w - Margin) as real, (gx + Margin) as real);
    TruncOfInt(gx + Margin);
  }

  /** The i-th vertex is the i-th newest sample, at its plot column and row. */
  lemma GraphPointAt(samples: seq<real>, capacity: nat, gx: nat, gy: nat, w: nat, h: nat, i: nat)
    requires 2 <= capacity && Margin <= gx + w && Margin <= gy + h && i < |samples|
    ensures GraphPoints(samples, capacity, gx, gy, w, h)[i]
         == (PlotX(i, capacity, gx, w), PlotY(Millis(samples)[|samples| - 1 - i], Fastest(samples), Slowest(samples), gy, h))
  {
  }

  lemma GraphPointColumn(samples: seq<real>, capacity: nat, gx: nat, gy: nat, w: nat, h: nat, i: nat)
    requires 2 <= capacity && Margin <= gx + w && Margin <= gy + h && i < |samples|
    ensures GraphPoints(samples, capacity, gx, gy, w, h)[i].0 == PlotX(i, capacity, gx, w)
  {
    GraphPointAt(samples, capacity, gx, gy, w, h, i);
  }

  lemma GraphPointRow(samples: seq<real>, capacity: nat, gx: nat, gy: nat, w: nat, h: nat, i: nat)
    requires 2 <= capacity && Margin <= gx + w && Margin <= gy + h && i < |samples|
    ensures GraphPoints(samples, capacity, gx, gy, w, h)[i].1
         == PlotY(Millis(samples)[|samples| - 1 - i], Fastest(samples), Slowest(samples), gy, h)
  {
    GraphPointAt(samples, capacity, gx, gy, w, h, i);
  }

  /** Every duration lies between the fastest and the slowest. */
  lemma FastestSlowestBound(samples: seq<real>, j: nat)
    requires j < |samples|
    ensures Fastest(samples) <= Millis(samples)[j] <= Slowest(samples)
  {
    var ms := Millis(samples);
    if j > 0 {
      assert ms[1..][j - 1] == ms[j];
    }
  }

  /** A duration equal to the fastest goes to the bottom row, one equal to the slowest to the top row. */
  lemma PlotYAtExtremes(ms: real, fastest: real, slowest: real, gy: nat, h: nat)
    requires Margin <= gy + h && fastest != slowest
    ensures ms == fastest ==> PlotY(ms, fastest, slowest, gy, h) == gy + h - Margin
    ensures ms == slowest ==> PlotY(ms, fastest, slowest, gy, h) == gy + Margin
  {
    MapEndpoints(fastest, slowest, (gy + h - Margin) as real, (gy + Margin) as real);
    TruncOfInt(gy + h - Margin);
    TruncOfInt(gy + Margin);
  }

  /** `PlotYAtExtremes` for a vertex known to sit on the row of `ms`. */
  lemma VertexAtExtremes(pts: seq<Point>, i: nat, ms: real, fastest: real, slowest: real, gy: nat, h: nat)
    requires Margin <= gy + h && fastest != slowest
    requires i < |pts| && pts[i].1 == PlotY(ms, fastest, slowest, gy, h)
    ensures ms == fastest ==> pts[i].1 == gy + h - Margin
    ensures ms == slowest ==> pts[i].1 == gy + Margin
  {
    PlotYAtExtremes(ms, fastest, slowest, gy, h);
  }

  /**
   * Unless every duration is equal, the shortest durations are plotted on the
   * bottom row of the plot area and the longest on the top row.
   */
  lemma ExtremesAtEdges(samples: seq<real>, capacity: nat, gx: nat, gy: nat, w: nat, h: nat, i: nat)
    requires 2 <= capacity && Margin <= gx + w && Margin <= gy + h && i < |samples|
    requires Fastest(samples) != Slowest(samples)
    ensures Millis(samples)[|samples| - 1 - i] == Fastest(samples) ==>
      GraphPoints(samples, capacity, gx, gy, w, h)[i].1 == gy + h - Margin
    ensures Millis(samples)[|samples| - 1 - i] == Slowest(samples) ==>
      GraphPoints(samples, capacity, gx, gy, w, h)[i].1 == gy + Margin
  {
    GraphPointRow(samples, capacity, gx, gy, w, h, i);
    VertexAtExtremes(GraphPoints(samples, capacity, gx, gy, w, h), i,
      Millis(samples)[|samples| - 1 - i], Fastest(samples), Slowest(samples), gy, h);
  }

  /** In a box at least `2 * Margin` wide, every column index up to `capacity - 1` is plotted inside the plot area. */
  lemma PlotXInArea(i: nat, capacity: nat, gx: nat, w: nat)
    requires 2 <= capacity && 2 * Margin <= w && i <= capacity - 1
    ensures gx + Margin <= PlotX(i, capacity, gx, w) <= gx + w - Margin
  {
    var lo, hi := gx + Margin, gx + w - Margin;
    MapBetween(i as real, 0.0, (capacity - 1) as real, hi as real, lo as real);
    TruncBetween(Map(i as real, 0.0, (capacity - 1) as real, hi as real, lo as real), lo, hi);
  }

  /** In a box at least `2 * Margin` high, a duration between the extremes is plotted inside the plot area. */
  lemma PlotYInArea(ms: real, fastest: real, slowest: real, gy: nat, h: nat)
    requires 2 * Margin <= h && fastest <= ms <= slowest && fastest != slowest
    ensures gy + Margin <= PlotY(ms, fastest, slowest, gy, h) <= gy + h - Margin
  {
    var top, bottom := gy + Margin, gy + h - Margin;
    MapBetween(ms, fastest, slowest, bottom as real, top as real);
    TruncBetween(Map(ms, fastest, slowest, bottom as real, top as real), top, bottom);
  }

  /** `PlotYInArea` for a vertex known to sit on the row of `ms`; the flat case gives row 0. */
  lemma VertexRowInArea(pts: seq<Point>, k: nat, ms: real, fastest: real, slowest: real, gy: nat, h: nat)
    requires 2 * Margin <= h && fastest <= ms <= slowest
    requires k < |pts| && pts[k].1 == PlotY(ms, fastest, slowest, gy, h)
    ensures fastest != slowest ==> gy + Margin <= pts[k].1 <= gy + h - Margin
    ensures fastest == slowest ==> pts[k].1 == 0
  {
    if fastest != slowest {
      PlotYInArea(ms, fastest, slowest, gy, h);
    }
  }

  /** In a box at least `2 * Margin` wide, every vertex of a history within capacity lies between the side margins. */
  lemma ColumnsInPlotArea(samples: seq<real>, capacity: nat, gx: nat, gy: nat, w: nat, h: nat, i: nat)
    requires 2 <= capacity && 2 * Margin <= w && Margin <= gy + h
    requires |samples| <= capacity && i < |samples|
    ensures gx + Margin <= GraphPoints(samples, capacity, gx, gy, w, h)[i].0 <= gx + w - Margin
  {
    GraphPointColumn(samples, capacity, gx, gy, w, h, i);
    PlotXInArea(i, capacity, gx, w);
  }

  /**
   * In a box at least `2 * Margin` high, every vertex lies between the top and
   * bottom margins, except that when all durations are equal the rows are 0.
   */
  lemma RowsInPlotArea(samples: seq<real>, capacity: nat, gx: nat, gy: nat, w: nat, h: nat, i: nat)
    requires 2 <= capacity && Margin <= gx + w && 2 * Margin <= h && i < |samples|
    ensures Fastest(samples) != Slowest(samples) ==>
      gy + Margin <= GraphPoints(samples, capacity, gx, gy, w, h)[i].1 <= gy + h - Margin
    ensures Fastest(samples) == Slowest(samples) ==> GraphPoints(samples, capacity, gx, gy, w, h)[i].1 == 0
  {
    GraphPointRow(samples, capacity, gx, gy, w, h, i);
    FastestSlowestBound(samples, |samples| - 1 - i);
    VertexRowInArea(GraphPoints(samples, capacity, gx, gy, w, h), i,
      Millis(samples)[|samples| - 1 - i], Fastest(samples), Slowest(samples), gy, h);
  }

  /** A box with room for its margins that fits in the canvas keeps every segment in the canvas. */
  lemma GraphFitsCanvas(canvas: Canvas, samples: seq<real>, capacity: nat, gx: nat, gy: nat, w: nat, h: nat)
    requires 2 <= capacity && 2 * Margin <= w && 2 * Margin <= h && |samples| <= capacity
    requires gx + w < canvas.width && gy + h < canvas.height
    ensures SegmentsInCanvas(canvas, GraphSegments(samples, capacity, gx, gy, w, h))
  {
    var pts := GraphPoints(samples, capacity, gx, gy, w, h);
    forall i | 0 <= i < |pts|
      ensures InCanvas(canvas, pts[i])
    {
      ColumnsInPlotArea(samples, capacity, gx, gy, w, h, i);
      RowsInPlotArea(samples, capacity, gx, gy, w, h, i);
    }
    var segs := GraphSegments(samples, capacity, gx, gy, w, h);
    forall k | 0 <= k < |segs|
      ensures InCanvas(canvas, segs[k].0) && InCanvas(canvas, segs[k].1)
    {
      if k >= 4 {
        assert segs[k] == Windows(pts)[k - 4] == (pts[k - 4], pts[k - 3]);
      }
    }
  }

  lemma CoveredConcat(s: seq<(Point, Point)>, t: seq<(Point, Point)>, p: Point)
    ensures Covered(s + t, p) <==> Covered(s, p) || Covered(t, p)
  {
    if Covered(s + t, p) {
      var k :| 0 <= k < |s + t| && p in LinePixels((s + t)[k].0, (s + t)[k].1);
      if k >= |s| {
        assert t[k - |s|] == (s + t)[k];
      }
    }
    if Covered(t, p) {
      var k :| 0 <= k < |t| && p in LinePixels(t[k].0, t[k].1);
      assert (s + t)[|s| + k] == t[k];
    }
    if Covered(s, p) {
      var k :| 0 <= k < |s| && p in LinePixels(s[k].0, s[k].1);
      assert (s + t)[k] == s[k];
    }
  }

  /** Whether `p` lies on the outline of the box from (gx, gy) to (gx + w, gy + h). */
  predicate OnBorder(gx: nat, gy: nat, w: nat, h: nat, p: Point)
  {
    (gx <= p.0 <= gx + w && (p.1 == gy || p.1 == gy + h)) ||
    (gy <= p.1 <= gy + h && (p.0 == gx || p.0 == gx + w))
  }

  /** A pixel of one segment is covered by any sequence holding that segment. */
  lemma CoveredBy(segs: seq<(Point, Point)>, k: nat, p: Point)
    requires k < |segs| && p in LinePixels(segs[k].0, segs[k].1)
    ensures Covered(segs, p)
  {
  }

  /** A row segment of `segs` covers every pixel of the row between its ends. */
  lemma RowCovered(segs: seq<(Point, Point)>, k: nat, x0: int, x1: int, y: int, p: Point)
    requires k < |segs| && segs[k] == ((x0, y), (x1, y)) && x0 <= p.0 <= x1 && p.1 == y
    ensures Covered(segs, p)
  {
    HorizontalRun(x0, x1, y, p.0);
    assert (p.0, y) == p;
    CoveredBy(segs, k, p);
  }

  /** A column segment of `segs` covers every pixel of the column between its ends. */
  lemma ColumnCovered(segs: seq<(Point, Point)>, k: nat, x: int, y0: int, y1: int, p: Point)
    requires k < |segs| && segs[k] == ((x, y0), (x, y1)) && p.0 == x && y0 <= p.1 <= y1
    ensures Covered(segs, p)
  {
    VerticalRun(x, y0, y1, p.1);
    assert (x, p.1) == p;
    CoveredBy(segs, k, p);
  }

  /** The four border lines cover the whole outline of the box, whatever is drawn after them. */
  lemma BorderCovers(gx: nat, gy: nat, w: nat, h: nat, rest: seq<(Point, Point)>, p: Point)
    requires OnBorder(gx, gy, w, h, p)
    ensures Covered(Border(gx, gy, w, h) + rest, p)
  {
    var segs := Border(gx, gy, w, h) + rest;
    assert segs[0] == ((gx, gy), (gx + w, gy));
    assert segs[1] == ((gx, gy + h), (gx + w, gy + h));
    assert segs[2] == ((gx, gy), (gx, gy + h));
    assert segs[3] == ((gx + w, gy), (gx + w, gy + h));
    if gx <= p.0 <= gx + w && p.1 == gy {
      RowCovered(segs, 0, gx, gx + w, gy, p);
    } else if gx <= p.0 <= gx + w && p.1 == gy + h {
      RowCovered(segs, 1, gx, gx + w, gy + h, p);
    } else if p.0 == gx {
      ColumnCovered(segs, 2, gx, gy, gy + h, p);
    } else {
      ColumnCovered(segs, 3, gx + w, gy, gy + h, p);
    }
  }

  /** The graph covers the whole outline of its box, whatever the history. */
  lemma BorderDrawn(samples: seq<real>, capacity: nat, gx: nat, gy: nat, w: nat, h: nat, p: Point)
    requires 2 <= capacity && Margin <= gx + w && Margin <= gy + h
    requires OnBorder(gx, gy, w, h, p)
    ensures Covered(GraphSegments(samples, capacity, gx, gy, w, h), p)
  {
    BorderCovers(gx, gy, w, h, Windows(GraphPoints(samples, capacity, gx, gy, w, h)), p);
  }

  /** Every vertex of a polyline of two or more vertices lies on one of its segments, whatever is drawn before them. */
  lemma PolylineCovers(first: seq<(Point, Point)>, pts: seq<Point>, i: nat)
    requires 2 <= |pts| && i < |pts|
    ensures Covered(first + Windows(pts), pts[i])
  {
    var segs := first + Windows(pts);
    var j := if i < |pts| - 1 then i else i - 1;
    assert segs[|first| + j] == Windows(pts)[j] == (pts[j], pts[j + 1]);
    LineEndpoints(pts[j], pts[j + 1]);
    CoveredBy(segs, |first| + j, pts[i]);
  }

  /** Once the history holds two samples, every vertex of the polyline is drawn. */
  lemma VerticesDrawn(samples: seq<real>, capacity: nat, gx: nat, gy: nat, w: nat, h: nat, i: nat)
    requires 2 <= capacity && Margin <= gx + w && Margin <= gy + h
    requires 2 <= |samples| && i < |samples|
    ensures Covered(GraphSegments(samples, capacity, gx, gy, w, h), GraphPoints(samples, capacity, gx, gy, w, h)[i])
  {
    PolylineCovers(Border(gx, gy, w, h), GraphPoints(samples, capacity, gx, gy, w, h), i);
  }

  /** A one-longer prefix covers what the shorter prefix covers and the pixels of the next segment. */
  lemma CoveredPrefix(segs: seq<(Point, Point)>, k: nat, p: Point)
    requires k < |segs|
    ensures Covered(segs[..k + 1], p) <==> Covered(segs[..k], p) || p in LinePixels(segs[k].0, segs[k].1)
  {
    assert segs[..k + 1] == segs[..k] + [segs[k]];
    CoveredConcat(segs[..k], [segs[k]], p);
    if p in LinePixels(segs[k].0, segs[k].1) {
      assert [segs[k]][0] == segs[k];
    }
  }

  /** Draws each segment in turn with `draw_line`. */
  method DrawSegments(canvas: Canvas, segs: seq<(Point, Point)>)
    requires canvas.Valid() && SegmentsInCanvas(canvas, segs)
    modifies canvas.data
    ensures forall x: nat, y: nat :: x < canvas.width && y < canvas.height ==>
      canvas.At(x, y) == if Covered(segs, (x, y)) then OpaqueWhite else old(canvas.At(x, y))
  {
    for k := 0 to |segs|
      invariant forall x: nat, y: nat :: x < canvas.width && y < canvas.height ==>
        canvas.At(x, y) == if Covered(segs[..k], (x, y)) then OpaqueWhite else old(canvas.At(x, y))
    {
      DrawLine(canvas, segs[k].0, segs[k].1);
      forall x: nat, y: nat | x < canvas.width && y < canvas.height
        ensures Covered(segs[..k + 1], (x, y)) <==> Covered(segs[..k], (x, y)) || (x, y) in LinePixels(segs[k].0, segs[k].1)
      {
        CoveredPrefix(segs, k, (x, y));
      }
    }
    assert segs[..|segs|] == segs;
  }

  /** Draws the segments of `first` and then those of `second`: together, the segments of `first + second`. */
  method DrawInTurn(canvas: Canvas, first: seq<(Point, Point)>, second: seq<(Point, Point)>)
    requires canvas.Valid() && SegmentsInCanvas(canvas, first + second)
    modifies canvas.data
    ensures forall x: nat, y: nat :: x < canvas.width && y < canvas.height ==>
      canvas.At(x, y) == if Covered(first + second, (x, y)) then OpaqueWhite else old(canvas.At(x, y))
  {
    assert SegmentsInCanvas(canvas, first) && SegmentsInCanvas(canvas, second) by {
      forall k | 0 <= k < |first| ensures (first + second)[k] == first[k] { }
      forall k | 0 <= k < |second| ensures (first + second)[|first| + k] == second[k] { }
    }
    DrawSegments(canvas, first);
    DrawSegments(canvas, second);
    forall x: nat, y: nat | x < canvas.width && y < canvas.height
      ensures Covered(first + second, (x, y)) <==> Covered(first, (x, y)) || Covered(second, (x, y))
    {
      CoveredConcat(first, second, (x, y));
    }
  }

  /**
   * `draw_frame_time_graph`: paints the border and then the polyline of the
   * history opaque white and leaves every other cell as it was.
   */
  method DrawFrameTimeGraph(canvas: Canvas, gx: nat, gy: nat, w: nat, h: nat, history: FrameHistory)
    requires canvas.Valid() && history.Valid()
    requires Margin <= gx + w && Margin <= gy + h
    requires SegmentsInCanvas(canvas, GraphSegments(history.samples, history.capacity, gx, gy, w, h))
    modifies canvas.data
    ensures forall x: nat, y: nat :: x < canvas.width && y < canvas.height ==>
      canvas.At(x, y) == if Covered(GraphSegments(history.samples, history.capacity, gx, gy, w, h), (x, y))
                         then OpaqueWhite else old(canvas.At(x, y))
  {
    DrawInTurn(canvas, Border(gx, gy, w, h), Windows(GraphPoints(history.samples, history.capacity, gx, gy, w, h)));
  }
}
