# gfx: a software-rendered frame-time graph, in Dafny

gfx is a small Windows program. It keeps a CPU-side pixel buffer (the
*canvas*), clears it to black on every frame, and draws a bordered graph of
recent frame durations in white. It also writes two lines of text and copies
the buffer to the window. This project models the rendering core of that
program and proves properties of it:

- **Canvas** (`canvas.dfy`, module `CanvasCore`): a row-major buffer of
  `width * height` four-byte cells (`Color`, bytes b, g, r, a; one cell is one
  little-endian `u32`). The buffer is allocated zeroed by `Canvas::new`, which
  fails only when `Layout::array` rejects the size. Cells are written one at a
  time by `set`, at position `x + width * y`. The program has a second, private
  copy of the same type in `src/main.rs:212-263` (`Pixel` and `Canvas`, with
  the same `new` and `set`). Both are modelled by the one class
  `CanvasCore.Canvas`.
- **Lines** (`line.dfy`, module `Line`): `draw_line` with its `interpolate`
  helper, a DDA (digital differential analyser) line drawer.
  - The dominant axis is x exactly when |dx| > |dy|. Ties walk y.
  - `interpolate` accumulates `d += a` and converts each value with
    `as isize`, which truncates toward zero.
  - When both ends share the same dominant coordinate, `interpolate` returns
    only the start value.
  - `Line.Interpolation` is the reference definition of the values
    `interpolate` returns, and the loop `Line.Interpolate` is proved equal to
    it. `Line.LinePixels` is the reference definition of the pixels written, in
    writing order, and the method `Line.DrawLine` is proved against it.
- **Frame-time graph** (`graph.dfy`, module `FrameGraph`):
  - the bounded history with its evict-then-push update;
  - the linear remap `map`;
  - the min/max folds over the durations in milliseconds;
  - the polyline vertices, newest sample on the right;
  - the four border lines and the `windows(2)` segments;
  - `draw_frame_time_graph` itself.
- **Frame loop** (`render.dfy`, module `RenderLoop`): one frame records the
  elapsed time, clears every cell to opaque black and draws the graph at
  (0, 50), size 300 by 200, on the 1280 by 720 canvas. `RunFrames` runs the
  loop over a finite sequence of frame times.

Durations are `f64` in the program. Here they are exact `real` numbers, and
`as isize` is `Numeric.Trunc` (truncation toward zero). When every duration in
the history is equal, the program's remap divides by zero, and the resulting
NaN converts to 0. The model keeps this behaviour: `FrameGraph.PlotY` returns
row 0 in that case, so the polyline is then drawn along row 0 of the canvas,
outside the graph's box. `FrameGraph.RowsInPlotArea` states both cases.

## Model

| member | source | states |
|---|---|---|
| Numeric.Trunc | src/main.rs:301 | `as isize` truncates toward zero: the result is at most the value and within one below it for non-negative values, and at least the value and within one above it for negative ones |
| Numeric.TruncMonotone | src/main.rs:301 | the conversion never reverses the order of two values |
| Numeric.TruncOfInt | src/main.rs:301 | an integral value converts exactly |
| Numeric.TruncBetween | src/main.rs:196-197 | a value between two integers converts to an integer between them |
| Numeric.TruncStep | src/main.rs:300-302 | values at most one apart convert to integers at most one apart |
| CanvasCore.WordRoundTrip | src/canvas.rs:1-9 | a cell is exactly one `u32`: its little-endian word is below 2^32 and splits back into the same four bytes |
| CanvasCore.FromWordRoundTrip | src/canvas.rs:9 | every 32-bit word is the word of a cell |
| CanvasCore.Index | src/canvas.rs:61 | the cell position `x + width * y`; `IndexInBounds`, `IndexDecode`, `IndexInjective` and `IndexCovers` state that it is a bijection between in-bounds pairs and buffer cells |
| CanvasCore.LayoutFits | src/canvas.rs:40 | whether `Layout::array` accepts `n` cells: their byte size `4 * n` is at most isize::MAX (64-bit target); `Canvas.New` fails exactly when it does not hold |
| CanvasCore.IndexInBounds | src/canvas.rs:61 | an in-bounds (x, y) addresses a cell inside the `width * height` buffer |
| CanvasCore.IndexDecode | src/canvas.rs:61 | from `x + width * y`, x is the remainder and y the quotient by the width |
| CanvasCore.IndexInjective | src/canvas.rs:61 | distinct in-bounds coordinate pairs address distinct cells |
| CanvasCore.IndexCovers | src/canvas.rs:40 | every cell of the buffer is addressed by some in-bounds pair |
| CanvasCore.EveryCell | src/main.rs:144-148 | setting every in-bounds (x, y) to a colour sets every cell of the buffer to it |
| CanvasCore.Canvas.Allocate | src/canvas.rs:40 | allocates a fresh buffer of `width * height` zeroed cells |
| CanvasCore.Canvas.New | src/canvas.rs:34-42 | on a 64-bit target with the isize::MAX layout limit, fails exactly when `4 * width * height` exceeds isize::MAX; otherwise a fresh canvas of the given size whose every cell is zero |
| CanvasCore.Canvas.Width | src/canvas.rs:44-46 | the width times the height is the buffer length |
| CanvasCore.Canvas.Height | src/canvas.rs:48-50 | the width times the height is the buffer length |
| CanvasCore.Canvas.Set | src/canvas.rs:56-63 | writes the colour at position `x + width * y`; every other cell keeps its colour |
| Line.Interpolation | src/main.rs:291-306 | `interpolate` returns one value for a zero-length run and one per step of `i0..=i1` otherwise |
| Line.Interpolate | src/main.rs:291-306 | the accumulating loop returns exactly `Interpolation`: the k-th value is the truncation of `d0 + k * a` |
| Line.UnroundedStep | src/main.rs:300-303 | each `d += a` adds the slope once |
| Line.UnroundedLast | src/main.rs:298-303 | after `i1 - i0` steps the exact accumulator reaches d1 |
| Line.InterpolationEnds | src/main.rs:291-306 | the first value is d0, and the last is d1 whenever i0 < i1 |
| Line.InterpolationBetween | src/main.rs:291-306 | every value lies between d0 and d1 |
| Line.InterpolationStep | src/main.rs:291-306 | with a slope of at most one, consecutive values move by 0 or 1 toward d1 |
| Line.Horizontal | src/main.rs:267 | the branch test: strictly more change in x than in y; `LineWalk` states that x is then the walked axis |
| Line.Start | src/main.rs:270-273 | the endpoint after the swap: one of the two endpoints, the lower on the walked axis |
| Line.End | src/main.rs:281-284 | the other endpoint after the swap: one of the two endpoints, the higher on the walked axis |
| Line.LinePixels | src/main.rs:265-289 | the pixels `draw_line` writes, in writing order: the walked axis stepped from `Start` to `End` zipped with `Interpolation` of the other axis; `LineWalk`, `LineEndpoints`, `LineSymmetric`, `LineInBox` and `LineConnected` state its properties and `DrawLine` is proved against it |
| Line.LineWalk | src/main.rs:265-289 | one pixel per unit of the dominant axis (x exactly when abs dx > abs dy), from the ordered start to the ordered end |
| Line.LineSinglePoint | src/main.rs:265-289 | a segment from a point to itself writes that one pixel |
| Line.LineEndpoints | src/main.rs:265-289 | both endpoints are written |
| Line.LineSymmetric | src/main.rs:265-289 | swapping the endpoints gives the same writes in the same order |
| Line.LineInBox | src/main.rs:265-289 | every pixel lies in the endpoints' bounding box |
| Line.LineConnected | src/main.rs:265-289 | consecutive pixels are distinct and at most one apart on each axis |
| Line.HorizontalRun | src/main.rs:267-277 | a segment along a row writes every pixel between its ends |
| Line.VerticalRun | src/main.rs:278-288 | a segment along a column writes every pixel between its ends |
| Line.PlotAll | src/main.rs:275-277 | the zip loop leaves white exactly at the listed pixels and every other cell unchanged |
| Line.DrawLine | src/main.rs:265-289 | `draw_line` leaves white exactly at `LinePixels(p0, p1)` and every other cell unchanged |
| FrameGraph.Pushed | src/main.rs:139-142 | after the push the history is at most `capacity` long and ends with the new value, after the newest of the old values in order |
| FrameGraph.PushedIsNewest | src/main.rs:139-142 | one push keeps the newest `capacity` of the old history plus the new value |
| FrameGraph.NewestOfNewest | src/main.rs:139-142 | trimming to the newest n before appending does not change the newest n after appending |
| FrameGraph.PushedPrefix | src/main.rs:135-142 | one loop iteration turns the history of the first n frame times into that of the first n + 1 |
| FrameGraph.PushAllKeepsNewest | src/main.rs:135-142 | after any sequence of frames the history is the newest `capacity` frame times, oldest first |
| FrameGraph.FrameHistory.constructor | src/main.rs:132 | an empty history whose capacity is at least 500 |
| FrameGraph.FrameHistory.Push | src/main.rs:139-142 | evict-when-full then push: the new samples are `Pushed(old samples, capacity, elapsed)` |
| FrameGraph.Map | src/main.rs:207-209 | `map`: `to.start + (x - from.start) * ((to.end - to.start) / (from.end - from.start))`, for a non-empty source range; `MapEndpoints`, `MapAffine`, `MapRoundTrip` and `MapBetween` state its properties |
| FrameGraph.MapEndpoints | src/main.rs:207-209 | `map` sends the ends of the source range to the ends of the target range |
| FrameGraph.MapAffine | src/main.rs:207-209 | `map` preserves weighted averages |
| FrameGraph.MapRoundTrip | src/main.rs:207-209 | mapping back with the ranges exchanged gives the original value |
| FrameGraph.MapBetween | src/main.rs:207-209 | for an increasing source range, a value inside it lands inside the target range, whichever way the target runs |
| FrameGraph.FoldMin | src/main.rs:181 | the fold is a lower bound of the seed and every element, and equals one of them |
| FrameGraph.FoldMax | src/main.rs:182 | the fold is an upper bound of the seed and every element, and equals one of them |
| FrameGraph.Fastest | src/main.rs:181 | the minimum of the durations in milliseconds: one of them and at most each of them |
| FrameGraph.Slowest | src/main.rs:182 | the maximum of the durations in milliseconds: one of them and at least each of them |
| FrameGraph.PlotX | src/main.rs:196 | the column of the i-th newest sample: `map` of i from `0..capacity - 1` onto `max_x..min_x`, truncated; `NewestAtRight`, `OldestAtLeftWhenFull` and `PlotXInArea` state where it lands |
| FrameGraph.PlotY | src/main.rs:197 | the row of a duration: `map` from `min..max` onto `max_y..min_y`, truncated, and 0 when min equals max (the NaN the division by zero produces converts to 0); `PlotYAtExtremes` and `PlotYInArea` state where it lands |
| FrameGraph.GraphPoints | src/main.rs:192-199 | the `rev().enumerate().map(..)` vertices: one per sample, newest first; `GraphPointAt` states vertex i |
| FrameGraph.Border | src/main.rs:174-177 | the four border segments top, bottom, left, right; `BorderCovers` states that they cover the box outline |
| FrameGraph.Windows | src/main.rs:200-205 | `windows(2)`: `len - 1` segments (none below two vertices), segment k joining vertices k and k + 1; `PolylineCovers` states that every vertex is drawn |
| FrameGraph.GraphSegments | src/main.rs:174-205 | the border segments then the polyline segments, in drawing order; `GraphSegmentCount`, `GraphFitsCanvas`, `BorderDrawn` and `VerticesDrawn` state its properties |
| FrameGraph.GraphSegmentCount | src/main.rs:174-205 | the graph draws the four border lines first, then `len - 1` polyline segments (none below two samples) |
| FrameGraph.NewestAtRight | src/main.rs:192-196 | the newest sample is at column `gx + w - margin` |
| FrameGraph.OldestAtLeftWhenFull | src/main.rs:192-196 | in a full history the oldest sample is at column `gx + margin` |
| FrameGraph.GraphPointAt | src/main.rs:192-198 | vertex i is the i-th newest sample at its plot column and plot row |
| FrameGraph.GraphPointColumn | src/main.rs:196 | vertex i sits at the column of index i |
| FrameGraph.GraphPointRow | src/main.rs:197 | vertex i sits at the row of the i-th newest duration |
| FrameGraph.FastestSlowestBound | src/main.rs:179-182 | every duration lies between the min and max folds |
| FrameGraph.PlotYAtExtremes | src/main.rs:197 | the fastest duration maps to the bottom row and the slowest to the top row |
| FrameGraph.ExtremesAtEdges | src/main.rs:179-197 | unless all durations are equal, the fastest samples are plotted on the bottom row of the plot area and the slowest on the top row |
| FrameGraph.PlotXInArea | src/main.rs:186-196 | every index up to `capacity - 1` is plotted between the side margins |
| FrameGraph.PlotYInArea | src/main.rs:189-197 | a duration between the extremes is plotted between the top and bottom margins |
| FrameGraph.ColumnsInPlotArea | src/main.rs:186-196 | every vertex of a history within capacity lies between the side margins |
| FrameGraph.RowsInPlotArea | src/main.rs:189-197 | every vertex lies between the top and bottom margins, except that when all durations are equal its row is 0 |
| FrameGraph.GraphFitsCanvas | src/main.rs:174-205 | a box with room for its margins that lies inside the canvas keeps every endpoint of every segment inside the canvas |
| FrameGraph.BorderCovers | src/main.rs:174-177 | the four border lines cover the whole outline of the box, whatever is drawn after them |
| FrameGraph.BorderDrawn | src/main.rs:174-177 | the graph covers the whole outline of its box, whatever the history |
| FrameGraph.PolylineCovers | src/main.rs:200-205 | with two or more vertices every vertex lies on one of the `windows(2)` segments, whatever is drawn before them |
| FrameGraph.VerticesDrawn | src/main.rs:192-205 | with two or more samples every vertex of the polyline is drawn |
| FrameGraph.DrawSegments | src/main.rs:200-205 | drawing segments in turn leaves white exactly where some segment passes and every other cell unchanged |
| FrameGraph.DrawInTurn | src/main.rs:174-205 | drawing the border lines and then the polyline is drawing their concatenation |
| FrameGraph.DrawFrameTimeGraph | src/main.rs:168-210 | `draw_frame_time_graph` leaves white exactly the pixels of the graph's segments and every other cell unchanged |
| RenderLoop.ClearFrame | src/main.rs:144-148 | after the clear loop every cell is opaque black |
| RenderLoop.RenderFrame | src/main.rs:136-156 | one frame pushes the elapsed time and leaves the canvas white exactly on the graph of the new history and black elsewhere, with the whole border outline white |
| RenderLoop.NextFrame | src/main.rs:136-156 | one loop iteration turns the history of the first `n` frame times into that of the first `n + 1` and leaves the canvas showing exactly its graph |
| RenderLoop.OpenCanvas | src/main.rs:126 | creating the 1280 by 720 canvas succeeds and yields a valid canvas of that size with every cell zeroed |
| RenderLoop.RunFrames | src/main.rs:126-156 | the 1280 by 720 canvas is created without error; after the frames the history is the newest `capacity` frame times, and after at least one frame the canvas shows exactly their graph |

## Left out

- The window: class registration, window creation, `dispatch_messages`, `window_procedure`, `stretch_di_bits_win_except` and the `BITMAPINFO` setup. These are Win32 calls outside the model. `RenderLoop.RunFrames` takes the frame times as a finite sequence instead of looping while messages arrive.
- `src/win_except.rs` is not part of this model. It turns Win32 error codes into panics.
- `draw_str` and the font loading are not modelled. They lay out glyphs with the `rusttype` crate, which is foreign code, and they draw the ms and fps text. `draw_str` writes every pixel of each glyph's box, and pixels the glyph does not cover become (0, 0, 0, 0). So "black elsewhere" in `RenderLoop.RenderFrame` and `RenderLoop.RunFrames` describes the canvas after the graph is drawn and before the text is.
- Timing is not modelled. `Instant::elapsed` becomes the `elapsed` parameter.
- `Drop` (deallocation) and `Canvas::data`, which hands out the raw pointer, are not modelled. Memory ownership has no counterpart in the model.
- A null return from `alloc_zeroed` is not modelled. The program does not check for it.
- Floating-point rounding is not modelled. Durations, slopes and the remap are exact reals, so the drift of `d += a` and the rounding of `map` are outside the model. NaN appears only where the program produces it, as the all-equal case of `FrameGraph.PlotY`.
- Fixed-width integer overflow is not modelled. Coordinate differences in `draw_line` and the sums `graph_x + width` are unbounded integers. The program's values are far from the limits.
- CanvasCore.Canvas.New: the error case assumes a 64-bit target and the layout limit of current Rust toolchains, which rejects a byte size above isize::MAX (`CanvasCore.LayoutFits`). The program names the older `LayoutErr`. Toolchains of that time rejected only a byte size that overflows usize, and a 32-bit target has other limits. Neither is modelled.
- CanvasCore.Canvas.New: requires positive dimensions and a `width * height` that fits in usize. The program does not check either: a zero-size layout is invalid for `alloc_zeroed`, and the product would overflow.
- CanvasCore.Canvas.Set: requires x < width and y < height. This is the program's `debug_assert!`. With debug assertions off it would write out of bounds, which is not modelled.
- Line.DrawLine: requires both endpoints inside the canvas. By `Line.LineInBox` and `Line.LineEndpoints` this is exactly the condition that every pixel it writes satisfies `set`'s bounds.
- FrameGraph.DrawFrameTimeGraph: requires every segment endpoint inside the canvas, and `Margin <= gx + w` and `Margin <= gy + h`. These two conditions keep the usize subtractions `graph_x + width - margin` and `graph_y + height - margin` from underflowing. The program checks none of this and writes without bounds checks.
- RenderLoop.RenderFrame: requires the graph box (0, 50, 300, 200) to lie inside the canvas. The program does not check this. `RenderLoop.RunFrames` shows the 1280 by 720 canvas satisfies it.
- FrameGraph.FrameHistory.constructor: `VecDeque::with_capacity(500)` guarantees only a capacity of at least 500, so the capacity is any value of at least 500.
- FrameGraph.Fastest: defined only for a non-empty history. The `f64::MAX` and `f64::MIN` seeds matter only for an empty history, which has no vertices. `FrameGraph.Slowest` is the same.
