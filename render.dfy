/**
 * One iteration of the program's frame loop, without the window: record the
 * frame time, clear the canvas to opaque black, draw the frame-time graph.
 */
module RenderLoop {
  import opened CanvasCore
  import opened Line
  import opened FrameGraph

  /** The size of the window's client area, and so of the canvas. */
  const ScreenWidth: nat := 1280
  const ScreenHeight: nat := 720

  /** Where the loop places the graph and how large it makes it. */
  const GraphX: nat := 0
  const GraphY: nat := 50
  const GraphWidth: nat := 300
  const GraphHeight: nat := 200

  /** Every cell of the canvas holds `c`. */
  ghost predicate Filled(canvas: Canvas, c: Color)
    reads canvas.data
    requires canvas.Valid()
  {
    forall x: nat, y: nat :: x < canvas.width && y < canvas.height ==> canvas.At(x, y) == c
  }

  /** The canvas shows exactly the graph of `samples`: white where a segment passes, black elsewhere. */
  ghost predicate ShowsGraph(canvas: Canvas, samples: seq<real>, capacity: nat)
    reads canvas.data
    requires canvas.Valid() && 2 <= capacity
  {
    forall x: nat, y: nat :: x < canvas.width && y < canvas.height ==>
      canvas.At(x, y) ==
        if Covered(GraphSegments(samples, capacity, GraphX, GraphY, GraphWidth, GraphHeight), (x, y))
        then OpaqueWhite else OpaqueBlack
  }

  /** The clear loop: every cell, column by column, becomes opaque black. */
  method ClearFrame(canvas: Canvas)
    requires canvas.Valid()
    modifies canvas.data
    ensures forall x: nat, y: nat :: x < canvas.width && y < canvas.height ==> canvas.At(x, y) == OpaqueBlack
    ensures forall i :: 0 <= i < canvas.data.Length ==> canvas.data[i] == OpaqueBlack
  {
    for x := 0 to canvas.width
      invariant forall x': nat, y': nat :: x' < x && y' < canvas.height ==> canvas.At(x', y') == OpaqueBlack
    {
      for y := 0 to canvas.height
        invariant forall x': nat, y': nat :: x' < x && y' < canvas.height ==> canvas.At(x', y') == OpaqueBlack
        invariant forall y': nat :: y' < y ==> canvas.At(x, y') == OpaqueBlack
      {
        canvas.Set(x, y, OpaqueBlack);
      }
    }
    EveryCell(canvas, OpaqueBlack);
  }

  /**
   * One frame: the elapsed time enters the history, then the canvas shows
   * exactly the graph of the new history, white on black.
   */
  method RenderFrame(canvas: Canvas, history: FrameHistory, elapsed: real)
    requires canvas.Valid() && history.Valid()
    requires GraphX + GraphWidth < canvas.width && GraphY + GraphHeight < canvas.height
    modifies history, canvas.data
    ensures history.Valid()
    ensures history.samples == Pushed(old(history.samples), history.capacity, elapsed)
    ensures ShowsGraph(canvas, history.samples, history.capacity)
    ensures forall x: nat, y: nat :: x < canvas.width && y < canvas.height && OnBorder(GraphX, GraphY, GraphWidth, GraphHeight, (x, y)) ==>
      canvas.At(x, y) == OpaqueWhite
  {
    history.Push(elapsed);
    ClearFrame(canvas);
    GraphFitsCanvas(canvas, history.samples, history.capacity, GraphX, GraphY, GraphWidth, GraphHeight);
    DrawFrameTimeGraph(canvas, GraphX, GraphY, GraphWidth, GraphHeight, history);
    forall x: nat, y: nat | x < canvas.width && y < canvas.height && OnBorder(GraphX, GraphY, GraphWidth, GraphHeight, (x, y))
      ensures canvas.At(x, y) == OpaqueWhite
    {
      BorderDrawn(history.samples, history.capacity, GraphX, GraphY, GraphWidth, GraphHeight, (x, y));
    }
  }

  /** Frame `n` of the loop: the history of the first `n` frame times becomes that of the first `n + 1`. */
  method NextFrame(canvas: Canvas, history: FrameHistory, frames: seq<real>, n: nat)
    requires canvas.Valid() && history.Valid() && n < |frames|
    requires GraphX + GraphWidth < canvas.width && GraphY + GraphHeight < canvas.height
    requires history.samples == Newest(frames[..n], history.capacity)
    modifies history, canvas.data
    ensures history.Valid()
    ensures history.samples == Newest(frames[..n + 1], history.capacity)
    ensures ShowsGraph(canvas, history.samples, history.capacity)
  {
    PushedPrefix(frames, history.capacity, n);
    RenderFrame(canvas, history, frames[n]);
  }

  /** The window's canvas: its size fits the layout, so creation succeeds, zeroed. */
  method OpenCanvas() returns (canvas: Canvas)
    ensures fresh(canvas.data)
    ensures canvas.Valid() && canvas.width == ScreenWidth && canvas.height == ScreenHeight
    ensures Filled(canvas, Zeroed)
  {
    var r := Canvas.New(ScreenWidth, ScreenHeight);
    assert LayoutFits(ScreenWidth * ScreenHeight);
    canvas := r.value;
  }

  /**
   * The frame loop over the frame times `frames`, one per message-loop
   * iteration: the canvas creation succeeds, the history ends holding the
   * newest `capacity` frame times, and after at least one frame the canvas
   * shows the graph of that history.
   */
  method RunFrames(frames: seq<real>, capacity: nat) returns (canvas: Canvas, history: FrameHistory)
    requires RequestedCapacity <= capacity
    ensures canvas.Valid() && canvas.width == ScreenWidth && canvas.height == ScreenHeight
    ensures history.Valid() && history.capacity == capacity
    ensures history.samples == Newest(frames, capacity)
    ensures frames == [] ==> Filled(canvas, Zeroed)
    ensures frames != [] ==> ShowsGraph(canvas, history.samples, capacity)
  {
    canvas := OpenCanvas();
    history := new FrameHistory(capacity);
    assert frames[..|frames|] == frames;
    for n := 0 to |frames|
      invariant canvas.Valid() && canvas.width == ScreenWidth && canvas.height == ScreenHeight
      invariant fresh(canvas.data) && fresh(history)
      invariant history.Valid() && history.capacity == capacity
      invariant history.samples == Newest(frames[..n], capacity)
      invariant n == 0 ==> Filled(canvas, Zeroed)
      invariant n != 0 ==> ShowsGraph(canvas, history.samples, capacity)
    {
      NextFrame(canvas, history, frames, n);
    }
  }
}
