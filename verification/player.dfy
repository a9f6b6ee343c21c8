/**
  The main loop of main.c (lines 92-139) and the program as a whole.

  Each cycle polls the wheel and updates the zoom factor, reads one frame,
  and, only if the read was complete, uploads it and draws it centred on the
  pointer inside its border. The loop ends when the window is closed or on
  the first short read.

  The window system is represented by the finite sequence of cycles it
  allows (`ticks`): `WindowShouldClose` becomes true once they are used up.
  The fit-to-window scale and the float-to-int truncation of lines 82-90 and
  103-104 are the parameter `destSize`, mapping a zoom factor to the
  destination size.
*/
module Player {
  import opened Frames
  import Zoom
  import opened Layout
  import opened Prober

  /** The input polled in one cycle: the wheel delta and the pointer position. */
  datatype Tick = Tick(wheel: real, pointer: Point)

  /** One drawn cycle: the frame uploaded, the zoom factor in force, and the two rectangles drawn. */
  datatype Drawn = Drawn(pixels: seq<bv8>, zoom: real, image: Rect, border: Rect)

  /** Why the loop ended. */
  datatype Stop = WindowClosed | StreamEnded

  /** The wheel deltas of the given cycles, oldest first. */
  function Wheels(ticks: seq<Tick>): (ws: seq<real>)
    ensures |ws| == |ticks|
    ensures forall k :: 0 <= k < |ticks| ==> ws[k] == ticks[k].wheel
  {
    seq(|ticks|, k requires 0 <= k < |ticks| => ticks[k].wheel)
  }

  /** The zoom factor after the first `n` cycles. */
  function ZoomBefore(ticks: seq<Tick>, n: nat): real
    requires n <= |ticks|
  {
    Zoom.After(Zoom.Initial, Wheels(ticks[..n]))
  }

  /** The zoom factor in force during cycle `k`, after that cycle's wheel update. */
  function ZoomAt(ticks: seq<Tick>, k: nat): real
    requires k < |ticks|
  {
    ZoomBefore(ticks, k + 1)
  }

  /** Cycle `k` drew frame `k` of the stream at the zoom factor and position its input asks for. */
  predicate Shows(stream: seq<bv8>, frameSize: nat, ticks: seq<Tick>, destSize: real -> Size, d: Drawn, k: nat)
    requires k < |ticks|
  {
    && IsChunk(stream, frameSize, k, d.pixels)
    && Zoom.InRange(d.zoom)
    && d.zoom == ZoomAt(ticks, k)
    && d.image == ImageRect(ticks[k].pointer, destSize(d.zoom))
    && d.border == BorderRect(d.image)
  }

  /**
    Lines 92-139 over the decoder output `stream`, with `frameSize` the
    value computed on line 65.
  */
  method Play(stream: seq<bv8>, frameSize: nat, ticks: seq<Tick>, destSize: real -> Size)
    returns (drawn: seq<Drawn>, stop: Stop)
    ensures |drawn| <= |ticks|
    ensures stop == WindowClosed ==> |drawn| == |ticks|
    ensures stop == StreamEnded ==> |drawn| < |ticks| && |stream| < (|drawn| + 1) * frameSize
    ensures |drawn| * frameSize <= |stream|
    ensures frameSize == 0 ==> stop == WindowClosed
    ensures frameSize > 0 ==> |drawn| <= |stream| / frameSize
    ensures frameSize > 0 && stop == StreamEnded ==> |drawn| == |stream| / frameSize
    ensures forall k :: 0 <= k < |drawn| ==> Shows(stream, frameSize, ticks, destSize, drawn[k], k)
  {
    drawn := [];
    var zoom := Zoom.Initial;
    var pos := 0;
    var i := 0;
    stop := WindowClosed;
    while i < |ticks|
      invariant i == |drawn| <= |ticks|
      invariant pos == i * frameSize <= |stream|
      invariant zoom == ZoomBefore(ticks, i)
      invariant forall k :: 0 <= k < i ==> Shows(stream, frameSize, ticks, destSize, drawn[k], k)
    {
      ZoomStep(ticks, i);
      zoom := Zoom.Update(zoom, ticks[i].wheel);
      var read := NextFrame(stream, pos, frameSize);
      if read.ShortRead? {
        stop := StreamEnded;
        break;
      }
      var image := ImageRect(ticks[i].pointer, destSize(zoom));
      var d := Drawn(read.pixels, zoom, image, BorderRect(image));
      DrawStep(stream, frameSize, ticks, destSize, i, pos, d);
      ShowsAppend(stream, frameSize, ticks, destSize, drawn, d);
      drawn := drawn + [d];
      pos := read.next;
      i := i + 1;
    }
    MulSucc(i, frameSize);
    Counted(|stream|, frameSize, i, stop == StreamEnded);
  }

  /** What cycle `k` shows is frame `k` of the stream as the read loop delivers it. */
  lemma ShownIsStreamFrame(stream: seq<bv8>, frameSize: nat, ticks: seq<Tick>, destSize: real -> Size, d: Drawn, k: nat)
    requires frameSize > 0 && k < |ticks|
    requires Shows(stream, frameSize, ticks, destSize, d, k)
    ensures k < |StreamFrames(stream, frameSize)| && d.pixels == StreamFrames(stream, frameSize)[k]
  {
    MulLeDiv(|stream|, frameSize, k + 1);
  }

  /** The frames drawn are the first frames of the stream, in order. */
  lemma DrawnAreStreamFrames(stream: seq<bv8>, frameSize: nat, ticks: seq<Tick>, destSize: real -> Size, drawn: seq<Drawn>)
    requires frameSize > 0 && |drawn| <= |ticks|
    requires forall k :: 0 <= k < |drawn| ==> Shows(stream, frameSize, ticks, destSize, drawn[k], k)
    ensures |drawn| <= |StreamFrames(stream, frameSize)|
    ensures forall k :: 0 <= k < |drawn| ==> drawn[k].pixels == StreamFrames(stream, frameSize)[k]
  {
    if |drawn| > 0 {
      ShownIsStreamFrame(stream, frameSize, ticks, destSize, drawn[|drawn| - 1], |drawn| - 1);
    }
    forall k | 0 <= k < |drawn| ensures drawn[k].pixels == StreamFrames(stream, frameSize)[k] {
      ShownIsStreamFrame(stream, frameSize, ticks, destSize, drawn[k], k);
    }
  }

  /** Appending the frame drawn in the next cycle keeps every drawn cycle accounted for. */
  lemma ShowsAppend(stream: seq<bv8>, frameSize: nat, ticks: seq<Tick>, destSize: real -> Size, drawn: seq<Drawn>, d: Drawn)
    requires |drawn| < |ticks|
    requires forall k :: 0 <= k < |drawn| ==> Shows(stream, frameSize, ticks, destSize, drawn[k], k)
    requires Shows(stream, frameSize, ticks, destSize, d, |drawn|)
    ensures forall k :: 0 <= k < |drawn + [d]| ==> Shows(stream, frameSize, ticks, destSize, (drawn + [d])[k], k)
  {
  }

  /** The zoom factor of cycle `i` is the previous one updated by that cycle's wheel delta. */
  lemma ZoomStep(ticks: seq<Tick>, i: nat)
    requires i < |ticks|
    ensures Zoom.InRange(ZoomAt(ticks, i))
    ensures ZoomAt(ticks, i) == Zoom.Update(ZoomBefore(ticks, i), ticks[i].wheel)
  {
    var ws := Wheels(ticks[..i + 1]);
    assert ws[..i] == Wheels(ticks[..i]);
    Zoom.AfterStaysInRange(Zoom.Initial, ws);
  }

  /** A full read at `i * frameSize` in cycle `i` draws frame `i`. */
  lemma DrawStep(stream: seq<bv8>, frameSize: nat, ticks: seq<Tick>, destSize: real -> Size, i: nat, pos: nat, d: Drawn)
    requires i < |ticks| && pos == i * frameSize && pos + frameSize <= |stream|
    requires d.pixels == stream[pos..pos + frameSize] && d.zoom == ZoomAt(ticks, i) && Zoom.InRange(d.zoom)
    requires d.image == ImageRect(ticks[i].pointer, destSize(d.zoom)) && d.border == BorderRect(d.image)
    ensures pos + frameSize == (i + 1) * frameSize
    ensures Shows(stream, frameSize, ticks, destSize, d, i)
  {
    MulSucc(i, frameSize);
  }

  /** The frame count in quotient form, for a loop that read `n` frames and maybe then a short one. */
  lemma Counted(length: nat, size: nat, n: nat, short: bool)
    requires n * size <= length
    requires short ==> length < (n + 1) * size
    ensures size > 0 ==> n <= length / size
    ensures size > 0 && short ==> n == length / size
  {
    if size > 0 {
      MulLeDiv(length, size, n);
      if short {
        DivFromBounds(length, size, n);
      }
    }
  }

  /**
    The whole of `main`: probe the resolution (lines 31-50), size the frame
    (line 65), and run the loop (lines 92-139).
  */
  method Run(lines: seq<string>, stream: seq<bv8>, ticks: seq<Tick>, destSize: real -> Size)
    returns (dims: Dims, drawn: seq<Drawn>, stop: Stop)
    requires ProbeDefined(lines)
    requires IsInt(Probe(lines).width) && IsInt(Probe(lines).height)
    requires IsInt(Probe(lines).width * Probe(lines).height)
    requires IsInt(Probe(lines).width * Probe(lines).height * BytesPerPixel)
    ensures dims == Probe(lines)
    ensures dims.width >= 0 && dims.height >= 0 ==>
      forall k :: 0 <= k < |drawn| ==> |drawn[k].pixels| == dims.width * dims.height * BytesPerPixel
    ensures (forall k :: 0 <= k < |lines| ==> !StopsScan(lines[k])) ==>
      stop == WindowClosed && |drawn| == |ticks| && forall k :: 0 <= k < |drawn| ==> drawn[k].pixels == []
    ensures |drawn| <= |ticks|
    ensures stop == WindowClosed ==> |drawn| == |ticks|
    ensures forall k :: 0 <= k < |drawn| ==>
      Shows(stream, FrameSize(dims.width, dims.height), ticks, destSize, drawn[k], k)
    ensures FrameSize(dims.width, dims.height) > 0 ==>
      |drawn| <= |StreamFrames(stream, FrameSize(dims.width, dims.height))|
    ensures FrameSize(dims.width, dims.height) > 0 ==>
      forall k :: 0 <= k < |drawn| ==> drawn[k].pixels == StreamFrames(stream, FrameSize(dims.width, dims.height))[k]
    ensures FrameSize(dims.width, dims.height) > 0 && stop == StreamEnded ==>
      |drawn| == |stream| / FrameSize(dims.width, dims.height)
  {
    dims := Probe(lines);
    var frameSize := FrameSize(dims.width, dims.height);
    drawn, stop := Play(stream, frameSize, ticks, destSize);
    if frameSize > 0 {
      DrawnAreStreamFrames(stream, frameSize, ticks, destSize, drawn);
    }
  }
}
