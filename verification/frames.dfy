/**
  The frame reader: the size of one raw RGBA frame (main.c, line 65) and the
  fixed-size reads that cut the decoder's byte stream into frames (lines
  107-116).

  The decoder's output is the finite byte sequence it delivers before its
  pipe reaches end of file or fails; both end the loop the same way.
*/
module Frames {

  const BytesPerPixel: nat := 4
  const IntMin: int := -0x8000_0000
  const IntMax: int := 0x7FFF_FFFF
  /** `unsigned int` arithmetic is modulo 2^32. */
  const UIntModulus: nat := 0x1_0000_0000

  /** `x` is representable as a C `int`. */
  predicate IsInt(x: int) {
    IntMin <= x <= IntMax
  }

  /**
    Line 65: width times height times four bytes, multiplied as C `int`s
    (where overflow is undefined, hence the precondition) and then stored
    as an `unsigned int`, which wraps a negative product modulo 2^32.
  */
  function FrameSize(width: int, height: int): (size: nat)
    requires IsInt(width) && IsInt(height)
    requires IsInt(width * height) && IsInt(width * height * BytesPerPixel)
    ensures size < UIntModulus
    ensures size % BytesPerPixel == 0
    ensures 0 <= width && 0 <= height ==> size == width * height * BytesPerPixel
    ensures size == 0 <==> width == 0 || height == 0
  {
    var area := width * height;
    ZeroProduct(width, height);
    WrapKeepsQuadruple(area);
    (area * BytesPerPixel) % UIntModulus
  }

  lemma ZeroProduct(a: int, b: int)
    ensures a * b == 0 <==> a == 0 || b == 0
  {
  }

  /** Wrapping a multiple of four modulo 2^32 leaves a multiple of four. */
  lemma WrapKeepsQuadruple(m: int)
    ensures (m * BytesPerPixel) % UIntModulus % BytesPerPixel == 0
  {
    var q := (m * BytesPerPixel) / UIntModulus;
    var r := (m * BytesPerPixel) % UIntModulus;
    assert m * BytesPerPixel == q * UIntModulus + r;
    assert r == (m - q * 0x4000_0000) * BytesPerPixel;
  }

  /** Byte offset of channel `channel` of pixel (x, y) in a row-major RGBA frame without padding. */
  function PixelOffset(width: nat, x: nat, y: nat, channel: nat): nat {
    (y * width + x) * BytesPerPixel + channel
  }

  /** Every byte of every pixel lies inside the frame buffer. */
  lemma PixelInFrame(width: nat, height: nat, x: nat, y: nat, channel: nat)
    requires x < width && y < height && channel < BytesPerPixel
    ensures PixelOffset(width, x, y, channel) < width * height * BytesPerPixel
  {
    MulMono(y + 1, height, width);
    assert y * width + x < (y + 1) * width;
  }

  /** Every byte of every pixel lies inside the `FrameSize` bytes each read fills. */
  lemma PixelInFrameBuffer(width: int, height: int, x: nat, y: nat, channel: nat)
    requires IsInt(width) && IsInt(height)
    requires IsInt(width * height) && IsInt(width * height * BytesPerPixel)
    requires x < width && y < height && channel < BytesPerPixel
    ensures PixelOffset(width, x, y, channel) < FrameSize(width, height)
  {
    PixelInFrame(width, height, x, y, channel);
  }

  /** Every byte of the frame buffer belongs to some pixel channel. */
  lemma PixelOfOffset(width: nat, height: nat, offset: nat) returns (x: nat, y: nat, channel: nat)
    requires offset < width * height * BytesPerPixel
    ensures x < width && y < height && channel < BytesPerPixel
    ensures PixelOffset(width, x, y, channel) == offset
  {
    var area := width * height;
    var pixel := offset / BytesPerPixel;
    channel := offset % BytesPerPixel;
    assert pixel < area;
    ZeroProduct(width, height);
    x := pixel % width;
    y := pixel / width;
    assert pixel == y * width + x;
    if y >= height {
      MulMono(height, y, width);
    }
  }

  /** A pixel index splits into one row and one column. */
  lemma RowMajorUnique(width: nat, x1: nat, y1: nat, x2: nat, y2: nat)
    requires x1 < width && x2 < width && y1 * width + x1 == y2 * width + x2
    ensures x1 == x2 && y1 == y2
  {
    if y1 < y2 {
      MulMono(y1 + 1, y2, width);
      MulSucc(y1, width);
    } else if y2 < y1 {
      MulMono(y2 + 1, y1, width);
      MulSucc(y2, width);
    }
  }

  /** No two pixel channels share a byte. */
  lemma PixelOffsetInjective(width: nat, x1: nat, y1: nat, c1: nat, x2: nat, y2: nat, c2: nat)
    requires x1 < width && x2 < width && c1 < BytesPerPixel && c2 < BytesPerPixel
    requires PixelOffset(width, x1, y1, c1) == PixelOffset(width, x2, y2, c2)
    ensures x1 == x2 && y1 == y2 && c1 == c2
  {
    var p1, p2 := y1 * width + x1, y2 * width + x2;
    assert p1 * BytesPerPixel + c1 == p2 * BytesPerPixel + c2;
    assert c1 == c2 && p1 == p2;
    RowMajorUnique(width, x1, y1, x2, y2);
  }

  /**
    `fread(frame, 1, count, pipe)` on a blocking pipe: it returns fewer than
    `count` bytes only when the stream has nothing more to give.
  */
  function Fread(stream: seq<bv8>, pos: nat, count: nat): (got: seq<bv8>)
    requires pos <= |stream|
    ensures |got| <= count && pos + |got| <= |stream|
    ensures got == stream[pos..pos + |got|]
    ensures |got| < count ==> pos + |got| == |stream|
  {
    if pos + count <= |stream| then stream[pos..pos + count] else stream[pos..]
  }

  /** The outcome of one read of the main loop. */
  datatype FrameRead =
    | Frame(pixels: seq<bv8>, next: nat)
    | ShortRead(got: nat)

  /**
    Lines 107-116: read `frameSize` bytes; a short read, whether at end of
    file or on an error, ends the loop and its bytes are never shown.
  */
  function NextFrame(stream: seq<bv8>, pos: nat, frameSize: nat): (r: FrameRead)
    requires pos <= |stream|
    ensures r.Frame? <==> pos + frameSize <= |stream|
    ensures r.Frame? ==> r.pixels == stream[pos..pos + frameSize] && r.next == pos + frameSize
    ensures r.ShortRead? ==> r.got < frameSize && pos + r.got == |stream|
  {
    var got := Fread(stream, pos, frameSize);
    if |got| < frameSize then ShortRead(|got|) else Frame(got, pos + frameSize)
  }

  /** The `size` bytes of the stream starting at `start`. */
  function Span(stream: seq<bv8>, start: nat, size: nat): seq<bv8>
    requires start + size <= |stream|
  {
    stream[start..start + size]
  }

  /**
    The frames successive reads deliver from `pos` on, up to the first short
    read: none when less than a frame is left, and each one a full frame.
  */
  function FramesFrom(stream: seq<bv8>, frameSize: nat, pos: nat): (r: seq<seq<bv8>>)
    requires frameSize > 0 && pos <= |stream|
    ensures |r| == 0 <==> |stream| < pos + frameSize
    ensures forall k :: 0 <= k < |r| ==> |r[k]| == frameSize
    decreases |stream| - pos
  {
    if pos + frameSize <= |stream| then [Span(stream, pos, frameSize)] + FramesFrom(stream, frameSize, pos + frameSize)
    else []
  }

  /** Bytes `[k * size, (k + 1) * size)` of the stream. */
  function Chunk(stream: seq<bv8>, size: nat, k: nat): (c: seq<bv8>)
    requires (k + 1) * size <= |stream|
    ensures |c| == size
  {
    assert k * size + size == (k + 1) * size;
    stream[k * size..(k + 1) * size]
  }

  /** `frame` is chunk `k` of the stream. */
  predicate IsChunk(stream: seq<bv8>, size: nat, k: nat, frame: seq<bv8>) {
    (k + 1) * size <= |stream| && frame == Chunk(stream, size, k)
  }

  /** All frames laid end to end. */
  function Concat(frames: seq<seq<bv8>>): seq<bv8> {
    if |frames| == 0 then [] else frames[0] + Concat(frames[1..])
  }

  lemma MulMono(x: nat, y: nat, b: nat)
    requires x <= y
    ensures x * b <= y * b
  {
    assert y * b == x * b + (y - x) * b;
  }

  /** A multiple of `b` that fits in `a` is at most `a / b` times `b`. */
  lemma MulLeDiv(a: nat, b: nat, q: nat)
    requires b > 0 && q * b <= a
    ensures q <= a / b
  {
    if q > a / b {
      MulMono(a / b + 1, q, b);
      MulSucc(a / b, b);
    }
  }

  /** `q` is the quotient `a / b` when `a` lies between `q * b` and `(q + 1) * b`. */
  lemma DivFromBounds(a: nat, b: nat, q: nat)
    requires b > 0 && q * b <= a < (q + 1) * b
    ensures a / b == q
  {
    var q', r := a / b, a % b;
    assert a == q' * b + r;
    if q' < q {
      MulMono(q' + 1, q, b);
    } else if q < q' {
      MulMono(q + 1, q', b);
    }
  }

  /** `FramesFrom` is what the loop's successive `NextFrame` reads deliver. */
  lemma FramesFromReads(stream: seq<bv8>, size: nat, pos: nat)
    requires size > 0 && pos <= |stream|
    ensures NextFrame(stream, pos, size).ShortRead? ==> FramesFrom(stream, size, pos) == []
    ensures NextFrame(stream, pos, size).Frame? ==>
      FramesFrom(stream, size, pos)
      == [NextFrame(stream, pos, size).pixels] + FramesFrom(stream, size, NextFrame(stream, pos, size).next)
  {
  }

  /** One read step of `FramesFrom`. */
  lemma FramesFromStep(stream: seq<bv8>, size: nat, pos: nat)
    requires size > 0 && pos <= |stream|
    ensures pos + size > |stream| ==> FramesFrom(stream, size, pos) == []
    ensures pos + size <= |stream| ==>
      FramesFrom(stream, size, pos) == [Span(stream, pos, size)] + FramesFrom(stream, size, pos + size)
  {
  }

  lemma MulSucc(n: nat, size: nat)
    ensures (n + 1) * size == n * size + size
  {
  }

  /** Successive reads stop with less than one frame's worth left. */
  lemma {:induction false} FramesFromCount(stream: seq<bv8>, size: nat, pos: nat)
    requires size > 0 && pos <= |stream|
    ensures pos + |FramesFrom(stream, size, pos)| * size <= |stream|
    ensures |stream| < pos + (|FramesFrom(stream, size, pos)| + 1) * size
    decreases |stream| - pos
  {
    var n := |FramesFrom(stream, size, pos)|;
    FramesFromStep(stream, size, pos);
    MulSucc(n, size);
    if pos + size <= |stream| {
      FramesFromCount(stream, size, pos + size);
      MulSucc(n - 1, size);
    }
  }

  /** Indexing into the frames read from `pos`: the first is read at `pos`, the others from `pos + size` on. */
  lemma FramesFromIndex(stream: seq<bv8>, size: nat, pos: nat, k: nat)
    requires size > 0 && pos <= |stream|
    requires k < |FramesFrom(stream, size, pos)|
    ensures pos + size <= |stream|
    ensures k == 0 ==> FramesFrom(stream, size, pos)[k] == Span(stream, pos, size)
    ensures k > 0 ==> k - 1 < |FramesFrom(stream, size, pos + size)|
    ensures k > 0 ==> FramesFrom(stream, size, pos)[k] == FramesFrom(stream, size, pos + size)[k - 1]
  {
    FramesFromStep(stream, size, pos);
  }

  /** The k-th frame read from `pos` ends inside the stream. */
  lemma {:induction false} FramesFromFit(stream: seq<bv8>, size: nat, pos: nat, k: nat)
    requires size > 0 && pos <= |stream|
    requires k < |FramesFrom(stream, size, pos)|
    ensures pos + k * size + size <= |stream|
    decreases k
  {
    FramesFromIndex(stream, size, pos, k);
    if k > 0 {
      FramesFromFit(stream, size, pos + size, k - 1);
      MulSucc(k - 1, size);
    }
  }

  /** The k-th frame read from `pos` is the k-th run of `size` bytes after `pos`. */
  lemma {:induction false} FramesFromChunk(stream: seq<bv8>, size: nat, pos: nat, k: nat)
    requires size > 0 && pos <= |stream|
    requires k < |FramesFrom(stream, size, pos)|
    ensures pos + k * size + size <= |stream|
    ensures FramesFrom(stream, size, pos)[k] == Span(stream, pos + k * size, size)
    decreases k
  {
    FramesFromFit(stream, size, pos, k);
    FramesFromIndex(stream, size, pos, k);
    if k > 0 {
      FramesFromChunk(stream, size, pos + size, k - 1);
      MulSucc(k - 1, size);
      assert pos + size + (k - 1) * size == pos + k * size;
    }
  }

  /** The k-th frame read from the start is bytes `[k * size, (k + 1) * size)` of the stream. */
  lemma FrameIsChunk(stream: seq<bv8>, size: nat, k: nat)
    requires size > 0 && k < |FramesFrom(stream, size, 0)|
    ensures IsChunk(stream, size, k, FramesFrom(stream, size, 0)[k])
  {
    FramesFromChunk(stream, size, 0, k);
    MulSucc(k, size);
  }

  lemma FramesFromStartAreChunks(stream: seq<bv8>, size: nat)
    requires size > 0
    ensures forall k :: 0 <= k < |FramesFrom(stream, size, 0)| ==> IsChunk(stream, size, k, FramesFrom(stream, size, 0)[k])
  {
    forall k | 0 <= k < |FramesFrom(stream, size, 0)| {
      FrameIsChunk(stream, size, k);
    }
  }

  /**
    Every frame the decoder stream yields when nothing else stops the loop:
    an n-byte stream gives n / size frames, and frame k is the k-th run of
    `size` bytes.
  */
  function StreamFrames(stream: seq<bv8>, size: nat): (r: seq<seq<bv8>>)
    requires size > 0
    ensures |r| == |stream| / size
    ensures forall k :: 0 <= k < |r| ==> IsChunk(stream, size, k, r[k])
  {
    var r := FramesFrom(stream, size, 0);
    FramesFromCount(stream, size, 0);
    DivFromBounds(|stream|, size, |r|);
    FramesFromStartAreChunks(stream, size);
    r
  }

  lemma {:induction false} FramesFromCover(stream: seq<bv8>, size: nat, pos: nat)
    requires size > 0 && pos <= |stream|
    ensures pos + |Concat(FramesFrom(stream, size, pos))| <= |stream|
    ensures Concat(FramesFrom(stream, size, pos)) == stream[pos..pos + |Concat(FramesFrom(stream, size, pos))|]
    ensures |stream| - (pos + |Concat(FramesFrom(stream, size, pos))|) < size
    decreases |stream| - pos
  {
    var frames := FramesFrom(stream, size, pos);
    FramesFromStep(stream, size, pos);
    if pos + size <= |stream| {
      var first, rest := stream[pos..pos + size], FramesFrom(stream, size, pos + size);
      FramesFromCover(stream, size, pos + size);
      ConcatCons(first, rest);
      assert frames == [first] + rest;
      var end := pos + size + |Concat(rest)|;
      assert |Concat(frames)| == end - pos;
      calc {
        Concat(frames);
        first + Concat(rest);
        stream[pos..pos + size] + stream[pos + size..end];
        { SliceSplit(stream, pos, pos + size, end); }
        stream[pos..end];
      }
    }
  }

  lemma ConcatCons(first: seq<bv8>, rest: seq<seq<bv8>>)
    ensures Concat([first] + rest) == first + Concat(rest)
  {
    assert ([first] + rest)[1..] == rest;
  }

  lemma SliceSplit(s: seq<bv8>, i: nat, j: nat, k: nat)
    requires i <= j <= k <= |s|
    ensures s[i..k] == s[i..j] + s[j..k]
  {
  }

  /**
    The shown frames, laid end to end, are exactly the start of the stream:
    no byte is skipped or repeated, and fewer than one frame's worth is left.
  */
  lemma FramesCoverStream(stream: seq<bv8>, size: nat)
    requires size > 0
    ensures |Concat(StreamFrames(stream, size))| <= |stream|
    ensures Concat(StreamFrames(stream, size)) == stream[..|Concat(StreamFrames(stream, size))|]
    ensures |stream| - |Concat(StreamFrames(stream, size))| < size
  {
    FramesFromCover(stream, size, 0);
  }

  /** A 2x1 stream of one red and one green frame: two full reads, then a short one. */
  lemma TwoFrameStream(stream: seq<bv8>)
    requires stream == [0xFF, 0x00, 0x00, 0xFF, 0xFF, 0x00, 0x00, 0xFF,
                        0x00, 0xFF, 0x00, 0xFF, 0x00, 0xFF, 0x00, 0xFF]
    ensures FrameSize(2, 1) == 8
    ensures NextFrame(stream, 0, 8) == Frame([0xFF, 0x00, 0x00, 0xFF, 0xFF, 0x00, 0x00, 0xFF], 8)
    ensures NextFrame(stream, 8, 8) == Frame([0x00, 0xFF, 0x00, 0xFF, 0x00, 0xFF, 0x00, 0xFF], 16)
    ensures NextFrame(stream, 16, 8) == ShortRead(0)
  {
  }
}
