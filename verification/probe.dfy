/**
  The source prober: the scan of the decoder's diagnostic text that recovers
  the frame width and height (main.c, lines 31-50).

  The diagnostic text is a sequence of lines. The scan stops at the first line
  that contains both "Stream #" and "Video:" and also an 'x'. It then walks
  back from the character just before that first 'x' over the digits
  preceding it, and reads "%dx%d" from there into a width and a height that
  both start at 0.
*/
module Prober {
  import opened Wrappers
  import opened CText

  const StreamMarker: string := "Stream #"
  const VideoMarker: string := "Video:"
  const Separator: string := "x"

  /** The frame dimensions, as the two C `int`s of line 31. */
  datatype Dims = Dims(width: int, height: int)

  /** The dimensions when nothing was parsed. */
  const Unknown: Dims := Dims(0, 0)

  /** The test of line 38. */
  predicate IsVideoStreamLine(line: string) {
    Find(line, StreamMarker).Some? && Find(line, VideoMarker).Some?
  }

  /** A line at which the scan stops: a video stream line with an 'x' in it. */
  predicate StopsScan(line: string) {
    IsVideoStreamLine(line) && Find(line, Separator).Some?
  }

  /**
    The first 'x' is not the first character, so that `res - 1` on line 41
    still points into the line buffer.
  */
  predicate ParseDefined(line: string) {
    match Find(line, Separator)
    case Some(x) => x >= 1
    case None => false
  }

  /**
    Lines 35-40: the index of the first line at or after `i` at which the scan
    stops, or `|lines|` when no line does.
  */
  function FirstStop(lines: seq<string>, i: nat): (r: nat)
    requires i <= |lines|
    ensures i <= r <= |lines|
    ensures forall j :: i <= j < r ==> !StopsScan(lines[j])
    ensures r < |lines| ==> StopsScan(lines[r])
    decreases |lines| - i
  {
    if i == |lines| || StopsScan(lines[i]) then i else FirstStop(lines, i + 1)
  }

  /** The scan is defined: the line it stops at, if any, satisfies `ParseDefined`. */
  predicate ProbeDefined(lines: seq<string>) {
    FirstStop(lines, 0) < |lines| ==> ParseDefined(lines[FirstStop(lines, 0)])
  }

  /** The backward walk of lines 41-44, starting from index `s`. */
  function WalkBack(line: string, s: nat): (r: nat)
    requires s <= |line|
    ensures r <= s
    ensures forall k :: r <= k < s ==> IsDigit(line[k])
    ensures r == 0 || !IsDigit(line[r - 1])
    decreases s
  {
    if s > 0 && IsDigit(line[s - 1]) then WalkBack(line, s - 1) else s
  }

  /**
    Line 46: the "%dx%d" conversion into a width and a height that are both 0
    beforehand. A conversion that succeeds stores its value; the first one
    that fails stops the scan and leaves the rest of the variables as they were.
  */
  function ScanResolution(s: string): (d: Dims)
    ensures ScanInt(s, 0).None? ==> d == Unknown
    ensures ScanInt(s, 0).Some? ==> d.width == ScanInt(s, 0).value.value
    ensures d.height != 0 ==>
      && ScanInt(s, 0).Some?
      && ScanInt(s, 0).value.next < |s|
      && s[ScanInt(s, 0).value.next] == 'x'
  {
    match ScanInt(s, 0)
    case None => Unknown
    case Some(w) =>
      if w.next < |s| && s[w.next] == 'x' then
        match ScanInt(s, w.next + 1)
        case None => Dims(w.value, 0)
        case Some(h) => Dims(w.value, h.value)
      else Dims(w.value, 0)
  }

  /** `r` is where the maximal run of digits that ends just before index `e` begins. */
  predicate RunStart(line: string, r: nat, e: nat) {
    && r <= e <= |line|
    && (forall k :: r <= k < e ==> IsDigit(line[k]))
    && (r == 0 || !IsDigit(line[r - 1]))
  }

  /**
    Lines 39-46 applied to the line the scan stopped at: the conversion starts
    where the run of digits before index x - 1 begins, x being the first 'x'.
    The character at x - 1 itself is not tested.
  */
  function ParseLine(line: string): (d: Dims)
    requires ParseDefined(line)
    ensures exists r: nat :: RunStart(line, r, Find(line, Separator).value - 1) && d == ScanResolution(line[r..])
  {
    var x := Find(line, Separator).value;
    var r := WalkBack(line, x - 1);
    assert RunStart(line, r, x - 1);
    ScanResolution(line[r..])
  }

  /** The whole scan of lines 31-50. */
  function Probe(lines: seq<string>): (d: Dims)
    requires ProbeDefined(lines)
    ensures (forall k :: 0 <= k < |lines| ==> !StopsScan(lines[k])) ==> d == Unknown
  {
    var k := FirstStop(lines, 0);
    if k == |lines| then Unknown else ParseLine(lines[k])
  }

  /** `StopsScan` agrees with the plain reading of the condition on lines 38-40. */
  lemma StopsScanMeaning(line: string)
    ensures StopsScan(line)
        <==> Contains(line, StreamMarker) && Contains(line, VideoMarker) && 'x' in line
  {
    FindIsContains(line, StreamMarker);
    FindIsContains(line, VideoMarker);
    FindCharIsMember(line, 'x');
  }

  /** The scan stops at `k` exactly when no earlier line stops it and line `k`, if there is one, does. */
  lemma FirstStopIs(lines: seq<string>, k: nat)
    requires k <= |lines|
    requires forall j :: 0 <= j < k ==> !StopsScan(lines[j])
    requires k < |lines| ==> StopsScan(lines[k])
    ensures FirstStop(lines, 0) == k
  {
  }

  /** The first line that stops the scan alone decides the result. */
  lemma ProbeUsesFirstMatch(lines: seq<string>, k: nat)
    requires k < |lines| && StopsScan(lines[k]) && ParseDefined(lines[k])
    requires forall j :: 0 <= j < k ==> !StopsScan(lines[j])
    ensures ProbeDefined(lines) && Probe(lines) == ParseLine(lines[k])
  {
    FirstStopIs(lines, k);
  }

  /** Once a line stops the scan, lines after it never change the result. */
  lemma ProbeIgnoresLaterLines(lines: seq<string>, rest: seq<string>)
    requires ProbeDefined(lines)
    requires exists k :: 0 <= k < |lines| && StopsScan(lines[k])
    ensures ProbeDefined(lines + rest) && Probe(lines + rest) == Probe(lines)
  {
    var k := FirstStop(lines, 0);
    var all := lines + rest;
    assert forall j :: 0 <= j < |lines| ==> all[j] == lines[j];
    FirstStopIs(all, k);
  }

  /** A video stream line without any 'x' is passed over (lines 38-40). */
  lemma ProbeSkipsLineWithoutSeparator(line: string, rest: seq<string>)
    requires Contains(line, StreamMarker) && Contains(line, VideoMarker) && 'x' !in line
    requires ProbeDefined(rest)
    ensures ProbeDefined([line] + rest) && Probe([line] + rest) == Probe(rest)
  {
    StopsScanMeaning(line);
    var all := [line] + rest;
    var k := FirstStop(rest, 0);
    forall j | 0 < j <= |rest| ensures all[j] == rest[j - 1] {
    }
    FirstStopIs(all, k + 1);
  }

  /** The walk back stops exactly at the start of a maximal digit run. */
  lemma {:induction false} WalkBackOfRun(line: string, r: nat, s: nat)
    requires r <= s <= |line|
    requires forall k :: r <= k < s ==> IsDigit(line[k])
    requires r == 0 || !IsDigit(line[r - 1])
    ensures WalkBack(line, s) == r
    decreases s
  {
    if r < s {
      WalkBackOfRun(line, r, s - 1);
    }
  }

  /** Where the two numerals and the 'x' of `<digits>x<digits>` sit. */
  lemma ResolutionParts(dw: string, dh: string, post: string)
    requires |post| == 0 || !IsDigit(post[0])
    ensures OccursAt(dw + "x" + dh + post, dw, 0)
    ensures (dw + "x" + dh + post)[|dw|] == 'x'
    ensures OccursAt(dw + "x" + dh + post, dh, |dw| + 1)
    ensures |dw| + 1 + |dh| == |dw + "x" + dh + post| || !IsDigit((dw + "x" + dh + post)[|dw| + 1 + |dh|])
  {
    var s := dw + "x" + dh + post;
    assert s[..|dw|] == dw;
    assert s[|dw| + 1..|dw| + 1 + |dh|] == dh;
    if |post| > 0 {
      assert s[|dw| + 1 + |dh|] == post[0];
    }
  }

  /** `%dx%d` reads back a resolution written as `<digits>x<digits>`. */
  lemma ScanResolutionRoundTrip(dw: string, dh: string, post: string)
    requires |dw| > 0 && AllDigits(dw) && |dh| > 0 && AllDigits(dh)
    requires |post| == 0 || !IsDigit(post[0])
    ensures ScanResolution(dw + "x" + dh + post) == Dims(DecimalValue(dw), DecimalValue(dh))
  {
    var s := dw + "x" + dh + post;
    ResolutionParts(dw, dh, post);
    assert IsDigit(dh[0]);
    ScanIntReadsDigits(s, 0, dw);
    ScanIntReadsDigits(s, |dw| + 1, dh);
  }

  /** The first 'x' is the one at index `x` when no earlier character is an 'x'. */
  lemma FindFirstSeparator(line: string, x: nat)
    requires x < |line| && line[x] == 'x'
    requires forall k :: 0 <= k < x ==> line[k] != 'x'
    ensures Find(line, Separator) == Some(x)
  {
    assert OccursAt(line, Separator, x) by { assert line[x..x + 1] == Separator; }
    forall j: nat | j < x ensures !OccursAt(line, Separator, j) {
      OccursCharAt(line, 'x', j);
    }
    FindFirst(line, Separator, x);
  }

  /** `ParseLine` reads the resolution from the start of the digit run before the first 'x'. */
  lemma ParseLineFrom(line: string, start: nat, x: nat)
    requires 1 <= x && start <= x - 1 && Find(line, Separator) == Some(x)
    requires forall k :: start <= k < x - 1 ==> IsDigit(line[k])
    requires start == 0 || !IsDigit(line[start - 1])
    ensures ParseDefined(line) && ParseLine(line) == ScanResolution(line[start..])
  {
    WalkBackOfRun(line, start, x - 1);
  }

  lemma SplitAfterPrefix(pre: string, a: string, b: string, post: string)
    ensures (pre + a + "x" + b + post)[|pre|..] == a + "x" + b + post
    ensures forall k :: 0 <= k < |pre| ==> (pre + a + "x" + b + post)[k] == pre[k]
    ensures forall k :: 0 <= k < |a| + 1 ==> (pre + a + "x" + b + post)[|pre| + k] == (a + "x")[k]
  {
    var line := pre + a + "x" + b + post;
    var tail := a + "x" + b + post;
    assert |line| == |pre| + |tail|;
    forall k | 0 <= k < |tail| ensures line[|pre| + k] == tail[k] {
    }
  }

  /**
    A resolution written as `<digits>x<digits>` is read back exactly, when no
    'x' comes before it and neither digit run is glued to further digits.
  */
  lemma ParseLineRoundTrip(pre: string, dw: string, dh: string, post: string)
    requires |dw| > 0 && AllDigits(dw) && |dh| > 0 && AllDigits(dh)
    requires 'x' !in pre
    requires |pre| == 0 || !IsDigit(pre[|pre| - 1])
    requires |post| == 0 || !IsDigit(post[0])
    ensures ParseDefined(pre + dw + "x" + dh + post)
    ensures ParseLine(pre + dw + "x" + dh + post) == Dims(DecimalValue(dw), DecimalValue(dh))
  {
    var line := pre + dw + "x" + dh + post;
    SplitAfterPrefix(pre, dw, dh, post);
    var x := |pre| + |dw|;
    SeparatorAfterDigits(pre, dw, dh, post);
    FindFirstSeparator(line, x);
    assert |pre| == 0 || line[|pre| - 1] == pre[|pre| - 1];
    ParseLineFrom(line, |pre|, x);
    ScanResolutionRoundTrip(dw, dh, post);
  }

  /** In `pre + dw + "x" + ...`, the 'x' after the digits is the first one and only digits lie between `pre` and it. */
  lemma SeparatorAfterDigits(pre: string, dw: string, dh: string, post: string)
    requires AllDigits(dw) && 'x' !in pre
    ensures |pre| + |dw| < |pre + dw + "x" + dh + post|
    ensures (pre + dw + "x" + dh + post)[|pre| + |dw|] == 'x'
    ensures forall k :: 0 <= k < |pre| + |dw| ==> (pre + dw + "x" + dh + post)[k] != 'x'
    ensures forall k :: |pre| <= k < |pre| + |dw| ==> IsDigit((pre + dw + "x" + dh + post)[k])
  {
    var line := pre + dw + "x" + dh + post;
    SplitAfterPrefix(pre, dw, dh, post);
    forall k | 0 <= k < |pre| + |dw| ensures line[k] != 'x' && (|pre| <= k ==> IsDigit(line[k])) {
      if k < |pre| {
        assert line[k] == pre[k];
      } else {
        assert line[k] == (dw + "x")[k - |pre|] == dw[k - |pre|];
      }
    }
    assert line[|pre| + |dw|] == (dw + "x")[|dw|];
  }

  /** A line with both markers, in order, is a video stream line. */
  lemma MarkersMakeVideoLine(between: string, after: string)
    ensures IsVideoStreamLine("Stream #" + between + "Video:" + after)
  {
    var line := StreamMarker + between + VideoMarker + after;
    assert line == "" + StreamMarker + (between + VideoMarker + after);
    OccursInConcat("", StreamMarker, between + VideoMarker + after);
    OccursInConcat(StreamMarker + between, VideoMarker, after);
    FindIsContains(line, StreamMarker);
    FindIsContains(line, VideoMarker);
  }

  /** Extending a video stream line keeps it one. */
  lemma VideoLineExtends(pre: string, line: string)
    requires |pre| <= |line| && line[..|pre|] == pre
    requires IsVideoStreamLine(pre)
    ensures IsVideoStreamLine(line)
  {
    FindSpec(pre, StreamMarker);
    FindSpec(pre, VideoMarker);
    var s, v := Find(pre, StreamMarker).value, Find(pre, VideoMarker).value;
    assert line[s..s + |StreamMarker|] == pre[s..s + |StreamMarker|];
    assert line[v..v + |VideoMarker|] == pre[v..v + |VideoMarker|];
    assert OccursAt(line, StreamMarker, s) && OccursAt(line, VideoMarker, v);
    FindIsContains(line, StreamMarker);
    FindIsContains(line, VideoMarker);
  }

  /** The probe reads a resolution from a one-line diagnostic text built around it. */
  lemma ProbeLine(pre: string, dw: string, dh: string, post: string)
    requires |dw| > 0 && AllDigits(dw) && |dh| > 0 && AllDigits(dh)
    requires IsVideoStreamLine(pre) && 'x' !in pre
    requires |pre| > 0 && !IsDigit(pre[|pre| - 1])
    requires |post| == 0 || !IsDigit(post[0])
    ensures ProbeDefined([pre + dw + "x" + dh + post])
    ensures Probe([pre + dw + "x" + dh + post]) == Dims(DecimalValue(dw), DecimalValue(dh))
  {
    var line := pre + dw + "x" + dh + post;
    ParseLineRoundTrip(pre, dw, dh, post);
    SplitAfterPrefix(pre, dw, dh, post);
    assert line[..|pre|] == pre;
    VideoLineExtends(pre, line);
    ProbeUsesFirstMatch([line], 0);
  }

  /** The canonical numerals of a width and a height are read back as that width and height. */
  lemma ProbeOneLine(pre: string, width: nat, height: nat, post: string)
    requires IsVideoStreamLine(pre) && 'x' !in pre
    requires |pre| > 0 && !IsDigit(pre[|pre| - 1])
    requires |post| == 0 || !IsDigit(post[0])
    ensures ProbeDefined([pre + Decimal(width) + "x" + Decimal(height) + post])
    ensures Probe([pre + Decimal(width) + "x" + Decimal(height) + post]) == Dims(width, height)
  {
    ProbeLine(pre, Decimal(width), Decimal(height), post);
    DecimalRoundTrip(width);
    DecimalRoundTrip(height);
  }

  /**
    The first 'x' is taken even when it is not the resolution separator: a
    codec tag such as "0x31637661" ahead of the resolution yields width 0 and
    the tag's decimal digits as the height.
  */
  lemma ProbeCodecTagLine(pre: string, tag: string, post: string)
    requires |tag| > 0 && AllDigits(tag)
    requires IsVideoStreamLine(pre) && 'x' !in pre
    requires |pre| > 0 && !IsDigit(pre[|pre| - 1])
    requires |post| == 0 || !IsDigit(post[0])
    ensures ProbeDefined([pre + "0x" + tag + post])
    ensures Probe([pre + "0x" + tag + post]) == Dims(0, DecimalValue(tag))
  {
    ProbeLine(pre, "0", tag, post);
    assert pre + "0" + "x" == pre + "0x";
    assert DecimalValue("0") == 0 by {
      assert NumeralValue("0", 0, 1) == NumeralValue("0", 0, 0) * 10 + DigitValue('0');
    }
  }

  /** The part of the typical line that precedes the resolution. */
  const TypicalPrefix: string := "Stream #0:0: Video: h264, yuv420p, "

  lemma TypicalPrefixIsVideoLine()
    ensures IsVideoStreamLine(TypicalPrefix)
  {
    MarkersMakeVideoLine("0:0: ", " h264, yuv420p, ");
    TypicalPrefixParts();
  }

  lemma TypicalPrefixParts()
    ensures TypicalPrefix == "Stream #" + "0:0: " + "Video:" + " h264, yuv420p, "
  {
  }

  lemma TypicalPrefixEnds()
    ensures 'x' !in TypicalPrefix
    ensures |TypicalPrefix| > 0 && !IsDigit(TypicalPrefix[|TypicalPrefix| - 1])
  {
  }

  lemma TypicalSplit(post: string)
    ensures TypicalPrefix + "640" + "x" + "480" + post == "Stream #0:0: Video: h264, yuv420p, 640x480" + post
  {
  }

  /** A typical ffmpeg stream line, "Stream #0:0: Video: h264, yuv420p, 640x480, ...", yields 640x480. */
  lemma TypicalLine(post: string)
    requires |post| == 0 || !IsDigit(post[0])
    ensures ProbeDefined(["Stream #0:0: Video: h264, yuv420p, 640x480" + post])
    ensures Probe(["Stream #0:0: Video: h264, yuv420p, 640x480" + post]) == Dims(640, 480)
  {
    TypicalPrefixIsVideoLine();
    TypicalPrefixEnds();
    ThreeDigits('6', '4', '0');
    ThreeDigits('4', '8', '0');
    ProbeLine(TypicalPrefix, "640", "480", post);
    TypicalSplit(post);
  }

  lemma ThreeDigits(a: char, b: char, c: char)
    requires IsDigit(a) && IsDigit(b) && IsDigit(c)
    ensures AllDigits([a, b, c])
    ensures DecimalValue([a, b, c]) == DigitValue(a) * 100 + DigitValue(b) * 10 + DigitValue(c)
  {
    var d := [a, b, c];
    assert NumeralValue(d, 0, 1) == DigitValue(a);
    assert NumeralValue(d, 0, 2) == DigitValue(a) * 10 + DigitValue(b);
  }

  /**
    A width conversion that fails leaves both dimensions 0: the scan stops at
    a line whose first 'x' has neither a digit before it nor a digit before
    that, as in "Video: (x" or "Video: -x".
  */
  lemma ParseLineNoWidth(line: string, x: nat)
    requires x >= 1 && Find(line, Separator) == Some(x)
    requires !IsDigit(line[x - 1]) && (x < 2 || !IsDigit(line[x - 2]))
    ensures ParseDefined(line) && ParseLine(line) == Unknown
  {
    FindSpec(line, Separator);
    assert line[x..x + 1] == Separator;
    ParseLineFrom(line, x - 1, x);
    NoWidthBeforeSeparator(line[x - 1..]);
  }

  /** `%dx%d` fails at once on a non-digit followed by 'x': no white space, sign and digits can fit. */
  lemma NoWidthBeforeSeparator(t: string)
    requires |t| >= 2 && !IsDigit(t[0]) && t[1] == 'x'
    ensures ScanInt(t, 0).None? && ScanResolution(t) == Unknown
  {
    var start := SkipSpaces(t, 0);
    assert start <= 1;
    assert DigitsEnd(t, SignEnd(t, start)) == SignEnd(t, start);
  }

  /** A width that is read but not followed by 'x' comes with height 0, as for "1280 x720". */
  lemma ScanResolutionWidthOnly(dw: string, post: string)
    requires |dw| > 0 && AllDigits(dw)
    requires |post| == 0 || (post[0] != 'x' && !IsDigit(post[0]))
    ensures ScanResolution(dw + post) == Dims(DecimalValue(dw), 0)
  {
    var s := dw + post;
    assert s[..|dw|] == dw;
    assert |post| > 0 ==> s[|dw|] == post[0];
    ScanIntReadsDigits(s, 0, dw);
  }

  /** No line stops the scan: the probe is defined and reports 0x0. */
  lemma NoStopProbe(lines: seq<string>)
    requires forall k :: 0 <= k < |lines| ==> !StopsScan(lines[k])
    ensures ProbeDefined(lines) && Probe(lines) == Unknown
  {
    FirstStopIs(lines, |lines|);
  }

  /** The first stopping line has no width before its first 'x': the probe reports 0x0. */
  lemma ProbeNoWidth(lines: seq<string>, k: nat)
    requires k < |lines| && StopsScan(lines[k])
    requires forall j :: 0 <= j < k ==> !StopsScan(lines[j])
    requires Find(lines[k], Separator).value >= 1
    requires !IsDigit(lines[k][Find(lines[k], Separator).value - 1])
    requires Find(lines[k], Separator).value < 2 || !IsDigit(lines[k][Find(lines[k], Separator).value - 2])
    ensures ProbeDefined(lines) && Probe(lines) == Unknown
  {
    ParseLineNoWidth(lines[k], Find(lines[k], Separator).value);
    ProbeUsesFirstMatch(lines, k);
  }
}
