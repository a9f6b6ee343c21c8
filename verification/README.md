# raylib-ffmpeg-video: a Dafny model of the player core

This project models the decision logic of `main.c`, a small video player.
The player asks an external decoder (ffmpeg) for a description of the input file.
It recovers the frame resolution from the decoder's diagnostic lines.
It then reads raw RGBA frames from a second decoder pipe and draws each one in a window.
Each frame is centred on the mouse pointer, inside a grey border.
The mouse wheel changes the zoom between 0.5 and 1.0.

Modules, following the program's structure:

- `Wrappers`: the `Option` type.
- `CText`: the C library pieces the probe relies on. These are `isdigit`,
  `isspace`, `strstr` and the `%d` conversion of `sscanf`, stated over strings.
- `Prober`: the resolution scan (lines 31-50). It finds the first line with
  "Stream #", "Video:" and an 'x'. It starts at the character just before
  that first 'x', without testing it, and walks back over the digits that
  precede it. From there it reads `%dx%d` into a width and a height that
  start at 0. So "1280x720" gives 1280x720, but "1280 x720" gives 1280x0.
- `Frames`: the frame size in bytes (line 65) with its `unsigned int` wrap-around.
  It also covers the row-major RGBA pixel layout and the fixed-size `fread` of
  lines 107-116, which cuts the decoder output into frames.
- `Zoom`: the zoom factor (lines 86 and 94-100). It starts at 0.75 and moves by
  a tenth of the wheel delta in cycles where the wheel moved. It is then clamped
  to at least 0.5 and at most 1.0.
- `Layout`: the destination rectangle, centred on the pointer with C's truncating
  `/ 2` (lines 122-123). Also the border rectangle, 5 px larger on every side (line 130).
- `Player`: the main loop (lines 92-139) and the whole program.
  - The window's lifetime is a finite sequence of input cycles (`Tick`s);
    `WindowShouldClose` becomes true once they are used up.
  - The decoder output is the finite byte sequence it delivers before end of
    file or an error.
  - The float fit-to-window scale is a parameter `destSize` that maps a zoom
    factor to the truncated destination size.

Where the code and the intended design differ, the model follows the code.
- Nothing rejects a probed width or height of 0. The probe reports 0x0 when
  no diagnostic line matches (`Prober.NoStopProbe`), or when the width
  conversion fails on the line that matches (`Prober.ProbeNoWidth`). A width
  of 0 can also come from a codec tag, as described below.
- Whenever a dimension is 0, `frame_size` is 0, so every `fread` is complete.
- The loop then ends only when the window closes, drawing an empty frame every cycle.
- `Player.Run` states this outcome for the case where no line matches.

The first 'x' of a matching line is taken even when it is not the resolution's separator.
ffmpeg prints codec tags such as "(avc1 / 0x31637661)" before the resolution on some inputs.
`Prober.ProbeCodecTagLine` states what the scan returns then: width 0, and the
tag's digits read as a decimal height.

## Model

| member | source | states |
|---|---|---|
| `CText.Find` | main.c:38-39 | `strstr` never returns a position whose pattern would run past the end of the line |
| `CText.FindSpec` | main.c:38-39 | `strstr`: a result is an occurrence of the pattern with no earlier one, and no result means the pattern occurs nowhere |
| `CText.FindIsContains` | main.c:38 | the non-null test of `strstr` is exactly "the line contains the marker" |
| `CText.FindCharIsMember` | main.c:39 | `strstr(line, "x")` is non-null exactly when 'x' is a character of the line |
| `CText.FindFirst` | main.c:39 | an occurrence with no earlier occurrence is the one `strstr` returns |
| `CText.SkipSpaces` | main.c:46 | `%d` skips exactly the maximal run of white space at the read position |
| `CText.DigitsEnd` | main.c:46 | `%d` consumes exactly the maximal run of digits after the optional sign |
| `CText.ScanInt` | main.c:46 | a successful `%d` consumes at least one character, ends on a digit, and is not followed by another digit |
| `CText.ScanIntReadsDigits` | main.c:46 | `%d` reads an unsigned numeral that no further digit follows as its decimal value, and stops just after it |
| `CText.ScanIntReadsNegative` | main.c:46 | `%d` reads a minus sign followed by a numeral as the negated value |
| `CText.ScanIntReadsDecimal` | main.c:46 | `%d` inverts decimal printing: the canonical numeral of `n` is read back as `n` |
| `CText.DecimalRoundTrip` | main.c:46 | the decimal value of the canonical numeral of `n` is `n` |
| `Prober.WalkBack` | main.c:41-44 | the walk starts at the index just before the 'x' and moves back over the maximal digit run before that index, stopping at its start or at the start of the line |
| `Prober.WalkBackOfRun` | main.c:41-44 | whenever `r` starts a maximal digit run ending at `s`, the walk from `s` stops exactly at `r` |
| `Prober.FirstStop` | main.c:35-40 | the scan stops at the first line that has both markers and an 'x', or runs out when none has |
| `Prober.FirstStopIs` | main.c:35-40 | the stopping index is unique: any index with no stopping line before it and a stopping line at it is the one the scan finds |
| `Prober.Probe` | main.c:31-50 | when no line has both markers and an 'x', the result is the initial 0x0 |
| `Prober.NoStopProbe` | main.c:31-50 | a text with no stopping line always has a defined scan, and the scan gives 0x0 |
| `Prober.ProbeNoWidth` | main.c:31-50 | a first stopping line whose width conversion fails gives 0x0 |
| `Prober.StopsScanMeaning` | main.c:38-40 | the scan stops at a line exactly when it contains "Stream #", "Video:" and an 'x' |
| `Prober.ProbeUsesFirstMatch` | main.c:35-47 | the first stopping line alone decides the result, whatever the lines before it that do not stop the scan |
| `Prober.ProbeIgnoresLaterLines` | main.c:35-50 | lines after a stopping line never change the result |
| `Prober.ProbeSkipsLineWithoutSeparator` | main.c:38-40 | a video stream line without an 'x' is passed over: the result is that of the remaining lines |
| `Prober.FindFirstSeparator` | main.c:39 | the 'x' found is the first one in the line |
| `Prober.ParseLineFrom` | main.c:39-46 | the parse reads `%dx%d` from the start of the digit run before index x - 1, whatever the character at x - 1 is |
| `Prober.ScanResolution` | main.c:46 | `%dx%d` into two zeroed variables: a failed width conversion leaves 0x0, a successful one stores the width, and a height is stored only after a width that is followed by 'x' |
| `Prober.ScanResolutionWidthOnly` | main.c:46 | a width not followed by 'x', as in "1280 x720", is read with height 0 |
| `Prober.ParseLine` | main.c:39-46 | the stopping line is parsed from the start of the maximal digit run before index x - 1, x being its first 'x' |
| `Prober.NoWidthBeforeSeparator` | main.c:46 | `%dx%d` fails at once on a non-digit followed by 'x', leaving 0x0 |
| `Prober.ParseLineNoWidth` | main.c:39-46 | when neither of the two characters before the first 'x' is a digit, the width conversion fails and the line yields 0x0 |
| `Prober.ScanResolutionRoundTrip` | main.c:46 | `%dx%d` reads back `<digits>x<digits>` as the two decimal values when no further digit follows |
| `Prober.ParseLineRoundTrip` | main.c:39-46 | a resolution written as `<digits>x<digits>`, with no earlier 'x' and no digit glued on either side, is read back exactly |
| `Prober.MarkersMakeVideoLine` | main.c:38 | a line with "Stream #" and then "Video:" passes the marker test |
| `Prober.VideoLineExtends` | main.c:38 | extending a line that passes the marker test keeps it passing |
| `Prober.ProbeLine` | main.c:31-50 | a one-line diagnostic text built around `<digits>x<digits>` probes to those two values |
| `Prober.ProbeOneLine` | main.c:31-50 | printing a width and height in decimal into such a line and probing it gives them back |
| `Prober.ProbeCodecTagLine` | main.c:39-46 | a codec tag "0x<digits>" before the resolution is taken for it: width 0 and the tag's digits as height |
| `Prober.TypicalLine` | main.c:37-46 | the line "Stream #0:0: Video: h264, yuv420p, 640x480..." probes to 640x480 |
| `Frames.FrameSize` | main.c:65 | the byte count is below 2^32 and a multiple of 4; it is width·height·4 for non-negative dimensions, and 0 exactly when a dimension is 0 |
| `Frames.PixelInFrame` | main.c:65-77 | every channel of every pixel of a row-major RGBA image lies inside a buffer of `frame_size` bytes |
| `Frames.PixelInFrameBuffer` | main.c:65-77 | every channel of every pixel lies below the `frame_size` computed on line 65 |
| `Frames.PixelOfOffset` | main.c:65-77 | every byte of the buffer belongs to some pixel channel, so the buffer has no padding |
| `Frames.PixelOffsetInjective` | main.c:65-77 | no two pixel channels share a byte |
| `Frames.Fread` | main.c:107 | a read returns a prefix of what is left of the stream, and is short only at the end of the stream |
| `Frames.NextFrame` | main.c:107-116 | a full frame is read exactly when `frame_size` bytes remain; otherwise the read is short and its bytes are dropped |
| `Frames.FramesFrom` | main.c:107-116 | successive reads yield no frame exactly when less than a frame is left, and every frame they yield is full |
| `Frames.FramesFromReads` | main.c:107-116 | the frame sequence is the sequence of successive full reads, ending at the first short read |
| `Frames.FramesFromCount` | main.c:107-116 | reads stop with less than one frame's worth of bytes left |
| `Frames.StreamFrames` | main.c:107-116 | an n-byte stream yields exactly n / frame_size frames, and frame k is bytes k·size up to (k+1)·size of the stream |
| `Frames.FramesCoverStream` | main.c:107-116 | the frames laid end to end are exactly a prefix of the stream: no byte is skipped or repeated, and less than one frame is left over |
| `Frames.TwoFrameStream` | main.c:65-116 | a 2x1 frame is 8 bytes, and a 16-byte stream gives two full reads and then a short one |
| `Zoom.Clamp` | main.c:98-99 | the clamped factor is in [0.5, 1.0], unchanged if already in range, and the closest in-range value to the input |
| `Zoom.Update` | main.c:94-100 | a cycle without wheel movement keeps the factor; otherwise the result is in range and is the in-range value closest to the factor plus a tenth of the delta |
| `Zoom.After` | main.c:92-100 | once any cycle has moved the wheel, the factor is in [0.5, 1.0], whatever it started at |
| `Zoom.AfterStaysInRange` | main.c:86-100 | from an in-range start, the factor stays in [0.5, 1.0] after any sequence of cycles |
| `Zoom.StillWheelKeepsZoom` | main.c:94-96 | cycles without wheel movement never change the factor |
| `Zoom.WheelExample` | main.c:86-100 | wheel deltas +2, -5, +1 from 0.75 give 0.95, 0.5 and 0.6 |
| `Layout.Half` | main.c:122-123 | C's `/ 2` truncates toward zero: the remainder is at most 1 in size and has the sign of the dividend |
| `Layout.ImageRect` | main.c:122-123 | the image has the destination size, its middle is under the pointer (to within the half pixel lost by truncation), and the pointer lies inside it |
| `Layout.BorderRect` | main.c:130 | the border extends the image by exactly 5 px on every side |
| `Player.ZoomStep` | main.c:94-100 | the factor in force in cycle i is the previous one updated by that cycle's wheel delta, and it is in range |
| `Player.Play` | main.c:92-139 | cycle k draws frame k of the stream at the factor the wheel has set and centred on the pointer. A short read ends the loop without drawing, and the stream then held exactly n / frame_size frames. At most one frame is drawn per cycle. The loop closes only with the window when the frame size is 0 |
| `Player.ShownIsStreamFrame` | main.c:107-119 | what cycle k shows is frame k of the stream as successive reads deliver it |
| `Player.DrawnAreStreamFrames` | main.c:92-119 | the frames drawn are the first frames of the stream, in order |
| `Player.Run` | main.c:31-139 | the program uses the probed resolution and draws frames of width·height·4 bytes. Cycle k shows frame k of the stream at the zoom and position its input asks for, and at most one frame is drawn per cycle. A short read leaves exactly n / frame_size frames drawn. When no line matches, it runs until the window closes and draws empty frames |

## Left out

- Process and pipe handling: `popen` and `pclose` with their command lines, and the error exits when a pipe cannot be opened. The diagnostic text is given as a sequence of lines, and the frame stream as a byte sequence.
- `fgets` splitting a line longer than 1023 bytes into pieces, and embedded NUL bytes. Each element of `lines` is one piece as `fgets` returns it.
- The difference between end of file and a read error after a short read. Both end the loop the same way; the `perror` message is output only.
- All raylib calls: the window, the texture upload, clearing, colours and drawing. The model records what each cycle would draw (`Drawn`).
- The float fit-to-window scale and the float-to-int truncations of lines 82-90 and 103-104. They become the `destSize` parameter of `Player.Play`. The unused `dest_width` and `dest_height` of lines 89-90 have no effect.
- Zoom.Update: computes over `real`, not `float`, so the rounding of `wheel * 0.1f` is not modelled. The clamp bounds are exact in both, so the range property is unaffected.
- `%d` overflow (undefined behaviour in C): the model reads unbounded integers. `Player.Run` requires the probed values and their products to fit an `int`, and `Frames.FrameSize` requires the same.
- A stopping line whose first 'x' is its first character: the source would read before the line buffer (undefined behaviour), so `ProbeDefined` excludes it.
- `isdigit` on negative `char` values: the model's characters are never negative.
- Integer overflow of the pointer and rectangle arithmetic of lines 122-130: the model's integers are unbounded.
- `MemAlloc` and `free`: memory management has no observable effect on what is drawn.
- The fit-to-window scale for a 0x0 resolution: lines 82-90 then compute 0 times 800.0f/0, which is NaN, and convert it to `int`, which is undefined behaviour in C. The `destSize` parameter can return any size, so the model does not distinguish this case.
