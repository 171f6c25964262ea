# StreetRecorder capture core in Dafny

StreetRecorder is a Kinect v2 recorder. Its window class `MainWindow` gets
depth frames and color frames from the sensor through two arrival callbacks.
This project models what that class does with each frame:

- **Depth conversion.** A depth frame whose geometry checks out is converted in
  place into the byte buffer `depthPixels`. Each 16-bit sample inside the
  reliable range `[minDepth, maxDepth]` becomes `(byte)(depth / 31)`, an
  unchecked cast, so the value wraps modulo 256. Any other sample becomes 0.
  The handler always passes `maxDepth = ushort.MaxValue`.
- **Color copy.** A color frame whose width and height equal the bitmap's
  replaces the bitmap's back buffer.
- **Write cadence.** Each stream has a counter with `WRITE_TIMER = 30`.
  - The depth counter is tested with `>= 30` and moves only on processed
    frames.
  - The color counter is tested with `== 30` and moves on every callback,
    including null frames and frames of the wrong size.
  - When the test fires, the handler saves an image and resets the counter to
    0. The counter is incremented afterwards in both handlers.
- **Persistence.**
  - Images are named `folder + "Depth-"/"Color-" + time + ".png"`.
  - `time` uses the .NET custom pattern `MMddyyyy'_'hh'-'mm'-'ss'.'ff`.
  - Every depth write is followed by one append of two lines to `GPSLog.txt`.

Modules, one per component:

- `wrappers.dfy` (`Wrappers`): an `Option` type that works with `:-`.
- `depth_conversion.dfy` (`DepthConversion`): the `byte` and `ushort` types,
  the per-pixel `Intensity` and the whole-image `Converted`.
- `cadence.dfy` (`Cadence`): the two counter updates (`DepthTick`,
  `ColorTick`) and their runs from 0 (`DepthRun`, `ColorRun`). It also gives a
  closed form, `CounterAfter`/`WritesAfter`, and the set of write arrivals,
  `IsWriteArrival` (arrivals 31, 61, 91, …).
- `date_format.dfy` (`DateFormat`): `Format` for timestamps, and `Parse`, its
  inverse on the fields the pattern shows.
- `persistence.dfy` (`Persistence`): the folder constants, image paths and
  the GPS log entry, each with a function that reads it back.
- `capture.dfy` (`Capture`): class `MainWindow`.
  - Its fields are the two buffers (`depthPixels`, `colorPixels`), the two
    counters, and what reaches the disk: the sequence of image saves (`depthFiles`,
    `colorFiles`) and the lines of the GPS log (`gpsLog`).
  - Its methods are the two arrival handlers, the conversion loop and the
    three writers.
  - `Valid()` ties each counter and each write count to the closed form, over
    the processed depth frames or over all color callbacks. It also says the
    GPS log holds its earlier content plus two lines per depth image.

Some of this behaviour is easy to misread:

- **First writes.** The first depth image is saved on the 31st processed
  frame, then on every 30th frame after that. The color counter follows the
  same rule, but it counts callbacks, not valid frames. `FirstWrites` proves
  that 30 arrivals write nothing and the 31st writes once.
- **Color writes do not need a copy.** A color write happens even when that
  callback copied nothing. In that case it saves the previous frame's
  pixels, or the initial black bitmap.
- **Name collisions.** `hh` prints the hour on a 12-hour clock and the
  pattern has no AM/PM field. A morning time and the afternoon time twelve
  hours later on the same date therefore get the same name
  (`HalfDayApartFormatAlike`), and so do times in the same hundredth of a
  second (`SameHundredthFormatAlike`). Names are unique only among
  timestamps that show different fields (`ImagePathsEqualIff`).
- **Wrap-around.** Intensity is not monotone over the full range. It wraps to
  0 at 7936 mm (`WrapsAtWrapDepth`). Below that point it is monotone
  (`MonotoneBelowWrapDepth`).

## Model

| member | source | states |
|---|---|---|
| `DepthConversion.ScaleConstants` | StreetRecorder/MainWindow.xaml.cs:42 | DEPTH_TO_BYTE is the integer quotient 8000/256 = 31, so the byte range is exhausted at 256*31 = 7936 |
| `DepthConversion.ToByte` | StreetRecorder/MainWindow.xaml.cs:232 | the unchecked (byte) cast leaves values 0..255 alone and otherwise keeps the value modulo 256 |
| `DepthConversion.IntensityValue` | StreetRecorder/MainWindow.xaml.cs:232 | a sample d with minDepth <= d <= maxDepth becomes (d / 31) mod 256; any other sample becomes 0 |
| `DepthConversion.FullRangeIgnoresUpperBound` | StreetRecorder/MainWindow.xaml.cs:122-125 | with maxDepth = ushort.MaxValue the upper test never fails: a pixel is 0 when d < minDepth and the wrapped d / 31 otherwise |
| `DepthConversion.NoWrapBelowWrapDepth` | StreetRecorder/MainWindow.xaml.cs:232 | for a reliable sample below 7936 the cast does not truncate: the pixel p satisfies 31p <= d < 31(p+1) |
| `DepthConversion.MonotoneBelowWrapDepth` | StreetRecorder/MainWindow.xaml.cs:232 | within the reliable range and below 7936, a larger depth never gives a smaller intensity |
| `DepthConversion.WrapsAtWrapDepth` | StreetRecorder/MainWindow.xaml.cs:232 | with the full upper bound, depth 7935 gives 255 and depth 7936 gives 0: the mapping wraps |
| `DepthConversion.ConstantThousandFrame` | StreetRecorder/MainWindow.xaml.cs:225-233 | a frame of constant 1000 mm with bounds [0, 65535] converts to an image of constant 32 |
| `DepthConversion.Converted` | StreetRecorder/MainWindow.xaml.cs:225-233 | the converted image has one pixel per sample, and pixel i is the intensity of sample i |
| `Cadence.CounterAfter` | StreetRecorder/MainWindow.xaml.cs:56-57 | the counter after n counted arrivals lies in [0, 30], and it is 0 only before the first arrival |
| `Cadence.WritesAfter` | StreetRecorder/MainWindow.xaml.cs:31 | fewer than one write per 30 counted arrivals: writes * 30 < n |
| `Cadence.ClosedFormStep` | StreetRecorder/MainWindow.xaml.cs:136-142 | the counter is 30 exactly before a write arrival; the next counter is 1 after a write and one more otherwise; the write count grows by one exactly on write arrivals |
| `Cadence.DepthTickStep` | StreetRecorder/MainWindow.xaml.cs:136-142 | the >= test, reset and increment, applied to the closed-form counter, write exactly on arrival numbers 31, 61, … and yield the next closed-form counter |
| `Cadence.ColorTickStep` | StreetRecorder/MainWindow.xaml.cs:173-178 | the == test, reset and increment, applied to the closed-form counter, write exactly on arrival numbers 31, 61, … and yield the next closed-form counter |
| `Cadence.DepthRunClosedForm` | StreetRecorder/MainWindow.xaml.cs:136-142 | after n processed depth frames from the initial 0, the counter is (n-1) mod 30 + 1 and (n-1) / 30 images have been written |
| `Cadence.ColorRunClosedForm` | StreetRecorder/MainWindow.xaml.cs:173-178 | after n color callbacks from the initial 0, the counter and the write count follow the same closed form |
| `Cadence.TicksAgreeWithinBound` | StreetRecorder/MainWindow.xaml.cs:173 | while the counter stays in [0, 30], testing with == behaves exactly like testing with >=, so == never misses a threshold |
| `Cadence.ColorTickStallsAboveTimer` | StreetRecorder/MainWindow.xaml.cs:173 | if the color counter ever exceeded 30, the == test would never fire again; the [0, 30] bound is what keeps color writes going |
| `Cadence.FirstWrites` | StreetRecorder/MainWindow.xaml.cs:136-142 | 30 arrivals write nothing and leave the counter at 30; the 31st writes once and leaves it at 1; the 61st writes the second image (both streams) |
| `Cadence.WriteArrivalsEveryThirty` | StreetRecorder/MainWindow.xaml.cs:31 | no write among the first 30 arrivals; write arrivals repeat with period 30; no write between two consecutive write arrivals |
| `DateFormat.Hour12` | StreetRecorder/MainWindow.xaml.cs:29 | "hh" shows an hour in 1..12 that agrees with the 24-hour hour modulo 12 |
| `DateFormat.ShownFields` | StreetRecorder/MainWindow.xaml.cs:29 | every field the pattern shows fits its zero-padded width (two digits, four for the year) |
| `DateFormat.Format` | StreetRecorder/MainWindow.xaml.cs:264 | a formatted time is always 20 characters long |
| `DateFormat.ParseRender` | StreetRecorder/MainWindow.xaml.cs:29 | reading a rendered MMddyyyy_hh-mm-ss.ff string back yields exactly the fields it was rendered from |
| `DateFormat.RenderParse` | StreetRecorder/MainWindow.xaml.cs:29 | every string the reader accepts is the rendering of the fields it reads |
| `DateFormat.FormatRoundTrip` | StreetRecorder/MainWindow.xaml.cs:29 | the separators '_', '-', '-', '.' are at positions 8, 11, 14, 17, and the formatted time reads back to month, day, year, 12-hour hour, minute, second and hundredths |
| `DateFormat.FormatEqualIff` | StreetRecorder/MainWindow.xaml.cs:29 | two times format to the same string if and only if they show the same fields |
| `DateFormat.HalfDayApartFormatAlike` | StreetRecorder/MainWindow.xaml.cs:29 | with no AM/PM designator, a morning time and the afternoon time twelve hours later on the same date format identically |
| `DateFormat.SameHundredthFormatAlike` | StreetRecorder/MainWindow.xaml.cs:29 | "ff" truncates: two times in the same hundredth of a second format identically |
| `Persistence.ImagePath` | StreetRecorder/MainWindow.xaml.cs:266 | an image path is the folder, the prefix, the 20-character time and ".png" laid end to end |
| `Persistence.ImagePathRoundTrip` | StreetRecorder/MainWindow.xaml.cs:298 | an image path starts with its folder and prefix, ends with ".png", and the middle reads back to the time's shown fields |
| `Persistence.ImagePathsEqualIff` | StreetRecorder/MainWindow.xaml.cs:264-266 | two images of a stream get the same file name exactly when their times show the same fields; otherwise FileMode.Create cannot overwrite one with the other |
| `Persistence.DepthAndColorPathsDiffer` | StreetRecorder/MainWindow.xaml.cs:20-24 | a depth image path never equals a color image path: the Depth and Color folders differ |
| `Persistence.GpsEntryRoundTrip` | StreetRecorder/MainWindow.xaml.cs:320-325 | a GPS entry is two lines, and the first is "Time: " followed by the time, which reads back to its shown fields |
| `Capture.PixelsWithinSamples` | StreetRecorder/MainWindow.xaml.cs:222-225 | with at least two bytes per pixel, the loop bound size / bytesPerPixel never exceeds the number of 16-bit samples in the buffer |
| `Capture.MainWindow.constructor` | StreetRecorder/MainWindow.xaml.cs:81-89 | the depth buffer gets width*height bytes, the color bitmap width*height*4, and every byte of both is 0 (a new byte array, a black bitmap), so the first color image saved before any frame is copied is black; both counters start at 0, nothing has been written, and the GPS log keeps its earlier content |
| `Capture.MainWindow.GeometryFixesLoopBound` | StreetRecorder/MainWindow.xaml.cs:119-120 | when the depth check passes, the loop bound size / bytesPerPixel equals depthPixels.Length and every index it reads is in the frame |
| `Capture.MainWindow.ProcessDepthFrame` | StreetRecorder/MainWindow.xaml.cs:219-234 | the first size / bytesPerPixel pixels become the converted samples, in place; the pixels beyond them are unchanged |
| `Capture.MainWindow.WriteDepth` | StreetRecorder/MainWindow.xaml.cs:253-282 | exactly one image is added: the current depth pixels, at Depth\Depth-time.png under the UTC time |
| `Capture.MainWindow.WriteColor` | StreetRecorder/MainWindow.xaml.cs:286-314 | exactly one image is added: the current color bitmap, at Color\Color-time.png under the local time |
| `Capture.MainWindow.WriteGps` | StreetRecorder/MainWindow.xaml.cs:318-327 | the log becomes its old lines followed by the two entry lines; nothing earlier is erased |
| `Capture.MainWindow.DepthFrameArrived` | StreetRecorder/MainWindow.xaml.cs:107-144 | a frame is processed exactly when it is present and passes the three geometry tests. Then every pixel is the converted sample with upper bound 65535, and the counter takes the >= step. A write (image, then GPS entry) happens exactly on processed frames 31, 61, …. A dropped frame changes no pixel, counter, image or log line. The color state never changes |
| `Capture.MainWindow.ColorFrameArrived` | StreetRecorder/MainWindow.xaml.cs:151-179 | the back buffer is replaced by the frame's BGRA bytes exactly when the frame is present with the bitmap's width and height, and is untouched otherwise. On every call the counter takes the == step, and a color image is written exactly on calls 31, 61, …. The GPS log and the depth state never change |
| `Capture.MainWindow.CountProcessedDepthFrame` | StreetRecorder/MainWindow.xaml.cs:136-142 | for a processed frame, the >= test fires exactly on processed frames 31, 61, …; then one depth image and one two-line GPS entry are appended, the counter restarts, and the counters keep the closed form with the log two lines per image |
| `Capture.MainWindow.CountColorArrival` | StreetRecorder/MainWindow.xaml.cs:173-178 | on every color call, the == test fires exactly on calls 31, 61, …; then one color image of the current back buffer is appended and the counter restarts; the counter and write count keep the closed form |

## Left out

- Sensor lifecycle: `KinectSensor.GetDefault`, `OpenReader`, `Open`, the event subscription, `AcquireFrame`, `LockImageBuffer`/`LockRawImageBuffer` and the `using` disposals are not modelled. A frame is a handler parameter, and a frame that could not be acquired is `None`.
- Unsafe pointer access: the `ushort*` view of the locked buffer is the sample sequence, and the buffer's `Size` is two bytes per sample. The loop reads `size / BytesPerPixel` samples, which stays inside the buffer only with at least two bytes per pixel. The constructor therefore requires `bytesPerPixel >= 2`, which a 16-bit depth stream satisfies.
- `ProcessDepthFrameData` (lines 193-208) is never called and has exactly the body of `ProcessDepthFrame`. `Capture.MainWindow.ProcessDepthFrame` models both.
- Rendering: `RenderDepthPixels`/`WritePixels` copies `depthPixels` into the depth bitmap unchanged, so a saved depth image is modelled as `depthPixels`. `Lock`/`Unlock` and `AddDirtyRect` only affect display and are not modelled.
- `CopyConvertedFrameDataToIntPtr` is a sensor-side conversion. It is modelled as replacing the back buffer with the BGRA bytes the frame carries. The handler requires those bytes to number width*height*4, as the conversion guarantees.
- PNG encoding and file I/O are not modelled. An image file is its path plus the pixels that were saved. A write always succeeds: the `IOException` that `WriteDepth`/`WriteColor` swallow (leaving no file) is not modelled, nor is an exception escaping `WriteGPS`, which has no handler.
- Calendar: `ToString` formats with `CultureInfo.CurrentUICulture`, whose calendar decides the year, month and day shown by `yyyy`, `MM` and `dd`. The model assumes a culture whose calendar is the Gregorian one; under, say, the Thai Buddhist or Um Al-Qura calendar the displayed fields differ.
- File replacement: `FileMode.Create` replaces an existing file with the same path, and paths recur (a morning time and the afternoon time twelve hours later on the same date, or two times in the same hundredth of a second). `depthFiles` and `colorFiles` are the sequence of save events and do not merge a save into an earlier one with the same path, so they do not give the set of files left on disk.
- Log lines are modelled as strings; the line terminator `WriteLine` adds is not represented.
- Clocks: `DateTime.UtcNow` (depth image) and `DateTime.Now` (color image and GPS log) become timestamp parameters. The relation between them (time zone) is not modelled.
- Coordinates: `GPSHandler.getCoords` is a stub returning doubles. Their `ToString` forms are opaque string parameters. GPSHandler.cs and FrameData.cs (an unused holder of bitmaps and doubles) are not part of this model.
- Concurrency: the sensor may raise depth and color callbacks concurrently. Each handler is modelled as one sequential method call, and the two streams share no field.
- Integer width: `width * height` (C# int), the `(int)` cast of the loop bound and the `(uint)` copy length are taken as exact. They cannot overflow at the sensor's resolutions. The counters stay within [0, 30], so they never overflow.
- `InitializeComponent` and the window itself (WPF) are not modelled.
