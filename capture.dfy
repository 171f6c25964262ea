/**
 * The capture window: it owns the depth intensity buffer and the color
 * bitmap's back buffer, converts every valid depth frame in place, copies
 * every color frame of the right size, and every thirty frames saves an
 * image (and, for depth, a GPS log entry).
 *
 * What reaches the disk is modelled by three fields: the sequence of depth
 * and color image saves, in order, and the lines of GPSLog.txt.
 */
module Capture {
  import opened Wrappers
  import opened DepthConversion
  import opened Cadence
  import opened DateFormat
  import opened Persistence

  /** Geometry a sensor stream advertises once (FrameDescription); a pixel takes at least one byte. */
  datatype FrameDescription = FrameDescription(width: nat, height: nat, bytesPerPixel: PixelSize)

  type PixelSize = n: nat | 0 < n witness 1

  /** Fewer pixels than 16-bit samples fit a buffer when a pixel takes at least two bytes. */
  lemma PixelsWithinSamples(size: nat, bytesPerPixel: nat)
    requires bytesPerPixel >= 2
    ensures size / bytesPerPixel <= size / 2
  {
    var q := size / bytesPerPixel;
    assert q * bytesPerPixel <= size;
    assert q * 2 <= q * bytesPerPixel;
  }

  /**
   * A depth frame as the sensor hands it over: its 16-bit samples and the
   * minimum reliable distance. The locked buffer holds the samples, so its
   * Size in bytes is twice their number.
   */
  datatype DepthFrame = DepthFrame(samples: seq<ushort>, minReliableDistance: ushort)
  {
    function Size(): nat { 2 * |samples| }
  }

  /**
   * A color frame: its own description's width and height, and the BGRA
   * bytes the sensor's conversion produces for it.
   */
  datatype ColorFrame = ColorFrame(width: nat, height: nat, bgra: seq<byte>)
  {
    /** The conversion yields four bytes per pixel. */
    predicate Wellformed() { |bgra| == width * height * 4 }
  }

  class MainWindow {
    const depthFrameDescription: FrameDescription
    const depthBitmapWidth: nat
    const depthBitmapHeight: nat
    const colorBitmapWidth: nat
    const colorBitmapHeight: nat

    /** Intermediate storage for the depth conversion, allocated once. */
    const depthPixels: array<byte>
    /** The color bitmap's back buffer (Bgr32, four bytes per pixel). */
    const colorPixels: array<byte>

    var depthFrameCounter: int
    var colorFrameCounter: int

    /** Depth and color image saves so far, in order; a save to a path already used appears again rather than replacing the earlier one. */
    var depthFiles: seq<ImageFile>
    var colorFiles: seq<ImageFile>
    /** Lines of GPSLog.txt. */
    var gpsLog: seq<string>

    /** What GPSLog.txt held before this window was created. */
    ghost const priorLog: seq<string>
    /** Depth frames that passed the geometry check. */
    ghost var processedDepthFrames: nat
    /** Calls of the color handler. */
    ghost var colorArrivals: nat

    /** The buffers and bitmaps have the sizes the constructor gave them (all of it constant). */
    ghost predicate Geometry()
    {
      && depthFrameDescription.bytesPerPixel >= 2
      && depthPixels.Length == depthFrameDescription.width * depthFrameDescription.height
      && depthBitmapWidth == depthFrameDescription.width
      && depthBitmapHeight == depthFrameDescription.height
      && colorPixels.Length == colorBitmapWidth * colorBitmapHeight * 4
      && depthPixels != colorPixels
    }

    /** The depth counter and the number of depth images follow the closed form of the processed frames. */
    ghost predicate DepthCadence()
      reads this`depthFrameCounter, this`depthFiles, this`processedDepthFrames
    {
      depthFrameCounter == CounterAfter(processedDepthFrames) && |depthFiles| == WritesAfter(processedDepthFrames)
    }

    /** The color counter and the number of color images follow the closed form of the arrivals. */
    ghost predicate ColorCadence()
      reads this`colorFrameCounter, this`colorFiles, this`colorArrivals
    {
      colorFrameCounter == CounterAfter(colorArrivals) && |colorFiles| == WritesAfter(colorArrivals)
    }

    /** GPSLog.txt keeps what it held and has two more lines per depth image. */
    ghost predicate LogFollowsDepthFiles()
      reads this`gpsLog, this`depthFiles
    {
      |gpsLog| == |priorLog| + 2 * |depthFiles| && priorLog <= gpsLog
    }

    ghost predicate Valid()
      reads this
    {
      Geometry() && DepthCadence() && ColorCadence() && LogFollowsDepthFiles()
    }

    /**
     * Allocates the depth buffer at width * height and both bitmaps at the
     * streams' advertised sizes, all zero (a new byte array, a black bitmap);
     * counters start at 0, and the GPS log keeps whatever the file already held.
     */
    constructor (depthDescription: FrameDescription, colorWidth: nat, colorHeight: nat, existingLog: seq<string>)
      requires depthDescription.bytesPerPixel >= 2
      ensures Valid()
      ensures fresh(depthPixels) && fresh(colorPixels)
      ensures depthFrameDescription == depthDescription
      ensures colorBitmapWidth == colorWidth && colorBitmapHeight == colorHeight
      ensures depthFrameCounter == 0 && colorFrameCounter == 0
      ensures depthFiles == [] && colorFiles == [] && gpsLog == existingLog
      ensures processedDepthFrames == 0 && colorArrivals == 0
      ensures forall i :: 0 <= i < depthPixels.Length ==> depthPixels[i] == 0
      ensures forall i :: 0 <= i < colorPixels.Length ==> colorPixels[i] == 0
    {
      depthFrameDescription := depthDescription;
      depthPixels := new byte[depthDescription.width * depthDescription.height](_ => 0);
      depthBitmapWidth, depthBitmapHeight := depthDescription.width, depthDescription.height;
      colorBitmapWidth, colorBitmapHeight := colorWidth, colorHeight;
      colorPixels := new byte[colorWidth * colorHeight * 4](_ => 0);
      depthFrameCounter, colorFrameCounter := 0, 0;
      depthFiles, colorFiles, gpsLog := [], [], existingLog;
      priorLog := existingLog;
      processedDepthFrames, colorArrivals := 0, 0;
    }

    /** The three tests of the depth handler: pixel count from the buffer size, and the bitmap's width and height. */
    predicate DepthGeometryOk(frame: DepthFrame)
    {
      && depthFrameDescription.width * depthFrameDescription.height
         == frame.Size() / depthFrameDescription.bytesPerPixel
      && depthFrameDescription.width == depthBitmapWidth
      && depthFrameDescription.height == depthBitmapHeight
    }

    /** The test of the color handler: the frame's width and height equal the bitmap's. */
    predicate ColorGeometryOk(frame: ColorFrame)
    {
      frame.width == colorBitmapWidth && frame.height == colorBitmapHeight
    }

    /** When the depth geometry check passes, the conversion loop covers exactly the whole buffer. */
    lemma GeometryFixesLoopBound(frame: DepthFrame)
      requires Valid() && DepthGeometryOk(frame)
      ensures frame.Size() / depthFrameDescription.bytesPerPixel == depthPixels.Length
      ensures depthPixels.Length <= |frame.samples|
    {
      PixelsWithinSamples(frame.Size(), depthFrameDescription.bytesPerPixel);
    }

    /**
     * Converts the first size / bytesPerPixel samples into depthPixels in
     * place; the rest of the buffer is left as it was.
     */
    method ProcessDepthFrame(samples: seq<ushort>, size: nat, minDepth: ushort, maxDepth: ushort)
      requires size / depthFrameDescription.bytesPerPixel <= depthPixels.Length
      requires size / depthFrameDescription.bytesPerPixel <= |samples|
      modifies depthPixels
      ensures var n := size / depthFrameDescription.bytesPerPixel;
        && depthPixels[..n] == Converted(samples[..n], minDepth, maxDepth)
        && depthPixels[n..] == old(depthPixels[n..])
    {
      var n := size / depthFrameDescription.bytesPerPixel;
      for i := 0 to n
        invariant forall k :: 0 <= k < i ==> depthPixels[k] == Intensity(samples[k], minDepth, maxDepth)
        invariant forall k :: i <= k < depthPixels.Length ==> depthPixels[k] == old(depthPixels[k])
      {
        depthPixels[i] := Intensity(samples[i], minDepth, maxDepth);
      }
    }

    /** Saves the depth image under the UTC time. */
    method WriteDepth(utcNow: Timestamp)
      requires utcNow.Valid()
      modifies this`depthFiles
      ensures depthFiles == old(depthFiles) + [ImageFile(DepthImagePath(utcNow), depthPixels[..])]
    {
      depthFiles := depthFiles + [ImageFile(DepthImagePath(utcNow), depthPixels[..])];
    }

    /** Saves the color bitmap under the local time. */
    method WriteColor(now: Timestamp)
      requires now.Valid()
      modifies this`colorFiles
      ensures colorFiles == old(colorFiles) + [ImageFile(ColorImagePath(now), colorPixels[..])]
    {
      colorFiles := colorFiles + [ImageFile(ColorImagePath(now), colorPixels[..])];
    }

    /** Appends the local time and the coordinates to the log at GpsLogPath (GPSLog.txt in the base folder), keeping what it held. */
    method WriteGps(now: Timestamp, latitude: string, longitude: string)
      requires now.Valid()
      modifies this`gpsLog
      ensures gpsLog == old(gpsLog) + GpsEntry(Format(now), latitude, longitude)
    {
      gpsLog := gpsLog + GpsEntry(Format(now), latitude, longitude);
    }

    /**
     * A depth frame arrived (None when the frame could not be acquired).
     * A frame that passes the geometry check is converted with the full
     * upper bound; then the counter is tested with >= 30, and on a hit
     * the image is saved, the counter reset and a GPS entry appended,
     * before the counter is incremented. Nothing changes for a dropped frame.
     */
    method DepthFrameArrived(frame: Option<DepthFrame>, utcNow: Timestamp, now: Timestamp,
                             latitude: string, longitude: string)
      returns (processed: bool, wrote: bool)
      requires Valid() && utcNow.Valid() && now.Valid()
      modifies this, depthPixels
      ensures Valid()
      ensures processed == (frame.Some? && DepthGeometryOk(frame.value))
      ensures processed ==>
        && depthPixels.Length <= |frame.value.samples|
        && depthPixels[..] == Converted(frame.value.samples[..depthPixels.Length], frame.value.minReliableDistance, UShortMax)
      ensures !processed ==> depthPixels[..] == old(depthPixels[..])
      ensures processedDepthFrames == old(processedDepthFrames) + if processed then 1 else 0
      ensures depthFrameCounter == if processed then DepthTick(old(depthFrameCounter)).next else old(depthFrameCounter)
      ensures wrote == (processed && IsWriteArrival(processedDepthFrames))
      ensures wrote == (processed && DepthTick(old(depthFrameCounter)).write)
      ensures depthFiles == old(depthFiles) + if wrote then [ImageFile(DepthImagePath(utcNow), depthPixels[..])] else []
      ensures gpsLog == old(gpsLog) + if wrote then GpsEntry(Format(now), latitude, longitude) else []
      ensures colorFiles == old(colorFiles) && colorFrameCounter == old(colorFrameCounter)
      ensures colorArrivals == old(colorArrivals)
    {
      processed := false;
      if frame.Some? {
        var f := frame.value;
        if DepthGeometryOk(f) {
          GeometryFixesLoopBound(f);
          ProcessDepthFrame(f.samples, f.Size(), f.minReliableDistance, UShortMax);
          processed := true;
        }
      }
      wrote := false;
      if processed {
        wrote := CountProcessedDepthFrame(utcNow, now, latitude, longitude);
      }
    }

    /**
     * The part of the depth handler run for a processed frame: on a counter
     * of at least 30, save the image, reset the counter and append a GPS
     * entry; then increment the counter.
     */
    method CountProcessedDepthFrame(utcNow: Timestamp, now: Timestamp, latitude: string, longitude: string)
      returns (wrote: bool)
      requires DepthCadence() && LogFollowsDepthFiles() && utcNow.Valid() && now.Valid()
      modifies this`depthFrameCounter, this`depthFiles, this`gpsLog, this`processedDepthFrames
      ensures DepthCadence() && LogFollowsDepthFiles()
      ensures processedDepthFrames == old(processedDepthFrames) + 1
      ensures depthFrameCounter == DepthTick(old(depthFrameCounter)).next
      ensures wrote == IsWriteArrival(processedDepthFrames)
      ensures wrote == DepthTick(old(depthFrameCounter)).write
      ensures depthFiles == old(depthFiles) + if wrote then [ImageFile(DepthImagePath(utcNow), depthPixels[..])] else []
      ensures gpsLog == old(gpsLog) + if wrote then GpsEntry(Format(now), latitude, longitude) else []
    {
      ClosedFormStep(processedDepthFrames);
      wrote := false;
      if depthFrameCounter >= WriteTimer {
        WriteDepth(utcNow);
        depthFrameCounter := 0;
        WriteGps(now, latitude, longitude);
        wrote := true;
      }
      depthFrameCounter := depthFrameCounter + 1;
      processedDepthFrames := processedDepthFrames + 1;
    }

    /**
     * A color frame arrived (None when the frame could not be acquired).
     * A frame of the bitmap's size replaces the back buffer. Whatever the
     * frame, the counter is then tested with == 30, the bitmap saved and
     * the counter reset on a hit, and the counter incremented.
     */
    method ColorFrameArrived(frame: Option<ColorFrame>, now: Timestamp)
      returns (copied: bool, wrote: bool)
      requires Valid() && now.Valid()
      requires frame.Some? ==> frame.value.Wellformed()
      modifies this, colorPixels
      ensures Valid()
      ensures copied == (frame.Some? && ColorGeometryOk(frame.value))
      ensures colorPixels[..] == if copied then frame.value.bgra else old(colorPixels[..])
      ensures colorArrivals == old(colorArrivals) + 1
      ensures colorFrameCounter == ColorTick(old(colorFrameCounter)).next
      ensures wrote == IsWriteArrival(colorArrivals)
      ensures wrote == ColorTick(old(colorFrameCounter)).write
      ensures colorFiles == old(colorFiles) + if wrote then [ImageFile(ColorImagePath(now), colorPixels[..])] else []
      ensures depthFiles == old(depthFiles) && gpsLog == old(gpsLog)
      ensures depthFrameCounter == old(depthFrameCounter) && processedDepthFrames == old(processedDepthFrames)
    {
      copied := false;
      if frame.Some? {
        var f := frame.value;
        if ColorGeometryOk(f) {
          forall i | 0 <= i < colorPixels.Length {
            colorPixels[i] := f.bgra[i];
          }
          copied := true;
        }
      }
      wrote := CountColorArrival(now);
    }

    /**
     * The part of the color handler run on every arrival: on a counter of
     * exactly 30, save the bitmap and reset the counter; then increment it.
     */
    method CountColorArrival(now: Timestamp) returns (wrote: bool)
      requires ColorCadence() && now.Valid()
      modifies this`colorFrameCounter, this`colorFiles, this`colorArrivals
      ensures ColorCadence()
      ensures colorArrivals == old(colorArrivals) + 1
      ensures colorFrameCounter == ColorTick(old(colorFrameCounter)).next
      ensures wrote == IsWriteArrival(colorArrivals)
      ensures wrote == ColorTick(old(colorFrameCounter)).write
      ensures colorFiles == old(colorFiles) + if wrote then [ImageFile(ColorImagePath(now), colorPixels[..])] else []
    {
      ClosedFormStep(colorArrivals);
      wrote := false;
      if colorFrameCounter == WriteTimer {
        WriteColor(now);
        colorFrameCounter := 0;
        wrote := true;
      }
      colorFrameCounter := colorFrameCounter + 1;
      colorArrivals := colorArrivals + 1;
    }
  }
}
