/**
 * Where and what MainWindow persists: PNG images named
 * folder + prefix + timestamp + ".png" in the Depth and Color folders,
 * and two lines appended to GPSLog.txt per depth write.
 */
module Persistence {
  import opened Wrappers
  import opened DateFormat
  import opened DepthConversion

  const BaseFolderPath: string := "C:\\KinectTest\\"
  const DepthFolderPath: string := BaseFolderPath + "Depth\\"
  const ColorFolderPath: string := BaseFolderPath + "Color\\"
  const GpsFileName: string := "GPSLog.txt"
  const GpsLogPath: string := BaseFolderPath + GpsFileName
  const DepthPrefix: string := "Depth-"
  const ColorPrefix: string := "Color-"
  const PngExtension: string := ".png"

  /** One image file on disk: its path and the pixels the encoder saved. */
  datatype ImageFile = ImageFile(path: string, pixels: seq<byte>)

  /**
   * Path.Combine(folder, prefix + time + ".png"); the folders end in a
   * separator and the file name is not rooted, so the two are concatenated.
   */
  function ImagePath(folder: string, prefix: string, t: Timestamp): (path: string)
    requires t.Valid()
    ensures |path| == |folder| + |prefix| + StampLength + |PngExtension|
  {
    folder + prefix + Format(t) + PngExtension
  }

  /** Name of a depth image (WriteDepth). */
  function DepthImagePath(t: Timestamp): string
    requires t.Valid()
  {
    ImagePath(DepthFolderPath, DepthPrefix, t)
  }

  /** Name of a color image (WriteColor). */
  function ColorImagePath(t: Timestamp): string
    requires t.Valid()
  {
    ImagePath(ColorFolderPath, ColorPrefix, t)
  }

  /** Reads the displayed timestamp back from an image path with the given folder and prefix. */
  function StampOfPath(folder: string, prefix: string, path: string): Option<Shown>
  {
    var head := |folder| + |prefix|;
    if |path| == head + StampLength + |PngExtension| &&
       path[..head] == folder + prefix && path[head + StampLength..] == PngExtension
    then Parse(path[head..head + StampLength])
    else None
  }

  /** An image path carries its folder, prefix and extension around the formatted timestamp, which reads back. */
  lemma {:induction false} ImagePathRoundTrip(folder: string, prefix: string, t: Timestamp)
    requires t.Valid()
    ensures StampOfPath(folder, prefix, ImagePath(folder, prefix, t)) == Some(ShownFields(t))
  {
    var path, head := ImagePath(folder, prefix, t), |folder| + |prefix|;
    assert path[..head] == folder + prefix;
    assert path[head..head + StampLength] == Format(t);
    assert path[head + StampLength..] == PngExtension;
    FormatRoundTrip(t);
  }

  /** Two images of one stream get the same name exactly when their timestamps show the same fields. */
  lemma ImagePathsEqualIff(folder: string, prefix: string, t1: Timestamp, t2: Timestamp)
    requires t1.Valid() && t2.Valid()
    ensures ImagePath(folder, prefix, t1) == ImagePath(folder, prefix, t2) <==> ShownFields(t1) == ShownFields(t2)
  {
    if ImagePath(folder, prefix, t1) == ImagePath(folder, prefix, t2) {
      ImagePathRoundTrip(folder, prefix, t1);
      ImagePathRoundTrip(folder, prefix, t2);
    }
  }

  /** A depth image never overwrites a color image: the folders differ. */
  lemma DepthAndColorPathsDiffer(t1: Timestamp, t2: Timestamp)
    requires t1.Valid() && t2.Valid()
    ensures DepthImagePath(t1) != ColorImagePath(t2)
  {
    assert DepthImagePath(t1)[14] == 'D';
    assert ColorImagePath(t2)[14] == 'C';
  }

  /** The "Time: " prefix of the first log line of an entry. */
  const TimeLabel: string := "Time: "

  /** The two lines WriteGPS appends: the time, then the tab-indented coordinates. */
  function GpsEntry(time: string, latitude: string, longitude: string): (lines: seq<string>)
    ensures |lines| == 2
  {
    [TimeLabel + time, "\tLatitude: " + latitude + " Longitude: " + longitude]
  }

  /** Reads the timestamp back from the first line of a log entry. */
  function EntryStamp(lines: seq<string>): Option<Shown>
  {
    if |lines| == 2 && |lines[0]| >= |TimeLabel| && lines[0][..|TimeLabel|] == TimeLabel
    then Parse(lines[0][|TimeLabel|..])
    else None
  }

  /** A log entry written at time t is two lines whose first reads back to t's displayed fields. */
  lemma GpsEntryRoundTrip(t: Timestamp, latitude: string, longitude: string)
    requires t.Valid()
    ensures |GpsEntry(Format(t), latitude, longitude)| == 2
    ensures EntryStamp(GpsEntry(Format(t), latitude, longitude)) == Some(ShownFields(t))
  {
    var line := GpsEntry(Format(t), latitude, longitude)[0];
    assert line[..|TimeLabel|] == TimeLabel;
    assert line[|TimeLabel|..] == Format(t);
    FormatRoundTrip(t);
  }
}
