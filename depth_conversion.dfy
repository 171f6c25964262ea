/**
 * The per-pixel depth-to-intensity mapping of MainWindow.ProcessDepthFrame:
 * a 16-bit depth sample inside the reliable range is divided by DEPTH_TO_BYTE
 * and narrowed with an unchecked (byte) cast; any other sample becomes 0.
 */
module DepthConversion {

  /** An unsigned 8-bit value (C# byte). */
  newtype byte = x: int | 0 <= x < 0x100

  /** An unsigned 16-bit value (C# ushort), the type of a depth sample. */
  newtype ushort = x: int | 0 <= x < 0x1_0000

  /** Scale from millimetres to intensity, computed in integer arithmetic as the source does. */
  const DepthToByte: int := 8000 / 256

  /** ushort.MaxValue, the upper reliability bound the depth handler always passes. */
  const UShortMax: ushort := 0xFFFF

  /** First depth at which depth / DepthToByte no longer fits a byte. */
  const WrapDepth: int := 256 * DepthToByte

  /** The unchecked C# conversion (byte)x: keeps the low eight bits. */
  function ToByte(x: int): (b: byte)
    ensures 0 <= x < 0x100 ==> b as int == x
    ensures (x - b as int) % 0x100 == 0
  {
    (x % 0x100) as byte
  }

  /** Intensity of one pixel (the expression assigned to depthPixels[i]). */
  function Intensity(depth: ushort, minDepth: ushort, maxDepth: ushort): byte
  {
    ToByte(if depth >= minDepth && depth <= maxDepth then depth as int / DepthToByte else 0)
  }

  /** The whole converted image: pixel i is the intensity of sample i. */
  function Converted(samples: seq<ushort>, minDepth: ushort, maxDepth: ushort): (pixels: seq<byte>)
    ensures |pixels| == |samples|
    ensures forall i :: 0 <= i < |samples| ==> pixels[i] == Intensity(samples[i], minDepth, maxDepth)
  {
    seq(|samples|, i requires 0 <= i < |samples| => Intensity(samples[i], minDepth, maxDepth))
  }

  /** The scale constant is 31 (8000 / 256 rounded down), so the wrap point is 7936. */
  lemma ScaleConstants()
    ensures DepthToByte == 31 && WrapDepth == 7936
  {
  }

  /** A reliable sample maps to (depth / 31) mod 256, an unreliable one to 0. */
  lemma IntensityValue(depth: ushort, minDepth: ushort, maxDepth: ushort)
    ensures Intensity(depth, minDepth, maxDepth) as int
         == if minDepth <= depth <= maxDepth then (depth as int / 31) % 256 else 0
  {
  }

  /**
   * With the upper bound ushort.MaxValue the upper test never fails: the
   * pixel is 0 for every sample below minDepth and the wrapped quotient otherwise.
   */
  lemma FullRangeIgnoresUpperBound(depth: ushort, minDepth: ushort)
    ensures Intensity(depth, minDepth, UShortMax)
         == if depth < minDepth then 0 else ToByte(depth as int / DepthToByte)
  {
  }

  /** Below the wrap point a reliable sample is not truncated by the byte cast. */
  lemma NoWrapBelowWrapDepth(depth: ushort, minDepth: ushort, maxDepth: ushort)
    requires minDepth <= depth <= maxDepth && (depth as int) < WrapDepth
    ensures Intensity(depth, minDepth, maxDepth) as int == depth as int / DepthToByte
    ensures Intensity(depth, minDepth, maxDepth) as int * DepthToByte <= depth as int
    ensures (depth as int) < (Intensity(depth, minDepth, maxDepth) as int + 1) * DepthToByte
  {
    var q := depth as int / DepthToByte;
    assert 0 <= q < 0x100;
    assert ToByte(q) as int == q;
  }

  /** Within the reliable range and below the wrap point, nearer objects are never brighter. */
  lemma MonotoneBelowWrapDepth(d1: ushort, d2: ushort, minDepth: ushort, maxDepth: ushort)
    requires minDepth <= d1 <= d2 <= maxDepth && (d2 as int) < WrapDepth
    ensures Intensity(d1, minDepth, maxDepth) <= Intensity(d2, minDepth, maxDepth)
  {
    NoWrapBelowWrapDepth(d1, minDepth, maxDepth);
    NoWrapBelowWrapDepth(d2, minDepth, maxDepth);
    var p1, p2 := Intensity(d1, minDepth, maxDepth) as int, Intensity(d2, minDepth, maxDepth) as int;
    assert DepthToByte == 31;
    assert p1 * 31 < (p2 + 1) * 31;
  }

  /** The cast wraps: the brightest value is followed by black at 7936 mm. */
  lemma WrapsAtWrapDepth(minDepth: ushort)
    requires minDepth as int <= WrapDepth - 1
    ensures Intensity((WrapDepth - 1) as ushort, minDepth, UShortMax) == 255
    ensures Intensity(WrapDepth as ushort, minDepth, UShortMax) == 0
  {
    assert (WrapDepth - 1) / DepthToByte == 255;
    assert WrapDepth / DepthToByte == 256;
  }

  /** A constant frame of 1000 mm with the full reliable range converts to a constant image of 32. */
  lemma ConstantThousandFrame(samples: seq<ushort>)
    requires forall i :: 0 <= i < |samples| ==> samples[i] == 1000
    ensures forall i :: 0 <= i < |samples| ==> Converted(samples, 0, UShortMax)[i] == 32
  {
  }
}
