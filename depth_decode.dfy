/** Decoding of a Helios depth image in the Coord3D_ABCY16 pixel format into
    millimetre points (`OverlayColorOnto3DAndSave`, "HLT image processing").
    Each pixel occupies four 16-bit words: A (X), B (Y), C (Z) and a fourth
    channel that this code never reads. */
module DepthDecode {
  import opened Types
  import Grid

  /** Word value that marks a channel without a valid measurement. */
  const InvalidSample: uint16 := 0xFFFF

  /** Words per pixel in Coord3D_ABCY16. */
  const WordsPerPixel: nat := 4

  /** A point in millimetres. The source stores `float`; the model uses exact reals. */
  datatype Point3D = Point3D(x: real, y: real, z: real)

  const Origin: Point3D := Point3D(0.0, 0.0, 0.0)

  /** `Scan3dCoordinateScale` and the per-axis `Scan3dCoordinateOffset` values
      read from the camera before decoding. */
  datatype Calibration = Calibration(scale: real, xOffset: real, yOffset: real, zOffset: real)

  /** `raw * scale + offset` on one axis. */
  function ToMillimetres(raw: uint16, scale: real, offset: real): (mm: real)
  {
    (raw as int) as real * scale + offset
  }

  /** One pixel: the origin if any of X, Y, Z is the invalid sentinel,
      otherwise each axis scaled and offset independently. */
  function DecodeSample(x: uint16, y: uint16, z: uint16, cal: Calibration): (p: Point3D)
    ensures x == InvalidSample || y == InvalidSample || z == InvalidSample ==> p == Origin
    ensures x != InvalidSample && y != InvalidSample && z != InvalidSample ==>
              p.x == ToMillimetres(x, cal.scale, cal.xOffset) &&
              p.y == ToMillimetres(y, cal.scale, cal.yOffset) &&
              p.z == ToMillimetres(z, cal.scale, cal.zOffset)
  {
    if x == InvalidSample || y == InvalidSample || z == InvalidSample then Origin
    else Point3D(ToMillimetres(x, cal.scale, cal.xOffset),
                 ToMillimetres(y, cal.scale, cal.yOffset),
                 ToMillimetres(z, cal.scale, cal.zOffset))
  }

  /** The raw words of a valid pixel can be read back from its point whenever the
      scale is not zero, which is what lets a point-cloud writer store raw words
      together with the calibration instead of the decoded millimetres. */
  lemma DecodeSampleRecoversRaw(x: uint16, y: uint16, z: uint16, cal: Calibration)
    requires cal.scale != 0.0
    requires x != InvalidSample && y != InvalidSample && z != InvalidSample
    ensures var p := DecodeSample(x, y, z, cal);
            (p.x - cal.xOffset) / cal.scale == (x as int) as real &&
            (p.y - cal.yOffset) / cal.scale == (y as int) as real &&
            (p.z - cal.zOffset) / cal.scale == (z as int) as real
  {
  }

  /** Pixel `k` of a depth buffer: its X, Y and Z words start at word `4 * k`. */
  function DecodePixel(words: seq<uint16>, k: nat, cal: Calibration): (p: Point3D)
    requires WordsPerPixel * k + 3 <= |words|
  {
    DecodeSample(words[4 * k], words[4 * k + 1], words[4 * k + 2], cal)
  }

  /** The first `n` pixels of a depth buffer, decoded the way the source walks it:
      read three words, then advance the pointer by four. */
  function DecodeWords(words: seq<uint16>, n: nat, cal: Calibration): (points: seq<Point3D>)
    requires WordsPerPixel * n <= |words|
    ensures |points| == n
    ensures forall k :: 0 <= k < n ==> points[k] == DecodePixel(words, k, cal)
    decreases n
  {
    if n == 0 then []
    else [DecodeSample(words[0], words[1], words[2], cal)] + DecodeWords(words[WordsPerPixel..], n - 1, cal)
  }

  /** The fourth word of every pixel, and every word after the last pixel, never
      influences the result: two buffers that agree on the X, Y and Z words of
      the first `n` pixels decode to the same points. */
  lemma {:induction false} DecodeIgnoresFourthWord(a: seq<uint16>, b: seq<uint16>, n: nat, cal: Calibration)
    requires WordsPerPixel * n <= |a| && WordsPerPixel * n <= |b|
    requires forall i :: 0 <= i < WordsPerPixel * n && i % 4 != 3 ==> a[i] == b[i]
    ensures DecodeWords(a, n, cal) == DecodeWords(b, n, cal)
  {
    if n > 0 {
      assert a[0] == b[0] && a[1] == b[1] && a[2] == b[2];
      forall i | 0 <= i < WordsPerPixel * (n - 1) && i % 4 != 3
        ensures a[WordsPerPixel..][i] == b[WordsPerPixel..][i]
      {
        assert (i + 4) % 4 == i % 4;
      }
      DecodeIgnoresFourthWord(a[WordsPerPixel..], b[WordsPerPixel..], n - 1, cal);
    }
  }

  /** Cell `(ir, ic)` of the decoded grid is pixel `k = ir * width + ic` of the
      buffer: it is decoded from words `4k`, `4k + 1` and `4k + 2`. */
  lemma CellReadsItsWords(words: seq<uint16>, width: nat, height: nat, cal: Calibration, ir: nat, ic: nat)
    requires WordsPerPixel * (width * height) <= |words|
    requires ir < height && ic < width
    ensures var k := Grid.RowMajor(ir, ic, width);
            k < width * height &&
            DecodeWords(words, width * height, cal)[k] ==
              DecodeSample(words[4 * k], words[4 * k + 1], words[4 * k + 2], cal)
  {
    Grid.RowMajorInRange(ir, ic, width, height);
  }

  /** The inner loop of the source: the `width` cells of one row of the matrix,
      starting at cell `rowStart` (the row's offset `ir * width`, where
      `at(ir, ic)` finds cell `ic`) and at word `p` of the camera buffer. The
      rows before it are already decoded and stay as they are. */
  method DecodeRow(words: seq<uint16>, width: nat, cal: Calibration, xyz: array<Point3D>, rowStart: nat, p: nat)
    returns (next: nat)
    requires p == WordsPerPixel * rowStart
    requires rowStart + width <= xyz.Length && WordsPerPixel * (rowStart + width) <= |words|
    requires forall k :: 0 <= k < rowStart ==> xyz[k] == DecodePixel(words, k, cal)
    modifies xyz
    ensures next == p + WordsPerPixel * width
    ensures forall k :: 0 <= k < rowStart + width ==> xyz[k] == DecodePixel(words, k, cal)
    ensures forall k :: rowStart + width <= k < xyz.Length ==> xyz[k] == old(xyz[k])
  {
    next := p;
    for ic := 0 to width
      invariant next == WordsPerPixel * (rowStart + ic)
      invariant forall k :: 0 <= k < rowStart + ic ==> xyz[k] == DecodePixel(words, k, cal)
      invariant forall k :: rowStart + ic <= k < xyz.Length ==> xyz[k] == old(xyz[k])
    {
      var xRaw, yRaw, zRaw := words[next], words[next + 1], words[next + 2];
      xyz[rowStart + ic] := DecodeSample(xRaw, yRaw, zRaw, cal);
      next := next + WordsPerPixel;
    }
  }

  /** The nested row/column loop of the source. `words` is the camera buffer,
      `p` plays the role of the advancing `input_data` pointer, and the result is
      the storage of the `height x width` matrix `imageMatrixXYZ`, whose cell
      `(ir, ic)` is element `ir * width + ic`. The same storage, reshaped to
      `width * height` points, is what the overlay step projects. */
  method DecodeDepth(words: seq<uint16>, width: nat, height: nat, cal: Calibration) returns (xyz: array<Point3D>)
    requires WordsPerPixel * (width * height) <= |words|
    ensures fresh(xyz)
    ensures xyz.Length == width * height
    ensures xyz[..] == DecodeWords(words, width * height, cal)
  {
    xyz := new Point3D[width * height];
    var p := 0;
    var rowStart := 0;
    for ir := 0 to height
      invariant rowStart == ir * width <= width * height
      invariant p == WordsPerPixel * rowStart
      invariant forall k :: 0 <= k < rowStart ==> xyz[k] == DecodePixel(words, k, cal)
    {
      Grid.NextRow(ir, width, height);
      p := DecodeRow(words, width, cal, xyz, rowStart, p);
      rowStart := rowStart + width;
    }
    assert xyz[..] == DecodeWords(words, width * height, cal);
  }
}
