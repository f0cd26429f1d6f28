/** Sampling of the Triton RGB image at the projected position of every depth
    point into the per-point colour buffer `pColorData`
    (`OverlayColorOnto3DAndSave`, "loop through projected points"). */
module ColourOverlay {
  import opened Types
  import Grid
  import DepthDecode

  /** An RGB8 image: `rows * cols` pixels of three bytes R, G, B, row-major,
      copied verbatim from the camera buffer into `imageMatrixRGB`. */
  datatype ColourImage = ColourImage(rows: nat, cols: nat, data: seq<uint8>)
  {
    predicate Valid()
    {
      |data| == 3 * (rows * cols)
    }

    /** `imageMatrixRGB.at<cv::Vec3b>(row, col)[channel]`. */
    function Channel(row: nat, col: nat, channel: nat): (v: uint8)
      requires Valid() && row < rows && col < cols && channel < 3
    {
      Grid.RowMajorInRange(row, col, cols, rows);
      data[3 * Grid.RowMajor(row, col, cols) + channel]
    }
  }

  /** A projected depth point after rounding: column (image x) and row (image y). */
  datatype Pixel = Pixel(col: int, row: int)

  /** The bounds test of the loop: the point falls inside the colour image. A
      point in frame always passes the source's test on the coordinates cast to
      `unsigned int`, and for coordinates in `[-(2^32 - n), 2^32)` the two tests
      agree both ways. */
  predicate InFrame(img: ColourImage, p: Pixel)
    ensures InFrame(img, p) ==> p.row % TwoTo32 < img.rows && p.col % TwoTo32 < img.cols
    ensures img.rows <= MaxUint32 && img.cols <= MaxUint32 &&
            -(TwoTo32 - img.rows) <= p.row < TwoTo32 && -(TwoTo32 - img.cols) <= p.col < TwoTo32 ==>
              (InFrame(img, p) <==> p.row % TwoTo32 < img.rows && p.col % TwoTo32 < img.cols)
  {
    0 <= p.row < img.rows && 0 <= p.col < img.cols
  }

  /** The source casts the rounded coordinates to `unsigned int` and compares only
      against the upper bound, so a negative coordinate is rejected through the
      wrap-around. For every coordinate in `[-(2^32 - n), 2^32)` that test agrees
      with the explicit `0 <= v < n` used by `InFrame`. */
  lemma UnsignedBoundAgrees(v: int, n: nat)
    requires n <= MaxUint32
    requires -(TwoTo32 - n) <= v < TwoTo32
    ensures (v % TwoTo32 < n) <==> (0 <= v < n)
  {
    if v < 0 {
      assert v % TwoTo32 == v + TwoTo32;
    } else {
      assert v % TwoTo32 == v;
    }
  }

  /** The byte that the loop leaves at offset `j` of the colour buffer after the
      first `n` points: for a point `i = j / 3` handled and inside the frame, byte
      `3i + c` holds channel `2 - c` of the sampled pixel (B, G, R order);
      otherwise the byte still holds whatever the buffer held before. */
  function ExpectedByte(before: seq<uint8>, img: ColourImage, projected: seq<Pixel>, n: nat, j: nat): (b: uint8)
    requires img.Valid() && |before| == 3 * |projected| && n <= |projected| && j < |before|
    ensures !InFrame(img, projected[j / 3]) ==> b == before[j]
  {
    var i := j / 3;
    var p := projected[i];
    if i < n && InFrame(img, p) then img.Channel(p.row, p.col, 2 - j % 3) else before[j]
  }

  /** One iteration of the loop, for point `i` projected to `p`. */
  function ColourStep(buf: seq<uint8>, img: ColourImage, p: Pixel, i: nat): (after: seq<uint8>)
    requires img.Valid() && 3 * i + 2 < |buf|
    ensures |after| == |buf|
    ensures forall j :: 0 <= j < |buf| && !(3 * i <= j < 3 * i + 3) ==> after[j] == buf[j]
    ensures !InFrame(img, p) ==> after == buf
  {
    if !InFrame(img, p) then buf
    else
      var r := img.Channel(p.row, p.col, 0);
      var g := img.Channel(p.row, p.col, 1);
      var b := img.Channel(p.row, p.col, 2);
      buf[3 * i := b][3 * i + 1 := g][3 * i + 2 := r]
  }

  /** The colour buffer after the first `n` points, byte by byte. */
  function Overlay(before: seq<uint8>, img: ColourImage, projected: seq<Pixel>, n: nat): (after: seq<uint8>)
    requires img.Valid() && |before| == 3 * |projected| && n <= |projected|
    ensures |after| == |before|
    ensures forall j :: 0 <= j < |before| && n <= j / 3 ==> after[j] == before[j]
  {
    seq(|before|, j requires 0 <= j < |before| => ExpectedByte(before, img, projected, n, j))
  }

  /** Before the first point the buffer holds what it held on allocation. */
  lemma OverlayOfNone(before: seq<uint8>, img: ColourImage, projected: seq<Pixel>)
    requires img.Valid() && |before| == 3 * |projected|
    ensures Overlay(before, img, projected, 0) == before
  {
    assert forall j :: 0 <= j < |before| ==> Overlay(before, img, projected, 0)[j] == before[j];
  }

  /** One iteration of the loop takes the buffer after `n` points to the buffer
      after `n + 1` points. */
  lemma OverlayStep(before: seq<uint8>, img: ColourImage, projected: seq<Pixel>, n: nat)
    requires img.Valid() && |before| == 3 * |projected| && n < |projected|
    ensures Overlay(before, img, projected, n + 1) ==
            ColourStep(Overlay(before, img, projected, n), img, projected[n], n)
  {
    var prev := Overlay(before, img, projected, n);
    var next := Overlay(before, img, projected, n + 1);
    var step := ColourStep(prev, img, projected[n], n);
    forall j | 0 <= j < |before|
      ensures next[j] == step[j]
    {
      if 3 * n <= j < 3 * n + 3 {
        assert j / 3 == n && j % 3 == j - 3 * n;
      } else {
        assert j / 3 != n;
      }
    }
  }

  /** Byte `3i + c` after the whole loop, for channel slot `c` of point `i`. */
  lemma PointByte(before: seq<uint8>, img: ColourImage, projected: seq<Pixel>, i: nat, c: nat)
    requires img.Valid() && |before| == 3 * |projected| && i < |projected| && c < 3
    ensures var after := Overlay(before, img, projected, |projected|);
            var p := projected[i];
            after[3 * i + c] == if InFrame(img, p) then img.Channel(p.row, p.col, 2 - c) else before[3 * i + c]
  {
    var j := 3 * i + c;
    assert j / 3 == i && j % 3 == c;
  }

  /** A point outside the colour image leaves its three bytes as they were. */
  lemma OutOfFrameUntouched(before: seq<uint8>, img: ColourImage, projected: seq<Pixel>, i: nat)
    requires img.Valid() && |before| == 3 * |projected| && i < |projected|
    requires !InFrame(img, projected[i])
    ensures var after := Overlay(before, img, projected, |projected|);
            after[3 * i] == before[3 * i] &&
            after[3 * i + 1] == before[3 * i + 1] &&
            after[3 * i + 2] == before[3 * i + 2]
  {
    PointByte(before, img, projected, i, 0);
    PointByte(before, img, projected, i, 1);
    PointByte(before, img, projected, i, 2);
  }

  /** A point inside the colour image gets the sampled pixel's channels in reverse
      order: blue, green, red. */
  lemma InFrameReversed(before: seq<uint8>, img: ColourImage, projected: seq<Pixel>, i: nat)
    requires img.Valid() && |before| == 3 * |projected| && i < |projected|
    requires InFrame(img, projected[i])
    ensures var after := Overlay(before, img, projected, |projected|);
            var p := projected[i];
            after[3 * i] == img.Channel(p.row, p.col, 2) &&
            after[3 * i + 1] == img.Channel(p.row, p.col, 1) &&
            after[3 * i + 2] == img.Channel(p.row, p.col, 0)
  {
    PointByte(before, img, projected, i, 0);
    PointByte(before, img, projected, i, 1);
    PointByte(before, img, projected, i, 2);
  }

  /** The loop of the source over all `width * height` projected points. The
      buffer `colour` is allocated uninitialised by the source, so its initial
      contents are arbitrary here; out-of-frame points leave theirs in place. */
  method SampleColours(colour: array<uint8>, img: ColourImage, projected: seq<Pixel>)
    requires img.Valid() && colour.Length == 3 * |projected|
    modifies colour
    ensures colour[..] == Overlay(old(colour[..]), img, projected, |projected|)
  {
    ghost var before := colour[..];
    OverlayOfNone(before, img, projected);
    for i := 0 to |projected|
      invariant colour[..] == Overlay(before, img, projected, i)
    {
      OverlayStep(before, img, projected, i);
      var p := projected[i];
      if !(0 <= p.row < img.rows && 0 <= p.col < img.cols) {
        continue;
      }
      var r := img.Channel(p.row, p.col, 0);
      var g := img.Channel(p.row, p.col, 1);
      var b := img.Channel(p.row, p.col, 2);
      colour[3 * i] := b;
      colour[3 * i + 1] := g;
      colour[3 * i + 2] := r;
    }
  }

  /** The part of `OverlayColorOnto3DAndSave` between the two camera images and
      the point-cloud writer: decode the depth image, project every decoded point
      (`cv::projectPoints` followed by rounding, supplied as `project`), and
      sample the colour image. Point `i` of the cloud and bytes `3i..3i+2` of the
      colour buffer belong to the same depth pixel. */
  method OverlayColourOnto3D(words: seq<uint16>, width: nat, height: nat, cal: DepthDecode.Calibration,
                             img: ColourImage, project: DepthDecode.Point3D -> Pixel, colour: array<uint8>)
    returns (xyz: array<DepthDecode.Point3D>, projected: seq<Pixel>)
    requires DepthDecode.WordsPerPixel * (width * height) <= |words|
    requires img.Valid() && colour.Length == 3 * (width * height)
    modifies colour
    ensures fresh(xyz)
    ensures xyz[..] == DepthDecode.DecodeWords(words, width * height, cal)
    ensures |projected| == width * height
    ensures forall i :: 0 <= i < width * height ==> projected[i] == project(xyz[i])
    ensures colour[..] == Overlay(old(colour[..]), img, projected, width * height)
  {
    xyz := DepthDecode.DecodeDepth(words, width, height, cal);
    projected := seq(xyz.Length, i requires 0 <= i < xyz.Length reads xyz => project(xyz[i]));
    SampleColours(colour, img, projected);
  }
}
