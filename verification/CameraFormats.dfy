/** The two-plane preview layouts of camera/QCamera2/stack/mm-camera-interface/src/mm_camera_stream.c, and for which
  of them isNeedDelPadding leaves out a copy that was needed.
 */
module CameraFormats {
  import opened CameraPlanes
  import opened CameraLayouts

  /** PAD_TO_SIZE; for paddings that are powers of two the macro's bit mask rounds up to the next multiple. */
  function PadToSize(size: nat, padding: nat): (padded: nat)
    requires padding > 0
    ensures size <= padded < size + padding && padded % padding == 0
    ensures padded == size <==> size % padding == 0
  {
    NextMultiple(size, padding);
    if size % padding == 0 then size else size + (padding - size % padding)
  }

  lemma NextMultiple(size: nat, padding: nat)
    requires padding > 0
    ensures 0 <= size % padding < padding && (size + (padding - size % padding)) % padding == 0
  {
    var q := size / padding;
    assert size == q * padding + size % padding;
    Distributes(q, padding);
    MultipleHasNoRest(q + 1, padding);
  }

  /** Quotient and remainder are unique. */
  lemma Divides(x: nat, q: nat, r: nat, p: nat)
    requires r < p && x == q * p + r
    ensures x / p == q && x % p == r
  {
    assert x == x / p * p + x % p;
    NearestMultiple(x / p, x % p, q, r, p);
  }

  lemma NearestMultiple(a: nat, s: nat, b: nat, r: nat, p: nat)
    requires a * p + s == b * p + r && s < p && r < p
    ensures a == b && s == r
  {
    if a < b {
      MulMonotone(a + 1, b, p);
      Distributes(a, p);
    } else if b < a {
      MulMonotone(b + 1, a, p);
      Distributes(b, p);
    }
  }

  lemma MultipleHasNoRest(q: nat, p: nat)
    requires p > 0
    ensures (q * p) % p == 0
  {
    Divides(q * p, q, 0, p);
  }

  // ---------- the layouts ----------

  /** CAM_FORMAT_YUV_420_NV12 and NV21, with the paddings of the stream. */
  function NvPlanes(width: nat, height: nat, widthPadding: nat, heightPadding: nat): seq<Plane>
    requires widthPadding > 0 && heightPadding > 0
  {
    var stride := PadToSize(width, widthPadding);
    [Plane(0, stride * PadToSize(height, heightPadding), width, height, stride),
     Plane(0, stride * PadToSize(height / 2, heightPadding), width, height / 2, stride)]
  }

  /** CAM_FORMAT_YUV_420_NV21_ADRENO. */
  function AdrenoPlanes(width: nat, height: nat): seq<Plane> {
    var stride, uvStride := PadToSize(width, 32), PadToSize(width / 2, 32) * 2;
    [Plane(0, PadToSize(stride * PadToSize(height, 32), 4096), width, height, stride),
     Plane(0, PadToSize(uvStride * PadToSize(height / 2, 32), 4096), width, height / 2, uvStride)]
  }

  function FrameLen(planes: seq<Plane>): nat
    requires |planes| == 2
  {
    PadToSize(planes[0].len + planes[1].len, 4096)
  }

  /** Rows no longer than their strides, in planes long enough for them. */
  ghost predicate Roomy(planes: seq<Plane>, width: nat) {
    && SemiPlanar(planes, width) && planes[0].offset == planes[1].offset == 0
    && width <= planes[0].stride && width <= planes[1].stride
    && planes[0].stride * planes[0].height <= planes[0].len
    && planes[1].stride * (planes[0].height / 2) <= planes[1].len
  }

  lemma RoomyFits(planes: seq<Plane>, width: nat, size: nat)
    requires Roomy(planes, width) && planes[0].len + planes[1].len <= size
    ensures Fits(planes, size, size)
  {
    var h, rows := planes[0].height, AllRows(planes);
    SemiPlanarRows(planes, width);
    forall k | 0 <= k < |rows| ensures rows[k].at + rows[k].width <= size {
      if k < h {
        assert rows[k] == RowAt(planes, 0, k);
        RowStartIs(planes, 0, k);
        RowFits(k, h, planes[0].stride, h, width);
      } else {
        assert rows[h + (k - h)] == RowAt(planes, 1, k - h);
        RowStartIs(planes, 1, k - h);
        RowFits(k - h, h / 2, planes[1].stride, h / 2, width);
      }
    }
    TotalFits(h, h / 2, width, planes[0].stride, planes[1].stride);
  }

  lemma TotalFits(a: nat, b: nat, width: nat, stride: nat, uvStride: nat)
    requires width <= stride && width <= uvStride
    ensures (a + b) * width <= stride * a + uvStride * b
  {
    MulMonotone(width, stride, a);
    MulMonotone(width, uvStride, b);
    assert (a + b) * width == width * a + width * b;
  }

  lemma NvIsRoomy(width: nat, height: nat, widthPadding: nat, heightPadding: nat)
    requires widthPadding > 0 && heightPadding > 0
    ensures Roomy(NvPlanes(width, height, widthPadding, heightPadding), width)
  {
    var stride := PadToSize(width, widthPadding);
    MulMonotone(height, PadToSize(height, heightPadding), stride);
    MulMonotone(height / 2, PadToSize(height / 2, heightPadding), stride);
  }

  lemma AdrenoIsRoomy(width: nat, height: nat)
    requires width % 2 == 0
    ensures Roomy(AdrenoPlanes(width, height), width)
  {
    var stride, uvStride := PadToSize(width, 32), PadToSize(width / 2, 32) * 2;
    MulMonotone(height, PadToSize(height, 32), stride);
    MulMonotone(height / 2, PadToSize(height / 2, 32), uvStride);
  }

  // ---------- when the skipped copy was needed ----------

  /** isNeedDelPadding says no although not every frame is its own packed image. */
  ghost predicate SkipsWrongly(planes: seq<Plane>, width: nat)
    requires |planes| == 2
  {
    var n := FrameLen(planes);
    !IsNeedDelPadding(planes, width) && !(Fits(planes, n, n) && PackIsIdentity(AllRows(planes), n))
  }

  lemma SkipsWronglyIff(planes: seq<Plane>, width: nat)
    requires Roomy(planes, width) && width > 0
    ensures SkipsWrongly(planes, width) <==>
      !IsNeedDelPadding(planes, width) && planes[0].height >= 4 && planes[1].stride != width
  {
    RoomyFits(planes, width, FrameLen(planes));
    if !IsNeedDelPadding(planes, width) {
      SkippingIsRightIff(planes, width, FrameLen(planes));
    }
  }

  /** For NV12 and NV21 the test is right, for all dimensions and paddings: both planes have one stride. */
  lemma NvNeverSkipsWrongly(width: nat, height: nat, widthPadding: nat, heightPadding: nat)
    requires width > 0 && widthPadding > 0 && heightPadding > 0
    ensures !SkipsWrongly(NvPlanes(width, height, widthPadding, heightPadding), width)
  {
    NvIsRoomy(width, height, widthPadding, heightPadding);
    SkipsWronglyIff(NvPlanes(width, height, widthPadding, heightPadding), width);
  }

  /** There the test finds no padding exactly when both dimensions are multiples of their paddings. */
  lemma NvTestPassesIff(width: nat, height: nat, widthPadding: nat, heightPadding: nat)
    requires width > 0 && widthPadding > 0 && heightPadding > 0
    ensures !IsNeedDelPadding(NvPlanes(width, height, widthPadding, heightPadding), width) <==>
      width % widthPadding == 0 && height % heightPadding == 0
  {
    var stride := PadToSize(width, widthPadding);
    MulStrictly(stride, height, PadToSize(height, heightPadding));
  }

  /** For the Adreno format it is wrong for exactly these dimensions, 160 x 128 among them: the width is a multiple
      of 32 but half of it is not, so only chroma rows are padded, and no luma row or page is. */
  lemma AdrenoSkipsWronglyIff(width: nat, height: nat)
    requires width > 0 && height > 0
    ensures SkipsWrongly(AdrenoPlanes(width, height), width) <==> width % 64 == 32 && height % 128 == 0
  {
    AdrenoTestPassesIff(width, height);
    if width % 32 == 0 {
      WholeIsEven(width);
      AdrenoIsRoomy(width, height);
    }
    AdrenoDimensions(width, height);
    FromDimensions(AdrenoPlanes(width, height), width, height);
  }

  lemma WholeIsEven(width: nat)
    requires width % 32 == 0
    ensures width % 2 == 0
  {
    var a := width / 32;
    assert width == 32 * a;
    Divides(width, 16 * a, 0, 2);
  }

  /** The picture fills whole pages. */
  predicate FillsPages(width: nat, height: nat) {
    (width * height) % 4096 == 0
  }

  predicate LumaUnpadded(width: nat, height: nat) {
    width % 32 == 0 && height % 32 == 0 && FillsPages(width, height)
  }

  lemma FromDimensions(planes: seq<Plane>, width: nat, height: nat)
    requires |planes| == 2 && width > 0 && planes[0].height == height && (width % 32 == 0 ==> Roomy(planes, width))
    requires !IsNeedDelPadding(planes, width) <==> LumaUnpadded(width, height)
    requires LumaUnpadded(width, height) && height >= 4 && planes[1].stride != width <==> width % 64 == 32 && height % 128 == 0
    ensures SkipsWrongly(planes, width) <==> width % 64 == 32 && height % 128 == 0
  {
    if width % 32 == 0 {
      SkipsWronglyIff(planes, width);
    }
  }

  lemma AdrenoDimensions(width: nat, height: nat)
    requires height > 0
    ensures LumaUnpadded(width, height) && height >= 4 && AdrenoPlanes(width, height)[1].stride != width
      <==> width % 64 == 32 && height % 128 == 0
  {
    Remainders(width, height);
    if width % 32 == 0 {
      Halves(width);
      if height % 32 == 0 {
        PagesIff(width / 32, height / 32);
      }
    }
  }

  lemma Remainders(width: nat, height: nat)
    ensures width % 64 == 32 <==> width % 32 == 0 && (width / 32) % 2 == 1
    ensures width % 32 == 0 ==> width == 32 * (width / 32) && (width % 64 == 0 <==> (width / 32) % 2 == 0)
    ensures height % 32 == 0 ==> height == 32 * (height / 32) && (height % 128 == 0 <==> (height / 32) % 4 == 0)
    ensures height % 128 == 0 ==> height % 32 == 0
  {
    var a, r := width / 64, width % 64;
    assert width == 64 * a + r;
    if r < 32 {
      Divides(width, 2 * a, r, 32);
    } else {
      Divides(width, 2 * a + 1, r - 32, 32);
    }
    var b, t := height / 128, height % 128;
    assert height == 128 * b + t;
    Divides(height, 4 * b + t / 32, t % 32, 32);
  }

  /** The test lets exactly those Adreno layouts pass in which luma has no padding at all. */
  lemma AdrenoTestPassesIff(width: nat, height: nat)
    requires width > 0
    ensures !IsNeedDelPadding(AdrenoPlanes(width, height), width) <==> LumaUnpadded(width, height)
  {
    var stride, padded := PadToSize(width, 32), PadToSize(height, 32);
    UnpaddedIff(width, height, stride, padded, PadToSize(stride * padded, 4096));
  }

  lemma UnpaddedIff(width: nat, height: nat, stride: nat, padded: nat, len: nat)
    requires width > 0 && height <= padded && (padded == height <==> height % 32 == 0)
    requires stride == width <==> width % 32 == 0
    requires stride * padded <= len && (len == stride * padded <==> (stride * padded) % 4096 == 0)
    ensures stride == width && stride * height == len <==> LumaUnpadded(width, height)
  {
    if stride == width {
      MulStrictly(width, height, padded);
    }
  }

  lemma MulStrictly(a: nat, b: nat, c: nat)
    requires a > 0 && b <= c
    ensures a * b <= a * c && (a * b == a * c <==> b == c)
  {
    assert a * c == a * b + a * (c - b);
  }

  lemma Halves(width: nat)
    requires width % 32 == 0
    ensures PadToSize(width / 2, 32) * 2 == width <==> width % 64 == 0
  {
  }

  /** Four blocks of 32 x 32 fill a page; an odd number of columns needs rows of four. */
  lemma PagesIff(a: nat, b: nat)
    ensures a % 2 == 1 ==> (FillsPages(32 * a, 32 * b) <==> b % 4 == 0)
  {
    assert (32 * a) * (32 * b) == 1024 * (a * b);
    PagesOfBlocks(a * b);
    if a % 2 == 1 {
      OddTimes(a / 2, b);
    }
  }

  lemma PagesOfBlocks(n: nat)
    ensures (1024 * n) % 4096 == 0 <==> n % 4 == 0
  {
  }

  lemma OddTimes(k: nat, b: nat)
    ensures ((2 * k + 1) * b) % 4 == 0 <==> b % 4 == 0
  {
    var c := k / 2;
    Expand(c, b);
    RestByFour(c * b, b);
    assert k == 2 * c || k == 2 * c + 1;
  }

  lemma Expand(c: nat, b: nat)
    ensures (2 * (2 * c) + 1) * b == 4 * (c * b) + b
    ensures (2 * (2 * c + 1) + 1) * b == 4 * (c * b) + 3 * b
  {
  }

  lemma RestByFour(x: nat, b: nat)
    ensures (4 * x + b) % 4 == b % 4
    ensures (4 * x + 3 * b) % 4 == 0 <==> b % 4 == 0
  {
  }

  /** A preview of 160 x 128 pixels and a frame that is handed to the make-up library without the copy it needs. */
  lemma AdrenoExample() returns (planes: seq<Plane>, frame: seq<byte>)
    ensures planes == [Plane(0, 20480, 160, 128, 160), Plane(0, 12288, 160, 64, 192)] == AdrenoPlanes(160, 128)
    ensures |frame| == FrameLen(planes) && !IsNeedDelPadding(planes, 160) && Fits(planes, |frame|, |frame|)
    ensures Pack(frame, AllRows(planes), |AllRows(planes)|) != frame[..Total(AllRows(planes), |AllRows(planes)|)]
  {
    AdrenoPlanesAt160x128();
    AdrenoSkipsWronglyIff(160, 128);
    AdrenoIsRoomy(160, 128);
    planes, frame := UnpackedFrame(AdrenoPlanes(160, 128), 160);
  }

  lemma AdrenoPlanesAt160x128()
    ensures AdrenoPlanes(160, 128) == [Plane(0, 20480, 160, 128, 160), Plane(0, 12288, 160, 64, 192)]
  {
    assert PadToSize(160, 32) == 160 && PadToSize(128, 32) == 128 && PadToSize(80, 32) == 96 && PadToSize(64, 32) == 64;
    assert PadToSize(20480, 4096) == 20480 && PadToSize(12288, 4096) == 12288;
  }

  /** A frame of the layout that is not its own packed image. */
  lemma UnpackedFrame(layout: seq<Plane>, width: nat) returns (planes: seq<Plane>, frame: seq<byte>)
    requires Roomy(layout, width) && SkipsWrongly(layout, width)
    ensures planes == layout && |frame| == FrameLen(planes) && Fits(planes, |frame|, |frame|)
    ensures Pack(frame, AllRows(planes), |AllRows(planes)|) != frame[..Total(AllRows(planes), |AllRows(planes)|)]
  {
    planes := layout;
    var rows, n := AllRows(planes), FrameLen(planes);
    RoomyFits(planes, width, n);
    frame :| |frame| == n && Pack(frame, rows, |rows|) != frame[..Total(rows, |rows|)];
  }
}
