/** When the copies of `CameraPlanes` are lossless, fit their buffers, and may be skipped: isNeedDelPadding and the
  copying path of the preview callback.
 */
module CameraLayouts {
  import opened CameraPlanes

  // ---------- planes that do not overlap ----------

  /** One past the last byte of the first `j` rows of plane `i`. */
  function RowsEnd(planes: seq<Plane>, i: nat, j: nat): nat
    requires i < |planes|
  {
    if j == 0 then Base(planes, i) else RowAt(planes, i, j - 1).at + planes[i].width
  }

  /** Rows no longer than the stride, each plane after the one before. */
  ghost predicate Ascending(planes: seq<Plane>) {
    && (forall i :: 0 <= i < |planes| ==> planes[i].width <= planes[i].stride)
    && (forall i :: 0 <= i < |planes| - 1 ==> RowsEnd(planes, i, RowCount(planes, i)) <= Base(planes, i + 1))
  }

  ghost predicate EndsBy(rows: seq<Row>, end: nat) {
    forall k :: 0 <= k < |rows| ==> rows[k].at + rows[k].width <= end
  }

  lemma {:induction false} RowsAreDisjoint(planes: seq<Plane>, i: nat, j: nat)
    requires Ascending(planes) && i < |planes| && j <= RowCount(planes, i)
    ensures Disjoint(Rows(planes, i, j)) && EndsBy(Rows(planes, i, j), RowsEnd(planes, i, j))
    decreases i, j
  {
    if j > 0 {
      RowsAreDisjoint(planes, i, j - 1);
      var rows, r := Rows(planes, i, j - 1), RowAt(planes, i, j - 1);
      assert RowsEnd(planes, i, j - 1) <= r.at;
      assert Rows(planes, i, j) == rows + [r];
    } else if i > 0 {
      RowsAreDisjoint(planes, i - 1, RowCount(planes, i - 1));
      assert RowsEnd(planes, i - 1, RowCount(planes, i - 1)) <= Base(planes, i - 1 + 1);
    }
  }

  /** For every layout of planes that follow each other, the two routines undo each other: recovering into a
      frame and relocating it gives the packed image back, relocating a frame and recovering gives the frame
      back, and recovering leaves every padding byte alone. */
  lemma CopiesUndoEachOther<T>(frame: seq<T>, packed: seq<T>, planes: seq<Plane>)
    requires planes != [] && Ascending(planes) && Within(AllRows(planes), |frame|)
    requires Total(AllRows(planes), |AllRows(planes)|) <= |packed|
    ensures var rows, n := AllRows(planes), |AllRows(planes)|;
      && Pack(Unpack(frame, packed, rows, n), rows, n) == packed[..Total(rows, n)]
      && Unpack(frame, Overwrite(packed, 0, Pack(frame, rows, n)), rows, n) == frame
      && forall x :: 0 <= x < |frame| && IsPadding(rows, x) ==> Unpack(frame, packed, rows, n)[x] == frame[x]
  {
    var rows, last := AllRows(planes), |planes| - 1;
    var n := |rows|;
    assert Disjoint(rows) by {
      RowsAreDisjoint(planes, last, RowCount(planes, last));
      assert rows == Rows(planes, last, RowCount(planes, last));
    }
    PackUnpack(frame, packed, rows, n);
    UnpackPack(frame, Overwrite(packed, 0, Pack(frame, rows, n)), rows, n);
    forall x | 0 <= x < |frame| && IsPadding(rows, x) ensures Unpack(frame, packed, rows, n)[x] == frame[x] {
      PaddingIsUntouched(frame, packed, rows, n, x);
    }
  }

  /** No row covers byte `x`. */
  ghost predicate IsPadding(rows: seq<Row>, x: nat) {
    forall l :: 0 <= l < |rows| ==> !(rows[l].at <= x < rows[l].at + rows[l].width)
  }

  // ---------- two planes of one width (NV12, NV21) ----------

  ghost predicate SemiPlanar(planes: seq<Plane>, width: nat) {
    |planes| == 2 && planes[0].width == planes[1].width == width
  }

  lemma {:induction false} RowsOfFirst(planes: seq<Plane>, j: nat)
    requires planes != []
    ensures |Rows(planes, 0, j)| == j && forall k :: 0 <= k < j ==> Rows(planes, 0, j)[k] == RowAt(planes, 0, k)
  {
    if j > 0 {
      RowsOfFirst(planes, j - 1);
    }
  }

  lemma {:induction false} RowsOfSecond(planes: seq<Plane>, j: nat)
    requires |planes| == 2
    ensures var h, rows := planes[0].height, Rows(planes, 1, j);
      && |rows| == h + j
      && (forall k :: 0 <= k < h ==> rows[k] == RowAt(planes, 0, k))
      && (forall k :: 0 <= k < j ==> rows[h + k] == RowAt(planes, 1, k))
  {
    if j > 0 {
      RowsOfSecond(planes, j - 1);
    } else {
      RowsOfFirst(planes, planes[0].height);
      assert Rows(planes, 1, 0) == Rows(planes, 0, planes[0].height);
    }
  }

  lemma {:induction false} TotalOfEqual(rows: seq<Row>, k: nat, width: nat)
    requires k <= |rows| && forall l :: 0 <= l < k ==> rows[l].width == width
    ensures Total(rows, k) == k * width
  {
    if k > 0 {
      TotalOfEqual(rows, k - 1, width);
      Distributes(k - 1, width);
    }
  }

  lemma SemiPlanarRows(planes: seq<Plane>, width: nat)
    requires SemiPlanar(planes, width)
    ensures var h, rows := planes[0].height, AllRows(planes);
      && |rows| == h + h / 2
      && (forall k :: 0 <= k < h ==> rows[k] == RowAt(planes, 0, k))
      && (forall k :: 0 <= k < h / 2 ==> rows[h + k] == RowAt(planes, 1, k))
      && (forall k :: 0 <= k < |rows| ==> rows[k].width == width)
      && (forall k :: 0 <= k <= |rows| ==> Total(rows, k) == k * width)
  {
    var h, rows := planes[0].height, AllRows(planes);
    RowsOfSecond(planes, h / 2);
    assert rows == Rows(planes, 1, h / 2);
    forall k | 0 <= k < |rows| ensures rows[k].width == width {
      if k >= h {
        assert rows[h + (k - h)] == RowAt(planes, 1, k - h);
      }
    }
    forall k | 0 <= k <= |rows| ensures Total(rows, k) == k * width {
      TotalOfEqual(rows, k, width);
    }
  }

  /** The temporary buffer of width * height * 3 / 2 bytes holds the packed image. */
  lemma PackedFits(planes: seq<Plane>, width: nat)
    requires SemiPlanar(planes, width)
    ensures Total(AllRows(planes), |AllRows(planes)|) <= width * planes[0].height * 3 / 2
  {
    SemiPlanarRows(planes, width);
    HalfAgain(planes[0].height, width);
  }

  lemma HalfAgain(h: nat, width: nat)
    ensures (h + h / 2) * width <= width * h * 3 / 2
  {
    MulMonotone(2 * (h + h / 2), 3 * h, width);
    assert 2 * (h + h / 2) * width == 2 * ((h + h / 2) * width);
    assert width * h * 3 == 3 * h * width;
  }

  lemma MulMonotone(a: int, b: int, c: nat)
    requires a <= b
    ensures a * c <= b * c
  {
  }

  lemma MulStrict(a: nat, b: nat, x: nat, y: nat)
    requires a <= x && b <= y && 0 < a && 0 < b
    ensures a * b <= x * y
    ensures a * b == x * y ==> a == x && b == y
  {
    assert x * y == a * b + (x - a) * y + a * (y - b);
  }

  // ---------- isNeedDelPadding ----------

  /** Only the first plane is looked at. */
  predicate IsNeedDelPadding(planes: seq<Plane>, width: nat)
    requires planes != []
  {
    planes[0].stride != width || planes[0].stride * planes[0].height != planes[0].len
  }

  /** What isNeedDelPadding does not look at: the offsets, and the padding between chroma rows. */
  predicate NothingOverlooked(planes: seq<Plane>, width: nat)
    requires |planes| == 2
  {
    var h := planes[0].height;
    && (h >= 1 ==> planes[0].offset == 0)
    && (h >= 2 ==> planes[1].offset == 0)
    && (h >= 4 ==> planes[1].stride == width)
  }

  /** Skipping the copy when isNeedDelPadding is false gives the packed image of every frame exactly when there was
      nothing in the offsets and the chroma plane for it to overlook. */
  lemma SkippingIsRightIff(planes: seq<Plane>, width: nat, size: nat)
    requires SemiPlanar(planes, width) && width > 0 && !IsNeedDelPadding(planes, width) && Fits(planes, size, size)
    ensures PackIsIdentity(AllRows(planes), size) <==> NothingOverlooked(planes, width)
  {
    PackIsIdentityWhenContiguous(planes, width, size);
    LumaIsUnpadded(planes, width);
    ContiguousIff(planes, width);
  }

  lemma LumaIsUnpadded(planes: seq<Plane>, width: nat)
    requires planes != [] && !IsNeedDelPadding(planes, width)
    ensures planes[0].stride == width && planes[0].len == planes[0].height * width
  {
  }

  lemma ContiguousIff(planes: seq<Plane>, width: nat)
    requires SemiPlanar(planes, width) && planes[0].stride == width && planes[0].len == planes[0].height * width
    ensures Contiguous(AllRows(planes)) <==> NothingOverlooked(planes, width)
  {
    if Contiguous(AllRows(planes)) {
      ContiguousChroma(planes, width);
    }
    if NothingOverlooked(planes, width) {
      UnpaddedIsContiguous(planes, width);
    }
  }

  lemma ContiguousChroma(planes: seq<Plane>, width: nat)
    requires SemiPlanar(planes, width) && planes[0].len == planes[0].height * width && Contiguous(AllRows(planes))
    ensures NothingOverlooked(planes, width)
  {
    var h := planes[0].height;
    if h >= 1 {
      RowInPlace(planes, width, 0);
    }
    if h >= 2 {
      RowInPlace(planes, width, h);
    }
    if h >= 4 {
      RowInPlace(planes, width, h + 1);
      assert RowStart(planes, 1, 1) == RowStart(planes, 1, 0) + planes[1].stride;
      Distributes(h, width);
    }
  }

  lemma RowInPlace(planes: seq<Plane>, width: nat, k: nat)
    requires SemiPlanar(planes, width) && k < planes[0].height + planes[0].height / 2 && Contiguous(AllRows(planes))
    ensures var h := planes[0].height;
      (if k < h then RowStart(planes, 0, k) else RowStart(planes, 1, k - h)) == k * width
  {
    var h, rows := planes[0].height, AllRows(planes);
    SemiPlanarRows(planes, width);
    assert InPlace(rows, k) && (k >= h ==> rows[h + (k - h)] == RowAt(planes, 1, k - h));
  }

  /** Luma rows end to end, chroma rows end to end right behind them. */
  lemma UnpaddedIsContiguous(planes: seq<Plane>, width: nat)
    requires SemiPlanar(planes, width) && planes[0].stride == width
    requires planes[0].len == planes[0].height * width && NothingOverlooked(planes, width)
    ensures Contiguous(AllRows(planes))
  {
    var h, rows := planes[0].height, AllRows(planes);
    SemiPlanarRows(planes, width);
    forall k | 0 <= k < |rows| ensures InPlace(rows, k) {
      assert Total(rows, k) == k * width;
      if k < h {
        assert rows[k] == RowAt(planes, 0, k);
        RowStartIs(planes, 0, k);
      } else {
        assert rows[h + (k - h)] == RowAt(planes, 1, k - h);
        RowStartIs(planes, 1, k - h);
        ChromaRowAt(h, k - h, width, planes[1].stride);
      }
    }
  }

  lemma PackIsIdentityWhenContiguous(planes: seq<Plane>, width: nat, size: nat)
    requires SemiPlanar(planes, width) && width > 0
    requires Fits(planes, size, size)
    ensures PackIsIdentity(AllRows(planes), size) <==> Contiguous(AllRows(planes))
  {
    SemiPlanarRows(planes, width);
    PackIsIdentityIff(AllRows(planes), size);
  }

  lemma ChromaRowAt(h: nat, j: nat, width: nat, stride: nat)
    requires j < h / 2 && (stride == width || h < 4)
    ensures h * width + j * stride == (h + j) * width
  {
    assert h < 4 ==> j == 0;
  }

  // ---------- sendPreviewCallback, NV12 and NV21 ----------

  /** The preview frame as two planes; the chroma plane follows yStride * yScanline bytes of luma. */
  function PreviewPlanes(yStride: nat, yScanline: nat, uvStride: nat, width: nat, height: nat): seq<Plane> {
    [Plane(0, yStride * yScanline, width, height, yStride), Plane(0, 0, width, 0, uvStride)]
  }

  /** previewBufSize and previewBufSizeFromCallback. */
  function AppSize(width: nat, height: nat): nat {
    width * height + width * (height / 2)
  }

  function FrameSize(yStride: nat, yScanline: nat, uvStride: nat, uvScanline: nat): nat {
    yStride * yScanline + uvStride * uvScanline
  }

  /** With strides and scanlines no smaller than the picture, the total sizes agree only when nothing is padded. */
  lemma SizesAgreeIffPacked(yStride: nat, yScanline: nat, uvStride: nat, uvScanline: nat, width: nat, height: nat)
    requires 0 < width <= yStride && width <= uvStride && 2 <= height <= yScanline && height / 2 <= uvScanline
    ensures AppSize(width, height) == FrameSize(yStride, yScanline, uvStride, uvScanline)
      <==> yStride == uvStride == width && yScanline == height && uvScanline == height / 2
  {
    MulStrict(width, height, yStride, yScanline);
    MulStrict(width, height / 2, uvStride, uvScanline);
  }

  lemma PreviewRows(yStride: nat, yScanline: nat, uvStride: nat, uvScanline: nat, width: nat, height: nat)
    requires 0 < width <= yStride && width <= uvStride && height <= yScanline && height / 2 <= uvScanline
    ensures var rows := AllRows(PreviewPlanes(yStride, yScanline, uvStride, width, height));
      && Within(rows, FrameSize(yStride, yScanline, uvStride, uvScanline))
      && Total(rows, |rows|) == AppSize(width, height)
  {
    var planes := PreviewPlanes(yStride, yScanline, uvStride, width, height);
    var rows := AllRows(planes);
    SemiPlanarRows(planes, width);
    AppSizeIs(width, height);
    forall k | 0 <= k < |rows| ensures rows[k].at + rows[k].width <= FrameSize(yStride, yScanline, uvStride, uvScanline) {
      if k < height {
        assert rows[k] == RowAt(planes, 0, k);
        RowStartIs(planes, 0, k);
        LumaFits(k, height, yStride, yScanline, uvStride, uvScanline, width);
      } else {
        assert rows[height + (k - height)] == RowAt(planes, 1, k - height);
        RowStartIs(planes, 1, k - height);
        ChromaFits(k - height, height / 2, yStride, yScanline, uvStride, uvScanline, width);
      }
    }
  }

  lemma AppSizeIs(width: nat, height: nat)
    ensures (height + height / 2) * width == AppSize(width, height)
  {
  }

  lemma LumaFits(k: nat, rows: nat, yStride: nat, yScanline: nat, uvStride: nat, uvScanline: nat, width: nat)
    requires k < rows <= yScanline && width <= yStride
    ensures k * yStride + width <= FrameSize(yStride, yScanline, uvStride, uvScanline)
  {
    RowFits(k, rows, yStride, yScanline, width);
  }

  lemma ChromaFits(k: nat, rows: nat, yStride: nat, yScanline: nat, uvStride: nat, uvScanline: nat, width: nat)
    requires k < rows <= uvScanline && width <= uvStride
    ensures yStride * yScanline + k * uvStride + width <= FrameSize(yStride, yScanline, uvStride, uvScanline)
  {
    RowFits(k, rows, uvStride, uvScanline, width);
  }

  lemma RowFits(k: nat, rows: nat, stride: nat, scanline: nat, width: nat)
    requires k < rows <= scanline && width <= stride
    ensures k * stride + width <= stride * scanline
  {
    MulMonotone(k + 1, scanline, stride);
    assert (k + 1) * stride == k * stride + stride;
  }

  /** On an unpadded frame copying the rows gives the frame itself. */
  lemma PackedPreviewIsItself<T>(frame: seq<T>, width: nat, height: nat)
    requires 0 < width && |frame| >= AppSize(width, height)
    ensures var rows := AllRows(PreviewPlanes(width, height, width, width, height));
      Within(rows, |frame|) && Pack(frame, rows, |rows|) == frame[..AppSize(width, height)]
  {
    var planes := PreviewPlanes(width, height, width, width, height);
    PreviewRows(width, height, width, height / 2, width, height);
    assert Contiguous(AllRows(planes)) by {
      Commutes(width, height);
      UnpaddedIsContiguous(planes, width);
    }
    PackContiguous(frame, AllRows(planes), AppSize(width, height));
  }

  lemma PackContiguous<T>(frame: seq<T>, rows: seq<Row>, size: nat)
    requires Within(rows, size) && Contiguous(rows) && Total(rows, |rows|) == size <= |frame|
    ensures Within(rows, |frame|) && Pack(frame, rows, |rows|) == frame[..size]
  {
    ContiguousPackIsIdentity(frame, rows, |rows|);
  }

  lemma Commutes(a: nat, b: nat)
    ensures a * b == b * a
  {
  }

  method CopyPreview<T(0)>(frame: array<T>, yStride: nat, yScanline: nat, uvStride: nat, width: nat, height: nat)
    returns (image: array<T>)
    requires var rows := AllRows(PreviewPlanes(yStride, yScanline, uvStride, width, height));
      Within(rows, frame.Length) && Total(rows, |rows|) == AppSize(width, height)
    ensures fresh(image) && image.Length == AppSize(width, height)
    ensures var rows := AllRows(PreviewPlanes(yStride, yScanline, uvStride, width, height));
      image[..] == Pack(frame[..], rows, |rows|)
  {
    image := new T[AppSize(width, height)];
    ghost var planes, image0 := PreviewPlanes(yStride, yScanline, uvStride, width, height), image[..];
    assert image[..] == Overwrite(image0, 0, []);
    CopyRows(frame, image, height, 0, yStride, 0, width, planes, 0, image0);
    DstAtIs(0, height, width);
    Commutes(width, height);
    assert Relocating(AllRows(planes), Before(planes, 1, 0), frame[..], image0, image[..], width * height);
    CopyRows(frame, image, height / 2, yStride * yScanline, uvStride, width * height, width, planes, 1, image0);
    assert AllRows(planes) == Rows(planes, 1, height / 2);
  }

  /** Where row `i` of a packed plane goes. */
  ghost function DstAt(dstBase: nat, i: nat, width: nat): nat {
    if i == 0 then dstBase else DstAt(dstBase, i - 1, width) + width
  }

  lemma {:induction false} DstAtIs(dstBase: nat, i: nat, width: nat)
    ensures DstAt(dstBase, i, width) == dstBase + i * width
  {
    if i > 0 {
      DstAtIs(dstBase, i - 1, width);
      Distributes(i - 1, width);
    }
  }

  /** Either copying loop of the preview callback. */
  method CopyRows<T>(frame: array<T>, image: array<T>, rows: nat, srcBase: nat, srcStride: nat, dstBase: nat, width: nat,
                     ghost planes: seq<Plane>, ghost p: nat, ghost image0: seq<T>)
    requires frame != image && Fits(planes, frame.Length, |image0|)
    requires p < |planes| && Base(planes, p) == srcBase && RowCount(planes, p) == rows
    requires planes[p].stride == srcStride && planes[p].width == width
    requires Relocating(AllRows(planes), Before(planes, p, 0), frame[..], image0, image[..], dstBase)
    modifies image
    ensures Relocating(AllRows(planes), Before(planes, p, rows), frame[..], image0, image[..], DstAt(dstBase, rows, width))
  {
    var i := 0;
    while i < rows
      invariant 0 <= i <= rows
      invariant Relocating(AllRows(planes), Before(planes, p, i), frame[..], image0, image[..], DstAt(dstBase, i, width))
    {
      CopyRow(frame, image, i, srcBase, srcStride, dstBase, width, planes, p, image0);
      i := i + 1;
    }
  }

  method CopyRow<T>(frame: array<T>, image: array<T>, i: nat, srcBase: nat, srcStride: nat, dstBase: nat, width: nat,
                    ghost planes: seq<Plane>, ghost p: nat, ghost image0: seq<T>)
    requires frame != image && Fits(planes, frame.Length, |image0|)
    requires p < |planes| && Base(planes, p) == srcBase && i < RowCount(planes, p)
    requires planes[p].stride == srcStride && planes[p].width == width
    requires Relocating(AllRows(planes), Before(planes, p, i), frame[..], image0, image[..], DstAt(dstBase, i, width))
    modifies image
    ensures Relocating(AllRows(planes), Before(planes, p, i + 1), frame[..], image0, image[..], DstAt(dstBase, i + 1, width))
  {
    var srcOffset, dstOffset := Offsets(i, srcBase, srcStride, dstBase, width, planes, p);
    RelocateOne(frame, image, planes, p, i, srcOffset, dstOffset, width, image0);
  }

  /** srcOffset and dstOffset of row `i`. */
  method Offsets(i: nat, srcBase: nat, srcStride: nat, dstBase: nat, width: nat, ghost planes: seq<Plane>, ghost p: nat)
    returns (srcOffset: nat, dstOffset: nat)
    requires p < |planes| && Base(planes, p) == srcBase && planes[p].stride == srcStride
    ensures srcOffset == RowStart(planes, p, i)
    ensures dstOffset == DstAt(dstBase, i, width)
  {
    RowStartIs(planes, p, i);
    DstAtIs(dstBase, i, width);
    srcOffset, dstOffset := i * srcStride + srcBase, i * width + dstBase;
  }

  lemma Distributes(i: nat, width: nat)
    ensures (i + 1) * width == i * width + width
  {
  }
}
