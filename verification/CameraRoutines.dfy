/** The copy routines of camera/QCamera2/HAL/QCamera2HWICallbacks.cpp, byte by byte: yuvDataRelocate, yuvDataRecover
  and the two paths of the preview callback.
 */
module CameraRoutines {
  import opened CameraPlanes
  import opened CameraLayouts

  /** Byte `x` of `a` and byte `y` of `b` exist and are the same. */
  ghost predicate SameByte<T>(a: seq<T>, x: nat, b: seq<T>, y: nat) {
    x < |a| && y < |b| && a[x] == b[y]
  }

  // ---------- one byte of a row ----------

  /** Byte `x` of row `k` is where it belongs in the packed image. */
  ghost predicate RowByte<T>(rows: seq<Row>, k: nat, x: nat, frame: seq<T>, packed: seq<T>)
    requires k < |rows|
  {
    SameByte(packed, Total(rows, k) + x, frame, rows[k].at + x)
  }

  ghost predicate AllRowBytes<T>(rows: seq<Row>, frame: seq<T>, packed: seq<T>) {
    forall k: nat, x: nat :: k < |rows| && x < rows[k].width ==> RowByte(rows, k, x, frame, packed)
  }

  lemma {:induction false} PackedByte<T>(buf: seq<T>, rows: seq<Row>, k: nat, l: nat, x: nat)
    requires Within(rows, |buf|) && k < l <= |rows| && x < rows[k].width
    ensures RowByte(rows, k, x, buf, Pack(buf, rows, l))
    decreases l
  {
    if k + 1 < l {
      PackedByte(buf, rows, k, l - 1, x);
    }
  }

  /** The same for a buffer over whose disjoint rows an image has been spread. */
  lemma UnpackedByte<T>(buf: seq<T>, packed: seq<T>, rows: seq<Row>, k: nat, x: nat)
    requires Within(rows, |buf|) && Disjoint(rows) && Total(rows, |rows|) <= |packed| && k < |rows| && x < rows[k].width
    ensures RowByte(rows, k, x, Unpack(buf, packed, rows, |rows|), packed)
  {
    PackUnpack(buf, packed, rows, |rows|);
    ByteOfPacked(Unpack(buf, packed, rows, |rows|), packed, rows, k, x);
  }

  lemma ByteOfPacked<T>(frame: seq<T>, packed: seq<T>, rows: seq<Row>, k: nat, x: nat)
    requires Within(rows, |frame|) && Total(rows, |rows|) <= |packed| && k < |rows| && x < rows[k].width
    requires Pack(frame, rows, |rows|) == packed[..Total(rows, |rows|)]
    ensures RowByte(rows, k, x, frame, packed)
  {
    PackedByte(frame, rows, k, |rows|, x);
    SameInPrefix(packed, Total(rows, |rows|), frame, Total(rows, k) + x, rows[k].at + x);
  }

  // ---------- yuvDataRelocate, yuvDataRecover ----------

  /** How many rows of plane `i` are copied. */
  function Lines(planes: seq<Plane>, i: nat): nat
    requires i < |planes|
  {
    if i == 0 then planes[0].height else planes[i - 1].height / 2
  }

  /** Where the packed rows of plane `i` begin: behind those of the planes before. */
  function PackedAt(planes: seq<Plane>, i: nat): nat
    requires i <= |planes|
  {
    if i == 0 then 0 else PackedAt(planes, i - 1) + Lines(planes, i - 1) * planes[i - 1].width
  }

  /** Where byte `x` of row `j` of plane `i` is in the frame: the plane's offset past the length of the plane before,
      then `j` strides. */
  function FrameAt(planes: seq<Plane>, i: nat, j: nat, x: nat): nat
    requires i < |planes|
  {
    planes[i].offset + (if i == 0 then 0 else planes[i - 1].len) + j * planes[i].stride + x
  }

  /** Byte `x` of row `j` of plane `i` is where it belongs in the packed image. */
  ghost predicate IsPacked<T>(planes: seq<Plane>, frame: seq<T>, packed: seq<T>, i: nat, j: nat, x: nat)
    requires i < |planes|
  {
    SameByte(packed, PackedAt(planes, i) + j * planes[i].width + x, frame, FrameAt(planes, i, j, x))
  }

  /** Every byte of every row of the frame is in the packed image, row after row and plane after plane. */
  ghost predicate RowsArePacked<T>(planes: seq<Plane>, frame: seq<T>, packed: seq<T>) {
    forall i: nat, j: nat, x: nat :: i < |planes| && j < Lines(planes, i) && x < planes[i].width ==>
      IsPacked(planes, frame, packed, i, j, x)
  }

  /** Byte `y` of the frame is padding. */
  ghost predicate InNoRow(planes: seq<Plane>, y: nat) {
    forall i: nat, j: nat :: i < |planes| && j < Lines(planes, i) ==>
      !(FrameAt(planes, i, j, 0) <= y < FrameAt(planes, i, j, planes[i].width))
  }

  /** Rows are no longer than their strides, and no plane begins before the last row of the one before has ended. */
  ghost predicate PlanesApart(planes: seq<Plane>) {
    && (forall i :: 0 <= i < |planes| ==> planes[i].width <= planes[i].stride)
    && (forall i: nat :: i + 1 < |planes| ==> EndAt(planes, i) <= FrameAt(planes, i + 1, 0, 0))
  }

  function EndAt(planes: seq<Plane>, i: nat): nat
    requires i < |planes|
  {
    if Lines(planes, i) == 0 then FrameAt(planes, i, 0, 0) else FrameAt(planes, i, Lines(planes, i) - 1, planes[i].width)
  }

  /** The row `j` of plane `i` among all rows, and where it goes. */
  lemma RowIs(planes: seq<Plane>, i: nat, j: nat)
    requires i < |planes| && j < Lines(planes, i)
    ensures var rows, k := AllRows(planes), Before(planes, i, j);
      && k < |rows| && rows[k].width == planes[i].width && rows[k].at == FrameAt(planes, i, j, 0)
      && Total(rows, k) == PackedAt(planes, i) + j * planes[i].width
  {
    NextRow(planes, i, j);
    RowStartIs(planes, i, j);
    TotalBefore(planes, i, j);
  }

  lemma {:induction false} TotalBefore(planes: seq<Plane>, i: nat, j: nat)
    requires i <= |planes| && (if i == |planes| then j == 0 else j <= Lines(planes, i))
    ensures Before(planes, i, j) <= |AllRows(planes)|
    ensures Total(AllRows(planes), Before(planes, i, j)) == PackedAt(planes, i) + if i == |planes| then 0 else j * planes[i].width
    decreases i, j
  {
    if j > 0 {
      TotalBefore(planes, i, j - 1);
      NextRow(planes, i, j - 1);
      Distributes(j - 1, planes[i].width);
    } else if i > 0 {
      TotalBefore(planes, i - 1, Lines(planes, i - 1));
    }
  }

  lemma RowsArePackedIf<T>(planes: seq<Plane>, frame: seq<T>, packed: seq<T>)
    requires AllRowBytes(AllRows(planes), frame, packed)
    ensures RowsArePacked(planes, frame, packed)
  {
    forall i: nat, j: nat, x: nat | i < |planes| && j < Lines(planes, i) && x < planes[i].width
      ensures IsPacked(planes, frame, packed, i, j, x)
    {
      RowIs(planes, i, j);
      assert RowByte(AllRows(planes), Before(planes, i, j), x, frame, packed);
    }
  }

  lemma RelocatedBytes<T>(planes: seq<Plane>, src: seq<T>, dst0: seq<T>)
    requires Fits(planes, |src|, |dst0|)
    ensures var rows := AllRows(planes);
      var dst := Overwrite(dst0, 0, Pack(src, rows, |rows|));
      && RowsArePacked(planes, src, dst)
      && forall y :: PackedAt(planes, |planes|) <= y < |dst0| ==> dst[y] == dst0[y]
  {
    var rows := AllRows(planes);
    var dst := Overwrite(dst0, 0, Pack(src, rows, |rows|));
    forall k: nat, x: nat | k < |rows| && x < rows[k].width ensures RowByte(rows, k, x, src, dst) {
      PackedByte(src, rows, k, |rows|, x);
    }
    RowsArePackedIf(planes, src, dst);
    TotalBefore(planes, |planes|, 0);
  }

  lemma RecoveredBytes<T>(planes: seq<Plane>, src: seq<T>, dst0: seq<T>)
    requires Fits(planes, |dst0|, |src|)
    ensures var rows := AllRows(planes);
      var dst := Unpack(dst0, src, rows, |rows|);
      && (PlanesApart(planes) ==> RowsArePacked(planes, dst, src))
      && forall y :: 0 <= y < |dst0| && InNoRow(planes, y) ==> dst[y] == dst0[y]
  {
    if PlanesApart(planes) {
      RecoveredRows(planes, src, dst0);
    }
    forall y | 0 <= y < |dst0| && InNoRow(planes, y)
      ensures Unpack(dst0, src, AllRows(planes), |AllRows(planes)|)[y] == dst0[y]
    {
      NoRowIsPadding(planes, y);
      PaddingIsUntouched(dst0, src, AllRows(planes), |AllRows(planes)|, y);
    }
  }

  lemma RecoveredRows<T>(planes: seq<Plane>, src: seq<T>, dst0: seq<T>)
    requires Fits(planes, |dst0|, |src|) && PlanesApart(planes)
    ensures RowsArePacked(planes, Unpack(dst0, src, AllRows(planes), |AllRows(planes)|), src)
  {
    var rows := AllRows(planes);
    var dst := Unpack(dst0, src, rows, |rows|);
    ApartIsDisjoint(planes);
    forall k: nat, x: nat | k < |rows| && x < rows[k].width ensures RowByte(rows, k, x, dst, src) {
      UnpackedByte(dst0, src, rows, k, x);
    }
    RowsArePackedIf(planes, dst, src);
  }

  lemma ApartIsDisjoint(planes: seq<Plane>)
    requires PlanesApart(planes)
    ensures Disjoint(AllRows(planes))
  {
    if planes != [] {
      var last := |planes| - 1;
      forall i | 0 <= i < |planes| - 1 ensures RowsEnd(planes, i, RowCount(planes, i)) <= CameraPlanes.Base(planes, i + 1) {
        if RowCount(planes, i) > 0 {
          RowStartIs(planes, i, RowCount(planes, i) - 1);
        }
        assert EndAt(planes, i) <= FrameAt(planes, i + 1, 0, 0);
      }
      RowsAreDisjoint(planes, last, RowCount(planes, last));
      assert AllRows(planes) == Rows(planes, last, RowCount(planes, last));
    }
  }

  lemma NoRowIsPadding(planes: seq<Plane>, y: nat)
    requires InNoRow(planes, y)
    ensures IsPadding(AllRows(planes), y)
  {
    NoneBefore(planes, |planes|, 0, y);
  }

  lemma {:induction false} NoneBefore(planes: seq<Plane>, i: nat, j: nat, y: nat)
    requires i <= |planes| && (if i == |planes| then j == 0 else j <= Lines(planes, i)) && InNoRow(planes, y)
    ensures IsPadding(Rows(planes, i, j), y)
    decreases i, j
  {
    if j > 0 {
      NoneBefore(planes, i, j - 1, y);
      RowStartIs(planes, i, j - 1);
      assert !(FrameAt(planes, i, j - 1, 0) <= y < FrameAt(planes, i, j - 1, planes[i].width));
    } else if i > 0 {
      NoneBefore(planes, i - 1, Lines(planes, i - 1), y);
    }
  }

  /** `dst` receives the packed image; what lies behind it stays. */
  method YuvDataRelocate<T>(src: array<T>, dst: array<T>, planes: seq<Plane>)
    requires src != dst && Fits(planes, src.Length, dst.Length)
    modifies dst
    ensures RowsArePacked(planes, src[..], dst[..])
    ensures forall y :: PackedAt(planes, |planes|) <= y < dst.Length ==> dst[y] == old(dst[y])
    ensures dst[..] == Overwrite(old(dst[..]), 0, Pack(src[..], AllRows(planes), |AllRows(planes)|))
  {
    var offsetW := 0;
    var i := 0;
    while i < |planes|
      invariant 0 <= i <= |planes|
      invariant Relocating(AllRows(planes), Before(planes, i, 0), src[..], old(dst[..]), dst[..], offsetW)
    {
      offsetW := RelocatePlane(src, dst, planes, i, offsetW, old(dst[..]));
      i := i + 1;
    }
    RelocatedBytes(planes, src[..], old(dst[..]));
  }

  method YuvDataRecover<T>(src: array<T>, dst: array<T>, planes: seq<Plane>)
    requires src != dst && Fits(planes, dst.Length, src.Length)
    modifies dst
    ensures PlanesApart(planes) ==> RowsArePacked(planes, dst[..], src[..])
    ensures forall y :: 0 <= y < dst.Length && InNoRow(planes, y) ==> dst[y] == old(dst[y])
    ensures dst[..] == Unpack(old(dst[..]), src[..], AllRows(planes), |AllRows(planes)|)
  {
    var offsetW := 0;
    var i := 0;
    while i < |planes|
      invariant 0 <= i <= |planes|
      invariant Recovering(AllRows(planes), Before(planes, i, 0), src[..], old(dst[..]), dst[..], offsetW)
    {
      offsetW := RecoverPlane(src, dst, planes, i, offsetW, old(dst[..]));
      i := i + 1;
    }
    RecoveredBytes(planes, src[..], old(dst[..]));
  }

  // ---------- sendPreviewCallback ----------

  /** Byte `x` of luma row `i` of the application's image is that of the frame. */
  ghost predicate LumaByte<T>(image: seq<T>, frame: seq<T>, yStride: nat, width: nat, i: nat, x: nat) {
    SameByte(image, i * width + x, frame, i * yStride + x)
  }

  /** The same for chroma, behind `luma` bytes of the image and `base` of the frame. */
  ghost predicate ChromaByte<T>(image: seq<T>, luma: nat, frame: seq<T>, base: nat, uvStride: nat, width: nat, i: nat, x: nat) {
    SameByte(image, luma + i * width + x, frame, base + i * uvStride + x)
  }

  lemma PreviewBytes<T>(image: seq<T>, frame: seq<T>, yStride: nat, yScanline: nat, uvStride: nat, width: nat, height: nat)
    requires var rows := AllRows(PreviewPlanes(yStride, yScanline, uvStride, width, height));
      && Within(rows, |frame|) && AppSize(width, height) <= |image|
      && image[..AppSize(width, height)] == Pack(frame, rows, |rows|)
    ensures forall i: nat, x: nat :: i < height && x < width ==> LumaByte(image, frame, yStride, width, i, x)
    ensures forall i: nat, x: nat :: i < height / 2 && x < width ==>
      ChromaByte(image, width * height, frame, yStride * yScanline, uvStride, width, i, x)
  {
    var planes := PreviewPlanes(yStride, yScanline, uvStride, width, height);
    LumaBytes(image, frame, planes, AppSize(width, height));
    ChromaFollowsLuma(planes);
    ChromaBytes(image, frame, planes, AppSize(width, height), width * height);
  }

  lemma LumaBytes<T>(image: seq<T>, frame: seq<T>, planes: seq<Plane>, size: nat)
    requires |planes| == 2 && planes[0].offset == 0 && Within(AllRows(planes), |frame|) && size <= |image|
    requires image[..size] == Pack(frame, AllRows(planes), |AllRows(planes)|)
    ensures forall i: nat, x: nat :: i < planes[0].height && x < planes[0].width ==>
      LumaByte(image, frame, planes[0].stride, planes[0].width, i, x)
  {
    forall i: nat, x: nat | i < planes[0].height && x < planes[0].width
      ensures LumaByte(image, frame, planes[0].stride, planes[0].width, i, x)
    {
      PreviewByte(image, frame, planes, 0, i, x, size);
      LumaIsPacked(image, frame, planes, i, x);
    }
  }

  lemma ChromaBytes<T>(image: seq<T>, frame: seq<T>, planes: seq<Plane>, size: nat, luma: nat)
    requires |planes| == 2 && planes[1].offset == 0 && Within(AllRows(planes), |frame|) && size <= |image|
    requires image[..size] == Pack(frame, AllRows(planes), |AllRows(planes)|) && luma == PackedAt(planes, 1)
    ensures forall i: nat, x: nat :: i < planes[0].height / 2 && x < planes[1].width ==>
      ChromaByte(image, luma, frame, planes[0].len, planes[1].stride, planes[1].width, i, x)
  {
    forall i: nat, x: nat | i < planes[0].height / 2 && x < planes[1].width
      ensures ChromaByte(image, luma, frame, planes[0].len, planes[1].stride, planes[1].width, i, x)
    {
      PreviewByte(image, frame, planes, 1, i, x, size);
      ChromaIsPacked(image, frame, planes, luma, i, x);
    }
  }

  lemma LumaIsPacked<T>(image: seq<T>, frame: seq<T>, planes: seq<Plane>, i: nat, x: nat)
    requires |planes| == 2 && planes[0].offset == 0 && IsPacked(planes, frame, image, 0, i, x)
    ensures LumaByte(image, frame, planes[0].stride, planes[0].width, i, x)
  {
  }

  lemma ChromaIsPacked<T>(image: seq<T>, frame: seq<T>, planes: seq<Plane>, luma: nat, i: nat, x: nat)
    requires |planes| == 2 && planes[1].offset == 0 && luma == PackedAt(planes, 1) && IsPacked(planes, frame, image, 1, i, x)
    ensures ChromaByte(image, luma, frame, planes[0].len, planes[1].stride, planes[1].width, i, x)
  {
  }

  lemma ChromaFollowsLuma(planes: seq<Plane>)
    requires |planes| == 2
    ensures PackedAt(planes, 1) == planes[0].width * planes[0].height
  {
    Commutes(planes[0].width, planes[0].height);
    assert PackedAt(planes, 1) == PackedAt(planes, 0) + Lines(planes, 0) * planes[0].width;
  }

  lemma PreviewByte<T>(image: seq<T>, frame: seq<T>, planes: seq<Plane>, p: nat, i: nat, x: nat, size: nat)
    requires Within(AllRows(planes), |frame|) && size <= |image|
    requires image[..size] == Pack(frame, AllRows(planes), |AllRows(planes)|)
    requires p < |planes| && i < Lines(planes, p) && x < planes[p].width
    ensures IsPacked(planes, frame, image, p, i, x)
  {
    assert size == Total(AllRows(planes), |AllRows(planes)|);
    RowIs(planes, p, i);
    ByteOfPacked(frame, image, AllRows(planes), Before(planes, p, i), x);
  }

  lemma SameInPrefix<T>(a: seq<T>, n: nat, b: seq<T>, x: nat, y: nat)
    requires n <= |a| && SameByte(a[..n], x, b, y)
    ensures SameByte(a, x, b, y)
  {
  }

  /** The image handed to the application, as the first AppSize bytes of `image`: the frame's own memory when the
      total sizes agree, else a copy of its rows.  Either way it is the packed picture. */
  method SendPreview<T(0)>(frame: array<T>, yStride: nat, yScanline: nat, uvStride: nat, uvScanline: nat,
                           width: nat, height: nat) returns (image: array<T>)
    requires 0 < width <= yStride && width <= uvStride && 2 <= height <= yScanline && height / 2 <= uvScanline
    requires frame.Length >= FrameSize(yStride, yScanline, uvStride, uvScanline)
    ensures forall i: nat, x: nat :: i < height && x < width ==> LumaByte(image[..], frame[..], yStride, width, i, x)
    ensures forall i: nat, x: nat :: i < height / 2 && x < width ==>
      ChromaByte(image[..], width * height, frame[..], yStride * yScanline, uvStride, width, i, x)
    ensures image.Length >= AppSize(width, height)
    ensures var rows := AllRows(PreviewPlanes(yStride, yScanline, uvStride, width, height));
      Within(rows, frame.Length) && image[..AppSize(width, height)] == Pack(frame[..], rows, |rows|)
    ensures if yStride == uvStride == width && yScanline == height && uvScanline == height / 2
      then image == frame else fresh(image) && image.Length == width * height + width * (height / 2)
  {
    PreviewRows(yStride, yScanline, uvStride, uvScanline, width, height);
    SizesAgreeIffPacked(yStride, yScanline, uvStride, uvScanline, width, height);
    if AppSize(width, height) == FrameSize(yStride, yScanline, uvStride, uvScanline) {
      image := frame;
      PackedPreviewIsItself(frame[..], width, height);
    } else {
      image := CopyPreview(frame, yStride, yScanline, uvStride, width, height);
    }
    PreviewBytes(image[..], frame[..], yStride, yScanline, uvStride, width, height);
  }
}
