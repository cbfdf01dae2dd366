/** Strided and packed image planes in camera/QCamera2/HAL/QCamera2HWICallbacks.cpp: the two copy routines of the
  make-up filter.
 */
module CameraPlanes {

  // ---------- rows ----------

  type byte = x: int | 0 <= x < 256

  /** A row of pixels in a strided buffer. */
  datatype Row = Row(at: nat, width: nat)

  ghost predicate Within(rows: seq<Row>, size: nat) {
    forall k :: 0 <= k < |rows| ==> rows[k].at + rows[k].width <= size
  }

  /** The length of the first `k` rows. */
  ghost function Total(rows: seq<Row>, k: nat): nat
    requires k <= |rows|
  {
    if k == 0 then 0 else Total(rows, k - 1) + rows[k - 1].width
  }

  lemma {:induction false} TotalGrows(rows: seq<Row>, k: nat, l: nat)
    requires k <= l <= |rows|
    ensures Total(rows, k) <= Total(rows, l)
    decreases l
  {
    if k < l {
      TotalGrows(rows, k, l - 1);
    }
  }

  /** The packed image: the first `k` rows, one after the other. */
  ghost function Pack<T>(buf: seq<T>, rows: seq<Row>, k: nat): (p: seq<T>)
    requires Within(rows, |buf|) && k <= |rows|
    ensures |p| == Total(rows, k)
  {
    if k == 0 then [] else Pack(buf, rows, k - 1) + buf[rows[k - 1].at..rows[k - 1].at + rows[k - 1].width]
  }

  /** `buf` with `bytes` stored from `at` on. */
  ghost function Overwrite<T>(buf: seq<T>, at: nat, bytes: seq<T>): (b: seq<T>)
    requires at + |bytes| <= |buf|
    ensures |b| == |buf|
    ensures forall i :: 0 <= i < |buf| ==> b[i] == if at <= i < at + |bytes| then bytes[i - at] else buf[i]
  {
    buf[..at] + bytes + buf[at + |bytes|..]
  }

  /** The strided buffer after the packed image has been spread over its first `k` rows. */
  ghost function Unpack<T>(buf: seq<T>, packed: seq<T>, rows: seq<Row>, k: nat): (b: seq<T>)
    requires Within(rows, |buf|) && k <= |rows| && Total(rows, k) <= |packed|
    ensures |b| == |buf|
  {
    if k == 0 then buf
    else Overwrite(Unpack(buf, packed, rows, k - 1), rows[k - 1].at, packed[Total(rows, k - 1)..Total(rows, k)])
  }

  ghost predicate Apart(r: Row, q: Row) {
    r.at + r.width <= q.at || q.at + q.width <= r.at
  }

  ghost predicate Disjoint(rows: seq<Row>) {
    forall k, l :: 0 <= k < l < |rows| ==> Apart(rows[k], rows[l])
  }

  // ---------- the copies undo each other ----------

  lemma OverwriteElsewhere<T>(buf: seq<T>, at: nat, bytes: seq<T>, q: Row)
    requires at + |bytes| <= |buf| && q.at + q.width <= |buf| && Apart(q, Row(at, |bytes|))
    ensures Overwrite(buf, at, bytes)[q.at..q.at + q.width] == buf[q.at..q.at + q.width]
  {
  }

  lemma OverwriteThere<T>(buf: seq<T>, at: nat, bytes: seq<T>)
    requires at + |bytes| <= |buf|
    ensures Overwrite(buf, at, bytes)[at..at + |bytes|] == bytes
    ensures Overwrite(buf, at, buf[at..at + |bytes|]) == buf
  {
  }

  /** Spreading what was packed from a buffer changes nothing in it, overlapping rows or not. */
  lemma {:induction false} UnpackPack<T>(buf: seq<T>, p: seq<T>, rows: seq<Row>, k: nat)
    requires Within(rows, |buf|) && k <= |rows| && Total(rows, k) <= |p| && p[..Total(rows, k)] == Pack(buf, rows, k)
    ensures Unpack(buf, p, rows, k) == buf
  {
    if k > 0 {
      var n, m, r := Total(rows, k - 1), Total(rows, k), rows[k - 1];
      assert p[..n] == p[..m][..n];
      UnpackPack(buf, p, rows, k - 1);
      assert p[n..m] == p[..m][n..];
      OverwriteThere(buf, r.at, buf[r.at..r.at + r.width]);
    }
  }

  /** Spreading touches no byte outside the rows: padding stays as it was. */
  lemma {:induction false} PaddingIsUntouched<T>(buf: seq<T>, packed: seq<T>, rows: seq<Row>, k: nat, x: nat)
    requires Within(rows, |buf|) && k <= |rows| && Total(rows, k) <= |packed| && x < |buf|
    requires forall l :: 0 <= l < k ==> !(rows[l].at <= x < rows[l].at + rows[l].width)
    ensures Unpack(buf, packed, rows, k)[x] == buf[x]
  {
    if k > 0 {
      PaddingIsUntouched(buf, packed, rows, k - 1, x);
    }
  }

  lemma {:induction false} PackIgnoresOverwrite<T>(buf: seq<T>, rows: seq<Row>, k: nat, at: nat, bytes: seq<T>)
    requires Within(rows, |buf|) && k <= |rows| && at + |bytes| <= |buf|
    requires forall l :: 0 <= l < k ==> Apart(rows[l], Row(at, |bytes|))
    ensures Pack(Overwrite(buf, at, bytes), rows, k) == Pack(buf, rows, k)
  {
    if k > 0 {
      PackIgnoresOverwrite(buf, rows, k - 1, at, bytes);
      OverwriteElsewhere(buf, at, bytes, rows[k - 1]);
    }
  }

  /** Spreading a packed image over disjoint rows and packing it again gives the image back. */
  lemma {:induction false} PackUnpack<T>(buf: seq<T>, packed: seq<T>, rows: seq<Row>, k: nat)
    requires Within(rows, |buf|) && k <= |rows| && Total(rows, k) <= |packed| && Disjoint(rows)
    ensures Pack(Unpack(buf, packed, rows, k), rows, k) == packed[..Total(rows, k)]
  {
    if k > 0 {
      PackUnpack(buf, packed, rows, k - 1);
      var n, m, r := Total(rows, k - 1), Total(rows, k), rows[k - 1];
      var before := Unpack(buf, packed, rows, k - 1);
      PackIgnoresOverwrite(before, rows, k - 1, r.at, packed[n..m]);
      OverwriteThere(before, r.at, packed[n..m]);
      assert packed[..m] == packed[..n] + packed[n..m];
    }
  }

  // ---------- rows one after the other ----------

  /** Row `k` starts where the rows before it end, once they are packed. */
  ghost predicate InPlace(rows: seq<Row>, k: nat)
    requires k < |rows|
  {
    rows[k].at == Total(rows, k)
  }

  /** The rows follow each other without a gap from the start of the buffer. */
  ghost predicate Contiguous(rows: seq<Row>) {
    forall k :: 0 <= k < |rows| ==> InPlace(rows, k)
  }

  lemma {:induction false} ContiguousPackIsIdentity<T>(buf: seq<T>, rows: seq<Row>, k: nat)
    requires Within(rows, |buf|) && Contiguous(rows) && k <= |rows|
    ensures Total(rows, k) <= |buf| && Pack(buf, rows, k) == buf[..Total(rows, k)]
  {
    if k > 0 {
      ContiguousPackIsIdentity(buf, rows, k - 1);
      assert InPlace(rows, k - 1);
      ContiguousStep(buf, rows, k - 1, rows[k - 1]);
    }
  }

  lemma ContiguousStep<T>(buf: seq<T>, rows: seq<Row>, k: nat, r: Row)
    requires Within(rows, |buf|) && k < |rows| && rows[k] == r && r.at == Total(rows, k)
    requires r.at + r.width <= |buf| && Pack(buf, rows, k) == buf[..r.at]
    ensures Total(rows, k + 1) <= |buf| && Pack(buf, rows, k + 1) == buf[..Total(rows, k + 1)]
  {
    assert Total(rows, k + 1) == r.at + r.width;
    PrefixGrows(buf, r.at, r.at + r.width);
  }

  lemma PrefixGrows<T>(buf: seq<T>, n: nat, m: nat)
    requires n <= m <= |buf|
    ensures buf[..n] + buf[n..m] == buf[..m]
  {
  }

  lemma {:induction false} PackAt<T>(buf: seq<T>, rows: seq<Row>, k: nat, l: nat)
    requires Within(rows, |buf|) && k < l <= |rows| && rows[k].width > 0
    ensures Total(rows, k) < Total(rows, l) && Pack(buf, rows, l)[Total(rows, k)] == buf[rows[k].at]
    decreases l
  {
    if k + 1 < l {
      PackAt(buf, rows, k, l - 1);
    }
  }

  /** A frame that is zero but for one byte, the first of row `k`, shows where that byte was packed. */
  lemma IdentityMeansInPlace(rows: seq<Row>, size: nat, k: nat)
    requires Within(rows, size) && Total(rows, |rows|) <= size && PackIsIdentity(rows, size)
    requires k < |rows| && rows[k].width > 0
    ensures InPlace(rows, k)
  {
    var frame: seq<byte> := seq(size, i requires 0 <= i < size => if i == rows[k].at then 1 else 0);
    PackAt(frame, rows, k, |rows|);
    assert Pack(frame, rows, |rows|) == frame[..Total(rows, |rows|)];
  }

  /** Packing hands out the start of every frame of `size` bytes as it is. */
  ghost predicate PackIsIdentity(rows: seq<Row>, size: nat)
    requires Within(rows, size) && Total(rows, |rows|) <= size
  {
    forall buf: seq<byte> :: |buf| == size ==> Pack(buf, rows, |rows|) == buf[..Total(rows, |rows|)]
  }

  /** That is so exactly when the rows are contiguous. */
  lemma PackIsIdentityIff(rows: seq<Row>, size: nat)
    requires Within(rows, size) && Total(rows, |rows|) <= size && forall k :: 0 <= k < |rows| ==> rows[k].width > 0
    ensures PackIsIdentity(rows, size) <==> Contiguous(rows)
  {
    if Contiguous(rows) {
      forall buf: seq<byte> | |buf| == size ensures Pack(buf, rows, |rows|) == buf[..Total(rows, |rows|)] {
        ContiguousPackIsIdentity(buf, rows, |rows|);
      }
    }
    if PackIsIdentity(rows, size) {
      forall k | 0 <= k < |rows| ensures InPlace(rows, k) {
        IdentityMeansInPlace(rows, size, k);
      }
    }
  }

  // ---------- cam_frame_len_offset_t ----------

  datatype Plane = Plane(offset: nat, len: nat, width: nat, height: nat, stride: nat)

  /** Where plane `i` starts: its own offset, past the length of the plane before. */
  function Base(planes: seq<Plane>, i: nat): nat
    requires i < |planes|
  {
    planes[i].offset + if i > 0 then planes[i - 1].len else 0
  }

  /** buf_h: a chroma plane has half the rows of the plane before, whatever its own height says. */
  function RowCount(planes: seq<Plane>, i: nat): nat
    requires i < |planes|
  {
    if i > 0 then planes[i - 1].height / 2 else planes[i].height
  }

  /** The loops' `index` at row `j` of plane `i`. */
  function RowStart(planes: seq<Plane>, i: nat, j: nat): nat
    requires i < |planes|
  {
    if j == 0 then Base(planes, i) else RowStart(planes, i, j - 1) + planes[i].stride
  }

  lemma {:induction false} RowStartIs(planes: seq<Plane>, i: nat, j: nat)
    requires i < |planes|
    ensures RowStart(planes, i, j) == Base(planes, i) + j * planes[i].stride
  {
    if j > 0 {
      RowStartIs(planes, i, j - 1);
      assert j * planes[i].stride == (j - 1) * planes[i].stride + planes[i].stride;
    }
  }

  function RowAt(planes: seq<Plane>, i: nat, j: nat): Row
    requires i < |planes|
  {
    Row(RowStart(planes, i, j), planes[i].width)
  }

  /** All rows of the planes before `i`, then the first `j` rows of plane `i`. */
  ghost function Rows(planes: seq<Plane>, i: nat, j: nat): seq<Row>
    requires i <= |planes| && (i == |planes| ==> j == 0)
    decreases i, j
  {
    if j > 0 then Rows(planes, i, j - 1) + [RowAt(planes, i, j - 1)]
    else if i > 0 then Rows(planes, i - 1, RowCount(planes, i - 1))
    else []
  }

  ghost function AllRows(planes: seq<Plane>): seq<Row> {
    Rows(planes, |planes|, 0)
  }

  /** Rows visited so far are a prefix of all rows. */
  lemma {:induction false} RowsArePrefix(planes: seq<Plane>, i: nat, j: nat)
    requires i < |planes| && j <= RowCount(planes, i)
    ensures Rows(planes, i, j) <= AllRows(planes)
    decreases |planes| - i, RowCount(planes, i) - j
  {
    if j < RowCount(planes, i) {
      RowsArePrefix(planes, i, j + 1);
    } else if i + 1 < |planes| {
      RowsArePrefix(planes, i + 1, 0);
    } else {
      assert AllRows(planes) == Rows(planes, i, RowCount(planes, i));
    }
  }

  /** How many rows come before row `j` of plane `i`. */
  ghost function Before(planes: seq<Plane>, i: nat, j: nat): nat
    requires i <= |planes| && (i == |planes| ==> j == 0)
  {
    |Rows(planes, i, j)|
  }

  /** What both loops know when they come to row `j` of plane `i`. */
  lemma NextRow(planes: seq<Plane>, i: nat, j: nat)
    requires i < |planes| && j < RowCount(planes, i)
    ensures var k := Before(planes, i, j);
      && k < |AllRows(planes)| && AllRows(planes)[k] == RowAt(planes, i, j)
      && Before(planes, i, j + 1) == k + 1
      && Total(AllRows(planes), k + 1) <= Total(AllRows(planes), |AllRows(planes)|)
  {
    RowsArePrefix(planes, i, j + 1);
    TotalGrows(AllRows(planes), Before(planes, i, j) + 1, |AllRows(planes)|);
  }

  lemma PlaneDone(planes: seq<Plane>, i: nat)
    requires i < |planes|
    ensures Before(planes, i + 1, 0) == Before(planes, i, RowCount(planes, i))
  {
  }

  // ---------- the routines ----------

  method Memcpy<T>(dst: array<T>, dstAt: nat, src: array<T>, srcAt: nat, n: nat)
    requires dst != src && dstAt + n <= dst.Length && srcAt + n <= src.Length
    modifies dst
    ensures dst[..] == Overwrite(old(dst[..]), dstAt, src[srcAt..srcAt + n])
  {
    var i := 0;
    while i < n
      invariant 0 <= i <= n
      invariant dst[..] == Overwrite(old(dst[..]), dstAt, src[srcAt..srcAt + i])
    {
      dst[dstAt + i] := src[srcAt + i];
      assert src[srcAt..srcAt + i + 1] == src[srcAt..srcAt + i] + [src[srcAt + i]];
      i := i + 1;
    }
  }

  /** Every row lies in the strided buffer, and all of them fit in the packed one. */
  ghost predicate Fits(planes: seq<Plane>, strided: nat, packed: nat) {
    Within(AllRows(planes), strided) && Total(AllRows(planes), |AllRows(planes)|) <= packed
  }

  /** The state of yuvDataRelocate after `k` rows: they are packed at the start of `dst`. */
  ghost predicate Relocating<T>(rows: seq<Row>, k: nat, src: seq<T>, dst0: seq<T>, dst: seq<T>, offsetW: nat) {
    && Within(rows, |src|) && k <= |rows| && offsetW == Total(rows, k) <= |dst0|
    && dst == Overwrite(dst0, 0, Pack(src, rows, k))
  }

  lemma RelocateRow<T>(rows: seq<Row>, k: nat, src: seq<T>, dst0: seq<T>, dst: seq<T>, offsetW: nat)
    requires Relocating(rows, k, src, dst0, dst, offsetW) && k < |rows| && Total(rows, k + 1) <= |dst0|
    ensures var r := rows[k];
      && r.at + r.width <= |src| && offsetW + r.width <= |dst|
      && Relocating(rows, k + 1, src, dst0, Overwrite(dst, offsetW, src[r.at..r.at + r.width]), offsetW + r.width)
  {
    OverwriteJoins(dst0, Pack(src, rows, k), src[rows[k].at..rows[k].at + rows[k].width]);
  }

  lemma OverwriteJoins<T>(dst: seq<T>, a: seq<T>, b: seq<T>)
    requires |a| + |b| <= |dst|
    ensures Overwrite(Overwrite(dst, 0, a), |a|, b) == Overwrite(dst, 0, a + b)
  {
  }

  /** The body of the relocating loops at row `j` of plane `i`. */
  method RelocateOne<T>(src: array<T>, dst: array<T>, ghost planes: seq<Plane>, ghost i: nat, ghost j: nat, index: nat,
                        offsetW: nat, width: nat, ghost dst0: seq<T>)
    requires src != dst && Fits(planes, src.Length, |dst0|) && i < |planes| && j < RowCount(planes, i)
    requires index == RowStart(planes, i, j) && width == planes[i].width
    requires Relocating(AllRows(planes), Before(planes, i, j), src[..], dst0, dst[..], offsetW)
    modifies dst
    ensures Relocating(AllRows(planes), Before(planes, i, j + 1), src[..], dst0, dst[..], offsetW + width)
  {
    NextRow(planes, i, j);
    RelocateRow(AllRows(planes), Before(planes, i, j), src[..], dst0, dst[..], offsetW);
    Memcpy(dst, offsetW, src, index, width);
  }

  method RelocatePlane<T>(src: array<T>, dst: array<T>, planes: seq<Plane>, i: nat, start: nat, ghost dst0: seq<T>)
    returns (offsetW: nat)
    requires src != dst && Fits(planes, src.Length, |dst0|) && i < |planes|
    requires Relocating(AllRows(planes), Before(planes, i, 0), src[..], dst0, dst[..], start)
    modifies dst
    ensures Relocating(AllRows(planes), Before(planes, i + 1, 0), src[..], dst0, dst[..], offsetW)
  {
    offsetW := start;
    var index := Base(planes, i);
    var bufH := RowCount(planes, i);
    var j := 0;
    while j < bufH
      invariant 0 <= j <= bufH && index == RowStart(planes, i, j)
      invariant Relocating(AllRows(planes), Before(planes, i, j), src[..], dst0, dst[..], offsetW)
    {
      RelocateOne(src, dst, planes, i, j, index, offsetW, planes[i].width, dst0);
      offsetW := offsetW + planes[i].width;
      index := index + planes[i].stride;
      j := j + 1;
    }
    PlaneDone(planes, i);
  }

  /** The state of yuvDataRecover after `k` rows. */
  ghost predicate Recovering<T>(rows: seq<Row>, k: nat, src: seq<T>, dst0: seq<T>, dst: seq<T>, offsetW: nat) {
    Within(rows, |dst0|) && k <= |rows| && offsetW == Total(rows, k) <= |src| && dst == Unpack(dst0, src, rows, k)
  }

  lemma RecoverRow<T>(rows: seq<Row>, k: nat, src: seq<T>, dst0: seq<T>, dst: seq<T>, offsetW: nat)
    requires Recovering(rows, k, src, dst0, dst, offsetW) && k < |rows| && Total(rows, k + 1) <= |src|
    ensures var r := rows[k];
      && r.at + r.width <= |dst| && offsetW + r.width <= |src|
      && Recovering(rows, k + 1, src, dst0, Overwrite(dst, r.at, src[offsetW..offsetW + r.width]), offsetW + r.width)
  {
  }

  method RecoverOne<T>(src: array<T>, dst: array<T>, ghost planes: seq<Plane>, ghost i: nat, ghost j: nat, index: nat,
                       offsetW: nat, width: nat, ghost dst0: seq<T>)
    requires src != dst && Fits(planes, |dst0|, src.Length) && i < |planes| && j < RowCount(planes, i)
    requires index == RowStart(planes, i, j) && width == planes[i].width
    requires Recovering(AllRows(planes), Before(planes, i, j), src[..], dst0, dst[..], offsetW)
    modifies dst
    ensures Recovering(AllRows(planes), Before(planes, i, j + 1), src[..], dst0, dst[..], offsetW + width)
  {
    NextRow(planes, i, j);
    RecoverRow(AllRows(planes), Before(planes, i, j), src[..], dst0, dst[..], offsetW);
    Memcpy(dst, index, src, offsetW, width);
  }

  method RecoverPlane<T>(src: array<T>, dst: array<T>, planes: seq<Plane>, i: nat, start: nat, ghost dst0: seq<T>)
    returns (offsetW: nat)
    requires src != dst && Fits(planes, |dst0|, src.Length) && i < |planes|
    requires Recovering(AllRows(planes), Before(planes, i, 0), src[..], dst0, dst[..], start)
    modifies dst
    ensures Recovering(AllRows(planes), Before(planes, i + 1, 0), src[..], dst0, dst[..], offsetW)
  {
    offsetW := start;
    var index := Base(planes, i);
    var bufH := RowCount(planes, i);
    var j := 0;
    while j < bufH
      invariant 0 <= j <= bufH && index == RowStart(planes, i, j)
      invariant Recovering(AllRows(planes), Before(planes, i, j), src[..], dst0, dst[..], offsetW)
    {
      RecoverOne(src, dst, planes, i, j, index, offsetW, planes[i].width, dst0);
      offsetW := offsetW + planes[i].width;
      index := index + planes[i].stride;
      j := j + 1;
    }
    PlaneDone(planes, i);
  }
}
