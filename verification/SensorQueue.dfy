/** The circular event queue of sensors/SensorEventQueue.cpp: as a value (`Ring`) and as the class that updates
  its fields in place.  A writer fills the region it was given without the lock while readers dequeue under it.
 */
module SensorQueue {
  import opened Options

  /** mData, mStart and mSize; the capacity is the length of `data`. */
  datatype Ring<T> = Ring(data: seq<T>, start: nat, size: nat) {
    ghost predicate Valid() {
      size <= |data| && (start < |data| || start == |data| == 0)
    }

    /** The readable events, oldest first. */
    ghost function Contents(): seq<T>
      requires Valid()
    {
      if start + size <= |data| then data[start..start + size]
      else data[start..] + data[..start + size - |data|]
    }

    /** Where the next event goes. */
    ghost function End(): nat
      requires Valid()
    {
      if start + size < |data| then start + size else start + size - |data|
    }

    /** getWritableRegion: first slot and length. */
    function Region(requested: int): (nat, int)
      requires size <= |data|
    {
      if size == |data| || requested <= 0 then (0, 0)
      else
        var first := (start + size) % |data|;
        var last := first + requested - 1;
        var last := if last > |data| - 1 then |data| - 1 else last;
        var last := if first < start && last >= start then start - 1 else last;
        (first, last - first + 1)
    }

    function Mark(count: nat): Ring<T> {
      Ring(data, start, size + count)
    }

    function Dequeue(): Ring<T>
      requires size <= |data|
    {
      if size == 0 then this else Ring(data, (start + 1) % |data|, size - 1)
    }

    function Write(i: nat, e: T): Ring<T>
      requires i < |data|
    {
      Ring(data[i := e], start, size)
    }

    /** The slots from `first`, `len` of them, are contiguous, come next after the readable ones, and are free. */
    ghost predicate Open(first: nat, len: nat) {
      Valid() && first + len <= |data| && len <= |data| - size && (len > 0 ==> first == End())
    }
  }

  /** `x % n` for `x` within one turn of the ring. */
  lemma OneTurn(x: nat, n: nat)
    requires x < 2 * n
    ensures x % n == if x < n then x else x - n
  {
    if x >= n {
      assert x == n + (x - n);
    }
  }

  /** The region offered is open, not longer than asked for, and non-empty exactly when there is space. */
  lemma RegionIsOpen<T>(r: Ring<T>, requested: int)
    requires r.Valid()
    ensures var (first, len) := r.Region(requested);
      && 0 <= len && r.Open(first, len)
      && (requested > 0 ==> len <= requested)
      && (len > 0 <==> r.size < |r.data| && requested > 0)
  {
    if r.size < |r.data| && requested > 0 {
      OneTurn(r.start + r.size, |r.data|);
    }
  }

  /** The region offered cannot be longer: it ends where asked, at the end of the array or at the oldest event. */
  lemma RegionIsMaximal<T>(r: Ring<T>, requested: int)
    requires r.Valid() && r.size < |r.data| && requested > 0
    ensures var (first, len) := r.Region(requested);
      len == requested || first + len == |r.data| || first + len == r.start
  {
    OneTurn(r.start + r.size, |r.data|);
  }

  lemma DequeueDrops<T>(r: Ring<T>)
    requires r.Valid() && r.size > 0
    ensures r.Dequeue().Valid() && r.Contents() == [r.data[r.start]] + r.Dequeue().Contents()
  {
    OneTurn(r.start + 1, |r.data|);
    if r.start + 1 == |r.data| {
      LastSlotDrops(r, r.Dequeue());
    } else if r.start + r.size <= |r.data| {
      InnerSlotDrops(r, r.Dequeue());
    } else {
      WrappedSlotDrops(r, r.Dequeue());
    }
  }

  lemma LastSlotDrops<T>(r: Ring<T>, q: Ring<T>)
    requires r.Valid() && r.size > 0 && r.start + 1 == |r.data| && q == Ring(r.data, 0, r.size - 1)
    ensures q.Valid() && r.Contents() == [r.data[r.start]] + q.Contents()
  {
    assert r.data[r.start..] == [r.data[r.start]];
    assert q.Contents() == r.data[..r.size - 1];
  }

  lemma InnerSlotDrops<T>(r: Ring<T>, q: Ring<T>)
    requires r.Valid() && 0 < r.size <= |r.data| - r.start && q == Ring(r.data, r.start + 1, r.size - 1)
    requires r.start + 1 < |r.data|
    ensures q.Valid() && r.Contents() == [r.data[r.start]] + q.Contents()
  {
  }

  lemma WrappedSlotDrops<T>(r: Ring<T>, q: Ring<T>)
    requires r.Valid() && r.start + r.size > |r.data| && q == Ring(r.data, r.start + 1, r.size - 1)
    requires r.start + 1 < |r.data|
    ensures q.Valid() && r.Contents() == [r.data[r.start]] + q.Contents()
  {
    assert r.data[r.start..] == [r.data[r.start]] + r.data[r.start + 1..];
  }

  /** However many events are dequeued, an open region stays open. */
  lemma DequeueKeepsOpen<T>(r: Ring<T>, first: nat, len: nat)
    requires r.Open(first, len)
    ensures r.Dequeue().Open(first, len)
  {
    if r.size > 0 {
      OneTurn(r.start + 1, |r.data|);
    }
  }

  /** Writing into an open region changes no readable event. */
  lemma WriteIsInvisible<T>(r: Ring<T>, first: nat, len: nat, i: nat, e: T)
    requires r.Open(first, len) && first <= i < first + len
    ensures r.Write(i, e).Open(first, len) && r.Write(i, e).Contents() == r.Contents()
    ensures r.Write(i, e).data[i] == e
    ensures forall k :: 0 <= k < |r.data| && k != i ==> r.Write(i, e).data[k] == r.data[k]
  {
    var d := r.data[i := e];
    if r.start + r.size <= |r.data| {
      assert d[r.start..r.start + r.size] == r.data[r.start..r.start + r.size];
    } else {
      assert d[r.start..] == r.data[r.start..];
      assert d[..r.start + r.size - |d|] == r.data[..r.start + r.size - |d|];
    }
  }

  /** Marking events as written appends exactly the first slots of the region. */
  lemma MarkAppends<T>(r: Ring<T>, first: nat, len: nat, count: nat)
    requires r.Open(first, len) && count <= len
    ensures r.Mark(count).Valid() && r.Mark(count).Contents() == r.Contents() + r.data[first..first + count]
  {
    if count == 0 {
    } else if r.start + r.size < |r.data| {
      Adjoin(r.data, r.start, first, first + count);
    } else {
      MarkWraps(r, first, count);
    }
  }

  /** Where the next event goes to the front of the array, the readable events are the array's tail and head. */
  lemma MarkWraps<T>(r: Ring<T>, first: nat, count: nat)
    requires r.Valid() && r.start + r.size >= |r.data| && 0 < count <= |r.data| - r.size && first == r.End()
    ensures r.Mark(count).Contents() == r.Contents() + r.data[first..first + count]
  {
    assert r.Contents() == r.data[r.start..] + r.data[..first];
    assert r.Mark(count).Contents() == r.data[r.start..] + r.data[..first + count];
    Adjoin(r.data, 0, first, first + count);
  }

  lemma Adjoin<T>(s: seq<T>, a: nat, b: nat, c: nat)
    requires a <= b <= c <= |s|
    ensures s[a..c] == s[a..b] + s[b..c]
  {
  }

  class SensorEventQueue<T(0)> {
    const mCapacity: nat
    var mStart: nat
    var mSize: nat
    const mData: array<T>

    ghost predicate Valid()
      reads this, mData
    {
      mData.Length == mCapacity && Value().Valid()
    }

    ghost function Value(): Ring<T>
      reads this, mData
    {
      Ring(mData[..], mStart, mSize)
    }

    constructor (capacity: nat)
      ensures Valid() && fresh(mData) && mCapacity == capacity && Value().Contents() == []
    {
      mCapacity := capacity;
      mStart, mSize := 0, 0;
      mData := new T[capacity];
    }

    /** `out` is an index into mData instead of a pointer. */
    method GetWritableRegion(requestedLength: int) returns (out: nat, len: nat)
      requires Valid()
      ensures (out, len) == Value().Region(requestedLength)
      ensures Value().Open(out, len) && (len > 0 <==> mSize < mCapacity && requestedLength > 0)
    {
      RegionIsOpen(Value(), requestedLength);
      if mSize == mCapacity || requestedLength <= 0 {
        return 0, 0;
      }
      var firstWritable := (mStart + mSize) % mCapacity;
      var lastWritable := firstWritable + requestedLength - 1;
      if lastWritable > mCapacity - 1 {
        lastWritable := mCapacity - 1;
      }
      if firstWritable < mStart && lastWritable >= mStart {
        lastWritable := mStart - 1;
      }
      out, len := firstWritable, lastWritable - firstWritable + 1;
    }

    /** One unlocked store by the sub-HAL's poll() into the region. */
    method Store(ghost first: nat, ghost len: nat, i: nat, e: T)
      requires Valid() && Value().Open(first, len) && first <= i < first + len
      modifies mData
      ensures Valid() && Value() == old(Value()).Write(i, e) && mData[..] == old(mData[..])[i := e]
      ensures Value().Open(first, len) && Value().Contents() == old(Value().Contents())
    {
      WriteIsInvisible(Value(), first, len, i, e);
      mData[i] := e;
    }

    /** The sub-HAL reports no more events than the region holds. */
    method MarkAsWritten(ghost first: nat, ghost len: nat, count: nat)
      requires Valid() && Value().Open(first, len) && count <= len
      modifies this
      ensures Valid() && Value() == old(Value()).Mark(count)
      ensures Value().Contents() == old(Value().Contents()) + mData[first..first + count]
    {
      MarkAppends(Value(), first, len, count);
      mSize := mSize + count;
    }

    method GetSize() returns (n: nat)
      requires Valid()
      ensures n == |Value().Contents()|
    {
      n := mSize;
    }

    method Peek() returns (e: Option<T>)
      requires Valid()
      ensures e == if Value().Contents() == [] then None else Some(Value().Contents()[0])
    {
      if mSize == 0 {
        return None;
      }
      DequeueDrops(Value());
      return Some(mData[mStart]);
    }

    /** Returns whether it broadcast mSpaceAvailableCondition. */
    method Dequeue() returns (broadcast: bool)
      requires Valid()
      modifies this
      ensures Valid() && Value() == old(Value()).Dequeue()
      ensures Value().Contents() == if old(Value().Contents()) == [] then [] else old(Value().Contents())[1..]
      ensures broadcast <==> old(mSize) == mCapacity && mCapacity > 0
      ensures forall first: nat, len: nat :: old(Value()).Open(first, len) ==> Value().Open(first, len)
    {
      forall first: nat, len: nat | Value().Open(first, len) ensures Value().Dequeue().Open(first, len) {
        DequeueKeepsOpen(Value(), first, len);
      }
      if mSize == 0 {
        return false;
      }
      DequeueDrops(Value());
      broadcast := mSize == mCapacity;
      mSize := mSize - 1;
      mStart := (mStart + 1) % mCapacity;
    }
  }
}
