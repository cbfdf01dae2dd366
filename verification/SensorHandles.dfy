/** The two handle maps of sensors/multihal.cpp: sensors are numbered across sub-HALs by global handles. */
module SensorHandles {

  datatype FullHandle = FullHandle(moduleIndex: int, localHandle: int)

  /** sensors_event_t: `meta` says the type is SENSOR_TYPE_META_DATA, `metaSensor` is meta_data.sensor. */
  datatype Event = Event(meta: bool, sensor: int, metaSensor: int, payload: int)

  /** sensor_t: the handle and everything else. */
  datatype Sensor = Sensor(handle: int, rest: int)

  /** get_global_handle. */
  function GlobalHandle(fullToGlobal: map<FullHandle, int>, f: FullHandle): int {
    if f in fullToGlobal then fullToGlobal[f] else -1
  }

  /** copy_event_remap_handle: a metadata event has its inner handle rewritten, any other its own. */
  function Remap(fullToGlobal: map<FullHandle, int>, e: Event, subIndex: int): Event {
    if e.meta then e.(metaSensor := GlobalHandle(fullToGlobal, FullHandle(subIndex, e.metaSensor)))
    else e.(sensor := GlobalHandle(fullToGlobal, FullHandle(subIndex, e.sensor)))
  }

  predicate Distinct<T(==)>(s: seq<T>) {
    forall i, j :: 0 <= i < j < |s| ==> s[i] != s[j]
  }

  // ---------- the maps after assigning handles 1, 2, ... to `fs` ----------

  ghost function GlobalToFull(fs: seq<FullHandle>): map<int, FullHandle> {
    if fs == [] then map[] else GlobalToFull(fs[..|fs| - 1])[|fs| := fs[|fs| - 1]]
  }

  ghost function FullToGlobal(fs: seq<FullHandle>): map<FullHandle, int> {
    if fs == [] then map[] else FullToGlobal(fs[..|fs| - 1])[fs[|fs| - 1] := |fs|]
  }

  lemma {:induction false} GlobalToFullAt(fs: seq<FullHandle>, h: int)
    ensures h in GlobalToFull(fs) <==> 1 <= h <= |fs|
    ensures h in GlobalToFull(fs) ==> GlobalToFull(fs)[h] == fs[h - 1]
  {
    if fs != [] {
      GlobalToFullAt(fs[..|fs| - 1], h);
    }
  }

  /** A pair assigned more than once keeps its last handle. */
  lemma {:induction false} FullToGlobalIsLast(fs: seq<FullHandle>, f: FullHandle)
    ensures f in FullToGlobal(fs) <==> f in fs
    ensures f in fs ==> var h := FullToGlobal(fs)[f];
      1 <= h <= |fs| && fs[h - 1] == f && forall k :: h <= k < |fs| ==> fs[k] != f
  {
    if fs != [] {
      FullToGlobalIsLast(fs[..|fs| - 1], f);
      assert fs == fs[..|fs| - 1] + [fs[|fs| - 1]];
    }
  }

  ghost predicate MutuallyInverse(globalToFull: map<int, FullHandle>, fullToGlobal: map<FullHandle, int>) {
    && (forall h :: h in globalToFull ==> globalToFull[h] in fullToGlobal && fullToGlobal[globalToFull[h]] == h)
    && (forall f :: f in fullToGlobal ==> fullToGlobal[f] in globalToFull && globalToFull[fullToGlobal[f]] == f)
  }

  /** The two maps are each other's inverse exactly when no pair was assigned twice. */
  lemma InverseIffDistinct(fs: seq<FullHandle>)
    ensures MutuallyInverse(GlobalToFull(fs), FullToGlobal(fs)) <==> Distinct(fs)
  {
    var g, t := GlobalToFull(fs), FullToGlobal(fs);
    forall f ensures f in t <==> f in fs
      ensures f in fs ==> 1 <= t[f] <= |fs| && fs[t[f] - 1] == f && forall k :: t[f] <= k < |fs| ==> fs[k] != f
    {
      FullToGlobalIsLast(fs, f);
    }
    forall h ensures h in g <==> 1 <= h <= |fs|
      ensures h in g ==> g[h] == fs[h - 1]
    {
      GlobalToFullAt(fs, h);
    }
    if MutuallyInverse(g, t) {
      InverseMeansDistinct(fs, g, t);
    }
    if Distinct(fs) {
      forall h | h in g ensures t[g[h]] == h {
        assert g[h] == fs[h - 1];
      }
    }
  }

  lemma InverseMeansDistinct(fs: seq<FullHandle>, g: map<int, FullHandle>, t: map<FullHandle, int>)
    requires MutuallyInverse(g, t)
    requires forall h :: h in g <==> 1 <= h <= |fs|
    requires forall h :: h in g ==> g[h] == fs[h - 1]
    ensures Distinct(fs)
  {
    forall i, j | 0 <= i < j < |fs| ensures fs[i] != fs[j] {
      assert g[i + 1] == fs[i] && g[j + 1] == fs[j];
    }
  }

  /** An event of the sensor a global handle resolves to comes out of `poll` with that handle. */
  lemma RemapReturnsTheHandle(fs: seq<FullHandle>, h: int, e: Event)
    requires Distinct(fs) && h in GlobalToFull(fs)
    ensures var f := GlobalToFull(fs)[h];
      && (!e.meta && e.sensor == f.localHandle ==> Remap(FullToGlobal(fs), e, f.moduleIndex) == e.(sensor := h))
      && (e.meta && e.metaSensor == f.localHandle ==> Remap(FullToGlobal(fs), e, f.moduleIndex) == e.(metaSensor := h))
  {
    InverseIffDistinct(fs);
  }

  /** An event of a sensor that was never listed gets -1 in the field that names the sensor, and keeps the rest. */
  lemma RemapOfUnlisted(fs: seq<FullHandle>, e: Event, k: int)
    ensures !e.meta && FullHandle(k, e.sensor) !in fs ==> Remap(FullToGlobal(fs), e, k) == e.(sensor := -1)
    ensures e.meta && FullHandle(k, e.metaSensor) !in fs ==> Remap(FullToGlobal(fs), e, k) == e.(metaSensor := -1)
  {
    FullToGlobalIsLast(fs, FullHandle(k, if e.meta then e.metaSensor else e.sensor));
  }

  // ---------- the code ----------

  /** All (module, local handle) pairs in the order the sub-HALs list them. */
  ghost function Listed(modules: seq<seq<Sensor>>): seq<(int, Sensor)> {
    if modules == [] then []
    else
      var m := |modules| - 1;
      Listed(modules[..m]) + seq(|modules[m]|, i requires 0 <= i < |modules[m]| => (m, modules[m][i]))
  }

  ghost function Handles(ls: seq<(int, Sensor)>): seq<FullHandle> {
    seq(|ls|, k requires 0 <= k < |ls| => FullHandle(ls[k].0, ls[k].1.handle))
  }

  class HandleMaps {
    var globalToFull: map<int, FullHandle>
    var fullToGlobal: map<FullHandle, int>
    var nextGlobalHandle: int

    /** The pairs assigned so far. */
    ghost var Assigned: seq<FullHandle>

    ghost predicate Valid()
      reads this
    {
      && globalToFull == GlobalToFull(Assigned) && fullToGlobal == FullToGlobal(Assigned)
      && nextGlobalHandle == |Assigned| + 1
    }

    constructor ()
      ensures Valid() && Assigned == []
    {
      globalToFull, fullToGlobal, nextGlobalHandle := map[], map[], 1;
      Assigned := [];
    }

    method AssignGlobalHandle(moduleIndex: int, localHandle: int) returns (h: int)
      requires Valid()
      modifies this
      ensures Valid() && Assigned == old(Assigned) + [FullHandle(moduleIndex, localHandle)] && h == |Assigned|
    {
      h := nextGlobalHandle;
      nextGlobalHandle := nextGlobalHandle + 1;
      var full := FullHandle(moduleIndex, localHandle);
      fullToGlobal := fullToGlobal[full := h];
      globalToFull := globalToFull[h := full];
      ghost var before := Assigned;
      Assigned := Assigned + [full];
      assert Assigned[..|Assigned| - 1] == before;
    }

    /** get_module_index and get_local_handle: -1 for an unknown handle. */
    method Resolve(globalHandle: int) returns (moduleIndex: int, localHandle: int)
      requires Valid()
      ensures if 1 <= globalHandle <= |Assigned|
        then Assigned[globalHandle - 1] == FullHandle(moduleIndex, localHandle)
        else moduleIndex == localHandle == -1
    {
      GlobalToFullAt(Assigned, globalHandle);
      if globalHandle in globalToFull {
        var f := globalToFull[globalHandle];
        return f.moduleIndex, f.localHandle;
      }
      return -1, -1;
    }

    /** lazy_init_sensors_list, past its early return: the k-th sensor listed gets handle k + 1. */
    method InitSensorsList(modules: seq<seq<Sensor>>) returns (list: array<Sensor>)
      requires Valid() && Assigned == []
      modifies this
      ensures Valid() && Assigned == Handles(Listed(modules))
      ensures fresh(list) && list.Length == |Listed(modules)|
      ensures forall k :: 0 <= k < list.Length ==> list[k] == Listed(modules)[k].1.(handle := k + 1)
    {
      var count := CountSensors(modules);
      list := new Sensor[count](_ => Sensor(0, 0));
      ghost var all := Listed(modules);
      var next, moduleIndex := 0, 0;
      while moduleIndex < |modules|
        invariant 0 <= moduleIndex <= |modules| && next == |Listed(modules[..moduleIndex])| <= count
        invariant Filled(list[..], all, next)
      {
        ListedPrefix(modules, moduleIndex);
        next := CopyModule(list, next, moduleIndex, modules[moduleIndex], all);
        moduleIndex := moduleIndex + 1;
      }
      assert modules[..moduleIndex] == modules && all[..next] == all;
    }

    /** The inner loop, over one module's sensors. */
    method CopyModule(list: array<Sensor>, start: nat, moduleIndex: nat, sensors: seq<Sensor>, ghost all: seq<(int, Sensor)>)
      returns (next: nat)
      requires list.Length == |all| && start + |sensors| <= |all| && Filled(list[..], all, start)
      requires forall i :: 0 <= i < |sensors| ==> all[start + i] == (moduleIndex, sensors[i])
      modifies this, list
      ensures next == start + |sensors| && Filled(list[..], all, next)
    {
      next := start;
      var i := 0;
      while i < |sensors|
        invariant 0 <= i <= |sensors| && next == start + i && Filled(list[..], all, next)
      {
        var local := sensors[i];
        assert all[start + i] == (moduleIndex, local);
        ghost var before := list[..];
        var h := AssignGlobalHandle(moduleIndex, local.handle);
        list[next] := local.(handle := h);
        assert list[..] == before[next := local.(handle := h)];
        assert all[..next + 1] == all[..next] + [all[next]];
        next := next + 1;
        i := i + 1;
      }
    }

    /** The first `next` sensors are listed, each with its position plus one as its handle. */
    ghost predicate Filled(list: seq<Sensor>, all: seq<(int, Sensor)>, next: nat)
      reads this
    {
      && Valid() && next <= |all| == |list| && Assigned == Handles(all[..next])
      && forall k :: 0 <= k < next ==> list[k] == all[k].1.(handle := k + 1)
    }
  }

  method CountSensors(modules: seq<seq<Sensor>>) returns (count: nat)
    ensures count == |Listed(modules)|
  {
    count := 0;
    var m := 0;
    while m < |modules|
      invariant 0 <= m <= |modules| && count == |Listed(modules[..m])|
    {
      assert modules[..m + 1][..m] == modules[..m];
      count := count + |modules[m]|;
      m := m + 1;
    }
    assert modules[..m] == modules;
  }

  /** Where the sensors of module `m` stand in the list. */
  lemma ListedPrefix(modules: seq<seq<Sensor>>, m: nat)
    requires m < |modules|
    ensures var base := |Listed(modules[..m])|;
      && base + |modules[m]| == |Listed(modules[..m + 1])| <= |Listed(modules)|
      && Listed(modules[..m + 1]) == Listed(modules)[..base + |modules[m]|]
      && forall i :: 0 <= i < |modules[m]| ==> Listed(modules)[base + i] == (m, modules[m][i])
  {
    assert modules[..m + 1][..m] == modules[..m];
    ListedGrows(modules, m + 1);
  }

  lemma {:induction false} ListedGrows(modules: seq<seq<Sensor>>, m: nat)
    requires m <= |modules|
    ensures Listed(modules[..m]) <= Listed(modules)
    decreases |modules| - m
  {
    if m < |modules| {
      ListedGrows(modules, m + 1);
      assert modules[..m + 1][..m] == modules[..m];
    } else {
      assert modules[..m] == modules;
    }
  }
}
