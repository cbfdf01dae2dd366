/** The threads of sensors/multihal.cpp as a state machine: one writer per queue, which lets its sub-HAL fill the
  queue's region without the lock, and one poller.  A critical section under queue_mutex is one step, except the
  poller's scan, which keeps the lock over one step per queue visited, so that unlocked stores can fall between.
 */
module MultiHal {
  import opened Options
  import opened SensorHandles
  import opened SensorQueue
  import opened PollScan

  const SENSOR_EVENT_QUEUE_CAPACITY: nat := 36

  /** writerTask: before its first lock; asleep in waitForSpace; woken there; in the sub-HAL's poll() with a
      region; before markAsWritten. */
  datatype Writer =
    | Ready
    | Asleep
    | Woken
    | Filling(first: nat, len: nat)
    | ToMark(first: nat, len: nat, count: nat)

  /** poll(): not called; before its lock; scanning with the lock; asleep on data_available_cond; woken there. */
  datatype Poller =
    | NotPolling
    | Entering(maxReads: nat)
    | Scanning(maxReads: nat, empties: nat)
    | Waiting(maxReads: nat)
    | Notified(maxReads: nat)

  datatype State = State(
    handles: Handles,
    rings: seq<Ring<Event>>,
    writers: seq<Writer>,
    poller: Poller,
    waitingForData: bool,
    next: nat,                        // nextReadIndex
    out: seq<Event>,                  // data[..eventsRead] of the poll() under way
    returned: seq<Event>,             // history: events of the polls that have returned
    log: seq<(nat, Event)>,           // history: every dequeue
    produced: seq<seq<Event>>)        // history: per queue, the events marked as written

  ghost predicate Initial(s: State) {
    && |s.rings| == |s.writers| == |s.produced| && s.next == 0
    && (forall q :: 0 <= q < |s.rings| ==>
         |s.rings[q].data| == SENSOR_EVENT_QUEUE_CAPACITY && s.rings[q].start == s.rings[q].size == 0)
    && (forall q :: 0 <= q < |s.rings| ==> s.writers[q] == Ready && s.produced[q] == [])
    && s.poller == NotPolling && !s.waitingForData && s.out == s.returned == [] && s.log == []
  }

  // ---------- steps ----------

  /** `SpuriousWriter` and `SpuriousPoller` are wake-ups no one asked for. */
  datatype Step =
    | WriterLock(q: nat) | SpuriousWriter(q: nat)
    | Store(q: nat, slot: nat, e: Event) | DeviceReturns(q: nat, count: int) | MarkWritten(q: nat)
    | CallPoll(maxReads: nat) | PollerLock | VisitQueue | EndScan | SpuriousPoller

  predicate Enabled(s: State, step: Step) {
    match step
    case WriterLock(q) => q < |s.writers| && (s.writers[q].Ready? || s.writers[q].Woken?) && !s.poller.Scanning?
    case SpuriousWriter(q) => q < |s.writers| && s.writers[q].Asleep?
    case Store(q, slot, _) =>
      q < |s.writers| && s.writers[q].Filling? && s.writers[q].first <= slot < s.writers[q].first + s.writers[q].len
    case DeviceReturns(q, count) => q < |s.writers| && s.writers[q].Filling? && count <= s.writers[q].len
    case MarkWritten(q) => q < |s.writers| && s.writers[q].ToMark? && !s.poller.Scanning?
    case CallPoll(maxReads) => s.poller.NotPolling? && maxReads > 0
    case PollerLock => s.poller.Entering? || s.poller.Notified?
    case VisitQueue => s.poller.Scanning? && s.poller.empties < |s.rings| && |s.out| < s.poller.maxReads
    case EndScan => s.poller.Scanning? && !(s.poller.empties < |s.rings| && |s.out| < s.poller.maxReads)
    case SpuriousPoller => s.poller.Waiting?
  }

  /** waitForSpace and getWritableRegion. */
  ghost function DoWriterLock(s: State, q: nat): State
    requires q < |s.writers| == |s.rings| && s.rings[q].Valid()
  {
    if s.rings[q].size == |s.rings[q].data| then s.(writers := s.writers[q := Asleep])
    else
      RegionIsOpen(s.rings[q], SENSOR_EVENT_QUEUE_CAPACITY);
      var (first, len) := s.rings[q].Region(SENSOR_EVENT_QUEUE_CAPACITY);
      s.(writers := s.writers[q := Filling(first, len)])
  }

  function DoStore(s: State, q: nat, slot: nat, e: Event): State
    requires q < |s.rings| && slot < |s.rings[q].data|
  {
    s.(rings := s.rings[q := s.rings[q].Write(slot, e)])
  }

  function DoDeviceReturns(s: State, q: nat, count: int): State
    requires q < |s.writers| && s.writers[q].Filling?
  {
    var w := s.writers[q];
    s.(writers := s.writers[q := if count <= 0 then Ready else ToMark(w.first, w.len, count)])
  }

  /** markAsWritten, and the broadcast if someone waits. */
  function DoMarkWritten(s: State, q: nat): State
    requires q < |s.writers| == |s.rings| == |s.produced| && s.writers[q].ToMark?
    requires s.writers[q].first + s.writers[q].count <= |s.rings[q].data|
  {
    var w := s.writers[q];
    s.(rings := s.rings[q := s.rings[q].Mark(w.count)],
       writers := s.writers[q := Ready],
       produced := s.produced[q := s.produced[q] + s.rings[q].data[w.first..w.first + w.count]],
       poller := if s.waitingForData && s.poller.Waiting? then Notified(s.poller.maxReads) else s.poller)
  }

  /** One round of the scan; dequeuing from a full queue wakes its writer. */
  function DoVisit(s: State): State
    requires s.poller.Scanning? && s.next < |s.rings| == |s.writers| && s.rings[s.next].size <= |s.rings[s.next].data|
    requires s.rings[s.next].size > 0 ==> s.rings[s.next].start < |s.rings[s.next].data|
  {
    var k, next := s.next, (s.next + 1) % |s.rings|;
    var ring := s.rings[k];
    if ring.size == 0 then s.(poller := Scanning(s.poller.maxReads, s.poller.empties + 1), next := next)
    else
      var e := ring.data[ring.start];
      s.(rings := s.rings[k := ring.Dequeue()],
         writers := if ring.size == |ring.data| && s.writers[k].Asleep? then s.writers[k := Woken] else s.writers,
         poller := Scanning(s.poller.maxReads, 0), next := next,
         out := if BadHandle(s.handles, e, k) then s.out else s.out + [Remap(s.handles, e, k)],
         log := s.log + [(k, e)])
  }

  /** poll() returns with what it has read, or goes to sleep. */
  function DoEndScan(s: State): State
    requires s.poller.Scanning?
  {
    if s.out == [] then s.(poller := Waiting(s.poller.maxReads), waitingForData := true)
    else s.(poller := NotPolling, out := [], returned := s.returned + s.out)
  }

  ghost function Apply(s: State, step: Step): State
    requires InBounds(s) && Enabled(s, step)
  {
    match step
    case WriterLock(q) => DoWriterLock(s, q)
    case SpuriousWriter(q) => s.(writers := s.writers[q := Woken])
    case Store(q, slot, e) => WriterFits(s, q); DoStore(s, q, slot, e)
    case DeviceReturns(q, count) => DoDeviceReturns(s, q, count)
    case MarkWritten(q) => WriterFits(s, q); DoMarkWritten(s, q)
    case CallPoll(maxReads) => s.(poller := Entering(maxReads))
    case PollerLock => s.(poller := Scanning(s.poller.maxReads, 0), waitingForData := false)
    case VisitQueue => assert WriterOk(s.writers[s.next], s.rings[s.next]); DoVisit(s)
    case EndScan => DoEndScan(s)
    case SpuriousPoller => s.(poller := Notified(s.poller.maxReads))
  }

  // ---------- invariant ----------

  /** The region of a writer is open until it marks it, and a writer sleeps only on a full queue. */
  ghost predicate WriterOk(w: Writer, r: Ring<Event>) {
    && r.Valid() && |r.data| == SENSOR_EVENT_QUEUE_CAPACITY
    && match w
       case Ready => true
       case Woken => true
       case Asleep => r.size == |r.data|
       case Filling(first, len) => r.Open(first, len)
       case ToMark(first, len, count) => r.Open(first, len) && 0 < count <= len
  }

  ghost predicate WritersOk(s: State) {
    && |s.writers| == |s.rings| && (s.rings != [] ==> s.next < |s.rings|)
    && forall q :: 0 <= q < |s.rings| ==> WriterOk(s.writers[q], s.rings[q])
  }

  /** Every store, read and copy of a step stays inside its array. */
  ghost predicate InBounds(s: State) {
    WritersOk(s) && |s.produced| == |s.rings|
  }

  ghost function Contents(rings: seq<Ring<Event>>): seq<seq<Event>>
    requires forall q :: 0 <= q < |rings| ==> rings[q].Valid()
  {
    seq(|rings|, q requires 0 <= q < |rings| => rings[q].Contents())
  }

  /** The machine as `PollScan` sees it: queues as plain sequences. */
  ghost function View(s: State): Scan
    requires WritersOk(s)
  {
    Scan(Contents(s.rings), s.next, if s.poller.Scanning? then s.poller.empties else 0, s.returned + s.out, s.log)
  }

  ghost predicate PollerOk(s: State)
    requires WritersOk(s)
  {
    && (s.waitingForData <==> s.poller.Waiting? || s.poller.Notified?)
    && (!s.poller.NotPolling? ==> s.poller.maxReads > 0)
    && (!s.poller.Scanning? ==> s.out == [])
    && (s.poller.Waiting? ==> forall q :: 0 <= q < |s.rings| ==> s.rings[q].size == 0)
    && (s.poller.Scanning? ==> |s.out| <= s.poller.maxReads && s.poller.empties <= |s.rings| && EmptiesAreEmpty(View(s)))
  }

  ghost predicate Inv(s: State) {
    WritersOk(s) && PollerOk(s) && Conserves(s.handles, s.produced, View(s))
  }

  lemma WriterFits(s: State, q: nat)
    requires WritersOk(s) && q < |s.writers|
    ensures var w := s.writers[q];
      (w.Filling? || w.ToMark?) ==> w.first + w.len <= |s.rings[q].data|
  {
    assert WriterOk(s.writers[q], s.rings[q]);
  }

  lemma InitialInv(s: State)
    requires Initial(s)
    ensures Inv(s)
  {
    forall q | 0 <= q < |s.rings| ensures WriterOk(s.writers[q], s.rings[q]) && s.rings[q].Contents() == [] {
    }
    forall q | 0 <= q < |s.rings| ensures s.produced[q] == Project(s.log, q) + View(s).qs[q] {
      assert s.rings[q].Contents() == [];
    }
  }

  // ---------- preservation ----------

  lemma ContentsAt(rings: seq<Ring<Event>>, q: nat, r: Ring<Event>)
    requires q < |rings| && r.Valid() && forall i :: 0 <= i < |rings| ==> rings[i].Valid()
    ensures Contents(rings[q := r]) == Contents(rings)[q := r.Contents()]
  {
  }

  lemma WriterChanges(s: State, q: nat, w: Writer, r: Ring<Event>)
    requires WritersOk(s) && q < |s.rings| && WriterOk(w, r)
    ensures WritersOk(s.(writers := s.writers[q := w], rings := s.rings[q := r]))
  {
    var s' := s.(writers := s.writers[q := w], rings := s.rings[q := r]);
    forall i | 0 <= i < |s'.rings| ensures WriterOk(s'.writers[i], s'.rings[i]) {
      assert WriterOk(s.writers[i], s.rings[i]);
    }
  }

  /** A writer's step that leaves the readable events alone. */
  lemma InvisibleStep(s: State, q: nat, w: Writer, r: Ring<Event>)
    requires Inv(s) && q < |s.rings| && WriterOk(w, r) && r.size == s.rings[q].size
    requires s.rings[q].Valid() && r.Contents() == s.rings[q].Contents()
    ensures Inv(s.(writers := s.writers[q := w], rings := s.rings[q := r]))
  {
    var s' := s.(writers := s.writers[q := w], rings := s.rings[q := r]);
    WriterChanges(s, q, w, r);
    ContentsAt(s.rings, q, r);
    assert Contents(s.rings)[q := r.Contents()] == Contents(s.rings);
    assert View(s') == View(s);
  }

  lemma WriterStepKeepsInv(s: State, step: Step)
    requires Inv(s) && Enabled(s, step)
    requires step.WriterLock? || step.SpuriousWriter? || step.Store? || step.DeviceReturns?
    ensures Inv(Apply(s, step))
  {
    var s' := Apply(s, step);
    var q := step.q;
    assert WriterOk(s.writers[q], s.rings[q]);
    assert s.writers[q := s.writers[q]] == s.writers && s.rings[q := s.rings[q]] == s.rings;
    match step
    case Store(_, slot, e) =>
      WriteIsInvisible(s.rings[q], s.writers[q].first, s.writers[q].len, slot, e);
      InvisibleStep(s, q, s.writers[q], s.rings[q].Write(slot, e));
    case WriterLock(_) =>
      RegionIsOpen(s.rings[q], SENSOR_EVENT_QUEUE_CAPACITY);
      InvisibleStep(s, q, s'.writers[q], s.rings[q]);
    case SpuriousWriter(_) => InvisibleStep(s, q, Woken, s.rings[q]);
    case DeviceReturns(_, count) => InvisibleStep(s, q, s'.writers[q], s.rings[q]);
  }

  lemma MarkKeepsInv(s: State, q: nat)
    requires Inv(s) && Enabled(s, MarkWritten(q))
    ensures Inv(Apply(s, MarkWritten(q)))
  {
    var s' := Apply(s, MarkWritten(q));
    MarkView(s, q);
    var w := s.writers[q];
    ArrivalConserves(s.handles, s.produced, View(s), q, s.rings[q].data[w.first..w.first + w.count]);
  }

  lemma MarkView(s: State, q: nat)
    requires InBounds(s) && Enabled(s, MarkWritten(q))
    ensures var s', w, v := Apply(s, MarkWritten(q)), s.writers[q], View(s);
      && w.first + w.len <= |s.rings[q].data| && w.count <= w.len
      && WritersOk(s')
      && View(s') == v.(qs := v.qs[q := v.qs[q] + s.rings[q].data[w.first..w.first + w.count]])
  {
    var w, r := s.writers[q], s.rings[q];
    assert WriterOk(w, r);
    MarkAppends(r, w.first, w.len, w.count);
    WriterChanges(s, q, Ready, r.Mark(w.count));
    ContentsAt(s.rings, q, r.Mark(w.count));
  }

  lemma PollerStepKeepsInv(s: State, step: Step)
    requires Inv(s) && Enabled(s, step)
    requires step.CallPoll? || step.PollerLock? || step.SpuriousPoller?
    ensures Inv(Apply(s, step))
  {
  }

  lemma EndScanKeepsInv(s: State)
    requires Inv(s) && Enabled(s, EndScan)
    ensures Inv(Apply(s, EndScan))
  {
    if s.out == [] {
      assert s.returned + s.out == s.returned;
      forall q | 0 <= q < |s.rings| ensures s.rings[q].size == 0 {
        assert Behind(q, s.next, |s.rings|) < s.poller.empties;
        assert View(s).qs[q] == [];
        assert WriterOk(s.writers[q], s.rings[q]);
      }
    } else {
      assert (s.returned + s.out) + [] == s.returned + s.out;
    }
  }

  /** One step of the machine's scan is one round of `PollScan` on the queues' contents. */
  lemma VisitRefines(s: State)
    requires InBounds(s) && Enabled(s, VisitQueue)
    ensures WritersOk(Apply(s, VisitQueue)) && View(Apply(s, VisitQueue)) == Visit(s.handles, View(s))
  {
    var ring := s.rings[s.next];
    assert WriterOk(s.writers[s.next], ring);
    assert View(s).qs[s.next] == ring.Contents();
    NextTurn(s.next, |s.rings|);
    if ring.size > 0 {
      VisitTakes(s);
    }
  }

  lemma VisitTakes(s: State)
    requires InBounds(s) && Enabled(s, VisitQueue) && s.rings[s.next].size > 0
    ensures WritersOk(Apply(s, VisitQueue)) && View(Apply(s, VisitQueue)) == Visit(s.handles, View(s))
  {
    var s', v, k := DoVisit(s), View(s), s.next;
    var ring := s.rings[k];
    assert WriterOk(s.writers[k], ring);
    DequeueDrops(ring);
    VisitKeepsWriters(s);
    ContentsAt(s.rings, k, ring.Dequeue());
    var e := ring.data[ring.start];
    assert v.qs[k] == ring.Contents() == [e] + ring.Dequeue().Contents();
    assert View(s').qs == v.qs[k := v.qs[k][1..]];
    OutGrows(s.returned, s.out, Remap(s.handles, e, k));
  }

  lemma OutGrows<T>(a: seq<T>, b: seq<T>, x: T)
    ensures a + (b + [x]) == (a + b) + [x]
  {
  }

  lemma VisitKeepsWriters(s: State)
    requires WritersOk(s) && Enabled(s, VisitQueue) && s.rings[s.next].size > 0 && s.rings[s.next].start < |s.rings[s.next].data|
    ensures WritersOk(DoVisit(s))
  {
    var k := s.next;
    var w, ring := s.writers[k], s.rings[k];
    assert WriterOk(w, ring);
    if w.Filling? || w.ToMark? {
      DequeueKeepsOpen(ring, w.first, w.len);
    }
    DequeueDrops(ring);
    NextTurn(s.next, |s.rings|);
    forall i | 0 <= i < |s.rings| ensures WriterOk(DoVisit(s).writers[i], DoVisit(s).rings[i]) {
      assert WriterOk(s.writers[i], s.rings[i]);
    }
  }

  lemma VisitKeepsInv(s: State)
    requires Inv(s) && Enabled(s, VisitQueue)
    ensures Inv(Apply(s, VisitQueue))
  {
    VisitRefines(s);
    VisitConserves(s.handles, s.produced, View(s));
    VisitKeepsEmpties(s.handles, View(s), |View(s).out| + 1);
  }

  lemma StepKeepsInv(s: State, step: Step)
    requires Inv(s) && Enabled(s, step)
    ensures Inv(Apply(s, step))
  {
    match step
    case MarkWritten(q) => MarkKeepsInv(s, q);
    case CallPoll(_) => PollerStepKeepsInv(s, step);
    case PollerLock => PollerStepKeepsInv(s, step);
    case SpuriousPoller => PollerStepKeepsInv(s, step);
    case VisitQueue => VisitKeepsInv(s);
    case EndScan => EndScanKeepsInv(s);
    case _ => WriterStepKeepsInv(s, step);
  }

  // ---------- runs ----------

  /** A run; a step from a state in which a store or a read could leave its array may lead anywhere. */
  ghost predicate IsRun(ss: seq<State>, steps: seq<Step>) {
    && |ss| == |steps| + 1 && Initial(ss[0])
    && forall i :: 0 <= i < |steps| ==>
      Enabled(ss[i], steps[i]) && (InBounds(ss[i]) ==> ss[i + 1] == Apply(ss[i], steps[i]))
  }

  lemma {:induction false} RunInv(ss: seq<State>, steps: seq<Step>, i: nat)
    requires IsRun(ss, steps) && i < |ss|
    ensures Inv(ss[i])
  {
    if i == 0 {
      InitialInv(ss[0]);
    } else {
      RunInv(ss, steps, i - 1);
      assert Enabled(ss[i - 1], steps[i - 1]);
      assert InBounds(ss[i - 1]) ==> ss[i - 1 + 1] == Apply(ss[i - 1], steps[i - 1]);
      StepKeepsInv(ss[i - 1], steps[i - 1]);
    }
  }

  /** No lost wake-up: a poller asleep and not notified has only empty queues, a writer asleep and not woken a
      full one; so the poller and a writer are never asleep at the same time. */
  lemma NoLostWakeup(ss: seq<State>, steps: seq<Step>, i: nat)
    requires IsRun(ss, steps) && i < |ss|
    ensures |ss[i].writers| == |ss[i].rings|
    ensures ss[i].poller.Waiting? ==> forall q :: 0 <= q < |ss[i].rings| ==> ss[i].rings[q].size == 0
    ensures forall q :: 0 <= q < |ss[i].writers| && ss[i].writers[q].Asleep? ==> ss[i].rings[q].size == |ss[i].rings[q].data|
    ensures forall q :: 0 <= q < |ss[i].writers| && ss[i].writers[q].Asleep? ==> !ss[i].poller.Waiting?
  {
    RunInv(ss, steps, i);
    forall q | 0 <= q < |ss[i].writers| && ss[i].writers[q].Asleep?
      ensures ss[i].rings[q].size == |ss[i].rings[q].data| == SENSOR_EVENT_QUEUE_CAPACITY
    {
      assert WriterOk(ss[i].writers[q], ss[i].rings[q]);
    }
  }

  /** The stores made without the lock never touch a slot that is or becomes readable before it is marked: at
      every moment each queue's events are exactly those marked as written and not yet dequeued, in order, and
      the framework has been handed exactly the dequeued ones, remapped, without those of unknown handles. */
  lemma EventsAreConserved(ss: seq<State>, steps: seq<Step>, i: nat)
    requires IsRun(ss, steps) && i < |ss|
    ensures forall q :: 0 <= q < |ss[i].rings| ==> ss[i].rings[q].Valid()
    ensures |ss[i].produced| == |ss[i].rings|
    ensures forall q :: 0 <= q < |ss[i].rings| ==>
      ss[i].produced[q] == Project(ss[i].log, q) + ss[i].rings[q].Contents()
    ensures ss[i].returned + ss[i].out == Delivered(ss[i].handles, ss[i].log)
  {
    RunInv(ss, steps, i);
    forall q | 0 <= q < |ss[i].rings|
      ensures ss[i].rings[q].Valid() && ss[i].produced[q] == Project(ss[i].log, q) + ss[i].rings[q].Contents()
    {
      assert WriterOk(ss[i].writers[q], ss[i].rings[q]);
      assert View(ss[i]).qs[q] == ss[i].rings[q].Contents();
    }
  }

  // ---------- the scan is atomic ----------

  /** While the poller scans, no other thread's step changes what the scan sees. */
  lemma OthersAreInvisible(s: State, step: Step)
    requires Inv(s) && Enabled(s, step) && s.poller.Scanning? && !step.VisitQueue? && !step.EndScan?
    ensures var s' := Apply(s, step);
      WritersOk(s') && View(s') == View(s) && s'.poller == s.poller && s'.returned == s.returned && s'.handles == s.handles
  {
    WriterStepKeepsInv(s, step);
    var q := step.q;
    assert WriterOk(s.writers[q], s.rings[q]);
    if step.Store? {
      WriteIsInvisible(s.rings[q], s.writers[q].first, s.writers[q].len, step.slot, step.e);
      ContentsAt(s.rings, q, s.rings[q].Write(step.slot, step.e));
      assert Contents(s.rings)[q := s.rings[q].Contents()] == Contents(s.rings);
    }
  }

  /** `poll`'s maxReads, counted from the first event ever returned as `View` does. */
  ghost function Limit(s: State): nat
    requires s.poller.Scanning?
  {
    |s.returned| + s.poller.maxReads
  }

  lemma VisitGoesOn(s: State, s': State)
    requires s.poller.Scanning? && s'.poller.Scanning? && Limit(s') == Limit(s) && s'.handles == s.handles
    requires WritersOk(s) && WritersOk(s') && View(s).Valid() && View(s).More(Limit(s))
    requires View(s') == Visit(s.handles, View(s))
    ensures View(s').Valid() && Loop(s'.handles, View(s'), Limit(s')) == Loop(s.handles, View(s), Limit(s))
  {
    LoopStep(s.handles, View(s), Limit(s));
  }

  lemma ScanGoesOn(s: State, step: Step)
    requires Inv(s) && Enabled(s, step) && s.poller.Scanning? && !step.EndScan?
    ensures var s' := Apply(s, step);
      && Inv(s') && s'.poller.Scanning? && s'.returned == s.returned
      && Loop(s'.handles, View(s'), Limit(s')) == Loop(s.handles, View(s), Limit(s))
  {
    StepKeepsInv(s, step);
    if step.VisitQueue? {
      VisitRefines(s);
      VisitStaysInScan(s);
      VisitGoesOn(s, Apply(s, step));
    } else {
      OthersAreInvisible(s, step);
    }
  }

  lemma VisitStaysInScan(s: State)
    requires InBounds(s) && Enabled(s, VisitQueue)
    ensures var s' := Apply(s, VisitQueue);
      s'.poller.Scanning? && Limit(s') == Limit(s) && s'.handles == s.handles && s'.returned == s.returned
  {
  }

  /** From one moment of a scan to its end, whatever the other threads do between its rounds, the machine does
      what `PollScan.Loop` does in one go. */
  lemma {:induction false} ScanIsAtomic(ss: seq<State>, steps: seq<Step>, i: nat, j: nat)
    requires IsRun(ss, steps) && i <= j < |steps| && steps[j] == EndScan
    requires forall k :: i <= k <= j ==> ss[k].poller.Scanning?
    requires forall k :: i <= k < j ==> steps[k] != EndScan
    ensures Inv(ss[i]) && Inv(ss[j]) && ss[j].returned == ss[i].returned
    ensures View(ss[j]) == Loop(ss[i].handles, View(ss[i]), Limit(ss[i]))
    decreases j - i
  {
    RunInv(ss, steps, i);
    RunInv(ss, steps, j);
    assert Enabled(ss[i], steps[i]);
    if i < j {
      assert InBounds(ss[i]) ==> ss[i + 1] == Apply(ss[i], steps[i]);
      RunInv(ss, steps, i + 1);
      ScanGoesOn(ss[i], steps[i]);
      ScanIsAtomic(ss, steps, i + 1, j);
    }
  }

  /** What the scan from step `i`, where the poller gets its lock, is to do. */
  ghost function WholeScan(s: State): Scan
    requires WritersOk(s) && s.poller.Scanning?
  {
    Loop(s.handles, Scan(Contents(s.rings), s.next, 0, [], []), s.poller.maxReads)
  }

  /** Every scan of every run, from its lock to its end, is fair and complete on the queues as they stood at the
      lock: what it hands out conserves them, falls short of maxReads only with all of them empty, and drains
      busy queues evenly, whatever the writers do meanwhile. */
  lemma EveryScanIsFair(ss: seq<State>, steps: seq<Step>, i: nat, j: nat)
    requires IsRun(ss, steps) && i < j < |steps| && steps[i] == PollerLock && steps[j] == EndScan
    requires forall k :: i < k <= j ==> ss[k].poller.Scanning?
    requires forall k :: i < k < j ==> steps[k] != EndScan
    ensures Inv(ss[i + 1]) && Inv(ss[j])
    ensures var s, fin := ss[i + 1], WholeScan(ss[i + 1]);
      && Scanned(s.handles, Contents(s.rings), s.poller.maxReads, fin)
      && ss[j].out == fin.out && Contents(ss[j].rings) == fin.qs && ss[j].next == fin.next
      && ss[j].log == s.log + fin.log
  {
    ScanStarts(ss, steps, i);
    ScanIsAtomic(ss, steps, i + 1, j);
    ScanFromStart(ss[i + 1]);
    WholeScanIsFair(ss[i + 1]);
    WithoutHistory(ss[i + 1], ss[j], WholeScan(ss[i + 1]));
  }

  lemma ScanFromStart(s: State)
    requires WritersOk(s) && s.poller.Scanning? && s.poller.empties == 0 && s.out == []
    ensures Loop(s.handles, View(s), Limit(s)) == After(s.returned, s.log, WholeScan(s))
  {
    StartView(s);
    LoopOfView(s.handles, View(s), Limit(s), s.returned, s.log, Scan(Contents(s.rings), s.next, 0, [], []), s.poller.maxReads);
  }

  lemma LoopOfView(handles: Handles, view: Scan, limit: nat, out: seq<Event>, log: seq<(nat, Event)>, begun: Scan, maxReads: nat)
    requires view.Valid() && begun.Valid() && view == After(out, log, begun) && limit == |out| + maxReads
    ensures Loop(handles, view, limit) == After(out, log, Loop(handles, begun, maxReads))
  {
    LoopAfter(handles, out, log, begun, maxReads);
  }

  lemma WholeScanIsFair(s: State)
    requires WritersOk(s) && s.poller.Scanning?
    ensures Scanned(s.handles, Contents(s.rings), s.poller.maxReads, WholeScan(s))
  {
    ScanIsFairAndComplete(s.handles, Contents(s.rings), s.next, s.poller.maxReads);
  }

  lemma StartView(s: State)
    requires WritersOk(s) && s.poller.Scanning? && s.poller.empties == 0 && s.out == []
    ensures View(s) == After(s.returned, s.log, Scan(Contents(s.rings), s.next, 0, [], []))
  {
    assert s.log + [] == s.log;
  }

  lemma WithoutHistory(s: State, t: State, fin: Scan)
    requires WritersOk(t) && View(t) == After(s.returned, s.log, fin) && t.returned == s.returned
    ensures t.out == fin.out && Contents(t.rings) == fin.qs && t.next == fin.next && t.log == s.log + fin.log
  {
    var n := |s.returned|;
    assert (t.returned + t.out)[n..] == t.out && (s.returned + fin.out)[n..] == fin.out;
  }

  lemma ScanStarts(ss: seq<State>, steps: seq<Step>, i: nat)
    requires IsRun(ss, steps) && i < |steps| && steps[i] == PollerLock
    ensures var s := ss[i + 1];
      Inv(s) && s.poller.Scanning? && s.poller.empties == 0 && s.out == []
  {
    RunInv(ss, steps, i);
    RunInv(ss, steps, i + 1);
    assert Enabled(ss[i], steps[i]) && (InBounds(ss[i]) ==> ss[i + 1] == Apply(ss[i], steps[i]));
  }

  // ---------- a scan ends ----------

  /** How many more queues the scan may visit: each event can cost a round of all queues. */
  ghost function Budget(s: Scan): nat
    requires s.Valid()
  {
    Total(s.qs) * (|s.qs| + 1) + (|s.qs| - s.empties)
  }

  lemma VisitSpends(handles: Handles, s: Scan, maxReads: nat)
    requires s.Valid() && s.More(maxReads)
    ensures Visit(handles, s).Valid() && Budget(Visit(handles, s)) < Budget(s)
  {
    var s', n := Visit(handles, s), |s.qs| + 1;
    VisitProgresses(handles, s, maxReads);
    if Total(s'.qs) < Total(s.qs) {
      OneRoundLess(Total(s'.qs), Total(s.qs), n);
    }
  }

  lemma OneRoundLess(a: nat, b: nat, n: nat)
    requires a < b
    ensures a * n + n <= b * n
  {
    assert b * n == a * n + n + (b - a - 1) * n;
  }

  /** The visits among the steps from `i` to `j`. */
  ghost function Visits(steps: seq<Step>, i: nat, j: nat): nat
    requires i <= j <= |steps|
    decreases j - i
  {
    if i == j then 0 else (if steps[i].VisitQueue? then 1 else 0) + Visits(steps, i + 1, j)
  }

  lemma StepSpends(s: State, step: Step)
    requires Inv(s) && Enabled(s, step) && s.poller.Scanning? && !step.EndScan?
    ensures var s' := Apply(s, step);
      && WritersOk(s') && View(s).Valid() && View(s').Valid()
      && Budget(View(s')) + (if step.VisitQueue? then 1 else 0) <= Budget(View(s))
  {
    if step.VisitQueue? {
      VisitRefines(s);
      VisitSpends(s.handles, View(s), |View(s).out| + 1);
    } else {
      OthersAreInvisible(s, step);
    }
  }

  /** In every run, while the writers go on storing, a scan visits no more queues than the budget it has; and as
      long as it lasts either another visit or its end is possible. */
  lemma {:induction false} ScanEnds(ss: seq<State>, steps: seq<Step>, i: nat, j: nat)
    requires IsRun(ss, steps) && i <= j <= |steps|
    requires forall k :: i <= k <= j ==> ss[k].poller.Scanning?
    requires forall k :: i <= k < j ==> steps[k] != EndScan
    ensures WritersOk(ss[i]) && View(ss[i]).Valid() && Visits(steps, i, j) <= Budget(View(ss[i]))
    ensures Enabled(ss[j], VisitQueue) || Enabled(ss[j], EndScan)
    decreases j - i
  {
    RunInv(ss, steps, i);
    if i < j {
      assert Enabled(ss[i], steps[i]) && (InBounds(ss[i]) ==> ss[i + 1] == Apply(ss[i], steps[i]));
      StepSpends(ss[i], steps[i]);
      ScanEnds(ss, steps, i + 1, j);
    }
  }

  /** With full queues of 36 events that is at most 36 n (n + 1) + n visits for n queues. */
  lemma BudgetIsBounded(s: State)
    requires Inv(s) && s.poller.Scanning?
    ensures View(s).Valid()
    ensures var n := |s.rings|; Budget(View(s)) <= SENSOR_EVENT_QUEUE_CAPACITY * n * (n + 1) + n
  {
    var qs, n := Contents(s.rings), |s.rings|;
    forall q | 0 <= q < n ensures |qs[q]| <= SENSOR_EVENT_QUEUE_CAPACITY {
      assert WriterOk(s.writers[q], s.rings[q]);
    }
    TotalIsBounded(qs, SENSOR_EVENT_QUEUE_CAPACITY);
    NoMoreRounds(Total(qs), SENSOR_EVENT_QUEUE_CAPACITY * n, n + 1);
  }

  lemma {:induction false} TotalIsBounded(qs: seq<seq<Event>>, c: nat)
    requires forall q :: 0 <= q < |qs| ==> |qs[q]| <= c
    ensures Total(qs) <= c * |qs|
  {
    if qs != [] {
      TotalIsBounded(qs[1..], c);
      assert c * |qs| == c * (|qs| - 1) + c;
    }
  }

  lemma NoMoreRounds(a: nat, b: nat, n: nat)
    requires a <= b
    ensures a * n <= b * n
  {
  }

  // ---------- what each step does ----------

  /** A writer that gets the lock sleeps exactly when its queue is full, and otherwise is given all the space there
      is up to the end of the array or the oldest event. */
  lemma WriterLockOpens(s: State, q: nat)
    requires InBounds(s) && Enabled(s, WriterLock(q))
    ensures var s', r := Apply(s, WriterLock(q)), s.rings[q];
      && s' == s.(writers := s'.writers) && |s'.writers| == |s.writers|
      && (forall p :: 0 <= p < |s.writers| && p != q ==> s'.writers[p] == s.writers[p])
      && if r.size == |r.data| then s'.writers[q] == Asleep
         else
           && s'.writers[q].Filling? && s'.writers[q].len > 0 && r.Open(s'.writers[q].first, s'.writers[q].len)
           && var end := s'.writers[q].first + s'.writers[q].len;
              s'.writers[q].len == SENSOR_EVENT_QUEUE_CAPACITY || end == |r.data| || end == r.start
  {
    assert WriterOk(s.writers[q], s.rings[q]);
    RegionIsOpen(s.rings[q], SENSOR_EVENT_QUEUE_CAPACITY);
    if s.rings[q].size < |s.rings[q].data| {
      RegionIsMaximal(s.rings[q], SENSOR_EVENT_QUEUE_CAPACITY);
    }
  }

  /** A sub-HAL that reports no event, or an error, sends its writer back; else the writer goes on to mark exactly
      what was reported. */
  lemma DeviceReport(s: State, q: nat, count: int)
    requires InBounds(s) && Enabled(s, DeviceReturns(q, count))
    ensures var s', w := Apply(s, DeviceReturns(q, count)), s.writers[q];
      s' == s.(writers := s.writers[q := if count <= 0 then Ready else ToMark(w.first, w.len, count)])
  {
  }

  /** The poller's steps outside the scan's rounds: a call begins; a scan begins awake and with no queue found
      empty; it ends with all it has read, or, having read nothing, asleep on its condition. */
  lemma PollerSteps(s: State, step: Step)
    requires InBounds(s) && Enabled(s, step)
    ensures step.CallPoll? ==> Apply(s, step) == s.(poller := Entering(step.maxReads))
    ensures step.PollerLock? ==> Apply(s, step) == s.(poller := Scanning(s.poller.maxReads, 0), waitingForData := false)
    ensures step.EndScan? && s.out != [] ==>
      Apply(s, step) == s.(poller := NotPolling, out := [], returned := s.returned + s.out)
    ensures step.EndScan? && s.out == [] ==>
      Apply(s, step) == s.(poller := Waiting(s.poller.maxReads), waitingForData := true)
    ensures step.SpuriousPoller? ==> Apply(s, step) == s.(poller := Notified(s.poller.maxReads))
  {
  }

  // ---------- a poll returns something ----------

  /** Between its call and its return a poll keeps its maxReads and hands nothing over; a return hands over at
      least one event, and no more than that. */
  lemma PollStep(s: State, step: Step)
    requires Inv(s) && Enabled(s, step) && !s.poller.NotPolling?
    ensures var s' := Apply(s, step);
      if s'.poller.NotPolling? then
        && step == EndScan && |s.returned| < |s'.returned| <= |s.returned| + s.poller.maxReads
        && s'.returned[..|s.returned|] == s.returned
      else s'.returned == s.returned && s'.poller.maxReads == s.poller.maxReads
  {
    match step
    case WriterLock(q) =>
    case Store(q, _, _) =>
    case MarkWritten(q) =>
    case _ =>
  }

  ghost predicate DuringPoll(ss: seq<State>, i: nat, j: nat) {
    j < |ss| && forall k :: i <= k <= j ==> !ss[k].poller.NotPolling?
  }

  lemma {:induction false} PollKeeps(ss: seq<State>, steps: seq<Step>, i: nat, j: nat)
    requires IsRun(ss, steps) && i <= j && DuringPoll(ss, i, j)
    ensures ss[j].returned == ss[i].returned && ss[j].poller.maxReads == ss[i].poller.maxReads
    decreases j - i
  {
    if i < j {
      RunApplies(ss, steps, i);
      PollStep(ss[i], steps[i]);
      PollKeeps(ss, steps, i + 1, j);
    }
  }

  lemma RunApplies(ss: seq<State>, steps: seq<Step>, i: nat)
    requires IsRun(ss, steps) && i < |steps|
    ensures Inv(ss[i]) && Enabled(ss[i], steps[i]) && ss[i + 1] == Apply(ss[i], steps[i])
  {
    RunInv(ss, steps, i);
  }

  /** In every run a poll(maxReads) that returns has handed over at least one and at most maxReads events. */
  lemma PollReturnsEvents(ss: seq<State>, steps: seq<Step>, i: nat, j: nat, maxReads: nat)
    requires IsRun(ss, steps) && i < j < |steps| && steps[i] == CallPoll(maxReads)
    requires DuringPoll(ss, i + 1, j) && ss[j + 1].poller.NotPolling?
    ensures steps[j] == EndScan
    ensures ss[i].returned < ss[j + 1].returned && |ss[j + 1].returned| <= |ss[i].returned| + maxReads
  {
    RunApplies(ss, steps, i);
    PollerSteps(ss[i], steps[i]);
    PollKeeps(ss, steps, i + 1, j);
    RunApplies(ss, steps, j);
    PollStep(ss[j], steps[j]);
    assert ss[j + 1].returned[..|ss[i].returned|] == ss[i].returned;
  }

  /** A step that wakes the poller: the marking of events in some queue, or no one's. */
  predicate WakesPoller(step: Step) {
    step.MarkWritten? || step.SpuriousPoller?
  }

  lemma WaitingStep(s: State, step: Step)
    requires InBounds(s) && Enabled(s, step) && s.poller.Waiting? && !WakesPoller(step)
    ensures Apply(s, step).poller == s.poller && !step.PollerLock?
  {
    match step
    case WriterLock(q) =>
    case Store(q, _, _) =>
    case _ =>
  }

  /** A poller that waits scans again only after it has been woken. */
  lemma {:induction false} WaitsToBeWoken(ss: seq<State>, steps: seq<Step>, i: nat, j: nat) returns (k: nat)
    requires IsRun(ss, steps) && i < j < |steps| && ss[i].poller.Waiting? && steps[j] == PollerLock
    ensures i <= k < j && WakesPoller(steps[k]) && ss[k].poller.Waiting?
    decreases j - i
  {
    RunApplies(ss, steps, i);
    if WakesPoller(steps[i]) {
      k := i;
    } else {
      WaitingStep(ss[i], steps[i]);
      if i + 1 == j {
        RunApplies(ss, steps, j);
      }
      k := WaitsToBeWoken(ss, steps, i + 1, j);
    }
  }

  /** In every run a scan that found nothing ends asleep ... */
  lemma NothingFoundWaits(ss: seq<State>, steps: seq<Step>, i: nat)
    requires IsRun(ss, steps) && i < |steps| && steps[i] == EndScan && ss[i].out == []
    ensures ss[i + 1].poller.Waiting? && ss[i + 1].waitingForData && ss[i + 1].returned == ss[i].returned
  {
    RunApplies(ss, steps, i);
    PollerSteps(ss[i], steps[i]);
  }

  /** ... and the same call scans again only once woken. */
  lemma RescansOnlyWoken(ss: seq<State>, steps: seq<Step>, i: nat, j: nat) returns (k: nat)
    requires IsRun(ss, steps) && i < j < |steps| && steps[i] == EndScan && ss[i].out == [] && steps[j] == PollerLock
    ensures i < k < j && WakesPoller(steps[k]) && ss[k].poller.Waiting?
  {
    NothingFoundWaits(ss, steps, i);
    RunApplies(ss, steps, j);
    k := WaitsToBeWoken(ss, steps, i + 1, j);
  }

  // ---------- what is stored is what is marked ----------

  /** What slot `slot` of queue `q` holds after the steps from `i` to `j`: the event stored last, or what it held. */
  function LastStored(steps: seq<Step>, q: nat, slot: nat, i: nat, j: nat, before: Event): Event
    requires i <= j <= |steps|
    decreases j - i
  {
    if i == j then before
    else
      match steps[j - 1]
      case Store(p, at, e) => if p == q && at == slot then e else LastStored(steps, q, slot, i, j - 1, before)
      case _ => LastStored(steps, q, slot, i, j - 1, before)
  }

  /** Only stores change what an array holds. */
  lemma StepStores(s: State, step: Step, q: nat, slot: nat)
    requires Inv(s) && Enabled(s, step) && q < |s.rings| && slot < |s.rings[q].data|
    ensures var s' := Apply(s, step);
      && |s'.rings| == |s.rings| && |s'.rings[q].data| == |s.rings[q].data|
      && s'.rings[q].data[slot] ==
         if step.Store? && step.q == q && step.slot == slot then step.e else s.rings[q].data[slot]
  {
    match step
    case Store(p, at, e) =>
      assert WriterOk(s.writers[p], s.rings[p]);
      WriteIsInvisible(s.rings[p], s.writers[p].first, s.writers[p].len, at, e);
    case MarkWritten(p) => WriterFits(s, p);
    case VisitQueue => assert WriterOk(s.writers[s.next], s.rings[s.next]);
    case _ =>
  }

  lemma {:induction false} SlotsHoldTheLastStored(ss: seq<State>, steps: seq<Step>, q: nat, slot: nat, i: nat, j: nat)
    requires IsRun(ss, steps) && i <= j <= |steps| && q < |ss[i].rings| && slot < |ss[i].rings[q].data|
    ensures |ss[j].rings| == |ss[i].rings| && |ss[j].rings[q].data| == |ss[i].rings[q].data|
    ensures ss[j].rings[q].data[slot] == LastStored(steps, q, slot, i, j, ss[i].rings[q].data[slot])
    decreases j - i
  {
    if i < j {
      SlotsHoldTheLastStored(ss, steps, q, slot, i, j - 1);
      RunApplies(ss, steps, j - 1);
      StepStores(ss[j - 1], steps[j - 1], q, slot);
    }
  }

  /** A step by which writer `q` itself moves on. */
  predicate MovesWriter(step: Step, q: nat) {
    step == WriterLock(q) || step == MarkWritten(q) || (step.DeviceReturns? && step.q == q)
  }

  /** Nothing else moves a writer that is not asleep, or adds to what it has produced. */
  lemma WriterStays(s: State, step: Step, q: nat)
    requires Inv(s) && Enabled(s, step) && q < |s.rings| && !MovesWriter(step, q) && !s.writers[q].Asleep?
    ensures var s' := Apply(s, step);
      && |s'.rings| == |s.rings| == |s'.writers| == |s'.produced|
      && s'.writers[q] == s.writers[q] && s'.produced[q] == s.produced[q]
  {
    match step
    case WriterLock(p) =>
    case MarkWritten(p) => WriterFits(s, p);
    case Store(p, _, _) => WriterFits(s, p);
    case VisitQueue => assert WriterOk(s.writers[s.next], s.rings[s.next]);
    case _ =>
  }

  lemma {:induction false} WriterStaysOver(ss: seq<State>, steps: seq<Step>, q: nat, i: nat, j: nat)
    requires IsRun(ss, steps) && i <= j <= |steps| && q < |ss[i].writers| && !ss[i].writers[q].Asleep?
    requires forall k :: i <= k < j ==> !MovesWriter(steps[k], q)
    ensures |ss[j].rings| == |ss[i].rings| == |ss[j].writers| == |ss[i].writers| == |ss[j].produced| == |ss[i].produced|
    ensures ss[j].writers[q] == ss[i].writers[q] && ss[j].produced[q] == ss[i].produced[q]
    decreases j - i
  {
    RunInv(ss, steps, i);
    if i < j {
      RunApplies(ss, steps, i);
      WriterStays(ss[i], steps[i], q);
      WriterStaysOver(ss, steps, q, i + 1, j);
    }
  }

  /** The steps of one round of writer `q`: its lock at `i`, the sub-HAL's report at `m`, the marking at `j`. */
  ghost predicate WriterRound(steps: seq<Step>, q: nat, count: int, i: nat, m: nat, j: nat) {
    && i < m < j < |steps|
    && steps[i] == WriterLock(q) && steps[m] == DeviceReturns(q, count) && steps[j] == MarkWritten(q)
    && forall k :: i < k < j && k != m ==> !MovesWriter(steps[k], q)
  }

  /** In every run, whatever the poller and the other writers do meanwhile, a round adds to its queue exactly as
      many events as the sub-HAL reported, and they are what it last stored in the first slots of its region. */
  lemma MarksWhatWasStored(ss: seq<State>, steps: seq<Step>, q: nat, count: int, i: nat, m: nat, j: nat)
    returns (first: nat, marked: seq<Event>)
    requires IsRun(ss, steps) && WriterRound(steps, q, count, i, m, j)
    ensures q < |ss[i].rings| == |ss[i].produced| == |ss[j + 1].produced| && q < |ss[i + 1].writers|
    ensures ss[i + 1].writers[q].Filling? && first == ss[i + 1].writers[q].first
    ensures 0 < count <= ss[i + 1].writers[q].len && first + count <= |ss[i].rings[q].data|
    ensures ss[j + 1].produced[q] == ss[i].produced[q] + marked && |marked| == count
    ensures forall k :: 0 <= k < count ==>
      marked[k] == LastStored(steps, q, first + k, i, j, ss[i].rings[q].data[first + k])
  {
    RegionIsGiven(ss, steps, q, count, i, m, j);
    var w := ss[i + 1].writers[q];
    first := w.first;
    RunApplies(ss, steps, j);
    WriterFits(ss[j], q);
    marked := ss[j].rings[q].data[first..first + count];
    forall k | 0 <= k < count
      ensures marked[k] == LastStored(steps, q, first + k, i, j, ss[i].rings[q].data[first + k])
    {
      SlotsHoldTheLastStored(ss, steps, q, first + k, i, j);
    }
  }

  lemma RegionIsGiven(ss: seq<State>, steps: seq<Step>, q: nat, count: int, i: nat, m: nat, j: nat)
    requires IsRun(ss, steps) && WriterRound(steps, q, count, i, m, j)
    ensures q < |ss[i].rings| == |ss[i].produced| == |ss[j].produced| == |ss[j].writers| == |ss[j].rings|
    ensures |ss[i + 1].writers| == |ss[i].rings| && |ss[i].rings[q].data| == |ss[j].rings[q].data|
    ensures ss[i + 1].writers[q].Filling? && count <= ss[i + 1].writers[q].len
    ensures count > 0 && ss[j].writers[q] == ToMark(ss[i + 1].writers[q].first, ss[i + 1].writers[q].len, count)
    ensures ss[j].produced[q] == ss[i].produced[q]
  {
    LockThenReport(ss, steps, q, count, i, m);
    RunApplies(ss, steps, m);
    DeviceReport(ss[m], q, count);
    WriterStaysOver(ss, steps, q, m + 1, j);
    RunApplies(ss, steps, j);
    SlotsHoldTheLastStored(ss, steps, q, 0, i, j);
  }

  /** From the lock to the report the writer holds its region. */
  lemma LockThenReport(ss: seq<State>, steps: seq<Step>, q: nat, count: int, i: nat, m: nat)
    requires IsRun(ss, steps) && i < m < |steps| && steps[i] == WriterLock(q) && steps[m] == DeviceReturns(q, count)
    requires forall k :: i < k < m ==> !MovesWriter(steps[k], q)
    ensures q < |ss[i].rings| == |ss[m].rings| == |ss[i].produced| == |ss[m].produced|
    ensures |ss[i + 1].writers| == |ss[m].writers| == |ss[i].rings| && |ss[i].rings[q].data| > 0
    ensures ss[i + 1].writers[q].Filling? && ss[m].writers[q] == ss[i + 1].writers[q]
    ensures ss[m].produced[q] == ss[i].produced[q]
  {
    RunApplies(ss, steps, i);
    WriterLockOpens(ss[i], q);
    assert WriterOk(ss[i].writers[q], ss[i].rings[q]);
    RunApplies(ss, steps, m);
    if ss[i + 1].writers[q].Asleep? {
      SleeperNeedsLock(ss, steps, q, i + 1, m);
    } else {
      WriterStaysOver(ss, steps, q, i + 1, m);
    }
  }

  /** A writer that has been put to sleep has no region before it gets the lock again. */
  lemma {:induction false} SleeperNeedsLock(ss: seq<State>, steps: seq<Step>, q: nat, i: nat, j: nat)
    requires IsRun(ss, steps) && i <= j <= |steps| && q < |ss[i].writers|
    requires ss[i].writers[q].Asleep? || ss[i].writers[q].Woken?
    requires forall k :: i <= k < j ==> !MovesWriter(steps[k], q)
    ensures q < |ss[j].writers| && (ss[j].writers[q].Asleep? || ss[j].writers[q].Woken?)
    decreases j - i
  {
    if i < j {
      RunApplies(ss, steps, i);
      SleeperStep(ss[i], steps[i], q);
      SleeperNeedsLock(ss, steps, q, i + 1, j);
    }
  }

  lemma SleeperStep(s: State, step: Step, q: nat)
    requires Inv(s) && Enabled(s, step) && q < |s.writers| && !MovesWriter(step, q)
    requires s.writers[q].Asleep? || s.writers[q].Woken?
    ensures var s' := Apply(s, step); q < |s'.writers| && (s'.writers[q].Asleep? || s'.writers[q].Woken?)
  {
    match step
    case WriterLock(p) =>
    case MarkWritten(p) => WriterFits(s, p);
    case Store(p, _, _) => WriterFits(s, p);
    case VisitQueue => assert WriterOk(s.writers[s.next], s.rings[s.next]);
    case _ =>
  }

  // ---------- progress ----------

  /** A step that some thread of the machine takes of its own accord. */
  predicate Own(step: Step) {
    !step.SpuriousWriter? && !step.SpuriousPoller? && !step.CallPoll?
  }

  lemma WriterCanMove(s: State, q: nat) returns (step: Step)
    requires Inv(s) && q < |s.writers| && !s.writers[q].Asleep? && !s.poller.Scanning?
    ensures Own(step) && Enabled(s, step)
    ensures step == WriterLock(q) || step == MarkWritten(q) || step == DeviceReturns(q, 0)
  {
    assert WriterOk(s.writers[q], s.rings[q]);
    match s.writers[q]
    case Ready => step := WriterLock(q);
    case Woken => step := WriterLock(q);
    case Filling(_, _) => step := DeviceReturns(q, 0);
    case ToMark(_, _, _) => step := MarkWritten(q);
  }

  /** No run blocks while a poll is under way: either the poller can go on, or it waits and then every writer can. */
  lemma PollNeverBlocks(ss: seq<State>, steps: seq<Step>, i: nat)
    requires IsRun(ss, steps) && i < |ss| && !ss[i].poller.NotPolling?
    ensures ss[i].poller.Waiting? || Enabled(ss[i], PollerLock) || Enabled(ss[i], VisitQueue) || Enabled(ss[i], EndScan)
    ensures ss[i].poller.Waiting? ==> forall q :: 0 <= q < |ss[i].writers| ==>
      Enabled(ss[i], WriterLock(q)) || Enabled(ss[i], MarkWritten(q)) || Enabled(ss[i], DeviceReturns(q, 0))
  {
    RunInv(ss, steps, i);
    if ss[i].poller.Waiting? {
      NoLostWakeup(ss, steps, i);
      forall q | 0 <= q < |ss[i].writers|
        ensures Enabled(ss[i], WriterLock(q)) || Enabled(ss[i], MarkWritten(q)) || Enabled(ss[i], DeviceReturns(q, 0))
      {
        var step := WriterCanMove(ss[i], q);
      }
    }
  }

  ghost predicate Reachable(s: State) {
    exists ss, steps :: IsRun(ss, steps) && ss[|steps|] == s
  }

  lemma Reaches(s: State, step: Step)
    requires Reachable(s) && Enabled(s, step)
    ensures InBounds(s) && Reachable(Apply(s, step))
  {
    var ss, steps :| IsRun(ss, steps) && ss[|steps|] == s;
    RunInv(ss, steps, |steps|);
    Extends(ss, steps, step, Apply(s, step));
  }

  lemma Extends(ss: seq<State>, steps: seq<Step>, step: Step, s': State)
    requires IsRun(ss, steps) && Enabled(ss[|steps|], step)
    requires InBounds(ss[|steps|]) ==> s' == Apply(ss[|steps|], step)
    ensures IsRun(ss + [s'], steps + [step]) && (ss + [s'])[|steps + [step]|] == s'
  {
    var ss', steps' := ss + [s'], steps + [step];
    forall i | 0 <= i < |steps'|
      ensures Enabled(ss'[i], steps'[i]) && (InBounds(ss'[i]) ==> ss'[i + 1] == Apply(ss'[i], steps'[i]))
    {
      assert ss'[i] == ss[i];
      if i < |steps| {
        assert steps'[i] == steps[i] && ss'[i + 1] == ss[i + 1];
        assert Enabled(ss[i], steps[i]) && (InBounds(ss[i]) ==> ss[i + 1] == Apply(ss[i], steps[i]));
      }
    }
  }

  /** One queue, whose sub-HAL has been given the whole of it. */
  lemma OneRegionOpen(handles: Handles, blank: Event) returns (s: State)
    ensures Reachable(s) && |s.rings| == |s.writers| == 1 && s.rings[0] == Ring(s.rings[0].data, 0, 0)
    ensures s == State(handles, s.rings, s.writers, NotPolling, false, 0, [], [], [], [[]])
    ensures |s.rings[0].data| == SENSOR_EVENT_QUEUE_CAPACITY && s.writers[0] == Filling(0, SENSOR_EVENT_QUEUE_CAPACITY)
  {
    var data := seq(SENSOR_EVENT_QUEUE_CAPACITY, _ => blank);
    s := State(handles, [Ring(data, 0, 0)], [Ready], NotPolling, false, 0, [], [], [], [[]]);
    assert IsRun([s], []);
    Reaches(s, WriterLock(0));
    s := Apply(s, WriterLock(0));
  }

  /** In its first slot the sub-HAL has stored `e` and had it marked. */
  lemma OneEventMarked(handles: Handles, e: Event) returns (s: State)
    ensures Reachable(s) && s.handles == handles && |s.rings| == 1 && s.rings[0].size == 1 && s.rings[0].start == 0
    ensures |s.rings[0].data| == SENSOR_EVENT_QUEUE_CAPACITY && s.rings[0].data[0] == e
    ensures s.poller == NotPolling && s.next == 0 && s.out == s.returned == []
  {
    s := OneRegionOpen(handles, e.(payload := e.payload + 1));
    Reaches(s, Store(0, 0, e));
    var r := s.rings[0].Write(0, e);
    s := s.(rings := [r]);
    s := MarksOne(s, r);
  }

  lemma MarksOne(s: State, r: Ring<Event>) returns (s': State)
    requires Reachable(s) && s.rings == [r] && |r.data| == SENSOR_EVENT_QUEUE_CAPACITY && r.size == 0
    requires s.writers == [Filling(0, SENSOR_EVENT_QUEUE_CAPACITY)] && s.produced == [[]] && s.poller == NotPolling
    ensures Reachable(s') && s'.rings == [r.Mark(1)]
    ensures s' == s.(rings := s'.rings, writers := s'.writers, produced := s'.produced)
  {
    Reaches(s, DeviceReturns(0, 1));
    var reported := s.(writers := [ToMark(0, SENSOR_EVENT_QUEUE_CAPACITY, 1)]);
    assert DoDeviceReturns(s, 0, 1) == reported;
    Reaches(reported, MarkWritten(0));
    s' := DoMarkWritten(reported, 0);
  }

  /** An event a sub-HAL stores can reach the framework, under its global handle. */
  lemma EventGetsThrough(handles: Handles, e: Event) returns (s: State)
    requires !BadHandle(handles, e, 0)
    ensures Reachable(s) && s.poller == NotPolling && s.returned == [Remap(handles, e, 0)]
  {
    s := OneEventMarked(handles, e);
    Reaches(s, CallPoll(1));
    s := Apply(s, CallPoll(1));
    Reaches(s, PollerLock);
    s := Apply(s, PollerLock);
    Reaches(s, VisitQueue);
    s := Apply(s, VisitQueue);
    Reaches(s, EndScan);
    s := Apply(s, EndScan);
  }
}
