/** The locked scan of sensors_poll_context_t::poll in sensors/multihal.cpp: events of many queues are merged
  round-robin into one output array, with handles remapped and unknown ones dropped.
 */
module PollScan {
  import opened Options
  import opened SensorHandles

  type Handles = map<FullHandle, int>

  /** The loop variables of `poll`, and the log of every dequeue with its queue's index. */
  datatype Scan = Scan(qs: seq<seq<Event>>, next: nat, empties: nat, out: seq<Event>, log: seq<(nat, Event)>) {
    ghost predicate Valid() {
      (qs != [] ==> next < |qs|) && empties <= |qs|
    }

    /** The guard of the inner loop. */
    predicate More(maxReads: nat) {
      empties < |qs| && |out| < maxReads
    }
  }

  predicate BadHandle(handles: Handles, e: Event, k: nat) {
    Remap(handles, e, k).sensor == -1
  }

  /** The sensor an event is about: for metadata the inner handle. */
  function Subject(e: Event): int {
    if e.meta then e.metaSensor else e.sensor
  }

  /** The test for bad handles looks at the outer field only.  What it lets through although no listed sensor has
      the handle it then carries is exactly the metadata about unlisted sensors, unless its own field is -1. */
  lemma BadHandlePassesIff(fs: seq<FullHandle>, e: Event, k: nat)
    ensures !BadHandle(FullToGlobal(fs), e, k) && Subject(Remap(FullToGlobal(fs), e, k)) !in GlobalToFull(fs)
      <==> e.meta && e.sensor != -1 && FullHandle(k, e.metaSensor) !in fs
    ensures BadHandle(FullToGlobal(fs), e, k) <==> if e.meta then e.sensor == -1 else FullHandle(k, e.sensor) !in fs
  {
    FullToGlobalIsLast(fs, FullHandle(k, Subject(e)));
    GlobalToFullAt(fs, Subject(Remap(FullToGlobal(fs), e, k)));
  }

  /** One round of the inner loop. */
  function Visit(handles: Handles, s: Scan): Scan
    requires s.next < |s.qs|
  {
    var k, next := s.next, (s.next + 1) % |s.qs|;
    if s.qs[k] == [] then s.(empties := s.empties + 1, next := next)
    else
      var e := s.qs[k][0];
      Scan(s.qs[k := s.qs[k][1..]], next, 0,
           if BadHandle(handles, e, k) then s.out else s.out + [Remap(handles, e, k)],
           s.log + [(k, e)])
  }

  ghost function Total(qs: seq<seq<Event>>): nat {
    if qs == [] then 0 else |qs[0]| + Total(qs[1..])
  }

  lemma {:induction false} TotalAfterUpdate(qs: seq<seq<Event>>, k: nat, q: seq<Event>)
    requires k < |qs|
    ensures Total(qs[k := q]) == Total(qs) - |qs[k]| + |q|
  {
    if k == 0 {
      assert qs[k := q][1..] == qs[1..];
    } else {
      TotalAfterUpdate(qs[1..], k - 1, q);
      assert qs[k := q][1..] == qs[1..][k - 1 := q];
    }
  }

  /** The measure that ends the scan: queued events, then queues not yet found empty in a row. */
  lemma VisitProgresses(handles: Handles, s: Scan, maxReads: nat)
    requires s.Valid() && s.More(maxReads)
    ensures var s' := Visit(handles, s);
      Total(s'.qs) < Total(s.qs) || (Total(s'.qs) == Total(s.qs) && |s'.qs| - s'.empties < |s.qs| - s.empties)
  {
    if s.qs[s.next] != [] {
      TotalAfterUpdate(s.qs, s.next, s.qs[s.next][1..]);
    }
  }

  /** The inner loop to its end. */
  ghost function Loop(handles: Handles, s: Scan, maxReads: nat): Scan
    requires s.Valid()
    decreases Total(s.qs), |s.qs| - s.empties
  {
    if !s.More(maxReads) then s
    else
      VisitProgresses(handles, s, maxReads);
      Loop(handles, Visit(handles, s), maxReads)
  }

  lemma LoopStep(handles: Handles, s: Scan, maxReads: nat)
    requires s.Valid() && s.More(maxReads)
    ensures Visit(handles, s).Valid() && Loop(handles, Visit(handles, s), maxReads) == Loop(handles, s, maxReads)
  {
    VisitProgresses(handles, s, maxReads);
  }

  // ---------- conservation ----------

  /** The events of `log` taken from queue `k`, in order. */
  ghost function Project(log: seq<(nat, Event)>, k: nat): seq<Event> {
    if log == [] then []
    else Project(log[..|log| - 1], k) + (if log[|log| - 1].0 == k then [log[|log| - 1].1] else [])
  }

  /** What the framework is handed for `log`. */
  ghost function Delivered(handles: Handles, log: seq<(nat, Event)>): seq<Event> {
    if log == [] then []
    else
      var (k, e) := log[|log| - 1];
      Delivered(handles, log[..|log| - 1]) + (if BadHandle(handles, e, k) then [] else [Remap(handles, e, k)])
  }

  lemma LogGrows(handles: Handles, log: seq<(nat, Event)>, k: nat, e: Event)
    ensures Delivered(handles, log + [(k, e)]) ==
      Delivered(handles, log) + (if BadHandle(handles, e, k) then [] else [Remap(handles, e, k)])
    ensures forall j :: Project(log + [(k, e)], j) == Project(log, j) + (if j == k then [e] else [])
  {
    assert (log + [(k, e)])[..|log|] == log;
  }

  /** Nothing is lost, duplicated or reordered within a queue: what a queue held is what was taken from it,
      in order, followed by what it still holds; the output is what was taken, remapped, bad handles dropped. */
  ghost predicate Conserves(handles: Handles, qs0: seq<seq<Event>>, s: Scan) {
    && |s.qs| == |qs0|
    && (forall k :: 0 <= k < |qs0| ==> qs0[k] == Project(s.log, k) + s.qs[k])
    && s.out == Delivered(handles, s.log)
  }

  lemma VisitConserves(handles: Handles, qs0: seq<seq<Event>>, s: Scan)
    requires s.next < |s.qs| && Conserves(handles, qs0, s)
    ensures Conserves(handles, qs0, Visit(handles, s))
  {
    var k := s.next;
    if s.qs[k] != [] {
      var s' := Visit(handles, s);
      LogGrows(handles, s.log, k, s.qs[k][0]);
      assert s.qs[k] == [s.qs[k][0]] + s.qs[k][1..];
      forall j | 0 <= j < |qs0| ensures qs0[j] == Project(s'.log, j) + s'.qs[j] {
        assert qs0[j] == Project(s.log, j) + s.qs[j];
      }
    }
  }

  lemma ArrivalConserves(handles: Handles, qs0: seq<seq<Event>>, s: Scan, q: nat, es: seq<Event>)
    requires q < |qs0| && Conserves(handles, qs0, s)
    ensures Conserves(handles, qs0[q := qs0[q] + es], s.(qs := s.qs[q := s.qs[q] + es]))
  {
  }

  // ---------- zero events only when all queues are empty ----------

  /** How many places `i` lies behind `next`, going backwards round the queues. */
  function Behind(i: nat, next: nat, n: nat): nat
    requires i < n && next < n
  {
    if i < next then next - 1 - i else next - 1 - i + n
  }

  /** The queues found empty in a row are still empty. */
  ghost predicate EmptiesAreEmpty(s: Scan) {
    s.Valid() && forall i :: 0 <= i < |s.qs| && Behind(i, s.next, |s.qs|) < s.empties ==> s.qs[i] == []
  }

  lemma NextTurn(next: nat, n: nat)
    requires next < n
    ensures (next + 1) % n == if next + 1 < n then next + 1 else 0
  {
  }

  lemma VisitAdvances(handles: Handles, s: Scan)
    requires s.next < |s.qs|
    ensures Visit(handles, s).next == if s.next + 1 < |s.qs| then s.next + 1 else 0
  {
    NextTurn(s.next, |s.qs|);
  }

  lemma VisitKeepsEmpties(handles: Handles, s: Scan, maxReads: nat)
    requires EmptiesAreEmpty(s) && s.More(maxReads)
    ensures EmptiesAreEmpty(Visit(handles, s))
  {
    var s' := Visit(handles, s);
    NextTurn(s.next, |s.qs|);
    forall i | 0 <= i < |s.qs| && Behind(i, s'.next, |s.qs|) < s'.empties ensures s'.qs[i] == [] {
      if i != s.next {
        assert Behind(i, s'.next, |s.qs|) == Behind(i, s.next, |s.qs|) + 1;
      }
    }
  }

  // ---------- fairness ----------

  /** How many places after `start` queue `i` comes. */
  function Ahead(start: nat, i: nat, n: nat): nat
    requires start < n && i < n
  {
    if i >= start then i - start else i - start + n
  }

  /** Since the scan began at `start` it has gone round `rounds` times; a queue that is not empty has given one
      event in each round, and one more if already passed in the current one. */
  ghost predicate Even(s: Scan, start: nat, rounds: nat) {
    && s.Valid() && start < |s.qs|
    && forall i :: 0 <= i < |s.qs| && s.qs[i] != [] ==>
      |Project(s.log, i)| == rounds + (if Ahead(start, i, |s.qs|) < Ahead(start, s.next, |s.qs|) then 1 else 0)
  }

  lemma VisitKeepsEven(handles: Handles, s: Scan, maxReads: nat, start: nat, rounds: nat)
    requires Even(s, start, rounds) && s.More(maxReads)
    ensures Even(Visit(handles, s), start, if (s.next + 1) % |s.qs| == start then rounds + 1 else rounds)
  {
    var s' := Visit(handles, s);
    NextTurn(s.next, |s.qs|);
    forall i | 0 <= i < |s'.qs| && s'.qs[i] != []
      ensures |Project(s'.log, i)| == (if s'.next == start then rounds + 1 else rounds)
        + (if Ahead(start, i, |s.qs|) < Ahead(start, s'.next, |s.qs|) then 1 else 0)
    {
      assert s.qs[i] != [];
      VisitTakesOne(handles, s, i);
      TurnCounts(start, s.next, i, |s.qs|);
    }
  }

  /** A round takes one event from a queue it visits that is not empty. */
  lemma VisitTakesOne(handles: Handles, s: Scan, i: nat)
    requires s.next < |s.qs| && i < |s.qs| && s.qs[i] != []
    ensures |Project(Visit(handles, s).log, i)| == |Project(s.log, i)| + if i == s.next then 1 else 0
  {
    if s.qs[s.next] != [] {
      LogGrows(handles, s.log, s.next, s.qs[s.next][0]);
    }
  }

  /** Passing `next` counts for the queue there, and a full turn for all. */
  lemma TurnCounts(start: nat, next: nat, i: nat, n: nat)
    requires start < n && next < n && i < n
    ensures var next' := if next + 1 < n then next + 1 else 0;
      (if Ahead(start, i, n) < Ahead(start, next, n) then 1 else 0) + (if i == next then 1 else 0)
      == (if next' == start then 1 else 0) + (if Ahead(start, i, n) < Ahead(start, next', n) then 1 else 0)
  {
  }

  // ---------- the whole scan ----------

  /** What one locked scan that began on `qs0` and ends as `s` has done. */
  ghost predicate Scanned(handles: Handles, qs0: seq<seq<Event>>, maxReads: nat, s: Scan) {
    && s.Valid() && Conserves(handles, qs0, s) && |s.out| <= maxReads
    && (|s.out| < maxReads ==> forall k :: 0 <= k < |s.qs| ==> s.qs[k] == [])
    && (forall i, j :: 0 <= i < |s.qs| && 0 <= j < |s.qs| && s.qs[i] != [] && s.qs[j] != [] ==>
         |Project(s.log, i)| <= |Project(s.log, j)| + 1)
  }

  lemma LoopEnds(s: Scan, maxReads: nat)
    requires EmptiesAreEmpty(s) && !s.More(maxReads) && |s.out| < maxReads
    ensures forall k :: 0 <= k < |s.qs| ==> s.qs[k] == []
  {
    forall k | 0 <= k < |s.qs| ensures s.qs[k] == [] {
      assert Behind(k, s.next, |s.qs|) < s.empties;
    }
  }

  lemma {:induction false} LoopScans(handles: Handles, qs0: seq<seq<Event>>, s: Scan, maxReads: nat, start: nat, rounds: nat)
    requires Conserves(handles, qs0, s) && EmptiesAreEmpty(s) && |s.out| <= maxReads
    requires s.qs != [] ==> Even(s, start, rounds)
    ensures Scanned(handles, qs0, maxReads, Loop(handles, s, maxReads))
    decreases Total(s.qs), |s.qs| - s.empties
  {
    if s.More(maxReads) {
      VisitProgresses(handles, s, maxReads);
      VisitConserves(handles, qs0, s);
      VisitKeepsEmpties(handles, s, maxReads);
      VisitKeepsEven(handles, s, maxReads, start, rounds);
      LoopScans(handles, qs0, Visit(handles, s), maxReads, start, if (s.next + 1) % |s.qs| == start then rounds + 1 else rounds);
    } else if |s.out| < maxReads {
      LoopEnds(s, maxReads);
    }
  }

  /** One locked scan conserves every event, stops short of `maxReads` (in particular with none) only when every
      queue is empty, and drains two queues that stay non-empty within one event of each other. */
  lemma ScanIsFairAndComplete(handles: Handles, qs: seq<seq<Event>>, next: nat, maxReads: nat)
    requires qs != [] ==> next < |qs|
    ensures Scanned(handles, qs, maxReads, Loop(handles, Scan(qs, next, 0, [], []), maxReads))
  {
    var s := Scan(qs, next, 0, [], []);
    forall k | 0 <= k < |qs| ensures qs[k] == Project(s.log, k) + s.qs[k] {
    }
    LoopScans(handles, qs, s, maxReads, next, 0);
  }

  // ---------- a scan after a history ----------

  /** The scan `s`, made after `out` had been delivered and `log` dequeued. */
  function After(out: seq<Event>, log: seq<(nat, Event)>, s: Scan): Scan {
    s.(out := out + s.out, log := log + s.log)
  }

  lemma VisitAfter(handles: Handles, out: seq<Event>, log: seq<(nat, Event)>, s: Scan)
    requires s.next < |s.qs|
    ensures Visit(handles, After(out, log, s)) == After(out, log, Visit(handles, s))
  {
    if s.qs[s.next] != [] {
      var e := s.qs[s.next][0];
      Reassociate(out, s.out, Remap(handles, e, s.next));
      Reassociate(log, s.log, (s.next, e));
    }
  }

  lemma Reassociate<T>(a: seq<T>, b: seq<T>, x: T)
    ensures (a + b) + [x] == a + (b + [x])
  {
  }

  /** What came before a scan makes no difference to it. */
  lemma {:induction false} LoopAfter(handles: Handles, out: seq<Event>, log: seq<(nat, Event)>, s: Scan, maxReads: nat)
    requires s.Valid()
    ensures After(out, log, s).Valid()
    ensures Loop(handles, After(out, log, s), |out| + maxReads) == After(out, log, Loop(handles, s, maxReads))
    decreases Total(s.qs), |s.qs| - s.empties
  {
    if s.More(maxReads) {
      VisitProgresses(handles, s, maxReads);
      VisitAfter(handles, out, log, s);
      LoopStep(handles, s, maxReads);
      LoopStep(handles, After(out, log, s), |out| + maxReads);
      LoopAfter(handles, out, log, Visit(handles, s), maxReads);
    }
  }
}
