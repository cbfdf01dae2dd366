/** The scan of `poll` on the queue objects themselves, proved to be `PollScan.Loop`. */
module PollContext {
  import opened Options
  import opened SensorHandles
  import opened SensorQueue
  import opened PollScan

  type Queue = SensorEventQueue<Event>

  class SensorsPollContext {
    const queues: seq<Queue>
    const handles: HandleMaps
    var nextReadIndex: nat

    ghost predicate QueuesValid()
      reads queues, set q: Queue | q in queues :: q.mData
    {
      && (forall i, j :: 0 <= i < j < |queues| ==> queues[i] != queues[j])
      && (forall i :: 0 <= i < |queues| ==> queues[i].Valid())
    }

    ghost predicate Valid()
      reads this, queues, set q: Queue | q in queues :: q.mData
    {
      QueuesValid() && (queues != [] ==> nextReadIndex < |queues|)
    }

    /** The queues hold `qs`. */
    ghost predicate Holds(qs: seq<seq<Event>>)
      requires QueuesValid()
      reads queues, set q: Queue | q in queues :: q.mData
    {
      |qs| == |queues| && forall i :: 0 <= i < |queues| ==> queues[i].Value().Contents() == qs[i]
    }

    constructor (queues: seq<Queue>, handles: HandleMaps)
      requires forall i, j :: 0 <= i < j < |queues| ==> queues[i] != queues[j]
      requires forall i :: 0 <= i < |queues| ==> queues[i].Valid()
      ensures Valid() && this.queues == queues && this.handles == handles && nextReadIndex == 0
    {
      this.queues, this.handles, nextReadIndex := queues, handles, 0;
    }

    method PeekAt(k: nat, ghost qs: seq<seq<Event>>) returns (e: Option<Event>)
      requires QueuesValid() && Holds(qs) && k < |queues|
      ensures e == if qs[k] == [] then None else Some(qs[k][0])
    {
      e := queues[k].Peek();
    }

    /** Dequeuing from one queue touches no other. */
    method DequeueFrom(k: nat, ghost qs: seq<seq<Event>>)
      requires QueuesValid() && Holds(qs) && k < |queues| && qs[k] != []
      modifies queues[k]
      ensures QueuesValid() && Holds(qs[k := qs[k][1..]])
    {
      var _ := queues[k].Dequeue();
    }

    /** The remapped oldest event goes to data[eventsRead], and stays there unless its handle is unknown. */
    method CopyEvent(data: array<Event>, eventsRead: nat, event: Event, k: nat) returns (eventsRead': nat)
      requires eventsRead < data.Length
      modifies data
      ensures eventsRead' <= eventsRead + 1
      ensures data[..eventsRead'] == old(data[..eventsRead])
        + (if BadHandle(handles.fullToGlobal, event, k) then [] else [Remap(handles.fullToGlobal, event, k)])
    {
      eventsRead' := eventsRead;
      data[eventsRead] := Remap(handles.fullToGlobal, event, k);
      if data[eventsRead].sensor != -1 {
        eventsRead' := eventsRead + 1;
      }
    }

    /** The part of a round for a queue that is not empty. */
    method TakeEvent(data: array<Event>, eventsRead: nat, event: Event, ghost s: Scan) returns (eventsRead': nat)
      requires Valid() && eventsRead < data.Length && forall q :: q in queues ==> q.mData != data
      requires Holds(s.qs) && nextReadIndex == s.next < |queues| && data[..eventsRead] == s.out
      requires s.qs[s.next] != [] && event == s.qs[s.next][0]
      modifies queues[nextReadIndex], data
      ensures Valid() && eventsRead' <= eventsRead + 1
      ensures var s' := Visit(handles.fullToGlobal, s); Holds(s'.qs) && data[..eventsRead'] == s'.out
    {
      eventsRead' := CopyEvent(data, eventsRead, event, nextReadIndex);
      DequeueFrom(nextReadIndex, s.qs);
    }

    /** One round of the inner loop. */
    method VisitNext(data: array<Event>, eventsRead: nat, empties: nat, ghost s: Scan)
      returns (eventsRead': nat, empties': nat)
      requires Valid() && eventsRead < data.Length && forall q :: q in queues ==> q.mData != data
      requires Holds(s.qs) && nextReadIndex == s.next < |queues| && data[..eventsRead] == s.out && empties == s.empties
      modifies this, queues, data
      ensures Valid() && eventsRead' <= eventsRead + 1
      ensures var s' := Visit(handles.fullToGlobal, s);
        Holds(s'.qs) && nextReadIndex == s'.next && data[..eventsRead'] == s'.out && empties' == s'.empties
    {
      eventsRead', empties' := eventsRead, empties;
      var event := PeekAt(nextReadIndex, s.qs);
      ghost var s' := Visit(handles.fullToGlobal, s);
      VisitAdvances(handles.fullToGlobal, s);
      if event == None {
        empties' := empties + 1;
      } else {
        empties' := 0;
        eventsRead' := TakeEvent(data, eventsRead, event.value, s);
      }
      Advance(s'.qs);
    }

    method Advance(ghost qs: seq<seq<Event>>)
      requires QueuesValid() && Holds(qs) && nextReadIndex < |queues|
      modifies this`nextReadIndex
      ensures Valid() && Holds(qs)
      ensures nextReadIndex == if old(nextReadIndex) + 1 < |queues| then old(nextReadIndex) + 1 else 0
    {
      NextTurn(nextReadIndex, |queues|);
      nextReadIndex := (nextReadIndex + 1) % |queues|;
    }

    /** One locked pass of `poll`; `data` has room for maxReads events. */
    method ScanQueues(data: array<Event>, maxReads: nat, ghost qs: seq<seq<Event>>)
      returns (eventsRead: nat, ghost s: Scan)
      requires Valid() && Holds(qs) && maxReads <= data.Length && forall q :: q in queues ==> q.mData != data
      modifies this, queues, data
      ensures Valid() && eventsRead <= maxReads
      ensures s == Loop(handles.fullToGlobal, Scan(qs, old(nextReadIndex), 0, [], []), maxReads)
      ensures Holds(s.qs) && nextReadIndex == s.next && data[..eventsRead] == s.out
      ensures Scanned(handles.fullToGlobal, qs, maxReads, s)
    {
      var empties := 0;
      eventsRead := 0;
      s := Scan(qs, nextReadIndex, 0, [], []);
      ghost var all := Loop(handles.fullToGlobal, s, maxReads);
      while empties < |queues| && eventsRead < maxReads
        invariant Valid() && s.Valid() && eventsRead <= maxReads
        invariant Holds(s.qs) && nextReadIndex == s.next && data[..eventsRead] == s.out && empties == s.empties
        invariant Loop(handles.fullToGlobal, s, maxReads) == all
        decreases Total(s.qs), |s.qs| - s.empties
      {
        VisitProgresses(handles.fullToGlobal, s, maxReads);
        LoopStep(handles.fullToGlobal, s, maxReads);
        eventsRead, empties := VisitNext(data, eventsRead, empties, s);
        s := Visit(handles.fullToGlobal, s);
      }
      ScanIsFairAndComplete(handles.fullToGlobal, qs, old(nextReadIndex), maxReads);
    }
  }
}
