/** LocTimerContainer of gps/utils/LocTimer.cpp on the pointer heap: what the message task does for one message,
  taken alone.  The state machine of `TimerModel` runs the same operations on trees, cut where other threads
  can interfere.
 */
module TimerContainerModule {
  import H = HeapTree
  import opened Options
  import opened LocHeapModule
  import opened TimerModel
  import opened TimerTheorems

  /** What is still to come in the loop of MsgTimerExpire when `timer` has been popped from `heap`. */
  ghost function Pending(timer: Option<Timer>, heap: H.Tree<Timer>, now: Timespec): (seq<Timer>, H.Tree<Timer>) {
    if timer == None then ([], heap)
    else
      var (xs, rest) := Drain(heap, now, false);
      ([timer.value] + xs, rest)
  }

  lemma PendingStep(done: seq<Timer>, timer: Timer, heap: H.Tree<Timer>, now: Timespec)
    ensures var pops := Pops(heap, now, false);
      var next := if pops then Some(heap.data) else None;
      var heap' := if pops then H.Pop(TimerRanks, heap) else heap;
      && (pops ==> H.Count(heap') < H.Count(heap))
      && done + Pending(Some(timer), heap, now).0 == (done + [timer]) + Pending(next, heap', now).0
      && Pending(Some(timer), heap, now).1 == Pending(next, heap', now).1
  {
    if Pops(heap, now, false) {
      H.PopElements(TimerRanks, heap);
    }
  }

  class LocTimerContainer {
    const heap: LocHeap<Timer>
    /** The timerfd's expiry time and whether the fd is in the epoll set. */
    var armed: Option<Timespec>
    var polled: bool

    ghost function Tree(): H.Tree<Timer>
      reads heap, heap.mTree
    {
      heap.Tree()
    }

    ghost predicate Valid()
      reads this, heap, heap.mTree, LocHeapNode<Timer>.ReprOf(heap.mTree)
    {
      heap.Valid() && heap.ranks == TimerRanks && this !in heap.Repr()
    }

    constructor ()
      ensures Valid() && fresh(heap) && fresh(heap.Repr()) && Tree() == H.Leaf && armed == None && !polled
    {
      heap := new LocHeap(TimerRanks);
      armed, polled := None, false;
    }

    method GetSoonestTimer() returns (top: Option<Timer>)
      requires Valid()
      ensures top == Top(Tree())
    {
      top := heap.Peek();
    }

    method UpdateSoonestTime(priorTop: Option<Timer>)
      requires Valid()
      modifies this
      ensures Valid() && Tree() == old(Tree())
      ensures match SoonestUpdate(priorTop, Top(Tree()))
        case Keep => armed == old(armed) && polled == old(polled)
        case Disarm => armed == None && !polled
        case Arm(at) => armed == Settime(at) && polled
    {
      var curTop := GetSoonestTimer();
      if curTop != priorTop {
        if curTop == None {
          polled := false;
          armed := None;
        } else if priorTop == None || TimerRanks(curTop.value, priorTop.value) > 0 {
          polled := true;
          armed := Settime(curTop.value.at);
        }
      }
    }

    /** MsgTimerPush. */
    method PushProc(timer: Timer)
      requires Valid()
      modifies this, heap.Repr()
      ensures Valid() && fresh(heap.Repr() - old(heap.Repr()))
      ensures Tree() == H.Push(TimerRanks, old(Tree()), timer)
      ensures if old(Tree()).Leaf? || TimerRanks(timer, old(Tree()).data) > 0
        then armed == Settime(timer.at) && polled
        else armed == old(armed) && polled == old(polled)
    {
      H.PushTop(TimerRanks, Tree(), timer);
      var priorTop := GetSoonestTimer();
      heap.Push(timer);
      UpdateSoonestTime(priorTop);
    }

    /** MsgTimerRemove, up to the delete: the kernel is set again only when the top itself has gone. */
    method RemoveProc(timer: Timer)
      requires Valid()
      modifies this, heap.Repr()
      ensures Valid() && heap.Repr() <= old(heap.Repr())
      ensures Tree() == H.Remove(TimerRanks, old(Tree()), timer).0
      ensures if old(Tree()).Node? && old(Tree()).data == timer && Tree().Node?
        then armed == Settime(Tree().data.at) && polled
        else armed == old(armed) && polled == old(polled)
    {
      var priorTop := GetSoonestTimer();
      var removed := heap.Remove(timer);
      if priorTop == removed {
        UpdateSoonestTime(None);
      }
    }

    method PopIfOutRanks(now: Timespec) returns (popped: Option<Timer>)
      requires Valid()
      modifies heap.Repr()
      ensures Valid() && heap.Repr() <= old(heap.Repr())
      ensures Tree() == if Pops(old(Tree()), now, false) then H.Pop(TimerRanks, old(Tree())) else old(Tree())
      ensures popped == if Pops(old(Tree()), now, false) then Some(old(Tree()).data) else None
    {
      popped := None;
      var top := heap.Peek();
      if top != None && TimerRanks(Timer(0, now), top.value) <= 0 {
        popped := heap.Pop();
      }
    }

    /** MsgTimerExpire: `expired` are the timers whose expire() is called, in order. */
    method ExpireProc(now: Timespec) returns (expired: seq<Timer>)
      requires Valid()
      modifies this, heap.Repr()
      ensures Valid() && heap.Repr() <= old(heap.Repr())
      ensures (expired, Tree()) == Drain(old(Tree()), now, true)
      ensures if Tree().Node? then armed == Settime(Tree().data.at) && polled else armed == old(armed) && polled == old(polled)
    {
      expired := [];
      ghost var all := Drain(Tree(), now, true);
      var timer := heap.Pop();
      assert expired + Pending(timer, Tree(), now).0 == Pending(timer, Tree(), now).0;
      while timer != None
        invariant Valid() && heap.Repr() <= old(heap.Repr())
        invariant armed == old(armed) && polled == old(polled)
        invariant all == (expired + Pending(timer, Tree(), now).0, Pending(timer, Tree(), now).1)
        decreases H.Count(Tree()), timer != None
      {
        PendingStep(expired, timer.value, Tree(), now);
        expired := expired + [timer.value];
        timer := PopIfOutRanks(now);
      }
      assert expired + Pending(None, Tree(), now).0 == expired;
      UpdateSoonestTime(None);
    }
  }
}
