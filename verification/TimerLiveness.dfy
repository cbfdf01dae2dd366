/** The timer service comes to rest: while no client acts and the clock stands, its threads can take only a
  bounded number of steps.  When they can take none, every timer whose second is past has been delivered; what can
  be left overdue is less than a second late and shares the second of the timer the kernel waits for.
 */
module TimerLiveness {
  import H = HeapTree
  import opened Options
  import opened TimerModel
  import opened TimerInvariant
  import opened TimerExpiry

  /** A step of the poll thread or of the message task. */
  predicate ServiceStep(step: Step) {
    match step
    case NewClient(_) => false
    case Start(_, _) => false
    case Stop(_) => false
    case Destroy(_) => false
    case Tick(_) => false
    case _ => true
  }

  // ---------- at rest ----------

  ghost predicate AtRest(s: State) {
    forall step :: ServiceStep(step) ==> !Enabled(s, step)
  }

  /** At rest everything queued has been done: the living delegates are exactly the running timers, all of
      them in the heap; the earliest second is what the kernel waits for, with the nanoseconds of the heap's top.
      So a timer may be overdue, by less than a second, but only beside a later one of its second at the top. */
  lemma RestIsWithinASecond(s: State)
    requires Inv(s) && AtRest(s)
    ensures s.task == Idle && s.queue == [] && s.poll == Waiting
    ensures forall d :: d in s.delegates <==> InHeap(s.heap, d)
    ensures forall d :: d in s.delegates ==> s.delegates[d].client.Some?
    ensures s.heap.Node? ==> s.polled && s.armed == Some(s.heap.data.at) && !AtOrBefore(s.heap.data.at, s.now)
    ensures forall x :: x in H.Elements(s.heap) ==> Nanos(s.now) - Nanos(x.at) < 1_000_000_000
    ensures NoneOverdue(s) <==> (s.heap.Node? ==> NoneOverdueWithTop(s))
  {
    ThreadsAreIdle(s);
    forall d: nat ensures (d in s.delegates <==> InHeap(s.heap, d)) && (d in s.delegates ==> s.delegates[d].client.Some?) {
      assert Good(ViewOf(s, d));
    }
    if s.heap.Node? {
      TopIsAhead(s);
      LateByNanoseconds(s);
    }
  }

  /** No timer's time has passed, to the nanosecond. */
  ghost predicate NoneOverdue(s: State) {
    forall x :: x in H.Elements(s.heap) ==> !AtOrBefore(x.at, s.now)
  }

  /** Nor that of a timer in the second of the heap's top. */
  ghost predicate NoneOverdueWithTop(s: State)
    requires s.heap.Node?
  {
    forall x :: x in H.Elements(s.heap) && x.at.sec == s.heap.data.at.sec ==> !AtOrBefore(x.at, s.now)
  }

  lemma TopIsAhead(s: State)
    requires ArmOk(s) && AtRest(s) && s.task == Idle && s.queue == [] && s.poll == Waiting && s.heap.Node?
    ensures s.polled && s.armed == Some(s.heap.data.at) && !AtOrBefore(s.heap.data.at, s.now)
  {
    assert !Enabled(s, Wake);
  }

  lemma LateByNanoseconds(s: State)
    requires HeapOk(s) && TimesOk(s) && s.heap.Node? && !AtOrBefore(s.heap.data.at, s.now)
    ensures forall x :: x in H.Elements(s.heap) ==>
      Nanos(s.now) - Nanos(x.at) < 1_000_000_000 && (AtOrBefore(x.at, s.now) ==> x.at.sec == s.heap.data.at.sec)
  {
    forall x | x in H.Elements(s.heap)
      ensures Nanos(s.now) - Nanos(x.at) < 1_000_000_000 && (AtOrBefore(x.at, s.now) ==> x.at.sec == s.heap.data.at.sec)
    {
      TimerRanking();
      H.TopIsMaximal(TimerRanks, s.heap, x);
    }
  }

  /** That happens: after two starts that fall into one second, the later time first, the kernel waits for the
      later, and between the two times the service rests with the earlier undelivered. */
  lemma RestsOverdue(a: nat, b: nat, to: Timespec) returns (s: State)
    requires 1000 <= b < a < 2000 && Normal(to) && AtOrBefore(InSecond(b), to) && !AtOrBefore(InSecond(a), to)
    ensures Reachable(s) && AtRest(s) && s.now == to && !NoneOverdue(s)
    ensures Timer(1, InSecond(b)) in H.Elements(s.heap)
  {
    s := TwoTimersRun(a, b);
    InSecondIs(a);
    InSecondIs(b);
    Reaches(s, Tick(to));
    s := s.(now := to);
    assert Timer(1, InSecond(b)) in H.Elements(s.heap.left);
    forall step | ServiceStep(step) ensures !Enabled(s, step) {
    }
  }

  lemma ThreadsAreIdle(s: State)
    requires AtRest(s)
    ensures s.task == Idle && s.queue == [] && s.poll == Waiting
  {
    assert !Enabled(s, PollDisarm) && !Enabled(s, PollRemove) && !Enabled(s, PollSend);
    assert !Enabled(s, Receive) && !Enabled(s, PopNext) && !Enabled(s, Fire);
    assert !Enabled(s, AddPoll) && !Enabled(s, SetTime) && !Enabled(s, Delete);
  }

  // ---------- the way to rest ----------

  /** Work a queued message may still cause. */
  ghost function MsgWork(m: Msg): nat {
    match m
    case PushMsg(_) => 31
    case RemoveMsg(_) => 11
    case ExpireMsg => 2
  }

  ghost function QueueWork(q: seq<Msg>): nat {
    if q == [] then 0 else MsgWork(q[0]) + QueueWork(q[1..])
  }

  lemma {:induction false} QueueWorkAppend(q: seq<Msg>, m: Msg)
    ensures QueueWork(q + [m]) == QueueWork(q) + MsgWork(m)
  {
    if q == [] {
      assert q + [m] == [m];
    } else {
      QueueWorkAppend(q[1..], m);
      assert (q + [m])[1..] == q[1..] + [m];
    }
  }

  ghost function TaskWork(t: Task): nat {
    match t
    case Idle => 0
    case Popping(_, first) => if first then 1 else 9
    case Firing(_, _) => 21
    case AddingPoll(_, del) => 8 + (if del.Some? then 1 else 0)
    case SettingTime(_, del) => 7 + (if del.Some? then 1 else 0)
    case Deleting(_) => 1
  }

  ghost function PollWork(p: Poll): nat {
    match p
    case Waiting => 0
    case Woken => 5
    case Disarmed => 4
    case Unpolled => 3
  }

  /** A due timerfd will wake the poll thread, unless that is about to disarm it. */
  ghost function DueWork(s: State): nat {
    if s.armed.Some? && AtOrBefore(s.armed.value, s.now) && s.poll != Woken then 6 else 0
  }

  ghost function Work(s: State): nat {
    QueueWork(s.queue) + 21 * H.Count(s.heap) + TaskWork(s.task) + PollWork(s.poll) + DueWork(s)
  }

  lemma ServiceStepWorks(s: State, step: Step)
    requires Enabled(s, step) && Derefs(s) && ServiceStep(step)
    ensures Work(Apply(s, step)) < Work(s)
  {
    match step
    case Wake => PollWorks(s, step);
    case PollDisarm => PollWorks(s, step);
    case PollRemove => PollWorks(s, step);
    case PollSend => QueueWorkAppend(s.queue, ExpireMsg);
    case Receive => ReceiveWorks(s);
    case PopNext => PopWorks(s);
    case Fire => FireWorks(s);
    case AddPoll => KernelWorks(s, step);
    case SetTime => KernelWorks(s, step);
    case Delete =>
  }

  lemma PollWorks(s: State, step: Step)
    requires Enabled(s, step) && Derefs(s) && (step.Wake? || step.PollDisarm? || step.PollRemove?)
    ensures Work(Apply(s, step)) < Work(s)
  {
  }

  lemma KernelWorks(s: State, step: Step)
    requires Enabled(s, step) && Derefs(s) && (step.AddPoll? || step.SetTime?)
    ensures Work(Apply(s, step)) < Work(s)
  {
  }

  /** The message task, working on the heap, the queue or in its own hand. */
  lemma TaskWorks(s: State, s': State)
    requires s'.armed == s.armed && s'.poll == s.poll && s'.now == s.now
    requires QueueWork(s'.queue) + 21 * H.Count(s'.heap) + TaskWork(s'.task) < QueueWork(s.queue) + 21 * H.Count(s.heap) + TaskWork(s.task)
    ensures Work(s') < Work(s)
  {
  }

  lemma PopWorks(s: State)
    requires s.task.Popping?
    ensures Work(DoPopNext(s)) < Work(s)
  {
    var s' := DoPopNext(s);
    assert 21 * H.Count(s'.heap) + TaskWork(s'.task) < 21 * H.Count(s.heap) + TaskWork(s.task) by {
      if Pops(s.heap, s.task.now, s.task.first) {
        H.PopElements(TimerRanks, s.heap);
      } else if s.task.first {
        assert s.heap.Leaf?;
      }
    }
    TaskWorks(s, s');
  }

  lemma FireWorks(s: State)
    requires Derefs(s) && s.task.Firing?
    ensures Work(DoFire(s)) < Work(s)
  {
    var client := s.delegates[s.task.d].client;
    if client.Some? && s.clients[client.value].Some? {
      QueueWorkAppend(s.queue, RemoveMsg(s.clients[client.value].value));
    }
  }

  lemma ReceiveWorks(s: State)
    requires Enabled(s, Receive) && Derefs(s)
    ensures Work(Apply(s, Receive)) < Work(s)
  {
    match s.queue[0]
    case PushMsg(d) => ReceivePushWorks(s);
    case RemoveMsg(d) => ReceiveRemoveWorks(s);
    case ExpireMsg =>
  }

  lemma ReceivePushWorks(s: State)
    requires Enabled(s, Receive) && Derefs(s) && s.queue[0].PushMsg?
    ensures Work(ReceivePush(s)) < Work(s)
  {
    var s' := ReceivePush(s);
    assert H.Count(s'.heap) == H.Count(s.heap) + 1 by {
      H.PushElements(TimerRanks, s.heap, Timer(s.queue[0].d, s.delegates[s.queue[0].d].at));
    }
    assert TaskWork(s'.task) <= 8 && TaskWork(s.task) == 0;
    assert QueueWork(s'.queue) == QueueWork(s.queue) - 31;
    TaskWorks(s, s');
  }

  lemma ReceiveRemoveWorks(s: State)
    requires Enabled(s, Receive) && Derefs(s) && s.queue[0].RemoveMsg?
    ensures Work(ReceiveRemove(s)) < Work(s)
  {
    var s' := ReceiveRemove(s);
    assert H.Count(s'.heap) <= H.Count(s.heap) by {
      H.RemoveElements(TimerRanks, s.heap, Timer(s.queue[0].d, s.delegates[s.queue[0].d].at));
    }
    assert TaskWork(s'.task) <= 9 && TaskWork(s.task) == 0;
    assert QueueWork(s'.queue) == QueueWork(s.queue) - 11;
    TaskWorks(s, s');
  }

  /** Consecutive service steps. */
  ghost predicate ServiceRun(ss: seq<State>, steps: seq<Step>) {
    && |ss| == |steps| + 1
    && forall i :: 0 <= i < |steps| ==>
      ServiceStep(steps[i]) && Enabled(ss[i], steps[i]) && (Derefs(ss[i]) ==> ss[i + 1] == Apply(ss[i], steps[i]))
  }

  /** A stretch of consecutive service steps from a reachable state is no longer than the work in it. */
  lemma {:induction false} ServiceComesToRest(ss: seq<State>, steps: seq<Step>)
    requires ServiceRun(ss, steps) && Inv(ss[0])
    ensures |steps| <= Work(ss[0]) && Inv(ss[|steps|])
    decreases |steps|
  {
    if steps != [] {
      FirstServiceStep(ss, steps);
      ServiceComesToRest(ss[1..], steps[1..]);
    }
  }

  lemma FirstServiceStep(ss: seq<State>, steps: seq<Step>)
    requires ServiceRun(ss, steps) && steps != [] && Inv(ss[0])
    ensures ServiceRun(ss[1..], steps[1..]) && Inv(ss[1]) && Work(ss[1]) < Work(ss[0])
  {
    assert ServiceStep(steps[0]) && Enabled(ss[0], steps[0]) && (Derefs(ss[0]) ==> ss[0 + 1] == Apply(ss[0], steps[0]));
    InvDerefs(ss[0]);
    ServiceStepWorks(ss[0], steps[0]);
    StepKeepsInv(ss[0], steps[0]);
  }
}
