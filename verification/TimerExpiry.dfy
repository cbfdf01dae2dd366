/** What an expiry does over whole runs: what it fires, when it fires too early, and why the kernel's timer may be
  armed for no timer at all.
 */
module TimerExpiry {
  import H = HeapTree
  import opened Options
  import opened TimerModel
  import opened TimerInvariant
  import opened TimerTheorems

  lemma RunStep(ss: seq<State>, steps: seq<Step>, i: nat)
    requires IsRun(ss, steps) && i < |steps|
    ensures Enabled(ss[i], steps[i]) && Derefs(ss[i]) && ss[i + 1] == Apply(ss[i], steps[i])
  {
    RunIsSafe(ss, steps);
  }

  // ---------- one Expire message over a run ----------

  predicate Expiring(t: Task) {
    t.Popping? || t.Firing?
  }

  function Ids(xs: seq<Timer>): seq<nat> {
    if xs == [] then [] else [xs[0].id] + Ids(xs[1..])
  }

  /** The delegates whose expire() is called between two moments of a run, in order. */
  ghost function Fired(ss: seq<State>, steps: seq<Step>, i: nat, j: nat): seq<nat>
    requires i <= j <= |steps| < |ss|
    decreases j - i
  {
    if i == j then [] else FiredBy(ss[i], steps[i]) + Fired(ss, steps, i + 1, j)
  }

  function FiredBy(s: State, step: Step): seq<nat> {
    if step.Fire? && s.task.Firing? then [s.task.d] else []
  }

  /** What is still to be fired for the message under way, and the heap that will be left. */
  function ToFire(s: State): (seq<nat>, H.Tree<Timer>)
    requires Expiring(s.task)
  {
    var (xs, rest) := Drain(s.heap, s.task.now, s.task.Popping? && s.task.first);
    (if s.task.Firing? then [s.task.d] + Ids(xs) else Ids(xs), rest)
  }

  /** The end of MsgTimerExpire: nothing is left to fire, and the kernel is about to be set to the new top. */
  ghost predicate Rearms(s: State, rest: H.Tree<Timer>) {
    s.heap == rest && s.task == if rest.Node? then AddingPoll(rest.data.at, None) else Idle
  }

  lemma ExpiringStep(s: State, step: Step)
    requires Enabled(s, step) && Derefs(s) && Expiring(s.task)
    ensures var s' := Apply(s, step);
      if Expiring(s'.task) then ToFire(s).0 == FiredBy(s, step) + ToFire(s').0 && ToFire(s').1 == ToFire(s).1
      else FiredBy(s, step) == [] && ToFire(s).0 == [] && Rearms(s', ToFire(s).1)
  {
    match step
    case PopNext => PopStep(s);
    case Fire => FireStep(s);
    case _ => OthersLeaveTask(s, step);
  }

  lemma PopStep(s: State)
    requires s.task.Popping?
    ensures var s' := DoPopNext(s);
      if Expiring(s'.task) then ToFire(s) == ToFire(s') else ToFire(s).0 == [] && Rearms(s', ToFire(s).1)
  {
    PopFollowsDrain(s);
  }

  lemma FireStep(s: State)
    requires Derefs(s) && s.task.Firing?
    ensures DoFire(s).task == Popping(s.task.now, false) && DoFire(s).heap == s.heap && DoFire(s).now == s.now
  {
  }

  predicate TaskStep(step: Step) {
    step.Receive? || step.PopNext? || step.Fire? || step.AddPoll? || step.SetTime? || step.Delete?
  }

  /** The steps of clients, clock and poll thread. */
  lemma OthersLeaveTask(s: State, step: Step)
    requires Enabled(s, step) && Derefs(s) && !TaskStep(step)
    ensures var s' := Apply(s, step);
      && s'.task == s.task && s'.heap == s.heap && AtOrBefore(s.now, s'.now)
      && forall d :: d in s.delegates ==> d in s'.delegates
  {
  }

  lemma {:induction false} FiresTheRest(ss: seq<State>, steps: seq<Step>, i: nat, j: nat)
    requires IsRun(ss, steps) && i < j <= |steps| && !Expiring(ss[j].task)
    requires forall k :: i <= k < j ==> Expiring(ss[k].task)
    ensures Fired(ss, steps, i, j) == ToFire(ss[i]).0 && Rearms(ss[j], ToFire(ss[i]).1)
    decreases j - i
  {
    RunStep(ss, steps, i);
    ExpiringStep(ss[i], steps[i]);
    if i + 1 < j {
      FiresTheRest(ss, steps, i + 1, j);
    }
  }

  lemma ExpireReceived(s: State)
    requires Enabled(s, Receive) && Derefs(s) && s.queue[0] == ExpireMsg
    ensures var s', (xs, rest) := Apply(s, Receive), Drain(s.heap, s.now, true);
      Expiring(s'.task) && ToFire(s') == (Ids(xs), rest)
  {
  }

  /** From the receipt of an Expire message to the re-arming, whatever the other threads do: exactly the timers of
      the drain are fired, in its order, the rest stays, and the kernel is to be set to its top. */
  lemma ExpireFiresTheDrain(ss: seq<State>, steps: seq<Step>, i: nat, j: nat)
    requires IsRun(ss, steps) && i + 1 < j <= |steps|
    requires steps[i] == Receive && ss[i].queue != [] && ss[i].queue[0] == ExpireMsg
    requires !Expiring(ss[j].task) && forall k :: i < k < j ==> Expiring(ss[k].task)
    ensures var (xs, rest) := Drain(ss[i].heap, ss[i].now, true);
      && Drained(ss[i].heap, ss[i].now, true, xs, rest)
      && Fired(ss, steps, i + 1, j) == Ids(xs)
      && Rearms(ss[j], rest)
  {
    RunInv(ss, steps, i);
    DrainIsOrdered(ss[i].heap, ss[i].now, true);
    RunStep(ss, steps, i);
    ExpireReceived(ss[i]);
    FiresTheRest(ss, steps, i + 1, j);
  }

  // ---------- firing too early ----------

  /** Not one of `xs` is still to come, to the nanosecond. */
  ghost predicate AllPast(xs: seq<Timer>, now: Timespec) {
    forall y :: y in xs ==> AtOrBefore(y.at, now)
  }

  /** Some timer of the current second is still to come. */
  ghost predicate LaterThisSecond(heap: H.Tree<Timer>, now: Timespec) {
    exists y :: y in H.Elements(heap) && y.at.sec == now.sec && now.nsec < y.at.nsec
  }

  /** An expiry pops a timer that is still to come exactly when the heap holds timers but none whose second has
      come, or holds one of the current second that is still to come; in the first case it pops just the top. */
  lemma PopsEarlyIff(heap: H.Tree<Timer>, now: Timespec)
    requires H.Heap(TimerRanks, heap)
    ensures var xs := Drain(heap, now, true).0;
      && (!AllPast(xs, now) <==> heap.Node? && (NoneDue(heap, now) || LaterThisSecond(heap, now)))
      && (!AllDue(xs, now) <==> heap.Node? && NoneDue(heap, now))
      && (!AllDue(xs, now) ==> xs == [heap.data])
  {
    DrainIsOrdered(heap, now, true);
    var (xs, rest) := Drain(heap, now, true);
    if heap.Node? {
      assert xs[0] == heap.data;
      assert heap.data in H.Elements(heap);
      forall y | y in H.Elements(heap) ensures heap.data.at.sec <= y.at.sec {
        TopIsEarliest(heap, y);
      }
      if now.sec < heap.data.at.sec {
        StopsAfterFirst(heap, now);
      } else {
        DrainsTheSecond(heap, now, xs, rest);
      }
    }
  }

  /** When the top's second has come, an expiry pops every timer whose second has come and no other. */
  lemma DrainsTheSecond(heap: H.Tree<Timer>, now: Timespec, xs: seq<Timer>, rest: H.Tree<Timer>)
    requires Drained(heap, now, true, xs, rest) && xs != [] && xs[0].at.sec <= now.sec
    ensures AllDue(xs, now) && forall y :: y in H.Elements(heap) && y.at.sec <= now.sec <==> y in xs
  {
    assert xs == [xs[0]] + xs[1..];
    forall y ensures y in H.Elements(heap) && y.at.sec <= now.sec <==> y in xs {
      assert y in H.Elements(heap) <==> y in multiset(xs) || y in H.Elements(rest);
    }
  }

  lemma StopsAfterFirst(heap: H.Tree<Timer>, now: Timespec)
    requires H.Heap(TimerRanks, heap) && heap.Node? && now.sec < heap.data.at.sec
    ensures Drain(heap, now, true).0 == [heap.data]
  {
    var next := H.Pop(TimerRanks, heap);
    H.PopElements(TimerRanks, heap);
    if next.Node? {
      assert next.data in H.Elements(next);
      TopIsEarliest(heap, next.data);
    }
    assert !Pops(next, now, false);
  }

  /** Step `k` of the run popped the delegate that the task has in hand at `i`. */
  ghost predicate PoppedAt(ss: seq<State>, steps: seq<Step>, k: nat, i: nat) {
    && k < i < |ss| && k < |steps| && steps[k] == PopNext
    && ss[i].task.Firing? && ss[i].task.d in ss[i].delegates
    && ss[k].task.Popping? && ss[k].task.now == ss[i].task.now
    && Pops(ss[k].heap, ss[k].task.now, ss[k].task.first)
    && ss[k].heap.data == Timer(ss[i].task.d, ss[i].delegates[ss[i].task.d].at)
  }

  lemma {:induction false} PopOf(ss: seq<State>, steps: seq<Step>, i: nat) returns (k: nat)
    requires IsRun(ss, steps) && i < |ss| && ss[i].task.Firing?
    ensures PoppedAt(ss, steps, k, i)
  {
    assert i > 0;
    if steps[i - 1].PopNext? {
      k := i - 1;
      PoppedJustNow(ss, steps, k);
    } else {
      StillInHand(ss, steps, i - 1);
      k := PopOf(ss, steps, i - 1);
    }
  }

  lemma PoppedJustNow(ss: seq<State>, steps: seq<Step>, k: nat)
    requires IsRun(ss, steps) && k < |steps| && steps[k] == PopNext && ss[k + 1].task.Firing?
    ensures PoppedAt(ss, steps, k, k + 1)
  {
    RunInv(ss, steps, k);
    RunStep(ss, steps, k);
    PopsLiving(ss[k], ss[k + 1]);
  }

  lemma StillInHand(ss: seq<State>, steps: seq<Step>, k: nat)
    requires IsRun(ss, steps) && k < |steps| && !steps[k].PopNext? && ss[k + 1].task.Firing?
    ensures ss[k].task == ss[k + 1].task
    ensures var d := ss[k].task.d;
      d in ss[k].delegates && d in ss[k + 1].delegates && ss[k + 1].delegates[d].at == ss[k].delegates[d].at
  {
    RunInv(ss, steps, k);
    RunStep(ss, steps, k);
    StillFiring(ss[k], steps[k]);
  }

  lemma PopsLiving(s: State, s': State)
    requires HeapOk(s) && s.task.Popping? && s' == DoPopNext(s) && s'.task.Firing?
    ensures Pops(s.heap, s.task.now, s.task.first) && s'.task == Firing(s.task.now, s.heap.data.id)
    ensures s.heap.data.id in s'.delegates && s.heap.data.at == s'.delegates[s.heap.data.id].at
  {
    assert s.heap.data in H.Elements(s.heap);
  }

  /** No other step puts a delegate into the task's hand, or changes or deletes the one that is there. */
  lemma StillFiring(s: State, step: Step)
    requires Inv(s) && Enabled(s, step) && Derefs(s) && !step.PopNext? && Apply(s, step).task.Firing?
    ensures var s' := Apply(s, step);
      && s.task == s'.task && s.task.d in s.delegates && s.task.d in s'.delegates
      && s'.delegates[s.task.d].at == s.delegates[s.task.d].at
  {
    OnlyPopFires(s, step);
    assert Good(ViewOf(s, s.task.d));
    StepKeepsExpiry(s, step, s.task.d);
  }

  lemma OnlyPopFires(s: State, step: Step)
    requires Enabled(s, step) && Derefs(s) && !step.PopNext? && Apply(s, step).task.Firing?
    ensures s.task == Apply(s, step).task && !TaskStep(step)
    ensures forall d :: d in s.delegates ==> d in Apply(s, step).delegates
  {
    if TaskStep(step) {
      OnlyPopTakes(s, step);
    } else {
      OthersLeaveTask(s, step);
    }
  }

  lemma OnlyPopTakes(s: State, step: Step)
    requires Enabled(s, step) && Derefs(s) && TaskStep(step) && !step.PopNext?
    ensures !Apply(s, step).task.Firing?
  {
    match step
    case Receive => ReceiveTask(s);
    case Fire => FireStep(s);
    case _ => KernelOrDeleteTask(s, step);
  }

  lemma ReceiveTask(s: State)
    requires Enabled(s, Receive) && Derefs(s)
    ensures var s' := Apply(s, Receive);
      s'.now == s.now && (s'.task == Popping(s.now, true) || !Expiring(s'.task))
  {
    match s.queue[0]
    case PushMsg(_) => PushIsNoExpiry(s);
    case RemoveMsg(_) => RemoveIsNoExpiry(s);
    case ExpireMsg =>
  }

  lemma PushIsNoExpiry(s: State)
    requires s.queue != [] && s.queue[0].PushMsg? && s.queue[0].d in s.delegates
    ensures !Expiring(ReceivePush(s).task) && ReceivePush(s).now == s.now
  {
  }

  lemma RemoveIsNoExpiry(s: State)
    requires s.queue != [] && s.queue[0].RemoveMsg? && s.queue[0].d in s.delegates
    ensures !Expiring(ReceiveRemove(s).task) && ReceiveRemove(s).now == s.now
  {
  }

  lemma KernelOrDeleteTask(s: State, step: Step)
    requires Enabled(s, step) && Derefs(s) && (step.AddPoll? || step.SetTime? || step.Delete?)
    ensures !Expiring(Apply(s, step).task)
  {
  }

  lemma {:induction false} NowIsNotBefore(ss: seq<State>, steps: seq<Step>, i: nat)
    requires IsRun(ss, steps) && i < |ss| && Expiring(ss[i].task)
    ensures AtOrBefore(ss[i].task.now, ss[i].now) && Normal(ss[i].task.now)
  {
    assert i > 0;
    var s, step := ss[i - 1], steps[i - 1];
    RunStep(ss, steps, i - 1);
    NowIsNormal(ss, steps, i - 1);
    NowStays(s, step);
    if Expiring(s.task) {
      NowIsNotBefore(ss, steps, i - 1);
      AtOrBeforeTransitive(s.task.now, s.now, ss[i].now);
    }
  }

  lemma NowIsNormal(ss: seq<State>, steps: seq<Step>, i: nat)
    requires IsRun(ss, steps) && i < |ss|
    ensures Normal(ss[i].now) && forall d :: d in ss[i].delegates ==> Normal(ss[i].delegates[d].at)
  {
    RunInv(ss, steps, i);
  }

  lemma AtOrBeforeTransitive(a: Timespec, b: Timespec, c: Timespec)
    requires AtOrBefore(a, b) && AtOrBefore(b, c)
    ensures AtOrBefore(a, c)
  {
  }

  lemma NowStays(s: State, step: Step)
    requires Enabled(s, step) && Derefs(s) && Expiring(Apply(s, step).task)
    ensures var s' := Apply(s, step);
      AtOrBefore(s.now, s'.now) && s'.task.now == if Expiring(s.task) then s.task.now else s.now
  {
    if TaskStep(step) {
      TaskKeepsNow(s, step);
    } else {
      OthersLeaveTask(s, step);
    }
  }

  lemma TaskKeepsNow(s: State, step: Step)
    requires Enabled(s, step) && Derefs(s) && TaskStep(step) && Expiring(Apply(s, step).task)
    ensures var s' := Apply(s, step);
      s'.now == s.now && s'.task.now == if Expiring(s.task) then s.task.now else s.now
  {
    match step
    case Receive => ReceiveTask(s);
    case PopNext => PopKeepsNow(s);
    case Fire => FireStep(s);
    case _ => KernelOrDeleteTask(s, step);
  }

  lemma PopKeepsNow(s: State)
    requires s.task.Popping? && Expiring(DoPopNext(s).task)
    ensures DoPopNext(s).now == s.now && DoPopNext(s).task.now == s.task.now
  {
  }

  /** Why the timer due `at` that step `k` popped is fired ahead of its time. */
  ghost predicate TooEarly(heap: H.Tree<Timer>, now: Timespec, first: bool, at: Timespec) {
    (first && NoneDue(heap, now)) || (at.sec == now.sec && now.nsec < at.nsec)
  }

  /** In every run a timer is fired ahead of its time exactly when it was the unconditional first pop of an expiry
      on a heap in which no second had come, or was popped in its own second ahead of its nanoseconds; only the
      former can be early by a second or more.  By the clock at the callback it can be early only then, too. */
  lemma FiresEarlyIff(ss: seq<State>, steps: seq<Step>, i: nat) returns (k: nat)
    requires IsRun(ss, steps) && i < |ss| && ss[i].task.Firing?
    ensures PoppedAt(ss, steps, k, i)
    ensures var at, now, early := ss[i].delegates[ss[i].task.d].at, ss[i].task.now,
        TooEarly(ss[k].heap, ss[k].task.now, ss[k].task.first, ss[i].delegates[ss[i].task.d].at);
      && (!AtOrBefore(at, now) <==> early)
      && (!AtOrBefore(at, ss[i].now) ==> early)
      && (now.sec < at.sec <==> ss[k].task.first && NoneDue(ss[k].heap, ss[k].task.now))
      && (!(ss[k].task.first && NoneDue(ss[k].heap, ss[k].task.now)) ==> Nanos(at) - Nanos(now) < 1_000_000_000)
  {
    k := PopOf(ss, steps, i);
    NowIsNotBefore(ss, steps, i);
    NowIsNormal(ss, steps, i);
    assert HeapOk(ss[k]) by {
      RunInv(ss, steps, k);
    }
    PopIsEarlyIff(ss[k].heap, ss[k].task.now, ss[k].task.first);
    var at := ss[i].delegates[ss[i].task.d].at;
    if AtOrBefore(at, ss[i].task.now) {
      AtOrBeforeTransitive(at, ss[i].task.now, ss[i].now);
    }
  }

  lemma PopIsEarlyIff(heap: H.Tree<Timer>, now: Timespec, first: bool)
    requires H.Heap(TimerRanks, heap) && Pops(heap, now, first)
    ensures now.sec < heap.data.at.sec <==> first && NoneDue(heap, now)
  {
    assert heap.data in H.Elements(heap);
    forall y | y in H.Elements(heap) ensures heap.data.at.sec <= y.at.sec {
      TopIsEarliest(heap, y);
    }
  }

  // ---------- runs ----------

  ghost predicate Reachable(s: State) {
    exists ss, steps :: IsRun(ss, steps) && ss[|steps|] == s
  }

  lemma ReachableInv(s: State)
    requires Reachable(s)
    ensures Inv(s) && Derefs(s)
  {
    var ss, steps :| IsRun(ss, steps) && ss[|steps|] == s;
    RunInv(ss, steps, |steps|);
    InvDerefs(s);
  }

  lemma Reaches(s: State, step: Step)
    requires Reachable(s) && Enabled(s, step)
    ensures Derefs(s) && Reachable(Apply(s, step))
  {
    ReachableDerefs(s);
    var ss, steps :| IsRun(ss, steps) && ss[|steps|] == s;
    ReachesNext(ss, steps, step, Apply(s, step));
  }

  lemma ReachableDerefs(s: State)
    requires Reachable(s)
    ensures Derefs(s)
  {
    ReachableInv(s);
  }

  lemma ReachesNext(ss: seq<State>, steps: seq<Step>, step: Step, s': State)
    requires IsRun(ss, steps) && Enabled(ss[|steps|], step)
    requires Derefs(ss[|steps|]) ==> s' == Apply(ss[|steps|], step)
    ensures Reachable(s')
  {
    Extends(ss, steps, step, s');
  }

  lemma Extends(ss: seq<State>, steps: seq<Step>, step: Step, s': State)
    requires IsRun(ss, steps) && Enabled(ss[|steps|], step)
    requires Derefs(ss[|steps|]) ==> s' == Apply(ss[|steps|], step)
    ensures IsRun(ss + [s'], steps + [step]) && (ss + [s'])[|steps + [step]|] == s'
  {
    var ss', steps' := ss + [s'], steps + [step];
    forall i | 0 <= i < |steps'|
      ensures Enabled(ss'[i], steps'[i]) && (Derefs(ss'[i]) ==> ss'[i + 1] == Apply(ss'[i], steps'[i]))
    {
      assert ss'[i] == ss[i];
      if i < |steps| {
        assert steps'[i] == steps[i] && ss'[i + 1] == ss[i + 1];
        assert Enabled(ss[i], steps[i]) && (Derefs(ss[i]) ==> ss[i + 1] == Apply(ss[i], steps[i]));
      }
    }
  }

  /** The heap of one timer. */
  function Only(x: Timer): H.Tree<Timer> {
    H.Node(x, 1, H.Leaf, H.Leaf)
  }

  /** The message task handles the push of a timer into an empty heap. */
  lemma PushIntoEmpty(s: State) returns (s': State)
    requires Reachable(s) && s.task == Idle && s.heap == H.Leaf && s.queue != [] && s.queue[0].PushMsg?
    ensures s.queue[0].d in s.delegates && Reachable(s')
    ensures var at := s.delegates[s.queue[0].d].at;
      s' == s.(queue := s.queue[1..], heap := Only(Timer(s.queue[0].d, at)), polled := true, armed := Settime(at))
  {
    Reaches(s, Receive);
    s' := Apply(s, Receive);
    Reaches(s', AddPoll);
    s' := Apply(s', AddPoll);
    Reaches(s', SetTime);
    s' := Apply(s', SetTime);
  }

  /** The poll thread goes through expire(). */
  lemma PollExpires(s: State) returns (s': State)
    requires Reachable(s) && s.poll == Woken
    ensures Reachable(s')
    ensures s' == s.(poll := Waiting, armed := None, polled := false, queue := s.queue + [ExpireMsg])
  {
    Reaches(s, PollDisarm);
    s' := Apply(s, PollDisarm);
    Reaches(s', PollRemove);
    s' := Apply(s', PollRemove);
    Reaches(s', PollSend);
    s' := Apply(s', PollSend);
  }

  /** In every state in which the service is idle and one timer runs, stopping it leaves the heap empty and the
      kernel armed for it as before. */
  lemma StoppingLastLeavesArmed(s: State, c: nat) returns (s': State)
    requires Reachable(s) && s.task == Idle && s.queue == [] && c in s.clients && s.clients[c].Some?
    requires s.heap.Node? && s.heap.left.Leaf? && s.heap.right.Leaf?
    ensures Reachable(s') && s'.heap == H.Leaf && s'.task == Idle && s'.queue == []
    ensures s'.armed == s.armed && s'.polled == s.polled && s'.poll == s.poll && s'.now == s.now
    ensures s'.clients == s.clients[c := None] && s'.nextId == s.nextId
  {
    ReachableInv(s);
    OnlyTimerIs(s, c);
    var d := s.clients[c].value;
    Reaches(s, Stop(c));
    var stopped := DoStop(s, c, false);
    assert stopped.queue == [RemoveMsg(d)];
    s' := RemoveOnly(stopped, d);
  }

  lemma RemoveOnly(s: State, d: nat) returns (s': State)
    requires Reachable(s) && s.task == Idle && s.queue == [RemoveMsg(d)]
    requires d in s.delegates && s.heap.Node? && s.heap.data == Timer(d, s.delegates[d].at)
    requires s.heap.left.Leaf? && s.heap.right.Leaf?
    ensures Reachable(s')
    ensures s' == s.(queue := [], heap := H.Leaf, delegates := s'.delegates, locks := s'.locks)
  {
    Reaches(s, Receive);
    var removed := ReceiveRemove(s);
    assert removed == s.(queue := [], heap := H.Leaf, task := Deleting(d));
    Reaches(removed, Delete);
    s' := DoDelete(removed);
  }

  lemma OnlyTimerIs(s: State, c: nat)
    requires Inv(s) && s.task == Idle && s.queue == [] && c in s.clients && s.clients[c].Some?
    requires s.heap.Node? && s.heap.left.Leaf? && s.heap.right.Leaf?
    ensures var d := s.clients[c].value;
      d in s.delegates && s.delegates[d].attached && s.heap.data == Timer(d, s.delegates[d].at)
  {
    var d := s.clients[c].value;
    assert Good(ViewOf(s, d));
    var at :| Timer(d, at) in H.Elements(s.heap);
    assert H.Elements(s.heap) == multiset{s.heap.data};
  }

  /** A service that has started the timer of one client for a second. */
  lemma OneTimerRuns() returns (s: State)
    ensures Reachable(s) && s.task == Idle && s.queue == [] && s.poll == Waiting && s.now == Timespec(1, 0)
    ensures s.clients == map[0 := Some(0)] && s.nextId == 1 && s.heap == Only(Timer(0, Timespec(2, 0)))
    ensures s.armed == Some(Timespec(2, 0)) && s.polled
  {
    s := OneClient();
    Reaches(s, Start(0, 1000));
    s := DoStart(s, 0, 1000);
    assert FutureTime(Timespec(1, 0), 1000) == Timespec(2, 0);
    s := PushIntoEmpty(s);
  }

  lemma OneClient() returns (s: State)
    ensures Reachable(s) && s.task == Idle && s.queue == [] && s.poll == Waiting && s.now == Timespec(1, 0)
    ensures s.clients == map[0 := None] && s.nextId == 0 && s.heap == H.Leaf && s.delegates == map[]
    ensures 0 in s.locks && s.counts.Keys == {0}
  {
    s := State(map[], map[], map[], map[], 0, [], H.Leaf, None, false, Waiting, Idle, Timespec(1, 0));
    assert IsRun([s], []);
    Reaches(s, NewClient(0));
    s := Apply(s, NewClient(0));
  }

  /** An empty heap does not mean a disarmed timer. */
  lemma EmptyYetArmed() returns (s: State)
    ensures Reachable(s) && s.heap == H.Leaf && s.task == Idle && s.queue == [] && s.poll == Waiting
    ensures s.armed == Some(Timespec(2, 0)) && s.polled && s.now == Timespec(1, 0)
    ensures s.clients == map[0 := None] && s.nextId == 1
  {
    s := OneTimerRuns();
    s := StoppingLastLeavesArmed(s, 0);
  }

  /** The kernel's timer then wakes the poll thread, in which `expire()` is about to begin. */
  lemma WokenForNothing() returns (s: State)
    ensures Reachable(s) && s.heap == H.Leaf && s.task == Idle && s.queue == [] && s.poll == Woken
    ensures s.now == Timespec(2, 0) && s.clients == map[0 := None] && s.nextId == 1
  {
    s := EmptyYetArmed();
    Reaches(s, Tick(Timespec(2, 0)));
    s := Apply(s, Tick(Timespec(2, 0)));
    Reaches(s, Wake);
    s := Apply(s, Wake);
  }

  /** An expiry may find nothing to pop. */
  lemma ExpiryFindsNothing() returns (s: State)
    ensures Reachable(s) && s.task == Popping(s.now, true) && s.heap == H.Leaf
  {
    s := WokenForNothing();
    s := PollExpires(s);
    Reaches(s, Receive);
    s := Apply(s, Receive);
  }

  /** ... or a timer that has just been started: however long its delay, it can be fired, and its client called
      back, while the clock still reads what it read at the start. */
  lemma FiresAtOnce(ms: nat) returns (s: State)
    ensures Reachable(s) && s.task == Firing(s.now, 1) && 1 in s.delegates && s.clients == map[0 := Some(1)]
    ensures Nanos(s.delegates[1].at) == Nanos(s.now) + ms * 1_000_000
    ensures ms >= 1000 ==> s.now.sec < s.delegates[1].at.sec
    ensures Enabled(s, Fire) && Derefs(s) && 0 in s.counts && 0 in Apply(s, Fire).counts
    ensures Apply(s, Fire).counts[0].fires == s.counts[0].fires + 1
  {
    s := StartedWhileWoken(ms);
    s := PollExpires(s);
    s := PopOnly(s);
    FutureTimeIsSum(s.now, ms);
    ReachableInv(s);
    HistoryIsExact(s, Fire, 0);
  }

  /** The timer started between the kernel's wake-up and `expire()` is in the heap. */
  lemma StartedWhileWoken(ms: nat) returns (s: State)
    ensures Reachable(s) && s.task == Idle && s.queue == [] && s.poll == Woken
    ensures 1 in s.delegates && s.clients == map[0 := Some(1)] && s.delegates[1].at == FutureTime(s.now, ms)
    ensures s.heap == Only(Timer(1, FutureTime(s.now, ms))) && s.now == Timespec(2, 0)
  {
    s := WokenForNothing();
    ReachableInv(s);
    Reaches(s, Start(0, ms));
    s := DoStart(s, 0, ms);
    s := PushIntoEmpty(s);
  }

  lemma PopOnly(s: State) returns (s': State)
    requires Reachable(s) && s.task == Idle && s.queue == [ExpireMsg] && s.heap.Node?
    requires s.heap.left.Leaf? && s.heap.right.Leaf?
    ensures Reachable(s')
    ensures s' == s.(queue := [], heap := H.Leaf, task := Firing(s.now, s.heap.data.id))
  {
    Reaches(s, Receive);
    var received := s.(queue := [], task := Popping(s.now, true));
    assert Apply(s, Receive) == received;
    Reaches(received, PopNext);
    s' := DoPopNext(received);
  }

  // ---------- two timers of one second ----------

  /** Two clients whose timers, started for `a` and then `b` milliseconds, fall into one second. */
  lemma TwoTimersRun(a: nat, b: nat) returns (s: State)
    requires 1000 <= a < 2000 && 1000 <= b < 2000
    ensures Reachable(s) && s.task == Idle && s.queue == [] && s.poll == Waiting && s.now == Timespec(1, 0)
    ensures s.clients == map[0 := Some(0), 1 := Some(1)]
    ensures s.heap == Beside(Timer(0, InSecond(a)), Timer(1, InSecond(b)))
    ensures s.armed == Some(InSecond(a)) && s.polled
  {
    s := TwoClients();
    Reaches(s, Start(0, a));
    s := DoStart(s, 0, a);
    InSecondIs(a);
    s := PushIntoEmpty(s);
    s := StartBeside(s, b);
  }

  /** The expiry time of a timer started at one second past zero for `ms` milliseconds, one to two seconds. */
  function InSecond(ms: nat): Timespec {
    FutureTime(Timespec(1, 0), ms)
  }

  lemma InSecondIs(ms: nat)
    requires 1000 <= ms < 2000
    ensures InSecond(ms) == Timespec(2, (ms - 1000) * 1_000_000) && Normal(InSecond(ms))
    ensures Nanos(InSecond(ms)) == Nanos(Timespec(1, 0)) + ms * 1_000_000
  {
    FutureTimeIsSum(Timespec(1, 0), ms);
  }

  function Beside(x: Timer, y: Timer): H.Tree<Timer> {
    H.Node(x, 2, Only(y), H.Leaf)
  }

  lemma TwoClients() returns (s: State)
    ensures Reachable(s) && s.task == Idle && s.queue == [] && s.poll == Waiting && s.now == Timespec(1, 0)
    ensures s.clients == map[0 := None, 1 := None] && s.nextId == 0 && s.heap == H.Leaf && s.delegates == map[]
    ensures 0 in s.locks && 0 in s.counts
  {
    s := OneClient();
    Reaches(s, NewClient(1));
    s := Apply(s, NewClient(1));
  }

  /** The second timer goes below the first, for which the kernel stays armed. */
  lemma StartBeside(s: State, b: nat) returns (s': State)
    requires Reachable(s) && s.task == Idle && s.queue == [] && s.now == Timespec(1, 0) && 1000 <= b < 2000
    requires s.clients == map[0 := Some(0), 1 := None] && s.nextId == 1
    requires s.heap.Node? && s.heap == Only(s.heap.data) && s.heap.data.at.sec == 2
    ensures Reachable(s') && s'.task == Idle && s'.queue == [] && s'.poll == s.poll && s'.now == s.now
    ensures s'.clients == map[0 := Some(0), 1 := Some(1)]
    ensures s'.heap == Beside(s.heap.data, Timer(1, InSecond(b))) && s'.armed == s.armed && s'.polled == s.polled
  {
    Reaches(s, Start(1, b));
    var started := DoStart(s, 1, b);
    assert started.queue == [PushMsg(1)] && started.clients == map[0 := Some(0), 1 := Some(1)];
    InSecondIs(b);
    s' := PushBelow(started);
  }

  lemma PushBelow(s: State) returns (s': State)
    requires Reachable(s) && s.task == Idle && s.heap.Node? && s.heap == Only(s.heap.data)
    requires s.queue == [PushMsg(1)] && 1 in s.delegates && s.delegates[1].at.sec == s.heap.data.at.sec
    ensures Reachable(s')
    ensures s' == s.(queue := [], heap := Beside(s.heap.data, Timer(1, s.delegates[1].at)))
  {
    Reaches(s, Receive);
    var x := Timer(1, s.delegates[1].at);
    assert H.Push(TimerRanks, H.Leaf, x) == Only(x);
    assert H.Push(TimerRanks, s.heap, x) == Beside(s.heap.data, x);
    s' := ReceivePush(s);
  }

  /** Without any race, the later of two timers of one second is fired with the earlier, by up to a second too
      early: here by `b - a` milliseconds. */
  lemma FiresWithTheSecond(a: nat, b: nat) returns (s: State)
    requires 1000 <= a < b < 2000
    ensures Reachable(s) && s.task == Firing(s.now, 1) && 1 in s.delegates && s.delegates[1].at == InSecond(b)
    ensures Nanos(s.delegates[1].at) - Nanos(s.now) == (b - a) * 1_000_000
    ensures Enabled(s, Fire) && Derefs(s) && 1 in s.counts && 1 in Apply(s, Fire).counts
    ensures Apply(s, Fire).counts[1].fires == s.counts[1].fires + 1
  {
    s := TwoTimersRun(a, b);
    InSecondIs(a);
    InSecondIs(b);
    s := WakesAt(s, InSecond(a));
    s := PollExpires(s);
    s := FiresFirst(s);
    s := PopsSecond(s);
    ReachableInv(s);
    HistoryIsExact(s, Fire, 1);
  }

  lemma WakesAt(s: State, at: Timespec) returns (s': State)
    requires Reachable(s) && s.poll == Waiting && s.polled && s.armed == Some(at)
    requires Normal(at) && AtOrBefore(s.now, at)
    ensures Reachable(s') && s' == s.(now := at, poll := Woken)
  {
    Reaches(s, Tick(at));
    s' := s.(now := at);
    Reaches(s', Wake);
    s' := s'.(poll := Woken);
  }

  /** The expiry's first pop and its callback. */
  lemma FiresFirst(s: State) returns (s': State)
    requires Reachable(s) && s.task == Idle && s.queue == [ExpireMsg] && s.heap.Node? && s.heap.left.Node?
    requires s.heap == Beside(s.heap.data, s.heap.left.data) && s.heap.data.id == 0
    requires s.clients == map[0 := Some(0), 1 := Some(1)]
    ensures Reachable(s') && s'.task == Popping(s.now, false) && s'.now == s.now
    ensures s'.heap == Only(s.heap.left.data) && s'.clients == map[0 := None, 1 := Some(1)]
  {
    Reaches(s, Receive);
    s' := s.(queue := [], task := Popping(s.now, true));
    assert Apply(s, Receive) == s';
    Reaches(s', PopNext);
    assert H.Pop(TimerRanks, s.heap) == Only(s.heap.left.data);
    s' := FiresCurrent(DoPopNext(s'));
  }

  lemma FiresCurrent(s: State) returns (s': State)
    requires Reachable(s) && s.task.Firing? && s.task.d == 0 && s.clients == map[0 := Some(0), 1 := Some(1)]
    ensures Reachable(s') && s'.task == Popping(s.task.now, false) && s'.now == s.now && s'.heap == s.heap
    ensures s'.clients == map[0 := None, 1 := Some(1)]
  {
    assert 0 in s.delegates && s.delegates[0].client == Some(0) by {
      ReachableInv(s);
    }
    Reaches(s, Fire);
    s' := DoFire(s);
  }

  lemma PopsSecond(s: State) returns (s': State)
    requires Reachable(s) && s.task == Popping(s.now, false) && s.heap.Node? && s.heap == Only(s.heap.data)
    requires s.heap.data.at.sec == s.now.sec
    ensures Reachable(s') && s' == s.(heap := H.Leaf, task := Firing(s.now, s.heap.data.id))
    ensures s.heap.data.id in s'.delegates && s'.delegates[s.heap.data.id].at == s.heap.data.at
  {
    ReachableInv(s);
    Reaches(s, PopNext);
    s' := DoPopNext(s);
    assert s.heap.data in H.Elements(s.heap);
  }

  // ---------- an emptied heap leaves the kernel alone ----------

  /** The step that takes the last timer out touches neither the timerfd nor the epoll set. */
  lemma EmptyingKeepsKernel(s: State, step: Step)
    requires Enabled(s, step) && Derefs(s) && s.heap.Node? && Apply(s, step).heap.Leaf?
    ensures Apply(s, step).armed == s.armed && Apply(s, step).polled == s.polled
  {
    match step
    case Receive => ReceiveKeepsKernel(s);
    case PopNext =>
    case Fire =>
    case AddPoll =>
    case SetTime =>
    case Delete =>
    case _ => OthersLeaveTask(s, step);
  }

  lemma ReceiveKeepsKernel(s: State)
    requires Enabled(s, Receive) && Derefs(s)
    ensures Apply(s, Receive).armed == s.armed && Apply(s, Receive).polled == s.polled
  {
  }

  /** Nor does anything but the poll thread's own expire() for as long as the heap is empty. */
  lemma {:induction false} EmptyHeapKeepsKernel(ss: seq<State>, steps: seq<Step>, i: nat, j: nat)
    requires IsRun(ss, steps) && i <= j < |ss| && forall k :: i <= k <= j ==> ss[k].heap.Leaf?
    requires forall k :: i <= k < j ==> !steps[k].PollDisarm? && !steps[k].PollRemove?
    ensures ss[j].armed == ss[i].armed && ss[j].polled == ss[i].polled
    decreases j - i
  {
    if i < j {
      RunInv(ss, steps, i);
      RunStep(ss, steps, i);
      EmptyHeapHasNoUpdate(ss[i]);
      EmptyHeapStep(ss[i], steps[i]);
      EmptyHeapKeepsKernel(ss, steps, i + 1, j);
    }
  }

  lemma EmptyHeapHasNoUpdate(s: State)
    requires Inv(s) && s.heap.Leaf?
    ensures !s.task.AddingPoll? && !s.task.SettingTime?
  {
  }

  lemma EmptyHeapStep(s: State, step: Step)
    requires Enabled(s, step) && Derefs(s) && !s.task.AddingPoll? && !s.task.SettingTime?
    requires !step.PollDisarm? && !step.PollRemove?
    ensures Apply(s, step).armed == s.armed && Apply(s, step).polled == s.polled
  {
    match step
    case Receive => ReceiveKeepsKernel(s);
    case _ =>
  }
}
