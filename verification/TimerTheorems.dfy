/** What the timer service keeps over every run: no pending timer is forgotten, every delegate has one life,
  shared locks are counted exactly, and starts match stops and callbacks.
 */
module TimerTheorems {
  import H = HeapTree
  import opened Options
  import opened TimerModel
  import opened TimerInvariant

  lemma {:induction false} RunInv(ss: seq<State>, steps: seq<Step>, i: nat)
    requires IsRun(ss, steps) && i < |ss|
    ensures Inv(ss[i])
  {
    if i == 0 {
      InitialInv(ss[0]);
    } else {
      RunInv(ss, steps, i - 1);
      InvDerefs(ss[i - 1]);
      assert Enabled(ss[i - 1], steps[i - 1]);
      assert Derefs(ss[i - 1]) ==> ss[i - 1 + 1] == Apply(ss[i - 1], steps[i - 1]);
      StepKeepsInv(ss[i - 1], steps[i - 1]);
    }
  }

  /** No run follows a dangling pointer. */
  lemma RunIsSafe(ss: seq<State>, steps: seq<Step>)
    requires IsRun(ss, steps)
    ensures forall i :: 0 <= i < |ss| ==> Derefs(ss[i])
    ensures forall i :: 0 <= i < |steps| ==> ss[i + 1] == Apply(ss[i], steps[i])
  {
    forall i | 0 <= i < |ss| ensures Derefs(ss[i]) {
      RunInv(ss, steps, i);
      InvDerefs(ss[i]);
    }
  }

  /** What the message task makes of a message: a push arms the kernel exactly for a timer that becomes the top; a
      remove arms it exactly for the timer that follows a removed top, and then deletes; an expiry reads the clock. */
  lemma MessageSteps(s: State)
    requires HeapOk(s) && Enabled(s, Receive) && Derefs(s)
    ensures var s', q := Apply(s, Receive), s.queue[0];
      && s' == s.(queue := s.queue[1..], heap := s'.heap, task := s'.task)
      && match q
         case PushMsg(d) =>
           var x := Timer(d, s.delegates[d].at);
           && H.Elements(s'.heap) == H.Elements(s.heap) + multiset{x}
           && s'.task == if s.heap.Leaf? || x.at.sec < s.heap.data.at.sec then AddingPoll(x.at, None) else Idle
         case RemoveMsg(d) =>
           var x := Timer(d, s.delegates[d].at);
           && H.Elements(s'.heap) == H.Elements(s.heap) - multiset{x}
           && s'.task == if s.heap.Node? && s.heap.data == x && s'.heap.Node? then AddingPoll(s'.heap.data.at, Some(d))
                         else Deleting(d)
         case ExpireMsg => s'.heap == s.heap && s'.task == Popping(s.now, true)
  {
    match s.queue[0]
    case PushMsg(d) => PushMessage(s, d);
    case RemoveMsg(d) => RemoveMessage(s, d);
    case ExpireMsg =>
  }

  lemma PushMessage(s: State, d: nat)
    requires s.queue != [] && s.queue[0] == PushMsg(d) && d in s.delegates
    ensures var s', x := ReceivePush(s), Timer(d, s.delegates[d].at);
      && s' == s.(queue := s.queue[1..], heap := s'.heap, task := s'.task)
      && H.Elements(s'.heap) == H.Elements(s.heap) + multiset{x}
      && s'.task == if s.heap.Leaf? || x.at.sec < s.heap.data.at.sec then AddingPoll(x.at, None) else Idle
  {
    var x := Timer(d, s.delegates[d].at);
    H.PushElements(TimerRanks, s.heap, x);
    H.PushTop(TimerRanks, s.heap, x);
  }

  lemma RemoveMessage(s: State, d: nat)
    requires H.Heap(TimerRanks, s.heap) && s.queue != [] && s.queue[0] == RemoveMsg(d) && d in s.delegates
    ensures var s', x := ReceiveRemove(s), Timer(d, s.delegates[d].at);
      && s' == s.(queue := s.queue[1..], heap := s'.heap, task := s'.task)
      && H.Elements(s'.heap) == H.Elements(s.heap) - multiset{x}
      && s'.task == if s.heap.Node? && s.heap.data == x && s'.heap.Node? then AddingPoll(s'.heap.data.at, Some(d))
                    else Deleting(d)
  {
    var x := Timer(d, s.delegates[d].at);
    RemoveFromHeap(s.heap, x);
    var (heap, found) := H.Remove(TimerRanks, s.heap, x);
    RemoveUpdate(s.heap, heap, x, found);
  }

  /** The kernel is to be armed exactly for the top that follows a removed top. */
  lemma RemoveUpdate(heap: H.Tree<Timer>, heap': H.Tree<Timer>, x: Timer, found: bool)
    requires (!found ==> heap' == heap) && (heap.Node? && heap.data == x ==> found)
    ensures var u := if Top(heap) == (if found then Some(x) else None) then SoonestUpdate(None, Top(heap')) else Keep;
      u == if heap.Node? && heap.data == x && heap'.Node? then Arm(heap'.data.at) else Keep
  {
  }

  lemma RemoveFromHeap(heap: H.Tree<Timer>, x: Timer)
    requires H.Heap(TimerRanks, heap)
    ensures var (heap', found) := H.Remove(TimerRanks, heap, x);
      && H.Elements(heap') == H.Elements(heap) - multiset{x}
      && (!found ==> heap' == heap) && (heap.Node? && heap.data == x ==> found)
  {
    TimerRanking();
    H.RemoveRefines(TimerRanks, heap, x);
    H.RemoveElements(TimerRanks, heap, x);
  }

  /** The poll thread's steps, and the kernel steps and the delete of the message task. */
  lemma ThreadSteps(s: State, step: Step)
    requires TimesOk(s) && Enabled(s, step) && Derefs(s) && (s.task.SettingTime? ==> 0 < Nanos(s.task.at))
    ensures step.Wake? ==> Apply(s, step) == s.(poll := Woken)
    ensures step.PollDisarm? ==> Apply(s, step) == s.(poll := Disarmed, armed := None)
    ensures step.PollRemove? ==> Apply(s, step) == s.(poll := Unpolled, polled := false)
    ensures step.PollSend? ==> Apply(s, step) == s.(poll := Waiting, queue := s.queue + [ExpireMsg])
    ensures step.AddPoll? ==> Apply(s, step) == s.(polled := true, task := SettingTime(s.task.at, s.task.del))
    ensures step.SetTime? ==> Apply(s, step) == s.(armed := Some(s.task.at), task := Apply(s, step).task)
    ensures step.SetTime? ==> Apply(s, step).task == if s.task.del.Some? then Deleting(s.task.del.value) else Idle
    ensures step.Delete? ==> Apply(s, step).delegates == s.delegates - {s.task.d} && Apply(s, step).task == Idle
  {
  }

  /** In every interleaving a non-empty heap has an expiry on its way: the timerfd is armed at the heap top's
      time and polled, or the poll thread is inside expire(), or an Expire message waits; or the message task is
      about to arm the timerfd at just that time; or it is handling an Expire message. */
  lemma NoTimerForgotten(ss: seq<State>, steps: seq<Step>, i: nat)
    requires IsRun(ss, steps) && i < |ss| && ss[i].heap.Node?
    ensures var s := ss[i];
      var underWay := s.poll != Waiting || ExpireMsg in s.queue;
      match s.task
      case Idle => (s.armed == Some(s.heap.data.at) && s.polled) || underWay
      case Deleting(_) => (s.armed == Some(s.heap.data.at) && s.polled) || underWay
      case AddingPoll(at, _) => at == s.heap.data.at
      case SettingTime(at, _) => at == s.heap.data.at && (s.polled || underWay)
      case Popping(_, _) => true
      case Firing(_, _) => true
  {
    RunInv(ss, steps, i);
  }

  /** updateSoonestTime never meets an empty heap it has to disarm for, despite its comment: pushes leave the
      heap non-empty and the other callers pass NULL. */
  lemma NeverDisarms(heap: H.Tree<Timer>, x: Timer)
    ensures SoonestUpdate(Top(heap), Top(H.Push(TimerRanks, heap, x))) != Disarm
    ensures SoonestUpdate(None, Top(heap)) != Disarm
  {
    H.PushTop(TimerRanks, heap, x);
  }

  // ---------- the life of a delegate ----------

  /** No step skips a stage, and only these steps move a delegate on. */
  ghost predicate Advances(s: State, step: Step, d: nat)
    requires Enabled(s, step) && Derefs(s)
  {
    var a, b := Stage(ViewOf(s, d)), Stage(ViewOf(Apply(s, step), d));
    || b == a
    || (b == a + 1 &&
        match a
        case 0 => step.Start?
        case 1 => step.Receive? && s.queue[0] == PushMsg(d)
        case 2 => step.PopNext? || (step.Receive? && s.queue[0] == RemoveMsg(d))
        case _ => step.Delete? && s.task == Deleting(d))
  }

  lemma StageAdvances(s: State, step: Step, d: nat)
    requires Inv(s) && Enabled(s, step) && Derefs(s)
    ensures Advances(s, step, d)
  {
    match step
    case Start(c, ms) => StartStage(s, c, ms, d);
    case Stop(c) => StopStage(s, c, false, d);
    case Fire => FireStage(s, d);
    case Receive => ReceiveStage(s, d);
    case PopNext => PopStage(s, d);
    case Delete => assert Good(ViewOf(s, d));
    case _ => QuietStage(s, step, d);
  }

  lemma StartStage(s: State, c: nat, ms: nat, d: nat)
    requires LifeOk(s) && Derefs(s) && c in s.clients
    ensures Advances(s, Start(c, ms), d)
  {
    assert Good(ViewOf(s, d));
    AppendMembers(s.queue, PushMsg(s.nextId));
  }

  lemma QuietStage(s: State, step: Step, d: nat)
    requires Enabled(s, step) && Derefs(s)
    requires step.NewClient? || step.Destroy? || step.Tick? || step.Wake? || step.PollDisarm? || step.PollRemove?
      || step.PollSend? || step.AddPoll? || step.SetTime?
    ensures Stage(ViewOf(Apply(s, step), d)) == Stage(ViewOf(s, d))
  {
    AppendMembers(s.queue, ExpireMsg);
  }

  lemma StopStage(s: State, c: nat, fired: bool, d: nat)
    requires Derefs(s) && c in s.clients
    ensures Stage(ViewOf(DoStop(s, c, fired), d)) == Stage(ViewOf(s, d))
  {
    if s.clients[c].Some? {
      AppendMembers(s.queue, RemoveMsg(s.clients[c].value));
    }
  }

  lemma FireStage(s: State, d: nat)
    requires Derefs(s) && s.task.Firing?
    ensures Advances(s, Fire, d)
  {
    if s.delegates[s.task.d].client.Some? {
      StopStage(s, s.delegates[s.task.d].client.value, true, d);
    }
  }

  lemma ReceiveStage(s: State, d: nat)
    requires Inv(s) && Enabled(s, Receive) && Derefs(s)
    ensures Advances(s, Receive, d)
  {
    match s.queue[0]
    case PushMsg(_) => PushStage(s, d);
    case RemoveMsg(_) => RemoveStage(s, d);
    case ExpireMsg => TailMembers(s.queue);
  }

  lemma PushStage(s: State, d: nat)
    requires LifeOk(s) && Enabled(s, Receive) && Derefs(s) && s.queue[0].PushMsg?
    ensures Advances(s, Receive, d)
  {
    TailMembers(s.queue);
    assert Good(ViewOf(s, d));
    InHeapAfterPush(s.heap, Timer(s.queue[0].d, s.delegates[s.queue[0].d].at));
  }

  lemma RemoveStage(s: State, d: nat)
    requires LifeOk(s) && HeapOk(s) && Enabled(s, Receive) && Derefs(s) && s.queue[0].RemoveMsg?
    ensures Advances(s, Receive, d)
  {
    TailMembers(s.queue);
    assert Good(ViewOf(s, d));
    RemoveTakesOut(s, s.queue[0].d);
  }

  lemma PopStage(s: State, d: nat)
    requires Inv(s) && Enabled(s, PopNext) && Derefs(s)
    ensures Advances(s, PopNext, d)
  {
    assert Good(ViewOf(s, d));
    if Pops(s.heap, s.task.now, s.task.first) {
      PopNextKeepsHeap(s);
    }
  }

  /** Over a run a delegate's stage never goes back: once deleted it stays deleted, its address is in no
      client, message, heap node or task hand again, and no second delete can follow. */
  lemma {:induction false} StageNeverFalls(ss: seq<State>, steps: seq<Step>, d: nat, i: nat, j: nat)
    requires IsRun(ss, steps) && i <= j < |ss|
    ensures Stage(ViewOf(ss[i], d)) <= Stage(ViewOf(ss[j], d))
    decreases j - i
  {
    if i < j {
      RunInv(ss, steps, i);
      RunIsSafe(ss, steps);
      assert Enabled(ss[i], steps[i]) && ss[i + 1] == Apply(ss[i], steps[i]);
      StageAdvances(ss[i], steps[i], d);
      StageNeverFalls(ss, steps, d, i + 1, j);
    }
  }

  /** Nothing refers to a deleted delegate. */
  lemma DeletedIsUnreferenced(ss: seq<State>, steps: seq<Step>, d: nat, i: nat)
    requires IsRun(ss, steps) && i < |ss| && Stage(ViewOf(ss[i], d)) == 4
    ensures PushMsg(d) !in ss[i].queue && RemoveMsg(d) !in ss[i].queue
    ensures forall at :: Timer(d, at) !in H.Elements(ss[i].heap)
    ensures !(ss[i].task.Firing? && ss[i].task.d == d) && ss[i].task.Deletes() != Some(d)
    ensures forall c :: c in ss[i].clients ==> ss[i].clients[c] != Some(d)
  {
    RunInv(ss, steps, i);
    assert Good(ViewOf(ss[i], d));
  }

  lemma DeletedOnce(ss: seq<State>, steps: seq<Step>, d: nat, i: nat, j: nat)
    requires IsRun(ss, steps) && i < j < |steps|
    requires steps[i] == Delete && ss[i].task == Deleting(d) && steps[j] == Delete
    ensures ss[j].task != Deleting(d)
  {
    RunIsSafe(ss, steps);
    RunInv(ss, steps, i);
    RunInv(ss, steps, j);
    assert Good(ViewOf(ss[i], d)) && Good(ViewOf(ss[j], d));
    assert Enabled(ss[i], steps[i]) && ss[i + 1] == Apply(ss[i], steps[i]);
    assert Stage(ViewOf(ss[i + 1], d)) == 4;
    StageNeverFalls(ss, steps, d, i + 1, j);
  }

  // ---------- locks, starts ----------

  /** mRef is one for the client plus one for each of its living delegates; the lock lives exactly as long. */
  lemma LockCountsAreExact(ss: seq<State>, steps: seq<Step>, i: nat, c: nat)
    requires IsRun(ss, steps) && i < |ss|
    ensures c in ss[i].locks <==> c in ss[i].clients || exists d :: d in Owned(ss[i].delegates, c)
    ensures c in ss[i].locks ==>
      ss[i].locks[c] == (if c in ss[i].clients then 1 else 0) + |Owned(ss[i].delegates, c)|
  {
    RunInv(ss, steps, i);
    var owned := Owned(ss[i].delegates, c);
    assert c in ss[i].locks <==> Refs(ss[i], c) > 0;
    if |owned| > 0 {
      var d :| d in owned;
    }
  }

  /** A client that has been destroyed never lives again; from then on its lock lives exactly while one of its
      delegates does, with their number as its mRef. */
  lemma DestroyedForGood(ss: seq<State>, steps: seq<Step>, c: nat, i: nat, j: nat)
    requires IsRun(ss, steps) && i < |steps| && i < j < |ss| && steps[i] == Destroy(c)
    ensures c !in ss[j].clients
    ensures c in ss[j].locks <==> exists d :: d in ss[j].delegates && ss[j].delegates[d].owner == c
    ensures c in ss[j].locks ==> ss[j].locks[c] == |set d | d in ss[j].delegates && ss[j].delegates[d].owner == c|
  {
    DestroyedIsGone(ss, steps, c, i);
    GoneForGood(ss, steps, c, i + 1, j);
    LockCountsAreExact(ss, steps, j, c);
    assert Owned(ss[j].delegates, c) == set d | d in ss[j].delegates && ss[j].delegates[d].owner == c;
    if d :| d in ss[j].delegates && ss[j].delegates[d].owner == c {
      assert d in Owned(ss[j].delegates, c);
    }
  }

  lemma DestroyedIsGone(ss: seq<State>, steps: seq<Step>, c: nat, i: nat)
    requires IsRun(ss, steps) && i < |steps| && steps[i] == Destroy(c)
    ensures c in ss[i + 1].counts && c !in ss[i + 1].clients
  {
    RunInv(ss, steps, i);
    RunIsSafe(ss, steps);
    assert Enabled(ss[i], steps[i]) && ss[i + 1] == Apply(ss[i], steps[i]);
  }

  lemma {:induction false} GoneForGood(ss: seq<State>, steps: seq<Step>, c: nat, i: nat, j: nat)
    requires IsRun(ss, steps) && i <= j < |ss| && c in ss[i].counts && c !in ss[i].clients
    ensures c !in ss[j].clients
    decreases j - i
  {
    if i < j {
      RunIsSafe(ss, steps);
      assert Enabled(ss[i], steps[i]) && ss[i + 1] == Apply(ss[i], steps[i]);
      StaysGone(ss[i], steps[i], c);
      GoneForGood(ss, steps, c, i + 1, j);
    }
  }

  lemma StaysGone(s: State, step: Step, c: nat)
    requires Enabled(s, step) && Derefs(s) && c in s.counts && c !in s.clients
    ensures c in Apply(s, step).counts && c !in Apply(s, step).clients
  {
    match step
    case Receive => assert Apply(s, step).clients == s.clients && Apply(s, step).counts == s.counts;
    case _ =>
  }

  /** Each successful start has ended in exactly one stop or one callback, or its timer is still running; a
      delegate knows its client exactly while it is that client's current timer. */
  lemma StartsAreMatched(ss: seq<State>, steps: seq<Step>, i: nat, c: nat)
    requires IsRun(ss, steps) && i < |ss| && c in ss[i].counts
    ensures var s := ss[i];
      s.counts[c].starts == s.counts[c].stops + s.counts[c].fires + (if c in s.clients && s.clients[c].Some? then 1 else 0)
    ensures forall d :: d in ss[i].delegates ==>
      (ss[i].delegates[d].client == Some(c) <==> c in ss[i].clients && ss[i].clients[c] == Some(d))
  {
    RunInv(ss, steps, i);
  }

  /** What each step adds to a client's history: a successful start, only when no timer is current; a stop, only
      by that client and only of a current timer; a callback, exactly when the delegate in the message task's hand
      is still the client's current timer. */
  lemma HistoryIsExact(s: State, step: Step, c: nat)
    requires ClientsOk(s) && Enabled(s, step) && Derefs(s) && c in s.counts
    ensures c in Apply(s, step).counts && Apply(s, step).counts[c] == History(s, step, c)
  {
    match step
    case Fire => FireHistory(s, c);
    case Receive => assert Apply(s, step).counts == s.counts;
    case _ =>
  }

  /** A client's history after a step, from its mTimer alone. */
  ghost function History(s: State, step: Step, c: nat): Counts
    requires c in s.counts
  {
    var n, timer := s.counts[c], if c in s.clients then s.clients[c] else None;
    match step
    case Start(b, _) => if b == c && timer.None? then n.(starts := n.starts + 1) else n
    case Stop(b) => if b == c && timer.Some? then n.(stops := n.stops + 1) else n
    case Fire => if s.task.Firing? && timer == Some(s.task.d) then n.(fires := n.fires + 1) else n
    case _ => n
  }

  lemma FireHistory(s: State, c: nat)
    requires ClientsOk(s) && Derefs(s) && s.task.Firing? && c in s.counts
    ensures var s', n := DoFire(s), s.counts[c].fires;
      && c in s'.counts
      && s'.counts[c] == s.counts[c].(fires := if c in s.clients && s.clients[c] == Some(s.task.d) then n + 1 else n)
  {
  }

  /** A delegate keeps its expiry time and its lock for life. */
  lemma {:induction false} ExpiryIsFixed(ss: seq<State>, steps: seq<Step>, d: nat, i: nat, j: nat)
    requires IsRun(ss, steps) && i <= j < |ss| && d in ss[i].delegates && d in ss[j].delegates
    ensures ss[j].delegates[d].at == ss[i].delegates[d].at && ss[j].delegates[d].owner == ss[i].delegates[d].owner
    decreases j - i
  {
    if i < j {
      LivesOn(ss, steps, d, i, i + 1, j);
      RunIsSafe(ss, steps);
      assert Enabled(ss[i], steps[i]) && ss[i + 1] == Apply(ss[i], steps[i]);
      StepKeepsExpiry(ss[i], steps[i], d);
      ExpiryIsFixed(ss, steps, d, i + 1, j);
    }
  }

  /** A delegate lives without interruption. */
  lemma LivesOn(ss: seq<State>, steps: seq<Step>, d: nat, i: nat, k: nat, j: nat)
    requires IsRun(ss, steps) && i <= k <= j < |ss| && d in ss[i].delegates && d in ss[j].delegates
    ensures d in ss[k].delegates && d < ss[i].nextId
  {
    assert 1 <= Stage(ViewOf(ss[i], d)) && d < ss[i].nextId by {
      RunInv(ss, steps, i);
      assert Good(ViewOf(ss[i], d));
    }
    StageNeverFalls(ss, steps, d, i, k);
    StageNeverFalls(ss, steps, d, k, j);
  }

  ghost predicate KeepsExpiry(s: State, s': State, d: nat)
    requires d in s.delegates
  {
    d in s'.delegates ==> s'.delegates[d].at == s.delegates[d].at && s'.delegates[d].owner == s.delegates[d].owner
  }

  lemma StepKeepsExpiry(s: State, step: Step, d: nat)
    requires Enabled(s, step) && Derefs(s) && d in s.delegates && d < s.nextId
    ensures KeepsExpiry(s, Apply(s, step), d)
  {
    match step
    case Stop(c) => StopKeepsExpiry(s, c, false, d);
    case Fire =>
      if s.delegates[s.task.d].client.Some? {
        StopKeepsExpiry(s, s.delegates[s.task.d].client.value, true, d);
      }
    case Start(_, _) =>
    case Delete =>
    case _ => assert Apply(s, step).delegates == s.delegates;
  }

  lemma StopKeepsExpiry(s: State, c: nat, fired: bool, d: nat)
    requires Derefs(s) && c in s.clients && d in s.delegates
    ensures KeepsExpiry(s, DoStop(s, c, fired), d)
  {
  }

  /** As long as it lives, the delegate of a successful start expires the given milliseconds after that start. */
  lemma StartSetsExpiry(ss: seq<State>, steps: seq<Step>, i: nat, j: nat)
    requires IsRun(ss, steps) && i < |steps| && i < j < |ss|
    requires steps[i].Start? && steps[i].c in ss[i].clients && ss[i].clients[steps[i].c].None?
    requires ss[i].nextId in ss[j].delegates
    ensures steps[i].c in ss[i + 1].clients && ss[i + 1].clients[steps[i].c] == Some(ss[i].nextId)
    ensures var d := ss[j].delegates[ss[i].nextId];
      d.owner == steps[i].c && Normal(d.at) && Nanos(d.at) == Nanos(ss[i].now) + steps[i].ms * 1_000_000
  {
    RunInv(ss, steps, i);
    RunIsSafe(ss, steps);
    assert Enabled(ss[i], steps[i]) && ss[i + 1] == Apply(ss[i], steps[i]);
    FutureTimeIsSum(ss[i].now, steps[i].ms);
    ExpiryIsFixed(ss, steps, ss[i].nextId, i + 1, j);
  }

  // ---------- one Expire message ----------

  /** What the pops of one MsgTimerExpire take from the heap, in order, and what they leave. */
  function Drain(heap: H.Tree<Timer>, now: Timespec, first: bool): (seq<Timer>, H.Tree<Timer>)
    decreases H.Count(heap)
  {
    if Pops(heap, now, first) then
      H.PopElements(TimerRanks, heap);
      var (xs, rest) := Drain(H.Pop(TimerRanks, heap), now, false);
      ([heap.data] + xs, rest)
    else ([], heap)
  }

  /** By non-decreasing second. */
  ghost predicate InOrder(xs: seq<Timer>) {
    xs != [] ==> InOrder(xs[1..]) && forall y :: y in xs[1..] ==> xs[0].at.sec <= y.at.sec
  }

  ghost predicate AllDue(xs: seq<Timer>, now: Timespec) {
    forall y :: y in xs ==> y.at.sec <= now.sec
  }

  ghost predicate NoneDue(heap: H.Tree<Timer>, now: Timespec) {
    forall y :: y in H.Elements(heap) ==> now.sec < y.at.sec
  }

  /** Timers leave by non-decreasing second; all but an unconditional first are due; if any left, all that
      stay are in the future; nothing is lost. */
  ghost predicate Drained(heap: H.Tree<Timer>, now: Timespec, first: bool, xs: seq<Timer>, rest: H.Tree<Timer>) {
    && H.Heap(TimerRanks, rest) && H.Elements(heap) == multiset(xs) + H.Elements(rest)
    && InOrder(xs)
    && AllDue(if first && xs != [] then xs[1..] else xs, now)
    && (xs != [] || !first ==> NoneDue(rest, now))
    && (first && xs == [] ==> heap.Leaf?)
  }

  lemma DrainedMore(heap: H.Tree<Timer>, now: Timespec, first: bool, next: H.Tree<Timer>, ys: seq<Timer>, rest: H.Tree<Timer>)
    requires H.Heap(TimerRanks, heap) && Pops(heap, now, first) && Drained(next, now, false, ys, rest)
    requires H.Elements(heap) == H.Elements(next) + multiset{heap.data}
    ensures Drained(heap, now, first, [heap.data] + ys, rest)
  {
    var xs := [heap.data] + ys;
    assert xs[1..] == ys;
    forall y | y in ys ensures heap.data.at.sec <= y.at.sec {
      assert y in multiset(ys);
      TopIsEarliest(heap, y);
    }
    assert multiset(xs) == multiset{heap.data} + multiset(ys);
  }

  lemma TopIsEarliest(heap: H.Tree<Timer>, x: Timer)
    requires H.Heap(TimerRanks, heap) && x in H.Elements(heap)
    ensures heap.Node? && heap.data.at.sec <= x.at.sec
  {
    TimerRanking();
    H.TopIsMaximal(TimerRanks, heap, x);
  }

  lemma DrainStops(heap: H.Tree<Timer>, now: Timespec, first: bool)
    requires H.Heap(TimerRanks, heap) && !Pops(heap, now, first)
    ensures Drained(heap, now, first, [], heap)
  {
    forall y | y in H.Elements(heap) ensures now.sec < y.at.sec {
      TopIsEarliest(heap, y);
    }
  }

  lemma {:induction false} DrainIsOrdered(heap: H.Tree<Timer>, now: Timespec, first: bool)
    requires H.Heap(TimerRanks, heap)
    ensures var (xs, rest) := Drain(heap, now, first); Drained(heap, now, first, xs, rest)
    decreases H.Count(heap)
  {
    if Pops(heap, now, first) {
      var next := H.Pop(TimerRanks, heap);
      H.PopElements(TimerRanks, heap);
      assert H.Heap(TimerRanks, next) by {
        TimerRanking();
        H.PopRefines(TimerRanks, heap);
      }
      DrainIsOrdered(next, now, false);
      var (ys, rest) := Drain(next, now, false);
      DrainedMore(heap, now, first, next, ys, rest);
    } else {
      DrainStops(heap, now, first);
    }
  }

  /** The message task works the drain off one timer at a time: while it handles an Expire message no step but
      its own pop touches the heap, and its pop takes the first timer of what is left to drain. */
  lemma ExpireFollowsDrain(s: State, step: Step)
    requires Enabled(s, step) && Derefs(s) && (s.task.Popping? || s.task.Firing?)
    ensures var s' := Apply(s, step);
      if !step.PopNext? then s'.heap == s.heap
      else
        var (xs, rest) := Drain(s.heap, s.task.now, s.task.first);
        if xs == [] then
          && s'.heap == s.heap == rest
          && s'.task == if rest.Node? then AddingPoll(rest.data.at, None) else Idle
        else
          && s'.task == Firing(s.task.now, xs[0].id)
          && Drain(s'.heap, s.task.now, false) == (xs[1..], rest)
  {
    if step.PopNext? {
      PopFollowsDrain(s);
    }
  }

  lemma PopFollowsDrain(s: State)
    requires s.task.Popping?
    ensures var (xs, rest) := Drain(s.heap, s.task.now, s.task.first);
      var s' := DoPopNext(s);
      if xs == [] then
        s'.heap == s.heap == rest && s'.task == if rest.Node? then AddingPoll(rest.data.at, None) else Idle
      else
        s'.task == Firing(s.task.now, xs[0].id) && Drain(s'.heap, s.task.now, false) == (xs[1..], rest)
  {
  }
}
