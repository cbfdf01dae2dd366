/** The blocking message queue of gps/utils/msg_q.c: the calls on the linked list, and the monitor they form with
  any number of senders and receivers.
 */
module MsgQModule {
  import opened Options
  import opened LinkedListModule

  // ---------- the calls, made with the mutex held ----------

  datatype MsgQError = Q_SUCCESS | Q_FAILURE_GENERAL | Q_INVALID_PARAMETER | Q_INVALID_HANDLE
    | Q_UNAVAILABLE_RESOURCE | Q_INSUFFICIENT_BUFFER

  function ConvertError(e: ListError): MsgQError {
    match e
    case SUCCESS => Q_SUCCESS
    case INVALID_PARAMETER => Q_INVALID_PARAMETER
    case INVALID_HANDLE => Q_INVALID_HANDLE
    case UNAVAILABLE_RESOURCE => Q_UNAVAILABLE_RESOURCE
    case INSUFFICIENT_BUFFER => Q_INSUFFICIENT_BUFFER
    case FAILURE_GENERAL => Q_FAILURE_GENERAL
  }

  class MsgQ<T> {
    const msgList: LinkedList<T>
    var unblocked: bool

    ghost predicate Valid()
      reads this, msgList, msgList.Nodes
    {
      msgList.Valid()
    }

    constructor ()
      ensures Valid() && fresh(msgList) && msgList.Contents() == [] && !unblocked
    {
      msgList := new LinkedList();
      unblocked := false;
    }

    /** msg_q_snd; `signal` says the condition is signalled. */
    method Snd(msgObj: Option<T>, dealloc: bool) returns (rv: MsgQError, signal: bool)
      requires Valid()
      modifies msgList, msgList.Nodes
      ensures Valid()
      ensures msgObj.Some? && !unblocked ==>
        rv == Q_SUCCESS && signal && msgList.Contents() == old(msgList.Contents()) + [msgObj.value]
      ensures msgObj.None? ==> rv == Q_INVALID_PARAMETER && !signal && msgList.Contents() == old(msgList.Contents())
      ensures msgObj.Some? && unblocked ==>
        rv == Q_UNAVAILABLE_RESOURCE && !signal && msgList.Contents() == old(msgList.Contents())
    {
      if msgObj == None {
        return Q_INVALID_PARAMETER, false;
      }
      if unblocked {
        return Q_UNAVAILABLE_RESOURCE, false;
      }
      var err := msgList.Add(msgObj, dealloc);
      return ConvertError(err), true;
    }

    /** msg_q_rcv once it need not wait. */
    method Take() returns (rv: MsgQError, msgObj: Option<T>)
      requires Valid()
      modifies msgList, msgList.Nodes
      ensures Valid()
      ensures old(msgList.Contents()) != [] ==>
        rv == Q_SUCCESS && msgObj == Some(old(msgList.Contents())[0]) && msgList.Contents() == old(msgList.Contents())[1..]
      ensures old(msgList.Contents()) == [] ==> rv == Q_UNAVAILABLE_RESOURCE && msgObj == None && msgList.Contents() == []
    {
      var err;
      err, msgObj := msgList.Remove();
      assert old(msgList.Contents()) == [] ==> msgList.Contents() == [];
      return ConvertError(err), msgObj;
    }

    /** msg_q_flush; `freed` are the messages handed to their dealloc functions. */
    method Flush() returns (rv: MsgQError, freed: seq<T>)
      requires Valid()
      modifies msgList
      ensures Valid() && msgList.Contents() == [] && rv == Q_SUCCESS
      ensures freed == Deallocated(old(msgList.Nodes), |old(msgList.Nodes)|)
    {
      var err;
      err, freed := msgList.Flush();
      return ConvertError(err), freed;
    }

    /** msg_q_unblock; `broadcast` says all receivers are woken. */
    method Unblock() returns (rv: MsgQError, broadcast: bool)
      modifies this
      ensures unblocked && broadcast == !old(unblocked)
      ensures rv == if old(unblocked) then Q_UNAVAILABLE_RESOURCE else Q_SUCCESS
    {
      if unblocked {
        return Q_UNAVAILABLE_RESOURCE, false;
      }
      unblocked := true;
      return Q_SUCCESS, true;
    }
  }

  // ---------- the monitor ----------

  /** A receiver in msg_q_rcv: before its lock, asleep on the condition, or woken and waiting for the lock.
      `last` is what its latest call returned: a message, or `None` for UNAVAILABLE_RESOURCE. */
  datatype Receiver<T> = Outside(last: Option<T>) | Entering | Asleep | Woken

  datatype State<T> = State(
    queue: seq<T>,                    // oldest first
    unblocked: bool,
    receivers: map<nat, Receiver<T>>,
    accepted: seq<T>,                 // history: messages for which msg_q_snd succeeded
    gone: seq<(T, bool)>)             // history: messages that left, and whether a receiver got them

  /** `woken` are the receivers a signal wakes, or those that wake spuriously. */
  datatype Step<T> = Send(m: T, woken: set<nat>) | FlushAll | UnblockAll | Call(r: nat) | Lock(r: nat) | Spurious(woken: set<nat>)

  ghost function Sleepers<T(!new)>(s: State<T>): set<nat> {
    set r | r in s.receivers && s.receivers[r] == Asleep
  }

  ghost function Notified<T(!new)>(s: State<T>): set<nat> {
    set r | r in s.receivers && s.receivers[r] == Woken
  }

  function Wake<T>(receivers: map<nat, Receiver<T>>, woken: set<nat>): map<nat, Receiver<T>> {
    map r | r in receivers :: if r in woken then Woken else receivers[r]
  }

  ghost predicate Enabled<T(!new)>(s: State<T>, step: Step<T>) {
    match step
    case Send(_, woken) =>
      // pthread_cond_signal wakes at least one sleeper if there is one
      if s.unblocked then woken == {} else woken <= Sleepers(s) && (Sleepers(s) != {} ==> woken != {})
    case FlushAll => true
    case UnblockAll => true
    case Call(r) => r !in s.receivers || s.receivers[r].Outside?
    case Lock(r) => r in s.receivers && (s.receivers[r] == Entering || s.receivers[r] == Woken)
    case Spurious(woken) => woken <= Sleepers(s)
  }

  function DoSend<T>(s: State<T>, m: T, woken: set<nat>): State<T> {
    if s.unblocked then s
    else s.(queue := s.queue + [m], accepted := s.accepted + [m], receivers := Wake(s.receivers, woken))
  }

  /** The receiver has the mutex: it gives up, takes the oldest message, or goes (back) to sleep. */
  function DoLock<T>(s: State<T>, r: nat): State<T>
    requires r in s.receivers
  {
    if s.unblocked && s.receivers[r] == Entering then s.(receivers := s.receivers[r := Outside(None)])
    else if s.queue == [] && !s.unblocked then s.(receivers := s.receivers[r := Asleep])
    else if s.queue == [] then s.(receivers := s.receivers[r := Outside(None)])
    else s.(queue := s.queue[1..], receivers := s.receivers[r := Outside(Some(s.queue[0]))],
            gone := s.gone + [(s.queue[0], true)])
  }

  ghost function DoUnblock<T(!new)>(s: State<T>): State<T> {
    if s.unblocked then s else s.(unblocked := true, receivers := Wake(s.receivers, Sleepers(s)))
  }

  function Flushed<T>(queue: seq<T>): seq<(T, bool)> {
    seq(|queue|, i requires 0 <= i < |queue| => (queue[i], false))
  }

  ghost function Apply<T(!new)>(s: State<T>, step: Step<T>): State<T>
    requires Enabled(s, step)
  {
    match step
    case Send(m, woken) => DoSend(s, m, woken)
    case FlushAll => s.(queue := [], gone := s.gone + Flushed(s.queue))
    case UnblockAll => DoUnblock(s)
    case Call(r) => s.(receivers := s.receivers[r := Entering])
    case Lock(r) => DoLock(s, r)
    case Spurious(woken) => s.(receivers := Wake(s.receivers, woken))
  }

  // ---------- the monitor makes the calls ----------

  /** A send of the monitor does what msg_q_snd does: on a queue that is not unblocked the message goes last, is
      accepted and wakes those signalled; on an unblocked one nothing happens. */
  lemma SendIsSnd<T(!new)>(s: State<T>, m: T, woken: set<nat>)
    requires Enabled(s, Send(m, woken))
    ensures !s.unblocked ==>
      var s' := Apply(s, Send(m, woken));
      && s'.queue == s.queue + [m] && s'.accepted == s.accepted + [m] && s'.gone == s.gone && !s'.unblocked
      && Notified(s') == Notified(s) + woken && Sleepers(s') == Sleepers(s) - woken
    ensures s.unblocked ==> Apply(s, Send(m, woken)) == s
  {
    if !s.unblocked {
      WakeMoves(s, DoSend(s, m, woken), woken);
    }
  }

  /** A receiver that gets the mutex gives up at once on an unblocked queue; else, also after a wait, it takes and
      returns the oldest message if there is one, and otherwise waits, or gives up if the queue is unblocked. */
  lemma LockIsTake<T(!new)>(s: State<T>, r: nat)
    requires Enabled(s, Lock(r))
    ensures var s' := Apply(s, Lock(r));
      && s'.accepted == s.accepted && s'.unblocked == s.unblocked
      && (forall q :: q in s.receivers && q != r ==> q in s'.receivers && s'.receivers[q] == s.receivers[q])
      && if s.queue != [] && !(s.unblocked && s.receivers[r] == Entering) then
           && s'.queue == s.queue[1..] && s'.receivers[r] == Outside(Some(s.queue[0]))
           && s'.gone == s.gone + [(s.queue[0], true)]
         else
           && s'.queue == s.queue && s'.gone == s.gone
           && s'.receivers[r] == if s.unblocked then Outside(None) else Asleep
  {
  }

  /** The other steps: a call comes in, a flush drops everything queued, an unblock wakes everyone, once. */
  lemma OtherSteps<T(!new)>(s: State<T>, r: nat)
    ensures Enabled(s, Call(r)) ==> Apply(s, Call(r)) == s.(receivers := s.receivers[r := Entering])
    ensures var s' := Apply(s, FlushAll);
      && s'.queue == [] && s' == s.(queue := [], gone := s'.gone)
      && |s'.gone| == |s.gone| + |s.queue| && s'.gone[..|s.gone|] == s.gone
      && forall k :: 0 <= k < |s.queue| ==> s'.gone[|s.gone| + k] == (s.queue[k], false)
    ensures var s' := Apply(s, UnblockAll);
      && s'.unblocked && s' == s.(unblocked := true, receivers := s'.receivers)
      && (!s.unblocked ==> Sleepers(s') == {} && Notified(s') == Notified(s) + Sleepers(s))
      && (s.unblocked ==> s' == s)
  {
    if !s.unblocked {
      WakeMoves(s, DoUnblock(s), Sleepers(s));
    }
  }

  // ---------- invariant ----------

  function Messages<T>(gone: seq<(T, bool)>): seq<T> {
    seq(|gone|, i requires 0 <= i < |gone| => gone[i].0)
  }

  /** FIFO: what was accepted is what has left, in order, followed by what is queued. */
  ghost predicate Fifo<T>(s: State<T>) {
    s.accepted == Messages(s.gone) + s.queue
  }

  /** If someone sleeps, at least as many receivers are already woken as messages are queued, and the queue
      has not been unblocked. */
  ghost predicate NoneForgotten<T(!new)>(s: State<T>) {
    Sleepers(s) != {} ==> |s.queue| <= |Notified(s)| && !s.unblocked
  }

  ghost predicate Inv<T(!new)>(s: State<T>) {
    Fifo(s) && NoneForgotten(s)
  }

  ghost predicate Initial<T(!new)>(s: State<T>) {
    s.queue == [] && !s.unblocked && s.receivers == map[] && s.accepted == [] && s.gone == []
  }

  lemma MessagesAppend<T>(a: seq<(T, bool)>, b: seq<(T, bool)>)
    ensures Messages(a + b) == Messages(a) + Messages(b)
  {
  }

  lemma StepKeepsFifo<T(!new)>(s: State<T>, step: Step<T>)
    requires Fifo(s) && Enabled(s, step)
    ensures Fifo(Apply(s, step))
  {
    match step
    case FlushAll => MessagesAppend(s.gone, Flushed(s.queue));
    case Lock(r) =>
      if s.queue != [] {
        MessagesAppend(s.gone, [(s.queue[0], true)]);
      }
    case _ =>
  }

  lemma WakeMoves<T(!new)>(s: State<T>, s': State<T>, woken: set<nat>)
    requires woken <= Sleepers(s) && s'.receivers == Wake(s.receivers, woken)
    ensures Sleepers(s') == Sleepers(s) - woken && Notified(s') == Notified(s) + woken
    ensures |Notified(s')| == |Notified(s)| + |woken|
  {
    assert Sleepers(s') == Sleepers(s) - woken;
    assert Notified(s') == Notified(s) + woken;
    assert Notified(s) !! woken;
  }

  lemma OneMoves<T(!new)>(s: State<T>, s': State<T>, r: nat, x: Receiver<T>)
    requires s'.receivers == s.receivers[r := x]
    ensures Sleepers(s') == if x == Asleep then Sleepers(s) + {r} else Sleepers(s) - {r}
    ensures Notified(s') == if x == Woken then Notified(s) + {r} else Notified(s) - {r}
  {
  }

  lemma SendKeepsWaking<T(!new)>(s: State<T>, m: T, woken: set<nat>)
    requires NoneForgotten(s) && Enabled(s, Send(m, woken)) && !s.unblocked
    ensures NoneForgotten(DoSend(s, m, woken))
  {
    WakeMoves(s, DoSend(s, m, woken), woken);
    if woken != {} {
      var r :| r in woken;
      assert |woken| >= |{r}|;
    }
  }

  lemma LockKeepsWaking<T(!new)>(s: State<T>, r: nat)
    requires NoneForgotten(s) && Enabled(s, Lock(r))
    ensures NoneForgotten(DoLock(s, r))
  {
    var s' := DoLock(s, r);
    OneMoves(s, s', r, s'.receivers[r]);
    assert |Notified(s) - {r}| >= |Notified(s)| - 1;
  }

  lemma StepKeepsInv<T(!new)>(s: State<T>, step: Step<T>)
    requires Inv(s) && Enabled(s, step)
    ensures Inv(Apply(s, step))
  {
    StepKeepsFifo(s, step);
    match step
    case Send(m, woken) =>
      if !s.unblocked {
        SendKeepsWaking(s, m, woken);
      }
    case FlushAll => SameReceivers(s, Apply(s, step));
    case UnblockAll =>
      if !s.unblocked {
        WakeMoves(s, DoUnblock(s), Sleepers(s));
      }
    case Call(r) => OneMoves(s, Apply(s, step), r, Entering);
    case Lock(r) => LockKeepsWaking(s, r);
    case Spurious(woken) => WakeMoves(s, Apply(s, step), woken);
  }

  lemma SameReceivers<T(!new)>(s: State<T>, s': State<T>)
    requires s'.receivers == s.receivers
    ensures Sleepers(s') == Sleepers(s) && Notified(s') == Notified(s)
  {
  }

  // ---------- runs ----------

  ghost predicate IsRun<T(!new)>(ss: seq<State<T>>, steps: seq<Step<T>>) {
    && |ss| == |steps| + 1 && Initial(ss[0])
    && forall i :: 0 <= i < |steps| ==> Enabled(ss[i], steps[i]) && ss[i + 1] == Apply(ss[i], steps[i])
  }

  /** Over every run messages leave in the order they were accepted, each once, and no receiver sleeps while
      a message waits that no woken receiver will take, nor after the queue has been unblocked. */
  lemma {:induction false} RunInv<T(!new)>(ss: seq<State<T>>, steps: seq<Step<T>>, i: nat)
    requires IsRun(ss, steps) && i < |ss|
    ensures Messages(ss[i].gone) <= ss[i].accepted && ss[i].accepted == Messages(ss[i].gone) + ss[i].queue
    ensures Sleepers(ss[i]) != {} ==> |ss[i].queue| <= |Notified(ss[i])| && !ss[i].unblocked
  {
    if i > 0 {
      RunInv(ss, steps, i - 1);
      assert Enabled(ss[i - 1], steps[i - 1]) && ss[i - 1 + 1] == Apply(ss[i - 1], steps[i - 1]);
      StepKeepsInv(ss[i - 1], steps[i - 1]);
    }
  }

  /** What receivers were handed, in the order of their takes. */
  ghost function Received<T>(gone: seq<(T, bool)>): seq<T> {
    if gone == [] then []
    else Received(gone[..|gone| - 1]) + (if gone[|gone| - 1].1 then [gone[|gone| - 1].0] else [])
  }

  lemma {:induction false} AllReceived<T>(gone: seq<(T, bool)>)
    requires forall i :: 0 <= i < |gone| ==> gone[i].1
    ensures Received(gone) == Messages(gone)
  {
    if gone != [] {
      AllReceived(gone[..|gone| - 1]);
      assert gone == gone[..|gone| - 1] + [gone[|gone| - 1]];
    }
  }

  lemma {:induction false} OnlyFlushDrops<T(!new)>(ss: seq<State<T>>, steps: seq<Step<T>>, i: nat)
    requires IsRun(ss, steps) && i < |ss| && forall k :: 0 <= k < |steps| ==> !steps[k].FlushAll?
    ensures forall k :: 0 <= k < |ss[i].gone| ==> ss[i].gone[k].1
  {
    if i > 0 {
      OnlyFlushDrops(ss, steps, i - 1);
      assert Enabled(ss[i - 1], steps[i - 1]) && ss[i - 1 + 1] == Apply(ss[i - 1], steps[i - 1]);
      assert !steps[i - 1].FlushAll?;
    }
  }

  /** Without a flush the messages received are a prefix of the messages accepted. */
  lemma ReceivedIsPrefix<T(!new)>(ss: seq<State<T>>, steps: seq<Step<T>>, i: nat)
    requires IsRun(ss, steps) && i < |ss| && forall k :: 0 <= k < |steps| ==> !steps[k].FlushAll?
    ensures Received(ss[i].gone) <= ss[i].accepted
  {
    RunInv(ss, steps, i);
    OnlyFlushDrops(ss, steps, i);
    AllReceived(ss[i].gone);
  }

  /** Once unblocked, always unblocked, and nothing more is accepted. */
  lemma {:induction false} NothingAfterUnblock<T(!new)>(ss: seq<State<T>>, steps: seq<Step<T>>, i: nat, j: nat)
    requires IsRun(ss, steps) && i <= j < |ss| && ss[i].unblocked
    ensures ss[j].unblocked && ss[j].accepted == ss[i].accepted
  {
    if i < j {
      NothingAfterUnblock(ss, steps, i, j - 1);
      assert Enabled(ss[j - 1], steps[j - 1]) && ss[j - 1 + 1] == Apply(ss[j - 1], steps[j - 1]);
    }
  }

  /** The messages of the sends made before the queue was unblocked. */
  ghost function SentInTime<T(!new)>(steps: seq<Step<T>>, i: nat): seq<T>
    requires i <= |steps|
  {
    if i == 0 then []
    else
      SentInTime(steps, i - 1) +
      (if steps[i - 1].Send? && forall k :: 0 <= k < i - 1 ==> !steps[k].UnblockAll? then [steps[i - 1].m] else [])
  }

  /** Over every run exactly those are accepted, in order: none is refused while the queue is not unblocked. */
  lemma {:induction false} AcceptedAreSentInTime<T(!new)>(ss: seq<State<T>>, steps: seq<Step<T>>, i: nat)
    requires IsRun(ss, steps) && i < |ss|
    ensures ss[i].accepted == SentInTime(steps, i)
    ensures ss[i].unblocked <==> exists k :: 0 <= k < i && steps[k].UnblockAll?
  {
    if i > 0 {
      AcceptedAreSentInTime(ss, steps, i - 1);
      assert Enabled(ss[i - 1], steps[i - 1]) && ss[i - 1 + 1] == Apply(ss[i - 1], steps[i - 1]);
      StepAccepts(ss[i - 1], steps[i - 1]);
    }
  }

  lemma StepAccepts<T(!new)>(s: State<T>, step: Step<T>)
    requires Enabled(s, step)
    ensures Apply(s, step).accepted == s.accepted + (if step.Send? && !s.unblocked then [step.m] else [])
    ensures Apply(s, step).unblocked <==> s.unblocked || step.UnblockAll?
  {
  }

  /** In every run, while a message waits or once the queue is unblocked, a call that has not returned can be moved
      on: if not its own receiver then another one can take the mutex. */
  lemma SomeoneCanReceive<T(!new)>(ss: seq<State<T>>, steps: seq<Step<T>>, i: nat, r: nat) returns (other: nat)
    requires IsRun(ss, steps) && i < |ss| && r in ss[i].receivers && !ss[i].receivers[r].Outside?
    requires ss[i].queue != [] || ss[i].unblocked
    ensures Enabled(ss[i], Lock(other)) && Apply(ss[i], Lock(other)).receivers[other].Outside?
  {
    RunInv(ss, steps, i);
    other := r;
    if ss[i].receivers[r].Asleep? {
      assert r in Sleepers(ss[i]);
      assert |Notified(ss[i])| > 0;
      other :| other in Notified(ss[i]);
    }
    LockIsTake(ss[i], other);
  }
}
