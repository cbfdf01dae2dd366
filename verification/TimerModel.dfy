/** The timer service of gps/utils/LocTimer.cpp as a state machine: one container, any number of clients.

  Three parties take steps in any order: the client threads, the message task and the poll thread.  A step
  covers what its thread does between two points where another thread can see or change something shared:
  the message task is split at each access to the kernel and after each popped timer, the poll thread's
  `expire()` into its three calls.
 */
module TimerModel {
  import H = HeapTree
  import opened Options

  // ---------- times ----------

  datatype Timespec = Timespec(sec: int, nsec: int)

  predicate AtOrBefore(a: Timespec, b: Timespec) {
    a.sec < b.sec || (a.sec == b.sec && a.nsec <= b.nsec)
  }

  function Nanos(t: Timespec): int {
    t.sec * 1_000_000_000 + t.nsec
  }

  predicate Normal(t: Timespec) {
    0 <= t.nsec < 1_000_000_000
  }

  /** LocTimer::start's expiry time. */
  function FutureTime(now: Timespec, ms: nat): Timespec {
    var sec, nsec := now.sec + ms / 1000, now.nsec + (ms % 1000) * 1_000_000;
    if nsec >= 1_000_000_000 then Timespec(sec + nsec / 1_000_000_000, nsec % 1_000_000_000) else Timespec(sec, nsec)
  }

  lemma FutureTimeIsSum(now: Timespec, ms: nat)
    requires Normal(now)
    ensures Normal(FutureTime(now, ms))
    ensures Nanos(FutureTime(now, ms)) == Nanos(now) + ms * 1_000_000
    ensures AtOrBefore(now, FutureTime(now, ms))
  {
    assert ms == ms / 1000 * 1000 + ms % 1000;
  }

  // ---------- heap elements ----------

  /** A delegate as the heap sees it: its address and its (never changing) expiry time. */
  datatype Timer = Timer(id: nat, at: Timespec)

  /** LocTimerDelegate::ranks: seconds only, earlier ranks higher. */
  function TimerRanks(a: Timer, b: Timer): int {
    b.at.sec - a.at.sec
  }

  lemma TimerRanking()
    ensures H.Ranking(TimerRanks)
  {
  }

  function Top(t: H.Tree<Timer>): Option<Timer> {
    if t.Leaf? then None else Some(t.data)
  }

  // ---------- updateSoonestTime ----------

  datatype Update = Keep | Disarm | Arm(at: Timespec)

  /** What updateSoonestTime(prior) does when the heap's top is `cur`. */
  function SoonestUpdate(prior: Option<Timer>, cur: Option<Timer>): Update {
    if cur == prior then Keep
    else if cur.None? then Disarm
    else if prior.None? || TimerRanks(cur.value, prior.value) > 0 then Arm(cur.value.at)
    else Keep
  }

  // ---------- state ----------

  /** `client` is mClient, `attached` says mContainer is not NULL, `owner` names the shared lock in mLock. */
  datatype Delegate = Delegate(owner: nat, client: Option<nat>, attached: bool, at: Timespec)

  datatype Msg = PushMsg(d: nat) | RemoveMsg(d: nat) | ExpireMsg

  /** The poll thread: in epoll_wait, or before the first, second or third call of `expire()`. */
  datatype Poll = Waiting | Woken | Disarmed | Unpolled

  /** The message task: between messages; before a pop of MsgTimerExpire; before `timer->expire()`; before
      addPoll or timerfd_settime of updateSoonestTime; before `delete mTimer` of MsgTimerRemove, which also
      follows an update (`del`). */
  datatype Task =
    | Idle
    | Popping(now: Timespec, first: bool)
    | Firing(now: Timespec, d: nat)
    | AddingPoll(at: Timespec, del: Option<nat>)
    | SettingTime(at: Timespec, del: Option<nat>)
    | Deleting(d: nat)
  {
    function Deletes(): Option<nat> {
      match this
      case AddingPoll(_, del) => del
      case SettingTime(_, del) => del
      case Deleting(d) => Some(d)
      case _ => None
    }
  }

  /** Per client: successful starts, client stops that returned true, timeout callbacks. */
  datatype Counts = Counts(starts: nat, stops: nat, fires: nat)

  datatype State = State(
    clients: map<nat, Option<nat>>,   // living LocTimer objects and their mTimer
    counts: map<nat, Counts>,         // history of every client ever created
    locks: map<nat, int>,             // the shared lock of each client, with its mRef
    delegates: map<nat, Delegate>,    // living LocTimerDelegate objects
    nextId: nat,                      // addresses are never reused
    queue: seq<Msg>,
    heap: H.Tree<Timer>,
    armed: Option<Timespec>,          // timerfd
    polled: bool,                     // timerfd is in the epoll set
    poll: Poll,
    task: Task,
    now: Timespec)

  ghost predicate Initial(s: State) {
    && s.clients == map[] && s.counts == map[] && s.locks == map[] && s.delegates == map[]
    && s.queue == [] && s.heap == H.Leaf && s.armed == None && !s.polled && s.poll == Waiting && s.task == Idle
    && Normal(s.now) && 0 < Nanos(s.now)
  }

  // ---------- steps ----------

  datatype Step =
    | NewClient(c: nat) | Start(c: nat, ms: nat) | Stop(c: nat) | Destroy(c: nat)
    | Tick(to: Timespec)
    | Wake | PollDisarm | PollRemove | PollSend
    | Receive | PopNext | Fire | AddPoll | SetTime | Delete

  /** timerfd_settime: a zero time disarms. */
  function Settime(at: Timespec): Option<Timespec> {
    if at == Timespec(0, 0) then None else Some(at)
  }

  predicate Enabled(s: State, step: Step) {
    match step
    case NewClient(c) => c !in s.counts
    case Start(c, _) => c in s.clients
    case Stop(c) => c in s.clients
    case Destroy(c) => c in s.clients && s.clients[c] == None   // ~LocTimer has called stop()
    case Tick(to) => Normal(to) && AtOrBefore(s.now, to)
    case Wake => s.poll == Waiting && s.polled && s.armed.Some? && AtOrBefore(s.armed.value, s.now)
    case PollDisarm => s.poll == Woken
    case PollRemove => s.poll == Disarmed
    case PollSend => s.poll == Unpolled
    case Receive => s.task == Idle && s.queue != []
    case PopNext => s.task.Popping?
    case Fire => s.task.Firing?
    case AddPoll => s.task.AddingPoll?
    case SetTime => s.task.SettingTime?
    case Delete => s.task.Deleting?
  }

  /** Every pointer a step may follow leads to a living object. */
  ghost predicate Derefs(s: State) {
    && (forall c :: c in s.clients ==> c in s.counts && c in s.locks)
    && (forall c :: c in s.clients && s.clients[c].Some? ==> s.clients[c].value in s.delegates)
    && (s.queue != [] && s.queue[0] != ExpireMsg ==> s.queue[0].d in s.delegates)
    && (s.task.Firing? ==> s.task.d in s.delegates)
    && (s.task.Firing? && s.delegates[s.task.d].client.Some? ==> s.delegates[s.task.d].client.value in s.clients)
    && (s.task.Deleting? ==> s.task.d in s.delegates && s.delegates[s.task.d].owner in s.locks)
    && (forall x :: x in H.Elements(s.heap) ==> x.id in s.delegates && s.delegates[x.id].at == x.at)
  }

  function Share(locks: map<nat, int>, c: nat): map<nat, int>
    requires c in locks
  {
    locks[c := locks[c] + 1]
  }

  /** LocSharedLock::drop. */
  function Drop(locks: map<nat, int>, c: nat): map<nat, int>
    requires c in locks
  {
    if locks[c] == 1 then locks - {c} else locks[c := locks[c] - 1]
  }

  function DoStart(s: State, c: nat, ms: nat): State
    requires c in s.clients && c in s.locks && c in s.counts
  {
    if s.clients[c].Some? then s
    else
      var d := s.nextId;
      s.(clients := s.clients[c := Some(d)],
         counts := s.counts[c := s.counts[c].(starts := s.counts[c].starts + 1)],
         locks := Share(s.locks, c),
         delegates := s.delegates[d := Delegate(c, Some(c), true, FutureTime(s.now, ms))],
         nextId := d + 1,
         queue := s.queue + [PushMsg(d)])
  }

  /** LocTimer::stop with destroyLocked; `fired` says whether the timeout callback follows. */
  function DoStop(s: State, c: nat, fired: bool): State
    requires c in s.clients && c in s.counts && (s.clients[c].Some? ==> s.clients[c].value in s.delegates)
  {
    if s.clients[c].None? then s
    else
      var d := s.clients[c].value;
      var n := s.counts[c];
      s.(clients := s.clients[c := None],
         counts := s.counts[c := if fired then n.(fires := n.fires + 1) else n.(stops := n.stops + 1)],
         delegates := s.delegates[d := s.delegates[d].(client := None, attached := false)],
         queue := if s.delegates[d].attached then s.queue + [RemoveMsg(d)] else s.queue)
  }

  /** The rest of a message after its heap operation: an update of the kernel, then a delete. */
  function AfterUpdate(u: Update, del: Option<nat>): Task {
    match u
    case Arm(at) => AddingPoll(at, del)
    case _ => if del.Some? then Deleting(del.value) else Idle   // never Disarm: see NeverDisarms
  }

  function ReceivePush(s: State): State
    requires s.queue != [] && s.queue[0].PushMsg? && s.queue[0].d in s.delegates
  {
    var d := s.queue[0].d;
    var heap := H.Push(TimerRanks, s.heap, Timer(d, s.delegates[d].at));
    s.(queue := s.queue[1..], heap := heap, task := AfterUpdate(SoonestUpdate(Top(s.heap), Top(heap)), None))
  }

  function ReceiveRemove(s: State): State
    requires s.queue != [] && s.queue[0].RemoveMsg? && s.queue[0].d in s.delegates
  {
    var d := s.queue[0].d;
    var x := Timer(d, s.delegates[d].at);
    var (heap, found) := H.Remove(TimerRanks, s.heap, x);
    var removed := if found then Some(x) else None;
    var u := if Top(s.heap) == removed then SoonestUpdate(None, Top(heap)) else Keep;
    s.(queue := s.queue[1..], heap := heap, task := AfterUpdate(u, Some(d)))
  }

  /** The pop that opens a MsgTimerExpire is unconditional; the others are popIfOutRanks. */
  predicate Pops(heap: H.Tree<Timer>, now: Timespec, first: bool) {
    heap.Node? && (first || TimerRanks(Timer(0, now), heap.data) <= 0)
  }

  function DoPopNext(s: State): State
    requires s.task.Popping?
  {
    if Pops(s.heap, s.task.now, s.task.first) then
      s.(heap := H.Pop(TimerRanks, s.heap), task := Firing(s.task.now, s.heap.data.id))
    else
      s.(task := AfterUpdate(SoonestUpdate(None, Top(s.heap)), None))
  }

  /** LocTimerDelegate::expire: reading mClient, `client->stop()` and the callback. */
  function DoFire(s: State): State
    requires Derefs(s) && s.task.Firing?
  {
    var client := s.delegates[s.task.d].client;
    (if client.Some? then DoStop(s, client.value, true) else s).(task := Popping(s.task.now, false))
  }

  function DoDelete(s: State): State
    requires Derefs(s) && s.task.Deleting?
  {
    s.(delegates := s.delegates - {s.task.d}, locks := Drop(s.locks, s.delegates[s.task.d].owner), task := Idle)
  }

  function Apply(s: State, step: Step): State
    requires Enabled(s, step) && Derefs(s)
  {
    match step
    case NewClient(c) => s.(clients := s.clients[c := None], counts := s.counts[c := Counts(0, 0, 0)], locks := s.locks[c := 1])
    case Start(c, ms) => DoStart(s, c, ms)
    case Stop(c) => DoStop(s, c, false)
    case Destroy(c) => s.(clients := s.clients - {c}, locks := Drop(s.locks, c))
    case Tick(to) => s.(now := to)
    case Wake => s.(poll := Woken)
    case PollDisarm => s.(poll := Disarmed, armed := None)
    case PollRemove => s.(poll := Unpolled, polled := false)
    case PollSend => s.(poll := Waiting, queue := s.queue + [ExpireMsg])
    case Receive =>
      (match s.queue[0]
       case PushMsg(_) => ReceivePush(s)
       case RemoveMsg(_) => ReceiveRemove(s)
       case ExpireMsg => s.(queue := s.queue[1..], task := Popping(s.now, true)))
    case PopNext => DoPopNext(s)
    case Fire => DoFire(s)
    case AddPoll => s.(polled := true, task := SettingTime(s.task.at, s.task.del))
    case SetTime =>
      s.(armed := Settime(s.task.at), task := if s.task.del.Some? then Deleting(s.task.del.value) else Idle)
    case Delete => DoDelete(s)
  }

  // ---------- runs ----------

  /** A run.  Following a dangling pointer is undefined: after it any state may come. */
  ghost predicate IsRun(ss: seq<State>, steps: seq<Step>) {
    && |ss| == |steps| + 1 && Initial(ss[0])
    && forall i :: 0 <= i < |steps| ==>
      Enabled(ss[i], steps[i]) && (Derefs(ss[i]) ==> ss[i + 1] == Apply(ss[i], steps[i]))
  }
}
