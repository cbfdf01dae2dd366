/** The invariant of the timer service and its preservation by every step. */
module TimerInvariant {
  import H = HeapTree
  import opened Options
  import opened TimerModel

  // ---------- the life of one delegate ----------

  /** Where one delegate is: everything the rest of the state says about it. */
  datatype View = View(born: bool, live: bool, owner: nat, client: Option<nat>, attached: bool,
                       pushQueued: bool, removeQueued: bool, inHeap: bool, firing: bool, deleting: bool)

  ghost predicate InHeap(heap: H.Tree<Timer>, d: nat) {
    exists at :: Timer(d, at) in H.Elements(heap)
  }

  ghost function ViewOf(s: State, d: nat): View {
    var live := d in s.delegates;
    View(d < s.nextId, live,
         if live then s.delegates[d].owner else 0,
         if live then s.delegates[d].client else None,
         live && s.delegates[d].attached,
         PushMsg(d) in s.queue, RemoveMsg(d) in s.queue,
         InHeap(s.heap, d),
         s.task.Firing? && s.task.d == d,
         s.task.Deletes() == Some(d))
  }

  /** A delegate is in at most one of queue, heap and the task's hand, and in exactly one while attached;
      it is being removed exactly when it has been detached. */
  ghost predicate Good(v: View) {
    && (v.live ==> v.born)
    && (!v.live ==> !v.attached && !v.pushQueued && !v.removeQueued && !v.inHeap && !v.firing && !v.deleting)
    && !(v.pushQueued && v.inHeap) && !(v.pushQueued && v.firing) && !(v.inHeap && v.firing)
    && !(v.removeQueued && v.deleting)
    && (v.live ==> v.attached == v.client.Some?)
    && (v.attached ==> (v.pushQueued || v.inHeap || v.firing) && !v.removeQueued && !v.deleting)
    && (v.live && !v.attached ==> v.removeQueued || v.deleting)
    && (v.deleting ==> !v.pushQueued && !v.inHeap && !v.firing)
  }

  /** 0 not yet created, 1 its push queued, 2 in the heap, 3 out of it, 4 deleted. */
  ghost function Stage(v: View): nat {
    if !v.born then 0 else if !v.live then 4 else if v.pushQueued then 1 else if v.inHeap then 2 else 3
  }

  /** No push or remove message is queued twice, and a delegate's push is ahead of its remove. */
  ghost predicate Tidy(q: seq<Msg>) {
    q != [] ==>
      && Tidy(q[1..])
      && (q[0] != ExpireMsg ==> q[0] !in q[1..])
      && (q[0].RemoveMsg? ==> PushMsg(q[0].d) !in q[1..])
  }

  lemma {:induction false} TidyAppend(q: seq<Msg>, m: Msg)
    requires Tidy(q)
    requires m == ExpireMsg || m !in q
    requires m.PushMsg? ==> RemoveMsg(m.d) !in q
    ensures Tidy(q + [m])
  {
    if q != [] {
      TidyAppend(q[1..], m);
      assert (q + [m])[1..] == q[1..] + [m];
    }
  }

  lemma AppendMembers(q: seq<Msg>, m: Msg)
    ensures forall x :: x in q + [m] <==> x in q || x == m
  {
  }

  lemma TailMembers(q: seq<Msg>)
    requires q != []
    ensures forall x :: x in q <==> x == q[0] || x in q[1..]
  {
    assert q == [q[0]] + q[1..];
  }

  // ---------- the parts of the invariant ----------

  /** The heap is a heap of living delegates, each at most once. */
  ghost predicate HeapOk(s: State) {
    && H.Heap(TimerRanks, s.heap)
    && (forall x :: x in H.Elements(s.heap) ==>
         H.Elements(s.heap)[x] == 1 && x.id in s.delegates && s.delegates[x.id].at == x.at)
  }

  ghost predicate LifeOk(s: State) {
    Tidy(s.queue) && forall d: nat :: Good(ViewOf(s, d))
  }

  /** mTimer and mClient are each other's inverse. */
  ghost predicate ClientsOk(s: State) {
    && (forall c :: c in s.clients ==> c in s.counts)
    && (forall c :: c in s.clients && s.clients[c].Some? ==>
         s.clients[c].value in s.delegates && s.delegates[s.clients[c].value].client == Some(c))
    && (forall d :: d in s.delegates && s.delegates[d].client.Some? ==>
         s.delegates[d].client.value in s.clients && s.clients[s.delegates[d].client.value] == Some(d))
  }

  ghost function Owned(delegates: map<nat, Delegate>, c: nat): set<nat> {
    set d | d in delegates && delegates[d].owner == c
  }

  ghost function Refs(s: State, c: nat): nat {
    (if c in s.clients then 1 else 0) + |Owned(s.delegates, c)|
  }

  /** mRef counts the client and its living delegates, and the lock lives while that is not zero. */
  ghost predicate LocksOk(s: State) {
    && (forall d :: d in s.delegates ==> s.delegates[d].owner in s.counts)
    && (forall c :: c in s.locks <==> Refs(s, c) > 0)
    && (forall c :: c in s.locks ==> s.locks[c] == Refs(s, c))
  }

  /** Every successful start has been stopped, has fired, or is still running. */
  ghost predicate CountsOk(s: State) {
    forall c :: c in s.counts ==>
      s.counts[c].starts == s.counts[c].stops + s.counts[c].fires + (if c in s.clients && s.clients[c].Some? then 1 else 0)
  }

  ghost predicate TimesOk(s: State) {
    && Normal(s.now) && 0 < Nanos(s.now)
    && (forall d :: d in s.delegates ==> Normal(s.delegates[d].at) && 0 < Nanos(s.delegates[d].at))
  }

  /** The kernel, the poll thread or the queue will bring an expiry at `at`. */
  ghost predicate Guarded(s: State, at: Timespec) {
    (s.armed == Some(at) && s.polled) || s.poll != Waiting || ExpireMsg in s.queue
  }

  /** Between messages a non-empty heap is guarded at its top; during an update the rest of it will do so. */
  ghost predicate ArmOk(s: State) {
    match s.task
    case Idle => s.heap.Node? ==> Guarded(s, s.heap.data.at)
    case Deleting(_) => s.heap.Node? ==> Guarded(s, s.heap.data.at)
    case AddingPoll(at, _) => s.heap.Node? && s.heap.data.at == at
    case SettingTime(at, _) =>
      s.heap.Node? && s.heap.data.at == at && (s.polled || s.poll != Waiting || ExpireMsg in s.queue)
    case Popping(_, _) => true
    case Firing(_, _) => true
  }

  /** The parts that do not speak of the queue's order or of reference counts. */
  ghost predicate CoreOk(s: State) {
    HeapOk(s) && ClientsOk(s) && CountsOk(s) && TimesOk(s) && ArmOk(s)
  }

  ghost predicate Inv(s: State) {
    CoreOk(s) && LifeOk(s) && LocksOk(s)
  }

  lemma InitialInv(s: State)
    requires Initial(s)
    ensures Inv(s)
  {
  }

  /** In a reachable state no step follows a dangling pointer. */
  lemma InvDerefs(s: State)
    requires Inv(s)
    ensures Derefs(s)
  {
    forall c | c in s.clients ensures c in s.locks {
      assert Refs(s, c) > 0;
    }
    if s.queue != [] && s.queue[0] != ExpireMsg {
      var d := s.queue[0].d;
      assert s.queue[0] in s.queue;
      assert Good(ViewOf(s, d));
    }
    if s.task.Firing? {
      assert Good(ViewOf(s, s.task.d));
    }
    if s.task.Deleting? {
      var d := s.task.d;
      assert Good(ViewOf(s, d));
      assert d in Owned(s.delegates, s.delegates[d].owner);
    }
  }

  // ---------- how the heap operations move delegates ----------

  lemma InHeapAfterPush(heap: H.Tree<Timer>, x: Timer)
    ensures forall d :: InHeap(H.Push(TimerRanks, heap, x), d) <==> InHeap(heap, d) || d == x.id
  {
    H.PushElements(TimerRanks, heap, x);
    assert x in H.Elements(H.Push(TimerRanks, heap, x));
    forall d ensures InHeap(H.Push(TimerRanks, heap, x), d) <==> InHeap(heap, d) || d == x.id {
      assert d == x.id ==> Timer(d, x.at) in H.Elements(H.Push(TimerRanks, heap, x));
    }
  }

  lemma InHeapWithout(s: State, heap: H.Tree<Timer>, x: Timer)
    requires HeapOk(s) && H.Elements(s.heap) == H.Elements(heap) + multiset{x}
    ensures forall d :: InHeap(heap, d) <==> InHeap(s.heap, d) && d != x.id
  {
    var before, after := H.Elements(s.heap), H.Elements(heap);
    assert x in before && before[x] == 1;
    forall y | y in after ensures y in before && y.id != x.id {
      assert before[y] == after[y] + multiset{x}[y];
    }
    forall d | InHeap(s.heap, d) && d != x.id ensures InHeap(heap, d) {
      var at :| Timer(d, at) in before;
      assert before[Timer(d, at)] == after[Timer(d, at)];
    }
  }

  lemma HeapOkWithout(s: State, s': State, x: Timer)
    requires HeapOk(s) && H.Elements(s.heap) == H.Elements(s'.heap) + multiset{x}
    requires H.Heap(TimerRanks, s'.heap) && s'.delegates == s.delegates
    ensures HeapOk(s')
  {
    forall y | y in H.Elements(s'.heap) ensures H.Elements(s'.heap)[y] == 1 && y in H.Elements(s.heap) {
      assert H.Elements(s.heap)[y] == H.Elements(s'.heap)[y] + multiset{x}[y];
    }
  }

  // ---------- each step, part by part ----------

  ghost predicate SameOwners(s: State, s': State) {
    s'.clients == s.clients && s'.counts == s.counts && s'.locks == s.locks && s'.delegates == s.delegates
  }

  lemma LocksTransfer(s: State, s': State)
    requires LocksOk(s) && SameOwners(s, s')
    ensures LocksOk(s')
  {
    forall c ensures Refs(s', c) == Refs(s, c) {
    }
  }

  lemma CoreTransfer(s: State, s': State)
    requires CoreOk(s) && SameOwners(s, s') && HeapOk(s') && TimesOk(s') && ArmOk(s')
    ensures CoreOk(s')
  {
  }

  /** Nothing but the kernel, the poll thread or the clock has changed. */
  ghost predicate SameObjects(s: State, s': State) {
    s' == s.(armed := s'.armed, polled := s'.polled, poll := s'.poll, now := s'.now, task := s'.task)
  }

  lemma SameObjectsKeep(s: State, s': State)
    requires Inv(s) && SameObjects(s, s') && TimesOk(s') && ArmOk(s')
    requires s'.task.Deletes() == s.task.Deletes() && s'.task.Firing? == s.task.Firing? && (s.task.Firing? ==> s'.task.d == s.task.d)
    ensures Inv(s')
  {
    forall d: nat ensures Good(ViewOf(s', d)) {
      assert ViewOf(s', d) == ViewOf(s, d);
    }
    LocksTransfer(s, s');
  }

  lemma PollStepKeepsInv(s: State, step: Step)
    requires Inv(s) && Enabled(s, step) && Derefs(s)
    requires step.Tick? || step.Wake? || step.PollDisarm? || step.PollRemove?
    ensures Inv(Apply(s, step))
  {
    SameObjectsKeep(s, Apply(s, step));
  }

  lemma KernelStepKeepsInv(s: State, step: Step)
    requires Inv(s) && Enabled(s, step) && Derefs(s)
    requires step.AddPoll? || step.SetTime?
    ensures Inv(Apply(s, step))
  {
    KernelStepKeepsArm(s, step);
    SameObjectsKeep(s, Apply(s, step));
  }

  lemma KernelStepKeepsArm(s: State, step: Step)
    requires HeapOk(s) && TimesOk(s) && ArmOk(s) && Enabled(s, step) && Derefs(s)
    requires step.AddPoll? || step.SetTime?
    ensures ArmOk(Apply(s, step))
  {
    assert s.heap.data in H.Elements(s.heap);
  }

  lemma SendKeepsInv(s: State)
    requires Inv(s) && s.poll == Unpolled && Derefs(s)
    ensures Inv(Apply(s, PollSend))
  {
    var s' := Apply(s, PollSend);
    AppendMembers(s.queue, ExpireMsg);
    TidyAppend(s.queue, ExpireMsg);
    forall d: nat ensures Good(ViewOf(s', d)) {
      assert ViewOf(s', d) == ViewOf(s, d);
    }
    LocksTransfer(s, s');
  }

  lemma NewClientKeepsInv(s: State, c: nat)
    requires Inv(s) && c !in s.counts && Derefs(s)
    ensures Inv(Apply(s, NewClient(c)))
  {
    NewClientKeepsCore(s, c);
    NewClientKeepsLife(s, c);
    NewClientKeepsLocks(s, c);
  }

  lemma NewClientKeepsCore(s: State, c: nat)
    requires CoreOk(s) && c !in s.counts && Derefs(s)
    ensures CoreOk(Apply(s, NewClient(c)))
  {
  }

  lemma NewClientKeepsLife(s: State, c: nat)
    requires LifeOk(s) && c !in s.counts && Derefs(s)
    ensures LifeOk(Apply(s, NewClient(c)))
  {
    forall d: nat ensures Good(ViewOf(Apply(s, NewClient(c)), d)) {
      assert ViewOf(Apply(s, NewClient(c)), d) == ViewOf(s, d);
    }
  }

  lemma NewClientKeepsLocks(s: State, c: nat)
    requires LocksOk(s) && ClientsOk(s) && c !in s.counts && Derefs(s)
    ensures LocksOk(Apply(s, NewClient(c)))
  {
    var s' := Apply(s, NewClient(c));
    assert Owned(s.delegates, c) == {};
    forall b | b != c ensures Refs(s', b) == Refs(s, b) {
    }
  }

  // ---------- start ----------

  lemma StartKeepsLife(s: State, c: nat, ms: nat)
    requires LifeOk(s) && Derefs(s) && c in s.clients && s.clients[c].None?
    ensures LifeOk(DoStart(s, c, ms))
  {
    var s', n := DoStart(s, c, ms), s.nextId;
    assert Good(ViewOf(s, n));
    AppendMembers(s.queue, PushMsg(n));
    TidyAppend(s.queue, PushMsg(n));
    forall d: nat ensures Good(ViewOf(s', d)) {
      assert Good(ViewOf(s, d));
      if d == n {
        assert ViewOf(s', d) == ViewOf(s, d).(
          born := true, live := true, owner := c, client := Some(c), attached := true, pushQueued := true);
      } else {
        assert ViewOf(s', d) == ViewOf(s, d).(born := d < s'.nextId);
      }
    }
  }

  /** One more delegate `n` on the lock of `c`. */
  lemma OwnedMore(ds: map<nat, Delegate>, n: nat, x: Delegate)
    requires n !in ds
    ensures |Owned(ds[n := x], x.owner)| == |Owned(ds, x.owner)| + 1
    ensures forall b :: b != x.owner ==> Owned(ds[n := x], b) == Owned(ds, b)
  {
    assert Owned(ds[n := x], x.owner) == Owned(ds, x.owner) + {n};
    forall b | b != x.owner ensures Owned(ds[n := x], b) == Owned(ds, b) {
    }
  }

  lemma StartKeepsLocks(s: State, c: nat, ms: nat)
    requires LocksOk(s) && Derefs(s) && c in s.clients && s.clients[c].None? && s.nextId !in s.delegates
    ensures LocksOk(DoStart(s, c, ms))
  {
    var s' := DoStart(s, c, ms);
    OwnedMore(s.delegates, s.nextId, s'.delegates[s.nextId]);
    assert Refs(s', c) == Refs(s, c) + 1;
    forall b | b != c ensures Refs(s', b) == Refs(s, b) {
    }
  }

  lemma StartKeepsCore(s: State, c: nat, ms: nat)
    requires CoreOk(s) && Derefs(s) && c in s.clients && s.clients[c].None? && s.nextId !in s.delegates
    ensures CoreOk(DoStart(s, c, ms))
  {
    StartKeepsClients(s, c, ms);
    StartKeepsHeap(s, c, ms);
  }

  lemma StartKeepsClients(s: State, c: nat, ms: nat)
    requires ClientsOk(s) && CountsOk(s) && Derefs(s) && c in s.clients && s.clients[c].None? && s.nextId !in s.delegates
    ensures ClientsOk(DoStart(s, c, ms)) && CountsOk(DoStart(s, c, ms))
  {
  }

  lemma StartKeepsHeap(s: State, c: nat, ms: nat)
    requires HeapOk(s) && TimesOk(s) && ArmOk(s) && Derefs(s) && c in s.clients && s.clients[c].None?
    requires s.nextId !in s.delegates
    ensures HeapOk(DoStart(s, c, ms)) && TimesOk(DoStart(s, c, ms)) && ArmOk(DoStart(s, c, ms))
  {
    FutureTimeIsSum(s.now, ms);
    AppendMembers(s.queue, PushMsg(s.nextId));
  }

  lemma StartKeepsInv(s: State, c: nat, ms: nat)
    requires Inv(s) && Derefs(s) && c in s.clients
    ensures Inv(DoStart(s, c, ms))
  {
    if s.clients[c].None? {
      assert s.nextId !in s.delegates by { assert Good(ViewOf(s, s.nextId)); }
      StartKeepsLife(s, c, ms);
      StartKeepsLocks(s, c, ms);
      StartKeepsCore(s, c, ms);
    }
  }

  // ---------- stop, expire ----------

  lemma StopKeepsLife(s: State, c: nat, fired: bool)
    requires LifeOk(s) && ClientsOk(s) && Derefs(s) && c in s.clients && s.clients[c].Some?
    ensures LifeOk(DoStop(s, c, fired))
  {
    var s', n := DoStop(s, c, fired), s.clients[c].value;
    assert Good(ViewOf(s, n));
    AppendMembers(s.queue, RemoveMsg(n));
    TidyAppend(s.queue, RemoveMsg(n));
    forall d: nat ensures Good(ViewOf(s', d)) {
      assert Good(ViewOf(s, d));
      if d == n {
        assert ViewOf(s', d) == ViewOf(s, d).(client := None, attached := false, removeQueued := true);
      } else {
        assert ViewOf(s', d) == ViewOf(s, d);
      }
    }
  }

  lemma StopKeepsLocks(s: State, c: nat, fired: bool)
    requires LocksOk(s) && Derefs(s) && c in s.clients && s.clients[c].Some?
    ensures LocksOk(DoStop(s, c, fired))
  {
    var s' := DoStop(s, c, fired);
    forall b ensures Refs(s', b) == Refs(s, b) {
      assert Owned(s'.delegates, b) == Owned(s.delegates, b);
    }
  }

  lemma StopKeepsCore(s: State, c: nat, fired: bool)
    requires CoreOk(s) && Derefs(s) && c in s.clients && s.clients[c].Some?
    ensures CoreOk(DoStop(s, c, fired))
  {
    StopKeepsClients(s, c, fired);
    assert ArmOk(DoStop(s, c, fired)) by {
      AppendMembers(s.queue, RemoveMsg(s.clients[c].value));
    }
  }

  lemma StopKeepsClients(s: State, c: nat, fired: bool)
    requires ClientsOk(s) && CountsOk(s) && Derefs(s) && c in s.clients && s.clients[c].Some?
    ensures ClientsOk(DoStop(s, c, fired)) && CountsOk(DoStop(s, c, fired))
  {
  }

  lemma StopKeepsInv(s: State, c: nat, fired: bool)
    requires Inv(s) && Derefs(s) && c in s.clients
    ensures Inv(DoStop(s, c, fired))
  {
    if s.clients[c].Some? {
      StopKeepsLife(s, c, fired);
      StopKeepsLocks(s, c, fired);
      StopKeepsCore(s, c, fired);
    }
  }

  /** After `expire()` the popped delegate is detached, so the task may let go of it. */
  lemma LetGo(s: State, task: Task)
    requires Inv(s) && s.task.Firing? && task.Popping? && s.task.d in s.delegates && !s.delegates[s.task.d].attached
    ensures Inv(s.(task := task))
  {
    var s' := s.(task := task);
    forall d: nat ensures Good(ViewOf(s', d)) {
      assert Good(ViewOf(s, d));
      assert ViewOf(s', d) == ViewOf(s, d).(firing := false);
    }
    LocksTransfer(s, s');
  }

  lemma FireKeepsInv(s: State)
    requires Inv(s) && Derefs(s) && s.task.Firing?
    ensures Inv(DoFire(s))
  {
    var client := s.delegates[s.task.d].client;
    assert Good(ViewOf(s, s.task.d));
    if client.Some? {
      StopKeepsInv(s, client.value, true);
      LetGo(DoStop(s, client.value, true), Popping(s.task.now, false));
    } else {
      LetGo(s, Popping(s.task.now, false));
    }
  }

  // ---------- the end of a client, the end of a delegate ----------

  lemma DestroyKeepsLocks(s: State, c: nat)
    requires LocksOk(s) && Derefs(s) && c in s.clients && s.clients[c].None?
    ensures LocksOk(Apply(s, Destroy(c)))
  {
    var s' := Apply(s, Destroy(c));
    forall b | b != c ensures Refs(s', b) == Refs(s, b) {
    }
    assert Refs(s', c) == Refs(s, c) - 1;
  }

  lemma DestroyKeepsInv(s: State, c: nat)
    requires Inv(s) && Derefs(s) && c in s.clients && s.clients[c].None?
    ensures Inv(Apply(s, Destroy(c)))
  {
    DestroyKeepsLocks(s, c);
    DestroyKeepsLife(s, c);
    DestroyKeepsCore(s, c);
  }

  lemma DestroyKeepsLife(s: State, c: nat)
    requires LifeOk(s) && Derefs(s) && c in s.clients && s.clients[c].None?
    ensures LifeOk(Apply(s, Destroy(c)))
  {
    forall d: nat ensures Good(ViewOf(Apply(s, Destroy(c)), d)) {
      assert ViewOf(Apply(s, Destroy(c)), d) == ViewOf(s, d);
    }
  }

  lemma DestroyKeepsCore(s: State, c: nat)
    requires CoreOk(s) && Derefs(s) && c in s.clients && s.clients[c].None?
    ensures CoreOk(Apply(s, Destroy(c)))
  {
  }

  lemma DeleteKeepsLife(s: State)
    requires LifeOk(s) && Derefs(s) && s.task.Deleting?
    ensures LifeOk(DoDelete(s))
  {
    var s', n := DoDelete(s), s.task.d;
    forall d: nat ensures Good(ViewOf(s', d)) {
      assert Good(ViewOf(s, d));
      if d != n {
        assert ViewOf(s', d) == ViewOf(s, d);
      }
    }
  }

  lemma OwnedLess(ds: map<nat, Delegate>, n: nat)
    requires n in ds
    ensures |Owned(ds - {n}, ds[n].owner)| == |Owned(ds, ds[n].owner)| - 1
    ensures forall b :: b != ds[n].owner ==> Owned(ds - {n}, b) == Owned(ds, b)
  {
    assert Owned(ds - {n}, ds[n].owner) == Owned(ds, ds[n].owner) - {n};
    forall b | b != ds[n].owner ensures Owned(ds - {n}, b) == Owned(ds, b) {
    }
  }

  lemma DeleteKeepsLocks(s: State)
    requires LocksOk(s) && Derefs(s) && s.task.Deleting?
    ensures LocksOk(DoDelete(s))
  {
    var s', c := DoDelete(s), s.delegates[s.task.d].owner;
    OwnedLess(s.delegates, s.task.d);
    assert Refs(s', c) == Refs(s, c) - 1;
    forall b | b != c ensures Refs(s', b) == Refs(s, b) {
    }
  }

  lemma DeleteKeepsCore(s: State)
    requires CoreOk(s) && Derefs(s) && s.task.Deleting?
    requires s.delegates[s.task.d].client.None? && !InHeap(s.heap, s.task.d)
    ensures CoreOk(DoDelete(s))
  {
    forall x | x in H.Elements(s.heap) ensures x.id != s.task.d {
      assert Timer(x.id, x.at) in H.Elements(s.heap);
    }
  }

  lemma DeleteKeepsInv(s: State)
    requires Inv(s) && Derefs(s) && s.task.Deleting?
    ensures Inv(DoDelete(s))
  {
    assert Good(ViewOf(s, s.task.d));
    DeleteKeepsLife(s);
    DeleteKeepsLocks(s);
    DeleteKeepsCore(s);
  }

  // ---------- messages ----------

  lemma ReceivePushKeepsInv(s: State)
    requires Inv(s) && Derefs(s) && s.task == Idle && s.queue != [] && s.queue[0].PushMsg?
    ensures Inv(ReceivePush(s))
  {
    var s', n := ReceivePush(s), s.queue[0].d;
    var x := Timer(n, s.delegates[n].at);
    assert Good(ViewOf(s, n));
    ReceivePushKeepsCore(s);
    TailMembers(s.queue);
    InHeapAfterPush(s.heap, x);
    forall d: nat ensures Good(ViewOf(s', d)) {
      assert Good(ViewOf(s, d));
      if d == n {
        assert ViewOf(s', d) == ViewOf(s, d).(pushQueued := false, inHeap := true);
      } else {
        assert ViewOf(s', d) == ViewOf(s, d);
      }
    }
    LocksTransfer(s, s');
  }

  lemma ReceivePushKeepsHeap(s: State)
    requires HeapOk(s) && Derefs(s) && s.queue != [] && s.queue[0].PushMsg? && !InHeap(s.heap, s.queue[0].d)
    ensures HeapOk(ReceivePush(s))
  {
    var n := s.queue[0].d;
    var x := Timer(n, s.delegates[n].at);
    TimerRanking();
    H.PushRefines(TimerRanks, s.heap, x);
    assert x !in H.Elements(s.heap);
  }

  lemma ReceivePushKeepsCore(s: State)
    requires CoreOk(s) && Derefs(s) && s.task == Idle && s.queue != [] && s.queue[0].PushMsg?
    requires !InHeap(s.heap, s.queue[0].d)
    ensures CoreOk(ReceivePush(s))
  {
    ReceivePushKeepsHeap(s);
    assert ArmOk(ReceivePush(s)) by {
      H.PushTop(TimerRanks, s.heap, Timer(s.queue[0].d, s.delegates[s.queue[0].d].at));
      TailMembers(s.queue);
    }
    CoreTransfer(s, ReceivePush(s));
  }

  lemma ReceiveExpireKeepsInv(s: State)
    requires Inv(s) && Derefs(s) && s.task == Idle && s.queue != [] && s.queue[0].ExpireMsg?
    ensures Inv(Apply(s, Receive))
  {
    var s' := s.(queue := s.queue[1..], task := Popping(s.now, true));
    ReceiveExpireKeepsLife(s);
    CoreTransfer(s, s');
    LocksTransfer(s, s');
  }

  lemma ReceiveExpireKeepsLife(s: State)
    requires LifeOk(s) && s.task == Idle && s.queue != [] && s.queue[0].ExpireMsg?
    ensures LifeOk(s.(queue := s.queue[1..], task := Popping(s.now, true)))
  {
    var s' := s.(queue := s.queue[1..], task := Popping(s.now, true));
    TailMembers(s.queue);
    forall d: nat ensures Good(ViewOf(s', d)) {
      assert ViewOf(s', d) == ViewOf(s, d);
    }
  }

  /** MsgTimerRemove takes the delegate out of the heap if it is there, whatever the ranking prunes. */
  lemma RemoveTakesOut(s: State, n: nat)
    requires HeapOk(s) && n in s.delegates
    ensures var x := Timer(n, s.delegates[n].at);
      var (heap, found) := H.Remove(TimerRanks, s.heap, x);
      && H.Heap(TimerRanks, heap)
      && (found <==> InHeap(s.heap, n))
      && (found ==> H.Elements(s.heap) == H.Elements(heap) + multiset{x})
      && (!found ==> heap == s.heap)
      && (forall d :: InHeap(heap, d) <==> InHeap(s.heap, d) && d != n)
  {
    var x := Timer(n, s.delegates[n].at);
    var (heap, found) := H.Remove(TimerRanks, s.heap, x);
    TimerRanking();
    H.RemoveRefines(TimerRanks, s.heap, x);
    H.RemoveElements(TimerRanks, s.heap, x);
    H.RemoveFinds(TimerRanks, s.heap, x);
    if InHeap(s.heap, n) {
      var at :| Timer(n, at) in H.Elements(s.heap);
      assert Timer(n, at) == x;
      InHeapWithout(s, heap, x);
    }
  }

  lemma ReceiveRemoveKeepsArm(s: State)
    requires HeapOk(s) && ArmOk(s) && Derefs(s) && s.task == Idle && s.queue != [] && s.queue[0].RemoveMsg?
    ensures ArmOk(ReceiveRemove(s))
  {
    var x := Timer(s.queue[0].d, s.delegates[s.queue[0].d].at);
    TailMembers(s.queue);
    if s.heap.Node? && s.heap.data != x {
      TimerRanking();
      H.RemoveTop(TimerRanks, s.heap, x);
    }
  }

  lemma ReceiveRemoveKeepsCore(s: State)
    requires CoreOk(s) && Derefs(s) && s.task == Idle && s.queue != [] && s.queue[0].RemoveMsg?
    ensures CoreOk(ReceiveRemove(s))
  {
    var s', n := ReceiveRemove(s), s.queue[0].d;
    var x := Timer(n, s.delegates[n].at);
    assert HeapOk(s') by {
      RemoveTakesOut(s, n);
      if H.Remove(TimerRanks, s.heap, x).1 {
        HeapOkWithout(s, s', x);
      }
    }
    ReceiveRemoveKeepsArm(s);
    CoreTransfer(s, s');
  }

  lemma ReceiveRemoveKeepsInv(s: State)
    requires Inv(s) && Derefs(s) && s.task == Idle && s.queue != [] && s.queue[0].RemoveMsg?
    ensures Inv(ReceiveRemove(s))
  {
    ReceiveRemoveKeepsCore(s);
    RemoveTakesOut(s, s.queue[0].d);
    ReceiveRemoveKeepsLife(s);
    LocksTransfer(s, ReceiveRemove(s));
  }

  lemma ReceiveRemoveKeepsLife(s: State)
    requires LifeOk(s) && Derefs(s) && s.task == Idle && s.queue != [] && s.queue[0].RemoveMsg?
    requires forall d :: InHeap(ReceiveRemove(s).heap, d) <==> InHeap(s.heap, d) && d != s.queue[0].d
    ensures LifeOk(ReceiveRemove(s))
  {
    var s', n := ReceiveRemove(s), s.queue[0].d;
    TailMembers(s.queue);
    forall d: nat ensures Good(ViewOf(s', d)) {
      assert Good(ViewOf(s, d));
      if d == n {
        assert ViewOf(s', d) == ViewOf(s, d).(removeQueued := false, inHeap := false, deleting := true);
      } else {
        assert ViewOf(s', d) == ViewOf(s, d);
      }
    }
  }

  lemma PopNextKeepsHeap(s: State)
    requires HeapOk(s) && s.task.Popping? && Pops(s.heap, s.task.now, s.task.first)
    ensures HeapOk(DoPopNext(s))
    ensures forall d :: InHeap(DoPopNext(s).heap, d) <==> InHeap(s.heap, d) && d != s.heap.data.id
    ensures InHeap(s.heap, s.heap.data.id)
  {
    TimerRanking();
    H.PopRefines(TimerRanks, s.heap);
    H.PopElements(TimerRanks, s.heap);
    HeapOkWithout(s, DoPopNext(s), s.heap.data);
    InHeapWithout(s, DoPopNext(s).heap, s.heap.data);
    assert Timer(s.heap.data.id, s.heap.data.at) in H.Elements(s.heap);
  }

  lemma PopKeepsInv(s: State)
    requires Inv(s) && s.task.Popping? && Pops(s.heap, s.task.now, s.task.first)
    ensures Inv(DoPopNext(s))
  {
    var s', n := DoPopNext(s), s.heap.data.id;
    PopNextKeepsHeap(s);
    forall d: nat ensures Good(ViewOf(s', d)) {
      assert Good(ViewOf(s, d));
      if d == n {
        assert ViewOf(s', d) == ViewOf(s, d).(inHeap := false, firing := true);
      } else {
        assert ViewOf(s', d) == ViewOf(s, d);
      }
    }
    LocksTransfer(s, s');
    CoreTransfer(s, s');
  }

  lemma PopNextKeepsInv(s: State)
    requires Inv(s) && s.task.Popping?
    ensures Inv(DoPopNext(s))
  {
    if Pops(s.heap, s.task.now, s.task.first) {
      PopKeepsInv(s);
    } else {
      SameObjectsKeep(s, DoPopNext(s));
    }
  }

  /** Every step of every party keeps the invariant. */
  lemma StepKeepsInv(s: State, step: Step)
    requires Inv(s) && Enabled(s, step) && Derefs(s)
    ensures Inv(Apply(s, step))
  {
    match step
    case NewClient(c) => NewClientKeepsInv(s, c);
    case Start(c, ms) => StartKeepsInv(s, c, ms);
    case Stop(c) => StopKeepsInv(s, c, false);
    case Destroy(c) => DestroyKeepsInv(s, c);
    case Tick(_) => PollStepKeepsInv(s, step);
    case Wake => PollStepKeepsInv(s, step);
    case PollDisarm => PollStepKeepsInv(s, step);
    case PollRemove => PollStepKeepsInv(s, step);
    case PollSend => SendKeepsInv(s);
    case Receive =>
      if s.queue[0].PushMsg? {
        ReceivePushKeepsInv(s);
      } else if s.queue[0].RemoveMsg? {
        ReceiveRemoveKeepsInv(s);
      } else {
        ReceiveExpireKeepsInv(s);
      }
    case PopNext => PopNextKeepsInv(s);
    case Fire => FireKeepsInv(s);
    case AddPoll => KernelStepKeepsInv(s, step);
    case SetTime => KernelStepKeepsInv(s, step);
    case Delete => DeleteKeepsInv(s);
  }
}
