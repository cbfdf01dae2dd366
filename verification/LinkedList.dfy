/** The doubly linked list of gps/utils/linked_list.c: elements enter at the head and leave at the tail. */
module LinkedListModule {
  import opened Options

  datatype ListError = SUCCESS | FAILURE_GENERAL | INVALID_PARAMETER | INVALID_HANDLE | UNAVAILABLE_RESOURCE | INSUFFICIENT_BUFFER

  class ListElement<T> {
    var next: ListElement?<T>
    var prev: ListElement?<T>
    const data: T
    /** dealloc_func is not NULL. */
    const dealloc: bool

    constructor (data: T, dealloc: bool)
      ensures next == null && prev == null && this.data == data && this.dealloc == dealloc
    {
      next, prev := null, null;
      this.data, this.dealloc := data, dealloc;
    }
  }

  /** The data of the first `k` nodes whose dealloc function is called when they go, last first. */
  ghost function Deallocated<T>(nodes: seq<ListElement<T>>, k: nat): seq<T>
    requires k <= |nodes|
  {
    if k == 0 then [] else (if nodes[k - 1].dealloc then [nodes[k - 1].data] else []) + Deallocated(nodes, k - 1)
  }

  /** The nodes from `i` on, of the first `k`, that have a dealloc function. */
  ghost function WithDealloc<T>(nodes: seq<ListElement<T>>, i: nat, k: nat): set<nat>
    requires k <= |nodes|
  {
    set l: nat | i <= l < k && nodes[l].dealloc
  }

  /** Each of them is deallocated once, after those newer than it, and nothing else is. */
  lemma {:induction false} DeallocatedAt<T>(nodes: seq<ListElement<T>>, k: nat)
    requires k <= |nodes|
    ensures |Deallocated(nodes, k)| == |WithDealloc(nodes, 0, k)|
    ensures forall i :: 0 <= i < k && nodes[i].dealloc ==>
      |WithDealloc(nodes, i + 1, k)| < |Deallocated(nodes, k)|
      && Deallocated(nodes, k)[|WithDealloc(nodes, i + 1, k)|] == nodes[i].data
  {
    if k > 0 {
      DeallocatedAt(nodes, k - 1);
      forall i | 0 <= i <= k - 1
        ensures |WithDealloc(nodes, i, k)| == |WithDealloc(nodes, i, k - 1)| + if nodes[k - 1].dealloc then 1 else 0
      {
        OneMoreWithDealloc(nodes, i, k - 1);
      }
      assert WithDealloc(nodes, k, k) == {};
    }
  }

  lemma OneMoreWithDealloc<T>(nodes: seq<ListElement<T>>, i: nat, k: nat)
    requires i <= k < |nodes|
    ensures |WithDealloc(nodes, i, k + 1)| == |WithDealloc(nodes, i, k)| + if nodes[k].dealloc then 1 else 0
  {
    assert WithDealloc(nodes, i, k + 1) == WithDealloc(nodes, i, k) + (if nodes[k].dealloc then {k} else {});
  }

  lemma FreedNext<T>(freed: seq<T>, nodes: seq<ListElement<T>>, k: nat)
    requires k < |nodes|
    ensures var freed' := if nodes[k].dealloc then freed + [nodes[k].data] else freed;
      freed + Deallocated(nodes, k + 1) == freed' + Deallocated(nodes, k)
  {
  }

  /** Following `next` from the newest node leads through all older ones to NULL. */
  ghost predicate NextOk<T>(nodes: seq<ListElement<T>>)
    reads nodes
  {
    forall i {:trigger nodes[i].next} :: 0 <= i < |nodes| ==> nodes[i].next == if i == 0 then null else nodes[i - 1]
  }

  /** ... and following `prev` from the oldest through all newer ones. */
  ghost predicate PrevOk<T>(nodes: seq<ListElement<T>>)
    reads nodes
  {
    forall i {:trigger nodes[i].prev} :: 0 <= i < |nodes| ==>
      nodes[i].prev == if i == |nodes| - 1 then null else nodes[i + 1]
  }

  /** Following `next` leads past node `at`. */
  ghost predicate NextPast<T>(nodes: seq<ListElement<T>>, at: nat)
    requires at < |nodes|
    reads nodes
  {
    forall i {:trigger nodes[i].next} :: 0 <= i < |nodes| && i != at ==>
      nodes[i].next == var j := if i == at + 1 then at else i; if j == 0 then null else nodes[j - 1]
  }

  /** ... and following `prev`. */
  ghost predicate PrevPast<T>(nodes: seq<ListElement<T>>, at: nat)
    requires at < |nodes|
    reads nodes
  {
    forall i {:trigger nodes[i].prev} :: 0 <= i < |nodes| && i != at ==>
      nodes[i].prev == var j := if i + 1 == at then at else i; if j == |nodes| - 1 then null else nodes[j + 1]
  }

  ghost predicate Distinct<T>(nodes: seq<ListElement<T>>) {
    forall i, j :: 0 <= i < j < |nodes| ==> nodes[i] != nodes[j]
  }

  lemma Bypasses<T>(nodes: seq<ListElement<T>>, at: nat)
    requires at < |nodes| && NextPast(nodes, at) && PrevPast(nodes, at)
    ensures NextOk(nodes[..at] + nodes[at + 1..]) && PrevOk(nodes[..at] + nodes[at + 1..])
  {
    var rest := nodes[..at] + nodes[at + 1..];
    forall i | 0 <= i < |rest|
      ensures rest[i].next == (if i == 0 then null else rest[i - 1])
      ensures rest[i].prev == if i == |rest| - 1 then null else rest[i + 1]
    {
      assert rest[i] == nodes[if i < at then i else i + 1];
    }
  }

  class LinkedList<T> {
    var pHead: ListElement?<T>
    var pTail: ListElement?<T>

    /** The elements, oldest (the tail) first. */
    ghost var Nodes: seq<ListElement<T>>

    ghost predicate Valid()
      reads this, Nodes
    {
      && (if Nodes == [] then pHead == null && pTail == null
          else pTail == Nodes[0] && pHead == Nodes[|Nodes| - 1])
      && PrevOk(Nodes)
      && NextOk(Nodes)
      && Distinct(Nodes)
    }

    /** The data, oldest first. */
    ghost function Contents(): seq<T>
      reads this
    {
      seq(|Nodes|, i requires 0 <= i < |Nodes| reads this => Nodes[i].data)
    }

    constructor ()
      ensures Valid() && Contents() == [] && Nodes == []
    {
      pHead, pTail := null, null;
      Nodes := [];
    }

    /** linked_list_add; `None` is a NULL object. */
    method Add(dataObj: Option<T>, dealloc: bool) returns (err: ListError)
      requires Valid()
      modifies this, Nodes
      ensures Valid()
      ensures err == if dataObj == None then INVALID_PARAMETER else SUCCESS
      ensures Contents() == if dataObj == None then old(Contents()) else old(Contents()) + [dataObj.value]
      ensures dataObj == None ==> Nodes == old(Nodes)
      ensures dataObj != None ==> |Nodes| == |old(Nodes)| + 1 && Nodes[..|old(Nodes)|] == old(Nodes)
      ensures dataObj != None ==> fresh(Nodes[|old(Nodes)|]) && Nodes[|old(Nodes)|].dealloc == dealloc
    {
      if dataObj == None {
        return INVALID_PARAMETER;
      }
      var elem := new ListElement(dataObj.value, dealloc);
      var tmp := pHead;
      pHead := elem;
      pHead.next := tmp;
      if tmp != null {
        tmp.prev := pHead;
      } else {
        pTail := pHead;
      }
      Nodes := Nodes + [elem];
      return SUCCESS;
    }

    /** linked_list_remove, from the tail. */
    method Remove() returns (err: ListError, dataObj: Option<T>)
      requires Valid()
      modifies this, Nodes
      ensures Valid()
      ensures if old(Contents()) == [] then err == UNAVAILABLE_RESOURCE && dataObj == None && Nodes == old(Nodes)
        else err == SUCCESS && dataObj == Some(old(Contents())[0]) && Nodes == old(Nodes)[1..] && Contents() == old(Contents())[1..]
    {
      if pTail == null {
        return UNAVAILABLE_RESOURCE, None;
      }
      var tmp := pTail;
      pTail := tmp.prev;
      if pTail != null {
        pTail.next := null;
      } else {
        pHead := pTail;
      }
      Nodes := Nodes[1..];
      return SUCCESS, Some(tmp.data);
    }

    method Empty() returns (e: bool)
      requires Valid()
      ensures e <==> Contents() == []
    {
      e := pHead == null;
    }

    /** linked_list_flush; `freed` is the data handed to dealloc functions, in order. */
    method Flush() returns (err: ListError, freed: seq<T>)
      requires Valid()
      modifies this
      ensures Valid() && Nodes == [] && err == SUCCESS && freed == Deallocated(old(Nodes), |old(Nodes)|)
    {
      freed := [];
      ghost var left := |Nodes|;
      while pHead != null
        invariant 0 <= left <= |Nodes| && Nodes == old(Nodes)
        invariant pHead == if left == 0 then null else Nodes[left - 1]
        invariant NextOk(Nodes)
        invariant Deallocated(Nodes, |Nodes|) == freed + Deallocated(Nodes, left)
        decreases left
      {
        ghost var before := freed;
        var tmp := pHead.next;
        if pHead.dealloc {
          freed := freed + [pHead.data];
        }
        left := left - 1;
        FreedNext(before, Nodes, left);
        pHead := tmp;
      }
      pTail := null;
      Nodes := [];
      return SUCCESS, freed;
    }

    /** linked_list_search, from the head: the newest match, removed if asked.  `copyOut` says data_p is not NULL;
        `freed` that the dealloc function was called. */
    method Search(equal: T -> bool, copyOut: bool, rmIfFound: bool)
      returns (err: ListError, found: Option<T>, freed: bool, ghost at: int)
      requires Valid()
      modifies this, Nodes
      ensures Valid() && err == (if old(Nodes) == [] then UNAVAILABLE_RESOURCE else SUCCESS)
      ensures -1 <= at < |old(Nodes)| && (at >= 0 ==> equal(old(Contents())[at]))
      ensures forall k :: at < k < |old(Nodes)| ==> !equal(old(Contents())[k])
      ensures found == if at >= 0 && copyOut then Some(old(Contents())[at]) else None
      ensures freed <==> at >= 0 && rmIfFound && !copyOut && old(Nodes)[at].dealloc
      ensures Nodes == if at >= 0 && rmIfFound then old(Nodes)[..at] + old(Nodes)[at + 1..] else old(Nodes)
    {
      found, freed, at := None, false, |Nodes| - 1;
      if pTail == null {
        return UNAVAILABLE_RESOURCE, None, false, -1;
      }
      var tmp := pHead;
      while tmp != null
        invariant Valid() && Nodes == old(Nodes) && -1 <= at < |Nodes|
        invariant tmp == if at >= 0 then Nodes[at] else null
        invariant forall k :: at < k < |Nodes| ==> !equal(old(Contents())[k])
        invariant found == None && !freed
        decreases at
      {
        if equal(tmp.data) {
          if copyOut {
            found := Some(tmp.data);
          }
          if rmIfFound {
            Unlink(tmp, at);
            freed := !copyOut && tmp.dealloc;
          }
          return SUCCESS, found, freed, at;
        }
        tmp := tmp.next;
        at := at - 1;
      }
      return SUCCESS, None, false, -1;
    }

    /** Takes one element out of the chain. */
    method Unlink(tmp: ListElement<T>, ghost at: nat)
      requires Valid() && at < |Nodes| && tmp == Nodes[at]
      modifies this, Nodes
      ensures Valid() && Nodes == old(Nodes)[..at] + old(Nodes)[at + 1..]
      ensures tmp.next == null && tmp.prev == null
    {
      BypassNext(tmp, at);
      BypassPrev(tmp, at);
      Detach(tmp, at);
      Bypasses(Nodes, at);
      Nodes := Nodes[..at] + Nodes[at + 1..];
    }

    method BypassNext(tmp: ListElement<T>, ghost at: nat)
      requires Valid() && at < |Nodes| && tmp == Nodes[at]
      modifies this`pHead, Nodes`next
      ensures NextPast(Nodes, at) && PrevOk(Nodes) && tmp.next == old(tmp.next)
      ensures pHead == if at == |Nodes| - 1 then tmp.next else Nodes[|Nodes| - 1]
      ensures tmp.next == if at == 0 then null else Nodes[at - 1]
    {
      if tmp.prev == null {
        pHead := tmp.next;
      } else {
        tmp.prev.next := tmp.next;
      }
    }

    method BypassPrev(tmp: ListElement<T>, ghost at: nat)
      requires at < |Nodes| && tmp == Nodes[at] && Distinct(Nodes) && NextPast(Nodes, at) && PrevOk(Nodes)
      requires tmp.next == if at == 0 then null else Nodes[at - 1]
      requires pTail == Nodes[0]
      modifies this`pTail, Nodes`prev
      ensures NextPast(Nodes, at) && PrevPast(Nodes, at)
      ensures pTail == if at > 0 then Nodes[0] else if |Nodes| == 1 then null else Nodes[1]
    {
      if tmp.next == null {
        pTail := tmp.prev;
      } else {
        tmp.next.prev := tmp.prev;
      }
    }

    method Detach(tmp: ListElement<T>, ghost at: nat)
      requires at < |Nodes| && tmp == Nodes[at] && Distinct(Nodes) && NextPast(Nodes, at) && PrevPast(Nodes, at)
      modifies tmp
      ensures NextPast(Nodes, at) && PrevPast(Nodes, at) && tmp.next == null && tmp.prev == null
    {
      tmp.prev, tmp.next := null, null;
    }
  }
}
