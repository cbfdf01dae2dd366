/** What the pointer heap of gps/utils/LocHeap.cpp computes, on immutable trees.

  `ranks(a, b) > 0` means `a` ranks higher than `b` (the source's virtual `LocRankable::ranks`); elements
  stand for the addresses the heap stores, so `==` on them is the source's comparison by address.
 */
module HeapTree {
  import opened Options

  type Ranks<!T> = (T, T) -> int

  /** "Does not outrank" is a total preorder. */
  ghost predicate Ranking<T(!new)>(ranks: Ranks<T>) {
    && (forall a, b :: ranks(a, b) > 0 ==> ranks(b, a) <= 0)
    && (forall a, b, c :: ranks(a, b) <= 0 && ranks(b, c) <= 0 ==> ranks(a, c) <= 0)
  }

  /** `size` is the field mSize.  The source's comment says it excludes the node itself; the code counts it. */
  datatype Tree<T> = Leaf | Node(data: T, size: int, left: Tree<T>, right: Tree<T>)

  // ---------- abstraction and invariant ----------

  ghost function Elements<T>(t: Tree<T>): multiset<T> {
    match t
    case Leaf => multiset{}
    case Node(d, _, l, r) => multiset{d} + Elements(l) + Elements(r)
  }

  /** No child outranks its parent. */
  ghost predicate Ordered<T>(ranks: Ranks<T>, t: Tree<T>) {
    t.Node? ==>
      && Ordered(ranks, t.left) && Ordered(ranks, t.right)
      && (t.left.Node? ==> ranks(t.left.data, t.data) <= 0)
      && (t.right.Node? ==> ranks(t.right.data, t.data) <= 0)
  }

  ghost function Count<T>(t: Tree<T>): nat {
    if t.Leaf? then 0 else 1 + Count(t.left) + Count(t.right)
  }

  lemma {:induction false} CountIsElements<T>(t: Tree<T>)
    ensures Count(t) == |Elements(t)|
  {
    if t.Node? {
      CountIsElements(t.left);
      CountIsElements(t.right);
    }
  }

  /** mSize is the number of nodes, at every node. */
  ghost predicate Sized<T>(t: Tree<T>) {
    t.Node? ==> Sized(t.left) && Sized(t.right) && t.size == Count(t)
  }

  ghost predicate Heap<T>(ranks: Ranks<T>, t: Tree<T>) {
    Ordered(ranks, t) && Sized(t)
  }

  function Size<T>(t: Tree<T>): int {
    if t.Leaf? then 0 else t.size
  }

  // ---------- the operations ----------

  /** Which child takes the pushed node: an empty one, else the smaller. */
  predicate PushesLeft<T>(t: Tree<T>)
    requires t.Node?
  {
    t.left.Leaf? || (t.right.Node? && t.left.size <= t.right.size)
  }

  /** LocHeapNode::push, and the `!mTree` case of LocHeap::push. */
  function Push<T>(ranks: Ranks<T>, t: Tree<T>, x: T): Tree<T> {
    match t
    case Leaf => Node(x, 1, Leaf, Leaf)
    case Node(d, n, l, r) =>
      var high := if ranks(x, d) > 0 then x else d;
      var low := if ranks(x, d) > 0 then d else x;
      if PushesLeft(t) then Node(high, n + 1, Push(ranks, l, low), r)
      else Node(high, n + 1, l, Push(ranks, r, low))
  }

  /** Which child moves up: the only one, else the left if it outranks the right. */
  predicate PopsLeft<T>(ranks: Ranks<T>, t: Tree<T>)
    requires t.Node?
  {
    t.left.Node? && (t.right.Leaf? || ranks(t.left.data, t.right.data) > 0)
  }

  /** LocHeapNode::pop: the top's data leaves, a child's data moves up, recursively. */
  function Pop<T>(ranks: Ranks<T>, t: Tree<T>): Tree<T>
    requires t.Node?
  {
    if t.left.Leaf? && t.right.Leaf? then Leaf
    else if PopsLeft(ranks, t) then Node(t.left.data, t.size - 1, Pop(ranks, t.left), t.right)
    else Node(t.right.data, t.size - 1, t.left, Pop(ranks, t.right))
  }

  /** Pop never looks at the data it takes out. */
  lemma PopIgnoresTop<T>(ranks: Ranks<T>, t: Tree<T>, d: T)
    requires t.Node?
    ensures Pop(ranks, t.(data := d)) == Pop(ranks, t)
  {
  }

  /** LocHeapNode::remove: the tree that is left, and whether `x` was found. */
  function Remove<T(==)>(ranks: Ranks<T>, t: Tree<T>, x: T): (Tree<T>, bool) {
    match t
    case Leaf => (t, false)
    case Node(d, n, l, r) =>
      if x == d then (Pop(ranks, t), true)
      else if ranks(x, d) > 0 then (t, false)
      else
        var (l', inLeft) := Remove(ranks, l, x);
        if inLeft then (Node(d, n - 1, l', r), true)
        else
          var (r', inRight) := Remove(ranks, r, x);
          if inRight then (Node(d, n - 1, l, r'), true) else (t, false)
  }

  /** LocHeapNode::checkNodes. */
  predicate CheckNodes<T>(ranks: Ranks<T>, t: Tree<T>)
    requires t.Node?
  {
    && (t.left.Node? ==> ranks(t.left.data, t.data) <= 0 && CheckNodes(ranks, t.left))
    && (t.right.Node? ==> ranks(t.right.data, t.data) <= 0 && CheckNodes(ranks, t.right))
    && t.size - Size(t.left) - Size(t.right) == 1
  }

  // ---------- the top is maximal ----------

  lemma {:induction false} TopIsMaximal<T(!new)>(ranks: Ranks<T>, t: Tree<T>, x: T)
    requires Ranking(ranks) && t.Node? && Ordered(ranks, t) && x in Elements(t)
    ensures ranks(x, t.data) <= 0
  {
    if t.left.Node? && x in Elements(t.left) {
      TopIsMaximal(ranks, t.left, x);
    } else if t.right.Node? && x in Elements(t.right) {
      TopIsMaximal(ranks, t.right, x);
    } else {
      assert x == t.data;
      assert ranks(x, x) <= 0;
    }
  }

  lemma SizeIsCount<T>(t: Tree<T>)
    requires Sized(t)
    ensures Size(t) == Count(t)
  {
  }

  /** checkNodes says exactly that the tree is a heap. */
  lemma {:induction false} CheckNodesIsHeap<T>(ranks: Ranks<T>, t: Tree<T>)
    requires t.Node?
    ensures CheckNodes(ranks, t) <==> Heap(ranks, t)
  {
    if t.left.Node? {
      CheckNodesIsHeap(ranks, t.left);
    }
    if t.right.Node? {
      CheckNodesIsHeap(ranks, t.right);
    }
    assert t.left.Leaf? ==> Sized(t.left) && Ordered(ranks, t.left);
    assert t.right.Leaf? ==> Sized(t.right) && Ordered(ranks, t.right);
    if Sized(t.left) && Sized(t.right) {
      SizeIsCount(t.left);
      SizeIsCount(t.right);
    }
  }

  // ---------- push ----------

  lemma {:induction false} PushElements<T>(ranks: Ranks<T>, t: Tree<T>, x: T)
    ensures Elements(Push(ranks, t, x)) == Elements(t) + multiset{x}
    ensures Count(Push(ranks, t, x)) == Count(t) + 1
  {
    if t.Node? {
      var low := if ranks(x, t.data) > 0 then t.data else x;
      if PushesLeft(t) {
        PushElements(ranks, t.left, low);
      } else {
        PushElements(ranks, t.right, low);
      }
    }
  }

  /** The top after a push. */
  lemma PushTop<T>(ranks: Ranks<T>, t: Tree<T>, x: T)
    ensures Push(ranks, t, x).Node?
    ensures Push(ranks, t, x).data == if t.Leaf? || ranks(x, t.data) > 0 then x else t.data
  {
  }

  lemma {:induction false} PushKeepsOrder<T(!new)>(ranks: Ranks<T>, t: Tree<T>, x: T)
    requires Ranking(ranks) && Ordered(ranks, t)
    ensures Ordered(ranks, Push(ranks, t, x))
  {
    if t.Node? {
      var high := if ranks(x, t.data) > 0 then x else t.data;
      var low := if ranks(x, t.data) > 0 then t.data else x;
      assert ranks(low, high) <= 0 && ranks(t.data, high) <= 0 by {
        assert ranks(t.data, t.data) <= 0;
      }
      var child := if PushesLeft(t) then t.left else t.right;
      PushKeepsOrder(ranks, child, low);
      PushTop(ranks, child, low);
      assert child.Node? ==> ranks(child.data, high) <= 0;
      var other := if PushesLeft(t) then t.right else t.left;
      assert other.Node? ==> ranks(other.data, high) <= 0;
    }
  }

  lemma {:induction false} PushKeepsSize<T>(ranks: Ranks<T>, t: Tree<T>, x: T)
    requires Sized(t)
    ensures Sized(Push(ranks, t, x))
  {
    PushElements(ranks, t, x);
    if t.Node? {
      var low := if ranks(x, t.data) > 0 then t.data else x;
      if PushesLeft(t) {
        PushKeepsSize(ranks, t.left, low);
      } else {
        PushKeepsSize(ranks, t.right, low);
      }
    }
  }

  // ---------- pop ----------

  lemma {:induction false} PopElements<T>(ranks: Ranks<T>, t: Tree<T>)
    requires t.Node?
    ensures Elements(t) == Elements(Pop(ranks, t)) + multiset{t.data}
    ensures Count(Pop(ranks, t)) == Count(t) - 1
  {
    if t.left.Leaf? && t.right.Leaf? {
    } else if PopsLeft(ranks, t) {
      PopElements(ranks, t.left);
    } else {
      PopElements(ranks, t.right);
    }
  }

  lemma PopTop<T(!new)>(ranks: Ranks<T>, t: Tree<T>)
    requires Ranking(ranks) && t.Node? && Ordered(ranks, t) && Pop(ranks, t).Node?
    ensures ranks(Pop(ranks, t).data, t.data) <= 0
    ensures t.left.Node? ==> ranks(t.left.data, Pop(ranks, t).data) <= 0
    ensures t.right.Node? ==> ranks(t.right.data, Pop(ranks, t).data) <= 0
  {
    assert ranks(Pop(ranks, t).data, Pop(ranks, t).data) <= 0;
  }

  lemma {:induction false} PopKeepsOrder<T(!new)>(ranks: Ranks<T>, t: Tree<T>)
    requires Ranking(ranks) && t.Node? && Ordered(ranks, t)
    ensures Ordered(ranks, Pop(ranks, t))
  {
    if t.left.Leaf? && t.right.Leaf? {
    } else {
      var child := if PopsLeft(ranks, t) then t.left else t.right;
      PopKeepsOrder(ranks, child);
      PopTop(ranks, t);
      if Pop(ranks, child).Node? {
        PopTop(ranks, child);
      }
    }
  }

  lemma {:induction false} PopKeepsSize<T>(ranks: Ranks<T>, t: Tree<T>)
    requires t.Node? && Sized(t)
    ensures Sized(Pop(ranks, t))
  {
    PopElements(ranks, t);
    if t.left.Leaf? && t.right.Leaf? {
    } else if PopsLeft(ranks, t) {
      PopKeepsSize(ranks, t.left);
    } else {
      PopKeepsSize(ranks, t.right);
    }
  }

  // ---------- remove ----------

  lemma {:induction false} RemoveElements<T>(ranks: Ranks<T>, t: Tree<T>, x: T)
    ensures var (t', found) := Remove(ranks, t, x);
      if found then Elements(t) == Elements(t') + multiset{x} && Count(t') == Count(t) - 1 else t' == t
  {
    if t.Node? {
      if x == t.data {
        PopElements(ranks, t);
      } else if ranks(x, t.data) <= 0 {
        RemoveElements(ranks, t.left, x);
        if !Remove(ranks, t.left, x).1 {
          RemoveElements(ranks, t.right, x);
        }
      }
    }
  }

  lemma RemoveNothing<T>(ranks: Ranks<T>, t: Tree<T>, x: T)
    requires !Remove(ranks, t, x).1
    ensures Remove(ranks, t, x).0 == t
  {
    RemoveElements(ranks, t, x);
  }

  /** The pruning is complete: in a heap, what outranks the top of a subtree is not in it. */
  lemma {:induction false} RemoveFinds<T(!new)>(ranks: Ranks<T>, t: Tree<T>, x: T)
    requires Ranking(ranks) && Ordered(ranks, t)
    ensures Remove(ranks, t, x).1 <==> x in Elements(t)
  {
    RemoveElements(ranks, t, x);
    if t.Node? && x in Elements(t) && x != t.data {
      TopIsMaximal(ranks, t, x);
      RemoveFinds(ranks, t.left, x);
      RemoveFinds(ranks, t.right, x);
    }
  }

  /** Removing anything but the top leaves the top in place; removing the top raises nothing above it. */
  lemma RemoveTop<T(!new)>(ranks: Ranks<T>, t: Tree<T>, x: T)
    requires Ranking(ranks) && t.Node? && Ordered(ranks, t)
    ensures var t' := Remove(ranks, t, x).0;
      if x == t.data then t'.Node? ==> ranks(t'.data, t.data) <= 0 else t'.Node? && t'.data == t.data
  {
    if x == t.data && Pop(ranks, t).Node? {
      PopTop(ranks, t);
    }
  }

  lemma {:induction false} RemoveKeepsOrder<T(!new)>(ranks: Ranks<T>, t: Tree<T>, x: T)
    requires Ranking(ranks) && Ordered(ranks, t)
    ensures Ordered(ranks, Remove(ranks, t, x).0)
  {
    if t.Node? {
      if x == t.data {
        PopKeepsOrder(ranks, t);
      } else if ranks(x, t.data) <= 0 {
        if t.left.Node? {
          RemoveKeepsOrder(ranks, t.left, x);
          RemoveTop(ranks, t.left, x);
        }
        if t.right.Node? && !Remove(ranks, t.left, x).1 {
          RemoveKeepsOrder(ranks, t.right, x);
          RemoveTop(ranks, t.right, x);
        }
      }
    }
  }

  lemma {:induction false} RemoveKeepsSize<T>(ranks: Ranks<T>, t: Tree<T>, x: T)
    requires Sized(t)
    ensures Sized(Remove(ranks, t, x).0)
  {
    RemoveElements(ranks, t, x);
    if t.Node? {
      if x == t.data {
        PopKeepsSize(ranks, t);
      } else if ranks(x, t.data) <= 0 {
        RemoveKeepsSize(ranks, t.left, x);
        if !Remove(ranks, t.left, x).1 {
          RemoveKeepsSize(ranks, t.right, x);
        }
      }
    }
  }

  // ---------- which node changes ----------

  /** Push keeps the higher ranked datum at the top, the old one on a tie, and grows the smaller subtree, the left
      one on a tie or if there is none. */
  lemma PushGrows<T(!new)>(ranks: Ranks<T>, t: Tree<T>, x: T)
    requires t.Node? && Sized(t)
    ensures var t' := Push(ranks, t, x);
      && t'.Node? && t'.data == (if ranks(x, t.data) > 0 then x else t.data)
      && if t.left.Leaf? || (t.right.Node? && Count(t.left) <= Count(t.right))
         then t'.right == t.right && Count(t'.left) == Count(t.left) + 1
         else t'.left == t.left && Count(t'.right) == Count(t.right) + 1
  {
    SizeIsCount(t.left);
    SizeIsCount(t.right);
    var low := if ranks(x, t.data) > 0 then t.data else x;
    PushElements(ranks, t.left, low);
    PushElements(ranks, t.right, low);
  }

  /** Pop moves up the top of the only subtree, or of the higher ranked one, of the right one on a tie, and leaves
      the other subtree alone. */
  lemma PopMovesUp<T(!new)>(ranks: Ranks<T>, t: Tree<T>)
    requires t.Node?
    ensures t.left.Leaf? && t.right.Leaf? ==> Pop(ranks, t) == Leaf
    ensures t.left.Node? && (t.right.Leaf? || ranks(t.left.data, t.right.data) > 0) ==>
      Pop(ranks, t).Node? && Pop(ranks, t).data == t.left.data && Pop(ranks, t).right == t.right
    ensures t.right.Node? && (t.left.Leaf? || ranks(t.left.data, t.right.data) <= 0) ==>
      Pop(ranks, t).Node? && Pop(ranks, t).data == t.right.data && Pop(ranks, t).left == t.left
  {
  }

  /** Remove takes a datum below the top from the left subtree if it is there, else from the right. */
  lemma RemoveTakesLeftFirst<T(!new)>(ranks: Ranks<T>, t: Tree<T>, x: T)
    requires Ranking(ranks) && t.Node? && Ordered(ranks, t) && x != t.data
    ensures var t' := Remove(ranks, t, x).0;
      && t'.Node? && t'.data == t.data
      && if x in Elements(t.left) then t'.right == t.right && Elements(t'.left) == Elements(t.left) - multiset{x}
         else t'.left == t.left && Elements(t'.right) == Elements(t.right) - multiset{x}
  {
    RemoveFrom(ranks, t.left, x);
    RemoveFrom(ranks, t.right, x);
    if x in Elements(t.left) || x in Elements(t.right) {
      assert x in Elements(t);
      TopIsMaximal(ranks, t, x);
    } else {
      assert x !in Elements(t);
      RemoveFrom(ranks, t, x);
    }
  }

  lemma RemoveFrom<T(!new)>(ranks: Ranks<T>, t: Tree<T>, x: T)
    requires Ranking(ranks) && Ordered(ranks, t)
    ensures var (t', found) := Remove(ranks, t, x);
      && (found <==> x in Elements(t)) && (!found ==> t' == t) && Elements(t') == Elements(t) - multiset{x}
  {
    RemoveFinds(ranks, t, x);
    RemoveElements(ranks, t, x);
    OneTaken(Elements(t), Elements(Remove(ranks, t, x).0), x);
  }

  lemma OneTaken<T>(m: multiset<T>, m': multiset<T>, x: T)
    ensures m == m' + multiset{x} ==> m' == m - multiset{x}
    ensures x !in m ==> m - multiset{x} == m
  {
  }

  // ---------- any sequence of operations ----------

  datatype Op<T> = PushOp(x: T) | PopOp | RemoveOp(x: T) | PeekOp

  /** One call on the heap: the tree afterwards and the pointer returned (`None` is NULL or nothing). */
  function Apply<T(==)>(ranks: Ranks<T>, t: Tree<T>, op: Op<T>): (Tree<T>, Option<T>) {
    match op
    case PushOp(x) => (Push(ranks, t, x), None)
    case PopOp => if t.Leaf? then (Leaf, None) else (Pop(ranks, t), Some(t.data))
    case RemoveOp(x) =>
      var (t', found) := Remove(ranks, t, x);
      (t', if found then Some(x) else None)
    case PeekOp => (t, if t.Leaf? then None else Some(t.data))
  }

  function Run<T(==)>(ranks: Ranks<T>, t: Tree<T>, ops: seq<Op<T>>): (Tree<T>, seq<Option<T>>)
    decreases |ops|
  {
    if ops == [] then (t, [])
    else
      var (t', r) := Apply(ranks, t, ops[0]);
      var (t'', rs) := Run(ranks, t', ops[1..]);
      (t'', [r] + rs)
  }

  ghost predicate Maximal<T(!new)>(ranks: Ranks<T>, m: multiset<T>, x: T) {
    x in m && forall y :: y in m ==> ranks(y, x) <= 0
  }

  /** A priority multiset: what a call may return and leave behind, whatever the representation. */
  ghost predicate Abstractly<T(!new)>(ranks: Ranks<T>, m: multiset<T>, op: Op<T>, m': multiset<T>, r: Option<T>) {
    match op
    case PushOp(x) => m' == m + multiset{x} && r == None
    case PopOp =>
      if m == multiset{} then m' == m && r == None
      else r.Some? && Maximal(ranks, m, r.value) && m' == m - multiset{r.value}
    case RemoveOp(x) => m' == m - multiset{x} && r == (if x in m then Some(x) else None)
    case PeekOp => m' == m && if m == multiset{} then r == None else r.Some? && Maximal(ranks, m, r.value)
  }

  lemma TopIsMaximalOf<T(!new)>(ranks: Ranks<T>, t: Tree<T>)
    requires Ranking(ranks) && t.Node? && Ordered(ranks, t)
    ensures Maximal(ranks, Elements(t), t.data)
  {
    forall y | y in Elements(t) ensures ranks(y, t.data) <= 0 {
      TopIsMaximal(ranks, t, y);
    }
  }

  lemma PushRefines<T(!new)>(ranks: Ranks<T>, t: Tree<T>, x: T)
    requires Ranking(ranks) && Heap(ranks, t)
    ensures var t' := Push(ranks, t, x);
      Heap(ranks, t') && Abstractly(ranks, Elements(t), PushOp(x), Elements(t'), None)
  {
    PushElements(ranks, t, x);
    PushKeepsOrder(ranks, t, x);
    PushKeepsSize(ranks, t, x);
  }

  lemma PopRefines<T(!new)>(ranks: Ranks<T>, t: Tree<T>)
    requires Ranking(ranks) && Heap(ranks, t) && t.Node?
    ensures var t' := Pop(ranks, t);
      Heap(ranks, t') && Abstractly(ranks, Elements(t), PopOp, Elements(t'), Some(t.data))
  {
    PopElements(ranks, t);
    PopKeepsOrder(ranks, t);
    PopKeepsSize(ranks, t);
    TopIsMaximalOf(ranks, t);
  }

  lemma RemoveRefines<T(!new)>(ranks: Ranks<T>, t: Tree<T>, x: T)
    requires Ranking(ranks) && Heap(ranks, t)
    ensures var (t', found) := Remove(ranks, t, x);
      && Heap(ranks, t')
      && Abstractly(ranks, Elements(t), RemoveOp(x), Elements(t'), if found then Some(x) else None)
  {
    assert Heap(ranks, Remove(ranks, t, x).0) by {
      RemoveKeepsOrder(ranks, t, x);
      RemoveKeepsSize(ranks, t, x);
    }
    assert Elements(Remove(ranks, t, x).0) == Elements(t) - multiset{x} by {
      RemoveElements(ranks, t, x);
      RemoveFinds(ranks, t, x);
    }
    RemoveFinds(ranks, t, x);
  }

  lemma ApplyRefines<T(!new)>(ranks: Ranks<T>, t: Tree<T>, op: Op<T>)
    requires Ranking(ranks) && Heap(ranks, t)
    ensures var (t', r) := Apply(ranks, t, op);
      Heap(ranks, t') && Abstractly(ranks, Elements(t), op, Elements(t'), r)
  {
    match op
    case PushOp(x) => PushRefines(ranks, t, x);
    case PopOp =>
      if t.Node? {
        PopRefines(ranks, t);
      }
    case RemoveOp(x) => RemoveRefines(ranks, t, x);
    case PeekOp =>
      if t.Node? {
        TopIsMaximalOf(ranks, t);
      }
  }

  /** The calls `ops`, made on a priority multiset `m`, may return `rs` and leave `m'`. */
  ghost predicate History<T(!new)>(ranks: Ranks<T>, m: multiset<T>, ops: seq<Op<T>>, rs: seq<Option<T>>, m': multiset<T>)
    decreases |ops|
  {
    if ops == [] then rs == [] && m' == m
    else rs != [] && exists mid :: Abstractly(ranks, m, ops[0], mid, rs[0]) && History(ranks, mid, ops[1..], rs[1..], m')
  }

  /** Every sequence of calls on the tree is a history of a priority multiset and leaves a heap. */
  lemma {:induction false} RunRefines<T(!new)>(ranks: Ranks<T>, t: Tree<T>, ops: seq<Op<T>>)
    requires Ranking(ranks) && Heap(ranks, t)
    ensures var (t', rs) := Run(ranks, t, ops);
      Heap(ranks, t') && History(ranks, Elements(t), ops, rs, Elements(t'))
    decreases |ops|
  {
    if ops != [] {
      ApplyRefines(ranks, t, ops[0]);
      var (next, r) := Apply(ranks, t, ops[0]);
      RunRefines(ranks, next, ops[1..]);
      var (t', rs) := Run(ranks, t, ops);
      assert rs[1..] == Run(ranks, next, ops[1..]).1;
      assert Abstractly(ranks, Elements(t), ops[0], Elements(next), rs[0]);
    }
  }

  // ---------- balance of a heap built by pushes ----------

  /** At every node the left subtree is as large as the right or one larger. */
  ghost predicate Braun<T>(t: Tree<T>) {
    t.Node? ==> Braun(t.left) && Braun(t.right) && Count(t.right) <= Count(t.left) <= Count(t.right) + 1
  }

  ghost function Height<T>(t: Tree<T>): nat {
    if t.Leaf? then 0
    else 1 + if Height(t.left) > Height(t.right) then Height(t.left) else Height(t.right)
  }

  function Pow2(n: nat): nat {
    if n == 0 then 1 else 2 * Pow2(n - 1)
  }

  lemma {:induction false} PushKeepsBraun<T>(ranks: Ranks<T>, t: Tree<T>, x: T)
    requires Braun(t) && Sized(t)
    ensures Braun(Push(ranks, t, x))
  {
    if t.Node? {
      var low := if ranks(x, t.data) > 0 then t.data else x;
      SizeIsCount(t.left);
      SizeIsCount(t.right);
      if PushesLeft(t) {
        PushKeepsBraun(ranks, t.left, low);
        PushElements(ranks, t.left, low);
      } else {
        PushKeepsBraun(ranks, t.right, low);
        PushElements(ranks, t.right, low);
      }
    }
  }

  lemma {:induction false} Pow2Positive(n: nat)
    ensures Pow2(n) >= 1
  {
    if n > 0 {
      Pow2Positive(n - 1);
    }
  }

  /** The heights of Braun trees grow with their sizes. */
  lemma {:induction false} BraunHeight<T>(t: Tree<T>, h: nat)
    requires Braun(t)
    ensures Count(t) >= Pow2(h) <==> Height(t) > h
    decreases t
  {
    if t.Leaf? {
      Pow2Positive(h);
    } else if h > 0 {
      BraunHeight(t.left, h - 1);
      BraunHeight(t.right, h - 1);
    }
  }

  function PushAll<T>(ranks: Ranks<T>, xs: seq<T>): Tree<T> {
    if xs == [] then Leaf else Push(ranks, PushAll(ranks, xs[..|xs| - 1]), xs[|xs| - 1])
  }

  /** A heap of n > 0 elements built only by pushes has height floor(log2 n) + 1. */
  lemma {:induction false} PushAllHeight<T>(ranks: Ranks<T>, xs: seq<T>)
    ensures var t := PushAll(ranks, xs);
      Sized(t) && Braun(t) && Count(t) == |xs| && (xs != [] ==> Pow2(Height(t) - 1) <= |xs| < Pow2(Height(t)))
  {
    if xs != [] {
      PushAllHeight(ranks, xs[..|xs| - 1]);
      PushHeight(ranks, PushAll(ranks, xs[..|xs| - 1]), xs[|xs| - 1]);
    }
  }

  lemma PushHeight<T>(ranks: Ranks<T>, t: Tree<T>, x: T)
    requires Sized(t) && Braun(t)
    ensures var t' := Push(ranks, t, x);
      && Sized(t') && Braun(t') && Count(t') == Count(t) + 1
      && Height(t') > 0 && Pow2(Height(t') - 1) <= Count(t') < Pow2(Height(t'))
  {
    PushKeepsBraun(ranks, t, x);
    PushKeepsSize(ranks, t, x);
    PushElements(ranks, t, x);
    HeightBounds(Push(ranks, t, x));
  }

  lemma HeightBounds<T>(t: Tree<T>)
    requires Braun(t) && t.Node?
    ensures Height(t) > 0 && Pow2(Height(t) - 1) <= Count(t) < Pow2(Height(t))
  {
    var h := Height(t);
    BraunHeight(t, h - 1);
    BraunHeight(t, h);
  }
}
