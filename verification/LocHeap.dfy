/** The pointer heap of gps/utils/LocHeap.cpp, node by node, proved to compute the trees of `HeapTree`.

  A C++ reference to a child link (`LocHeapNode*& top`) becomes an extra result, the new value of the link,
  which the caller stores.  Where the source picks a subtree and continues with it in one body, the part for
  each side is a method of its own (`PushLeft`, `PushRight`, ...).
 */
module LocHeapModule {
  import H = HeapTree
  import opened Options

  class LocHeapNode<T(==)> {
    var mSize: int
    var mLeft: LocHeapNode?<T>
    var mRight: LocHeapNode?<T>
    var mData: T

    ghost var Repr: set<LocHeapNode<T>>
    ghost var Tree: H.Tree<T>

    static ghost function TreeOf(n: LocHeapNode?<T>): H.Tree<T>
      reads n
    {
      if n == null then H.Leaf else n.Tree
    }

    static ghost function ReprOf(n: LocHeapNode?<T>): set<LocHeapNode<T>>
      reads n
    {
      if n == null then {} else n.Repr
    }

    ghost predicate Valid()
      reads this, Repr
      ensures Valid() ==> this in Repr && Tree.Node? && Tree.data == mData && Tree.size == mSize
    {
      && this in Repr
      && (mLeft != null ==> mLeft in Repr && mLeft.Repr <= Repr && this !in mLeft.Repr && mLeft.Valid())
      && (mRight != null ==> mRight in Repr && mRight.Repr <= Repr && this !in mRight.Repr && mRight.Valid())
      && ReprOf(mLeft) !! ReprOf(mRight)
      && Tree == H.Node(mData, mSize, TreeOf(mLeft), TreeOf(mRight))
    }

    constructor (data: T)
      ensures Valid() && fresh(Repr) && Repr == {this}
      ensures mLeft == null && mRight == null && Tree == H.Node(data, 1, H.Leaf, H.Leaf)
    {
      mSize, mLeft, mRight, mData := 1, null, null, data;
      Repr, Tree := {this}, H.Node(data, 1, H.Leaf, H.Leaf);
    }

    /** Recomputes the ghost fields from the children. */
    ghost method Relink()
      requires mLeft != null ==> mLeft.Valid() && this !in mLeft.Repr
      requires mRight != null ==> mRight.Valid() && this !in mRight.Repr
      requires ReprOf(mLeft) !! ReprOf(mRight)
      modifies this`Repr, this`Tree
      ensures Valid() && Repr == {this} + old(ReprOf(mLeft)) + old(ReprOf(mRight))
      ensures Tree == H.Node(mData, mSize, old(TreeOf(mLeft)), old(TreeOf(mRight)))
    {
      Repr := {this} + ReprOf(mLeft) + ReprOf(mRight);
      Tree := H.Node(mData, mSize, TreeOf(mLeft), TreeOf(mRight));
    }

    /** Exchanges the data of two nodes; no link changes. */
    method Swap(node: LocHeapNode<T>)
      requires node != this
      modifies this`mData, this`Tree, node`mData, node`Tree
      ensures mData == old(node.mData) && node.mData == old(mData)
      ensures old(Tree.Node?) ==> Tree == old(Tree).(data := mData)
      ensures old(node.Tree.Node?) ==> node.Tree == old(node.Tree).(data := node.mData)
    {
      mData, node.mData := node.mData, mData;
      Tree := if Tree.Node? then Tree.(data := mData) else Tree;
      node.Tree := if node.Tree.Node? then node.Tree.(data := node.mData) else node.Tree;
    }

    // ---------- push ----------

    method Push(ranks: H.Ranks<T>, node: LocHeapNode<T>)
      requires Valid() && node !in Repr && node.Valid() && node.Tree == H.Node(node.mData, 1, H.Leaf, H.Leaf)
      requires node.Repr == {node}
      modifies Repr, node
      ensures Valid() && Repr <= old(Repr) + {node}
      ensures Tree == H.Push(ranks, old(Tree), old(node.mData))
      decreases Repr, 1
    {
      if ranks(node.mData, mData) > 0 {
        Swap(node);
      }
      if mLeft == null || (mRight != null && mLeft.mSize <= mRight.mSize) {
        PushLeft(ranks, node);
      } else {
        PushRight(ranks, node);
      }
    }

    method PushLeft(ranks: H.Ranks<T>, node: LocHeapNode<T>)
      requires Valid() && node !in Repr && node.Valid() && node.Tree == H.Node(node.mData, 1, H.Leaf, H.Leaf)
      requires node.Repr == {node}
      modifies Repr, node
      ensures Valid() && Repr <= old(Repr) + {node}
      ensures Tree == H.Node(old(mData), old(mSize) + 1, H.Push(ranks, old(Tree).left, old(node.mData)), old(Tree).right)
      decreases Repr, 0
    {
      mSize := mSize + 1;
      if mLeft == null {
        mLeft := node;
        Relink();
      } else {
        mLeft.Push(ranks, node);
        Relink();
      }
    }

    method PushRight(ranks: H.Ranks<T>, node: LocHeapNode<T>)
      requires Valid() && node !in Repr && node.Valid() && node.Tree == H.Node(node.mData, 1, H.Leaf, H.Leaf)
      requires node.Repr == {node}
      modifies Repr, node
      ensures Valid() && Repr <= old(Repr) + {node}
      ensures Tree == H.Node(old(mData), old(mSize) + 1, old(Tree).left, H.Push(ranks, old(Tree).right, old(node.mData)))
      decreases Repr, 0
    {
      mSize := mSize + 1;
      if mRight == null {
        mRight := node;
        Relink();
      } else {
        mRight.Push(ranks, node);
        Relink();
      }
    }

    // ---------- pop ----------

    /** The node taken out is always a leaf, so deleting it frees no other node. */
    static method Pop(ranks: H.Ranks<T>, top: LocHeapNode<T>) returns (popped: LocHeapNode<T>, newTop: LocHeapNode?<T>)
      requires top.Valid()
      modifies top.Repr
      ensures popped in old(top.Repr) && popped.mLeft == null && popped.mRight == null
      ensures popped.mData == old(top.mData)
      ensures newTop == null || newTop == top
      ensures newTop != null ==> newTop.Valid()
      ensures TreeOf(newTop) == H.Pop(ranks, old(top.Tree))
      ensures popped !in ReprOf(newTop) && ReprOf(newTop) <= old(top.Repr)
      decreases top.Repr, 1
    {
      top.mSize := top.mSize - 1;
      if top.mLeft != null || top.mRight != null {
        newTop := top;
        top.Tree := top.Tree.(size := top.mSize);
        if top.mLeft != null && (top.mRight == null || ranks(top.mLeft.mData, top.mRight.mData) > 0) {
          popped := top.PopLeft(ranks);
        } else {
          popped := top.PopRight(ranks);
        }
      } else {
        popped, newTop := top, null;
      }
    }

    method PopLeft(ranks: H.Ranks<T>) returns (popped: LocHeapNode<T>)
      requires Valid() && mLeft != null
      modifies Repr
      ensures popped in old(Repr) && popped.mLeft == null && popped.mRight == null && popped.mData == old(mData)
      ensures Valid() && popped !in Repr && Repr <= old(Repr)
      ensures var t := old(Tree); Tree == H.Node(t.left.data, t.size, H.Pop(ranks, t.left), t.right)
      decreases Repr, 0
    {
      H.PopIgnoresTop(ranks, mLeft.Tree, mData);
      ghost var below := H.Pop(ranks, mLeft.Tree);
      Swap(mLeft);
      assert mLeft.Valid();
      var newSub;
      popped, newSub := Pop(ranks, mLeft);
      assert TreeOf(newSub) == below;
      mLeft := newSub;
      Relink();
    }

    method PopRight(ranks: H.Ranks<T>) returns (popped: LocHeapNode<T>)
      requires Valid() && mRight != null
      modifies Repr
      ensures popped in old(Repr) && popped.mLeft == null && popped.mRight == null && popped.mData == old(mData)
      ensures Valid() && popped !in Repr && Repr <= old(Repr)
      ensures var t := old(Tree); Tree == H.Node(t.right.data, t.size, t.left, H.Pop(ranks, t.right))
      decreases Repr, 0
    {
      H.PopIgnoresTop(ranks, mRight.Tree, mData);
      ghost var below := H.Pop(ranks, mRight.Tree);
      Swap(mRight);
      assert mRight.Valid();
      var newSub;
      popped, newSub := Pop(ranks, mRight);
      assert TreeOf(newSub) == below;
      mRight := newSub;
      Relink();
    }

    // ---------- remove ----------

    /** Takes out the node holding `data`, compared by identity; again always a leaf node. */
    static method Remove(ranks: H.Ranks<T>, top: LocHeapNode<T>, data: T)
      returns (removed: LocHeapNode?<T>, newTop: LocHeapNode?<T>)
      requires top.Valid()
      modifies top.Repr
      ensures (removed != null) == H.Remove(ranks, old(top.Tree), data).1
      ensures removed != null ==> removed in old(top.Repr) && removed !in ReprOf(newTop)
      ensures removed != null ==> removed.mLeft == null && removed.mRight == null && removed.mData == data
      ensures newTop == null || newTop == top
      ensures newTop != null ==> newTop.Valid()
      ensures TreeOf(newTop) == H.Remove(ranks, old(top.Tree), data).0
      ensures ReprOf(newTop) <= old(top.Repr)
      decreases top.Repr, 1
    {
      removed, newTop := null, top;
      if data == top.mData {
        removed, newTop := Pop(ranks, top);
      } else if ranks(data, top.mData) <= 0 {
        if top.mLeft != null {
          removed := top.RemoveLeft(ranks, data);
        }
        if removed == null && top.mRight != null {
          removed := top.RemoveRight(ranks, data);
        }
      }
    }

    method RemoveLeft(ranks: H.Ranks<T>, data: T) returns (removed: LocHeapNode?<T>)
      requires Valid() && mLeft != null
      modifies Repr
      ensures removed != null ==> removed in old(Repr) && removed !in Repr
      ensures removed != null ==> removed.mLeft == null && removed.mRight == null && removed.mData == data
      ensures Valid() && Repr <= old(Repr)
      ensures var (l, found) := H.Remove(ranks, old(Tree).left, data);
        && found == (removed != null)
        && Tree == if found then old(Tree).(size := old(Tree).size - 1, left := l) else old(Tree)
      decreases Repr, 0
    {
      ghost var t := Tree;
      var newSub;
      removed, newSub := Remove(ranks, mLeft, data);
      assert mRight != null ==> mRight.Valid() && ReprOf(mRight) == old(ReprOf(mRight));
      if removed != null {
        mLeft := newSub;
        mSize := mSize - 1;
      } else {
        H.RemoveNothing(ranks, t.left, data);
      }
      Relink();
    }

    method RemoveRight(ranks: H.Ranks<T>, data: T) returns (removed: LocHeapNode?<T>)
      requires Valid() && mRight != null
      modifies Repr
      ensures removed != null ==> removed in old(Repr) && removed !in Repr
      ensures removed != null ==> removed.mLeft == null && removed.mRight == null && removed.mData == data
      ensures Valid() && Repr <= old(Repr)
      ensures var (r, found) := H.Remove(ranks, old(Tree).right, data);
        && found == (removed != null)
        && Tree == if found then old(Tree).(size := old(Tree).size - 1, right := r) else old(Tree)
      decreases Repr, 0
    {
      ghost var t := Tree;
      var newSub;
      removed, newSub := Remove(ranks, mRight, data);
      assert mLeft != null ==> mLeft.Valid() && ReprOf(mLeft) == old(ReprOf(mLeft));
      if removed != null {
        mRight := newSub;
        mSize := mSize - 1;
      } else {
        H.RemoveNothing(ranks, t.right, data);
      }
      Relink();
    }

    /** checkNodes, by reading the nodes. */
    method CheckNodes(ranks: H.Ranks<T>) returns (ok: bool)
      requires Valid()
      ensures ok == H.CheckNodes(ranks, Tree)
      decreases Repr
    {
      var totalSize := mSize;
      if mLeft != null {
        var sub := ranks(mLeft.mData, mData) <= 0;
        if sub {
          sub := mLeft.CheckNodes(ranks);
        }
        if !sub {
          return false;
        }
        totalSize := totalSize - mLeft.mSize;
      }
      if mRight != null {
        var sub := ranks(mRight.mData, mData) <= 0;
        if sub {
          sub := mRight.CheckNodes(ranks);
        }
        if !sub {
          return false;
        }
        totalSize := totalSize - mRight.mSize;
      }
      return totalSize == 1;
    }
  }

  /** LocHeap, for elements compared by `ranks`.  Each call is a call of `H.Apply`, so `H.RunRefines` says what
      any sequence of calls does to the contents. */
  class LocHeap<T(==)> {
    const ranks: H.Ranks<T>
    var mTree: LocHeapNode?<T>

    ghost function Tree(): H.Tree<T>
      reads this, mTree
    {
      LocHeapNode<T>.TreeOf(mTree)
    }

    ghost function Repr(): set<object>
      reads this, mTree
    {
      {this} + LocHeapNode<T>.ReprOf(mTree)
    }

    ghost predicate Valid()
      reads this, mTree, LocHeapNode<T>.ReprOf(mTree)
    {
      mTree != null ==> mTree.Valid()
    }

    constructor (ranks: H.Ranks<T>)
      ensures Valid() && fresh(Repr()) && Tree() == H.Leaf && this.ranks == ranks
    {
      this.ranks := ranks;
      mTree := null;
    }

    method Push(x: T)
      requires Valid()
      modifies Repr()
      ensures Valid() && fresh(Repr() - old(Repr()))
      ensures Tree() == H.Apply(ranks, old(Tree()), H.PushOp(x)).0
    {
      var node := new LocHeapNode(x);
      if mTree == null {
        mTree := node;
      } else {
        mTree.Push(ranks, node);
      }
    }

    /** `None` stands for NULL. */
    method Peek() returns (top: Option<T>)
      requires Valid()
      ensures top == H.Apply(ranks, Tree(), H.PeekOp).1
    {
      top := if mTree == null then None else Some(mTree.mData);
    }

    method Pop() returns (top: Option<T>)
      requires Valid()
      modifies Repr()
      ensures Valid() && Repr() <= old(Repr())
      ensures (Tree(), top) == H.Apply(ranks, old(Tree()), H.PopOp)
    {
      top := None;
      if mTree != null {
        var node, newTop := LocHeapNode.Pop(ranks, mTree);
        mTree := newTop;
        top := Some(node.mData);
      }
    }

    method Remove(x: T) returns (removed: Option<T>)
      requires Valid()
      modifies Repr()
      ensures Valid() && Repr() <= old(Repr())
      ensures (Tree(), removed) == H.Apply(ranks, old(Tree()), H.RemoveOp(x))
    {
      removed := None;
      if mTree != null {
        var node, newTop := LocHeapNode.Remove(ranks, mTree, x);
        mTree := newTop;
        if node != null {
          removed := Some(node.mData);
        }
      }
    }

    /** The unit-test check: true exactly on heaps, hence (`H.RunRefines`) after any sequence of calls. */
    method CheckTree() returns (ok: bool)
      requires Valid()
      ensures ok <==> H.Heap(ranks, Tree())
    {
      ok := true;
      if mTree != null {
        ok := mTree.CheckNodes(ranks);
        H.CheckNodesIsHeap(ranks, Tree());
      }
    }

    method GetTreeSize() returns (n: int)
      requires Valid() && H.Heap(ranks, Tree())
      ensures n == |H.Elements(Tree())|
    {
      H.SizeIsCount(Tree());
      H.CountIsElements(Tree());
      n := if mTree == null then 0 else mTree.mSize;
    }
  }
}
