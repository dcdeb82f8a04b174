/** The heap nodes of 数据结构/tree.cpp: rotations and insertion rewrite `left` and `right` in place. */
module BinaryTreeNodes {
  import opened Basics
  import opened Tree

  class BinaryTreeNode {
    var value: int
    var left: BinaryTreeNode?
    var right: BinaryTreeNode?

    ghost var shape: Tree
    ghost var repr: set<BinaryTreeNode>

    constructor (vl: int)
      ensures Valid() && repr == {this} && shape == Node(Leaf, vl, Leaf)
    {
      value, left, right := vl, null, null;
      shape, repr := Node(Leaf, vl, Leaf), {this};
    }

    /** The nodes below `this` form a finite tree without sharing, of the recorded shape. */
    ghost predicate Valid()
      reads this, repr
      decreases repr
    {
      && this in repr
      && (left != null ==> left in repr && this !in left.repr && left.repr <= repr && left.Valid())
      && (right != null ==> right in repr && this !in right.repr && right.repr <= repr && right.Valid())
      && Repr(left) !! Repr(right)
      && repr == {this} + Repr(left) + Repr(right)
      && shape == Node(Shape(left), value, Shape(right))
    }
  }

  ghost function Shape(node: BinaryTreeNode?): Tree
    reads node
  {
    if node == null then Leaf else node.shape
  }

  ghost function Repr(node: BinaryTreeNode?): set<BinaryTreeNode>
    reads node
  {
    if node == null then {} else node.repr
  }

  ghost predicate ValidTree(node: BinaryTreeNode?)
    reads node, Repr(node)
  {
    node != null ==> node.Valid()
  }

  /** The two subtrees are separate trees, and `node` belongs to neither. */
  lemma Parts(node: BinaryTreeNode)
    requires node.Valid()
    ensures ValidTree(node.left) && ValidTree(node.right)
    ensures node !in Repr(node.left) && node !in Repr(node.right)
    ensures node.left != null ==> node.left in Repr(node.left) && node.left !in Repr(node.right)
    ensures node.right != null ==> node.right in Repr(node.right) && node.right !in Repr(node.left)
  {
  }

  function TreeDeepth(node: BinaryTreeNode?): (d: nat)
    requires ValidTree(node)
    reads node, Repr(node)
    ensures d == Depth(Shape(node))
    decreases Repr(node)
  {
    if node == null then 0 else Max(TreeDeepth(node.left), TreeDeepth(node.right)) + 1
  }

  predicate IsBalanced(node: BinaryTreeNode?)
    requires ValidTree(node)
    reads node, Repr(node)
    ensures IsBalanced(node) <==> IsBalance(Shape(node))
    decreases Repr(node)
  {
    node == null ||
    (&& IsBalanced(node.left)
     && IsBalanced(node.right)
     && Abs(TreeDeepth(node.left) - TreeDeepth(node.right)) < 2)
  }

  /** Records the shape and the nodes of `node` after one of its links was rewritten. */
  ghost method Record(node: BinaryTreeNode)
    requires ValidTree(node.left) && ValidTree(node.right)
    requires node !in Repr(node.left) && node !in Repr(node.right) && Repr(node.left) !! Repr(node.right)
    modifies node`shape, node`repr
    ensures node.Valid()
    ensures node.shape == Node(Shape(node.left), node.value, Shape(node.right))
    ensures node.repr == {node} + Repr(node.left) + Repr(node.right)
  {
    node.repr := {node} + Repr(node.left) + Repr(node.right);
    node.shape := Node(Shape(node.left), node.value, Shape(node.right));
  }

  method SetLeft(node: BinaryTreeNode, l: BinaryTreeNode?)
    requires ValidTree(l) && ValidTree(node.right)
    requires node !in Repr(l) && node !in Repr(node.right) && Repr(l) !! Repr(node.right)
    modifies node
    ensures node.Valid() && node.repr == {node} + old(Repr(l) + Repr(node.right))
    ensures node.shape == old(Node(Shape(l), node.value, Shape(node.right)))
  {
    node.left := l;
    Record(node);
  }

  method SetRight(node: BinaryTreeNode, r: BinaryTreeNode?)
    requires ValidTree(node.left) && ValidTree(r)
    requires node !in Repr(node.left) && node !in Repr(r) && Repr(node.left) !! Repr(r)
    modifies node
    ensures node.Valid() && node.repr == {node} + old(Repr(node.left) + Repr(r))
    ensures node.shape == old(Node(Shape(node.left), node.value, Shape(r)))
  {
    node.right := r;
    Record(node);
  }

  /** The three subtrees a right rotation rearranges, and what the rotated tree will record. */
  lemma {:induction false} RightParts(node: BinaryTreeNode, l: BinaryTreeNode)
    requires node.Valid() && node.left == l
    ensures l.Valid() && node != l && node.shape.left.Node?
    ensures ValidTree(l.left) && ValidTree(l.right) && ValidTree(node.right)
    ensures node !in Repr(l.right) && node !in Repr(node.right) && Repr(l.right) !! Repr(node.right)
    ensures l !in Repr(l.left) + Repr(l.right) + Repr(node.right)
    ensures Repr(l.left) !! {node} + Repr(l.right) + Repr(node.right)
    ensures node.repr == {l} + (Repr(l.left) + ({node} + (Repr(l.right) + Repr(node.right))))
    ensures RightRotation(node.shape) == Node(Shape(l.left), l.value, Node(Shape(l.right), node.value, Shape(node.right)))
  {
  }

  lemma {:induction false} LeftParts(node: BinaryTreeNode, r: BinaryTreeNode)
    requires node.Valid() && node.right == r
    ensures r.Valid() && node != r && node.shape.right.Node?
    ensures ValidTree(node.left) && ValidTree(r.left) && ValidTree(r.right)
    ensures node !in Repr(node.left) && node !in Repr(r.left) && Repr(node.left) !! Repr(r.left)
    ensures r !in Repr(node.left) + Repr(r.left) + Repr(r.right)
    ensures Repr(r.right) !! {node} + Repr(node.left) + Repr(r.left)
    ensures node.repr == {r} + (({node} + (Repr(node.left) + Repr(r.left))) + Repr(r.right))
    ensures LeftRotation(node.shape) == Node(Node(Shape(node.left), node.value, Shape(r.left)), r.value, Shape(r.right))
  {
  }

  method RightRotationAt(node: BinaryTreeNode?) returns (r: BinaryTreeNode?)
    requires ValidTree(node)
    requires node != null ==> node.shape.left.Node?
    modifies Repr(node)
    ensures ValidTree(r) && Repr(r) == old(Repr(node))
    ensures if node == null then r == null else r != null && r.shape == RightRotation(old(node.shape))
  {
    if node == null {
      return node;
    }
    var leftNode := node.left;
    RightParts(node, leftNode);
    var leftRightNode := leftNode.right;
    // two independent writes, in the order in which each node is complete after its own
    SetLeft(node, leftRightNode);
    assert Repr(leftNode.left) == old(Repr(node.left.left)) && Shape(leftNode.left) == old(Shape(node.left.left));
    SetRight(leftNode, node);
    assert leftNode.repr == old(node.repr);
    return leftNode;
  }

  method LeftRotationAt(node: BinaryTreeNode?) returns (r: BinaryTreeNode?)
    requires ValidTree(node)
    requires node != null ==> node.shape.right.Node?
    modifies Repr(node)
    ensures ValidTree(r) && Repr(r) == old(Repr(node))
    ensures if node == null then r == null else r != null && r.shape == LeftRotation(old(node.shape))
  {
    if node == null {
      return node;
    }
    var rightNode := node.right;
    LeftParts(node, rightNode);
    var rightLeftNode := rightNode.left;
    SetRight(node, rightLeftNode);
    assert Repr(rightNode.right) == old(Repr(node.right.right)) && Shape(rightNode.right) == old(Shape(node.right.right));
    SetLeft(rightNode, node);
    assert rightNode.repr == old(node.repr);
    return rightNode;
  }

  method RightLeftRotationAt(node: BinaryTreeNode?) returns (r: BinaryTreeNode?)
    requires ValidTree(node)
    requires node != null ==> node.shape.left.Node? && node.shape.left.right.Node?
    modifies Repr(node)
    ensures ValidTree(r) && Repr(r) == old(Repr(node))
    ensures if node == null then r == null else r != null && r.shape == RightLeftRotation(old(node.shape))
  {
    if node == null {
      return node;
    }
    hide LeftRotation, RightRotation, Inorder, Values, SearchTree;
    Parts(node);
    var l := LeftRotationAt(node.left);
    SetLeft(node, l);
    assert node.shape == Node(LeftRotation(old(node.shape.left)), node.value, old(node.shape.right));
    r := RightRotationAt(node);
  }

  method LeftRightRotationAt(node: BinaryTreeNode?) returns (r: BinaryTreeNode?)
    requires ValidTree(node)
    requires node != null ==> node.shape.right.Node? && node.shape.right.left.Node?
    modifies Repr(node)
    ensures ValidTree(r) && Repr(r) == old(Repr(node))
    ensures if node == null then r == null else r != null && r.shape == LeftRightRotation(old(node.shape))
  {
    if node == null {
      return node;
    }
    hide LeftRotation, RightRotation, Inorder, Values, SearchTree;
    Parts(node);
    var rr := RightRotationAt(node.right);
    SetRight(node, rr);
    assert node.shape == Node(old(node.shape.left), node.value, RightRotation(old(node.shape.right)));
    r := LeftRotationAt(node);
  }

  /** How a call ends: with the new root, with the exception, or with a null link followed. */
  datatype Exit = Returned | Thrown | Crashed

  /** The guards and rotations after the recursive call. */
  method RebalanceAt(node: BinaryTreeNode, value: int) returns (r: BinaryTreeNode, exit: Exit)
    requires node.Valid()
    modifies node.repr
    ensures exit == match Rebalance(old(node.shape), value) case Ok(_) => Returned case _ => Crashed
    ensures exit == Returned ==> r.Valid() && r.repr == old(node.repr) && Rebalance(old(node.shape), value) == Ok(r.shape)
  {
    r, exit := node, Returned;
    var sub := TreeDeepth(node.left) - TreeDeepth(node.right);
    if sub > 1 && node.left != null && node.left.value > value {
      r := RightRotationAt(node);
    } else if sub > 1 && node.left != null && node.left.value < value {
      if node.left.right == null {
        return node, Crashed;
      }
      assert node.left.right.Valid();
      r := RightLeftRotationAt(node);
    } else if sub < -1 && node.right != null && node.right.value < value {
      r := LeftRotationAt(node);
    } else if sub < -1 && node.right != null && node.right.value > value {
      if node.right.left == null {
        return node, Crashed;
      }
      assert node.right.left.Valid();
      r := LeftRightRotationAt(node);
    }
  }

  /** When the exception is thrown no node has been written; otherwise one node is added and none is lost. */
  method BalanceInsertAt(node: BinaryTreeNode?, value: int) returns (r: BinaryTreeNode?, exit: Exit, ghost added: BinaryTreeNode?)
    requires ValidTree(node)
    modifies Repr(node)
    ensures exit == match BalanceInsert(old(Shape(node)), value) case Ok(_) => Returned case Duplicate => Thrown case NullLink => Crashed
    ensures exit == Returned ==> BalanceInsert(old(Shape(node)), value) == Ok(Shape(r))
    ensures exit == Returned ==> ValidTree(r) && added != null && fresh(added) && Repr(r) == old(Repr(node)) + {added}
    ensures exit == Thrown ==> unchanged(old(Repr(node)))
    decreases Shape(node), 1
  {
    if node == null {
      r := new BinaryTreeNode(value);
      return r, Returned, r;
    }
    exit, added := InsertBelow(node, value);
    if exit != Returned {
      return null, exit, null;
    }
    r, exit := RebalanceAt(node, value);
  }

  lemma AddedBelow<T>(top: set<T>, l: set<T>, r: set<T>, added: set<T>)
    ensures top + ((l + added) + r) == (top + l + r) + added
    ensures top + (l + (r + added)) == (top + l + r) + added
  {
  }

  /** The comparison with the value of `node` and the recursive call on one side. */
  method InsertBelow(node: BinaryTreeNode, value: int) returns (exit: Exit, ghost added: BinaryTreeNode?)
    requires node.Valid()
    modifies node.repr
    ensures exit == match Attach(old(node.shape), value) case Ok(_) => Returned case Duplicate => Thrown case NullLink => Crashed
    ensures exit == Returned ==> Attach(old(node.shape), value) == Ok(node.shape)
    ensures exit == Returned ==> node.Valid() && added != null && fresh(added) && node.repr == old(node.repr) + {added}
    ensures exit == Thrown ==> unchanged(old(node.repr))
    decreases node.shape, 0
  {
    hide BalanceInsert;
    Parts(node);
    ghost var l0, r0 := Repr(node.left), Repr(node.right);
    if node.value > value {
      var l;
      l, exit, added := BalanceInsertAt(node.left, value);
      if exit == Returned {
        SetLeft(node, l);
        AddedBelow({node}, l0, r0, {added});
      }
    } else if node.value < value {
      var r;
      r, exit, added := BalanceInsertAt(node.right, value);
      if exit == Returned {
        SetRight(node, r);
        AddedBelow({node}, l0, r0, {added});
      }
    } else {
      return Thrown, null;
    }
  }
}
