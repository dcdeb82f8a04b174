/** The stack-driven traversals of 数据结构/tree.cpp; printing appends to `out`, a stack's top is its last element. */
module Traversals {
  import opened Basics
  import opened Tree
  import opened BinaryTreeNodes

  ghost function RightShape(node: BinaryTreeNode): Tree
    reads node
  {
    if node.shape.Leaf? then Leaf else node.shape.right
  }

  /** The work left: one for each node on the stack, two for each node reached through its right link. */
  ghost function Pending(stack: seq<BinaryTreeNode>): nat
    reads stack
  {
    if stack == [] then 0 else 1 + 2 * Size(RightShape(Top(stack))) + Pending(Pop(stack))
  }

  lemma PushThenPop(stack: seq<BinaryTreeNode>, node: BinaryTreeNode)
    ensures Top(stack + [node]) == node && Pop(stack + [node]) == stack
  {
  }

  /** The fields of a valid node against its shape. */
  lemma Fields(node: BinaryTreeNode)
    requires node.Valid()
    ensures node.shape == Node(Shape(node.left), node.value, Shape(node.right)) && RightShape(node) == Shape(node.right)
    ensures ValidTree(node.left) && ValidTree(node.right)
    ensures node.left == null <==> node.shape.left == Leaf
  {
  }

  // ----- preorder and inorder

  /** What is printed once the current subtree is done. */
  ghost function PreorderRest(stack: seq<BinaryTreeNode>): seq<int>
    reads stack
  {
    if stack == [] then [] else Preorder(RightShape(Top(stack))) + PreorderRest(Pop(stack))
  }

  lemma Regroup(out: seq<int>, v: seq<int>, l: seq<int>, r: seq<int>, rest: seq<int>)
    ensures out + (v + l + r) + rest == out + v + l + (r + rest)
  {
  }

  lemma {:induction false} PreorderPushed(out: seq<int>, stack: seq<BinaryTreeNode>, node: BinaryTreeNode)
    requires node.Valid()
    ensures var down, out' := stack + [node], out + [node.value];
      && Top(down) == node && Pop(down) == stack && ValidTree(node.left)
      && Pending(down) + 2 * Size(Shape(node.left)) + 1 == Pending(stack) + 2 * Size(node.shape)
      && out' + Preorder(Shape(node.left)) + PreorderRest(down) == out + Preorder(node.shape) + PreorderRest(stack)
      && (node.left == null ==> out' + PreorderRest(down) == out + Preorder(node.shape) + PreorderRest(stack))
  {
    Fields(node);
    PushThenPop(stack, node);
    var l, r, rest := Preorder(Shape(node.left)), Preorder(Shape(node.right)), PreorderRest(stack);
    assert PreorderRest(stack + [node]) == r + rest;
    assert Preorder(node.shape) == [node.value] + l + r;
    Regroup(out, [node.value], l, r, rest);
  }

  lemma {:induction false} PreorderPopped(out: seq<int>, stack: seq<BinaryTreeNode>)
    requires stack != [] && Top(stack).Valid()
    ensures var right := Top(stack).right;
      && ValidTree(right) && Pending(stack) == 1 + 2 * Size(Shape(right)) + Pending(Pop(stack))
      && out + Preorder(Shape(right)) + PreorderRest(Pop(stack)) == out + PreorderRest(stack)
      && (right == null ==> out + PreorderRest(Pop(stack)) == out + PreorderRest(stack))
  {
    Fields(Top(stack));
    var r, rest := Preorder(Shape(Top(stack).right)), PreorderRest(Pop(stack));
    assert PreorderRest(stack) == r + rest;
    Associate(out, r, rest);
  }

  method PreorderStack(root: BinaryTreeNode?) returns (out: seq<int>)
    requires ValidTree(root)
    ensures out == Preorder(Shape(root))
  {
    out := [];
    var node, stack: seq<BinaryTreeNode> := root, [];
    ghost var all := Preorder(Shape(root));
    while node != null || stack != []
      invariant ValidTree(node) && forall n :: n in stack ==> n.Valid()
      invariant node != null ==> out + Preorder(node.shape) + PreorderRest(stack) == all
      invariant node == null ==> out + PreorderRest(stack) == all
      decreases 2 * Size(Shape(node)) + Pending(stack)
    {
      if node != null {
        PreorderPushed(out, stack, node);
        out := out + [node.value];
        stack := stack + [node];
      }
      if node != null && node.left != null {
        node := node.left;
      } else {
        PreorderPopped(out, stack);
        var back := Top(stack);
        stack := Pop(stack);
        node := back.right;
      }
    }
  }

  ghost function InorderRest(stack: seq<BinaryTreeNode>): seq<int>
    reads stack
  {
    if stack == [] then [] else [Top(stack).value] + Inorder(RightShape(Top(stack))) + InorderRest(Pop(stack))
  }

  lemma {:induction false} InorderPushed(out: seq<int>, stack: seq<BinaryTreeNode>, node: BinaryTreeNode)
    requires node.Valid()
    ensures var down := stack + [node];
      && Top(down) == node && Pop(down) == stack && ValidTree(node.left)
      && Pending(down) + 2 * Size(Shape(node.left)) + 1 == Pending(stack) + 2 * Size(node.shape)
      && out + Inorder(Shape(node.left)) + InorderRest(down) == out + Inorder(node.shape) + InorderRest(stack)
      && (node.left == null ==> out + InorderRest(down) == out + Inorder(node.shape) + InorderRest(stack))
  {
    Fields(node);
    PushThenPop(stack, node);
    var l, r, rest := Inorder(Shape(node.left)), Inorder(Shape(node.right)), InorderRest(stack);
    assert InorderRest(stack + [node]) == [node.value] + r + rest;
    assert Inorder(node.shape) == l + [node.value] + r;
    Associate(l, [node.value], r);
    Associate(out, l, [node.value] + r);
    Associate(out + l, [node.value] + r, rest);
  }

  lemma {:induction false} InorderPopped(out: seq<int>, stack: seq<BinaryTreeNode>)
    requires stack != [] && Top(stack).Valid()
    ensures var right, out' := Top(stack).right, out + [Top(stack).value];
      && ValidTree(right) && Pending(stack) == 1 + 2 * Size(Shape(right)) + Pending(Pop(stack))
      && out' + Inorder(Shape(right)) + InorderRest(Pop(stack)) == out + InorderRest(stack)
      && (right == null ==> out' + InorderRest(Pop(stack)) == out + InorderRest(stack))
  {
    Fields(Top(stack));
    var v, r, rest := [Top(stack).value], Inorder(Shape(Top(stack).right)), InorderRest(Pop(stack));
    assert InorderRest(stack) == v + r + rest;
    assert out + v + r + rest == out + (v + r + rest);
    assert Top(stack).right == null ==> out + v + rest == out + v + r + rest;
  }

  method InorderStack(root: BinaryTreeNode?) returns (out: seq<int>)
    requires ValidTree(root)
    ensures out == Inorder(Shape(root))
  {
    out := [];
    var node, stack: seq<BinaryTreeNode> := root, [];
    ghost var all := Inorder(Shape(root));
    while node != null || stack != []
      invariant ValidTree(node) && forall n :: n in stack ==> n.Valid()
      invariant node != null ==> out + Inorder(node.shape) + InorderRest(stack) == all
      invariant node == null ==> out + InorderRest(stack) == all
      decreases 2 * Size(Shape(node)) + Pending(stack)
    {
      if node != null {
        InorderPushed(out, stack, node);
        stack := stack + [node];
      }
      if node != null && node.left != null {
        node := node.left;
      } else {
        InorderPopped(out, stack);
        var back := Top(stack);
        out := out + [back.value];
        stack := Pop(stack);
        node := back.right;
      }
    }
  }

  // ----- postorder

  /** One step down from the root: an ancestor, and whether its left link was taken. */
  datatype Step = Step(node: BinaryTreeNode, wentLeft: bool)

  ghost function Child(s: Step): BinaryTreeNode?
    reads s.node
  {
    if s.wentLeft then s.node.left else s.node.right
  }

  ghost function Nodes(path: seq<Step>): set<BinaryTreeNode> {
    set s | s in path :: s.node
  }

  /** `path` leads through valid ancestors down to `node`; none of them is a node of its subtree. */
  ghost predicate Leads(path: seq<Step>, node: BinaryTreeNode)
    reads *
  {
    path != [] ==>
      var s := Top(path);
      && s.node.Valid() && Child(s) == node
      && (forall t :: t in path ==> t.node !in node.repr)
      && Leads(Pop(path), s.node)
  }

  /** The steps to the left and to the right: the contents of tree_stack and of saved_node. */
  ghost function Taken(path: seq<Step>, wentLeft: bool): seq<BinaryTreeNode> {
    if path == [] then [] else
      var rest := Taken(Pop(path), wentLeft);
      if Top(path).wentLeft == wentLeft then rest + [Top(path).node] else rest
  }

  /** The right children of the saved nodes: the contents of mark_node. */
  ghost function Marks(saved: seq<BinaryTreeNode>): seq<BinaryTreeNode?>
    reads saved
  {
    if saved == [] then [] else Marks(Pop(saved)) + [Top(saved).right]
  }

  /** What is printed once the subtree the path leads to is done. */
  ghost function PostorderRest(path: seq<Step>): seq<int>
    reads Nodes(path)
  {
    if path == [] then [] else
      var s := Top(path);
      (if s.wentLeft then Postorder(RightShape(s.node)) else []) + [s.node.value] + PostorderRest(Pop(path))
  }

  function RemoveAll<T(==)>(s: seq<T>, x: T): seq<T> {
    if s == [] then [] else RemoveAll(Pop(s), x) + (if Top(s) == x then [] else [Top(s)])
  }

  lemma {:induction false} RemoveAbsent<T>(s: seq<T>, x: T)
    requires x !in s
    ensures RemoveAll(s, x) == s
  {
    if s != [] {
      assert s == Pop(s) + [Top(s)] && Top(s) in s;
      RemoveAbsent(Pop(s), x);
    }
  }

  /** Every mark is a node on the path, hence none equals a node whose subtree holds no ancestor. */
  lemma {:induction false} MarksAreOnPath(path: seq<Step>, node: BinaryTreeNode, m: BinaryTreeNode?)
    requires Leads(path, node) && m in Marks(Taken(path, false))
    ensures m == node || exists t :: t in path && t.node == m
  {
    var s := Top(path);
    if s.wentLeft || m != node {
      assert m in Marks(Taken(Pop(path), false));
      MarksAreOnPath(Pop(path), s.node, m);
      assert s in path;
    }
  }

  /** Alignment: the finished node is marked exactly if the last step went right, and then its mark
      is the last one and no other mark equals it. */
  lemma {:induction false} MarkedOnce(path: seq<Step>, node: BinaryTreeNode)
    requires Leads(path, node) && node.Valid()
    ensures var saved := Taken(path, false); var marks := Marks(saved);
      if path != [] && !Top(path).wentLeft
      then saved != [] && Top(saved) == Top(path).node && marks != [] && Top(marks) == node
        && RemoveAll(marks, node) == Pop(marks)
      else node !in marks
  {
    if path != [] {
      var s, above := Top(path), Marks(Taken(Pop(path), false));
      assert s in path;
      if node in above {
        MarksAreOnPath(Pop(path), s.node, node);
        assert false;
      }
      RemoveAbsent(above, node);
    }
  }

  /** Taking the next step down keeps the stacks aligned with the path. */
  lemma StepDown(path: seq<Step>, s: Step)
    ensures Top(path + [s]) == s && Pop(path + [s]) == path
    ensures Taken(path + [s], s.wentLeft) == Taken(path, s.wentLeft) + [s.node]
    ensures Taken(path + [s], !s.wentLeft) == Taken(path, !s.wentLeft)
    ensures var saved := Taken(path, false); Marks(saved + [s.node]) == Marks(saved) + [s.node.right]
  {
    var saved := Taken(path, false);
    assert Pop(path + [s]) == path && Pop(saved + [s.node]) == saved;
  }

  /** A last step to the left is on top of the stack of steps to the left. */
  lemma LastLeft(path: seq<Step>)
    requires path != [] && Top(path).wentLeft
    ensures var stack := Taken(path, true);
      stack != [] && Top(stack) == Top(path).node && Pop(stack) == Taken(Pop(path), true)
    ensures Taken(path, false) == Taken(Pop(path), false)
    ensures path == Pop(path) + [Step(Top(path).node, true)]
  {
  }

  lemma {:induction false} LeadsDown(path: seq<Step>, s: Step)
    requires s.node.Valid() && Leads(path, s.node) && Child(s) != null
    ensures Leads(path + [s], Child(s)) && Child(s).Valid()
  {
    assert Top(path + [s]) == s && Pop(path + [s]) == path;
    Parts(s.node);
    forall t | t in path + [s]
      ensures t.node !in Child(s).repr
    {
      assert Child(s).repr <= s.node.repr;
      if t != s {
        assert t in path;
      }
    }
  }

  lemma {:induction false} PostorderPush(path: seq<Step>, node: BinaryTreeNode)
    requires node.Valid()
    ensures Postorder(node.shape) + PostorderRest(path) == Postorder(Shape(node.left)) + PostorderRest(path + [Step(node, true)])
    ensures node.left == null ==> Postorder(node.shape) + PostorderRest(path) == PostorderRest(path + [Step(node, true)])
  {
    Fields(node);
    assert Pop(path + [Step(node, true)]) == path;
    var l, r, v, rest := Postorder(Shape(node.left)), Postorder(Shape(node.right)), [node.value], PostorderRest(path);
    assert PostorderRest(path + [Step(node, true)]) == r + v + rest;
    Associate(l, r, v);
    Associate(l, r + v, rest);
  }

  lemma {:induction false} PostorderTurn(path: seq<Step>, node: BinaryTreeNode)
    requires node.Valid()
    ensures PostorderRest(path + [Step(node, true)]) == Postorder(Shape(node.right)) + PostorderRest(path + [Step(node, false)])
  {
    Fields(node);
    assert Pop(path + [Step(node, true)]) == path == Pop(path + [Step(node, false)]);
    var r, v, rest := Postorder(Shape(node.right)), [node.value], PostorderRest(path);
    assert PostorderRest(path + [Step(node, true)]) == r + v + rest;
    assert PostorderRest(path + [Step(node, false)]) == v + rest;
    Associate(r, v, rest);
  }

  lemma {:induction false} PostorderPrint(out: seq<int>, path: seq<Step>)
    requires path != [] && Top(path).node.Valid() && (Top(path).wentLeft ==> Top(path).node.right == null)
    ensures out + PostorderRest(path) == out + [Top(path).node.value] + PostorderRest(Pop(path))
  {
    Fields(Top(path).node);
  }

  /** A marked node is done: its saved parent is printed and becomes the node that is done. */
  lemma {:induction false} Unsaved(path: seq<Step>, back: BinaryTreeNode, out: seq<int>)
    requires Leads(path, back) && back.Valid() && back in Marks(Taken(path, false))
    ensures path != [] && !Top(path).wentLeft
    ensures var saved, up, parent := Taken(path, false), Pop(path), Top(path).node;
      && saved != [] && Top(saved) == parent && Pop(saved) == Taken(up, false) && Taken(path, true) == Taken(up, true)
      && RemoveAll(Marks(saved), back) == Marks(Pop(saved))
      && parent.Valid() && Leads(up, parent)
      && out + [parent.value] + PostorderRest(up) == out + PostorderRest(path)
  {
    MarkedOnce(path, back);
    PostorderPrint(out, path);
  }

  /** What is printed from here on, while the subtree of `node` comes next, or none does. */
  ghost function ToPrint(node: BinaryTreeNode?, path: seq<Step>): seq<int>
    reads node, Nodes(path)
  {
    if node == null then PostorderRest(path) else Postorder(node.shape) + PostorderRest(path)
  }

  /** Pushing the current node: its left subtree comes next. */
  lemma {:induction false} Pushed(path: seq<Step>, node: BinaryTreeNode, out: seq<int>)
    requires node.Valid() && Leads(path, node)
    ensures var down := path + [Step(node, true)];
      && Top(down) == Step(node, true) && Pop(down) == path
      && Taken(down, true) == Taken(path, true) + [node] && Taken(down, false) == Taken(path, false)
      && Pending(Taken(down, true)) + 2 * Size(Shape(node.left)) + 1 == Pending(Taken(path, true)) + 2 * Size(node.shape)
      && out + ToPrint(node.left, down) == out + ToPrint(node, path)
      && (node.left != null ==> Leads(down, node.left) && node.left.Valid())
  {
    Fields(node);
    PushThenPop(Taken(path, true), node);
    PostorderPush(path, node);
    StepDown(path, Step(node, true));
    if node.left != null {
      LeadsDown(path, Step(node, true));
    }
  }

  /** Popping the last left step: its node is printed, or saved while its right subtree comes next. */
  lemma {:induction false} Popped(path: seq<Step>, out: seq<int>)
    requires path != [] && Top(path).wentLeft && Top(path).node.Valid() && Leads(Pop(path), Top(path).node)
    ensures var back, up, stack := Top(path).node, Pop(path), Taken(path, true); var turn := up + [Step(back, false)];
      && stack != [] && Top(stack) == back && Pop(stack) == Taken(up, true) == Taken(turn, true)
      && Pending(stack) == 1 + 2 * Size(Shape(back.right)) + Pending(Pop(stack))
      && Taken(path, false) == Taken(up, false) && Taken(turn, false) == Taken(up, false) + [back]
      && Marks(Taken(turn, false)) == Marks(Taken(up, false)) + [back.right]
      && (back.right == null ==> out + [back.value] + PostorderRest(up) == out + PostorderRest(path))
      && (back.right != null ==>
        && Leads(turn, back.right) && back.right.Valid()
        && out + ToPrint(back.right, turn) == out + PostorderRest(path))
  {
    var back := Top(path).node;
    LastLeft(path);
    Fields(back);
    StepDown(Pop(path), Step(back, false));
    if back.right == null {
      PostorderPrint(out, path);
    } else {
      PostorderTurn(Pop(path), back);
      LeadsDown(Pop(path), Step(back, false));
    }
  }

  /** The three stacks are those of the path. */
  ghost predicate Aligned(path: seq<Step>, treeStack: seq<BinaryTreeNode>, savedNode: seq<BinaryTreeNode>, markNode: seq<BinaryTreeNode?>)
    reads savedNode
  {
    treeStack == Taken(path, true) && savedNode == Taken(path, false) && markNode == Marks(savedNode)
  }

  lemma {:induction false} PostorderStarts(root: BinaryTreeNode?)
    requires ValidTree(root)
    ensures Aligned([], [], [], []) && [] + ToPrint(root, []) == Postorder(Shape(root))
    ensures root != null ==> Leads([], root)
  {
    if root != null {
      assert Postorder(root.shape) + [] == Postorder(root.shape);
    }
  }

  lemma {:induction false} PostorderEnds(path: seq<Step>, out: seq<int>)
    requires Taken(path, true) == [] && (path != [] ==> Top(path).wentLeft)
    ensures out + PostorderRest(path) == out
  {
  }

  lemma {:induction false} Upwards(path: seq<Step>, node: BinaryTreeNode)
    requires Leads(path, node)
    ensures path != [] ==> Top(path).node.Valid() && Leads(Pop(path), Top(path).node)
  {
  }

  method PostorderStack(root: BinaryTreeNode?) returns (out: seq<int>)
    requires ValidTree(root)
    ensures out == Postorder(Shape(root))
  {
    hide Leads, Taken, Marks, Pending, Postorder, PostorderRest, RemoveAll;
    out := [];
    var node := root;
    var treeStack: seq<BinaryTreeNode> := [];
    var markNode: seq<BinaryTreeNode?> := [];
    var savedNode: seq<BinaryTreeNode> := [];
    ghost var all := Postorder(Shape(root));
    ghost var path: seq<Step> := [];
    PostorderStarts(root);
    while node != null || treeStack != []
      invariant Aligned(path, treeStack, savedNode, markNode) && out + ToPrint(node, path) == all
      invariant node != null ==> node.Valid() && Leads(path, node)
      invariant node == null && path != [] ==> Top(path).wentLeft && Top(path).node.Valid() && Leads(Pop(path), Top(path).node)
      decreases 2 * Size(Shape(node)) + Pending(treeStack)
    {
      if node != null {
        Pushed(path, node, out);
        treeStack := treeStack + [node];
        path := path + [Step(node, true)];
      }
      if node != null && node.left != null {
        node := node.left;
      } else {
        Popped(path, out);
        var back := Top(treeStack);
        treeStack := Pop(treeStack);
        ghost var left := Pending(treeStack);
        path := Pop(path);
        if back.right != null {
          savedNode := savedNode + [back];
          markNode := markNode + [back.right];
          path := path + [Step(back, false)];
          node := back.right;
        } else {
          out := out + [back.value];
          while back in markNode
            invariant back.Valid() && Leads(path, back) && out + PostorderRest(path) == all
            invariant Aligned(path, treeStack, savedNode, markNode)
            invariant Pending(treeStack) == left
            decreases |path|
          {
            Unsaved(path, back, out);
            markNode := RemoveAll(markNode, back);
            back := Top(savedNode);
            savedNode := Pop(savedNode);
            path := Pop(path);
            out := out + [back.value];
          }
          MarkedOnce(path, back);
          Upwards(path, back);
          node := null;
        }
      }
    }
    PostorderEnds(path, out);
  }
}
