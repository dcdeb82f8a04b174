/** Which tree balance_insert of 数据结构/tree.cpp returns: the plain search-tree insertion, repaired at
    one place by the depths alone. */
module InsertionRepairs {
  import opened Basics
  import opened Tree

  /** The value hung into the tree as a leaf, and nothing else changed. */
  function Grafted(t: Tree, value: int): Tree {
    match t
    case Leaf => Node(Leaf, value, Leaf)
    case Node(l, v, r) =>
      if value < v then Node(Grafted(l, value), v, r) else if value > v then Node(l, v, Grafted(r, value)) else t
  }

  /** The single or double rotation that the depths of the children and grandchildren call for. */
  function Rotated(g: Tree): Tree {
    match g
    case Leaf => Leaf
    case Node(l, v, r) =>
      if Depth(l) > Depth(r) then
        match l
        case Leaf => g
        case Node(a, x, b) =>
          if Depth(a) >= Depth(b) then Node(a, x, Node(b, v, r))
          else match b case Leaf => g case Node(b1, y, b2) => Node(Node(a, x, b1), y, Node(b2, v, r))
      else
        match r
        case Leaf => g
        case Node(b, x, c) =>
          if Depth(c) >= Depth(b) then Node(Node(l, v, b), x, c)
          else match b case Leaf => g case Node(b1, y, b2) => Node(Node(l, v, b1), y, Node(b2, x, c))
  }

  /** The deepest unbalanced subtree replaced by its rotation. */
  function Repaired(g: Tree): Tree {
    if IsBalance(g) then g
    else if !IsBalance(g.left) then Node(Repaired(g.left), g.value, g.right)
    else if !IsBalance(g.right) then Node(g.left, g.value, Repaired(g.right))
    else Rotated(g)
  }

  /** The tree to return, and what makes the levels above leave it alone. */
  ghost predicate IsRepaired(t: Tree, value: int) {
    var g := Grafted(t, value);
    && BalanceInsert(t, value) == Ok(Repaired(g))
    && (!IsBalance(g) ==> Depth(Repaired(g)) == Depth(t))
  }

  lemma {:induction false} RepairedLeft(t: Tree, value: int)
    requires t.Node? && SearchTree(t) && IsBalance(t) && value !in Values(t) && value < t.value
    requires IsRepaired(t.left, value)
    ensures IsRepaired(t, value)
  {
    var l, g := Grafted(t.left, value), Grafted(t, value);
    InsertBalances(t.left, value);
    if IsBalance(l) && Depth(l) - Depth(t.right) > 1 {
      LeftGrew(t, l, value);
      if value < l.value {
        RightBalances(l.left, l.value, l.right, t.value, t.right);
      } else {
        Sides(l, value);
        RightLeftBalances(l.left, l.value, l.right, t.value, t.right);
      }
    }
  }

  lemma {:induction false} RepairedRight(t: Tree, value: int)
    requires t.Node? && SearchTree(t) && IsBalance(t) && value !in Values(t) && value > t.value
    requires IsRepaired(t.right, value)
    ensures IsRepaired(t, value)
  {
    var r, g := Grafted(t.right, value), Grafted(t, value);
    InsertBalances(t.right, value);
    if IsBalance(r) && Depth(r) - Depth(t.left) > 1 {
      RightGrew(t, r, value);
      if value > r.value {
        LeftBalances(t.left, t.value, r.left, r.value, r.right);
      } else {
        Sides(r, value);
        LeftRightBalances(t.left, t.value, r.left, r.value, r.right);
      }
    }
  }

  /** On a balanced search tree the result is the grafted tree if that is balanced, and otherwise the
      grafted tree with its deepest unbalanced subtree rotated. */
  lemma {:induction false} InsertRepairs(t: Tree, value: int)
    requires SearchTree(t) && IsBalance(t) && value !in Values(t)
    ensures IsRepaired(t, value)
  {
    if t.Node? {
      if value < t.value {
        InsertRepairs(t.left, value);
        RepairedLeft(t, value);
      } else {
        InsertRepairs(t.right, value);
        RepairedRight(t, value);
      }
    }
  }

  predicate Within(a: Tree, t: Tree) {
    a == t || (t.Node? && (Within(a, t.left) || Within(a, t.right)))
  }

  lemma {:induction false} SubtreesBalance(a: Tree, t: Tree)
    requires IsBalance(t) && Within(a, t)
    ensures IsBalance(a)
  {
    if a != t {
      if Within(a, t.left) {
        SubtreesBalance(a, t.left);
      } else {
        SubtreesBalance(a, t.right);
      }
    }
  }

  /** What grafting unbalances lies on the way to the new leaf, so the deepest is one and no other. */
  lemma {:induction false} UnbalancedArePassed(t: Tree, value: int, a: Tree)
    requires SearchTree(t) && IsBalance(t) && value !in Values(t)
    requires Within(a, Grafted(t, value)) && !IsBalance(a)
    ensures Passed(a, Grafted(t, value), value)
  {
    if t.Node? && a != Grafted(t, value) {
      var near, far := if value < t.value then t.left else t.right, if value < t.value then t.right else t.left;
      if Within(a, far) {
        SubtreesBalance(a, far);
      } else {
        UnbalancedArePassed(near, value, a);
      }
    }
  }

  // ----- any search tree

  /** The node with value `x` brought to the root, step by step. */
  function Lifted(t: Tree, x: int): Tree {
    match t
    case Leaf => Leaf
    case Node(l, v, r) =>
      if x < v then (match Lifted(l, x) case Leaf => t case Node(a, y, b) => Node(a, y, Node(b, v, r)))
      else if x > v then (match Lifted(r, x) case Leaf => t case Node(a, y, b) => Node(Node(l, v, a), y, b))
      else t
  }

  /** What the guards do on any search tree: sides that differ by at most one are left alone; else the
      child on the deeper side comes to the root, or its inner child if the value went past it. */
  lemma {:induction false} RebalanceLifts(t: Tree, value: int)
    requires t.Node? && SearchTree(t)
    ensures Abs(Depth(t.left) - Depth(t.right)) <= 1 ==> Rebalance(t, value) == Ok(t)
    ensures Depth(t.left) > Depth(t.right) + 1 && value != t.left.value ==>
      Rebalance(t, value) ==
        if value < t.left.value then Ok(Lifted(t, t.left.value))
        else if t.left.right.Leaf? then NullLink else Ok(Lifted(t, t.left.right.value))
    ensures Depth(t.right) > Depth(t.left) + 1 && value != t.right.value ==>
      Rebalance(t, value) ==
        if value > t.right.value then Ok(Lifted(t, t.right.value))
        else if t.right.left.Leaf? then NullLink else Ok(Lifted(t, t.right.left.value))
  {
    if t.left.Node? {
      LiftedChildren(t.left);
      assert t.left.value in Values(t.left);
      assert t.left.right.Node? ==> t.left.right.value in Values(t.left);
    }
    if t.right.Node? {
      LiftedChildren(t.right);
      assert t.right.value in Values(t.right);
      assert t.right.left.Node? ==> t.right.left.value in Values(t.right);
    }
  }

  lemma {:induction false} LiftedChildren(t: Tree)
    requires t.Node? && SearchTree(t)
    ensures Lifted(t, t.value) == t
    ensures var b := t.right; b.Node? ==>
      b.value in Values(t) && Lifted(t, b.value) == Node(Node(t.left, t.value, b.left), b.value, b.right)
    ensures var b := t.left; b.Node? ==>
      b.value in Values(t) && Lifted(t, b.value) == Node(b.left, b.value, Node(b.right, t.value, t.right))
  {
    if t.right.Node? {
      assert t.right.value in Values(t.right) && Lifted(t.right, t.right.value) == t.right;
    }
    if t.left.Node? {
      assert t.left.value in Values(t.left) && Lifted(t.left, t.left.value) == t.left;
    }
  }
}
