/** Binary search trees as values: what 数据结构/tree.cpp computes on the shapes its nodes span. */
module Tree {
  import opened Basics

  datatype Tree = Leaf | Node(left: Tree, value: int, right: Tree)

  function Depth(t: Tree): nat {
    if t.Leaf? then 0 else Max(Depth(t.left), Depth(t.right)) + 1
  }

  predicate IsBalance(t: Tree) {
    t.Node? ==>
      && IsBalance(t.left)
      && IsBalance(t.right)
      && Abs(Depth(t.left) - Depth(t.right)) < 2
  }

  function Size(t: Tree): nat {
    if t.Leaf? then 0 else Size(t.left) + 1 + Size(t.right)
  }

  function Values(t: Tree): set<int> {
    if t.Leaf? then {} else Values(t.left) + {t.value} + Values(t.right)
  }

  ghost predicate AllBelow(t: Tree, bound: int) {
    forall x :: x in Values(t) ==> x < bound
  }

  ghost predicate AllAbove(t: Tree, bound: int) {
    forall x :: x in Values(t) ==> bound < x
  }

  ghost predicate SearchTree(t: Tree) {
    t.Node? ==>
      && SearchTree(t.left)
      && SearchTree(t.right)
      && AllBelow(t.left, t.value)
      && AllAbove(t.right, t.value)
  }

  // ----- the three recursive traversals

  function Preorder(t: Tree): seq<int> {
    if t.Leaf? then [] else [t.value] + Preorder(t.left) + Preorder(t.right)
  }

  function Inorder(t: Tree): seq<int> {
    if t.Leaf? then [] else Inorder(t.left) + [t.value] + Inorder(t.right)
  }

  function Postorder(t: Tree): seq<int> {
    if t.Leaf? then [] else Postorder(t.left) + Postorder(t.right) + [t.value]
  }

  // ----- rotations: each keeps the in-order sequence, hence the search order and the values

  /** The one reassociation behind all four rotations. */
  lemma {:induction false} Reassociate(a: Tree, x: int, b: Tree, y: int, c: Tree)
    ensures SearchTree(Node(Node(a, x, b), y, c)) <==> SearchTree(Node(a, x, Node(b, y, c)))
    ensures Inorder(Node(Node(a, x, b), y, c)) == Inorder(Node(a, x, Node(b, y, c)))
    ensures Values(Node(Node(a, x, b), y, c)) == Values(Node(a, x, Node(b, y, c)))
  {
    ReassociateOrder(a, x, b, y, c);
    assert Values(Node(a, x, b)) == Values(a) + {x} + Values(b) && Values(Node(b, y, c)) == Values(b) + {y} + Values(c);
    assert Inorder(Node(a, x, b)) == Inorder(a) + [x] + Inorder(b) && Inorder(Node(b, y, c)) == Inorder(b) + [y] + Inorder(c);
  }

  lemma ReassociateOrder(a: Tree, x: int, b: Tree, y: int, c: Tree)
    ensures SearchTree(Node(Node(a, x, b), y, c)) <==> SearchTree(Node(a, x, Node(b, y, c)))
  {
    var l, r := Node(a, x, b), Node(b, y, c);
    assert SearchTree(l) <==> SearchTree(a) && SearchTree(b) && AllBelow(a, x) && AllAbove(b, x);
    assert SearchTree(r) <==> SearchTree(b) && SearchTree(c) && AllBelow(b, y) && AllAbove(c, y);
    BoundsOfNode(a, x, b, y);
    BoundsOfNode(b, y, c, x);
  }

  lemma BoundsOfNode(l: Tree, x: int, r: Tree, bound: int)
    ensures AllBelow(Node(l, x, r), bound) <==> AllBelow(l, bound) && x < bound && AllBelow(r, bound)
    ensures AllAbove(Node(l, x, r), bound) <==> AllAbove(l, bound) && bound < x && AllAbove(r, bound)
  {
    var t := Node(l, x, r);
    assert forall v :: v in Values(t) <==> v in Values(l) || v == x || v in Values(r);
  }

  function RightRotation(t: Tree): (r: Tree)
    requires t.Node? && t.left.Node?
    ensures r.Node? && Inorder(r) == Inorder(t) && Values(r) == Values(t)
    ensures SearchTree(t) ==> SearchTree(r)
  {
    Reassociate(t.left.left, t.left.value, t.left.right, t.value, t.right);
    Node(t.left.left, t.left.value, Node(t.left.right, t.value, t.right))
  }

  function LeftRotation(t: Tree): (r: Tree)
    requires t.Node? && t.right.Node?
    ensures r.Node? && Inorder(r) == Inorder(t) && Values(r) == Values(t)
    ensures SearchTree(t) ==> SearchTree(r)
  {
    Reassociate(t.left, t.value, t.right.left, t.right.value, t.right.right);
    Node(Node(t.left, t.value, t.right.left), t.right.value, t.right.right)
  }

  function RightLeftRotation(t: Tree): (r: Tree)
    requires t.Node? && t.left.Node? && t.left.right.Node?
    ensures Inorder(r) == Inorder(t) && Values(r) == Values(t)
    ensures SearchTree(t) ==> SearchTree(r)
  {
    RightRotation(Node(LeftRotation(t.left), t.value, t.right))
  }

  function LeftRightRotation(t: Tree): (r: Tree)
    requires t.Node? && t.right.Node? && t.right.left.Node?
    ensures Inorder(r) == Inorder(t) && Values(r) == Values(t)
    ensures SearchTree(t) ==> SearchTree(r)
  {
    LeftRotation(Node(t.left, t.value, RightRotation(t.right)))
  }

  /** A value of a search tree sits on its own side of the root. */
  lemma Sides(t: Tree, value: int)
    requires SearchTree(t) && t.Node?
    ensures value < t.value ==> (value in Values(t) <==> value in Values(t.left))
    ensures t.value < value ==> (value in Values(t) <==> value in Values(t.right))
  {
  }

  /** Ok: the new root. Duplicate: the exception. NullLink: a rotation follows a null link. */
  datatype Outcome = Ok(tree: Tree) | Duplicate | NullLink {
    function GetOr(root: Tree): Tree {
      if Ok? then tree else root
    }
  }

  /** The four guards after the recursive insertion, in the source's order. Each looks at the depth
      difference and at which side of the child's value the new value lies. */
  function Rebalance(t: Tree, value: int): (r: Outcome)
    requires t.Node?
    ensures !r.Duplicate?
    ensures r.Ok? ==> r.tree.Node? && Inorder(r.tree) == Inorder(t) && Values(r.tree) == Values(t)
    ensures r.Ok? && SearchTree(t) ==> SearchTree(r.tree)
  {
    var sub := Depth(t.left) - Depth(t.right);
    if sub > 1 && t.left.Node? && t.left.value > value then
      Ok(RightRotation(t))
    else if sub > 1 && t.left.Node? && t.left.value < value then
      if t.left.right.Leaf? then NullLink else Ok(RightLeftRotation(t))
    else if sub < -1 && t.right.Node? && t.right.value < value then
      Ok(LeftRotation(t))
    else if sub < -1 && t.right.Node? && t.right.value > value then
      if t.right.left.Leaf? then NullLink else Ok(LeftRightRotation(t))
    else
      Ok(t)
  }

  /** The whole insertion, for any tree. */
  function BalanceInsert(t: Tree, value: int): (r: Outcome)
    ensures r.Ok? ==> r.tree.Node? && Values(r.tree) == Values(t) + {value}
    ensures r.Ok? && SearchTree(t) ==> SearchTree(r.tree)
    ensures SearchTree(t) ==> (r.Duplicate? <==> value in Values(t))
    decreases t, 1
  {
    if t.Leaf? then Ok(Node(Leaf, value, Leaf)) else
      match Attach(t, value)
      case Ok(m) => Rebalance(m, value)
      case other => other
  }

  /** The comparison with the root and the recursive insertion on one side. */
  function Attach(t: Tree, value: int): (r: Outcome)
    requires t.Node?
    ensures r.Ok? ==> r.tree.Node? && Values(r.tree) == Values(t) + {value}
    ensures r.Ok? && SearchTree(t) ==> SearchTree(r.tree)
    ensures SearchTree(t) ==> (r.Duplicate? <==> value in Values(t))
    decreases t, 0
  {
    if t.value > value then
      match BalanceInsert(t.left, value)
      case Ok(l) => Ok(Node(l, t.value, t.right))
      case other => other
    else if t.value < value then
      match BalanceInsert(t.right, value)
      case Ok(r) => Ok(Node(t.left, t.value, r))
      case other => other
    else
      Duplicate
  }

  // ----- balanced trees

  /** Which grandchild grew: when an insertion deepens a non-empty tree, its root stays in place and
      the side the value went to is the deeper one. */
  ghost predicate Grew(before: Tree, after: Tree, value: int)
    requires before.Node? && after.Node?
  {
    && after.value == before.value
    && (value < after.value ==> Depth(after.left) == Depth(after.right) + 1)
    && (value > after.value ==> Depth(after.right) == Depth(after.left) + 1)
  }

  /** What an insertion into the balanced tree `before` promises about its result. */
  ghost predicate Inserted(before: Tree, after: Tree, value: int) {
    && IsBalance(after)
    && Depth(before) <= Depth(after) <= Depth(before) + 1
    && (before.Node? && Depth(after) == Depth(before) + 1 ==> after.Node? && Grew(before, after, value))
  }

  lemma RightBalances(a: Tree, x: int, b: Tree, y: int, c: Tree)
    requires IsBalance(a) && IsBalance(b) && IsBalance(c)
    requires Depth(a) == Depth(b) + 1 == Depth(c) + 1
    ensures var r := RightRotation(Node(Node(a, x, b), y, c)); IsBalance(r) && Depth(r) == Depth(a) + 1
  {
    assert Depth(Node(b, y, c)) == Depth(a) && IsBalance(Node(b, y, c));
  }

  lemma LeftBalances(a: Tree, x: int, b: Tree, y: int, c: Tree)
    requires IsBalance(a) && IsBalance(b) && IsBalance(c)
    requires Depth(c) == Depth(b) + 1 == Depth(a) + 1
    ensures var r := LeftRotation(Node(a, x, Node(b, y, c))); IsBalance(r) && Depth(r) == Depth(c) + 1
  {
    assert Depth(Node(a, x, b)) == Depth(c) && IsBalance(Node(a, x, b));
  }

  lemma {:induction false} RightLeftBalances(a: Tree, x: int, b: Tree, y: int, c: Tree)
    requires IsBalance(a) && IsBalance(b) && IsBalance(c) && b.Node?
    requires Depth(b) == Depth(a) + 1 == Depth(c) + 1
    ensures var r := RightLeftRotation(Node(Node(a, x, b), y, c)); IsBalance(r) && Depth(r) == Depth(b) + 1
  {
    var p, q := Node(a, x, b.left), Node(b.right, y, c);
    assert Depth(p) == Depth(q) == Depth(b) && IsBalance(p) && IsBalance(q);
    assert RightLeftRotation(Node(Node(a, x, b), y, c)) == Node(p, b.value, q);
  }

  lemma {:induction false} LeftRightBalances(a: Tree, x: int, b: Tree, y: int, c: Tree)
    requires IsBalance(a) && IsBalance(b) && IsBalance(c) && b.Node?
    requires Depth(b) == Depth(a) + 1 == Depth(c) + 1
    ensures var r := LeftRightRotation(Node(a, x, Node(b, y, c))); IsBalance(r) && Depth(r) == Depth(b) + 1
  {
    var p, q := Node(a, x, b.left), Node(b.right, y, c);
    assert Depth(p) == Depth(q) == Depth(b) && IsBalance(p) && IsBalance(q);
    assert LeftRightRotation(Node(a, x, Node(b, y, c))) == Node(p, b.value, q);
  }

  /** The left side grew by two over the right one: then the tree was left-heavy and the left child
      kept its root, with the new value on its deeper side. */
  lemma LeftGrew(t: Tree, l: Tree, value: int)
    requires t.Node? && IsBalance(t) && l.Node?
    requires Inserted(t.left, l, value)
    requires Depth(l) - Depth(t.right) > 1
    ensures t.left.Node? && Grew(t.left, l, value) && Depth(l) == Depth(t.right) + 2 == Depth(t)
  {
  }

  lemma RightGrew(t: Tree, r: Tree, value: int)
    requires t.Node? && IsBalance(t) && r.Node?
    requires Inserted(t.right, r, value)
    requires Depth(t.left) - Depth(r) < -1
    ensures t.right.Node? && Grew(t.right, r, value) && Depth(r) == Depth(t.left) + 2 == Depth(t)
  {
  }

  ghost predicate Balances(t: Tree, r: Outcome, value: int) {
    r.Ok? && Inserted(t, r.tree, value)
  }

  /** The rotation picked by comparing `value` with the child's value is the right one, left side. */
  lemma {:induction false} RebalanceLeft(t: Tree, l: Tree, value: int)
    requires t.Node? && IsBalance(t) && value < t.value
    requires t.left.Node? ==> value != t.left.value
    requires l.Node? && SearchTree(l) && value in Values(l)
    requires Inserted(t.left, l, value)
    ensures Balances(t, Rebalance(Node(l, t.value, t.right), value), value)
  {
    if Depth(l) - Depth(t.right) > 1 {
      LeftGrew(t, l, value);
      if value < l.value {
        RightBalances(l.left, l.value, l.right, t.value, t.right);
      } else {
        Sides(l, value);
        RightLeftBalances(l.left, l.value, l.right, t.value, t.right);
      }
    }
  }

  lemma {:induction false} RebalanceRight(t: Tree, r: Tree, value: int)
    requires t.Node? && IsBalance(t) && value > t.value
    requires t.right.Node? ==> value != t.right.value
    requires r.Node? && SearchTree(r) && value in Values(r)
    requires Inserted(t.right, r, value)
    ensures Balances(t, Rebalance(Node(t.left, t.value, r), value), value)
  {
    if Depth(r) - Depth(t.left) > 1 {
      RightGrew(t, r, value);
      if value > r.value {
        LeftBalances(t.left, t.value, r.left, r.value, r.right);
      } else {
        Sides(r, value);
        LeftRightBalances(t.left, t.value, r.left, r.value, r.right);
      }
    }
  }

  /** On a balanced search tree no null link is met, and the result is balanced. */
  lemma {:induction false} InsertBalances(t: Tree, value: int)
    requires SearchTree(t) && IsBalance(t) && value !in Values(t)
    ensures Balances(t, BalanceInsert(t, value), value)
  {
    if t.Node? {
      if value < t.value {
        InsertBalances(t.left, value);
        RebalanceLeft(t, BalanceInsert(t.left, value).tree, value);
      } else {
        InsertBalances(t.right, value);
        RebalanceRight(t, BalanceInsert(t.right, value).tree, value);
      }
    }
  }

  // ----- unbalanced trees

  /** `a` hangs at a node that the insertion of `value` passes. */
  predicate Passed(a: Tree, t: Tree, value: int) {
    a == t ||
    (t.Node? && value < t.value && Passed(a, t.left, value)) ||
    (t.Node? && value > t.value && Passed(a, t.right, value))
  }

  /** After the recursive insertion the far side is deeper by two or more, and its root has no inner
      child, around which the rotation turns. */
  predicate Breaks(a: Tree, value: int) {
    a.Node? && value != a.value &&
    var (near, far) := if value < a.value then (a.left, a.right) else (a.right, a.left);
    var after := BalanceInsert(near, value);
    && after.Ok? && Depth(far) - Depth(after.tree) > 1
    && (if value < a.value then far.left else far.right).Leaf?
  }

  /** What the guards do when the left side took the value; the right-left rotation finds its node. */
  lemma {:induction false} NullRight(t: Tree, value: int)
    requires t.Node? && value < t.value && SearchTree(t) && value in Values(t)
    ensures Rebalance(t, value).NullLink? <==> Depth(t.right) - Depth(t.left) > 1 && t.right.left.Leaf?
  {
    Sides(t, value);
    if t.left.value < value {
      Sides(t.left, value);
    }
    assert t.right.Node? ==> t.right.value in Values(t.right);
  }

  lemma {:induction false} NullLeft(t: Tree, value: int)
    requires t.Node? && value > t.value && SearchTree(t) && value in Values(t)
    ensures Rebalance(t, value).NullLink? <==> Depth(t.left) - Depth(t.right) > 1 && t.left.right.Leaf?
  {
    Sides(t, value);
    if t.right.value > value {
      Sides(t.right, value);
    }
    assert t.left.Node? ==> t.left.value in Values(t.left);
  }

  lemma {:induction false} NullHere(t: Tree, value: int)
    requires SearchTree(t) && t.Node?
    ensures var m := Attach(t, value); m.Ok? && Rebalance(m.tree, value).NullLink? <==> Breaks(t, value)
  {
    var m := Attach(t, value);
    if m.Ok? {
      if value < t.value {
        NullRight(m.tree, value);
      } else {
        NullLeft(m.tree, value);
      }
    }
  }

  /** On any search tree a null link is followed exactly if one of the passed subtrees breaks. */
  lemma {:induction false} NullLinkIff(t: Tree, value: int)
    requires SearchTree(t)
    ensures BalanceInsert(t, value).NullLink? <==> exists a :: Passed(a, t, value) && Breaks(a, value)
  {
    if t.Node? && value != t.value {
      var near := if value < t.value then t.left else t.right;
      NullLinkIff(near, value);
      NullHere(t, value);
      assert BalanceInsert(t, value).NullLink? <==> BalanceInsert(near, value).NullLink? || Breaks(t, value);
      assert forall a :: Passed(a, t, value) <==> a == t || Passed(a, near, value);
      assert Passed(t, t, value);
    }
  }

  /** Balance is needed: 10 is three levels deep and has no left child to rotate around. */
  lemma {:induction false} UnbalancedTreeBreaks()
    ensures var t := Node(Leaf, 5, Node(Leaf, 10, Node(Leaf, 11, Node(Leaf, 12, Leaf))));
      SearchTree(t) && !IsBalance(t) && BalanceInsert(t, 3) == NullLink
  {
    var c := Node(Leaf, 12, Leaf);
    var b := Node(Leaf, 11, c);
    var a := Node(Leaf, 10, b);
    assert Values(c) == {12} && Values(b) == {11, 12} && Values(a) == {10, 11, 12};
    assert Depth(c) == 1 && Depth(b) == 2 && Depth(a) == 3;
    assert SearchTree(c) && SearchTree(b) && SearchTree(a);
    assert BalanceInsert(Leaf, 3) == Ok(Node(Leaf, 3, Leaf));
  }

  lemma {:induction false} RebalanceNeverDeepens(t: Tree, value: int)
    requires t.Node? && Rebalance(t, value).Ok?
    ensures Depth(Rebalance(t, value).tree) <= Depth(t)
  {
    var sub := Depth(t.left) - Depth(t.right);
    assert sub > 1 ==> Depth(t) == Depth(t.left) + 1;
    assert sub < -1 ==> Depth(t) == Depth(t.right) + 1;
  }

  /** No insertion into any tree adds more than one level. */
  lemma {:induction false} DepthGrowsByOne(t: Tree, value: int)
    requires BalanceInsert(t, value).Ok?
    ensures Depth(BalanceInsert(t, value).tree) <= Depth(t) + 1
  {
    if t.Node? {
      DepthGrowsByOne(if value < t.value then t.left else t.right, value);
      RebalanceNeverDeepens(Attach(t, value).tree, value);
    }
  }

  // ----- runs of insertions

  lemma {:induction false} Inserts(t: Tree, value: int)
    requires SearchTree(t) && IsBalance(t)
    ensures BalanceInsert(t, value) == if value in Values(t) then Duplicate else Ok(BalanceInsert(t, value).GetOr(t))
    ensures var r := BalanceInsert(t, value).GetOr(t);
      SearchTree(r) && IsBalance(r) && Values(r) == Values(t) + {value}
  {
    if value !in Values(t) {
      InsertBalances(t, value);
    }
  }

  /** The root after calling insert_node on each value in turn; a call that throws keeps the root. */
  function InsertAll(values: seq<int>): (t: Tree)
    ensures SearchTree(t) && IsBalance(t)
    ensures Values(t) == ToSet(values)
  {
    if values == [] then Leaf else
      var n := |values| - 1;
      assert values == values[..n] + [values[n]];
      var t := InsertAll(values[..n]);
      Inserts(t, values[n]);
      BalanceInsert(t, values[n]).GetOr(t)
  }

  /** One more call: it throws exactly on a value inserted before, and then the root stays. */
  lemma {:induction false} InsertAllStep(values: seq<int>, value: int)
    ensures var root, next := InsertAll(values), InsertAll(values + [value]);
      BalanceInsert(root, value) == (if value in values then Duplicate else Ok(next)) && (value in values ==> next == root)
  {
    assert (values + [value])[..|values|] == values;
    Inserts(InsertAll(values), value);
  }

  function Fib(n: nat): nat {
    if n < 2 then n else Fib(n - 1) + Fib(n - 2)
  }

  function Pow2(n: nat): nat {
    if n == 0 then 1 else 2 * Pow2(n - 1)
  }

  lemma {:induction false} FibMonotone(m: nat, n: nat)
    requires m <= n
    ensures Fib(m) <= Fib(n)
    decreases n
  {
    if m < n {
      FibMonotone(m, n - 1);
    }
  }

  lemma {:induction false} FibDoubles(h: nat)
    ensures Pow2(h / 2) <= Fib(h + 2)
  {
    if h >= 2 {
      FibDoubles(h - 2);
      FibMonotone(h, h + 1);
    }
  }

  lemma {:induction false} FibOfSides(l: nat, r: nat)
    requires Abs(l - r) < 2
    ensures Fib(Max(l, r) + 3) <= Fib(l + 2) + Fib(r + 2)
  {
    FibMonotone(l + 1, r + 2);
    FibMonotone(r + 1, l + 2);
  }

  /** A balanced tree of depth h has at least Fib(h + 2) - 1 nodes. */
  lemma {:induction false} MinimalSize(t: Tree)
    requires IsBalance(t)
    ensures Size(t) + 1 >= Fib(Depth(t) + 2)
  {
    if t.Node? {
      MinimalSize(t.left);
      MinimalSize(t.right);
      FibOfSides(Depth(t.left), Depth(t.right));
    }
  }

  lemma {:induction false} SizeIsCardinality(t: Tree)
    requires SearchTree(t)
    ensures Size(t) == |Values(t)|
  {
    if t.Node? {
      SizeIsCardinality(t.left);
      SizeIsCardinality(t.right);
      assert Values(t.left) !! {t.value};
      forall v | v in Values(t.left) + {t.value}
        ensures v !in Values(t.right)
      {
        assert v <= t.value;
      }
    }
  }

  /** After any run of insertions, duplicates included, the tree has one node for each distinct value
      and its depth is logarithmic in their number. */
  lemma {:induction false} DepthIsLogarithmic(values: seq<int>)
    ensures var t, distinct := InsertAll(values), |ToSet(values)|;
      && Size(t) == distinct
      && Fib(Depth(t) + 2) <= distinct + 1
      && Pow2(Depth(t) / 2) <= distinct + 1
  {
    hide *;
    var t := InsertAll(values);
    SizeIsCardinality(t);
    MinimalSize(t);
    FibDoubles(Depth(t));
  }

  /** The in-order sequence of a search tree is strictly ascending. */
  lemma {:induction false} InorderAscends(t: Tree, i: nat, j: nat)
    requires SearchTree(t) && i < j < |Inorder(t)|
    ensures Inorder(t)[i] < Inorder(t)[j]
  {
    var k, s := |Inorder(t.left)|, Inorder(t);
    InorderValues(t.left);
    InorderValues(t.right);
    assert i < k ==> s[i] in Inorder(t.left);
    assert j > k ==> s[j] in Inorder(t.right);
    if j < k {
      InorderAscends(t.left, i, j);
    } else if i > k {
      InorderAscends(t.right, i - k - 1, j - k - 1);
    }
  }

  lemma {:induction false} InorderValues(t: Tree)
    ensures forall v :: v in Inorder(t) <==> v in Values(t)
  {
    if t.Node? {
      InorderValues(t.left);
      InorderValues(t.right);
    }
  }
}
