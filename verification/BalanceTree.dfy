/** The class BalanceTree of 数据结构/tree.cpp. */
module BalanceTrees {
  import opened Basics
  import opened Tree
  import opened BinaryTreeNodes
  import Traversals

  class BalanceTree {
    var root: BinaryTreeNode?
    ghost var inserted: seq<int>  // the arguments of all calls so far

    ghost predicate Valid()
      reads this, root, Repr(root)
    {
      ValidTree(root) && Shape(root) == InsertAll(inserted)
    }

    constructor ()
      ensures Valid() && root == null && inserted == []
    {
      root, inserted := null, [];
    }

    /** `printed` is the preorder dump that follows a successful insertion. */
    method InsertNode(value: int) returns (thrown: bool, printed: seq<int>)
      requires Valid()
      modifies this, Repr(root)
      ensures Valid() && inserted == old(inserted) + [value]
      ensures thrown <==> value in old(inserted)
      ensures thrown ==> root == old(root) && unchanged(old(Repr(root))) && printed == []
      ensures !thrown ==> printed == Preorder(Shape(root))
      ensures old(Repr(root)) <= Repr(root) && fresh(Repr(root) - old(Repr(root)))
    {
      hide InsertAll, BalanceInsert, Preorder;
      InsertAllStep(inserted, value);
      var r, exit, added := BalanceInsertAt(root, value);
      thrown := exit == Thrown;
      inserted := inserted + [value];
      if thrown {
        return true, [];
      }
      // the dump walks the new tree, whether or not the field already holds its root
      printed := Traversals.PreorderStack(r);
      root := r;
    }
  }
}
