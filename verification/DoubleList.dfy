/** The doubly linked list of 数据结构/double_linked_list.cpp. */
module DoubleLists {

  // ----- the list as a value

  function Reverse(s: seq<int>): (r: seq<int>)
    ensures |r| == |s| && forall i :: 0 <= i < |s| ==> r[i] == s[|s| - 1 - i]
  {
    if s == [] then [] else Reverse(s[1..]) + [s[0]]
  }

  datatype Update = AddToHead(value: int) | DelFromHead | AddToTail(value: int) | DelFromTail

  function Apply(s: seq<int>, u: Update): seq<int> {
    match u
    case AddToHead(v) => [v] + s
    case DelFromHead => if s == [] then [] else s[1..]
    case AddToTail(v) => s + [v]
    case DelFromTail => if s == [] then [] else s[..|s| - 1]
  }

  /** The contents after a run of updates on the empty list. */
  function After(updates: seq<Update>): seq<int> {
    var n := |updates|;
    if n == 0 then [] else Apply(After(updates[..n - 1]), updates[n - 1])
  }

  function Mirror(u: Update): Update {
    match u
    case AddToHead(v) => AddToTail(v)
    case DelFromHead => DelFromTail
    case AddToTail(v) => AddToHead(v)
    case DelFromTail => DelFromHead
  }

  function MirrorAll(updates: seq<Update>): seq<Update> {
    seq(|updates|, i requires 0 <= i < |updates| => Mirror(updates[i]))
  }

  lemma {:induction false} MirroredStep(s: seq<int>, u: Update)
    ensures Apply(Reverse(s), Mirror(u)) == Reverse(Apply(s, u))
  {
    var a, b := Apply(Reverse(s), Mirror(u)), Reverse(Apply(s, u));
    assert |a| == |b| && forall i :: 0 <= i < |a| ==> a[i] == b[i];
  }

  /** Head and tail are interchangeable: the mirrored run leaves the reversed list, so what one prints
      forwards the other prints backwards. */
  lemma {:induction false} MirroredRun(updates: seq<Update>)
    ensures After(MirrorAll(updates)) == Reverse(After(updates))
    decreases |updates|
  {
    var n := |updates|;
    if n > 0 {
      MirroredRun(updates[..n - 1]);
      assert MirrorAll(updates)[..n - 1] == MirrorAll(updates[..n - 1]);
      MirroredStep(After(updates[..n - 1]), updates[n - 1]);
    }
  }

  // ----- the list on the heap

  class Node {
    var value: int
    var pre: Node?
    var next: Node?

    constructor (vl: int)
      ensures value == vl && pre == null && next == null
    {
      value, pre, next := vl, null, null;
    }
  }

  /** The node at a position; null on either side of the list. */
  ghost function At(nodes: seq<Node>, i: int): Node? {
    if 0 <= i < |nodes| then nodes[i] else null
  }

  class DoubleList {
    var head: Node?
    var tail: Node?
    ghost var nodes: seq<Node>
    ghost var updates: seq<Update>  // all updates so far

    ghost predicate Linked()
      reads this, nodes
    {
      && (forall i, j :: 0 <= i < j < |nodes| ==> nodes[i] != nodes[j])
      && (forall i {:trigger nodes[i].next} :: 0 <= i < |nodes| ==> nodes[i].next == At(nodes, i + 1))
      && (forall i {:trigger nodes[i].pre} :: 0 <= i < |nodes| ==> nodes[i].pre == At(nodes, i - 1))
      && head == At(nodes, 0) && tail == At(nodes, |nodes| - 1)
    }

    ghost function Contents(): (s: seq<int>)
      reads this, nodes
      ensures |s| == |nodes|
    {
      seq(|nodes|, i requires 0 <= i < |nodes| reads this, nodes => nodes[i].value)
    }

    ghost predicate Valid()
      reads this, nodes
    {
      Linked() && Contents() == After(updates)
    }

    constructor ()
      ensures Valid() && nodes == [] && updates == []
    {
      head, tail, nodes, updates := null, null, [], [];
    }

    // The pointer updates; the public updates below record the call and print both walks.

    method LinkHead(node: Node)
      requires Linked() && node !in nodes && node.pre == null && node.next == null
      modifies this`head, this`tail, this`nodes, nodes, node
      ensures Linked() && nodes == [node] + old(nodes)
      ensures Contents() == [old(node.value)] + old(Contents())
    {
      if head == null {
        head, tail := node, node;
      } else {
        node.next := head;
        head.pre := node;
        head := node;
      }
      nodes := [node] + nodes;
      assert forall i :: 0 < i < |nodes| ==> nodes[i] == old(nodes)[i - 1];
    }

    method UnlinkHead()
      requires Linked() && head != null
      modifies this`head, this`tail, this`nodes, nodes
      ensures Linked() && nodes == old(nodes)[1..]
      ensures Contents() == old(Contents())[1..]
    {
      if head == tail {
        head, tail := null, null;
      } else {
        head := head.next;
        head.pre := null;
      }
      nodes := nodes[1..];
      assert forall i :: 0 <= i < |nodes| ==> nodes[i] == old(nodes)[i + 1];
    }

    method LinkTail(node: Node)
      requires Linked() && node !in nodes && node.pre == null && node.next == null
      modifies this`head, this`tail, this`nodes, nodes, node
      ensures Linked() && nodes == old(nodes) + [node]
      ensures Contents() == old(Contents()) + [old(node.value)]
    {
      if tail == null {
        head, tail := node, node;
      } else {
        tail.next := node;
        node.pre := tail;
        tail := node;
      }
      nodes := nodes + [node];
      assert forall i :: 0 <= i < |nodes| - 1 ==> nodes[i] == old(nodes)[i];
    }

    method UnlinkTail()
      requires Linked() && tail != null
      modifies this`head, this`tail, this`nodes, nodes
      ensures Linked() && nodes == old(nodes)[..|old(nodes)| - 1]
      ensures Contents() == old(Contents())[..|old(nodes)| - 1]
    {
      if head == tail {
        head, tail := null, null;
      } else {
        tail := tail.pre;
        tail.next := null;
      }
      nodes := nodes[..|nodes| - 1];
      assert forall i :: 0 <= i < |nodes| ==> nodes[i] == old(nodes)[i];
    }

    method AddToHead(value: int) returns (vor: seq<int>, bak: seq<int>)
      requires Valid()
      modifies this, nodes
      ensures Valid() && updates == old(updates) + [Update.AddToHead(value)]
      ensures Contents() == [value] + old(Contents())
      ensures vor == Contents() && bak == Reverse(Contents())
      ensures fresh(set n | n in nodes && n !in old(nodes))
    {
      updates := updates + [Update.AddToHead(value)];
      assert updates[..|updates| - 1] == old(updates);
      var node := new Node(value);
      LinkHead(node);
      vor, bak := Dump();
    }

    method DelFromHead() returns (vor: seq<int>, bak: seq<int>)
      requires Valid()
      modifies this, nodes
      ensures Valid() && updates == old(updates) + [Update.DelFromHead]
      ensures Contents() == if old(Contents()) == [] then [] else old(Contents())[1..]
      ensures vor == Contents() && bak == Reverse(Contents())
      ensures forall n :: n in nodes ==> n in old(nodes)
    {
      updates := updates + [Update.DelFromHead];
      assert updates[..|updates| - 1] == old(updates);
      if head == null {
        return [], [];
      }
      UnlinkHead();
      vor, bak := Dump();
    }

    method AddToTail(value: int) returns (vor: seq<int>, bak: seq<int>)
      requires Valid()
      modifies this, nodes
      ensures Valid() && updates == old(updates) + [Update.AddToTail(value)]
      ensures Contents() == old(Contents()) + [value]
      ensures vor == Contents() && bak == Reverse(Contents())
      ensures fresh(set n | n in nodes && n !in old(nodes))
    {
      updates := updates + [Update.AddToTail(value)];
      assert updates[..|updates| - 1] == old(updates);
      var node := new Node(value);
      LinkTail(node);
      vor, bak := Dump();
    }

    method DelFromTail() returns (vor: seq<int>, bak: seq<int>)
      requires Valid()
      modifies this, nodes
      ensures Valid() && updates == old(updates) + [Update.DelFromTail]
      ensures Contents() == if old(Contents()) == [] then [] else old(Contents())[..|old(Contents())| - 1]
      ensures vor == Contents() && bak == Reverse(Contents())
      ensures forall n :: n in nodes ==> n in old(nodes)
    {
      updates := updates + [Update.DelFromTail];
      assert updates[..|updates| - 1] == old(updates);
      if tail == null {
        return [], [];
      }
      UnlinkTail();
      vor, bak := Dump();
    }

    method Dump() returns (vor: seq<int>, bak: seq<int>)
      requires Linked()
      ensures Linked() && vor == Contents() == old(Contents()) && bak == Reverse(Contents())
    {
      vor := DumpVor();
      bak := DumpBak();
    }

    /** The forward walk. */
    method DumpVor() returns (out: seq<int>)
      requires Linked()
      ensures out == Contents()
    {
      out := [];
      var cur := head;
      ghost var i := 0;
      while cur != null
        invariant 0 <= i <= |nodes| && cur == At(nodes, i)
        invariant out == Contents()[..i]
        decreases |nodes| - i
      {
        out := out + [cur.value];
        cur := cur.next;
        i := i + 1;
      }
    }

    /** The backward walk. */
    method DumpBak() returns (out: seq<int>)
      requires Linked()
      ensures out == Reverse(Contents())
    {
      out := [];
      var cur := tail;
      ghost var i := |nodes|;
      while cur != null
        invariant 0 <= i <= |nodes| && cur == At(nodes, i - 1)
        invariant out == Reverse(Contents())[..|nodes| - i]
        decreases i
      {
        out := out + [cur.value];
        cur := cur.pre;
        i := i - 1;
      }
    }
  }
}
