/** The in-place sorts of 数据结构/sort.cpp. */
module Sorting {

  // ----- sequences before and after

  /** The elements outside lo, ..., hi - 1 stay in place, the others are rearranged. */
  ghost predicate Rearranged(a: seq<int>, b: seq<int>, lo: int, hi: int) {
    && |a| == |b| && multiset(a) == multiset(b)
    && forall i :: 0 <= i < |a| && !(lo <= i < hi) ==> b[i] == a[i]
  }

  lemma SliceMultiset(a: seq<int>, lo: nat, hi: nat)
    requires lo <= hi <= |a|
    ensures multiset(a[lo..hi]) == multiset(a) - multiset(a[..lo]) - multiset(a[hi..])
  {
    assert a == a[..lo] + a[lo..hi] + a[hi..];
  }

  lemma RearrangedSlice(a: seq<int>, b: seq<int>, lo: nat, hi: nat)
    requires Rearranged(a, b, lo, hi) && lo <= hi <= |a|
    ensures multiset(a[lo..hi]) == multiset(b[lo..hi])
  {
    assert a[..lo] == b[..lo] && a[hi..] == b[hi..];
    SliceMultiset(a, lo, hi);
    SliceMultiset(b, lo, hi);
  }

  /** A rearranged element was among the rearranged ones before, so bounds on them survive. */
  lemma CameFrom(a: seq<int>, b: seq<int>, lo: nat, hi: nat, i: nat)
    requires Rearranged(a, b, lo, hi) && lo <= i < hi <= |a|
    ensures exists k :: lo <= k < hi && b[i] == a[k]
  {
    RearrangedSlice(a, b, lo, hi);
    assert b[i] == b[lo..hi][i - lo] && b[i] in multiset(b[lo..hi]);
    assert b[i] in a[lo..hi];
  }

  lemma Swapped(a: seq<int>, i: nat, j: nat)
    requires i < |a| && j < |a|
    ensures multiset(a[i := a[j]][j := a[i]]) == multiset(a)
  {
  }

  // ----- quick_sort

  /** While the pivot is held aside, writing a[j] over the hole at i moves the hole to j. */
  lemma {:induction false} MoveHole(a: seq<int>, b: seq<int>, i: nat, j: nat, pivot: int, all: multiset<int>)
    requires i < |a| && j < |a| && i != j && b == a[i := a[j]]
    requires multiset(a[i := pivot]) == all
    ensures multiset(b[j := pivot]) == all
  {
    var held := a[i := pivot];
    Swapped(held, i, j);
    assert held[i := held[j]][j := held[i]] == b[j := pivot];
  }

  /** The two halves of a round: the hole is at `left`, then at the result, and the other way round.
      `all` is the multiset of the array with the pivot in the hole. */
  method FromRight(arr: array<int>, left: nat, right0: nat, prvot: int, ghost all: multiset<int>) returns (right: nat)
    requires left < right0 < arr.Length && multiset(arr[..][left := prvot]) == all
    modifies arr
    ensures left <= right <= right0 && multiset(arr[..][right := prvot]) == all
    ensures forall i :: right < i <= right0 ==> prvot <= arr[i]
    ensures left < right ==> arr[left] <= prvot
    ensures forall i :: 0 <= i < arr.Length && i != left ==> arr[i] == old(arr[i])
  {
    right := right0;
    while left < right && arr[right] >= prvot
      invariant left <= right <= right0
      invariant forall i :: right < i <= right0 ==> prvot <= arr[i]
    {
      right := right - 1;
    }
    if left < right {
      arr[left] := arr[right];
      MoveHole(old(arr[..]), arr[..], left, right, prvot, all);
    }
  }

  method FromLeft(arr: array<int>, left0: nat, right: nat, prvot: int, ghost all: multiset<int>) returns (left: nat)
    requires left0 <= right < arr.Length && multiset(arr[..][right := prvot]) == all
    modifies arr
    ensures left0 <= left <= right && multiset(arr[..][left := prvot]) == all
    ensures left0 < right && old(arr[left0]) <= prvot ==> left0 < left
    ensures forall i :: left0 <= i < left ==> arr[i] <= prvot
    ensures left < right ==> prvot <= arr[right]
    ensures forall i :: 0 <= i < arr.Length && i != right ==> arr[i] == old(arr[i])
  {
    left := left0;
    while left < right && arr[left] <= prvot
      invariant left0 <= left <= right
      invariant forall i :: left0 <= i < left ==> arr[i] <= prvot
    {
      left := left + 1;
    }
    if left < right {
      arr[right] := arr[left];
      MoveHole(old(arr[..]), arr[..], right, left, prvot, all);
    }
  }

  /** The loop of quick_sort; `m` is where left and right meet. */
  method Partition(arr: array<int>, preLeft: nat, preRight: nat) returns (m: nat)
    requires preLeft < preRight < arr.Length
    modifies arr
    ensures preLeft <= m <= preRight && arr[m] == old(arr[preLeft])
    ensures Rearranged(old(arr[..]), arr[..], preLeft, preRight + 1)
    ensures forall i :: preLeft <= i < m ==> arr[i] <= arr[m]
    ensures forall i :: m < i <= preRight ==> arr[m] <= arr[i]
  {
    var left, right := preLeft, preRight;
    var prvot := arr[left];
    assert arr[..][left := prvot] == arr[..];
    ghost var all := multiset(arr[..]);
    while left < right
      invariant preLeft <= left <= right <= preRight
      invariant multiset(arr[..][left := prvot]) == all
      invariant forall i :: 0 <= i < arr.Length && !(preLeft <= i <= preRight) ==> arr[i] == old(arr[i])
      invariant forall i :: preLeft <= i < left ==> arr[i] <= prvot
      invariant forall i :: right < i <= preRight ==> prvot <= arr[i]
    {
      right := FromRight(arr, left, right, prvot, all);
      left := FromLeft(arr, left, right, prvot, all);
    }
    arr[left] := prvot;
    return left;
  }

  method QuickSort(arr: array<int>, left: int, right: int)
    requires left < right ==> 0 <= left && right < arr.Length
    modifies arr
    ensures Rearranged(old(arr[..]), arr[..], left, right + 1) && SortedBetween(arr[..], left, right)
    ensures left >= right ==> arr[..] == old(arr[..])
    decreases if left < right then right - left else 0
  {
    if left >= right {
      return;
    }
    hide Rearranged, SortedBetween;
    var m: int := Partition(arr, left, right);
    ghost var a := arr[..];
    QuickSort(arr, left, m - 1);
    ghost var b := arr[..];
    QuickSort(arr, m + 1, right);
    ghost var c := arr[..];
    QuickSorted(old(arr[..]), a, b, c, left, m, right);
  }

  ghost predicate SortedBetween(a: seq<int>, lo: int, hi: int) {
    forall i, j :: 0 <= lo <= i <= j <= hi < |a| ==> a[i] <= a[j]
  }

  lemma {:induction false} QuickSorted(before: seq<int>, a: seq<int>, b: seq<int>, c: seq<int>, left: nat, m: nat, right: nat)
    requires left <= m <= right < |a| && Rearranged(before, a, left, right + 1)
    requires forall i :: left <= i < m ==> a[i] <= a[m]
    requires forall i :: m < i <= right ==> a[m] <= a[i]
    requires Rearranged(a, b, left, m) && Rearranged(b, c, m + 1, right + 1)
    requires SortedBetween(b, left, m - 1) && SortedBetween(c, m + 1, right)
    ensures SortedBetween(c, left, right) && Rearranged(before, c, left, right + 1)
  {
    forall i | left <= i < m
      ensures b[i] <= a[m]
    {
      CameFrom(a, b, left, m, i);
    }
    forall i | m < i <= right
      ensures a[m] <= c[i]
    {
      CameFrom(b, c, m + 1, right + 1, i);
    }
  }

  // ----- heap_sort

  function Parent(k: nat): nat
    requires k > 0
  {
    (k - 1) / 2
  }

  /** Position `k` lies in the subtree of position `i`. */
  predicate Below(i: nat, k: nat) {
    k == i || (k > i && Below(i, Parent(k)))
  }

  /** The subtree of `i`, cut off at `count`, is a max-heap. */
  ghost predicate HeapAt(a: seq<int>, count: nat, i: nat)
    requires count <= |a|
  {
    forall k :: 0 < k < count && k != i && Below(i, k) ==> a[Parent(k)] >= a[k]
  }

  lemma {:induction false} BelowChild(i: nat, k: nat)
    requires Below(i, k) && k != i
    ensures Below(2 * i + 1, k) != Below(2 * i + 2, k)
  {
    if Parent(k) == i {
      assert k == 2 * i + 1 || k == 2 * i + 2;
      NotAbove(2 * i + 2, 2 * i + 1);
      assert Parent(2 * i + 2) == i;
    } else {
      BelowChild(i, Parent(k));
    }
  }

  lemma {:induction false} NotAbove(i: nat, k: nat)
    requires k < i
    ensures !Below(i, k)
  {
  }

  lemma {:induction false} BelowIsTransitive(i: nat, j: nat, k: nat)
    requires Below(i, j) && Below(j, k)
    ensures Below(i, k)
  {
    if k != j {
      BelowIsTransitive(i, j, Parent(k));
    }
  }

  /** The largest of position `index` and its children. */
  function Largest(a: seq<int>, count: nat, index: nat): (r: nat)
    requires index < count <= |a|
    ensures r < count && (r == index || r == 2 * index + 1 || r == 2 * index + 2)
    ensures a[r] >= a[index] && (r != index ==> a[r] > a[index])
    ensures 2 * index + 1 < count ==> a[r] >= a[2 * index + 1]
    ensures 2 * index + 2 < count ==> a[r] >= a[2 * index + 2]
  {
    var l := if 2 * index + 1 < count && a[index] < a[2 * index + 1] then 2 * index + 1 else index;
    if 2 * index + 2 < count && a[l] < a[2 * index + 2] then 2 * index + 2 else l
  }

  /** What a call of heapify changes: only the subtree of `index`, whose top becomes the largest of the three. */
  ghost predicate Sifted(a: seq<int>, b: seq<int>, count: nat, index: nat)
    requires index < count <= |a|
  {
    && |b| == |a| && multiset(b) == multiset(a)
    && (forall k :: 0 <= k < |a| && (k >= count || !Below(index, k)) ==> b[k] == a[k])
    && b[index] == a[Largest(a, count, index)]
  }

  /** After the swap and the recursive call the whole subtree is a heap. */
  lemma {:induction false} SiftStep(a: seq<int>, b: seq<int>, c: seq<int>, count: nat, index: nat)
    requires index < count <= |a| && HeapAt(a, count, 2 * index + 1) && HeapAt(a, count, 2 * index + 2)
    requires var l := Largest(a, count, index);
      l != index && b == a[index := a[l]][l := a[index]] && Sifted(b, c, count, l) && HeapAt(c, count, l)
    ensures HeapAt(c, count, index) && Sifted(a, c, count, index)
  {
    var l := Largest(a, count, index);
    NotAbove(l, index);
    Swapped(a, index, l);
    forall k | 0 <= k < |a| && (k >= count || !Below(index, k))
      ensures c[k] == a[k]
    {
      if Below(l, k) {
        BelowIsTransitive(index, l, k);
      }
    }
    forall k | 0 < k < count && k != index && Below(index, k)
      ensures c[Parent(k)] >= c[k]
    {
      SiftEdge(a, b, c, count, index, k);
    }
  }

  lemma {:induction false} SiftEdge(a: seq<int>, b: seq<int>, c: seq<int>, count: nat, index: nat, k: nat)
    requires index < count <= |a| && HeapAt(a, count, 2 * index + 1) && HeapAt(a, count, 2 * index + 2)
    requires var l := Largest(a, count, index);
      l != index && b == a[index := a[l]][l := a[index]] && Sifted(b, c, count, l) && HeapAt(c, count, l)
    requires 0 < k < count && k != index && Below(index, k)
    ensures c[Parent(k)] >= c[k]
  {
    var l, p := Largest(a, count, index), Parent(k);
    NotAbove(l, index);
    BelowChild(index, k);
    var other := if l == 2 * index + 1 then 2 * index + 2 else 2 * index + 1;
    if k == l {
      // the new top of the subtree was the old top of the tree or a child of its old top
      var m := Largest(b, count, l);
      if m != l {
        NotAbove(l, Parent(l));
        assert a[l] >= a[m] by {
          assert Parent(m) == l && Below(l, m);
        }
      }
    } else if Below(l, k) {
      assert Below(l, p);
    } else {
      assert Below(other, k);
      if k != other {
        assert Below(other, p);
        BelowChild(index, p);
      }
    }
  }

  method Heapify(arr: array<int>, count: nat, index: nat)
    requires index < count <= arr.Length
    requires HeapAt(arr[..], count, 2 * index + 1) && HeapAt(arr[..], count, 2 * index + 2)
    modifies arr
    ensures HeapAt(arr[..], count, index) && Sifted(old(arr[..]), arr[..], count, index)
    decreases count - index
  {
    var largest, leftSon, rightSon := index, 2 * index + 1, 2 * index + 2;
    if leftSon < count && arr[largest] < arr[leftSon] {
      largest := leftSon;
    }
    if rightSon < count && arr[largest] < arr[rightSon] {
      largest := rightSon;
    }
    ghost var a := arr[..];
    assert largest == Largest(a, count, index);
    if largest != index {
      arr[index], arr[largest] := arr[largest], arr[index];
      ghost var b := arr[..];
      assert b == a[index := a[largest]][largest := a[index]];
      ChildrenStayHeaps(a, b, count, index, largest);
      Heapify(arr, count, largest);
      SiftStep(a, b, arr[..], count, index);
    } else {
      LargestIsHeap(a, count, index);
    }
  }

  lemma LargestIsHeap(a: seq<int>, count: nat, index: nat)
    requires index < count <= |a| && HeapAt(a, count, 2 * index + 1) && HeapAt(a, count, 2 * index + 2)
    requires Largest(a, count, index) == index
    ensures HeapAt(a, count, index)
  {
    forall k | 0 < k < count && k != index && Below(index, k)
      ensures a[Parent(k)] >= a[k]
    {
      BelowChild(index, k);
    }
  }

  /** The swap happens above the subtrees of the swapped child. */
  lemma ChildrenStayHeaps(a: seq<int>, b: seq<int>, count: nat, index: nat, l: nat)
    requires index < count <= |a| && HeapAt(a, count, l) && index < l < count
    requires |b| == |a| && forall k :: 0 <= k < |a| && k != index && k != l ==> b[k] == a[k]
    ensures HeapAt(b, count, 2 * l + 1) && HeapAt(b, count, 2 * l + 2)
  {
    forall k, top | (top == 2 * l + 1 || top == 2 * l + 2) && 0 < k < count && k != top && Below(top, k)
      ensures b[Parent(k)] >= b[k]
    {
      assert Below(l, top) by {
        assert Parent(top) == l;
      }
      BelowIsTransitive(l, top, k);
      if Parent(k) <= l {
        NotAbove(top, Parent(k));
      }
    }
  }

  /** Every parent from `lo` on is at least as large as its children. */
  ghost predicate HeapFrom(a: seq<int>, count: nat, lo: nat)
    requires count <= |a|
  {
    forall k :: 0 < k < count && Parent(k) >= lo ==> a[Parent(k)] >= a[k]
  }

  lemma {:induction false} BelowIsLater(i: nat, k: nat)
    requires Below(i, k)
    ensures i <= k && (k != i ==> Parent(k) >= i)
  {
    if k != i {
      BelowIsLater(i, Parent(k));
    }
  }

  lemma HeapFromGivesHeapAt(a: seq<int>, count: nat, lo: nat, i: nat)
    requires count <= |a| && HeapFrom(a, count, lo) && lo <= i
    ensures HeapAt(a, count, i)
  {
    forall k | 0 < k < count && k != i && Below(i, k)
      ensures a[Parent(k)] >= a[k]
    {
      BelowIsLater(i, k);
    }
  }

  lemma HeapFromExtends(a: seq<int>, b: seq<int>, count: nat, lo: nat)
    requires lo < count <= |a| && HeapFrom(a, count, lo + 1) && Sifted(a, b, count, lo) && HeapAt(b, count, lo)
    ensures HeapFrom(b, count, lo)
  {
    forall k | 0 < k < count && Parent(k) >= lo
      ensures b[Parent(k)] >= b[k]
    {
      if !Below(lo, k) {
        assert !Below(lo, Parent(k));
      }
    }
  }

  lemma {:induction false} RootIsLargest(a: seq<int>, count: nat, k: nat)
    requires k < count <= |a| && HeapFrom(a, count, 0)
    ensures a[0] >= a[k]
  {
    if k > 0 {
      RootIsLargest(a, count, Parent(k));
    }
  }

  method HeapSort(arr: array<int>, count: nat)
    requires count <= arr.Length
    modifies arr
    ensures Rearranged(old(arr[..]), arr[..], 0, count)
    ensures SortedBetween(arr[..], 0, count - 1)
  {
    ghost var a0 := arr[..];
    for n := count / 2 downto 0
      invariant Rearranged(a0, arr[..], 0, count)
      invariant HeapFrom(arr[..], count, n)
    {
      ghost var a := arr[..];
      HeapFromGivesHeapAt(a, count, n + 1, 2 * n + 1);
      HeapFromGivesHeapAt(a, count, n + 1, 2 * n + 2);
      Heapify(arr, count, n);
      HeapFromExtends(a, arr[..], count, n);
    }
    var n: int := count - 1;
    while n > 0
      invariant -1 <= n < count && (count > 0 ==> n >= 0) && Rearranged(a0, arr[..], 0, count)
      invariant n >= 0 ==> HalfSorted(arr[..], n + 1, count)
    {
      ghost var a := arr[..];
      arr[n], arr[0] := arr[0], arr[n];
      ghost var b := arr[..];
      AfterRootSwap(a, b, n);
      Heapify(arr, n, 0);
      RootGoesLast(a, b, arr[..], n, count);
      n := n - 1;
    }
    if count > 0 {
      HalfSortedToTheRoot(arr[..], count);
    }
  }

  lemma HalfSortedToTheRoot(a: seq<int>, count: nat)
    requires 1 <= count <= |a| && HalfSorted(a, 1, count)
    ensures SortedBetween(a, 0, count - 1)
  {
  }

  /** A heap before `n`; from there on the sorted elements, none below one of the heap. */
  ghost predicate HalfSorted(a: seq<int>, n: nat, count: nat)
    requires n <= count <= |a|
  {
    && HeapFrom(a, n, 0)
    && (forall i, j :: 0 <= i < n <= j < count ==> a[i] <= a[j])
    && SortedBetween(a, n, count - 1)
  }

  /** Swapping the root behind the shrinking heap. */
  lemma {:induction false} AfterRootSwap(a: seq<int>, b: seq<int>, n: nat)
    requires 0 < n < |a| && HeapFrom(a, n + 1, 0) && b == a[n := a[0]][0 := a[n]]
    ensures HeapFrom(b, n, 1) && HeapAt(b, n, 1) && HeapAt(b, n, 2)
    ensures multiset(a) == multiset(b) && forall k :: 0 <= k < n ==> b[k] <= b[n]
  {
    Swapped(a, 0, n);
    assert HeapFrom(b, n, 1);
    HeapFromGivesHeapAt(b, n, 1, 1);
    HeapFromGivesHeapAt(b, n, 1, 2);
    forall k | 0 <= k < n
      ensures b[k] <= b[n]
    {
      RootIsLargest(a, n + 1, if k == 0 then n else k);
    }
  }

  lemma {:induction false} RootRearranges(a: seq<int>, b: seq<int>, c: seq<int>, n: nat, count: nat)
    requires 0 < n < count <= |a| && b == a[n := a[0]][0 := a[n]] && Sifted(b, c, n, 0)
    ensures Rearranged(b, c, 0, n) && Rearranged(a, c, 0, count)
    ensures |c| == |a| && c[n] == a[0] && forall j :: n < j < count ==> c[j] == a[j]
  {
    Swapped(a, 0, n);
  }

  lemma {:induction false} RootGoesLast(a: seq<int>, b: seq<int>, c: seq<int>, n: nat, count: nat)
    requires 0 < n < count <= |a| && b == a[n := a[0]][0 := a[n]] && HalfSorted(a, n + 1, count)
    requires HeapFrom(b, n, 1) && (forall k :: 0 <= k < n ==> b[k] <= b[n])
    requires Sifted(b, c, n, 0) && HeapAt(c, n, 0)
    ensures HalfSorted(c, n, count) && Rearranged(a, c, 0, count)
  {
    hide HeapAt, HeapFrom, SortedBetween, Rearranged;
    RootRearranges(a, b, c, n, count);
    HeapFromExtends(b, c, n, 0);
    RootIsBound(b, c, n, count);
    SortedWithRoot(a, c, n, count);
  }

  lemma SortedWithRoot(a: seq<int>, c: seq<int>, n: nat, count: nat)
    requires 0 < n < count <= |a| == |c| && SortedBetween(a, n + 1, count - 1)
    requires (forall j :: n < j < count ==> c[j] == a[j] && c[n] <= a[j])
    ensures SortedBetween(c, n, count - 1)
  {
  }

  lemma RootIsBound(b: seq<int>, c: seq<int>, n: nat, count: nat)
    requires 0 < n < count <= |b| && Rearranged(b, c, 0, n)
    requires forall k :: 0 <= k < n ==> b[k] <= b[n]
    requires forall j :: n < j < count ==> b[n] <= b[j]
    ensures forall i, j :: 0 <= i < n <= j < count ==> c[i] <= c[j]
  {
    forall i | 0 <= i < n
      ensures c[i] <= b[n]
    {
      CameFrom(b, c, 0, n, i);
    }
  }

  // ----- select_sort on a vector

  /** After comparing position `index` with the first `jdex` positions: the elements before `index`
      descend, those already compared are at least as large as the one at `index`, and the least of
      all waits at `index - 1` until it is reached and then moves to `index`. */
  ghost predicate Selecting(a: seq<int>, index: nat, jdex: nat)
    requires index < |a| && jdex <= |a|
  {
    && (forall i, j :: 0 <= i <= j < index ==> a[i] >= a[j])
    && (forall k :: 0 <= k < jdex && k < index ==> a[k] >= a[index])
    && (jdex < index ==> forall k :: 0 <= k < |a| ==> a[index - 1] <= a[k])
    && (jdex >= index > 0 ==> forall k :: 0 <= k < |a| ==> a[index] <= a[k])
    && (index == 0 ==> forall k :: 0 <= k < jdex ==> a[0] <= a[k])
  }

  lemma {:induction false} SelectStep(a: seq<int>, index: nat, jdex: nat)
    requires index < |a| && jdex < |a| && Selecting(a, index, jdex)
    ensures var b := if a[index] > a[jdex] then a[index := a[jdex]][jdex := a[index]] else a;
      Selecting(b, index, jdex + 1) && multiset(b) == multiset(a)
  {
    Swapped(a, index, jdex);
  }

  /** The next position starts where the least of all waits. */
  lemma SelectNext(a: seq<int>, index: nat)
    requires index < |a| && Selecting(a, index, |a|)
    ensures forall i, j :: 0 <= i <= j <= index ==> a[i] >= a[j]
    ensures index + 1 < |a| ==> Selecting(a, index + 1, 0)
  {
  }

  /** The inner loop. */
  method SelectAt(vec: array<int>, index: nat)
    requires index < vec.Length && Selecting(vec[..], index, 0)
    modifies vec
    ensures Selecting(vec[..], index, vec.Length) && multiset(vec[..]) == multiset(old(vec[..]))
  {
    hide Selecting;
    for jdex := 0 to vec.Length
      invariant Selecting(vec[..], index, jdex) && multiset(vec[..]) == multiset(old(vec[..]))
    {
      ghost var a := vec[..];
      SelectStep(a, index, jdex);
      if vec[index] > vec[jdex] {
        vec[index], vec[jdex] := vec[jdex], vec[index];
        assert vec[..] == a[index := a[jdex]][jdex := a[index]];
      }
    }
  }

  method SelectSort(vec: array<int>)
    modifies vec
    ensures multiset(vec[..]) == multiset(old(vec[..]))
    ensures forall i, j :: 0 <= i <= j < vec.Length ==> vec[i] >= vec[j]
  {
    for index := 0 to vec.Length
      invariant multiset(vec[..]) == multiset(old(vec[..]))
      invariant index < vec.Length ==> Selecting(vec[..], index, 0)
      invariant forall i, j :: 0 <= i <= j < index ==> vec[i] >= vec[j]
    {
      SelectAt(vec, index);
      SelectNext(vec[..], index);
    }
  }
}
