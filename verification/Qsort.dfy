/**
 * qsort_r, an in-place heap sort (libc/src/stdlib/qsort_r.c), under any comparison that is a total preorder, as
 * section 7.22.5.2 of ISO/IEC 9899:2011 asks for. Elements are swapped whole.
 */
module Qsort {
  type Order<!T> = (T, T) -> int

  ghost predicate TotalPreorder<T(!new)>(cmp: Order<T>)
  {
    && (forall a, b :: cmp(a, b) < 0 <==> cmp(b, a) > 0)
    && (forall a, b, c {:trigger cmp(a, b), cmp(b, c)} :: cmp(a, b) <= 0 && cmp(b, c) <= 0 ==> cmp(a, c) <= 0)
  }

  predicate Le<T>(cmp: Order<T>, a: T, b: T)
  {
    cmp(a, b) <= 0
  }

  lemma {:induction false} LeTrans<T(!new)>(cmp: Order<T>, a: T, b: T, c: T)
    requires TotalPreorder(cmp) && Le(cmp, a, b) && Le(cmp, b, c)
    ensures Le(cmp, a, c)
  {
  }

  lemma {:induction false} LeTotal<T(!new)>(cmp: Order<T>, a: T, b: T)
    requires TotalPreorder(cmp)
    ensures Le(cmp, a, a)
    ensures cmp(a, b) < 0 ==> Le(cmp, a, b)
    ensures cmp(a, b) >= 0 ==> Le(cmp, b, a)
  {
  }

  function Swap<T>(s: seq<T>, i: nat, j: nat): (r: seq<T>)
    requires i < |s| && j < |s|
    ensures |r| == |s|
  {
    s[i := s[j]][j := s[i]]
  }

  lemma {:induction false} SwapPermutes<T>(s: seq<T>, i: nat, j: nat)
    requires i < |s| && j < |s|
    ensures multiset(Swap(s, i, j)) == multiset(s)
  {
  }

  // ---------- sifting ----------

  /** The child that a node is compared with. */
  function Child<T>(s: seq<T>, cmp: Order<T>, root: nat, end: nat): (c: nat)
    requires end <= |s| && 2 * root + 1 < end
    ensures root < c < end && (c == 2 * root + 1 || c == 2 * root + 2)
  {
    var c := 2 * root + 1;
    if c + 1 < end && cmp(s[c], s[c + 1]) < 0 then c + 1 else c
  }

  function Sift<T>(s: seq<T>, cmp: Order<T>, root: nat, end: nat): (r: seq<T>)
    requires end <= |s|
    ensures |r| == |s|
    decreases end - root
  {
    if 2 * root + 1 >= end then s
    else
      var c := Child(s, cmp, root, end);
      if cmp(s[root], s[c]) >= 0 then s else Sift(Swap(s, root, c), cmp, c, end)
  }

  lemma {:induction false} SiftPermutes<T>(s: seq<T>, cmp: Order<T>, root: nat, end: nat)
    requires end <= |s|
    ensures multiset(Sift(s, cmp, root, end)) == multiset(s)
    decreases end - root
  {
    if 2 * root + 1 < end {
      var c := Child(s, cmp, root, end);
      SwapPermutes(s, root, c);
      SiftPermutes(Swap(s, root, c), cmp, c, end);
    }
  }

  /** Only [root, end) changes. */
  lemma {:induction false} SiftFrame<T>(s: seq<T>, cmp: Order<T>, root: nat, end: nat, k: nat)
    requires end <= |s| && k < |s| && (k < root || end <= k)
    ensures Sift(s, cmp, root, end)[k] == s[k]
    decreases end - root
  {
    if 2 * root + 1 < end {
      var c := Child(s, cmp, root, end);
      SiftFrame(Swap(s, root, c), cmp, c, end, k);
    }
  }

  /** Node i is not above its parent, for parents from lo on. */
  ghost predicate EdgeOk<T>(s: seq<T>, cmp: Order<T>, lo: nat, i: nat)
  {
    0 < i < |s| && lo <= (i - 1) / 2 ==> Le(cmp, s[i], s[(i - 1) / 2])
  }

  ghost predicate Heap<T>(s: seq<T>, cmp: Order<T>, lo: nat, end: nat)
  {
    forall i: nat :: i < end ==> EdgeOk(s, cmp, lo, i)
  }

  /** A heap but for the node root, whose children are not above its parent. */
  ghost predicate HeapBut<T>(s: seq<T>, cmp: Order<T>, lo: nat, end: nat, root: nat)
  {
    && (forall i: nat :: i < end && (i - 1) / 2 != root ==> EdgeOk(s, cmp, lo, i))
    && (forall i: nat :: i < end && (i - 1) / 2 == root ==> SkipOk(s, cmp, lo, root, i))
  }

  ghost predicate SkipOk<T>(s: seq<T>, cmp: Order<T>, lo: nat, root: nat, i: nat)
  {
    0 < i < |s| && 0 < root < |s| && lo <= (root - 1) / 2 ==> Le(cmp, s[i], s[(root - 1) / 2])
  }

  /** Sifting mends the one bad node. */
  lemma {:induction false} SiftHeap<T(!new)>(s: seq<T>, cmp: Order<T>, lo: nat, root: nat, end: nat)
    requires TotalPreorder(cmp) && end <= |s| && lo <= root && HeapBut(s, cmp, lo, end, root)
    ensures Heap(Sift(s, cmp, root, end), cmp, lo, end)
    decreases end - root
  {
    hide TotalPreorder, EdgeOk, SkipOk;
    if 2 * root + 1 >= end {
      forall i: nat | i < end ensures EdgeOk(s, cmp, lo, i) {
        LeafEdge(s, cmp, lo, root, end, i);
      }
    } else {
      var c := Child(s, cmp, root, end);
      if cmp(s[root], s[c]) >= 0 {
        forall i: nat | i < end ensures EdgeOk(s, cmp, lo, i) {
          RootEdge(s, cmp, lo, root, end, i);
        }
      } else {
        SwapHeapBut(s, cmp, lo, root, end);
        SiftHeap(Swap(s, root, c), cmp, lo, c, end);
      }
    }
  }

  lemma {:induction false} LeafEdge<T>(s: seq<T>, cmp: Order<T>, lo: nat, root: nat, end: nat, i: nat)
    requires HeapBut(s, cmp, lo, end, root) && 2 * root + 1 >= end && i < end
    ensures EdgeOk(s, cmp, lo, i)
  {
    if i == 0 {
    } else {
      assert (i - 1) / 2 != root;
    }
  }

  lemma {:induction false} RootEdge<T(!new)>(s: seq<T>, cmp: Order<T>, lo: nat, root: nat, end: nat, i: nat)
    requires TotalPreorder(cmp) && end <= |s| && HeapBut(s, cmp, lo, end, root) && i < end
    requires 2 * root + 1 < end && cmp(s[root], s[Child(s, cmp, root, end)]) >= 0
    ensures EdgeOk(s, cmp, lo, i)
  {
    if 0 < i && (i - 1) / 2 == root {
      var c := Child(s, cmp, root, end);
      ChildLargest(s, cmp, root, end, i);
      LeTotal(cmp, s[root], s[c]);
      LeTrans(cmp, s[i], s[c], s[root]);
    }
  }

  lemma {:induction false} ChildLargest<T(!new)>(s: seq<T>, cmp: Order<T>, root: nat, end: nat, i: nat)
    requires TotalPreorder(cmp) && end <= |s| && 2 * root + 1 < end && 0 < i < end && (i - 1) / 2 == root
    ensures Le(cmp, s[i], s[Child(s, cmp, root, end)])
  {
    var l := 2 * root + 1;
    assert i == l || i == l + 1;
    LeTotal(cmp, s[l], s[l]);
    if l + 1 < end {
      LeTotal(cmp, s[l], s[l + 1]);
      LeTotal(cmp, s[l + 1], s[l + 1]);
    }
  }

  lemma {:induction false} SwapHeapBut<T(!new)>(s: seq<T>, cmp: Order<T>, lo: nat, root: nat, end: nat)
    requires TotalPreorder(cmp) && end <= |s| && lo <= root && HeapBut(s, cmp, lo, end, root) && 2 * root + 1 < end
    requires cmp(s[root], s[Child(s, cmp, root, end)]) < 0
    ensures var c := Child(s, cmp, root, end);
            HeapBut(Swap(s, root, c), cmp, lo, end, c)
  {
    hide TotalPreorder, EdgeOk, SkipOk, Swap;
    var c := Child(s, cmp, root, end);
    var r := Swap(s, root, c);
    forall i: nat | i < end && (i - 1) / 2 != c ensures EdgeOk(r, cmp, lo, i) {
      SwapEdge(s, cmp, lo, root, end, c, i);
    }
    forall i: nat | i < end && (i - 1) / 2 == c ensures SkipOk(r, cmp, lo, c, i) {
      SwapSkip(s, cmp, lo, root, end, c, i);
    }
  }

  lemma {:induction false} SwapEdge<T(!new)>(s: seq<T>, cmp: Order<T>, lo: nat, root: nat, end: nat, c: nat, i: nat)
    requires TotalPreorder(cmp) && end <= |s| && lo <= root && HeapBut(s, cmp, lo, end, root) && 2 * root + 1 < end
    requires c == Child(s, cmp, root, end) && cmp(s[root], s[c]) < 0 && i < end && (i - 1) / 2 != c
    ensures EdgeOk(Swap(s, root, c), cmp, lo, i)
  {
    if i == 0 {
    } else if (i - 1) / 2 == root {
      SwapChild(s, cmp, lo, root, end, c, i);
    } else if i == root {
      assert (c - 1) / 2 == root;
      assert SkipOk(s, cmp, lo, root, c);
    } else {
      assert EdgeOk(s, cmp, lo, i);
    }
  }

  lemma {:induction false} SwapChild<T(!new)>(s: seq<T>, cmp: Order<T>, lo: nat, root: nat, end: nat, c: nat, i: nat)
    requires TotalPreorder(cmp) && end <= |s| && 2 * root + 1 < end && 0 < i < end && (i - 1) / 2 == root
    requires c == Child(s, cmp, root, end) && cmp(s[root], s[c]) < 0
    ensures EdgeOk(Swap(s, root, c), cmp, lo, i)
  {
    ChildLargest(s, cmp, root, end, i);
    LeTotal(cmp, s[root], s[c]);
  }

  lemma {:induction false} SwapSkip<T(!new)>(s: seq<T>, cmp: Order<T>, lo: nat, root: nat, end: nat, c: nat, i: nat)
    requires end <= |s| && lo <= root && HeapBut(s, cmp, lo, end, root) && 2 * root + 1 < end
    requires c == Child(s, cmp, root, end) && i < end && (i - 1) / 2 == c
    ensures SkipOk(Swap(s, root, c), cmp, lo, c, i)
  {
    assert (c - 1) / 2 == root;
    assert EdgeOk(s, cmp, lo, i);
  }

  /** The root of a heap is largest. */
  lemma {:induction false} HeapMax<T(!new)>(s: seq<T>, cmp: Order<T>, end: nat, i: nat)
    requires TotalPreorder(cmp) && Heap(s, cmp, 0, end) && i < end <= |s|
    ensures Le(cmp, s[i], s[0])
    decreases i
  {
    if i == 0 {
      LeTotal(cmp, s[0], s[0]);
    } else {
      HeapMax(s, cmp, end, (i - 1) / 2);
      assert EdgeOk(s, cmp, 0, i);
      LeTrans(cmp, s[i], s[(i - 1) / 2], s[0]);
    }
  }

  // ---------- the two phases ----------

  /** Sifting node i turns a heap above i into a heap from i on. */
  lemma {:induction false} BuildNext<T>(s: seq<T>, cmp: Order<T>, i: nat, end: nat)
    requires Heap(s, cmp, i + 1, end) && end <= |s|
    ensures HeapBut(s, cmp, i, end, i)
  {
    forall k: nat | k < end && (k - 1) / 2 != i ensures EdgeOk(s, cmp, i, k) {
      assert EdgeOk(s, cmp, i + 1, k);
    }
  }

  ghost predicate Ordered<T>(s: seq<T>, cmp: Order<T>, i: nat, j: nat)
  {
    i < j < |s| ==> Le(cmp, s[i], s[j])
  }

  /** From `end` on everything is in its final place. */
  ghost predicate Settled<T>(s: seq<T>, cmp: Order<T>, end: nat)
  {
    forall i: nat, j: nat :: end <= j ==> Ordered(s, cmp, i, j)
  }

  /** Moving the root of a heap behind it settles one more element and leaves a heap but for its root. */
  lemma {:induction false} ExtractNext<T(!new)>(s: seq<T>, cmp: Order<T>, end: nat)
    requires TotalPreorder(cmp) && 0 < end < |s| && Heap(s, cmp, 0, end + 1) && Settled(s, cmp, end + 1)
    ensures var r := Swap(s, 0, end);
            Settled(r, cmp, end) && HeapBut(r, cmp, 0, end, 0)
  {
    hide TotalPreorder, Heap, Ordered, EdgeOk, SkipOk;
    var r := Swap(s, 0, end);
    forall i: nat, j: nat | end <= j ensures Ordered(r, cmp, i, j) {
      SettleOne(s, cmp, end, i, j);
    }
    forall k: nat | k < end && (k - 1) / 2 != 0 ensures EdgeOk(r, cmp, 0, k) {
      ExtractEdge(s, cmp, end, k);
    }
    forall k: nat | k < end && (k - 1) / 2 == 0 ensures SkipOk(r, cmp, 0, 0, k) {
      RootSkip(r, cmp, k);
    }
  }

  lemma {:induction false} RootSkip<T>(s: seq<T>, cmp: Order<T>, k: nat)
    ensures SkipOk(s, cmp, 0, 0, k)
  {
  }

  lemma {:induction false} SettleOne<T(!new)>(s: seq<T>, cmp: Order<T>, end: nat, i: nat, j: nat)
    requires TotalPreorder(cmp) && 0 < end < |s| && Heap(s, cmp, 0, end + 1) && Settled(s, cmp, end + 1) && end <= j
    ensures Ordered(Swap(s, 0, end), cmp, i, j)
  {
    hide Heap, TotalPreorder;
    if i < j < |s| {
      var i' := if i == 0 then end else if i == end then 0 else i;
      if j == end {
        HeapMax(s, cmp, end + 1, i');
      } else {
        assert Ordered(s, cmp, i', j);
      }
    }
  }

  lemma {:induction false} ExtractEdge<T>(s: seq<T>, cmp: Order<T>, end: nat, k: nat)
    requires 0 < end < |s| && Heap(s, cmp, 0, end + 1) && k < end && (k - 1) / 2 != 0
    ensures EdgeOk(Swap(s, 0, end), cmp, 0, k)
  {
    assert EdgeOk(s, cmp, 0, k);
  }

  /** Rearranging the front leaves what is settled settled. */
  lemma {:induction false} SiftSettled<T>(s: seq<T>, cmp: Order<T>, root: nat, end: nat)
    requires end <= |s| && Settled(s, cmp, end)
    ensures Settled(Sift(s, cmp, root, end), cmp, end)
    decreases end - root
  {
    if 2 * root + 1 < end {
      var c := Child(s, cmp, root, end);
      SwapSettled(s, cmp, root, c, end);
      SiftSettled(Swap(s, root, c), cmp, c, end);
    }
  }

  lemma {:induction false} SwapSettled<T>(s: seq<T>, cmp: Order<T>, a: nat, b: nat, end: nat)
    requires a < end <= |s| && b < end && Settled(s, cmp, end)
    ensures Settled(Swap(s, a, b), cmp, end)
  {
    var r := Swap(s, a, b);
    forall i: nat, j: nat | end <= j ensures Ordered(r, cmp, i, j) {
      var i' := if i == a then b else if i == b then a else i;
      assert Ordered(s, cmp, i', j);
    }
  }

  ghost predicate Sorted<T>(s: seq<T>, cmp: Order<T>)
  {
    forall i: nat, j: nat :: Ordered(s, cmp, i, j)
  }

  /** When only the first element is left, everything is settled. */
  lemma {:induction false} AllSettled<T>(s: seq<T>, cmp: Order<T>)
    requires Settled(s, cmp, 1)
    ensures Sorted(s, cmp)
  {
    forall i: nat, j: nat ensures Ordered(s, cmp, i, j) {
      if 1 <= j {
        assert Ordered(s, cmp, i, j);
      }
    }
  }

  // ---------- the code ----------

  method SiftDown<T>(a: array<T>, start: nat, end: nat, cmp: Order<T>)
    requires end <= a.Length
    modifies a
    ensures a[..] == Sift(old(a[..]), cmp, start, end)
  {
    var root := start;
    while 2 * root + 1 < end
      invariant Sift(a[..], cmp, root, end) == Sift(old(a[..]), cmp, start, end)
      decreases end - root
    {
      var child := 2 * root + 1;
      if child + 1 < end && cmp(a[child], a[child + 1]) < 0 {
        child := child + 1;
      }
      assert child == Child(a[..], cmp, root, end);
      if cmp(a[root], a[child]) >= 0 {
        return;
      }
      ghost var before := a[..];
      a[root], a[child] := a[child], a[root];
      assert a[..] == Swap(before, root, child);
      root := child;
    }
  }

  /** Sort an array. The result is always a permutation, and is sorted for every length but two: an array of two
      elements is left as it is. */
  method Sort<T(!new)>(a: array<T>, cmp: Order<T>)
    requires TotalPreorder(cmp)
    modifies a
    ensures multiset(a[..]) == multiset(old(a[..]))
    ensures Sorted(a[..], cmp) <==> a.Length != 2 || Le(cmp, old(a[..])[0], old(a[..])[1])
    ensures a.Length <= 2 ==> a[..] == old(a[..])
  {
    hide TotalPreorder, Heap, Settled, Sorted;
    var n := a.Length;
    if n <= 2 {
      ShortSorted(a[..], cmp);
      return;
    }
    var i := n / 2;
    NoEdges(a[..], cmp, i);
    while i > 0
      invariant 0 <= i <= n / 2 && multiset(a[..]) == multiset(old(a[..])) && Heap(a[..], cmp, i, n)
    {
      i := i - 1;
      BuildNext(a[..], cmp, i, n);
      SiftHeap(a[..], cmp, i, i, n);
      SiftPermutes(a[..], cmp, i, n);
      SiftDown(a, i, n, cmp);
    }
    NoneSettled(a[..], cmp);
    Extract(a, cmp);
    AllSettled(a[..], cmp);
  }

  method Extract<T(!new)>(a: array<T>, cmp: Order<T>)
    requires TotalPreorder(cmp) && a.Length > 0 && Heap(a[..], cmp, 0, a.Length) && Settled(a[..], cmp, a.Length)
    modifies a
    ensures multiset(a[..]) == multiset(old(a[..])) && Settled(a[..], cmp, 1)
  {
    hide TotalPreorder, Heap, Settled, HeapBut;
    var end := a.Length - 1;
    while end > 0
      invariant 0 <= end < a.Length && multiset(a[..]) == multiset(old(a[..]))
      invariant Heap(a[..], cmp, 0, end + 1) && Settled(a[..], cmp, end + 1)
    {
      ghost var s := a[..];
      ExtractNext(s, cmp, end);
      a[0], a[end] := a[end], a[0];
      assert a[..] == Swap(s, 0, end);
      SwapPermutes(s, 0, end);
      SiftHeap(a[..], cmp, 0, 0, end);
      SiftPermutes(a[..], cmp, 0, end);
      SiftSettled(a[..], cmp, 0, end);
      SiftDown(a, 0, end, cmp);
      end := end - 1;
    }
  }

  lemma {:induction false} NoEdges<T>(s: seq<T>, cmp: Order<T>, lo: nat)
    requires |s| / 2 <= lo
    ensures Heap(s, cmp, lo, |s|)
  {
    forall i: nat | i < |s| ensures EdgeOk(s, cmp, lo, i) {
      assert i > 0 ==> (i - 1) / 2 < lo;
    }
  }

  lemma {:induction false} NoneSettled<T>(s: seq<T>, cmp: Order<T>)
    ensures Settled(s, cmp, |s|)
  {
  }

  lemma {:induction false} ShortSorted<T>(s: seq<T>, cmp: Order<T>)
    requires |s| <= 2
    ensures Sorted(s, cmp) <==> |s| != 2 || Le(cmp, s[0], s[1])
  {
    if |s| == 2 {
      assert Ordered(s, cmp, 0, 1) <==> Le(cmp, s[0], s[1]);
    }
  }
}
