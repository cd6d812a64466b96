/** lib/stdlib.c, sort and binary_search: heapsort in place, with 1-based indexes, and bisection. */
module HeapSort {

  import opened Wrappers

  /** compare is a strcmp-like function of a total preorder. */
  ghost predicate TotalPreorder<T(!new)>(compare: (T, T) -> int) {
    && (forall a, b {:trigger compare(a, b)} :: (compare(a, b) < 0 <==> compare(b, a) > 0))
    && (forall a, b, c {:trigger Chains(compare, a, b, c)} :: Chains(compare, a, b, c))
  }

  ghost predicate Chains<T>(compare: (T, T) -> int, a: T, b: T, c: T) {
    compare(a, b) <= 0 && compare(b, c) <= 0 ==> compare(a, c) <= 0
  }

  ghost predicate Ascending<T>(compare: (T, T) -> int, s: seq<T>) {
    forall i, j {:trigger compare(s[i], s[j])} :: 0 <= i < j < |s| ==> compare(s[i], s[j]) <= 0
  }

  // ----- heaps

  /** Element number i, counting from 1. */
  function At<T>(s: seq<T>, i: nat): T
    requires 1 <= i <= |s|
  {
    s[i - 1]
  }

  /** Node i is no smaller than its child c, if it has one. */
  ghost predicate Over<T>(compare: (T, T) -> int, s: seq<T>, cnt: nat, i: nat, c: nat)
    requires cnt <= |s| && 1 <= i && 1 <= c
  {
    i <= cnt && c <= cnt ==> compare(At(s, i), At(s, c)) >= 0
  }

  ghost predicate Tops<T>(compare: (T, T) -> int, s: seq<T>, cnt: nat, i: nat)
    requires cnt <= |s| && 1 <= i
  {
    Over(compare, s, cnt, i, 2 * i) && Over(compare, s, cnt, i, 2 * i + 1)
  }

  /** The nodes from lo on head heaps. */
  ghost predicate HeapFrom<T>(compare: (T, T) -> int, s: seq<T>, cnt: nat, lo: nat)
    requires cnt <= |s| && 1 <= lo
  {
    forall i: nat :: lo <= i ==> Tops(compare, s, cnt, i)
  }

  /** So they would but for node hole, whose children its parent is not smaller than. */
  ghost predicate HeapBut<T>(compare: (T, T) -> int, s: seq<T>, cnt: nat, lo: nat, hole: nat)
    requires cnt <= |s| && 1 <= lo <= hole
  {
    && (forall i: nat :: lo <= i && i != hole ==> Tops(compare, s, cnt, i))
    && (lo <= hole / 2 ==>
        Over(compare, s, cnt, hole / 2, 2 * hole) && Over(compare, s, cnt, hole / 2, 2 * hole + 1))
  }

  ghost function Swapped<T>(s: seq<T>, i: nat, j: nat): (r: seq<T>)
    requires 1 <= i <= |s| && 1 <= j <= |s|
    ensures |r| == |s|
  {
    s[i - 1 := At(s, j)][j - 1 := At(s, i)]
  }

  lemma SwapRearranges<T>(s: seq<T>, i: nat, j: nat, cnt: nat)
    requires 1 <= i <= cnt && 1 <= j <= cnt && cnt <= |s|
    ensures multiset(Swapped(s, i, j)[..cnt]) == multiset(s[..cnt])
    ensures Swapped(s, i, j)[cnt..] == s[cnt..]
  {
    var p := s[..cnt];
    assert Swapped(s, i, j)[..cnt] == p[i - 1 := p[j - 1]][j - 1 := p[i - 1]];
  }

  /** max is a child of node hole, no smaller than it or its other child. */
  ghost predicate LargerChild<T>(compare: (T, T) -> int, s: seq<T>, cnt: nat, hole: nat, max: nat)
    requires cnt <= |s| && 1 <= hole
  {
    && (max == 2 * hole || max == 2 * hole + 1) && max <= cnt
    && Over(compare, s, cnt, max, hole)
    && Over(compare, s, cnt, max, 2 * hole) && Over(compare, s, cnt, max, 2 * hole + 1)
  }

  /** The larger child comes up, and the hole moves down: a node other than the new hole. */
  lemma SinkOver<T>(compare: (T, T) -> int, s: seq<T>, cnt: nat, lo: nat, hole: nat, max: nat, i: nat, c: nat)
    requires cnt <= |s| && 1 <= lo <= hole <= cnt
    requires HeapBut(compare, s, cnt, lo, hole) && LargerChild(compare, s, cnt, hole, max)
    requires lo <= i && i != max && (c == 2 * i || c == 2 * i + 1)
    ensures Over(compare, Swapped(s, hole, max), cnt, i, c)
  {
    if i != hole {
      assert Tops(compare, s, cnt, i);
    }
  }

  lemma SinkStep<T>(compare: (T, T) -> int, s: seq<T>, cnt: nat, lo: nat, hole: nat, max: nat)
    requires cnt <= |s| && 1 <= lo <= hole <= cnt
    requires HeapBut(compare, s, cnt, lo, hole) && LargerChild(compare, s, cnt, hole, max)
    ensures HeapBut(compare, Swapped(s, hole, max), cnt, lo, max)
  {
    var r := Swapped(s, hole, max);
    forall i: nat | lo <= i && i != max
      ensures Tops(compare, r, cnt, i)
    {
      SinkOver(compare, s, cnt, lo, hole, max, i, 2 * i);
      SinkOver(compare, s, cnt, lo, hole, max, i, 2 * i + 1);
    }
    assert Tops(compare, s, cnt, max);
  }

  lemma SinkEnd<T(!new)>(compare: (T, T) -> int, s: seq<T>, cnt: nat, lo: nat, hole: nat)
    requires cnt <= |s| && 1 <= lo <= hole && HeapBut(compare, s, cnt, lo, hole) && Tops(compare, s, cnt, hole)
    ensures HeapFrom(compare, s, cnt, lo)
  {
  }

  /** The root of a heap is its greatest element. */
  lemma {:induction false} RootIsMax<T(!new)>(compare: (T, T) -> int, s: seq<T>, cnt: nat, j: nat)
    requires TotalPreorder(compare) && cnt <= |s| && HeapFrom(compare, s, cnt, 1) && 1 <= j <= cnt
    ensures compare(At(s, 1), At(s, j)) >= 0
  {
    if j > 1 {
      var p := j / 2;
      RootIsMax(compare, s, cnt, p);
      assert Tops(compare, s, cnt, p);
      assert j == 2 * p || j == 2 * p + 1;
      assert compare(At(s, p), At(s, j)) >= 0;
      assert Chains(compare, At(s, j), At(s, p), At(s, 1));
    }
  }

  // ----- the code

  method Swap<T>(a: array<T>, i: nat, j: nat)
    requires 1 <= i <= a.Length && 1 <= j <= a.Length
    modifies a
    ensures a[..] == Swapped(old(a[..]), i, j)
  {
    a[i - 1], a[j - 1] := a[j - 1], a[i - 1];
  }

  /** The largest of node i and its children; indexes are 32-bit words. */
  method Largest<T(!new)>(a: array<T>, i: nat, cnt: nat, compare: (T, T) -> int) returns (max: nat)
    requires TotalPreorder(compare) && 1 <= i <= cnt <= a.Length < 0x8000_0000
    ensures max == i ==> Tops(compare, a[..], cnt, i)
    ensures max != i ==> LargerChild(compare, a[..], cnt, i, max)
  {
    var left, right := 2 * i % 0x1_0000_0000, (2 * i + 1) % 0x1_0000_0000;
    max := i;
    if left <= cnt && compare(a[left - 1], a[max - 1]) > 0 {
      max := left;
    }
    ghost var m := max;
    if right <= cnt && compare(a[right - 1], a[max - 1]) > 0 {
      max := right;
    }
    LargestOf(compare, a[..], cnt, i, m, max);
  }

  lemma GreaterTrans<T(!new)>(compare: (T, T) -> int, x: T, y: T, z: T)
    requires TotalPreorder(compare) && compare(x, y) >= 0 && compare(y, z) >= 0
    ensures compare(x, z) >= 0
  {
    assert Chains(compare, z, y, x);
  }

  /** The two comparisons that Largest makes are enough. */
  lemma LargestOf<T(!new)>(compare: (T, T) -> int, s: seq<T>, cnt: nat, i: nat, m: nat, max: nat)
    requires TotalPreorder(compare) && 1 <= i <= cnt <= |s|
    requires if 2 * i <= cnt && compare(At(s, 2 * i), At(s, i)) > 0 then m == 2 * i else m == i
    requires if 2 * i + 1 <= cnt && compare(At(s, 2 * i + 1), At(s, m)) > 0 then max == 2 * i + 1 else max == m
    ensures max == i ==> Tops(compare, s, cnt, i)
    ensures max != i ==> LargerChild(compare, s, cnt, i, max)
  {
    if 2 * i <= cnt {
      var x, l := At(s, i), At(s, 2 * i);
      assert compare(l, x) <= 0 ==> compare(x, l) >= 0;
      assert compare(l, l) >= 0;
      if max == 2 * i + 1 {
        if m == i { GreaterTrans(compare, At(s, max), x, l); } else { GreaterTrans(compare, At(s, max), l, x); }
      }
    }
    if 2 * i + 1 <= cnt {
      var r := At(s, 2 * i + 1);
      assert compare(r, At(s, m)) <= 0 ==> compare(At(s, m), r) >= 0;
      assert compare(r, r) >= 0;
    }
  }

  /** What heapify may do to an array: rearrange its first cnt elements from number lo on. */
  ghost predicate Rearranged<T>(s: seq<T>, r: seq<T>, lo: nat, cnt: nat)
    requires cnt <= |s|
  {
    && |r| == |s| && multiset(r[..cnt]) == multiset(s[..cnt]) && r[cnt..] == s[cnt..]
    && forall k {:trigger r[k]} :: 0 <= k < lo - 1 && k < |s| ==> r[k] == s[k]
  }

  lemma SwapWithin<T>(s0: seq<T>, s: seq<T>, lo: nat, cnt: nat, i: nat, j: nat)
    requires cnt <= |s0| && Rearranged(s0, s, lo, cnt) && lo <= i < j <= cnt && 1 <= i
    ensures Rearranged(s0, Swapped(s, i, j), lo, cnt)
  {
    SwapRearranges(s, i, j, cnt);
  }

  /** heapify: node i sinks to its place, so that the nodes from i on head heaps. */
  method Heapify<T(!new)>(a: array<T>, i0: nat, cnt: nat, compare: (T, T) -> int)
    requires TotalPreorder(compare) && 1 <= i0 <= cnt <= a.Length < 0x8000_0000
    requires HeapFrom(compare, a[..], cnt, i0 + 1)
    modifies a
    ensures HeapFrom(compare, a[..], cnt, i0) && Rearranged(old(a[..]), a[..], i0, cnt)
  {
    var i := i0;
    ghost var s0 := a[..];
    while true
      invariant i0 <= i <= cnt && HeapBut(compare, a[..], cnt, i0, i) && Rearranged(s0, a[..], i0, cnt)
      decreases cnt - i
    {
      var max := Largest(a, i, cnt, compare);
      if max == i {
        break;
      }
      SinkStep(compare, a[..], cnt, i0, i, max);
      SwapWithin(s0, a[..], i0, cnt, i, max);
      Swap(a, i, max);
      i := max;
    }
    SinkEnd(compare, a[..], cnt, i0, i);
  }

  // ----- sorting

  /** The elements after number i are in order, and none before is greater than any of them. */
  ghost predicate SortedAfter<T>(compare: (T, T) -> int, s: seq<T>, i: nat)
    requires i <= |s|
  {
    && Ascending(compare, s[i..])
    && forall x, y {:trigger compare(x, y)} :: x in s[..i] && y in s[i..] ==> compare(x, y) <= 0
  }

  /** The root of the heap of i elements goes to place i. */
  lemma ExtractSorted<T(!new)>(compare: (T, T) -> int, s: seq<T>, i: nat)
    requires TotalPreorder(compare) && 1 < i <= |s| && HeapFrom(compare, s, i, 1) && SortedAfter(compare, s, i)
    ensures SortedAfter(compare, Swapped(s, 1, i), i - 1)
  {
    var r := Swapped(s, 1, i);
    assert r[i - 1..] == [At(s, 1)] + s[i..];
    assert At(s, 1) in s[..i];
    forall x | x in r[..i - 1]
      ensures x in s[..i] && compare(x, At(s, 1)) <= 0
    {
      var k :| 0 <= k < i - 1 && r[k] == x;
      var j := if k == 0 then i else k + 1;
      RootIsMax(compare, s, i, j);
      assert x == At(s, j) && s[j - 1] in s[..i];
      assert compare(At(s, 1), x) >= 0;
    }
  }

  lemma ExtractHeap<T>(compare: (T, T) -> int, s: seq<T>, i: nat)
    requires 1 < i <= |s| && HeapFrom(compare, s, i, 1)
    ensures HeapFrom(compare, Swapped(s, 1, i), i - 1, 2)
  {
    var r, n := Swapped(s, 1, i), i - 1;
    forall k: nat | 2 <= k
      ensures Tops(compare, r, n, k)
    {
      assert Tops(compare, s, i, k);
    }
  }

  /** Rearranging the part before i keeps what comes after in order. */
  lemma KeepsSorted<T>(compare: (T, T) -> int, s: seq<T>, r: seq<T>, i: nat)
    requires i <= |s| && SortedAfter(compare, s, i) && Rearranged(s, r, 1, i)
    ensures SortedAfter(compare, r, i)
  {
    forall x | x in r[..i]
      ensures x in s[..i]
    {
      assert x in multiset(r[..i]);
      assert x in multiset(s[..i]);
    }
  }

  lemma RearrangedAll<T>(s0: seq<T>, s: seq<T>, r: seq<T>, lo: nat, cnt: nat)
    requires cnt <= |s| && multiset(s) == multiset(s0) && |s| == |s0| && Rearranged(s, r, lo, cnt)
    ensures multiset(r) == multiset(s0)
  {
    assert s == s[..cnt] + s[cnt..] && r == r[..cnt] + r[cnt..];
  }

  /** sort: the array ends up in order, and with the elements it had. */
  method Sort<T(!new)>(a: array<T>, compare: (T, T) -> int)
    requires TotalPreorder(compare) && a.Length < 0x8000_0000
    modifies a
    ensures Ascending(compare, a[..]) && multiset(a[..]) == multiset(old(a[..]))
  {
    ghost var s0 := a[..];
    var cnt := a.Length;
    var i: nat := cnt / 2;
    while i > 0
      invariant i <= cnt / 2 && HeapFrom(compare, a[..], cnt, i + 1) && multiset(a[..]) == multiset(s0)
    {
      ghost var s := a[..];
      Heapify(a, i, cnt, compare);
      RearrangedAll(s0, s, a[..], i, cnt);
      i := i - 1;
    }
    i := cnt;
    while i > 1
      invariant i <= cnt && HeapFrom(compare, a[..], i, 1) && SortedAfter(compare, a[..], i)
      invariant multiset(a[..]) == multiset(s0)
    {
      SortOne(a, i, s0, compare);
      i := i - 1;
    }
    Finished(compare, a[..], i);
  }

  method SortOne<T(!new)>(a: array<T>, i: nat, ghost s0: seq<T>, compare: (T, T) -> int)
    requires TotalPreorder(compare) && 1 < i <= a.Length < 0x8000_0000
    requires HeapFrom(compare, a[..], i, 1) && SortedAfter(compare, a[..], i)
    requires multiset(a[..]) == multiset(s0) && |s0| == a.Length
    modifies a
    ensures HeapFrom(compare, a[..], i - 1, 1) && SortedAfter(compare, a[..], i - 1)
    ensures multiset(a[..]) == multiset(s0)
  {
    ghost var s := a[..];
    ExtractSorted(compare, s, i);
    ExtractHeap(compare, s, i);
    SwapRearranges(s, 1, i, a.Length);
    assert s[..a.Length] == s;
    Swap(a, 1, i);
    ghost var t := a[..];
    assert t[..a.Length] == t;
    Heapify(a, 1, i - 1, compare);
    KeepsSorted(compare, t, a[..], i - 1);
    RearrangedAll(s0, t, a[..], 1, i - 1);
  }

  lemma Finished<T(!new)>(compare: (T, T) -> int, s: seq<T>, i: nat)
    requires TotalPreorder(compare) && i <= 1 && i <= |s| && SortedAfter(compare, s, i)
    ensures Ascending(compare, s)
  {
    forall j, k | 0 <= j < k < |s|
      ensures compare(s[j], s[k]) <= 0
    {
      if j < i {
        assert s[j] in s[..i] && s[i..][k - i] == s[k];
      } else {
        assert s[i..][j - i] == s[j] && s[i..][k - i] == s[k];
      }
    }
  }

  // ----- searching

  /** binary_search: the position of an element that compares equal to key, if there is one. */
  method BinarySearch<T(!new)>(key: T, a: array<T>, compare: (T, T) -> int) returns (r: Option<nat>)
    requires TotalPreorder(compare) && Ascending(compare, a[..])
    ensures r.Some? ==> r.value < a.Length && compare(key, a[r.value]) == 0
    ensures r.None? ==> forall x :: x in a[..] ==> compare(key, x) != 0
  {
    var first, last := 0, a.Length;
    while first < last
      invariant first <= last <= a.Length
      invariant forall k :: 0 <= k < first ==> compare(key, a[k]) > 0
      invariant forall k :: last <= k < a.Length ==> compare(key, a[k]) < 0
    {
      var middle := first + (last - first) / 2;
      var cmp := compare(key, a[middle]);
      if cmp < 0 {
        Beyond(compare, a[..], key, middle);
        last := middle;
      } else if cmp > 0 {
        Beyond(compare, a[..], key, middle);
        first := middle + 1;
      } else {
        return Some(middle);
      }
    }
    return None;
  }

  lemma Beyond<T(!new)>(compare: (T, T) -> int, s: seq<T>, key: T, m: nat)
    requires TotalPreorder(compare) && Ascending(compare, s) && m < |s|
    ensures compare(key, s[m]) < 0 ==> forall k :: m <= k < |s| ==> compare(key, s[k]) < 0
    ensures compare(key, s[m]) > 0 ==> forall k :: 0 <= k <= m ==> compare(key, s[k]) > 0
  {
    if compare(key, s[m]) < 0 {
      forall k | m <= k < |s|
        ensures compare(key, s[k]) < 0
      {
        StrictTrans(compare, s[k], s[m], key);
      }
    }
    if compare(key, s[m]) > 0 {
      forall k | 0 <= k <= m
        ensures compare(key, s[k]) > 0
      {
        StrictTrans(compare, key, s[m], s[k]);
      }
    }
  }

  lemma StrictTrans<T(!new)>(compare: (T, T) -> int, x: T, y: T, z: T)
    requires TotalPreorder(compare)
    ensures compare(x, y) > 0 && (y == z || compare(z, y) <= 0) ==> compare(x, z) > 0
    ensures compare(z, y) < 0 && (x == y || compare(y, x) <= 0) ==> compare(z, x) < 0
  {
    assert Chains(compare, x, z, y) && Chains(compare, y, x, z);
  }

  /** A search of the sorted array finds a match exactly when the array had one to begin with. */
  method SortAndSearch<T(!new)>(key: T, a: array<T>, compare: (T, T) -> int) returns (r: Option<nat>)
    requires TotalPreorder(compare) && a.Length < 0x8000_0000
    modifies a
    ensures r.Some? <==> exists x :: x in old(a[..]) && compare(key, x) == 0
  {
    ghost var s := a[..];
    Sort(a, compare);
    r := BinarySearch(key, a, compare);
    SameMembers(s, a[..]);
    if r.Some? { assert a[..][r.value] in s; }
  }

  lemma SameMembers<T>(s: seq<T>, t: seq<T>)
    requires multiset(s) == multiset(t)
    ensures forall x :: x in s <==> x in t
  {
    forall x
      ensures x in s <==> x in t
    {
      assert x in s <==> x in multiset(s);
      assert x in t <==> x in multiset(t);
    }
  }
}
