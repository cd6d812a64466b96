/** Intrusive doubly linked lists with a head and a tail sentinel, and their natural merge sort. */
module KernelList {
  import opened Ordering
  import opened Sequences
  import opened MergeSort
  import opened Deduplication

  class ListElem {
    var prev: ListElem?
    var next: ListElem?

    constructor ()
      ensures prev == null && next == null
    {
      prev, next := null, null;
    }
  }

  /** Neighbours in c point at each other. */
  ghost predicate Linked(c: seq<ListElem>)
    reads c
  {
    && (forall i {:trigger c[i].next} :: 0 <= i < |c| - 1 ==> c[i].next == c[i + 1])
    && (forall i {:trigger c[i].prev} :: 0 < i < |c| ==> c[i].prev == c[i - 1])
  }

  /** c is a whole list: head sentinel, interior elements, tail sentinel. */
  ghost predicate Chain(c: seq<ListElem>)
    reads c
  {
    |c| >= 2 && Linked(c) && c[0].prev == null && c[|c| - 1].next == null
  }

  /** A chain cannot revisit an element: walking back from both occurrences would reach the head twice. */
  lemma {:induction false} ChainDistinctAt(c: seq<ListElem>, i: nat, j: nat)
    requires Chain(c) && i < j < |c|
    ensures c[i] != c[j]
  {
    assert c[j].prev == c[j - 1];
    if i > 0 {
      assert c[i].prev == c[i - 1];
      ChainDistinctAt(c, i - 1, j - 1);
    }
  }

  lemma ChainDistinct(c: seq<ListElem>)
    requires Chain(c)
    ensures Distinct(c)
  {
    forall i, j | 0 <= i < j < |c| ensures c[i] != c[j] { ChainDistinctAt(c, i, j); }
  }

  ghost predicate Apart<T>(c: seq<T>, d: seq<T>) {
    forall i, j :: 0 <= i < |c| && 0 <= j < |d| ==> c[i] != d[j]
  }

  predicate IsInterior(e: ListElem)
    reads e
  {
    e.prev != null && e.next != null
  }

  predicate IsTail(e: ListElem)
    reads e
  {
    e.prev != null && e.next == null
  }

  ghost function WithRange<T>(c: seq<T>, k: nat, seg: seq<T>): seq<T>
    requires k <= |c|
  {
    c[..k] + seg + c[k..]
  }

  /** Where list_insert_ordered puts x, a sorted list stays sorted, and all elements equivalent to x come before it. */
  lemma InsertKeepsSorted<T>(less: (T, T) -> bool, s: seq<T>, x: T, at: nat)
    requires StrictWeakOrder(less, Elements(s) + {x}) && Sorted(less, s) && at <= |s|
    requires forall i :: 0 <= i < at ==> !less(x, s[i])
    requires at < |s| ==> less(x, s[at])
    ensures Sorted(less, WithRange(s, at, [x]))
    ensures forall i :: at <= i < |s| ==> less(x, s[i])
  {
    var r := WithRange(s, at, [x]);
    forall i | at <= i < |s|
      ensures less(x, s[i]) && !less(s[i], x)
    {
      assert s[i] in Elements(s) && s[at] in Elements(s);
      assert i > at ==> !less(s[i], s[at]);
    }
    forall i, j | 0 <= i < j < |r|
      ensures !less(r[j], r[i])
    {
      assert j < at ==> r[j] == s[j] && r[i] == s[i];
      assert i > at ==> r[j] == s[j - 1] && r[i] == s[i - 1];
      assert i < at && j > at ==> !less(s[j - 1], s[i]);
    }
  }

  method ListInsert(before: ListElem, elem: ListElem, ghost c: seq<ListElem>, ghost k: nat)
    requires Chain(c) && 0 < k < |c| && c[k] == before && elem !in c
    modifies c[k - 1], before, elem
    ensures Chain(WithRange(c, k, [elem]))
  {
    ChainDistinct(c);
    assert IsInterior(before) || IsTail(before);
    elem.prev := before.prev;
    elem.next := before;
    before.prev.next := elem;
    before.prev := elem;
  }

  method ListRemove(elem: ListElem, ghost c: seq<ListElem>, ghost k: nat) returns (after: ListElem)
    requires Chain(c) && 0 < k < |c| - 1 && c[k] == elem
    modifies c[k - 1], c[k + 1]
    ensures Chain(Without(c, k, k + 1)) && after == c[k + 1]
  {
    ChainDistinct(c);
    assert IsInterior(elem);
    elem.prev.next := elem.next;
    elem.next.prev := elem.prev;
    after := elem.next;
  }

  /** First half of list_splice: cut first..last (inclusive) out of c. */
  method UnlinkRange(first: ListElem, last: ListElem,
                     ghost c: seq<ListElem>, ghost i: nat, ghost j: nat)
    requires Chain(c) && 0 < i < j < |c| && c[i] == first && c[j - 1] == last
    modifies c[i - 1], c[j]
    ensures Chain(Without(c, i, j)) && Linked(c[i..j])
  {
    ChainDistinct(c);
    first.prev.next := last.next;
    last.next.prev := first.prev;
  }

  /** Second half of list_splice: tie the segment first..last (inclusive) in before c[k]. */
  method LinkRange(before: ListElem, first: ListElem, last: ListElem, ghost seg: seq<ListElem>,
                   ghost c: seq<ListElem>, ghost k: nat)
    requires Chain(c) && 0 < k < |c| && c[k] == before
    requires seg != [] && Linked(seg) && Distinct(seg) && Apart(c, seg)
    requires seg[0] == first && seg[|seg| - 1] == last
    modifies c[k - 1], before, first, last
    ensures Chain(WithRange(c, k, seg))
  {
    ChainDistinct(c);
    first.prev := before.prev;
    last.next := before;
    before.prev.next := first;
    before.prev := last;
  }

  /** Where element c[k] stands after c[i..j] is cut out. */
  ghost function ShiftedPosition(i: nat, j: nat, k: nat): nat
    requires i <= j && (k < i || j <= k)
  {
    if k < i then k else k - (j - i)
  }

  /** list_splice within one list: c[i..j] moves in front of c[k], which lies outside the range. */
  method ListSpliceWithin(before: ListElem, first: ListElem, last: ListElem,
                          ghost c: seq<ListElem>, ghost k: nat, ghost i: nat, ghost j: nat)
    requires Chain(c) && 0 < k < |c| && c[k] == before
    requires 0 < i <= j < |c| && c[i] == first && c[j] == last
    requires k < i || j <= k
    modifies c
    ensures Chain(WithRange(Without(c, i, j), ShiftedPosition(i, j, k), c[i..j]))
  {
    ChainDistinct(c);
    assert IsInterior(before) || IsTail(before);
    if first == last {
      assert i == j;
      assert WithRange(Without(c, i, j), ShiftedPosition(i, j, k), c[i..j]) == c;
      return;
    }
    var last' := last.prev;
    assert IsInterior(first) && IsInterior(last');
    UnlinkRange(first, last', c, i, j);
    LinkRange(before, first, last', c[i..j], Without(c, i, j), ShiftedPosition(i, j, k));
  }

  /** list_splice between two lists: c[i..j] leaves c and enters d in front of d[k]. */
  method ListSpliceAcross(before: ListElem, first: ListElem, last: ListElem,
                          ghost d: seq<ListElem>, ghost k: nat,
                          ghost c: seq<ListElem>, ghost i: nat, ghost j: nat)
    requires Chain(c) && Chain(d) && Apart(c, d)
    requires 0 < k < |d| && d[k] == before
    requires 0 < i <= j < |c| && c[i] == first && c[j] == last
    modifies c, d
    ensures Chain(Without(c, i, j)) && Chain(WithRange(d, k, c[i..j]))
    ensures Apart(Without(c, i, j), WithRange(d, k, c[i..j]))
  {
    ChainDistinct(c);
    assert IsInterior(before) || IsTail(before);
    if first == last {
      assert i == j;
      assert Without(c, i, j) == c && WithRange(d, k, c[i..j]) == d;
      return;
    }
    SplicedApart(c, d, i, j, k);
    var last' := last.prev;
    assert IsInterior(first) && IsInterior(last');
    UnlinkRange(first, last', c, i, j);
    LinkRange(before, first, last', c[i..j], d, k);
  }

  lemma SplicedApart<T>(c: seq<T>, d: seq<T>, i: nat, j: nat, k: nat)
    requires Apart(c, d) && Distinct(c) && i < j < |c| && k < |d|
    ensures Distinct(c[i..j]) && Apart(d, c[i..j])
    ensures Apart(Without(c, i, j), WithRange(d, k, c[i..j]))
  {
    var w, r := Without(c, i, j), WithRange(d, k, c[i..j]);
    forall x, y | 0 <= x < |w| && 0 <= y < |r|
      ensures w[x] != r[y]
    {
      assert w[x] == c[if x < i then x else x + (j - i)];
      assert r[y] == if y < k then d[y] else if y < k + (j - i) then c[i + (y - k)] else d[y - (j - i)];
    }
  }

  lemma SplicedIsMoved<T>(h: T, s: seq<T>, t: T, p: nat, q: nat)
    requires p < q < |s|
    ensures var c := [h] + s + [t];
            [h] + MovedBack(s, p, q) + [t] == WithRange(Without(c, q + 1, q + 2), p + 1, c[q + 1..q + 2])
    ensures Elements(MovedBack(s, p, q)) == Elements(s)
  {
    MovedBackPermutes(s, p, q);
    SameElements(MovedBack(s, p, q), s);
  }

  lemma WholeWithout<T>(h: T, s: seq<T>, t: T, k: nat)
    requires k < |s| && Distinct([h] + s + [t])
    ensures [h] + Without(s, k, k + 1) + [t] == Without([h] + s + [t], k + 1, k + 2)
    ensures {h, t} + Elements(Without(s, k, k + 1)) == {h, t} + Elements(s) - {s[k]}
  {
    var c := [h] + s + [t];
    assert c[0] == h && c[k + 1] == s[k] && c[|s| + 1] == t;
    assert forall i :: 0 <= i < |s| ==> c[i + 1] == s[i];
    WithoutOne(s, k);
  }

  lemma WithoutOne<T>(s: seq<T>, k: nat)
    requires k < |s| && forall i, j :: 0 <= i < j < |s| ==> s[i] != s[j]
    ensures Elements(Without(s, k, k + 1)) == Elements(s) - {s[k]}
  {
    var w := Without(s, k, k + 1);
    forall x | x in s && x != s[k]
      ensures x in w
    {
      var i :| 0 <= i < |s| && s[i] == x;
      assert x == w[if i < k then i else i - 1];
    }
  }

  lemma WholeWith<T>(h: T, s: seq<T>, t: T, k: nat, x: T)
    requires k <= |s|
    ensures [h] + WithRange(s, k, [x]) + [t] == WithRange([h] + s + [t], k + 1, [x])
  {
  }

  class List {
    const head: ListElem
    const tail: ListElem
    ghost var elems: seq<ListElem>

    ghost function Whole(): seq<ListElem>
      reads this
    {
      [head] + elems + [tail]
    }

    ghost predicate Valid()
      reads this, head, tail, elems
    {
      Chain(Whole())
    }

    constructor ()
      ensures Valid() && elems == [] && fresh(head) && fresh(tail)
    {
      head := new ListElem();
      tail := new ListElem();
      elems := [];
      new;
      head.next := tail;
      tail.prev := head;
    }

    method IsEmpty() returns (empty: bool)
      requires Valid()
      ensures empty <==> elems == []
    {
      assert Whole()[0].next == Whole()[1];
      empty := head.next == tail;
      ChainDistinct(Whole());
      assert elems != [] ==> Whole()[1] != Whole()[|elems| + 1];
    }

    method PushBack(elem: ListElem)
      requires Valid() && elem !in Whole()
      modifies Nodes(), this`elems, elem
      ensures Valid() && elems == old(elems) + [elem] && Nodes() == old(Nodes()) + {elem}
    {
      ghost var c := Whole();
      ListInsert(tail, elem, c, |c| - 1);
      elems := elems + [elem];
      assert Whole() == WithRange(c, |c| - 1, [elem]);
    }

    /** Every interior link of c points the other way; the sentinels are untouched. */
    ghost predicate Flipped(c: seq<ListElem>)
      reads c
    {
      && (forall i {:trigger c[i].next} :: 1 <= i < |c| - 1 ==> c[i].next == c[i - 1])
      && (forall i {:trigger c[i].prev} :: 1 <= i < |c| - 1 ==> c[i].prev == c[i + 1])
      && |c| >= 3 && c[0].prev == null && c[|c| - 1].next == null
      && c[0].next == c[1] && c[|c| - 1].prev == c[|c| - 2]
    }

    /** The loop of list_reverse. */
    method FlipLinks()
      requires Valid() && elems != []
      modifies Nodes()
      ensures elems == old(elems) && Flipped(Whole())
    {
      ghost var c := Whole();
      ghost var n := |elems|;
      ChainDistinct(c);
      assert c[0] == head && c[n + 1] == tail;
      var e: ListElem := head.next;
      ghost var k := 1;
      while e != tail
        invariant 1 <= k <= n + 1 && e == c[k] && c == Whole() && elems == old(elems)
        invariant forall i {:trigger c[i].next} :: k <= i <= n ==> c[i].next == c[i + 1]
        invariant forall i {:trigger c[i].prev} :: k <= i <= n ==> c[i].prev == c[i - 1]
        invariant forall i {:trigger c[i].next} :: 1 <= i < k ==> c[i].next == c[i - 1]
        invariant forall i {:trigger c[i].prev} :: 1 <= i < k ==> c[i].prev == c[i + 1]
        invariant head.next == c[1] && tail.prev == c[n] && head.prev == null && tail.next == null
        decreases n + 1 - k
      {
        assert c[k].next == c[k + 1];
        e.prev, e.next := e.next, e.prev;
        e := e.prev;
        k := k + 1;
      }
    }

    /** The links of c all point the other way, but for the outer links of the sentinels. */
    ghost predicate Turned(c: seq<ListElem>)
      reads c
    {
      var n := |c| - 2;
      && n >= 1 && c[0].prev == null && c[n + 1].next == null
      && c[0].next == c[n] && c[n].prev == c[0] && c[n + 1].prev == c[1] && c[1].next == c[n + 1]
      && (forall i {:trigger c[i].next} :: 2 <= i <= n ==> c[i].next == c[i - 1])
      && (forall i {:trigger c[i].prev} :: 1 <= i < n ==> c[i].prev == c[i + 1])
    }

    /** The two swaps at the ends of list_reverse. */
    method TurnEnds()
      requires elems != [] && Flipped(Whole()) && Distinct(Whole())
      modifies Nodes()
      ensures elems == old(elems) && Turned(Whole())
    {
      ghost var c := Whole();
      ghost var n := |elems|;
      assert c[0] == head && c[n + 1] == tail && c[1] in Nodes() && c[n] in Nodes();
      head.next, tail.prev := tail.prev, head.next;
      head.next.prev, tail.prev.next := tail.prev.next, head.next.prev;
    }

    lemma TurnedChain(c: seq<ListElem>, w: seq<ListElem>)
      requires Turned(c) && |w| == |c| && w[0] == c[0] && w[|c| - 1] == c[|c| - 1]
      requires forall i :: 1 <= i < |c| - 1 ==> w[i] == c[|c| - 1 - i]
      ensures Chain(w)
    {
    }

    method Reverse()
      requires Valid()
      modifies Nodes(), this`elems
      ensures Valid() && elems == Reversed(old(elems))
    {
      ghost var c := Whole();
      var empty := IsEmpty();
      if empty { return; }
      ChainDistinct(c);
      FlipLinks();
      TurnEnds();
      elems := Reversed(elems);
      TurnedChain(c, Whole());
    }

    /** The nodes this list may write, sentinels included. */
    ghost function Nodes(): set<ListElem>
      reads this
    {
      {head, tail} + Elements(elems)
    }

    lemma WholeInNodes(e: ListElem)
      ensures e in Whole() ==> e in Nodes()
    {
    }

    /** The element behind Whole()[i]. */
    method Next(e: ListElem, ghost i: nat) returns (r: ListElem)
      requires Valid() && i < |elems| + 1 && e == Whole()[i]
      ensures r == Whole()[i + 1]
    {
      assert Whole()[i].next == Whole()[i + 1];
      r := e.next;
    }

    lemma SamePosition(i: nat, j: nat)
      requires Valid() && i < |elems| + 2 && j < |elems| + 2
      ensures Whole()[i] == Whole()[j] <==> i == j
    {
      ChainDistinct(Whole());
    }

    /** Finds the end (exclusive) of the run that starts at a. */
    method FindEndOfRun(a: ListElem, b: ListElem, less: (ListElem, ListElem) -> bool, ghost p: nat)
      returns (r: ListElem, ghost q: nat)
      requires Valid() && p < |elems| && a == Whole()[p + 1] && b == tail
      ensures q == EndOfRun(less, elems, p) && r == Whole()[q + 1]
    {
      q := p + 1;
      r := Next(a, p + 1);
      while r != b && !less(r, r.prev)
        invariant p < q <= |elems| && r == Whole()[q + 1] && r.prev == Whole()[q]
        invariant EndOfRun(less, elems, q - 1) == EndOfRun(less, elems, p)
        decreases |elems| - q
      {
        r := Next(r, q + 1);
        q := q + 1;
      }
      SamePosition(q + 1, |elems| + 1);
    }

    /** The splice in inplace_merge: moves the element just before `after` in front of `before`. */
    method MoveBefore(before: ListElem, after: ListElem, ghost p: nat, ghost q: nat)
      requires Valid() && p < q < |elems| && before == Whole()[p + 1] && after == Whole()[q + 2]
      modifies Nodes(), this`elems
      ensures Valid() && elems == MovedBack(old(elems), p, q) && Nodes() == old(Nodes())
      ensures before == Whole()[p + 2] && forall i :: q + 2 <= i <= |elems| + 1 ==> Whole()[i] == old(Whole()[i])
    {
      ghost var c := Whole();
      assert c[q + 2].prev == c[q + 1];
      ListSpliceWithin(before, after.prev, after, c, p + 1, q + 1, q + 2);
      SplicedIsMoved(head, elems, tail, p, q);
      elems := MovedBack(elems, p, q);
    }

    /** The loop body of inplace_merge, with a0 at p and a1b0 at q. */
    method MergeStep(a0: ListElem, a1b0: ListElem, less: (ListElem, ListElem) -> bool,
                     ghost p: nat, ghost q: nat, ghost hi: nat)
      returns (a0': ListElem, a1b0': ListElem, ghost q': nat)
      requires Valid() && p < q < hi <= |elems| && a0 == Whole()[p + 1] && a1b0 == Whole()[q + 1]
      modifies Nodes(), this`elems
      ensures Valid() && Nodes() == old(Nodes()) && |elems| == |old(elems)|
      ensures p + 1 <= q' <= hi && Merge(less, elems, p + 1, q', hi) == Merge(less, old(elems), p, q, hi)
      ensures a0' == Whole()[p + 2] && a1b0' == Whole()[q' + 1] && Whole()[hi + 1] == old(Whole()[hi + 1])
    {
      assert a0 == elems[p] && a1b0 == elems[q];
      a0', a1b0', q' := a0, a1b0, q;
      if !less(a1b0, a0) {
        a0' := Next(a0, p + 1);
      } else {
        a1b0' := Next(a1b0, q + 1);
        MoveBefore(a0, a1b0', p, q);
        q' := q + 1;
      }
    }

    /** Merges the adjacent ranges [lo..mid] and [mid..hi] by splicing single elements back. */
    method InplaceMerge(a: ListElem, ab: ListElem, b1: ListElem, less: (ListElem, ListElem) -> bool,
                        ghost lo: nat, ghost mid: nat, ghost hi: nat)
      requires Valid() && lo <= mid <= hi <= |elems|
      requires a == Whole()[lo + 1] && ab == Whole()[mid + 1] && b1 == Whole()[hi + 1]
      modifies Nodes(), this`elems
      ensures Valid() && elems == Merge(less, old(elems), lo, mid, hi) && Nodes() == old(Nodes())
      ensures b1 == Whole()[hi + 1]
    {
      var a0, a1b0 := a, ab;
      ghost var p: nat, q: nat := lo, mid;
      while a0 != a1b0 && a1b0 != b1
        invariant Valid() && Nodes() == old(Nodes()) && p <= q <= hi <= |elems| == |old(elems)|
        invariant Merge(less, elems, p, q, hi) == Merge(less, old(elems), lo, mid, hi)
        invariant a0 == Whole()[p + 1] && a1b0 == Whole()[q + 1] && b1 == Whole()[hi + 1]
        decreases hi - p
      {
        a0, a1b0, q := MergeStep(a0, a1b0, less, p, q, hi);
        p := p + 1;
      }
      SamePosition(p + 1, q + 1);
      SamePosition(q + 1, hi + 1);
    }

    /** One pass of list_sort: merges adjacent runs pairwise and counts the runs it leaves. */
    method MergePass(less: (ListElem, ListElem) -> bool) returns (outputRunCnt: nat)
      requires Valid()
      modifies Nodes(), this`elems
      ensures Valid() && Nodes() == old(Nodes())
      ensures (elems, outputRunCnt) == Pass(less, old(elems), 0, 0)
    {
      ghost var p: nat := 0;
      outputRunCnt := 0;
      var a0 := Next(head, 0);
      while a0 != tail
        invariant Valid() && Nodes() == old(Nodes()) && p <= |elems| && a0 == Whole()[p + 1]
        invariant Pass(less, elems, p, outputRunCnt) == Pass(less, old(elems), 0, 0)
        decreases |elems| - p
      {
        SamePosition(p + 1, |elems| + 1);
        outputRunCnt := outputRunCnt + 1;
        var a1b0, q := FindEndOfRun(a0, tail, less, p);
        SamePosition(q + 1, |elems| + 1);
        if a1b0 == tail { return; }
        var b1, r := FindEndOfRun(a1b0, tail, less, q);
        InplaceMerge(a0, a1b0, b1, less, p, q, r);
        a0, p := b1, r;
      }
      SamePosition(p + 1, |elems| + 1);
    }

    /** list_sort: a stable sort; a pass over r runs leaves at most ceil(r / 2), so it ends. */
    method Sort(less: (ListElem, ListElem) -> bool)
      requires Valid() && StrictWeakOrder(less, Elements(elems))
      modifies Nodes(), this`elems
      ensures Valid() && Nodes() == old(Nodes()) && StableSortOf(less, old(elems), elems)
    {
      ghost var s0 := elems;
      OwnOrderKeepsTies(less);
      PassCorrect(less, s0, elems, elems, 0, 0);
      var outputRunCnt := MergePass(less);
      while outputRunCnt > 1
        invariant Valid() && Nodes() == old(Nodes()) && multiset(elems) == multiset(s0)
        invariant KeepsTies(less, s0, elems) && Runs(less, elems) <= outputRunCnt
        decreases outputRunCnt
      {
        SameElements(elems, s0);
        PassCorrect(less, s0, elems, elems, 0, 0);
        outputRunCnt := MergePass(less);
      }
      SameElements(elems, s0);
      NoDescentsSorted(less, elems);
    }

    lemma OwnOrderKeepsTies(less: (ListElem, ListElem) -> bool)
      requires Valid()
      ensures KeepsTies(less, elems, elems)
    {
      var c := Whole();
      ChainDistinct(c);
      forall i, j | 0 <= i < |elems| && 0 <= j < |elems| && elems[i] == elems[j] ensures i == j {
        assert c[i + 1] == elems[i] && c[j + 1] == elems[j];
      }
    }

    /** Inserts elem behind every element that is not greater than it. */
    method InsertOrdered(elem: ListElem, less: (ListElem, ListElem) -> bool) returns (ghost at: nat)
      requires Valid() && elem !in Whole()
      modifies Nodes(), elem, this`elems
      ensures Valid() && at <= |old(elems)| && elems == WithRange(old(elems), at, [elem])
      ensures forall i :: 0 <= i < at ==> !less(elem, old(elems[i]))
      ensures at < |old(elems)| ==> less(elem, old(elems[at]))
    {
      ghost var c := Whole();
      ChainDistinct(c);
      assert c[0].next == c[1];
      var e: ListElem := head.next;
      at := 0;
      while e != tail && !less(elem, e)
        invariant at <= |elems| && e == c[at + 1]
        invariant forall i :: 0 <= i < at ==> !less(elem, elems[i])
        decreases |elems| - at
      {
        assert c[at + 1].next == c[at + 2];
        e, at := e.next, at + 1;
      }
      WholeWith(head, elems, tail, at, elem);
      ListInsert(e, elem, c, at + 1);
      elems := WithRange(elems, at, [elem]);
    }

    /** list_remove of the element at position k. */
    method RemoveAt(elem: ListElem, ghost k: nat)
      requires Valid() && k < |elems| && elem == elems[k]
      modifies Nodes(), this`elems
      ensures Valid() && elems == Without(old(elems), k, k + 1) && Nodes() == old(Nodes()) - {elem}
    {
      ghost var c := Whole();
      ChainDistinct(c);
      WholeWithout(head, elems, tail, k);
      var _ := ListRemove(elem, c, k + 1);
      elems := Without(elems, k, k + 1);
    }

    /** Nodes of an optional list. */
    static ghost function NodesOf(l: List?): set<ListElem>
      reads l
    {
      if l == null then {} else l.Nodes()
    }

    /** `duplicates`, when given, is a well-formed list apart from this one. */
    ghost predicate SeparateFrom(duplicates: List?)
      reads this, duplicates, NodesOf(duplicates)
    {
      duplicates != null ==> duplicates != this && duplicates.Valid() && Nodes() !! duplicates.Nodes()
    }

    /** list_unique's removal of the element at k, with the optional push onto `duplicates`. */
    method Drop(elem: ListElem, duplicates: List?, ghost k: nat)
      requires Valid() && SeparateFrom(duplicates) && k < |elems| && elem == elems[k]
      modifies Nodes(), this`elems, duplicates, NodesOf(duplicates)
      ensures Valid() && SeparateFrom(duplicates) && elems == Without(old(elems), k, k + 1)
      ensures duplicates != null ==> duplicates.elems == old(duplicates.elems) + [elem]
      ensures Nodes() <= old(Nodes()) && NodesOf(duplicates) <= old(NodesOf(duplicates)) + {elem}
    {
      assert elem in Nodes();
      if duplicates != null {
        duplicates.WholeInNodes(elem);
        ghost var theirs := duplicates.Whole();
        RemoveAt(elem, k);
        assert duplicates.Whole() == theirs && duplicates.Valid();
        duplicates.PushBack(elem);
      } else {
        RemoveAt(elem, k);
      }
    }

    /** Nodes of this list and of `duplicates`. */
    ghost function Region(duplicates: List?): set<ListElem>
      reads this, duplicates
    {
      Nodes() + NodesOf(duplicates)
    }

    /** Where list_unique stands: elem is at i, next behind it, and `dropped` was removed on the way. */
    ghost predicate UniqueAt(duplicates: List?, less: (ListElem, ListElem) -> bool,
                             goal: (seq<ListElem>, seq<ListElem>), dups: seq<ListElem>,
                             elem: ListElem, next: ListElem, i: nat, dropped: seq<ListElem>)
      reads this, duplicates, Region(duplicates)
    {
      && Valid() && SeparateFrom(duplicates)
      && i < |elems| && elem == elems[i] && next == Whole()[i + 2]
      && (duplicates != null ==> duplicates.elems == dups + dropped)
      && Dedup(less, elems, i, dropped) == goal
    }

    /** The loop body of list_unique. */
    method UniqueStep(elem: ListElem, next: ListElem, duplicates: List?, less: (ListElem, ListElem) -> bool,
                      ghost goal: (seq<ListElem>, seq<ListElem>), ghost dups: seq<ListElem>,
                      ghost i: nat, ghost dropped: seq<ListElem>)
      returns (elem': ListElem, next': ListElem, ghost i': nat, ghost dropped': seq<ListElem>)
      requires UniqueAt(duplicates, less, goal, dups, elem, next, i, dropped) && next != tail
      modifies Region(duplicates), this`elems, duplicates
      ensures UniqueAt(duplicates, less, goal, dups, elem', next', i', dropped')
      ensures Region(duplicates) <= old(Region(duplicates)) && |elems| - i' < old(|elems|) - i
    {
      SamePosition(i + 2, |elems| + 1);
      if !less(elem, next) && !less(next, elem) {
        Drop(next, duplicates, i + 1);
        elem', i', dropped' := elem, i, dropped + [next];
      } else {
        elem', i', dropped' := next, i + 1, dropped;
      }
      next' := Next(elem', i' + 1);
    }

    /** list_unique: drops all but the first of adjacent equal elements, appending them to `duplicates`. */
    method Unique(duplicates: List?, less: (ListElem, ListElem) -> bool)
      requires Valid() && StrictWeakOrder(less, Elements(elems)) && SeparateFrom(duplicates)
      modifies Region(duplicates), this`elems, duplicates
      ensures Valid() && SeparateFrom(duplicates) && elems == GroupFirsts(less, old(elems))
      ensures duplicates != null ==> duplicates.elems == old(duplicates.elems) + GroupRests(less, old(elems))
    {
      var empty := IsEmpty();
      if empty { return; }
      ghost var goal := Dedup(less, elems, 0, []);
      ghost var dups := if duplicates == null then [] else duplicates.elems;
      DedupCorrect(less, elems);
      var elem := Next(head, 0);
      var next := Next(elem, 1);
      ghost var i: nat, dropped: seq<ListElem> := 0, [];
      while next != tail
        invariant UniqueAt(duplicates, less, goal, dups, elem, next, i, dropped)
        invariant Region(duplicates) <= old(Region(duplicates))
        decreases |elems| - i
      {
        elem, next, i, dropped := UniqueStep(elem, next, duplicates, less, goal, dups, i, dropped);
      }
      SamePosition(i + 2, |elems| + 1);
    }
  }
}
