/** The ready list and the semaphores' wait lists as linked lists that share one element per thread. */
module ThreadQueues {
  import opened Ordering
  import opened KernelList
  import opened Threads

  datatype QueueId = ReadyQueue | WaitQueue(x: SemaId)

  // ----- what the lists stand for

  /** Each list's sentinels, its elements from one to the other, the threads in line on it, and the list each
      element was last put on. */
  datatype Layout = Layout(ends: map<QueueId, (ListElem, ListElem)>, chains: map<QueueId, seq<ListElem>>,
                           lines: map<QueueId, seq<Thread>>, place: map<ListElem, QueueId>)

  /** Chain c has the elements of the threads ts in that order, between sentinels of its own. */
  ghost predicate Lines(elemOf: map<Thread, ListElem>, c: seq<ListElem>, ts: seq<Thread>) {
    && |c| == |ts| + 2 && c[0] !in elemOf.Values && c[|c| - 1] !in elemOf.Values
    && (forall i {:trigger ts[i]} :: 0 <= i < |ts| ==> ts[i] in elemOf && c[i + 1] == elemOf[ts[i]])
  }

  ghost predicate Placed(c: seq<ListElem>, q: QueueId, where: map<ListElem, QueueId>) {
    forall i :: 0 <= i < |c| ==> c[i] in where && where[c[i]] == q
  }

  ghost predicate QueueOk(y: Layout, elemOf: map<Thread, ListElem>, q: QueueId) {
    && q in y.chains && q in y.lines && q in y.ends && Lines(elemOf, y.chains[q], y.lines[q])
    && Placed(y.chains[q], q, y.place) && y.ends[q] == (y.chains[q][0], y.chains[q][|y.chains[q]| - 1])
  }

  ghost predicate LayoutOk(y: Layout, elemOf: map<Thread, ListElem>) {
    y.chains.Keys == y.lines.Keys && (forall q :: q in y.chains ==> QueueOk(y, elemOf, q))
  }

  /** The layout is the one in memory. */
  ghost predicate Standing(y: Layout, elemOf: map<Thread, ListElem>)
    reads y.place.Keys
  {
    && LayoutOk(y, elemOf)
    && (forall q :: q in y.chains ==> assert QueueOk(y, elemOf, q); Chain(y.chains[q]))
  }

  ghost function Pushed(y: Layout, elemOf: map<Thread, ListElem>, q: QueueId, t: Thread): Layout
    requires QueueOk(y, elemOf, q) && t in elemOf
  {
    var c := y.chains[q];
    Layout(y.ends, y.chains[q := WithRange(c, |c| - 1, [elemOf[t]])], y.lines[q := y.lines[q] + [t]],
           y.place[elemOf[t] := q])
  }

  ghost function Popped(y: Layout, elemOf: map<Thread, ListElem>, q: QueueId): Layout
    requires QueueOk(y, elemOf, q) && y.lines[q] != []
  {
    Layout(y.ends, y.chains[q := Without(y.chains[q], 1, 2)], y.lines[q := y.lines[q][1..]], y.place)
  }

  ghost function Added(y: Layout, q: QueueId, h: ListElem, t: ListElem): Layout {
    Layout(y.ends[q := (h, t)], y.chains[q := [h, t]], y.lines[q := []], y.place[h := q][t := q])
  }

  lemma LinesPush(elemOf: map<Thread, ListElem>, c: seq<ListElem>, ts: seq<Thread>, t: Thread)
    requires Lines(elemOf, c, ts) && t in elemOf
    ensures Lines(elemOf, WithRange(c, |c| - 1, [elemOf[t]]), ts + [t])
  {
  }

  lemma LinesPop(elemOf: map<Thread, ListElem>, c: seq<ListElem>, ts: seq<Thread>)
    requires Lines(elemOf, c, ts) && ts != []
    ensures Lines(elemOf, Without(c, 1, 2), ts[1..]) && c[1] == elemOf[ts[0]]
  {
  }

  lemma PushedOk(y: Layout, elemOf: map<Thread, ListElem>, q: QueueId, t: Thread)
    requires LayoutOk(y, elemOf) && q in y.chains && t in elemOf
    requires forall r :: r in y.chains ==> elemOf[t] !in y.chains[r]
    ensures LayoutOk(Pushed(y, elemOf, q, t), elemOf)
  {
    forall r | r in y.chains ensures QueueOk(Pushed(y, elemOf, q, t), elemOf, r) {
      assert QueueOk(y, elemOf, r);
      if r == q { LinesPush(elemOf, y.chains[q], y.lines[q], t); }
    }
  }

  lemma PoppedOk(y: Layout, elemOf: map<Thread, ListElem>, q: QueueId)
    requires LayoutOk(y, elemOf) && q in y.chains && y.lines[q] != []
    ensures LayoutOk(Popped(y, elemOf, q), elemOf)
  {
    forall r | r in y.chains ensures QueueOk(Popped(y, elemOf, q), elemOf, r) {
      assert QueueOk(y, elemOf, r);
      if r == q { LinesPop(elemOf, y.chains[q], y.lines[q]); }
    }
  }

  lemma AddedOk(y: Layout, elemOf: map<Thread, ListElem>, q: QueueId, h: ListElem, t: ListElem)
    requires LayoutOk(y, elemOf) && {h, t} !! y.place.Keys && {h, t} !! elemOf.Values
    ensures LayoutOk(Added(y, q, h, t), elemOf)
  {
    forall r | r in Added(y, q, h, t).chains ensures QueueOk(Added(y, q, h, t), elemOf, r) {
      assert r != q ==> QueueOk(y, elemOf, r);
    }
  }

  /** A thread that is not in line has its element off the list. */
  lemma UnlistedElem(y: Layout, elemOf: map<Thread, ListElem>, ownerOf: map<ListElem, Thread>, t: Thread, q: QueueId)
    requires Embedded(elemOf, ownerOf) && t in elemOf && QueueOk(y, elemOf, q) && t !in y.lines[q]
    ensures elemOf[t] !in y.chains[q]
  {
    var c, e := y.chains[q], elemOf[t];
    assert e in elemOf.Values;
    forall k | 0 <= k < |c| ensures c[k] != e {
      if 0 < k < |c| - 1 { assert c[k] == elemOf[y.lines[q][k - 1]]; }
    }
  }

  /** Elements and pages determine each other. */
  ghost predicate Embedded(elemOf: map<Thread, ListElem>, ownerOf: map<ListElem, Thread>) {
    forall t :: t in elemOf ==> elemOf[t] in ownerOf && ownerOf[elemOf[t]] == t
  }

  /** Different queues have no element in common. */
  lemma QueuesApart(y: Layout, elemOf: map<Thread, ListElem>, q: QueueId, r: QueueId, k: nat)
    requires QueueOk(y, elemOf, q) && QueueOk(y, elemOf, r) && q != r && k < |y.chains[q]|
    ensures y.chains[q][k] !in y.chains[r]
  {
  }

  lemma PushedStands(y: Layout, elemOf: map<Thread, ListElem>, q: QueueId, t: Thread)
    requires QueueOk(y, elemOf, q) && t in elemOf && LayoutOk(Pushed(y, elemOf, q, t), elemOf)
    requires Chain(WithRange(y.chains[q], |y.chains[q]| - 1, [elemOf[t]]))
    requires forall r :: r in y.chains && r != q ==> Chain(y.chains[r])
    ensures Standing(Pushed(y, elemOf, q, t), elemOf)
  {
  }

  lemma PoppedStands(y: Layout, elemOf: map<Thread, ListElem>, q: QueueId)
    requires QueueOk(y, elemOf, q) && y.lines[q] != [] && LayoutOk(Popped(y, elemOf, q), elemOf)
    requires Chain(Without(y.chains[q], 1, 2))
    requires forall r :: r in y.chains && r != q ==> Chain(y.chains[r])
    ensures Standing(Popped(y, elemOf, q), elemOf)
  {
  }

  lemma AddedStands(y: Layout, elemOf: map<Thread, ListElem>, q: QueueId, h: ListElem, t: ListElem)
    requires Standing(y, elemOf) && Chain([h, t]) && LayoutOk(Added(y, q, h, t), elemOf)
    ensures Standing(Added(y, q, h, t), elemOf)
  {
    forall r | r in Added(y, q, h, t).chains ensures Chain(Added(y, q, h, t).chains[r]) {
      if r != q { assert Added(y, q, h, t).chains[r] == y.chains[r]; }
    }
  }

  // ----- the lists

  method EmptyList() returns (h: ListElem, t: ListElem)
    ensures fresh(h) && fresh(t) && Chain([h, t])
  {
    h := new ListElem();
    t := new ListElem();
    h.next, t.prev := t, h;
  }

  class Queues {
    /** The `elem` member of the thread structure in each page, and list_entry to get back. */
    const elemOf: map<Thread, ListElem>
    const ownerOf: map<ListElem, Thread>
    /** struct list: the head and tail sentinels. */
    var ends: map<QueueId, (ListElem, ListElem)>
    ghost var layout: Layout
    /** Every element in play. */
    ghost var nodes: set<ListElem>

    constructor (elems: map<Thread, ListElem>, owners: map<ListElem, Thread>)
      requires Embedded(elems, owners)
      ensures Valid() && elemOf == elems && layout.lines == map[] && nodes == elems.Values
    {
      elemOf, ownerOf := elems, owners;
      ends := map[];
      layout := Layout(map[], map[], map[], map[]);
      nodes := elems.Values;
    }

    ghost predicate Valid()
      reads this, nodes
    {
      && layout.place.Keys <= nodes && elemOf.Values <= nodes
      && Embedded(elemOf, ownerOf) && ends == layout.ends && Standing(layout, elemOf)
    }

    ghost predicate Unlisted(t: Thread)
      reads this
    {
      forall q :: q in layout.lines ==> t !in layout.lines[q]
    }

    method IsEmpty(q: QueueId) returns (empty: bool)
      requires Valid() && q in layout.chains
      ensures empty <==> layout.lines[q] == []
    {
      ghost var c := layout.chains[q];
      assert QueueOk(layout, elemOf, q);
      ChainDistinct(c);
      assert c[0].next == c[1];
      empty := ends[q].0.next == ends[q].1;
    }

    method Append(q: QueueId, t: Thread)
      requires Valid() && q in layout.chains && t in elemOf && Unlisted(t)
      modifies nodes
      ensures QueueOk(layout, elemOf, q) && Standing(Pushed(layout, elemOf, q, t), elemOf)
    {
      ghost var y, c := layout, layout.chains[q];
      var e := elemOf[t];
      assert e in elemOf.Values && QueueOk(y, elemOf, q);
      forall r | r in y.chains ensures e !in y.chains[r] { UnlistedElem(y, elemOf, ownerOf, t, r); }
      forall r | r in y.chains && r != q ensures c[|c| - 2] !in y.chains[r] && c[|c| - 1] !in y.chains[r] {
        QueuesApart(y, elemOf, q, r, |c| - 2);
        QueuesApart(y, elemOf, q, r, |c| - 1);
      }
      PushedOk(y, elemOf, q, t);
      ListInsert(ends[q].1, e, c, |c| - 1);
      PushedStands(y, elemOf, q, t);
    }

    /** list_push_back of a thread that is on no list. */
    method PushBack(q: QueueId, t: Thread)
      requires Valid() && q in layout.chains && t in elemOf && Unlisted(t)
      modifies this`layout, nodes
      ensures Valid() && layout.lines == old(layout.lines)[q := old(layout.lines[q]) + [t]]
    {
      Append(q, t);
      layout := Pushed(layout, elemOf, q, t);
      assert elemOf[t] in elemOf.Values;
    }

    method Detach(q: QueueId) returns (e: ListElem)
      requires Valid() && q in layout.chains && layout.lines[q] != []
      modifies nodes
      ensures QueueOk(layout, elemOf, q) && Standing(Popped(layout, elemOf, q), elemOf) && e == layout.chains[q][1]
    {
      ghost var y, c := layout, layout.chains[q];
      assert QueueOk(y, elemOf, q);
      forall r | r in y.chains && r != q ensures c[0] !in y.chains[r] && c[2] !in y.chains[r] {
        QueuesApart(y, elemOf, q, r, 0);
        QueuesApart(y, elemOf, q, r, 2);
      }
      PoppedOk(y, elemOf, q);
      assert c[0].next == c[1];
      e := ends[q].0.next;
      var _ := ListRemove(e, c, 1);
      PoppedStands(y, elemOf, q);
    }

    /** list_pop_front, then list_entry. */
    method PopFront(q: QueueId) returns (t: Thread)
      requires Valid() && q in layout.chains && layout.lines[q] != []
      modifies this`layout, nodes
      ensures Valid() && t == old(layout.lines[q][0])
      ensures layout.lines == old(layout.lines)[q := old(layout.lines[q])[1..]]
    {
      var e := Detach(q);
      LinesPop(elemOf, layout.chains[q], layout.lines[q]);
      t := ownerOf[e];
      layout := Popped(layout, elemOf, q);
    }

    method NewEnds(q: QueueId) returns (h: ListElem, t: ListElem)
      requires Valid()
      ensures fresh(h) && fresh(t) && Standing(Added(layout, q, h, t), elemOf)
    {
      h, t := EmptyList();
      AddedOk(layout, elemOf, q, h, t);
      AddedStands(layout, elemOf, q, h, t);
    }

    /** list_init of a queue in fresh memory. */
    method InitQueue(q: QueueId)
      requires Valid()
      modifies this
      ensures Valid() && layout.lines == old(layout.lines)[q := []] && fresh(nodes - old(nodes))
    {
      var h, t := NewEnds(q);
      ends := ends[q := (h, t)];
      layout := Added(layout, q, h, t);
      nodes := nodes + {h, t};
    }
  }
}
