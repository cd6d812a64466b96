/** What every call of malloc, free and realloc keeps. */
module MallocInv {

  import opened Vaddr
  import opened Wrappers
  import opened Powers
  import opened Ordering
  import opened Bitmaps
  import opened Palloc
  import opened Malloc

  // ----- pages

  ghost predicate Apart(groups: map<nat, Group>, p: nat, q: nat)
    requires p in groups && q in groups
  {
    p + Pages(groups[p]) <= q || q + Pages(groups[q]) <= p
  }

  ghost predicate InUse(pool: Pool, groups: map<nat, Group>, p: nat)
    requires p in groups
  {
    Pages(groups[p]) > 0 && pool.All(p, Pages(groups[p]), true)
  }

  ghost predicate Owns(groups: map<nat, Group>, p: nat, page: nat) {
    p in groups && p <= page < p + Pages(groups[p])
  }

  ghost predicate Owned(groups: map<nat, Group>, page: nat) {
    exists p :: Owns(groups, p, page)
  }

  /** The pages in use are just those of the groups, and no page is in two groups. */
  ghost predicate PagesInv(pool: Pool, groups: map<nat, Group>) {
    && pool.base > 0
    && (forall p :: p in groups ==> InUse(pool, groups, p))
    && (forall p, q :: p in groups && q in groups && p != q ==> Apart(groups, p, q))
    && (forall i: nat {:trigger pool.used[i]} :: i < |pool.used| && pool.used[i] ==> Owned(groups, pool.base + i))
  }

  /** A page belongs to a group exactly when the page allocator has it marked. */
  lemma PageAccounting(pool: Pool, groups: map<nat, Group>, page: nat)
    requires PagesInv(pool, groups)
    ensures Owned(groups, page) <==> pool.Holds(page) && pool.used[page - pool.base]
    ensures forall p, q :: Owns(groups, p, page) && Owns(groups, q, page) ==> p == q
  {
    forall p, q | Owns(groups, p, page) && Owns(groups, q, page)
      ensures p == q
    {
      assert p != q ==> Apart(groups, p, q);
    }
    if Owned(groups, page) {
      var p :| Owns(groups, p, page);
      assert InUse(pool, groups, p);
    }
  }

  lemma TakenIsNew(pool: Pool, groups: map<nat, Group>, n: nat, p: nat)
    requires PagesInv(pool, groups) && Get(pool, n).0 == Some(p)
    ensures p !in groups
    ensures forall q :: q in groups ==> p + n <= q || q + Pages(groups[q]) <= p
  {
    GetFinds(pool, n);
    forall q | q in groups
      ensures q != p && (p + n <= q || q + Pages(groups[q]) <= p)
    {
      assert InUse(pool, groups, q);
      var i := (if p <= q then q else p) - pool.base;
      var both := if i < |pool.used| then pool.used[i] else true;
    }
  }

  lemma TakeKeepsPages(pool: Pool, groups: map<nat, Group>, n: nat, p: nat, g: Group, groups': map<nat, Group>)
    requires PagesInv(pool, groups) && Get(pool, n).0 == Some(p) && Pages(g) == n && groups' == groups[p := g]
    ensures PagesInv(Get(pool, n).1, groups')
  {
    var pool' := Get(pool, n).1;
    TakenIsNew(pool, groups, n, p);
    GetFinds(pool, n);
    forall q | q in groups'
      ensures InUse(pool', groups', q)
    {
      if q != p { assert InUse(pool, groups, q); }
    }
    forall q, r | q in groups' && r in groups' && q != r
      ensures Apart(groups', q, r)
    {
      if q != p && r != p { assert Apart(groups, q, r); }
    }
    forall i: nat | i < |pool'.used| && pool'.used[i]
      ensures Owned(groups', pool.base + i)
    {
      if p <= pool.base + i < p + n {
        assert Owns(groups', p, pool.base + i);
      } else {
        assert Owned(groups, pool.base + i);
        var q :| Owns(groups, q, pool.base + i);
        assert Owns(groups', q, pool.base + i);
      }
    }
  }

  lemma GiveKeepsPages(pool: Pool, groups: map<nat, Group>, p: nat, groups': map<nat, Group>)
    requires PagesInv(pool, groups) && p in groups && groups' == groups - {p}
    ensures PagesInv(pool.Set(p, Pages(groups[p]), false), groups')
  {
    var pool' := pool.Set(p, Pages(groups[p]), false);
    assert InUse(pool, groups, p);
    forall q | q in groups'
      ensures InUse(pool', groups', q)
    {
      assert InUse(pool, groups, q) && Apart(groups, p, q);
    }
    forall q, r | q in groups' && r in groups' && q != r
      ensures Apart(groups', q, r)
    {
      assert Apart(groups, q, r);
    }
    forall i: nat | i < |pool'.used| && pool'.used[i]
      ensures Owned(groups', pool.base + i)
    {
      assert pool.used[i];
      var q :| Owns(groups, q, pool.base + i);
      assert Owns(groups', q, pool.base + i);
    }
  }

  lemma RecountKeepsPages(pool: Pool, groups: map<nat, Group>, groups': map<nat, Group>)
    requires PagesInv(pool, groups) && groups.Keys == groups'.Keys
    requires forall p :: p in groups ==> Pages(groups[p]) == Pages(groups'[p])
    ensures PagesInv(pool, groups')
  {
    forall q | q in groups'
      ensures InUse(pool, groups', q)
    {
      assert InUse(pool, groups, q);
    }
    forall q, r | q in groups' && r in groups' && q != r
      ensures Apart(groups', q, r)
    {
      assert Apart(groups, q, r);
    }
    forall i: nat | i < |pool.used| && pool.used[i]
      ensures Owned(groups', pool.base + i)
    {
      var q :| Owns(groups, q, pool.base + i);
      assert Owns(groups', q, pool.base + i);
    }
  }

  // ----- blocks

  /** b is one of the blocks of an arena of descriptor d. */
  ghost predicate InArena(b: Block, d: nat) {
    exists i: nat :: i < PerArena(d) && b == At(b.page, d, i)
  }

  /** The blocks of an arena that are on a free list. */
  ghost function FreeIn(l: seq<Block>, page: nat, d: nat): set<nat> {
    set i: nat | i < PerArena(d) && At(page, d, i) in l
  }

  lemma AtInjective(page: nat, d: nat, i: nat, j: nat)
    requires At(page, d, i) == At(page, d, j)
    ensures i == j
  {
    if i < j {
      MulMono(i + 1, j, BlockSize(d), BlockSize(d));
      assert false;
    } else if j < i {
      MulMono(j + 1, i, BlockSize(d), BlockSize(d));
      assert false;
    }
  }

  ghost function UpTo(n: nat): (r: set<nat>)
    ensures |r| == n && forall i: nat :: i in r <==> i < n
  {
    if n == 0 then {} else UpTo(n - 1) + {n - 1}
  }

  lemma {:induction false} SubsetSize<T>(a: set<T>, b: set<T>)
    requires a <= b
    ensures |a| <= |b|
    ensures |a| == |b| ==> a == b
  {
    if a != {} {
      var x :| x in a;
      SubsetSize(a - {x}, b - {x});
    }
  }

  /** When as many blocks of an arena are free as it has, all of them are. */
  lemma AllFree(l: seq<Block>, page: nat, d: nat)
    ensures |FreeIn(l, page, d)| <= PerArena(d)
    ensures |FreeIn(l, page, d)| == PerArena(d) <==> forall i: nat :: i < PerArena(d) ==> At(page, d, i) in l
  {
    var all := UpTo(PerArena(d));
    SubsetSize(FreeIn(l, page, d), all);
    if forall i: nat :: i < PerArena(d) ==> At(page, d, i) in l {
      assert FreeIn(l, page, d) == all;
    }
    if |FreeIn(l, page, d)| == PerArena(d) {
      forall i: nat | i < PerArena(d)
        ensures At(page, d, i) in l
      {
        assert i in all;
      }
    }
  }

  /** free_cnt is the number of the arena's blocks on its descriptor's free list. */
  ghost predicate Counted(groups: map<nat, Group>, free: seq<seq<Block>>, p: nat)
    requires p in groups
  {
    groups[p].Small? ==>
      && groups[p].desc < DESC_CNT == |free|
      && groups[p].freeCnt == |FreeIn(free[groups[p].desc], p, groups[p].desc)|
  }

  ghost predicate BlockOf(groups: map<nat, Group>, d: nat, b: Block) {
    b.page in groups && groups[b.page].Small? && groups[b.page].desc == d && InArena(b, d)
  }

  ghost predicate ListInv(groups: map<nat, Group>, free: seq<seq<Block>>, d: nat)
    requires d < |free|
  {
    Distinct(free[d]) && forall b :: b in free[d] ==> BlockOf(groups, d, b)
  }

  /** b is in the caller's hands: a block of an arena that is not free, or a big block. */
  ghost predicate HandedOut(groups: map<nat, Group>, free: seq<seq<Block>>, b: Block) {
    && b.page in groups
    && match groups[b.page]
       case Small(d, _) => InArena(b, d) && d < |free| && b !in free[d]
       case Big(_) => b.ofs == HEADER
       case Other(_) => false
  }

  ghost predicate BlocksInv(groups: map<nat, Group>, free: seq<seq<Block>>, live: map<Block, nat>) {
    && |free| == DESC_CNT
    && (forall p :: p in groups ==> Counted(groups, free, p))
    && (forall d: nat :: d < DESC_CNT ==> ListInv(groups, free, d))
    && (forall b {:trigger b in live} {:trigger HandedOut(groups, free, b)} ::
        b in live <==> HandedOut(groups, free, b))
  }

  ghost predicate InPart(h: Heap, p: nat)
    requires p in h.groups
  {
    h.groups[p].Small? ==> h.groups[p].freeCnt < PerArena(h.groups[p].desc)
  }

  /** block_size: how many bytes the holder of a block may use. */
  ghost function Capacity(g: Group): nat {
    match g
    case Small(d, _) => BlockSize(d)
    case Big(n) => if n > 0 then PGSIZE * n - HEADER else 0
    case Other(_) => 0
  }

  /** A block has room for what was asked, unless adding the header to the request wrapped around. */
  ghost predicate Roomy(h: Heap, b: Block)
    requires b in h.live
  {
    b.page in h.groups && (h.live[b] <= Capacity(h.groups[b.page]) <==> h.live[b] + HEADER < SIZE_LIMIT)
  }

  ghost predicate Inv(h: Heap) {
    && PagesInv(h.pool, h.groups)
    && BlocksInv(h.groups, h.free, h.live)
    && (forall p :: p in h.groups ==> InPart(h, p))
    && (forall b :: b in h.live ==> Roomy(h, b))
  }

  // ----- malloc

  lemma NewArena(groups: map<nat, Group>, free: seq<seq<Block>>, live: map<Block, nat>, d: nat, p: nat,
                 groups': map<nat, Group>, free': seq<seq<Block>>)
    requires BlocksInv(groups, free, live) && d < DESC_CNT && free[d] == [] && p !in groups
    requires groups' == groups[p := Small(d, PerArena(d))] && free' == free[d := free[d] + Carved(p, d)]
    ensures BlocksInv(groups', free', live)
  {
    assert free'[d] == Carved(p, d);
    CarvedFree(p, d);
    forall q | q in groups'
      ensures Counted(groups', free', q)
    {
      if q != p {
        assert Counted(groups, free, q);
        if groups[q].Small? && groups[q].desc == d {
          assert FreeIn(free'[d], q, d) == FreeIn(free[d], q, d);
        }
      }
    }
    forall e: nat | e < DESC_CNT
      ensures ListInv(groups', free', e)
    {
      assert ListInv(groups, free, e);
    }
    forall b
      ensures b in live <==> HandedOut(groups', free', b)
    {
      assert b in live <==> HandedOut(groups, free, b);
      if b.page != p && b.page in groups && groups[b.page].Small? && groups[b.page].desc == d {
        assert b !in free'[d];
      }
      if b.page == p && InArena(b, d) {
        assert b in free'[d];
      }
    }
  }

  lemma CarvedFree(p: nat, d: nat)
    ensures Distinct(Carved(p, d))
    ensures forall b :: b in Carved(p, d) <==> b.page == p && InArena(b, d)
    ensures |FreeIn(Carved(p, d), p, d)| == PerArena(d)
  {
    var l := Carved(p, d);
    forall i, j | 0 <= i < j < |l|
      ensures l[i] != l[j]
    {
      if l[i] == l[j] { AtInjective(p, d, i, j); }
    }
    forall b | b in l
      ensures b.page == p && InArena(b, d)
    {
      var i :| 0 <= i < |l| && l[i] == b;
      assert b == At(b.page, d, i);
    }
    forall b: Block | b.page == p && InArena(b, d)
      ensures b in l
    {
      var i: nat :| i < PerArena(d) && b == At(b.page, d, i);
      assert l[i] == b;
    }
    forall i: nat | i < PerArena(d)
      ensures At(p, d, i) in l
    {
      assert l[i] == At(p, d, i);
    }
    AllFree(l, p, d);
  }

  /** A block leaves or joins a free list: its arena's count of free blocks follows. */
  lemma OneMore(l: seq<Block>, l': seq<Block>, b: Block, d: nat)
    requires InArena(b, d) && b !in l
    requires forall x :: x in l' <==> x in l || x == b
    ensures |FreeIn(l', b.page, d)| == |FreeIn(l, b.page, d)| + 1
    ensures forall p: nat :: p != b.page ==> FreeIn(l', p, d) == FreeIn(l, p, d)
  {
    var i: nat :| i < PerArena(d) && b == At(b.page, d, i);
    forall j: nat | At(b.page, d, j) == b
      ensures j == i
    {
      AtInjective(b.page, d, i, j);
    }
    assert FreeIn(l', b.page, d) == FreeIn(l, b.page, d) + {i};
    assert i !in FreeIn(l, b.page, d);
  }

  /** Two free lists and group tables that differ in one block of one arena. */
  lemma MoveBlock(groups: map<nat, Group>, free: seq<seq<Block>>, live: map<Block, nat>, b: Block, d: nat,
                  groups': map<nat, Group>, free': seq<seq<Block>>, live': map<Block, nat>)
    requires BlocksInv(groups, free, live) && d < DESC_CNT && BlockOf(groups, d, b)
    requires |free'| == DESC_CNT && free' == free[d := free'[d]] && Distinct(free'[d])
    requires forall x :: x != b ==> (x in free'[d] <==> x in free[d]) && (x in live' <==> x in live)
    requires b in live' <==> b !in free'[d]
    requires groups' == groups[b.page := Small(d, |FreeIn(free'[d], b.page, d)|)]
    requires forall p: nat :: p != b.page ==> FreeIn(free'[d], p, d) == FreeIn(free[d], p, d)
    ensures BlocksInv(groups', free', live')
  {
    forall q | q in groups'
      ensures Counted(groups', free', q)
    {
      if q != b.page { assert Counted(groups, free, q); }
    }
    forall e: nat | e < DESC_CNT
      ensures ListInv(groups', free', e)
    {
      assert ListInv(groups, free, e);
    }
    forall x
      ensures x in live' <==> HandedOut(groups', free', x)
    {
      assert x in live <==> HandedOut(groups, free, x);
    }
  }

  lemma TakeKeeps(h: Heap, d: nat, size: nat)
    requires BlocksInv(h.groups, h.free, h.live) && d < DESC_CNT && h.free[d] != []
    ensures CanTake(h, d)
    ensures BlocksInv(Take(h, d, size).groups, Take(h, d, size).free, Take(h, d, size).live)
  {
    var b := h.free[d][0];
    var rest := h.free[d][1..];
    assert ListInv(h.groups, h.free, d);
    assert BlockOf(h.groups, d, b) && Counted(h.groups, h.free, b.page);
    assert h.free[d] == [b] + rest;
    OneMore(rest, h.free[d], b, d);
    var h' := Take(h, d, size);
    MoveBlock(h.groups, h.free, h.live, b, d, h'.groups, h'.free, h'.live);
  }

  lemma PutKeeps(h: Heap, b: Block)
    requires BlocksInv(h.groups, h.free, h.live) && b in h.live && h.groups[b.page].Small?
    ensures FreeReady(h, b) || h.pool.base > b.page
    ensures BlocksInv(Put(h, b).groups, Put(h, b).free, Put(h, b).live)
  {
    assert HandedOut(h.groups, h.free, b) && Counted(h.groups, h.free, b.page);
    var d := h.groups[b.page].desc;
    assert ListInv(h.groups, h.free, d);
    OneMore(h.free[d], [b] + h.free[d], b, d);
    var h' := Put(h, b);
    MoveBlock(h.groups, h.free, h.live, b, d, h'.groups, h'.free, h'.live);
  }
}
