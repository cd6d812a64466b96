/** Whole calls and whole runs of malloc, free and realloc. */
module MallocRuns {

  import opened Vaddr
  import opened Wrappers
  import opened Powers
  import opened Ordering
  import opened Palloc
  import opened Malloc
  import opened MallocInv

  // ----- arenas and big blocks come and go

  lemma UnlinkOne(l: seq<Block>, x: Block)
    requires Distinct(l)
    ensures Distinct(Unlink(l, x))
    ensures forall y :: y in Unlink(l, x) <==> y in l && y != x
  {
    if x in l {
      var i := IndexOf(l, x);
      assert l == l[..i] + [x] + l[i + 1..];
    }
  }

  lemma {:induction false} UnlinkSome(l: seq<Block>, p: nat, d: nat, n: nat)
    requires Distinct(l)
    ensures Distinct(UnlinkArena(l, p, d, n))
    ensures forall x :: x in UnlinkArena(l, p, d, n) ==> x in l
    ensures forall i: nat :: i < n ==> At(p, d, i) !in UnlinkArena(l, p, d, n)
    ensures forall x :: x in l && x !in UnlinkArena(l, p, d, n) ==> exists i: nat :: i < n && x == At(p, d, i)
  {
    if n > 0 {
      UnlinkSome(l, p, d, n - 1);
      UnlinkOne(UnlinkArena(l, p, d, n - 1), At(p, d, n - 1));
    }
  }

  /** What is left of a free list once all blocks of an arena are off it. */
  lemma UnlinkAll(l: seq<Block>, p: nat, d: nat)
    requires Distinct(l) && forall x :: x in l ==> InArena(x, d)
    ensures Distinct(UnlinkArena(l, p, d, PerArena(d)))
    ensures forall x :: x in UnlinkArena(l, p, d, PerArena(d)) <==> x in l && x.page != p
  {
    var r := UnlinkArena(l, p, d, PerArena(d));
    UnlinkSome(l, p, d, PerArena(d));
    forall x | x in l && x.page == p
      ensures x !in r
    {
      var i: nat :| i < PerArena(d) && x == At(x.page, d, i);
      assert At(p, d, i) !in r;
    }
  }

  lemma DropGroup(groups: map<nat, Group>, free: seq<seq<Block>>, live: map<Block, nat>, p: nat,
                  groups': map<nat, Group>, free': seq<seq<Block>>, live': map<Block, nat>)
    requires BlocksInv(groups, free, live) && p in groups && groups' == groups - {p}
    requires |free'| == DESC_CNT
    requires forall d: nat :: d < DESC_CNT ==> Distinct(free'[d])
    requires forall d: nat, b: Block :: d < DESC_CNT ==> (b in free'[d] <==> b in free[d] && b.page != p)
    requires forall b :: b in live' <==> b in live && b.page != p
    ensures BlocksInv(groups', free', live')
  {
    forall q | q in groups'
      ensures Counted(groups', free', q)
    {
      assert Counted(groups, free, q);
      if groups[q].Small? {
        var d := groups[q].desc;
        assert FreeIn(free'[d], q, d) == FreeIn(free[d], q, d);
      }
    }
    forall d: nat | d < DESC_CNT
      ensures ListInv(groups', free', d)
    {
      assert ListInv(groups, free, d);
    }
    forall b
      ensures b in live' <==> HandedOut(groups', free', b)
    {
      assert b in live <==> HandedOut(groups, free, b);
      if b.page in groups { assert Counted(groups, free, b.page); }
    }
  }

  lemma ReleaseKeeps(h: Heap, p: nat)
    requires PagesInv(h.pool, h.groups) && BlocksInv(h.groups, h.free, h.live)
    requires p in h.groups && h.groups[p].Small? && h.groups[p].freeCnt == PerArena(h.groups[p].desc)
    ensures h.pool.base <= p && h.groups[p].desc < DESC_CNT
    ensures PagesInv(Release(h, p).pool, Release(h, p).groups)
    ensures BlocksInv(Release(h, p).groups, Release(h, p).free, Release(h, p).live)
  {
    assert InUse(h.pool, h.groups, p) && Counted(h.groups, h.free, p);
    var d := h.groups[p].desc;
    var h' := Release(h, p);
    GiveKeepsPages(h.pool, h.groups, p, h'.groups);
    assert ListInv(h.groups, h.free, d);
    AllFree(h.free[d], p, d);
    UnlinkAll(h.free[d], p, d);
    forall b | b in h.live
      ensures b.page != p
    {
      assert HandedOut(h.groups, h.free, b);
    }
    forall e: nat, b: Block | e < DESC_CNT && e != d && b in h.free[e]
      ensures b.page != p
    {
      assert ListInv(h.groups, h.free, e);
    }
    forall e: nat | e < DESC_CNT
      ensures Distinct(h'.free[e])
    {
      assert ListInv(h.groups, h.free, e);
    }
    DropGroup(h.groups, h.free, h.live, p, h'.groups, h'.free, h'.live);
  }

  /** A group that holds no small blocks appears; g is Big or Other. */
  lemma AddGroup(groups: map<nat, Group>, free: seq<seq<Block>>, live: map<Block, nat>, p: nat, g: Group,
                 groups': map<nat, Group>, live': map<Block, nat>)
    requires BlocksInv(groups, free, live) && p !in groups && !g.Small? && groups' == groups[p := g]
    requires forall b :: b in live' <==> b in live || (g.Big? && b == Block(p, HEADER))
    ensures BlocksInv(groups', free, live')
  {
    forall q | q in groups'
      ensures Counted(groups', free, q)
    {
      if q != p { assert Counted(groups, free, q); }
    }
    forall d: nat | d < DESC_CNT
      ensures ListInv(groups', free, d)
    {
      assert ListInv(groups, free, d);
    }
    forall b
      ensures b in live' <==> HandedOut(groups', free, b)
    {
      assert b in live <==> HandedOut(groups, free, b);
    }
  }

  lemma DropBig(h: Heap, p: nat, live': map<Block, nat>, groups': map<nat, Group>)
    requires BlocksInv(h.groups, h.free, h.live) && p in h.groups && !h.groups[p].Small? && groups' == h.groups - {p}
    requires forall b :: b in live' <==> b in h.live && b.page != p
    ensures BlocksInv(groups', h.free, live')
  {
    forall d: nat, b: Block | d < DESC_CNT && b in h.free[d]
      ensures b.page != p
    {
      assert ListInv(h.groups, h.free, d);
    }
    forall d: nat | d < DESC_CNT
      ensures Distinct(h.free[d])
    {
      assert ListInv(h.groups, h.free, d);
    }
    DropGroup(h.groups, h.free, h.live, p, groups', h.free, live');
  }

  // ----- one call

  /** malloc gives nothing for a request so large that its page count wraps to zero; a little beyond that it gives
      one page. */
  lemma BigPagesWrap(size: nat)
    requires 1024 < size < SIZE_LIMIT
    ensures BigPages(size) == 0 <==> SIZE_LIMIT - 4107 <= size <= SIZE_LIMIT - 12
    ensures BigPages(size) > 0 ==> (size <= PGSIZE * BigPages(size) - HEADER <==> size + HEADER < SIZE_LIMIT)
  {
    var sum := size + HEADER + PGSIZE - 1;
    if sum < SIZE_LIMIT {
      assert BigPages(size) == sum / PGSIZE;
    } else {
      assert BigPages(size) == (sum - SIZE_LIMIT) / PGSIZE;
    }
  }

  lemma RefillKeeps(h: Heap, d: nat)
    requires Inv(h) && d < DESC_CNT
    ensures Refill(h, d).Some? ==>
      var h' := Refill(h, d).value;
      && PagesInv(h'.pool, h'.groups) && BlocksInv(h'.groups, h'.free, h'.live) && h'.live == h.live
      && h'.free[d] != []
      && (forall p :: p in h'.groups && p != h'.free[d][0].page ==> InPart(h', p))
      && (forall b :: b in h.live ==> Roomy(h', b))
  {
    if h.free[d] == [] && Get(h.pool, 1).0.Some? {
      var p := Get(h.pool, 1).0.value;
      var h' := Refill(h, d).value;
      TakenIsNew(h.pool, h.groups, 1, p);
      TakeKeepsPages(h.pool, h.groups, 1, p, Small(d, PerArena(d)), h'.groups);
      NewArena(h.groups, h.free, h.live, d, p, h'.groups, h'.free);
      DescSizes(d);
      assert h'.free[d][0] == At(p, d, 0);
      forall q | q in h'.groups && q != p
        ensures InPart(h', q)
      {
        assert InPart(h, q);
      }
      forall b | b in h.live
        ensures Roomy(h', b)
      {
        assert Roomy(h, b);
      }
    } else if h.free[d] != [] {
      assert Refill(h, d).value == h;
    }
  }

  /** The outcome of a request: all of h stays, and the new block is one that nobody held. */
  ghost predicate Grants(h: Heap, size: nat, r: (Option<Block>, Heap)) {
    match r.0
    case None => r.1 == h
    case Some(b) => b !in h.live && r.1.live == h.live[b := size]
  }

  lemma MallocSmall(h: Heap, d: nat, size: nat)
    requires Inv(h) && d < DESC_CNT && 0 < size <= 1024 && size <= BlockSize(d) && Refill(h, d).Some?
    ensures CanTake(Refill(h, d).value, d)
    ensures Inv(Take(Refill(h, d).value, d, size))
    ensures Refill(h, d).value.free[d][0] !in h.live
  {
    RefillKeeps(h, d);
    var h1 := Refill(h, d).value;
    TakeKeeps(h1, d, size);
    var b := h1.free[d][0];
    var h2 := Take(h1, d, size);
    assert ListInv(h1.groups, h1.free, d);
    assert BlockOf(h1.groups, d, b) && Counted(h1.groups, h1.free, b.page);
    assert !HandedOut(h1.groups, h1.free, b);
    RecountKeepsPages(h1.pool, h1.groups, h2.groups);
    AllFree(h1.free[d], b.page, d);
    forall p | p in h2.groups
      ensures InPart(h2, p)
    {
      if p != b.page { assert InPart(h1, p); }
    }
    forall c | c in h2.live
      ensures Roomy(h2, c)
    {
      if c != b { assert Roomy(h1, c); }
    }
  }

  lemma MallocBigKeeps(h: Heap, size: nat)
    requires Inv(h) && 1024 < size < SIZE_LIMIT
    ensures Inv(MallocBig(h, size).1)
    ensures Grants(h, size, MallocBig(h, size))
  {
    var n := BigPages(size);
    if Get(h.pool, n).0.Some? {
      var p := Get(h.pool, n).0.value;
      var h' := MallocBig(h, size).1;
      BigPagesWrap(size);
      TakenIsNew(h.pool, h.groups, n, p);
      TakeKeepsPages(h.pool, h.groups, n, p, Big(n), h'.groups);
      AddGroup(h.groups, h.free, h.live, p, Big(n), h'.groups, h'.live);
      assert !HandedOut(h.groups, h.free, Block(p, HEADER));
      forall q | q in h'.groups
        ensures InPart(h', q)
      {
        if q != p { assert InPart(h, q); }
      }
      forall b | b in h'.live
        ensures Roomy(h', b)
      {
        if b in h.live { assert Roomy(h, b); }
      }
    }
  }

  lemma MallocKeeps(h: Heap, size: nat)
    requires Inv(h) && size < SIZE_LIMIT
    ensures MallocReady(h, DescFor(size))
    ensures Inv(MallocStep(h, size).1)
    ensures Grants(h, size, MallocStep(h, size))
  {
    DescForFits(size);
    var d := DescFor(size);
    if d < DESC_CNT && Refill(h, d).Some? {
      RefillKeeps(h, d);
      TakeKeeps(Refill(h, d).value, d, size);
      if size > 0 { MallocSmall(h, d, size); }
    } else if d == DESC_CNT {
      MallocBigKeeps(h, size);
    }
  }

  lemma FreeIsReady(h: Heap, b: Block)
    requires Inv(h) && b in h.live
    ensures FreeReady(h, b)
  {
    assert HandedOut(h.groups, h.free, b);
    assert InUse(h.pool, h.groups, b.page) && Counted(h.groups, h.free, b.page);
  }

  lemma FreeSmall(h: Heap, b: Block)
    requires Inv(h) && b in h.live && FreeReady(h, b) && h.groups[b.page].Small?
    ensures Inv(FreeStep(h, Some(b)))
    ensures FreeStep(h, Some(b)).live == h.live - {b}
    ensures Put(h, b).groups[b.page].freeCnt <= PerArena(h.groups[b.page].desc)
  {
    PutKeeps(h, b);
    var h1 := Put(h, b);
    var d := h.groups[b.page].desc;
    RecountKeepsPages(h.pool, h.groups, h1.groups);
    assert InPart(h, b.page);
    var h2 := FreeStep(h, Some(b));
    if h1.groups[b.page].freeCnt == PerArena(d) {
      ReleaseKeeps(h1, b.page);
      forall c | c in h1.live
        ensures c.page in h2.groups
      {
        assert HandedOut(h2.groups, h2.free, c);
      }
    }
    forall p | p in h2.groups
      ensures InPart(h2, p)
    {
      assert InPart(h, p);
    }
    forall c | c in h2.live
      ensures Roomy(h2, c)
    {
      assert Roomy(h, c);
    }
  }

  lemma FreeBig(h: Heap, b: Block)
    requires Inv(h) && b in h.live && FreeReady(h, b) && h.groups[b.page].Big?
    ensures Inv(FreeStep(h, Some(b)))
    ensures FreeStep(h, Some(b)).live == h.live - {b}
    ensures h.pool.All(b.page, h.groups[b.page].pages, true)
  {
    var h' := FreeStep(h, Some(b));
    assert InUse(h.pool, h.groups, b.page) && HandedOut(h.groups, h.free, b);
    GiveKeepsPages(h.pool, h.groups, b.page, h'.groups);
    forall c | c in h.live && c != b
      ensures c.page != b.page
    {
      assert HandedOut(h.groups, h.free, c);
    }
    DropBig(h, b.page, h'.live, h'.groups);
    forall p | p in h'.groups
      ensures InPart(h', p)
    {
      assert InPart(h, p);
    }
    forall c | c in h'.live
      ensures Roomy(h', c)
    {
      assert Roomy(h, c);
    }
  }

  lemma FreeKeeps(h: Heap, p: Option<Block>)
    requires Inv(h) && (p.Some? ==> p.value in h.live)
    ensures p.Some? ==> FreeReady(h, p.value)
    ensures Inv(FreeStep(h, p))
    ensures FreeStep(h, p).live == if p.Some? then h.live - {p.value} else h.live
  {
    if p.Some? {
      FreeIsReady(h, p.value);
      if h.groups[p.value.page].Small? {
        FreeSmall(h, p.value);
      } else {
        FreeBig(h, p.value);
      }
    }
  }

  lemma ReallocKeeps(h: Heap, p: Option<Block>, size: nat)
    requires Inv(h) && size < SIZE_LIMIT && (p.Some? ==> p.value in h.live)
    ensures ReallocReady(h, p, size)
    ensures Inv(ReallocStep(h, p, size).1)
    ensures size > 0 && ReallocStep(h, p, size).0.None? ==> ReallocStep(h, p, size).1 == h
  {
    FreeKeeps(h, p);
    if size > 0 {
      MallocKeeps(h, size);
      if MallocStep(h, size).0.Some? { FreeKeeps(MallocStep(h, size).1, p); }
    }
  }

  lemma TakePagesKeeps(h: Heap, n: nat)
    requires Inv(h)
    ensures Inv(TakePages(h, n))
  {
    if Get(h.pool, n).0.Some? {
      var p := Get(h.pool, n).0.value;
      var h' := TakePages(h, n);
      TakenIsNew(h.pool, h.groups, n, p);
      TakeKeepsPages(h.pool, h.groups, n, p, Other(n), h'.groups);
      AddGroup(h.groups, h.free, h.live, p, Other(n), h'.groups, h'.live);
      forall q | q in h'.groups
        ensures InPart(h', q)
      {
        if q != p { assert InPart(h, q); }
      }
      forall b | b in h'.live
        ensures Roomy(h', b)
      {
        assert Roomy(h, b);
      }
    }
  }

  lemma GivePagesKeeps(h: Heap, p: nat)
    requires Inv(h) && p in h.groups && h.groups[p].Other?
    ensures h.pool.base <= p
    ensures Inv(GivePages(h, p))
  {
    assert InUse(h.pool, h.groups, p);
    var h' := GivePages(h, p);
    GiveKeepsPages(h.pool, h.groups, p, h'.groups);
    forall b | b in h.live
      ensures b.page != p
    {
      assert HandedOut(h.groups, h.free, b);
    }
    DropBig(h, p, h.live, h'.groups);
    forall q | q in h'.groups
      ensures InPart(h', q)
    {
      assert InPart(h, q);
    }
    forall b | b in h'.live
      ensures Roomy(h', b)
    {
      assert Roomy(h, b);
    }
  }

  /** Memory has run out for a request: no free block of its size and no free page, or no free run of as many pages as
      it asks for, which may have wrapped around to none. */
  ghost predicate OutOfMemory(h: Heap, size: nat)
    requires |h.free| == DESC_CNT
  {
    DescForFits(size);
    if size <= 1024
    then h.free[DescFor(size)] == [] && forall page: nat :: !h.pool.All(page, 1, false)
    else BigPages(size) == 0 || forall page: nat :: !h.pool.All(page, BigPages(size), false)
  }

  /** A request for some bytes fails exactly when memory has run out for it. */
  lemma MallocFails(h: Heap, size: nat)
    requires Inv(h) && 0 < size < SIZE_LIMIT && MallocReady(h, DescFor(size))
    ensures MallocStep(h, size).0.None? <==> OutOfMemory(h, size)
  {
    DescForFits(size);
    GetFinds(h.pool, 1);
    GetFinds(h.pool, BigPages(size));
  }

  ghost function Without(live: map<Block, nat>, p: Option<Block>): map<Block, nat> {
    if p.Some? then live - {p.value} else live
  }

  lemma WithoutAndWith(live: map<Block, nat>, p: Option<Block>, b: Block, size: nat)
    requires b !in live && (p.Some? ==> p.value in live)
    ensures Without(live[b := size], p) == Without(live, p)[b := size]
  {
  }

  /** realloc gives a new block of the new size for the old one, which is freed; a size of 0 just frees the old one; and
      when memory has run out, and only then, nothing changes. */
  lemma ReallocGives(h: Heap, p: Option<Block>, size: nat)
    requires Inv(h) && size < SIZE_LIMIT && (p.Some? ==> p.value in h.live)
    ensures ReallocReady(h, p, size) && |h.free| == DESC_CNT
    ensures var (b, h') := ReallocStep(h, p, size);
      && (size == 0 ==> b.None? && h'.live == Without(h.live, p))
      && (size > 0 ==> (b.None? <==> OutOfMemory(h, size)) && (b.None? ==> h' == h))
      && (b.Some? ==> b.value !in h.live && h'.live == Without(h.live, p)[b.value := size])
  {
    assert ReallocReady(h, p, size) by { ReallocKeeps(h, p, size); }
    if size == 0 {
      assert FreeStep(h, p).live == Without(h.live, p) by { FreeKeeps(h, p); }
    } else {
      var (b, h') := MallocStep(h, size);
      assert b.None? <==> OutOfMemory(h, size) by { MallocFails(h, size); }
      assert Inv(h') && Grants(h, size, (b, h')) by { MallocKeeps(h, size); }
      if b.Some? {
        assert FreeStep(h', p).live == Without(h'.live, p) by { FreeKeeps(h', p); }
        WithoutAndWith(h.live, p, b.value, size);
      }
    }
  }

  /** The block freed last is the next that malloc gives out of its size class, unless its arena went back. */
  lemma FreedComesNext(h: Heap, b: Block, size: nat)
    requires Inv(h) && b in h.live && 0 < size <= 1024
    ensures FreeReady(h, b)
    ensures var h' := FreeStep(h, Some(b));
      h.groups[b.page].Small? && h.groups[b.page].desc == DescFor(size) && b.page in h'.groups ==>
        MallocReady(h', DescFor(size)) && MallocStep(h', size).0 == Some(b)
  {
    DescForFits(size);
    assert FreeReady(h, b) by { FreeKeeps(h, Some(b)); }
    var h' := FreeStep(h, Some(b));
    if h.groups[b.page].Small? && h.groups[b.page].desc == DescFor(size) && b.page in h'.groups {
      assert Inv(h') by { FreeKeeps(h, Some(b)); }
      assert MallocReady(h', DescFor(size)) by { MallocKeeps(h', size); }
      assert h'.free[DescFor(size)][0] == b;
    }
  }

  // ----- runs

  ghost function Apply(h: Heap, a: Action): (h': Heap)
    requires Inv(h) && Allowed(h, a)
    ensures Inv(h')
  {
    match a
    case Malloc(size) => MallocKeeps(h, size); MallocStep(h, size).1
    case Free(p) => FreeKeeps(h, p); FreeStep(h, p)
    case Realloc(p, size) => ReallocKeeps(h, p, size); ReallocStep(h, p, size).1
    case PageGet(n) => TakePagesKeeps(h, n); TakePages(h, n)
    case PageFree(p) => GivePagesKeeps(h, p); GivePages(h, p)
  }

  /** Callers keep to the rules all along. */
  ghost predicate Runs(h: Heap, actions: seq<Action>)
    requires Inv(h)
    decreases |actions|
  {
    actions == [] || (Allowed(h, actions[0]) && Runs(Apply(h, actions[0]), actions[1..]))
  }

  ghost function After(h: Heap, actions: seq<Action>): (h': Heap)
    requires Inv(h) && Runs(h, actions)
    ensures Inv(h')
    decreases |actions|
  {
    if actions == [] then h else After(Apply(h, actions[0]), actions[1..])
  }

  /** What each call does to the blocks in callers' hands. */
  lemma LiveAfter(h: Heap, a: Action)
    requires Inv(h) && Allowed(h, a)
    ensures var live' := Apply(h, a).live;
      match a
      case Malloc(size) =>
        if size == 0 || OutOfMemory(h, size) then live' == h.live
        else exists b :: b !in h.live && live' == h.live[b := size]
      case Free(p) => live' == Without(h.live, p)
      case Realloc(p, size) =>
        if size == 0 then live' == Without(h.live, p)
        else if OutOfMemory(h, size) then live' == h.live
        else exists b :: b !in h.live && live' == Without(h.live, p)[b := size]
      case PageGet(n) =>
        && live' == h.live
        && (Get(h.pool, n).0.Some? ==> Apply(h, a).groups == h.groups[Get(h.pool, n).0.value := Other(n)])
      case PageFree(page) => live' == h.live && Apply(h, a).groups == h.groups - {page}
  {
    match a
    case Malloc(size) =>
      MallocKeeps(h, size);
      if size > 0 { MallocFails(h, size); }
    case Free(p) => FreeKeeps(h, p);
    case Realloc(p, size) => ReallocGives(h, p, size);
    case PageGet(_) =>
    case PageFree(_) =>
  }

  /** malloc_init over a pool with every page free. */
  ghost function Initial(pool: Pool): (h: Heap)
    requires pool.base > 0 && forall i :: 0 <= i < |pool.used| ==> !pool.used[i]
    ensures Inv(h)
  {
    Heap(pool, map[], seq(DESC_CNT, _ => []), map[])
  }

  // ----- what the invariant means for callers

  /** A block lies inside the pages of its arena, past the header. */
  lemma LiveInside(h: Heap, b: Block)
    requires Inv(h) && b in h.live
    ensures b.page in h.groups
    ensures HEADER <= b.ofs
    ensures b.ofs + Capacity(h.groups[b.page]) <= PGSIZE * Pages(h.groups[b.page])
  {
    assert HandedOut(h.groups, h.free, b);
    assert InUse(h.pool, h.groups, b.page) && Counted(h.groups, h.free, b.page);
    if h.groups[b.page].Small? { ArenaInside(b, h.groups[b.page].desc); }
  }

  lemma ArenaInside(b: Block, d: nat)
    requires d < DESC_CNT && InArena(b, d)
    ensures HEADER <= b.ofs && b.ofs + BlockSize(d) <= PGSIZE
  {
    var i: nat :| i < PerArena(d) && b == At(b.page, d, i);
    MulMono(i + 1, PerArena(d), BlockSize(d), BlockSize(d));
  }

  lemma ArenaApart(b: Block, c: Block, d: nat)
    requires InArena(b, d) && InArena(c, d) && b.page == c.page && b != c
    ensures b.ofs + BlockSize(d) <= c.ofs || c.ofs + BlockSize(d) <= b.ofs
  {
    var i: nat :| i < PerArena(d) && b == At(b.page, d, i);
    var j: nat :| j < PerArena(d) && c == At(c.page, d, j);
    if i < j { Stride(i, j, BlockSize(d)); } else { Stride(j, i, BlockSize(d)); }
  }

  lemma Stride(i: nat, j: nat, n: nat)
    requires i < j
    ensures i * n + n <= j * n
  {
    MulMono(i + 1, j, n, n);
    assert (i + 1) * n == i * n + n;
  }

  /** The assertions of block_to_arena hold for every block in a caller's hands. */
  lemma BlockToArena(h: Heap, b: Block)
    requires Inv(h) && b in h.live
    ensures b.page in h.groups && !h.groups[b.page].Other? && b.page > 0 && b.ofs >= HEADER
    ensures h.groups[b.page].Small? ==> (b.ofs - HEADER) % BlockSize(h.groups[b.page].desc) == 0
    ensures h.groups[b.page].Big? ==> b.ofs == HEADER
  {
    LiveInside(h, b);
    assert HandedOut(h.groups, h.free, b) && InUse(h.pool, h.groups, b.page);
    if h.groups[b.page].Small? {
      var d := h.groups[b.page].desc;
      var i: nat :| i < PerArena(d) && b == At(b.page, d, i);
      DivModUnique(i * BlockSize(d), BlockSize(d), i, 0);
    }
  }

  ghost predicate BytesApart(b: Block, n: nat, c: Block, m: nat) {
    Address(b) + n <= Address(c) || Address(c) + m <= Address(b)
  }

  /** No byte belongs to two blocks in callers' hands. */
  lemma LiveApart(h: Heap, b: Block, c: Block)
    requires Inv(h) && b in h.live && c in h.live && b != c
    ensures b.page in h.groups && c.page in h.groups
    ensures BytesApart(b, Capacity(h.groups[b.page]), c, Capacity(h.groups[c.page]))
  {
    LiveInside(h, b);
    LiveInside(h, c);
    assert HandedOut(h.groups, h.free, b) && HandedOut(h.groups, h.free, c);
    if b.page == c.page {
      ArenaApart(b, c, h.groups[b.page].desc);
    } else {
      assert Apart(h.groups, b.page, c.page);
    }
  }

  /** No byte of a block in a caller's hands is in a free block, whose first bytes hold the list links. */
  lemma LiveApartFromFree(h: Heap, b: Block, d: nat, c: Block)
    requires Inv(h) && b in h.live && d < DESC_CNT && c in h.free[d]
    ensures b.page in h.groups
    ensures BytesApart(b, Capacity(h.groups[b.page]), c, BlockSize(d))
  {
    LiveInside(h, b);
    assert ListInv(h.groups, h.free, d) && BlockOf(h.groups, d, c);
    ArenaInside(c, d);
    assert HandedOut(h.groups, h.free, b);
    if b.page == c.page {
      ArenaApart(b, c, d);
    } else {
      assert Apart(h.groups, b.page, c.page);
    }
  }

  /** realloc copies the smaller of the new size and the old block's capacity.  The copy stays inside both blocks,
      which do not overlap, exactly when the request did not wrap around or the old block is no bigger than a
      one-page block. */
  lemma ReallocCopy(h: Heap, b: Block, size: nat)
    requires Inv(h) && b in h.live && 0 < size < SIZE_LIMIT
    requires MallocReady(h, DescFor(size)) && MallocStep(h, size).0.Some?
    ensures var (c, h') := MallocStep(h, size);
      b in h'.live && c.value in h'.live && b != c.value && b.page in h.groups && c.value.page in h'.groups
    ensures var (c, h') := MallocStep(h, size);
      var old_, new_ := Capacity(h.groups[b.page]), Capacity(h'.groups[c.value.page]);
      && BytesApart(b, old_, c.value, new_)
      && ((if size < old_ then size else old_) <= new_ <==>
          size + HEADER < SIZE_LIMIT || old_ <= PGSIZE - HEADER)
  {
    var (c, h') := MallocStep(h, size);
    MallocKeeps(h, size);
    LiveApart(h', b, c.value);
    SameCapacity(h, size, b);
    assert Roomy(h', c.value);
    if size + HEADER >= SIZE_LIMIT { WrappedBlock(h, size); }
  }

  /** A request whose size wraps around gets one page. */
  lemma WrappedBlock(h: Heap, size: nat)
    requires Inv(h) && size < SIZE_LIMIT <= size + HEADER && MallocReady(h, DescFor(size))
    requires MallocStep(h, size).0.Some?
    ensures var (c, h') := MallocStep(h, size);
      c.value.page in h'.groups && Capacity(h'.groups[c.value.page]) == PGSIZE - HEADER
  {
    DescForFits(size);
    BigPagesWrap(size);
    GetFinds(h.pool, BigPages(size));
  }

  /** A request leaves the capacity of every block as it was. */
  lemma SameCapacity(h: Heap, size: nat, b: Block)
    requires Inv(h) && b in h.live && size < SIZE_LIMIT && MallocReady(h, DescFor(size))
    ensures var h' := MallocStep(h, size).1;
      b.page in h.groups && b.page in h'.groups && Capacity(h'.groups[b.page]) == Capacity(h.groups[b.page])
  {
    LiveInside(h, b);
    DescForFits(size);
    var d := DescFor(size);
    if Get(h.pool, 1).0.Some? { TakenIsNew(h.pool, h.groups, 1, Get(h.pool, 1).0.value); }
    if Get(h.pool, BigPages(size)).0.Some? {
      TakenIsNew(h.pool, h.groups, BigPages(size), Get(h.pool, BigPages(size)).0.value);
    }
  }

  /** No arena is kept for nothing: some block of it is in a caller's hands. */
  lemma EveryArenaServes(h: Heap, p: nat) returns (b: Block)
    requires Inv(h) && p in h.groups && !h.groups[p].Other?
    ensures b in h.live && b.page == p
  {
    assert InPart(h, p) && Counted(h.groups, h.free, p);
    match h.groups[p]
    case Small(d, freeCnt) =>
      AllFree(h.free[d], p, d);
      var i: nat :| i < PerArena(d) && At(p, d, i) !in h.free[d];
      b := At(p, d, i);
      assert InArena(b, d);
      assert HandedOut(h.groups, h.free, b);
    case Big(n) =>
      b := Block(p, HEADER);
      assert HandedOut(h.groups, h.free, b);
    case Other(_) => assert false;
  }

  /** Nothing leaks: once every block and every other group has been given back, every page is free again. */
  lemma NothingLeaks(h: Heap)
    requires Inv(h) && h.live == map[] && forall p :: p in h.groups ==> !h.groups[p].Other?
    ensures h.groups == map[]
    ensures forall i :: 0 <= i < |h.pool.used| ==> !h.pool.used[i]
  {
    if p :| p in h.groups {
      var b := EveryArenaServes(h, p);
      assert false;
    }
    forall i: nat | i < |h.pool.used|
      ensures !h.pool.used[i]
    {
      PageAccounting(h.pool, h.groups, h.pool.base + i);
    }
  }
}
