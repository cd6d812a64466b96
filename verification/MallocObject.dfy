/** malloc, realloc and free as the code runs them, over the page allocator's bitmap. */
module MallocObject {

  import opened Vaddr
  import opened Wrappers
  import opened Powers
  import opened Ordering
  import opened Palloc
  import opened Malloc
  import opened MallocInv
  import opened MallocRuns

  class KernelHeap {
    const palloc: PageAllocator
    const sizes: seq<nat>
    const perArena: seq<nat>
    /** The arena headers, by page.  The entries for other clients of the page allocator are never looked at. */
    var groups: map<nat, Group>
    var free: seq<seq<Block>>
    ghost var live: map<Block, nat>

    ghost predicate Valid()
      reads this, palloc.kernelMap.bits, palloc.userMap.bits
    {
      && palloc.Valid()
      && |sizes| == |perArena| == DESC_CNT
      && (forall d :: 0 <= d < DESC_CNT ==> sizes[d] == BlockSize(d) && perArena[d] == PerArena(d))
    }

    ghost function Abs(): Heap
      requires Valid()
      reads this, palloc.kernelMap.bits, palloc.userMap.bits
    {
      Heap(palloc.Kernel(), groups, free, live)
    }

    constructor (pages: PageAllocator)
      requires pages.Valid() && forall i :: 0 <= i < |pages.Kernel().used| ==> !pages.Kernel().used[i]
      ensures Valid() && palloc == pages && Abs() == Initial(palloc.Kernel())
    {
      palloc := pages;
      groups, free, live := map[], seq(DESC_CNT, _ => []), map[];
      var s, n := MallocInit();
      sizes, perArena := s, n;
    }

    /** A new page becomes an arena, its blocks joining the free list one by one. */
    method Grow(d: nat) returns (ok: bool)
      requires Valid() && d < DESC_CNT == |free| && free[d] == []
      modifies this, palloc.kernelMap.bits, palloc.userMap.bits
      ensures Valid()
      ensures ok == Refill(old(Abs()), d).Some?
      ensures Abs() == if ok then Refill(old(Abs()), d).value else old(Abs())
    {
      var page := palloc.GetMultiple(false, 1);
      if page.None? {
        return false;
      }
      groups := groups[page.value := Small(d, perArena[d])];
      var i := 0;
      while i < perArena[d]
        invariant Valid() && i <= perArena[d]
        invariant groups == old(groups)[page.value := Small(d, perArena[d])] && live == old(live)
        invariant palloc.Kernel() == Get(old(palloc.Kernel()), 1).1
        invariant |free| == DESC_CNT && free == old(free)[d := Carved(page.value, d)[..i]]
      {
        assert Carved(page.value, d)[..i + 1] == Carved(page.value, d)[..i] + [At(page.value, d, i)];
        free := free[d := free[d] + [At(page.value, d, i)]];
        i := i + 1;
      }
      assert Carved(page.value, d)[..i] == [] + Carved(page.value, d);
      ok := true;
    }

    method Malloc(size: nat) returns (r: Option<Block>)
      requires Valid() && Inv(Abs()) && size < SIZE_LIMIT
      modifies this, palloc.kernelMap.bits, palloc.userMap.bits
      ensures Valid() && Inv(Abs())
      ensures MallocReady(old(Abs()), DescFor(size)) && (r, Abs()) == MallocStep(old(Abs()), size)
    {
      MallocKeeps(Abs(), size);
      DescForFits(size);
      if size == 0 {
        return None;
      }
      var d := FindDesc(size);
      if d == DESC_CNT {
        r := GetPages(size);
        return;
      }
      if free[d] == [] {
        var ok := Grow(d);
        if !ok {
          return None;
        }
      }
      var b := PopFirst(d, size);
      r := Some(b);
    }

    method GetPages(size: nat) returns (r: Option<Block>)
      requires Valid()
      modifies this, palloc.kernelMap.bits, palloc.userMap.bits
      ensures Valid() && (r, Abs()) == MallocBig(old(Abs()), size)
    {
      var cnt := BigPages(size);
      var page := palloc.GetMultiple(false, cnt);
      if page.None? {
        return None;
      }
      groups := groups[page.value := Big(cnt)];
      live := live[Block(page.value, HEADER) := size];
      r := Some(Block(page.value, HEADER));
    }

    method PopFirst(d: nat, ghost size: nat) returns (b: Block)
      requires Valid() && CanTake(Abs(), d)
      modifies this
      ensures Valid() && b == old(free[d][0]) && Abs() == Take(old(Abs()), d, size)
    {
      b := free[d][0];
      var a := groups[b.page];
      free := free[d := free[d][1..]];
      groups := groups[b.page := a.(freeCnt := a.freeCnt - 1)];
      live := live[b := size];
    }

    /** list_remove on a free list: the block must be on it. */
    method ListRemove(d: nat, b: Block)
      requires d < |free| && b in free[d] && Distinct(free[d])
      modifies this`free
      ensures free == old(free)[d := Unlink(old(free)[d], b)]
    {
      var i: nat := 0;
      while free[d][i] != b
        invariant i < |free[d]| && b !in free[d][..i]
        decreases |free[d]| - i
      {
        i := i + 1;
      }
      assert i == IndexOf(free[d], b);
      free := free[d := free[d][..i] + free[d][i + 1..]];
    }

    /** An arena with all its blocks free is taken apart.  Each block is found on the free list, and the page is one
        the page allocator has marked. */
    method Shrink(page: nat)
      requires Valid() && PagesInv(palloc.Kernel(), groups) && BlocksInv(groups, free, live)
      requires page in groups && groups[page].Small? && groups[page].freeCnt == PerArena(groups[page].desc)
      modifies this, palloc.kernelMap.bits, palloc.userMap.bits
      ensures Valid() && old(palloc.Kernel().base <= page && groups[page].desc < DESC_CNT)
      ensures Abs() == Release(old(Abs()), page)
    {
      ReleaseKeeps(Abs(), page);
      var d := groups[page].desc;
      assert Counted(groups, free, page) && ListInv(groups, free, d) && InUse(palloc.Kernel(), groups, page);
      ghost var l := free[d];
      AllFree(l, page, d);
      var i := 0;
      while i < perArena[d]
        invariant Valid() && i <= perArena[d]
        invariant groups == old(groups) && live == old(live) && palloc.Kernel() == old(palloc.Kernel())
        invariant |free| == DESC_CNT && free == old(free)[d := UnlinkArena(l, page, d, i)]
      {
        StillListed(l, page, d, i);
        UnlinkSome(l, page, d, i);
        ListRemove(d, At(page, d, i));
        i := i + 1;
      }
      groups := groups - {page};
      palloc.FreeMultiple(page, 1);
    }

    method Free(p: Option<Block>)
      requires Valid() && Inv(Abs()) && (p.Some? ==> p.value in live)
      modifies this, palloc.kernelMap.bits, palloc.userMap.bits
      ensures Valid() && Inv(Abs())
      ensures p.Some? ==> FreeReady(old(Abs()), p.value)
      ensures Abs() == FreeStep(old(Abs()), p)
    {
      FreeKeeps(Abs(), p);
      if p.None? {
        return;
      }
      var b := p.value;
      var a := groups[b.page];
      if a.Small? {
        FreeSmall(Abs(), b);
        PutKeeps(Abs(), b);
        var d := a.desc;
        ghost var h := Abs();
        free := free[d := [b] + free[d]];
        groups := groups[b.page := a.(freeCnt := a.freeCnt + 1)];
        live := live - {b};
        assert Abs() == Put(h, b);
        RecountKeepsPages(palloc.Kernel(), h.groups, groups);
        if a.freeCnt + 1 >= perArena[d] {
          Shrink(b.page);
        }
      } else {
        FreeBig(Abs(), b);
        groups := groups - {b.page};
        live := live - {b};
        palloc.FreeMultiple(b.page, a.pages);
      }
    }

    method Realloc(p: Option<Block>, size: nat) returns (r: Option<Block>)
      requires Valid() && Inv(Abs()) && size < SIZE_LIMIT && (p.Some? ==> p.value in live)
      modifies this, palloc.kernelMap.bits, palloc.userMap.bits
      ensures Valid() && Inv(Abs())
      ensures ReallocReady(old(Abs()), p, size) && (r, Abs()) == ReallocStep(old(Abs()), p, size)
    {
      ReallocKeeps(Abs(), p, size);
      if size == 0 {
        Free(p);
        return None;
      }
      MallocKeeps(Abs(), size);
      r := Malloc(size);
      if p.Some? && r.Some? {
        Free(p);
      }
    }
  }

  lemma StillListed(l: seq<Block>, page: nat, d: nat, n: nat)
    requires Distinct(l) && n < PerArena(d) && At(page, d, n) in l
    ensures At(page, d, n) in UnlinkArena(l, page, d, n)
  {
    UnlinkSome(l, page, d, n);
    if At(page, d, n) !in UnlinkArena(l, page, d, n) {
      var i: nat :| i < n && At(page, d, n) == At(page, d, i);
      AtInjective(page, d, n, i);
      assert false;
    }
  }
}
