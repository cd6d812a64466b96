/** threads/palloc.c: groups of contiguous pages handed out from a kernel pool and a user pool. */
module Palloc {

  import opened Vaddr
  import opened Wrappers
  import opened Bitmaps

  /** Page base + i of the pool is in use when used[i] says so. */
  datatype Pool = Pool(base: nat, used: seq<bool>) {

    /** page_from_pool */
    predicate Holds(page: nat) {
      base <= page < base + |used|
    }

    /** The pages of a group all belong to the pool and all have the given state. */
    ghost predicate All(page: nat, cnt: nat, inUse: bool) {
      base <= page && Fits(used, page - base, cnt, inUse)
    }

    ghost function Set(page: nat, cnt: nat, inUse: bool): Pool
      requires base <= page
    {
      Pool(base, Filled(used, page - base, cnt, inUse))
    }
  }

  /** palloc_get_multiple on one pool: the lowest group of cnt free pages, which are then in use. */
  ghost function Get(p: Pool, cnt: nat): (Option<nat>, Pool) {
    if cnt == 0 then (None, p)
    else
      match FirstFit(p.used, 0, cnt, false)
      case None => (None, p)
      case Some(i) =>
        (Some(p.base + i), p.Set(p.base + i, cnt, true))
  }

  /** A group is found whenever the pool has one, and no page of it was in use. */
  lemma GetFinds(p: Pool, cnt: nat)
    ensures Get(p, cnt).0.None? ==> Get(p, cnt).1 == p && forall page: nat :: cnt > 0 ==> !p.All(page, cnt, false)
    ensures Get(p, cnt).0.Some? ==>
      && p.All(Get(p, cnt).0.value, cnt, false)
      && forall page: nat :: p.All(page, cnt, false) ==> Get(p, cnt).0.value <= page
  {
    FirstFitFinds(p.used, 0, cnt, false);
    forall page: nat | p.All(page, cnt, false)
      ensures cnt > 0 ==> Get(p, cnt).0.Some? && Get(p, cnt).0.value <= page
    {
      assert Fits(p.used, page - p.base, cnt, false);
    }
  }

  /** Pages given back are just as before they were taken. */
  lemma FreeUndoesGet(p: Pool, cnt: nat)
    requires Get(p, cnt).0.Some?
    ensures Get(p, cnt).1.All(Get(p, cnt).0.value, cnt, true)
    ensures Get(p, cnt).1.Set(Get(p, cnt).0.value, cnt, false) == p
  {
    FirstFitFinds(p.used, 0, cnt, false);
    FlipBack(p.used, Get(p, cnt).0.value - p.base, cnt, false);
  }

  /** init_pool: the pool's bitmap takes the first pages, no more than it needs, so only the rest can be handed out, and
      all of it.  None stands for the panic, which comes when there are no pages at all. */
  function InitPool(base: nat, pages: nat): (r: Option<Pool>)
    ensures r.None? <==> pages == 0
    ensures r.Some? ==> base <= r.value.base && r.value.base + |r.value.used| == base + pages && true !in r.value.used
    ensures r.Some? ==> PGSIZE * (r.value.base - base) >= 8 + 4 * ElemCnt(|r.value.used|)
    ensures r.Some? ==> PGSIZE * (r.value.base - base) < 8 + 4 * ElemCnt(pages) + PGSIZE
  {
    var taken := (8 + 4 * ElemCnt(pages) + PGSIZE - 1) / PGSIZE;
    if taken > pages then None else Some(Pool(base + taken, seq(pages - taken, _ => false)))
  }

  /** palloc_init: half of the pages, but at most limit of them, go to the user pool. */
  function InitPools(start: nat, pages: nat, limit: nat): (r: Option<(Pool, Pool)>)
    ensures r.None? <==> pages < 2 || limit == 0
    ensures r.Some? ==>
      r.value.0.base + |r.value.0.used| == start + pages - if limit < pages / 2 then limit else pages / 2
    ensures r.Some? ==>
      && start < r.value.0.base && start < r.value.1.base
      && r.value.0.base + |r.value.0.used| < r.value.1.base
      && r.value.1.base + |r.value.1.used| == start + pages
  {
    var user := if pages / 2 > limit then limit else pages / 2;
    var kernelPool, userPool := InitPool(start, pages - user), InitPool(start + pages - user, user);
    if kernelPool.None? || userPool.None? then None else Some((kernelPool.value, userPool.value))
  }

  method GetFrom(usedMap: Bitmap, base: nat, cnt: nat) returns (page: Option<nat>)
    requires usedMap.Valid()
    modifies usedMap.bits
    ensures usedMap.Valid()
    ensures (page, Pool(base, usedMap.Contents())) == Get(Pool(base, old(usedMap.Contents())), cnt)
  {
    if cnt == 0 {
      return None;
    }
    var at := usedMap.ScanAndFlip(0, cnt, false);
    page := if at.Some? then Some(base + at.value) else None;
  }

  class PageAllocator {
    const kernelBase: nat
    const kernelMap: Bitmap
    const userBase: nat
    const userMap: Bitmap

    ghost predicate Valid()
      reads kernelMap.bits, userMap.bits
    {
      && kernelMap.Valid() && userMap.Valid()
      && kernelMap.bits != userMap.bits
      && 0 < kernelBase && kernelBase + kernelMap.bitCnt <= userBase
    }

    ghost function Kernel(): Pool
      requires Valid()
      reads kernelMap.bits, userMap.bits
    {
      Pool(kernelBase, kernelMap.Contents())
    }

    ghost function User(): Pool
      requires Valid()
      reads kernelMap.bits, userMap.bits
    {
      Pool(userBase, userMap.Contents())
    }

    constructor (start: nat, pages: nat, limit: nat)
      requires InitPools(start, pages, limit).Some?
      ensures Valid() && fresh(kernelMap.bits) && fresh(userMap.bits)
      ensures Some((Kernel(), User())) == InitPools(start, pages, limit)
    {
      var pools := InitPools(start, pages, limit).value;
      kernelBase, userBase := pools.0.base, pools.1.base;
      kernelMap := new Bitmap(|pools.0.used|);
      userMap := new Bitmap(|pools.1.used|);
    }

    method GetMultiple(user: bool, cnt: nat) returns (page: Option<nat>)
      requires Valid()
      modifies kernelMap.bits, userMap.bits
      ensures Valid()
      ensures user ==> (page, User()) == Get(old(User()), cnt) && Kernel() == old(Kernel())
      ensures !user ==> (page, Kernel()) == Get(old(Kernel()), cnt) && User() == old(User())
    {
      if user {
        page := GetFrom(userMap, userBase, cnt);
      } else {
        page := GetFrom(kernelMap, kernelBase, cnt);
      }
    }

    /** A group of pages in use goes back to the pool it belongs to; anything else would fail an assertion. */
    method FreeMultiple(page: nat, cnt: nat)
      requires Valid()
      requires page == 0 || cnt == 0 || Kernel().All(page, cnt, true) || User().All(page, cnt, true)
      modifies kernelMap.bits, userMap.bits
      ensures Valid()
      ensures page == 0 || cnt == 0 ==> Kernel() == old(Kernel()) && User() == old(User())
      ensures page != 0 && cnt != 0 && old(Kernel().All(page, cnt, true)) ==>
        Kernel() == old(Kernel()).Set(page, cnt, false) && User() == old(User())
      ensures page != 0 && cnt != 0 && old(User().All(page, cnt, true)) ==>
        User() == old(User()).Set(page, cnt, false) && Kernel() == old(Kernel())
    {
      if page == 0 || cnt == 0 {
        return;
      }
      if kernelBase <= page < kernelBase + kernelMap.bitCnt {
        kernelMap.SetMultiple(page - kernelBase, cnt, false);
      } else {
        userMap.SetMultiple(page - userBase, cnt, false);
      }
    }
  }
}
