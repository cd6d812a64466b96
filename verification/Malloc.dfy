/** threads/malloc.c: blocks of seven sizes carved out of one-page arenas, and bigger blocks made of whole pages,
    over the kernel page pool. */
module Malloc {

  import opened Vaddr
  import opened Wrappers
  import opened Powers
  import opened Ordering
  import opened Palloc

  const HEADER := 12
  const DESC_CNT := 7
  const SIZE_LIMIT := 0x1_0000_0000

  /** A pointer, split into its page number and its offset in the page. */
  datatype Block = Block(page: nat, ofs: nat)

  function Address(b: Block): nat {
    b.page * PGSIZE + b.ofs
  }

  /** What a group of pages in use is used for: an arena of small blocks, one big block, or some other client of
      the page allocator. */
  datatype Group = Small(desc: nat, freeCnt: nat) | Big(pages: nat) | Other(held: nat)

  datatype Heap = Heap(pool: Pool, groups: map<nat, Group>, free: seq<seq<Block>>, live: map<Block, nat>)

  function Pages(g: Group): nat {
    match g
    case Small(_, _) => 1
    case Big(n) => n
    case Other(n) => n
  }

  function BlockSize(d: nat): (n: nat)
    ensures n > 0
  {
    Pow2(d + 4)
  }

  function PerArena(d: nat): nat {
    Quotient(PGSIZE - HEADER, BlockSize(d))
  }

  /** arena_to_block */
  function At(page: nat, d: nat, i: nat): Block {
    Block(page, HEADER + i * BlockSize(d))
  }

  /** The blocks of a new arena, in the order they join the free list. */
  function Carved(page: nat, d: nat): seq<Block> {
    seq(PerArena(d), i requires 0 <= i < PerArena(d) => At(page, d, i))
  }

  // ----- sizes

  lemma DescSizes(d: nat)
    requires d < DESC_CNT
    ensures BlockSize(d) == [16, 32, 64, 128, 256, 512, 1024][d]
    ensures PerArena(d) == [255, 127, 63, 31, 15, 7, 3][d]
  {
    assert Pow2(4) == 16 && Pow2(5) == 32 && Pow2(6) == 64 && Pow2(7) == 128;
    assert Pow2(8) == 256 && Pow2(9) == 512 && Pow2(10) == 1024;
  }

  /** malloc_init fills in one descriptor for each power of two from 16 up to less than half a page. */
  method MallocInit() returns (sizes: seq<nat>, perArena: seq<nat>)
    ensures |sizes| == |perArena| == DESC_CNT
    ensures forall d :: 0 <= d < DESC_CNT ==> sizes[d] == BlockSize(d) && perArena[d] == PerArena(d)
  {
    sizes, perArena := [], [];
    var size := 16;
    while size < PGSIZE / 2
      invariant |sizes| == |perArena| <= DESC_CNT
      invariant size == BlockSize(|sizes|) && (|sizes| < DESC_CNT ==> size < PGSIZE / 2)
      invariant forall d :: 0 <= d < |sizes| ==> sizes[d] == BlockSize(d) && perArena[d] == PerArena(d)
      decreases DESC_CNT - |sizes|
    {
      sizes, perArena := sizes + [size], perArena + [Quotient(PGSIZE - HEADER, size)];
      size := size * 2;
      if |sizes| < DESC_CNT { DescSizes(|sizes|); }
    }
  }

  /** The smallest descriptor whose blocks hold size bytes, or DESC_CNT when there is none. */
  method FindDesc(size: nat) returns (d: nat)
    ensures d == DescFor(size)
  {
    d := 0;
    while d < DESC_CNT && BlockSize(d) < size
      invariant d <= DESC_CNT
      invariant DescFrom(0, size) == DescFrom(d, size)
    {
      d := d + 1;
    }
  }

  function DescFrom(d: nat, size: nat): (r: nat)
    requires d <= DESC_CNT
    decreases DESC_CNT - d
  {
    if d == DESC_CNT || BlockSize(d) >= size then d else DescFrom(d + 1, size)
  }

  function DescFor(size: nat): nat {
    DescFrom(0, size)
  }

  lemma {:induction false} DescFromFits(d: nat, size: nat)
    requires d <= DESC_CNT
    ensures d <= DescFrom(d, size) <= DESC_CNT
    ensures DescFrom(d, size) < DESC_CNT ==> BlockSize(DescFrom(d, size)) >= size
    ensures forall j :: d <= j < DescFrom(d, size) ==> BlockSize(j) < size
    decreases DESC_CNT - d
  {
    if d < DESC_CNT && BlockSize(d) < size { DescFromFits(d + 1, size); }
  }

  /** A request goes to the size class that fits it most tightly; only requests over 1 kB get whole pages. */
  lemma DescForFits(size: nat)
    ensures DescFor(size) <= DESC_CNT
    ensures DescFor(size) < DESC_CNT <==> size <= 1024
    ensures size <= 1024 ==> size <= BlockSize(DescFor(size))
    ensures 16 < size <= 1024 ==> BlockSize(DescFor(size)) < 2 * size
  {
    DescFromFits(0, size);
    DescSizes(6);
    var d := DescFor(size);
    if d == DESC_CNT {
      assert BlockSize(6) < size;
    } else {
      DescSizes(d);
      if d > 0 { assert BlockSize(d - 1) < size; }
    }
  }

  /** page_cnt as malloc computes it, in 32-bit arithmetic. */
  function BigPages(size: nat): nat {
    (size + HEADER + PGSIZE - 1) % SIZE_LIMIT / PGSIZE
  }

  // ----- one call

  /** The free list with block x taken out. */
  ghost function Unlink(l: seq<Block>, x: Block): seq<Block> {
    if x in l then var i := IndexOf(l, x); l[..i] + l[i + 1..] else l
  }

  /** A page is made into an arena when descriptor d has no free block left. */
  ghost function Refill(h: Heap, d: nat): (r: Option<Heap>)
    requires d < |h.free|
  {
    if h.free[d] != [] then Some(h)
    else
      var (page, pool) := Get(h.pool, 1);
      if page.None? then None
      else Some(h.(pool := pool, groups := h.groups[page.value := Small(d, PerArena(d))],
                   free := h.free[d := h.free[d] + Carved(page.value, d)]))
  }

  ghost predicate CanTake(h: Heap, d: nat) {
    && d < |h.free| && h.free[d] != []
    && h.free[d][0].page in h.groups
    && h.groups[h.free[d][0].page].Small?
    && h.groups[h.free[d][0].page].freeCnt > 0
  }

  /** The first free block goes to the caller. */
  ghost function Take(h: Heap, d: nat, size: nat): Heap
    requires CanTake(h, d)
  {
    var b := h.free[d][0];
    var g := h.groups[b.page];
    h.(free := h.free[d := h.free[d][1..]], groups := h.groups[b.page := g.(freeCnt := g.freeCnt - 1)],
       live := h.live[b := size])
  }

  ghost function MallocBig(h: Heap, size: nat): (Option<Block>, Heap) {
    var n := BigPages(size);
    var (page, pool) := Get(h.pool, n);
    if page.None? then (None, h)
    else
      var b := Block(page.value, HEADER);
      (Some(b), h.(pool := pool, groups := h.groups[page.value := Big(n)], live := h.live[b := size]))
  }

  ghost predicate MallocReady(h: Heap, d: nat) {
    && |h.free| == DESC_CNT
    && (d < DESC_CNT && Refill(h, d).Some? ==> CanTake(Refill(h, d).value, d))
  }

  ghost function MallocStep(h: Heap, size: nat): (Option<Block>, Heap)
    requires MallocReady(h, DescFor(size))
  {
    DescForFits(size);
    if size == 0 then (None, h)
    else
      var d := DescFor(size);
      if d == DESC_CNT then MallocBig(h, size)
      else
        var r := Refill(h, d);
        if r.None? then (None, h) else (Some(r.value.free[d][0]), Take(r.value, d, size))
  }

  /** The block joins the front of its free list. */
  ghost function Put(h: Heap, b: Block): Heap
    requires b.page in h.groups && h.groups[b.page].Small? && h.groups[b.page].desc < |h.free|
  {
    var g := h.groups[b.page];
    h.(free := h.free[g.desc := [b] + h.free[g.desc]], groups := h.groups[b.page := g.(freeCnt := g.freeCnt + 1)],
       live := h.live - {b})
  }

  /** A free list after the first n blocks of an arena are taken out of it one by one. */
  ghost function UnlinkArena(l: seq<Block>, page: nat, d: nat, n: nat): seq<Block> {
    if n == 0 then l else Unlink(UnlinkArena(l, page, d, n - 1), At(page, d, n - 1))
  }

  /** An arena with no block in use goes back to the page allocator. */
  ghost function Release(h: Heap, page: nat): Heap
    requires page in h.groups && h.groups[page].Small? && h.groups[page].desc < |h.free| && h.pool.base <= page
  {
    var d := h.groups[page].desc;
    h.(free := h.free[d := UnlinkArena(h.free[d], page, d, PerArena(d))], groups := h.groups - {page},
       pool := h.pool.Set(page, 1, false))
  }

  ghost predicate FreeReady(h: Heap, b: Block) {
    && b.page in h.groups && h.pool.base <= b.page && !h.groups[b.page].Other?
    && (h.groups[b.page].Small? ==> h.groups[b.page].desc < |h.free|)
  }

  ghost function FreeStep(h: Heap, p: Option<Block>): Heap
    requires p.Some? ==> FreeReady(h, p.value)
  {
    if p.None? then h
    else
      var b := p.value;
      var g := h.groups[b.page];
      match g
      case Small(d, freeCnt) =>
        var h' := Put(h, b);
        if freeCnt + 1 >= PerArena(d) then Release(h', b.page) else h'
      case Big(n) =>
        h.(pool := h.pool.Set(b.page, n, false), groups := h.groups - {b.page}, live := h.live - {b})
      case Other(_) => h
  }

  ghost predicate ReallocReady(h: Heap, p: Option<Block>, size: nat) {
    && (size == 0 && p.Some? ==> FreeReady(h, p.value))
    && (size > 0 ==>
      && MallocReady(h, DescFor(size))
      && (MallocStep(h, size).0.Some? && p.Some? ==> FreeReady(MallocStep(h, size).1, p.value)))
  }

  ghost function ReallocStep(h: Heap, p: Option<Block>, size: nat): (Option<Block>, Heap)
    requires ReallocReady(h, p, size)
  {
    if size == 0 then (None, FreeStep(h, p))
    else
      var (b, h') := MallocStep(h, size);
      if p.Some? && b.Some? then (b, FreeStep(h', p)) else (b, h')
  }

  /** Another client of the kernel pool takes a group of pages, or gives one back. */
  ghost function TakePages(h: Heap, n: nat): Heap {
    var (page, pool) := Get(h.pool, n);
    if page.None? then h else h.(pool := pool, groups := h.groups[page.value := Other(n)])
  }

  ghost function GivePages(h: Heap, page: nat): Heap
    requires page in h.groups && h.pool.base <= page
  {
    h.(pool := h.pool.Set(page, Pages(h.groups[page]), false), groups := h.groups - {page})
  }

  // ----- runs

  datatype Action =
    | Malloc(size: nat)
    | Free(p: Option<Block>)
    | Realloc(old_: Option<Block>, newSize: nat)
    | PageGet(cnt: nat)
    | PageFree(page: nat)

  /** What a caller must see to: sizes are 32-bit numbers, and only what was allocated, and not freed since, is
      freed or resized. */
  ghost predicate Allowed(h: Heap, a: Action) {
    match a
    case Malloc(size) => size < SIZE_LIMIT
    case Free(p) => p.Some? ==> p.value in h.live
    case Realloc(p, size) => size < SIZE_LIMIT && (p.Some? ==> p.value in h.live)
    case PageGet(_) => true
    case PageFree(page) => page in h.groups && h.groups[page].Other?
  }
}
