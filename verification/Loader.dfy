/** userprog/process.c: the segments of an ELF executable, loaded page by page into user memory. */
module Loader {

  import opened Vaddr
  import opened Wrappers
  import opened Ordering
  import opened InodeIo
  import opened PageDir

  const WORD := 0x1_0000_0000

  /** The fields of a program header that loading looks at; all are 32-bit words. */
  datatype Phdr = Phdr(offset: nat, vaddr: nat, filesz: nat, memsz: nat, writable: bool)

  ghost predicate Words(p: Phdr) {
    p.offset < WORD && p.vaddr < WORD && p.filesz < WORD && p.memsz < WORD
  }

  // ----- 32-bit arithmetic

  function Add(a: nat, b: nat): nat {
    (a + b) % WORD
  }

  function Sub(a: nat, b: nat): nat {
    (a - b) % WORD
  }

  function RoundUp(x: nat): nat {
    Add(x, PGSIZE - 1) / PGSIZE * PGSIZE
  }

  predicate IsUser(addr: nat) {
    addr < PHYS_BASE
  }

  predicate ValidateSegment(p: Phdr, fileLength: nat) {
    && p.offset % PGSIZE == p.vaddr % PGSIZE
    && p.offset <= fileLength
    && p.memsz >= p.filesz
    && p.memsz != 0
    && IsUser(p.vaddr)
    && IsUser(Add(p.vaddr, p.memsz))
    && Add(p.vaddr, p.memsz) >= p.vaddr
    && p.vaddr >= PGSIZE
  }

  /** The arguments that load computes for load_segment. */
  function FilePage(p: Phdr): nat { p.offset - p.offset % PGSIZE }

  function MemPage(p: Phdr): nat { p.vaddr - p.vaddr % PGSIZE }

  function ReadBytes(p: Phdr): nat {
    ReadBytesAt(p.vaddr % PGSIZE, p.filesz)
  }

  function ReadBytesAt(pageOffset: nat, filesz: nat): nat {
    if filesz > 0 then Add(pageOffset, filesz) else 0
  }

  function ZeroBytes(p: Phdr): nat {
    ZeroBytesAt(p.vaddr % PGSIZE, p.filesz, p.memsz)
  }

  function ZeroBytesAt(pageOffset: nat, filesz: nat, memsz: nat): nat {
    var end := RoundUp(Add(pageOffset, memsz));
    if filesz > 0 then Sub(end, ReadBytesAt(pageOffset, filesz)) else end
  }

  /** The end of the segment's last page. */
  function SegmentEnd(p: Phdr): nat {
    EndOfPage(p.vaddr + p.memsz)
  }

  /** A header is accepted exactly when its segment lies in user space above page 0, whatever its words are. */
  lemma Accepts(p: Phdr, fileLength: nat)
    requires Words(p)
    ensures ValidateSegment(p, fileLength) <==>
      && p.offset % PGSIZE == p.vaddr % PGSIZE && p.offset <= fileLength
      && p.filesz <= p.memsz && 0 < p.memsz
      && PGSIZE <= p.vaddr && p.vaddr + p.memsz < PHYS_BASE
  {
  }

  /** For an accepted header no sum wraps around and no difference is negative. */
  lemma NoWrap(p: Phdr, fileLength: nat)
    requires Words(p) && ValidateSegment(p, fileLength)
    ensures ReadBytes(p) == if p.filesz > 0 then p.vaddr % PGSIZE + p.filesz else 0
    ensures MemPage(p) + ReadBytes(p) + ZeroBytes(p) == SegmentEnd(p)
    ensures (ReadBytes(p) + ZeroBytes(p)) % PGSIZE == 0 && MemPage(p) % PGSIZE == 0 && FilePage(p) % PGSIZE == 0
    ensures PGSIZE <= MemPage(p) < SegmentEnd(p) <= PHYS_BASE
  {
    var o := p.vaddr % PGSIZE;
    assert PGSIZE <= p.vaddr && p.vaddr + p.memsz < PHYS_BASE && 0 < p.memsz && p.filesz <= p.memsz by {
      Accepts(p, fileLength);
    }
    PageEnd(p.vaddr, p.memsz);
    PageEnd(o, p.memsz);
    SameEnd(p.vaddr, p.memsz);
    assert FilePage(p) % PGSIZE == 0 by { SameEnd(p.offset, 0); }
    assert ReadBytes(p) + ZeroBytes(p) == EndOfPage(o + p.memsz) by { Sizes(o, p.filesz, p.memsz); }
    assert ReadBytes(p) == if p.filesz > 0 then o + p.filesz else 0 by { Sizes(o, p.filesz, p.memsz); }
  }

  lemma Sizes(o: nat, filesz: nat, memsz: nat)
    requires 0 < memsz && filesz <= memsz && o + memsz < PHYS_BASE
    ensures ReadBytesAt(o, filesz) == if filesz > 0 then o + filesz else 0
    ensures ReadBytesAt(o, filesz) + ZeroBytesAt(o, filesz, memsz) == EndOfPage(o + memsz)
  {
    PageEnd(o, memsz);
  }

  /** The end of the page that the byte before x is in. */
  function EndOfPage(x: nat): nat {
    (x + PGSIZE - 1) / PGSIZE * PGSIZE
  }

  lemma PageEnd(at: nat, size: nat)
    requires at + size < PHYS_BASE && size > 0
    ensures at < at + size <= EndOfPage(at + size) <= PHYS_BASE && EndOfPage(at + size) % PGSIZE == 0
  {
  }

  lemma SameEnd(at: nat, size: nat)
    ensures EndOfPage(at + size) == at - at % PGSIZE + EndOfPage(at % PGSIZE + size)
    ensures (at - at % PGSIZE) % PGSIZE == 0
  {
    var k, o := at / PGSIZE, at % PGSIZE;
    assert at + size + PGSIZE - 1 == k * PGSIZE + (o + size + PGSIZE - 1);
  }

  // ----- what is loaded

  /** Byte number pos of a segment that takes n bytes of the file from position ofs on. */
  ghost function SegmentByte(file: seq<Byte>, ofs: nat, n: nat, pos: nat): Byte {
    if pos < n && ofs + pos < |file| then file[ofs + pos] else 0
  }

  ghost function PageBytes(file: seq<Byte>, ofs: nat, n: nat, pos: nat): seq<Byte> {
    seq<Byte>(PGSIZE, i requires 0 <= i < PGSIZE => SegmentByte(file, ofs, n, pos + i))
  }

  /** Once loaded, the file's bytes are where the header wants them, and zeros follow up to the end of the last page. */
  lemma LoadedBytes(p: Phdr, file: seq<Byte>, addr: nat)
    requires Words(p) && ValidateSegment(p, |file|) && (p.filesz > 0 ==> p.offset + p.filesz <= |file|)
    requires p.vaddr <= addr < SegmentEnd(p)
    ensures SegmentByte(file, FilePage(p), ReadBytes(p), addr - MemPage(p))
         == if addr < p.vaddr + p.filesz then file[p.offset + (addr - p.vaddr)] else 0
  {
    NoWrap(p, |file|);
  }

  /** Before them, the first page holds what the file holds before them, or zeros if no bytes are loaded. */
  lemma LeadingBytes(p: Phdr, file: seq<Byte>, addr: nat)
    requires Words(p) && ValidateSegment(p, |file|) && MemPage(p) <= addr < p.vaddr
    ensures FilePage(p) + (addr - MemPage(p)) < |file|
    ensures SegmentByte(file, FilePage(p), ReadBytes(p), addr - MemPage(p))
         == if p.filesz > 0 then file[FilePage(p) + (addr - MemPage(p))] else 0
  {
    NoWrap(p, |file|);
  }

  lemma PageOfSegment(file: seq<Byte>, ofs: nat, n: nat, pos: nat, pageRead: nat, at: nat)
    requires pageRead == if pos >= n then 0 else if n - pos < PGSIZE then n - pos else PGSIZE
    requires pageRead > 0 ==> at == ofs + pos
    ensures PageBytes(file, at, pageRead, 0) == PageBytes(file, ofs, n, pos)
  {
    var x, y := PageBytes(file, at, pageRead, 0), PageBytes(file, ofs, n, pos);
    forall i | 0 <= i < PGSIZE
      ensures x[i] == y[i]
    {
      assert x[i] == SegmentByte(file, at, pageRead, i) && y[i] == SegmentByte(file, ofs, n, pos + i);
    }
  }

  /** file_read into a page, then memset of the rest of it. */
  method FillPage(file: seq<Byte>, at: nat, pageRead: nat) returns (bytes: seq<Byte>)
    requires pageRead <= PGSIZE && (pageRead == 0 || at + pageRead <= |file|)
    ensures bytes == PageBytes(file, at, pageRead, 0)
  {
    bytes := (if pageRead == 0 then [] else file[at..at + pageRead]) + seq<Byte>(PGSIZE - pageRead, _ => 0);
  }

  // ----- user memory

  /** What each mapped user page holds, and whether the user may write it. */
  type UserMemory = map<nat, (seq<Byte>, bool)>

  /** memory is what the pages show of the frames. */
  ghost predicate ShowsAt(pages: map<nat, Page>, frames: map<nat, seq<Byte>>, memory: UserMemory, u: nat) {
    && (u in memory <==> u in pages)
    && (u in pages ==> pages[u].frame in frames && memory[u] == (frames[pages[u].frame], pages[u].writable))
  }

  ghost predicate Shows(pages: map<nat, Page>, frames: map<nat, seq<Byte>>, memory: UserMemory) {
    forall u: nat :: ShowsAt(pages, frames, memory, u)
  }

  lemma ShowsMore(pages: map<nat, Page>, frames: map<nat, seq<Byte>>, memory: UserMemory, u: nat, frame: nat,
                  bytes: seq<Byte>, writable: bool)
    requires Shows(pages, frames, memory) && frame !in frames
    ensures Shows(pages[u := Page(frame, writable)], frames[frame := bytes], memory[u := (bytes, writable)])
  {
    var pages', frames', memory' :=
      pages[u := Page(frame, writable)], frames[frame := bytes], memory[u := (bytes, writable)];
    forall v: nat
      ensures ShowsAt(pages', frames', memory', v)
    {
      assert ShowsAt(pages, frames, memory, v);
    }
  }

  /** How many bytes of page number k come from the file, when n bytes of the segment do. */
  function FromFile(n: nat, k: nat): nat {
    if k * PGSIZE >= n then 0 else if n - k * PGSIZE < PGSIZE then n - k * PGSIZE else PGSIZE
  }

  /** The file ends before page number k's bytes do, or they end inside a sector and there is no bounce buffer. */
  predicate ReadsShort(file: seq<Byte>, ofs: nat, n: nat, k: nat, buffered: bool) {
    var size := FromFile(n, k);
    size > 0 && (ofs + k * PGSIZE + size > |file| || (!buffered && size % SECTOR_SIZE != 0))
  }

  lemma ReadsAll(length: nat, size: nat, at: nat, buffered: bool)
    requires size > 0 ==> at % PGSIZE == 0
    ensures Reach(length, size, at, buffered) == size <==>
      size == 0 || (at + size <= length && (buffered || size % SECTOR_SIZE == 0))
  {
  }

  /** A process's page tables, the contents of its frames, and the free pages of the two pools. */
  class Process {
    const tables: PageTables
    var frames: map<nat, seq<Byte>>
    var userPool: set<nat>
    var kernelPool: set<nat>

    ghost var memory: UserMemory

    ghost predicate Valid()
      reads this, tables
    {
      && tables.Valid()
      && Shows(tables.pages, frames, memory)
      && userPool !! frames.Keys && kernelPool !! tables.mem.Keys
    }

    constructor (tables: PageTables, userPool: set<nat>, kernelPool: set<nat>)
      requires tables.Valid() && tables.pages == map[] && kernelPool !! tables.mem.Keys
      ensures Valid() && this.tables == tables && this.userPool == userPool && this.kernelPool == kernelPool
      ensures memory == map[]
    {
      this.tables, frames, this.userPool, this.kernelPool, memory := tables, map[], userPool, kernelPool, map[];
    }

    /** Page u is free, and there is a page table for it or memory for one. */
    ghost predicate CanMap(u: nat)
      requires Valid() && u < USER_PAGES
      reads this, tables
    {
      u !in memory && (tables.mem[tables.pd][u / ENTRIES] != 0 || kernelPool != {})
    }

    /** Every page that palloc gave is in use or was given back. */
    twostate predicate KeepsPages()
      reads this, tables
    {
      && frames.Keys + userPool == old(frames.Keys + userPool)
      && tables.mem.Keys + kernelPool == old(tables.mem.Keys + kernelPool)
    }

    /** install_page of a new frame: refused when the page is taken or there is no memory for a page table. */
    method InstallPage(u: nat, frame: nat, bytes: seq<Byte>, writable: bool) returns (ok: bool)
      requires Valid() && u < USER_PAGES && frame !in frames && frame !in userPool
      modifies this, tables
      ensures Valid() && userPool == old(userPool) && (!ok ==> frames == old(frames))
      ensures ok <==> old(CanMap(u))
      ensures !ok ==> kernelPool == old(kernelPool) && tables.mem == old(tables.mem)
      ensures memory == if ok then old(memory)[u := (bytes, writable)] else old(memory)
      ensures frames.Keys == old(frames.Keys) + if ok then {frame} else {}
      ensures tables.mem.Keys + kernelPool == old(tables.mem.Keys + kernelPool)
    {
      assert ShowsAt(tables.pages, frames, memory, u);
      assert u * PGSIZE / PGSIZE == u;
      var at := tables.GetPage(u * PGSIZE);
      if at.Some? {
        return false;
      }
      var t: Option<nat> := None;
      if kernelPool != {} {
        var page :| page in kernelPool;
        t := Some(page);
      }
      ShowsMore(tables.pages, frames, memory, u, frame, bytes, writable);
      ok := tables.SetPage(u, frame, writable, t);
      if t.Some? && t.value in tables.mem {
        kernelPool := kernelPool - {t.value};
      }
      if ok {
        frames := frames[frame := bytes];
        memory := memory[u := (bytes, writable)];
      }
    }

    /** One turn of load_segment's loop: a new page is filled from the file and with zeros, and mapped.  The read comes
        up short at the end of the file, or part of a sector short without a bounce buffer. */
    method LoadPage(file: seq<Byte>, at: nat, pageRead: nat, u: nat, writable: bool, buffered: bool) returns (ok: bool)
      requires Valid() && u < USER_PAGES && pageRead <= PGSIZE
      modifies this, tables
      ensures Valid()
      ensures ok <==> old(userPool != {} && CanMap(u)) && Reach(|file|, pageRead, at, buffered) == pageRead
      ensures !ok ==> userPool == old(userPool) && kernelPool == old(kernelPool) && tables.mem == old(tables.mem)
      ensures KeepsPages()
      ensures memory == if ok then old(memory)[u := (PageBytes(file, at, pageRead, 0), writable)] else old(memory)
    {
      if userPool == {} {
        return false;
      }
      var kpage :| kpage in userPool;
      if Reach(|file|, pageRead, at, buffered) != pageRead {
        return false;
      }
      var bytes := FillPage(file, at, pageRead);
      userPool := userPool - {kpage};
      ok := InstallPage(u, kpage, bytes, writable);
      if !ok {
        userPool := userPool + {kpage};
      }
    }

    /** Page number k of a segment cannot be loaded at page u: there is no memory for it or its page table, the page
        is taken, or the read comes up short. */
    ghost predicate Refuses(file: seq<Byte>, ofs: nat, n: nat, k: nat, u: nat, buffered: bool)
      requires Valid() && u < USER_PAGES
      reads this, tables
    {
      userPool == {} || !CanMap(u) || ReadsShort(file, ofs, n, k, buffered)
    }

    /** One turn of the loop, for page number k of a segment. */
    method LoadNext(ghost was: UserMemory, file: seq<Byte>, ofs: nat, upage: nat, ghost total: nat, ghost n: nat,
                    k: nat, read: nat, zero: nat, readSoFar: nat, writable: bool, buffered: bool)
      returns (ok: bool, read': nat, zero': nat)
      requires Valid() && Underway(upage, n, total, k, read, zero) && (read > 0 || zero > 0) && readSoFar == n - read
      requires ReadIn(file, ofs, n, read) && InPlace(was, memory, file, ofs, n, upage / PGSIZE, k, writable)
      requires ofs % PGSIZE == 0
      modifies this, tables
      ensures Valid()
      ensures ok ==> Underway(upage, n, total, k + 1, read', zero') && read' + zero' < read + zero
      ensures ok ==> ReadIn(file, ofs, n, read')
      ensures !ok ==> k < total && Refuses(file, ofs, n, k, upage / PGSIZE + k, buffered)
      ensures KeepsPages()
      ensures InPlace(was, memory, file, ofs, n, upage / PGSIZE, if ok then k + 1 else k, writable)
    {
      var pageRead := if read < PGSIZE then read else PGSIZE;
      var pageZero := PGSIZE - pageRead;
      NextPage(upage, n, total, k, read, zero);
      read', zero' := read - pageRead, zero - pageZero;
      PageOfSegment(file, ofs, n, k * PGSIZE, pageRead, ofs + readSoFar);
      ReadsAll(|file|, pageRead, ofs + readSoFar, buffered);
      ghost var now := memory;
      ok := LoadPage(file, ofs + readSoFar, pageRead, upage / PGSIZE + k, writable, buffered);
      if ok {
        InPlaceMore(was, now, file, ofs, n, upage / PGSIZE, k, writable, memory);
      }
    }

    /** load_segment: readBytes bytes of the file from position ofs on, then zeros, into pages that were not mapped.
        k is the number of pages loaded, and reads get a bounce buffer for as many pages as limit says. */
    method LoadSegment(file: seq<Byte>, ofs: nat, upage: nat, readBytes: nat, zeroBytes: nat, writable: bool,
                       limit: nat)
      returns (ok: bool, k: nat)
      requires Valid() && (readBytes + zeroBytes) % PGSIZE == 0 && upage % PGSIZE == 0 && ofs % PGSIZE == 0
      requires upage + readBytes + zeroBytes <= PHYS_BASE
      modifies this, tables
      ensures Valid() && k <= (readBytes + zeroBytes) / PGSIZE && (ok <==> k == (readBytes + zeroBytes) / PGSIZE)
      ensures ok ==> ReadIn(file, ofs, readBytes, 0)
      ensures !ok ==> Refuses(file, ofs, readBytes, k, upage / PGSIZE + k, k < limit)
      ensures KeepsPages()
      ensures InPlace(old(memory), memory, file, ofs, readBytes, upage / PGSIZE, k, writable)
    {
      var read: nat, zero: nat := readBytes, zeroBytes;
      ghost var total := (readBytes + zeroBytes) / PGSIZE;
      k := 0;
      ghost var was := memory;
      while read > 0 || zero > 0
        invariant Valid() && Underway(upage, readBytes, total, k, read, zero) && ReadIn(file, ofs, readBytes, read)
        invariant InPlace(was, memory, file, ofs, readBytes, upage / PGSIZE, k, writable) && KeepsPages()
        decreases read + zero
      {
        var r, z;
        ok, r, z := LoadNext(was, file, ofs, upage, total, readBytes, k, read, zero, readBytes - read, writable,
                             k < limit);
        if !ok {
          return;
        }
        read, zero, k := r, z, k + 1;
      }
      LastPage(upage, readBytes, total, k);
      ok := true;
    }

    /** What load does for a PT_LOAD header.  Once it succeeds, the file's bytes are at the addresses the header names
        and zeros follow to the end of the last page, in pages that were free before and are writable if the header
        says so; nothing else of user memory changes, whether it succeeds or not.  An accepted header fails only at a
        page that cannot be loaded. */
    method LoadHeader(p: Phdr, file: seq<Byte>, limit: nat) returns (ok: bool, ghost k: nat)
      requires Valid() && Words(p)
      modifies this, tables
      ensures Valid()
      ensures !ValidateSegment(p, |file|) ==> !ok && memory == old(memory)
      ensures ok ==> p.filesz > 0 ==> p.offset + p.filesz <= |file|
      ensures ValidateSegment(p, |file|) && !ok ==>
        && MemPage(p) / PGSIZE + k < SegmentEnd(p) / PGSIZE <= USER_PAGES
        && Refuses(file, FilePage(p), ReadBytes(p), k, MemPage(p) / PGSIZE + k, k < limit)
      ensures KeepsPages()
      ensures ok ==> forall u: nat {:trigger NewAt(old(memory), memory, u, p.writable)} ::
        MemPage(p) / PGSIZE <= u < SegmentEnd(p) / PGSIZE ==> NewAt(old(memory), memory, u, p.writable)
      ensures ok ==> forall addr: nat {:trigger ByteAt(memory, addr)} :: MemPage(p) <= addr < p.vaddr ==>
        && FilePage(p) + (addr - MemPage(p)) < |file|
        && ByteAt(memory, addr) == Some(if p.filesz > 0 then file[FilePage(p) + (addr - MemPage(p))] else 0)
      ensures ok ==> forall addr: nat {:trigger ByteAt(memory, addr)} :: p.vaddr <= addr < SegmentEnd(p) ==>
        ByteAt(memory, addr) == Some(if addr < p.vaddr + p.filesz then file[p.offset + (addr - p.vaddr)] else 0)
      ensures forall u: nat {:trigger SameAt(old(memory), memory, u)} ::
        u < MemPage(p) / PGSIZE || SegmentEnd(p) / PGSIZE <= u ==> SameAt(old(memory), memory, u)
    {
      k := 0;
      if !ValidateSegment(p, |file|) {
        return false, 0;
      }
      NoWrap(p, |file|);
      ghost var was := memory;
      var n;
      ok, n := LoadSegment(file, FilePage(p), MemPage(p), ReadBytes(p), ZeroBytes(p), p.writable, limit);
      k := n;
      OthersSame(p, file, was, memory, k);
      if ok {
        PagesNew(p, file, was, memory, k);
        forall addr: nat | MemPage(p) <= addr < p.vaddr
          ensures FilePage(p) + (addr - MemPage(p)) < |file|
          ensures ByteAt(memory, addr) == Some(if p.filesz > 0 then file[FilePage(p) + (addr - MemPage(p))] else 0)
        {
          SegmentReads(was, memory, file, FilePage(p), ReadBytes(p), MemPage(p), k, p.writable, addr);
          LeadingBytes(p, file, addr);
        }
        forall addr: nat | p.vaddr <= addr < SegmentEnd(p)
          ensures ByteAt(memory, addr)
               == Some(if addr < p.vaddr + p.filesz then file[p.offset + (addr - p.vaddr)] else 0)
        {
          SegmentReads(was, memory, file, FilePage(p), ReadBytes(p), MemPage(p), k, p.writable, addr);
          LoadedBytes(p, file, addr);
        }
      }
    }
  }

  ghost predicate SameAt(was: UserMemory, now: UserMemory, u: nat) {
    (u in now <==> u in was) && (u in was ==> now[u] == was[u])
  }

  /** Page u was free and is in use now, writable or not. */
  ghost predicate NewAt(was: UserMemory, now: UserMemory, u: nat, writable: bool) {
    u !in was && u in now && now[u].1 == writable
  }

  lemma PagesNew(p: Phdr, file: seq<Byte>, was: UserMemory, now: UserMemory, k: nat)
    requires Words(p) && ValidateSegment(p, |file|) && k == (ReadBytes(p) + ZeroBytes(p)) / PGSIZE
    requires InPlace(was, now, file, FilePage(p), ReadBytes(p), MemPage(p) / PGSIZE, k, p.writable)
    ensures forall u: nat {:trigger NewAt(was, now, u, p.writable)} ::
      MemPage(p) / PGSIZE <= u < SegmentEnd(p) / PGSIZE ==> NewAt(was, now, u, p.writable)
  {
    NoWrap(p, |file|);
    forall u: nat | MemPage(p) / PGSIZE <= u < SegmentEnd(p) / PGSIZE
      ensures NewAt(was, now, u, p.writable)
    {
      assert PlacedAt(was, now, file, FilePage(p), ReadBytes(p), MemPage(p) / PGSIZE, k, p.writable, u);
    }
  }

  lemma OthersSame(p: Phdr, file: seq<Byte>, was: UserMemory, now: UserMemory, k: nat)
    requires Words(p) && ValidateSegment(p, |file|) && k <= (ReadBytes(p) + ZeroBytes(p)) / PGSIZE
    requires InPlace(was, now, file, FilePage(p), ReadBytes(p), MemPage(p) / PGSIZE, k, p.writable)
    ensures forall u: nat {:trigger SameAt(was, now, u)} ::
      u < MemPage(p) / PGSIZE || SegmentEnd(p) / PGSIZE <= u ==> SameAt(was, now, u)
  {
    NoWrap(p, |file|);
    forall u: nat | u < MemPage(p) / PGSIZE || SegmentEnd(p) / PGSIZE <= u
      ensures SameAt(was, now, u)
    {
      assert PlacedAt(was, now, file, FilePage(p), ReadBytes(p), MemPage(p) / PGSIZE, k, p.writable, u);
    }
  }

  /** What has been read of the file's n bytes, all but read of them, was there to be read. */
  ghost predicate ReadIn(file: seq<Byte>, ofs: nat, n: nat, read: nat) {
    read < n ==> ofs + (n - read) <= |file|
  }

  /** The byte that a user address reads, if its page is mapped. */
  ghost function ByteAt(memory: UserMemory, addr: nat): Option<Byte> {
    if addr / PGSIZE in memory && |memory[addr / PGSIZE].0| == PGSIZE then Some(memory[addr / PGSIZE].0[addr % PGSIZE])
    else None
  }

  lemma SegmentReads(was: UserMemory, now: UserMemory, file: seq<Byte>, ofs: nat, n: nat, upage: nat, total: nat,
                     writable: bool, addr: nat)
    requires InPlace(was, now, file, ofs, n, upage / PGSIZE, total, writable) && upage % PGSIZE == 0
    requires upage <= addr < upage + total * PGSIZE
    ensures ByteAt(now, addr) == Some(SegmentByte(file, ofs, n, addr - upage))
    ensures now[addr / PGSIZE].1 == writable && addr / PGSIZE !in was
  {
    var u, first := addr / PGSIZE, upage / PGSIZE;
    assert PlacedAt(was, now, file, ofs, n, first, total, writable, u);
    var page := PageBytes(file, ofs, n, (u - first) * PGSIZE);
    assert page[addr % PGSIZE] == SegmentByte(file, ofs, n, (u - first) * PGSIZE + addr % PGSIZE);
    assert (u - first) * PGSIZE + addr % PGSIZE == addr - upage;
  }

  /** k of the total pages of a segment are in place; the segment lies in user space. */
  ghost predicate Underway(upage: nat, n: nat, total: nat, k: nat, read: nat, zero: nat) {
    && k * PGSIZE + read + zero == total * PGSIZE && read <= n <= total * PGSIZE
    && read == (if k * PGSIZE < n then n - k * PGSIZE else 0)
    && upage % PGSIZE == 0 && upage + total * PGSIZE <= PHYS_BASE
  }

  lemma LastPage(upage: nat, n: nat, total: nat, k: nat)
    requires Underway(upage, n, total, k, 0, 0)
    ensures k == total
  {
  }

  /** User page u once the first k pages of a segment are in place from page first on: those were free before and
      hold the segment now; the others are as they were. */
  ghost predicate PlacedAt(was: UserMemory, now: UserMemory, file: seq<Byte>, ofs: nat, n: nat, first: nat, k: nat,
                           writable: bool, u: nat)
  {
    if first <= u < first + k
    then u !in was && u in now && now[u] == (PageBytes(file, ofs, n, (u - first) * PGSIZE), writable)
    else (u in now <==> u in was) && (u in was ==> now[u] == was[u])
  }

  ghost predicate InPlace(was: UserMemory, now: UserMemory, file: seq<Byte>, ofs: nat, n: nat, first: nat, k: nat,
                          writable: bool)
  {
    forall u: nat :: PlacedAt(was, now, file, ofs, n, first, k, writable, u)
  }

  lemma InPlaceMore(was: UserMemory, now: UserMemory, file: seq<Byte>, ofs: nat, n: nat, first: nat, k: nat,
                    writable: bool, now': UserMemory)
    requires InPlace(was, now, file, ofs, n, first, k, writable) && first + k !in now
    requires now' == now[first + k := (PageBytes(file, ofs, n, k * PGSIZE), writable)]
    ensures InPlace(was, now', file, ofs, n, first, k + 1, writable)
  {
    var k' := k + 1;
    forall u: nat
      ensures PlacedAt(was, now', file, ofs, n, first, k', writable, u)
    {
      assert PlacedAt(was, now, file, ofs, n, first, k, writable, u);
    }
  }

  /** There is a whole page still to do: the counts do not go below zero, and the page is in user space. */
  lemma NextPage(upage: nat, n: nat, total: nat, k: nat, read: nat, zero: nat)
    requires Underway(upage, n, total, k, read, zero) && (read > 0 || zero > 0)
    ensures var pageRead := if read < PGSIZE then read else PGSIZE;
      && pageRead == (if k * PGSIZE >= n then 0 else if n - k * PGSIZE < PGSIZE then n - k * PGSIZE else PGSIZE)
      && (pageRead > 0 ==> n - read == k * PGSIZE)
      && zero >= PGSIZE - pageRead
      && Underway(upage, n, total, k + 1, read - pageRead, zero - (PGSIZE - pageRead))
    ensures k < total && upage / PGSIZE + k < USER_PAGES
  {
  }
}
