/** userprog/pagedir.c, threads/pte.h and threads/vaddr.h: two levels of page tables that stand for one partial map
    from user pages to frames. */
module PageDir {

  import opened Vaddr
  import opened Wrappers
  import opened Ordering
  import opened Sequences

  /** Entries in a page directory or page table. */
  const ENTRIES := 1024
  /** User pages are numbered below this, and user entries of a page directory below pd_no (PHYS_BASE). */
  const USER_PAGES := 786432
  const USER_PDES := 768

  // ----- words

  /** pde_create, for the page table in a frame: user, present, writable. */
  function PdeCreate(frame: nat): nat {
    frame * PGSIZE + 7
  }

  /** pte_create_user */
  function PteCreateUser(frame: nat, writable: bool): nat {
    frame * PGSIZE + if writable then 7 else 5
  }

  predicate Present(word: nat) {
    word % 2 == 1
  }

  predicate Writable(word: nat) {
    word / 2 % 2 == 1
  }

  /** pde_get_pt and pte_get_page, as frame numbers */
  function FrameOf(word: nat): nat {
    word / PGSIZE
  }

  /** word & ~PTE_P */
  function NotPresent(word: nat): nat {
    word - word % 2
  }

  lemma WordFields(frame: nat, writable: bool)
    ensures Present(PteCreateUser(frame, writable)) && FrameOf(PteCreateUser(frame, writable)) == frame
    ensures Writable(PteCreateUser(frame, writable)) == writable
    ensures Present(PdeCreate(frame)) && FrameOf(PdeCreate(frame)) == frame && PdeCreate(frame) != 0
  {
  }

  // ----- the map

  datatype Page = Page(frame: nat, writable: bool)

  /** The memory of page tables, by frame: the page directory and the page tables it points to. */
  type Memory = map<nat, seq<nat>>

  ghost predicate IsTable(mem: Memory, frame: nat) {
    frame in mem && |mem[frame]| == ENTRIES
  }

  /** A user entry of the directory is empty or points to a page table. */
  ghost predicate PdeInv(mem: Memory, pd: nat, i: nat)
    requires IsTable(mem, pd) && i < ENTRIES
  {
    mem[pd][i] == 0 ||
    (mem[pd][i] == PdeCreate(FrameOf(mem[pd][i])) && FrameOf(mem[pd][i]) != pd && IsTable(mem, FrameOf(mem[pd][i])))
  }

  ghost predicate Inv(mem: Memory, pd: nat, base: seq<nat>) {
    && IsTable(mem, pd) && |base| == ENTRIES
    && (forall i: nat {:trigger mem[pd][i]} :: USER_PDES <= i < ENTRIES ==> mem[pd][i] == base[i])
    && (forall i: nat {:trigger PdeInv(mem, pd, i)} :: i < USER_PDES ==> PdeInv(mem, pd, i))
    && (forall i: nat, j: nat {:trigger mem[pd][i], mem[pd][j]} ::
        i < j < USER_PDES && mem[pd][i] != 0 && mem[pd][j] != 0 ==> FrameOf(mem[pd][i]) != FrameOf(mem[pd][j]))
  }

  /** The page table word for a user page, 0 when there is no page table for it. */
  ghost function Pte(mem: Memory, pd: nat, u: nat): nat
    requires IsTable(mem, pd) && u < USER_PAGES && PdeInv(mem, pd, u / ENTRIES)
  {
    var pde := mem[pd][u / ENTRIES];
    if pde == 0 then 0 else mem[FrameOf(pde)][u % ENTRIES]
  }

  ghost function PageOf(word: nat): Option<Page> {
    if Present(word) then Some(Page(FrameOf(word), Writable(word))) else None
  }

  /** What a user page is mapped to. */
  ghost function Maps(mem: Memory, pd: nat, base: seq<nat>, u: nat): Option<Page>
    requires Inv(mem, pd, base) && u < USER_PAGES
  {
    assert PdeInv(mem, pd, u / ENTRIES);
    PageOf(Pte(mem, pd, u))
  }

  /** The tables stand for the partial map pages from user pages to frames. */
  ghost predicate StandsAt(mem: Memory, pd: nat, base: seq<nat>, pages: map<nat, Page>, u: nat)
    requires Inv(mem, pd, base)
  {
    if u < USER_PAGES && Maps(mem, pd, base, u).Some?
    then u in pages && pages[u] == Maps(mem, pd, base, u).value
    else u !in pages
  }

  ghost predicate StandsFor(mem: Memory, pd: nat, base: seq<nat>, pages: map<nat, Page>)
    requires Inv(mem, pd, base)
  {
    forall u: nat :: StandsAt(mem, pd, base, pages, u)
  }

  /** There is only one map that the tables stand for. */
  lemma StandsForOne(mem: Memory, pd: nat, base: seq<nat>, pages: map<nat, Page>, pages': map<nat, Page>)
    requires Inv(mem, pd, base) && StandsFor(mem, pd, base, pages) && StandsFor(mem, pd, base, pages')
    ensures pages == pages'
  {
    forall u: nat
      ensures u in pages <==> u in pages'
      ensures u in pages ==> pages[u] == pages'[u]
    {
      assert StandsAt(mem, pd, base, pages, u) && StandsAt(mem, pd, base, pages', u);
    }
  }

  // ----- changes to the tables

  function Store(table: seq<nat>, i: nat, word: nat): (r: seq<nat>)
    requires i < |table|
    ensures |r| == |table|
  {
    table[i := word]
  }

  /** One word of one page table changes: so does the mapping of one page. */
  lemma StorePte(mem: Memory, pd: nat, base: seq<nat>, pages: map<nat, Page>, u: nat, word: nat, mem': Memory)
    requires Inv(mem, pd, base) && StandsFor(mem, pd, base, pages) && u < USER_PAGES && mem[pd][u / ENTRIES] != 0
    requires FrameOf(mem[pd][u / ENTRIES]) in mem && |mem[FrameOf(mem[pd][u / ENTRIES])]| == ENTRIES
    requires var t := FrameOf(mem[pd][u / ENTRIES]); mem' == mem[t := Store(mem[t], u % ENTRIES, word)]
    ensures Inv(mem', pd, base)
    ensures StandsFor(mem', pd, base, if Present(word) then pages[u := Page(FrameOf(word), Writable(word))]
                                      else pages - {u})
  {
    var t := FrameOf(mem[pd][u / ENTRIES]);
    assert PdeInv(mem, pd, u / ENTRIES);
    assert mem'[pd] == mem[pd];
    forall i: nat | i < USER_PDES
      ensures PdeInv(mem', pd, i)
    {
      assert PdeInv(mem, pd, i);
    }
    forall v: nat | v < USER_PAGES
      ensures Maps(mem', pd, base, v) == if v == u then PageOf(word) else Maps(mem, pd, base, v)
    {
      assert PdeInv(mem, pd, v / ENTRIES) && PdeInv(mem', pd, v / ENTRIES);
      assert v == ENTRIES * (v / ENTRIES) + v % ENTRIES && u == ENTRIES * (u / ENTRIES) + u % ENTRIES;
    }
    var pages' := if Present(word) then pages[u := Page(FrameOf(word), Writable(word))] else pages - {u};
    forall v: nat
      ensures StandsAt(mem', pd, base, pages', v)
    {
      assert StandsAt(mem, pd, base, pages, v);
    }
  }

  /** An empty page table appears: no mapping changes. */
  lemma AddTable(mem: Memory, pd: nat, base: seq<nat>, pages: map<nat, Page>, i: nat, t: nat, mem': Memory)
    requires Inv(mem, pd, base) && StandsFor(mem, pd, base, pages) && i < USER_PDES && mem[pd][i] == 0 && t !in mem
    requires mem' == mem[t := seq(ENTRIES, _ => 0)][pd := Store(mem[pd], i, PdeCreate(t))]
    ensures Inv(mem', pd, base) && StandsFor(mem', pd, base, pages)
  {
    WordFields(t, true);
    forall j: nat | j < USER_PDES
      ensures PdeInv(mem', pd, j)
      ensures mem'[pd][j] != 0 && j != i ==> FrameOf(mem'[pd][j]) != t
    {
      assert PdeInv(mem, pd, j);
    }
    assert Inv(mem', pd, base);
    forall v: nat
      ensures StandsAt(mem', pd, base, pages, v)
    {
      assert StandsAt(mem, pd, base, pages, v);
      if v < USER_PAGES { assert PdeInv(mem, pd, v / ENTRIES) && PdeInv(mem', pd, v / ENTRIES); }
    }
  }

  // ----- what pagedir_destroy frees

  /** The frames of the present entries among the first n of a page table. */
  ghost function Frames(words: seq<nat>, n: nat): seq<nat>
    requires n <= |words|
  {
    if n == 0 then []
    else if Present(words[n - 1]) then Frames(words, n - 1) + [FrameOf(words[n - 1])]
    else Frames(words, n - 1)
  }

  /** The page table that entry i of the directory points to. */
  ghost function TableAt(mem: Memory, pd: nat, i: nat): seq<nat>
    requires IsTable(mem, pd) && i < ENTRIES
  {
    if mem[pd][i] != 0 && FrameOf(mem[pd][i]) in mem then mem[FrameOf(mem[pd][i])] else []
  }

  /** The pages freed for entry i of the directory: what the page table maps, then the page table. */
  ghost function FreedFor(mem: Memory, pd: nat, i: nat): seq<nat>
    requires IsTable(mem, pd) && i < ENTRIES
  {
    if mem[pd][i] == 0 then []
    else Frames(TableAt(mem, pd, i), |TableAt(mem, pd, i)|) + [FrameOf(mem[pd][i])]
  }

  ghost function Freed(mem: Memory, pd: nat): (r: seq<seq<nat>>)
    requires IsTable(mem, pd)
    ensures |r| == USER_PDES
  {
    seq(USER_PDES, i requires 0 <= i < USER_PDES => FreedFor(mem, pd, i))
  }

  ghost predicate Lists(words: seq<nat>, j: nat, f: nat) {
    j < |words| && Present(words[j]) && FrameOf(words[j]) == f
  }

  lemma {:induction false} FramesHold(words: seq<nat>, n: nat)
    requires n <= |words|
    ensures forall f :: f in Frames(words, n) <==> exists j: nat :: j < n && Lists(words, j, f)
    ensures Distinct(Frames(words, n)) <==>
      forall j: nat, k: nat, f: nat :: j < k < n && Lists(words, j, f) ==> !Lists(words, k, f)
  {
    if n > 0 {
      FramesHold(words, n - 1);
      if Present(words[n - 1]) {
        var f := FrameOf(words[n - 1]);
        assert Lists(words, n - 1, f);
        if Distinct(Frames(words, n - 1)) && f !in Frames(words, n - 1) {
          DistinctConcat(Frames(words, n - 1), [f]);
        } else if Distinct(Frames(words, n)) {
          DistinctParts(Frames(words, n - 1), [f]);
        }
      }
    }
  }

  /** Entry i of the directory leads to frame f: it is the page table, or mapped by it. */
  ghost predicate Leads(mem: Memory, pd: nat, i: nat, f: nat) {
    && IsTable(mem, pd) && i < ENTRIES && mem[pd][i] != 0
    && (f == FrameOf(mem[pd][i]) || exists j: nat :: Lists(TableAt(mem, pd, i), j, f))
  }

  lemma FreedForHolds(mem: Memory, pd: nat, i: nat, f: nat)
    requires IsTable(mem, pd) && i < ENTRIES
    ensures f in FreedFor(mem, pd, i) <==> Leads(mem, pd, i, f)
  {
    if mem[pd][i] != 0 { FramesHold(TableAt(mem, pd, i), |TableAt(mem, pd, i)|); }
  }

  lemma ListsIsMaps(mem: Memory, pd: nat, base: seq<nat>, i: nat, j: nat, f: nat)
    requires Inv(mem, pd, base) && i < USER_PDES && j < ENTRIES
    ensures Lists(TableAt(mem, pd, i), j, f) <==>
      Maps(mem, pd, base, ENTRIES * i + j).Some? && Maps(mem, pd, base, ENTRIES * i + j).value.frame == f
  {
    assert PdeInv(mem, pd, i);
    assert (ENTRIES * i + j) / ENTRIES == i && (ENTRIES * i + j) % ENTRIES == j;
  }

  /** User page u is mapped to frame f. */
  ghost predicate Has(mem: Memory, pd: nat, base: seq<nat>, u: nat, f: nat)
    requires Inv(mem, pd, base)
  {
    u < USER_PAGES && Maps(mem, pd, base, u).Some? && Maps(mem, pd, base, u).value.frame == f
  }

  /** f holds the page directory or one of its page tables. */
  ghost predicate HoldsTable(mem: Memory, pd: nat, f: nat)
    requires IsTable(mem, pd)
  {
    f == pd || exists i: nat :: i < USER_PDES && mem[pd][i] != 0 && FrameOf(mem[pd][i]) == f
  }

  /** No frame is mapped twice, and none that is mapped holds a table. */
  ghost predicate MapsOnce(mem: Memory, pd: nat, base: seq<nat>)
    requires Inv(mem, pd, base)
  {
    && (forall u: nat, v: nat, f: nat :: u < v && Has(mem, pd, base, u, f) ==> !Has(mem, pd, base, v, f))
    && (forall u: nat, f: nat :: Has(mem, pd, base, u, f) ==> !HoldsTable(mem, pd, f))
  }

  /** All that pagedir_destroy frees, in order. */
  ghost function AllFreed(mem: Memory, pd: nat): seq<nat>
    requires IsTable(mem, pd)
  {
    Listing(Freed(mem, pd), USER_PDES) + [pd]
  }

  lemma HasIsLeads(mem: Memory, pd: nat, base: seq<nat>, u: nat, f: nat)
    requires Inv(mem, pd, base) && Has(mem, pd, base, u, f)
    ensures u / ENTRIES < USER_PDES && Lists(TableAt(mem, pd, u / ENTRIES), u % ENTRIES, f)
    ensures f in FreedFor(mem, pd, u / ENTRIES)
  {
    var i, j := u / ENTRIES, u % ENTRIES;
    ListsIsMaps(mem, pd, base, i, j, f);
    assert u == ENTRIES * i + j;
    FreedForHolds(mem, pd, i, f);
  }

  lemma LeadsIsHas(mem: Memory, pd: nat, base: seq<nat>, i: nat, f: nat)
    requires Inv(mem, pd, base) && i < USER_PDES && f in FreedFor(mem, pd, i)
    ensures mem[pd][i] != 0
    ensures f == FrameOf(mem[pd][i]) || exists u: nat :: u / ENTRIES == i && Has(mem, pd, base, u, f)
  {
    FreedForHolds(mem, pd, i, f);
    if f != FrameOf(mem[pd][i]) {
      var j: nat :| Lists(TableAt(mem, pd, i), j, f);
      assert PdeInv(mem, pd, i);
      ListsIsMaps(mem, pd, base, i, j, f);
      assert (ENTRIES * i + j) / ENTRIES == i && Has(mem, pd, base, ENTRIES * i + j, f);
    }
  }

  /** Each mapped frame, each page table and the directory itself is freed, and nothing else. */
  lemma FreesAll(mem: Memory, pd: nat, base: seq<nat>, f: nat)
    requires Inv(mem, pd, base)
    ensures f in AllFreed(mem, pd) <==> HoldsTable(mem, pd, f) || exists u: nat :: Has(mem, pd, base, u, f)
  {
    var bs := Freed(mem, pd);
    ListingHolds(bs, USER_PDES, f);
    if f in Listing(bs, USER_PDES) {
      var i: nat :| i < USER_PDES && f in bs[i];
      LeadsIsHas(mem, pd, base, i, f);
    }
    if u: nat :| Has(mem, pd, base, u, f) {
      HasIsLeads(mem, pd, base, u, f);
      assert f in bs[u / ENTRIES];
    }
    if i: nat :| i < USER_PDES && mem[pd][i] != 0 && FrameOf(mem[pd][i]) == f {
      FreedForHolds(mem, pd, i, f);
      assert f in bs[i];
    }
  }

  /** Nothing is freed twice, exactly when no frame is mapped twice and none that is mapped holds a table. */
  lemma FreesOnce(mem: Memory, pd: nat, base: seq<nat>)
    requires Inv(mem, pd, base)
    ensures Distinct(AllFreed(mem, pd)) <==> MapsOnce(mem, pd, base)
  {
    if MapsOnce(mem, pd, base) { OnceDistinct(mem, pd, base); }
    if Distinct(AllFreed(mem, pd)) { DistinctOnce(mem, pd, base); }
  }

  lemma OnceDistinct(mem: Memory, pd: nat, base: seq<nat>)
    requires Inv(mem, pd, base) && MapsOnce(mem, pd, base)
    ensures Distinct(AllFreed(mem, pd))
  {
    var bs := Freed(mem, pd);
    forall i: nat | i < USER_PDES
      ensures Distinct(bs[i])
    {
      BlockDistinct(mem, pd, base, i);
    }
    forall i: nat, k: nat, f | i < k < USER_PDES && f in bs[i] && f in bs[k]
      ensures false
    {
      BlocksApart(mem, pd, base, i, k, f);
    }
    ListingDistinct(bs, USER_PDES);
    if pd in Listing(bs, USER_PDES) {
      ListingHolds(bs, USER_PDES, pd);
      var i: nat :| i < USER_PDES && pd in bs[i];
      assert PdeInv(mem, pd, i);
      LeadsIsHas(mem, pd, base, i, pd);
      assert false;
    }
    DistinctConcat(Listing(bs, USER_PDES), [pd]);
  }

  lemma BlockDistinct(mem: Memory, pd: nat, base: seq<nat>, i: nat)
    requires Inv(mem, pd, base) && MapsOnce(mem, pd, base) && i < USER_PDES
    ensures Distinct(FreedFor(mem, pd, i))
  {
    if mem[pd][i] != 0 {
      assert PdeInv(mem, pd, i);
      var t := TableAt(mem, pd, i);
      FramesHold(t, ENTRIES);
      forall j: nat, f: nat | Lists(t, j, f)
        ensures Has(mem, pd, base, ENTRIES * i + j, f) && f != FrameOf(mem[pd][i])
      {
        ListsIsMaps(mem, pd, base, i, j, f);
        assert Has(mem, pd, base, ENTRIES * i + j, f) && !HoldsTable(mem, pd, f);
      }
      DistinctConcat(Frames(t, ENTRIES), [FrameOf(mem[pd][i])]);
    }
  }

  lemma BlocksApart(mem: Memory, pd: nat, base: seq<nat>, i: nat, k: nat, f: nat)
    requires Inv(mem, pd, base) && MapsOnce(mem, pd, base) && i < k < USER_PDES
    requires f in FreedFor(mem, pd, i)
    ensures f !in FreedFor(mem, pd, k)
  {
    LeadsIsHas(mem, pd, base, i, f);
    if f in FreedFor(mem, pd, k) {
      LeadsIsHas(mem, pd, base, k, f);
      assert false;
    }
  }

  lemma DistinctOnce(mem: Memory, pd: nat, base: seq<nat>)
    requires Inv(mem, pd, base) && Distinct(AllFreed(mem, pd))
    ensures MapsOnce(mem, pd, base)
  {
    var bs := Freed(mem, pd);
    DistinctParts(Listing(bs, USER_PDES), [pd]);
    DistinctListing(bs, USER_PDES);
    forall u: nat, v: nat, f: nat | u < v && Has(mem, pd, base, u, f)
      ensures !Has(mem, pd, base, v, f)
    {
      if Has(mem, pd, base, v, f) { TwiceSeen(mem, pd, base, u, v, f); }
    }
    forall u: nat, f: nat | Has(mem, pd, base, u, f)
      ensures !HoldsTable(mem, pd, f)
    {
      TableSeen(mem, pd, base, u, f);
    }
  }

  lemma TwiceSeen(mem: Memory, pd: nat, base: seq<nat>, u: nat, v: nat, f: nat)
    requires Inv(mem, pd, base) && NoRepeats(Freed(mem, pd), USER_PDES)
    requires u < v && Has(mem, pd, base, u, f)
    ensures !Has(mem, pd, base, v, f)
  {
    if Has(mem, pd, base, v, f) {
      HasIsLeads(mem, pd, base, u, f);
      HasIsLeads(mem, pd, base, v, f);
      var i, k := u / ENTRIES, v / ENTRIES;
      assert f in Freed(mem, pd)[i] && f in Freed(mem, pd)[k];
      assert i == k && Distinct(Freed(mem, pd)[i]);
      assert PdeInv(mem, pd, i);
      DistinctParts(Frames(TableAt(mem, pd, i), ENTRIES), [FrameOf(mem[pd][i])]);
      FramesHold(TableAt(mem, pd, i), ENTRIES);
      assert false;
    }
  }

  lemma TableSeen(mem: Memory, pd: nat, base: seq<nat>, u: nat, f: nat)
    requires Inv(mem, pd, base) && NoRepeats(Freed(mem, pd), USER_PDES)
    requires pd !in Listing(Freed(mem, pd), USER_PDES) && Has(mem, pd, base, u, f)
    ensures !HoldsTable(mem, pd, f)
  {
    var bs, i := Freed(mem, pd), u / ENTRIES;
    HasIsLeads(mem, pd, base, u, f);
    ListingHolds(bs, USER_PDES, f);
    assert f in bs[i];
    if k: nat :| k < USER_PDES && mem[pd][k] != 0 && FrameOf(mem[pd][k]) == f {
      FreedForHolds(mem, pd, k, f);
      assert f in bs[k] && i == k && Distinct(bs[i]);
      assert PdeInv(mem, pd, i);
      DistinctParts(Frames(TableAt(mem, pd, i), ENTRIES), [f]);
      FramesHold(TableAt(mem, pd, i), ENTRIES);
      assert false;
    }
  }

  class PageTables {
    const pd: nat
    ghost const base: seq<nat>
    var mem: Memory
    /** Where each user page is. */
    ghost var pages: map<nat, Page>

    ghost predicate Valid()
      reads this
    {
      Inv(mem, pd, base) && StandsFor(mem, pd, base, pages)
    }

    /** pagedir_create in a page that palloc gave; baseDir is base_page_dir, which has no user entries. */
    constructor (page: nat, baseDir: seq<nat>)
      requires |baseDir| == ENTRIES && forall i :: 0 <= i < USER_PDES ==> baseDir[i] == 0
      ensures Valid() && pd == page && base == baseDir && mem.Keys == {page}
      ensures pages == map[]
    {
      pd, base := page, baseDir;
      mem, pages := map[page := baseDir], map[];
      new;
      forall i: nat | i < USER_PDES
        ensures PdeInv(mem, pd, i)
      {
      }
      forall u: nat
        ensures StandsAt(mem, pd, base, pages, u)
      {
      }
    }

    /** lookup_page: whether there is a page table for page u, made on demand in the page t that palloc gives. */
    method LookupPage(u: nat, create: bool, t: Option<nat>) returns (found: bool)
      requires Valid() && u < USER_PAGES && (t.Some? ==> t.value !in mem)
      modifies this
      ensures Valid()
      ensures found == (old(mem[pd][u / ENTRIES]) != 0 || (create && t.Some?))
      ensures found ==> mem[pd][u / ENTRIES] != 0
      ensures found ==> IsTable(mem, FrameOf(mem[pd][u / ENTRIES])) && FrameOf(mem[pd][u / ENTRIES]) != pd
      ensures if found && old(mem[pd][u / ENTRIES]) == 0 then mem.Keys == old(mem.Keys) + {t.value} else mem == old(mem)
      ensures pages == old(pages)
    {
      var i := u / ENTRIES;
      assert PdeInv(mem, pd, i);
      if mem[pd][i] == 0 {
        if !create || t.None? {
          return false;
        }
        var mem' := mem[t.value := seq(ENTRIES, _ => 0)][pd := Store(mem[pd], i, PdeCreate(t.value))];
        AddTable(mem, pd, base, pages, i, t.value, mem');
        mem := mem';
        assert PdeInv(mem, pd, i);
      }
      return true;
    }

    /** pagedir_set_page: adds one mapping, or runs out of memory and changes none. */
    method SetPage(u: nat, frame: nat, writable: bool, t: Option<nat>) returns (ok: bool)
      requires Valid() && u < USER_PAGES && u !in pages && (t.Some? ==> t.value !in mem)
      modifies this
      ensures Valid() && old(mem.Keys) <= mem.Keys <= old(mem.Keys) + (if t.Some? then {t.value} else {})
      ensures ok == (t.Some? || old(mem[pd][u / ENTRIES]) != 0) && (!ok ==> mem == old(mem))
      ensures pages == if ok then old(pages)[u := Page(frame, writable)] else old(pages)
    {
      ok := LookupPage(u, true, t);
      if ok {
        var table := FrameOf(mem[pd][u / ENTRIES]);
        var word := PteCreateUser(frame, writable);
        WordFields(frame, writable);
        StorePte(mem, pd, base, pages, u, word, mem[table := Store(mem[table], u % ENTRIES, word)]);
        mem := mem[table := Store(mem[table], u % ENTRIES, word)];
        pages := pages[u := Page(frame, writable)];
      }
    }

    /** pagedir_get_page: the physical address that a user address stands for. */
    method GetPage(uaddr: nat) returns (paddr: Option<nat>)
      requires Valid() && uaddr < PHYS_BASE
      ensures var u := uaddr / PGSIZE;
        paddr == if u in pages then Some(pages[u].frame * PGSIZE + uaddr % PGSIZE) else None
    {
      var u := uaddr / PGSIZE;
      assert PdeInv(mem, pd, u / ENTRIES) && StandsAt(mem, pd, base, pages, u);
      var pde := mem[pd][u / ENTRIES];
      if pde == 0 {
        return None;
      }
      var pte := mem[FrameOf(pde)][u % ENTRIES];
      if !Present(pte) {
        return None;
      }
      return Some(FrameOf(pte) * PGSIZE + uaddr % PGSIZE);
    }

    /** pagedir_clear_page: takes one mapping away. */
    method ClearPage(u: nat)
      requires Valid() && u < USER_PAGES
      modifies this
      ensures Valid() && mem.Keys == old(mem.Keys)
      ensures pages == old(pages) - {u}
    {
      assert StandsAt(mem, pd, base, pages, u);
      var found := LookupPage(u, false, None);
      if found {
        var table := FrameOf(mem[pd][u / ENTRIES]);
        var pte := mem[table][u % ENTRIES];
        if Present(pte) {
          var mem' := mem[table := Store(mem[table], u % ENTRIES, NotPresent(pte))];
          StorePte(mem, pd, base, pages, u, NotPresent(pte), mem');
          mem := mem';
          pages := pages - {u};
        }
      }
    }

    /** pagedir_destroy: the pages it gives to palloc_free_page, in order. */
    method Destroy() returns (freed: seq<nat>)
      requires Valid()
      ensures freed == AllFreed(mem, pd)
    {
      freed := [];
      var i := 0;
      while i < USER_PDES
        invariant i <= USER_PDES && freed == Listing(Freed(mem, pd), i)
      {
        assert PdeInv(mem, pd, i);
        var pde := mem[pd][i];
        if Present(pde) {
          var pt := FrameOf(pde);
          var frames := PresentFrames(mem[pt]);
          freed := freed + (frames + [pt]);
        }
        i := i + 1;
      }
      freed := freed + [pd];
    }

    method PresentFrames(pt: seq<nat>) returns (frames: seq<nat>)
      requires |pt| == ENTRIES
      ensures frames == Frames(pt, ENTRIES)
    {
      frames := [];
      var j := 0;
      while j < ENTRIES
        invariant j <= ENTRIES && frames == Frames(pt, j)
      {
        if Present(pt[j]) {
          frames := frames + [FrameOf(pt[j])];
        }
        j := j + 1;
      }
    }
  }
}
