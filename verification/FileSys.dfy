/** filesys.c, free-map.c and the lifetimes of inodes: which sectors belong to which file. */
module FileSys {

  import opened Wrappers
  import opened Ordering
  import opened Bitmaps
  import opened InodeIo
  import opened Directory

  const FREE_MAP_SECTOR := 0
  const ROOT_DIR_SECTOR := 1

  /** struct inode_disk */
  datatype OnDisk = OnDisk(start: nat, length: nat)

  /** struct inode */
  datatype InMemory = InMemory(sector: nat, openCnt: nat, removed: bool, data: OnDisk)

  /** The free map, the inode sectors on disk, the root directory's slots, and the list of open inodes.  loose is not
      kept by the code: it is the set of sectors that are marked in the free map and belong to no file. */
  datatype Fs = Fs(marked: seq<bool>, inodes: map<nat, OnDisk>, slots: seq<Slot>, open: seq<InMemory>,
                   loose: set<nat>)

  // ----- the steps calls are made of

  function DataSectors(d: OnDisk): nat {
    BytesToSectors(d.length)
  }

  ghost function Range(at: nat, cnt: nat): (r: set<nat>)
    ensures forall x :: x in r <==> at <= x < at + cnt
  {
    if cnt == 0 then {} else Range(at, cnt - 1) + {at + cnt - 1}
  }

  /** free_map_allocate; written says whether the free map could be written to its file. */
  ghost function Allocate(s: Fs, cnt: nat, written: bool): (Option<nat>, Fs) {
    match FirstFit(s.marked, 0, cnt, false)
    case None => (None, s)
    case Some(at) =>
      var s' := s.(marked := Filled(s.marked, at, cnt, true), loose := s.loose + Range(at, cnt));
      if written then (Some(at), s')
      else (None, s'.(marked := Filled(s'.marked, at, cnt, false), loose := s.loose))
  }

  /** free_map_release, whose assertion is its precondition. */
  ghost function Release(s: Fs, at: nat, cnt: nat): Fs
    requires Fits(s.marked, at, cnt, true)
  {
    s.(marked := Filled(s.marked, at, cnt, false), loose := s.loose - Range(at, cnt))
  }

  /** The position of the open inode for a sector. */
  function OpenAt(open: seq<InMemory>, x: nat): (r: Option<nat>)
    ensures r.None? ==> forall i :: 0 <= i < |open| ==> open[i].sector != x
    ensures r.Some? ==> r.value < |open| && open[r.value].sector == x
  {
    if open == [] then None
    else if open[0].sector == x then Some(0)
    else
      var r := OpenAt(open[1..], x);
      if r.None? then None else Some(r.value + 1)
  }

  /** inode_open; memory says whether malloc succeeds. */
  ghost function InodeOpen(s: Fs, x: nat, memory: bool): (bool, Fs)
    requires x in s.inodes
  {
    match OpenAt(s.open, x)
    case Some(i) => (true, s.(open := s.open[i := s.open[i].(openCnt := s.open[i].openCnt + 1)]))
    case None =>
      if memory then (true, s.(open := [InMemory(x, 1, false, s.inodes[x])] + s.open)) else (false, s)
  }

  ghost predicate CanClose(s: Fs, i: nat) {
    && i < |s.open| && s.open[i].openCnt > 0
    && (s.open[i].openCnt == 1 && s.open[i].removed ==>
      && Fits(s.marked, s.open[i].sector, 1, true)
      && Fits(Release(s, s.open[i].sector, 1).marked, s.open[i].data.start, DataSectors(s.open[i].data), true))
  }

  /** inode_close of the open inode at position i. */
  ghost function InodeClose(s: Fs, i: nat): Fs
    requires CanClose(s, i)
  {
    var m := s.open[i];
    if m.openCnt > 1 then s.(open := s.open[i := m.(openCnt := m.openCnt - 1)])
    else
      var s' := s.(open := s.open[..i] + s.open[i + 1..]);
      if m.removed then Release(Release(s', m.sector, 1), m.data.start, DataSectors(m.data)) else Settled(s', m.sector)
  }

  /** The file of inode x may have lost its last name or its last opener: if it has neither, its sectors are loose. */
  ghost function Settled(s: Fs, x: nat): Fs {
    if x in Live(s) || x !in s.inodes then s else s.(loose := s.loose + Sectors(x, s.inodes[x]))
  }

  // ----- who owns which sectors

  ghost predicate Named(slots: seq<Slot>, x: nat) {
    exists i :: 0 <= i < |slots| && slots[i].Used? && slots[i].sector == x
  }

  ghost function NamedSectors(slots: seq<Slot>): (r: set<nat>)
    ensures forall x :: x in r <==> Named(slots, x)
  {
    set i | 0 <= i < |slots| && slots[i].Used? :: slots[i].sector
  }

  ghost predicate System(x: nat) {
    x == FREE_MAP_SECTOR || x == ROOT_DIR_SECTOR
  }

  ghost function OpenSectors(open: seq<InMemory>): set<nat> {
    set m | m in open :: m.sector
  }

  /** The sectors of the inodes of all files: a file lives while it has a name or is open. */
  ghost function Live(s: Fs): set<nat> {
    {FREE_MAP_SECTOR, ROOT_DIR_SECTOR} + NamedSectors(s.slots) + OpenSectors(s.open)
  }

  lemma OpenAtIs(open: seq<InMemory>, x: nat)
    ensures x in OpenSectors(open) <==> OpenAt(open, x).Some?
  {
    var r := OpenAt(open, x);
    if r.Some? { assert open[r.value] in open; }
  }

  lemma LiveIs(s: Fs, x: nat)
    ensures x in Live(s) <==> System(x) || Named(s.slots, x) || OpenAt(s.open, x).Some?
  {
    OpenAtIs(s.open, x);
  }

  /** The sector of inode x and those of its data. */
  ghost function Sectors(x: nat, d: OnDisk): set<nat> {
    {x} + Range(d.start, DataSectors(d))
  }

  /** A file's sectors are marked, none is loose, and its inode's sector is not one of its data sectors. */
  ghost predicate Stored(marked: seq<bool>, inodes: map<nat, OnDisk>, loose: set<nat>, x: nat) {
    && x in inodes
    && inodes[x].start + DataSectors(inodes[x]) <= |marked|
    && x !in Range(inodes[x].start, DataSectors(inodes[x]))
    && forall y :: y in Sectors(x, inodes[x]) ==> Kept(marked, loose, y)
  }

  ghost predicate Kept(marked: seq<bool>, loose: set<nat>, y: nat) {
    y < |marked| && marked[y] && y !in loose
  }

  ghost predicate Disjoint(inodes: map<nat, OnDisk>, x: nat, x': nat) {
    x in inodes && x' in inodes && Sectors(x, inodes[x]) !! Sectors(x', inodes[x'])
  }

  ghost predicate Owner(inodes: map<nat, OnDisk>, live: set<nat>, x: nat, y: nat) {
    x in live && x in inodes && y in Sectors(x, inodes[x])
  }

  ghost predicate Accounted(inodes: map<nat, OnDisk>, loose: set<nat>, live: set<nat>, y: nat) {
    y in loose || exists x :: Owner(inodes, live, x, y)
  }

  /** Files do not share sectors, and the marked sectors are those of the files and the loose ones. */
  ghost predicate SectorsInv(marked: seq<bool>, inodes: map<nat, OnDisk>, loose: set<nat>, live: set<nat>) {
    && (forall x :: x in live ==> Stored(marked, inodes, loose, x))
    && (forall x, x' :: x in live && x' in live && x != x' ==> Disjoint(inodes, x, x'))
    && (forall y: nat :: y < |marked| && marked[y] ==> Accounted(inodes, loose, live, y))
    && (forall y :: y in loose ==> y < |marked| && marked[y])
  }

  lemma AllocateKeeps(marked: seq<bool>, inodes: map<nat, OnDisk>, loose: set<nat>, live: set<nat>, at: nat, cnt: nat)
    requires SectorsInv(marked, inodes, loose, live) && Fits(marked, at, cnt, false)
    ensures SectorsInv(Filled(marked, at, cnt, true), inodes, loose + Range(at, cnt), live)
  {
    var marked', loose' := Filled(marked, at, cnt, true), loose + Range(at, cnt);
    forall y: nat
      ensures Kept(marked, loose, y) ==> Kept(marked', loose', y)
      ensures y < |marked'| && marked'[y] && y !in loose' ==> y < |marked| && marked[y] && y !in loose
    {
    }
    forall x | x in live
      ensures Stored(marked', inodes, loose', x)
    {
      assert Stored(marked, inodes, loose, x);
    }
    forall y: nat | y < |marked'| && marked'[y]
      ensures Accounted(inodes, loose', live, y)
    {
      if y !in loose' { assert Accounted(inodes, loose, live, y); }
    }
  }

  lemma ReleaseKeeps(marked: seq<bool>, inodes: map<nat, OnDisk>, loose: set<nat>, live: set<nat>, at: nat, cnt: nat)
    requires SectorsInv(marked, inodes, loose, live) && Range(at, cnt) <= loose && at + cnt <= |marked|
    ensures Fits(marked, at, cnt, true)
    ensures SectorsInv(Filled(marked, at, cnt, false), inodes, loose - Range(at, cnt), live)
  {
    var marked', loose' := Filled(marked, at, cnt, false), loose - Range(at, cnt);
    forall k | at <= k < at + cnt
      ensures marked[k]
    {
      assert k in loose;
    }
    forall y: nat
      ensures Kept(marked, loose, y) ==> Kept(marked', loose', y)
      ensures y < |marked'| && marked'[y] ==> y < |marked| && marked[y] && (y in loose ==> y in loose')
    {
    }
    forall x | x in live
      ensures Stored(marked', inodes, loose', x)
    {
      assert Stored(marked, inodes, loose, x);
    }
    forall y: nat | y < |marked'| && marked'[y]
      ensures Accounted(inodes, loose', live, y)
    {
      assert Accounted(inodes, loose, live, y);
    }
  }

  /** Loose sectors become a file. */
  lemma AdoptKeeps(marked: seq<bool>, inodes: map<nat, OnDisk>, loose: set<nat>, live: set<nat>, x: nat, d: OnDisk)
    requires SectorsInv(marked, inodes, loose, live) && x !in live
    requires Sectors(x, d) <= loose && x !in Range(d.start, DataSectors(d)) && d.start + DataSectors(d) <= |marked|
    ensures SectorsInv(marked, inodes[x := d], loose - Sectors(x, d), live + {x})
  {
    var inodes', loose', live' := inodes[x := d], loose - Sectors(x, d), live + {x};
    forall x' | x' in live'
      ensures Stored(marked, inodes', loose', x')
    {
      if x' != x { assert Stored(marked, inodes, loose, x'); }
    }
    forall v, w | v in live' && w in live' && v != w
      ensures Disjoint(inodes', v, w)
    {
      if v != x && w != x {
        assert Disjoint(inodes, v, w);
      } else {
        assert Stored(marked, inodes, loose, if v == x then w else v);
      }
    }
    forall y: nat | y < |marked| && marked[y]
      ensures Accounted(inodes', loose', live', y)
    {
      if y in Sectors(x, d) {
        assert Owner(inodes', live', x, y);
      } else {
        assert Accounted(inodes, loose, live, y);
        if v :| Owner(inodes, live, v, y) { assert Owner(inodes', live', v, y); }
      }
    }
  }

  /** A file goes, and its sectors are loose. */
  lemma DisownKeeps(marked: seq<bool>, inodes: map<nat, OnDisk>, loose: set<nat>, live: set<nat>, x: nat)
    requires SectorsInv(marked, inodes, loose, live) && x in live
    ensures x in inodes
    ensures SectorsInv(marked, inodes, loose + Sectors(x, inodes[x]), live - {x})
  {
    assert Stored(marked, inodes, loose, x);
    var loose', live' := loose + Sectors(x, inodes[x]), live - {x};
    forall x' | x' in live'
      ensures Stored(marked, inodes, loose', x')
    {
      assert Stored(marked, inodes, loose, x') && Disjoint(inodes, x, x');
    }
    forall y: nat | y < |marked| && marked[y]
      ensures Accounted(inodes, loose', live', y)
    {
      assert Accounted(inodes, loose, live, y);
      DisownAccounts(inodes, loose, live, x, y);
    }
  }

  lemma DisownAccounts(inodes: map<nat, OnDisk>, loose: set<nat>, live: set<nat>, x: nat, y: nat)
    requires x in inodes && Accounted(inodes, loose, live, y)
    ensures Accounted(inodes, loose + Sectors(x, inodes[x]), live - {x}, y)
  {
    if y !in loose && y !in Sectors(x, inodes[x]) {
      var v :| Owner(inodes, live, v, y);
      assert Owner(inodes, live - {x}, v, y);
    }
  }

  // ----- the directory and the open inodes

  /** An open inode mirrors its sector, and if it is marked for removal its file has no name any more. */
  ghost predicate Mirrors(inodes: map<nat, OnDisk>, slots: seq<Slot>, m: InMemory) {
    && m.openCnt > 0 && m.sector in inodes && m.data == inodes[m.sector]
    && (m.removed ==> !System(m.sector) && !Named(slots, m.sector))
  }

  /** No two slots lead to the same file, and none to a system file.  Two may hold the same name. */
  ghost predicate NamesInv(slots: seq<Slot>) {
    && (forall i :: 0 <= i < |slots| && slots[i].Used? ==> !System(slots[i].sector))
    && (forall i, j :: 0 <= i < j < |slots| && slots[i].Used? && slots[j].Used? ==> slots[i].sector != slots[j].sector)
  }

  /** There is at most one open inode for a sector. */
  ghost predicate OpenInv(inodes: map<nat, OnDisk>, slots: seq<Slot>, open: seq<InMemory>) {
    && (forall i, j :: 0 <= i < j < |open| ==> open[i].sector != open[j].sector)
    && (forall i :: 0 <= i < |open| ==> Mirrors(inodes, slots, open[i]))
  }

  ghost predicate Inv(s: Fs) {
    && SectorsInv(s.marked, s.inodes, s.loose, Live(s))
    && NamesInv(s.slots)
    && OpenInv(s.inodes, s.slots, s.open)
  }

  lemma Recounted(open: seq<InMemory>, i: nat, m: InMemory)
    requires i < |open| && m.sector == open[i].sector
    ensures OpenSectors(open[i := m]) == OpenSectors(open)
  {
    var open' := open[i := m];
    forall x | x in OpenSectors(open)
      ensures x in OpenSectors(open')
    {
      var j :| 0 <= j < |open| && open[j].sector == x;
      assert open'[j] in open' && open'[j].sector == x;
    }
    forall x | x in OpenSectors(open')
      ensures x in OpenSectors(open)
    {
      var j :| 0 <= j < |open'| && open'[j].sector == x;
      assert open[j] in open && open[j].sector == x;
    }
  }

  lemma OpenWith(open: seq<InMemory>, m: InMemory)
    ensures OpenSectors([m] + open) == OpenSectors(open) + {m.sector}
  {
    assert m in [m] + open;
    forall x | x in OpenSectors(open)
      ensures x in OpenSectors([m] + open)
    {
      var k :| k in open && k.sector == x;
      assert k in [m] + open;
    }
  }

  lemma OpenWithout(open: seq<InMemory>, i: nat)
    requires i < |open| && forall j, k :: 0 <= j < k < |open| ==> open[j].sector != open[k].sector
    ensures OpenSectors(open[..i] + open[i + 1..]) == OpenSectors(open) - {open[i].sector}
  {
    var open' := open[..i] + open[i + 1..];
    forall x | x in OpenSectors(open) && x != open[i].sector
      ensures x in OpenSectors(open')
    {
      var j :| 0 <= j < |open| && open[j].sector == x;
      assert open'[if j < i then j else j - 1] == open[j];
    }
    forall x | x in OpenSectors(open')
      ensures x in OpenSectors(open) && x != open[i].sector
    {
      var j :| 0 <= j < |open'| && open'[j].sector == x;
      assert open'[j] == open[if j < i then j else j + 1];
    }
  }

  lemma OpenKeepsList(inodes: map<nat, OnDisk>, slots: seq<Slot>, open: seq<InMemory>, i: nat, m: InMemory)
    requires OpenInv(inodes, slots, open) && i < |open| && m.sector == open[i].sector && Mirrors(inodes, slots, m)
    ensures OpenInv(inodes, slots, open[i := m])
  {
  }

  lemma PushKeepsList(inodes: map<nat, OnDisk>, slots: seq<Slot>, open: seq<InMemory>, m: InMemory)
    requires OpenInv(inodes, slots, open) && OpenAt(open, m.sector).None? && Mirrors(inodes, slots, m)
    ensures OpenInv(inodes, slots, [m] + open)
  {
  }

  lemma SameLive(s: Fs, s': Fs)
    requires Inv(s) && s' == s.(open := s'.open) && OpenInv(s.inodes, s.slots, s'.open) && Live(s') == Live(s)
    ensures Inv(s')
  {
  }

  lemma OpenKeeps(s: Fs, x: nat, memory: bool)
    requires Inv(s) && x in Live(s)
    ensures x in s.inodes
    ensures Inv(InodeOpen(s, x, memory).1) && Live(InodeOpen(s, x, memory).1) == Live(s)
    ensures InodeOpen(s, x, memory).0 ==> x in OpenSectors(InodeOpen(s, x, memory).1.open)
  {
    assert Stored(s.marked, s.inodes, s.loose, x);
    LiveIs(s, x);
    var s' := InodeOpen(s, x, memory).1;
    match OpenAt(s.open, x) {
      case Some(i) =>
        var m := s.open[i].(openCnt := s.open[i].openCnt + 1);
        Recounted(s.open, i, m);
        OpenKeepsList(s.inodes, s.slots, s.open, i, m);
        OpenAtIs(s.open, x);
        SameLive(s, s');
      case None =>
        if memory {
          var m := InMemory(x, 1, false, s.inodes[x]);
          OpenWith(s.open, m);
          PushKeepsList(s.inodes, s.slots, s.open, m);
          assert Live(s') == Live(s);
          SameLive(s, s');
        }
    }
  }
}
