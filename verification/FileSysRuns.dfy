/** Whole calls and whole runs of the file system. */
module FileSysRuns {

  import opened Wrappers
  import opened Ordering
  import opened Bitmaps
  import opened InodeIo
  import opened Directory
  import opened FileSys

  lemma RemoveKeepsList(inodes: map<nat, OnDisk>, slots: seq<Slot>, open: seq<InMemory>, i: nat)
    requires OpenInv(inodes, slots, open) && i < |open|
    ensures OpenInv(inodes, slots, open[..i] + open[i + 1..])
  {
    var open' := open[..i] + open[i + 1..];
    forall j | 0 <= j < |open'|
      ensures Mirrors(inodes, slots, open'[j])
    {
      assert open'[j] == open[if j < i then j else j + 1];
    }
    forall j, k | 0 <= j < k < |open'|
      ensures open'[j].sector != open'[k].sector
    {
      assert open'[j] == open[if j < i then j else j + 1] && open'[k] == open[if k < i then k else k + 1];
    }
  }

  lemma LooseBack(loose: set<nat>, x: nat, r: set<nat>)
    requires x !in loose && x !in r && r !! loose
    ensures r <= loose + ({x} + r) - {x}
    ensures loose + ({x} + r) - {x} - r == loose && loose - {x} - r == loose
  {
  }

  lemma StoredApart(marked: seq<bool>, inodes: map<nat, OnDisk>, loose: set<nat>, x: nat)
    requires Stored(marked, inodes, loose, x)
    ensures x < |marked| && x !in loose && Range(inodes[x].start, DataSectors(inodes[x])) !! loose
    ensures x !in Range(inodes[x].start, DataSectors(inodes[x]))
  {
    assert x in Sectors(x, inodes[x]) && Kept(marked, loose, x);
    forall y | y in Range(inodes[x].start, DataSectors(inodes[x]))
      ensures y !in loose
    {
      assert y in Sectors(x, inodes[x]) && Kept(marked, loose, y);
    }
  }

  /** The sectors of a removed file are all marked, and giving them back leaves the other files theirs. */
  lemma DiscardKeeps(marked: seq<bool>, inodes: map<nat, OnDisk>, loose: set<nat>, live: set<nat>, x: nat)
    requires SectorsInv(marked, inodes, loose, live) && x in live
    ensures x in inodes
    ensures var d := inodes[x];
      var marked1 := Filled(marked, x, 1, false);
      && Fits(marked, x, 1, true) && Fits(marked1, d.start, DataSectors(d), true)
      && SectorsInv(Filled(marked1, d.start, DataSectors(d), false), inodes, loose, live - {x})
      && loose - Range(x, 1) - Range(d.start, DataSectors(d)) == loose
  {
    assert Stored(marked, inodes, loose, x);
    StoredApart(marked, inodes, loose, x);
    var d := inodes[x];
    var r := Range(d.start, DataSectors(d));
    assert Range(x, 1) == {x};
    LooseBack(loose, x, r);
    DisownKeeps(marked, inodes, loose, live, x);
    ReleaseKeeps(marked, inodes, loose + ({x} + r), live - {x}, x, 1);
    ReleaseKeeps(Filled(marked, x, 1, false), inodes, loose + ({x} + r) - {x}, live - {x}, d.start, DataSectors(d));
  }

  /** The last close of a file without a name. */
  lemma CloseLast(s: Fs, i: nat)
    requires Inv(s) && i < |s.open| && s.open[i].openCnt == 1 && s.open[i].removed
    ensures CanClose(s, i) && Inv(InodeClose(s, i)) && InodeClose(s, i).loose == s.loose
    ensures Live(InodeClose(s, i)) == Live(s) - {s.open[i].sector}
  {
    LiveDrop(s, i);
    RemoveKeepsList(s.inodes, s.slots, s.open, i);
    DiscardKeeps(s.marked, s.inodes, s.loose, Live(s), s.open[i].sector);
    assert Live(InodeClose(s, i)) == Live(s.(open := s.open[..i] + s.open[i + 1..]));
  }

  lemma LiveDrop(s: Fs, i: nat)
    requires OpenInv(s.inodes, s.slots, s.open) && i < |s.open|
    ensures Mirrors(s.inodes, s.slots, s.open[i]) && s.open[i].sector in Live(s)
    ensures var x := s.open[i].sector;
      Live(s.(open := s.open[..i] + s.open[i + 1..]))
      == if System(x) || Named(s.slots, x) then Live(s) else Live(s) - {x}
  {
    var m := s.open[i];
    assert Mirrors(s.inodes, s.slots, m) && m in s.open;
    OpenWithout(s.open, i);
  }

  /** A file that has neither a name nor an opener is gone; its sectors, if still marked, are loose. */
  lemma SettledKeeps(s: Fs, s1: Fs, x: nat)
    requires Inv(s) && x in Live(s) && (Live(s1) == Live(s) || Live(s1) == Live(s) - {x})
    requires s1 == s.(slots := s1.slots, open := s1.open)
    requires NamesInv(s1.slots) && OpenInv(s1.inodes, s1.slots, s1.open)
    ensures Inv(Settled(s1, x)) && Live(Settled(s1, x)) == Live(s1)
    ensures Settled(s1, x).loose >= s.loose && (x in Live(s1) ==> Settled(s1, x) == s1)
  {
    if x !in Live(s1) { DisownKeeps(s.marked, s.inodes, s.loose, Live(s), x); }
  }

  lemma CloseKeeps(s: Fs, i: nat)
    requires Inv(s) && i < |s.open|
    ensures CanClose(s, i) && Inv(InodeClose(s, i))
    ensures Live(InodeClose(s, i)) >= Live(s) - {s.open[i].sector}
    ensures InodeClose(s, i).inodes == s.inodes && InodeClose(s, i).slots == s.slots
    ensures !Orphan(s.slots, s.open[i]) ==> InodeClose(s, i).loose == s.loose
  {
    var m := s.open[i];
    assert Mirrors(s.inodes, s.slots, m) && m in s.open;
    if m.openCnt > 1 {
      var m' := m.(openCnt := m.openCnt - 1);
      Recounted(s.open, i, m');
      OpenKeepsList(s.inodes, s.slots, s.open, i, m');
      SameLive(s, InodeClose(s, i));
    } else if m.removed {
      CloseLast(s, i);
    } else {
      LiveDrop(s, i);
      RemoveKeepsList(s.inodes, s.slots, s.open, i);
      SettledKeeps(s, s.(open := s.open[..i] + s.open[i + 1..]), m.sector);
    }
  }

  /** An open file that was not removed but lost its name. */
  ghost predicate Orphan(slots: seq<Slot>, m: InMemory) {
    !m.removed && !System(m.sector) && !Named(slots, m.sector)
  }

  ghost predicate NoOrphans(slots: seq<Slot>, open: seq<InMemory>) {
    forall i :: 0 <= i < |open| ==> !Orphan(slots, open[i])
  }

  // ----- creating a file

  /** free_map_allocate takes sectors that were not marked, or changes nothing. */
  lemma AllocateTakes(s: Fs, cnt: nat, written: bool)
    requires Inv(s)
    ensures var (at, s') := Allocate(s, cnt, written);
      && (at.None? ==> s' == s)
      && (at.Some? ==>
        && Fits(s.marked, at.value, cnt, false) && at.value + cnt <= |s.marked|
        && s' == s.(marked := Filled(s.marked, at.value, cnt, true), loose := s.loose + Range(at.value, cnt))
        && Inv(s') && Live(s') == Live(s) && Range(at.value, cnt) !! s.loose)
  {
    FirstFitFinds(s.marked, 0, cnt, false);
    var r := FirstFit(s.marked, 0, cnt, false);
    if r.Some? {
      FlipBack(s.marked, r.value, cnt, false);
      AllocateKeeps(s.marked, s.inodes, s.loose, Live(s), r.value, cnt);
      forall y | y in Range(r.value, cnt)
        ensures y !in s.loose
      {
        assert !s.marked[y];
      }
    }
  }

  lemma AllocateShape(s: Fs, cnt: nat, written: bool, at: nat)
    requires Allocate(s, cnt, written).0 == Some(at)
    ensures Fits(s.marked, at, cnt, false)
    ensures Allocate(s, cnt, written).1
         == s.(marked := Filled(s.marked, at, cnt, true), loose := s.loose + Range(at, cnt))
  {
    FirstFitFinds(s.marked, 0, cnt, false);
  }

  /** free_map_allocate succeeds exactly when there are that many free sectors in a row and the free map can be
      written. */
  lemma AllocateFinds(s: Fs, cnt: nat, written: bool)
    ensures Allocate(s, cnt, written).0.Some? <==> written && exists at: nat :: Fits(s.marked, at, cnt, false)
  {
    FirstFitFinds(s.marked, 0, cnt, false);
  }

  /** Sectors that are not marked are neither loose nor, once the inode's sector is taken, that sector. */
  lemma UnmarkedApart(marked: seq<bool>, loose: set<nat>, x: nat, at: nat, n: nat)
    requires forall y :: y in loose ==> y < |marked| && marked[y]
    requires Fits(marked, x, 1, false) && Fits(Filled(marked, x, 1, true), at, n, false)
    ensures x !in loose && x !in Range(at, n) && Range(at, n) !! loose && Fits(marked, at, n, false)
  {
    assert !marked[x] && Filled(marked, x, 1, true)[x];
    forall k | at <= k < at + n
      ensures !marked[k]
    {
      assert !Filled(marked, x, 1, true)[k];
    }
  }

  lemma LooseNotLive(s: Fs, x: nat)
    requires Inv(s) && x in s.loose
    ensures x !in Live(s)
  {
    if x in Live(s) {
      StoredApart(s.marked, s.inodes, s.loose, x);
      assert false;
    }
  }

  /** Giving back loose sectors. */
  lemma ReleaseLoose(s: Fs, at: nat, cnt: nat)
    requires Inv(s) && Range(at, cnt) <= s.loose && at + cnt <= |s.marked|
    ensures Fits(s.marked, at, cnt, true) && Inv(Release(s, at, cnt)) && Live(Release(s, at, cnt)) == Live(s)
  {
    ReleaseKeeps(s.marked, s.inodes, s.loose, Live(s), at, cnt);
  }

  /** Writing an inode to a sector that is no file's. */
  lemma StaleWrite(s: Fs, x: nat, d: OnDisk)
    requires Inv(s) && x !in Live(s)
    ensures Inv(s.(inodes := s.inodes[x := d])) && Live(s.(inodes := s.inodes[x := d])) == Live(s)
  {
    StaleSectors(s.marked, s.inodes, s.loose, Live(s), x, d);
    StaleOpen(s, x, d);
  }

  lemma StaleSectors(marked: seq<bool>, inodes: map<nat, OnDisk>, loose: set<nat>, live: set<nat>, x: nat, d: OnDisk)
    requires SectorsInv(marked, inodes, loose, live) && x !in live
    ensures SectorsInv(marked, inodes[x := d], loose, live)
  {
    var inodes' := inodes[x := d];
    forall v | v in live
      ensures Stored(marked, inodes', loose, v)
    {
      assert Stored(marked, inodes, loose, v);
    }
    forall v, w | v in live && w in live && v != w
      ensures Disjoint(inodes', v, w)
    {
      assert Disjoint(inodes, v, w);
    }
    forall y: nat | y < |marked| && marked[y]
      ensures Accounted(inodes', loose, live, y)
    {
      assert Accounted(inodes, loose, live, y);
      if v :| Owner(inodes, live, v, y) { assert Owner(inodes', live, v, y); }
    }
  }

  lemma StaleOpen(s: Fs, x: nat, d: OnDisk)
    requires OpenInv(s.inodes, s.slots, s.open) && x !in Live(s)
    ensures OpenInv(s.inodes[x := d], s.slots, s.open)
  {
    forall i | 0 <= i < |s.open|
      ensures Mirrors(s.inodes[x := d], s.slots, s.open[i])
    {
      assert s.open[i] in s.open && Mirrors(s.inodes, s.slots, s.open[i]);
    }
  }

  // ----- giving a slot of the root directory to a file

  /** dir_add writes slot i: whatever file the slot led to before loses that name, and inode x has one. */
  ghost function Occupied(s: Fs, i: nat, name: Name, x: nat): Fs
    requires i < |s.slots| && x in s.inodes
  {
    var s1 := Vacated(s, i);
    s1.(slots := s1.slots[i := Used(name, x)], loose := s1.loose - Sectors(x, s.inodes[x]))
  }

  ghost function Vacated(s: Fs, i: nat): Fs
    requires i < |s.slots|
  {
    if s.slots[i].Free? then s else Settled(s.(slots := s.slots[i := Free]), s.slots[i].sector)
  }

  lemma SlotFreed(slots: seq<Slot>, i: nat)
    requires NamesInv(slots) && i < |slots| && slots[i].Used?
    ensures NamesInv(slots[i := Free]) && NamedSectors(slots[i := Free]) == NamedSectors(slots) - {slots[i].sector}
  {
    var slots' := slots[i := Free];
    forall x
      ensures Named(slots', x) <==> Named(slots, x) && x != slots[i].sector
    {
      if j :| 0 <= j < |slots| && slots[j].Used? && slots[j].sector == x && x != slots[i].sector {
        assert slots'[j].Used? && slots'[j].sector == x;
      }
      if j :| 0 <= j < |slots'| && slots'[j].Used? && slots'[j].sector == x {
        assert slots[j].Used? && slots[j].sector == x && j != i;
      }
    }
  }

  lemma SlotTaken(slots: seq<Slot>, i: nat, name: Name, x: nat)
    requires NamesInv(slots) && i < |slots| && slots[i].Free? && !Named(slots, x) && !System(x)
    ensures NamesInv(slots[i := Used(name, x)])
    ensures NamedSectors(slots[i := Used(name, x)]) == NamedSectors(slots) + {x}
  {
    var slots' := slots[i := Used(name, x)];
    assert slots'[i].Used? && slots'[i].sector == x;
    forall y
      ensures Named(slots', y) <==> Named(slots, y) || y == x
    {
      if j :| 0 <= j < |slots| && slots[j].Used? && slots[j].sector == y { assert slots'[j].Used?; }
      if j :| 0 <= j < |slots'| && slots'[j].Used? && slots'[j].sector == y && j != i { assert slots[j].Used?; }
    }
  }

  lemma FewerNames(inodes: map<nat, OnDisk>, slots: seq<Slot>, slots': seq<Slot>, open: seq<InMemory>)
    requires OpenInv(inodes, slots, open)
    requires forall i :: 0 <= i < |open| && Named(slots', open[i].sector) ==> Named(slots, open[i].sector)
    ensures OpenInv(inodes, slots', open)
  {
    forall i | 0 <= i < |open|
      ensures Mirrors(inodes, slots', open[i])
    {
      assert Mirrors(inodes, slots, open[i]);
    }
  }

  lemma VacatedKeeps(s: Fs, i: nat)
    requires Inv(s) && i < |s.slots|
    ensures Inv(Vacated(s, i)) && Live(Vacated(s, i)) <= Live(s)
    ensures Vacated(s, i).slots == s.slots[i := Free] && Vacated(s, i).loose >= s.loose
    ensures Vacated(s, i) == s.(slots := s.slots[i := Free], loose := Vacated(s, i).loose)
    ensures s.slots[i].Free? ==> Vacated(s, i) == s
  {
    if s.slots[i].Used? {
      var x, s1 := s.slots[i].sector, s.(slots := s.slots[i := Free]);
      SlotFreed(s.slots, i);
      FewerNames(s.inodes, s.slots, s1.slots, s.open);
      assert Named(s.slots, x);
      SettledKeeps(s, s1, x);
    } else {
      assert s.slots[i := Free] == s.slots;
    }
  }

  lemma OccupiedKeeps(s: Fs, i: nat, name: Name, x: nat)
    requires Inv(s) && i < |s.slots| && x !in Live(s) && x in s.inodes
    requires var d := s.inodes[x];
      Sectors(x, d) <= s.loose && x !in Range(d.start, DataSectors(d)) && d.start + DataSectors(d) <= |s.marked|
    ensures Inv(Occupied(s, i, name, x)) && Occupied(s, i, name, x).slots == s.slots[i := Used(name, x)]
  {
    VacatedKeeps(s, i);
    TakenKeeps(Vacated(s, i), i, name, x);
  }

  lemma TakenKeeps(s: Fs, i: nat, name: Name, x: nat)
    requires Inv(s) && i < |s.slots| && s.slots[i].Free? && x !in Live(s) && x in s.inodes
    requires var d := s.inodes[x];
      Sectors(x, d) <= s.loose && x !in Range(d.start, DataSectors(d)) && d.start + DataSectors(d) <= |s.marked|
    ensures Inv(s.(slots := s.slots[i := Used(name, x)], loose := s.loose - Sectors(x, s.inodes[x])))
  {
    var s' := s.(slots := s.slots[i := Used(name, x)], loose := s.loose - Sectors(x, s.inodes[x]));
    TakenTables(s, i, name, x, s'.loose);
    TakenSectors(s.marked, s.inodes, s.loose, Live(s), x);
  }

  lemma TakenSectors(marked: seq<bool>, inodes: map<nat, OnDisk>, loose: set<nat>, live: set<nat>, x: nat)
    requires SectorsInv(marked, inodes, loose, live) && x !in live && x in inodes
    requires var d := inodes[x];
      Sectors(x, d) <= loose && x !in Range(d.start, DataSectors(d)) && d.start + DataSectors(d) <= |marked|
    ensures SectorsInv(marked, inodes, loose - Sectors(x, inodes[x]), live + {x})
  {
    AdoptKeeps(marked, inodes, loose, live, x, inodes[x]);
    assert inodes[x := inodes[x]] == inodes;
  }

  lemma TakenTables(s: Fs, i: nat, name: Name, x: nat, loose: set<nat>)
    requires NamesInv(s.slots) && OpenInv(s.inodes, s.slots, s.open)
    requires i < |s.slots| && s.slots[i].Free? && x !in Live(s)
    ensures var slots' := s.slots[i := Used(name, x)];
      && NamesInv(slots') && OpenInv(s.inodes, slots', s.open)
      && Live(s.(slots := slots', loose := loose)) == Live(s) + {x}
  {
    LiveIs(s, x);
    SlotTaken(s.slots, i, name, x);
    forall j | 0 <= j < |s.open|
      ensures s.open[j].sector != x
    {
      assert s.open[j] in s.open;
    }
    FewerNames(s.inodes, s.slots, s.slots[i := Used(name, x)], s.open);
  }

  /** What may go wrong, or not, on the way to a new file: opening the root directory, writing the free map, memory for
      an inode, and the reads and the write of dir_add. */
  datatype Luck = Luck(root: bool, inodeMapped: bool, memory: bool, dataMapped: bool, f: Faults)

  /** filesys_create.  A failure to add the name gives back the inode's sector only. */
  ghost function Create(s: Fs, name: Name, length: nat, luck: Luck): (r: (bool, Fs))
    requires Inv(s)
    ensures Inv(r.1) && r.1.open == s.open
  {
    AllocateTakes(s, 1, luck.inodeMapped);
    var (x, s1) := Allocate(s, 1, luck.inodeMapped);
    if !luck.root || x.None? then (false, s)
    else
      var x := x.value;
      assert Range(x, 1) == {x};
      ReleaseLoose(s1, x, 1);
      if !luck.memory then (false, Release(s1, x, 1))
      else
        AllocateTakes(s1, BytesToSectors(length), luck.dataMapped);
        var (at, s2) := Allocate(s1, BytesToSectors(length), luck.dataMapped);
        if at.None? then (false, Release(s1, x, 1))
        else
          LooseNotLive(s2, x);
          StaleWrite(s2, x, OnDisk(at.value, length));
          var s3 := s2.(inodes := s2.inodes[x := OnDisk(at.value, length)]);
          var i := AddAt(s.slots, name, luck.f);
          if i.None? then
            ReleaseLoose(s3, x, 1);
            (false, Release(s3, x, 1))
          else
            OccupiedKeeps(s3, i.value, name, x);
            (true, Occupied(s3, i.value, name, x))
  }

  /** filesys_create has sectors for the file. */
  ghost predicate HasRoom(s: Fs, length: nat, luck: Luck) {
    && luck.root && luck.memory && Allocate(s, 1, luck.inodeMapped).0.Some?
    && Allocate(Allocate(s, 1, luck.inodeMapped).1, BytesToSectors(length), luck.dataMapped).0.Some?
  }

  /** filesys_create makes a file and then cannot name it. */
  ghost predicate Unnamed(s: Fs, name: Name, length: nat, luck: Luck) {
    HasRoom(s, length, luck) && AddAt(s.slots, name, luck.f).None?
  }

  lemma FillCancels(marked: seq<bool>, x: nat, at: nat, n: nat)
    requires Fits(marked, x, 1, false) && !(at <= x < at + n)
    ensures Filled(Filled(Filled(marked, x, 1, true), at, n, true), x, 1, false) == Filled(marked, at, n, true)
  {
  }

  lemma LooseCancels(loose: set<nat>, x: nat, r: set<nat>)
    requires x !in loose && x !in r
    ensures (loose + {x}) + r - {x} == loose + r
  {
  }

  lemma UnnamedLeaves(s: Fs, name: Name, length: nat, luck: Luck) returns (at: nat)
    requires Inv(s) && Unnamed(s, name, length, luck)
    ensures var n := BytesToSectors(length);
      var (ok, s') := Create(s, name, length, luck);
      && !ok && Fits(s.marked, at, n, false)
      && s'.loose == s.loose + Range(at, n) && Range(at, n) !! s.loose
      && s'.marked == Filled(s.marked, at, n, true)
  {
    var n := BytesToSectors(length);
    var s1 := Allocate(s, 1, luck.inodeMapped).1;
    var x := Allocate(s, 1, luck.inodeMapped).0.value;
    at := Allocate(s1, n, luck.dataMapped).0.value;
    AllocateShape(s, 1, luck.inodeMapped, x);
    AllocateShape(s1, n, luck.dataMapped, at);
    UnmarkedApart(s.marked, s.loose, x, at, n);
    UnnamedResult(s, name, length, luck, x, at);
    assert Range(x, 1) == {x};
    FillCancels(s.marked, x, at, n);
    LooseCancels(s.loose, x, Range(at, n));
  }

  lemma UnnamedResult(s: Fs, name: Name, length: nat, luck: Luck, x: nat, at: nat)
    requires Inv(s) && Unnamed(s, name, length, luck)
    requires Allocate(s, 1, luck.inodeMapped).0 == Some(x)
    requires Allocate(Allocate(s, 1, luck.inodeMapped).1, BytesToSectors(length), luck.dataMapped).0 == Some(at)
    ensures var n := BytesToSectors(length);
      var (ok, s') := Create(s, name, length, luck);
      && !ok && s'.loose == (s.loose + Range(x, 1)) + Range(at, n) - Range(x, 1)
      && s'.marked == Filled(Filled(Filled(s.marked, x, 1, true), at, n, true), x, 1, false)
  {
    AllocateShape(s, 1, luck.inodeMapped, x);
    AllocateShape(Allocate(s, 1, luck.inodeMapped).1, BytesToSectors(length), luck.dataMapped, at);
  }

  /** A call that fails to name the file it made leaves the file's data sectors marked and no file's: so nothing
      leaks just when the file was to be empty. */
  lemma UnnamedLeaks(s: Fs, name: Name, length: nat, luck: Luck)
    requires Inv(s) && Unnamed(s, name, length, luck)
    ensures var (ok, s') := Create(s, name, length, luck);
      && !ok && s'.slots == s.slots
      && (s'.marked == s.marked <==> length == 0) && (s'.loose == s.loose <==> length == 0)
  {
    var at := UnnamedLeaves(s, name, length, luck);
    var n := BytesToSectors(length);
    if n > 0 {
      assert at in Range(at, n);
      assert !s.marked[at] && Filled(s.marked, at, n, true)[at];
    } else {
      assert Filled(s.marked, at, n, true) == s.marked;
    }
  }

  /** A call that gets to no more than giving back what it took changes nothing. */
  lemma FailsClean(s: Fs, name: Name, length: nat, luck: Luck)
    requires Inv(s) && !Create(s, name, length, luck).0 && !Unnamed(s, name, length, luck)
    ensures Create(s, name, length, luck).1 == s
  {
    AllocateTakes(s, 1, luck.inodeMapped);
    var (x, s1) := Allocate(s, 1, luck.inodeMapped);
    if luck.root && x.Some? {
      assert Range(x.value, 1) == {x.value};
      FlipBack(s.marked, x.value, 1, false);
      assert Release(s1, x.value, 1).loose == s.loose;
    }
  }

  /** A call that succeeds takes sectors that were free, writes one slot, and changes no other inode. */
  lemma Succeeds(s: Fs, name: Name, length: nat, luck: Luck) returns (i: nat, x: nat, s3: Fs)
    requires Inv(s) && Create(s, name, length, luck).0
    ensures AddAt(s.slots, name, luck.f) == Some(i) && i < |s.slots| && Inv(s3) && x !in Live(s) && x in s3.inodes
    ensures s3 == s.(marked := s3.marked, inodes := s.inodes[x := s3.inodes[x]], loose := s3.loose)
    ensures Sectors(x, s3.inodes[x]) <= s3.loose && s3.loose - Sectors(x, s3.inodes[x]) == s.loose
    ensures s3.inodes[x].length == length
    ensures Create(s, name, length, luck).1 == Occupied(s3, i, name, x)
  {
    i := AddAt(s.slots, name, luck.f).value;
    AllocateTakes(s, 1, luck.inodeMapped);
    var s1 := Allocate(s, 1, luck.inodeMapped).1;
    x := Allocate(s, 1, luck.inodeMapped).0.value;
    assert Range(x, 1) == {x};
    AllocateTakes(s1, BytesToSectors(length), luck.dataMapped);
    var (at, s2) := Allocate(s1, BytesToSectors(length), luck.dataMapped);
    LooseNotLive(s1, x);
    LooseNotLive(s2, x);
    StaleWrite(s2, x, OnDisk(at.value, length));
    s3 := s2.(inodes := s2.inodes[x := OnDisk(at.value, length)]);
  }

  ghost predicate FirstFree(marked: seq<bool>, x: nat) {
    x < |marked| && !marked[x] && forall y :: 0 <= y < x ==> marked[y]
  }

  /** There are n free sectors in a row without the first free sector, which is for the inode. */
  ghost predicate Room(marked: seq<bool>, n: nat) {
    exists x: nat, at: nat :: FirstFree(marked, x) && Fits(marked, at, n, false) && !(at <= x < at + n)
  }

  lemma HasRoomIs(s: Fs, length: nat, luck: Luck)
    ensures HasRoom(s, length, luck) <==>
      && luck.root && luck.memory && luck.inodeMapped && luck.dataMapped
      && Room(s.marked, BytesToSectors(length))
  {
    var n := BytesToSectors(length);
    FirstFitFinds(s.marked, 0, 1, false);
    AllocateFinds(s, 1, luck.inodeMapped);
    var (r, s1) := Allocate(s, 1, luck.inodeMapped);
    AllocateFinds(s1, n, luck.dataMapped);
    if r.Some? {
      var x := r.value;
      AllocateShape(s, 1, luck.inodeMapped, x);
      FirstIsFree(s.marked, x);
      FitsBeside(s.marked, x, n);
    } else if luck.inodeMapped && Room(s.marked, n) {
      var x: nat :| FirstFree(s.marked, x);
      assert Fits(s.marked, x, 1, false);
    }
  }

  lemma FirstIsFree(marked: seq<bool>, x: nat)
    requires FirstFit(marked, 0, 1, false) == Some(x)
    ensures FirstFree(marked, x) && forall x' :: FirstFree(marked, x') ==> x' == x
  {
    FirstFitFinds(marked, 0, 1, false);
    forall y: nat | y < x
      ensures marked[y]
    {
      assert !Fits(marked, y, 1, false);
    }
  }

  lemma FitsBeside(marked: seq<bool>, x: nat, n: nat)
    requires FirstFree(marked, x) && forall x' :: FirstFree(marked, x') ==> x' == x
    ensures Room(marked, n) <==> exists at: nat :: Fits(Filled(marked, x, 1, true), at, n, false)
  {
    var marked' := Filled(marked, x, 1, true);
    forall at: nat
      ensures Fits(marked', at, n, false) <==> Fits(marked, at, n, false) && !(at <= x < at + n)
    {
      assert marked'[x];
      if Fits(marked', at, n, false) {
        assert forall k :: at <= k < at + n ==> marked'[k] == marked[k];
      }
    }
  }

  /** filesys_create succeeds exactly when there is room for the file and its name can be added: with memory to spare,
      when the name is valid and new and the directory is not full. */
  lemma CreateSucceeds(s: Fs, name: Name, length: nat, luck: Luck)
    requires Inv(s)
    ensures var ok, m := Create(s, name, length, luck).0, AsMap(s.slots);
      && (ok <==> HasRoom(s, length, luck) && AddAt(s.slots, name, luck.f).Some?)
      && (SlotsInv(s.slots) && luck.f.lookup >= |s.slots| && luck.f.scan >= |s.slots| && luck.f.write ==>
            (ok <==> HasRoom(s, length, luck) && ValidName(name) && name !in m && |m| < |s.slots|))
  {
    AllocateTakes(s, 1, luck.inodeMapped);
    if SlotsInv(s.slots) && luck.f.lookup >= |s.slots| && luck.f.scan >= |s.slots| && luck.f.write {
      AddFaultless(s.slots, name, 0, luck.f);
    }
  }

  /** The file that filesys_create's entry overwrites because a read failed, if any. */
  ghost function Overwritten(s: Fs, name: Name, luck: Luck): Option<nat> {
    var i := AddAt(s.slots, name, luck.f);
    if i.Some? && s.slots[i.value].Used? then Some(s.slots[i.value].sector) else None
  }

  lemma VacatedLoose(s: Fs, i: nat)
    requires Inv(s) && i < |s.slots| && s.slots[i].Used?
    ensures var x := s.slots[i].sector;
      && x in s.inodes && Sectors(x, s.inodes[x]) !! s.loose && x in Live(s)
      && (x in Live(Vacated(s, i)) <==> OpenAt(s.open, x).Some?) && !Named(Vacated(s, i).slots, x)
      && Vacated(s, i).loose == if OpenAt(s.open, x).Some? then s.loose else s.loose + Sectors(x, s.inodes[x])
  {
    var x, s1 := s.slots[i].sector, s.(slots := s.slots[i := Free]);
    SlotFreed(s.slots, i);
    assert Named(s.slots, x);
    LiveIs(s1, x);
    VacatedKeeps(s, i);
    assert x in Live(s);
    StoredApart(s.marked, s.inodes, s.loose, x);
  }

  /** Exactly when filesys_create loses sectors for good: it made a file with data that it could not name, or its entry
      overwrote that of a file nobody has open. */
  lemma CreateLoses(s: Fs, name: Name, length: nat, luck: Luck)
    requires Inv(s)
    ensures var (ok, s') := Create(s, name, length, luck); var y := Overwritten(s, name, luck);
      s'.loose == s.loose <==> !(Unnamed(s, name, length, luck) && length > 0)
                               && !(ok && y.Some? && OpenAt(s.open, y.value).None?)
  {
    var (ok, s') := Create(s, name, length, luck);
    if ok {
      var i, x, s3 := Succeeds(s, name, length, luck);
      OccupiedLoose(s, s3, i, name, x);
    } else if Unnamed(s, name, length, luck) {
      UnnamedLeaks(s, name, length, luck);
    } else {
      FailsClean(s, name, length, luck);
    }
  }

  lemma OccupiedLoose(s: Fs, s3: Fs, i: nat, name: Name, x: nat)
    requires Inv(s3) && i < |s.slots| && x in s3.inodes && s3.slots == s.slots && s3.open == s.open
    requires Sectors(x, s3.inodes[x]) <= s3.loose && s3.loose - Sectors(x, s3.inodes[x]) == s.loose
    ensures var lost := s.slots[i].Used? && OpenAt(s.open, s.slots[i].sector).None?;
      Occupied(s3, i, name, x).loose == s.loose <==> !lost
  {
    if s.slots[i].Used? {
      var y := s.slots[i].sector;
      VacatedLoose(s3, i);
      LooseMore(s3.loose, Sectors(x, s3.inodes[x]), Sectors(y, s3.inodes[y]), y);
    }
  }

  lemma LooseMore(loose: set<nat>, sx: set<nat>, sy: set<nat>, y: nat)
    requires sx <= loose && sy !! loose && y in sy
    ensures (loose + sy) - sx != loose - sx
  {
    assert y in (loose + sy) - sx && y !in loose - sx;
  }

  /** The sector of a new inode is never 0, which filesys_create takes for none. */
  lemma AllocatedNotZero(s: Fs, cnt: nat, written: bool)
    requires Inv(s) && cnt > 0 && Allocate(s, cnt, written).0.Some?
    ensures Allocate(s, cnt, written).0.value > 1
  {
    AllocateTakes(s, cnt, written);
    var at := Allocate(s, cnt, written).0.value;
    assert FREE_MAP_SECTOR in Live(s) && ROOT_DIR_SECTOR in Live(s);
    StoredApart(s.marked, s.inodes, s.loose, FREE_MAP_SECTOR);
    StoredApart(s.marked, s.inodes, s.loose, ROOT_DIR_SECTOR);
    assert FREE_MAP_SECTOR in Sectors(FREE_MAP_SECTOR, s.inodes[FREE_MAP_SECTOR]);
    assert ROOT_DIR_SECTOR in Sectors(ROOT_DIR_SECTOR, s.inodes[ROOT_DIR_SECTOR]);
    assert s.marked[0] && s.marked[1] && !s.marked[at];
  }

  // ----- opening, closing and removing

  /** The last reference that a call holds is given up. */
  ghost function CloseSector(s: Fs, x: nat): (s': Fs)
    requires Inv(s) && x in OpenSectors(s.open)
    ensures Inv(s') && s'.inodes == s.inodes && s'.slots == s.slots
    ensures NoOrphans(s.slots, s.open) ==> s'.loose == s.loose
  {
    OpenAtIs(s.open, x);
    CloseKeeps(s, OpenAt(s.open, x).value);
    InodeClose(s, OpenAt(s.open, x).value)
  }

  lemma OpenNoOrphan(s: Fs, x: nat, memory: bool)
    requires NoOrphans(s.slots, s.open) && x in s.inodes
    requires System(x) || Named(s.slots, x) || OpenAt(s.open, x).Some?
    ensures InodeOpen(s, x, memory).1.slots == s.slots && NoOrphans(s.slots, InodeOpen(s, x, memory).1.open)
  {
    if OpenAt(s.open, x).None? && memory {
      var open' := [InMemory(x, 1, false, s.inodes[x])] + s.open;
      assert forall i :: 0 < i < |open'| ==> open'[i] == s.open[i - 1];
    }
  }

  lemma CutNoOrphan(slots: seq<Slot>, open: seq<InMemory>, i: nat)
    requires NoOrphans(slots, open) && i < |open|
    ensures NoOrphans(slots, open[..i] + open[i + 1..])
  {
    var open' := open[..i] + open[i + 1..];
    assert forall j :: 0 <= j < |open'| ==> open'[j] == open[if j < i then j else j + 1];
  }

  lemma CloseShape(s: Fs, i: nat)
    requires CanClose(s, i)
    ensures InodeClose(s, i).slots == s.slots
    ensures InodeClose(s, i).open == if s.open[i].openCnt > 1
                                     then s.open[i := s.open[i].(openCnt := s.open[i].openCnt - 1)]
                                     else s.open[..i] + s.open[i + 1..]
  {
  }

  lemma CloseNoOrphan(s: Fs, x: nat)
    requires Inv(s) && NoOrphans(s.slots, s.open) && x in OpenSectors(s.open)
    ensures NoOrphans(s.slots, CloseSector(s, x).open)
  {
    OpenAtIs(s.open, x);
    var i := OpenAt(s.open, x).value;
    CloseKeeps(s, i);
    CloseShape(s, i);
    if s.open[i].openCnt == 1 { CutNoOrphan(s.slots, s.open, i); }
  }

  /** filesys_open; root, memory and handle say whether the root directory, the inode and the struct file could be had,
      and reads of the directory fail from the limit on. */
  ghost function Open(s: Fs, name: Name, root: bool, limit: nat, memory: bool, handle: bool): (r: (Option<nat>, Fs))
    requires Inv(s)
    ensures Inv(r.1) && r.1.inodes == s.inodes && r.1.slots == s.slots
    ensures r.0.Some? ==> r.0.value in OpenSectors(r.1.open) && !System(r.0.value)
  {
    var i := Find(s.slots, name, limit);
    if !root || i.None? then (None, s)
    else
      var x := s.slots[i.value].sector;
      assert Named(s.slots, x) && x in Live(s);
      OpenKeeps(s, x, memory);
      var (ok, s') := InodeOpen(s, x, memory);
      if !ok then (None, s')
      else if !handle then (None, CloseSector(s', x))
      else (Some(x), s')
  }

  /** x is what the first slot that holds the name leads to, and a read gets that far. */
  ghost predicate LeadsTo(slots: seq<Slot>, name: Name, limit: nat, x: nat) {
    exists i :: 0 <= i < |slots| && i < limit && Holds(slots[i], name) && slots[i].sector == x
                && forall j :: 0 <= j < i ==> !Holds(slots[j], name)
  }

  /** filesys_open opens the file that the name leads to and no other; with memory to spare, exactly when the root
      directory has the name. */
  lemma OpenFinds(s: Fs, name: Name, root: bool, limit: nat, memory: bool, handle: bool)
    requires Inv(s)
    ensures var x, m := Open(s, name, root, limit, memory, handle).0, AsMap(s.slots);
      && (x.Some? ==> LeadsTo(s.slots, name, limit, x.value))
      && (limit >= |s.slots| && root && memory && handle ==> x == if name in m then Some(m[name]) else None)
      && (x.Some? <==> root && handle
                       && exists y :: LeadsTo(s.slots, name, limit, y) && (memory || OpenAt(s.open, y).Some?))
  {
    var i := Find(s.slots, name, limit);
    if limit >= |s.slots| { AsMapFinds(s.slots, name, limit); }
    if i.Some? { assert LeadsTo(s.slots, name, limit, s.slots[i.value].sector); }
  }

  /** file_reopen */
  ghost function Reopen(s: Fs, x: nat, handle: bool): (s': Fs)
    requires Inv(s) && x in OpenSectors(s.open)
    ensures Inv(s') && s'.inodes == s.inodes && s'.slots == s.slots
  {
    assert x in Live(s);
    OpenKeeps(s, x, true);
    OpenAtIs(s.open, x);
    var s1 := InodeOpen(s, x, true).1;
    if handle then s1 else CloseSector(s1, x)
  }

  /** filesys_remove; write says whether there was a buffer to write the directory entry. */
  ghost function Remove(s: Fs, name: Name, root: bool, limit: nat, memory: bool, write: bool): (r: (bool, Fs))
    requires Inv(s)
    ensures Inv(r.1) && r.1.inodes == s.inodes
    ensures r.0 ==> Find(s.slots, name, limit).Some?
    ensures r.1.slots == if r.0 then s.slots[Find(s.slots, name, limit).value := Free] else s.slots
  {
    var i := Find(s.slots, name, limit);
    if !root || i.None? then (false, s)
    else
      var x := s.slots[i.value].sector;
      assert Named(s.slots, x) && x in Live(s);
      OpenKeeps(s, x, memory);
      var (ok, s1) := InodeOpen(s, x, memory);
      if !ok then (false, s1)
      else if !write then (false, CloseSector(s1, x))
      else
        OpenAtIs(s1.open, x);
        UnnameKeeps(s1, i.value);
        (true, CloseSector(Unname(s1, i.value), x))
  }

  /** The directory entry is erased and the open inode marked for removal. */
  ghost function Unname(s: Fs, i: nat): Fs
    requires i < |s.slots| && s.slots[i].Used? && OpenAt(s.open, s.slots[i].sector).Some?
  {
    var j := OpenAt(s.open, s.slots[i].sector).value;
    s.(slots := s.slots[i := Free], open := s.open[j := s.open[j].(removed := true)])
  }

  lemma UnnameKeeps(s: Fs, i: nat)
    requires Inv(s) && i < |s.slots| && s.slots[i].Used? && OpenAt(s.open, s.slots[i].sector).Some?
    ensures Inv(Unname(s, i)) && s.slots[i].sector in OpenSectors(Unname(s, i).open)
  {
    UnnameLive(s, i);
  }

  lemma UnnameLive(s: Fs, i: nat)
    requires NamesInv(s.slots) && OpenInv(s.inodes, s.slots, s.open)
    requires i < |s.slots| && s.slots[i].Used? && OpenAt(s.open, s.slots[i].sector).Some?
    ensures Live(Unname(s, i)) == Live(s) && s.slots[i].sector in OpenSectors(Unname(s, i).open)
    ensures NamesInv(Unname(s, i).slots)
    ensures OpenInv(s.inodes, Unname(s, i).slots, Unname(s, i).open)
  {
    var x := s.slots[i].sector;
    var j := OpenAt(s.open, x).value;
    var s' := Unname(s, i);
    SlotFreed(s.slots, i);
    Recounted(s.open, j, s'.open[j]);
    assert s.open[j] in s.open && Named(s.slots, x);
    forall k | 0 <= k < |s'.open|
      ensures Mirrors(s.inodes, s'.slots, s'.open[k])
    {
      assert Mirrors(s.inodes, s.slots, s.open[k]);
    }
  }

  lemma UnnameNoOrphan(s: Fs, i: nat)
    requires OpenInv(s.inodes, s.slots, s.open) && NamesInv(s.slots) && NoOrphans(s.slots, s.open)
    requires i < |s.slots| && s.slots[i].Used? && OpenAt(s.open, s.slots[i].sector).Some?
    ensures NoOrphans(Unname(s, i).slots, Unname(s, i).open)
  {
    var x, j := s.slots[i].sector, OpenAt(s.open, s.slots[i].sector).value;
    var s' := Unname(s, i);
    SlotFreed(s.slots, i);
    forall k | 0 <= k < |s'.open|
      ensures !Orphan(s'.slots, s'.open[k])
    {
      assert !Orphan(s.slots, s.open[k]) && (k != j ==> s.open[k].sector != x);
    }
  }

  /** Each call opens the root directory and closes it again; the two cancel out. */
  lemma RootTransient(s: Fs)
    requires Inv(s)
    ensures ROOT_DIR_SECTOR in s.inodes
    ensures var s1 := InodeOpen(s, ROOT_DIR_SECTOR, true).1;
      Inv(s1) && ROOT_DIR_SECTOR in OpenSectors(s1.open) && CloseSector(s1, ROOT_DIR_SECTOR) == s
  {
    var x := ROOT_DIR_SECTOR;
    OpenKeeps(s, x, true);
    var s1 := InodeOpen(s, x, true).1;
    OpenAtIs(s1.open, x);
    var i := OpenAt(s1.open, x).value;
    match OpenAt(s.open, x) {
      case Some(j) =>
        assert i == j;
        assert CloseSector(s1, x).open == s.open;
      case None =>
        assert i == 0;
        assert s1.open[..0] + s1.open[1..] == s.open;
    }
  }

  // ----- a new file system

  /** filesys_init on a disk of n sectors to be formatted; None stands for the panics when the disk is too small. */
  ghost function Format(n: nat): Option<Fs>
    requires n >= 2
  {
    var s := Fs(seq(n, i => i < 2), map[], [], [], {0, 1});
    var mapLength := 4 * ElemCnt(n);
    var (mapAt, s1) := Allocate(s, BytesToSectors(mapLength), true);
    var (dirAt, s2) := Allocate(s1, BytesToSectors(16 * ENTRY_SIZE), true);
    if mapAt.None? || dirAt.None? then None
    else
      var map_, dir := OnDisk(mapAt.value, mapLength), OnDisk(dirAt.value, 16 * ENTRY_SIZE);
      Some(Fs(s2.marked, map[FREE_MAP_SECTOR := map_, ROOT_DIR_SECTOR := dir], seq(16, _ => Free),
              [InMemory(FREE_MAP_SECTOR, 1, false, map_)], {}))
  }

  lemma FormatFits(n: nat)
    requires n >= 2
    ensures Format(n).Some? <==> 2 + BytesToSectors(4 * ElemCnt(n)) + BytesToSectors(16 * ENTRY_SIZE) <= n
  {
    var marked, m := seq(n, i => i < 2), BytesToSectors(4 * ElemCnt(n));
    FitAfter(marked, 2, m);
    if 2 + m <= n {
      FitAfter(Filled(marked, 2, m, true), 2 + m, BytesToSectors(16 * ENTRY_SIZE));
    }
  }

  lemma FitAfter(marked: seq<bool>, k: nat, cnt: nat)
    requires k <= |marked| && cnt > 0 && forall i :: 0 <= i < |marked| ==> marked[i] == (i < k)
    ensures FirstFit(marked, 0, cnt, false) == if k + cnt <= |marked| then Some(k) else None
  {
    FirstFitFinds(marked, 0, cnt, false);
    assert k + cnt <= |marked| ==> Fits(marked, k, cnt, false);
    forall i: nat | Fits(marked, i, cnt, false)
      ensures k <= i
    {
      assert marked[i] == false;
    }
  }

  lemma FormatInv(n: nat)
    requires n >= 2 && Format(n).Some?
    ensures var s := Format(n).value; Inv(s) && NoOrphans(s.slots, s.open) && s.loose == {}
    ensures var slots := Format(n).value.slots; |slots| == 16 && SlotsInv(slots) && AsMap(slots) == map[]
  {
    AllFree(Format(n).value.slots);
    var s := Fs(seq(n, i => i < 2), map[], [], [], {0, 1});
    var m, k := BytesToSectors(4 * ElemCnt(n)), BytesToSectors(16 * ENTRY_SIZE);
    var (mapAt, s1) := Allocate(s, m, true);
    var (dirAt, s2) := Allocate(s1, k, true);
    AllocateShape(s, m, true, mapAt.value);
    AllocateShape(s1, k, true, dirAt.value);
    var f := Format(n).value;
    FormatSectors(s.marked, f.inodes[FREE_MAP_SECTOR], f.inodes[ROOT_DIR_SECTOR]);
    FormatTables(f);
  }

  lemma FormatTables(f: Fs)
    requires (forall i :: 0 <= i < |f.slots| ==> f.slots[i].Free?) && FREE_MAP_SECTOR in f.inodes
    requires f.open == [InMemory(FREE_MAP_SECTOR, 1, false, f.inodes[FREE_MAP_SECTOR])]
    ensures Live(f) == {FREE_MAP_SECTOR, ROOT_DIR_SECTOR}
    ensures NamesInv(f.slots) && OpenInv(f.inodes, f.slots, f.open) && NoOrphans(f.slots, f.open)
  {
  }

  lemma FormatSectors(marked: seq<bool>, m: OnDisk, d: OnDisk)
    requires |marked| >= 2 && forall i :: 0 <= i < |marked| ==> (marked[i] <==> i < 2)
    requires Fits(marked, m.start, DataSectors(m), false)
    requires Fits(Filled(marked, m.start, DataSectors(m), true), d.start, DataSectors(d), false)
    ensures SectorsInv(Filled(Filled(marked, m.start, DataSectors(m), true), d.start, DataSectors(d), true),
                       map[FREE_MAP_SECTOR := m, ROOT_DIR_SECTOR := d], {}, {FREE_MAP_SECTOR, ROOT_DIR_SECTOR})
  {
    var marked1 := Filled(marked, m.start, DataSectors(m), true);
    var marked2 := Filled(marked1, d.start, DataSectors(d), true);
    var rm, rd := Range(m.start, DataSectors(m)), Range(d.start, DataSectors(d));
    FormatApart(marked, m.start, DataSectors(m), d.start, DataSectors(d));
    FormatMarked(marked, m, d);
    FormatMap(marked2, m, rd);
    FormatRoot(marked2, m, d);
  }

  lemma FormatMarked(marked: seq<bool>, m: OnDisk, d: OnDisk)
    requires |marked| >= 2 && forall i :: 0 <= i < |marked| ==> (marked[i] <==> i < 2)
    requires Fits(marked, m.start, DataSectors(m), false)
    requires Fits(Filled(marked, m.start, DataSectors(m), true), d.start, DataSectors(d), false)
    ensures SectorsInv(Filled(Filled(marked, m.start, DataSectors(m), true), d.start, DataSectors(d), true),
                       map[], {0, 1} + Range(m.start, DataSectors(m)) + Range(d.start, DataSectors(d)), {})
  {
    assert SectorsInv(marked, map[], {0, 1}, {});
    AllocateKeeps(marked, map[], {0, 1}, {}, m.start, DataSectors(m));
    AllocateKeeps(Filled(marked, m.start, DataSectors(m), true), map[], {0, 1} + Range(m.start, DataSectors(m)), {},
                  d.start, DataSectors(d));
  }

  lemma FormatMap(marked: seq<bool>, m: OnDisk, rd: set<nat>)
    requires SectorsInv(marked, map[], {0, 1} + Range(m.start, DataSectors(m)) + rd, {})
    requires m.start + DataSectors(m) <= |marked| && Range(m.start, DataSectors(m)) !! rd
    requires 0 !in Range(m.start, DataSectors(m)) && 1 !in Range(m.start, DataSectors(m)) && 0 !in rd && 1 !in rd
    ensures SectorsInv(marked, map[FREE_MAP_SECTOR := m], {1} + rd, {FREE_MAP_SECTOR})
  {
    var rm := Range(m.start, DataSectors(m));
    FormatLoose(rm, rd);
    assert {} + {FREE_MAP_SECTOR} == {FREE_MAP_SECTOR};
    assert Sectors(FREE_MAP_SECTOR, m) == {0} + rm;
    AdoptKeeps(marked, map[], {0, 1} + rm + rd, {}, FREE_MAP_SECTOR, m);
  }

  lemma FormatRoot(marked: seq<bool>, m: OnDisk, d: OnDisk)
    requires SectorsInv(marked, map[FREE_MAP_SECTOR := m], {1} + Range(d.start, DataSectors(d)), {FREE_MAP_SECTOR})
    requires d.start + DataSectors(d) <= |marked| && 1 !in Range(d.start, DataSectors(d))
    ensures SectorsInv(marked, map[FREE_MAP_SECTOR := m, ROOT_DIR_SECTOR := d], {}, {FREE_MAP_SECTOR, ROOT_DIR_SECTOR})
  {
    AdoptKeeps(marked, map[FREE_MAP_SECTOR := m], {1} + Range(d.start, DataSectors(d)), {FREE_MAP_SECTOR},
               ROOT_DIR_SECTOR, d);
    assert {1} + Range(d.start, DataSectors(d)) - Sectors(ROOT_DIR_SECTOR, d) == {};
    assert {FREE_MAP_SECTOR} + {ROOT_DIR_SECTOR} == {FREE_MAP_SECTOR, ROOT_DIR_SECTOR};
    assert map[FREE_MAP_SECTOR := m][ROOT_DIR_SECTOR := d] == map[FREE_MAP_SECTOR := m, ROOT_DIR_SECTOR := d];
  }

  lemma FormatLoose(rm: set<nat>, rd: set<nat>)
    requires rm !! rd && 0 !in rm && 1 !in rm && 0 !in rd && 1 !in rd
    ensures {0, 1} + rm + rd - ({0} + rm) == {1} + rd
  {
  }

  lemma FormatApart(marked: seq<bool>, at: nat, m: nat, at': nat, k: nat)
    requires |marked| >= 2 && marked[0] && marked[1]
    requires Fits(marked, at, m, false) && Fits(Filled(marked, at, m, true), at', k, false)
    ensures Range(at, m) !! Range(at', k) && 0 !in Range(at, m) && 1 !in Range(at, m)
    ensures 0 !in Range(at', k) && 1 !in Range(at', k)
  {
    assert Filled(marked, at, m, true)[0] && Filled(marked, at, m, true)[1];
    forall y | y in Range(at', k)
      ensures y !in Range(at, m)
    {
      assert !Filled(marked, at, m, true)[y];
    }
  }

  // ----- runs

  datatype Action =
    | ACreate(name: Name, length: nat, luck: Luck)
    | AOpen(name: Name, root: bool, limit: nat, memory: bool, handle: bool)
    | AReopen(sector: nat, handle: bool)
    | ARemove(name: Name, root: bool, limit: nat, memory: bool, write: bool)
    | AClose(sector: nat)

  /** Callers reopen and close only files that are open; the system's own two files are not theirs. */
  ghost predicate Allowed(s: Fs, a: Action) {
    a.AReopen? || a.AClose? ==> a.sector in OpenSectors(s.open) && !System(a.sector)
  }

  ghost function Apply(s: Fs, a: Action): (s': Fs)
    requires Inv(s) && Allowed(s, a)
    ensures Inv(s')
  {
    match a
    case ACreate(name, length, luck) => Create(s, name, length, luck).1
    case AOpen(name, root, limit, memory, handle) => Open(s, name, root, limit, memory, handle).1
    case AReopen(x, handle) => Reopen(s, x, handle)
    case ARemove(name, root, limit, memory, write) => Remove(s, name, root, limit, memory, write).1
    case AClose(x) => CloseSector(s, x)
  }

  ghost predicate Runs(s: Fs, actions: seq<Action>)
    requires Inv(s)
    decreases |actions|
  {
    actions == [] || (Allowed(s, actions[0]) && Runs(Apply(s, actions[0]), actions[1..]))
  }

  ghost function After(s: Fs, actions: seq<Action>): (s': Fs)
    requires Inv(s) && Runs(s, actions)
    ensures Inv(s')
    decreases |actions|
  {
    if actions == [] then s else After(Apply(s, actions[0]), actions[1..])
  }

  /** A creation neither gets stuck with data it cannot name, nor has its directory entry go where it does harm. */
  ghost predicate Clean(s: Fs, a: Action) {
    a.ACreate? ==>
      && !(Unnamed(s, a.name, a.length, a.luck) && a.length > 0)
      && (AddAt(s.slots, a.name, a.luck.f).Some? ==> Harmless(s.slots, a.name, a.luck.f))
  }

  ghost predicate Tight(s: Fs, actions: seq<Action>)
    requires Inv(s) && Runs(s, actions)
    decreases |actions|
  {
    actions != [] ==> Clean(s, actions[0]) && Tight(Apply(s, actions[0]), actions[1..])
  }

  /** What clean calls keep: the directory is a map, every open file has a name or was removed. */
  ghost predicate Orderly(s: Fs) {
    Inv(s) && SlotsInv(s.slots) && NoOrphans(s.slots, s.open)
  }

  lemma CreateOrderly(s: Fs, name: Name, length: nat, luck: Luck)
    requires Orderly(s) && Clean(s, ACreate(name, length, luck))
    ensures Orderly(Create(s, name, length, luck).1) && Create(s, name, length, luck).1.loose == s.loose
  {
    var (ok, s') := Create(s, name, length, luck);
    CreateLoses(s, name, length, luck);
    if ok {
      var i, x, s3 := Succeeds(s, name, length, luck);
      AddExact(s.slots, name, x, luck.f);
      OccupiedSlots(s3, i, name, x);
      MoreNames(s.slots, i, Used(name, x), s.open);
    } else if Unnamed(s, name, length, luck) {
      UnnamedLeaks(s, name, length, luck);
    } else {
      FailsClean(s, name, length, luck);
    }
  }

  lemma OccupiedSlots(s: Fs, i: nat, name: Name, x: nat)
    requires i < |s.slots| && x in s.inodes
    ensures Occupied(s, i, name, x).slots == s.slots[i := Used(name, x)]
  {
    assert s.slots[i := Free][i := Used(name, x)] == s.slots[i := Used(name, x)];
  }

  lemma MoreNames(slots: seq<Slot>, i: nat, e: Slot, open: seq<InMemory>)
    requires NoOrphans(slots, open) && i < |slots| && slots[i].Free?
    ensures NoOrphans(slots[i := e], open)
  {
    forall k | 0 <= k < |open|
      ensures !Orphan(slots[i := e], open[k])
    {
      assert !Orphan(slots, open[k]);
      if j :| 0 <= j < |slots| && slots[j].Used? && slots[j].sector == open[k].sector {
        assert slots[i := e][j].Used? && slots[i := e][j].sector == open[k].sector;
      }
    }
  }

  lemma OpenOrderly(s: Fs, name: Name, root: bool, limit: nat, memory: bool, handle: bool)
    requires Orderly(s)
    ensures var s' := Open(s, name, root, limit, memory, handle).1; Orderly(s') && s'.loose == s.loose
  {
    var i := Find(s.slots, name, limit);
    if root && i.Some? {
      var x := s.slots[i.value].sector;
      assert Named(s.slots, x) && x in Live(s);
      OpenKeeps(s, x, memory);
      OpenNoOrphan(s, x, memory);
      var (ok, s1) := InodeOpen(s, x, memory);
      if ok && !handle { CloseNoOrphan(s1, x); }
    }
  }

  lemma ReopenOrderly(s: Fs, x: nat, handle: bool)
    requires Orderly(s) && x in OpenSectors(s.open)
    ensures Orderly(Reopen(s, x, handle)) && Reopen(s, x, handle).loose == s.loose
  {
    assert x in Live(s);
    OpenKeeps(s, x, true);
    OpenAtIs(s.open, x);
    OpenNoOrphan(s, x, true);
    if !handle { CloseNoOrphan(InodeOpen(s, x, true).1, x); }
  }

  lemma RemoveOrderly(s: Fs, name: Name, root: bool, limit: nat, memory: bool, write: bool)
    requires Orderly(s)
    ensures var s' := Remove(s, name, root, limit, memory, write).1; Orderly(s') && s'.loose == s.loose
  {
    var i := Find(s.slots, name, limit);
    if root && i.Some? {
      var x := s.slots[i.value].sector;
      assert Named(s.slots, x) && x in Live(s);
      OpenKeeps(s, x, memory);
      OpenNoOrphan(s, x, memory);
      var (ok, s1) := InodeOpen(s, x, memory);
      if ok && !write {
        CloseNoOrphan(s1, x);
      } else if ok {
        OpenAtIs(s1.open, x);
        UnnameKeeps(s1, i.value);
        UnnameNoOrphan(s1, i.value);
        CloseNoOrphan(Unname(s1, i.value), x);
        Reassign(s.slots, i.value, Free);
      }
    }
  }

  lemma OrderlyStep(s: Fs, a: Action)
    requires Orderly(s) && Allowed(s, a) && Clean(s, a)
    ensures Orderly(Apply(s, a)) && Apply(s, a).loose == s.loose
  {
    match a
    case ACreate(name, length, luck) => CreateOrderly(s, name, length, luck);
    case AOpen(name, root, limit, memory, handle) => OpenOrderly(s, name, root, limit, memory, handle);
    case AReopen(x, handle) => ReopenOrderly(s, x, handle);
    case ARemove(name, root, limit, memory, write) => RemoveOrderly(s, name, root, limit, memory, write);
    case AClose(x) => CloseNoOrphan(s, x);
  }

  lemma {:induction false} OrderlyRun(s: Fs, actions: seq<Action>)
    requires Orderly(s) && Runs(s, actions) && Tight(s, actions)
    ensures Orderly(After(s, actions)) && After(s, actions).loose == s.loose
    decreases |actions|
  {
    if actions != [] {
      OrderlyStep(s, actions[0]);
      OrderlyRun(Apply(s, actions[0]), actions[1..]);
    }
  }

  /** A sector is marked exactly when it is loose or some file owns it, and then it has one owner. */
  lemma SectorAccounting(s: Fs, y: nat)
    requires Inv(s) && y < |s.marked|
    ensures s.marked[y] <==> y in s.loose || exists x :: Owner(s.inodes, Live(s), x, y)
    ensures forall x :: Owner(s.inodes, Live(s), x, y) ==> y !in s.loose
    ensures forall x, x' :: Owner(s.inodes, Live(s), x, y) && Owner(s.inodes, Live(s), x', y) ==> x == x'
  {
    forall x | Owner(s.inodes, Live(s), x, y)
      ensures s.marked[y] && y !in s.loose
    {
      assert Stored(s.marked, s.inodes, s.loose, x) && Kept(s.marked, s.loose, y);
    }
    forall x, x' | Owner(s.inodes, Live(s), x, y) && Owner(s.inodes, Live(s), x', y)
      ensures x == x'
    {
      assert x != x' ==> Disjoint(s.inodes, x, x');
    }
    if s.marked[y] { assert Accounted(s.inodes, s.loose, Live(s), y); }
  }

  /** Conservation: after a run whose creations are clean, the marked sectors are those of the files. */
  lemma NothingLost(s: Fs, actions: seq<Action>, y: nat)
    requires Orderly(s) && Runs(s, actions) && Tight(s, actions) && s.loose == {}
    requires y < |After(s, actions).marked|
    ensures var s' := After(s, actions); s'.marked[y] <==> exists x :: Owner(s'.inodes, Live(s'), x, y)
  {
    OrderlyRun(s, actions);
    SectorAccounting(After(s, actions), y);
  }

  /** The last close of a removed file gives back its sectors, all of them and no others. */
  lemma LastClose(s: Fs, x: nat)
    requires Inv(s) && OpenAt(s.open, x).Some?
    requires var m := s.open[OpenAt(s.open, x).value]; m.openCnt == 1 && m.removed
    ensures x in OpenSectors(s.open) && x !in Live(CloseSector(s, x)) && x in s.inodes
    ensures forall y: nat :: y < |s.marked| ==>
      |CloseSector(s, x).marked| == |s.marked| && CloseSector(s, x).marked[y]
        == (s.marked[y] && y !in Sectors(x, s.inodes[x]))
  {
    var i := OpenAt(s.open, x).value;
    OpenAtIs(s.open, x);
    assert Mirrors(s.inodes, s.slots, s.open[i]);
    CloseLast(s, i);
  }

  // ----- references

  /** How many times the file of inode x is open. */
  ghost function References(open: seq<InMemory>, x: nat): nat {
    var i := OpenAt(open, x);
    if i.None? then 0 else open[i.value].openCnt
  }

  ghost predicate OneEach(open: seq<InMemory>) {
    forall i, j :: 0 <= i < j < |open| ==> open[i].sector != open[j].sector
  }

  lemma ReferencesAt(open: seq<InMemory>, i: nat)
    requires OneEach(open) && i < |open|
    ensures OpenAt(open, open[i].sector) == Some(i) && References(open, open[i].sector) == open[i].openCnt
  {
  }

  lemma ReferencesSet(open: seq<InMemory>, i: nat, m: InMemory, y: nat)
    requires OneEach(open) && i < |open| && m.sector == open[i].sector
    ensures References(open[i := m], y) == if y == m.sector then m.openCnt else References(open, y)
  {
    var open' := open[i := m];
    assert OneEach(open');
    ReferencesAt(open', i);
    if y != m.sector {
      var j := OpenAt(open, y);
      if j.Some? { ReferencesAt(open', j.value); }
    }
  }

  lemma ReferencesCut(open: seq<InMemory>, i: nat, y: nat)
    requires OneEach(open) && i < |open|
    ensures References(open[..i] + open[i + 1..], y) == if y == open[i].sector then 0 else References(open, y)
  {
    var open' := open[..i] + open[i + 1..];
    assert forall j :: 0 <= j < |open'| ==> open'[j] == open[if j < i then j else j + 1];
    var j := OpenAt(open, y);
    if y != open[i].sector && j.Some? {
      var k := if j.value < i then j.value else j.value - 1;
      assert open'[k] == open[j.value];
      ReferencesAt(open', k);
    }
  }

  lemma ReferencesOpen(s: Fs, x: nat, memory: bool, y: nat)
    requires Inv(s) && x in s.inodes
    ensures var (ok, s') := InodeOpen(s, x, memory);
      References(s'.open, y) == References(s.open, y) + if ok && y == x then 1 else 0
  {
    match OpenAt(s.open, x) {
      case Some(i) =>
        ReferencesSet(s.open, i, s.open[i].(openCnt := s.open[i].openCnt + 1), y);
        ReferencesAt(s.open, i);
      case None =>
        var open' := [InMemory(x, 1, false, s.inodes[x])] + s.open;
        assert open'[1..] == s.open;
    }
  }

  lemma ReferencesClose(s: Fs, x: nat, y: nat)
    requires Inv(s) && x in OpenSectors(s.open)
    ensures References(CloseSector(s, x).open, y) == References(s.open, y) - if y == x then 1 else 0
  {
    OpenAtIs(s.open, x);
    var i := OpenAt(s.open, x).value;
    CloseKeeps(s, i);
    ReferencesDrop(s, i, y);
  }

  lemma ReferencesDrop(s: Fs, i: nat, y: nat)
    requires OpenInv(s.inodes, s.slots, s.open) && CanClose(s, i)
    ensures References(InodeClose(s, i).open, y) == References(s.open, y) - if y == s.open[i].sector then 1 else 0
  {
    ReferencesAt(s.open, i);
    var m := s.open[i];
    if m.openCnt > 1 {
      ReferencesSet(s.open, i, m.(openCnt := m.openCnt - 1), y);
    } else {
      ReferencesCut(s.open, i, y);
    }
  }

  /** A call changes how often a file is open only by what it gives to or takes from its caller. */
  lemma ReferencesStep(s: Fs, a: Action, y: nat)
    requires Inv(s) && Allowed(s, a)
    ensures References(Apply(s, a).open, y) == References(s.open, y) +
      (match a
       case ACreate(_, _, _) => 0
       case AOpen(name, root, limit, memory, handle) =>
         if Open(s, name, root, limit, memory, handle).0 == Some(y) then 1 else 0
       case AReopen(x, handle) => if x == y && handle then 1 else 0
       case ARemove(_, _, _, _, _) => 0
       case AClose(x) => if x == y then -1 else 0)
  {
    match a {
      case ACreate(_, _, _) =>
      case AOpen(name, root, limit, memory, handle) =>
        OpenOpens(s, name, root, limit, memory, handle, y);
      case AReopen(x, handle) =>
        assert x in Live(s);
        OpenKeeps(s, x, true);
        ReferencesOpen(s, x, true, y);
        OpenAtIs(s.open, x);
        if !handle { ReferencesClose(InodeOpen(s, x, true).1, x, y); }
      case ARemove(name, root, limit, memory, write) =>
        RemoveOpens(s, name, root, limit, memory, write, y);
      case AClose(x) =>
        ReferencesClose(s, x, y);
    }
  }

  lemma OpenOpens(s: Fs, name: Name, root: bool, limit: nat, memory: bool, handle: bool, y: nat)
    requires Inv(s)
    ensures var (x, s') := Open(s, name, root, limit, memory, handle);
      References(s'.open, y) == References(s.open, y) + if x == Some(y) then 1 else 0
  {
    var i := Find(s.slots, name, limit);
    if root && i.Some? {
      var x := s.slots[i.value].sector;
      assert Named(s.slots, x) && x in Live(s);
      OpenKeeps(s, x, memory);
      ReferencesOpen(s, x, memory, y);
      var (ok, s1) := InodeOpen(s, x, memory);
      if ok && !handle { ReferencesClose(s1, x, y); }
    }
  }

  lemma RemoveOpens(s: Fs, name: Name, root: bool, limit: nat, memory: bool, write: bool, y: nat)
    requires Inv(s)
    ensures References(Remove(s, name, root, limit, memory, write).1.open, y) == References(s.open, y)
  {
    var i := Find(s.slots, name, limit);
    if root && i.Some? {
      var x := s.slots[i.value].sector;
      assert Named(s.slots, x) && x in Live(s);
      OpenKeeps(s, x, memory);
      ReferencesOpen(s, x, memory, y);
      var (ok, s1) := InodeOpen(s, x, memory);
      if ok && !write {
        ReferencesClose(s1, x, y);
      } else if ok {
        UnnameOpens(s1, i.value, y);
      }
    }
  }

  lemma UnnameOpens(s: Fs, i: nat, y: nat)
    requires Inv(s) && i < |s.slots| && s.slots[i].Used? && s.slots[i].sector in OpenSectors(s.open)
    ensures OpenAt(s.open, s.slots[i].sector).Some? && Inv(Unname(s, i))
    ensures s.slots[i].sector in OpenSectors(Unname(s, i).open)
    ensures References(CloseSector(Unname(s, i), s.slots[i].sector).open, y)
         == References(s.open, y) - if y == s.slots[i].sector then 1 else 0
  {
    var x := s.slots[i].sector;
    OpenAtIs(s.open, x);
    UnnameKeeps(s, i);
    var j := OpenAt(s.open, x).value;
    ReferencesSet(s.open, j, s.open[j].(removed := true), y);
    ReferencesAt(s.open, j);
    ReferencesClose(Unname(s, i), x, y);
  }

  lemma CreateInodes(s: Fs, name: Name, length: nat, luck: Luck, v: nat)
    requires Inv(s) && v in Live(s)
    ensures v in s.inodes && v in Create(s, name, length, luck).1.inodes
    ensures Create(s, name, length, luck).1.inodes[v] == s.inodes[v]
  {
    assert Stored(s.marked, s.inodes, s.loose, v);
    AllocateTakes(s, 1, luck.inodeMapped);
    var (x, s1) := Allocate(s, 1, luck.inodeMapped);
    if Create(s, name, length, luck).0 {
      var i, x, s3 := Succeeds(s, name, length, luck);
      VacatedKeeps(s3, i);
    } else if luck.root && x.Some? {
      assert x.value in Range(x.value, 1);
      LooseNotLive(s1, x.value);
      AllocateTakes(s1, BytesToSectors(length), luck.dataMapped);
    }
  }

  /** No call rewrites the inode of a file that lives. */
  lemma InodesStep(s: Fs, a: Action, x: nat)
    requires Inv(s) && Allowed(s, a) && x in Live(s)
    ensures x in s.inodes && x in Apply(s, a).inodes && Apply(s, a).inodes[x] == s.inodes[x]
  {
    assert Stored(s.marked, s.inodes, s.loose, x);
    if a.ACreate? { CreateInodes(s, a.name, a.length, a.luck, x); }
  }

  /** What filesys_create adds to the directory: a file that did not exist before, of the length asked for, under that
      name.  With a directory that is a map, it adds that name and changes no other exactly when no read failure did
      harm; a failed call names nothing. */
  lemma CreateAdds(s: Fs, name: Name, length: nat, luck: Luck) returns (x: nat)
    requires Inv(s)
    ensures var (ok, s') := Create(s, name, length, luck);
      && (!ok ==> s'.slots == s.slots)
      && (ok ==> x !in Live(s) && x in s'.inodes && s'.inodes[x].length == length
                 && AddAt(s.slots, name, luck.f).Some? && s'.slots == Added(s.slots, name, x, luck.f))
      && (ok && SlotsInv(s.slots) ==>
            (Harmless(s.slots, name, luck.f) <==>
             name !in AsMap(s.slots) && AsMap(s'.slots) == AsMap(s.slots)[name := x]))
  {
    x := 0;
    if Create(s, name, length, luck).0 {
      var i, at, s3 := Succeeds(s, name, length, luck);
      x := at;
      OccupiedSlots(s3, i, name, x);
      VacatedKeeps(s3, i);
      if SlotsInv(s.slots) { AddExact(s.slots, name, x, luck.f); }
    } else if Unnamed(s, name, length, luck) {
      UnnamedLeaks(s, name, length, luck);
    } else {
      FailsClean(s, name, length, luck);
    }
  }

  /** The leak, in terms a caller can check: with memory to spare, a filesys_create that fails leaves sectors marked
      that are no file's exactly when the file was to have data and there was room for it, but the name is bad, taken,
      or the directory is full. */
  lemma CreateLeaks(s: Fs, name: Name, length: nat, luck: Luck)
    requires Inv(s) && SlotsInv(s.slots)
    requires luck.f.lookup >= |s.slots| && luck.f.scan >= |s.slots| && luck.f.write
    ensures var (ok, s') := Create(s, name, length, luck); var m := AsMap(s.slots);
      !ok && s'.marked != s.marked <==>
        HasRoom(s, length, luck) && length > 0 && (!ValidName(name) || name in m || |m| == |s.slots|)
  {
    AddFaultless(s.slots, name, 0, luck.f);
    Capacity(s.slots);
    if Unnamed(s, name, length, luck) {
      UnnamedLeaks(s, name, length, luck);
    } else if !Create(s, name, length, luck).0 {
      FailsClean(s, name, length, luck);
    }
  }

  /** A file whose directory entry is overwritten has no name any more, and lives on only in the hands of those who
      have it open. */
  lemma CreateOverwrites(s: Fs, name: Name, length: nat, luck: Luck)
    requires Inv(s) && Create(s, name, length, luck).0 && Overwritten(s, name, luck).Some?
    ensures var s', y := Create(s, name, length, luck).1, Overwritten(s, name, luck).value;
      && y in Live(s) && !Named(s'.slots, y)
      && (OpenAt(s.open, y).None? ==> y in s.inodes && y !in Live(s') && Sectors(y, s.inodes[y]) <= s'.loose)
  {
    var i, x, s3 := Succeeds(s, name, length, luck);
    var y := s.slots[i].sector;
    assert Named(s.slots, y) && y in Live(s) && y != x;
    OccupiedSlots(s3, i, name, x);
    SlotFreed(s.slots, i);
    VacatedKeeps(s3, i);
    VacatedLoose(s3, i);
    OverwrittenNamed(s.slots, i, name, x, y);
    LiveIs(Occupied(s3, i, name, x), y);
    LooseApart(Sectors(x, s3.inodes[x]), s3.loose, Sectors(y, s3.inodes[y]));
  }

  lemma OverwrittenNamed(slots: seq<Slot>, i: nat, name: Name, x: nat, y: nat)
    requires NamesInv(slots) && i < |slots| && slots[i].Used? && slots[i].sector == y && x != y
    ensures !Named(slots[i := Used(name, x)], y)
  {
    var slots' := slots[i := Used(name, x)];
    forall j | 0 <= j < |slots'| && slots'[j].Used?
      ensures slots'[j].sector != y
    {
      assert j != i ==> slots[j].Used?;
    }
  }

  lemma LooseApart(sx: set<nat>, loose: set<nat>, sy: set<nat>)
    requires sx <= loose && sy !! loose
    ensures sy <= loose + sy - sx
  {
  }

  /** A removed file loses its name at once, and no other name changes; the file lives on exactly if someone has it
      open. */
  lemma RemoveTakes(s: Fs, name: Name, root: bool, limit: nat, memory: bool, write: bool)
    requires Inv(s)
    ensures var (ok, s') := Remove(s, name, root, limit, memory, write); var i := Find(s.slots, name, limit);
      && (!ok ==> s'.slots == s.slots)
      && (ok <==> root && write && i.Some? && (memory || OpenAt(s.open, s.slots[i.value].sector).Some?))
      && (ok ==> (s.slots[i.value].sector in Live(s') <==> References(s.open, s.slots[i.value].sector) > 0))
      && (ok && SlotsInv(s.slots) ==> name in AsMap(s.slots) && AsMap(s'.slots) == AsMap(s.slots) - {name})
  {
    var (ok, s') := Remove(s, name, root, limit, memory, write);
    if ok {
      var i := Find(s.slots, name, limit).value;
      var x := s.slots[i].sector;
      RemoveOpens(s, name, root, limit, memory, write, x);
      SlotFreed(s.slots, i);
      LiveIfOpen(s', x);
      if SlotsInv(s.slots) { RemoveExact(s.slots, name, limit, true, true); }
    }
  }

  lemma LiveIfOpen(s: Fs, x: nat)
    requires Inv(s) && !System(x) && !Named(s.slots, x)
    ensures x in Live(s) <==> References(s.open, x) > 0
  {
    LiveIs(s, x);
    var i := OpenAt(s.open, x);
    if i.Some? { assert Mirrors(s.inodes, s.slots, s.open[i.value]); }
  }

  /** A file that someone has open stays, whatever others do: its sectors remain its own until its last close. */
  lemma OpenStays(s: Fs, a: Action, x: nat)
    requires Inv(s) && Allowed(s, a) && References(s.open, x) > (if a == AClose(x) then 1 else 0)
    ensures x in Live(Apply(s, a)) && x in s.inodes && x in Apply(s, a).inodes
    ensures Apply(s, a).inodes[x] == s.inodes[x]
    ensures forall y :: y in Sectors(x, s.inodes[x]) ==> Kept(Apply(s, a).marked, Apply(s, a).loose, y)
  {
    ReferencesStep(s, a, x);
    OpenAtIs(s.open, x);
    OpenAtIs(Apply(s, a).open, x);
    InodesStep(s, a, x);
    StoredKept(Apply(s, a), x);
  }

  lemma StoredKept(s: Fs, x: nat)
    requires Inv(s) && x in Live(s)
    ensures x in s.inodes && forall y :: y in Sectors(x, s.inodes[x]) ==> Kept(s.marked, s.loose, y)
  {
    assert Stored(s.marked, s.inodes, s.loose, x);
  }
}
