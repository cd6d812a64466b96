/** Writes to files, on a disk laid out by the file system: no write to one file reaches another. */
module FileSysData {

  import opened InodeIo
  import opened Directory
  import opened FileSys
  import opened FileSysRuns

  ghost predicate OnIt(disk: seq<Byte>, d: OnDisk) {
    SECTOR_SIZE * (d.start + DataSectors(d)) <= |disk|
  }

  /** The data of the file with inode d, on a disk with these bytes. */
  ghost function FileBytes(disk: seq<Byte>, d: OnDisk): seq<Byte>
    requires OnIt(disk, d)
  {
    disk[SECTOR_SIZE * d.start..SECTOR_SIZE * d.start + d.length]
  }

  ghost function SectorBytes(disk: seq<Byte>, x: nat): seq<Byte>
    requires SECTOR_SIZE * (x + 1) <= |disk|
  {
    disk[SECTOR_SIZE * x..SECTOR_SIZE * (x + 1)]
  }

  ghost predicate Sized(disk: seq<Byte>, s: Fs) {
    |disk| == SECTOR_SIZE * |s.marked|
  }

  /** disk' is disk after a write of p at offset in the file with inode d. */
  ghost predicate Wrote(disk: seq<Byte>, disk': seq<Byte>, d: OnDisk, offset: nat, p: seq<Byte>) {
    offset + |p| <= d.length && disk' == Patched(disk, SECTOR_SIZE * d.start + offset, p)
  }

  /** Sector ranges with no sector in common have no byte in common. */
  lemma RangesApart(at: nat, n: nat, at': nat, n': nat)
    requires Range(at, n) !! Range(at', n') && n > 0 && n' > 0
    ensures at + n <= at' || at' + n' <= at
  {
    assert at' in Range(at', n') && at in Range(at, n);
  }

  /** A write inside one range of sectors leaves the bytes of another as they were. */
  lemma WriteApart(disk: seq<Byte>, d: OnDisk, offset: nat, p: seq<Byte>, at: nat, n: nat, m: nat)
    requires OnIt(disk, d) && offset + |p| <= d.length
    requires SECTOR_SIZE * (at + n) <= |disk| && m <= SECTOR_SIZE * n && Range(d.start, DataSectors(d)) !! Range(at, n)
    ensures Patched(disk, SECTOR_SIZE * d.start + offset, p)[SECTOR_SIZE * at..SECTOR_SIZE * at + m]
         == disk[SECTOR_SIZE * at..SECTOR_SIZE * at + m]
  {
    if p == [] {
      assert Patched(disk, SECTOR_SIZE * d.start + offset, p) == disk;
    } else if m > 0 {
      RangesApart(d.start, DataSectors(d), at, n);
      PatchApart(disk, SECTOR_SIZE * d.start + offset, p, SECTOR_SIZE * at, SECTOR_SIZE * at + m);
    }
  }

  /** The file of inode x is on the disk, and its inode is not among its data. */
  ghost predicate Sound(disk: seq<Byte>, d: OnDisk, x: nat) {
    SECTOR_SIZE * (x + 1) <= |disk| && OnIt(disk, d) && Range(d.start, DataSectors(d)) !! Range(x, 1)
  }

  lemma LiveFits(s: Fs, disk: seq<Byte>, x: nat)
    requires Inv(s) && Sized(disk, s) && x in Live(s)
    ensures x in s.inodes && Sound(disk, s.inodes[x], x)
  {
    assert Stored(s.marked, s.inodes, s.loose, x) && x in Sectors(x, s.inodes[x]);
    assert Kept(s.marked, s.loose, x);
  }

  lemma DisjointData(inodes: map<nat, OnDisk>, x: nat, v: nat)
    requires Disjoint(inodes, x, v)
    ensures var d, e := inodes[x], inodes[v];
      Range(d.start, DataSectors(d)) !! Range(e.start, DataSectors(e)) && Range(d.start, DataSectors(d)) !! Range(v, 1)
  {
    assert Range(v, 1) == {v};
  }

  lemma LiveApart(s: Fs, x: nat, v: nat)
    requires Inv(s) && x in Live(s) && v in Live(s) && x != v
    ensures x in s.inodes && v in s.inodes
    ensures var d, e := s.inodes[x], s.inodes[v];
      Range(d.start, DataSectors(d)) !! Range(e.start, DataSectors(e)) && Range(d.start, DataSectors(d)) !! Range(v, 1)
  {
    assert Disjoint(s.inodes, x, v);
    DisjointData(s.inodes, x, v);
  }

  /** The same data for the file with inode d, and the same bytes in sector v. */
  ghost predicate Same(disk: seq<Byte>, disk': seq<Byte>, d: OnDisk, v: nat) {
    && |disk'| == |disk| && OnIt(disk, d) && SECTOR_SIZE * (v + 1) <= |disk|
    && FileBytes(disk', d) == FileBytes(disk, d) && SectorBytes(disk', v) == SectorBytes(disk, v)
  }

  lemma SameElsewhere(disk: seq<Byte>, disk': seq<Byte>, d: OnDisk, offset: nat, p: seq<Byte>, e: OnDisk, v: nat)
    requires LaidOut(disk, d, e, v) && Wrote(disk, disk', d, offset, p)
    ensures Same(disk, disk', e, v)
  {
    WriteApart(disk, d, offset, p, e.start, DataSectors(e), e.length);
    WriteApart(disk, d, offset, p, v, 1, SECTOR_SIZE);
  }

  /** p is in the file's data at offset and nowhere else in it, and sector x is as it was. */
  ghost predicate Landed(disk: seq<Byte>, disk': seq<Byte>, d: OnDisk, offset: nat, p: seq<Byte>, x: nat) {
    && |disk'| == |disk| && OnIt(disk, d) && SECTOR_SIZE * (x + 1) <= |disk|
    && FileBytes(disk', d) == Patched(FileBytes(disk, d), offset, p) && SectorBytes(disk', x) == SectorBytes(disk, x)
  }

  lemma LandsInside(disk: seq<Byte>, disk': seq<Byte>, d: OnDisk, offset: nat, p: seq<Byte>, x: nat)
    requires Sound(disk, d, x) && Wrote(disk, disk', d, offset, p)
    ensures Landed(disk, disk', d, offset, p, x)
  {
    PatchInside(disk, SECTOR_SIZE * d.start, d.length, offset, p);
    WriteApart(disk, d, offset, p, x, 1, SECTOR_SIZE);
  }

  /** Both files are on the disk, and share no sector. */
  ghost predicate LaidOut(disk: seq<Byte>, d: OnDisk, e: OnDisk, v: nat) {
    && OnIt(disk, d) && OnIt(disk, e) && SECTOR_SIZE * (v + 1) <= |disk|
    && Range(d.start, DataSectors(d)) !! Range(e.start, DataSectors(e))
    && Range(d.start, DataSectors(d)) !! Range(v, 1)
  }

  lemma LivePair(s: Fs, disk: seq<Byte>, x: nat, v: nat)
    requires Inv(s) && Sized(disk, s) && x in Live(s) && v in Live(s) && v != x
    ensures x in s.inodes && v in s.inodes && LaidOut(disk, s.inodes[x], s.inodes[v], v)
  {
    LiveFits(s, disk, x);
    LiveFits(s, disk, v);
    LiveApart(s, x, v);
  }

  /** In every state of the file system, a write within a live file changes no byte of any other live file, the root
      directory among them, nor of any other live file's inode ... */
  lemma WriteIsolated(s: Fs, disk: seq<Byte>, disk': seq<Byte>, x: nat, offset: nat, p: seq<Byte>, v: nat)
    requires Inv(s) && Sized(disk, s) && x in Live(s) && v in Live(s) && v != x
    requires x in s.inodes && Wrote(disk, disk', s.inodes[x], offset, p)
    ensures v in s.inodes && Same(disk, disk', s.inodes[v], v)
  {
    LivePair(s, disk, x, v);
    SameElsewhere(disk, disk', s.inodes[x], offset, p, s.inodes[v], v);
  }

  /** ... nor of its own inode, and puts just those bytes into its own data. */
  lemma WriteLands(s: Fs, disk: seq<Byte>, disk': seq<Byte>, x: nat, offset: nat, p: seq<Byte>)
    requires Inv(s) && Sized(disk, s) && x in Live(s)
    requires x in s.inodes && Wrote(disk, disk', s.inodes[x], offset, p)
    ensures Landed(disk, disk', s.inodes[x], offset, p, x)
  {
    LiveFits(s, disk, x);
    LandsInside(disk, disk', s.inodes[x], offset, p, x);
  }

  /** So after any run, no write to a file other than the root directory changes what names lead to. */
  lemma WriteKeepsNames(s: Fs, actions: seq<Action>, s': Fs, disk: seq<Byte>, disk': seq<Byte>,
                        x: nat, offset: nat, p: seq<Byte>)
    requires Inv(s) && Runs(s, actions) && s' == After(s, actions) && Sized(disk, s')
    requires x in Live(s') && x in s'.inodes && x != ROOT_DIR_SECTOR && Wrote(disk, disk', s'.inodes[x], offset, p)
    ensures ROOT_DIR_SECTOR in s'.inodes && Same(disk, disk', s'.inodes[ROOT_DIR_SECTOR], ROOT_DIR_SECTOR)
    ensures var root := s'.inodes[ROOT_DIR_SECTOR];
      AsMap(SlotsOf(Slots(FileBytes(disk', root)))) == AsMap(SlotsOf(Slots(FileBytes(disk, root))))
  {
    assert ROOT_DIR_SECTOR in Live(s');
    WriteIsolated(s', disk, disk', x, offset, p, ROOT_DIR_SECTOR);
  }

  // ----- the data of a new file

  /** disk' is disk once inode_create has written inode d to sector x: its data sectors are zeros, and the sectors that
      are not the file's are as they were. */
  ghost predicate Made(disk: seq<Byte>, disk': seq<Byte>, x: nat, d: OnDisk) {
    && |disk'| == |disk|
    && (forall a: nat :: a < |disk| && a / SECTOR_SIZE in Range(d.start, DataSectors(d)) ==> disk'[a] == 0)
    && (forall a: nat :: a < |disk| && a / SECTOR_SIZE !in Sectors(x, d) ==> disk'[a] == disk[a])
  }

  /** inode_create's writes, once it has sectors for the data: the inode and then the zeros. */
  method WriteInode(disk: seq<Sector>, x: nat, inode: Sector, d: OnDisk) returns (disk': seq<Sector>)
    requires x < |disk| && d.start + DataSectors(d) <= |disk| && x !in Range(d.start, DataSectors(d))
    ensures Made(Raw(disk), Raw(disk'), x, d) && |disk'| == |disk| && disk'[x] == inode
  {
    var zeros: Sector := seq(SECTOR_SIZE, _ => 0);
    disk' := disk[x := inode];
    var i := 0;
    while i < DataSectors(d)
      invariant i <= DataSectors(d) && |disk'| == |disk| && disk'[x] == inode
      invariant forall k :: d.start <= k < d.start + i ==> disk'[k] == zeros
      invariant forall k :: 0 <= k < |disk| && !(d.start <= k < d.start + i) && k != x ==> disk'[k] == disk[k]
    {
      disk' := disk'[d.start + i := zeros];
      i := i + 1;
    }
  }

  /** The sectors of a new file were nobody's. */
  lemma CreatedApart(s: Fs, name: Name, length: nat, luck: Luck) returns (x: nat)
    requires Inv(s) && Create(s, name, length, luck).0
    ensures var s' := Create(s, name, length, luck).1;
      && x !in Live(s) && x in Live(s') && x in s'.inodes && s'.inodes[x].length == length
      && forall v :: v in Live(s) ==> v in s.inodes && Sectors(x, s'.inodes[x]) !! Sectors(v, s.inodes[v])
  {
    var i, x', s3 := Succeeds(s, name, length, luck);
    x := x';
    var s' := Create(s, name, length, luck).1;
    OccupiedSlots(s3, i, name, x);
    VacatedKeeps(s3, i);
    assert Named(s'.slots, x) by { assert s'.slots[i] == Used(name, x); }
    forall v | v in Live(s)
      ensures v in s.inodes && Sectors(x, s3.inodes[x]) !! Sectors(v, s.inodes[v])
    {
      assert v in Live(s3) && Stored(s3.marked, s3.inodes, s3.loose, v);
      assert forall y :: y in Sectors(v, s3.inodes[v]) ==> Kept(s3.marked, s3.loose, y);
    }
  }

  /** A new file reads as zeros, and making it changes no byte of a file that lived before, nor of its inode. */
  lemma CreatedZeros(s: Fs, name: Name, length: nat, luck: Luck, disk: seq<Byte>) returns (x: nat)
    requires Inv(s) && Create(s, name, length, luck).0 && Sized(disk, s)
    ensures var s' := Create(s, name, length, luck).1;
      && x !in Live(s) && x in Live(s') && x in s'.inodes && OnIt(disk, s'.inodes[x])
      && forall disk' :: Made(disk, disk', x, s'.inodes[x]) ==>
           && FileBytes(disk', s'.inodes[x]) == seq(length, _ => 0)
           && forall v :: v in Live(s) ==> v in s.inodes && Same(disk, disk', s.inodes[v], v)
  {
    x := CreatedApart(s, name, length, luck);
    var s' := Create(s, name, length, luck).1;
    var d := s'.inodes[x];
    CreatedSized(s, name, length, luck, disk);
    LiveFits(s', disk, x);
    forall disk' | Made(disk, disk', x, d)
      ensures FileBytes(disk', d) == seq(length, _ => 0)
      ensures forall v :: v in Live(s) ==> v in s.inodes && Same(disk, disk', s.inodes[v], v)
    {
      MadeZeros(disk, disk', x, d);
      forall v | v in Live(s)
        ensures v in s.inodes && Same(disk, disk', s.inodes[v], v)
      {
        LiveFits(s, disk, v);
        MadeElsewhere(disk, disk', x, d, s.inodes[v], v);
      }
    }
  }

  lemma CreatedSized(s: Fs, name: Name, length: nat, luck: Luck, disk: seq<Byte>)
    requires Inv(s) && Sized(disk, s)
    ensures Sized(disk, Create(s, name, length, luck).1)
  {
    AllocateTakes(s, 1, luck.inodeMapped);
    var (x, s1) := Allocate(s, 1, luck.inodeMapped);
    if x.Some? { AllocateTakes(s1, BytesToSectors(length), luck.dataMapped); }
  }

  lemma MadeZeros(disk: seq<Byte>, disk': seq<Byte>, x: nat, d: OnDisk)
    requires Made(disk, disk', x, d) && OnIt(disk, d)
    ensures FileBytes(disk', d) == seq(d.length, _ => 0)
  {
    var data := FileBytes(disk', d);
    forall k | 0 <= k < d.length
      ensures data[k] == 0
    {
      var a := SECTOR_SIZE * d.start + k;
      assert a / SECTOR_SIZE in Range(d.start, DataSectors(d));
      assert data[k] == disk'[a];
    }
  }

  lemma MadeElsewhere(disk: seq<Byte>, disk': seq<Byte>, x: nat, d: OnDisk, e: OnDisk, v: nat)
    requires Made(disk, disk', x, d) && Sound(disk, e, v) && Sectors(x, d) !! Sectors(v, e)
    ensures Same(disk, disk', e, v)
  {
    SpanSame(disk, disk', x, d, e.start, DataSectors(e), e.length);
    SpanSame(disk, disk', x, d, v, 1, SECTOR_SIZE);
  }

  lemma SpanSame(disk: seq<Byte>, disk': seq<Byte>, x: nat, d: OnDisk, at: nat, n: nat, m: nat)
    requires Made(disk, disk', x, d) && Sectors(x, d) !! Range(at, n)
    requires SECTOR_SIZE * (at + n) <= |disk| && m <= SECTOR_SIZE * n
    ensures disk'[SECTOR_SIZE * at..SECTOR_SIZE * at + m] == disk[SECTOR_SIZE * at..SECTOR_SIZE * at + m]
  {
    var p, q := disk'[SECTOR_SIZE * at..SECTOR_SIZE * at + m], disk[SECTOR_SIZE * at..SECTOR_SIZE * at + m];
    forall k | 0 <= k < m
      ensures p[k] == q[k]
    {
      var a := SECTOR_SIZE * at + k;
      assert a / SECTOR_SIZE in Range(at, n);
      assert p[k] == disk'[a] && q[k] == disk[a];
    }
  }
}
