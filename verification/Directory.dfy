/** filesys/directory.c: a file of 20-byte slots that stands for a map from names to sectors. */
module Directory {

  import opened Wrappers
  import opened Ordering
  import opened InodeIo

  const NAME_MAX := 14
  const ENTRY_SIZE := 20

  /** A C string without its null byte. */
  type Name = seq<Byte>

  /** struct dir_entry, with all 15 bytes of the name field. */
  datatype Entry = Entry(sector: nat, field: seq<Byte>, inUse: bool)

  /** A string up to its null byte. */
  function CString(s: seq<Byte>): (r: Name)
    ensures |r| <= |s| && 0 !in r
  {
    if s == [] || s[0] == 0 then [] else [s[0]] + CString(s[1..])
  }

  /** strlcpy into a 15-byte field: the bytes after the null byte stay. */
  function CopyName(field: seq<Byte>, name: Name): (r: seq<Byte>)
    requires |field| == NAME_MAX + 1 && |name| <= NAME_MAX
    ensures |r| == NAME_MAX + 1
  {
    name + [0] + field[|name| + 1..]
  }

  lemma {:induction false} CStringOf(name: Name, rest: seq<Byte>)
    requires 0 !in name
    ensures CString(name + [0] + rest) == name
  {
    if name != [] {
      var s := name + [0] + rest;
      assert s[0] == name[0];
      assert s[1..] == name[1..] + [0] + rest;
      CStringOf(name[1..], rest);
    }
  }

  // ----- entries as bytes

  function Encode(e: Entry): (b: seq<Byte>)
    requires e.sector < 0x1_0000_0000 && |e.field| == NAME_MAX + 1
    ensures |b| == ENTRY_SIZE
  {
    var s := e.sector;
    [s % 256, s / 256 % 256, s / 65536 % 256, s / 16777216] + e.field + [if e.inUse then 1 else 0]
  }

  function Decode(b: seq<Byte>): (e: Entry)
    requires |b| == ENTRY_SIZE
    ensures |e.field| == NAME_MAX + 1 && e.sector < 0x1_0000_0000
  {
    var b0: int, b1: int, b2: int, b3: int := b[0], b[1], b[2], b[3];
    Entry(b0 + 256 * b1 + 65536 * b2 + 16777216 * b3, b[4..19], b[19] != 0)
  }

  lemma LittleEndian(s: nat)
    ensures s == s % 256 + 256 * (s / 256 % 256) + 65536 * (s / 65536 % 256) + 16777216 * (s / 16777216)
  {
    assert s / 65536 == s / 256 / 256 && s / 16777216 == s / 65536 / 256;
  }

  lemma DecodeEncode(e: Entry)
    requires e.sector < 0x1_0000_0000 && |e.field| == NAME_MAX + 1
    ensures Decode(Encode(e)) == e
  {
    assert Encode(e)[4..19] == e.field;
    LittleEndian(e.sector);
  }

  // ----- the slots of a directory

  ghost function SlotAt(file: seq<Byte>, i: nat): Entry
    requires ENTRY_SIZE * i + ENTRY_SIZE <= |file|
  {
    Decode(file[ENTRY_SIZE * i..ENTRY_SIZE * i + ENTRY_SIZE])
  }

  ghost function Slots(file: seq<Byte>): (s: seq<Entry>)
    ensures |s| == |file| / ENTRY_SIZE
  {
    seq(|file| / ENTRY_SIZE, i requires 0 <= i < |file| / ENTRY_SIZE => SlotAt(file, i))
  }

  lemma PatchApart(file: seq<Byte>, at: nat, p: seq<Byte>, lo: nat, hi: nat)
    requires lo <= hi <= |file| && (hi <= at || at + |p| <= lo)
    ensures Patched(file, at, p)[lo..hi] == file[lo..hi]
  {
    var x, y := Patched(file, at, p)[lo..hi], file[lo..hi];
    forall i | 0 <= i < hi - lo
      ensures x[i] == y[i]
    {
      assert x[i] == Patched(file, at, p)[lo + i];
    }
  }

  lemma SlotsPatched(file: seq<Byte>, i: nat, e: Entry)
    requires i < |Slots(file)| && e.sector < 0x1_0000_0000 && |e.field| == NAME_MAX + 1
    ensures Slots(Patched(file, ENTRY_SIZE * i, Encode(e))) == Slots(file)[i := e]
  {
    var file' := Patched(file, ENTRY_SIZE * i, Encode(e));
    DecodeEncode(e);
    forall j: nat | j < |Slots(file)|
      ensures SlotAt(file', j) == if j == i then e else SlotAt(file, j)
    {
      var lo, hi := ENTRY_SIZE * j, ENTRY_SIZE * j + ENTRY_SIZE;
      if j == i {
        assert file'[lo..hi] == Encode(e);
      } else {
        assert if j < i then hi <= ENTRY_SIZE * i else ENTRY_SIZE * i + ENTRY_SIZE <= lo;
        PatchApart(file, ENTRY_SIZE * i, Encode(e), lo, hi);
      }
    }
  }

  /** A write past the last whole slot changes no slot. */
  lemma SlotsBeyond(file: seq<Byte>, p: seq<Byte>)
    ensures Slots(Patched(file, ENTRY_SIZE * |Slots(file)|, p)) == Slots(file)
  {
    var file' := Patched(file, ENTRY_SIZE * |Slots(file)|, p);
    forall j: nat | j < |Slots(file)|
      ensures SlotAt(file', j) == SlotAt(file, j)
    {
      PatchApart(file, ENTRY_SIZE * |Slots(file)|, p, ENTRY_SIZE * j, ENTRY_SIZE * j + ENTRY_SIZE);
    }
  }

  /** How much of an entry can be transferred. */
  lemma ReachOfSlot(length: nat, i: nat, buffered: bool)
    requires i <= length / ENTRY_SIZE
    ensures var n := Reach(length, ENTRY_SIZE, ENTRY_SIZE * i, buffered);
      && (n == ENTRY_SIZE <==> i < length / ENTRY_SIZE && buffered)
      && (n == 0 || n == ENTRY_SIZE || (i == length / ENTRY_SIZE && n < ENTRY_SIZE))
  {
  }

  /** n bytes of an entry are written: all of them, none, or what is left behind the last slot. */
  lemma SlotWritten(file: seq<Byte>, i: nat, e: Entry, n: nat)
    requires i <= |Slots(file)| && e.sector < 0x1_0000_0000 && |e.field| == NAME_MAX + 1
    requires n == 0 || n == ENTRY_SIZE || (i == |Slots(file)| && n < ENTRY_SIZE)
    requires n == ENTRY_SIZE ==> i < |Slots(file)|
    ensures Slots(Patched(file, ENTRY_SIZE * i, Encode(e)[..n]))
         == if n == ENTRY_SIZE then Slots(file)[i := e] else Slots(file)
  {
    var b := Encode(e);
    if n == ENTRY_SIZE {
      assert b[..n] == b;
      SlotsPatched(file, i, e);
    } else if n == 0 {
      assert Patched(file, ENTRY_SIZE * i, b[..n]) == file;
    } else {
      SlotsBeyond(file, b[..n]);
    }
  }

  // ----- what the slots stand for

  datatype Slot = Free | Used(name: Name, sector: nat)

  function SlotOf(e: Entry): Slot {
    if e.inUse then Used(CString(e.field), e.sector) else Free
  }

  ghost function SlotsOf(table: seq<Entry>): (s: seq<Slot>)
    ensures |s| == |table| && forall i :: 0 <= i < |s| ==> s[i] == SlotOf(table[i])
  {
    seq(|table|, i requires 0 <= i < |table| => SlotOf(table[i]))
  }

  predicate Holds(e: Slot, name: Name) {
    e.Used? && e.name == name
  }

  ghost predicate ValidName(name: Name) {
    0 < |name| <= NAME_MAX && 0 !in name
  }

  /** Where a search for name ends that can read only so many slots: at the first that holds it. */
  function Find(slots: seq<Slot>, name: Name, limit: nat): (r: Option<nat>)
    ensures r.Some? ==> r.value < |slots| && r.value < limit && Holds(slots[r.value], name)
    ensures r.Some? ==> forall i :: 0 <= i < r.value ==> !Holds(slots[i], name)
    ensures r.None? ==> forall i :: 0 <= i < |slots| && i < limit ==> !Holds(slots[i], name)
  {
    if slots == [] || limit == 0 then None
    else if Holds(slots[0], name) then Some(0)
    else
      var r := Find(slots[1..], name, limit - 1);
      if r.None? then None else Some(r.value + 1)
  }

  /** Where the search for a free slot ends: at the first, at the end of the directory, or where a read fails. */
  function FindFree(slots: seq<Slot>, limit: nat): (i: nat)
    ensures i <= |slots| && i <= limit && (forall j :: 0 <= j < i ==> slots[j].Used?)
    ensures i < |slots| && i < limit ==> slots[i].Free?
  {
    if slots == [] || limit == 0 || slots[0].Free? then 0 else 1 + FindFree(slots[1..], limit - 1)
  }

  lemma FindIs(slots: seq<Slot>, name: Name, limit: nat, i: nat)
    requires i <= |slots| && i <= limit && forall j :: 0 <= j < i ==> !Holds(slots[j], name)
    requires i < |slots| && i < limit ==> Holds(slots[i], name)
    ensures Find(slots, name, limit) == if i < |slots| && i < limit then Some(i) else None
  {
  }

  lemma FindFreeIs(slots: seq<Slot>, limit: nat, i: nat)
    requires i <= |slots| && i <= limit && forall j :: 0 <= j < i ==> slots[j].Used?
    requires i < |slots| && i < limit ==> slots[i].Free?
    ensures FindFree(slots, limit) == i
  {
  }

  /** How many slots the two searches of dir_add can read before malloc fails them, and whether there is a buffer for
      the write. */
  datatype Faults = Faults(lookup: nat, scan: nat, write: bool)

  /** dir_add: the slot it writes, if it gets that far. */
  ghost function AddAt(slots: seq<Slot>, name: Name, f: Faults): Option<nat> {
    if ValidName(name) && Find(slots, name, f.lookup).None? && FindFree(slots, f.scan) < |slots| && f.write
    then Some(FindFree(slots, f.scan)) else None
  }

  ghost function Added(slots: seq<Slot>, name: Name, sector: nat, f: Faults): (r: seq<Slot>)
    ensures |r| == |slots|
  {
    var i := AddAt(slots, name, f);
    if i.None? then slots else slots[i.value := Used(name, sector)]
  }

  /** Names in use are valid, and no two are the same. */
  ghost predicate SlotsInv(slots: seq<Slot>) {
    && (forall i :: 0 <= i < |slots| && slots[i].Used? ==> ValidName(slots[i].name))
    && (forall i, j :: 0 <= i < j < |slots| && slots[i].Used? && slots[j].Used? ==> slots[i].name != slots[j].name)
  }

  /** What each name leads to: the first slot that holds it. */
  ghost function AsMap(slots: seq<Slot>): map<Name, nat> {
    if slots == [] then map[]
    else if slots[0].Used? then AsMap(slots[1..])[slots[0].name := slots[0].sector]
    else AsMap(slots[1..])
  }

  lemma {:induction false} AsMapFinds(slots: seq<Slot>, name: Name, limit: nat)
    requires limit >= |slots|
    ensures name in AsMap(slots) <==> Find(slots, name, limit).Some?
    ensures name in AsMap(slots) ==> AsMap(slots)[name] == slots[Find(slots, name, limit).value].sector
  {
    if slots != [] { AsMapFinds(slots[1..], name, limit - 1); }
  }

  lemma AsMapHolds(slots: seq<Slot>, name: Name)
    requires SlotsInv(slots)
    ensures name in AsMap(slots) <==> exists i :: 0 <= i < |slots| && Holds(slots[i], name)
    ensures forall i :: 0 <= i < |slots| && Holds(slots[i], name) ==> AsMap(slots)[name] == slots[i].sector
  {
    AsMapFinds(slots, name, |slots|);
  }

  /** A slot is taken or given up: exactly its own name is added or removed. */
  lemma Reassign(slots: seq<Slot>, i: nat, e: Slot)
    requires SlotsInv(slots) && i < |slots|
    requires if e.Used? then slots[i].Free? && ValidName(e.name) && e.name !in AsMap(slots) else slots[i].Used?
    ensures SlotsInv(slots[i := e])
    ensures AsMap(slots[i := e])
         == if e.Used? then AsMap(slots)[e.name := e.sector] else AsMap(slots) - {slots[i].name}
  {
    var slots' := slots[i := e];
    var m := if e.Used? then AsMap(slots)[e.name := e.sector] else AsMap(slots) - {slots[i].name};
    if e.Used? { AsMapHolds(slots, e.name); }
    assert SlotsInv(slots');
    forall n: Name
      ensures n in AsMap(slots') <==> n in m
      ensures n in m && n in AsMap(slots') ==> AsMap(slots')[n] == m[n]
    {
      ReassignAt(slots, i, e, n);
    }
  }

  lemma ReassignAt(slots: seq<Slot>, i: nat, e: Slot, n: Name)
    requires SlotsInv(slots) && i < |slots| && SlotsInv(slots[i := e]) && (slots[i].Free? || e.Free?)
    ensures Holds(e, n) ==> n in AsMap(slots[i := e]) && AsMap(slots[i := e])[n] == e.sector
    ensures Holds(slots[i], n) ==> n !in AsMap(slots[i := e])
    ensures !Holds(e, n) && !Holds(slots[i], n) ==>
      && (n in AsMap(slots[i := e]) <==> n in AsMap(slots))
      && (n in AsMap(slots) ==> AsMap(slots[i := e])[n] == AsMap(slots)[n])
  {
    var slots' := slots[i := e];
    AsMapHolds(slots, n);
    AsMapHolds(slots', n);
    if Holds(e, n) { assert Holds(slots'[i], n); }
    if j :| 0 <= j < |slots| && Holds(slots[j], n) && j != i { assert Holds(slots'[j], n); }
    if j :| 0 <= j < |slots| && Holds(slots'[j], n) && j != i { assert Holds(slots[j], n); }
  }

  // ----- what dir_add and dir_remove do to the map

  /** The read failures, if any, did no harm: no slot that lookup missed holds the name, and the slot to be written is
      free. */
  ghost predicate Harmless(slots: seq<Slot>, name: Name, f: Faults) {
    && (forall i :: f.lookup <= i < |slots| ==> !Holds(slots[i], name))
    && (FindFree(slots, f.scan) < |slots| ==> slots[FindFree(slots, f.scan)].Free?)
  }

  /** A dir_add that succeeds adds one name and changes no other, exactly when the read failures did no harm. */
  lemma AddExact(slots: seq<Slot>, name: Name, sector: nat, f: Faults)
    requires SlotsInv(slots)
    ensures AddAt(slots, name, f).None? ==> Added(slots, name, sector, f) == slots
    ensures AddAt(slots, name, f).Some? ==>
      var slots' := Added(slots, name, sector, f);
      && (Harmless(slots, name, f) <==> name !in AsMap(slots) && AsMap(slots') == AsMap(slots)[name := sector])
      && (Harmless(slots, name, f) ==> SlotsInv(slots'))
  {
    var i := AddAt(slots, name, f);
    if i.Some? {
      AsMapFinds(slots, name, |slots|);
      if slots[i.value].Free? && name !in AsMap(slots) {
        Reassign(slots, i.value, Used(name, sector));
      } else if slots[i.value].Used? && name !in AsMap(slots) {
        OverwriteLoses(slots, i.value, Used(name, sector));
      }
    }
  }

  /** A slot in use is overwritten with another name: the old name is gone. */
  lemma OverwriteLoses(slots: seq<Slot>, i: nat, e: Slot)
    requires SlotsInv(slots) && i < |slots| && slots[i].Used? && e.Used? && e.name !in AsMap(slots)
    ensures slots[i].name in AsMap(slots) && slots[i].name != e.name && slots[i].name !in AsMap(slots[i := e])
  {
    var n := slots[i].name;
    AsMapHolds(slots, n);
    AsMapFinds(slots[i := e], n, |slots|);
    assert Holds(slots[i], n);
  }

  /** The first read of the scan fails: the name in the first slot is lost. */
  lemma LostName()
    ensures Added([Used([97], 7), Free], [98], 9, Faults(2, 0, true)) == [Used([98], 9), Free]
  {
    assert FindFree([Used([97], 7), Free], 0) == 0;
  }

  /** The first read of lookup fails: the name is taken twice. */
  lemma TakenTwice()
    ensures Added([Used([97], 7), Free], [97], 9, Faults(0, 2, true)) == [Used([97], 7), Used([97], 9)]
  {
    var slots := [Used([97], 7), Free];
    assert slots[1..] == [Free];
    assert FindFree(slots, 2) == 1;
  }

  /** As many names as slots, and no more. */
  lemma {:induction false} Capacity(slots: seq<Slot>)
    requires SlotsInv(slots)
    ensures |AsMap(slots)| <= |slots|
    ensures |AsMap(slots)| < |slots| <==> exists i :: 0 <= i < |slots| && slots[i].Free?
  {
    if slots != [] {
      var rest := slots[1..];
      Capacity(rest);
      assert forall i :: 0 <= i < |rest| ==> rest[i] == slots[i + 1];
      if slots[0].Used? {
        AsMapHolds(rest, slots[0].name);
        assert slots[0].name !in AsMap(rest);
        MapGrows(AsMap(rest), slots[0].name, slots[0].sector);
      }
    }
  }

  lemma MapGrows(m: map<Name, nat>, n: Name, x: nat)
    requires n !in m
    ensures |m[n := x]| == |m| + 1
  {
    assert m[n := x].Keys == m.Keys + {n};
  }

  /** With memory to spare dir_add does what it says: it fails just for a bad name, a name in use or a full
      directory. */
  lemma AddFaultless(slots: seq<Slot>, name: Name, sector: nat, f: Faults)
    requires SlotsInv(slots) && f.lookup >= |slots| && f.scan >= |slots| && f.write
    ensures AddAt(slots, name, f).Some? <==> ValidName(name) && name !in AsMap(slots) && |AsMap(slots)| < |slots|
    ensures AddAt(slots, name, f).Some? ==> Harmless(slots, name, f)
  {
    Capacity(slots);
    AsMapFinds(slots, name, f.lookup);
  }

  /** dir_remove: the slot it frees, if it gets that far. */
  ghost function RemoveAt(slots: seq<Slot>, name: Name, limit: nat, memory: bool, write: bool): Option<nat> {
    if memory && write then Find(slots, name, limit) else None
  }

  ghost function Removed(slots: seq<Slot>, name: Name, limit: nat, memory: bool, write: bool): (r: seq<Slot>)
    ensures |r| == |slots|
  {
    var i := RemoveAt(slots, name, limit, memory, write);
    if i.None? then slots else slots[i.value := Free]
  }

  /** A dir_remove that succeeds removes that name and no other, however its reads fail; with memory to spare it fails
      just for a name not in use. */
  lemma RemoveExact(slots: seq<Slot>, name: Name, limit: nat, memory: bool, write: bool)
    requires SlotsInv(slots)
    ensures SlotsInv(Removed(slots, name, limit, memory, write))
    ensures AsMap(Removed(slots, name, limit, memory, write))
         == if RemoveAt(slots, name, limit, memory, write).Some? then AsMap(slots) - {name} else AsMap(slots)
    ensures RemoveAt(slots, name, limit, memory, write).Some? ==> name in AsMap(slots)
    ensures limit >= |slots| && memory && write ==>
      (RemoveAt(slots, name, limit, memory, write).Some? <==> name in AsMap(slots))
  {
    var i := RemoveAt(slots, name, limit, memory, write);
    AsMapFinds(slots, name, |slots|);
    if i.Some? { Reassign(slots, i.value, Free); }
  }

  // ----- runs

  datatype Op =
    | AddOp(name: Name, sector: nat, f: Faults)
    | RemoveOp(name: Name, limit: nat, memory: bool, write: bool)

  ghost function Step(slots: seq<Slot>, op: Op): (r: seq<Slot>)
    ensures |r| == |slots|
  {
    match op
    case AddOp(name, sector, f) => Added(slots, name, sector, f)
    case RemoveOp(name, limit, memory, write) => Removed(slots, name, limit, memory, write)
  }

  ghost function AfterOps(slots: seq<Slot>, ops: seq<Op>): seq<Slot> {
    if ops == [] then slots else Step(AfterOps(slots, ops[..|ops| - 1]), ops[|ops| - 1])
  }

  /** What a directory of n slots is for. */
  ghost function MapStep(m: map<Name, nat>, n: nat, op: Op): map<Name, nat> {
    match op
    case AddOp(name, sector, _) => if ValidName(name) && name !in m && |m| < n then m[name := sector] else m
    case RemoveOp(name, _, _, _) => m - {name}
  }

  ghost function MapAfter(m: map<Name, nat>, n: nat, ops: seq<Op>): map<Name, nat> {
    if ops == [] then m else MapStep(MapAfter(m, n, ops[..|ops| - 1]), n, ops[|ops| - 1])
  }

  ghost predicate Faultless(op: Op, n: nat) {
    match op
    case AddOp(_, _, f) => f.lookup >= n && f.scan >= n && f.write
    case RemoveOp(_, limit, memory, write) => limit >= n && memory && write
  }

  lemma StepIsMap(slots: seq<Slot>, op: Op)
    requires SlotsInv(slots) && Faultless(op, |slots|)
    ensures SlotsInv(Step(slots, op)) && AsMap(Step(slots, op)) == MapStep(AsMap(slots), |slots|, op)
  {
    match op
    case AddOp(name, sector, f) =>
      AddExact(slots, name, sector, f);
      AddFaultless(slots, name, sector, f);
    case RemoveOp(name, limit, memory, write) =>
      RemoveExact(slots, name, limit, memory, write);
  }

  /** Over every run of dir_add and dir_remove with memory to spare, the slots stand for the map of a directory. */
  lemma {:induction false} OpsAreMap(slots: seq<Slot>, ops: seq<Op>)
    requires SlotsInv(slots) && forall i :: 0 <= i < |ops| ==> Faultless(ops[i], |slots|)
    ensures |AfterOps(slots, ops)| == |slots| && SlotsInv(AfterOps(slots, ops))
    ensures AsMap(AfterOps(slots, ops)) == MapAfter(AsMap(slots), |slots|, ops)
  {
    if ops != [] {
      OpsAreMap(slots, ops[..|ops| - 1]);
      StepIsMap(AfterOps(slots, ops[..|ops| - 1]), ops[|ops| - 1]);
    }
  }

  /** A directory fresh from dir_create, whose bytes are all zero, stands for the empty map. */
  lemma ZeroFilled(file: seq<Byte>)
    requires forall i :: 0 <= i < |file| ==> file[i] == 0
    ensures var slots := SlotsOf(Slots(file)); SlotsInv(slots) && AsMap(slots) == map[]
  {
    var slots := SlotsOf(Slots(file));
    forall i | 0 <= i < |slots|
      ensures slots[i].Free?
    {
      assert SlotAt(file, i) == Slots(file)[i];
    }
    AllFree(slots);
  }

  lemma {:induction false} AllFree(slots: seq<Slot>)
    requires forall i :: 0 <= i < |slots| ==> slots[i].Free?
    ensures AsMap(slots) == map[]
  {
    if slots != [] { AllFree(slots[1..]); }
  }

  lemma PatchInside(disk: seq<Byte>, base: nat, length: nat, at: nat, p: seq<Byte>)
    requires base + length <= |disk| && at + |p| <= length
    ensures Patched(disk, base + at, p)[base..base + length] == Patched(disk[base..base + length], at, p)
  {
    var x, y := Patched(disk, base + at, p)[base..base + length], Patched(disk[base..base + length], at, p);
    forall i | 0 <= i < length
      ensures x[i] == y[i]
    {
      assert x[i] == Patched(disk, base + at, p)[base + i];
    }
  }

  /** The names in use in the first n slots. */
  ghost function NamesTo(slots: seq<Slot>, n: nat): seq<Name>
    requires n <= |slots|
  {
    if n == 0 then []
    else if slots[n - 1].Used? then NamesTo(slots, n - 1) + [slots[n - 1].name]
    else NamesTo(slots, n - 1)
  }

  lemma {:induction false} NamesToHold(slots: seq<Slot>, n: nat)
    requires SlotsInv(slots) && n <= |slots|
    ensures forall name :: name in NamesTo(slots, n) <==> exists i :: 0 <= i < n && Holds(slots[i], name)
    ensures Distinct(NamesTo(slots, n))
  {
    if n > 0 {
      NamesToHold(slots, n - 1);
      if slots[n - 1].Used? {
        var name := slots[n - 1].name;
        assert Holds(slots[n - 1], name);
        assert name !in NamesTo(slots, n - 1);
      }
    }
  }

  /** A directory listing has every name of the map exactly once. */
  lemma ListingIsMap(slots: seq<Slot>)
    requires SlotsInv(slots)
    ensures Distinct(NamesTo(slots, |slots|)) && Elements(NamesTo(slots, |slots|)) == AsMap(slots).Keys
  {
    NamesToHold(slots, |slots|);
    forall n: Name
      ensures n in NamesTo(slots, |slots|) <==> n in AsMap(slots)
    {
      AsMapHolds(slots, n);
    }
  }

  class Dir {
    const inode: Inode
    /** Where dir_readdir goes on, counted in slots. */
    var pos: nat

    constructor (inode: Inode)
      ensures this.inode == inode && pos == 0
    {
      this.inode, pos := inode, 0;
    }

    ghost function Table(): seq<Entry>
      requires inode.Valid()
      reads inode.disk.sectors
    {
      Slots(inode.Bytes())
    }

    /** What the directory's bytes stand for. */
    ghost function Contents(): seq<Slot>
      requires inode.Valid()
      reads inode.disk.sectors
    {
      SlotsOf(Table())
    }

    /** inode_read_at of one entry, which needs a bounce buffer; short at the end of the directory, too. */
    method ReadSlot(i: nat, buffered: bool) returns (e: Option<Entry>)
      requires inode.Valid()
      ensures e == if i < |Table()| && buffered then Some(Table()[i]) else None
    {
      var buffer := inode.ReadAt(ENTRY_SIZE, ENTRY_SIZE * i, buffered);
      if |buffer| == ENTRY_SIZE {
        assert buffer == inode.Bytes()[ENTRY_SIZE * i..ENTRY_SIZE * i + ENTRY_SIZE];
        e := Some(Decode(buffer));
      } else {
        e := None;
      }
    }

    /** inode_write_at of one entry.  It comes up short past the last slot, without a bounce buffer, and while writes
        are denied. */
    method WriteSlot(i: nat, e: Entry, buffered: bool) returns (ok: bool)
      requires inode.Valid() && i <= |Table()| && e.sector < 0x1_0000_0000 && |e.field| == NAME_MAX + 1
      modifies inode.disk.sectors
      ensures ok == (i < old(|Table()|) && buffered && inode.denyWriteCnt == 0)
      ensures Table() == if ok then old(Table())[i := e] else old(Table())
    {
      var b := Encode(e);
      ghost var file := inode.Bytes();
      ReachOfSlot(inode.length, i, buffered);
      var n := inode.WriteAt(b, ENTRY_SIZE, ENTRY_SIZE * i, buffered);
      ok := n == ENTRY_SIZE;
      PatchInside(old(inode.disk.Bytes()), inode.Base(), inode.length, ENTRY_SIZE * i, b[..n]);
      SlotWritten(file, i, e, n);
    }

    /** Reads fail from the limit on. */
    method Lookup(name: Name, limit: nat) returns (r: Option<(Entry, nat)>)
      requires inode.Valid() && 0 !in name
      ensures var i := Find(Contents(), name, limit);
        r == if i.Some? then Some((Table()[i.value], i.value)) else None
    {
      ghost var slots := Contents();
      var i := 0;
      var e := ReadSlot(i, i < limit);
      while e.Some?
        invariant i <= |slots| && i <= limit && e == if i < |slots| && i < limit then Some(Table()[i]) else None
        invariant forall j :: 0 <= j < i ==> !Holds(slots[j], name)
        decreases |slots| - i
      {
        if e.value.inUse && CString(e.value.field) == name {
          FindIs(slots, name, limit, i);
          return Some((e.value, i));
        }
        i := i + 1;
        e := ReadSlot(i, i < limit);
      }
      FindIs(slots, name, limit, i);
      return None;
    }

    /** Where the scan of dir_add ends, and what e holds by then. */
    method FreeSlot(e0: Entry, limit: nat) returns (i: nat, e: Entry)
      requires inode.Valid() && |e0.field| == NAME_MAX + 1
      ensures i == FindFree(Contents(), limit) && |e.field| == NAME_MAX + 1
    {
      i, e := 0, e0;
      var next := ReadSlot(i, i < limit);
      while next.Some? && next.value.inUse
        invariant i <= |Table()| && i <= limit
        invariant next == if i < |Table()| && i < limit then Some(Table()[i]) else None
        invariant forall j :: 0 <= j < i ==> Contents()[j].Used?
        invariant |e.field| == NAME_MAX + 1
        decreases |Table()| - i
      {
        e := next.value;
        i := i + 1;
        next := ReadSlot(i, i < limit);
      }
      if next.Some? {
        e := next.value;
      }
      FindFreeIs(Contents(), limit, i);
    }

    /** What becomes of the faults of a call when writes to the directory are denied. */
    ghost function Met(f: Faults): Faults
      reads this, inode
    {
      f.(write := f.write && inode.denyWriteCnt == 0)
    }

    /** stack is whatever the local entry held before it was first read into. */
    method Add(name: Name, sector: nat, stack: Entry, f: Faults) returns (ok: bool)
      requires inode.Valid() && 0 !in name && sector < 0x1_0000_0000 && |stack.field| == NAME_MAX + 1
      modifies inode.disk.sectors
      ensures ok <==> AddAt(old(Contents()), name, Met(f)).Some?
      ensures Contents() == Added(old(Contents()), name, sector, Met(f))
    {
      if name == [] || |name| > NAME_MAX {
        return false;
      }
      var found := Lookup(name, f.lookup);
      if found.Some? {
        return false;
      }
      var i, e := FreeSlot(stack, f.scan);
      CStringOf(name, e.field[|name| + 1..]);
      var e' := Entry(sector, CopyName(e.field, name), true);
      ok := WriteSlot(i, e', f.write);
      assert Contents() == if ok then old(Contents())[i := Used(name, sector)] else old(Contents());
    }

    /** The directory's side of dir_remove; memory says whether the file's inode could be opened, and r is its
        sector. */
    method Remove(name: Name, limit: nat, memory: bool, write: bool) returns (r: Option<nat>)
      requires inode.Valid() && 0 !in name
      modifies inode.disk.sectors
      ensures var i, slots := RemoveAt(old(Contents()), name, limit, memory, write && inode.denyWriteCnt == 0),
                              old(Contents());
        r == if i.Some? then Some(slots[i.value].sector) else None
      ensures Contents() == Removed(old(Contents()), name, limit, memory, write && inode.denyWriteCnt == 0)
    {
      var found := Lookup(name, limit);
      if found.None? || !memory {
        return None;
      }
      var (e, i) := found.value;
      var ok := WriteSlot(i, e.(inUse := false), write);
      assert Contents() == if ok then old(Contents())[i := Free] else old(Contents());
      r := if ok then Some(e.sector) else None;
    }

    /** One entry as what it stands for. */
    method PeekSlot(i: nat, buffered: bool, ghost slots: seq<Slot>) returns (e: Option<Slot>)
      requires inode.Valid() && slots == Contents()
      ensures e == if i < |slots| && buffered then Some(slots[i]) else None
    {
      var entry := ReadSlot(i, buffered);
      e := if entry.Some? then Some(SlotOf(entry.value)) else None;
    }

    /** The loop of dir_readdir, from slot at on: the next name in use, and how many more reads will succeed. */
    method NextName(at: nat, limit: nat, ghost slots: seq<Slot>) returns (name: Option<Name>, next: nat, left: nat)
      requires inode.Valid() && slots == Contents() && at <= |slots|
      ensures at <= next <= |slots| && (name.Some? ==> at < next) && left + next == limit + at
      ensures name.None? ==> next == |slots| || left == 0
      ensures NamesTo(slots, next) == NamesTo(slots, at) + if name.Some? then [name.value] else []
    {
      next, left := at, limit;
      var e := PeekSlot(next, left > 0, slots);
      while e.Some?
        invariant at <= next <= |slots| && left + next == limit + at
        invariant e == if next < |slots| && left > 0 then Some(slots[next]) else None
        invariant NamesTo(slots, next) == NamesTo(slots, at)
        decreases |slots| - next
      {
        next, left := next + 1, left - 1;
        if e.value.Used? {
          return Some(e.value.name), next, left;
        }
        e := PeekSlot(next, left > 0, slots);
      }
      return None, next, left;
    }

    /** A failed read ends the listing early. */
    method ReadDir(limit: nat) returns (name: Option<Name>, left: nat)
      requires inode.Valid() && pos <= |Contents()|
      modifies this
      ensures old(pos) <= pos <= |Contents()| && (name.Some? ==> old(pos) < pos) && left + pos == limit + old(pos)
      ensures name.None? ==> pos == |Contents()| || left == 0
      ensures NamesTo(Contents(), pos) == NamesTo(Contents(), old(pos)) + if name.Some? then [name.value] else []
    {
      name, pos, left := NextName(pos, limit, Contents());
    }

    method Run(ops: seq<Op>, stack: Entry)
      requires inode.Valid() && inode.denyWriteCnt == 0 && |stack.field| == NAME_MAX + 1
      requires forall i :: 0 <= i < |ops| ==> 0 !in ops[i].name && (ops[i].AddOp? ==> ops[i].sector < 0x1_0000_0000)
      modifies inode.disk.sectors
      ensures Contents() == AfterOps(old(Contents()), ops)
    {
      var k := 0;
      while k < |ops|
        invariant 0 <= k <= |ops| && Contents() == AfterOps(old(Contents()), ops[..k])
      {
        match ops[k] {
          case AddOp(name, sector, f) =>
            var _ := Add(name, sector, stack, f);
          case RemoveOp(name, limit, memory, write) =>
            var _ := Remove(name, limit, memory, write);
        }
        k := k + 1;
        assert ops[..k][..k - 1] == ops[..k - 1];
      }
      assert ops[..k] == ops;
    }
  }

  /** Reading an unmodified directory lists its names in order up to where a read fails; with memory to spare, every
      name exactly once. */
  method ListAll(dir: Dir, limit: nat) returns (names: seq<Name>)
    requires dir.inode.Valid() && dir.pos == 0
    modifies dir
    ensures dir.pos <= |dir.Contents()| && names == NamesTo(dir.Contents(), dir.pos)
    ensures limit > |dir.Contents()| && SlotsInv(dir.Contents()) ==>
      Distinct(names) && Elements(names) == AsMap(dir.Contents()).Keys
  {
    ghost var slots := dir.Contents();
    names := [];
    var name, left: nat := dir.ReadDir(limit);
    while name.Some?
      invariant dir.pos <= |slots| && left + dir.pos == limit && (name.None? ==> dir.pos == |slots| || left == 0)
      invariant NamesTo(slots, dir.pos) == if name.Some? then names + [name.value] else names
      decreases |slots| - dir.pos, name.Some?
    {
      names := names + [name.value];
      name, left := dir.ReadDir(left);
    }
    if SlotsInv(slots) { ListingIsMap(slots); }
  }
}
