/** file.c: open files, each of which may deny writes to its inode. */
module FileSysFiles {

  import opened Wrappers
  import opened Directory
  import opened FileSys
  import opened FileSysRuns

  /** struct file, without its position. */
  datatype File = File(sector: nat, deny: bool)

  /** The files that callers hold, by handle, and deny_write_cnt of each inode, by sector. */
  datatype Sys = Sys(fs: Fs, files: map<nat, File>, denied: map<nat, nat>)

  ghost function Handles(files: map<nat, File>, x: nat): set<nat> {
    set h | h in files && files[h].sector == x
  }

  ghost function Deniers(files: map<nat, File>, x: nat): set<nat> {
    set h | h in files && files[h] == File(x, true)
  }

  ghost function DenyCnt(denied: map<nat, nat>, x: nat): nat {
    if x in denied then denied[x] else 0
  }

  /** An inode is open once for each file that callers hold, and denies writes once for each of them that does. */
  ghost predicate Counted(t: Sys, x: nat) {
    && DenyCnt(t.denied, x) == |Deniers(t.files, x)|
    && (!System(x) ==> References(t.fs.open, x) == |Handles(t.files, x)|)
  }

  ghost predicate FilesInv(t: Sys) {
    && Inv(t.fs) && (forall x :: Counted(t, x)) && (forall h :: h in t.files ==> !System(t.files[h].sector))
  }

  lemma DeniersHandles(files: map<nat, File>, x: nat)
    ensures Deniers(files, x) <= Handles(files, x) && |Deniers(files, x)| <= |Handles(files, x)|
  {
    SubsetSize(Deniers(files, x), Handles(files, x));
  }

  lemma {:induction false} SubsetSize(a: set<nat>, b: set<nat>)
    requires a <= b
    ensures |a| <= |b|
  {
    if a != {} {
      var x :| x in a;
      SubsetSize(a - {x}, b - {x});
    }
  }

  // ----- the counts of inode_deny_write and inode_allow_write, whose assertions are their preconditions

  ghost function InodeDeny(t: Sys, x: nat): Sys
    requires DenyCnt(t.denied, x) + 1 <= References(t.fs.open, x)
  {
    t.(denied := t.denied[x := DenyCnt(t.denied, x) + 1])
  }

  ghost function InodeAllow(t: Sys, x: nat): Sys
    requires 0 < DenyCnt(t.denied, x) <= References(t.fs.open, x)
  {
    t.(denied := t.denied[x := DenyCnt(t.denied, x) - 1])
  }

  lemma HandlesAfter(files: map<nat, File>, h: nat, f: File, y: nat)
    requires h in files ==> files[h].sector == f.sector
    ensures Handles(files[h := f], y) == if y == f.sector then Handles(files, y) + {h} else Handles(files, y)
  {
  }

  lemma DeniersAfter(files: map<nat, File>, h: nat, f: File, y: nat)
    requires h in files ==> files[h].sector == f.sector
    ensures Deniers(files[h := f], y)
         == if y != f.sector then Deniers(files, y)
            else if f.deny then Deniers(files, y) + {h}
            else Deniers(files, y) - {h}
  {
  }

  lemma FileGone(files: map<nat, File>, h: nat, y: nat)
    requires h in files && !files[h].deny
    ensures |Handles(files - {h}, y)| == |Handles(files, y)| - if y == files[h].sector then 1 else 0
    ensures |Deniers(files - {h}, y)| == |Deniers(files, y)|
  {
    assert Handles(files - {h}, y) == Handles(files, y) - {h};
    assert Deniers(files - {h}, y) == Deniers(files, y);
  }

  /** file_deny_write */
  ghost function DenyWrite(t: Sys, h: nat): (t': Sys)
    requires FilesInv(t) && h in t.files
    ensures FilesInv(t') && t'.fs == t.fs && t'.files == t.files[h := t.files[h].(deny := true)]
  {
    var f := t.files[h];
    if f.deny then
      assert t.files[h := f] == t.files;
      t
    else
      MayDeny(t, h);
      DenyCounts(t, h, true);
      assert InodeDeny(t.(files := t.files[h := f.(deny := true)]), f.sector) == Denying(t, h, true);
      InodeDeny(t.(files := t.files[h := f.(deny := true)]), f.sector)
  }

  /** file_allow_write */
  ghost function AllowWrite(t: Sys, h: nat): (t': Sys)
    requires FilesInv(t) && h in t.files
    ensures FilesInv(t') && t'.fs == t.fs && t'.files == t.files[h := t.files[h].(deny := false)]
  {
    var f := t.files[h];
    if !f.deny then
      assert t.files[h := f] == t.files;
      t
    else
      MayAllow(t, h);
      DenyCounts(t, h, false);
      assert InodeAllow(t.(files := t.files[h := f.(deny := false)]), f.sector) == Denying(t, h, false);
      InodeAllow(t.(files := t.files[h := f.(deny := false)]), f.sector)
  }

  /** The assertion in inode_deny_write never fires: not all the openers of the inode deny writes yet. */
  lemma MayDeny(t: Sys, h: nat)
    requires FilesInv(t) && h in t.files && !t.files[h].deny
    ensures DenyCnt(t.denied, t.files[h].sector) + 1 <= References(t.fs.open, t.files[h].sector)
  {
    var x := t.files[h].sector;
    assert Counted(t, x);
    SubsetSize(Deniers(t.files, x) + {h}, Handles(t.files, x));
  }

  /** Nor do those in inode_allow_write. */
  lemma MayAllow(t: Sys, h: nat)
    requires FilesInv(t) && h in t.files && t.files[h].deny
    ensures 0 < DenyCnt(t.denied, t.files[h].sector) <= References(t.fs.open, t.files[h].sector)
  {
    var x := t.files[h].sector;
    assert Counted(t, x) && h in Deniers(t.files, x);
    DeniersHandles(t.files, x);
  }

  /** File h of inode x denies writes from now on, or no longer. */
  ghost function Denying(t: Sys, h: nat, deny: bool): Sys
    requires h in t.files && (deny || DenyCnt(t.denied, t.files[h].sector) > 0)
  {
    var f := t.files[h];
    var n := DenyCnt(t.denied, f.sector);
    t.(files := t.files[h := f.(deny := deny)], denied := t.denied[f.sector := if deny then n + 1 else n - 1])
  }

  lemma DenyCounts(t: Sys, h: nat, deny: bool)
    requires FilesInv(t) && h in t.files && t.files[h].deny != deny
    requires deny || DenyCnt(t.denied, t.files[h].sector) > 0
    ensures FilesInv(Denying(t, h, deny))
  {
    forall y: nat ensures Counted(Denying(t, h, deny), y) { StillCounted(t, h, deny, y); }
  }

  lemma StillCounted(t: Sys, h: nat, deny: bool, y: nat)
    requires Counted(t, y) && h in t.files && t.files[h].deny != deny
    requires deny || DenyCnt(t.denied, t.files[h].sector) > 0
    ensures Counted(Denying(t, h, deny), y)
  {
    DenyCountsAt(t.files, h, deny, y);
  }

  lemma DenyCountsAt(files: map<nat, File>, h: nat, deny: bool, y: nat)
    requires h in files && files[h].deny != deny
    ensures var files' := files[h := files[h].(deny := deny)];
      && |Handles(files', y)| == |Handles(files, y)|
      && |Deniers(files', y)| == |Deniers(files, y)| + if y != files[h].sector then 0 else if deny then 1 else -1
  {
    var f := files[h].(deny := deny);
    HandlesAfter(files, h, f, y);
    DeniersAfter(files, h, f, y);
    if y == f.sector {
      assert h in Handles(files, y) && Handles(files, y) + {h} == Handles(files, y);
      assert h in Deniers(files, y) <==> !deny;
    }
  }

  // ----- opening and closing

  lemma FileAdded(files: map<nat, File>, h: nat, x: nat, y: nat)
    requires h !in files
    ensures |Handles(files[h := File(x, false)], y)| == |Handles(files, y)| + if y == x then 1 else 0
    ensures Deniers(files[h := File(x, false)], y) == Deniers(files, y)
  {
    HandlesAfter(files, h, File(x, false), y);
    DeniersAfter(files, h, File(x, false), y);
    assert h !in Handles(files, y) && Deniers(files, y) - {h} == Deniers(files, y);
  }

  /** The file system calls a caller makes; h is the handle that a successful open returns. */
  datatype Call =
    | CCreate(name: Name, length: nat, luck: Luck)
    | COpen(h: nat, name: Name, root: bool, limit: nat, memory: bool, handle: bool)
    | CReopen(h: nat, of: nat, handle: bool)
    | CRemove(name: Name, root: bool, limit: nat, memory: bool, write: bool)
    | CClose(h: nat)
    | CDeny(h: nat)
    | CAllow(h: nat)

  /** Callers use handles they hold, and memory in use is not handed out again. */
  ghost predicate Legal(t: Sys, c: Call) {
    match c
    case CCreate(_, _, _) => true
    case COpen(h, _, _, _, _, _) => h !in t.files
    case CReopen(h, of, _) => h !in t.files && of in t.files
    case CRemove(_, _, _, _, _) => true
    case CClose(h) => h in t.files
    case CDeny(h) => h in t.files
    case CAllow(h) => h in t.files
  }

  /** A file that a caller holds is open. */
  lemma HeldIsOpen(t: Sys, h: nat)
    requires FilesInv(t) && h in t.files
    ensures t.files[h].sector in OpenSectors(t.fs.open) && !System(t.files[h].sector)
  {
    var x := t.files[h].sector;
    assert Counted(t, x) && h in Handles(t.files, x);
    OpenAtIs(t.fs.open, x);
  }

  /** How many openers of inode y more a step leaves. */
  ghost function Gain(s: Fs, s': Fs, y: nat): int {
    References(s'.open, y) - References(s.open, y)
  }

  /** Inode x, if given, has one opener more, and no other inode has more or fewer. */
  ghost predicate GainsOnly(s: Fs, s': Fs, x: Option<nat>) {
    forall y: nat :: Gain(s, s', y) == if x == Some(y) then 1 else 0
  }

  /** The file system took a step, and the callers' files changed as its openers did. */
  lemma StepCounts(t: Sys, s': Fs, files: map<nat, File>)
    requires FilesInv(t) && Inv(s') && (forall h :: h in files ==> !System(files[h].sector))
    requires forall y: nat :: Deniers(files, y) == Deniers(t.files, y)
    requires forall y: nat :: !System(y) ==> |Handles(files, y)| == |Handles(t.files, y)| + Gain(t.fs, s', y)
    ensures FilesInv(Sys(s', files, t.denied))
  {
    var t' := Sys(s', files, t.denied);
    forall y: nat
      ensures Counted(t', y)
    {
      assert Counted(t, y) && Deniers(files, y) == Deniers(t.files, y);
      assert !System(y) ==> |Handles(files, y)| == |Handles(t.files, y)| + Gain(t.fs, s', y);
    }
  }

  lemma NoGain(t: Sys, s': Fs)
    requires FilesInv(t) && Inv(s') && GainsOnly(t.fs, s', None)
    ensures FilesInv(t.(fs := s'))
  {
    forall y: nat ensures Gain(t.fs, s', y) == 0 {}
    StepCounts(t, s', t.files);
  }

  /** The caller gets a file for inode x. */
  lemma GainCounts(t: Sys, s': Fs, h: nat, x: nat)
    requires FilesInv(t) && Inv(s') && h !in t.files && !System(x) && GainsOnly(t.fs, s', Some(x))
    ensures FilesInv(Sys(s', t.files[h := File(x, false)], t.denied))
  {
    var files := t.files[h := File(x, false)];
    forall y: nat
      ensures Deniers(files, y) == Deniers(t.files, y)
      ensures |Handles(files, y)| == |Handles(t.files, y)| + Gain(t.fs, s', y)
    {
      FileAdded(t.files, h, x, y);
    }
    StepCounts(t, s', files);
  }

  /** Calls that give their caller nothing. */
  ghost function Plain(t: Sys, a: Action): (t': Sys)
    requires FilesInv(t) && (a.ACreate? || a.ARemove?)
    ensures FilesInv(t') && t' == t.(fs := Apply(t.fs, a))
  {
    PlainGains(t.fs, a, Apply(t.fs, a));
    NoGain(t, Apply(t.fs, a));
    t.(fs := Apply(t.fs, a))
  }

  lemma PlainGains(s: Fs, a: Action, s': Fs)
    requires Inv(s) && (a.ACreate? || a.ARemove?) && s' == Apply(s, a)
    ensures GainsOnly(s, s', None)
  {
    forall y: nat ensures Gain(s, s', y) == 0 { ReferencesStep(s, a, y); }
  }

  /** filesys_open */
  ghost function OpenFile(t: Sys, h: nat, name: Name, root: bool, limit: nat, memory: bool, handle: bool): (t': Sys)
    requires FilesInv(t) && h !in t.files
    ensures FilesInv(t') && t'.fs == Open(t.fs, name, root, limit, memory, handle).1
  {
    var (x, s') := Open(t.fs, name, root, limit, memory, handle);
    OpenGains(t.fs, name, root, limit, memory, handle, x, s');
    if x.None? then
      NoGain(t, s');
      t.(fs := s')
    else
      GainCounts(t, s', h, x.value);
      Sys(s', t.files[h := File(x.value, false)], t.denied)
  }

  lemma OpenGains(s: Fs, name: Name, root: bool, limit: nat, memory: bool, handle: bool, x: Option<nat>, s': Fs)
    requires Inv(s) && (x, s') == Open(s, name, root, limit, memory, handle)
    ensures GainsOnly(s, s', x)
  {
    forall y: nat ensures Gain(s, s', y) == if x == Some(y) then 1 else 0 {
      OpenOpens(s, name, root, limit, memory, handle, y);
    }
  }

  /** file_reopen */
  ghost function ReopenFile(t: Sys, h: nat, of: nat, handle: bool): (t': Sys)
    requires FilesInv(t) && h !in t.files && of in t.files
    ensures FilesInv(t')
  {
    var x := t.files[of].sector;
    HeldIsOpen(t, of);
    var s' := Reopen(t.fs, x, handle);
    ReopenGains(t.fs, x, handle, s');
    if handle then
      GainCounts(t, s', h, x);
      Sys(s', t.files[h := File(x, false)], t.denied)
    else
      NoGain(t, s');
      t.(fs := s')
  }

  lemma ReopenGains(s: Fs, x: nat, handle: bool, s': Fs)
    requires Inv(s) && x in OpenSectors(s.open) && !System(x) && s' == Reopen(s, x, handle)
    ensures GainsOnly(s, s', if handle then Some(x) else None)
  {
    forall y: nat ensures Gain(s, s', y) == if handle && y == x then 1 else 0 {
      ReferencesStep(s, AReopen(x, handle), y);
    }
  }

  /** file_close */
  ghost function CloseFile(t: Sys, h: nat): (t': Sys)
    requires FilesInv(t) && h in t.files
    ensures FilesInv(t')
  {
    var t1 := AllowWrite(t, h);
    HeldIsOpen(t1, h);
    var s' := CloseSector(t1.fs, t1.files[h].sector);
    CloseCounts(t1, h, s');
    Sys(s', t1.files - {h}, t1.denied)
  }

  lemma CloseCounts(t: Sys, h: nat, s': Fs)
    requires FilesInv(t) && h in t.files && !t.files[h].deny && t.files[h].sector in OpenSectors(t.fs.open)
    requires s' == CloseSector(t.fs, t.files[h].sector)
    ensures FilesInv(Sys(s', t.files - {h}, t.denied))
  {
    forall y: nat
      ensures Deniers(t.files - {h}, y) == Deniers(t.files, y)
      ensures |Handles(t.files - {h}, y)| == |Handles(t.files, y)| + Gain(t.fs, s', y)
    {
      ReferencesClose(t.fs, t.files[h].sector, y);
      FileGone(t.files, h, y);
    }
    StepCounts(t, s', t.files - {h});
  }

  /** A file's worth of what was opened by name. */
  lemma OpenGets(t: Sys, h: nat, name: Name, root: bool, limit: nat, memory: bool, handle: bool)
    requires FilesInv(t) && h !in t.files
    ensures var t', m := OpenFile(t, h, name, root, limit, memory, handle), AsMap(t.fs.slots);
      && (h !in t'.files ==> t'.files == t.files)
      && (h in t'.files ==> t'.files == t.files[h := File(t'.files[h].sector, false)]
                            && LeadsTo(t.fs.slots, name, limit, t'.files[h].sector))
      && (limit >= |t.fs.slots| && root && memory && handle ==>
            (h in t'.files <==> name in m) && (h in t'.files ==> t'.files[h].sector == m[name]))
  {
    OpenFinds(t.fs, name, root, limit, memory, handle);
  }

  // ----- runs

  ghost function Do(t: Sys, c: Call): (t': Sys)
    requires FilesInv(t) && Legal(t, c)
    ensures FilesInv(t')
  {
    match c
    case CCreate(name, length, luck) => Plain(t, ACreate(name, length, luck))
    case COpen(h, name, root, limit, memory, handle) => OpenFile(t, h, name, root, limit, memory, handle)
    case CReopen(h, of, handle) => ReopenFile(t, h, of, handle)
    case CRemove(name, root, limit, memory, write) => Plain(t, ARemove(name, root, limit, memory, write))
    case CClose(h) => CloseFile(t, h)
    case CDeny(h) => DenyWrite(t, h)
    case CAllow(h) => AllowWrite(t, h)
  }

  /** Which files callers hold after a call, and which of them deny writes: an open gives one for what the name leads
      to, a reopen one for the same inode, a close takes just that one away, and no other call changes any. */
  lemma FilesAfter(t: Sys, c: Call)
    requires FilesInv(t) && Legal(t, c)
    ensures var t' := Do(t, c);
      match c
      case CCreate(_, _, _) => t'.files == t.files
      case COpen(h, name, root, limit, _, _) =>
        if h !in t'.files then t'.files == t.files
        else t'.files == t.files[h := File(t'.files[h].sector, false)]
             && LeadsTo(t.fs.slots, name, limit, t'.files[h].sector)
      case CReopen(h, of, handle) =>
        t'.files == if handle then t.files[h := File(t.files[of].sector, false)] else t.files
      case CRemove(_, _, _, _, _) => t'.files == t.files
      case CClose(h) => t'.files == t.files - {h}
      case CDeny(h) => t'.files == t.files[h := t.files[h].(deny := true)]
      case CAllow(h) => t'.files == t.files[h := t.files[h].(deny := false)]
  {
    match c
    case CCreate(_, _, _) =>
    case COpen(h, name, root, limit, memory, handle) => OpenGets(t, h, name, root, limit, memory, handle);
    case CReopen(_, _, _) =>
    case CRemove(_, _, _, _, _) =>
    case CClose(h) =>
      var files := t.files[h := t.files[h].(deny := false)];
      assert files - {h} == t.files - {h};
    case CDeny(_) =>
    case CAllow(_) =>
  }

  /** Calls on handles have the effect on the file system that the calls of filesys.c have. */
  lemma FsAfter(t: Sys, c: Call)
    requires FilesInv(t) && Legal(t, c)
    ensures c.CCreate? ==> Do(t, c).fs == Create(t.fs, c.name, c.length, c.luck).1
    ensures c.COpen? ==> Do(t, c).fs == Open(t.fs, c.name, c.root, c.limit, c.memory, c.handle).1
    ensures c.CRemove? ==> Do(t, c).fs == Remove(t.fs, c.name, c.root, c.limit, c.memory, c.write).1
    ensures c.CDeny? || c.CAllow? ==> Do(t, c).fs == t.fs
  {
  }

  /** So an inode has one opener more for each file got, and one fewer for each given back. */
  lemma ReferencesAfter(t: Sys, c: Call, x: nat)
    requires FilesInv(t) && Legal(t, c) && !System(x)
    ensures References(Do(t, c).fs.open, x) == |Handles(Do(t, c).files, x)|
    ensures c.CClose? ==>
      References(Do(t, c).fs.open, x) == References(t.fs.open, x) - if t.files[c.h].sector == x then 1 else 0
    ensures c.CReopen? ==>
      References(Do(t, c).fs.open, x)
      == References(t.fs.open, x) + if c.handle && t.files[c.of].sector == x then 1 else 0
  {
    assert Counted(t, x) && Counted(Do(t, c), x);
    FilesAfter(t, c);
    if c.CClose? {
      assert Handles(t.files - {c.h}, x) == Handles(t.files, x) - {c.h};
    } else if c.CReopen? && c.handle {
      FileAdded(t.files, c.h, t.files[c.of].sector, x);
    }
  }

  ghost predicate Calls(t: Sys, calls: seq<Call>)
    requires FilesInv(t)
    decreases |calls|
  {
    calls == [] || (Legal(t, calls[0]) && Calls(Do(t, calls[0]), calls[1..]))
  }

  ghost function AfterCalls(t: Sys, calls: seq<Call>): (t': Sys)
    requires FilesInv(t) && Calls(t, calls)
    ensures FilesInv(t')
    decreases |calls|
  {
    if calls == [] then t else AfterCalls(Do(t, calls[0]), calls[1..])
  }

  /** A new file system, which nobody has a file of yet. */
  lemma FormatFiles(n: nat)
    requires n >= 2 && Format(n).Some?
    ensures FilesInv(Sys(Format(n).value, map[], map[]))
  {
    var t := Sys(Format(n).value, map[], map[]);
    FormatInv(n);
    forall x: nat
      ensures Counted(t, x)
    {
      assert Handles(t.files, x) == {} && Deniers(t.files, x) == {};
    }
  }

  /** After any calls, deny_write_cnt is at most open_cnt, and is zero exactly when no open file denies writes. */
  lemma DenyBound(t: Sys, calls: seq<Call>, x: nat)
    requires FilesInv(t) && Calls(t, calls) && !System(x)
    ensures var t' := AfterCalls(t, calls);
      && DenyCnt(t'.denied, x) <= References(t'.fs.open, x)
      && (DenyCnt(t'.denied, x) == 0 <==> forall h :: h in t'.files && t'.files[h].sector == x ==> !t'.files[h].deny)
  {
    var t' := AfterCalls(t, calls);
    assert Counted(t', x);
    DeniersHandles(t'.files, x);
    if DenyCnt(t'.denied, x) == 0 {
      assert forall h :: h in t'.files && t'.files[h] == File(x, true) ==> h in Deniers(t'.files, x);
    }
  }
}
