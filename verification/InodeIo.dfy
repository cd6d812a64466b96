/** filesys/inode.c, reading and writing: sector transfers that act on a file as on a flat array of bytes. */
module InodeIo {

  const SECTOR_SIZE := 512

  type Byte = x: int | 0 <= x < 256

  type Sector = s: seq<Byte> | |s| == 512 witness seq(512, _ => 0)

  /** All the bytes of a disk, one after the other. */
  ghost function Raw(disk: seq<Sector>): (r: seq<Byte>)
    ensures |r| == SECTOR_SIZE * |disk|
  {
    seq(SECTOR_SIZE * |disk|, a requires 0 <= a < SECTOR_SIZE * |disk| => disk[a / SECTOR_SIZE][a % SECTOR_SIZE])
  }

  /** s with the bytes from position at on replaced by p. */
  ghost function Patched(s: seq<Byte>, at: nat, p: seq<Byte>): (r: seq<Byte>)
    ensures |r| == |s|
  {
    seq(|s|, a requires 0 <= a < |s| => if at <= a < at + |p| then p[a - at] else s[a])
  }

  function BytesToSectors(length: nat): nat {
    (length + SECTOR_SIZE - 1) / SECTOR_SIZE
  }

  /** How far a transfer of size bytes at offset gets: to the end of the file, or, when there is no memory for the
      bounce buffer, to the first sector that is not transferred whole. */
  function Reach(length: nat, size: int, offset: nat, bounceOk: bool): (k: nat)
    ensures k <= size || k == 0
    ensures offset + k <= length || k == 0
  {
    var left := length - offset;
    var k := if size <= 0 || left <= 0 then 0 else if size < left then size else left;
    if bounceOk then k else if offset % SECTOR_SIZE == 0 then k - k % SECTOR_SIZE else 0
  }

  /** How much of the current sector to transfer; not positive at the end of the file. */
  function Chunk(length: nat, size: int, offset: nat): int {
    var inodeLeft, sectorLeft := length - offset, SECTOR_SIZE - offset % SECTOR_SIZE;
    var minLeft := if inodeLeft < sectorLeft then inodeLeft else sectorLeft;
    if size < minLeft then size else minLeft
  }

  predicate Whole(offset: nat, chunk: int) {
    offset % SECTOR_SIZE == 0 && chunk == SECTOR_SIZE
  }

  /** n bytes of a transfer are done. */
  ghost predicate Under(length: nat, size: int, offset: nat, n: nat, bounceOk: bool) {
    && (n > 0 ==> n <= size && offset + n <= length)
    && (!bounceOk ==> n % SECTOR_SIZE == 0 && (n > 0 ==> offset % SECTOR_SIZE == 0))
  }

  lemma ChunkStep(length: nat, size: int, offset: nat, n: nat, chunk: nat, bounceOk: bool)
    requires Under(length, size, offset, n, bounceOk) && chunk == Chunk(length, size - n, offset + n) > 0
    ensures (offset + n) % SECTOR_SIZE + chunk <= SECTOR_SIZE && offset + n + chunk <= length
    ensures bounceOk || Whole(offset + n, chunk) ==> Under(length, size, offset, n + chunk, bounceOk)
    ensures !bounceOk && !Whole(offset + n, chunk) ==> n == Reach(length, size, offset, bounceOk)
  {
    if !bounceOk && Whole(offset + n, chunk) {
      assert (n + chunk) % SECTOR_SIZE == 0;
    }
  }

  lemma ChunkEnd(length: nat, size: int, offset: nat, n: nat, bounceOk: bool)
    requires Under(length, size, offset, n, bounceOk) && (n >= size || Chunk(length, size - n, offset + n) <= 0)
    ensures n == Reach(length, size, offset, bounceOk)
  {
  }

  /** How much to transfer next, and whether there is a bounce buffer by then; 0 ends the transfer. */
  method NextChunk(length: nat, size: int, offset: nat, n: nat, bounce: bool, bounceOk: bool)
    returns (chunk: nat, bounce': bool)
    requires Under(length, size, offset, n, bounceOk) && n < size && (bounce ==> bounceOk)
    ensures chunk == 0 ==> n == Reach(length, size, offset, bounceOk)
    ensures chunk > 0 ==>
      && (offset + n) % SECTOR_SIZE + chunk <= SECTOR_SIZE && offset + n + chunk <= length && n + chunk <= size
      && Under(length, size, offset, n + chunk, bounceOk)
    ensures bounce' ==> bounceOk
  {
    var c := Chunk(length, size - n, offset + n);
    if c <= 0 {
      ChunkEnd(length, size, offset, n, bounceOk);
      return 0, bounce;
    }
    ChunkStep(length, size, offset, n, c, bounceOk);
    if !Whole(offset + n, c) && !bounce {
      if !bounceOk {
        return 0, false;
      }
      return c, true;
    }
    return c, bounce;
  }

  /** n bytes of s from position at on. */
  ghost function Part(s: seq<Byte>, at: nat, n: nat): seq<Byte> {
    if n == 0 || at + n > |s| then [] else s[at..at + n]
  }

  lemma PartMore(s: seq<Byte>, at: nat, n: nat, m: nat)
    requires at + n + m <= |s|
    ensures Part(s, at, n) + Part(s, at + n, m) == Part(s, at, n + m)
  {
  }

  lemma ChunkOfRaw(disk: seq<Sector>, start: nat, offset: nat, n: nat)
    requires offset % SECTOR_SIZE + n <= SECTOR_SIZE && start + offset / SECTOR_SIZE < |disk|
    ensures start * SECTOR_SIZE + offset + n <= SECTOR_SIZE * |disk|
    ensures Part(Raw(disk), start * SECTOR_SIZE + offset, n)
         == disk[start + offset / SECTOR_SIZE][offset % SECTOR_SIZE..offset % SECTOR_SIZE + n]
  {
    var a, sector, ofs := start * SECTOR_SIZE + offset, start + offset / SECTOR_SIZE, offset % SECTOR_SIZE;
    forall i | ofs <= i < ofs + n
      ensures Raw(disk)[a + (i - ofs)] == disk[sector][i]
    {
      assert (a + (i - ofs)) / SECTOR_SIZE == sector && (a + (i - ofs)) % SECTOR_SIZE == i;
    }
  }

  /** Writing part of one sector writes just those bytes of the disk. */
  lemma ChunkIntoRaw(disk: seq<Sector>, start: nat, offset: nat, p: seq<Byte>, sector: Sector)
    requires offset % SECTOR_SIZE + |p| <= SECTOR_SIZE && start + offset / SECTOR_SIZE < |disk|
    requires sector == Patched(disk[start + offset / SECTOR_SIZE], offset % SECTOR_SIZE, p)
    ensures start * SECTOR_SIZE + offset + |p| <= SECTOR_SIZE * |disk|
    ensures Raw(disk[start + offset / SECTOR_SIZE := sector]) == Patched(Raw(disk), start * SECTOR_SIZE + offset, p)
  {
    var at, i, ofs := start * SECTOR_SIZE + offset, start + offset / SECTOR_SIZE, offset % SECTOR_SIZE;
    assert at == SECTOR_SIZE * i + ofs;
    var disk' := disk[i := sector];
    forall a | 0 <= a < SECTOR_SIZE * |disk|
      ensures Raw(disk')[a] == Patched(Raw(disk), at, p)[a]
    {
      assert a == SECTOR_SIZE * (a / SECTOR_SIZE) + a % SECTOR_SIZE;
    }
  }

  lemma PatchMore(s: seq<Byte>, at: nat, p: seq<Byte>, n: nat, m: nat)
    requires n + m <= |p|
    ensures Patched(Patched(s, at, p[..n]), at + n, p[n..n + m]) == Patched(s, at, p[..n + m])
  {
  }

  lemma PartOfPart(s: seq<Byte>, lo: nat, n: nat, at: nat, m: nat)
    requires lo + n <= |s| && at + m <= n
    ensures Part(s[lo..lo + n], at, m) == Part(s, lo + at, m)
  {
    var inner := s[lo..lo + n];
    var x, y := inner[at..at + m], s[lo + at..lo + at + m];
    forall i | 0 <= i < m
      ensures x[i] == y[i]
    {
      assert x[i] == inner[at + i];
    }
  }

  class Disk {
    const sectors: array<Sector>

    constructor (size: nat)
      ensures fresh(sectors) && sectors.Length == size
    {
      sectors := new Sector[size](_ => seq(512, _ => 0));
    }

    ghost function Bytes(): seq<Byte>
      reads sectors
    {
      Raw(sectors[..])
    }
  }

  class Inode {
    const disk: Disk
    const start: nat
    const length: nat
    var denyWriteCnt: nat

    /** The data sectors lie on the disk. */
    predicate Valid() {
      start + BytesToSectors(length) <= disk.sectors.Length
    }

    constructor (disk: Disk, start: nat, length: nat)
      requires start + BytesToSectors(length) <= disk.sectors.Length
      ensures Valid() && this.disk == disk && this.start == start && this.length == length && denyWriteCnt == 0
    {
      this.disk, this.start, this.length, denyWriteCnt := disk, start, length, 0;
    }

    ghost function Base(): nat {
      start * SECTOR_SIZE
    }

    /** The file as a flat array of bytes. */
    ghost function Bytes(): (s: seq<Byte>)
      requires Valid()
      reads disk.sectors
      ensures |s| == length
    {
      disk.Bytes()[Base()..Base() + length]
    }

    method ReadAt(size: int, offset: nat, bounceOk: bool) returns (buffer: seq<Byte>)
      requires Valid()
      ensures |buffer| == Reach(length, size, offset, bounceOk)
      ensures buffer == Part(Bytes(), offset, |buffer|)
    {
      buffer := [];
      var bounce := false;
      var n := 0;
      while n < size
        invariant Under(length, size, offset, n, bounceOk) && (bounce ==> bounceOk)
        invariant |buffer| == n && buffer == Part(Bytes(), offset, n)
      {
        var chunk;
        chunk, bounce := NextChunk(length, size, offset, n, bounce, bounceOk);
        if chunk == 0 {
          return;
        }
        var part := ReadChunk(offset + n, chunk);
        PartMore(Bytes(), offset, n, chunk);
        buffer := buffer + part;
        n := n + chunk;
      }
      ChunkEnd(length, size, offset, n, bounceOk);
    }

    /** One turn of the loop: a whole sector is read directly, part of one by way of the bounce buffer. */
    method ReadChunk(offset: nat, n: nat) returns (part: seq<Byte>)
      requires Valid() && n > 0 && offset + n <= length && offset % SECTOR_SIZE + n <= SECTOR_SIZE
      ensures |part| == n && part == Part(Bytes(), offset, n)
    {
      var sector, ofs := start + offset / SECTOR_SIZE, offset % SECTOR_SIZE;
      ChunkOfRaw(disk.sectors[..], start, offset, n);
      PartOfPart(disk.Bytes(), Base(), length, offset, n);
      if Whole(offset, n) {
        part := disk.sectors[sector];
      } else {
        var bounce := disk.sectors[sector];
        part := bounce[ofs..ofs + n];
      }
    }

    method WriteAt(buffer: seq<Byte>, size: int, offset: nat, bounceOk: bool) returns (n: nat)
      requires Valid() && size <= |buffer|
      modifies disk.sectors
      ensures n == if denyWriteCnt > 0 then 0 else Reach(length, size, offset, bounceOk)
      ensures n <= |buffer|
      ensures disk.Bytes() == Patched(old(disk.Bytes()), Base() + offset, buffer[..n])
    {
      n := 0;
      ghost var was := disk.Bytes();
      assert was == Patched(was, Base() + offset, buffer[..0]);
      if denyWriteCnt > 0 {
        return;
      }
      var bounce := false;
      while n < size
        invariant n <= |buffer|
        invariant Under(length, size, offset, n, bounceOk) && (bounce ==> bounceOk)
        invariant disk.Bytes() == Patched(was, Base() + offset, buffer[..n])
      {
        var chunk;
        chunk, bounce := NextChunk(length, size, offset, n, bounce, bounceOk);
        if chunk == 0 {
          return;
        }
        WriteChunk(offset + n, buffer[n..n + chunk]);
        PatchMore(was, Base() + offset, buffer, n, chunk);
        n := n + chunk;
      }
      ChunkEnd(length, size, offset, n, bounceOk);
    }

    /** One turn of the loop: a whole sector is written directly, part of one by way of the bounce buffer.  The buffer
        never starts out as zeros: a chunk that fills its sector is written directly. */
    method WriteChunk(offset: nat, p: seq<Byte>)
      requires Valid() && |p| > 0 && offset + |p| <= length && offset % SECTOR_SIZE + |p| <= SECTOR_SIZE
      modifies disk.sectors
      ensures disk.Bytes() == Patched(old(disk.Bytes()), Base() + offset, p)
    {
      var sector, ofs := start + offset / SECTOR_SIZE, offset % SECTOR_SIZE;
      ghost var was := disk.sectors[..];
      ghost var patched := Patched(was[sector], ofs, p);
      ChunkIntoRaw(was, start, offset, p, patched);
      if Whole(offset, |p|) {
        assert p == patched;
        disk.sectors[sector] := p;
      } else {
        var bounce: Sector := seq(512, _ => 0);
        if ofs > 0 || |p| < SECTOR_SIZE - ofs {
          bounce := disk.sectors[sector];
        } else {
          assert false;
        }
        bounce := bounce[..ofs] + p + bounce[ofs + |p|..];
        assert bounce == patched;
        disk.sectors[sector] := bounce;
      }
      assert disk.sectors[..] == was[sector := patched];
    }
  }

  /** What a write put into a file is what a read of the same range gets, and any other file, whose sectors are
      elsewhere, reads as before. */
  lemma ReadBack(disk: seq<Byte>, base: nat, length: nat, offset: nat, p: seq<Byte>, base': nat, length': nat)
    requires base + length <= |disk| && offset + |p| <= length
    requires base' + length' <= |disk| && (base' + length' <= base || base + length <= base')
    ensures Part(Patched(disk, base + offset, p)[base..base + length], offset, |p|) == p
    ensures Patched(disk, base + offset, p)[base'..base' + length'] == disk[base'..base' + length']
  {
    var disk' := Patched(disk, base + offset, p);
    PartOfPart(disk', base, length, offset, |p|);
    assert disk'[base + offset..base + offset + |p|] == p;
  }
}
