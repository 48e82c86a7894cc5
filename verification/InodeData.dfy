/** Reading and writing a file's bytes sector by sector: the data half of filesys/inode.c. */
module InodeData {

  type Byte = bv8
  const SECTOR: nat := 512
  const NO_SECTOR: nat := 0xFFFF_FFFF

  function Min(x: int, y: int): int { if x < y then x else y }

  /** `bytes_to_sectors` */
  function BytesToSectors(size: nat): nat { (size + SECTOR - 1) / SECTOR }

  /** It is the least number of sectors that holds size bytes. */
  lemma SectorsLeast(size: nat)
    ensures BytesToSectors(size) * SECTOR >= size && (size > 0 ==> (BytesToSectors(size) - 1) * SECTOR < size)
    ensures size == 0 ==> BytesToSectors(size) == 0
  { }

  ghost predicate Sectors(d: seq<seq<Byte>>) {
    forall s | 0 <= s < |d| :: |d[s]| == SECTOR
  }

  /** A file's sectors lie on the disk. */
  ghost predicate Extent(d: seq<seq<Byte>>, start: nat, length: nat) {
    Sectors(d) && start + BytesToSectors(length) <= |d|
  }

  /** The byte array a file is: its sectors in order, cut at its length. */
  function Data(d: seq<seq<Byte>>, start: nat, length: nat): (r: seq<Byte>)
    requires Extent(d, start, length)
    ensures |r| == length
  {
    seq(length, i requires 0 <= i < length => d[start + i / SECTOR][i % SECTOR])
  }

  /** The disk after bytes are stored from a position of a file on: everything else on it is the same. */
  function Written(d: seq<seq<Byte>>, start: nat, pos: nat, bytes: seq<Byte>): (r: seq<seq<Byte>>)
    requires Sectors(d)
    ensures |r| == |d| && Sectors(r)
  {
    seq(|d|, s requires 0 <= s < |d| => seq(SECTOR, o requires 0 <= o < SECTOR =>
      var at := (s - start) * SECTOR + o;
      if pos <= at < pos + |bytes| then bytes[at - pos] else d[s][o]))
  }

  /** Storing a range of a file replaces exactly that range of its byte array. */
  lemma DataWritten(d: seq<seq<Byte>>, start: nat, length: nat, pos: nat, bytes: seq<Byte>)
    requires Extent(d, start, length) && pos + |bytes| <= length
    ensures var f := Data(d, start, length);
            Data(Written(d, start, pos, bytes), start, length) == f[..pos] + bytes + f[pos + |bytes|..]
  { }

  /** What was stored is what is then read there, and every other range reads as before. */
  lemma ReadAfterWrite(d: seq<seq<Byte>>, start: nat, length: nat, pos: nat, bytes: seq<Byte>, from: nat, n: nat)
    requires Extent(d, start, length) && pos + |bytes| <= length && from + n <= length
    ensures var f, g := Data(d, start, length), Data(Written(d, start, pos, bytes), start, length);
            && g[pos..pos + |bytes|] == bytes
            && (from + n <= pos || pos + |bytes| <= from ==> g[from..from + n] == f[from..from + n])
  {
    hide Data, Written;
    DataWritten(d, start, length, pos, bytes);
    var f := Data(d, start, length);
    var g := f[..pos] + bytes + f[pos + |bytes|..];
    assert forall i | 0 <= i < length && !(pos <= i < pos + |bytes|) :: g[i] == f[i];
  }

  /** A file whose sectors are elsewhere does not change. */
  lemma OtherFileSame(d: seq<seq<Byte>>, start: nat, length: nat, pos: nat, bytes: seq<Byte>, start': nat, length': nat)
    requires Extent(d, start, length) && pos + |bytes| <= length && Extent(d, start', length')
    requires start + BytesToSectors(length) <= start' || start' + BytesToSectors(length') <= start
    ensures Data(Written(d, start, pos, bytes), start', length') == Data(d, start', length')
  { }

  /** Storing two adjacent ranges one after the other stores both. */
  lemma WrittenAppend(d: seq<seq<Byte>>, start: nat, pos: nat, a: seq<Byte>, b: seq<Byte>)
    requires Sectors(d)
    ensures Written(Written(d, start, pos, a), start, pos + |a|, b) == Written(d, start, pos, a + b)
  {
    var m := Written(d, start, pos, a);
    var l, r := Written(m, start, pos + |a|, b), Written(d, start, pos, a + b);
    forall s | 0 <= s < |d|
      ensures l[s] == r[s]
    {
      forall o | 0 <= o < SECTOR
        ensures l[s][o] == r[s][o]
      {
        assert m[s][o] == var at := (s - start) * SECTOR + o; if pos <= at < pos + |a| then a[at - pos] else d[s][o];
      }
    }
  }

  lemma WrittenNothing(d: seq<seq<Byte>>, start: nat, pos: nat)
    requires Sectors(d)
    ensures Written(d, start, pos, []) == d
  {
    assert forall s | 0 <= s < |d| :: Written(d, start, pos, [])[s] == d[s];
  }

  /** One sector rewritten with a chunk in place is the chunk stored at its position. */
  lemma ChunkWritten(d: seq<seq<Byte>>, start: nat, pos: nat, chunk: seq<Byte>, sector: seq<Byte>)
    requires Sectors(d) && start + pos / SECTOR < |d| && pos % SECTOR + |chunk| <= SECTOR
    requires var o := pos % SECTOR;
             sector == d[start + pos / SECTOR][..o] + chunk + d[start + pos / SECTOR][o + |chunk|..]
    ensures d[start + pos / SECTOR := sector] == Written(d, start, pos, chunk)
  {
    var n, w := start + pos / SECTOR, Written(d, start, pos, chunk);
    forall s | 0 <= s < |d|
      ensures d[n := sector][s] == w[s]
    {
      if s != n {
        assert w[s] == d[s];
      } else {
        assert (n - start) * SECTOR + pos % SECTOR == pos;
        assert w[n] == sector;
      }
    }
  }

  /** How far a transfer of avail bytes gets: all the way, or, without a bounce buffer, through the whole sectors it
      starts with. */
  function Reach(pos: nat, avail: nat, bounceOk: bool): nat {
    if bounceOk then avail else if pos % SECTOR != 0 then 0 else avail / SECTOR * SECTOR
  }

  /** The bytes of a request that lie inside the file. */
  function Avail(length: nat, size: int, pos: nat): nat {
    if size <= 0 || pos >= length then 0 else Min(size, length - pos)
  }

  /** A chunk inside one sector is that part of the file. */
  lemma ChunkOfData(d: seq<seq<Byte>>, start: nat, length: nat, pos: nat, n: nat)
    requires Extent(d, start, length) && pos + n <= length && pos % SECTOR + n <= SECTOR && n > 0
    ensures start + pos / SECTOR < |d|
    ensures d[start + pos / SECTOR][pos % SECTOR..pos % SECTOR + n] == Data(d, start, length)[pos..pos + n]
  { }

  /** `memcpy` into a buffer */
  method Copy(buffer: array<Byte>, at: nat, bytes: seq<Byte>)
    requires at + |bytes| <= buffer.Length
    modifies buffer
    ensures buffer[..] == old(buffer[..at]) + bytes + old(buffer[at + |bytes|..])
  {
    forall i | 0 <= i < |bytes| {
      buffer[at + i] := bytes[i];
    }
  }

  /** The first n bytes of a buffer are those of f at a position; the rest is as it was first. */
  ghost predicate Filled(now: seq<Byte>, first: seq<Byte>, n: nat, f: seq<Byte>, from: nat) {
    && |now| == |first| && n <= |now| && now[n..] == first[n..]
    && (n > 0 ==> from + n <= |f| && now[..n] == f[from..from + n])
  }

  lemma FilledNext(was: seq<Byte>, now: seq<Byte>, first: seq<Byte>, n: nat, f: seq<Byte>, from: nat, chunk: seq<Byte>)
    requires Filled(was, first, n, f, from) && n + |chunk| <= |was| && from + n + |chunk| <= |f|
    requires chunk == f[from + n..from + n + |chunk|] && now == was[..n] + chunk + was[n + |chunk|..]
    ensures Filled(now, first, n + |chunk|, f, from)
  { }

  /** The loops' progress without a bounce buffer: whole sectors only. */
  ghost predicate Whole(pos: nat, n: nat) { n == 0 || (pos % SECTOR == 0 && n % SECTOR == 0) }

  /** A transfer ends when it is complete, or when it needs a bounce buffer it cannot have. */
  lemma Reached(pos: nat, n: nat, all: nat, bounceOk: bool)
    requires n <= all && (!bounceOk ==> Whole(pos, n))
    requires n == all || (!bounceOk && ((pos + n) % SECTOR != 0 || all - n < SECTOR))
    ensures n == Reach(pos, all, bounceOk)
  { }

  /** The size of the next chunk, as the loops compute it. */
  function ChunkSize(length: int, left: int, at: nat): int {
    Min(left, Min(length - at, SECTOR - at % SECTOR))
  }

  lemma ChunkFits(length: nat, size: int, pos: nat, n: nat)
    requires n <= Avail(length, size, pos) && size > n
    ensures var c := ChunkSize(length, size - n, pos + n);
            && (c <= 0 ==> n == Avail(length, size, pos))
            && (c > 0 ==> n + c <= Avail(length, size, pos) && pos + n + c <= length && (pos + n) % SECTOR + c <= SECTOR)
            && (c > 0 && (pos + n) % SECTOR == 0 && c == SECTOR && Whole(pos, n) ==> Whole(pos, n + c))
            && (c > 0 && !((pos + n) % SECTOR == 0 && c == SECTOR) ==>
                  (pos + n) % SECTOR != 0 || Avail(length, size, pos) - n < SECTOR)
  { }

  lemma NothingYet(first: seq<Byte>, f: seq<Byte>, length: nat, size: int, pos: nat)
    ensures Filled(first, first, 0, f, pos) && Whole(pos, 0)
  { }

  lemma AllDone(length: nat, size: int, pos: nat, n: nat)
    requires n <= Avail(length, size, pos)
    ensures size <= n ==> n == Avail(length, size, pos)
  { }

  class Disk {
    var sectors: seq<seq<Byte>>

    constructor (sectors: seq<seq<Byte>>)
      ensures this.sectors == sectors
    {
      this.sectors := sectors;
    }
  }

  /** The part of `struct inode` that its data transfers use. */
  class Inode {
    const disk: Disk
    var start: nat
    var length: nat
    var denyWriteCnt: nat

    ghost predicate Valid()
      reads this, disk
    {
      Extent(disk.sectors, start, length)
    }

    constructor (disk: Disk, start: nat, length: nat)
      requires Extent(disk.sectors, start, length)
      ensures this.disk == disk && Valid() && this.start == start && this.length == length && denyWriteCnt == 0
    {
      this.disk, this.start, this.length, denyWriteCnt := disk, start, length, 0;
    }

    /** `byte_to_sector` */
    function ByteToSector(pos: nat): (s: nat)
      reads this
      ensures pos < length ==> s < start + BytesToSectors(length)
    {
      if pos < length then start + pos / SECTOR else NO_SECTOR
    }

    /** One round of inode_read_at: a whole sector goes straight into the caller's buffer, a part of one through a
        bounce buffer, if there is one. */
    method ReadChunk(buffer: array<Byte>, done: nat, sectorIdx: nat, sectorOfs: nat, at: nat, chunkSize: nat,
                     bounceOk: bool)
      returns (ok: bool)
      requires Valid() && 0 < chunkSize && at + chunkSize <= length && sectorOfs + chunkSize <= SECTOR
      requires sectorIdx == ByteToSector(at) && sectorOfs == at % SECTOR && done + chunkSize <= buffer.Length
      modifies buffer
      ensures ok <==> bounceOk || (sectorOfs == 0 && chunkSize == SECTOR)
      ensures ok ==>
                buffer[..] == old(buffer[..done]) + Data(disk.sectors, start, length)[at..at + chunkSize] + old(buffer[done + chunkSize..])
      ensures !ok ==> buffer[..] == old(buffer[..])
    {
      hide Data;
      ChunkOfData(disk.sectors, start, length, at, chunkSize);
      ok := true;
      if sectorOfs == 0 && chunkSize == SECTOR {
        Copy(buffer, done, disk.sectors[sectorIdx]);
      } else if bounceOk {
        var bounce := disk.sectors[sectorIdx];
        Copy(buffer, done, bounce[sectorOfs..sectorOfs + chunkSize]);
      } else {
        ok := false;
      }
    }

    /** `inode_read_at`: fills the front of the buffer with the file's bytes from offset on. bounceOk says whether the
        bounce buffer can be allocated. */
    method ReadAt(buffer: array<Byte>, size: int, offset: nat, bounceOk: bool) returns (bytesRead: nat)
      requires Valid() && size <= buffer.Length
      modifies buffer
      ensures bytesRead == Reach(offset, Avail(length, size, offset), bounceOk) <= Avail(length, size, offset)
      ensures Filled(buffer[..], old(buffer[..]), bytesRead, Data(disk.sectors, start, length), offset)
    {
      hide Data, Filled, Whole, Reach, Avail, BytesToSectors;
      ghost var all, f, first := Avail(length, size, offset), Data(disk.sectors, start, length), buffer[..];
      var left, at := size, offset;
      bytesRead := 0;
      NothingYet(first, f, length, size, offset);
      while left > 0
        modifies buffer
        invariant bytesRead <= all && (size > 0 ==> left == size - bytesRead >= 0) && at == offset + bytesRead
        invariant Filled(buffer[..], first, bytesRead, f, offset) && (!bounceOk ==> Whole(offset, bytesRead))
      {
        var sectorIdx := ByteToSector(at);
        var sectorOfs := at % SECTOR;
        var inodeLeft := length - at;
        var sectorLeft := SECTOR - sectorOfs;
        var minLeft := if inodeLeft < sectorLeft then inodeLeft else sectorLeft;
        var chunkSize := if left < minLeft then left else minLeft;
        ChunkFits(length, size, offset, bytesRead);
        if chunkSize <= 0 {
          break;
        }
        ghost var was := buffer[..];
        var ok := ReadChunk(buffer, bytesRead, sectorIdx, sectorOfs, at, chunkSize, bounceOk);
        if !ok {
          break;
        }
        FilledNext(was, buffer[..], first, bytesRead, f, offset, f[at..at + chunkSize]);
        left := left - chunkSize;
        at := at + chunkSize;
        bytesRead := bytesRead + chunkSize;
      }
      AllDone(length, size, offset, bytesRead);
      Reached(offset, bytesRead, all, bounceOk);
    }

    /** One round of inode_write_at: a part of a sector is put into a copy of it, which is then written back. */
    method WriteChunk(bytes: seq<Byte>, sectorIdx: nat, sectorOfs: nat, at: nat, bounceOk: bool) returns (ok: bool)
      requires Valid() && 0 < |bytes| && at + |bytes| <= length && sectorOfs + |bytes| <= SECTOR
      requires sectorIdx == ByteToSector(at) && sectorOfs == at % SECTOR
      modifies disk
      ensures ok <==> bounceOk || (sectorOfs == 0 && |bytes| == SECTOR)
      ensures disk.sectors == if ok then Written(old(disk.sectors), start, at, bytes) else old(disk.sectors)
    {
      ghost var was := disk.sectors;
      SectorInside(was, start, length, at);
      ok := true;
      if sectorOfs == 0 && |bytes| == SECTOR {
        disk.sectors := disk.sectors[sectorIdx := bytes];
        ChunkWritten(was, start, at, bytes, bytes);
      } else if bounceOk {
        // a partial chunk never fills its sector, so the code's other case, starting from a zeroed sector, does not arise
        assert sectorOfs > 0 || |bytes| < SECTOR - sectorOfs;
        var bounce := disk.sectors[sectorIdx];
        bounce := bounce[..sectorOfs] + bytes + bounce[sectorOfs + |bytes|..];
        disk.sectors := disk.sectors[sectorIdx := bounce];
        ChunkWritten(was, start, at, bytes, bounce);
      } else {
        ok := false;
      }
    }

    /** `inode_write_at`: stores the front of the buffer at offset, up to the end of the file; nothing when writes are
        denied. */
    method WriteAt(buffer: array<Byte>, size: int, offset: nat, bounceOk: bool) returns (bytesWritten: nat)
      requires Valid() && size <= buffer.Length
      modifies disk
      ensures bytesWritten == if denyWriteCnt > 0 then 0 else Reach(offset, Avail(length, size, offset), bounceOk)
      ensures bytesWritten <= Avail(length, size, offset) <= buffer.Length
      ensures disk.sectors == Written(old(disk.sectors), start, offset, buffer[..bytesWritten])
    {
      hide Written, Whole, Reach, Avail, BytesToSectors;
      WrittenNothing(disk.sectors, start, offset);
      NothingYet([], [], length, size, offset);
      bytesWritten := 0;
      AvailFits(length, size, offset);
      if denyWriteCnt > 0 {
        assert buffer[..0] == [];
        return;
      }
      ghost var all, d := Avail(length, size, offset), disk.sectors;
      var left, at := size, offset;
      assert buffer[..0] == [];
      while left > 0
        modifies disk
        invariant bytesWritten <= all && (size > 0 ==> left == size - bytesWritten >= 0) && at == offset + bytesWritten
        invariant disk.sectors == Written(d, start, offset, buffer[..bytesWritten])
        invariant (!bounceOk ==> Whole(offset, bytesWritten))
      {
        var sectorIdx := ByteToSector(at);
        var sectorOfs := at % SECTOR;
        var inodeLeft := length - at;
        var sectorLeft := SECTOR - sectorOfs;
        var minLeft := if inodeLeft < sectorLeft then inodeLeft else sectorLeft;
        var chunkSize := if left < minLeft then left else minLeft;
        ChunkFits(length, size, offset, bytesWritten);
        if chunkSize <= 0 {
          break;
        }
        var chunk := buffer[bytesWritten..bytesWritten + chunkSize];
        var ok := WriteChunk(chunk, sectorIdx, sectorOfs, at, bounceOk);
        if !ok {
          break;
        }
        WrittenAppend(d, start, offset, buffer[..bytesWritten], chunk);
        assert buffer[..bytesWritten] + chunk == buffer[..bytesWritten + chunkSize];
        left := left - chunkSize;
        at := at + chunkSize;
        bytesWritten := bytesWritten + chunkSize;
      }
      AllDone(length, size, offset, bytesWritten);
      Reached(offset, bytesWritten, all, bounceOk);
    }
  }

  lemma SectorInside(d: seq<seq<Byte>>, start: nat, length: nat, at: nat)
    requires Extent(d, start, length) && at < length
    ensures start + at / SECTOR < |d|
  { }

  lemma AvailFits(length: nat, size: int, pos: nat)
    ensures Avail(length, size, pos) <= if size > 0 then size else 0
  { }
}
