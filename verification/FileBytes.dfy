/** The byte arrays that files are, on a disk that also holds inodes. */
module FileBytes {
  import I = InodeData
  import opened Ownership

  /** The disk as sectors of bytes; those of inodes and of other sizes do not matter. */
  function Bytes(disk: seq<Sector>): (d: seq<seq<I.Byte>>)
    ensures |d| == |disk| && I.Sectors(d)
  {
    seq(|disk|, i requires 0 <= i < |disk| =>
      if disk[i].Raw? && |disk[i].bytes| == I.SECTOR then disk[i].bytes else seq(I.SECTOR, _ => 0))
  }

  /** A file's bytes. */
  function Data(disk: seq<Sector>, s: nat): (f: seq<I.Byte>)
    requires IsFile(disk, s)
    ensures |f| == disk[s].length
  {
    I.Data(Bytes(disk), disk[s].start, disk[s].length)
  }

  /** The disk after bytes are stored in file s from a position on. */
  function Stored(disk: seq<Sector>, s: nat, pos: nat, bytes: seq<I.Byte>): seq<Sector>
    requires IsFile(disk, s)
  {
    var d := I.Written(Bytes(disk), disk[s].start, pos, bytes);
    seq(|disk|, i requires 0 <= i < |disk| => if i != s && Owns(disk, s, i) then Raw(d[i]) else disk[i])
  }

  /** Which of a request's bytes reach a file of some length. */
  function Count(length: nat, pos: nat, bytes: seq<I.Byte>, bounceOk: bool, denied: bool): (n: nat)
    ensures n <= |bytes| && (n > 0 ==> pos + n <= length)
  {
    ReachFits(length, pos, |bytes|, bounceOk);
    if denied then 0 else I.Reach(pos, I.Avail(length, |bytes|, pos), bounceOk)
  }

  /** How many of size bytes from pos on lie inside a file. */
  function Inside(length: nat, pos: nat, size: nat): nat {
    if pos >= length then 0 else if size < length - pos then size else length - pos
  }

  /** That is: all that lie inside the file, unless writes are denied; without a bounce buffer, the most whole sectors
      from a sector's start on. */
  lemma CountIs(length: nat, pos: nat, bytes: seq<I.Byte>, bounceOk: bool, denied: bool)
    ensures var n, all := Count(length, pos, bytes, bounceOk, denied), Inside(length, pos, |bytes|);
            && (denied ==> n == 0) && (!denied && bounceOk ==> n == all)
            && (!denied && !bounceOk && pos % 512 != 0 ==> n == 0)
            && (!denied && !bounceOk && pos % 512 == 0 ==> n % 512 == 0 && n <= all < n + 512)
  { }

  /** The sector loop of inode_write_at writes as many. */
  method WriteAtCounts(inode: I.Inode, buffer: array<I.Byte>, pos: nat, bounceOk: bool) returns (n: nat)
    requires inode.Valid()
    modifies inode.disk
    ensures n == Count(inode.length, pos, old(buffer[..]), bounceOk, inode.denyWriteCnt > 0)
  {
    n := inode.WriteAt(buffer, buffer.Length, pos, bounceOk);
  }

  lemma ReachFits(length: nat, pos: nat, size: nat, bounceOk: bool)
    ensures var n := I.Reach(pos, I.Avail(length, size, pos), bounceOk);
            n <= size && (n > 0 ==> pos + n <= length)
  { }

  /** A file's bytes after a write of which the first n bytes got there. */
  function Patched(f: seq<I.Byte>, pos: nat, bytes: seq<I.Byte>): seq<I.Byte>
    requires bytes == [] || pos + |bytes| <= |f|
  {
    if bytes == [] then f else f[..pos] + bytes + f[pos + |bytes|..]
  }

  lemma PatchedAt(f: seq<I.Byte>, pos: nat, bytes: seq<I.Byte>)
    requires bytes == [] || pos + |bytes| <= |f|
    ensures |Patched(f, pos, bytes)| == |f|
    ensures forall i | 0 <= i < |f| ::
              Patched(f, pos, bytes)[i] == if pos <= i < pos + |bytes| then bytes[i - pos] else f[i]
  { }

  /** A file that has just been made reads as zeros. */
  lemma BlankData(disk: seq<Sector>, s: nat, length: nat)
    requires Blank(disk, s, length)
    ensures IsFile(disk, s) && |Data(disk, s)| == length && forall i | 0 <= i < length :: Data(disk, s)[i] == 0
  {
    var start, n := disk[s].start, I.BytesToSectors(length);
    forall i | 0 <= i < length
      ensures Data(disk, s)[i] == 0
    {
      I.SectorInside(Bytes(disk), start, length, i);
      assert disk[start + i / I.SECTOR] == disk[start..start + n][i / I.SECTOR] == Zero();
    }
  }

  /** Storing replaces the range of that file's bytes. */
  lemma StoredData(disk: seq<Sector>, s: nat, pos: nat, bytes: seq<I.Byte>)
    requires IsFile(disk, s) && bytes != [] && pos + |bytes| <= disk[s].length
    ensures var disk' := Stored(disk, s, pos, bytes);
            && |disk'| == |disk| && disk'[s] == disk[s] && IsFile(disk', s)
            && Data(disk', s) == Patched(Data(disk, s), pos, bytes)
  {
    var disk' := Stored(disk, s, pos, bytes);
    var start, length := disk[s].start, disk[s].length;
    var d := I.Written(Bytes(disk), start, pos, bytes);
    I.DataWritten(Bytes(disk), start, length, pos, bytes);
    hide I.Written;
    forall i | start <= i < start + I.BytesToSectors(length)
      ensures Bytes(disk')[i] == d[i]
    {
      assert Owns(disk, s, i) && i != s;
    }
    SameData(Bytes(disk'), d, start, length);
  }

  /** The bytes of a file are those of its sectors. */
  lemma SameData(d: seq<seq<I.Byte>>, d': seq<seq<I.Byte>>, start: nat, length: nat)
    requires I.Extent(d, start, length) && I.Extent(d', start, length)
    requires forall i | start <= i < start + I.BytesToSectors(length) :: d'[i] == d[i]
    ensures I.Data(d', start, length) == I.Data(d, start, length)
  {
    forall i | 0 <= i < length
      ensures I.Data(d', start, length)[i] == I.Data(d, start, length)[i]
    {
      I.SectorInside(d, start, length, i);
      assert start + i / I.SECTOR < start + I.BytesToSectors(length);
    }
  }

  lemma KeptData(disk: seq<Sector>, disk': seq<Sector>, s: nat)
    requires IsFile(disk, s) && IsFile(disk', s) && Content(disk', s) == Content(disk, s)
    ensures disk'[s] == disk[s] && Data(disk', s) == Data(disk, s)
  {
    var start, n := disk[s].start, I.BytesToSectors(disk[s].length);
    forall i | start <= i < start + n
      ensures disk'[i] == disk[i]
    {
      assert disk'[start..start + n][i - start] == disk[start..start + n][i - start];
    }
    SameData(Bytes(disk), Bytes(disk'), start, disk[s].length);
  }

  /** Every other file of the live ones keeps its length and data, and ownership is as before. */
  lemma StoredKeeps(disk: seq<Sector>, free: seq<bool>, live: set<nat>, s: nat, pos: nat, bytes: seq<I.Byte>)
    requires Placed(disk, free, live) && s in live && IsFile(disk, s)
    ensures Placed(Stored(disk, s, pos, bytes), free, live)
    ensures KeepsFiles(disk, Stored(disk, s, pos, bytes), live - {s})
    ensures forall t | t in live :: Stored(disk, s, pos, bytes)[t] == disk[t]
  {
    var disk' := Stored(disk, s, pos, bytes);
    forall t | t in live
      ensures disk'[t] == disk[t] && IsFile(disk', t)
      ensures t != s ==> Content(disk', t) == Content(disk, t)
    {
      assert Owns(disk, t, t);
      var a, b := disk[t].start, disk[t].start + I.BytesToSectors(disk[t].length);
      if t != s {
        assert forall i | a <= i < b :: Owns(disk, t, i) && !Owns(disk, s, i);
        assert disk'[a..b] == disk[a..b];
      }
    }
    assert forall t, i: nat | t in live :: Owns(disk', t, i) <==> Owns(disk, t, i);
  }
}
