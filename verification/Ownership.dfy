/** Who owns which sectors of the file system: the state behind filesys/ and what its steps keep. */
module Ownership {
  import opened Bitmap
  import I = InodeData
  import opened Sequences

  const FREE_MAP_SECTOR: nat := 0
  const ROOT_DIR_SECTOR: nat := 1
  const NAME_MAX: nat := 14

  /** What a sector holds: an on-disk inode, or data. */
  datatype Sector = Header(start: nat, length: nat) | Raw(bytes: seq<I.Byte>)

  /** `struct dir_entry` */
  datatype Slot = Slot(sector: nat, name: string, inUse: bool)

  /** `struct inode`: an inode in memory. */
  datatype Inode = Inode(sector: nat, openCnt: nat, removed: bool, start: nat, length: nat)

  datatype Fs = Fs(free: seq<bool>, disk: seq<Sector>, slots: seq<Slot>, open: seq<Inode>)

  function Zero(): Sector { Raw(seq(I.SECTOR, _ => 0)) }

  // ---------------------------------------------------------------- what a file owns

  /** Sector s holds an inode whose data lies on the disk and not over the inode itself. */
  predicate IsFile(disk: seq<Sector>, s: nat) {
    s < |disk| && disk[s].Header?
    && disk[s].start + I.BytesToSectors(disk[s].length) <= |disk|
    && !(disk[s].start <= s < disk[s].start + I.BytesToSectors(disk[s].length))
  }

  /** Sector i is the inode in s or part of its data. */
  predicate Owns(disk: seq<Sector>, s: nat, i: nat) {
    IsFile(disk, s) && (i == s || disk[s].start <= i < disk[s].start + I.BytesToSectors(disk[s].length))
  }

  /** A file's length and data. */
  function Content(disk: seq<Sector>, s: nat): (Sector, seq<Sector>)
    requires IsFile(disk, s)
  {
    (disk[s], disk[disk[s].start..disk[s].start + I.BytesToSectors(disk[s].length)])
  }

  ghost predicate OwnMarked(disk: seq<Sector>, free: seq<bool>, s: nat) {
    forall i: nat | Owns(disk, s, i) :: i < |free| && free[i]
  }

  /** The files in live have their sectors to themselves, and all of these are marked in the free map. */
  ghost predicate Placed(disk: seq<Sector>, free: seq<bool>, live: set<nat>) {
    && |free| == |disk|
    && (forall s | s in live :: IsFile(disk, s) && OwnMarked(disk, free, s))
    && (forall s, t, i: nat | s in live && t in live && Owns(disk, s, i) && Owns(disk, t, i) :: s == t)
  }

  ghost function SlotSectors(slots: seq<Slot>): set<nat> {
    set k | 0 <= k < |slots| && slots[k].inUse :: slots[k].sector
  }

  ghost function OpenSectors(open: seq<Inode>): set<nat> {
    set k | 0 <= k < |open| :: open[k].sector
  }

  /** The two system files, the files with a directory entry, and those still open. */
  ghost function Live(fs: Fs): set<nat> {
    {FREE_MAP_SECTOR, ROOT_DIR_SECTOR} + SlotSectors(fs.slots) + OpenSectors(fs.open)
  }

  /** Directory entries name different files, none of them a system file. */
  ghost predicate SlotsOk(slots: seq<Slot>) {
    && (forall j, k | 0 <= j < k < |slots| && slots[j].inUse && slots[k].inUse :: slots[j].sector != slots[k].sector)
    && (forall k | 0 <= k < |slots| && slots[k].inUse :: slots[k].sector >= 2)
  }

  /** At most one inode in memory for a sector, a copy of the one on disk; a removed file has no entry. */
  ghost predicate OpenOk(open: seq<Inode>, disk: seq<Sector>, slots: seq<Slot>) {
    && (forall j, k | 0 <= j < k < |open| :: open[j].sector != open[k].sector)
    && (forall k | 0 <= k < |open| ::
          && open[k].openCnt > 0 && open[k].sector < |disk|
          && disk[open[k].sector] == Header(open[k].start, open[k].length)
          && (open[k].removed ==> open[k].sector >= 2 && open[k].sector !in SlotSectors(slots)))
  }

  ghost predicate Inv(fs: Fs) {
    Placed(fs.disk, fs.free, Live(fs)) && SlotsOk(fs.slots) && OpenOk(fs.open, fs.disk, fs.slots)
  }

  /** How often a file is open. */
  ghost function OpenCnt(open: seq<Inode>, s: nat): nat {
    if exists k :: 0 <= k < |open| && open[k].sector == s then
      var k :| 0 <= k < |open| && open[k].sector == s;
      open[k].openCnt
    else 0
  }

  // ---------------------------------------------------------------- ownership under the steps

  lemma PlacedSubset(disk: seq<Sector>, free: seq<bool>, live: set<nat>, live': set<nat>)
    requires Placed(disk, free, live) && live' <= live
    ensures Placed(disk, free, live')
  { }

  ghost predicate Covers(free: seq<bool>, free': seq<bool>) {
    |free'| == |free| && forall i | 0 <= i < |free| && free[i] :: free'[i]
  }

  lemma PlacedMark(disk: seq<Sector>, free: seq<bool>, free': seq<bool>, live: set<nat>)
    requires Placed(disk, free, live) && Covers(free, free')
    ensures Placed(disk, free', live)
  { }

  /** Giving up one file's sectors leaves the others' marked. */
  lemma PlacedRelease(disk: seq<Sector>, free: seq<bool>, free': seq<bool>, live: set<nat>, s: nat)
    requires Placed(disk, free, live) && s in live && |free'| == |free|
    requires forall i | 0 <= i < |free| && !Owns(disk, s, i) :: free'[i] == free[i]
    ensures Placed(disk, free', live - {s})
  { }

  /** disk' is disk with a new file in sector s, made of sectors that were unmarked. */
  ghost predicate Added(disk: seq<Sector>, free: seq<bool>, disk': seq<Sector>, s: nat) {
    && |disk'| == |disk| == |free| && IsFile(disk', s)
    && (forall i: nat | Owns(disk', s, i) :: i < |free| && !free[i])
    && (forall i: nat | i < |disk| && !Owns(disk', s, i) :: disk'[i] == disk[i])
  }

  /** Files on marked sectors do not see a new one. */
  lemma OthersKept(disk: seq<Sector>, free: seq<bool>, disk': seq<Sector>, s: nat, t: nat)
    requires Added(disk, free, disk', s) && IsFile(disk, t) && OwnMarked(disk, free, t)
    ensures t != s && IsFile(disk', t) && Content(disk', t) == Content(disk, t)
    ensures forall i: nat :: Owns(disk', t, i) <==> Owns(disk, t, i)
  {
    assert Owns(disk, t, t) && Owns(disk', s, s);
    assert disk'[t] == disk[t];
    forall i: nat | Owns(disk, t, i)
      ensures disk'[i] == disk[i]
    {
      assert !Owns(disk', s, i);
    }
    var a, b := disk[t].start, disk[t].start + I.BytesToSectors(disk[t].length);
    assert forall i | a <= i < b :: Owns(disk, t, i) && disk'[i] == disk[i];
    assert disk'[a..b] == disk[a..b];
  }

  ghost predicate KeepsFiles(disk: seq<Sector>, disk': seq<Sector>, live: set<nat>) {
    |disk'| == |disk| && forall t | t in live && IsFile(disk, t) :: IsFile(disk', t) && Content(disk', t) == Content(disk, t)
  }

  /** The new file changes nothing for the others. */
  lemma PlacedKept(disk: seq<Sector>, free: seq<bool>, disk': seq<Sector>, live: set<nat>, s: nat)
    requires Placed(disk, free, live) && Added(disk, free, disk', s)
    ensures s !in live && Placed(disk', free, live) && KeepsFiles(disk, disk', live)
  {
    hide Content;
    forall t | t in live
      ensures t != s && IsFile(disk', t) && Content(disk', t) == Content(disk, t) && OwnMarked(disk', free, t)
      ensures forall i: nat :: Owns(disk', t, i) <==> Owns(disk, t, i)
    {
      assert OwnMarked(disk, free, t);
      OthersKept(disk, free, disk', s, t);
    }
  }

  /** And once its sectors are marked it is placed like the others. */
  lemma PlacedAdd(disk: seq<Sector>, free: seq<bool>, disk': seq<Sector>, free': seq<bool>, live: set<nat>, s: nat)
    requires Placed(disk, free, live) && Added(disk, free, disk', s) && Covers(free, free')
    requires OwnMarked(disk', free', s)
    ensures Placed(disk', free', live + {s})
  {
    PlacedKept(disk, free, disk', live, s);
    PlacedMark(disk', free, free', live);
    forall t, i: nat | t in live && Owns(disk', t, i)
      ensures !Owns(disk', s, i)
    {
      assert OwnMarked(disk', free, t);
    }
  }

  // ---------------------------------------------------------------- opening and closing

  ghost predicate OnePerSector(open: seq<Inode>) {
    forall j, k | 0 <= j < k < |open| :: open[j].sector != open[k].sector
  }

  lemma CountAt(open: seq<Inode>, k: nat)
    requires OnePerSector(open) && k < |open|
    ensures OpenCnt(open, open[k].sector) == open[k].openCnt
  { }

  lemma CountNone(open: seq<Inode>, s: nat)
    requires forall k | 0 <= k < |open| :: open[k].sector != s
    ensures OpenCnt(open, s) == 0
  { }

  /** Between two lists of inodes only the number of openers of s differs, by d. */
  ghost predicate CountsDiffer(open: seq<Inode>, open': seq<Inode>, s: nat, d: int) {
    forall t: nat :: OpenCnt(open', t) == OpenCnt(open, t) + (if t == s then d else 0)
  }

  ghost predicate SameCounts(open: seq<Inode>, open': seq<Inode>) {
    forall t: nat :: OpenCnt(open', t) == OpenCnt(open, t)
  }

  lemma CountUpdate(open: seq<Inode>, k: nat, e: Inode)
    requires OnePerSector(open) && k < |open| && e.sector == open[k].sector
    ensures OnePerSector(open[k := e])
    ensures CountsDiffer(open, open[k := e], e.sector, e.openCnt - open[k].openCnt)
  {
    var open' := open[k := e];
    forall t: nat
      ensures OpenCnt(open', t) == OpenCnt(open, t) + (if t == e.sector then e.openCnt - open[k].openCnt else 0)
    {
      if j :| 0 <= j < |open| && open[j].sector == t {
        CountAt(open, j);
        assert open'[j].sector == t;
        CountAt(open', j);
      } else {
        CountNone(open', t);
      }
    }
  }

  lemma CountPush(open: seq<Inode>, e: Inode)
    requires OnePerSector(open) && forall k | 0 <= k < |open| :: open[k].sector != e.sector
    ensures OnePerSector([e] + open) && CountsDiffer(open, [e] + open, e.sector, e.openCnt)
  {
    var open' := [e] + open;
    CountNone(open, e.sector);
    CountAt(open', 0);
    forall t: nat | t != e.sector
      ensures OpenCnt(open', t) == OpenCnt(open, t)
    {
      if j :| 0 <= j < |open| && open[j].sector == t {
        CountAt(open, j);
        assert open'[j + 1].sector == t;
        CountAt(open', j + 1);
      } else {
        CountNone(open', t);
      }
    }
  }

  lemma CountRemove(open: seq<Inode>, k: nat)
    requires OnePerSector(open) && k < |open|
    ensures OnePerSector(open[..k] + open[k + 1..])
    ensures CountsDiffer(open, open[..k] + open[k + 1..], open[k].sector, 0 - open[k].openCnt)
  {
    var open' := open[..k] + open[k + 1..];
    CountAt(open, k);
    CountNone(open', open[k].sector);
    forall t: nat | t != open[k].sector
      ensures OpenCnt(open', t) == OpenCnt(open, t)
    {
      if j :| 0 <= j < |open| && open[j].sector == t {
        CountAt(open, j);
        CountAt(open', if j < k then j else j - 1);
      } else {
        CountNone(open', t);
      }
    }
  }

  /** An inode in memory gets another opener, or loses one of several, or is marked removed once it has no entry. */
  lemma InodeUpdated(fs: Fs, k: nat, e: Inode)
    requires Inv(fs) && k < |fs.open| && e == fs.open[k].(openCnt := e.openCnt, removed := e.removed) && e.openCnt > 0
    requires e.removed ==> e.sector >= 2 && e.sector !in SlotSectors(fs.slots)
    ensures Inv(fs.(open := fs.open[k := e]))
    ensures CountsDiffer(fs.open, fs.open[k := e], e.sector, e.openCnt - fs.open[k].openCnt)
  {
    CountUpdate(fs.open, k, e);
    SameSectors(fs.open, k, e);
  }

  lemma SameSectors(open: seq<Inode>, k: nat, e: Inode)
    requires k < |open| && e.sector == open[k].sector
    ensures OpenSectors(open[k := e]) == OpenSectors(open)
  {
    var open' := open[k := e];
    forall s | s in OpenSectors(open)
      ensures s in OpenSectors(open')
    {
      var j :| 0 <= j < |open| && open[j].sector == s;
      assert open'[j].sector == s;
    }
  }

  /** An inode read in for a live file. */
  lemma InodePushed(fs: Fs, s: nat)
    requires Inv(fs) && s in Live(fs) && forall k | 0 <= k < |fs.open| :: fs.open[k].sector != s
    ensures IsFile(fs.disk, s)
    ensures var e := Inode(s, 1, false, fs.disk[s].start, fs.disk[s].length);
            Inv(fs.(open := [e] + fs.open)) && CountsDiffer(fs.open, [e] + fs.open, s, 1)
  {
    var e := Inode(s, 1, false, fs.disk[s].start, fs.disk[s].length);
    CountPush(fs.open, e);
    PushedSectors(fs.open, e);
    assert Live(fs.(open := [e] + fs.open)) == Live(fs);
  }

  lemma PushedSectors(open: seq<Inode>, e: Inode)
    ensures OpenSectors([e] + open) == OpenSectors(open) + {e.sector}
  {
    forall s | s in OpenSectors(open)
      ensures s in OpenSectors([e] + open)
    {
      var j :| 0 <= j < |open| && open[j].sector == s;
      assert ([e] + open)[j + 1].sector == s;
    }
    assert ([e] + open)[0] == e;
  }

  lemma RemovedSectors(open: seq<Inode>, k: nat)
    requires OnePerSector(open) && k < |open|
    ensures OpenSectors(open[..k] + open[k + 1..]) == OpenSectors(open) - {open[k].sector}
  {
    var open' := open[..k] + open[k + 1..];
    forall s | s in OpenSectors(open) - {open[k].sector}
      ensures s in OpenSectors(open')
    {
      var j :| 0 <= j < |open| && open[j].sector == s;
      assert open'[if j < k then j else j - 1].sector == s;
    }
  }

  /** An inode leaves memory; if its file was removed, the file's sectors are given up. */
  lemma InodeDropped(fs: Fs, k: nat, free': seq<bool>)
    requires Inv(fs) && k < |fs.open| && |free'| == |fs.free|
    requires if fs.open[k].removed then
             forall i | 0 <= i < |free'| && !Owns(fs.disk, fs.open[k].sector, i) :: free'[i] == fs.free[i]
             else free' == fs.free
    ensures Inv(fs.(open := fs.open[..k] + fs.open[k + 1..], free := free'))
    ensures CountsDiffer(fs.open, fs.open[..k] + fs.open[k + 1..], fs.open[k].sector, 0 - fs.open[k].openCnt)
  {
    var s, open' := fs.open[k].sector, fs.open[..k] + fs.open[k + 1..];
    CountRemove(fs.open, k);
    RemovedSectors(fs.open, k);
    var live' := Live(fs.(open := open'));
    hide Placed, CountsDiffer, Owns, IsFile;
    if fs.open[k].removed {
      assert s in OpenSectors(fs.open);
      PlacedRelease(fs.disk, fs.free, free', Live(fs), s);
      PlacedSubset(fs.disk, free', Live(fs) - {s}, live');
    } else {
      PlacedSubset(fs.disk, fs.free, Live(fs), live');
    }
  }

  // ---------------------------------------------------------------- entries

  /** A directory slot is overwritten with an entry for a file that is in no other. */
  lemma EntryWritten(slots: seq<Slot>, k: nat, e: Slot)
    requires SlotsOk(slots) && k < |slots| && e.inUse && e.sector >= 2 && e.sector !in SlotSectors(slots)
    ensures SlotsOk(slots[k := e]) && SlotSectors(slots[k := e]) <= SlotSectors(slots) + {e.sector}
  { }

  lemma EntryErased(slots: seq<Slot>, k: nat)
    requires SlotsOk(slots) && k < |slots| && slots[k].inUse
    ensures var slots' := slots[k := slots[k].(inUse := false)];
            SlotsOk(slots') && SlotSectors(slots') == SlotSectors(slots) - {slots[k].sector}
  {
    var slots' := slots[k := slots[k].(inUse := false)];
    forall s | s in SlotSectors(slots) - {slots[k].sector}
      ensures s in SlotSectors(slots')
    {
      var j :| 0 <= j < |slots| && slots[j].inUse && slots[j].sector == s;
      assert slots'[j].inUse && slots'[j].sector == s;
    }
  }

  // ---------------------------------------------------------------- creating

  /** The disk with an inode written to sector s and zeros to its data sectors. */
  function NewFile(disk: seq<Sector>, s: nat, start: nat, length: nat): (r: seq<Sector>)
    ensures |r| == |disk|
  {
    seq(|disk|, i requires 0 <= i < |disk| =>
      if start <= i < start + I.BytesToSectors(length) then Zero() else if i == s then Header(start, length) else disk[i])
  }

  /** A file made of a sector and a group of sectors that were all unmarked. */
  lemma NewFileAdded(disk: seq<Sector>, free: seq<bool>, s: nat, start: nat, length: nat)
    requires |free| == |disk| && s < |disk| && !free[s]
    requires Group(free[s := true], start, I.BytesToSectors(length), false)
    ensures Added(disk, free, NewFile(disk, s, start, length), s)
    ensures NewFile(disk, s, start, length)[s] == Header(start, length)
    ensures forall i: nat :: Owns(NewFile(disk, s, start, length), s, i) <==>
                             i == s || start <= i < start + I.BytesToSectors(length)
  {
    assert free[s := true][s];
    assert !(start <= s < start + I.BytesToSectors(length));
    forall i: nat | start <= i < start + I.BytesToSectors(length)
      ensures !free[i]
    {
      assert free[s := true][i] == false;
    }
  }

  /** A file has its length and holds only zeros. */
  predicate Blank(disk: seq<Sector>, s: nat, length: nat) {
    IsFile(disk, s) && Content(disk, s) == (Header(disk[s].start, length), seq(I.BytesToSectors(length), _ => Zero()))
  }

  lemma NewFileBlank(disk: seq<Sector>, free: seq<bool>, s: nat, start: nat, length: nat)
    requires |free| == |disk| && s < |disk| && !free[s]
    requires Group(free[s := true], start, I.BytesToSectors(length), false)
    ensures Blank(NewFile(disk, s, start, length), s, length)
  {
    NewFileAdded(disk, free, s, start, length);
    var disk' := NewFile(disk, s, start, length);
    assert disk'[start..start + I.BytesToSectors(length)] == seq(I.BytesToSectors(length), _ => Zero());
  }

  lemma OpenKept(open: seq<Inode>, disk: seq<Sector>, disk': seq<Sector>, slots: seq<Slot>, live: set<nat>)
    requires OpenOk(open, disk, slots) && OpenSectors(open) <= live && KeepsFiles(disk, disk', live)
    requires forall s | s in live :: IsFile(disk, s)
    ensures OpenOk(open, disk', slots)
  {
    forall k | 0 <= k < |open|
      ensures disk'[open[k].sector] == disk[open[k].sector]
    {
      assert open[k].sector in OpenSectors(open);
      assert Content(disk', open[k].sector).0 == Content(disk, open[k].sector).0;
    }
  }

  /** A new file is written, but gets no entry: every file is as it was, whatever sectors stay marked. */
  lemma CreateAbandoned(fs: Fs, s: nat, start: nat, length: nat, free': seq<bool>)
    requires Inv(fs) && s < |fs.free| && !fs.free[s]
    requires Group(fs.free[s := true], start, I.BytesToSectors(length), false)
    requires Covers(fs.free, free')
    ensures var disk' := NewFile(fs.disk, s, start, length);
            Inv(fs.(disk := disk', free := free')) && KeepsFiles(fs.disk, disk', Live(fs)) && s !in Live(fs)
  {
    hide Owns, IsFile, Content, NewFile;
    var disk' := NewFile(fs.disk, s, start, length);
    NewFileAdded(fs.disk, fs.free, s, start, length);
    PlacedKept(fs.disk, fs.free, disk', Live(fs), s);
    PlacedMark(disk', fs.free, free', Live(fs));
    OpenKept(fs.open, fs.disk, disk', fs.slots, Live(fs));
  }

  /** A new file gets the entry in slot k. */
  lemma CreateEntered(fs: Fs, s: nat, start: nat, length: nat, free': seq<bool>, k: nat, name: string)
    requires Inv(fs) && s < |fs.free| && !fs.free[s]
    requires Group(fs.free[s := true], start, I.BytesToSectors(length), false)
    requires free' == WithSet(fs.free[s := true], start, I.BytesToSectors(length), true) && k < |fs.slots|
    ensures var disk' := NewFile(fs.disk, s, start, length);
            Inv(fs.(disk := disk', free := free', slots := fs.slots[k := Slot(s, name, true)]))
  {
    var disk' := NewFile(fs.disk, s, start, length);
    var slots' := fs.slots[k := Slot(s, name, true)];
    var fs' := fs.(disk := disk', free := free', slots := slots');
    assert OwnMarked(fs.disk, fs.free, 0) && OwnMarked(fs.disk, fs.free, 1);
    assert Owns(fs.disk, 0, 0) && Owns(fs.disk, 1, 1);
    hide Owns, IsFile, Content, NewFile, Placed;
    NewFileAdded(fs.disk, fs.free, s, start, length);
    PlacedKept(fs.disk, fs.free, disk', Live(fs), s);
    PlacedAdd(fs.disk, fs.free, disk', free', Live(fs), s);
    LiveAreFiles(fs);
    OpenKept(fs.open, fs.disk, disk', fs.slots, Live(fs));
    EntryWritten(fs.slots, k, Slot(s, name, true));
    PlacedSubset(disk', free', Live(fs) + {s}, Live(fs'));
  }

  lemma LiveAreFiles(fs: Fs)
    requires Placed(fs.disk, fs.free, Live(fs))
    ensures forall s | s in Live(fs) :: IsFile(fs.disk, s)
  { }
}
