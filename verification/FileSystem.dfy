/** Creating, opening, closing and removing files: filesys/filesys.c over inode.c, directory.c and free-map.c. */
module FileSystem {
  import opened Bitmap
  import I = InodeData
  import F = FileBytes
  import opened Ownership
  import opened Sequences

  /** What the memory allocator and the buffered transfers a call makes are going to do. The two reaches say how many
      directory entries a search gets to read before a read fails. */
  datatype Luck = Luck(rootInode: bool, dir: bool, mapWrite: bool, inodeDisk: bool, dataMapWrite: bool,
                       reach: nat, slotReach: nat, entryWrite: bool, inode: bool, file: bool)

  ghost predicate Removed(open: seq<Inode>, s: nat) {
    exists k :: 0 <= k < |open| && open[k].sector == s && open[k].removed
  }

  /** The sectors that s owns, and no others, have become free. */
  ghost predicate Released(disk: seq<Sector>, free: seq<bool>, free': seq<bool>, s: nat) {
    |free'| == |free| && forall i | 0 <= i < |free| :: free'[i] == (free[i] && !Owns(disk, s, i))
  }

  predicate NameOk(name: string) { name != "" && |name| <= NAME_MAX }

  predicate Matches(e: Slot, name: string) { e.inUse && e.name == name }

  /** The first cnt sectors in a row that are free. */
  ghost predicate FirstGroup(free: seq<bool>, s: nat, cnt: nat) {
    Group(free, s, cnt, false) && forall j: nat | j < s :: !Group(free, j, cnt, false)
  }

  /** Memory and the buffered transfers hold out. */
  predicate Lucky(luck: Luck, slots: seq<Slot>) {
    && luck.rootInode && luck.dir && luck.mapWrite && luck.inodeDisk && luck.dataMapWrite && luck.entryWrite
    && luck.inode && luck.file
    && |slots| <= luck.reach && |slots| <= luck.slotReach
  }

  /** A new file needs a good, unused name, a directory slot, a sector for its inode and, next to that, its data. */
  ghost predicate CanCreate(free: seq<bool>, slots: seq<Slot>, name: string, size: nat) {
    && NameOk(name) && (forall j | 0 <= j < |slots| :: !Matches(slots[j], name))
    && (exists j | 0 <= j < |slots| :: !slots[j].inUse)
    && exists s: nat :: FirstGroup(free, s, 1) && HasGroup(free[s := true], I.BytesToSectors(size))
  }

  ghost predicate HasGroup(free: seq<bool>, cnt: nat) {
    exists i: nat :: Group(free, i, cnt, false)
  }

  lemma CanCreateIs(free: seq<bool>, slots: seq<Slot>, name: string, size: nat, s: nat)
    requires FirstGroup(free, s, 1)
    ensures CanCreate(free, slots, name, size) <==>
              && NameOk(name) && (forall j | 0 <= j < |slots| :: !Matches(slots[j], name))
              && (exists j | 0 <= j < |slots| :: !slots[j].inUse)
              && HasGroup(free[s := true], I.BytesToSectors(size))
  { }

  lemma NoSector(free: seq<bool>, slots: seq<Slot>, name: string, size: nat)
    requires !HasGroup(free, 1)
    ensures !CanCreate(free, slots, name, size)
  { }

  lemma StillMarked(free: seq<bool>, start: nat, cnt: nat, i: nat)
    requires i < |free| && free[i]
    ensures WithSet(free, start, cnt, true)[i]
  { }

  /** The first file on an empty disk leaves sector 1 alone, which is reserved. */
  lemma FirstFile(disk: seq<Sector>, free: seq<bool>, start: nat, length: nat, free': seq<bool>)
    requires |free| == |disk| >= 2 && free == seq(|disk|, _ => false)[ROOT_DIR_SECTOR := true]
    requires Group(free[FREE_MAP_SECTOR := true], start, I.BytesToSectors(length), false)
    requires free' == WithSet(free[FREE_MAP_SECTOR := true], start, I.BytesToSectors(length), true)[ROOT_DIR_SECTOR := false]
    ensures Placed(NewFile(disk, FREE_MAP_SECTOR, start, length), free', {FREE_MAP_SECTOR})
  {
    var disk' := NewFile(disk, FREE_MAP_SECTOR, start, length);
    NewFileAdded(disk, free, FREE_MAP_SECTOR, start, length);
    assert free[FREE_MAP_SECTOR := true][ROOT_DIR_SECTOR];
    assert !Owns(disk', FREE_MAP_SECTOR, ROOT_DIR_SECTOR);
    assert OwnMarked(disk', free', FREE_MAP_SECTOR);
  }

  lemma NextFile(disk: seq<Sector>, free: seq<bool>, live: set<nat>, s: nat, start: nat, length: nat, free': seq<bool>)
    requires Placed(disk, free, live) && s < |disk| && !free[s]
    requires Group(free[s := true], start, I.BytesToSectors(length), false)
    requires free' == WithSet(free[s := true], start, I.BytesToSectors(length), true)
    ensures Placed(NewFile(disk, s, start, length), free', live + {s})
  {
    var disk' := NewFile(disk, s, start, length);
    NewFileAdded(disk, free, s, start, length);
    hide NewFile;
    PlacedAdd(disk, free, disk', free', live, s);
  }

  /** The free map's file takes at least one sector and leaves one, if there are four. */
  lemma FormatFits(n: nat)
    ensures I.BytesToSectors(8 * ElemCnt(n)) >= if n > 0 then 1 else 0
    ensures n >= 4 <==> n >= 2 && 3 + I.BytesToSectors(8 * ElemCnt(n)) <= n
  { }

  /** On an empty disk the first group starts at sector 2, and a sector is left behind it exactly if there is room for
      one. */
  lemma FreshGroups(n: nat, cnt: nat)
    requires n >= 2 && cnt > 0
    ensures var free := seq(n, _ => false)[FREE_MAP_SECTOR := true][ROOT_DIR_SECTOR := true];
            && (HasGroup(free, cnt) <==> 2 + cnt <= n)
            && (forall s: nat :: FirstGroup(free, s, cnt) ==> s == 2)
            && (2 + cnt <= n ==> (HasGroup(WithSet(free, 2, cnt, true), 1) <==> 3 + cnt <= n))
  {
    var free := seq(n, _ => false)[FREE_MAP_SECTOR := true][ROOT_DIR_SECTOR := true];
    forall s: nat | Group(free, s, cnt, false)
      ensures s >= 2 && s + cnt <= n
    {
      assert !free[s];
    }
    if 2 + cnt <= n {
      assert Group(free, 2, cnt, false);
      var free' := WithSet(free, 2, cnt, true);
      if 3 + cnt <= n {
        assert Group(free', 2 + cnt, 1, false);
      }
      forall s: nat | Group(free', s, 1, false)
        ensures s >= 2 + cnt
      {
        assert !free'[s];
      }
    }
  }

  lemma EmptyDirectory(fs: Fs)
    requires Placed(fs.disk, fs.free, {FREE_MAP_SECTOR} + {ROOT_DIR_SECTOR}) && fs.open == []
    requires forall k | 0 <= k < |fs.slots| :: !fs.slots[k].inUse
    ensures Inv(fs)
  { }

  class FileSystem {
    const freeMap: Bitmap
    var disk: seq<Sector>
    var slots: seq<Slot>
    var open: seq<Inode>

    /** The state before formatting: an empty free map with the two system sectors marked. */
    constructor (disk: seq<Sector>)
      requires |disk| >= 2
      ensures fresh(freeMap) && fresh(freeMap.bits) && freeMap.Valid() && this.disk == disk && slots == [] && open == []
      ensures freeMap.View() == seq(|disk|, _ => false)[FREE_MAP_SECTOR := true][ROOT_DIR_SECTOR := true]
    {
      var map' := new Bitmap(|disk|);
      freeMap := map';
      this.disk, slots, open := disk, [], [];
      new;
      freeMap.Mark(FREE_MAP_SECTOR);
      freeMap.Mark(ROOT_DIR_SECTOR);
    }

    /** `do_format`: the free map's own file and a root directory with 16 free entries of 20 bytes. */
    method Format() returns (ok: bool)
      requires freeMap.Valid() && |disk| >= 2 && open == []
      requires freeMap.View() == seq(|disk|, _ => false)[FREE_MAP_SECTOR := true][ROOT_DIR_SECTOR := true]
      modifies this, freeMap.bits
      ensures ok ==> Valid() && open == [] && |slots| == 16 && forall k | 0 <= k < 16 :: !slots[k].inUse
      // the free map's inode and sectors, the directory's inode and one sector
      ensures ok <==> |disk| >= 4
    {
      hide NewFile, Group, IsFile, Owns, Content, HasGroup;
      ghost var d0, f0 := disk, freeMap.View()[FREE_MAP_SECTOR := false];
      assert freeMap.View() == f0[FREE_MAP_SECTOR := true];
      var mapSize := 8 * ElemCnt(freeMap.bitCnt);
      var start: nat;
      FormatFits(|disk|);
      FreshGroups(|disk|, I.BytesToSectors(mapSize));
      ok, start := InodeCreate(FREE_MAP_SECTOR, mapSize, true, true);
      if !ok {
        return;
      }
      ghost var d1, f1 := disk, freeMap.View()[ROOT_DIR_SECTOR := false];
      FirstFile(d0, f0, start, mapSize, f1);
      StillMarked(f0[FREE_MAP_SECTOR := true], start, I.BytesToSectors(mapSize), ROOT_DIR_SECTOR);
      assert freeMap.View() == f1[ROOT_DIR_SECTOR := true];
      var start': nat;
      ok, start' := InodeCreate(ROOT_DIR_SECTOR, 16 * 20, true, true);
      if !ok {
        return;
      }
      NextFile(d1, f1, {FREE_MAP_SECTOR}, ROOT_DIR_SECTOR, start', 16 * 20, freeMap.View());
      slots := seq(16, _ => Slot(0, "", false));
      EmptyDirectory(St());
    }

    ghost function St(): Fs
      requires freeMap.Valid()
      reads this, freeMap.bits
    {
      Fs(freeMap.View(), disk, slots, open)
    }

    ghost predicate Valid()
      reads this, freeMap.bits
    {
      freeMap.Valid() && Inv(St())
    }

    /** `free_map_allocate`: the first group of cnt free sectors, marked; taken back if the map cannot be written. */
    method FreeMapAllocate(cnt: nat, mapWrite: bool) returns (r: Option<nat>)
      requires freeMap.Valid()
      modifies freeMap.bits
      ensures r.Some? <==> mapWrite && HasGroup(old(freeMap.View()), cnt)
      ensures r.Some? ==> FirstGroup(old(freeMap.View()), r.value, cnt)
      ensures r.Some? ==> freeMap.View() == WithSet(old(freeMap.View()), r.value, cnt, true)
      ensures r == None ==> freeMap.View() == old(freeMap.View())
    {
      r := freeMap.ScanAndFlip(0, cnt, false);
      if r.Some? && !mapWrite {
        freeMap.SetMultiple(r.value, cnt, false);
        r := None;
      }
    }

    /** `free_map_release`: the sectors must all be marked. */
    method FreeMapRelease(sector: nat, cnt: nat)
      requires freeMap.Valid() && Group(freeMap.View(), sector, cnt, true)
      modifies freeMap.bits
      ensures freeMap.View() == WithSet(old(freeMap.View()), sector, cnt, false)
    {
      freeMap.SetMultiple(sector, cnt, false);
    }

    /** `inode_create` */
    method InodeCreate(sector: nat, length: nat, inodeDisk: bool, mapWrite: bool) returns (ok: bool, start: nat)
      requires freeMap.Valid() && |disk| == freeMap.bitCnt && sector < |disk| && freeMap.View()[sector]
      modifies this`disk, freeMap.bits
      ensures ok <==> inodeDisk && mapWrite && HasGroup(old(freeMap.View()), I.BytesToSectors(length))
      ensures !ok ==> disk == old(disk) && freeMap.View() == old(freeMap.View())
      ensures ok ==> FirstGroup(old(freeMap.View()), start, I.BytesToSectors(length))
      ensures ok ==> freeMap.View() == WithSet(old(freeMap.View()), start, I.BytesToSectors(length), true)
      ensures ok ==> disk == NewFile(old(disk), sector, start, length)
    {
      ok, start := false, 0;
      if inodeDisk {
        var sectors := I.BytesToSectors(length);
        var r := FreeMapAllocate(sectors, mapWrite);
        if r.Some? {
          start := r.value;
          disk := disk[sector := Header(start, length)];
          for i := 0 to sectors
            modifies this`disk
            invariant |disk| == |old(disk)|
            invariant forall j | 0 <= j < |disk| :: disk[j] ==
                        if start <= j < start + i then Zero() else if j == sector then Header(start, length) else old(disk)[j]
          {
            disk := disk[start + i := Zero()];
          }
          ok := true;
        }
      }
    }

    /** `inode_open`: a file that is already open gets another opener, any other is read in. */
    method InodeOpen(sector: nat, inode: bool) returns (ok: bool)
      requires Valid() && sector in Live(St())
      modifies this`open
      ensures Valid()
      ensures ok <==> inode || exists k :: 0 <= k < |old(open)| && old(open)[k].sector == sector
      ensures ok ==> CountsDiffer(old(open), open, sector, 1) && sector in OpenSectors(open)
      ensures !ok ==> open == old(open)
      ensures forall s :: Removed(open, s) <==> Removed(old(open), s)
    {
      hide Placed, CountsDiffer, SlotsOk;
      for k := 0 to |open|
        invariant forall j | 0 <= j < k :: open[j].sector != sector
      {
        if open[k].sector == sector {
          ghost var e := open[k].(openCnt := open[k].openCnt + 1);
          InodeUpdated(St(), k, e);
          SameRemoved(open, k, e);
          open := open[k := open[k].(openCnt := open[k].openCnt + 1)];
          assert open[k].sector == sector;
          return true;
        }
      }
      if !inode {
        return false;
      }
      InodePushed(St(), sector);
      PushRemoved(open, Inode(sector, 1, false, disk[sector].start, disk[sector].length));
      open := [Inode(sector, 1, false, disk[sector].start, disk[sector].length)] + open;
      assert open[0].sector == sector;
      ok := true;
    }

    /** `inode_close`: the last opener takes the inode out of memory and, if the file was removed, gives up its
        sectors. */
    method InodeClose(sector: nat)
      requires Valid() && sector in OpenSectors(open)
      modifies this`open, freeMap.bits
      ensures Valid() && CountsDiffer(old(open), open, sector, -1)
      ensures if old(OpenCnt(open, sector)) == 1 && old(Removed(open, sector))
              then Released(disk, old(freeMap.View()), freeMap.View(), sector) else freeMap.View() == old(freeMap.View())
      ensures forall s | s != sector :: Removed(open, s) <==> Removed(old(open), s)
      ensures old(OpenCnt(open, sector)) > 1 ==> (Removed(open, sector) <==> Removed(old(open), sector))
    {
      hide Placed, CountsDiffer, SlotsOk, OpenCnt, Owns, IsFile, Removed, Released;
      var k :| 0 <= k < |open| && open[k].sector == sector;
      ghost var fs := St();
      CountAt(open, k);
      RemovedAt(open, k);
      var e := open[k].(openCnt := open[k].openCnt - 1);
      if e.openCnt == 0 {
        if e.removed {
          MarkedOwn(fs, k);
          FreeMapRelease(e.sector, 1);
          FreeMapRelease(e.start, I.BytesToSectors(e.length));
          ReleasedOwn(fs, k, freeMap.View());
        }
        InodeDropped(fs, k, freeMap.View());
        DropRemoved(open, k);
        open := open[..k] + open[k + 1..];
      } else {
        InodeUpdated(fs, k, e);
        SameRemoved(open, k, e);
        open := open[k := e];
      }
    }

    /** `inode_remove`: the file is to go when its last opener closes it. */
    method InodeRemove(sector: nat)
      requires Valid() && sector in OpenSectors(open) && sector >= 2 && sector !in SlotSectors(slots)
      modifies this`open
      ensures Valid() && SameCounts(old(open), open) && OpenSectors(open) == OpenSectors(old(open))
      ensures forall s :: Removed(open, s) <==> Removed(old(open), s) || s == sector
    {
      hide Placed, SlotsOk, OpenCnt;
      var k :| 0 <= k < |open| && open[k].sector == sector;
      InodeUpdated(St(), k, open[k].(removed := true));
      SameSectors(open, k, open[k].(removed := true));
      NowRemoved(open, k);
      open := open[k := open[k].(removed := true)];
    }

    /** `lookup`: the first entry in use with the name, among those that can be read. */
    method Lookup(name: string, reach: nat) returns (r: Option<nat>)
      ensures r.Some? ==> r.value < |slots| && r.value < reach && Matches(slots[r.value], name)
      ensures r.Some? ==> forall k | 0 <= k < r.value :: !Matches(slots[k], name)
      ensures r == None ==> Unseen(slots, name, reach)
    {
      var k := 0;
      while k < |slots| && k < reach
        invariant k <= |slots| && forall j | 0 <= j < k :: !Matches(slots[j], name)
      {
        if slots[k].inUse && slots[k].name == name {
          return Some(k);
        }
        k := k + 1;
      }
      r := None;
    }

    /** `dir_add`: the entry goes into the first free slot; a search cut short by a failed read takes the slot it
        stopped at. */
    method DirAdd(name: string, sector: nat, luck: Luck) returns (ok: bool, k: nat)
      modifies this`slots
      ensures ok <==>
                NameOk(name) && Unseen(old(slots), name, luck.reach) && luck.entryWrite && HasStop(old(slots), luck.slotReach)
      ensures if ok then StopsAt(old(slots), luck.slotReach, k) && slots == old(slots)[k := Slot(sector, name, true)]
              else slots == old(slots)
    {
      ok, k := false, 0;
      if name == "" || |name| > NAME_MAX {
        return;
      }
      var found := Lookup(name, luck.reach);
      if found.Some? {
        return;
      }
      while k < |slots| && k < luck.slotReach && slots[k].inUse
        invariant k <= |slots| && k <= luck.slotReach && forall j | 0 <= j < k :: slots[j].inUse
      {
        k := k + 1;
      }
      if k < |slots| && luck.entryWrite {
        slots := slots[k := Slot(sector, name, true)];
        ok := true;
      }
    }

    /** `dir_open_root` */
    method DirOpenRoot(luck: Luck) returns (ok: bool)
      requires Valid()
      modifies this`open, freeMap.bits
      ensures Valid() && freeMap.View() == old(freeMap.View())
      ensures ok <==> luck.dir && (luck.rootInode || exists k :: 0 <= k < |old(open)| && old(open)[k].sector == ROOT_DIR_SECTOR)
      ensures if ok then CountsDiffer(old(open), open, ROOT_DIR_SECTOR, 1) && ROOT_DIR_SECTOR in OpenSectors(open)
              else SameCounts(old(open), open)
      ensures forall s :: Removed(open, s) <==> Removed(old(open), s)
    {
      hide Inv, OpenCnt, Removed, Released, CountsDiffer;
      NotRemoved(St(), ROOT_DIR_SECTOR);
      ok := InodeOpen(ROOT_DIR_SECTOR, luck.rootInode);
      if ok && !luck.dir {
        ghost var mid := open;
        DirClose();
        CountsCancel(old(open), mid, open, ROOT_DIR_SECTOR, 1);
        ok := false;
      } else if !ok {
        CountsRefl(open);
      }
    }

    /** `dir_close` on the root directory, which is never removed */
    method DirClose()
      requires Valid() && ROOT_DIR_SECTOR in OpenSectors(open)
      modifies this`open, freeMap.bits
      ensures Valid() && CountsDiffer(old(open), open, ROOT_DIR_SECTOR, -1) && freeMap.View() == old(freeMap.View())
      ensures forall s :: Removed(open, s) <==> Removed(old(open), s)
    {
      hide Inv, OpenCnt, Released, Removed, CountsDiffer;
      NotRemoved(St(), ROOT_DIR_SECTOR);
      InodeClose(ROOT_DIR_SECTOR);
      NotRemoved(St(), ROOT_DIR_SECTOR);
    }

    /** The body of filesys_create, with the root directory open: a sector for the inode, the inode and its data, an
        entry; the inode's sector is taken back if a later step fails, the data's sectors are not. */
    method CreateFile(name: string, size: nat, luck: Luck) returns (ok: bool, ghost s: nat, ghost k: nat)
      requires Valid()
      modifies this`disk, this`slots, freeMap.bits
      ensures Valid() && KeepsFiles(old(disk), disk, Live(old(St()))) && Covers(old(freeMap.View()), freeMap.View())
      ensures !ok ==> slots == old(slots)
      ensures ok ==> s !in Live(old(St())) && Blank(disk, s, size) && Entered(old(slots), slots, s, k, name, luck)
      ensures ok ==> Taken(disk, old(freeMap.View()), freeMap.View(), s)
      ensures Lucky(luck, old(slots)) ==> (ok <==> CanCreate(old(freeMap.View()), old(slots), name, size))
    {
      hide Taken, Placed, SlotsOk, OpenOk, NewFile, Blank, Live, Entered, CanCreate, NameOk, Matches, HasGroup;
      ghost var fs := St();
      Sizes(fs);
      KeepsAll(disk, Live(fs));
      ok, s, k := false, 0, 0;
      var sector := FreeMapAllocate(1, luck.mapWrite);
      if sector == None {
        if luck.mapWrite {
          NoSector(fs.free, slots, name, size);
        }
        return;
      }
      s := sector.value;
      CanCreateIs(fs.free, slots, name, size, s);
      assert !fs.free[s] && freeMap.View() == fs.free[s := true];
      var created, start := InodeCreate(sector.value, size, luck.inodeDisk, luck.dataMapWrite);
      if !created {
        FreeMapRelease(sector.value, 1);
        assert freeMap.View() == fs.free;
        return;
      }
      CreateAbandoned(fs, s, start, size, freeMap.View());
      var k';
      ok, k' := DirAdd(name, sector.value, luck);
      k := k';
      if ok {
        CreateEntered(fs, s, start, size, freeMap.View(), k, name);
        NewFileBlank(fs.disk, fs.free, s, start, size);
        NewFileTaken(fs.disk, fs.free, s, start, size);
        EnteredIs(fs.slots, slots, s, k, name, luck);
      } else {
        FreeMapRelease(sector.value, 1);
        CreateAbandoned(fs, s, start, size, freeMap.View());
      }
    }

    /** `filesys_create` */
    method Create(name: string, size: nat, luck: Luck) returns (ok: bool, ghost s: nat, ghost k: nat)
      requires Valid()
      modifies this, freeMap.bits
      ensures Valid() && SameCounts(old(open), open) && (forall t :: Removed(open, t) <==> Removed(old(open), t))
      ensures KeepsFiles(old(disk), disk, Live(old(St()))) && Covers(old(freeMap.View()), freeMap.View())
      ensures !ok ==> slots == old(slots)
      ensures ok ==> Creates(old(St()), St(), s, k, name, size, luck)
      ensures Lucky(luck, old(slots)) ==> (ok <==> CanCreate(old(freeMap.View()), old(slots), name, size))
    {
      hide Inv, OpenCnt, Removed, Live, Blank, CountsDiffer, SameCounts, KeepsFiles, Entered, CanCreate, F.Data,
        Taken;
      ok, s, k := false, 0, 0;
      ghost var fs := St();
      KeepsAll(disk, Live(fs));
      var dir := DirOpenRoot(luck);
      if dir {
        RootOpenLive(fs, St());
        ok, s, k := CreateFile(name, size, luck);
        ghost var mid := open;
        if ok {
          F.BlankData(disk, s, size);
        }
        DirClose();
        CountsCancel(fs.open, mid, open, ROOT_DIR_SECTOR, 1);
      }
    }

    /** `filesys_open`: a handle on the file with the name. */
    method Open(name: string, luck: Luck) returns (r: Option<nat>)
      requires Valid()
      modifies this`open, freeMap.bits
      ensures Valid() && freeMap.View() == old(freeMap.View())
      ensures (forall t :: Removed(open, t) <==> Removed(old(open), t))
      ensures r.Some? ==> r.value in OpenSectors(open) && CountsDiffer(old(open), open, r.value, 1)
      ensures r.Some? ==> exists k :: 0 <= k < |slots| && Matches(slots[k], name) && slots[k].sector == r.value
      ensures r == None ==> SameCounts(old(open), open)
      // with the memory it needs, it finds every file
      ensures r == None && luck.rootInode && luck.dir && luck.inode && luck.file && |slots| <= luck.reach ==>
                forall k | 0 <= k < |slots| :: !Matches(slots[k], name)
    {
      hide Inv, OpenCnt, Removed, Released, CountsDiffer, Live, OpenSectors;
      r := None;
      var dir := DirOpenRoot(luck);
      if dir {
        ghost var a := St();
        var found := Lookup(name, luck.reach);
        ghost var s := ROOT_DIR_SECTOR;
        if found.Some? {
          EntryFacts(St(), found.value);
          s := slots[found.value].sector;
          var got := InodeOpen(slots[found.value].sector, luck.inode);
          if got {
            r := Some(slots[found.value].sector);
          }
        }
        CountsRefl(a.open);
        ghost var b := St();
        StaysOpen(a, b, s, if r.Some? then 1 else 0, ROOT_DIR_SECTOR);
        DirClose();
        OpenedBehindRoot(old(open), a.open, b.open, open, s, if r.Some? then 1 else 0);
        if r.Some? {
          StaysOpen(b, St(), ROOT_DIR_SECTOR, -1, s);
        }
      }
      if r.Some? && !luck.file {
        var s := r.value;
        ghost var b := open;
        NotRemoved(St(), s);
        InodeClose(s);
        NotRemoved(St(), s);
        CountsCancel(old(open), b, open, s, 1);
        r := None;
      }
    }

    /** `dir_remove`: the entry is erased first; the file goes at once if nobody else has it open. */
    method DirRemove(name: string, luck: Luck) returns (ok: bool, ghost k: nat)
      requires Valid()
      modifies this`open, this`slots, freeMap.bits
      ensures Valid() && SameCounts(old(open), open)
      ensures !ok ==> slots == old(slots) && freeMap.View() == old(freeMap.View())
      ensures ok ==> Unlinked(old(St()), St(), name, k)
      ensures forall t | !ok || t != old(slots)[k].sector :: Removed(open, t) <==> Removed(old(open), t)
      ensures luck.inode && luck.entryWrite && |old(slots)| <= luck.reach ==>
                (ok <==> exists j :: 0 <= j < |old(slots)| && Matches(old(slots)[j], name))
    {
      hide Inv, OpenCnt, Removed, Released, CountsDiffer, Live, OpenSectors, SlotSectors, Unlinked, SameCounts;
      ghost var fs := St();
      CountsRefl(open);
      ok, k := false, 0;
      var found := Lookup(name, luck.reach);
      if found == None {
        return;
      }
      k := found.value;
      EntryFacts(fs, k);
      NotRemoved(fs, fs.slots[k].sector);
      var e := slots[found.value];
      var got := InodeOpen(e.sector, luck.inode);
      if !got {
        return;
      }
      ghost var mid := St();
      if luck.entryWrite {
        EntryGone(mid, k);
        slots := slots[found.value := e.(inUse := false)];
        InodeRemove(e.sector);
        ok := true;
      }
      ghost var last := St();
      CountsRefl(mid.open);
      InodeClose(e.sector);
      OpenedAndClosed(fs.open, mid.open, last.open, open, e.sector);
      if ok {
        UnlinkedIs(fs, last, St(), name, k);
      } else {
        NotRemoved(St(), e.sector);
      }
    }

    /** `filesys_remove` */
    method Remove(name: string, luck: Luck) returns (ok: bool, ghost k: nat)
      requires Valid()
      modifies this`open, this`slots, freeMap.bits
      ensures Valid() && SameCounts(old(open), open)
      ensures !ok ==> slots == old(slots) && freeMap.View() == old(freeMap.View())
      ensures ok ==> Unlinked(old(St()), St(), name, k)
      ensures forall t | !ok || t != old(slots)[k].sector :: Removed(open, t) <==> Removed(old(open), t)
      ensures luck.rootInode && luck.dir && luck.inode && luck.entryWrite && |old(slots)| <= luck.reach ==>
                (ok <==> exists j :: 0 <= j < |old(slots)| && Matches(old(slots)[j], name))
    {
      hide Inv, OpenCnt, Removed, Released, CountsDiffer, Live, OpenSectors, SlotSectors, Unlinked, SameCounts, Matches;
      ok, k := false, 0;
      ghost var fs := St();
      var dir := DirOpenRoot(luck);
      if dir {
        ghost var a := St();
        ok, k := DirRemove(name, luck);
        ghost var b := St();
        StaysOpen(a, b, 0, 0, ROOT_DIR_SECTOR);
        DirClose();
        OpenedBehindRoot(fs.open, a.open, b.open, open, 0, 0);
        if ok {
          UnlinkedBehindRoot(fs, a, b, St(), name, k);
        }
      }
    }

    /** `file_close`: gives up a handle. */
    method Close(sector: nat)
      requires Valid() && sector in OpenSectors(open)
      modifies this`open, freeMap.bits
      ensures Valid() && CountsDiffer(old(open), open, sector, -1)
      // sectors become free exactly when the last opener of a removed file closes it
      ensures if old(OpenCnt(open, sector)) == 1 && old(Removed(open, sector))
              then Released(disk, old(freeMap.View()), freeMap.View(), sector) else freeMap.View() == old(freeMap.View())
    {
      hide Inv, OpenCnt, Removed, Released, CountsDiffer;
      InodeClose(sector);
    }

    /** `file_write_at` on an open handle, as far as the file and its bounce buffers go: InodeData.Inode.WriteAt's
        effect. */
    method Write(sector: nat, pos: nat, bytes: seq<I.Byte>, bounceOk: bool, denied: bool) returns (n: nat)
      requires Valid() && sector in OpenSectors(open)
      modifies this`disk
      ensures Valid() && IsFile(old(disk), sector) && IsFile(disk, sector) && disk[sector] == old(disk)[sector]
      ensures denied ==> n == 0 && disk == old(disk)
      // as much of the request as lies inside the file, or without a bounce buffer the whole sectors it starts with
      ensures !denied && bounceOk ==> n == F.Inside(disk[sector].length, pos, |bytes|)
      ensures !denied && !bounceOk && pos % 512 != 0 ==> n == 0
      ensures !denied && !bounceOk && pos % 512 == 0 ==>
                n % 512 == 0 && n <= F.Inside(disk[sector].length, pos, |bytes|) < n + 512
      ensures n <= |bytes| && forall i | 0 <= i < disk[sector].length ::
                F.Data(disk, sector)[i] == if pos <= i < pos + n then bytes[i - pos] else F.Data(old(disk), sector)[i]
      ensures n == F.Count(disk[sector].length, pos, bytes, bounceOk, denied)
      ensures F.Data(disk, sector) == F.Patched(F.Data(old(disk), sector), pos, bytes[..n])
      ensures KeepsFiles(old(disk), disk, Live(old(St())) - {sector})
    {
      hide Inv, OpenCnt, KeepsFiles, Live, F.Data, F.Patched, F.Count, F.Inside;
      IsFileOpen(St(), sector);
      F.CountIs(disk[sector].length, pos, bytes, bounceOk, denied);
      n := F.Count(disk[sector].length, pos, bytes, bounceOk, denied);
      F.PatchedAt(F.Data(disk, sector), pos, bytes[..n]);
      StoreBytes(sector, pos, bytes[..n]);
    }

    /** The bytes that get across are stored in the file's sectors. */
    method StoreBytes(sector: nat, pos: nat, bytes: seq<I.Byte>)
      requires Valid() && sector in OpenSectors(open) && IsFile(disk, sector)
      requires bytes == [] || pos + |bytes| <= disk[sector].length
      modifies this`disk
      ensures Valid() && IsFile(disk, sector) && disk[sector] == old(disk)[sector]
      ensures (bytes == [] ==> disk == old(disk))
      ensures F.Data(disk, sector) == F.Patched(F.Data(old(disk), sector), pos, bytes)
      ensures KeepsFiles(old(disk), disk, Live(old(St())) - {sector})
    {
      hide SlotsOk, OpenCnt, KeepsFiles;
      KeepsAll(disk, Live(St()) - {sector});
      if bytes != [] {
        F.StoredData(disk, sector, pos, bytes);
        F.StoredKeeps(disk, freeMap.View(), Live(St()), sector, pos, bytes);
        hide Placed, F.Stored, F.Data, F.Patched;
        disk := F.Stored(disk, sector, pos, bytes);
      }
    }

    /** One call. */
    method Serve(op: Op) returns (r: Result)
      requires Valid()
      modifies this, freeMap.bits
      ensures Valid() && Next(old(St()), op, St(), r)
    {
      hide Inv, OpenCnt, Removed, Released, Live, OpenSectors, Unlinked, Entered, Blank, KeepsFiles, Matches, CanCreate,
        Lucky, CountsDiffer, SameCounts, F.Data, F.Inside, F.Count, F.Patched, Creates, Taken, Covers;
      ghost var was := St();
      match op {
        case CreateOp(name, size, luck) =>
          var ok, s, k := Create(name, size, luck);
          r := Done(ok);
          CreateDone(was, St(), op, ok, s, k);
        case OpenOp(name, luck) =>
          var h := Open(name, luck);
          r := Handle(h);
        case CloseOp(sector) =>
          IsOpen(open, sector);
          r := Done(exists k | 0 <= k < |open| :: open[k].sector == sector);
          if exists k | 0 <= k < |open| :: open[k].sector == sector {
            Close(sector);
          }
        case RemoveOp(name, luck) =>
          var ok, k := Remove(name, luck);
          r := Done(ok);
        case WriteOp(sector, pos, bytes, bounceOk, denied) =>
          IsOpen(open, sector);
          var n := 0;
          if exists k | 0 <= k < |open| :: open[k].sector == sector {
            n := Write(sector, pos, bytes, bounceOk, denied);
          }
          r := Wrote(n);
      }
    }

    /** Any run of calls, each with the effect the step relation gives it: no two files ever share a sector, and a
        file that is held open throughout keeps its length and, but for what is written to it, its bytes, whoever else
        creates, opens, writes, closes or removes what. */
    method Run(ops: seq<Op>) returns (results: seq<Result>, ghost trace: seq<Fs>)
      requires Valid()
      modifies this, freeMap.bits
      ensures Valid() && IsTrace(trace, ops, results) && trace[0] == old(St()) && trace[|ops|] == St()
      ensures AllHeld(old(St()), St(), ops)
    {
      hide Inv, Next, AllHeld;
      ghost var fs := St();
      HeldRefl(fs);
      results, trace := [], [fs];
      for i := 0 to |ops|
        invariant Valid() && AllHeld(fs, St(), ops[..i]) && IsTrace(trace, ops[..i], results)
        invariant trace[0] == fs && trace[i] == St()
      {
        ghost var was := St();
        var r := Serve(ops[i]);
        TraceMore(trace, ops[..i], results, ops[i], St(), r);
        NextHeld(was, St(), ops[i], r);
        HeldStep(fs, was, St(), ops[..i], ops[i]);
        results, trace := results + [r], trace + [St()];
        assert ops[..i + 1] == ops[..i] + [ops[i]];
      }
      assert ops[..|ops|] == ops;
    }
  }

  /** What a call returns: success, a handle or null, or the number of bytes written. */
  datatype Result = Done(ok: bool) | Handle(h: Option<nat>) | Wrote(n: nat)

  /** The sectors that s owns, and no others, have been marked. */
  ghost predicate Taken(disk: seq<Sector>, free: seq<bool>, free': seq<bool>, s: nat) {
    && |free'| == |free| && (forall i | 0 <= i < |free| :: free'[i] == (free[i] || Owns(disk, s, i)))
    && forall i | 0 <= i < |free| && Owns(disk, s, i) :: !free[i]
  }

  lemma NewFileTaken(disk: seq<Sector>, free: seq<bool>, s: nat, start: nat, length: nat)
    requires |free| == |disk| && s < |disk| && !free[s]
    requires Group(free[s := true], start, I.BytesToSectors(length), false)
    ensures Taken(NewFile(disk, s, start, length), free,
                  WithSet(free[s := true], start, I.BytesToSectors(length), true), s)
  {
    NewFileAdded(disk, free, s, start, length);
    hide NewFile, Owns, IsFile;
  }

  /** What one call does. */
  ghost predicate Next(fs: Fs, op: Op, fs': Fs, r: Result) {
    match op
    case CreateOp(name, size, luck) =>
      && r.Done? && SameCounts(fs.open, fs'.open) && (forall t :: Removed(fs'.open, t) <==> Removed(fs.open, t))
      && KeepsFiles(fs.disk, fs'.disk, Live(fs)) && Covers(fs.free, fs'.free)
      && (if r.ok then exists s: nat, k: nat :: Creates(fs, fs', s, k, name, size, luck) else fs'.slots == fs.slots)
      && (Lucky(luck, fs.slots) ==> (r.ok <==> CanCreate(fs.free, fs.slots, name, size)))
    case OpenOp(name, luck) =>
      && r.Handle? && fs' == fs.(open := fs'.open) && (forall t :: Removed(fs'.open, t) <==> Removed(fs.open, t))
      && (if r.h == None then SameCounts(fs.open, fs'.open)
          else CountsDiffer(fs.open, fs'.open, r.h.value, 1) && r.h.value in OpenSectors(fs'.open)
               && exists k :: 0 <= k < |fs.slots| && Matches(fs.slots[k], name) && fs.slots[k].sector == r.h.value)
      && (r.h == None && luck.rootInode && luck.dir && luck.inode && luck.file && |fs.slots| <= luck.reach ==>
            forall k | 0 <= k < |fs.slots| :: !Matches(fs.slots[k], name))
    case CloseOp(sector) =>
      && r.Done? && (r.ok <==> sector in OpenSectors(fs.open)) && (!r.ok ==> fs' == fs)
      && fs' == fs.(open := fs'.open, free := fs'.free)
      && (r.ok ==> CountsDiffer(fs.open, fs'.open, sector, -1)
                   && if OpenCnt(fs.open, sector) == 1 && Removed(fs.open, sector)
                      then Released(fs.disk, fs.free, fs'.free, sector) else fs'.free == fs.free)
    case RemoveOp(name, luck) =>
      && r.Done? && fs'.disk == fs.disk && SameCounts(fs.open, fs'.open)
      && (if r.ok then exists k: nat :: Unlinked(fs, fs', name, k) else fs'.slots == fs.slots && fs'.free == fs.free)
      && (luck.rootInode && luck.dir && luck.inode && luck.entryWrite && |fs.slots| <= luck.reach ==>
            (r.ok <==> exists j :: 0 <= j < |fs.slots| && Matches(fs.slots[j], name)))
    case WriteOp(sector, pos, bytes, bounceOk, denied) =>
      && r.Wrote? && fs' == fs.(disk := fs'.disk)
      && (sector !in OpenSectors(fs.open) ==> r.n == 0 && fs' == fs)
      && (sector in OpenSectors(fs.open) ==> Writes(fs, fs', sector, pos, bytes, bounceOk, denied, r.n))
  }

  /** A new, blank file in sector s with its entry in slot k */
  ghost predicate Creates(fs: Fs, fs': Fs, s: nat, k: nat, name: string, size: nat, luck: Luck) {
    && s !in Live(fs) && Blank(fs'.disk, s, size) && Entered(fs.slots, fs'.slots, s, k, name, luck)
    && Taken(fs'.disk, fs.free, fs'.free, s) && |F.Data(fs'.disk, s)| == size
    && forall i | 0 <= i < size :: F.Data(fs'.disk, s)[i] == 0
  }

  /** The first n bytes replace a range of the file's, and nothing else changes. */
  ghost predicate Writes(fs: Fs, fs': Fs, sector: nat, pos: nat, bytes: seq<I.Byte>, bounceOk: bool, denied: bool,
                         n: nat) {
    && IsFile(fs.disk, sector) && IsFile(fs'.disk, sector) && fs'.disk[sector] == fs.disk[sector]
    && KeepsFiles(fs.disk, fs'.disk, Live(fs) - {sector}) && n <= |bytes|
    && n == F.Count(fs.disk[sector].length, pos, bytes, bounceOk, denied)
    && forall i | 0 <= i < fs.disk[sector].length ::
         F.Data(fs'.disk, sector)[i] == if pos <= i < pos + n then bytes[i - pos] else F.Data(fs.disk, sector)[i]
  }

  lemma CreateDone(fs: Fs, fs': Fs, op: Op, ok: bool, s: nat, k: nat)
    requires op.CreateOp? && (ok ==> Creates(fs, fs', s, k, op.name, op.size, op.luck))
    ensures ok ==> exists s: nat, k: nat :: Creates(fs, fs', s, k, op.name, op.size, op.luck)
  { }

  /** The states of a run and what its calls returned */
  ghost predicate IsTrace(trace: seq<Fs>, ops: seq<Op>, results: seq<Result>) {
    |trace| == |ops| + 1 && |results| == |ops| && forall i | 0 <= i < |ops| :: Next(trace[i], ops[i], trace[i + 1], results[i])
  }

  lemma TraceMore(trace: seq<Fs>, ops: seq<Op>, results: seq<Result>, op: Op, fs: Fs, r: Result)
    requires IsTrace(trace, ops, results) && Next(trace[|ops|], op, fs, r)
    ensures IsTrace(trace + [fs], ops + [op], results + [r])
  {
    hide Next;
  }

  /** What each step does to the files that are open. */
  lemma NextHeld(fs: Fs, fs': Fs, op: Op, r: Result)
    requires Inv(fs) && Next(fs, op, fs', r)
    ensures FewerBy(fs.open, fs'.open, op) && StepData(fs, fs', op)
  {
    hide Inv, OpenCnt, Removed, Released, Live, OpenSectors, Unlinked, Entered, Blank, KeepsFiles, Matches, CanCreate,
      Lucky, CountsDiffer, SameCounts, F.Data, F.Count, F.Patched, StepData, FewerBy;
    CountsRefl(fs.open);
    NoFewer(fs.open, fs'.open, op);
    if op.WriteOp? && op.sector in OpenSectors(fs.open) {
      WroteIs(fs, fs', op, r.n);
      WriteStep(fs, fs', op);
    } else {
      KeepsAll(fs.disk, Live(fs));
      KeptStep(fs, fs', op);
    }
  }

  lemma WroteIs(fs: Fs, fs': Fs, op: Op, n: nat)
    requires op.WriteOp? && Writes(fs, fs', op.sector, op.pos, op.bytes, op.bounceOk, op.denied, n)
    ensures F.Data(fs'.disk, op.sector) == Effect(F.Data(fs.disk, op.sector), op, op.sector)
  {
    hide F.Data, F.Count, F.Patched;
    F.PatchedAt(F.Data(fs.disk, op.sector), op.pos, op.bytes[..n]);
  }

  /** Removing a file that has just been created gives back exactly the sectors it took. */
  lemma CreateThenRemove(a: Fs, b: Fs, c: Fs, name: string, size: nat, luck: Luck, luck': Luck)
    requires Inv(a) && Next(a, CreateOp(name, size, luck), b, Done(true)) && |a.slots| <= luck.reach
    requires Next(b, RemoveOp(name, luck'), c, Done(true))
    ensures c.free == a.free && SameCounts(a.open, c.open)
    ensures forall j | 0 <= j < |c.slots| :: !Matches(c.slots[j], name)
  {
    hide OpenCnt, Removed, KeepsFiles, CanCreate, Lucky, F.Data, Inv, Live, Blank, Owns;
    var s: nat, k: nat :| Creates(a, b, s, k, name, size, luck);
    assert forall j | 0 <= j < |b.slots| && Matches(b.slots[j], name) :: j == k;
    if OpenCnt(a.open, s) > 0 {
      OpenIsFile(a, s);
    }
  }

  /** A file that has been created can be opened by its name at once, and then reads as zeros. */
  lemma CreateThenOpen(a: Fs, b: Fs, c: Fs, name: string, size: nat, luck: Luck, luck': Luck, h: Option<nat>)
    requires Next(a, CreateOp(name, size, luck), b, Done(true)) && |a.slots| <= luck.reach
    requires Next(b, OpenOp(name, luck'), c, Handle(h))
    requires luck'.rootInode && luck'.dir && luck'.inode && luck'.file && |a.slots| <= luck'.reach
    ensures h.Some? && h.value !in Live(a) && IsFile(c.disk, h.value) && OpenCnt(c.open, h.value) > 0
    ensures |F.Data(c.disk, h.value)| == size && forall i | 0 <= i < size :: F.Data(c.disk, h.value)[i] == 0
  {
    hide OpenCnt, Removed, Live, OpenSectors, KeepsFiles, CanCreate, Lucky, SameCounts, F.Data;
    var s: nat, k: nat :| Creates(a, b, s, k, name, size, luck);
    assert Matches(b.slots[k], name);
    assert forall j | 0 <= j < |b.slots| && Matches(b.slots[j], name) :: j == k;
  }

  datatype Op =
    | CreateOp(name: string, size: nat, luck: Luck)
    | OpenOp(name: string, luck: Luck)
    | CloseOp(sector: nat)
    | RemoveOp(name: string, luck: Luck)
    | WriteOp(sector: nat, pos: nat, bytes: seq<I.Byte>, bounceOk: bool, denied: bool)

  function Closes(ops: seq<Op>, s: nat): nat {
    if ops == [] then 0 else Closes(ops[..|ops| - 1], s) + (if ops[|ops| - 1] == CloseOp(s) then 1 else 0)
  }

  /** The bytes of file s after an operation. */
  function Effect(f: seq<I.Byte>, op: Op, s: nat): (f': seq<I.Byte>)
    ensures |f'| == |f|
  {
    if op.WriteOp? && op.sector == s then F.Patched(f, op.pos, op.bytes[..F.Count(|f|, op.pos, op.bytes, op.bounceOk, op.denied)])
    else f
  }

  function Effects(f: seq<I.Byte>, ops: seq<Op>, s: nat): (f': seq<I.Byte>)
    ensures |f'| == |f|
  {
    if ops == [] then f else Effect(Effects(f, ops[..|ops| - 1], s), ops[|ops| - 1], s)
  }

  /** File s still has n openers, its inode and its sectors, and its bytes are those it had with the writes to it. */
  ghost predicate Held(fs: Fs, fs': Fs, s: nat, n: int, ops: seq<Op>) {
    && OpenCnt(fs'.open, s) >= n && IsFile(fs.disk, s) && IsFile(fs'.disk, s) && fs'.disk[s] == fs.disk[s]
    && F.Data(fs'.disk, s) == Effects(F.Data(fs.disk, s), ops, s)
  }

  /** What one operation does to the files that are open. */
  ghost predicate StepData(was: Fs, now: Fs, op: Op) {
    forall s: nat | OpenCnt(was.open, s) > 0 ::
      && IsFile(was.disk, s) && IsFile(now.disk, s) && now.disk[s] == was.disk[s]
      && F.Data(now.disk, s) == Effect(F.Data(was.disk, s), op, s)
  }

  lemma KeptStep(was: Fs, now: Fs, op: Op)
    requires Inv(was) && KeepsFiles(was.disk, now.disk, Live(was))
    requires !op.WriteOp? || op.sector !in OpenSectors(was.open)
    ensures StepData(was, now, op)
  {
    hide Inv, OpenCnt, Live, F.Data;
    forall s: nat | OpenCnt(was.open, s) > 0
      ensures IsFile(was.disk, s) && IsFile(now.disk, s) && now.disk[s] == was.disk[s]
      ensures F.Data(now.disk, s) == F.Data(was.disk, s)
      ensures s in OpenSectors(was.open)
    {
      OpenIsFile(was, s);
      F.KeptData(was.disk, now.disk, s);
    }
  }

  lemma WriteStep(was: Fs, now: Fs, op: Op)
    requires Inv(was) && op.WriteOp? && KeepsFiles(was.disk, now.disk, Live(was) - {op.sector})
    requires IsFile(was.disk, op.sector) && IsFile(now.disk, op.sector) && now.disk[op.sector] == was.disk[op.sector]
    requires F.Data(now.disk, op.sector) == Effect(F.Data(was.disk, op.sector), op, op.sector)
    ensures StepData(was, now, op)
  {
    hide Inv, OpenCnt, Live, F.Data, F.Patched, F.Count;
    forall s: nat | OpenCnt(was.open, s) > 0 && s != op.sector
      ensures IsFile(was.disk, s) && IsFile(now.disk, s) && now.disk[s] == was.disk[s]
      ensures F.Data(now.disk, s) == F.Data(was.disk, s)
    {
      OpenIsFile(was, s);
      F.KeptData(was.disk, now.disk, s);
    }
  }

  /** Every file with more openers than there are closes is still open and holds what it held. */
  ghost predicate AllHeld(fs: Fs, fs': Fs, ops: seq<Op>) {
    forall s: nat | OpenCnt(fs.open, s) > Closes(ops, s) :: Held(fs, fs', s, OpenCnt(fs.open, s) - Closes(ops, s), ops)
  }

  /** Only closing takes openers away, one at a time. */
  ghost predicate FewerBy(open: seq<Inode>, open': seq<Inode>, op: Op) {
    forall t: nat :: OpenCnt(open', t) >= OpenCnt(open, t) - (if op == CloseOp(t) then 1 else 0)
  }

  lemma NoFewer(open: seq<Inode>, open': seq<Inode>, op: Op)
    requires || SameCounts(open, open') || (op.OpenOp? && exists s :: CountsDiffer(open, open', s, 1))
             || (op.CloseOp? && CountsDiffer(open, open', op.sector, -1))
    ensures FewerBy(open, open', op)
  { }

  lemma IsOpen(open: seq<Inode>, s: nat)
    ensures s in OpenSectors(open) <==> exists k :: 0 <= k < |open| && open[k].sector == s
  { }

  lemma IsFileOpen(fs: Fs, s: nat)
    requires Inv(fs) && s in OpenSectors(fs.open)
    ensures IsFile(fs.disk, s)
  { }

  lemma OpenIsFile(fs: Fs, s: nat)
    requires Inv(fs) && OpenCnt(fs.open, s) > 0
    ensures s in Live(fs) && s in OpenSectors(fs.open) && IsFile(fs.disk, s)
  { }

  lemma HeldRefl(fs: Fs)
    requires Inv(fs)
    ensures AllHeld(fs, fs, [])
  { }

  lemma HeldStep(fs: Fs, was: Fs, now: Fs, ops: seq<Op>, op: Op)
    requires AllHeld(fs, was, ops) && FewerBy(was.open, now.open, op) && StepData(was, now, op)
    ensures AllHeld(fs, now, ops + [op])
  {
    hide OpenCnt, IsFile, F.Data, Effect;
    assert (ops + [op])[..|ops|] == ops;
    forall s: nat | OpenCnt(fs.open, s) > Closes(ops + [op], s)
      ensures Held(fs, now, s, OpenCnt(fs.open, s) - Closes(ops + [op], s), ops + [op])
    {
      assert Held(fs, was, s, OpenCnt(fs.open, s) - Closes(ops, s), ops);
    }
  }

  /** A file has lost its entry; its sectors are free if it was not open, else they stay its own until the last
      close. */
  ghost predicate Unlinked(fs: Fs, fs': Fs, name: string, k: nat) {
    && k < |fs.slots| && Matches(fs.slots[k], name) && fs'.slots == fs.slots[k := fs.slots[k].(inUse := false)]
    && fs'.disk == fs.disk
    && var s := fs.slots[k].sector;
       if OpenCnt(fs.open, s) == 0 then Released(fs.disk, fs.free, fs'.free, s)
       else fs'.free == fs.free && Removed(fs'.open, s)
  }

  lemma UnlinkedIs(fs: Fs, last: Fs, fs': Fs, name: string, k: nat)
    requires k < |fs.slots| && Matches(fs.slots[k], name) && fs'.slots == fs.slots[k := fs.slots[k].(inUse := false)]
    requires fs'.disk == fs.disk && last.free == fs.free && last.disk == fs.disk
    requires var s := fs.slots[k].sector;
             && OpenCnt(last.open, s) == OpenCnt(fs.open, s) + 1 && Removed(last.open, s)
             && (if OpenCnt(last.open, s) == 1 then Released(fs.disk, last.free, fs'.free, s) else fs'.free == last.free)
             && (OpenCnt(last.open, s) > 1 ==> Removed(fs'.open, s))
    ensures Unlinked(fs, fs', name, k)
  { }

  lemma UnlinkedBehindRoot(fs: Fs, a: Fs, b: Fs, c: Fs, name: string, k: nat)
    requires Inv(fs) && CountsDiffer(fs.open, a.open, ROOT_DIR_SECTOR, 1) && Unlinked(a, b, name, k)
    requires a.slots == fs.slots && a.free == fs.free && a.disk == fs.disk
    requires c.slots == b.slots && c.free == b.free && c.disk == b.disk
    requires forall s :: Removed(c.open, s) <==> Removed(b.open, s)
    ensures Unlinked(fs, c, name, k)
  { }

  lemma OpenedAndClosed(a: seq<Inode>, b: seq<Inode>, c: seq<Inode>, d: seq<Inode>, s: nat)
    requires CountsDiffer(a, b, s, 1) && SameCounts(b, c) && CountsDiffer(c, d, s, -1)
    ensures SameCounts(a, d) && OpenCnt(c, s) == OpenCnt(a, s) + 1
  { }

  /** The entry of a file that is open can be erased. */
  lemma EntryGone(fs: Fs, k: nat)
    requires Inv(fs) && k < |fs.slots| && fs.slots[k].inUse && fs.slots[k].sector in OpenSectors(fs.open)
    ensures var slots' := fs.slots[k := fs.slots[k].(inUse := false)];
            Inv(fs.(slots := slots')) && fs.slots[k].sector !in SlotSectors(slots')
  {
    hide Placed;
    EntryErased(fs.slots, k);
    var fs' := fs.(slots := fs.slots[k := fs.slots[k].(inUse := false)]);
    assert Live(fs') == Live(fs);
  }

  /** No entry that can be read has the name. */
  ghost predicate Unseen(slots: seq<Slot>, name: string, reach: nat) {
    forall j | 0 <= j < |slots| && j < reach :: !Matches(slots[j], name)
  }

  /** The search for a free slot ends at slot k: it is the first free one, or the first that cannot be read. */
  ghost predicate StopsAt(slots: seq<Slot>, reach: nat, k: nat) {
    k < |slots| && k <= reach && (k == reach || !slots[k].inUse) && forall j | 0 <= j < k :: slots[j].inUse
  }

  ghost predicate HasStop(slots: seq<Slot>, reach: nat) {
    reach < |slots| || exists j :: 0 <= j < |slots| && !slots[j].inUse
  }

  /** The search is cut short at an entry in use, with no free slot before it. */
  ghost predicate Overwrites(slots: seq<Slot>, reach: nat) {
    reach < |slots| && forall j | 0 <= j <= reach :: slots[j].inUse
  }

  /** The entry for a new file, with a good name that no readable entry has, is where the search for a free slot
      ended. */
  ghost predicate Entered(slots: seq<Slot>, slots': seq<Slot>, s: nat, k: nat, name: string, luck: Luck) {
    NameOk(name) && Unseen(slots, name, luck.reach) &&
    StopsAt(slots, luck.slotReach, k) && slots' == slots[k := Slot(s, name, true)]
  }

  /** A new entry leaves all files their entries if and only if the search was not cut short at one in use. */
  lemma EntriesKept(slots: seq<Slot>, slots': seq<Slot>, s: nat, k: nat, name: string, luck: Luck)
    requires SlotsOk(slots) && s !in SlotSectors(slots) && Entered(slots, slots', s, k, name, luck)
    ensures SlotSectors(slots) <= SlotSectors(slots') <==> !Overwrites(slots, luck.slotReach)
  {
    if slots[k].inUse {
      assert slots[k].sector in SlotSectors(slots);
      assert forall j | 0 <= j < |slots'| && slots'[j].inUse :: slots'[j].sector != slots[k].sector;
    } else {
      forall t | t in SlotSectors(slots)
        ensures t in SlotSectors(slots')
      {
        var j :| 0 <= j < |slots| && slots[j].inUse && slots[j].sector == t;
        assert slots'[j] == slots[j];
      }
    }
  }

  /** With no buffer to read even the first entry, file b takes the place of file a. */
  lemma EntryLost()
    ensures var slots, slots' := [Slot(2, "a", true), Slot(0, "", false)], [Slot(3, "b", true), Slot(0, "", false)];
            var luck := Luck(true, true, true, true, true, 0, 0, true, true, true);
            Entered(slots, slots', 3, 0, "b", luck) && Matches(slots[0], "a") &&
            forall j | 0 <= j < |slots'| :: !Matches(slots'[j], "a")
  { }

  lemma EnteredIs(slots: seq<Slot>, slots': seq<Slot>, s: nat, k: nat, name: string, luck: Luck)
    requires NameOk(name) && Unseen(slots, name, luck.reach) && StopsAt(slots, luck.slotReach, k)
    requires slots' == slots[k := Slot(s, name, true)]
    ensures Entered(slots, slots', s, k, name, luck)
  { }

  lemma Sizes(fs: Fs)
    requires Inv(fs)
    ensures |fs.free| == |fs.disk|
  { }

  lemma OpenIff(open: seq<Inode>, disk: seq<Sector>, slots: seq<Slot>, s: nat)
    requires OpenOk(open, disk, slots)
    ensures s in OpenSectors(open) <==> OpenCnt(open, s) > 0
  { }

  lemma EntryFacts(fs: Fs, k: nat)
    requires Inv(fs) && k < |fs.slots| && fs.slots[k].inUse
    ensures fs.slots[k].sector >= 2 && fs.slots[k].sector in SlotSectors(fs.slots) && fs.slots[k].sector in Live(fs)
  { }

  lemma StaysOpen(fs: Fs, fs': Fs, s: nat, d: int, t: nat)
    requires Inv(fs) && Inv(fs') && t in OpenSectors(fs.open) && (d >= 0 || t != s)
    requires if d == 0 then SameCounts(fs.open, fs'.open) else CountsDiffer(fs.open, fs'.open, s, d)
    ensures t in OpenSectors(fs'.open)
  {
    hide OpenCnt, Placed, SlotsOk, OpenOk;
    OpenIff(fs.open, fs.disk, fs.slots, t);
    OpenIff(fs'.open, fs'.disk, fs'.slots, t);
  }

  /** The openers of a file that is opened while the root directory is. */
  lemma OpenedBehindRoot(o: seq<Inode>, a: seq<Inode>, b: seq<Inode>, c: seq<Inode>, s: nat, d: int)
    requires CountsDiffer(o, a, ROOT_DIR_SECTOR, 1) && CountsDiffer(b, c, ROOT_DIR_SECTOR, -1)
    requires if d == 0 then SameCounts(a, b) else CountsDiffer(a, b, s, d)
    ensures if d == 0 then SameCounts(o, c) else CountsDiffer(o, c, s, d)
  { }

  /** Opening the root directory adds no file to the live ones. */
  lemma RootOpenLive(fs: Fs, fs': Fs)
    requires Inv(fs) && Inv(fs') && fs'.slots == fs.slots && CountsDiffer(fs.open, fs'.open, ROOT_DIR_SECTOR, 1)
    ensures Live(fs') == Live(fs)
  {
    hide OpenCnt, Placed, SlotsOk, OpenOk;
    forall s: nat
      ensures s in OpenSectors(fs'.open) <==> s in OpenSectors(fs.open) || (s == ROOT_DIR_SECTOR && s in OpenSectors(fs'.open))
    {
      OpenIff(fs.open, fs.disk, fs.slots, s);
      OpenIff(fs'.open, fs'.disk, fs'.slots, s);
    }
  }

  lemma CountsRefl(open: seq<Inode>)
    ensures SameCounts(open, open)
  { }

  lemma CountsCancel(a: seq<Inode>, b: seq<Inode>, c: seq<Inode>, s: nat, d: int)
    requires CountsDiffer(a, b, s, d) && CountsDiffer(b, c, s, 0 - d)
    ensures SameCounts(a, c)
  { }

  /** A system file, or a file with an entry, has not been removed. */
  lemma NotRemoved(fs: Fs, s: nat)
    requires Inv(fs) && (s < 2 || s in SlotSectors(fs.slots))
    ensures s in Live(fs) && !Removed(fs.open, s)
  { }

  lemma KeepsAll(disk: seq<Sector>, live: set<nat>)
    ensures KeepsFiles(disk, disk, live)
  { }

  lemma RemovedAt(open: seq<Inode>, k: nat)
    requires OnePerSector(open) && k < |open|
    ensures Removed(open, open[k].sector) <==> open[k].removed
  { }

  lemma NowRemoved(open: seq<Inode>, k: nat)
    requires k < |open|
    ensures forall s :: Removed(open[k := open[k].(removed := true)], s) <==> Removed(open, s) || s == open[k].sector
  {
    var open' := open[k := open[k].(removed := true)];
    assert open'[k].removed;
    forall s
      ensures Removed(open', s) <==> Removed(open, s) || s == open[k].sector
    {
      if j :| 0 <= j < |open| && open[j].sector == s && open[j].removed {
        assert open'[j].sector == s && open'[j].removed;
      }
    }
  }

  lemma DropRemoved(open: seq<Inode>, k: nat)
    requires OnePerSector(open) && k < |open|
    ensures forall s | s != open[k].sector :: Removed(open[..k] + open[k + 1..], s) <==> Removed(open, s)
  {
    var open' := open[..k] + open[k + 1..];
    forall s | s != open[k].sector
      ensures Removed(open', s) <==> Removed(open, s)
    {
      if j :| 0 <= j < |open| && open[j].sector == s && open[j].removed {
        var i := if j < k then j else j - 1;
        assert open'[i].sector == s && open'[i].removed;
      }
    }
  }

  lemma MarkedOwn(fs: Fs, k: nat)
    requires Inv(fs) && k < |fs.open|
    ensures var e := fs.open[k];
            Group(fs.free, e.sector, 1, true) && Group(fs.free, e.start, I.BytesToSectors(e.length), true)
            && Group(WithSet(fs.free, e.sector, 1, false), e.start, I.BytesToSectors(e.length), true)
  {
    var e := fs.open[k];
    assert e.sector in OpenSectors(fs.open);
    assert OwnMarked(fs.disk, fs.free, e.sector);
    assert Owns(fs.disk, e.sector, e.sector);
    assert forall i | e.start <= i < e.start + I.BytesToSectors(e.length) :: Owns(fs.disk, e.sector, i) && fs.free[i];
  }

  lemma ReleasedOwn(fs: Fs, k: nat, free': seq<bool>)
    requires Inv(fs) && k < |fs.open|
    requires free' ==
               WithSet(WithSet(fs.free, fs.open[k].sector, 1, false), fs.open[k].start, I.BytesToSectors(fs.open[k].length), false)
    ensures Released(fs.disk, fs.free, free', fs.open[k].sector)
    ensures forall i | 0 <= i < |free'| && !Owns(fs.disk, fs.open[k].sector, i) :: free'[i] == fs.free[i]
  {
    assert fs.open[k].sector in OpenSectors(fs.open);
    assert IsFile(fs.disk, fs.open[k].sector);
  }

  lemma SameRemoved(open: seq<Inode>, k: nat, e: Inode)
    requires k < |open| && e.sector == open[k].sector && e.removed == open[k].removed
    ensures forall s :: Removed(open[k := e], s) <==> Removed(open, s)
  {
    var open' := open[k := e];
    forall s
      ensures Removed(open', s) <==> Removed(open, s)
    {
      if j :| 0 <= j < |open| && open[j].sector == s && open[j].removed {
        assert open'[j].sector == s && open'[j].removed;
      }
    }
  }

  lemma PushRemoved(open: seq<Inode>, e: Inode)
    requires !e.removed
    ensures forall s :: Removed([e] + open, s) <==> Removed(open, s)
  {
    forall s
      ensures Removed([e] + open, s) <==> Removed(open, s)
    {
      if j :| 0 <= j < |open| && open[j].sector == s && open[j].removed {
        assert ([e] + open)[j + 1].sector == s && ([e] + open)[j + 1].removed;
      }
    }
  }
}
