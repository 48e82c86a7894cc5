/** Demand paging for one address space: vm/vm.c with its anonymous, file-backed and uninitialised pages. */
module Paging {
  import opened PagingState
  import opened FlatMemory
  import opened Sequences

  datatype Outcome = Ok | Fail | Panic

  lemma {:induction false} ConcatSectors(s: seq<seq<Byte>>, m: seq<Byte>)
    requires |m| == SECTOR * |s| && forall i | 0 <= i < |s| :: s[i] == m[SECTOR * i..SECTOR * i + SECTOR]
    ensures Concat(s) == m
  {
    if s != [] {
      var n := |s| - 1;
      var t, l := s[..n], m[..SECTOR * n];
      forall i | 0 <= i < n
        ensures t[i] == l[SECTOR * i..SECTOR * i + SECTOR]
      {
        assert t[i] == s[i];
      }
      ConcatSectors(t, l);
      assert m == l + m[SECTOR * n..SECTOR * n + SECTOR];
    }
  }

  lemma SlotIs(disk: seq<seq<Byte>>, n: nat, m: seq<Byte>)
    requires 8 * n + 8 <= |disk| && |m| == PGSIZE
    requires forall i | 0 <= i < 8 :: disk[8 * n + i] == m[SECTOR * i..SECTOR * i + SECTOR]
    ensures Slot(disk, n) == m
  {
    var s := disk[8 * n..8 * n + 8];
    assert forall i | 0 <= i < 8 :: s[i] == disk[8 * n + i];
    ConcatSectors(s, m);
  }

  class Vm {
    var pages: map<nat, Page>
    var frames: map<nat, Option<nat>>
    var frameList: seq<nat>
    var free: set<nat>
    var memory: map<nat, seq<Byte>>
    var table: map<nat, Pte>
    var stale: map<nat, Pte>
    var tabled: set<nat>
    var swapMap: seq<bool>
    var swapDisk: seq<seq<Byte>>
    var files: map<nat, seq<Byte>>
    var denied: set<nat>

    ghost function St(): State
      reads this
    {
      State(pages, frames, frameList, free, memory, table, stale, tabled, swapMap, swapDisk, files, denied)
    }

    ghost predicate Valid()
      reads this
    {
      Inv(St(), None)
    }

    /** No pages yet: the user pool is free, and so is every swap slot that has its eight sectors. */
    constructor (pool: map<nat, seq<Byte>>, disk: seq<seq<Byte>>, files: map<nat, seq<Byte>>, denied: set<nat>)
      requires pool != map[] && (forall k | k in pool :: |pool[k]| == PGSIZE)
      requires forall i | 0 <= i < |disk| :: |disk[i]| == SECTOR
      ensures Valid() && pages == map[] && free == pool.Keys && memory == pool && swapDisk == disk
      ensures |swapMap| == |disk| / 8 && (forall i | 0 <= i < |swapMap| :: !swapMap[i]) && this.files == files
      ensures this.denied == denied
    {
      pages, frames, frameList, free, memory := map[], map[], [], pool.Keys, pool;
      table, stale, tabled := map[], map[], {};
      swapMap, swapDisk := seq(|disk| / 8, _ => false), disk;
      this.files, this.denied := files, denied;
    }

    /** Writes an anonymous page's eight sectors to the first free swap slot and unmaps it; panics when swap is full. */
    method AnonSwapOut(va: nat, k: nat) returns (ok: bool, n: nat)
      requires va in pages && va in table && k in memory && |memory[k]| == PGSIZE && 8 * |swapMap| <= |swapDisk|
      requires forall i | 0 <= i < |swapDisk| :: |swapDisk[i]| == SECTOR
      modifies this`pages, this`swapMap, this`swapDisk, this`table, this`stale
      ensures !ok ==> St() == old(St()) && forall i | 0 <= i < |swapMap| :: swapMap[i]
      ensures ok ==> n < |old(swapMap)| && !old(swapMap)[n] && swapMap == old(swapMap)[n := true]
      ensures ok ==> pages == old(pages)[va := old(pages)[va].(slot := n)] && table == old(table) - {va}
      ensures ok ==> stale == old(stale)[va := old(table)[va]]
      ensures ok ==> SlotWritten(old(St()), n, swapDisk, memory[k])
    {
      n := 0;
      while n < |swapMap| && swapMap[n]
        invariant n <= |swapMap| && forall i | 0 <= i < n :: swapMap[i]
      {
        n := n + 1;
      }
      if n == |swapMap| {
        return false, n;
      }
      swapMap := swapMap[n := true];
      for i := 0 to 8
        modifies this`swapDisk
        invariant |swapDisk| == |old(swapDisk)| && forall j | 0 <= j < |swapDisk| :: |swapDisk[j]| == SECTOR
        invariant forall j | 0 <= j < |swapDisk| && !(8 * n <= j < 8 * n + 8) :: swapDisk[j] == old(swapDisk)[j]
        invariant forall j | 0 <= j < i :: swapDisk[8 * n + j] == memory[k][SECTOR * j..SECTOR * j + SECTOR]
      {
        swapDisk := swapDisk[n * 8 + i := memory[k][SECTOR * i..SECTOR * i + SECTOR]];
      }
      SlotIs(swapDisk, n, memory[k]);
      pages := pages[va := pages[va].(slot := n)];
      stale := stale[va := table[va]];
      table := table - {va};
      ok := true;
    }

    /** Reads the page back from its slot, sector by sector, and frees the slot. */
    method AnonSwapIn(va: nat, k: nat)
      requires va in pages && 0 <= pages[va].slot < |swapMap| && 8 * |swapMap| <= |swapDisk|
      requires forall i | 0 <= i < |swapDisk| :: |swapDisk[i]| == SECTOR
      requires k in memory && |memory[k]| == PGSIZE
      modifies this`pages, this`swapMap, this`memory
      ensures memory == old(memory)[k := Slot(swapDisk, old(pages)[va].slot)] && |memory[k]| == PGSIZE
      ensures swapMap == old(swapMap)[old(pages)[va].slot := false]
      ensures pages == old(pages)[va := old(pages)[va].(slot := NO_SLOT)]
    {
      var n := pages[va].slot;
      for i := 0 to 8
        modifies this`memory
        invariant memory.Keys == old(memory).Keys && |memory[k]| == PGSIZE
        invariant forall j | j in memory && j != k :: memory[j] == old(memory)[j]
        invariant forall j | 0 <= j < i :: memory[k][SECTOR * j..SECTOR * j + SECTOR] == swapDisk[8 * n + j]
      {
        ghost var was := memory[k];
        var sector := swapDisk[n * 8 + i];
        memory := memory[k := memory[k][..SECTOR * i] + sector + memory[k][SECTOR * i + SECTOR..]];
        SectorPlaced(was, i, sector, memory[k]);
      }
      SlotIs(swapDisk, n, memory[k]);
      swapMap := swapMap[n := false];
      pages := pages[va := pages[va].(slot := NO_SLOT)];
    }

    /** Writes a dirty file page back, as far as the file takes it, and unmaps it. */
    method FileSwapOut(va: nat, reach: nat)
      requires va in pages && pages[va].info.Some? && va in table && table[va].kva in memory
      requires InfoFits(St(), pages[va].info.value) && pages[va].info.value.readBytes <= |memory[table[va].kva]|
      modifies this`files, this`table, this`stale
      ensures WrittenBack(old(St()), va, reach, files)
      ensures table == old(table) - {va} && stale == old(stale)[va := old(table)[va].(dirty := false)]
    {
      var i := pages[va].info.value;
      if table[va].dirty {
        // file_write_at returns the number of bytes written, which nobody looks at
        var sent := if i.file in denied then 0 else if reach < i.readBytes then reach else i.readBytes;
        files := files[i.file := Patched(files[i.file], i.ofs, memory[table[va].kva][..sent])];
      }
      table := table[va := table[va].(dirty := false)];
      stale := stale[va := table[va]];
      table := table - {va};
    }

    /** `swap_out (page)`: what the page's operations do. */
    method SwapOutPage(va: nat, k: nat, reach: nat) returns (ok: bool, ghost n: nat)
      requires Valid() && CanEvict(St(), va, k)
      modifies this`pages, this`swapMap, this`swapDisk, this`table, this`stale, this`files
      ensures ok <==> !(old(pages)[va].ops == AnonOps && SwapFull(old(St())))
      ensures !ok ==> St() == old(St())
      ensures ok ==> SwapOutOk(old(St()), va, k, n, reach, swapDisk, files)
      ensures ok ==> St() == AfterSwapOut(old(St()), va, n, swapDisk, files)
    {
      hide FramesOk, LinksOk, SwapOk, FilesOk, NoOverlap, SlotWritten, WrittenBack, InfoFits;
      VictimFacts(St(), va, k);
      SwapFacts(St());
      FileFacts(St(), va);
      ok, n := true, 0;
      if pages[va].ops == AnonOps {
        ok, n := AnonSwapOut(va, k);
      } else {
        FileSwapOut(va, reach);
      }
    }

    /** Swaps out the page at the front of the frame list and returns its frame. */
    method EvictFrame(reach: nat) returns (outcome: Outcome, k: nat)
      requires Valid() && frameList != []
      modifies this
      ensures outcome == (if VictimStuck(old(St())) then Panic else Ok)
      ensures outcome == Panic ==> St() == old(St())
      ensures outcome == Ok ==> Evicted(old(St()), St(), k, reach)
      // first in, first out
      ensures outcome == Ok ==> k == old(frameList)[0] && frameList == old(frameList)[1..] && free == old(free)
    {
      hide FramesOk, LinksOk, SwapOk, FilesOk, NoOverlap, Evicted, SwapOutOk;
      k := frameList[0];
      VictimOf(St());
      var va := frames[k].value;
      VictimFacts(St(), va, k);
      var ok, n := SwapOutPage(va, k, reach);
      if !ok {
        return Panic, k;
      }
      frameList := frameList[1..];
      pages := pages[va := pages[va].(frame := None)];
      frames := frames[k := None];
      EvictDone(old(St()), va, k, n, reach, swapDisk, files, St());
      outcome := Ok;
    }

    /** A frame for a new resident: one from the pool, or else the evicted one. It goes to the back of the frame
        list. */
    method GetFrame(reach: nat) returns (outcome: Outcome, k: nat)
      requires Valid()
      modifies this
      ensures outcome == (if NoFrame(old(St())) then Panic else Ok)
      ensures outcome == Panic ==> St() == old(St())
      ensures outcome == Ok ==> GotFrame(old(St()), St(), k, reach)
      // the new frame is last on the list, the others keep their order, and one is evicted only if none is free
      ensures outcome == Ok && old(free) != {} ==>
                k in old(free) && free == old(free) - {k} && frameList == old(frameList) + [k]
      ensures outcome == Ok && old(free) == {} ==>
                old(frameList) != [] && k == old(frameList)[0] && free == {} && frameList == old(frameList)[1..] + [k]
    {
      hide FramesOk, LinksOk, SwapOk, FilesOk, NoOverlap, Bytes, Moved, Evicted;
      if free != {} {
        k :| k in free;
        NewFrame(St(), k);
        free := free - {k};
        frames := frames[k := None];
        outcome := Ok;
        frameList := frameList + [k];
        assert St() == WithNewFrame(old(St()), k);
        NothingMoved(old(St()));
      } else {
        PoolNotEmpty(St());
        outcome, k := EvictFrame(reach);
        if outcome == Panic {
          return;
        }
        ghost var s := St();
        frameList := frameList + [k];
        EvictedGot(old(St()), s, k, reach);
      }
    }

    /** Fills the frame with the page's part of the file and zeros; a short read frees the frame again. */
    method LazyLoadSegment(va: nat, k: nat, reach: nat) returns (ok: bool)
      requires va in pages && pages[va].info.Some? && k in memory && |memory[k]| == PGSIZE
      requires pages[va].info.value.readBytes + pages[va].info.value.zeroBytes == PGSIZE
      modifies this`memory, this`free
      ensures ok <==> Readable(files, pages[va].info.value) && reach >= pages[va].info.value.readBytes
      ensures ok ==> free == old(free) && memory == old(memory)[k := LoadedBytes(files, pages[va].info.value)]
      ensures ok ==> var i := pages[va].info.value;
                     |memory[k]| == PGSIZE && (forall j | 0 <= j < i.readBytes :: memory[k][j] == files[i.file][i.ofs + j])
                     && forall j | i.readBytes <= j < PGSIZE :: memory[k][j] == 0
      ensures !ok ==> free == old(free) + {k}
    {
      var i := pages[va].info.value;
      var length := if i.file in files then |files[i.file]| else 0;
      var left := if length < i.ofs then 0 else if length - i.ofs < i.readBytes then length - i.ofs else i.readBytes;
      var got := if reach < left then reach else left;
      var bytes := if got == 0 then [] else files[i.file][i.ofs..i.ofs + got];
      memory := memory[k := bytes + memory[k][got..]];
      if got != i.readBytes {
        free := free + {k};
        return false;
      }
      memory := memory[k := memory[k][..i.readBytes] + Zeros(i.zeroBytes)];
      assert memory[k] == bytes + Zeros(i.zeroBytes);
      ok := true;
    }

    /** `swap_in (page, kva)`: an uninitialised page first becomes what it was made for, once and for all. The second
        result says whether the frame was filled; a file page reports success even if it was not. */
    method SwapIn(va: nat, k: nat, reach: nat) returns (ok: bool, loaded: bool)
      requires SwapInReady(St(), va, k)
      modifies this`pages, this`swapMap, this`memory, this`free
      ensures (ok <==> CanInit(old(St()), va, reach)) && (loaded <==> CanLoad(old(St()), va, reach))
      ensures !loaded ==> free == old(free) + {k}
      ensures loaded ==> k in memory && |memory[k]| == PGSIZE && St() == AfterSwapIn(old(St()), va, k, memory[k])
      ensures loaded ==> IsContent(old(St()), va, memory[k])
    {
      var p := pages[va];
      match p.ops
      case UninitOps =>
        pages := pages[va := p.(ops := p.target, slot := if p.target == AnonOps then NO_SLOT else p.slot)];
        if p.info.Some? {
          ok := LazyLoadSegment(va, k, reach);
        } else {
          ok := true;
          assert memory == memory[k := memory[k]];
        }
        loaded := ok;
      case AnonOps =>
        AnonSwapIn(va, k);
        ok, loaded := true, true;
      case FileOps =>
        loaded := LazyLoadSegment(va, k, reach);
        ok := true;
    }

    /** `pml4_set_page`, which may have to allocate tables */
    method SetPage(va: nat, k: nat, writable: bool, tableMem: bool) returns (ok: bool)
      modifies this`table, this`stale, this`tabled
      ensures ok <==> va in old(tabled) || tableMem
      ensures ok ==> table == old(table)[va := Pte(k, writable, false)] && stale == old(stale) - {va}
      ensures ok ==> tabled == old(tabled) + {va}
      ensures !ok ==> table == old(table) && stale == old(stale) && tabled == old(tabled)
    {
      ok := va in tabled || tableMem;
      if ok {
        tabled := tabled + {va};
        table := table[va := Pte(k, writable, false)];
        stale := stale - {va};
      }
    }

    /** Claims a page that is not resident: gives it a frame, maps it and loads it. */
    method DoClaimPage(va: nat, luck: Luck) returns (outcome: Outcome, loaded: bool)
      requires Valid() && va in pages && pages[va].frame == None
      modifies this
      ensures outcome == Panic <==> NoFrame(old(St()))
      ensures outcome == Panic ==> St() == old(St())
      // a claim that gets its frame succeeds exactly when the page can be mapped and, at its first load, filled
      ensures outcome != Panic ==>
                (outcome == Ok <==> (va in old(tabled) || luck.tableMem) && CanInit(old(St()), va, luck.readReach))
      // the state is sound afterwards exactly when, besides, a file page that comes back is filled, which the code does not check
      ensures outcome == Ok ==> (loaded <==> CanLoad(old(St()), va, luck.readReach))
      ensures outcome != Panic ==> (Valid() <==> outcome == Ok && loaded)
      ensures outcome == Ok && loaded ==> Claimed(old(St()), St(), va, luck.writeReach)
    {
      hide Inv, Bytes, GotFrame, Claimed, CanInit, CanLoad, NoFrame;
      ghost var s := St();
      var k: nat;
      loaded := false;
      outcome, k := GetFrame(luck.writeReach);
      if outcome == Ok {
        outcome, loaded := InstallPage(va, k, luck, s);
      }
    }

    /** The rest of the claim, with a frame at hand: the links, the mapping, the content. */
    method InstallPage(va: nat, k: nat, luck: Luck, ghost s: State) returns (outcome: Outcome, loaded: bool)
      requires Inv(s, None) && GotFrame(s, St(), k, luck.writeReach) && va in s.pages && s.pages[va].frame == None
      modifies this
      ensures outcome == Ok <==> (va in s.tabled || luck.tableMem) && CanInit(s, va, luck.readReach)
      ensures outcome != Panic && (outcome == Ok ==> (loaded <==> CanLoad(s, va, luck.readReach)))
      ensures Valid() <==> outcome == Ok && loaded
      ensures outcome == Ok && loaded ==> Claimed(s, St(), va, luck.writeReach)
    {
      hide Inv, Bytes, Kept, GotFrame, IsContent, KindOk, Claimed, LoadedBytes, Readable, CanInit, CanLoad, AfterSwapIn,
        SwapInReady, Mapped, NoFrame;
      loaded := false;
      ghost var t := St();
      GotFacts(s, t, k, va, luck);
      frames := frames[k := Some(va)];
      pages := pages[va := pages[va].(frame := Some(k))];
      var ok := SetPage(va, k, pages[va].writable, luck.tableMem);
      if !ok {
        UnmappedBroken(s, St(), va);
        return Fail, false;
      }
      ghost var u := St();
      MappedIs(t, u, va, k, luck);
      ok, loaded := SwapIn(va, k, luck.readReach);
      if !loaded {
        FreedBroken(St(), k);
      } else {
        LoadInits(u, va, luck.readReach);
        ClaimDone(s, t, va, k, memory[k], luck.writeReach, St());
      }
      outcome := if ok then Ok else Fail;
    }

    /** `vm_alloc_page_with_initializer`: a descriptor for a page that is loaded on its first fault. */
    method AllocPage(va: nat, target: Ops, writable: bool, info: Option<FileInfo>) returns (ok: bool)
      requires Valid() && KindOk(FreshPage(target, writable, info))
      modifies this`pages
      ensures ok <==> va !in old(pages)
      ensures St() == old(St()).(pages := pages)
      ensures pages.Keys == old(pages).Keys + {va} && forall w | w in old(pages) :: pages[w] == old(pages)[w]
      ensures ok ==> pages[va] == Page(UninitOps, target, None, writable, NO_SLOT, info)
      // only pages that share bytes of a file can be in each other's way
      ensures InvAlone(St(), None) && (NoOverlap(pages) ==> Valid())
      ensures forall w | w in old(pages) :: Bytes(St(), w) == Bytes(old(St()), w)
    {
      hide FramesOk, LinksOk, SwapOk, FilesOk, Bytes, NoOverlap;
      if va in pages {
        return false;
      }
      Alloc(St(), va, FreshPage(target, writable, info));
      pages := pages[va := FreshPage(target, writable, info)];
      ok := true;
    }

    /** A user access to an address: a fault on a page that is not mapped claims it. */
    method Access(addr: nat, luck: Luck) returns (outcome: Outcome, loaded: bool, ghost held: seq<Byte>)
      requires Valid()
      modifies this
      ensures outcome == Ok && loaded <==> Reachable(old(St()), addr, luck)
      ensures outcome == Ok && loaded ==> Valid() && held == Bytes(St(), PageOf(addr)) && PageOf(addr) in table
      ensures outcome == Ok && loaded ==> Accessed(old(St()), St(), PageOf(addr), held, luck.writeReach)
      ensures outcome == Ok ==> (Valid() <==> loaded)
    {
      hide FramesOk, LinksOk, SwapOk, FilesOk, NoOverlap, Bytes, Claimed, CanInit, CanLoad, NoFrame, Accessed;
      var va := PageOf(addr);
      held, loaded := Bytes(St(), va), true;
      if va in table {
        StaysPut(St(), va, luck.writeReach);
        return Ok, true, held;
      }
      if va !in pages {
        return Fail, false, held;
      }
      NotResident(St(), va);
      outcome, loaded := DoClaimPage(va, luck);
      held := Bytes(St(), va);
      LoadInits(old(St()), va, luck.readReach);
      if outcome == Ok && loaded {
        ClaimedFacts(old(St()), St(), va, luck.writeReach);
      }
    }

    /** Loads a byte. */
    method UserRead(addr: nat, luck: Luck) returns (outcome: Outcome, loaded: bool, b: Byte, ghost held: seq<Byte>)
      requires Valid()
      modifies this
      ensures outcome == Ok && loaded <==> Served(old(St()), ReadOp(addr, luck))
      ensures outcome == Ok && loaded ==> Valid() && Did(old(St()), St(), ReadOp(addr, luck), held, b)
    {
      hide FramesOk, LinksOk, SwapOk, FilesOk, NoOverlap, Bytes, Accessed, Reachable;
      b := 0;
      outcome, loaded, held := Access(addr, luck);
      if outcome == Ok && loaded {
        ResidentBytes(St(), PageOf(addr), addr % PGSIZE);
        b := memory[table[PageOf(addr)].kva][addr % PGSIZE];
      }
    }

    /** Stores a byte; a store through a mapping that is not writable is the process's fault. */
    method UserWrite(addr: nat, b: Byte, luck: Luck) returns (outcome: Outcome, loaded: bool, ghost held: seq<Byte>)
      requires Valid()
      modifies this
      ensures outcome == Ok && loaded <==> Served(old(St()), WriteOp(addr, b, luck))
      ensures outcome == Ok && loaded ==> Valid() && Did(old(St()), St(), WriteOp(addr, b, luck), held, 0)
    {
      hide FramesOk, LinksOk, SwapOk, FilesOk, NoOverlap, Bytes, Accessed, Reachable;
      outcome, loaded, held := Access(addr, luck);
      if outcome == Ok && loaded {
        var va := PageOf(addr);
        RightsKept(old(St()), St(), va, held, luck.writeReach);
        if !table[va].writable {
          return Fail, true, held;
        }
        ghost var s := St();
        Write(s, va, addr % PGSIZE, b);
        var k := table[va].kva;
        memory := memory[k := memory[k][addr % PGSIZE := b]];
        table := table[va := table[va].(dirty := true)];
        assert St() == WithWrite(s, va, addr % PGSIZE, b);
        WroteByte(old(St()), s, St(), va, held, luck.writeReach);
      }
    }

    /** One access or new page. */
    method Serve(op: Op) returns (served: bool, b: Byte, ghost held: seq<Byte>)
      requires Valid()
      modifies this
      ensures served <==> Served(old(St()), op)
      ensures served ==> Valid() && Did(old(St()), St(), op, held, b)
    {
      hide FramesOk, LinksOk, SwapOk, FilesOk, NoOverlap, Bytes, Reachable, Accessed, InvAlone;
      b, held := 0, [];
      match op {
        case ReadOp(addr, luck) =>
          var outcome, loaded;
          outcome, loaded, b, held := UserRead(addr, luck);
          served := outcome == Ok && loaded;
        case WriteOp(addr, c, luck) =>
          var outcome, loaded;
          outcome, loaded, held := UserWrite(addr, c, luck);
          served := outcome == Ok && loaded;
        case AllocOp(va, target, writable, info) =>
          served := Fits(pages, va, FreshPage(target, writable, info));
          if served && va !in pages {
            var _ := AllocPage(va, target, writable, info);
            assert pages == old(pages)[va := FreshPage(target, writable, info)];
          }
      }
    }

    /** Any run of accesses and new pages, up to the first one that is not served: every page that keeps its writes
        holds, and every read of one returned, what flat memory would, however often pages were evicted and claimed in
        between. The first contents of a page are its bytes at the start, or what it was made with, even if that was
        loaded later. */
    method Run(ops: seq<Op>)
      returns (done: nat, results: seq<Byte>, ghost first: map<nat, seq<Byte>>, ghost last: State)
      requires Valid()
      modifies this
      ensures done <= |ops| && Inv(last, None)
      ensures if done == |ops| then St() == last else !Served(last, ops[done])
      ensures SameKinds(old(St()), last) && MadeBy(old(St()), last, ops[..done]) && FlatStart(old(St()), last, first)
      ensures FlatState(first, last, ops[..done]) && FlatReads(first, last, ops[..done], results)
    {
      hide FramesOk, LinksOk, SwapOk, FilesOk, NoOverlap, Bytes, Moved, Did, Served, Since, FlatStart, FlatState,
        FlatReads;
      ghost var s := St();
      done, results := 0, [];
      first, last := FirstBytes(s), s;
      FlatNothing(s, first) by {
        AllSized(s);
      }
      while done < |ops|
        invariant done <= |ops| && Valid() && St() == last && Since(s, last, ops[..done]) && FlatStart(s, last, first)
        invariant FlatState(first, last, ops[..done]) && FlatReads(first, last, ops[..done], results)
      {
        SinceKinds(s, last, ops[..done]);
        var op := ops[done];
        var served, b, held := Serve(op);
        if !served {
          return;
        }
        FlatStep(s, last, St(), first, ops[..done], op, held, b, results);
        first, last := Noted(first, last, op, held), St();
        assert ops[..done + 1] == ops[..done] + [op];
        results := results + [b];
        done := done + 1;
      }
      SinceKinds(s, last, ops[..done]);
    }
  }

  /** No more slots, and the front of the frame list needs one. */
  ghost predicate VictimStuck(s: State) {
    SwapFull(s) && s.frameList != [] && s.frameList[0] in s.frames && s.frames[s.frameList[0]].Some?
    && IsAnon(s, s.frames[s.frameList[0]].value)
  }

  ghost predicate SwapFull(s: State) {
    forall i | 0 <= i < |s.swapMap| :: s.swapMap[i]
  }

  /** The kernel panics when it needs a frame. */
  ghost predicate NoFrame(s: State) {
    s.free == {} && VictimStuck(s)
  }

  /** Every byte a page is loaded with from a file, at first or when it comes back, is there and gets across. */
  ghost predicate CanLoad(s: State, va: nat, reach: nat) {
    va in s.pages && (s.pages[va].ops != AnonOps && s.pages[va].info.Some? ==> FullRead(s.files, s.pages[va].info.value, reach))
  }

  /** So is every byte of its first load. */
  ghost predicate CanInit(s: State, va: nat, reach: nat) {
    va in s.pages && (s.pages[va].ops == UninitOps && s.pages[va].info.Some? ==> FullRead(s.files, s.pages[va].info.value, reach))
  }

  predicate FullRead(files: map<nat, seq<Byte>>, i: FileInfo, reach: nat) {
    Readable(files, i) && reach >= i.readBytes
  }

  lemma LoadInits(s: State, va: nat, reach: nat)
    ensures CanLoad(s, va, reach) ==> CanInit(s, va, reach)
  { }

  /** An access makes its page resident, with the right bytes. */
  ghost predicate Reachable(s: State, addr: nat, luck: Luck) {
    var va := PageOf(addr);
    va in s.table
    || (va in s.pages && !NoFrame(s) && (va in s.tabled || luck.tableMem) && CanLoad(s, va, luck.readReach))
  }

  /** With a free frame or slot, memory for page tables and the file's bytes at hand, every page that was made can be
      reached, and no other. */
  lemma EnoughReaches(s: State, addr: nat, luck: Luck)
    requires Inv(s, None) && luck.tableMem && (s.free != {} || exists i :: 0 <= i < |s.swapMap| && !s.swapMap[i])
    requires PageOf(addr) in s.pages && s.pages[PageOf(addr)].info.Some? ==>
               var i := s.pages[PageOf(addr)].info.value;
               i.file in s.files && i.ofs + i.readBytes <= |s.files[i.file]| && i.readBytes <= luck.readReach
    ensures Reachable(s, addr, luck) <==> PageOf(addr) in s.pages
  {
    hide FramesOk, SwapOk, FilesOk, NoOverlap, PageOf;
  }

  /** A new page can be put beside the others, or its address is taken and nothing happens. */
  predicate Fits(pages: map<nat, Page>, va: nat, p: Page) {
    va in pages || (KindOk(p) && NoOverlap(pages[va := p]))
  }

  ghost predicate Served(s: State, op: Op) {
    match op
    case ReadOp(addr, luck) => Reachable(s, addr, luck)
    case WriteOp(addr, _, luck) => Reachable(s, addr, luck) && PageOf(addr) in s.pages && s.pages[PageOf(addr)].writable
    case AllocOp(va, target, writable, info) => Fits(s.pages, va, FreshPage(target, writable, info))
  }

  /** A store to a new page is served exactly if it can be reached and the page was made writable. */
  lemma NewPageServed(s: State, t: State, va: nat, target: Ops, writable: bool, info: Option<FileInfo>, op: Op,
                      none: seq<Byte>, c: Byte)
    requires va !in s.pages && Did(s, t, AllocOp(va, target, writable, info), none, c)
    requires op.WriteOp? && PageOf(op.addr) == va
    ensures Served(t, op) <==> Reachable(t, op.addr, op.luck) && writable
  { }

  // ---------------------------------------------------------------- runs

  ghost function FirstBytes(s: State): map<nat, seq<Byte>> {
    map w | w in s.pages && s.pages[w].ops != UninitOps :: Bytes(s, w)
  }

  lemma AllSized(s: State)
    requires Inv(s, None)
    ensures forall w | Init(s, w) :: HasSize(s.pages[w], Bytes(s, w))
  {
    hide FramesOk, LinksOk, SwapOk, FilesOk, NoOverlap, Bytes, HasSize;
    forall w | Init(s, w)
      ensures HasSize(s.pages[w], Bytes(s, w))
    {
      Sized(s, w);
    }
  }

  lemma Sized(s: State, w: nat)
    requires FramesOk(s, None) && LinksOk(s) && SwapOk(s) && FilesOk(s) && Init(s, w)
    ensures HasSize(s.pages[w], Bytes(s, w))
  {
    assert KindOk(s.pages[w]);
    if IsFilePage(s, w) {
      assert FilePageOk(s, w);
    } else if s.pages[w].frame == None {
      assert SwappedOut(s, w);
      SlotSize(s.swapDisk, s.pages[w].slot);
    }
  }

  lemma SlotSize(disk: seq<seq<Byte>>, n: nat)
    requires 8 * n + 8 <= |disk| && forall i | 0 <= i < |disk| :: |disk[i]| == SECTOR
    ensures |Slot(disk, n)| == PGSIZE
  {
    ConcatSize(disk[8 * n..8 * n + 8]);
  }

  lemma {:induction false} ConcatSize(s: seq<seq<Byte>>)
    requires forall i | 0 <= i < |s| :: |s[i]| == SECTOR
    ensures |Concat(s)| == SECTOR * |s|
  {
    if s != [] {
      ConcatSize(s[..|s| - 1]);
    }
  }

  lemma SinceKinds(s: State, t: State, ops: seq<Op>)
    requires Since(s, t, ops)
    ensures SameKinds(s, t) && MadeBy(s, t, ops)
  { }

  // ---------------------------------------------------------------- claims

  lemma NotResident(s: State, va: nat)
    requires LinksOk(s) && va in s.pages && va !in s.table
    ensures s.pages[va].frame == None
  { }

  /** A page that is already resident is accessed where it is. */
  lemma StaysPut(s: State, va: nat, reach: nat)
    requires Inv(s, None) && va in s.table
    ensures Accessed(s, s, va, Bytes(s, va), reach)
  {
    hide FramesOk, SwapOk, NoOverlap, Bytes, HasSize, FilesOk, Moved;
    assert Init(s, va);
    NothingMoved(s);
    hide LinksOk;
    Sized(s, va);
  }

  lemma NothingMoved(s: State)
    ensures Moved(s, s.files, s.files)
  { }

  /** A successful claim of page va */
  ghost predicate Claimed(s: State, t: State, va: nat, reach: nat) {
    Accessed(s, t, va, Bytes(t, va), reach) && va in t.table
  }

  lemma ClaimedFacts(s: State, t: State, va: nat, reach: nat)
    requires Claimed(s, t, va, reach)
    ensures Accessed(s, t, va, Bytes(t, va), reach) && va in t.table
  { }

  /** A resident page's bytes are its frame's, as far as they go. */
  lemma ResidentBytes(s: State, va: nat, at: nat)
    requires FramesOk(s, None) && LinksOk(s) && FilesOk(s) && va in s.table && at < PGSIZE
    ensures s.table[va].kva in s.memory && |s.memory[s.table[va].kva]| == PGSIZE
    ensures at < |Bytes(s, va)| ==> Bytes(s, va)[at] == s.memory[s.table[va].kva][at]
  {
    hide Bytes, FilesOk;
    MappedFacts(s, va);
    ResidentIs(s, va);
  }

  lemma ResidentIs(s: State, va: nat)
    requires FilesOk(s) && va in s.pages && s.pages[va].ops != UninitOps
    requires s.pages[va].frame.Some? && s.pages[va].frame.value in s.memory
    requires |s.memory[s.pages[va].frame.value]| == PGSIZE
    ensures Bytes(s, va) <= s.memory[s.pages[va].frame.value]
  { }

  /** A mapping has its page's rights, and an access does not change them. */
  lemma RightsKept(s: State, t: State, va: nat, held: seq<Byte>, reach: nat)
    requires Accessed(s, t, va, held, reach) && LinksOk(t) && va in t.table
    ensures va in s.pages && t.table[va].writable == s.pages[va].writable
  { }

  lemma WroteByte(s: State, t: State, r: State, va: nat, held: seq<Byte>, reach: nat)
    requires Accessed(s, t, va, held, reach) && SameBytesBut(t, r, va) && r.pages == t.pages
    requires r.files == t.files && r.denied == t.denied
    ensures Accessed(s, r, va, held, reach)
  {
    hide Bytes, Moved, IsFresh, HasSize, Loses;
  }

  lemma GotFacts(s: State, t: State, k: nat, va: nat, luck: Luck)
    requires GotFrame(s, t, k, luck.writeReach) && Inv(s, None) && va in s.pages && s.pages[va].frame == None
    ensures Inv(t, Some(k)) && k in t.frames && k in t.memory && |t.memory[k]| == PGSIZE
    ensures t.tabled == s.tabled && t.pages.Keys == s.pages.Keys
    ensures Kept(s, t, luck.writeReach)
    ensures va in t.pages && t.pages[va] == s.pages[va] && KindOk(t.pages[va]) && SwapInReady(t, va, k)
    ensures t.pages[va].ops == AnonOps ==> 0 <= t.pages[va].slot < |t.swapMap|
    ensures CanLoad(s, va, luck.readReach) == CanLoad(t, va, luck.readReach)
    ensures CanInit(s, va, luck.readReach) == CanInit(t, va, luck.readReach)
  {
    hide Bytes, NoOverlap;
    assert KindOk(t.pages[va]);
    assert SwappedOut(t, va) == (t.pages[va].ops == AnonOps);
    assert IsFilePage(t, va) ==> FilePageOk(t, va);
  }

  /** What swapping a page in relies on. */
  ghost predicate SwapInReady(s: State, va: nat, k: nat) {
    && va in s.pages && KindOk(s.pages[va]) && k in s.memory && |s.memory[k]| == PGSIZE
    && (s.pages[va].ops == AnonOps ==> 0 <= s.pages[va].slot < |s.swapMap|)
    && 8 * |s.swapMap| <= |s.swapDisk| && (forall i | 0 <= i < |s.swapDisk| :: |s.swapDisk[i]| == SECTOR)
    && (s.pages[va].ops == FileOps ==> Readable(s.files, s.pages[va].info.value))
  }

  /** Page va linked to frame k and mapped there. */
  ghost function Mapped(s: State, va: nat, k: nat): State
    requires va in s.pages
  {
    s.(frames := s.frames[k := Some(va)], pages := s.pages[va := s.pages[va].(frame := Some(k))],
       tabled := s.tabled + {va}, table := s.table[va := Pte(k, s.pages[va].writable, false)], stale := s.stale - {va})
  }

  lemma MappedIs(s: State, t: State, va: nat, k: nat, luck: Luck)
    requires va in s.pages && SwapInReady(s, va, k)
    requires t == s.(frames := s.frames[k := Some(va)], pages := s.pages[va := s.pages[va].(frame := Some(k))],
                     tabled := s.tabled + {va}, table := s.table[va := Pte(k, s.pages[va].writable, false)],
                     stale := s.stale - {va})
    ensures t == Mapped(s, va, k) && SwapInReady(t, va, k)
    ensures CanLoad(t, va, luck.readReach) == CanLoad(s, va, luck.readReach)
    ensures CanInit(t, va, luck.readReach) == CanInit(s, va, luck.readReach)
  { }

  /** A frame linked to a page that is not mapped breaks the invariant. */
  lemma UnmappedBroken(s: State, t: State, va: nat)
    requires Inv(s, None) && va in s.pages && va !in s.tabled
    requires va in t.pages && t.pages[va].frame.Some? && t.tabled == s.tabled
    ensures !LinksOk(t) && !Inv(t, None)
  { }

  /** A frame that is both in use and free breaks the invariant. */
  lemma FreedBroken(t: State, k: nat)
    requires k in t.frames && k in t.free
    ensures !Inv(t, None)
  { }

  lemma ClaimDone(s: State, t: State, va: nat, k: nat, content: seq<Byte>, reach: nat, r: State)
    requires Inv(s, None) && Kept(s, t, reach) && va in s.pages && s.pages[va].frame == None && |content| == PGSIZE
    requires Inv(t, Some(k)) && k in t.frames && va in t.pages && t.pages[va] == s.pages[va] && KindOk(t.pages[va])
    requires t.pages[va].ops == AnonOps ==> 0 <= t.pages[va].slot < |t.swapMap|
    requires r == AfterSwapIn(Mapped(t, va, k), va, k, content) && IsContent(Mapped(t, va, k), va, content)
    ensures Inv(r, None) && Claimed(s, r, va, reach)
  {
    hide FramesOk, LinksOk, SwapOk, FilesOk, NoOverlap, Bytes, Kept, KindOk, Claimed, IsContent, LoadedBytes;
    var u := Mapped(t, va, k);
    assert r == WithClaimed(t, va, k, content);
    ContentFits(t, u, va, content);
    Claim(t, va, k, content);
    KindOf(t, va);
    Sized(r, va);
    NotMapped(s, va);
    ClaimedFrom(s, t, va, k, content, u, reach, r);
  }

  lemma ContentFits(t: State, u: State, va: nat, content: seq<Byte>)
    requires FilesOk(t) && va in t.pages && t.pages[va].frame == None && |content| == PGSIZE
    requires u.files == t.files && u.swapDisk == t.swapDisk && va in u.pages
    requires u.pages[va].ops == t.pages[va].ops && u.pages[va].info == t.pages[va].info && IsContent(u, va, content)
    ensures FileContent(t, va, content)
  {
    assert KindOk(t.pages[va]);
    if ClaimedOps(t.pages[va]) == FileOps {
      var i := t.pages[va].info.value;
      assert content[..i.readBytes] == FileBytes(t.files, i);
    }
  }

  lemma NotResidentBytes(t: State, u: State, va: nat, content: seq<Byte>)
    requires va in t.pages && t.pages[va].frame == None && KindOk(t.pages[va])
    requires u.files == t.files && u.swapDisk == t.swapDisk && va in u.pages
    requires u.pages[va].ops == t.pages[va].ops && u.pages[va].slot == t.pages[va].slot
    requires u.pages[va].info == t.pages[va].info
    requires IsContent(u, va, content)
    ensures t.pages[va].ops == AnonOps ==> Bytes(t, va) == content
    ensures t.pages[va].ops == FileOps && InfoFits(t, t.pages[va].info.value) ==>
              Bytes(t, va) == FileBytes(t.files, t.pages[va].info.value)
  { }

  lemma ClaimedFrom(s: State, t: State, va: nat, k: nat, content: seq<Byte>, u: State, reach: nat, r: State)
    requires Kept(s, t, reach) && va in s.pages && va !in s.table && t.pages[va] == s.pages[va]
    requires t.pages[va].frame == None && KindOk(t.pages[va])
    requires r.files == t.files && va in r.table && SameBytesBut(t, r, va) && Init(r, va)
    requires HasSize(r.pages[va], Bytes(r, va))
    requires r.denied == t.denied && forall w | w in t.pages :: Grows(t.pages[w], r.pages[w])
    requires r.pages[va].ops == ClaimedOps(t.pages[va])
    requires r.pages[va].ops == AnonOps ==> Bytes(r, va) == content
    requires r.pages[va].ops == FileOps ==>
               t.pages[va].info.Some? &&
               InfoFits(t, t.pages[va].info.value) && Bytes(r, va) == FileBytes(t.files, t.pages[va].info.value)
    requires u.files == t.files && u.swapDisk == t.swapDisk && va in u.pages
    requires u.pages[va] == t.pages[va].(frame := Some(k))
    requires IsContent(u, va, content)
    ensures Claimed(s, r, va, reach)
  {
    hide Bytes, Moved, HasSize, Slot, Sent, LoadedBytes, FileBytes, InfoFits;
    NotResidentBytes(t, u, va, content);
    assert Init(s, va) ==> Bytes(r, va) == Bytes(s, va);
    if !Init(s, va) && t.pages[va].info.Some? {
      FreshIs(r.files, r.pages[va], Bytes(r, va));
    }
    hide IsFresh;
    ClaimedOthers(s, t, r, va, reach);
    hide Kept, SameKinds, SameBytesBut, Loses;
  }

  lemma ClaimedOthers(s: State, t: State, r: State, va: nat, reach: nat)
    requires Kept(s, t, reach) && SameBytesBut(t, r, va) && r.files == t.files && r.denied == t.denied
    requires forall w | w in t.pages :: Grows(t.pages[w], r.pages[w])
    requires va in s.pages && t.pages[va] == s.pages[va]
    ensures SameKinds(s, r) && r.pages.Keys == s.pages.Keys && Moved(s, s.files, r.files)
    ensures forall w | w in s.pages && w != va :: r.pages[w].ops == s.pages[w].ops
    ensures forall w | Init(s, w) && w != va :: Bytes(r, w) == Bytes(s, w) || Loses(s, w, reach)
  {
    hide Bytes, Moved, Loses;
  }

  ghost function AfterSwapIn(s: State, va: nat, k: nat, content: seq<Byte>): State {
    if va !in s.pages then s else
      var p := s.pages[va];
      var ops := ClaimedOps(p);
      s.(pages := s.pages[va := p.(ops := ops, slot := if ops == AnonOps then NO_SLOT else p.slot)],
         memory := s.memory[k := content],
         swapMap := if p.ops == AnonOps && 0 <= p.slot < |s.swapMap| then s.swapMap[p.slot := false] else s.swapMap)
  }

  /** What a page is claimed with: its slot, or its file part and zeros, or, with neither, whatever the frame held. */
  ghost predicate IsContent(s: State, va: nat, content: seq<Byte>) {
    va in s.pages
    && var p := s.pages[va];
       if p.ops == AnonOps then 0 <= p.slot && 8 * p.slot + 8 <= |s.swapDisk| && content == Slot(s.swapDisk, p.slot)
       else p.info.Some? ==> Readable(s.files, p.info.value) && content == LoadedBytes(s.files, p.info.value)
  }

  /** Frame k is spare, on the frame list, and nobody's bytes have changed for it. */
  ghost predicate GotFrame(s: State, t: State, k: nat, reach: nat) {
    && Inv(t, Some(k)) && k in t.frames && Kept(s, t, reach) && Untouched(s.pages, t.pages) && t.tabled == s.tabled
  }

  lemma PoolNotEmpty(s: State)
    requires FramesOk(s, None) && s.free == {}
    ensures s.frameList != []
  { }

  lemma EvictedGot(s: State, t: State, k: nat, reach: nat)
    requires Evicted(s, t, k, reach)
    ensures GotFrame(s, t.(frameList := t.frameList + [k]), k, reach)
  {
    hide FramesOk, LinksOk, SwapOk, FilesOk, NoOverlap, Bytes, Moved, Loses;
    ListIrrelevant(t, t.frameList + [k]);
  }

  ghost predicate SwapOutOk(s: State, va: nat, k: nat, n: nat, reach: nat, disk: seq<seq<Byte>>, files: map<nat,
                            seq<Byte>>) {
    va in s.pages && k in s.memory
    && if s.pages[va].ops == AnonOps then n < |s.swapMap| && !s.swapMap[n] && SlotWritten(s, n, disk, s.memory[k])
       else WrittenBack(s, va, reach, files)
  }

  ghost function AfterSwapOut(s: State, va: nat, n: nat, disk: seq<seq<Byte>>, files: map<nat, seq<Byte>>): State {
    if va !in s.pages || va !in s.table then s
    else if s.pages[va].ops == AnonOps then
      s.(pages := s.pages[va := s.pages[va].(slot := n)], table := s.table - {va}, swapDisk := disk,
         stale := s.stale[va := s.table[va]], swapMap := if n < |s.swapMap| then s.swapMap[n := true] else s.swapMap)
    else
      s.(files := files, table := s.table - {va}, stale := s.stale[va := s.table[va].(dirty := false)])
  }

  lemma EvictDone(s: State, va: nat, k: nat, n: nat, reach: nat, disk: seq<seq<Byte>>, files: map<nat, seq<Byte>>,
                  t: State)
    requires CanEvict(s, va, k) && s.pages[va].frame == Some(k) && s.pages[va].ops != UninitOps && va in s.table
    requires SwapOutOk(s, va, k, n, reach, disk, files)
    requires var m := AfterSwapOut(s, va, n, disk, files);
             t == m.(frameList := s.frameList[1..],
                      pages := m.pages[va := m.pages[va].(frame := None)], frames := s.frames[k := None])
    ensures Evicted(s, t, k, reach)
  {
    hide FramesOk, LinksOk, SwapOk, FilesOk, NoOverlap, Evicted, SlotWritten, WrittenBack;
    if s.pages[va].ops == AnonOps {
      SwapOutDone(s, va, k, n, reach, disk, t);
    } else {
      WriteBackDone(s, va, k, reach, files, t);
    }
  }

  /** The frame k has been evicted and taken off the frame list; back on it, it would be the spare frame of a good
      state. */
  ghost predicate Evicted(s: State, t: State, k: nat, reach: nat) {
    && Inv(t.(frameList := t.frameList + [k]), Some(k)) && k in t.frames
    && Kept(s, t, reach) && Untouched(s.pages, t.pages) && t.tabled == s.tabled
  }

  lemma SwapOutDone(s: State, va: nat, k: nat, n: nat, reach: nat, disk: seq<seq<Byte>>, t: State)
    requires CanEvict(s, va, k) && s.pages[va].ops == AnonOps && s.pages[va].frame == Some(k) && va in s.table
    requires n < |s.swapMap| && !s.swapMap[n] && k in s.memory && SlotWritten(s, n, disk, s.memory[k])
    requires t == WithSwappedOut(s, va, k, n, disk).(frameList := s.frameList[1..])
    ensures Evicted(s, t, k, reach)
  {
    hide FramesOk, LinksOk, SwapOk, FilesOk, NoOverlap, Bytes, Moved;
    SwapOut(s, va, k, n, disk);
    NothingMoved(s);
    ListIrrelevant(t, t.frameList + [k]);
    assert t.(frameList := t.frameList + [k]) == WithSwappedOut(s, va, k, n, disk);
  }

  lemma WriteBackDone(s: State, va: nat, k: nat, reach: nat, files: map<nat, seq<Byte>>, t: State)
    requires CanEvict(s, va, k) && s.pages[va].ops == FileOps && s.pages[va].frame == Some(k)
    requires WrittenBack(s, va, reach, files)
    requires t == WithEvicted(s, va, k).(files := files, frameList := s.frameList[1..])
    ensures Evicted(s, t, k, reach)
  {
    hide FramesOk, LinksOk, SwapOk, FilesOk, NoOverlap, Bytes, Moved;
    WriteBack(s, va, k, reach, files);
    ListIrrelevant(t, t.frameList + [k]);
    assert t.(frameList := t.frameList + [k]) == WithEvicted(s, va, k).(files := files);
  }

  /** Pages that were not resident and anonymous or file-backed keep their descriptors. */
  ghost predicate Untouched(pages: map<nat, Page>, pages': map<nat, Page>) {
    pages'.Keys == pages.Keys && forall w | w in pages && pages[w].frame == None :: pages'[w] == pages[w]
  }

  lemma NotMapped(s: State, va: nat)
    requires LinksOk(s) && va in s.pages && s.pages[va].frame == None
    ensures va !in s.table
  { }

  lemma VictimOf(s: State)
    requires FramesOk(s, None) && s.frameList != []
    ensures s.frameList[0] in s.frames && s.frames[s.frameList[0]].Some?
  { }

  lemma SwapFacts(s: State)
    requires SwapOk(s)
    ensures 8 * |s.swapMap| <= |s.swapDisk| && forall i | 0 <= i < |s.swapDisk| :: |s.swapDisk[i]| == SECTOR
  { }

  lemma FileFacts(s: State, va: nat)
    requires FilesOk(s) && va in s.pages && s.pages[va].ops != UninitOps
    ensures s.pages[va].ops == AnonOps || s.pages[va].ops == FileOps
    ensures s.pages[va].ops != AnonOps ==>
              s.pages[va].info.Some? && InfoFits(s, s.pages[va].info.value) && s.pages[va].info.value.readBytes <= PGSIZE
  {
    assert KindOk(s.pages[va]);
    assert s.pages[va].ops != AnonOps ==> IsFilePage(s, va) && FilePageOk(s, va);
  }

  lemma ListIrrelevant(s: State, list: seq<nat>)
    ensures forall w :: Bytes(s.(frameList := list), w) == Bytes(s, w)
  { }

  lemma SectorPlaced(m: seq<Byte>, i: nat, sector: seq<Byte>, m': seq<Byte>)
    requires |m| == PGSIZE && i < 8 && |sector| == SECTOR
    requires m' == m[..SECTOR * i] + sector + m[SECTOR * i + SECTOR..]
    ensures |m'| == PGSIZE && m'[SECTOR * i..SECTOR * i + SECTOR] == sector
    ensures forall j | 0 <= j < i :: m'[SECTOR * j..SECTOR * j + SECTOR] == m[SECTOR * j..SECTOR * j + SECTOR]
  { }
}
