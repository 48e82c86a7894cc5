/** The block allocator of threads/malloc.c over the page allocator of threads/palloc.c. */
module Malloc {
  import opened Arenas
  import opened Bitmap
  import opened Sequences

  type Byte = bv8
  const CLEARED: Byte := 0xcc

  /** Sizes are 64-bit; adding the header and rounding up to pages can wrap. */
  const WRAP: nat := 0x1_0000_0000_0000_0000

  function PageCnt(size: nat): nat { ((size + HEADER) % WRAP + PGSIZE - 1) % WRAP / PGSIZE }

  predicate Wraps(size: nat) { size + HEADER + PGSIZE - 1 >= WRAP }

  /** The page count is enough exactly for the sizes that do not wrap; for all others it is at most one page. */
  lemma PagesEnough(size: nat)
    requires size < WRAP
    ensures PGSIZE * PageCnt(size) >= size + HEADER <==> !Wraps(size)
    ensures Wraps(size) ==> PageCnt(size) <= 1
    ensures !Wraps(size) ==> PGSIZE * (PageCnt(size) - 1) < size + HEADER
  { }

  /** A block of that many bytes is what malloc uses for a request: the least power of two from 16 to 1024 that holds
      it, or the least number of whole pages that holds it with a header. */
  ghost predicate BestFit(size: nat, bytes: int) {
    && bytes >= size
    && if size <= 1024 then bytes in {16, 32, 64, 128, 256, 512, 1024} && (bytes > 16 ==> bytes / 2 < size)
       else (bytes + HEADER) % PGSIZE == 0 && bytes - PGSIZE < size
  }

  /** The first descriptor whose blocks are large enough has the best fit. */
  lemma FirstFits(d: nat, size: nat)
    requires d < CNT && size <= Size(d) && forall e | 0 <= e < d :: Size(e) < size
    ensures BestFit(size, Size(d))
  {
    assert d > 0 ==> Size(d - 1) < size;
  }

  lemma PagesFit(h: Heap, page: nat, size: nat)
    requires size > 1024 && !Wraps(size) && size < WRAP
    requires page in h.arenas && h.arenas[page] == Arena(None, PageCnt(size))
    ensures BestFit(size, BlockSize(h.arenas, page * PGSIZE + HEADER))
  {
    PagesEnough(size);
    var b := page * PGSIZE + HEADER;
    assert b / PGSIZE == page && b % PGSIZE == HEADER;
    WholePages(PageCnt(size));
  }

  lemma WholePages(n: nat)
    ensures (PGSIZE * n) % PGSIZE == 0
  { }

  /** A block of at most one page cannot stand for a request whose page count has wrapped. */
  lemma WrapBroken(h: Heap, page: nat, size: nat)
    requires Wraps(size) && page in h.arenas && h.arenas[page].desc == None && h.arenas[page].freeCnt <= 1
    requires page * PGSIZE + HEADER in h.live && h.live[page * PGSIZE + HEADER] == size
    ensures !Inv(h, None)
  {
    var b := page * PGSIZE + HEADER;
    assert b / PGSIZE == page;
    assert h.live[b] > BlockSize(h.arenas, b);
  }

  /** The bytes from a to b are the same. */
  ghost predicate SameBytes(mem: seq<Byte>, mem': seq<Byte>, a: int, b: int) {
    |mem'| == |mem| && forall i | a <= i < b && 0 <= i < |mem| :: mem'[i] == mem[i]
  }

  /** Every block that is live before and after, but for one, holds the same bytes. */
  ghost predicate BlocksKept(h: Heap, mem: seq<Byte>, mem': seq<Byte>, but: Option<nat>) {
    forall b | b in h.live && Some(b) != but :: SameBytes(mem, mem', b, b + BlockSize(h.arenas, b))
  }

  /** The allocator's own stores, list links in free blocks and counts in headers, leave live blocks as they are. */
  lemma OwnStoresOffLive(h: Heap, mem: seq<Byte>, mem': seq<Byte>)
    requires Inv(h, None) && |mem'| == |mem| && forall at | 0 <= at < |mem| && mem'[at] != mem[at] :: Bookkeeping(h, at)
    ensures BlocksKept(h, mem, mem', None)
  {
    hide Inv, Bookkeeping, BlockSize;
    forall b, at: nat | b in h.live && b <= at < b + BlockSize(h.arenas, b) && at < |mem|
      ensures mem'[at] == mem[at]
    {
      if mem'[at] != mem[at] {
        BookkeepingOffLive(h, at, b);
      }
    }
  }

  /** There are not n free pages in a row. */
  ghost predicate NoPages(used: seq<bool>, n: nat) {
    forall i: nat :: !Group(used, i, n, false)
  }

  class Allocator {
    const pool: Bitmap
    var descs: seq<Desc>
    var arenas: map<nat, Arena>
    var lists: seq<seq<nat>>
    var mem: seq<Byte>
    ghost var live: map<nat, nat>

    ghost function St(): Heap
      requires pool.Valid()
      reads this, pool.bits
    {
      Heap(pool.View(), arenas, lists, live)
    }

    ghost predicate Valid()
      reads this, pool.bits
    {
      pool.Valid() && descs == Descs() && |mem| == pool.bitCnt * PGSIZE && Inv(St(), None)
    }

    constructor (pageCnt: nat, contents: seq<Byte>)
      requires |contents| == pageCnt * PGSIZE
      ensures Valid() && live == map[] && mem == contents && fresh(pool) && fresh(pool.bits)
    {
      var d, l := MallocInit();
      pool := new Bitmap(pageCnt);
      arenas, live, mem := map[], map[], contents;
      descs, lists := d, l;
      new;
      NothingLive(St());
    }

    /** `palloc_get_multiple`: the first group of free pages, by number in the pool */
    method PallocGetMultiple(pageCnt: nat) returns (page: Option<nat>)
      requires pool.Valid()
      modifies pool.bits
      ensures page.Some? ==> Group(old(pool.View()), page.value, pageCnt, false)
      ensures page.Some? ==> pool.View() == WithSet(old(pool.View()), page.value, pageCnt, true)
      ensures page == None ==> pool.View() == old(pool.View()) && NoPages(pool.View(), pageCnt)
    {
      page := pool.ScanAndFlip(0, pageCnt, false);
    }

    /** `palloc_free_multiple`: the pages must all be in use. Their bytes are overwritten. */
    method PallocFreeMultiple(page: nat, pageCnt: nat)
      requires pool.Valid() && Group(pool.View(), page, pageCnt, true) && |mem| == pool.bitCnt * PGSIZE
      modifies this`mem, pool.bits
      ensures pool.View() == WithSet(old(pool.View()), page, pageCnt, false)
      ensures SameBytes(old(mem), mem, 0, page * PGSIZE) && SameBytes(old(mem), mem, (page + pageCnt) * PGSIZE, |mem|)
    {
      if pageCnt == 0 {
        assert WithSet(pool.View(), page, 0, false) == pool.View();
        return;
      }
      var from, to := page * PGSIZE, (page + pageCnt) * PGSIZE;
      mem := mem[..from] + seq(to - from, _ => CLEARED) + mem[to..];
      pool.SetMultiple(page, pageCnt, false);
    }

    /** `block_to_arena`: the page a block is on; its header says what the block is one of. */
    method BlockToArena(b: nat) returns (p: nat)
      requires b / PGSIZE in arenas
      requires arenas[b / PGSIZE].desc.Some? ==>
                arenas[b / PGSIZE].desc.value < CNT && InArena(arenas, arenas[b / PGSIZE].desc.value, b)
      requires arenas[b / PGSIZE].desc == None ==> b % PGSIZE == HEADER
      ensures p == b / PGSIZE
    {
      p := b / PGSIZE;
      if arenas[p].desc.Some? {
        InArenaFacts(arenas, arenas[p].desc.value, b);
        DescFacts(arenas[p].desc.value);
        assert (b % PGSIZE - HEADER) % Size(arenas[p].desc.value) == 0;
      }
    }

    /** `malloc` for a request that fits no descriptor: whole pages, with the header in front */
    method MallocBig(size: nat) returns (r: Option<nat>)
      requires Valid() && 1024 < size < WRAP
      modifies this`arenas, this`live, pool.bits
      ensures r == None ==> St() == old(St()) && NoPages(old(pool.View()), PageCnt(size))
      ensures r.Some? ==> (Valid() <==> !Wraps(size))
      ensures !Wraps(size) ==> Valid() && Took(old(St()), St(), size, r)
      ensures r.Some? && !Wraps(size) ==>
                BestFit(size, BlockSize(arenas, r.value)) && TookPages(old(St()), St(), r.value)
    {
      hide Inv, Took, IsBig, InArena, BestFit, BlockSize;
      PagesEnough(size);
      ghost var h := St();
      var pageCnt := PageCnt(size);
      var page := PallocGetMultiple(pageCnt);
      if page == None {
        TookNothing(h, size);
        return None;
      }
      if !Wraps(size) {
        WithBigKeeps(h, page.value, pageCnt, size);
        NewPages(h, page.value, pageCnt);
        TookBig(h, page.value, pageCnt, size);
      }
      arenas := arenas[page.value := Arena(None, pageCnt)];
      live := live[page.value * PGSIZE + HEADER := size];
      r := Some(page.value * PGSIZE + HEADER);
      if Wraps(size) {
        WrapBroken(St(), page.value, size);
      } else {
        PagesFit(St(), page.value, size);
        BigPage(h, page.value, pageCnt);
      }
    }

    /** A new arena for a descriptor whose list is empty. idle: its page. */
    method NewArena(d: nat) returns (ok: bool, ghost idle: nat)
      requires Valid() && d < CNT && lists[d] == []
      modifies this`arenas, this`lists, pool.bits
      ensures !ok ==> St() == old(St()) && NoPages(old(pool.View()), 1)
      ensures ok ==> idle < |old(pool.View())| && !old(pool.View())[idle] && |lists| == CNT && d < |old(lists)|
      ensures ok ==> St() == WithArena(old(St()), d, idle) && Inv(St(), Some(idle))
    {
      hide Inv, IsBig, InArena, Per, Size;
      ghost var h := St();
      idle := 0;
      var page := PallocGetMultiple(1);
      if page == None {
        return false, 0;
      }
      idle := page.value;
      OnePage(h.used, idle);
      WithArenaKeeps(h, d, idle);
      ListCount(h);
      DescSizes(descs);
      var n := descs[d].perArena;
      arenas := arenas[page.value := Arena(Some(d), n)];
      ghost var was := lists;
      for i := 0 to n
        modifies this`lists
        invariant |lists| == |was| && lists == was[d := Blocks(d, idle)[..i]]
      {
        assert Blocks(d, idle)[..i + 1] == Blocks(d, idle)[..i] + [BlockAt(d, idle, i)];
        lists := lists[d := lists[d] + [BlockAt(d, page.value, i)]];
      }
      assert Blocks(d, idle)[..n] == Blocks(d, idle);
      ok := true;
    }

    /** The front block of a descriptor's list */
    method TakeBlock(d: nat, size: nat, ghost idle: Option<nat>) returns (b: nat)
      requires pool.Valid() && descs == Descs() && |mem| == pool.bitCnt * PGSIZE && Inv(St(), idle)
      requires d < CNT && |lists| == CNT && lists[d] != [] && size <= Size(d)
      requires (idle == None || idle == Some(lists[d][0] / PGSIZE))
      modifies this`arenas, this`lists, this`live
      ensures Valid() && Took(old(St()), St(), size, Some(b))
      ensures b == old(lists)[d][0] && lists == old(lists)[d := old(lists)[d][1..]]
      ensures BlockSize(arenas, b) == Size(d) && pool.View() == old(pool.View())
      ensures b / PGSIZE in arenas && b / PGSIZE in old(arenas) && arenas[b / PGSIZE].desc == Some(d)
      ensures old(arenas)[b / PGSIZE].desc == Some(d) && arenas.Keys == old(arenas).Keys
    {
      hide Inv, Took;
      ghost var h := St();
      PoppedKeeps(h, d, size, idle);
      TookFront(h, d, size);
      b := lists[d][0];
      lists := lists[d := lists[d][1..]];
      var p := BlockToArena(b);
      arenas := arenas[p := arenas[p].(freeCnt := arenas[p].freeCnt - 1)];
      live := live[b := size];
      assert St() == Popped(h, d, size);
    }

    /** `malloc` */
    method Malloc(size: nat) returns (r: Option<nat>)
      requires Valid() && size < WRAP
      modifies this`arenas, this`lists, this`live, pool.bits
      ensures size == 0 ==> r == None && St() == old(St())
      // every size that does not wrap is served by a new block that is large enough, or there are not the pages for it
      ensures !Wraps(size) ==> Valid() && Took(old(St()), St(), size, r)
      ensures size > 0 && r == None ==>
                St() == old(St()) && NoPages(old(pool.View()), if size <= 1024 then 1 else PageCnt(size))
      ensures r.Some? && !Wraps(size) ==>
                BestFit(size, BlockSize(arenas, r.value)) && TookPages(old(St()), St(), r.value)
      // what is handed out for a size that wraps is too small
      ensures r.Some? ==> (Valid() <==> !Wraps(size))
    {
      hide Inv, Took, IsBig, InArena, Per, Size, NoPages, BestFit, BlockSize, TookPages;
      TookNothing(St(), size);
      if size == 0 {
        return None;
      }
      var d := 0;
      while d < |descs| && descs[d].blockSize < size
        invariant d <= |descs| && forall e | 0 <= e < d :: descs[e].blockSize < size
      {
        d := d + 1;
      }
      DescSizes(descs);
      if d == |descs| {
        r := MallocBig(size);
      } else {
        FirstFits(d, size);
        r := MallocSmall(d, size);
      }
    }

    /** The rest of malloc for a request that descriptor d can serve */
    method MallocSmall(d: nat, size: nat) returns (r: Option<nat>)
      requires Valid() && d < CNT && size <= Size(d)
      modifies this`arenas, this`lists, this`live, pool.bits
      ensures Valid() && Took(old(St()), St(), size, r)
      ensures r == None ==> St() == old(St()) && NoPages(old(pool.View()), 1)
      ensures r.Some? ==> BlockSize(arenas, r.value) == Size(d) && TookPages(old(St()), St(), r.value)
      // the block freed last is used first
      ensures |old(lists)| == CNT
      ensures (old(lists)[d] != [] ==> r == Some(old(lists)[d][0]) && lists[d] == old(lists)[d][1..])
    {
      hide Inv, Took, IsBig, InArena, Per, Size, NoPages, BlockSize;
      ghost var h := St();
      TookNothing(h, size);
      ListCount(h);
      ghost var idle: Option<nat> := None;
      if lists[d] == [] {
        var ok, page := NewArena(d);
        if !ok {
          return None;
        }
        idle := Some(page);
        ArenaFront(h, d, page);
        TookArena(h, d, page, size);
      }
      ghost var mid := St();
      var b := TakeBlock(d, size, idle);
      r := Some(b);
      TookBoth(h, mid, St(), size, r);
      SmallPage(h, mid, St(), d, b, idle);
    }

    /** `free` */
    method Free(p: Option<nat>)
      requires Valid() && (p.Some? ==> p.value in live)
      modifies this`arenas, this`lists, this`live, this`mem, pool.bits
      ensures Valid() && (p == None ==> St() == old(St()) && mem == old(mem))
      ensures p.Some? ==> Gone(old(St()), St(), p.value) && BlocksKept(old(St()), old(mem), mem, p)
    {
      hide Inv, Gone, BlocksKept, IsBig, InArena, Per, Size, BlockSize;
      if p.Some? {
        LiveKind(St(), p.value);
        var a := BlockToArena(p.value);
        if arenas[a].desc.Some? {
          FreeSmall(p.value, arenas[a].desc.value);
        } else {
          FreeBig(p.value);
        }
      }
    }

    /** A big block's pages are freed. */
    method FreeBig(b: nat)
      requires Valid() && b in live && IsBig(arenas, b)
      modifies this`arenas, this`live, this`mem, pool.bits
      ensures Valid() && Gone(old(St()), St(), b) && BlocksKept(old(St()), old(mem), mem, Some(b))
    {
      hide Inv, Gone, BlocksKept;
      ghost var h, was := St(), mem;
      var p := b / PGSIZE;
      WithoutBigKeeps(h, b);
      BigGone(h, b);
      PallocFreeMultiple(p, arenas[p].freeCnt);
      BigKept(h, b, was, mem);
      arenas := arenas - {p};
      live := live - {b};
      assert St() == WithoutBig(h, b);
    }

    /** A small block goes back on its list; with the last live block of an arena, the arena goes too. */
    method FreeSmall(b: nat, d: nat)
      requires Valid() && b in live && d < CNT && InArena(arenas, d, b)
      modifies this`arenas, this`lists, this`live, this`mem, pool.bits
      ensures Valid() && Gone(old(St()), St(), b) && BlocksKept(old(St()), old(mem), mem, Some(b))
    {
      hide Inv, Gone, BlocksKept, Per, Size, IsBig;
      ghost var h, was := St(), mem;
      DescSizes(descs);
      ListCount(h);
      SmallFacts(h, b, d);
      var p := b / PGSIZE;
      mem := mem[..b] + seq(descs[d].blockSize, _ => CLEARED) + mem[b + descs[d].blockSize..];
      ClearedKept(h, b, was, mem);
      PushedKeeps(h, d, b);
      lists := lists[d := [b] + lists[d]];
      arenas := arenas[p := arenas[p].(freeCnt := arenas[p].freeCnt + 1)];
      live := live - {b};
      ghost var mid, then' := St(), mem;
      assert mid == Pushed(h, d, b);
      if arenas[p].freeCnt >= descs[d].perArena {
        assert arenas[p].freeCnt == descs[d].perArena;
        DropArena(d, p);
        assert forall c | c in h.live && c != b :: c in live && c / PGSIZE != p;
        ArenaGone(h, d, b, lists[d]);
        ArenaKept(h, d, b, was, then', mem);
      } else {
        BlockGone(h, d, b);
      }
    }

    /** All blocks of an arena come off the free list, and its page goes back. */
    method DropArena(d: nat, p: nat)
      requires pool.Valid() && descs == Descs() && |mem| == pool.bitCnt * PGSIZE && Inv(St(), Some(p))
      requires d < CNT && p in arenas && arenas[p] == Arena(Some(d), Per(d))
      modifies this`arenas, this`lists, this`mem, pool.bits
      ensures Valid() && |old(lists)| == CNT && |lists| == CNT && p < |old(pool.View())|
      ensures forall b | b in live :: b / PGSIZE != p
      ensures Swept(old(lists)[d], lists[d], p) && St() == Dropped(old(St()), d, p, lists[d])
      ensures SameBytes(old(mem), mem, 0, p * PGSIZE) && SameBytes(old(mem), mem, (p + 1) * PGSIZE, |mem|)
    {
      hide Inv, Per, Size, InArena, Swept;
      ghost var h := St();
      DescSizes(descs);
      ListFacts(h, d, p);
      for i := 0 to descs[d].perArena
        modifies this`lists
        invariant |lists| == CNT && lists == h.lists[d := lists[d]] && Distinct(lists[d])
        invariant forall x :: x in lists[d] <==> x in h.lists[d] && forall j: nat | j < i :: x != BlockAt(d, p, j)
      {
        WithoutHas(lists[d], BlockAt(d, p, i));
        lists := lists[d := Without(lists[d], BlockAt(d, p, i))];
      }
      AllSwept(h, d, p, lists[d]);
      DroppedKeeps(h, d, p, lists[d]);
      PallocFreeMultiple(p, 1);
      arenas := arenas - {p};
      OneCleared(h.used, p);
      assert St() == Dropped(h, d, p, lists[d]);
    }

    /** `block_size` */
    method BlockSizeOf(b: nat) returns (n: nat)
      requires Valid() && b in live
      ensures n == BlockSize(arenas, b) >= live[b]
    {
      hide Inv, IsBig, InArena, Per, Size;
      LiveKind(St(), b);
      DescSizes(descs);
      var a := BlockToArena(b);
      n := if arenas[a].desc.Some? then descs[arenas[a].desc.value].blockSize
        else PGSIZE * arenas[a].freeCnt - b % PGSIZE;
    }

    /** `realloc`: the bytes that fit in the new block move with it. */
    method Realloc(oldBlock: Option<nat>, newSize: nat) returns (r: Option<nat>)
      requires Valid() && newSize < WRAP && (oldBlock.Some? ==> oldBlock.value in live && !Wraps(newSize))
      modifies this`arenas, this`lists, this`live, this`mem, pool.bits
      ensures Valid() <==> r == None || !Wraps(newSize)
      ensures newSize == 0 ==> r == None && live == if oldBlock.Some? then old(live) - {oldBlock.value} else old(live)
      ensures newSize > 0 && r == None ==> live == old(live) && mem == old(mem)
      ensures r.Some? && !Wraps(newSize) ==>
                && r.value !in old(live)
                && live == (if oldBlock.Some? then old(live)[r.value := newSize] - {oldBlock.value}
                            else old(live)[r.value := newSize])
      ensures r.Some? && oldBlock.Some? ==> Moved(old(St()), old(mem), mem, oldBlock.value, r.value, newSize)
      ensures BlocksKept(old(St()), old(mem), mem, oldBlock)
    {
      hide Inv, Took, Gone, BlocksKept, NoPages, IsBig, InArena, Per, Size, BlockSize, Moved;
      ghost var h, was := St(), mem;
      KeptAll(h, mem, oldBlock);
      if newSize == 0 {
        Free(oldBlock);
        GoneLive(h, St(), oldBlock);
        return None;
      }
      r := Malloc(newSize);
      if !Wraps(newSize) {
        TookLive(h, St(), newSize, r);
      }
      if oldBlock.Some? && r.Some? {
        ghost var mid := St();
        MoveAndFree(oldBlock.value, r.value, newSize);
        MovedKept(h, mid, was, mem, oldBlock.value, r.value, newSize);
      }
    }

    /** The end of realloc */
    method MoveAndFree(from: nat, to: nat, newSize: nat)
      requires Valid() && from in live && to in live && from != to && live[to] == newSize
      modifies this`arenas, this`lists, this`live, this`mem, pool.bits
      ensures Valid() && live == old(live) - {from}
      ensures Moved(old(St()), old(mem), mem, from, to, newSize) && KeptBut(old(St()), old(mem), mem, from, to)
    {
      hide Inv, Gone, BlocksKept, IsBig, InArena, Per, Size, BlockSize, Moved, KeptBut;
      ghost var h, was := St(), mem;
      var oldSize := BlockSizeOf(from);
      var minSize := if newSize < oldSize then newSize else oldSize;
      BlockFits(h, from);
      BlockFits(h, to);
      mem := mem[..to] + mem[from..from + minSize] + mem[to + minSize..];
      ghost var copied := mem;
      Free(Some(from));
      GoneLive(h, St(), Some(from));
      CopiedAndFreed(h, was, copied, mem, from, to, minSize, newSize);
    }
  }

  ghost predicate KeptBut(h: Heap, mem: seq<Byte>, mem': seq<Byte>, a: nat, b: nat) {
    forall c | c in h.live && c != a && c != b :: SameBytes(mem, mem', c, c + BlockSize(h.arenas, c))
  }

  lemma BlockFits(h: Heap, b: nat)
    requires Inv(h, None) && b in h.live
    ensures b + BlockSize(h.arenas, b) <= |h.used| * PGSIZE && h.live[b] <= BlockSize(h.arenas, b)
  {
    LiveInside(h, b);
    var p: nat := b / PGSIZE;
    MulLe(p + Pages(h.arenas[p]), |h.used|, PGSIZE);
  }

  lemma CopiedAndFreed(h: Heap, was: seq<Byte>, copied: seq<Byte>, now: seq<Byte>, from: nat, to: nat, n: nat,
                       newSize: nat)
    requires Inv(h, None) && from in h.live && to in h.live && from != to && h.live[to] == newSize
    requires n == (if newSize < BlockSize(h.arenas, from) then newSize else BlockSize(h.arenas, from))
    requires from + n <= |was| && to + n <= |was| && copied == was[..to] + was[from..from + n] + was[to + n..]
    requires BlocksKept(h, copied, now, Some(from))
    ensures Moved(h, was, now, from, to, newSize) && KeptBut(h, was, now, from, to)
  {
    BlockFits(h, to);
    hide Inv, Size, Per, IsBig, InArena, BlockSize;
    assert SameBytes(copied, now, to, to + BlockSize(h.arenas, to));
    SameFront(was, copied, now, from, to, n, BlockSize(h.arenas, to));
    forall c | c in h.live && c != from && c != to
      ensures SameBytes(was, now, c, c + BlockSize(h.arenas, c))
    {
      CopiedAround(h, was, copied, now, from, to, n, c);
    }
  }

  lemma CopiedAround(h: Heap, was: seq<Byte>, copied: seq<Byte>, now: seq<Byte>, from: nat, to: nat, n: nat, c: nat)
    requires Inv(h, None) && from in h.live && to in h.live && c in h.live && c != from && c != to && from != to
    requires n <= BlockSize(h.arenas, to) && BlocksKept(h, copied, now, Some(from))
    requires from + n <= |was| && to + n <= |was| && copied == was[..to] + was[from..from + n] + was[to + n..]
    ensures SameBytes(was, now, c, c + BlockSize(h.arenas, c))
  {
    hide Inv, Size, Per, IsBig, InArena, BlockSize;
    assert SameBytes(copied, now, c, c + BlockSize(h.arenas, c));
    Apart(h, c, to);
    SameAround(was, copied, now, from, to, n, c, BlockSize(h.arenas, c), BlockSize(h.arenas, to));
  }

  lemma Apart(h: Heap, b: nat, c: nat)
    requires Inv(h, None) && b in h.live && c in h.live && b != c
    ensures b + BlockSize(h.arenas, b) <= c || c + BlockSize(h.arenas, c) <= b
  {
    hide Inv;
    if b < c {
      LiveDisjoint(h, b, c);
    } else {
      LiveDisjoint(h, c, b);
    }
  }

  lemma SameFront(was: seq<Byte>, copied: seq<Byte>, now: seq<Byte>, from: nat, to: nat, n: nat, size: int)
    requires from + n <= |was| && to + n <= |was| && copied == was[..to] + was[from..from + n] + was[to + n..]
    requires SameBytes(copied, now, to, to + size) && n <= size
    ensures to + n <= |now| && now[to..to + n] == was[from..from + n]
  { }

  lemma SameAround(was: seq<Byte>, copied: seq<Byte>, now: seq<Byte>, from: nat, to: nat, n: nat, c: nat, size: int,
                   toSize: int)
    requires from + n <= |was| && to + n <= |was| && copied == was[..to] + was[from..from + n] + was[to + n..]
    requires SameBytes(copied, now, c, c + size) && n <= toSize && (c + size <= to || to + toSize <= c)
    ensures SameBytes(was, now, c, c + size)
  { }

  lemma KeptAll(h: Heap, mem: seq<Byte>, but: Option<nat>)
    ensures BlocksKept(h, mem, mem, but)
  { }

  lemma GoneLive(h: Heap, h': Heap, p: Option<nat>)
    requires p.Some? ==> Gone(h, h', p.value)
    ensures p.Some? ==> h'.live == h.live - {p.value}
  { }

  lemma TookLive(h: Heap, h': Heap, size: nat, r: Option<nat>)
    requires Took(h, h', size, r)
    ensures r == None ==> h' == h
    ensures r.Some? ==> r.value !in h.live && h'.live == h.live[r.value := size]
  { }

  /** What moved within mid, the state after the new block was taken, moved within h too. */
  lemma MovedKept(h: Heap, mid: Heap, mem: seq<Byte>, mem': seq<Byte>, from: nat, to: nat, newSize: nat)
    requires Took(h, mid, newSize, Some(to)) && from in h.live && Moved(mid, mem, mem', from, to, newSize)
    requires KeptBut(mid, mem, mem', from, to)
    ensures Moved(h, mem, mem', from, to, newSize) && BlocksKept(h, mem, mem', Some(from))
  {
    hide BlockSize;
    forall c | c in h.live && c != from
      ensures SameBytes(mem, mem', c, c + BlockSize(h.arenas, c))
    {
      assert c in mid.live && c != to;
    }
  }

  /** The front of the new block holds what the front of the old one held. */
  ghost predicate Moved(h: Heap, mem: seq<Byte>, mem': seq<Byte>, from: nat, to: nat, newSize: nat) {
    var n := if newSize < BlockSize(h.arenas, from) then newSize else BlockSize(h.arenas, from);
    && 0 <= n && from + n <= |mem| && to + n <= |mem'| && mem'[to..to + n] == mem[from..from + n]
  }

  /** Block b is no longer live, all else is; its pages are free again exactly if nothing live is left on them. */
  ghost predicate Gone(h: Heap, h': Heap, b: nat) {
    && b in h.live && h'.live == h.live - {b} && b / PGSIZE in h.arenas
    && (forall c | c in h'.live :: BlockSize(h'.arenas, c) == BlockSize(h.arenas, c))
    && h'.used == if exists c :: c in h'.live && c / PGSIZE == b / PGSIZE then h.used
                  else WithSet(h.used, b / PGSIZE, Pages(h.arenas[b / PGSIZE]), false)
  }

  /** A new block is on pages that were free, all of which it takes, or in an arena there was. */
  ghost predicate TookPages(h: Heap, h': Heap, b: nat) {
    var p := b / PGSIZE;
    p in h'.arenas
    && if p in h.arenas then h'.used == h.used && h.arenas[p].desc.Some? && h.arenas[p].desc.value < CNT
       else Group(h.used, p, Pages(h'.arenas[p]), false) && h'.used == WithSet(h.used, p, Pages(h'.arenas[p]), true)
  }

  lemma BigPage(h: Heap, p: nat, n: nat)
    requires Inv(h, None) && n > 0 && Group(h.used, p, n, false)
    ensures p !in h.arenas && (p * PGSIZE + HEADER) / PGSIZE == p
  {
    assert p < |h.used| && !h.used[p];
    FreshPage(h, p);
  }

  lemma SmallPage(h: Heap, mid: Heap, h': Heap, d: nat, b: nat, idle: Option<nat>)
    requires d < CNT && b / PGSIZE in mid.arenas && mid.arenas[b / PGSIZE].desc == Some(d) && h'.used == mid.used
    requires h'.arenas.Keys == mid.arenas.Keys && h'.arenas[b / PGSIZE].desc == Some(d)
    requires if idle == None then mid == h
             else d < |h.lists| && idle.value < |h.used| && !h.used[idle.value] && mid == WithArena(h, d, idle.value)
                  && b / PGSIZE == idle.value && Inv(h, None)
    ensures TookPages(h, h', b)
  {
    hide Inv, Size, Per, BlockAt;
    if idle.Some? {
      PageFresh(h, idle.value);
      ArenaUsed(h, d, idle.value);
      hide WithArena, Group, WithSet;
    }
  }

  lemma PageFresh(h: Heap, p: nat)
    requires Inv(h, None) && p < |h.used| && !h.used[p]
    ensures p !in h.arenas
  {
    FreshPage(h, p);
  }

  lemma ArenaUsed(h: Heap, d: nat, p: nat)
    requires d < |h.lists| && p < |h.used| && !h.used[p]
    ensures WithArena(h, d, p).used == WithSet(h.used, p, 1, true) && Group(h.used, p, 1, false)
  { }

  /** Freeing a block that has just been handed out leaves the pool, and what is live, as they were. */
  lemma MallocThenFree(h: Heap, h': Heap, h'': Heap, size: nat, b: nat)
    requires Inv(h, None) && Took(h, h', size, Some(b)) && TookPages(h, h', b) && Gone(h', h'', b)
    ensures h''.used == h.used && h''.live == h.live
  {
    hide Inv, BlockSize, WithSet, Group;
    var p := b / PGSIZE;
    LivePages(h);
    if p in h.arenas {
      SomeLive(h, h.arenas[p].desc.value, p);
      var c :| c in h.live && c / PGSIZE == p;
      assert c in h''.live;
    } else {
      assert forall c | c in h''.live :: c in h.live && c / PGSIZE != p;
      SetAndCleared(h.used, p, Pages(h'.arenas[p]));
    }
  }

  lemma SetAndCleared(used: seq<bool>, p: nat, n: nat)
    requires Group(used, p, n, false)
    ensures WithSet(WithSet(used, p, n, true), p, n, false) == used
  { }

  lemma LivePages(h: Heap)
    requires Inv(h, None)
    ensures forall c | c in h.live :: c / PGSIZE in h.arenas
  { }

  lemma LiveKind(h: Heap, b: nat)
    requires Inv(h, None) && b in h.live
    ensures b / PGSIZE in h.arenas && h.live[b] <= BlockSize(h.arenas, b)
    ensures var a := h.arenas[b / PGSIZE];
            if a.desc.Some? then a.desc.value < CNT && InArena(h.arenas, a.desc.value, b)
            else IsBig(h.arenas, b) && b % PGSIZE == HEADER
  { }

  lemma BigGone(h: Heap, b: nat)
    requires Inv(h, None) && b in h.live && IsBig(h.arenas, b)
    ensures Gone(h, WithoutBig(h, b), b)
  {
    OnlyBig(h, b);
    hide Inv;
  }

  lemma BigKept(h: Heap, b: nat, mem: seq<Byte>, mem': seq<Byte>)
    requires Inv(h, None) && b in h.live && IsBig(h.arenas, b)
    requires var p := b / PGSIZE;
             SameBytes(mem, mem', 0, p * PGSIZE) && SameBytes(mem, mem', (p + h.arenas[p].freeCnt) * PGSIZE, |mem|)
    ensures BlocksKept(h, mem, mem', Some(b))
  {
    var p := b / PGSIZE;
    OnlyBig(h, b);
    forall c | c in h.live && c != b
      ensures SameBytes(mem, mem', c, c + BlockSize(h.arenas, c))
    {
      PagesApart(h, c, p);
    }
  }

  /** A live block on other pages than an arena's is before or behind them. */
  lemma PagesApart(h: Heap, c: nat, p: nat)
    requires PagesOk(h.used, h.arenas) && LiveOk(h.arenas, h.live) && c in h.live && p in h.arenas && c / PGSIZE != p
    ensures c + BlockSize(h.arenas, c) <= p * PGSIZE || (p + Pages(h.arenas[p])) * PGSIZE <= c
  {
    var q := c / PGSIZE;
    if h.arenas[q].desc.Some? {
      InArenaFacts(h.arenas, h.arenas[q].desc.value, c);
    }
    hide Size, Per;
    if q < p {
      MulLe(q + Pages(h.arenas[q]), p, PGSIZE);
    } else {
      MulLe(p + Pages(h.arenas[p]), q, PGSIZE);
    }
  }

  lemma SmallFacts(h: Heap, b: nat, d: nat)
    requires Inv(h, None) && b in h.live && d < CNT && InArena(h.arenas, d, b)
    ensures b / PGSIZE in h.arenas && h.arenas[b / PGSIZE].desc == Some(d) && b + Size(d) <= |h.used| * PGSIZE
    ensures BlockSize(h.arenas, b) == Size(d)
  {
    InArenaFacts(h.arenas, d, b);
    MulLe(b / PGSIZE + 1, |h.used|, PGSIZE);
  }

  lemma ClearedKept(h: Heap, b: nat, mem: seq<Byte>, mem': seq<Byte>)
    requires Inv(h, None) && b in h.live && |mem'| == |mem|
    requires SameBytes(mem, mem', 0, b) && SameBytes(mem, mem', b + BlockSize(h.arenas, b), |mem|)
    ensures BlocksKept(h, mem, mem', Some(b))
  {
    forall c | c in h.live && c != b
      ensures SameBytes(mem, mem', c, c + BlockSize(h.arenas, c))
    {
      if c < b {
        LiveDisjoint(h, c, b);
      } else {
        LiveDisjoint(h, b, c);
      }
    }
  }

  lemma BlockGone(h: Heap, d: nat, b: nat)
    requires Inv(h, None) && d < CNT && b in h.live && InArena(h.arenas, d, b)
    requires h.arenas[b / PGSIZE].freeCnt + 1 < Per(d) && Inv(Pushed(h, d, b), None)
    ensures Gone(h, Pushed(h, d, b), b)
  {
    var h' := Pushed(h, d, b);
    RecountedSame(h.arenas, b / PGSIZE, h.arenas[b / PGSIZE].freeCnt + 1);
    InArenaIs(h.arenas, d, b);
    hide Inv, Per, Size, BlockSize, InArena;
    SomeLive(h', d, b / PGSIZE);
  }

  lemma InArenaIs(arenas: map<nat, Arena>, d: nat, b: nat)
    requires InArena(arenas, d, b)
    ensures b / PGSIZE in arenas && arenas[b / PGSIZE].desc == Some(d)
  { }

  /** While not all blocks of an arena are free, one of them is live. */
  lemma SomeLive(h: Heap, d: nat, p: nat)
    requires Inv(h, None) && d < CNT && p in h.arenas && h.arenas[p].desc == Some(d)
    ensures exists c :: c in h.live && c / PGSIZE == p
  {
    var list := h.lists[d];
    assert |FreeIn(list, d, p)| < Per(d);
    NotAllFree(list, d, p);
    var i: nat :| i < Per(d) && BlockAt(d, p, i) !in list;
    BlockInPage(d, p, i);
    assert InArena(h.arenas, d, BlockAt(d, p, i));
  }

  lemma NotAllFree(list: seq<nat>, d: nat, p: nat)
    requires |FreeIn(list, d, p)| < Per(d)
    ensures exists i: nat :: i < Per(d) && BlockAt(d, p, i) !in list
  {
    hide Size, Per, BlockAt;
    assert (forall i: nat | i < Per(d) :: BlockAt(d, p, i) in list) ==> FreeIn(list, d, p) == Range(Per(d));
  }

  lemma ArenaGone(h: Heap, d: nat, b: nat, list: seq<nat>)
    requires |h.lists| == CNT && d < CNT && b in h.live && InArena(h.arenas, d, b) && b / PGSIZE < |h.used|
    requires forall c | c in h.live && c != b :: c / PGSIZE != b / PGSIZE
    ensures d < |Pushed(h, d, b).lists| && Gone(h, Dropped(Pushed(h, d, b), d, b / PGSIZE, list), b)
  {
    var p := b / PGSIZE;
    RecountedSame(h.arenas, p, h.arenas[p].freeCnt + 1);
    OneCleared(h.used, p);
    assert Pages(h.arenas[p]) == 1;
    hide Inv, Per, Size, InArena, Recounted;
    forall c | c in h.live && c != b
      ensures BlockSize(Pushed(h, d, b).arenas - {p}, c) == BlockSize(h.arenas, c)
    {
      DroppedInArena(Pushed(h, d, b).arenas, p, 0, c);
    }
  }

  lemma ArenaKept(h: Heap, d: nat, b: nat, mem: seq<Byte>, mid: seq<Byte>, mem': seq<Byte>)
    requires Inv(h, None) && d < CNT && b in h.live && InArena(h.arenas, d, b) && BlocksKept(h, mem, mid, Some(b))
    requires forall c | c in h.live && c != b :: c / PGSIZE != b / PGSIZE
    requires var p := b / PGSIZE; SameBytes(mid, mem', 0, p * PGSIZE) && SameBytes(mid, mem', (p + 1) * PGSIZE, |mem'|)
    ensures BlocksKept(h, mem, mem', Some(b))
  {
    var p := b / PGSIZE;
    forall c | c in h.live && c != b
      ensures SameBytes(mem, mem', c, c + BlockSize(h.arenas, c))
    {
      PagesApart(h, c, p);
      assert SameBytes(mem, mid, c, c + BlockSize(h.arenas, c));
    }
  }

  lemma ListFacts(h: Heap, d: nat, p: nat)
    requires Inv(h, Some(p)) && d < CNT && p in h.arenas && h.arenas[p].desc == Some(d)
    ensures |h.lists| == CNT && Distinct(h.lists[d]) && p < |h.used| && h.used[p]
  { }

  lemma OneCleared(used: seq<bool>, p: nat)
    requires p < |used|
    ensures WithSet(used, p, 1, false) == used[p := false] && (used[p] ==> Group(used, p, 1, true))
  { }

  /** Once all its blocks have been taken off, nothing on the list is on the page. */
  lemma AllSwept(h: Heap, d: nat, p: nat, list: seq<nat>)
    requires Inv(h, Some(p)) && d < CNT && Distinct(list)
    requires forall x :: x in list <==> x in h.lists[d] && forall j: nat | j < Per(d) :: x != BlockAt(d, p, j)
    ensures Swept(h.lists[d], list, p)
  {
    hide Per, Size;
    forall x: nat
      ensures x in list <==> x in h.lists[d] && x / PGSIZE != p
    {
      if x in h.lists[d] {
        assert InArena(h.arenas, d, x);
        if x / PGSIZE != p {
          forall j: nat | j < Per(d)
            ensures x != BlockAt(d, p, j)
          {
            BlockInPage(d, p, j);
          }
        }
      }
    }
  }

  /** A new live block of the given size, with every other block as it was; or nothing. */
  ghost predicate Took(h: Heap, h': Heap, size: nat, r: Option<nat>) {
    && (r == None ==> h' == h)
    && (r.Some? ==> r.value !in h.live && h'.live == h.live[r.value := size] && size <= BlockSize(h'.arenas, r.value))
    && (forall b | b in h.live :: BlockSize(h'.arenas, b) == BlockSize(h.arenas, b))
  }

  lemma TookNothing(h: Heap, size: nat)
    ensures Took(h, h, size, None)
  { }

  lemma OnePage(used: seq<bool>, p: nat)
    requires Group(used, p, 1, false)
    ensures p < |used| && !used[p] && WithSet(used, p, 1, true) == used[p := true]
  { }

  lemma ListCount(h: Heap)
    requires Inv(h, None)
    ensures |h.lists| == CNT
  { }

  lemma DescSizes(descs: seq<Desc>)
    requires descs == Descs()
    ensures |descs| == CNT && descs[CNT - 1].blockSize == 1024
    ensures forall d | 0 <= d < CNT :: descs[d] == Desc(Size(d), Per(d)) && Size(d) <= 1024
  { }

  lemma NewPages(h: Heap, p: nat, n: nat)
    requires Inv(h, None) && n > 0 && Group(h.used, p, n, false)
    ensures forall b | b in h.live :: b / PGSIZE != p
  {
    assert p < |h.used| && !h.used[p];
    FreshPage(h, p);
  }

  lemma TookBig(h: Heap, p: nat, n: nat, size: nat)
    requires (forall b | b in h.live :: b / PGSIZE != p) && size + HEADER <= n * PGSIZE
    ensures Took(h, WithBig(h, p, n, size), size, Some(p * PGSIZE + HEADER))
  { }

  lemma TookFront(h: Heap, d: nat, size: nat)
    requires d < |h.lists| && h.lists[d] != [] && h.lists[d][0] / PGSIZE in h.arenas
    requires h.arenas[h.lists[d][0] / PGSIZE].freeCnt > 0
    requires h.lists[d][0] !in h.live && InArena(h.arenas, d, h.lists[d][0]) && size <= Size(d)
    ensures Took(h, Popped(h, d, size), size, Some(h.lists[d][0]))
  { }

  lemma TookArena(h: Heap, d: nat, p: nat, size: nat)
    requires Inv(h, None) && d < CNT && d < |h.lists| && p < |h.used| && !h.used[p]
    ensures WithArena(h, d, p).live == h.live
    ensures forall b | b in h.live :: BlockSize(WithArena(h, d, p).arenas, b) == BlockSize(h.arenas, b)
  {
    FreshPage(h, p);
  }

  lemma ArenaFront(h: Heap, d: nat, p: nat)
    requires d < CNT && d < |h.lists| && p < |h.used|
    ensures WithArena(h, d, p).lists[d] != [] && WithArena(h, d, p).lists[d][0] / PGSIZE == p
  { }

  lemma TookBoth(h: Heap, mid: Heap, h': Heap, size: nat, r: Option<nat>)
    requires Took(mid, h', size, r) && r.Some? && mid.live == h.live
    requires forall b | b in h.live :: BlockSize(mid.arenas, b) == BlockSize(h.arenas, b)
    ensures Took(h, h', size, r)
  { }

  /** `malloc_init`: descriptors for the powers of two below half a page, with as many blocks as fit behind a header. */
  method MallocInit() returns (descs: seq<Desc>, lists: seq<seq<nat>>)
    ensures descs == Descs() && |lists| == |descs| && forall d | 0 <= d < |lists| :: lists[d] == []
  {
    descs, lists := [], [];
    var blockSize := 16;
    while blockSize < PGSIZE / 2
      invariant |descs| == |lists| <= CNT && descs == Descs()[..|descs|]
      invariant forall d | 0 <= d < |lists| :: lists[d] == []
      invariant blockSize == if |descs| < CNT then Size(|descs|) else 2048
      decreases PGSIZE - blockSize
    {
      NextDesc(|descs|);
      descs := descs + [Desc(blockSize, (PGSIZE - HEADER) / blockSize)];
      lists := lists + [[]];
      blockSize := blockSize * 2;
    }
  }

  lemma NextDesc(n: nat)
    requires n < CNT
    ensures Descs()[n] == Desc(Size(n), (PGSIZE - HEADER) / Size(n))
    ensures Size(n) * 2 == if n + 1 < CNT then Size(n + 1) else 2048
    ensures Descs()[..n + 1] == Descs()[..n] + [Descs()[n]]
  { }

  lemma NothingLive(h: Heap)
    requires h.arenas == map[] && h.live == map[] && |h.lists| == CNT && forall d | 0 <= d < CNT :: h.lists[d] == []
    ensures Inv(h, None)
  { }
}
