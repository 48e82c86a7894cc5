/** Blocks, arenas and free lists: the state behind threads/malloc.c, and what its steps keep. */
module Arenas {
  import opened Bitmap
  import opened Bits
  import opened Sequences

  const PGSIZE: nat := 4096
  /** `sizeof (struct arena)` */
  const HEADER: nat := 24

  /** `struct desc` */
  datatype Desc = Desc(blockSize: nat, perArena: nat)

  /** The descriptors malloc_init makes: powers of two from 16 to 1024, and how many blocks fit behind an arena's
      header. */
  function Descs(): seq<Desc> {
    [Desc(16, 254), Desc(32, 127), Desc(64, 63), Desc(128, 31), Desc(256, 15), Desc(512, 7), Desc(1024, 3)]
  }

  const CNT: nat := 7

  function Size(d: nat): nat { if d < CNT then Descs()[d].blockSize else 0 }
  function Per(d: nat): nat { if d < CNT then Descs()[d].perArena else 0 }

  lemma DescFacts(d: nat)
    requires d < CNT
    ensures 16 <= Size(d) <= 1024 && Per(d) >= 3 && HEADER + Per(d) * Size(d) <= PGSIZE
    ensures forall e | d < e < CNT :: Size(d) < Size(e)
  { }

  /** `arena_to_block`: the address of block i of the arena on page p */
  function BlockAt(d: nat, p: nat, i: nat): nat { p * PGSIZE + HEADER + i * Size(d) }

  /** A block lies on its arena's page behind the header, and `block_to_arena` finds that page again. */
  lemma BlockInPage(d: nat, p: nat, i: nat)
    requires d < CNT && i < Per(d)
    ensures p * PGSIZE + HEADER <= BlockAt(d, p, i) && BlockAt(d, p, i) + Size(d) <= (p + 1) * PGSIZE
    ensures BlockAt(d, p, i) / PGSIZE == p && (BlockAt(d, p, i) % PGSIZE - HEADER) % Size(d) == 0
  {
    DescFacts(d);
    hide Size, Per;
    MulLe(i + 1, Per(d), Size(d));
    assert (i + 1) * Size(d) == i * Size(d) + Size(d);
    var o := HEADER + i * Size(d);
    assert 0 <= o < PGSIZE && BlockAt(d, p, i) == p * PGSIZE + o;
    ModOfMultiple(i, Size(d));
  }

  lemma MulLe(a: nat, b: nat, n: nat)
    requires a <= b
    ensures a * n <= b * n
  { }

  lemma ModOfMultiple(i: nat, n: nat)
    requires n > 0
    ensures (i * n) % n == 0
  {
    DivModUnique(i * n, n, i, 0);
  }

  /** Different blocks of an arena do not overlap. */
  lemma BlocksApart(d: nat, p: nat, i: nat, j: nat)
    requires i < j
    ensures BlockAt(d, p, i) + Size(d) <= BlockAt(d, p, j)
  { }

  /** An address names at most one block of a descriptor. */
  lemma BlockUnique(d: nat, p: nat, i: nat, q: nat, j: nat)
    requires d < CNT && i < Per(d) && j < Per(d) && BlockAt(d, p, i) == BlockAt(d, q, j)
    ensures p == q && i == j
  { }

  // ---------------------------------------------------------------- the invariant

  /** `struct arena`: without a descriptor it is a big block, and freeCnt counts its pages. */
  datatype Arena = Arena(desc: Option<nat>, freeCnt: nat)

  /** live: the blocks in use, with the size that was asked for. */
  datatype Heap = Heap(used: seq<bool>, arenas: map<nat, Arena>, lists: seq<seq<nat>>, live: map<nat, nat>)

  function Pages(a: Arena): nat { if a.desc == None then a.freeCnt else 1 }

  /** Arenas have their pages to themselves, and these are marked as used. */
  ghost predicate PagesOk(used: seq<bool>, arenas: map<nat, Arena>) {
    && (forall p | p in arenas :: Pages(arenas[p]) > 0 && p + Pages(arenas[p]) <= |used|)
    && (forall p, i | p in arenas && p <= i < p + Pages(arenas[p]) && i < |used| :: used[i])
    && (forall p, q | p in arenas && q in arenas && p < q :: p + Pages(arenas[p]) <= q)
    && (forall p | p in arenas && arenas[p].desc.Some? :: arenas[p].desc.value < CNT)
  }

  /** Block b belongs to an arena of descriptor d. */
  ghost predicate InArena(arenas: map<nat, Arena>, d: nat, b: nat) {
    var p := b / PGSIZE;
    p in arenas && arenas[p].desc == Some(d) && exists i: nat :: i < Per(d) && b == BlockAt(d, p, i)
  }

  ghost predicate IsBig(arenas: map<nat, Arena>, b: nat) {
    b / PGSIZE in arenas && arenas[b / PGSIZE].desc == None && b % PGSIZE == HEADER
  }

  /** `block_size` */
  function BlockSize(arenas: map<nat, Arena>, b: nat): int {
    if b / PGSIZE !in arenas then 0 else
      var a := arenas[b / PGSIZE];
      if a.desc.Some? then Size(a.desc.value) else PGSIZE * a.freeCnt - b % PGSIZE
  }

  /** A free list holds blocks of its descriptor's arenas, each once. */
  ghost predicate ListsOk(arenas: map<nat, Arena>, lists: seq<seq<nat>>) {
    && |lists| == CNT && (forall d | 0 <= d < CNT :: Distinct(lists[d]))
    && forall d, b | 0 <= d < CNT && b in lists[d] :: InArena(arenas, d, b)
  }

  /** The free blocks of the arena on page p, by number */
  ghost function FreeIn(list: seq<nat>, d: nat, p: nat): set<nat> {
    set i: nat | i < Per(d) && BlockAt(d, p, i) in list
  }

  /** free_cnt is the number of an arena's free blocks; only on page idle may all be free. */
  ghost predicate CountsOk(arenas: map<nat, Arena>, lists: seq<seq<nat>>, idle: Option<nat>) {
    |lists| == CNT
    && forall p | p in arenas && arenas[p].desc.Some? && arenas[p].desc.value < CNT ::
         var d := arenas[p].desc.value;
         arenas[p].freeCnt == |FreeIn(lists[d], d, p)| && (Some(p) != idle ==> arenas[p].freeCnt < Per(d))
  }

  /** Every block of an arena is either free or live, never both; big blocks are live. */
  ghost predicate SplitOk(arenas: map<nat, Arena>, lists: seq<seq<nat>>, live: map<nat, nat>) {
    |lists| == CNT
    && (forall d, b | 0 <= d < CNT && InArena(arenas, d, b) :: b in lists[d] <==> b !in live)
    && (forall b | IsBig(arenas, b) :: b in live)
  }

  /** A live block is a block of some arena, at least as large as what was asked for. */
  ghost predicate LiveOk(arenas: map<nat, Arena>, live: map<nat, nat>) {
    forall b | b in live ::
      && (IsBig(arenas, b) ||
          (b / PGSIZE in arenas && arenas[b / PGSIZE].desc.Some? && InArena(arenas, arenas[b / PGSIZE].desc.value, b)))
      && live[b] <= BlockSize(arenas, b)
  }

  ghost predicate Inv(h: Heap, idle: Option<nat>) {
    && PagesOk(h.used, h.arenas) && ListsOk(h.arenas, h.lists) && CountsOk(h.arenas, h.lists, idle)
    && SplitOk(h.arenas, h.lists, h.live) && LiveOk(h.arenas, h.live)
  }

  // ---------------------------------------------------------------- what the invariant means

  lemma InArenaFacts(arenas: map<nat, Arena>, d: nat, b: nat)
    requires d < CNT && InArena(arenas, d, b)
    ensures b / PGSIZE * PGSIZE + HEADER <= b && b + Size(d) <= (b / PGSIZE + 1) * PGSIZE
    ensures (b % PGSIZE - HEADER) % Size(d) == 0
  {
    var i: nat :| i < Per(d) && b == BlockAt(d, b / PGSIZE, i);
    BlockInPage(d, b / PGSIZE, i);
  }

  /** A live block is inside its arena, past the header. */
  lemma LiveInside(h: Heap, b: nat)
    requires Inv(h, None) && b in h.live
    ensures b / PGSIZE in h.arenas
    ensures var p := b / PGSIZE;
            && p * PGSIZE + HEADER <= b && b + BlockSize(h.arenas, b) <= (p + Pages(h.arenas[p])) * PGSIZE
            && h.live[b] <= BlockSize(h.arenas, b)
  {
    var p := b / PGSIZE;
    if !IsBig(h.arenas, b) {
      InArenaFacts(h.arenas, h.arenas[p].desc.value, b);
    }
  }

  /** Live blocks do not overlap. */
  lemma LiveDisjoint(h: Heap, b: nat, c: nat)
    requires Inv(h, None) && b in h.live && c in h.live && b < c
    ensures b + BlockSize(h.arenas, b) <= c
  {
    LiveInside(h, b);
    LiveInside(h, c);
    var p, q := b / PGSIZE, c / PGSIZE;
    if p == q {
      if h.arenas[p].desc.Some? {
        var d := h.arenas[p].desc.value;
        SamePageApart(h.arenas, d, b, c);
      }
    } else {
      assert p < q;
      MulLe(p + Pages(h.arenas[p]), q, PGSIZE);
    }
  }

  lemma SamePageApart(arenas: map<nat, Arena>, d: nat, b: nat, c: nat)
    requires d < CNT && InArena(arenas, d, b) && InArena(arenas, d, c) && b / PGSIZE == c / PGSIZE && b < c
    ensures b + Size(d) <= c
  {
    var p := b / PGSIZE;
    var i: nat :| i < Per(d) && b == BlockAt(d, p, i);
    var j: nat :| j < Per(d) && c == BlockAt(d, p, j);
    BlocksInOrder(d, p, j, i);
    BlocksApart(d, p, i, j);
  }

  lemma BlocksInOrder(d: nat, p: nat, i: nat, j: nat)
    ensures i <= j ==> BlockAt(d, p, i) <= BlockAt(d, p, j)
  {
    if i < j {
      BlocksApart(d, p, i, j);
    }
  }

  /** An address the allocator itself may write to: in an arena's header, or in a free block, which carries the list's
      links. */
  ghost predicate Bookkeeping(h: Heap, at: nat) {
    || (exists p :: p in h.arenas && p * PGSIZE <= at < p * PGSIZE + HEADER)
    || (exists d, b :: 0 <= d < CNT && d < |h.lists| && b in h.lists[d] && b <= at < b + Size(d))
  }

  /** No such address is in a live block. */
  lemma BookkeepingOffLive(h: Heap, at: nat, c: nat)
    requires Inv(h, None) && c in h.live && Bookkeeping(h, at)
    ensures !(c <= at < c + BlockSize(h.arenas, c))
  {
    if p :| p in h.arenas && p * PGSIZE <= at < p * PGSIZE + HEADER {
      HeaderOffLive(h, p, at, c);
    } else {
      var d, b :| 0 <= d < CNT && b in h.lists[d] && b <= at < b + Size(d);
      FreeOffLive(h, d, b, c);
    }
  }

  lemma HeaderOffLive(h: Heap, p: nat, at: nat, c: nat)
    requires Inv(h, None) && c in h.live && p in h.arenas && p * PGSIZE <= at < p * PGSIZE + HEADER
    ensures !(c <= at < c + BlockSize(h.arenas, c))
  {
    LiveInside(h, c);
    var q := c / PGSIZE;
    if p > q {
      MulLe(q + Pages(h.arenas[q]), p, PGSIZE);
    } else if p < q {
      MulLe(p + 1, q, PGSIZE);
    }
  }

  lemma FreeOffLive(h: Heap, d: nat, b: nat, c: nat)
    requires Inv(h, None) && c in h.live && d < CNT && b in h.lists[d]
    ensures c + BlockSize(h.arenas, c) <= b || b + Size(d) <= c
  {
    assert InArena(h.arenas, d, b) && b != c;
    LiveInside(h, c);
    InArenaFacts(h.arenas, d, b);
    var p, q := b / PGSIZE, c / PGSIZE;
    if p == q {
      hide Size, Per;
      if b < c {
        SamePageApart(h.arenas, d, b, c);
      } else {
        SamePageApart(h.arenas, d, c, b);
      }
    } else if p < q {
      MulLe(p + 1, q, PGSIZE);
    } else {
      MulLe(q + Pages(h.arenas[q]), p, PGSIZE);
    }
  }

  // ---------------------------------------------------------------- a new arena

  ghost function Blocks(d: nat, p: nat): (r: seq<nat>)
    ensures |r| == Per(d)
  {
    seq(Per(d), i requires 0 <= i < Per(d) => BlockAt(d, p, i))
  }

  /** Page p becomes an arena of descriptor d, whose list was empty. */
  ghost function WithArena(h: Heap, d: nat, p: nat): Heap
    requires d < |h.lists| && p < |h.used|
  {
    Heap(h.used[p := true], h.arenas[p := Arena(Some(d), Per(d))], h.lists[d := Blocks(d, p)], h.live)
  }

  ghost function Range(n: nat): (r: set<nat>)
    ensures |r| == n && forall i: nat :: i in r <==> i < n
  {
    if n == 0 then {} else Range(n - 1) + {n - 1}
  }

  lemma BlocksFacts(d: nat, p: nat)
    requires d < CNT
    ensures Distinct(Blocks(d, p))
    ensures (forall b | b in Blocks(d, p) :: b / PGSIZE == p && exists i: nat :: i < Per(d) && b == BlockAt(d, p, i))
    ensures forall i: nat | i < Per(d) :: BlockAt(d, p, i) in Blocks(d, p)
    ensures |FreeIn(Blocks(d, p), d, p)| == Per(d)
  {
    hide Size, Per;
    var s := Blocks(d, p);
    forall i, j | 0 <= i < j < |s|
      ensures s[i] != s[j]
    {
      if s[i] == s[j] {
        BlockUnique(d, p, i, p, j);
      }
    }
    forall b | b in s
      ensures b / PGSIZE == p && exists i: nat :: i < Per(d) && b == BlockAt(d, p, i)
    {
      var i :| 0 <= i < |s| && s[i] == b;
      BlockInPage(d, p, i);
      assert b == BlockAt(d, p, i);
    }
    forall i: nat | i < Per(d)
      ensures BlockAt(d, p, i) in s
    {
      assert s[i] == BlockAt(d, p, i);
    }
    assert FreeIn(s, d, p) == Range(Per(d));
  }

  /** A page that is not marked is in no arena, and nothing on it is live. */
  lemma FreshPage(h: Heap, p: nat)
    requires PagesOk(h.used, h.arenas) && p < |h.used| && !h.used[p]
    ensures p !in h.arenas && forall q | q in h.arenas :: !(q <= p < q + Pages(h.arenas[q]))
    ensures LiveOk(h.arenas, h.live) ==> forall b | b in h.live :: b / PGSIZE != p
  { }

  lemma WithArenaKeeps(h: Heap, d: nat, p: nat)
    requires Inv(h, None) && d < CNT && h.lists[d] == [] && p < |h.used| && !h.used[p]
    ensures Inv(WithArena(h, d, p), Some(p))
  {
    var h' := WithArena(h, d, p);
    FreshPage(h, p);
    BlocksFacts(d, p);
    hide Per, Size, Distinct, FreeIn;
    WithArenaPages(h, d, p);
    WithArenaLists(h, d, p);
    WithArenaCounts(h, d, p);
    WithArenaSplit(h, d, p);
    WithArenaLive(h, d, p);
  }

  lemma WithArenaPages(h: Heap, d: nat, p: nat)
    requires PagesOk(h.used, h.arenas) && d < CNT && d < |h.lists| && p < |h.used| && !h.used[p]
    ensures PagesOk(WithArena(h, d, p).used, WithArena(h, d, p).arenas)
  {
    hide Per;
    FreshPage(h, p);
    var h' := WithArena(h, d, p);
    forall q, r | q in h'.arenas && r in h'.arenas && q < r
      ensures q + Pages(h'.arenas[q]) <= r
    {
      assert Pages(h'.arenas[p]) == 1;
    }
  }

  lemma InArenaNew(arenas: map<nat, Arena>, p: nat, a: Arena, e: nat, b: nat)
    ensures b / PGSIZE != p ==> (InArena(arenas[p := a], e, b) <==> InArena(arenas, e, b))
    ensures b / PGSIZE != p ==>
              (IsBig(arenas[p := a], b) <==> IsBig(arenas, b)) && BlockSize(arenas[p := a], b) == BlockSize(arenas, b)
  { }

  lemma WithArenaLists(h: Heap, d: nat, p: nat)
    requires ListsOk(h.arenas, h.lists) && d < CNT && p < |h.used| && p !in h.arenas
    requires Distinct(Blocks(d, p))
    requires forall b | b in Blocks(d, p) :: b / PGSIZE == p && exists i: nat :: i < Per(d) && b == BlockAt(d, p, i)
    ensures ListsOk(WithArena(h, d, p).arenas, WithArena(h, d, p).lists)
  { }

  lemma WithArenaCounts(h: Heap, d: nat, p: nat)
    requires CountsOk(h.arenas, h.lists, None) && PagesOk(h.used, h.arenas) && d < CNT && h.lists[d] == []
    requires p < |h.used| && p !in h.arenas
    requires |FreeIn(Blocks(d, p), d, p)| == Per(d)
    requires forall b | b in Blocks(d, p) :: b / PGSIZE == p
    ensures CountsOk(WithArena(h, d, p).arenas, WithArena(h, d, p).lists, Some(p))
  {
    hide Size, Blocks;
    var h' := WithArena(h, d, p);
    forall q | q in h'.arenas && h'.arenas[q].desc.Some? && h'.arenas[q].desc.value < CNT
      ensures var e := h'.arenas[q].desc.value;
              h'.arenas[q].freeCnt == |FreeIn(h'.lists[e], e, q)| && (Some(q) != Some(p) ==> h'.arenas[q].freeCnt < Per(e))
    {
      var e := h'.arenas[q].desc.value;
      if q != p {
        if e == d {
          forall i: nat | i < Per(e)
            ensures BlockAt(e, q, i) !in Blocks(d, p)
          {
            BlockInPage(e, q, i);
          }
        }
        assert FreeIn(h'.lists[e], e, q) == FreeIn(h.lists[e], e, q);
      }
    }
  }

  lemma WithArenaSplit(h: Heap, d: nat, p: nat)
    requires SplitOk(h.arenas, h.lists, h.live) && d < CNT && h.lists[d] == [] && p < |h.used| && p !in h.arenas
    requires forall b | b in Blocks(d, p) :: b / PGSIZE == p
    requires forall i: nat | i < Per(d) :: BlockAt(d, p, i) in Blocks(d, p)
    requires forall b | b in h.live :: b / PGSIZE != p
    ensures SplitOk(WithArena(h, d, p).arenas, WithArena(h, d, p).lists, h.live)
  {
    hide Per, Size, Blocks;
    var h' := WithArena(h, d, p);
    forall e, b | 0 <= e < CNT && InArena(h'.arenas, e, b)
      ensures b in h'.lists[e] <==> b !in h.live
    {
      InArenaNew(h.arenas, p, h'.arenas[p], e, b);
    }
    forall b | IsBig(h'.arenas, b)
      ensures b in h.live
    {
      InArenaNew(h.arenas, p, h'.arenas[p], d, b);
    }
  }

  lemma WithArenaLive(h: Heap, d: nat, p: nat)
    requires LiveOk(h.arenas, h.live) && d < |h.lists| && p < |h.used| && forall b | b in h.live :: b / PGSIZE != p
    ensures LiveOk(WithArena(h, d, p).arenas, h.live)
  { }

  // ---------------------------------------------------------------- taking and giving back a block

  /** The arenas with another number of free blocks for the arena on page p. */
  ghost function Recounted(arenas: map<nat, Arena>, p: nat, n: nat): map<nat, Arena>
    requires p in arenas
  {
    arenas[p := arenas[p].(freeCnt := n)]
  }

  lemma RecountedSame(arenas: map<nat, Arena>, p: nat, n: nat)
    requires p in arenas && arenas[p].desc.Some?
    ensures forall d, b :: InArena(Recounted(arenas, p, n), d, b) <==> InArena(arenas, d, b)
    ensures forall b :: IsBig(Recounted(arenas, p, n), b) <==> IsBig(arenas, b)
    ensures forall b :: BlockSize(Recounted(arenas, p, n), b) == BlockSize(arenas, b)
    ensures forall used :: PagesOk(used, arenas) ==> PagesOk(used, Recounted(arenas, p, n))
  { }

  /** The front block of a free list is handed out. */
  ghost function Popped(h: Heap, d: nat, size: nat): Heap
    requires d < |h.lists| && h.lists[d] != [] && h.lists[d][0] / PGSIZE in h.arenas
    requires h.arenas[h.lists[d][0] / PGSIZE].freeCnt > 0
  {
    var b := h.lists[d][0];
    var p := b / PGSIZE;
    Heap(h.used, Recounted(h.arenas, p, h.arenas[p].freeCnt - 1), h.lists[d := h.lists[d][1..]], h.live[b := size])
  }

  lemma FreeAtMost(list: seq<nat>, d: nat, p: nat)
    ensures |FreeIn(list, d, p)| <= Per(d)
    ensures |FreeIn(list, d, p)| == Per(d) ==> forall i: nat | i < Per(d) :: BlockAt(d, p, i) in list
  {
    hide Size, Per, BlockAt;
    var f, r := FreeIn(list, d, p), Range(Per(d));
    assert forall i | i in f :: i in r;
    SubsetSize(f, r);
    if |f| == Per(d) {
      forall i: nat | i < Per(d)
        ensures BlockAt(d, p, i) in list
      {
        assert i in f;
      }
    }
  }

  /** One block more or less on a list changes the count of its own arena by one, and no other arena's. */
  lemma FreeInOneMore(list: seq<nat>, more: seq<nat>, d: nat, b: nat, q: nat)
    requires d < CNT && b !in list && (forall x :: x in more <==> x == b || x in list)
    requires exists i: nat :: i < Per(d) && b == BlockAt(d, b / PGSIZE, i)
    ensures |FreeIn(more, d, q)| == |FreeIn(list, d, q)| + (if q == b / PGSIZE then 1 else 0)
  {
    hide Size, Per;
    var i: nat :| i < Per(d) && b == BlockAt(d, b / PGSIZE, i);
    forall j: nat | j < Per(d)
      ensures BlockAt(d, q, j) == b <==> q == b / PGSIZE && j == i
    {
      if BlockAt(d, q, j) == b {
        BlockUnique(d, q, j, b / PGSIZE, i);
      }
    }
    if q == b / PGSIZE {
      assert FreeIn(more, d, q) == FreeIn(list, d, q) + {i};
    } else {
      assert FreeIn(more, d, q) == FreeIn(list, d, q);
    }
  }

  lemma FrontFacts(h: Heap, d: nat, idle: Option<nat>)
    requires ListsOk(h.arenas, h.lists) && CountsOk(h.arenas, h.lists, idle)
    requires d < CNT && h.lists[d] != []
    ensures var b := h.lists[d][0];
            && InArena(h.arenas, d, b) && b !in h.lists[d][1..] && Distinct(h.lists[d][1..])
            && h.lists[d] == [b] + h.lists[d][1..]
            && h.arenas[b / PGSIZE].freeCnt == |FreeIn(h.lists[d], d, b / PGSIZE)| > 0
            && |FreeIn(h.lists[d], d, b / PGSIZE)| <= Per(d)
  {
    hide Size, Per;
    var b := h.lists[d][0];
    assert b in h.lists[d];
    assert h.lists[d] == [b] + h.lists[d][1..];
    FreeInOneMore(h.lists[d][1..], h.lists[d], d, b, b / PGSIZE);
    FreeAtMost(h.lists[d], d, b / PGSIZE);
  }

  /** Taking the front block of a list keeps the invariant. */
  lemma PoppedKeeps(h: Heap, d: nat, size: nat, idle: Option<nat>)
    requires Inv(h, idle) && d < CNT && h.lists[d] != [] && size <= Size(d)
    requires idle == None || idle == Some(h.lists[d][0] / PGSIZE)
    ensures var b := h.lists[d][0];
            b / PGSIZE in h.arenas && h.arenas[b / PGSIZE].freeCnt > 0 && b !in h.live && InArena(h.arenas, d, b)
    ensures Inv(Popped(h, d, size), None)
  {
    var b := h.lists[d][0];
    PoppedFree(h, d);
    FrontFacts(h, d, idle);
    hide Size, Per, FreeIn, CountsOk, SplitOk, LiveOk, ListsOk, PagesOk;
    PoppedLists(h, d, size);
    PoppedCounts(h, d, size, idle);
    PoppedSplit(h, d, size);
    PoppedLive(h, d, size);
  }

  lemma PoppedFree(h: Heap, d: nat)
    requires ListsOk(h.arenas, h.lists) && SplitOk(h.arenas, h.lists, h.live) && d < CNT && h.lists[d] != []
    ensures h.lists[d][0] !in h.live && InArena(h.arenas, d, h.lists[d][0])
  { }

  lemma PoppedLists(h: Heap, d: nat, size: nat)
    requires PagesOk(h.used, h.arenas) && ListsOk(h.arenas, h.lists) && d < CNT && h.lists[d] != []
    requires h.lists[d][0] / PGSIZE in h.arenas && h.arenas[h.lists[d][0] / PGSIZE].freeCnt > 0
    requires h.arenas[h.lists[d][0] / PGSIZE].desc.Some? && Distinct(h.lists[d][1..])
    ensures PagesOk(h.used, Popped(h, d, size).arenas) && ListsOk(Popped(h, d, size).arenas, Popped(h, d, size).lists)
  {
    var b := h.lists[d][0];
    RecountedSame(h.arenas, b / PGSIZE, h.arenas[b / PGSIZE].freeCnt - 1);
    hide InArena, Recounted, Pages;
  }

  lemma PoppedCounts(h: Heap, d: nat, size: nat, idle: Option<nat>)
    requires ListsOk(h.arenas, h.lists) && CountsOk(h.arenas, h.lists, idle) && d < CNT && h.lists[d] != []
    requires idle == None || idle == Some(h.lists[d][0] / PGSIZE)
    requires h.lists[d][0] / PGSIZE in h.arenas && h.arenas[h.lists[d][0] / PGSIZE].freeCnt > 0
    ensures CountsOk(Popped(h, d, size).arenas, Popped(h, d, size).lists, None)
  {
    FrontFacts(h, d, idle);
    hide Size, Per, FreeIn;
    var h', b := Popped(h, d, size), h.lists[d][0];
    forall q | q in h'.arenas && h'.arenas[q].desc.Some? && h'.arenas[q].desc.value < CNT
      ensures var e := h'.arenas[q].desc.value;
              h'.arenas[q].freeCnt == |FreeIn(h'.lists[e], e, q)| && h'.arenas[q].freeCnt < Per(e)
    {
      var e := h'.arenas[q].desc.value;
      if e == d {
        FreeInOneMore(h.lists[d][1..], h.lists[d], d, b, q);
      } else {
        assert q != b / PGSIZE;
      }
    }
  }

  lemma PoppedSplit(h: Heap, d: nat, size: nat)
    requires ListsOk(h.arenas, h.lists) && SplitOk(h.arenas, h.lists, h.live) && d < CNT && h.lists[d] != []
    requires h.lists[d][0] / PGSIZE in h.arenas && h.arenas[h.lists[d][0] / PGSIZE].freeCnt > 0
    requires InArena(h.arenas, d, h.lists[d][0]) && h.lists[d][0] !in h.lists[d][1..]
    requires h.lists[d] == [h.lists[d][0]] + h.lists[d][1..]
    ensures SplitOk(Popped(h, d, size).arenas, Popped(h, d, size).lists, Popped(h, d, size).live)
  {
    var h', b := Popped(h, d, size), h.lists[d][0];
    assert h.arenas[b / PGSIZE].desc == Some(d);
    RecountedSame(h.arenas, b / PGSIZE, h.arenas[b / PGSIZE].freeCnt - 1);
    OneDesc(h.arenas, d, b);
    hide Size, Per, InArena, IsBig, Recounted;
    forall e, x | 0 <= e < CNT && InArena(h'.arenas, e, x)
      ensures x in h'.lists[e] <==> x !in h'.live
    {
      assert InArena(h.arenas, e, x);
      assert x == b ==> e == d;
    }
  }

  /** A block belongs to one descriptor only. */
  lemma OneDesc(arenas: map<nat, Arena>, d: nat, b: nat)
    requires InArena(arenas, d, b)
    ensures forall e | InArena(arenas, e, b) :: e == d
    ensures !IsBig(arenas, b)
  { }

  lemma PoppedLive(h: Heap, d: nat, size: nat)
    requires LiveOk(h.arenas, h.live) && d < |h.lists| && h.lists[d] != [] && size <= Size(d)
    requires h.lists[d][0] / PGSIZE in h.arenas && h.arenas[h.lists[d][0] / PGSIZE].freeCnt > 0
    requires InArena(h.arenas, d, h.lists[d][0])
    ensures LiveOk(Popped(h, d, size).arenas, Popped(h, d, size).live)
  { }

  /** A live block goes to the front of its descriptor's list. */
  ghost function Pushed(h: Heap, d: nat, b: nat): Heap
    requires d < |h.lists| && b / PGSIZE in h.arenas
  {
    var p := b / PGSIZE;
    Heap(h.used, Recounted(h.arenas, p, h.arenas[p].freeCnt + 1), h.lists[d := [b] + h.lists[d]], h.live - {b})
  }

  lemma PushedKeeps(h: Heap, d: nat, b: nat)
    requires Inv(h, None) && d < CNT && b in h.live && InArena(h.arenas, d, b)
    ensures Inv(Pushed(h, d, b), Some(b / PGSIZE))
    ensures h.arenas[b / PGSIZE].freeCnt + 1 <= Per(d)
    ensures h.arenas[b / PGSIZE].freeCnt + 1 < Per(d) ==> Inv(Pushed(h, d, b), None)
  {
    PushedNew(h, d, b);
    hide Size, Per, FreeIn, CountsOk, SplitOk, LiveOk, ListsOk, PagesOk;
    PushedLists(h, d, b);
    PushedCounts(h, d, b, None);
    PushedCounts(h, d, b, Some(b / PGSIZE));
    PushedSplit(h, d, b);
    PushedLive(h, d, b);
  }

  lemma PushedNew(h: Heap, d: nat, b: nat)
    requires SplitOk(h.arenas, h.lists, h.live) && CountsOk(h.arenas, h.lists, None) && d < CNT && b in h.live
    requires InArena(h.arenas, d, b)
    ensures b !in h.lists[d] && h.arenas[b / PGSIZE].freeCnt + 1 <= Per(d) && h.arenas[b / PGSIZE].desc == Some(d)
  { }

  lemma PushedLists(h: Heap, d: nat, b: nat)
    requires PagesOk(h.used, h.arenas) && ListsOk(h.arenas, h.lists) && d < CNT && InArena(h.arenas, d, b)
    requires b !in h.lists[d]
    ensures PagesOk(h.used, Pushed(h, d, b).arenas) && ListsOk(Pushed(h, d, b).arenas, Pushed(h, d, b).lists)
  {
    RecountedSame(h.arenas, b / PGSIZE, h.arenas[b / PGSIZE].freeCnt + 1);
    DistinctCons(h.lists[d], b);
    hide InArena, Recounted, Pages, PagesOk, Distinct;
  }

  lemma DistinctCons(list: seq<nat>, b: nat)
    requires Distinct(list) && b !in list
    ensures Distinct([b] + list)
  { }

  lemma PushedCounts(h: Heap, d: nat, b: nat, idle: Option<nat>)
    requires CountsOk(h.arenas, h.lists, None) && d < CNT && InArena(h.arenas, d, b) && b !in h.lists[d]
    requires h.arenas[b / PGSIZE].desc == Some(d)
    ensures idle == Some(b / PGSIZE) || h.arenas[b / PGSIZE].freeCnt + 1 < Per(d) ==>
              CountsOk(Pushed(h, d, b).arenas, Pushed(h, d, b).lists, idle)
  {
    hide Size, Per, FreeIn;
    var h' := Pushed(h, d, b);
    if idle == Some(b / PGSIZE) || h.arenas[b / PGSIZE].freeCnt + 1 < Per(d) {
      forall q | q in h'.arenas && h'.arenas[q].desc.Some? && h'.arenas[q].desc.value < CNT
        ensures var e := h'.arenas[q].desc.value;
                h'.arenas[q].freeCnt == |FreeIn(h'.lists[e], e, q)| && (Some(q) != idle ==> h'.arenas[q].freeCnt < Per(e))
      {
        var e := h'.arenas[q].desc.value;
        if e == d {
          FreeInOneMore(h.lists[d], [b] + h.lists[d], d, b, q);
        } else {
          assert q != b / PGSIZE;
        }
      }
    }
  }

  lemma PushedSplit(h: Heap, d: nat, b: nat)
    requires SplitOk(h.arenas, h.lists, h.live) && d < CNT && InArena(h.arenas, d, b)
    requires h.arenas[b / PGSIZE].desc == Some(d)
    ensures SplitOk(Pushed(h, d, b).arenas, Pushed(h, d, b).lists, Pushed(h, d, b).live)
  {
    var h' := Pushed(h, d, b);
    RecountedSame(h.arenas, b / PGSIZE, h.arenas[b / PGSIZE].freeCnt + 1);
    OneDesc(h.arenas, d, b);
    hide Size, Per, InArena, IsBig, Recounted;
    forall e, x | 0 <= e < CNT && InArena(h'.arenas, e, x)
      ensures x in h'.lists[e] <==> x !in h'.live
    {
      assert InArena(h.arenas, e, x);
      assert x == b ==> e == d;
    }
  }

  lemma PushedLive(h: Heap, d: nat, b: nat)
    requires LiveOk(h.arenas, h.live) && d < |h.lists| && b / PGSIZE in h.arenas && h.arenas[b / PGSIZE].desc.Some?
    ensures LiveOk(Pushed(h, d, b).arenas, Pushed(h, d, b).live)
  { }

  // ---------------------------------------------------------------- giving back a page

  /** The list without the blocks on page p. */
  ghost predicate Swept(list: seq<nat>, list': seq<nat>, p: nat) {
    Distinct(list') && forall b :: b in list' <==> b in list && b / PGSIZE != p
  }

  ghost function Dropped(h: Heap, d: nat, p: nat, list: seq<nat>): Heap
    requires d < |h.lists| && p < |h.used|
  {
    Heap(h.used[p := false], h.arenas - {p}, h.lists[d := list], h.live)
  }

  /** An arena whose last live block has been freed goes back to the page allocator. */
  lemma DroppedKeeps(h: Heap, d: nat, p: nat, list: seq<nat>)
    requires Inv(h, Some(p)) && d < CNT && p in h.arenas && h.arenas[p] == Arena(Some(d), Per(d))
    requires Swept(h.lists[d], list, p)
    ensures p < |h.used| && h.used[p] && Inv(Dropped(h, d, p, list), None)
    ensures forall b | b in h.live :: b / PGSIZE != p
  {
    NoneLive(h, d, p);
    hide Size, Per, FreeIn, CountsOk, SplitOk, LiveOk, ListsOk;
    DroppedPages(h, d, p, list);
    hide PagesOk, Swept;
    DroppedLists(h, d, p, list);
    DroppedCounts(h, d, p, list);
    DroppedSplit(h, d, p, list);
    DroppedLive(h, d, p, list);
  }

  lemma NoneLive(h: Heap, d: nat, p: nat)
    requires Inv(h, Some(p)) && d < CNT && p in h.arenas && h.arenas[p] == Arena(Some(d), Per(d))
    ensures forall b | b in h.live :: b / PGSIZE != p
  {
    var list := h.lists[d];
    FreeAtMost(list, d, p);
    hide Size, Per, FreeIn;
    forall b | b in h.live
      ensures b / PGSIZE != p
    {
      assert b / PGSIZE == p ==> InArena(h.arenas, d, b) && b in list;
    }
  }

  lemma DroppedPages(h: Heap, d: nat, p: nat, list: seq<nat>)
    requires PagesOk(h.used, h.arenas) && d < |h.lists| && p in h.arenas && h.arenas[p].desc.Some?
    ensures p < |h.used| && h.used[p] && PagesOk(Dropped(h, d, p, list).used, Dropped(h, d, p, list).arenas)
  {
    var h' := Dropped(h, d, p, list);
    forall q, i | q in h'.arenas && q <= i < q + Pages(h'.arenas[q]) && i < |h'.used|
      ensures h'.used[i]
    {
      assert Pages(h.arenas[p]) == 1;
    }
  }

  lemma DroppedInArena(arenas: map<nat, Arena>, p: nat, e: nat, b: nat)
    ensures InArena(arenas - {p}, e, b) <==> InArena(arenas, e, b) && b / PGSIZE != p
    ensures IsBig(arenas - {p}, b) <==> IsBig(arenas, b) && b / PGSIZE != p
    ensures b / PGSIZE != p ==> BlockSize(arenas - {p}, b) == BlockSize(arenas, b)
  { }

  lemma DroppedLists(h: Heap, d: nat, p: nat, list: seq<nat>)
    requires ListsOk(h.arenas, h.lists) && d < CNT && p < |h.used| && p in h.arenas && h.arenas[p].desc == Some(d)
    requires Swept(h.lists[d], list, p)
    ensures ListsOk(Dropped(h, d, p, list).arenas, Dropped(h, d, p, list).lists)
  { }

  lemma DroppedCounts(h: Heap, d: nat, p: nat, list: seq<nat>)
    requires CountsOk(h.arenas, h.lists, Some(p)) && d < CNT && p < |h.used| && Swept(h.lists[d], list, p)
    ensures CountsOk(Dropped(h, d, p, list).arenas, Dropped(h, d, p, list).lists, None)
  {
    hide Size, Per;
    var h' := Dropped(h, d, p, list);
    forall q | q in h'.arenas && h'.arenas[q].desc.Some? && h'.arenas[q].desc.value < CNT
      ensures var e := h'.arenas[q].desc.value;
              h'.arenas[q].freeCnt == |FreeIn(h'.lists[e], e, q)| && h'.arenas[q].freeCnt < Per(e)
    {
      var e := h'.arenas[q].desc.value;
      forall i: nat | i < Per(e)
        ensures BlockAt(e, q, i) in h'.lists[e] <==> BlockAt(e, q, i) in h.lists[e]
      {
        BlockInPage(e, q, i);
      }
      assert FreeIn(h'.lists[e], e, q) == FreeIn(h.lists[e], e, q);
    }
  }

  lemma DroppedSplit(h: Heap, d: nat, p: nat, list: seq<nat>)
    requires SplitOk(h.arenas, h.lists, h.live) && d < CNT && p < |h.used| && Swept(h.lists[d], list, p)
    ensures SplitOk(Dropped(h, d, p, list).arenas, Dropped(h, d, p, list).lists, h.live)
  {
    var h' := Dropped(h, d, p, list);
    forall e, b | 0 <= e < CNT && InArena(h'.arenas, e, b)
      ensures b in h'.lists[e] <==> b !in h.live
    {
      DroppedInArena(h.arenas, p, e, b);
    }
    forall b | IsBig(h'.arenas, b)
      ensures b in h.live
    {
      DroppedInArena(h.arenas, p, d, b);
    }
  }

  lemma DroppedLive(h: Heap, d: nat, p: nat, list: seq<nat>)
    requires LiveOk(h.arenas, h.live) && d < |h.lists| && p < |h.used| && forall b | b in h.live :: b / PGSIZE != p
    ensures LiveOk(Dropped(h, d, p, list).arenas, h.live)
  { }

  // ---------------------------------------------------------------- big blocks

  /** n pages from p on become one big block. */
  ghost function WithBig(h: Heap, p: nat, n: nat, size: nat): Heap {
    Heap(WithSet(h.used, p, n, true), h.arenas[p := Arena(None, n)], h.lists, h.live[p * PGSIZE + HEADER := size])
  }

  lemma WithBigKeeps(h: Heap, p: nat, n: nat, size: nat)
    requires Inv(h, None) && n > 0 && Group(h.used, p, n, false) && size + HEADER <= n * PGSIZE
    ensures p * PGSIZE + HEADER !in h.live && Inv(WithBig(h, p, n, size), None)
  {
    var h' := WithBig(h, p, n, size);
    FreshPage(h, p);
    var b0 := p * PGSIZE + HEADER;
    assert b0 / PGSIZE == p && b0 % PGSIZE == HEADER;
    hide Size, Per, FreeIn, CountsOk, SplitOk, LiveOk, ListsOk;
    WithBigPages(h, p, n, size);
    hide PagesOk;
    WithBigLists(h, p, n, size);
    WithBigCounts(h, p, n, size);
    WithBigSplit(h, p, n, size);
    WithBigLive(h, p, n, size);
  }

  lemma WithBigPages(h: Heap, p: nat, n: nat, size: nat)
    requires PagesOk(h.used, h.arenas) && n > 0 && Group(h.used, p, n, false)
    ensures PagesOk(WithBig(h, p, n, size).used, WithBig(h, p, n, size).arenas)
  {
    var h' := WithBig(h, p, n, size);
    forall q | q in h.arenas
      ensures !(q <= p < q + Pages(h.arenas[q])) && !(p <= q < p + n)
    {
      assert q <= q < q + Pages(h.arenas[q]) && h.used[q] && !h.used[p];
    }
  }

  lemma WithBigLists(h: Heap, p: nat, n: nat, size: nat)
    requires ListsOk(h.arenas, h.lists) && p !in h.arenas
    ensures ListsOk(WithBig(h, p, n, size).arenas, h.lists)
  { }

  lemma WithBigCounts(h: Heap, p: nat, n: nat, size: nat)
    requires CountsOk(h.arenas, h.lists, None)
    ensures CountsOk(WithBig(h, p, n, size).arenas, h.lists, None)
  { }

  lemma WithBigSplit(h: Heap, p: nat, n: nat, size: nat)
    requires SplitOk(h.arenas, h.lists, h.live)
    ensures SplitOk(WithBig(h, p, n, size).arenas, h.lists, WithBig(h, p, n, size).live)
  {
    var h' := WithBig(h, p, n, size);
    var b0 := p * PGSIZE + HEADER;
    assert b0 / PGSIZE == p;
    forall d, b | 0 <= d < CNT && InArena(h'.arenas, d, b)
      ensures b in h.lists[d] <==> b !in h'.live
    {
      InArenaNew(h.arenas, p, Arena(None, n), d, b);
    }
    forall b: nat | IsBig(h'.arenas, b)
      ensures b in h'.live
    {
      InArenaNew(h.arenas, p, Arena(None, n), 0, b);
      assert b / PGSIZE == p ==> b == b0;
    }
  }

  lemma WithBigLive(h: Heap, p: nat, n: nat, size: nat)
    requires LiveOk(h.arenas, h.live) && size + HEADER <= n * PGSIZE && forall b | b in h.live :: b / PGSIZE != p
    ensures LiveOk(WithBig(h, p, n, size).arenas, WithBig(h, p, n, size).live)
  {
    hide Size, Per;
    var h' := WithBig(h, p, n, size);
    var b0 := p * PGSIZE + HEADER;
    assert b0 / PGSIZE == p && b0 % PGSIZE == HEADER;
    forall b | b in h'.live
      ensures IsBig(h'.arenas, b) ||
              (b / PGSIZE in h'.arenas && h'.arenas[b / PGSIZE].desc.Some? && InArena(h'.arenas, h'.arenas[b / PGSIZE].desc.value, b))
      ensures h'.live[b] <= BlockSize(h'.arenas, b)
    {
      if b != b0 {
        InArenaNew(h.arenas, p, Arena(None, n),
                   if h.arenas[b / PGSIZE].desc.Some? then h.arenas[b / PGSIZE].desc.value else 0, b);
      }
    }
  }

  /** The pages of a big block go back to the page allocator. */
  ghost function WithoutBig(h: Heap, b: nat): Heap
    requires b / PGSIZE in h.arenas
  {
    var p := b / PGSIZE;
    Heap(WithSet(h.used, p, h.arenas[p].freeCnt, false), h.arenas - {p}, h.lists, h.live - {b})
  }

  lemma WithoutBigKeeps(h: Heap, b: nat)
    requires Inv(h, None) && b in h.live && IsBig(h.arenas, b)
    ensures Inv(WithoutBig(h, b), None)
    ensures Group(h.used, b / PGSIZE, h.arenas[b / PGSIZE].freeCnt, true) && h.arenas[b / PGSIZE].freeCnt > 0
  {
    var p := b / PGSIZE;
    assert b == p * PGSIZE + HEADER;
    OnlyBig(h, b);
    hide Size, Per, FreeIn, CountsOk, SplitOk, LiveOk, ListsOk;
    WithoutBigPages(h, b);
    hide PagesOk;
    WithoutBigLists(h, b);
    WithoutBigCounts(h, b);
    WithoutBigSplit(h, b);
    WithoutBigLive(h, b);
  }

  lemma OnlyBig(h: Heap, b: nat)
    requires LiveOk(h.arenas, h.live) && IsBig(h.arenas, b)
    ensures forall c | c in h.live && c / PGSIZE == b / PGSIZE :: c == b
  { }

  lemma WithoutBigPages(h: Heap, b: nat)
    requires PagesOk(h.used, h.arenas) && IsBig(h.arenas, b)
    ensures PagesOk(WithoutBig(h, b).used, WithoutBig(h, b).arenas)
    ensures Group(h.used, b / PGSIZE, h.arenas[b / PGSIZE].freeCnt, true) && h.arenas[b / PGSIZE].freeCnt > 0
  {
    var h', p := WithoutBig(h, b), b / PGSIZE;
    forall q, i | q in h'.arenas && q <= i < q + Pages(h'.arenas[q]) && i < |h'.used|
      ensures h'.used[i]
    {
      assert h.used[i];
      assert q < p || p < q;
    }
  }

  lemma WithoutBigLists(h: Heap, b: nat)
    requires ListsOk(h.arenas, h.lists) && IsBig(h.arenas, b)
    ensures ListsOk(WithoutBig(h, b).arenas, h.lists)
  { }

  lemma WithoutBigCounts(h: Heap, b: nat)
    requires CountsOk(h.arenas, h.lists, None) && b / PGSIZE in h.arenas
    ensures CountsOk(WithoutBig(h, b).arenas, h.lists, None)
  { }

  lemma WithoutBigSplit(h: Heap, b: nat)
    requires SplitOk(h.arenas, h.lists, h.live) && IsBig(h.arenas, b)
    ensures SplitOk(WithoutBig(h, b).arenas, h.lists, WithoutBig(h, b).live)
  {
    var h' := WithoutBig(h, b);
    forall d, c | 0 <= d < CNT && InArena(h'.arenas, d, c)
      ensures c in h.lists[d] <==> c !in h'.live
    {
      DroppedInArena(h.arenas, b / PGSIZE, d, c);
    }
    forall c | IsBig(h'.arenas, c)
      ensures c in h'.live
    {
      DroppedInArena(h.arenas, b / PGSIZE, 0, c);
    }
  }

  lemma WithoutBigLive(h: Heap, b: nat)
    requires LiveOk(h.arenas, h.live) && IsBig(h.arenas, b)
    requires forall c | c in h.live && c / PGSIZE == b / PGSIZE :: c == b
    ensures LiveOk(WithoutBig(h, b).arenas, WithoutBig(h, b).live)
  { }
}
