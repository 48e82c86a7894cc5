/** The four-level x86-64 page table of threads/mmu.c, over a heap of 512-word pages. */
module PageTable {
  import opened Bits

  const KERN_BASE: nat := 0x8004000000
  const PGSIZE: nat := 4096
  const WORDS: nat := 512
  const PAGES: nat := 0x10_0000_0000  // 2^36 page numbers of a 48-bit address space
  const JUNK: nat := 0xcccc_cccc_cccc_cccc

  // ---------------------------------------------------------------- address and entry macros

  lemma PowersUsed()
    ensures Pow2(9) == 512 && Pow2(12) == 4096 && Pow2(3) == 8 && Pow2(2) == 4 && Pow2(1) == 2
    ensures Pow2(64) == 0x1_0000_0000_0000_0000 && Pow2(32) == 0x1_0000_0000
  {
    assert Pow2(9) == 512 && Pow2(12) == 4096;
    assert Pow2(20) == 256 * Pow2(12);
    assert Pow2(28) == 256 * Pow2(20);
    assert Pow2(36) == 256 * Pow2(28);
    assert Pow2(44) == 256 * Pow2(36);
    assert Pow2(52) == 256 * Pow2(44);
    assert Pow2(60) == 256 * Pow2(52);
  }

  /** `(la >> shift) & 0x1FF`, where unit is two to the shift. */
  function Index(la: nat, unit: nat): nat
    requires unit > 0
  {
    la / unit % 512
  }

  function Pml4(la: nat): nat { Index(la, 0x80_0000_0000) }
  function Pdpe(la: nat): nat { Index(la, 0x4000_0000) }
  function Pdx(la: nat): nat { Index(la, 0x20_0000) }
  function Ptx(la: nat): nat { Index(la, 0x1000) }

  /** The page number a 48-bit walk sees: bits 12 to 47 of the address. */
  function Vpn(va: nat): (v: nat)
    ensures v < PAGES
  {
    va / PGSIZE % PAGES
  }

  /** The four indices are the base-512 digits of the page number. */
  lemma VpnDigits(va: nat)
    ensures Pml4(va) == Vpn(va) / 0x800_0000
    ensures Pdpe(va) == Vpn(va) / 0x4_0000 % 512
    ensures Pdx(va) == Vpn(va) / 0x200 % 512
    ensures Ptx(va) == Vpn(va) % 512
  {
    var p := va / PGSIZE;
    var q, v := p / PAGES, p % PAGES;
    assert va / 0x20_0000 == p / 0x200;
    assert va / 0x4000_0000 == p / 0x4_0000;
    assert va / 0x80_0000_0000 == p / 0x800_0000;
    Digit(q, v, 0x200, 0x800_0000);
    Digit(q, v, 0x4_0000, 0x4_0000);
    Digit(q, v, 0x800_0000, 0x200);
    Digit(q, v, 1, PAGES);
  }

  /** Whole multiples of 2^36 do not show in a lower base-512 digit. */
  lemma Digit(q: nat, v: nat, unit: nat, rest: nat)
    requires unit in {1, 0x200, 0x4_0000, 0x800_0000} && unit * rest == PAGES
    ensures (q * PAGES + v) / unit % 512 == v / unit % 512
  {
    if unit == 1 {
    } else if unit == 0x200 {
      assert (q * PAGES + v) / 0x200 == q * 0x800_0000 + v / 0x200;
    } else if unit == 0x4_0000 {
      assert (q * PAGES + v) / 0x4_0000 == q * 0x4_0000 + v / 0x4_0000;
    } else {
      assert (q * PAGES + v) / 0x800_0000 == q * 0x200 + v / 0x800_0000;
    }
  }

  /** `pte & PTE_P` */
  predicate Present(pte: nat) { pte % 2 == 1 }

  /** `PTE_ADDR (pte)`: the low twelve bits cleared. */
  function PteAddr(pte: nat): nat { pte - pte % PGSIZE }

  /** `vtop (page) | PTE_U | PTE_W | PTE_P`, without PTE_W unless rw. */
  function MakePte(page: nat, rw: bool): nat
    requires IsPage(page)
  {
    page - KERN_BASE + (if rw then 7 else 5)
  }

  /** The arithmetic above is what the masks and ors of the source compute on 64-bit words. */
  lemma MacrosAreMasks(la: nat, unit: nat, pte: nat, page: nat, rw: bool)
    requires unit > 0 && pte < 0x1_0000_0000_0000_0000 && IsPage(page)
    ensures Index(la, unit) == And(la / unit, 0x1FF)
    ensures Present(pte) <==> And(pte, 0x1) != 0
    ensures PteAddr(pte) == And(pte, 0xFFFF_FFFF_FFFF_F000)
    ensures MakePte(page, rw) == Or(Or(Or(page - KERN_BASE, 0x1), if rw then 0x2 else 0), 0x4)
  {
    hide Pow2, And, Or;
    PowersUsed();
    AndLowMask(la / unit, 9);
    AndLowMask(pte, 1);
    AndHighMask(pte, 12, 64);
    OrRights(page - KERN_BASE, if rw then 2 else 0);
  }

  lemma OrRights(pa: nat, w: nat)
    requires pa % PGSIZE == 0 && (w == 0 || w == 2)
    ensures Or(Or(Or(pa, 1), w), 4) == pa + w + 5
  {
    hide Pow2;
    PowersUsed();
    OrLow(pa, 0, 1, 12);
    OrLow(pa, 1, w, 12);
    OrLow(pa, 1 + w, 4, 12);
    assert Or(0, 1) == 1 && Or(1, w) == 1 + w && Or(1 + w, 4) == w + 5;
    hide Or;
  }

  /** A page-aligned kernel address of installed memory. */
  predicate IsPage(page: nat) {
    page % PGSIZE == 0 && KERN_BASE <= page < 0x1_0000_0000_0000_0000
  }

  /** `pte & PTE_D` */
  predicate Dirty(pte: nat) { pte / 64 % 2 == 1 }

  /** `pte | PTE_D` */
  function MarkDirty(pte: nat): nat { if Dirty(pte) then pte else pte + 64 }

  /** `pte & ~(uint32_t) PTE_D`: the mask is a 32-bit number, so the upper half is lost with the bit. */
  function ClearDirty(pte: nat): nat {
    var low := pte % 0x1_0000_0000;
    if Dirty(pte) then low - 64 else low
  }

  lemma DirtyBits(pte: nat)
    requires pte < 0x1_0000_0000_0000_0000
    ensures Dirty(pte) <==> And(pte, 0x40) != 0
    ensures MarkDirty(pte) == Or(pte, 0x40) && MarkDirty(pte) < 0x1_0000_0000_0000_0000
    ensures ClearDirty(pte) == And(pte, 0xFFFF_FFBF)
    ensures Dirty(MarkDirty(pte)) && !Dirty(ClearDirty(pte)) && ClearDirty(pte) <= pte
  {
    PowersUsed();
    assert Pow2(6) == 64;
    AndBit(pte, 6);
    OrBit(pte, 6);
    AndAllBut(pte, 6, 32);
    DirtyArithmetic(pte);
  }

  lemma DirtyArithmetic(pte: nat)
    requires pte < 0x1_0000_0000_0000_0000
    ensures MarkDirty(pte) < 0x1_0000_0000_0000_0000 && Dirty(MarkDirty(pte)) && !Dirty(ClearDirty(pte))
    ensures ClearDirty(pte) <= pte
  {
    var h, bit, low := pte / 128, pte / 64 % 2, pte % 64;
    assert pte == 128 * h + 64 * bit + low;
    var q := pte / 0x1_0000_0000;
    SeventhBit(h, 0, low);
    SeventhBit(h, 1, low);
    SeventhBit(h - 0x200_0000 * q, 0, low);
    hide Dirty;
    assert pte % 0x1_0000_0000 == 128 * (h - 0x200_0000 * q) + 64 * bit + low;
  }

  lemma SeventhBit(h: nat, bit: nat, low: nat)
    requires bit < 2 && low < 64
    ensures Dirty(128 * h + 64 * bit + low) <==> bit == 1
  {
    DivModUnique(128 * h + 64 * bit + low, 64, 2 * h + bit, low);
    DivModUnique(2 * h + bit, 2, h, bit);
  }

  /** Clearing the dirty bit keeps the frame address exactly when the whole entry fits in 32 bits. */
  lemma ClearDirtyKeepsFrame(pte: nat)
    ensures PteAddr(ClearDirty(pte)) == PteAddr(pte) <==> pte < 0x1_0000_0000
    ensures Present(ClearDirty(pte)) == Present(pte)
  {
    ClearPresent(pte);
    hide Dirty, Present;
    if pte < 0x1_0000_0000 {
      if Dirty(pte) {
        DirtyFrame(pte);
      }
    } else {
      AddrAbove(pte);
      AddrAbove(ClearDirty(pte));
      hide PteAddr;
    }
  }

  lemma ClearPresent(pte: nat)
    ensures Present(ClearDirty(pte)) == Present(pte)
  {
    var q, r := pte / 0x1_0000_0000, pte % 0x1_0000_0000;
    DivModUnique(pte, 2, 0x8000_0000 * q + r / 2, r % 2);
    DivModUnique(r - 64, 2, r / 2 - 32, r % 2);
  }

  lemma DirtyFrame(pte: nat)
    requires Dirty(pte)
    ensures pte >= 64 && PteAddr(pte - 64) == PteAddr(pte)
  {
    var h, low := pte / 128, pte % 64;
    assert pte == 128 * h + 64 + low;
    DivModUnique(pte, PGSIZE, h / 32, 128 * (h % 32) + 64 + low);
    DivModUnique(pte - 64, PGSIZE, h / 32, 128 * (h % 32) + low);
  }

  lemma AddrAbove(pte: nat)
    ensures PteAddr(pte) <= pte && (pte >= 0x1_0000_0000 ==> PteAddr(pte) >= 0x1_0000_0000)
  {
    assert PteAddr(pte) == pte / PGSIZE * PGSIZE;
  }

  // ---------------------------------------------------------------- the tree of tables

  /** A table's place: level 4 is the root, level 1 holds leaves; the prefix is the path of indices in base 512. */
  datatype Pos = Pos(level: nat, prefix: nat)

  function Parent(p: Pos): Pos { Pos(p.level + 1, p.prefix / 512) }

  function Child(p: Pos, i: nat): Pos
    requires p.level > 0
  {
    Pos(p.level - 1, p.prefix * 512 + i)
  }

  const ROOT: Pos := Pos(4, 0)

  type Heap = map<nat, seq<nat>>
  type Tables = map<Pos, nat>

  predicate IsWords(w: seq<nat>) {
    |w| == WORDS && forall i | 0 <= i < WORDS :: w[i] < 0x1_0000_0000_0000_0000
  }

  predicate IsHeap(mem: Heap) {
    forall a | a in mem :: IsPage(a) && IsWords(mem[a])
  }

  /** Entry i of the table at p names the table at the child position, or is not present and there is none. */
  predicate EntryOk(mem: Heap, tab: Tables, p: Pos, i: nat)
    requires IsHeap(mem) && p in tab && p.level > 0 && tab[p] in mem && i < WORDS
  {
    var e := mem[tab[p]][i];
    && (Present(e) <==> Child(p, i) in tab)
    && (Present(e) ==> PteAddr(e) + KERN_BASE == tab[Child(p, i)])
  }

  /** The positions form a tree whose tables are pages in use, each in one place only. */
  ghost predicate Shape(mem: Heap, free: set<nat>, tab: Tables, root: nat) {
    && ROOT in tab && tab[ROOT] == root
    && IsHeap(mem) && free <= mem.Keys
    && (forall p | p in tab :: 1 <= p.level <= 4 && tab[p] in mem && tab[p] !in free)
    && (forall p | p in tab :: p.level == 4 ==> p == ROOT)
    && (forall p, q | p in tab && q in tab :: tab[p] == tab[q] ==> p == q)
    && (forall p | p in tab :: p.level < 4 ==> Parent(p) in tab)
  }

  ghost predicate Linked(mem: Heap, tab: Tables)
    requires IsHeap(mem) && forall p | p in tab :: 1 <= p.level && tab[p] in mem
  {
    forall p, i: nat | p in tab && p.level > 1 && i < WORDS :: EntryOk(mem, tab, p, i)
  }

  /** The pages in tab form a tree below root whose interior entries are its edges. */
  ghost predicate Tree(mem: Heap, free: set<nat>, tab: Tables, root: nat) {
    Shape(mem, free, tab, root) && Linked(mem, tab)
  }

  /** The 64-bit leaf entry for page number v; zero where no leaf table exists. This is the abstract map. */
  ghost function Entry(mem: Heap, tab: Tables, v: nat): nat {
    var leaf := Pos(1, v / 512);
    if leaf in tab && tab[leaf] in mem && v % 512 < |mem[tab[leaf]]| then mem[tab[leaf]][v % 512] else 0
  }

  ghost predicate SameEntries(mem: Heap, tab: Tables, mem': Heap, tab': Tables) {
    forall v: nat :: Entry(mem', tab', v) == Entry(mem, tab, v)
  }

  ghost predicate Keeps(tab: Tables, tab': Tables) {
    forall p | p in tab :: p in tab' && tab'[p] == tab[p]
  }

  function Store(mem: Heap, page: nat, i: nat, w: nat): Heap
    requires page in mem && i < |mem[page]|
  {
    var words: seq<nat> := mem[page][i := w];
    mem[page := words]
  }

  lemma StoreKeepsHeap(mem: Heap, page: nat, i: nat, w: nat)
    requires IsHeap(mem) && page in mem && i < WORDS && w < 0x1_0000_0000_0000_0000
    ensures IsHeap(Store(mem, page, i, w))
  {
  }

  lemma ParentOfChild(p: Pos, i: nat)
    requires p.level > 0 && i < WORDS
    ensures Parent(Child(p, i)) == p && Child(p, i).prefix % 512 == i
  {
  }

  /** An entry made for a page is present, and leads back to that page. */
  lemma PteRoundTrip(page: nat, rw: bool)
    requires IsPage(page)
    ensures Present(MakePte(page, rw)) && PteAddr(MakePte(page, rw)) + KERN_BASE == page
    ensures MakePte(page, rw) < 0x1_0000_0000_0000_0000
  {
    var n := page / PGSIZE - KERN_BASE / PGSIZE;
    assert page - KERN_BASE == PGSIZE * n;
    var low := if rw then 7 else 5;
    assert (PGSIZE * n + low) % PGSIZE == low;
  }

  const ZEROS: seq<nat> := seq(WORDS, _ => 0)
  const JUNKS: seq<nat> := seq(WORDS, _ => JUNK)

  /** Hanging a zeroed page under a non-present entry keeps the tree and every leaf entry. */
  lemma AddTable(mem: Heap, free: set<nat>, tab: Tables, root: nat, p: Pos, i: nat, page: nat)
    requires Tree(mem, free, tab, root)
    requires p in tab && p.level > 1 && i < WORDS && !Present(mem[tab[p]][i])
    requires page in mem && page !in free && page !in tab.Values
    requires mem[page] == ZEROS
    ensures var mem', tab' := Store(mem, tab[p], i, MakePte(page, true)), tab[Child(p, i) := page];
            Tree(mem', free, tab', root) && SameEntries(mem, tab, mem', tab') && Keeps(tab, tab')
  {
    var e, c := MakePte(page, true), Child(p, i);
    var mem', tab' := Store(mem, tab[p], i, e), tab[c := page];
    assert EntryOk(mem, tab, p, i);
    assert Parent(c) == p;
    assert Shape(mem', free, tab', root);
    hide Shape;
    forall q, j: nat | q in tab' && q.level > 1 && j < WORDS
      ensures EntryOk(mem', tab', q, j)
    {
      AddTableEntry(mem, free, tab, root, p, i, page, q, j);
    }
    AddTableEntries(mem, tab, tab[p], i, e, c, page);
    hide SameEntries, EntryOk;
  }

  lemma AddTableEntries(mem: Heap, tab: Tables, table: nat, i: nat, e: nat, c: Pos, page: nat)
    requires IsHeap(mem) && c !in tab && page in mem && mem[page] == ZEROS && table in mem && table != page && i < WORDS
    requires forall v | Pos(1, v) in tab :: tab[Pos(1, v)] != table
    ensures SameEntries(mem, tab, Store(mem, table, i, e), tab[c := page])
  { }

  lemma AddTableEntry(mem: Heap, free: set<nat>, tab: Tables, root: nat, p: Pos, i: nat, page: nat, q: Pos, j: nat)
    requires Tree(mem, free, tab, root)
    requires p in tab && p.level > 1 && i < WORDS && !Present(mem[tab[p]][i])
    requires page in mem && page !in free && page !in tab.Values
    requires mem[page] == ZEROS
    requires (q in tab || q == Child(p, i)) && q.level > 1 && j < WORDS
    ensures var mem', tab' := Store(mem, tab[p], i, MakePte(page, true)), tab[Child(p, i) := page];
            IsHeap(mem') && EntryOk(mem', tab', q, j)
  {
    var e, c := MakePte(page, true), Child(p, i);
    PteRoundTrip(page, true);
    var mem', tab' := Store(mem, tab[p], i, e), tab[c := page];
    StoreKeepsHeap(mem, tab[p], i, e);
    assert EntryOk(mem, tab, p, i);
    ParentOfChild(p, i);
    ParentOfChild(q, j);
    if q == c {
      assert mem'[tab'[q]][j] == 0;
      assert Child(q, j) !in tab;
    } else {
      assert EntryOk(mem, tab, q, j);
      if q == p && j == i {
        assert mem'[tab'[q]][j] == e;
      } else {
        assert mem'[tab'[q]][j] == mem[tab[q]][j];
        assert Child(q, j) != c;
      }
    }
  }

  /** Unhooking a childless interior table and releasing its page keeps the tree and every leaf entry. */
  lemma DropTable(mem: Heap, free: set<nat>, tab: Tables, root: nat, p: Pos, i: nat)
    requires Tree(mem, free, tab, root)
    requires p in tab && p.level > 2 && i < WORDS && Child(p, i) in tab
    requires forall j: nat | j < WORDS :: Child(Child(p, i), j) !in tab
    ensures var c := Child(p, i);
            var mem', tab' := Store(mem[tab[c] := JUNKS], tab[p], i, 0), tab - {c};
            Tree(mem', free + {tab[c]}, tab', root) && SameEntries(mem, tab, mem', tab')
  {
    var c := Child(p, i);
    var mem1 := mem[tab[c] := JUNKS];
    var mem', free', tab' := Store(mem1, tab[p], i, 0), free + {tab[c]}, tab - {c};
    StoreKeepsHeap(mem1, tab[p], i, 0);
    DropShape(mem, free, tab, root, p, i);
    forall q, j: nat | q in tab' && q.level > 1 && j < WORDS
      ensures EntryOk(mem', tab', q, j)
    {
      assert EntryOk(mem, tab, q, j);
      ParentOfChild(q, j);
      ParentOfChild(p, i);
      assert mem'[tab'[q]][j] == if q == p && j == i then 0 else mem[tab[q]][j];
    }
    DropEntries(mem, free, tab, root, p, i);
    hide Entry;
  }

  lemma DropEntries(mem: Heap, free: set<nat>, tab: Tables, root: nat, p: Pos, i: nat)
    requires Shape(mem, free, tab, root)
    requires p in tab && p.level > 2 && i < WORDS && Child(p, i) in tab
    ensures var c := Child(p, i);
            SameEntries(mem, tab, Store(mem[tab[c] := JUNKS], tab[p], i, 0), tab - {c})
  { }

  lemma DropShape(mem: Heap, free: set<nat>, tab: Tables, root: nat, p: Pos, i: nat)
    requires Shape(mem, free, tab, root)
    requires p in tab && p.level > 2 && i < WORDS && Child(p, i) in tab
    requires forall j: nat | j < WORDS :: Child(Child(p, i), j) !in tab
    ensures var c := Child(p, i);
            var mem', tab' := Store(mem[tab[c] := JUNKS], tab[p], i, 0), tab - {c};
            Shape(mem', free + {tab[c]}, tab', root)
  {
    var c := Child(p, i);
    var mem1 := mem[tab[c] := JUNKS];
    StoreKeepsHeap(mem1, tab[p], i, 0);
    forall q | q in tab && q != c && q.level < 4
      ensures Parent(q) != c
    {
      assert Child(Parent(q), q.prefix % 512) == q;
    }
  }

  /** How many of the tables on the way from the table at level down to page v's leaf table are missing. */
  ghost function Missing(tab: Tables, v: nat, level: nat): nat {
    (if level > 1 && Pos(1, v / 0x200) !in tab then 1 else 0)
    + (if level > 2 && Pos(2, v / 0x4_0000) !in tab then 1 else 0)
    + (if level > 3 && Pos(3, v / 0x800_0000) !in tab then 1 else 0)
  }

  /** Taking a free page, zeroed, does not touch the tree. */
  lemma TreeHeap(mem: Heap, free: set<nat>, tab: Tables, root: nat)
    requires Tree(mem, free, tab, root)
    ensures IsHeap(mem) && free <= mem.Keys && root in mem && root !in free
  { }

  lemma GrowReady(mem: Heap, free: set<nat>, tab: Tables, root: nat, mem': Heap, free': set<nat>, page: nat)
    requires Tree(mem, free, tab, root)
    requires page in free && free' == free - {page} && page in mem' && mem' == mem[page := mem'[page]] && IsHeap(mem')
    ensures Tree(mem', free', tab, root) && SameEntries(mem, tab, mem', tab)
    ensures page !in tab.Values
  {
    forall p, i: nat | p in tab && p.level > 1 && i < WORDS
      ensures EntryOk(mem', tab, p, i)
    {
      assert EntryOk(mem, tab, p, i);
    }
  }

  ghost predicate TableAt(tab: Tables, p: Pos, page: nat) {
    p in tab && tab[p] == page
  }

  /** The address of the word that holds page number v's entry; zero where there is no leaf table. */
  ghost function LeafSlot(tab: Tables, v: nat): nat {
    if Pos(1, v / 512) in tab then tab[Pos(1, v / 512)] + 8 * (v % 512) else 0
  }

  /** What following entry i of the table at p needs to know of the tree. */
  lemma TableFacts(mem: Heap, free: set<nat>, tab: Tables, root: nat, p: Pos, i: nat)
    requires Tree(mem, free, tab, root)
    requires p in tab && i < WORDS
    ensures p.level > 0 && IsHeap(mem) && free <= mem.Keys && tab[p] in mem && tab[p] !in free && IsPage(tab[p])
    ensures |mem[tab[p]]| == WORDS
    ensures p.level > 1 ==> EntryOk(mem, tab, p, i)
  {
  }

  /** Below a missing table every deeper table of the same path is missing too. */
  lemma MissingBelow(mem: Heap, free: set<nat>, tab: Tables, root: nat, v: nat)
    requires Tree(mem, free, tab, root)
    ensures Pos(2, v / 0x4_0000) !in tab ==> Pos(1, v / 0x200) !in tab
    ensures Pos(3, v / 0x800_0000) !in tab ==> Pos(2, v / 0x4_0000) !in tab
  {
    assert Parent(Pos(1, v / 0x200)) == Pos(2, v / 0x4_0000);
    assert Parent(Pos(2, v / 0x4_0000)) == Pos(3, v / 0x800_0000);
  }

  lemma SameRefl(mem: Heap, tab: Tables)
    ensures SameEntries(mem, tab, mem, tab)
  {
  }

  lemma SameTrans(mem: Heap, tab: Tables, mem1: Heap, tab1: Tables, mem2: Heap, tab2: Tables)
    requires SameEntries(mem, tab, mem1, tab1) && SameEntries(mem1, tab1, mem2, tab2)
    ensures SameEntries(mem, tab, mem2, tab2)
  {
  }

  /** A table just hung at a place that had none has no tables below it. */
  lemma NoGrandchildren(mem: Heap, free: set<nat>, tab: Tables, root: nat, c: Pos, page: nat)
    requires Tree(mem, free, tab, root)
    requires c !in tab && 0 < c.level < 4
    ensures forall j: nat | j < WORDS :: Child(c, j) !in tab[c := page]
  {
    forall j: nat | j < WORDS
      ensures Child(c, j) !in tab[c := page]
    {
      ParentOfChild(c, j);
    }
  }

  // ---------------------------------------------------------------- what the processor sees

  /** The level'th index of page number v. */
  function PathIndex(v: nat, level: nat): (i: nat)
    ensures i < WORDS
  {
    (if level == 4 then v / 0x800_0000 else if level == 3 then v / 0x4_0000 else if level == 2 then v / 0x200 else v) % 512
  }

  /** The hardware's radix walk over raw memory from a table: the leaf entry, or zero if the walk stops early. */
  ghost function RadixWalk(mem: Heap, page: nat, level: nat, v: nat): nat
    decreases level
  {
    if level == 0 || page !in mem || |mem[page]| != WORDS then 0
    else
      var e := mem[page][PathIndex(v, level)];
      if level == 1 then e
      else if Present(e) then RadixWalk(mem, PteAddr(e) + KERN_BASE, level - 1, v)
      else 0
  }

  ghost function Lookup(mem: Heap, root: nat, v: nat): nat { RadixWalk(mem, root, 4, v) }

  /** The kernel address an address maps to; zero when not present. */
  ghost function Translate(mem: Heap, root: nat, va: nat): nat {
    var e := Lookup(mem, root, Vpn(va));
    if Present(e) then PteAddr(e) + KERN_BASE + va % PGSIZE else 0
  }

  /** The walk from the table that covers v at some level ends at v's entry of the abstract map. */
  lemma {:induction false} WalkIsEntry(mem: Heap, free: set<nat>, tab: Tables, root: nat, p: Pos, v: nat)
    requires Tree(mem, free, tab, root)
    requires v < PAGES && p in tab && p == PathPos(v, p.level)
    ensures RadixWalk(mem, tab[p], p.level, v) == Entry(mem, tab, v)
    decreases p.level
  {
    hide Tree;
    var i := PathIndex(v, p.level);
    TableFacts(mem, free, tab, root, p, i);
    LevelRange(mem, free, tab, root, p);
    if p.level > 1 {
      PathStep(v, p.level);
      if Present(mem[tab[p]][i]) {
        WalkIsEntry(mem, free, tab, root, Child(p, i), v);
      } else {
        MissingBelow(mem, free, tab, root, v);
        assert Pos(1, v / 512) !in tab;
      }
    }
  }

  lemma PathStep(v: nat, level: nat)
    requires v < PAGES && 1 < level <= 4
    ensures Child(PathPos(v, level), PathIndex(v, level)) == PathPos(v, level - 1)
  {
    var parts := [v / 0x200, v / 0x4_0000, v / 0x800_0000];
    assert parts[0] / 512 == parts[1] && parts[1] / 512 == parts[2];
    assert v / PAGES == 0 && parts[2] < 512;
    Whole512(parts[0]);
    Whole512(parts[1]);
  }

  lemma Whole512(u: nat)
    ensures u / 512 * 512 + u % 512 == u
  {
  }

  lemma LevelRange(mem: Heap, free: set<nat>, tab: Tables, root: nat, p: Pos)
    requires Tree(mem, free, tab, root) && p in tab
    ensures 1 <= p.level <= 4
  {
  }

  /** The place of the table at a level that covers page number v. */
  function PathPos(v: nat, level: nat): Pos {
    Pos(level, if level == 1 then v / 0x200 else if level == 2 then v / 0x4_0000 else if level == 3 then v / 0x800_0000
               else v / PAGES)
  }

  /** The abstract map is what the hardware walk reads from raw memory. */
  lemma LookupIsEntry(mem: Heap, free: set<nat>, tab: Tables, root: nat, v: nat)
    requires Tree(mem, free, tab, root) && v < PAGES
    ensures Lookup(mem, root, v) == Entry(mem, tab, v)
  {
    WalkIsEntry(mem, free, tab, root, ROOT, v);
  }

  lemma RootFacts(mem: Heap, free: set<nat>, tab: Tables, root: nat)
    requires Tree(mem, free, tab, root)
    ensures TableAt(tab, ROOT, root) && IsPage(root)
  {
  }

  lemma SlotDecodes(mem: Heap, free: set<nat>, tab: Tables, root: nat, v: nat)
    requires Tree(mem, free, tab, root) && LeafSlot(tab, v) != 0
    ensures var pte, leaf := LeafSlot(tab, v), Pos(1, v / 512);
            leaf in tab && pte - pte % PGSIZE == tab[leaf] && pte % PGSIZE / 8 == v % 512
            && tab[leaf] in mem && |mem[tab[leaf]]| == WORDS && Entry(mem, tab, v) == mem[tab[leaf]][v % 512]
  {
    TableFacts(mem, free, tab, root, Pos(1, v / 512), v % 512);
  }

  /** Storing to a leaf entry changes that entry of the abstract map and nothing else. */
  lemma StoreLeaf(mem: Heap, free: set<nat>, tab: Tables, root: nat, v: nat, w: nat)
    requires Tree(mem, free, tab, root) && Pos(1, v / 512) in tab && w < 0x1_0000_0000_0000_0000
    ensures var leaf := Pos(1, v / 512);
            tab[leaf] in mem && |mem[tab[leaf]]| == WORDS
            && var mem' := Store(mem, tab[leaf], v % 512, w);
               Tree(mem', free, tab, root)
               && forall u: nat :: Entry(mem', tab, u) == if u == v then w else Entry(mem, tab, u)
  {
    var leaf := Pos(1, v / 512);
    TableFacts(mem, free, tab, root, leaf, v % 512);
    var mem' := Store(mem, tab[leaf], v % 512, w);
    StoreKeepsHeap(mem, tab[leaf], v % 512, w);
    forall p, i: nat | p in tab && p.level > 1 && i < WORDS
      ensures EntryOk(mem', tab, p, i)
    {
      assert EntryOk(mem, tab, p, i);
    }
    forall u: nat
      ensures Entry(mem', tab, u) == if u == v then w else Entry(mem, tab, u)
    {
      if u != v && u / 512 == v / 512 {
        assert u % 512 != v % 512;
      }
    }
  }

  lemma SameLookups(mem: Heap, free: set<nat>, tab: Tables, mem': Heap, free': set<nat>, tab': Tables, root: nat)
    requires Tree(mem, free, tab, root) && Tree(mem', free', tab', root) && SameEntries(mem, tab, mem', tab')
    ensures forall u | 0 <= u < PAGES :: Lookup(mem', root, u) == Lookup(mem, root, u)
  {
    forall u | 0 <= u < PAGES
      ensures Lookup(mem', root, u) == Lookup(mem, root, u)
    {
      LookupIsEntry(mem, free, tab, root, u);
      LookupIsEntry(mem', free', tab', root, u);
      assert Entry(mem', tab', u) == Entry(mem, tab, u);
    }
  }

  lemma EntryBound(mem: Heap, free: set<nat>, tab: Tables, root: nat, v: nat)
    requires Tree(mem, free, tab, root)
    ensures Entry(mem, tab, v) < 0x1_0000_0000_0000_0000
  {
  }

  // ---------------------------------------------------------------- enumeration

  /** One call of a for-each function: the virtual address and the entry it is given. */
  datatype Call = Call(va: nat, pte: nat)

  /** A for-each function: from its auxiliary data and a call, the new data and whether to go on. */
  type Callback<!A> = (A, Call) -> (A, bool)

  /** The outcome of an enumeration: the auxiliary data, whether the function has always said to go on, and its
      calls. */
  datatype Visited<A> = Visited(aux: A, going: bool, calls: seq<Call>)

  /** The present leaf entries for n page numbers from lo, in ascending order. */
  ghost function Leaves(mem: Heap, tab: Tables, lo: nat, n: nat): seq<Call> {
    if n == 0 then [] else
      var e := Entry(mem, tab, lo + n - 1);
      Leaves(mem, tab, lo, n - 1) + if Present(e) then [Call((lo + n - 1) * PGSIZE, e)] else []
  }

  /** Passing the elements of s to func in order, until it says not to go on. */
  ghost function Visit<A>(s: seq<Call>, func: Callback<A>, aux: A): Visited<A> {
    if s == [] then Visited(aux, true, [])
    else
      var n := |s| - 1;
      var r := Visit(s[..n], func, aux);
      if r.going then Visited(func(r.aux, s[n]).0, func(r.aux, s[n]).1, r.calls + [s[n]]) else r
  }

  /** The calls are all of s, or those up to and including the first one that says to stop. */
  lemma {:induction false} VisitPrefix<A>(s: seq<Call>, func: Callback<A>, aux: A)
    ensures var r := Visit(s, func, aux);
            && r.calls <= s && (r.going ==> r.calls == s)
            && (!r.going ==> r.calls != [] && var n := |r.calls| - 1;
                             Visit(r.calls[..n], func, aux).going && !func(Visit(r.calls[..n], func, aux).aux, r.calls[n]).1)
  {
    if s != [] {
      VisitPrefix(s[..|s| - 1], func, aux);
      var r := Visit(s[..|s| - 1], func, aux);
      if r.going {
        assert s[..|s| - 1] + [s[|s| - 1]] == s;
      }
    }
  }

  /** Visiting in two parts. */
  ghost function Then<A>(r: Visited<A>, q: Visited<A>): Visited<A> {
    if r.going then Visited(q.aux, q.going, r.calls + q.calls) else r
  }

  lemma {:induction false} VisitAppend<A>(s: seq<Call>, t: seq<Call>, func: Callback<A>, aux: A)
    ensures var r := Visit(s, func, aux);
            Visit(s + t, func, aux) == Then(r, Visit(t, func, r.aux))
  {
    var r := Visit(s, func, aux);
    if t == [] {
      assert s + t == s && r.calls + [] == r.calls;
    } else {
      var n := |t| - 1;
      VisitAppend(s, t[..n], func, aux);
      assert (s + t)[..|s + t| - 1] == s + t[..n] && (s + t)[|s + t| - 1] == t[n];
      var q := Visit(t[..n], func, r.aux);
      assert r.calls + (q.calls + [t[n]]) == r.calls + q.calls + [t[n]];
    }
  }

  lemma {:induction false} LeavesSplit(mem: Heap, tab: Tables, lo: nat, m: nat, n: nat)
    ensures Leaves(mem, tab, lo, m + n) == Leaves(mem, tab, lo, m) + Leaves(mem, tab, lo + m, n)
  {
    if n > 0 {
      LeavesSplit(mem, tab, lo, m, n - 1);
    }
  }

  /** Enumeration in chunks: once a chunk stops, the chunks after it do not matter. */
  lemma ChunkVisited<A>(mem: Heap, tab: Tables, lo: nat, done: nat, chunk: nat, n: nat, func: Callback<A>, aux: A,
                        r: Visited<A>, q: Visited<A>)
    requires done + chunk <= n && r == Visit(Leaves(mem, tab, lo, done), func, aux) && r.going
    requires q == Visit(Leaves(mem, tab, lo + done, chunk), func, r.aux)
    ensures Visit(Leaves(mem, tab, lo, done + chunk), func, aux) == Then(r, q)
    ensures !q.going ==> Visit(Leaves(mem, tab, lo, n), func, aux) == Then(r, q)
  {
    var s, t := Leaves(mem, tab, lo, done), Leaves(mem, tab, lo + done, chunk);
    var rest := n - done - chunk;
    LeavesSplit(mem, tab, lo, done, chunk);
    LeavesSplit(mem, tab, lo, done + chunk, rest);
    hide Leaves, Visit;
    VisitAppend(s, t, func, aux);
    VisitAppend(s + t, Leaves(mem, tab, lo + done + chunk, rest), func, aux);
  }

  /** Page numbers below a missing table have no present entry. */
  lemma {:induction false} NoLeaves(mem: Heap, tab: Tables, lo: nat, n: nat)
    requires forall v: nat | lo <= v < lo + n :: Pos(1, v / 512) !in tab
    ensures Leaves(mem, tab, lo, n) == []
  {
    if n > 0 {
      NoLeaves(mem, tab, lo, n - 1);
      assert Pos(1, (lo + n - 1) / 512) !in tab;
    }
  }

  lemma AbsentSubtree(mem: Heap, free: set<nat>, tab: Tables, root: nat, c: Pos, size: nat)
    requires Tree(mem, free, tab, root) && c !in tab
    requires (c.level == 1 && size == 0x200) || (c.level == 2 && size == 0x4_0000) || (c.level == 3 && size == 0x800_0000)
    ensures Leaves(mem, tab, c.prefix * size, size) == []
  {
    var lo := c.prefix * size;
    forall v: nat | lo <= v < lo + size
      ensures Pos(1, v / 512) !in tab
    {
      assert v / size == c.prefix;
      MissingBelow(mem, free, tab, root, v);
    }
    NoLeaves(mem, tab, lo, size);
  }

  lemma OneLeaf(mem: Heap, tab: Tables, v: nat)
    ensures Leaves(mem, tab, v, 1) == if Present(Entry(mem, tab, v)) then [Call(v * PGSIZE, Entry(mem, tab, v))] else []
  {
    assert Leaves(mem, tab, v, 0) == [];
  }

  lemma LeafEntry(mem: Heap, free: set<nat>, tab: Tables, root: nat, prefix: nat, i: nat)
    requires Tree(mem, free, tab, root) && Pos(1, prefix) in tab && i < WORDS
    ensures tab[Pos(1, prefix)] in mem && |mem[tab[Pos(1, prefix)]]| == WORDS
    ensures Entry(mem, tab, prefix * 512 + i) == mem[tab[Pos(1, prefix)]][i]
  {
  }

  lemma VisitNone<A>(mem: Heap, tab: Tables, lo: nat, func: Callback<A>, aux: A)
    ensures Visit(Leaves(mem, tab, lo, 0), func, aux) == Visited(aux, true, [])
    ensures Visit([], func, aux) == Visited(aux, true, [])
  { }

  lemma VisitOne<A>(c: Call, func: Callback<A>, aux: A)
    ensures Visit([c], func, aux) == Visited(func(aux, c).0, func(aux, c).1, [c])
  {
    assert [c][..0] == [];
    assert Visit([c][..0], func, aux) == Visited(aux, true, []);
  }

  ghost predicate IsLeaf(mem: Heap, tab: Tables, c: Call, lo: nat, n: nat) {
    var v := c.va / PGSIZE;
    c.va % PGSIZE == 0 && lo <= v < lo + n && Present(Entry(mem, tab, v)) && c.pte == Entry(mem, tab, v)
  }

  /** The enumeration holds every present leaf of its range, and nothing else. */
  lemma {:induction false} LeavesComplete(mem: Heap, tab: Tables, lo: nat, n: nat, c: Call)
    ensures c in Leaves(mem, tab, lo, n) <==> IsLeaf(mem, tab, c, lo, n)
  {
    hide Entry, Present;
    if n > 0 {
      LeavesComplete(mem, tab, lo, n - 1, c);
      var v := lo + n - 1;
      assert c.va / PGSIZE == v && c.va % PGSIZE == 0 <==> c.va == v * PGSIZE;
    }
  }

  /** It is strictly ascending, so each leaf occurs once. */
  lemma {:induction false} LeavesAscending(mem: Heap, tab: Tables, lo: nat, n: nat, i: nat, j: nat)
    requires i < j < |Leaves(mem, tab, lo, n)|
    ensures Leaves(mem, tab, lo, n)[i].va < Leaves(mem, tab, lo, n)[j].va
  {
    hide Entry, Present;
    var s, t := Leaves(mem, tab, lo, n), Leaves(mem, tab, lo, n - 1);
    if j < |t| {
      LeavesAscending(mem, tab, lo, n - 1, i, j);
    } else {
      LeavesComplete(mem, tab, lo, n - 1, t[i]);
      assert s[j].va == (lo + n - 1) * PGSIZE;
    }
  }

  /** `(i4 << 39) | (i3 << 30) | (i2 << 21) | (i1 << 12)` */
  function LeafVa(i4: nat, i3: nat, i2: nat, i1: nat): (va: nat)
    requires i3 < WORDS && i2 < WORDS && i1 < WORDS
    ensures va == (((i4 * 512 + i3) * 512 + i2) * 512 + i1) * PGSIZE
  {
    LeafVaSum(i4, i3, i2, i1);
    Or(Or(Or(i4 * 0x80_0000_0000, i3 * 0x4000_0000), i2 * 0x20_0000), i1 * 0x1000)
  }

  lemma LeafVaSum(i4: nat, i3: nat, i2: nat, i1: nat)
    requires i3 < WORDS && i2 < WORDS && i1 < WORDS
    ensures Or(Or(Or(i4 * 0x80_0000_0000, i3 * 0x4000_0000), i2 * 0x20_0000), i1 * 0x1000)
         == (((i4 * 512 + i3) * 512 + i2) * 512 + i1) * PGSIZE
  {
    Strides();
    hide Pow2, Or;
    OrBelow(i4, 0x80_0000_0000, i3 * 0x4000_0000, 39);
    OrBelow(i4 * 512 + i3, 0x4000_0000, i2 * 0x20_0000, 30);
    OrBelow((i4 * 512 + i3) * 512 + i2, 0x20_0000, i1 * 0x1000, 21);
  }

  lemma Strides()
    ensures Pow2(21) == 0x20_0000 && Pow2(30) == 0x4000_0000 && Pow2(39) == 0x80_0000_0000
  {
    PowersUsed();
    assert Pow2(21) == 512 * Pow2(12);
    assert Pow2(30) == 512 * Pow2(21);
    assert Pow2(39) == 512 * Pow2(30);
  }

  lemma OrBelow(a: nat, unit: nat, b: nat, k: nat)
    requires unit == Pow2(k) && b < unit
    ensures Or(a * unit, b) == a * unit + b
  {
    DivModUnique(a * unit, unit, a, 0);
    OrLow(a * unit, 0, b, k);
  }

  // ---------------------------------------------------------------- ownership, for destruction

  function Frame(pte: nat): nat { PteAddr(pte) + KERN_BASE }

  /** How many page numbers a table of a level covers. */
  function Size(level: nat): (n: nat)
    ensures n > 0
  {
    if level == 0 then 1 else if level == 1 then 0x200 else if level == 2 then 0x4_0000 else 0x800_0000
  }

  const USER_PAGES: nat := 0x800_0000  // the page numbers below slot 0

  /** The pages reached from the table at a place, itself included: tables and mapped frames. */
  ghost function Owned(mem: Heap, tab: Tables, level: nat, prefix: nat): set<nat>
    decreases level, 1, 0
  {
    if Pos(level, prefix) !in tab then {} else {tab[Pos(level, prefix)]} + Below(mem, tab, level, prefix, WORDS)
  }

  /** The pages reached through the first n entries of the table at a place. */
  ghost function Below(mem: Heap, tab: Tables, level: nat, prefix: nat, n: nat): set<nat>
    decreases level, 0, n
  {
    if n == 0 then {} else
      Below(mem, tab, level, prefix, n - 1)
      + if level > 1 then Owned(mem, tab, level - 1, prefix * 512 + n - 1)
        else
          var e := Entry(mem, tab, prefix * 512 + n - 1);
          if Present(e) then {Frame(e)} else {}
  }

  /** Page x has tag (v, l): a level-l table whose first page number is v, or, for l = 0, the frame v maps to. */
  ghost predicate Tagged(mem: Heap, tab: Tables, x: nat, v: nat, l: nat) {
    if l == 0 then Present(Entry(mem, tab, v)) && Frame(Entry(mem, tab, v)) == x
    else l < 4 && v % Size(l) == 0 && TableAt(tab, Pos(l, v / Size(l)), x)
  }

  /** What destroying slot 0 asks of its frames: in use, distinct, and none of them a table. */
  ghost predicate OwnsFrames(mem: Heap, free: set<nat>, tab: Tables) {
    && (forall v: nat | v < USER_PAGES && Present(Entry(mem, tab, v)) ::
          var x := Frame(Entry(mem, tab, v)); x in mem && x !in free && x !in tab.Values)
    && (forall v: nat, w: nat | v < USER_PAGES && w < USER_PAGES && Present(Entry(mem, tab, v)) && Present(Entry(mem, tab, w)) ::
          Frame(Entry(mem, tab, v)) == Frame(Entry(mem, tab, w)) ==> v == w)
  }

  /** A page has at most one tag. */
  lemma TagUnique(mem: Heap, free: set<nat>, tab: Tables, root: nat, x: nat, v: nat, l: nat, w: nat, k: nat)
    requires Tree(mem, free, tab, root) && OwnsFrames(mem, free, tab)
    requires v < USER_PAGES && w < USER_PAGES
    requires Tagged(mem, tab, x, v, l) && Tagged(mem, tab, x, w, k)
    ensures v == w && l == k
  {
    assert l > 0 ==> x in tab.Values;
    assert k > 0 ==> x in tab.Values;
    hide Size;
    if l > 0 && k > 0 {
      assert Pos(l, v / Size(l)) == Pos(k, w / Size(k));
      SameMultiple(v, w, Size(l));
    }
  }

  lemma SameMultiple(v: nat, w: nat, d: nat)
    requires d > 0 && v % d == 0 && w % d == 0 && v / d == w / d
    ensures v == w
  {
    assert v == v / d * d && w == w / d * d;
  }

  lemma {:induction false} OwnedTag(mem: Heap, tab: Tables, level: nat, prefix: nat, x: nat) returns (v: nat, l: nat)
    requires 1 <= level < 4 && x in Owned(mem, tab, level, prefix)
    ensures Tagged(mem, tab, x, v, l) && l <= level && v / Size(level) == prefix
    decreases level, 1, 0
  {
    hide Size, Below, Present, Frame;
    if x == tab[Pos(level, prefix)] {
      SizeMultiple(prefix, level);
      v, l := prefix * Size(level), level;
    } else {
      v, l := BelowTag(mem, tab, level, prefix, WORDS, x);
    }
  }

  lemma {:induction false} BelowTag(mem: Heap, tab: Tables, level: nat, prefix: nat, n: nat, x: nat)
    returns (v: nat, l: nat)
    requires 1 <= level < 4 && n <= WORDS && x in Below(mem, tab, level, prefix, n)
    ensures Tagged(mem, tab, x, v, l) && l < level && v / Size(level) == prefix
    ensures v / Size(level - 1) < prefix * 512 + n
    decreases level, 0, n
  {
    hide Size, Owned, Present, Frame;
    SizeZero();
    if n > 0 && x in Below(mem, tab, level, prefix, n - 1) {
      v, l := BelowTag(mem, tab, level, prefix, n - 1, x);
    } else if level > 1 {
      v, l := OwnedTag(mem, tab, level - 1, prefix * 512 + n - 1, x);
      SizeStep(v, level);
    } else {
      v, l := prefix * 512 + n - 1, 0;
      SizeStep(v, level);
    }
  }

  lemma SizeMultiple(prefix: nat, level: nat)
    requires level < 4
    ensures prefix * Size(level) / Size(level) == prefix && prefix * Size(level) % Size(level) == 0
  {
    DivModUnique(prefix * Size(level), Size(level), prefix, 0);
  }

  lemma SizeZero()
    ensures Size(0) == 1
  {
  }

  lemma SizeStep(v: nat, level: nat)
    requires 1 <= level < 4
    ensures v / Size(level) == v / Size(level - 1) / 512
  {
  }

  /** Conversely every page tagged within a table's range is owned by it. */
  lemma {:induction false} OwnedHas(mem: Heap, free: set<nat>, tab: Tables, root: nat, level: nat, prefix: nat, x: nat,
                                    v: nat, l: nat)
    requires Tree(mem, free, tab, root) && v < USER_PAGES
    requires 1 <= level < 4 && l <= level && Tagged(mem, tab, x, v, l) && v / Size(level) == prefix
    ensures x in Owned(mem, tab, level, prefix)
    decreases level, 1, 0
  {
    hide Size, Below, Present, Frame, Tree;
    TaggedPath(mem, free, tab, root, x, v, l, level);
    if l < level {
      PathInTable(v, level);
      BelowHas(mem, free, tab, root, level, prefix, WORDS, x, v, l);
    }
  }

  lemma {:induction false} BelowHas(mem: Heap, free: set<nat>, tab: Tables, root: nat, level: nat, prefix: nat, n: nat,
                                    x: nat, v: nat, l: nat)
    requires Tree(mem, free, tab, root) && v < USER_PAGES
    requires 1 <= level < 4 && n <= WORDS && l < level && Tagged(mem, tab, x, v, l)
    requires prefix * 512 <= v / Size(level - 1) < prefix * 512 + n
    ensures x in Below(mem, tab, level, prefix, n)
    decreases level, 0, n
  {
    hide Size, Owned, Present, Frame, Tree;
    if v / Size(level - 1) < prefix * 512 + n - 1 {
      BelowHas(mem, free, tab, root, level, prefix, n - 1, x, v, l);
    } else if level > 1 {
      OwnedHas(mem, free, tab, root, level - 1, prefix * 512 + n - 1, x, v, l);
    } else {
      SizeZero();
    }
  }

  lemma PathInTable(v: nat, level: nat)
    requires 1 <= level < 4
    ensures v / Size(level) * 512 <= v / Size(level - 1) < v / Size(level) * 512 + WORDS
  {
    SizeStep(v, level);
  }

  /** The tables above a tagged page exist. */
  lemma TaggedPath(mem: Heap, free: set<nat>, tab: Tables, root: nat, x: nat, v: nat, l: nat, level: nat)
    requires Tree(mem, free, tab, root)
    requires 1 <= level < 4 && l <= level && Tagged(mem, tab, x, v, l)
    ensures Pos(level, v / Size(level)) in tab
    ensures l == level ==> tab[Pos(level, v / Size(level))] == x
  {
    MissingBelow(mem, free, tab, root, v);
  }

  /** The subtrees under different entries share no page, nor do they hold the table itself. */
  lemma Disjoint(mem: Heap, free: set<nat>, tab: Tables, root: nat, level: nat, prefix: nat, n: nat)
    requires Tree(mem, free, tab, root) && OwnsFrames(mem, free, tab)
    requires 1 <= level < 4 && n < WORDS && InSlot0(level, prefix)
    ensures level > 1 ==> Below(mem, tab, level, prefix, n) !! Owned(mem, tab, level - 1, prefix * 512 + n)
    ensures level == 1 && Present(Entry(mem, tab, prefix * 512 + n)) ==>
              Frame(Entry(mem, tab, prefix * 512 + n)) !in Below(mem, tab, level, prefix, n)
  {
    hide Tree, OwnsFrames, Size, Tagged, InSlot0, Owned;
    var last := if level > 1 then Owned(mem, tab, level - 1, prefix * 512 + n)
                else if Present(Entry(mem, tab, prefix * 512 + n)) then {Frame(Entry(mem, tab, prefix * 512 + n))} else {};
    forall x | x in last
      ensures x !in Below(mem, tab, level, prefix, n)
    {
      if x in Below(mem, tab, level, prefix, n) {
        var v, l := BelowTag(mem, tab, level, prefix, n, x);
        SlotBound(level, prefix, v);
        var w, k := LastTag(mem, tab, level, prefix, n, x);
        SlotBound(level, prefix, w);
        TagUnique(mem, free, tab, root, x, v, l, w, k);
        assert false;
      }
    }
  }

  lemma LastTag(mem: Heap, tab: Tables, level: nat, prefix: nat, n: nat, x: nat) returns (w: nat, k: nat)
    requires 1 <= level < 4 && n < WORDS
    requires level > 1 ==> x in Owned(mem, tab, level - 1, prefix * 512 + n)
    requires level == 1 ==> Present(Entry(mem, tab, prefix * 512 + n)) && x == Frame(Entry(mem, tab, prefix * 512 + n))
    ensures Tagged(mem, tab, x, w, k) && k < level && w / Size(level) == prefix
    ensures w / Size(level - 1) == prefix * 512 + n
  {
    hide Size, Owned;
    if level > 1 {
      w, k := OwnedTag(mem, tab, level - 1, prefix * 512 + n, x);
    } else {
      w, k := prefix * 512 + n, 0;
      SizeZero();
    }
    SizeStep(w, level);
  }

  predicate InSlot0(level: nat, prefix: nat) {
    (level == 1 && prefix < 0x4_0000) || (level == 2 && prefix < 0x200) || (level == 3 && prefix == 0)
  }

  lemma SlotBound(level: nat, prefix: nat, v: nat)
    requires InSlot0(level, prefix) && v / Size(level) == prefix
    ensures v < USER_PAGES
  {
  }

  lemma SlotChild(level: nat, prefix: nat, i: nat)
    requires InSlot0(level, prefix) && level > 1 && i < WORDS
    ensures InSlot0(level - 1, prefix * 512 + i)
  {
  }

  /** No table lies below itself. */
  lemma NotBelowItself(mem: Heap, free: set<nat>, tab: Tables, root: nat, level: nat, prefix: nat, n: nat)
    requires Tree(mem, free, tab, root) && OwnsFrames(mem, free, tab)
    requires 1 <= level < 4 && n <= WORDS && InSlot0(level, prefix) && Pos(level, prefix) in tab
    ensures tab[Pos(level, prefix)] !in Below(mem, tab, level, prefix, n)
  {
    hide Tree, OwnsFrames, Below, InSlot0, Size;
    var x := tab[Pos(level, prefix)];
    if x in Below(mem, tab, level, prefix, n) {
      var v, l := BelowTag(mem, tab, level, prefix, n, x);
      SlotBound(level, prefix, v);
      SizeMultiple(prefix, level);
      SlotBound(level, prefix, prefix * Size(level));
      TagUnique(mem, free, tab, root, x, v, l, prefix * Size(level), level);
      assert false;
    }
  }

  /** The pages in set are still in use, with the contents they had in snapshot m0. */
  ghost predicate Standing(mem: Heap, free: set<nat>, m0: Heap, pages: set<nat>) {
    && IsHeap(mem) && mem.Keys == m0.Keys && free <= mem.Keys
    && pages !! free && forall a | a in pages && a in mem :: mem[a] == m0[a]
  }

  /** Exactly the pages in set went back to the allocator, and no other page changed. */
  ghost predicate Released(mem: Heap, free: set<nat>, mem': Heap, free': set<nat>, pages: set<nat>) {
    && IsHeap(mem') && mem'.Keys == mem.Keys && free' <= mem'.Keys
    && free' == free + pages && forall a | a in mem && a !in pages :: mem'[a] == mem[a]
  }

  lemma {:induction false} BelowGrows(mem: Heap, tab: Tables, level: nat, prefix: nat, m: nat, n: nat)
    requires m <= n
    ensures Below(mem, tab, level, prefix, m) <= Below(mem, tab, level, prefix, n)
  {
    if m < n {
      BelowGrows(mem, tab, level, prefix, m, n - 1);
    }
  }

  lemma FrameInUse(mem: Heap, free: set<nat>, tab: Tables, prefix: nat, i: nat)
    requires OwnsFrames(mem, free, tab) && InSlot0(1, prefix) && i < WORDS
    requires Present(Entry(mem, tab, prefix * 512 + i))
    ensures Frame(Entry(mem, tab, prefix * 512 + i)) in mem
  {
  }

  lemma BelowNext(mem: Heap, tab: Tables, level: nat, prefix: nat, i: nat)
    ensures level > 1 ==>
              Below(mem, tab, level, prefix, i + 1) ==
              Below(mem, tab, level, prefix, i) + Owned(mem, tab, level - 1, prefix * 512 + i)
    ensures level <= 1 ==>
              var e := Entry(mem, tab, prefix * 512 + i);
              Below(mem, tab, level, prefix, i + 1) == Below(mem, tab, level, prefix, i) + if Present(e) then {Frame(e)}
                else {}
  {
  }

  lemma OwnedParts(mem: Heap, free: set<nat>, tab: Tables, root: nat, level: nat, prefix: nat)
    requires Tree(mem, free, tab, root) && OwnsFrames(mem, free, tab)
    requires 1 <= level < 4 && InSlot0(level, prefix) && Pos(level, prefix) in tab
    ensures var t := tab[Pos(level, prefix)];
            t in mem && |mem[t]| == WORDS && t !in Below(mem, tab, level, prefix, WORDS)
            && Owned(mem, tab, level, prefix) == Below(mem, tab, level, prefix, WORDS) + {t}
  {
    hide Tree, OwnsFrames;
    NotBelowItself(mem, free, tab, root, level, prefix, WORDS);
    TableFacts(mem, free, tab, root, Pos(level, prefix), 0);
  }

  lemma OwnedAbsent(mem: Heap, tab: Tables, level: nat, prefix: nat)
    requires Pos(level, prefix) !in tab
    ensures Owned(mem, tab, level, prefix) == {}
  {
  }

  lemma ReleasedEmpty(mem: Heap, free: set<nat>)
    requires IsHeap(mem) && free <= mem.Keys
    ensures Released(mem, free, mem, free, {})
  {
  }

  lemma ReleasedNothing(mem: Heap, free: set<nat>, m0: Heap, all: set<nat>, m: Heap, tab: Tables, level: nat,
                        prefix: nat)
    requires Standing(mem, free, m0, all)
    ensures Released(mem, free, mem, free, Below(m, tab, level, prefix, 0))
  {
    ReleasedEmpty(mem, free);
  }

  lemma ReleasedOne(mem: Heap, free: set<nat>, mem': Heap, free': set<nat>, page: nat)
    requires IsHeap(mem) && free <= mem.Keys && page in mem
    requires IsHeap(mem') && mem' == mem[page := JUNKS] && free' == free + {page}
    ensures Released(mem, free, mem', free', {page})
  {
  }

  lemma ReleasedBoth(mem: Heap, free: set<nat>, mem1: Heap, free1: set<nat>, mem2: Heap, free2: set<nat>, s: set<nat>,
                     t: set<nat>)
    requires Released(mem, free, mem1, free1, s) && Released(mem1, free1, mem2, free2, t)
    ensures Released(mem, free, mem2, free2, s + t)
  {
  }

  /** Releasing one part of what stands leaves the disjoint rest standing. */
  lemma StandingLeft(mem: Heap, free: set<nat>, m0: Heap, all: set<nat>, mem': Heap, free': set<nat>, gone: set<nat>,
                     rest: set<nat>)
    requires Standing(mem, free, m0, all) && Released(mem, free, mem', free', gone)
    requires rest <= all && rest !! gone
    ensures Standing(mem', free', m0, rest)
  {
  }

  lemma StandingPage(mem: Heap, free: set<nat>, m0: Heap, pages: set<nat>, page: nat)
    requires Standing(mem, free, m0, pages) && page in pages && page in m0
    ensures IsHeap(mem) && free <= mem.Keys && page in mem && page !in free && mem[page] == m0[page]
  {
  }

  lemma StandingStart(mem: Heap, free: set<nat>, tab: Tables, root: nat)
    requires Tree(mem, free, tab, root) && OwnsFrames(mem, free, tab)
    ensures Standing(mem, free, mem, Owned(mem, tab, 3, 0))
    ensures root !in Owned(mem, tab, 3, 0)
  {
    hide Owned, Size;
    SizeOfSlot0();
    forall x | x in Owned(mem, tab, 3, 0)
      ensures x !in free && x != root
    {
      var v, l := OwnedTag(mem, tab, 3, 0, x);
      assert v < USER_PAGES;
      if l > 0 {
        assert Pos(l, v / Size(l)) in tab;
      }
    }
  }

  lemma SizeOfSlot0()
    ensures Size(3) == USER_PAGES
  {
  }

  lemma SlotZero(mem: Heap, free: set<nat>, tab: Tables, root: nat)
    requires Tree(mem, free, tab, root) && ROOT in tab
    ensures Child(ROOT, 0) == Pos(3, 0) && InSlot0(3, 0)
  {
  }

  lemma StandingRoot(mem: Heap, free: set<nat>, mem': Heap, free': set<nat>, gone: set<nat>, root: nat)
    requires Released(mem, free, mem', free', gone)
    requires root in mem && root !in free && root !in gone
    ensures IsHeap(mem') && free' <= mem'.Keys && root in mem' && root !in free'
  {
  }

  /** What Pml4Destroy gives back, page by page: the root, and whatever has a tag below slot 0's end. */
  lemma DestroyedPages(mem: Heap, free: set<nat>, tab: Tables, root: nat, x: nat)
    requires Tree(mem, free, tab, root) && OwnsFrames(mem, free, tab)
    ensures x in Owned(mem, tab, 3, 0) <==>
              exists v: nat, l: nat :: v < USER_PAGES && l < 4 && Tagged(mem, tab, x, v, l)
  {
    hide Owned, Size, Tagged, Tree, OwnsFrames;
    SizeOfSlot0();
    if x in Owned(mem, tab, 3, 0) {
      var v, l := OwnedTag(mem, tab, 3, 0, x);
      assert v < USER_PAGES && l < 4 && Tagged(mem, tab, x, v, l);
    }
    if v: nat, l: nat :| v < USER_PAGES && l < 4 && Tagged(mem, tab, x, v, l) {
      OwnedHas(mem, free, tab, root, 3, 0, x, v, l);
    }
  }

  /** A copy of the base root maps what the base maps and shares all its lower tables. */
  lemma RootCopied(mem: Heap, free: set<nat>, tab: Tables, base: nat, page: nat)
    requires Tree(mem, free, tab, base) && page in free
    ensures base in mem
    ensures var mem', free', tab' := mem[page := mem[base]], free - {page}, tab[ROOT := page];
            Tree(mem', free', tab', page)
            && forall v | 0 <= v < PAGES :: Lookup(mem', page, v) == Lookup(mem, base, v)
  {
    TableFacts(mem, free, tab, base, ROOT, 0);
    var mem', free', tab' := mem[page := mem[base]], free - {page}, tab[ROOT := page];
    forall p, i: nat | p in tab' && p.level > 1 && i < WORDS
      ensures EntryOk(mem', tab', p, i)
    {
      assert EntryOk(mem, tab, p, i);
    }
    assert Tree(mem', free', tab', page);
    assert SameEntries(mem, tab, mem', tab');
    forall v | 0 <= v < PAGES
      ensures Lookup(mem', page, v) == Lookup(mem, base, v)
    {
      LookupIsEntry(mem, free, tab, base, v);
      LookupIsEntry(mem', free', tab', page, v);
    }
  }

  lemma TranslateAfterSet(mem: Heap, mem': Heap, root: nat, v: nat, kpage: nat, rw: bool)
    requires IsPage(kpage)
    requires forall u | 0 <= u < PAGES ::
              Lookup(mem', root, u) == if u == v then MakePte(kpage, rw) else Lookup(mem, root, u)
    ensures forall va: nat ::
              Translate(mem', root, va) == if Vpn(va) == v then kpage + va % PGSIZE else Translate(mem, root, va)
  {
    hide Lookup, Vpn, MakePte, PteAddr, Present;
    PteRoundTrip(kpage, rw);
  }

  class PageMap {
    const root: nat
    var mem: Heap        // every installed page, by kernel address
    var free: set<nat>   // the pages the allocator may hand out
    ghost var tab: Tables

    ghost predicate Valid()
      reads this
    {
      Tree(mem, free, tab, root)
    }

    /** The base table: an empty root on a page of its own. */
    constructor (mem: Heap, free: set<nat>, page: nat)
      requires IsHeap(mem) && free <= mem.Keys && page in free
      ensures Valid() && this.free == free - {page} && root == page
      ensures tab == map[ROOT := page]
    {
      root := page;
      this.mem := mem[page := ZEROS];
      this.free := free - {page};
      tab := map[ROOT := page];
    }

    /** `palloc_get_page`: some free page, or null when there is none. */
    method PallocGetPage(zero: bool) returns (page: nat)
      requires IsHeap(mem) && free <= mem.Keys
      modifies this`mem, this`free
      ensures IsHeap(mem) && mem.Keys == old(mem.Keys)
      ensures page == 0 <==> old(free) == {}
      ensures page == 0 ==> mem == old(mem) && free == old(free)
      ensures page != 0 ==> page in old(free) && free == old(free) - {page} && |free| == |old(free)| - 1
      ensures page != 0 ==> mem == old(mem)[page := if zero then ZEROS else old(mem)[page]]
    {
      if free == {} {
        return 0;
      }
      page :| page in free;
      free := free - {page};
      if zero {
        mem := mem[page := ZEROS];
      }
    }

    /** `palloc_free_page`, which fills the page with a marker pattern; the page must be in use. */
    method PallocFreePage(page: nat)
      requires IsHeap(mem) && free <= mem.Keys
      requires page in mem && page !in free
      modifies this`mem, this`free
      ensures IsHeap(mem) && mem == old(mem)[page := JUNKS] && free == old(free) + {page}
      ensures |free| == |old(free)| + 1
    {
      mem := mem[page := JUNKS];
      free := free + {page};
    }

    /** `pml4_create`, with this table as the base: a copy of its root maps what it maps, or there is no page for
        one. */
    method Pml4Create() returns (pml4: nat)
      requires Valid()
      modifies this`mem, this`free
      ensures Valid() && SameEntries(old(mem), tab, mem, tab)
      ensures pml4 == 0 <==> old(free) == {}
      ensures pml4 == 0 ==> mem == old(mem) && free == old(free)
      ensures pml4 != 0 ==> pml4 in old(free) && free == old(free) - {pml4} && Tree(mem, free, tab[ROOT := pml4], pml4)
      ensures pml4 != 0 ==> forall v | 0 <= v < PAGES :: Lookup(mem, pml4, v) == Lookup(old(mem), root, v)
    {
      hide Tree, Lookup, SameEntries;
      TreeHeap(mem, free, tab, root);
      SameRefl(mem, tab);
      pml4 := PallocGetPage(false);
      if pml4 != 0 {
        assert mem == old(mem);
        RootCopied(mem, old(free), tab, root, pml4);
        mem := mem[pml4 := mem[root]];
        GrowReady(old(mem), old(free), tab, root, mem, free, pml4);
      }
    }

    /** The allocation step the three walks share: a zeroed page hung under entry i of the table at p. */
    method GrowTable(ghost p: Pos, table: nat, i: nat) returns (page: nat)
      requires Valid()
      requires p in tab && p.level > 1 && table == tab[p] && i < WORDS && !Present(mem[table][i])
      modifies this`mem, this`free, this`tab
      ensures Valid() && SameEntries(old(mem), old(tab), mem, tab) && mem.Keys == old(mem.Keys)
      ensures page == 0 <==> old(free) == {}
      ensures page == 0 ==> tab == old(tab) && free == old(free)
      ensures page != 0 ==> tab == old(tab)[Child(p, i) := page] && Child(p, i) !in old(tab)
      ensures page != 0 ==> page in old(free) && free == old(free) - {page} && |free| == |old(free)| - 1
    {
      hide Tree, SameEntries, MakePte;
      TreeHeap(mem, free, tab, root);
      SameRefl(mem, tab);
      TableFacts(mem, free, tab, root, p, i);
      page := PallocGetPage(true);
      if page != 0 {
        GrowReady(old(mem), old(free), tab, root, mem, free, page);
        AddTable(mem, free, tab, root, p, i, page);
        ghost var mem1 := mem;
        mem := Store(mem, table, i, MakePte(page, true));
        tab := tab[Child(p, i) := page];
        SameTrans(old(mem), old(tab), mem1, old(tab), mem, tab);
      }
    }

    method PgdirWalk(pdp: nat, va: nat, create: bool) returns (pte: nat)
      requires Valid()
      requires pdp == 0 || TableAt(tab, Pos(2, Vpn(va) / 0x4_0000), pdp)
      modifies this`mem, this`free, this`tab
      ensures Valid() && SameEntries(old(mem), old(tab), mem, tab) && mem.Keys == old(mem.Keys)
      ensures pte == 0 || !create ==> tab == old(tab) && free == old(free)
      ensures !create ==> mem == old(mem)
      ensures pte != 0 ==> pte == LeafSlot(tab, Vpn(va))
      ensures pte != 0 <==> pdp != 0 && Missing(old(tab), Vpn(va), 2) <= if create then |old(free)| else 0
      ensures pte != 0 ==> |free| == |old(free)| - Missing(old(tab), Vpn(va), 2)
    {
      hide Tree, SameEntries, Vpn, Index, Pml4, Pdpe, Pdx, Ptx, PteAddr, Present;
      VpnDigits(va);
      ghost var v := Vpn(va);
      ghost var here := Pos(2, v / 0x4_0000);
      var idx := Pdx(va);
      ParentOfChild(here, idx);
      assert Child(here, idx) == Pos(1, v / 512);
      SameRefl(mem, tab);
      if pdp != 0 {
        TableFacts(mem, free, tab, root, here, idx);
        if !Present(mem[pdp][idx]) {
          if !create {
            return 0;
          }
          var page := GrowTable(here, pdp, idx);
          if page == 0 {
            return 0;
          }
        }
        TableFacts(mem, free, tab, root, here, idx);
        return PteAddr(mem[pdp][idx]) + 8 * Ptx(va) + KERN_BASE;
      }
      return 0;
    }

    method PdpeWalk(pdpe: nat, va: nat, create: bool) returns (pte: nat)
      requires Valid()
      requires pdpe == 0 || TableAt(tab, Pos(3, Vpn(va) / 0x800_0000), pdpe)
      modifies this`mem, this`free, this`tab
      ensures Valid() && SameEntries(old(mem), old(tab), mem, tab) && mem.Keys == old(mem.Keys)
      ensures pte == 0 || !create ==> tab == old(tab) && free == old(free)
      ensures !create ==> mem == old(mem)
      ensures pte != 0 ==> pte == LeafSlot(tab, Vpn(va))
      ensures pte != 0 <==> pdpe != 0 && Missing(old(tab), Vpn(va), 3) <= if create then |old(free)| else 0
      ensures pte != 0 ==> |free| == |old(free)| - Missing(old(tab), Vpn(va), 3)
    {
      hide Tree, SameEntries, Vpn, Index, Pml4, Pdpe, Pdx, Ptx, PteAddr, Present;
      VpnDigits(va);
      ghost var v := Vpn(va);
      ghost var here := Pos(3, v / 0x800_0000);
      var idx := Pdpe(va);
      var grown := false;
      pte := 0;
      ParentOfChild(here, idx);
      ghost var child := Child(here, idx);
      assert child == Pos(2, v / 0x4_0000);
      MissingBelow(mem, free, tab, root, v);
      if pdpe != 0 {
        TableFacts(mem, free, tab, root, here, idx);
        if !Present(mem[pdpe][idx]) {
          if !create {
            SameRefl(mem, tab);
            return 0;
          }
          var page := GrowTable(here, pdpe, idx);
          if page == 0 {
            return 0;
          }
          NoGrandchildren(old(mem), old(free), old(tab), root, child, page);
          grown := true;
        } else {
          SameRefl(mem, tab);
        }
        TableFacts(mem, free, tab, root, here, idx);
        ghost var mem1, tab1 := mem, tab;
        pte := PgdirWalk(PteAddr(mem[pdpe][idx]) + KERN_BASE, va, create);
        SameTrans(old(mem), old(tab), mem1, tab1, mem, tab);
      } else {
        SameRefl(mem, tab);
      }
      if pte == 0 && grown {
        ghost var mem2, tab2 := mem, tab;
        UndoGrow(here, pdpe, idx);
        SameTrans(old(mem), old(tab), mem2, tab2, mem, tab);
        assert tab == old(tab);
        assert free == old(free);
      }
    }

    /** The roll-back step the two outer walks share: free the table under entry i and clear the entry. */
    method UndoGrow(ghost p: Pos, table: nat, i: nat)
      requires Valid()
      requires p in tab && p.level > 2 && table == tab[p] && i < WORDS && Child(p, i) in tab
      requires forall j: nat | j < WORDS :: Child(Child(p, i), j) !in tab
      modifies this`mem, this`free, this`tab
      ensures Valid() && SameEntries(old(mem), old(tab), mem, tab) && mem.Keys == old(mem.Keys)
      ensures tab == old(tab) - {Child(p, i)} && free == old(free) + {old(tab)[Child(p, i)]}
    {
      hide Tree, SameEntries;
      TreeHeap(mem, free, tab, root);
      TableFacts(mem, free, tab, root, p, i);
      TableFacts(mem, free, tab, root, Child(p, i), 0);
      DropTable(mem, free, tab, root, p, i);
      PallocFreePage(PteAddr(mem[table][i]) + KERN_BASE);
      mem := Store(mem, table, i, 0);
      tab := tab - {Child(p, i)};
    }

    method Pml4eWalk(pml4e: nat, va: nat, create: bool) returns (pte: nat)
      requires Valid()
      requires pml4e == 0 || pml4e == root
      modifies this`mem, this`free, this`tab
      ensures Valid() && SameEntries(old(mem), old(tab), mem, tab) && mem.Keys == old(mem.Keys)
      ensures pte == 0 || !create ==> tab == old(tab) && free == old(free)
      ensures !create ==> mem == old(mem)
      ensures pte != 0 ==> pte == LeafSlot(tab, Vpn(va))
      ensures pte != 0 <==> pml4e != 0 && Missing(old(tab), Vpn(va), 4) <= if create then |old(free)| else 0
      ensures pte != 0 ==> |free| == |old(free)| - Missing(old(tab), Vpn(va), 4)
    {
      hide Tree, SameEntries, Vpn, Index, Pml4, Pdpe, Pdx, Ptx, PteAddr, Present;
      VpnDigits(va);
      ghost var v := Vpn(va);
      var idx := Pml4(va);
      var grown := false;
      pte := 0;
      ParentOfChild(ROOT, idx);
      ghost var child := Child(ROOT, idx);
      assert child == Pos(3, v / 0x800_0000);
      RootFacts(mem, free, tab, root);
      MissingBelow(mem, free, tab, root, v);
      if pml4e != 0 {
        TableFacts(mem, free, tab, root, ROOT, idx);
        if !Present(mem[pml4e][idx]) {
          if !create {
            SameRefl(mem, tab);
            return 0;
          }
          var page := GrowTable(ROOT, pml4e, idx);
          if page == 0 {
            return 0;
          }
          NoGrandchildren(old(mem), old(free), old(tab), root, child, page);
          grown := true;
        } else {
          SameRefl(mem, tab);
        }
        RootFacts(mem, free, tab, root);
        TableFacts(mem, free, tab, root, ROOT, idx);
        ghost var mem1, tab1 := mem, tab;
        pte := PdpeWalk(PteAddr(mem[pml4e][idx]) + KERN_BASE, va, create);
        SameTrans(old(mem), old(tab), mem1, tab1, mem, tab);
      } else {
        SameRefl(mem, tab);
      }
      if pte == 0 && grown {
        ghost var mem2, tab2 := mem, tab;
        RootFacts(mem, free, tab, root);
        UndoGrow(ROOT, pml4e, idx);
        SameTrans(old(mem), old(tab), mem2, tab2, mem, tab);
        assert tab == old(tab);
        assert free == old(free);
      }
    }

    /** The entry word a walk's result points at. */
    function Load(pte: nat): nat
      requires pte - pte % PGSIZE in mem && |mem[pte - pte % PGSIZE]| == WORDS
      reads this`mem
    {
      mem[pte - pte % PGSIZE][pte % PGSIZE / 8]
    }

    method StoreEntry(pte: nat, w: nat, ghost v: nat)
      requires Valid()
      requires v < PAGES && pte != 0 && pte == LeafSlot(tab, v) && w < 0x1_0000_0000_0000_0000
      modifies this`mem
      ensures Valid() && mem.Keys == old(mem.Keys)
      ensures forall u | 0 <= u < PAGES ::
                Lookup(mem, root, u) == if u == v then w else Lookup(old(mem), root, u)
    {
      SlotDecodes(mem, free, tab, root, v);
      StoreLeaf(mem, free, tab, root, v, w);
      forall u | 0 <= u < PAGES
        ensures Lookup(mem, root, u) == Entry(mem, tab, u)
      {
        LookupIsEntry(mem, free, tab, root, u);
      }
      mem := Store(mem, pte - pte % PGSIZE, pte % PGSIZE / 8, w);
      forall u | 0 <= u < PAGES
        ensures Lookup(mem, root, u) == Entry(mem, tab, u)
      {
        LookupIsEntry(mem, free, tab, root, u);
      }
    }

    /** Looks up a user address: the kernel address of its byte, or null. */
    method Pml4GetPage(uaddr: nat) returns (kva: nat)
      requires Valid() && uaddr < KERN_BASE
      modifies this
      ensures Valid() && mem == old(mem) && free == old(free) && tab == old(tab)
      ensures kva == Translate(mem, root, uaddr)
    {
      hide Tree, Vpn, Lookup;
      var v := Vpn(uaddr);
      RootFacts(mem, free, tab, root);
      MissingBelow(mem, free, tab, root, v);
      var pte := Pml4eWalk(root, uaddr, false);
      LookupIsEntry(mem, free, tab, root, v);
      if pte == 0 {
        assert Entry(mem, tab, v) == 0;
      } else {
        SlotDecodes(mem, free, tab, root, v);
        if Present(Load(pte)) {
          return PteAddr(Load(pte)) + KERN_BASE + uaddr % PGSIZE;
        }
      }
      return 0;
    }

    method Pml4SetPage(upage: nat, kpage: nat, rw: bool) returns (ok: bool)
      requires Valid() && upage % PGSIZE == 0 && upage < KERN_BASE && IsPage(kpage)
      modifies this
      ensures Valid() && mem.Keys == old(mem.Keys)
      // it fails exactly when the allocator is short of the tables that are missing
      ensures ok <==> Missing(old(tab), Vpn(upage), 4) <= |old(free)|
      ensures ok ==> forall u | 0 <= u < PAGES ::
                Lookup(mem, root, u) == if u == Vpn(upage) then MakePte(kpage, rw) else Lookup(old(mem), root, u)
      ensures ok ==> forall va: nat ::
                Translate(mem, root, va) == if Vpn(va) == Vpn(upage) then kpage + va % PGSIZE
                  else Translate(old(mem), root, va)
      ensures !ok ==> free == old(free) && tab == old(tab)
      ensures !ok ==> forall u | 0 <= u < PAGES :: Lookup(mem, root, u) == Lookup(old(mem), root, u)
    {
      RootFacts(mem, free, tab, root);
      var pte := Pml4eWalk(root, upage, true);
      SameLookups(old(mem), old(free), old(tab), mem, free, tab, root);
      if pte != 0 {
        PteRoundTrip(kpage, rw);
        StoreEntry(pte, MakePte(kpage, rw), Vpn(upage));
        TranslateAfterSet(old(mem), mem, root, Vpn(upage), kpage, rw);
      }
      return pte != 0;
    }

    /** Marks a user page not present; the other bits of its entry stay. */
    method Pml4ClearPage(upage: nat)
      requires Valid() && upage % PGSIZE == 0 && upage < KERN_BASE
      modifies this
      ensures Valid() && free == old(free) && tab == old(tab)
      ensures forall u | 0 <= u < PAGES ::
                Lookup(mem, root, u) ==
                var e := Lookup(old(mem), root, u); if u == Vpn(upage) && Present(e) then e - 1 else e
    {
      hide Tree, Vpn, Lookup;
      var v := Vpn(upage);
      RootFacts(mem, free, tab, root);
      MissingBelow(mem, free, tab, root, v);
      LookupIsEntry(mem, free, tab, root, v);
      var pte := Pml4eWalk(root, upage, false);
      if pte == 0 {
        assert Entry(mem, tab, v) == 0;
      } else {
        SlotDecodes(mem, free, tab, root, v);
        var e := Load(pte);
        if Present(e) {
          EntryBound(mem, free, tab, root, v);
          StoreEntry(pte, e - 1, v);
        }
      }
    }

    method Pml4IsDirty(vpage: nat) returns (dirty: bool)
      requires Valid()
      modifies this
      ensures Valid() && mem == old(mem) && free == old(free) && tab == old(tab)
      ensures dirty <==> Dirty(Lookup(mem, root, Vpn(vpage)))
    {
      RootFacts(mem, free, tab, root);
      var pte := Pml4eWalk(root, vpage, false);
      LookupIsEntry(mem, free, tab, root, Vpn(vpage));
      if pte == 0 {
        return false;
      }
      SlotDecodes(mem, free, tab, root, Vpn(vpage));
      return Dirty(Load(pte));
    }

    method Pml4SetDirty(vpage: nat, dirty: bool)
      requires Valid()
      modifies this
      ensures Valid() && free == old(free) && tab == old(tab)
      ensures forall u | 0 <= u < PAGES ::
                Lookup(mem, root, u) ==
                var e := Lookup(old(mem), root, u);
                if u != Vpn(vpage) || LeafSlot(tab, u) == 0 then e else if dirty then MarkDirty(e) else ClearDirty(e)
    {
      hide Tree, Vpn, Entry, Lookup, MarkDirty, ClearDirty;
      RootFacts(mem, free, tab, root);
      var v := Vpn(vpage);
      MissingBelow(mem, free, tab, root, v);
      var pte := Pml4eWalk(root, vpage, false);
      if pte == 0 {
        assert Missing(tab, v, 4) > 0;
        assert LeafSlot(tab, v) == 0;
      } else {
        SlotDecodes(mem, free, tab, root, v);
        LookupIsEntry(mem, free, tab, root, v);
        EntryBound(mem, free, tab, root, v);
        var e := Load(pte);
        DirtyBits(e);
        StoreEntry(pte, if dirty then MarkDirty(e) else ClearDirty(e), v);
      }
    }

    /** Applies func to each present entry of a leaf table; returns its calls, in order. */
    method PtForEach<A>(pt: nat, func: Callback<A>, aux0: A, i4: nat, i3: nat, i2: nat)
      returns (ok: bool, aux: A, calls: seq<Call>)
      requires Valid() && i3 < WORDS && i2 < WORDS
      requires TableAt(tab, Pos(1, (i4 * 512 + i3) * 512 + i2), pt)
      ensures Visited(aux, ok, calls) == Visit(Leaves(mem, tab, ((i4 * 512 + i3) * 512 + i2) * 512, 512), func, aux0)
    {
      hide Tree, Leaves, Entry, Present, Visit;
      ghost var prefix := (i4 * 512 + i3) * 512 + i2;
      ghost var lo := prefix * 512;
      aux, calls := aux0, [];
      VisitNone(mem, tab, lo, func, aux);
      var i := 0;
      while i < WORDS
        invariant 0 <= i <= WORDS && Visited(aux, true, calls) == Visit(Leaves(mem, tab, lo, i), func, aux0)
      {
        LeafEntry(mem, free, tab, root, prefix, i);
        OneLeaf(mem, tab, lo + i);
        ghost var before := Visited(aux, true, calls);
        var pte := mem[pt][i];
        if Present(pte) {
          var call := Call(LeafVa(i4, i3, i2, i), pte);
          var (next, more) := func(aux, call);
          VisitOne(call, func, aux);
          ChunkVisited(mem, tab, lo, i, 1, 512, func, aux0, before, Visited(next, more, [call]));
          aux, calls := next, calls + [call];
          if !more {
            return false, aux, calls;
          }
        } else {
          VisitNone(mem, tab, lo, func, aux);
          ChunkVisited(mem, tab, lo, i, 1, 512, func, aux0, before, Visited(aux, true, []));
        }
        i := i + 1;
      }
      ok := true;
    }

    /** The same over a page directory. */
    method PgdirForEach<A>(pdp: nat, func: Callback<A>, aux0: A, i4: nat, i3: nat)
      returns (ok: bool, aux: A, calls: seq<Call>)
      requires Valid() && i3 < WORDS && TableAt(tab, Pos(2, i4 * 512 + i3), pdp)
      ensures Visited(aux, ok, calls) == Visit(Leaves(mem, tab, (i4 * 512 + i3) * 0x4_0000, 0x4_0000), func, aux0)
    {
      hide Tree, Leaves, Entry, Present, PteAddr, Visit;
      ghost var here, lo := Pos(2, i4 * 512 + i3), (i4 * 512 + i3) * 0x4_0000;
      aux, calls := aux0, [];
      VisitNone(mem, tab, lo, func, aux);
      var i := 0;
      while i < WORDS
        invariant 0 <= i <= WORDS && Visited(aux, true, calls) == Visit(Leaves(mem, tab, lo, i * 0x200), func, aux0)
      {
        TableFacts(mem, free, tab, root, here, i);
        ghost var before := Visited(aux, true, calls);
        var pte := mem[pdp][i];
        if Present(pte) {
          var more, next, made := PtForEach(PteAddr(pte) + KERN_BASE, func, aux, i4, i3, i);
          ChunkVisited(mem, tab, lo, i * 0x200, 0x200, 0x4_0000, func, aux0, before, Visited(next, more, made));
          aux, calls := next, calls + made;
          if !more {
            return false, aux, calls;
          }
        } else {
          AbsentSubtree(mem, free, tab, root, Child(here, i), 0x200);
          VisitNone(mem, tab, lo, func, aux);
          ChunkVisited(mem, tab, lo, i * 0x200, 0x200, 0x4_0000, func, aux0, before, Visited(aux, true, []));
        }
        i := i + 1;
      }
      ok := true;
    }

    /** The same over a page-directory-pointer table. */
    method PdpForEach<A>(pdp: nat, func: Callback<A>, aux0: A, i4: nat) returns (ok: bool, aux: A, calls: seq<Call>)
      requires Valid() && TableAt(tab, Pos(3, i4), pdp)
      ensures Visited(aux, ok, calls) == Visit(Leaves(mem, tab, i4 * 0x800_0000, 0x800_0000), func, aux0)
    {
      hide Tree, Leaves, Entry, Present, PteAddr, Visit;
      ghost var here, lo := Pos(3, i4), i4 * 0x800_0000;
      aux, calls := aux0, [];
      VisitNone(mem, tab, lo, func, aux);
      var i := 0;
      while i < WORDS
        invariant 0 <= i <= WORDS && Visited(aux, true, calls) == Visit(Leaves(mem, tab, lo, i * 0x4_0000), func, aux0)
      {
        TableFacts(mem, free, tab, root, here, i);
        ghost var before := Visited(aux, true, calls);
        var pte := mem[pdp][i];
        if Present(pte) {
          var more, next, made := PgdirForEach(PteAddr(pte) + KERN_BASE, func, aux, i4, i);
          ChunkVisited(mem, tab, lo, i * 0x4_0000, 0x4_0000, 0x800_0000, func, aux0, before, Visited(next, more, made));
          aux, calls := next, calls + made;
          if !more {
            return false, aux, calls;
          }
        } else {
          AbsentSubtree(mem, free, tab, root, Child(here, i), 0x4_0000);
          VisitNone(mem, tab, lo, func, aux);
          ChunkVisited(mem, tab, lo, i * 0x4_0000, 0x4_0000, 0x800_0000, func, aux0, before, Visited(aux, true, []));
        }
        i := i + 1;
      }
      ok := true;
    }

    /** Applies func to every present entry of the whole table, kernel half included. */
    method Pml4ForEach<A>(func: Callback<A>, aux0: A) returns (ok: bool, aux: A, calls: seq<Call>)
      requires Valid()
      ensures Visited(aux, ok, calls) == Visit(Leaves(mem, tab, 0, PAGES), func, aux0)
    {
      hide Tree, Leaves, Entry, Present, PteAddr, Visit;
      ghost var here, lo := ROOT, 0;
      aux, calls := aux0, [];
      VisitNone(mem, tab, lo, func, aux);
      RootFacts(mem, free, tab, root);
      var i := 0;
      while i < WORDS
        invariant 0 <= i <= WORDS
        invariant Visited(aux, true, calls) == Visit(Leaves(mem, tab, lo, i * 0x800_0000), func, aux0)
      {
        TableFacts(mem, free, tab, root, here, i);
        ghost var before := Visited(aux, true, calls);
        var pte := mem[root][i];
        if Present(pte) {
          var more, next, made := PdpForEach(PteAddr(pte) + KERN_BASE, func, aux, i);
          ChunkVisited(mem, tab, lo, i * 0x800_0000, 0x800_0000, PAGES, func, aux0, before, Visited(next, more, made));
          aux, calls := next, calls + made;
          if !more {
            return false, aux, calls;
          }
        } else {
          AbsentSubtree(mem, free, tab, root, Child(here, i), 0x800_0000);
          VisitNone(mem, tab, lo, func, aux);
          ChunkVisited(mem, tab, lo, i * 0x800_0000, 0x800_0000, PAGES, func, aux0, before, Visited(aux, true, []));
        }
        i := i + 1;
      }
      ok := true;
    }

    method PtDestroy(pt: nat, ghost m0: Heap, ghost f0: set<nat>, ghost prefix: nat)
      requires Tree(m0, f0, tab, root) && OwnsFrames(m0, f0, tab)
      requires InSlot0(1, prefix) && TableAt(tab, Pos(1, prefix), pt)
      requires Standing(mem, free, m0, Owned(m0, tab, 1, prefix))
      modifies this`mem, this`free
      ensures Released(old(mem), old(free), mem, free, Owned(m0, tab, 1, prefix))
    {
      hide Tree, OwnsFrames, InSlot0, Present, Owned, Below, Standing, Released, Entry;
      ghost var all, done := Owned(m0, tab, 1, prefix), Below(m0, tab, 1, prefix, 0);
      OwnedParts(m0, f0, tab, root, 1, prefix);
      ReleasedNothing(mem, free, m0, all, m0, tab, 1, prefix);
      var i := 0;
      while i < WORDS
        invariant 0 <= i <= WORDS
        invariant Released(old(mem), old(free), mem, free, Below(m0, tab, 1, prefix, i))
      {
        done := Below(m0, tab, 1, prefix, i);
        BelowGrows(m0, tab, 1, prefix, i, WORDS);
        BelowNext(m0, tab, 1, prefix, i);
        StandingLeft(old(mem), old(free), m0, all, mem, free, done, {pt});
        StandingPage(mem, free, m0, {pt}, pt);
        LeafEntry(m0, f0, tab, root, prefix, i);
        var pte := mem[pt][i];
        if Present(pte) {
          var page := PteAddr(pte) + KERN_BASE;
          Disjoint(m0, f0, tab, root, 1, prefix, i);
          BelowGrows(m0, tab, 1, prefix, i + 1, WORDS);
          StandingLeft(old(mem), old(free), m0, all, mem, free, done, {page});
          FrameInUse(m0, f0, tab, prefix, i);
          StandingPage(mem, free, m0, {page}, page);
          ghost var mem1, free1 := mem, free;
          PallocFreePage(page);
          ReleasedOne(mem1, free1, mem, free, page);
          ReleasedBoth(old(mem), old(free), mem1, free1, mem, free, done, {page});
        } else {
          assert Below(m0, tab, 1, prefix, i + 1) == done;
        }
        i := i + 1;
      }
      done := Below(m0, tab, 1, prefix, WORDS);
      StandingLeft(old(mem), old(free), m0, all, mem, free, done, {pt});
      StandingPage(mem, free, m0, {pt}, pt);
      ghost var mem1, free1 := mem, free;
      PallocFreePage(pt);
      ReleasedOne(mem1, free1, mem, free, pt);
      ReleasedBoth(old(mem), old(free), mem1, free1, mem, free, done, {pt});
    }

    method PgdirDestroy(pdp: nat, ghost m0: Heap, ghost f0: set<nat>, ghost prefix: nat)
      requires Tree(m0, f0, tab, root) && OwnsFrames(m0, f0, tab)
      requires InSlot0(2, prefix) && TableAt(tab, Pos(2, prefix), pdp)
      requires Standing(mem, free, m0, Owned(m0, tab, 2, prefix))
      modifies this`mem, this`free
      ensures Released(old(mem), old(free), mem, free, Owned(m0, tab, 2, prefix))
    {
      hide Tree, OwnsFrames, InSlot0, Present, Owned, Below, Standing, Released, Entry;
      ghost var all, done := Owned(m0, tab, 2, prefix), Below(m0, tab, 2, prefix, 0);
      OwnedParts(m0, f0, tab, root, 2, prefix);
      ReleasedNothing(mem, free, m0, all, m0, tab, 2, prefix);
      var i := 0;
      while i < WORDS
        invariant 0 <= i <= WORDS
        invariant Released(old(mem), old(free), mem, free, Below(m0, tab, 2, prefix, i))
      {
        done := Below(m0, tab, 2, prefix, i);
        BelowGrows(m0, tab, 2, prefix, i, WORDS);
        BelowNext(m0, tab, 2, prefix, i);
        StandingLeft(old(mem), old(free), m0, all, mem, free, done, {pdp});
        StandingPage(mem, free, m0, {pdp}, pdp);
        TableFacts(m0, f0, tab, root, Pos(2, prefix), i);
        var pte := mem[pdp][i];
        ghost var sub := Owned(m0, tab, 1, prefix * 512 + i);
        if Present(pte) {
          Disjoint(m0, f0, tab, root, 2, prefix, i);
          BelowGrows(m0, tab, 2, prefix, i + 1, WORDS);
          StandingLeft(old(mem), old(free), m0, all, mem, free, done, sub);
          SlotChild(2, prefix, i);
          ghost var mem1, free1 := mem, free;
          PtDestroy(PteAddr(pte) + KERN_BASE, m0, f0, prefix * 512 + i);
          ReleasedBoth(old(mem), old(free), mem1, free1, mem, free, done, sub);
        } else {
          OwnedAbsent(m0, tab, 1, prefix * 512 + i);
          assert Below(m0, tab, 2, prefix, i + 1) == done;
        }
        i := i + 1;
      }
      done := Below(m0, tab, 2, prefix, WORDS);
      StandingLeft(old(mem), old(free), m0, all, mem, free, done, {pdp});
      StandingPage(mem, free, m0, {pdp}, pdp);
      ghost var mem1, free1 := mem, free;
      PallocFreePage(pdp);
      ReleasedOne(mem1, free1, mem, free, pdp);
      ReleasedBoth(old(mem), old(free), mem1, free1, mem, free, done, {pdp});
    }

    method PdpeDestroy(pdpe: nat, ghost m0: Heap, ghost f0: set<nat>, ghost prefix: nat)
      requires Tree(m0, f0, tab, root) && OwnsFrames(m0, f0, tab)
      requires InSlot0(3, prefix) && TableAt(tab, Pos(3, prefix), pdpe)
      requires Standing(mem, free, m0, Owned(m0, tab, 3, prefix))
      modifies this`mem, this`free
      ensures Released(old(mem), old(free), mem, free, Owned(m0, tab, 3, prefix))
    {
      hide Tree, OwnsFrames, InSlot0, Present, Owned, Below, Standing, Released, Entry;
      ghost var all, done := Owned(m0, tab, 3, prefix), Below(m0, tab, 3, prefix, 0);
      OwnedParts(m0, f0, tab, root, 3, prefix);
      ReleasedNothing(mem, free, m0, all, m0, tab, 3, prefix);
      var i := 0;
      while i < WORDS
        invariant 0 <= i <= WORDS
        invariant Released(old(mem), old(free), mem, free, Below(m0, tab, 3, prefix, i))
      {
        done := Below(m0, tab, 3, prefix, i);
        BelowGrows(m0, tab, 3, prefix, i, WORDS);
        BelowNext(m0, tab, 3, prefix, i);
        StandingLeft(old(mem), old(free), m0, all, mem, free, done, {pdpe});
        StandingPage(mem, free, m0, {pdpe}, pdpe);
        TableFacts(m0, f0, tab, root, Pos(3, prefix), i);
        var pte := mem[pdpe][i];
        ghost var sub := Owned(m0, tab, 2, prefix * 512 + i);
        if Present(pte) {
          Disjoint(m0, f0, tab, root, 3, prefix, i);
          BelowGrows(m0, tab, 3, prefix, i + 1, WORDS);
          StandingLeft(old(mem), old(free), m0, all, mem, free, done, sub);
          SlotChild(3, prefix, i);
          ghost var mem1, free1 := mem, free;
          PgdirDestroy(PteAddr(pte) + KERN_BASE, m0, f0, prefix * 512 + i);
          ReleasedBoth(old(mem), old(free), mem1, free1, mem, free, done, sub);
        } else {
          OwnedAbsent(m0, tab, 2, prefix * 512 + i);
          assert Below(m0, tab, 3, prefix, i + 1) == done;
        }
        i := i + 1;
      }
      done := Below(m0, tab, 3, prefix, WORDS);
      StandingLeft(old(mem), old(free), m0, all, mem, free, done, {pdpe});
      StandingPage(mem, free, m0, {pdpe}, pdpe);
      ghost var mem1, free1 := mem, free;
      PallocFreePage(pdpe);
      ReleasedOne(mem1, free1, mem, free, pdpe);
      ReleasedBoth(old(mem), old(free), mem1, free1, mem, free, done, {pdpe});
    }

    /** Destroys the table: every table and mapped frame of slot 0 and the root page go back, and nothing else does. */
    method Pml4Destroy()
      requires Valid() && OwnsFrames(mem, free, tab)
      modifies this`mem, this`free
      ensures Released(old(mem), old(free), mem, free, Owned(old(mem), tab, 3, 0) + {root})
    {
      hide Tree, OwnsFrames, Present, Owned, Below, Standing, Released, Entry;
      RootFacts(mem, free, tab, root);
      TableFacts(mem, free, tab, root, ROOT, 0);
      SlotZero(mem, free, tab, root);
      var pdpe := mem[root][0];
      ghost var all := Owned(mem, tab, 3, 0);
      StandingStart(mem, free, tab, root);
      if Present(pdpe) {
        PdpeDestroy(PteAddr(pdpe) + KERN_BASE, mem, free, 0);
      } else {
        OwnedAbsent(mem, tab, 3, 0);
        ReleasedEmpty(mem, free);
      }
      StandingRoot(old(mem), old(free), mem, free, all, root);
      ghost var mem1, free1 := mem, free;
      PallocFreePage(root);
      ReleasedOne(mem1, free1, mem, free, root);
      ReleasedBoth(old(mem), old(free), mem1, free1, mem, free, all, {root});
    }
  }
}
