/** Accesses to one address space as steps of flat memory. */
module FlatMemory {
  import opened PagingState
  import opened Sequences

  /** What an access may meet: memory for page tables, and how far its file transfers go before a bounce buffer is
      missing. */
  datatype Luck = Luck(tableMem: bool, readReach: nat, writeReach: nat)

  datatype Op =
    | ReadOp(addr: nat, luck: Luck)
    | WriteOp(addr: nat, b: Byte, luck: Luck)
    | AllocOp(va: nat, target: Ops, writable: bool, info: Option<FileInfo>)

  /** `pg_round_down` */
  function PageOf(addr: nat): nat { addr - addr % PGSIZE }

  /** An address is on the page it is rounded down to. */
  lemma PageOfHas(addr: nat)
    ensures PageOf(addr) % PGSIZE == 0 && PageOf(addr) <= addr < PageOf(addr) + PGSIZE
    ensures addr % PGSIZE == addr - PageOf(addr)
  { }

  function Stored(m: seq<Byte>, at: nat, b: Byte): seq<Byte> { if at < |m| then m[at := b] else m }

  /** Flat memory: the bytes of page w after a sequence of accesses. */
  function Flat(m: seq<Byte>, ops: seq<Op>, w: nat): seq<Byte> {
    if ops == [] then m else
      var n := |ops| - 1;
      var before := Flat(m, ops[..n], w);
      if ops[n].WriteOp? && PageOf(ops[n].addr) == w then Stored(before, ops[n].addr % PGSIZE, ops[n].b) else before
  }

  ghost predicate Init(s: State, w: nat) {
    w in s.pages && s.pages[w].ops != UninitOps
  }

  ghost predicate IsAnon(s: State, w: nat) {
    w in s.pages && s.pages[w].ops == AnonOps
  }

  /** A page and what it has become. */
  ghost predicate Grows(p: Page, q: Page) {
    && q.info == p.info && q.target == p.target && q.writable == p.writable
    && (q.ops == p.ops || (p.ops == UninitOps && q.ops == p.target))
  }

  ghost predicate SameKinds(s: State, t: State) {
    t.denied == s.denied && s.pages.Keys <= t.pages.Keys && forall w | w in s.pages :: Grows(s.pages[w], t.pages[w])
  }

  /** A dirty file page that cannot reach its file as a whole. */
  ghost predicate Loses(s: State, w: nat, reach: nat) {
    && IsFilePage(s, w) && w in s.table && s.table[w].dirty && s.pages[w].info.Some?
    && Sent(s.denied, s.pages[w].info.value, reach) < s.pages[w].info.value.readBytes
  }

  /** Initialised pages keep their bytes, but for dirty ones that cannot be written back as a whole. */
  ghost predicate Kept(s: State, t: State, reach: nat) {
    && SameKinds(s, t) && t.pages.Keys == s.pages.Keys && Moved(s, s.files, t.files)
    && (forall w | w in s.pages :: t.pages[w].ops == s.pages[w].ops)
    && forall w | Init(s, w) :: Bytes(t, w) == Bytes(s, w) || Loses(s, w, reach)
  }

  /** What a page made from a file holds at its first access: its part of the file and, if it is not backed by it,
      zeros. */
  ghost predicate IsFresh(files: map<nat, seq<Byte>>, p: Page, held: seq<Byte>) {
    p.info.Some?
    && var i := p.info.value;
       && (i.readBytes > 0 ==> i.file in files && i.ofs + i.readBytes <= |files[i.file]|)
       && |held| == (if p.target == FileOps then i.readBytes else PGSIZE) && i.readBytes <= |held|
       && (forall j | 0 <= j < i.readBytes :: held[j] == files[i.file][i.ofs + j])
       && (forall j | i.readBytes <= j < |held| :: held[j] == 0)
  }

  lemma FreshIs(files: map<nat, seq<Byte>>, p: Page, held: seq<Byte>)
    requires p.info.Some? && Readable(files, p.info.value) && p.info.value.readBytes + p.info.value.zeroBytes == PGSIZE
    requires p.target == FileOps ==> p.info.value.readBytes > 0
    requires held == if p.target == FileOps then FileBytes(files, p.info.value) else LoadedBytes(files, p.info.value)
    ensures IsFresh(files, p, held)
  { }

  /** As many bytes as the page keeps */
  ghost predicate HasSize(p: Page, held: seq<Byte>) {
    |held| == if p.target == FileOps && p.info.Some? then p.info.value.readBytes else PGSIZE
  }

  /** Page va has been made resident and holds held: its own bytes, or at first what it was made with. */
  ghost predicate Accessed(s: State, t: State, va: nat, held: seq<Byte>, reach: nat) {
    && SameKinds(s, t) && t.pages.Keys == s.pages.Keys && Moved(s, s.files, t.files) && Init(t, va)
    && HasSize(t.pages[va], held)
    && (forall w | w in s.pages && w != va :: t.pages[w].ops == s.pages[w].ops)
    && (forall w | Init(s, w) && w != va :: Bytes(t, w) == Bytes(s, w) || Loses(s, w, reach))
    && (if Init(s, va) then held == Bytes(s, va) else t.pages[va].info.Some? ==> IsFresh(t.files, t.pages[va], held))
  }

  /** The effect of one operation. */
  ghost predicate Did(s: State, t: State, op: Op, held: seq<Byte>, b: Byte) {
    match op
    case ReadOp(addr, luck) =>
      && Accessed(s, t, PageOf(addr), held, luck.writeReach) && Bytes(t, PageOf(addr)) == held
      && (addr % PGSIZE < |held| ==> b == held[addr % PGSIZE])
    case WriteOp(addr, c, luck) =>
      Accessed(s, t, PageOf(addr), held, luck.writeReach) && Bytes(t, PageOf(addr)) == Stored(held, addr % PGSIZE, c)
    case AllocOp(va, target, writable, info) =>
      if va in s.pages then t == s
      else
        && t == s.(pages := t.pages) && t.pages.Keys == s.pages.Keys + {va}
        && (forall w | w in s.pages :: t.pages[w] == s.pages[w])
        && t.pages[va] == Page(UninitOps, target, None, writable, NO_SLOT, info)
  }

  // ---------------------------------------------------------------- runs

  /** The first contents known after an operation: those of the page it has initialised are added. */
  ghost function Noted(m: map<nat, seq<Byte>>, s: State, op: Op, held: seq<Byte>): map<nat, seq<Byte>> {
    if op.AllocOp? || Init(s, PageOf(op.addr)) then m else m[PageOf(op.addr) := held]
  }

  /** A page that keeps what is written to it: anonymous, or backed by a file that takes all of its writes. */
  ghost predicate Steady(s: State, w: nat, ops: seq<Op>) {
    IsAnon(s, w)
    || (IsFilePage(s, w) && s.pages[w].info.Some?
        && forall i | 0 <= i < |ops| && !ops[i].AllocOp? ::
             Sent(s.denied, s.pages[w].info.value, ops[i].luck.writeReach) == s.pages[w].info.value.readBytes)
  }

  /** No file page but w itself can change the bytes page w is loaded with. */
  ghost predicate Apart(s: State, w: nat) {
    w in s.pages && s.pages[w].info.Some?
    && (s.pages[w].info.value.file in s.denied
        || forall v | v != w && IsFilePage(s, v) && s.pages[v].info.Some? ::
              !Overlap(s.pages[v].info.value, s.pages[w].info.value))
  }

  /** First contents: for a page initialised in s its bytes there, for any other what it was made with. */
  ghost predicate FlatStart(s: State, t: State, m: map<nat, seq<Byte>>) {
    forall w | Init(t, w) ::
      && w in m && HasSize(t.pages[w], m[w])
      && if Init(s, w) then m[w] == Bytes(s, w) else Apart(t, w) ==> IsFresh(s.files, t.pages[w], m[w])
  }

  /** Each initialised page that keeps its writes holds what flat memory holds after ops. */
  ghost predicate FlatState(m: map<nat, seq<Byte>>, t: State, ops: seq<Op>) {
    forall w | Init(t, w) && Steady(t, w, ops) :: w in m && Bytes(t, w) == Flat(m[w], ops, w)
  }

  /** Each read of such a page returned what flat memory held at that moment. */
  ghost predicate FlatReads(m: map<nat, seq<Byte>>, t: State, ops: seq<Op>, results: seq<Byte>) {
    |results| == |ops| && forall i | 0 <= i < |ops| && ops[i].ReadOp? :: FlatRead(m, t, ops, i, results[i])
  }

  ghost predicate FlatRead(m: map<nat, seq<Byte>>, t: State, ops: seq<Op>, i: nat, b: Byte)
    requires i < |ops| && ops[i].ReadOp?
  {
    var w, at := PageOf(ops[i].addr), ops[i].addr % PGSIZE;
    && Init(t, w) && w in m
    && (Steady(t, w, ops[..i]) && at < |m[w]| ==> at < |Flat(m[w], ops[..i], w)| && b == Flat(m[w], ops[..i], w)[at])
  }

  /** Operation i is the first to make page w. */
  ghost predicate Makes(ops: seq<Op>, i: int, w: nat) {
    0 <= i < |ops| && ops[i].AllocOp? && ops[i].va == w && forall j | 0 <= j < i && ops[j].AllocOp? :: ops[j].va != w
  }

  /** The pages of t are those of s and those made since, each with the target, right and file part it was made with. */
  ghost predicate MadeBy(s: State, t: State, ops: seq<Op>) {
    && (forall i | 0 <= i < |ops| && ops[i].AllocOp? :: ops[i].va in t.pages)
    && forall w | w in t.pages && w !in s.pages ::
         exists i :: Makes(ops, i, w) && t.pages[w].target == ops[i].target && t.pages[w].writable == ops[i].writable
                     && t.pages[w].info == ops[i].info
  }

  /** What a run keeps beside: pages come and grow, files change only under file pages, and accessed pages are
      initialised. */
  ghost predicate Since(s: State, t: State, ops: seq<Op>) {
    && SameKinds(s, t) && Moved(t, s.files, t.files) && MadeBy(s, t, ops)
    && forall i | 0 <= i < |ops| && !ops[i].AllocOp? :: Init(t, PageOf(ops[i].addr))
  }

  lemma FlatNothing(s: State, m: map<nat, seq<Byte>>)
    requires forall w | Init(s, w) :: w in m && m[w] == Bytes(s, w) && HasSize(s.pages[w], m[w])
    ensures Since(s, s, []) && FlatStart(s, s, m) && FlatState(m, s, []) && FlatReads(m, s, [], [])
  { }

  /** One operation with its faults and evictions is one step of flat memory. */
  lemma FlatStep(s: State, t: State, u: State, m: map<nat, seq<Byte>>, ops: seq<Op>, op: Op, held: seq<Byte>, b: Byte,
                 results: seq<Byte>)
    requires Since(s, t, ops) && FlatStart(s, t, m) && FlatState(m, t, ops) && FlatReads(m, t, ops, results)
    requires Did(t, u, op, held, b)
    ensures var m' := Noted(m, t, op, held);
            Since(s, u, ops + [op]) && FlatStart(s, u, m') &&
            FlatState(m', u, ops + [op]) && FlatReads(m', u, ops + [op], results + [b])
  {
    hide Bytes, Since, FlatStart, FlatState, FlatReads, Did;
    StepSince(s, t, u, ops, op, held, b);
    StepStart(s, t, u, m, ops, op, held, b);
    StepState(s, t, u, m, ops, op, held, b);
    StepReads(s, t, u, m, ops, op, held, b, results);
  }

  /** Going on from t to u, pages grow and backed bytes stay backed. */
  lemma DidGrows(t: State, u: State, op: Op, held: seq<Byte>, b: Byte)
    requires Did(t, u, op, held, b)
    ensures SameKinds(t, u) && Moved(t, t.files, u.files)
    ensures op.AllocOp? || Init(u, PageOf(op.addr))
    ensures forall w | Init(u, w) :: Init(t, w) || (!op.AllocOp? && w == PageOf(op.addr))
    ensures forall w | Init(t, w) :: u.pages[w].ops == t.pages[w].ops
  {
    hide Bytes, IsFresh;
  }

  lemma GrowsOn(s: State, t: State, u: State)
    requires SameKinds(s, t) && SameKinds(t, u)
    ensures SameKinds(s, u)
  { }

  lemma CoveredOn(t: State, u: State, v: nat, f: nat, at: int)
    requires SameKinds(t, u) && CoveredBy(t, v, f, at)
    ensures CoveredBy(u, v, f, at)
  { }

  lemma MovedOn(s: State, t: State, u: State)
    requires Moved(t, s.files, t.files) && Moved(t, t.files, u.files) && SameKinds(t, u)
    ensures Moved(t, s.files, u.files) && Moved(u, s.files, u.files)
  {
    hide SameKinds, CoveredBy;
    forall f, at | f in s.files && 0 <= at < |s.files[f]| && u.files[f][at] != s.files[f][at]
      ensures exists v :: CoveredBy(t, v, f, at)
      ensures exists v :: CoveredBy(u, v, f, at)
    {
      assert t.files[f][at] != s.files[f][at] || u.files[f][at] != t.files[f][at];
      var v :| CoveredBy(t, v, f, at);
      CoveredOn(t, u, v, f, at);
    }
  }

  lemma StepSince(s: State, t: State, u: State, ops: seq<Op>, op: Op, held: seq<Byte>, b: Byte)
    requires Since(s, t, ops) && Did(t, u, op, held, b)
    ensures Since(s, u, ops + [op])
  {
    hide Did, Moved, SameKinds;
    DidGrows(t, u, op, held, b);
    GrowsOn(s, t, u);
    MovedOn(s, t, u);
    StepMade(s, t, u, ops, op, held, b);
    hide MadeBy;
    forall i | 0 <= i < |ops + [op]| && !(ops + [op])[i].AllocOp?
      ensures Init(u, PageOf((ops + [op])[i].addr))
    {
      InitOn(t, u);
    }
  }

  lemma StepMade(s: State, t: State, u: State, ops: seq<Op>, op: Op, held: seq<Byte>, b: Byte)
    requires MadeBy(s, t, ops) && Did(t, u, op, held, b)
    ensures MadeBy(s, u, ops + [op])
  {
    hide Bytes, Moved, IsFresh, HasSize;
    forall w | w in u.pages && w !in s.pages
      ensures exists i :: Makes(ops + [op], i, w) && u.pages[w].target == (ops + [op])[i].target
                          && u.pages[w].writable == (ops + [op])[i].writable && u.pages[w].info == (ops + [op])[i].info
    {
      if w in t.pages {
        var i :| Makes(ops, i, w) && t.pages[w].target == ops[i].target && t.pages[w].writable == ops[i].writable
                 && t.pages[w].info == ops[i].info;
        assert (ops + [op])[i] == ops[i] && Makes(ops + [op], i, w);
      } else {
        assert Makes(ops + [op], |ops|, w);
      }
    }
  }

  /** A page made with a part of a file, and then accessed for the first time, holds that part and zeros, if no file
      page backs the part and nothing else happens in between. */
  lemma FirstAccess(s: State, t: State, u: State, va: nat, writable: bool, i: FileInfo, op: Op, none: seq<Byte>,
                    held: seq<Byte>, b: Byte, c: Byte)
    requires va !in s.pages && Did(s, t, AllocOp(va, AnonOps, writable, Some(i)), none, c)
    requires !op.AllocOp? && PageOf(op.addr) == va && Did(t, u, op, held, b) && Apart(t, va)
    ensures t.pages[va].writable == writable && |held| == PGSIZE && i.readBytes <= PGSIZE
    ensures i.readBytes > 0 ==> i.file in s.files && i.ofs + i.readBytes <= |s.files[i.file]|
    ensures forall j | 0 <= j < i.readBytes :: held[j] == s.files[i.file][i.ofs + j]
    ensures forall j | i.readBytes <= j < PGSIZE :: held[j] == 0
  {
    hide Bytes, Moved, Apart;
    assert IsFresh(u.files, u.pages[va], held);
    assert Moved(t, s.files, u.files) && !Init(t, va);
    ApartOn(t, u, va, op, held, b);
    FreshThen(s, t, u, va, held);
  }

  lemma ApartOn(t: State, u: State, va: nat, op: Op, held: seq<Byte>, b: Byte)
    requires !op.AllocOp? && PageOf(op.addr) == va && Did(t, u, op, held, b) && Apart(t, va)
    ensures Apart(u, va)
  {
    hide Bytes, Moved, IsFresh;
  }

  lemma InitOn(t: State, u: State)
    requires SameKinds(t, u)
    ensures forall w | Init(t, w) && t.pages[w].target != UninitOps :: Init(u, w)
    ensures forall w | Init(t, w) :: Init(u, w)
  { }

  /** The bytes a page is loaded with at first are those of the start, unless another file page backs them. */
  lemma FreshThen(s: State, t: State, u: State, va: nat, held: seq<Byte>)
    requires Moved(t, s.files, u.files) && SameKinds(t, u) && va in u.pages && !Init(t, va)
    requires IsFresh(u.files, u.pages[va], held) && Apart(u, va)
    ensures IsFresh(s.files, u.pages[va], held)
  {
    var i := u.pages[va].info.value;
    if i.readBytes > 0 {
      assert i.file in s.files && |s.files[i.file]| == |u.files[i.file]|;
      forall at | i.ofs <= at < i.ofs + i.readBytes
        ensures u.files[i.file][at] == s.files[i.file][at]
      {
        if u.files[i.file][at] != s.files[i.file][at] {
          var v :| CoveredBy(t, v, i.file, at);
          CoveredOn(t, u, v, i.file, at);
          assert v != va && Overlap(u.pages[v].info.value, i);
        }
      }
    }
  }

  lemma ApartBefore(t: State, u: State, w: nat)
    requires SameKinds(t, u) && w in t.pages && Apart(u, w)
    ensures Apart(t, w)
  { }

  lemma StepStart(s: State, t: State, u: State, m: map<nat, seq<Byte>>, ops: seq<Op>, op: Op, held: seq<Byte>, b: Byte)
    requires Since(s, t, ops) && FlatStart(s, t, m) && Did(t, u, op, held, b)
    ensures FlatStart(s, u, Noted(m, t, op, held))
  {
    hide Bytes, Moved, SameKinds, Apart, IsFresh;
    DidGrows(t, u, op, held, b);
    MovedOn(s, t, u);
    forall w | Init(u, w)
      ensures var m' := Noted(m, t, op, held);
              && w in m' && HasSize(u.pages[w], m'[w])
              && if Init(s, w) then m'[w] == Bytes(s, w) else Apart(u, w) ==> IsFresh(s.files, u.pages[w], m'[w])
    {
      if Init(t, w) {
        StartKept(s, t, u, m, w);
      } else {
        StartNoted(s, t, u, op, held, b);
      }
    }
  }

  lemma StartKept(s: State, t: State, u: State, m: map<nat, seq<Byte>>, w: nat)
    requires FlatStart(s, t, m) && SameKinds(t, u) && Init(t, w)
    ensures w in m && w in u.pages && HasSize(u.pages[w], m[w])
    ensures if Init(s, w) then m[w] == Bytes(s, w) else Apart(u, w) ==> IsFresh(s.files, u.pages[w], m[w])
  {
    hide Bytes, Apart;
    if Apart(u, w) {
      ApartBefore(t, u, w);
    }
  }

  lemma StartNoted(s: State, t: State, u: State, op: Op, held: seq<Byte>, b: Byte)
    requires SameKinds(s, t) && Did(t, u, op, held, b) && !op.AllocOp? && !Init(t, PageOf(op.addr))
    requires SameKinds(t, u) && Moved(t, s.files, u.files)
    ensures var w := PageOf(op.addr);
            !Init(s, w) && w in u.pages && HasSize(u.pages[w], held) && (Apart(u, w) ==> IsFresh(s.files, u.pages[w], held))
  {
    hide Bytes, Moved, IsFresh;
    var w := PageOf(op.addr);
    if Apart(u, w) {
      FreshThen(s, t, u, w, held);
    }
  }

  /** Operations that never touch a page leave its flat memory alone. */
  lemma {:induction false} FlatUntouched(m: seq<Byte>, ops: seq<Op>, w: nat)
    requires forall i | 0 <= i < |ops| && !ops[i].AllocOp? :: PageOf(ops[i].addr) != w
    ensures Flat(m, ops, w) == m
  {
    if ops != [] {
      FlatUntouched(m, ops[..|ops| - 1], w);
    }
  }

  lemma {:induction false} FlatSize(m: seq<Byte>, ops: seq<Op>, w: nat)
    ensures |Flat(m, ops, w)| == |m|
  {
    if ops != [] {
      FlatSize(m, ops[..|ops| - 1], w);
    }
  }

  lemma FlatAppend(m: seq<Byte>, ops: seq<Op>, op: Op, w: nat)
    ensures Flat(m, ops + [op], w) ==
            if op.WriteOp? && PageOf(op.addr) == w then Stored(Flat(m, ops, w), op.addr % PGSIZE, op.b) else Flat(m, ops, w)
  {
    assert (ops + [op])[..|ops|] == ops;
  }

  lemma SteadyBefore(t: State, u: State, w: nat, ops: seq<Op>, op: Op)
    requires SameKinds(t, u) && Init(t, w) && Steady(u, w, ops + [op])
    ensures Steady(t, w, ops) && (!op.AllocOp? ==> !Loses(t, w, op.luck.writeReach))
  {
    assert forall i | 0 <= i < |ops| :: (ops + [op])[i] == ops[i];
    assert (ops + [op])[|ops|] == op;
  }

  lemma StepState(s: State, t: State, u: State, m: map<nat, seq<Byte>>, ops: seq<Op>, op: Op, held: seq<Byte>, b: Byte)
    requires Since(s, t, ops) && FlatStart(s, t, m) && FlatState(m, t, ops) && Did(t, u, op, held, b)
    ensures FlatState(Noted(m, t, op, held), u, ops + [op])
  {
    hide Bytes, Moved, SameKinds, Steady, IsFresh, FlatStart, HasSize, Loses;
    DidGrows(t, u, op, held, b);
    var m' := Noted(m, t, op, held);
    forall w | Init(u, w) && Steady(u, w, ops + [op])
      ensures w in m' && Bytes(u, w) == Flat(m'[w], ops + [op], w)
    {
      if Init(t, w) {
        SteadyBefore(t, u, w, ops, op);
        PageDid(t, u, op, held, b, w);
        FlatAppend(m[w], ops, op, w);
      } else {
        FlatUntouched(held, ops, w);
        FlatAppend(held, ops, op, w);
      }
    }
  }

  /** What an operation does to one initialised page. */
  lemma PageDid(t: State, u: State, op: Op, held: seq<Byte>, b: Byte, w: nat)
    requires Did(t, u, op, held, b) && Init(t, w) && (!op.AllocOp? ==> !Loses(t, w, op.luck.writeReach))
    ensures Bytes(u, w) == if op.WriteOp? && PageOf(op.addr) == w then Stored(Bytes(t, w), op.addr % PGSIZE, op.b)
              else Bytes(t, w)
    ensures !op.AllocOp? && PageOf(op.addr) == w ==> held == Bytes(t, w)
  {
    hide Moved, SameKinds, IsFresh, Loses, HasSize;
    if op.AllocOp? {
      SameDescriptor(t, u, w);
    }
    hide Bytes;
  }

  lemma SameDescriptor(t: State, u: State, w: nat)
    requires w in t.pages && w in u.pages && u == t.(pages := u.pages) && u.pages[w] == t.pages[w]
    ensures Bytes(u, w) == Bytes(t, w)
  { }

  lemma StepReads(s: State, t: State, u: State, m: map<nat, seq<Byte>>, ops: seq<Op>, op: Op, held: seq<Byte>, b: Byte,
                  results: seq<Byte>)
    requires Since(s, t, ops) && FlatStart(s, t, m) && FlatState(m, t, ops) && FlatReads(m, t, ops, results)
    requires Did(t, u, op, held, b)
    ensures FlatReads(Noted(m, t, op, held), u, ops + [op], results + [b])
  {
    hide Bytes, Moved, SameKinds, Steady, IsFresh, FlatStart, FlatState, HasSize, Loses, Did, Since, FlatRead;
    var m' := Noted(m, t, op, held);
    forall i | 0 <= i < |ops + [op]| && (ops + [op])[i].ReadOp?
      ensures FlatRead(m', u, ops + [op], i, (results + [b])[i])
    {
      if i < |ops| {
        assert FlatRead(m, t, ops, i, results[i]);
        OldRead(t, u, m, ops, op, held, b, i, results[i]);
      } else {
        NewRead(s, t, u, m, ops, op, held, b);
      }
    }
  }

  lemma OldRead(t: State, u: State, m: map<nat, seq<Byte>>, ops: seq<Op>, op: Op, held: seq<Byte>, b: Byte, i: nat,
                r: Byte)
    requires i < |ops| && ops[i].ReadOp? && FlatRead(m, t, ops, i, r) && Did(t, u, op, held, b)
    ensures FlatRead(Noted(m, t, op, held), u, ops + [op], i, r)
  {
    hide Bytes, Did, Flat;
    DidGrows(t, u, op, held, b);
    assert (ops + [op])[..i] == ops[..i];
    var w := PageOf(ops[i].addr);
    assert Steady(u, w, ops[..i]) ==> Steady(t, w, ops[..i]);
  }

  lemma NewRead(s: State, t: State, u: State, m: map<nat, seq<Byte>>, ops: seq<Op>, op: Op, held: seq<Byte>, b: Byte)
    requires Since(s, t, ops) && FlatStart(s, t, m) && FlatState(m, t, ops) && Did(t, u, op, held, b) && op.ReadOp?
    ensures FlatRead(Noted(m, t, op, held), u, ops + [op], |ops|, b)
  {
    hide Bytes, Moved, IsFresh, Flat;
    DidGrows(t, u, op, held, b);
    assert (ops + [op])[..|ops|] == ops;
    var w := PageOf(op.addr);
    if Init(t, w) {
      assert held == Bytes(t, w);
      assert Steady(u, w, ops) ==> Steady(t, w, ops);
      FlatSize(m[w], ops, w);
    } else {
      FlatUntouched(held, ops, w);
    }
  }
}
