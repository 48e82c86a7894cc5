/** The state behind one address space: pages, frames, swap and files, and what its steps keep. */
module PagingState {
  import opened Sequences

  type Byte = bv8
  const PGSIZE: nat := 4096
  const SECTOR: nat := 512
  const NO_SLOT: int := -1

  datatype Ops = UninitOps | AnonOps | FileOps

  /** `struct file_info`: where a lazily loaded page's first bytes are; the rest is zero. */
  datatype FileInfo = FileInfo(file: nat, ofs: nat, readBytes: nat, zeroBytes: nat)

  /** `struct page`. The target is the operations table it gets on its first fault. */
  datatype Page = Page(ops: Ops, target: Ops, frame: Option<nat>, writable: bool, slot: int, info: Option<FileInfo>)

  /** A present page-table entry. */
  datatype Pte = Pte(kva: nat, writable: bool, dirty: bool)

  datatype State = State(
    pages: map<nat, Page>,            // the supplemental page table, by user address
    frames: map<nat, Option<nat>>,    // `struct frame` by kernel address, with its back link to a page
    frameList: seq<nat>,
    free: set<nat>,                   // frames the user pool can still hand out
    memory: map<nat, seq<Byte>>,
    table: map<nat, Pte>,
    stale: map<nat, Pte>,             // what clearing the present bit has left in other entries
    tabled: set<nat>,                 // addresses whose leaf page table exists
    swapMap: seq<bool>,
    swapDisk: seq<seq<Byte>>,         // sectors
    files: map<nat, seq<Byte>>,
    denied: set<nat>)                 // files whose inode denies writes

  // ---------------------------------------------------------------- what a page holds

  function Slot(disk: seq<seq<Byte>>, n: nat): seq<Byte>
    requires 8 * n + 8 <= |disk|
  {
    Concat(disk[8 * n..8 * n + 8])
  }

  function Concat(s: seq<seq<Byte>>): seq<Byte> {
    if s == [] then [] else Concat(s[..|s| - 1]) + s[|s| - 1]
  }

  ghost predicate InfoFits(s: State, i: FileInfo) {
    i.readBytes + i.zeroBytes == PGSIZE && i.file in s.files && i.ofs + i.readBytes <= |s.files[i.file]|
  }

  function FileBytes(files: map<nat, seq<Byte>>, i: FileInfo): seq<Byte>
    requires i.file in files && i.ofs + i.readBytes <= |files[i.file]|
  {
    files[i.file][i.ofs..i.ofs + i.readBytes]
  }

  /** The file has all the bytes the page is to be loaded with. */
  predicate Readable(files: map<nat, seq<Byte>>, i: FileInfo) {
    i.readBytes == 0 || (i.file in files && i.ofs + i.readBytes <= |files[i.file]|)
  }

  function LoadedBytes(files: map<nat, seq<Byte>>, i: FileInfo): seq<Byte>
    requires Readable(files, i)
  {
    (if i.readBytes == 0 then [] else FileBytes(files, i)) + Zeros(i.zeroBytes)
  }

  function Zeros(n: nat): seq<Byte> { seq(n, _ => 0) }

  predicate Overlap(i: FileInfo, j: FileInfo) {
    i.file == j.file && i.ofs < j.ofs + j.readBytes && j.ofs < i.ofs + i.readBytes
  }

  // ---------------------------------------------------------------- the invariant

  /** Frames: the pool is split into free pages and the frame list; all but the spare one are linked to a page and
      back. */
  ghost predicate FramesOk(s: State, spare: Option<nat>) {
    && Distinct(s.frameList)
    && (forall k :: k in s.frameList <==> k in s.frames)
    && s.free !! s.frames.Keys && s.memory.Keys == s.free + s.frames.Keys && s.memory.Keys != {}
    && (forall k | k in s.memory :: |s.memory[k]| == PGSIZE)
    && (forall k | k in s.frames ::
          if spare == Some(k) then s.frames[k] == None
          else s.frames[k].Some? && s.frames[k].value in s.pages && s.pages[s.frames[k].value].frame == Some(k))
  }

  /** Pages: a resident page is initialised, linked to its frame and mapped there; no other page is mapped. */
  ghost predicate LinksOk(s: State) {
    && (forall va | va in s.pages && s.pages[va].frame.Some? ::
          && s.pages[va].ops != UninitOps
          && s.pages[va].frame.value in s.frames && s.frames[s.pages[va].frame.value] == Some(va))
    && (forall va :: va in s.table <==> va in s.pages && s.pages[va].frame.Some?)
    && (forall va | va in s.table ::
          s.pages[va].frame == Some(s.table[va].kva) && s.table[va].writable == s.pages[va].writable)
    && (forall va | va in s.pages && s.pages[va].ops != UninitOps :: va in s.tabled)
  }

  ghost predicate SwappedOut(s: State, va: nat) {
    va in s.pages && s.pages[va].ops == AnonOps && s.pages[va].frame == None
  }

  /** Swap: swapped-out pages hold distinct slots whose bits are set. */
  ghost predicate SwapOk(s: State) {
    && 8 * |s.swapMap| <= |s.swapDisk| && (forall i | 0 <= i < |s.swapDisk| :: |s.swapDisk[i]| == SECTOR)
    && (forall va | SwappedOut(s, va) :: 0 <= s.pages[va].slot < |s.swapMap| && s.swapMap[s.pages[va].slot])
    && (forall va, vb | SwappedOut(s, va) && SwappedOut(s, vb) && s.pages[va].slot == s.pages[vb].slot :: va == vb)
  }

  ghost predicate IsFilePage(s: State, va: nat) {
    va in s.pages && s.pages[va].ops == FileOps
  }

  /** A page has a kind it will keep; a file page knows its file. */
  predicate KindOk(p: Page) {
    && p.target != UninitOps && (p.ops == UninitOps || p.ops == p.target)
    && (p.target == FileOps ==> p.info.Some? && p.info.value.readBytes > 0)
    && (p.info.Some? ==> p.info.value.readBytes + p.info.value.zeroBytes == PGSIZE)
  }

  /** A file page's part lies within the file, and while the page is resident and clean it agrees with it. */
  ghost predicate FilePageOk(s: State, va: nat)
    requires IsFilePage(s, va) && s.pages[va].info.Some?
  {
    var i := s.pages[va].info.value;
    && InfoFits(s, i)
    && (va in s.table && !s.table[va].dirty ==>
          var k := s.table[va].kva;
          k in s.memory && i.readBytes <= |s.memory[k]| && s.memory[k][..i.readBytes] == FileBytes(s.files, i))
  }

  predicate Rivals(pages: map<nat, Page>, va: nat, vb: nat) {
    && va in pages && vb in pages && va != vb
    && pages[va].target == FileOps && pages[va].info.Some? && pages[vb].target == FileOps && pages[vb].info.Some?
  }

  /** No two file-backed pages have a byte of the same file in common. */
  predicate NoOverlap(pages: map<nat, Page>) {
    forall va, vb | va in pages && vb in pages && Rivals(pages, va, vb) :: !Overlap(pages[va].info.value, pages[vb].info.value)
  }

  ghost predicate FilesOk(s: State) {
    && (forall va | va in s.pages :: KindOk(s.pages[va]))
    && (forall va | IsFilePage(s, va) :: FilePageOk(s, va))
    && (forall va | va in s.stale && IsFilePage(s, va) :: !s.stale[va].dirty)
  }

  /** All of the invariant that does not depend on what other pages are backed by. */
  ghost predicate InvAlone(s: State, spare: Option<nat>) {
    FramesOk(s, spare) && LinksOk(s) && SwapOk(s) && FilesOk(s)
  }

  ghost predicate Inv(s: State, spare: Option<nat>) {
    InvAlone(s, spare) && NoOverlap(s.pages)
  }

  /** `pml4_is_dirty`: the dirty bit of the page's entry, present or not. */
  predicate IsDirty(s: State, va: nat) {
    (va in s.table && s.table[va].dirty) || (va !in s.table && va in s.stale && s.stale[va].dirty)
  }

  /** A file page with its dirty bit set is resident. */
  lemma DirtyIsResident(s: State, spare: Option<nat>, va: nat)
    requires Inv(s, spare) && IsFilePage(s, va) && IsDirty(s, va)
    ensures s.pages[va].frame.Some? && va in s.table && s.table[va].dirty
  { }

  /** The bytes an initialised page holds, wherever they are: all of an anonymous page, the file part of a file page. */
  ghost function Bytes(s: State, va: nat): seq<Byte> {
    if va !in s.pages then [] else
      var p := s.pages[va];
      match p.ops
      case UninitOps => []
      case AnonOps =>
        if p.frame.Some? && p.frame.value in s.memory then s.memory[p.frame.value]
        else if 0 <= p.slot && 8 * p.slot + 8 <= |s.swapDisk| then Slot(s.swapDisk, p.slot) else []
      case FileOps =>
        if p.info == None || p.info.value.file !in s.files then [] else
          var i := p.info.value;
          if p.frame.Some? && p.frame.value in s.memory && i.readBytes <= |s.memory[p.frame.value]|
          then s.memory[p.frame.value][..i.readBytes]
          else if i.ofs + i.readBytes <= |s.files[i.file]| then FileBytes(s.files, i) else []
  }

  /** No initialised page but the one at va changes its bytes, and no page appears, goes or changes kind. */
  ghost predicate SameBytesBut(s: State, t: State, va: nat) {
    && t.pages.Keys == s.pages.Keys
    && (forall w | w in s.pages && w != va :: t.pages[w].ops == s.pages[w].ops && Bytes(t, w) == Bytes(s, w))
  }

  // ---------------------------------------------------------------- taking a fresh frame

  function WithNewFrame(s: State, k: nat): State {
    s.(free := s.free - {k}, frames := s.frames[k := None], frameList := s.frameList + [k])
  }

  lemma NewFrameFrames(s: State, k: nat)
    requires FramesOk(s, None) && k in s.free
    ensures FramesOk(WithNewFrame(s, k), Some(k))
  {
    var t := WithNewFrame(s, k);
    assert k !in s.frames;
    assert s.memory.Keys == t.free + t.frames.Keys;
    assert forall j :: j in t.frameList <==> j in s.frameList || j == k;
  }

  lemma NewFrameLinks(s: State, k: nat)
    requires FramesOk(s, None) && LinksOk(s) && k in s.free
    ensures LinksOk(WithNewFrame(s, k))
  { }

  lemma NewFrame(s: State, k: nat)
    requires Inv(s, None) && k in s.free
    ensures Inv(WithNewFrame(s, k), Some(k))
    ensures forall w :: Bytes(WithNewFrame(s, k), w) == Bytes(s, w)
  {
    hide FramesOk, LinksOk, SwapOk, FilesOk, Bytes;
    var t := WithNewFrame(s, k);
    NewFrameFrames(s, k);
    NewFrameLinks(s, k);
    SameSwap(s, t);
    SameFiles(s, t);
    forall w
      ensures Bytes(t, w) == Bytes(s, w)
    {
      SamePlaces(s, t, w);
    }
  }

  lemma SameSwap(s: State, t: State)
    requires SwapOk(s) && t.pages == s.pages && t.swapMap == s.swapMap && t.swapDisk == s.swapDisk
    ensures SwapOk(t)
  { }

  lemma SameFiles(s: State, t: State)
    requires FilesOk(s) && t.pages == s.pages && t.files == s.files && t.table == s.table && t.stale == s.stale
    requires t.memory == s.memory
    ensures FilesOk(t)
  {
    forall va | IsFilePage(t, va)
      ensures FilePageOk(t, va)
    {
      assert IsFilePage(s, va) && FilePageOk(s, va);
    }
  }

  lemma SamePlaces(s: State, t: State, w: nat)
    requires t.pages == s.pages && t.swapDisk == s.swapDisk && t.files == s.files && t.memory == s.memory
    ensures Bytes(t, w) == Bytes(s, w)
  { }

  // ---------------------------------------------------------------- claiming

  /** What a page is after it has been claimed: an uninitialised page becomes its target kind, once. */
  function ClaimedOps(p: Page): Ops { if p.ops == UninitOps then p.target else p.ops }

  /** Page va linked to the spare frame k, mapped there, and the frame filled with content. */
  function WithClaimed(s: State, va: nat, k: nat, content: seq<Byte>): State
    requires va in s.pages
    requires s.pages[va].ops == AnonOps ==> 0 <= s.pages[va].slot < |s.swapMap|
  {
    var p := s.pages[va];
    var ops := ClaimedOps(p);
    s.(pages := s.pages[va := p.(ops := ops, frame := Some(k), slot := if ops == AnonOps then NO_SLOT else p.slot)],
       frames := s.frames[k := Some(va)],
       table := s.table[va := Pte(k, p.writable, false)],
       stale := s.stale - {va},
       tabled := s.tabled + {va},
       memory := s.memory[k := content],
       swapMap := if p.ops == AnonOps then s.swapMap[p.slot := false] else s.swapMap)
  }

  /** What is loaded into a file page is its part of the file. */
  ghost predicate FileContent(s: State, va: nat, content: seq<Byte>)
    requires va in s.pages && |content| == PGSIZE
  {
    ClaimedOps(s.pages[va]) == FileOps ==>
      && s.pages[va].info.Some? && InfoFits(s, s.pages[va].info.value)
      && content[..s.pages[va].info.value.readBytes] == FileBytes(s.files, s.pages[va].info.value)
  }

  ghost predicate CanClaim(s: State, va: nat, k: nat, content: seq<Byte>) {
    && Inv(s, Some(k)) && k in s.frames && va in s.pages && s.pages[va].frame == None
    && |content| == PGSIZE && FileContent(s, va, content)
  }

  lemma ClaimFrames(s: State, va: nat, k: nat, content: seq<Byte>)
    requires FramesOk(s, Some(k)) && k in s.frames && va in s.pages && s.pages[va].frame == None && |content| == PGSIZE
    requires s.pages[va].ops == AnonOps ==> 0 <= s.pages[va].slot < |s.swapMap|
    ensures FramesOk(WithClaimed(s, va, k, content), None)
  {
    var t := WithClaimed(s, va, k, content);
    assert t.memory.Keys == s.memory.Keys && t.frames.Keys == s.frames.Keys;
  }

  lemma ClaimLinks(s: State, va: nat, k: nat, content: seq<Byte>)
    requires LinksOk(s) && k in s.frames && s.frames[k] == None && va in s.pages && s.pages[va].frame == None
    requires s.pages[va].target != UninitOps
    requires s.pages[va].ops == AnonOps ==> 0 <= s.pages[va].slot < |s.swapMap|
    ensures LinksOk(WithClaimed(s, va, k, content))
  {
  }

  lemma ClaimSwap(s: State, va: nat, k: nat, content: seq<Byte>)
    requires SwapOk(s) && va in s.pages && s.pages[va].frame == None
    requires s.pages[va].ops == AnonOps ==> SwappedOut(s, va)
    ensures s.pages[va].ops == AnonOps ==> 0 <= s.pages[va].slot < |s.swapMap|
    ensures SwapOk(WithClaimed(s, va, k, content))
  {
    var t := WithClaimed(s, va, k, content);
    assert forall w | SwappedOut(t, w) :: w != va && SwappedOut(s, w) && t.pages[w] == s.pages[w];
  }

  lemma ClaimFiles(s: State, va: nat, k: nat, content: seq<Byte>)
    requires FilesOk(s) && va in s.pages && s.pages[va].frame == None && |content| == PGSIZE
    requires FileContent(s, va, content) && forall w | w in s.table :: s.table[w].kva != k
    requires s.pages[va].ops == AnonOps ==> 0 <= s.pages[va].slot < |s.swapMap|
    ensures FilesOk(WithClaimed(s, va, k, content))
  {
    var t := WithClaimed(s, va, k, content);
    assert KindOk(s.pages[va]);
    forall w | IsFilePage(t, w)
      ensures FilePageOk(t, w)
    {
      if w != va {
        assert IsFilePage(s, w) && FilePageOk(s, w);
      }
    }
  }

  /** Nothing is mapped to the spare frame. */
  lemma SpareUnmapped(s: State, k: nat)
    requires FramesOk(s, Some(k)) && LinksOk(s) && k in s.frames
    ensures s.frames[k] == None
    ensures forall w | w in s.pages :: s.pages[w].frame != Some(k)
    ensures forall w | w in s.table :: s.table[w].kva != k
  { }

  /** Claiming keeps the invariant and every other page's bytes, and puts the content in the page. */
  lemma Claim(s: State, va: nat, k: nat, content: seq<Byte>)
    requires CanClaim(s, va, k, content)
    ensures s.pages[va].ops == AnonOps ==> 0 <= s.pages[va].slot < |s.swapMap|
    ensures var t := WithClaimed(s, va, k, content);
            && Inv(t, None) && SameBytesBut(s, t, va) && t.pages[va].ops == ClaimedOps(s.pages[va])
            && Bytes(t, va) == if t.pages[va].ops == AnonOps then content
              else FileBytes(s.files, s.pages[va].info.value)
  {
    hide FramesOk, LinksOk, SwapOk, FilesOk, NoOverlap, Bytes, KindOk, FileContent;
    KindOf(s, va);
    ClaimSwap(s, va, k, content);
    SpareUnmapped(s, k);
    ClaimFrames(s, va, k, content);
    ClaimLinks(s, va, k, content);
    ClaimFiles(s, va, k, content);
    ClaimBytes(s, va, k, content);
    ClaimOthers(s, WithClaimed(s, va, k, content), va, k);
    SameRivals(s.pages, WithClaimed(s, va, k, content).pages);
  }

  lemma ClaimOthers(s: State, t: State, va: nat, k: nat)
    requires t.pages.Keys == s.pages.Keys && forall w | w in s.pages && w != va :: t.pages[w] == s.pages[w]
    requires forall w | w in s.pages :: s.pages[w].frame != Some(k)
    requires t.swapDisk == s.swapDisk && t.files == s.files && k in t.memory && t.memory == s.memory[k := t.memory[k]]
    ensures SameBytesBut(s, t, va)
  {
    hide Bytes;
    forall w | w in s.pages && w != va
      ensures Bytes(t, w) == Bytes(s, w)
    {
      SamePlace(s, t, w, k);
    }
  }

  lemma KindOf(s: State, va: nat)
    requires FilesOk(s) && va in s.pages
    ensures KindOk(s.pages[va]) && s.pages[va].target != UninitOps
  { }

  lemma ClaimBytes(s: State, va: nat, k: nat, content: seq<Byte>)
    requires va in s.pages && KindOk(s.pages[va]) && |content| == PGSIZE && FileContent(s, va, content)
    requires s.pages[va].ops == AnonOps ==> 0 <= s.pages[va].slot < |s.swapMap|
    ensures var t := WithClaimed(s, va, k, content);
            Bytes(t, va) == if t.pages[va].ops == AnonOps then content else FileBytes(s.files, s.pages[va].info.value)
  { }

  /** A page that is not in frame k does not see what happens there. */
  lemma SamePlace(s: State, t: State, w: nat, k: nat)
    requires w in s.pages && w in t.pages && t.pages[w] == s.pages[w] && s.pages[w].frame != Some(k)
    requires t.swapDisk == s.swapDisk && t.files == s.files && k in t.memory && t.memory == s.memory[k := t.memory[k]]
    ensures Bytes(t, w) == Bytes(s, w)
  { }

  // ---------------------------------------------------------------- evicting

  /** The page at the front of the frame list, unlinked and unmapped; its frame is spare and moves to the back. */
  function WithEvicted(s: State, va: nat, k: nat): State
    requires va in s.pages && s.frameList != [] && va in s.table
  {
    s.(stale := s.stale[va := Left(s.table[va], s.pages[va].ops)],
       pages := s.pages[va := s.pages[va].(frame := None)],
       frames := s.frames[k := None],
       frameList := s.frameList[1..] + [k],
       table := s.table - {va})
  }

  /** What stays of an entry: a file page's dirty bit is cleared first. */
  function Left(e: Pte, ops: Ops): Pte { if ops == FileOps then e.(dirty := false) else e }

  ghost predicate CanEvict(s: State, va: nat, k: nat) {
    Inv(s, None) && s.frameList != [] && k == s.frameList[0] && k in s.frames && s.frames[k] == Some(va) && va in s.pages
  }

  /** An evicted anonymous page: its bytes are in slot n, which is now taken. */
  function WithSwappedOut(s: State, va: nat, k: nat, n: nat, disk: seq<seq<Byte>>): State
    requires va in s.pages && s.frameList != [] && va in s.table && n < |s.swapMap|
  {
    var t := WithEvicted(s, va, k);
    t.(pages := t.pages[va := t.pages[va].(slot := n)], swapMap := s.swapMap[n := true], swapDisk := disk)
  }

  /** Disk holds bytes in slot n and is otherwise the same. */
  ghost predicate SlotWritten(s: State, n: nat, disk: seq<seq<Byte>>, bytes: seq<Byte>) {
    && 8 * n + 8 <= |s.swapDisk| == |disk| && (forall i | 0 <= i < |disk| :: |disk[i]| == SECTOR)
    && (forall i | 0 <= i < |disk| && !(8 * n <= i < 8 * n + 8) :: disk[i] == s.swapDisk[i])
    && Slot(disk, n) == bytes
  }

  /** A file with bytes written at an offset. */
  function Patched(f: seq<Byte>, ofs: nat, bytes: seq<Byte>): seq<Byte>
    requires ofs + |bytes| <= |f|
  {
    f[..ofs] + bytes + f[ofs + |bytes|..]
  }

  /** How many bytes of a dirty page `file_write_at` puts in the file: none if writes are denied, and no more than its
      bounce buffers last. */
  function Sent(denied: set<nat>, i: FileInfo, reach: nat): (n: nat)
    ensures n <= i.readBytes
  {
    if i.file in denied then 0 else if reach < i.readBytes then reach else i.readBytes
  }

  /** The files after a file page is evicted: a dirty one is written back as far as it goes. */
  ghost predicate WrittenBack(s: State, va: nat, reach: nat, files: map<nat, seq<Byte>>) {
    va in s.pages && va in s.table && s.pages[va].info.Some?
    && var i := s.pages[va].info.value;
       var k := s.table[va].kva;
       InfoFits(s, i) && k in s.memory && i.readBytes <= |s.memory[k]|
       && files == if s.table[va].dirty
                   then s.files[i.file := Patched(s.files[i.file], i.ofs, s.memory[k][..Sent(s.denied, i, reach)])]
                   else s.files
  }

  lemma Rotated(list: seq<nat>)
    requires list != [] && Distinct(list)
    ensures Distinct(list[1..] + [list[0]]) && forall k :: k in list[1..] + [list[0]] <==> k in list
  { }

  lemma EvictFrames(s: State, va: nat, k: nat)
    requires FramesOk(s, None) && s.frameList != [] && k == s.frameList[0] && va in s.pages && va in s.table
    requires k in s.frames && s.frames[k] == Some(va) && s.pages[va].frame == Some(k)
    ensures FramesOk(WithEvicted(s, va, k), Some(k))
  {
    var t := WithEvicted(s, va, k);
    assert t.frames.Keys == s.frames.Keys;
    Rotated(s.frameList);
    hide Distinct;
    forall j | j in t.frames && j != k
      ensures t.frames[j].Some? && t.frames[j].value in t.pages && t.pages[t.frames[j].value].frame == Some(j)
    {
      assert s.frames[j] != Some(va);
    }
  }

  lemma EvictLinks(s: State, va: nat, k: nat)
    requires LinksOk(s) && s.frameList != [] && va in s.pages && va in s.table && s.pages[va].frame == Some(k)
    ensures LinksOk(WithEvicted(s, va, k))
  {
  }

  /** The evicted page is initialised, linked back and mapped. */
  lemma VictimFacts(s: State, va: nat, k: nat)
    requires FramesOk(s, None) && LinksOk(s) && s.frameList != [] && k == s.frameList[0] && k in s.frames
    requires s.frames[k] == Some(va)
    ensures va in s.pages && s.pages[va].frame == Some(k) && s.pages[va].ops != UninitOps
    ensures va in s.table && s.table[va].kva == k && k in s.memory && |s.memory[k]| == PGSIZE
    ensures forall w | w in s.pages && w != va :: s.pages[w].frame != Some(k)
    ensures forall w | w in s.table && w != va :: s.table[w].kva != k
  {
  }

  lemma SwapOutSwap(s: State, va: nat, k: nat, n: nat, disk: seq<seq<Byte>>, bytes: seq<Byte>)
    requires SwapOk(s) && s.frameList != [] && va in s.pages && va in s.table && s.pages[va].ops == AnonOps
    requires n < |s.swapMap| && !s.swapMap[n] && SlotWritten(s, n, disk, bytes)
    ensures SwapOk(WithSwappedOut(s, va, k, n, disk))
  {
    var t := WithSwappedOut(s, va, k, n, disk);
    assert forall w | SwappedOut(t, w) && w != va :: SwappedOut(s, w) && t.pages[w] == s.pages[w];
  }

  lemma EvictFilesOk(s: State, t: State, va: nat)
    requires FilesOk(s) && va in s.pages && t.memory == s.memory && t.files == s.files
    requires t.pages.Keys == s.pages.Keys && t.table == s.table - {va} && va in t.stale
    requires t.stale == s.stale[va := t.stale[va]]
    requires s.pages[va].ops == AnonOps && forall w | w in s.pages :: SameKind(s.pages[w], t.pages[w])
    ensures FilesOk(t) && (NoOverlap(s.pages) ==> NoOverlap(t.pages))
  {
    forall w | w in t.pages
      ensures KindOk(t.pages[w])
    {
      assert KindOk(s.pages[w]) && SameKind(s.pages[w], t.pages[w]);
    }
    forall w | IsFilePage(t, w)
      ensures FilePageOk(t, w)
    {
      assert SameKind(s.pages[w], t.pages[w]);
      assert IsFilePage(s, w) && FilePageOk(s, w);
    }
    assert forall w | w in t.stale && IsFilePage(t, w) :: IsFilePage(s, w) && w != va;
    if NoOverlap(s.pages) {
      SameRivals(s.pages, t.pages);
    }
  }

  predicate SameKind(p: Page, q: Page) {
    q.ops == p.ops && q.target == p.target && q.info == p.info
  }

  lemma SameRivals(pages: map<nat, Page>, pages': map<nat, Page>)
    requires NoOverlap(pages) && pages'.Keys == pages.Keys
    requires forall w | w in pages :: pages'[w].target == pages[w].target && pages'[w].info == pages[w].info
    ensures NoOverlap(pages')
  { }

  /** Evicting an anonymous page keeps the invariant and everyone's bytes. */
  lemma SwapOut(s: State, va: nat, k: nat, n: nat, disk: seq<seq<Byte>>)
    requires CanEvict(s, va, k) && s.pages[va].ops == AnonOps && va in s.table
    requires n < |s.swapMap| && !s.swapMap[n] && k in s.memory && SlotWritten(s, n, disk, s.memory[k])
    ensures var t := WithSwappedOut(s, va, k, n, disk);
            Inv(t, Some(k)) && t.pages.Keys == s.pages.Keys
            && forall w | w in s.pages :: t.pages[w].ops == s.pages[w].ops && Bytes(t, w) == Bytes(s, w)
  {
    hide FramesOk, LinksOk, SwapOk, FilesOk, Bytes;
    var t := WithSwappedOut(s, va, k, n, disk);
    VictimFacts(s, va, k);
    EvictFrames(s, va, k);
    EvictLinks(s, va, k);
    SlotSet(WithEvicted(s, va, k), t, va, k);
    SwapOutSwap(s, va, k, n, disk, s.memory[k]);
    hide NoOverlap;
    EvictFilesOk(s, t, va);
    forall w | w in s.pages
      ensures Bytes(t, w) == Bytes(s, w)
    {
      SwapOutBytes(s, va, k, n, disk, w);
    }
  }

  lemma SlotSet(s: State, t: State, va: nat, k: nat)
    requires FramesOk(s, Some(k)) && LinksOk(s) && va in s.pages
    requires va in t.pages && t.pages == s.pages[va := s.pages[va].(slot := t.pages[va].slot)]
    requires t.frames == s.frames && t.frameList == s.frameList && t.free == s.free && t.memory == s.memory
    requires t.table == s.table && t.tabled == s.tabled
    ensures FramesOk(t, Some(k)) && LinksOk(t)
  {
  }

  lemma SwapOutBytes(s: State, va: nat, k: nat, n: nat, disk: seq<seq<Byte>>, w: nat)
    requires SwapOk(s) && s.frameList != [] && va in s.pages && va in s.table && s.pages[va].ops == AnonOps
    requires s.pages[va].frame == Some(k)
    requires n < |s.swapMap| && !s.swapMap[n] && k in s.memory && SlotWritten(s, n, disk, s.memory[k])
    requires w in s.pages && (w != va ==> s.pages[w].frame != Some(k))
    requires s.pages[w].ops == AnonOps && s.pages[w].frame.Some? ==> s.pages[w].frame.value in s.memory
    ensures Bytes(WithSwappedOut(s, va, k, n, disk), w) == Bytes(s, w)
  {
    if w != va && s.pages[w].ops == AnonOps && s.pages[w].frame == None {
      assert SwappedOut(s, w);
      var m := s.pages[w].slot;
      assert m != n;
      assert disk[8 * m..8 * m + 8] == s.swapDisk[8 * m..8 * m + 8];
    }
  }

  /** Evicting a file page keeps the invariant and all other pages' bytes; the page's own are kept exactly if the rest
      of a dirty page, which did not reach the file, was in it anyway. */
  lemma WriteBack(s: State, va: nat, k: nat, reach: nat, files: map<nat, seq<Byte>>)
    requires CanEvict(s, va, k) && s.pages[va].ops == FileOps && WrittenBack(s, va, reach, files)
    ensures var t := WithEvicted(s, va, k).(files := files);
            Inv(t, Some(k)) && t.pages.Keys == s.pages.Keys && Moved(s, s.files, files)
            && (forall w | w in s.pages :: t.pages[w].ops == s.pages[w].ops)
            && (forall w | w in s.pages && w != va :: Bytes(t, w) == Bytes(s, w))
            && var i := s.pages[va].info.value;
               var n := Sent(s.denied, i, reach);
               |Bytes(s, va)| == i.readBytes == |FileBytes(s.files, i)|
               && (Bytes(t, va) == Bytes(s, va) <==>
                     !(s.table[va].dirty && n < i.readBytes) || Bytes(s, va)[n..] == FileBytes(s.files, i)[n..])
  {
    hide FramesOk, LinksOk, SwapOk, FilesOk, NoOverlap, Bytes, Moved;
    var t := WithEvicted(s, va, k).(files := files);
    VictimFacts(s, va, k);
    EvictFrames(s, va, k);
    EvictLinks(s, va, k);
    SlotSet(WithEvicted(s, va, k), t, va, k);
    EvictSwap(s, t, va);
    WriteBackFiles(s, t, va, reach);
    SameRivals(s.pages, t.pages);
    WriteBackMoved(s, va, reach, files);
    WriteBackOwn(s, t, va, k, reach);
    forall w | w in s.pages && w != va
      ensures Bytes(t, w) == Bytes(s, w)
    {
      assert IsFilePage(s, w) ==> !Overlapping(s, va, w) by {
        RivalsApart(s, va, w);
      }
      WriteBackOther(s, t, va, k, reach, w);
    }
  }

  lemma RivalsApart(s: State, va: nat, w: nat)
    requires FilesOk(s) && NoOverlap(s.pages) && IsFilePage(s, va) && va != w
    ensures IsFilePage(s, w) ==> !Overlapping(s, va, w)
  {
    if IsFilePage(s, w) {
      assert KindOk(s.pages[va]) && KindOk(s.pages[w]);
      assert Rivals(s.pages, va, w);
    }
  }

  ghost predicate Overlapping(s: State, va: nat, w: nat) {
    && va in s.pages && w in s.pages && s.pages[va].info.Some? && s.pages[w].info.Some?
    && Overlap(s.pages[va].info.value, s.pages[w].info.value)
  }

  lemma EvictSwap(s: State, t: State, va: nat)
    requires SwapOk(s) && va in s.pages && s.pages[va].ops == FileOps
    requires t.pages == s.pages[va := s.pages[va].(frame := None)] && t.swapMap == s.swapMap && t.swapDisk == s.swapDisk
    ensures SwapOk(t)
  {
    assert forall w | SwappedOut(t, w) :: SwappedOut(s, w) && t.pages[w] == s.pages[w];
  }

  /** A part of the file that does not meet the written part is the same afterwards. */
  lemma PatchElsewhere(f: seq<Byte>, ofs: nat, bytes: seq<Byte>, a: nat, n: nat)
    requires ofs + |bytes| <= |f| && a + n <= |f| && !(a < ofs + |bytes| && ofs < a + n)
    ensures |Patched(f, ofs, bytes)| == |f| && Patched(f, ofs, bytes)[a..a + n] == f[a..a + n]
  { }

  lemma PatchThere(f: seq<Byte>, ofs: nat, bytes: seq<Byte>, n: nat)
    requires |bytes| <= n && ofs + n <= |f|
    ensures |Patched(f, ofs, bytes)| == |f|
    ensures Patched(f, ofs, bytes)[ofs..ofs + n] == bytes + f[ofs..ofs + n][|bytes|..]
  { }

  /** Byte at of file f belongs to the part of a file page that can be written back. */
  ghost predicate CoveredBy(s: State, v: nat, f: nat, at: int) {
    && IsFilePage(s, v) && s.pages[v].info.Some? && s.pages[v].info.value.file == f && f !in s.denied
    && s.pages[v].info.value.ofs <= at < s.pages[v].info.value.ofs + s.pages[v].info.value.readBytes
  }

  /** Files keep their lengths, and every byte that no file page of s backs. */
  ghost predicate Moved(s: State, files: map<nat, seq<Byte>>, files': map<nat, seq<Byte>>) {
    && files'.Keys == files.Keys && (forall f | f in files :: |files'[f]| == |files[f]|)
    && forall f, at | f in files && 0 <= at < |files[f]| && files'[f][at] != files[f][at] :: exists v :: CoveredBy(s, v, f, at)
  }

  lemma WriteBackMoved(s: State, va: nat, reach: nat, files: map<nat, seq<Byte>>)
    requires IsFilePage(s, va) && WrittenBack(s, va, reach, files)
    ensures Moved(s, s.files, files)
  {
    forall f, at | f in s.files && 0 <= at < |s.files[f]| && files[f][at] != s.files[f][at]
      ensures exists v :: CoveredBy(s, v, f, at)
    {
      assert CoveredBy(s, va, f, at);
    }
  }

  /** What writing page va back does to the file part of page w. */
  lemma WriteBackPart(s: State, va: nat, reach: nat, files: map<nat, seq<Byte>>, w: nat)
    requires FilesOk(s) && IsFilePage(s, va) && IsFilePage(s, w) && WrittenBack(s, va, reach, files)
    ensures s.pages[w].info.Some? && InfoFits(s, s.pages[w].info.value)
    ensures var j := s.pages[w].info.value;
            && j.file in files && |files[j.file]| == |s.files[j.file]|
            && (w != va && !Overlapping(s, va, w) ==> FileBytes(files, j) == FileBytes(s.files, j))
            && var n := Sent(s.denied, j, reach);
               var f := FileBytes(s.files, j);
               w == va ==> FileBytes(files, j) == if s.table[va].dirty then s.memory[s.table[va].kva][..n] + f[n..]
                 else f
  {
    assert FilePageOk(s, va) && FilePageOk(s, w);
    var i, j := s.pages[va].info.value, s.pages[w].info.value;
    var bytes := s.memory[s.table[va].kva][..Sent(s.denied, i, reach)];
    if w == va {
      PatchThere(s.files[i.file], i.ofs, bytes, i.readBytes);
    } else if i.file == j.file && !Overlapping(s, va, w) {
      PatchElsewhere(s.files[i.file], i.ofs, bytes, j.ofs, j.readBytes);
    }
  }

  lemma WriteBackFiles(s: State, t: State, va: nat, reach: nat)
    requires FilesOk(s) && NoOverlap(s.pages) && IsFilePage(s, va) && WrittenBack(s, va, reach, t.files)
    requires t.memory == s.memory
    requires t.pages == s.pages[va := s.pages[va].(frame := None)] && t.table == s.table - {va}
    requires va in t.stale && t.stale == s.stale[va := t.stale[va]] && !t.stale[va].dirty
    ensures FilesOk(t)
  {
    forall w | w in t.pages
      ensures KindOk(t.pages[w])
    {
      assert KindOk(s.pages[w]);
    }
    forall w | IsFilePage(t, w)
      ensures FilePageOk(t, w)
    {
      assert IsFilePage(s, w) && FilePageOk(s, w);
      if w != va {
        RivalsApart(s, va, w);
      }
      WriteBackPart(s, va, reach, t.files, w);
    }
    assert forall w | w in t.stale && IsFilePage(t, w) && w != va :: IsFilePage(s, w);
  }

  lemma WriteBackOther(s: State, t: State, va: nat, k: nat, reach: nat, w: nat)
    requires FilesOk(s) && IsFilePage(s, va) && WrittenBack(s, va, reach, t.files) && t.memory == s.memory
    requires t.swapDisk == s.swapDisk
    requires t.pages == s.pages[va := s.pages[va].(frame := None)] && w in s.pages && w != va
    requires IsFilePage(s, w) ==> !Overlapping(s, va, w)
    ensures Bytes(t, w) == Bytes(s, w)
  {
    if IsFilePage(s, w) {
      WriteBackPart(s, va, reach, t.files, w);
    }
  }

  lemma WriteBackOwn(s: State, t: State, va: nat, k: nat, reach: nat)
    requires FilesOk(s) && IsFilePage(s, va) && WrittenBack(s, va, reach, t.files) && t.memory == s.memory
    requires t.pages == s.pages[va := s.pages[va].(frame := None)] && va in s.table
    requires s.pages[va].frame == Some(k) && s.table[va].kva == k && k in s.memory && |s.memory[k]| == PGSIZE
    ensures s.pages[va].info.Some? && InfoFits(s, s.pages[va].info.value)
    ensures var i := s.pages[va].info.value;
            var n := Sent(s.denied, i, reach);
            |Bytes(s, va)| == i.readBytes == |FileBytes(s.files, i)|
            && (Bytes(t, va) == Bytes(s, va) <==>
                  !(s.table[va].dirty && n < i.readBytes) || Bytes(s, va)[n..] == FileBytes(s.files, i)[n..])
  {
    assert FilePageOk(s, va);
    WriteBackPart(s, va, reach, t.files, va);
    var i := s.pages[va].info.value;
    var n := Sent(s.denied, i, reach);
    var m, f := s.memory[k][..i.readBytes], FileBytes(s.files, i);
    assert Bytes(s, va) == m && Bytes(t, va) == FileBytes(t.files, i);
    assert s.memory[k][..n] == m[..n];
    TailsMatter(m, f, n);
  }

  lemma TailsMatter(m: seq<Byte>, f: seq<Byte>, n: nat)
    requires n <= |m| == |f|
    ensures m[..n] + f[n..] == m <==> m[n..] == f[n..]
  {
    assert m == m[..n] + m[n..];
    assert (m[..n] + f[n..])[n..] == f[n..];
  }

  // ---------------------------------------------------------------- user writes and new pages

  /** The processor stores a byte through a writable mapping and sets the dirty bit. */
  function WithWrite(s: State, va: nat, at: nat, b: Byte): State
    requires va in s.table && s.table[va].kva in s.memory && at < |s.memory[s.table[va].kva]|
  {
    var k := s.table[va].kva;
    s.(memory := s.memory[k := s.memory[k][at := b]], table := s.table[va := s.table[va].(dirty := true)])
  }

  lemma WriteFrames(s: State, va: nat, at: nat, b: Byte)
    requires FramesOk(s, None) && LinksOk(s) && va in s.table && s.table[va].kva in s.memory && at < PGSIZE
    requires |s.memory[s.table[va].kva]| == PGSIZE
    ensures FramesOk(WithWrite(s, va, at, b), None) && LinksOk(WithWrite(s, va, at, b))
  {
    var t := WithWrite(s, va, at, b);
    assert t.memory.Keys == s.memory.Keys;
  }

  lemma WriteFiles(s: State, va: nat, at: nat, b: Byte)
    requires FilesOk(s) && va in s.table && s.table[va].kva in s.memory && at < |s.memory[s.table[va].kva]|
    requires forall w | w in s.table && w != va :: s.table[w].kva != s.table[va].kva
    ensures FilesOk(WithWrite(s, va, at, b))
  {
    var t := WithWrite(s, va, at, b);
    forall w | IsFilePage(t, w)
      ensures FilePageOk(t, w)
    {
      assert IsFilePage(s, w) && FilePageOk(s, w);
    }
  }

  lemma MappedFacts(s: State, va: nat)
    requires FramesOk(s, None) && LinksOk(s) && va in s.table
    ensures va in s.pages && s.pages[va].frame == Some(s.table[va].kva) && s.pages[va].ops != UninitOps
    ensures s.table[va].kva in s.memory && |s.memory[s.table[va].kva]| == PGSIZE
    ensures forall w | w in s.pages && w != va :: s.pages[w].frame != Some(s.table[va].kva)
    ensures forall w | w in s.table && w != va :: s.table[w].kva != s.table[va].kva
  { }

  /** A user write changes one byte of one page. */
  lemma Write(s: State, va: nat, at: nat, b: Byte)
    requires Inv(s, None) && va in s.table && at < PGSIZE
    ensures s.table[va].kva in s.memory && |s.memory[s.table[va].kva]| == PGSIZE
    ensures va in s.pages && (at < |Bytes(s, va)| || IsFilePage(s, va))
    ensures var t := WithWrite(s, va, at, b);
            && Inv(t, None) && SameBytesBut(s, t, va) && t.pages[va].ops == s.pages[va].ops
            && Bytes(t, va) == if at < |Bytes(s, va)| then Bytes(s, va)[at := b] else Bytes(s, va)
  {
    hide FramesOk, LinksOk, SwapOk, FilesOk, Bytes;
    MappedFacts(s, va);
    var t := WithWrite(s, va, at, b);
    WriteFrames(s, va, at, b);
    WriteFiles(s, va, at, b);
    SameSwap(s, t);
    WriteBytes(s, va, at, b);
    forall w | w in s.pages && w != va
      ensures Bytes(t, w) == Bytes(s, w)
    {
      SamePlace(s, t, w, s.table[va].kva);
    }
  }

  lemma WriteBytes(s: State, va: nat, at: nat, b: Byte)
    requires FilesOk(s) && va in s.table && va in s.pages && s.pages[va].ops != UninitOps
    requires s.pages[va].frame == Some(s.table[va].kva) && s.table[va].kva in s.memory
    requires |s.memory[s.table[va].kva]| == PGSIZE && at < PGSIZE
    ensures at < |Bytes(s, va)| || IsFilePage(s, va)
    ensures Bytes(WithWrite(s, va, at, b), va) == if at < |Bytes(s, va)| then Bytes(s, va)[at := b] else Bytes(s, va)
  {
    if IsFilePage(s, va) {
      assert FilePageOk(s, va) && KindOk(s.pages[va]);
      var m, n := s.memory[s.table[va].kva], s.pages[va].info.value.readBytes;
      assert at >= n ==> m[at := b][..n] == m[..n];
      assert at < n ==> m[at := b][..n] == m[..n][at := b];
    } else {
      assert KindOk(s.pages[va]);
    }
  }

  /** A new page descriptor, not yet initialised. */
  function FreshPage(target: Ops, writable: bool, info: Option<FileInfo>): Page {
    Page(UninitOps, target, None, writable, NO_SLOT, info)
  }

  /** Adding a page keeps all of the invariant but that file parts do not meet, and every page's bytes. */
  lemma Alloc(s: State, va: nat, p: Page)
    requires Inv(s, None) && va !in s.pages && p == FreshPage(p.target, p.writable, p.info)
    requires KindOk(p)
    ensures var t := s.(pages := s.pages[va := p]);
            InvAlone(t, None) && forall w | w in s.pages :: t.pages[w] == s.pages[w] && Bytes(t, w) == Bytes(s, w)
  {
    hide FramesOk, LinksOk, SwapOk, FilesOk, Bytes;
    var t := s.(pages := s.pages[va := p]);
    AllocLinks(s, t, va);
    AllocSwap(s, t, va);
    AllocFiles(s, t, va);
    forall w | w in s.pages
      ensures Bytes(t, w) == Bytes(s, w)
    {
      NewcomerBytes(s, t, w);
    }
  }

  lemma AllocLinks(s: State, t: State, va: nat)
    requires FramesOk(s, None) && LinksOk(s) && va !in s.pages
    requires va in t.pages && t == s.(pages := s.pages[va := t.pages[va]])
    requires t.pages[va].ops == UninitOps && t.pages[va].frame == None
    ensures FramesOk(t, None) && LinksOk(t)
  {
  }

  lemma AllocSwap(s: State, t: State, va: nat)
    requires SwapOk(s) && va !in s.pages
    requires va in t.pages && t == s.(pages := s.pages[va := t.pages[va]]) && t.pages[va].ops == UninitOps
    ensures SwapOk(t)
  {
    assert forall w | SwappedOut(t, w) :: SwappedOut(s, w) && t.pages[w] == s.pages[w];
  }

  lemma AllocFiles(s: State, t: State, va: nat)
    requires FilesOk(s) && va !in s.pages
    requires va in t.pages && t == s.(pages := s.pages[va := t.pages[va]])
    requires t.pages[va].ops == UninitOps && KindOk(t.pages[va])
    ensures FilesOk(t)
  {
    forall w | w in t.pages
      ensures KindOk(t.pages[w])
    {
      assert w != va ==> KindOk(s.pages[w]);
    }
    forall w | IsFilePage(t, w)
      ensures FilePageOk(t, w)
    {
      assert IsFilePage(s, w) && FilePageOk(s, w);
    }
  }

  lemma NewcomerBytes(s: State, t: State, w: nat)
    requires w in s.pages && w in t.pages && t.pages[w] == s.pages[w]
    requires t.memory == s.memory && t.swapDisk == s.swapDisk && t.files == s.files
    ensures Bytes(t, w) == Bytes(s, w)
  { }
}
