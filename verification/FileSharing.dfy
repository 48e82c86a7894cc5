/** Which file pages keep their bytes when one is written back, and which do not. */
module FileSharing {
  import opened PagingState
  import opened Sequences

  /** A file page's part as mmap sets it up. */
  predicate Mappable(i: FileInfo) {
    i.readBytes > 0 && i.readBytes + i.zeroBytes == PGSIZE
  }

  /** The file page at va is at the front of the frame list and evicted, which leaves the files as given. */
  ghost predicate Evicts(s: State, va: nat, reach: nat, files: map<nat, seq<Byte>>) {
    && InvAlone(s, None) && s.frameList != [] && s.frameList[0] in s.frames && s.frames[s.frameList[0]] == Some(va)
    && IsFilePage(s, va) && s.pages[va].info.Some? && WrittenBack(s, va, reach, files)
  }

  ghost function After(s: State, va: nat, files: map<nat, seq<Byte>>): State
    requires va in s.pages && s.frameList != [] && va in s.table
  {
    WithEvicted(s, va, s.frameList[0]).(files := files)
  }

  /** Two file pages on files of zeros: the one at 0 is resident, dirty and all ones, the other is not resident. */
  function TwoPages(i: FileInfo, j: FileInfo, denied: set<nat>): State {
    var n, m := i.ofs + i.readBytes, j.ofs + j.readBytes;
    var f := Zeros(if n > m then n else m);
    State(map[0 := Page(FileOps, FileOps, Some(0), true, NO_SLOT, Some(i)),
              PGSIZE := Page(FileOps, FileOps, None, true, NO_SLOT, Some(j))],
          map[0 := Some(0)], [0], {}, map[0 := seq(PGSIZE, _ => 1)], map[0 := Pte(0, true, true)], map[], {0, PGSIZE},
          [], [], map[i.file := f, j.file := f], denied)
  }

  lemma TwoPagesOk(i: FileInfo, j: FileInfo, denied: set<nat>)
    requires Mappable(i) && Mappable(j)
    ensures InvAlone(TwoPages(i, j, denied), None) && (!Overlap(i, j) ==> NoOverlap(TwoPages(i, j, denied).pages))
  {
    var s := TwoPages(i, j, denied);
    assert s.memory.Keys == s.free + s.frames.Keys;
    assert forall k | k in s.frames :: k == 0 && s.pages[0].frame == Some(k);
    assert FramesOk(s, None);
    TwoPagesFiles(i, j, denied);
    hide FramesOk, FilesOk;
  }

  lemma TwoPagesFiles(i: FileInfo, j: FileInfo, denied: set<nat>)
    requires Mappable(i) && Mappable(j)
    ensures FilesOk(TwoPages(i, j, denied)) && (!Overlap(i, j) ==> NoOverlap(TwoPages(i, j, denied).pages))
  {
    var s := TwoPages(i, j, denied);
    assert FilePageOk(s, 0) && FilePageOk(s, PGSIZE);
  }

  /** The files after the page at 0 is written back. */
  function Patch(i: FileInfo, j: FileInfo, denied: set<nat>, reach: nat): map<nat, seq<Byte>>
    requires Mappable(i)
  {
    var s := TwoPages(i, j, denied);
    s.files[i.file := Patched(s.files[i.file], i.ofs, s.memory[0][..Sent(denied, i, reach)])]
  }

  lemma PatchEvicts(i: FileInfo, j: FileInfo, denied: set<nat>, reach: nat)
    requires Mappable(i) && Mappable(j)
    ensures Evicts(TwoPages(i, j, denied), 0, reach, Patch(i, j, denied, reach))
  {
    TwoPagesOk(i, j, denied);
  }

  /** Writing back one page keeps another's bytes in every state if and only if their parts of files do not meet. */
  lemma SharedExact(i: FileInfo, j: FileInfo)
    requires Mappable(i) && Mappable(j)
    ensures (forall s, va, w, reach, files |
               Evicts(s, va, reach, files) && IsFilePage(s, w) && w != va &&
               s.pages[va].info == Some(i) && s.pages[w].info == Some(j) ::
               Bytes(After(s, va, files), w) == Bytes(s, w))
            <==> !Overlap(i, j)
  {
    if Overlap(i, j) {
      SharedBreaks(i, j);
    } else {
      forall s, va, w, reach, files |
        Evicts(s, va, reach, files) && IsFilePage(s, w) && w != va && s.pages[va].info == Some(i) && s.pages[w].info == Some(j)
        ensures Bytes(After(s, va, files), w) == Bytes(s, w)
      {
        WriteBackOther(s, After(s, va, files), va, s.frameList[0], reach, w);
      }
    }
  }

  lemma SharedBreaks(i: FileInfo, j: FileInfo)
    requires Mappable(i) && Mappable(j) && Overlap(i, j)
    ensures var s, files := TwoPages(i, j, {}), Patch(i, j, {}, PGSIZE);
            Evicts(s, 0, PGSIZE, files) && IsFilePage(s, PGSIZE) && Bytes(After(s, 0, files), PGSIZE) != Bytes(s, PGSIZE)
  {
    var s, files := TwoPages(i, j, {}), Patch(i, j, {}, PGSIZE);
    PatchEvicts(i, j, {}, PGSIZE);
    hide InvAlone, Evicts;
    SharedByteLost(i, j);
  }

  lemma SharedByteLost(i: FileInfo, j: FileInfo)
    requires Mappable(i) && Mappable(j) && Overlap(i, j)
    ensures var s, files := TwoPages(i, j, {}), Patch(i, j, {}, PGSIZE);
            Bytes(After(s, 0, files), PGSIZE) != Bytes(s, PGSIZE)
  {
    var s, files := TwoPages(i, j, {}), Patch(i, j, {}, PGSIZE);
    var at := if i.ofs > j.ofs then i.ofs else j.ofs;
    assert files[i.file] == Patched(s.files[i.file], i.ofs, s.memory[0][..i.readBytes]);
    assert files[j.file][at] == s.memory[0][at - i.ofs] == 1;
    assert s.files[j.file][at] == 0;
    assert Bytes(s, PGSIZE)[at - j.ofs] == s.files[j.file][at];
    assert Bytes(After(s, 0, files), PGSIZE)[at - j.ofs] == files[j.file][at];
  }

  /** A page that is written back keeps its own bytes in every state if and only if its file takes all of them. */
  lemma WriteBackExact(i: FileInfo, denied: set<nat>, reach: nat)
    requires Mappable(i)
    ensures (forall s, va, files |
               Evicts(s, va, reach, files) && Inv(s, None) && s.pages[va].info == Some(i) && s.denied == denied ::
               Bytes(After(s, va, files), va) == Bytes(s, va))
            <==> i.file !in denied && reach >= i.readBytes
  {
    if i.file in denied || reach < i.readBytes {
      WriteBackLoses(i, denied, reach);
    } else {
      forall s, va, files | Evicts(s, va, reach, files) && Inv(s, None) && s.pages[va].info == Some(i) && s.denied == denied
        ensures Bytes(After(s, va, files), va) == Bytes(s, va)
      {
        WriteBackWhole(s, va, reach, files);
      }
    }
  }

  lemma WriteBackWhole(s: State, va: nat, reach: nat, files: map<nat, seq<Byte>>)
    requires Evicts(s, va, reach, files) && Inv(s, None)
    requires s.pages[va].info.value.file !in s.denied && reach >= s.pages[va].info.value.readBytes
    ensures Bytes(After(s, va, files), va) == Bytes(s, va)
  {
    hide InvAlone, NoOverlap, Bytes, Moved;
    WriteBack(s, va, s.frameList[0], reach, files);
  }

  lemma LastByteLost(i: FileInfo, j: FileInfo, denied: set<nat>, reach: nat)
    requires Mappable(i) && (i.file in denied || reach < i.readBytes)
    ensures var s, files := TwoPages(i, j, denied), Patch(i, j, denied, reach);
            Bytes(After(s, 0, files), 0) != Bytes(s, 0)
  {
    var s, files := TwoPages(i, j, denied), Patch(i, j, denied, reach);
    var at := i.readBytes - 1;
    assert Bytes(s, 0)[at] == 1;
    var n := Sent(denied, i, reach);
    assert files[i.file] == Patched(s.files[i.file], i.ofs, s.memory[0][..n]);
    assert at >= n && files[i.file][i.ofs + at] == s.files[i.file][i.ofs + at] == 0;
    assert Bytes(After(s, 0, files), 0)[at] == files[i.file][i.ofs + at];
  }

  lemma WriteBackLoses(i: FileInfo, denied: set<nat>, reach: nat)
    requires Mappable(i) && (i.file in denied || reach < i.readBytes)
    ensures var j := i.(file := i.file + 1);
            var s, files := TwoPages(i, j, denied), Patch(i, j, denied, reach);
            Evicts(s, 0, reach, files) && Inv(s, None) && Bytes(After(s, 0, files), 0) != Bytes(s, 0)
  {
    var j := i.(file := i.file + 1);
    var s, files := TwoPages(i, j, denied), Patch(i, j, denied, reach);
    TwoPagesOk(i, j, denied);
    PatchEvicts(i, j, denied, reach);
    hide InvAlone, NoOverlap, Evicts;
    LastByteLost(i, j, denied, reach);
  }
}
