/** Splitting a command line and laying its words out on the user stack: lib/string.c's strtok_r and
    userprog/process.c. */
module ArgPass {
  import opened Sequences

  type Byte = x: nat | x < 256
  const SPACE: Byte := 32
  const WORD: nat := 8
  const MAX_ARGS: nat := 64

  // ---------------------------------------------------------------- tokens

  /** s[a..b] is a maximal run of characters that are not blanks. */
  ghost predicate Run(s: seq<Byte>, a: nat, b: nat) {
    && a < b <= |s| && (forall k | a <= k < b :: s[k] != SPACE)
    && (a == 0 || s[a - 1] == SPACE) && (b == |s| || s[b] == SPACE)
  }

  /** The runs of s up to position n, in order: each pair is one, and no other character is anything but a blank. */
  ghost predicate Runs(s: seq<Byte>, runs: seq<(nat, nat)>, n: nat) {
    && n <= |s|
    && (forall i | 0 <= i < |runs| :: Run(s, runs[i].0, runs[i].1) && runs[i].1 <= n)
    && (forall i | 0 < i < |runs| :: runs[i - 1].1 < runs[i].0)
    && (forall k | 0 <= k < n && s[k] != SPACE :: exists i :: 0 <= i < |runs| && runs[i].0 <= k < runs[i].1)
  }

  /** A line in memory: no null byte but the one at its end. */
  ghost predicate Line(s: seq<Byte>) { forall k | 0 <= k < |s| :: s[k] != 0 }

  /** The null-terminated string at an address */
  ghost predicate StringAt(mem: seq<Byte>, p: nat, t: seq<Byte>) {
    p + |t| < |mem| && mem[p..p + |t|] == t && mem[p + |t|] == 0 && Line(t)
  }

  /** Where the tokeniser has got to: the runs before from are cut off by null bytes, the rest of the line is as it
      was. */
  ghost predicate CutUpTo(s: seq<Byte>, buf: seq<Byte>, runs: seq<(nat, nat)>, from: nat) {
    && |buf| == |s| + 1 && from <= |s| && Runs(s, runs, from) && (from == 0 || from == |s| || s[from - 1] == SPACE)
    && buf[from..|s|] == s[from..] && buf[|s|] == 0
    && forall i | 0 <= i < |runs| :: StringAt(buf, runs[i].0, s[runs[i].0..runs[i].1])
  }

  /** `strtok_r (…, " ", …)`: the next word, ended with a null byte; save is where to go on. */
  method StrtokR(buf: array<Byte>, from: nat, ghost s: seq<Byte>, ghost runs: seq<(nat, nat)>)
    returns (token: Option<nat>, save: nat, ghost runs': seq<(nat, nat)>)
    requires Line(s) && CutUpTo(s, buf[..], runs, from)
    modifies buf
    ensures CutUpTo(s, buf[..], runs', save)
    ensures token == None ==> save == |s| && runs' == runs
    ensures token.Some? ==>
              save > from && |runs'| == |runs| + 1 && runs'[..|runs|] == runs && runs'[|runs|].0 == token.value
  {
    hide Runs, StringAt;
    ghost var was := buf[..];
    save := from;
    while buf[save] == SPACE
      invariant from <= save <= |s| && buf[..] == was && forall k | from <= k < save :: s[k] == SPACE
      decreases |s| - save
    {
      assert was[save] == was[from..|s|][save - from];
      save := save + 1;
    }
    assert save < |s| ==> was[save] == was[from..|s|][save - from] == s[save];
    if buf[save] == 0 {
      BlanksOnly(s, runs, from, save);
      CutSame(s, was, runs, from, save);
      return None, save, runs;
    }
    var start := save;
    while buf[save] != SPACE && buf[save] != 0
      invariant start <= save <= |s| && buf[..] == was && forall k | start <= k < save :: s[k] != SPACE
      decreases |s| - save
    {
      assert was[save] == was[from..|s|][save - from];
      save := save + 1;
    }
    assert save < |s| ==> was[save] == was[from..|s|][save - from] == s[save];
    ghost var end := save;
    if buf[save] != 0 {
      buf[save] := 0;
      save := save + 1;
    }
    runs' := runs + [(start, end)];
    CutNext(s, was, buf[..], runs, from, start, end, save);
    token := Some(start);
  }

  lemma BlanksOnly(s: seq<Byte>, runs: seq<(nat, nat)>, from: nat, save: nat)
    requires Runs(s, runs, from) && from <= save <= |s| && forall k | from <= k < save :: s[k] == SPACE
    ensures Runs(s, runs, save)
  { }

  lemma CutSame(s: seq<Byte>, buf: seq<Byte>, runs: seq<(nat, nat)>, from: nat, save: nat)
    requires CutUpTo(s, buf, runs, from) && from <= save == |s| && Runs(s, runs, save)
    ensures CutUpTo(s, buf, runs, save)
  { }

  /** One more word has been cut off. */
  lemma CutNext(s: seq<Byte>, was: seq<Byte>, buf: seq<Byte>, runs: seq<(nat, nat)>, from: nat, start: nat, end: nat,
                save: nat)
    requires Line(s) && CutUpTo(s, was, runs, from) && from <= start < end <= |s|
    requires (forall k | from <= k < start :: s[k] == SPACE) && (forall k | start <= k < end :: s[k] != SPACE)
    requires end == |s| || s[end] == SPACE
    requires buf == was[end := 0] && save == (if end == |s| then end else end + 1)
    ensures CutUpTo(s, buf, runs + [(start, end)], save)
  {
    var runs' := runs + [(start, end)];
    NextRuns(s, runs, from, start, end, save);
    CutRest(s, was, buf, from, start, end, save);
    hide Runs, StringAt;
    forall i | 0 <= i < |runs'|
      ensures StringAt(buf, runs'[i].0, s[runs'[i].0..runs'[i].1])
    {
      if i < |runs| {
        OldString(s, was, runs, from, i);
        assert runs'[i] == runs[i];
        StringKept(was, buf, runs[i].0, s[runs[i].0..runs[i].1], end);
      }
    }
  }

  lemma CutRest(s: seq<Byte>, was: seq<Byte>, buf: seq<Byte>, from: nat, start: nat, end: nat, save: nat)
    requires Line(s) && |was| == |s| + 1 && from <= start < end <= |s| && was[from..|s|] == s[from..] && was[|s|] == 0
    requires buf == was[end := 0] && save == (if end == |s| then end else end + 1)
    ensures buf[save..|s|] == s[save..] && buf[|s|] == 0 && StringAt(buf, start, s[start..end])
  {
    forall k | from <= k < |s|
      ensures was[k] == s[k]
    {
      assert was[k] == was[from..|s|][k - from] && s[k] == s[from..][k - from];
    }
    assert buf[start..end] == s[start..end];
  }

  lemma OldString(s: seq<Byte>, buf: seq<Byte>, runs: seq<(nat, nat)>, from: nat, i: nat)
    requires CutUpTo(s, buf, runs, from) && i < |runs|
    ensures runs[i].0 < runs[i].1 <= from && StringAt(buf, runs[i].0, s[runs[i].0..runs[i].1])
    ensures runs[i].1 < from || from == |s|
  { }

  lemma StringKept(was: seq<Byte>, buf: seq<Byte>, p: nat, t: seq<Byte>, end: nat)
    requires StringAt(was, p, t) && end < |was| && buf == was[end := 0] && p + |t| <= end
    ensures StringAt(buf, p, t)
  { }

  lemma NextRuns(s: seq<Byte>, runs: seq<(nat, nat)>, from: nat, start: nat, end: nat, save: nat)
    requires Runs(s, runs, from) && from <= start < end <= |s| && (from == 0 || from == |s| || s[from - 1] == SPACE)
    requires (forall k | from <= k < start :: s[k] == SPACE) && (forall k | start <= k < end :: s[k] != SPACE)
    requires (end == |s| || s[end] == SPACE) && save == (if end == |s| then end else end + 1)
    ensures Runs(s, runs + [(start, end)], save)
  {
    var runs' := runs + [(start, end)];
    assert Run(s, start, end);
    forall i | 0 < i < |runs'|
      ensures runs'[i - 1].1 < runs'[i].0
    {
      if i == |runs| {
        assert Run(s, runs[i - 1].0, runs[i - 1].1);
      }
    }
    forall k | 0 <= k < save && s[k] != SPACE
      ensures exists i :: 0 <= i < |runs'| && runs'[i].0 <= k < runs'[i].1
    {
      if k < from {
        var i :| 0 <= i < |runs| && runs[i].0 <= k < runs[i].1;
        assert runs'[i] == runs[i];
      } else {
        assert runs'[|runs|] == (start, end);
      }
    }
  }

  /** The words of a line */
  ghost function Words(s: seq<Byte>, runs: seq<(nat, nat)>): (w: seq<seq<Byte>>)
    requires forall i | 0 <= i < |runs| :: Run(s, runs[i].0, runs[i].1)
    ensures |w| == |runs|
  {
    seq(|runs|, i requires 0 <= i < |runs| && Run(s, runs[i].0, runs[i].1) => s[runs[i].0..runs[i].1])
  }

  /** The tokenising loop of process_exec. It has room for 64 words; ok is false when it would write a 65th. */
  method Tokenise(buf: array<Byte>, parse: array<nat>, ghost s: seq<Byte>)
    returns (ok: bool, count: nat, ghost runs: seq<(nat, nat)>)
    requires Line(s) && buf[..] == s + [0] && parse.Length == MAX_ARGS
    modifies buf, parse
    ensures ok ==> count == |runs| <= MAX_ARGS && CutUpTo(s, buf[..], runs, |s|)
    ensures ok ==> forall i | 0 <= i < count :: parse[i] == runs[i].0
    ensures !ok ==> |runs| == MAX_ARGS + 1 && exists n :: 0 <= n <= |s| && Runs(s, runs, n)
  {
    hide Runs, StringAt;
    ok, count, runs := true, 0, [];
    NothingCut(s, buf[..]);
    var token: Option<nat>;
    var save: nat;
    token, save, runs := StrtokR(buf, 0, s, []);
    while token.Some?
      modifies buf, parse
      invariant CutUpTo(s, buf[..], runs, save) && count <= MAX_ARGS
      invariant if token.Some? then |runs| == count + 1 && runs[count].0 == token.value else |runs| == count && save == |s|
      invariant forall i | 0 <= i < count :: parse[i] == runs[i].0
      decreases |s| - save, if token.Some? then 1 else 0
    {
      if count == parse.Length {
        return false, count, runs;
      }
      parse[count] := token.value;
      count := count + 1;
      ghost var was := runs;
      token, save, runs := StrtokR(buf, save, s, runs);
      assert runs[..|was|] == was;
      assert forall i | 0 <= i < |was| :: runs[i] == was[i];
    }
  }

  lemma NothingCut(s: seq<Byte>, buf: seq<Byte>)
    requires buf == s + [0]
    ensures CutUpTo(s, buf, [], 0)
  { }

  // ---------------------------------------------------------------- the stack

  const USER_STACK: nat := 0x4748_0000
  const PGSIZE: nat := 4096

  /** A 64-bit word in memory, least significant byte first */
  function LittleEndian(v: nat, n: nat): (r: seq<Byte>)
    ensures |r| == n
  {
    if n == 0 then [] else [v % 256] + LittleEndian(v / 256, n - 1)
  }

  /** The eight bytes of a stored word. */
  lemma WordRead(v: nat)
    requires v < 0x1_0000_0000_0000_0000
    ensures var w: seq<nat> := LittleEndian(v, 8);
            v == w[0] + 0x100 * w[1] + 0x1_0000 * w[2] + 0x100_0000 * w[3] + 0x1_0000_0000 * w[4]
                 + 0x100_0000_0000 * w[5] + 0x1_0000_0000_0000 * w[6] + 0x100_0000_0000_0000 * w[7]
  {
    var w4 := LittleEndian(v / 0x1_0000_0000, 4);
    LowHalf(v, 4);
    LowHalf(v / 0x1_0000_0000, 0);
    assert LittleEndian(v, 8)[4..] == w4;
    assert w4 == w4 + LittleEndian(v / 0x1_0000_0000 / 0x1_0000_0000, 0);
    hide LittleEndian;
  }

  lemma LowHalf(v: nat, n: nat)
    ensures var w: seq<nat> := LittleEndian(v, 4 + n);
            && w[4..] == LittleEndian(v / 0x1_0000_0000, n)
            && v % 0x1_0000_0000 == w[0] + 0x100 * w[1] + 0x1_0000 * w[2] + 0x100_0000 * w[3]
  {
    FourBytes(v, n);
    FourDigits(v);
    hide LittleEndian;
  }

  lemma FourBytes(v: nat, n: nat)
    ensures LittleEndian(v, 4 + n) == [v % 256, v / 256 % 256, v / 256 / 256 % 256, v / 256 / 256 / 256 % 256]
                                      + LittleEndian(v / 256 / 256 / 256 / 256, n)
  {
    var v1, v2, v3 := v / 256, v / 256 / 256, v / 256 / 256 / 256;
    FirstByte(v, 3 + n);
    FirstByte(v1, 2 + n);
    FirstByte(v2, 1 + n);
    FirstByte(v3, n);
    hide LittleEndian;
  }

  lemma FirstByte(v: nat, n: nat)
    ensures LittleEndian(v, n + 1) == [v % 256] + LittleEndian(v / 256, n)
  { }

  lemma FourDigits(v: nat)
    ensures v / 256 / 256 / 256 / 256 == v / 0x1_0000_0000
    ensures v % 0x1_0000_0000 == v % 256 + 0x100 * (v / 256 % 256) + 0x1_0000 * (v / 256 / 256 % 256)
                                 + 0x100_0000 * (v / 256 / 256 / 256 % 256)
  { }

  /** The strings one after the other, each with its null byte */
  function Joined(toks: seq<seq<Byte>>): seq<Byte> {
    if toks == [] then [] else toks[0] + [0] + Joined(toks[1..])
  }

  function Pointers(addrs: seq<nat>): (r: seq<Byte>)
    ensures |r| == WORD * |addrs|
  {
    if addrs == [] then [] else LittleEndian(addrs[0], WORD) + Pointers(addrs[1..])
  }

  /** Where the strings start when they end at the top of the stack */
  function StringsAt(toks: seq<seq<Byte>>): int { USER_STACK - |Joined(toks)| }

  function Addresses(toks: seq<seq<Byte>>, from: nat): (r: seq<nat>)
    ensures |r| == |toks|
  {
    if toks == [] then [] else [from] + Addresses(toks[1..], from + |toks[0]| + 1)
  }

  function Zeros(n: nat): (r: seq<Byte>)
    ensures |r| == n
  {
    seq(n, _ => 0)
  }

  /** All that is put on the stack, from its new top up: a null return address, argv, its null end, padding, strings. */
  function Image(toks: seq<seq<Byte>>): seq<Byte>
    requires |Joined(toks)| <= USER_STACK
  {
    LittleEndian(0, WORD) + Pointers(Addresses(toks, StringsAt(toks))) + LittleEndian(0, WORD)
    + Zeros(StringsAt(toks) % WORD) + Joined(toks)
  }

  /** What the words need on the stack */
  function Needed(toks: seq<seq<Byte>>): nat { |Joined(toks)| + WORD * |toks| + 3 * WORD }

  /** Storing a 64-bit word just below the bytes that are already there */
  method PushWord(mem: array<Byte>, at: nat, v: nat)
    requires at + WORD <= mem.Length
    modifies mem
    ensures mem[at..] == LittleEndian(v, WORD) + old(mem[at + WORD..]) && mem[..at] == old(mem[..at])
  {
    var word := LittleEndian(v, WORD);
    forall i | 0 <= i < WORD {
      mem[at + i] := word[i];
    }
  }

  /** `strlen` */
  method StrLen(buf: array<Byte>, p: nat, ghost t: seq<Byte>) returns (n: nat)
    requires StringAt(buf[..], p, t)
    ensures n == |t|
  {
    hide StringAt;
    n := 0;
    CharAt(buf[..], p, t, 0);
    while buf[p + n] != 0
      invariant n <= |t| && p + n < buf.Length && buf[p + n] == (t + [0])[n]
      decreases |t| - n
    {
      n := n + 1;
      CharAt(buf[..], p, t, n);
    }
    NotNull(buf[..], p, t);
  }

  lemma CharAt(mem: seq<Byte>, p: nat, t: seq<Byte>, k: nat)
    requires StringAt(mem, p, t) && k <= |t|
    ensures p + k < |mem| && mem[p + k] == (t + [0])[k]
  { }

  lemma NotNull(mem: seq<Byte>, p: nat, t: seq<Byte>)
    requires StringAt(mem, p, t)
    ensures forall k | 0 <= k < |t| :: (t + [0])[k] != 0
  { }

  /** The inner loop of argument_stack: one string is copied, from its null byte down. */
  method PushString(buf: array<Byte>, p: nat, mem: array<Byte>, top: nat, ghost t: seq<Byte>) returns (at: nat)
    requires StringAt(buf[..], p, t) && buf != mem && |t| + 1 <= top <= mem.Length
    modifies mem
    ensures at == top - |t| - 1 && mem[at..] == t + [0] + old(mem[top..]) && mem[..at] == old(mem[..at])
  {
    hide StringAt;
    var j := StrLen(buf, p, t);
    j := j + 1;
    at := top;
    ghost var z, rest, below := t + [0], mem[top..], mem[..];
    assert z[j..] + rest == rest;
    while j > 0
      invariant 0 <= j <= |z| && at == top - (|z| - j)
      invariant mem[at..] == z[j..] + rest && mem[..at] == below[..at] && StringAt(buf[..], p, t)
    {
      CharAt(buf[..], p, t, j - 1);
      ghost var was := mem[..];
      j := j - 1;
      at := at - 1;
      mem[at] := buf[p + j];
      assert mem[..] == was[at := z[j]];
      PushedByte(was, at, z, j, rest);
    }
    assert below[..at] == old(mem[..at]);
  }

  lemma PushedByte(was: seq<Byte>, at: nat, z: seq<Byte>, j: nat, rest: seq<Byte>)
    requires at < |was| && j < |z| && was[at + 1..] == z[j + 1..] + rest
    ensures was[at := z[j]][at..] == z[j..] + rest && was[at := z[j]][..at] == was[..at]
  { }

  /** `argument_stack`. mem is the page below USER_STACK. If what the words need fits it, the words' image is at its
      top and the rest of it is untouched. */
  method ArgumentStack(buf: array<Byte>, parse: array<nat>, count: nat, mem: array<Byte>, ghost toks: seq<seq<Byte>>)
    returns (rsp: nat)
    requires count == |toks| <= parse.Length && buf != mem && mem.Length == PGSIZE && Needed(toks) <= PGSIZE
    requires forall i | 0 <= i < count :: StringAt(buf[..], parse[i], toks[i])
    modifies parse, mem
    ensures |Joined(toks)| <= USER_STACK && rsp == USER_STACK - |Image(toks)| && rsp % WORD == 0
    ensures |Image(toks)| <= PGSIZE
    ensures var at := rsp - (USER_STACK - PGSIZE);
            mem[at..] == Image(toks) && mem[..at] == old(mem[..at])
  {
    hide LittleEndian, Pointers, Joined, Addresses, Zeros, StringAt, Image;
    ghost var below := mem[..];
    ghost var addrs := Addresses(toks, StringsAt(toks));
    var at := PushStrings(buf, parse, count, mem, toks);
    ghost var above := mem[at..];
    ghost var strings := at;
    assert mem[..at] == below[..at];
    at := PushPadding(mem, at);
    above := Zeros(strings - at) + above;
    ghost var was := mem[..at];
    assert was == below[..at];
    at := PushVector(parse, count, mem, at, addrs, above);
    assert mem[..at] == was[..at];
    ImageIs(toks);
    rsp := USER_STACK - PGSIZE + at;
    assert below[..at] == old(mem[..at]);
  }

  /** argv between its null pointer and the return address */
  method PushVector(parse: array<nat>, count: nat, mem: array<Byte>, start: nat, ghost addrs: seq<nat>,
                    ghost above: seq<Byte>) returns (at: nat)
    requires count == |addrs| <= parse.Length && WORD * (count + 2) <= start <= mem.Length && mem[start..] == above
    requires forall i | 0 <= i < count :: parse[i] == addrs[i]
    modifies mem
    ensures at == start - WORD * (count + 2) && mem[..at] == old(mem[..at])
    ensures mem[at..] == LittleEndian(0, WORD) + (Pointers(addrs) + (LittleEndian(0, WORD) + above))
  {
    hide LittleEndian, Pointers;
    ghost var below := mem[..];
    at := PushBelow(mem, start, 0, below, above);
    ghost var was := mem[..at];
    at := PushPointers(parse, count, mem, at, addrs);
    assert mem[..at] == was[..at] == below[..at];
    at := PushBelow(mem, at, 0, below, Pointers(addrs) + (LittleEndian(0, WORD) + above));
    assert below[..at] == old(mem[..at]);
  }

  /** One more word below what is above, with the memory below it as it was */
  method PushBelow(mem: array<Byte>, top: nat, v: nat, ghost below: seq<Byte>, ghost above: seq<Byte>) returns (at: nat)
    requires WORD <= top <= mem.Length == |below| && mem[top..] == above && mem[..top] == below[..top]
    modifies mem
    ensures at == top - WORD && mem[at..] == LittleEndian(v, WORD) + above && mem[..at] == below[..at]
  {
    hide LittleEndian;
    at := top - WORD;
    ghost var was := mem[..top];
    PushWord(mem, at, v);
    assert mem[..at] == was[..at];
  }

  lemma ImageIs(toks: seq<seq<Byte>>)
    requires |Joined(toks)| <= USER_STACK
    ensures Image(toks) == LittleEndian(0, WORD) + (Pointers(Addresses(toks, StringsAt(toks)))
                           + (LittleEndian(0, WORD) + (Zeros(StringsAt(toks) % WORD) + Joined(toks))))
    ensures |Image(toks)| == 2 * WORD + WORD * |toks| + StringsAt(toks) % WORD + |Joined(toks)|
    ensures (USER_STACK - |Image(toks)|) % WORD == 0
  {
    hide LittleEndian, Pointers, Joined, Addresses, Zeros;
    Assoc(LittleEndian(0, WORD), Pointers(Addresses(toks, StringsAt(toks))),
          LittleEndian(0, WORD), Zeros(StringsAt(toks) % WORD), Joined(toks));
    Aligned(|Joined(toks)|, |toks|, |Image(toks)|);
  }

  lemma Assoc(a: seq<Byte>, b: seq<Byte>, c: seq<Byte>, d: seq<Byte>, e: seq<Byte>)
    ensures a + b + c + d + e == a + (b + (c + (d + e)))
  { }

  lemma Aligned(strings: nat, n: nat, image: nat)
    requires strings <= USER_STACK && image == 2 * WORD + WORD * n + (USER_STACK - strings) % WORD + strings
    ensures (USER_STACK - image) % WORD == 0
  { }

  /** The first loop: the strings, last one first */
  method PushStrings(buf: array<Byte>, parse: array<nat>, count: nat, mem: array<Byte>, ghost toks: seq<seq<Byte>>)
    returns (at: nat)
    requires count == |toks| <= parse.Length && buf != mem && mem.Length == PGSIZE && Needed(toks) <= PGSIZE
    requires forall i | 0 <= i < count :: StringAt(buf[..], parse[i], toks[i])
    modifies parse, mem
    ensures at == PGSIZE - |Joined(toks)| && mem[at..] == Joined(toks) && mem[..at] == old(mem[..at])
    ensures forall i | 0 <= i < count :: parse[i] == Addresses(toks, StringsAt(toks))[i]
  {
    hide StringAt;
    at := PGSIZE;
    var i := count;
    ghost var from, below := parse[..], mem[..];
    JoinedRest(toks, count);
    while i > 0
      invariant 0 <= i <= count && at == PGSIZE - |Joined(toks[i..])| && mem[at..] == Joined(toks[i..])
      invariant mem[..at] == below[..at]
      invariant forall k | 0 <= k < i :: parse[k] == from[k]
      invariant forall k | i <= k < count :: parse[k] == StringsAt(toks) + |Joined(toks[..k])|
      invariant forall k | 0 <= k < count :: StringAt(buf[..], from[k], toks[k])
    {
      i := i - 1;
      JoinedRest(toks, i);
      ghost var was := mem[..at];
      at := PushString(buf, parse[i], mem, at, toks[i]);
      assert mem[..at] == was[..at];
      parse[i] := USER_STACK - PGSIZE + at;
    }
    assert toks[0..] == toks;
    assert below[..at] == old(mem[..at]);
    forall k | 0 <= k < count
      ensures parse[k] == Addresses(toks, StringsAt(toks))[k]
    {
      AddressIs(toks, StringsAt(toks), k);
    }
  }

  /** Splitting the strings at number i */
  lemma JoinedRest(toks: seq<seq<Byte>>, i: nat)
    requires i <= |toks|
    ensures |Joined(toks)| == |Joined(toks[..i])| + |Joined(toks[i..])|
    ensures i < |toks| ==> Joined(toks[i..]) == toks[i] + [0] + Joined(toks[i + 1..])
    ensures i == |toks| ==> Joined(toks[i..]) == []
  {
    JoinedAppend(toks[..i], toks[i..]);
    assert toks[..i] + toks[i..] == toks;
    if i < |toks| {
      assert toks[i..][1..] == toks[i + 1..];
    }
  }

  lemma {:induction false} JoinedAppend(a: seq<seq<Byte>>, b: seq<seq<Byte>>)
    ensures Joined(a + b) == Joined(a) + Joined(b)
  {
    if a == [] {
      assert a + b == b;
    } else {
      assert (a + b)[1..] == a[1..] + b;
      JoinedAppend(a[1..], b);
    }
  }

  lemma {:induction false} AddressIs(toks: seq<seq<Byte>>, from: nat, k: nat)
    requires k < |toks|
    ensures Addresses(toks, from)[k] == from + |Joined(toks[..k])|
  {
    if k > 0 {
      AddressIs(toks[1..], from + |toks[0]| + 1, k - 1);
      assert toks[..k][1..] == toks[1..][..k - 1];
    }
  }

  /** The padding loop: the stack pointer becomes a multiple of 8. */
  method PushPadding(mem: array<Byte>, start: nat) returns (at: nat)
    requires start <= mem.Length == PGSIZE && WORD <= start
    modifies mem
    ensures at == start - (USER_STACK - PGSIZE + start) % WORD
    ensures mem[at..] == Zeros((USER_STACK - PGSIZE + start) % WORD) + old(mem[start..]) && mem[..at] == old(mem[..at])
  {
    var padding := (USER_STACK - PGSIZE + start) % WORD;
    at := start;
    ghost var below := mem[..];
    for i := 0 to padding
      invariant at == start - i && mem[at..] == Zeros(i) + below[start..] && mem[..at] == below[..at]
    {
      ghost var was := mem[..];
      at := at - 1;
      mem[at] := 0;
      assert mem[..] == was[at := 0];
      assert mem[at..] == [0] + was[at + 1..];
    }
    assert below[start..] == old(mem[start..]) && below[..at] == old(mem[..at]);
  }

  /** The last loop: the addresses, last one first */
  method PushPointers(parse: array<nat>, count: nat, mem: array<Byte>, start: nat, ghost addrs: seq<nat>)
    returns (at: nat)
    requires count == |addrs| <= parse.Length && WORD * count <= start <= mem.Length
    requires forall i | 0 <= i < count :: parse[i] == addrs[i]
    modifies mem
    ensures at == start - WORD * count && mem[at..] == Pointers(addrs) + old(mem[start..])
    ensures mem[..at] == old(mem[..at])
  {
    hide Pointers, LittleEndian;
    at := start;
    var i := count;
    ghost var below, above := mem[..], mem[start..];
    PointersNone(addrs);
    while i > 0
      invariant 0 <= i <= count && at == start - WORD * (count - i)
      invariant mem[at..] == Pointers(addrs[i..]) + above && mem[..at] == below[..at]
    {
      i := i - 1;
      at := PushBelow(mem, at, parse[i], below, Pointers(addrs[i + 1..]) + above);
      PointersNext(addrs, i, above);
    }
    assert addrs[0..] == addrs;
    assert below[..at] == old(mem[..at]);
  }

  lemma PointersNone(addrs: seq<nat>)
    ensures Pointers(addrs[|addrs|..]) == []
  { }

  lemma PointersNext(addrs: seq<nat>, i: nat, rest: seq<Byte>)
    requires i < |addrs|
    ensures Pointers(addrs[i..]) + rest == LittleEndian(addrs[i], WORD) + (Pointers(addrs[i + 1..]) + rest)
  { }

  // ---------------------------------------------------------------- what the program finds

  /** The 64-bit word at an offset of the stack image */
  function WordAt(image: seq<Byte>, at: nat): nat
    requires at + WORD <= |image|
  {
    var w: seq<nat> := image[at..at + WORD];
    w[0] + 0x100 * w[1] + 0x1_0000 * w[2] + 0x100_0000 * w[3] + 0x1_0000_0000 * w[4]
    + 0x100_0000_0000 * w[5] + 0x1_0000_0000_0000 * w[6] + 0x100_0000_0000_0000 * w[7]
  }

  lemma WordOf(a: seq<Byte>, v: nat, b: seq<Byte>)
    requires v < 0x1_0000_0000_0000_0000
    ensures WordAt(a + LittleEndian(v, WORD) + b, |a|) == v
  {
    var w := LittleEndian(v, WORD);
    assert (a + w + b)[|a|..|a| + WORD] == w;
    WordRead(v);
    hide LittleEndian;
  }

  lemma {:induction false} PointersAt(addrs: seq<nat>, i: nat)
    requires i < |addrs|
    ensures Pointers(addrs) == Pointers(addrs[..i]) + LittleEndian(addrs[i], WORD) + Pointers(addrs[i + 1..])
  {
    if i > 0 {
      PointersAt(addrs[1..], i - 1);
      assert addrs[..i][1..] == addrs[1..][..i - 1] && addrs[..i][0] == addrs[0];
      assert addrs[1..][i..] == addrs[i + 1..];
    }
  }

  /** A program that is started finds a null return address, argv[i] pointing to word i, and a null pointer behind
      argv. */
  lemma ArgvRead(toks: seq<seq<Byte>>, i: nat)
    requires Needed(toks) <= PGSIZE && i < |toks| && forall k | 0 <= k < |toks| :: Line(toks[k])
    ensures |Joined(toks)| <= USER_STACK && WORD * (|toks| + 2) <= |Image(toks)|
    ensures var image := Image(toks);
            var address := WordAt(image, WORD + WORD * i);
            && WordAt(image, 0) == 0 && WordAt(image, WORD + WORD * |toks|) == 0
            && USER_STACK - |image| <= address
            && StringAt(image, address - (USER_STACK - |image|), toks[i])
    // the words end at the top, in order, and fewer than eight zeros lie between them and argv
    ensures var image, words := Image(toks), |Joined(toks)|;
            && WordAt(image, WORD + WORD * i) == USER_STACK - |Joined(toks[i..])|
            && 0 <= |image| - words - WORD * (|toks| + 2) < WORD
            && forall k | WORD * (|toks| + 2) <= k < |image| - words :: image[k] == 0
  {
    hide LittleEndian, Pointers, Joined, Addresses, Zeros, WordAt, Image, StringAt;
    ImageIs(toks);
    var addrs := Addresses(toks, StringsAt(toks));
    var z, p, tail := LittleEndian(0, WORD), Pointers(addrs), Zeros(StringsAt(toks) % WORD) + Joined(toks);
    AddressIs(toks, StringsAt(toks), i);
    JoinedRest(toks, i);
    PointersAt(addrs, i);
    ReadWords(Image(toks), z, Pointers(addrs[..i]), addrs[i], Pointers(addrs[i + 1..]), p, tail, i, |toks|);
    StringInImage(toks, i, z + (p + (z + Zeros(StringsAt(toks) % WORD))));
    assert Image(toks) == z + (p + (z + Zeros(StringsAt(toks) % WORD))) + Joined(toks);
    ZerosAre(StringsAt(toks) % WORD);
    assert Image(toks) == (z + p + z) + Zeros(StringsAt(toks) % WORD) + Joined(toks);
  }

  lemma ZerosAre(n: nat)
    ensures forall k | 0 <= k < n :: Zeros(n)[k] == 0
  { }

  lemma ReadWords(image: seq<Byte>, z: seq<Byte>, before: seq<Byte>, v: nat, after: seq<Byte>, p: seq<Byte>,
                  tail: seq<Byte>, i: nat, n: nat)
    requires z == LittleEndian(0, WORD) && p == before + LittleEndian(v, WORD) + after && image == z + (p + (z + tail))
    requires |before| == WORD * i && |p| == WORD * n && v < 0x1_0000_0000_0000_0000
    ensures WORD + WORD * i + WORD <= |image| && WORD * (n + 2) <= |image|
    ensures WordAt(image, 0) == 0 && WordAt(image, WORD + WORD * i) == v && WordAt(image, WORD + WORD * n) == 0
  {
    hide LittleEndian, WordAt;
    WordOf([], 0, p + (z + tail));
    assert image == [] + z + (p + (z + tail));
    WordOf(z + before, v, after + (z + tail));
    assert image == (z + before) + LittleEndian(v, WORD) + (after + (z + tail));
    WordOf(z + p, 0, tail);
    assert image == (z + p) + z + tail;
  }

  lemma StringInImage(toks: seq<seq<Byte>>, i: nat, front: seq<Byte>)
    requires i < |toks| && Line(toks[i])
    ensures StringAt(front + Joined(toks), |front| + |Joined(toks[..i])|, toks[i])
  {
    JoinedAppend(toks[..i], toks[i..]);
    assert toks[..i] + toks[i..] == toks;
    JoinedRest(toks, i);
    var t, rest := toks[i], Joined(toks[i + 1..]);
    var head := front + Joined(toks[..i]);
    assert front + Joined(toks) == head + t + [0] + rest;
    assert (head + t + [0] + rest)[|head|..|head| + |t|] == t;
  }

  /** Line to stack: process_exec's two steps one after the other, from a command line to the words' image on the
      stack. */
  method PassArguments(buf: array<Byte>, mem: array<Byte>, ghost s: seq<Byte>)
    returns (ok: bool, argc: nat, argv: nat, rsp: nat, ghost runs: seq<(nat, nat)>)
    requires Line(s) && buf[..] == s + [0] && buf != mem && mem.Length == PGSIZE
    requires forall r, n | Runs(s, r, n) :: Needed(Words(s, r)) <= PGSIZE
    modifies buf, mem
    ensures ok ==> Runs(s, runs, |s|) && argc == |runs| <= MAX_ARGS
    ensures ok ==> |Joined(Words(s, runs))| <= USER_STACK && rsp == USER_STACK - |Image(Words(s, runs))|
    ensures ok ==> argv == rsp + WORD
    ensures ok ==> rsp % WORD == 0 && |Image(Words(s, runs))| <= PGSIZE
    ensures ok ==> mem[rsp - (USER_STACK - PGSIZE)..] == Image(Words(s, runs))
    ensures !ok ==> |runs| == MAX_ARGS + 1 && exists n :: 0 <= n <= |s| && Runs(s, runs, n)
  {
    var parse := new nat[MAX_ARGS];
    argc, argv, rsp := 0, 0, 0;
    ok, argc, runs := Tokenise(buf, parse, s);
    if ok {
      ghost var toks := Words(s, runs);
      rsp := ArgumentStack(buf, parse, argc, mem, toks);
      argv := rsp + WORD;
    }
  }
}
