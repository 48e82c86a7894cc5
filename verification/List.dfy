/** The intrusive doubly linked list of lib/kernel/list.c, with its in-place natural merge sort. */
module List {
  import opened MergeRuns
  import opened Sequences

  class ListElem {
    var prev: ListElem?
    var next: ListElem?

    constructor ()
      ensures prev == null && next == null
    {
      prev, next := null, null;
    }
  }

  type Nodes = seq<ListElem>

  /** From head to tail every node is linked to the one after it and back; only the ends have null links. */
  ghost predicate Chain(ns: Nodes)
    reads ns
  {
    && |ns| >= 2 && Distinct(ns)
    && ns[0].prev == null && ns[|ns| - 1].next == null
    && (forall j {:trigger ns[j].next} | 0 <= j < |ns| - 1 :: ns[j].next == ns[j + 1])
    && (forall j {:trigger ns[j].prev} | 0 < j < |ns| :: ns[j].prev == ns[j - 1])
  }

  /** Nodes f to l (exclusive) moved in front of node b. */
  function Spliced(ns: Nodes, b: nat, f: nat, l: nat): Nodes
    requires f <= l <= |ns| && b < |ns| && (b < f || l <= b)
  {
    if b < f then Exchanged(ns, b, f, l) else Exchanged(ns, f, l, b)
  }

  /** The adjacent segments p to q and q to r, exchanged. */
  function Exchanged(ns: Nodes, p: nat, q: nat, r: nat): Nodes
    requires p <= q <= r <= |ns|
  {
    ns[..p] + ns[q..r] + ns[p..q] + ns[r..]
  }

  /** The links of the chain ns after the six updates of exchanging two segments, node by node. */
  ghost predicate Relinked(ns: Nodes, p: nat, q: nat, r: nat)
    requires 0 < p < q < r < |ns|
    reads ns
  {
    && ns[0].prev == null && ns[|ns| - 1].next == null
    && (forall j {:trigger ns[j].next} | 0 <= j < |ns| - 1 ::
          ns[j].next == ns[if j == p - 1 then q else if j == r - 1 then p else if j == q - 1 then r else j + 1])
    && (forall j {:trigger ns[j].prev} | 0 < j < |ns| ::
          ns[j].prev == ns[if j == q then p - 1 else if j == p then r - 1 else if j == r then q - 1 else j - 1])
  }

  lemma ExchangedAt(ns: Nodes, p: nat, q: nat, r: nat, i: nat)
    requires 0 < p < q < r < |ns| && i < |ns|
    ensures |Exchanged(ns, p, q, r)| == |ns|
    ensures Exchanged(ns, p, q, r)[i]
         == ns[if i < p || r <= i then i else if i < p + r - q then q + i - p else i - (r - q)]
  { }

  lemma ExchangedDistinct(ns: Nodes, p: nat, q: nat, r: nat)
    requires 0 < p < q < r < |ns| && Distinct(ns)
    ensures |Exchanged(ns, p, q, r)| == |ns| && Distinct(Exchanged(ns, p, q, r))
  {
    hide Exchanged;
    var e := Exchanged(ns, p, q, r);
    ExchangedAt(ns, p, q, r, 0);
    forall i, j | 0 <= i < j < |e|
      ensures e[i] != e[j]
    {
      ExchangedAt(ns, p, q, r, i);
      ExchangedAt(ns, p, q, r, j);
    }
  }

  lemma RelinkedChain(ns: Nodes, p: nat, q: nat, r: nat)
    requires 0 < p < q < r < |ns| && Distinct(ns) && Relinked(ns, p, q, r)
    ensures Chain(Exchanged(ns, p, q, r))
    ensures |Exchanged(ns, p, q, r)| == |ns|
    ensures Exchanged(ns, p, q, r)[0] == ns[0] && Exchanged(ns, p, q, r)[|ns| - 1] == ns[|ns| - 1]
  {
    hide Exchanged;
    var e := Exchanged(ns, p, q, r);
    ExchangedDistinct(ns, p, q, r);
    ExchangedAt(ns, p, q, r, 0);
    ExchangedAt(ns, p, q, r, |ns| - 1);
    forall i | 0 <= i < |e| - 1
      ensures e[i].next == e[i + 1]
    {
      ExchangedAt(ns, p, q, r, i);
      ExchangedAt(ns, p, q, r, i + 1);
    }
    forall i | 0 < i < |e|
      ensures e[i].prev == e[i - 1]
    {
      ExchangedAt(ns, p, q, r, i);
      ExchangedAt(ns, p, q, r, i - 1);
    }
  }

  lemma ExchangedNone(ns: Nodes, p: nat, q: nat)
    requires p <= |ns| && q <= |ns|
    ensures p <= q ==> Exchanged(ns, p, q, q) == ns && Exchanged(ns, p, p, q) == ns
  { }

  lemma SplicedNone(ns: Nodes, b: nat, f: nat, l: nat)
    requires Distinct(ns) && f <= l < |ns| && b < |ns| && (b < f || l <= b) && ns[f] == ns[l]
    ensures Spliced(ns, b, f, l) == ns
  { }

  lemma ChainDistinct(ns: Nodes)
    requires Chain(ns)
    ensures Distinct(ns)
  { }

  lemma LastNode(ns: Nodes, l: nat)
    requires Chain(ns) && 0 < l < |ns|
    ensures ns[l].prev == ns[l - 1]
  { }

  lemma DistinctAt(ns: Nodes, k: nat)
    requires Distinct(ns) && k < |ns|
    ensures forall j | 0 <= j < |ns| && j != k :: ns[j] != ns[k]
  { }

  /** Links of the chain ns once nodes f to l (exclusive) have been cut out. */
  ghost predicate Detached(ns: Nodes, f: nat, l: nat)
    requires 0 < f < l < |ns|
    reads ns
  {
    && ns[0].prev == null && ns[|ns| - 1].next == null
    && ns[f - 1].next == ns[l] && ns[l].prev == ns[f - 1]
    && (forall j {:trigger ns[j].next} | 0 <= j < |ns| - 1 && j != f - 1 :: ns[j].next == ns[j + 1])
    && (forall j {:trigger ns[j].prev} | 0 < j < |ns| && j != l :: ns[j].prev == ns[j - 1])
  }

  /** Links of the chain ns once they have been put back in front of node b. */
  ghost predicate Attached(ns: Nodes, p: nat, b: nat, f: nat, l: nat)
    requires 0 < f < l < |ns| && 0 < b < |ns| && (b < f || l <= b)
    requires p == if l == b then f - 1 else b - 1
    reads ns
  {
    && ns[0].prev == null && ns[|ns| - 1].next == null
    && ns[p].next == ns[f] && ns[f].prev == ns[p] && ns[l - 1].next == ns[b] && ns[b].prev == ns[l - 1]
    && (l != b ==> ns[f - 1].next == ns[l] && ns[l].prev == ns[f - 1])
    && (forall j {:trigger ns[j].next} | 0 <= j < |ns| - 1 && j != f - 1 && j != p && j != l - 1 ::
          ns[j].next == ns[j + 1])
    && (forall j {:trigger ns[j].prev} | 0 < j < |ns| && j != l && j != f && j != b :: ns[j].prev == ns[j - 1])
  }

  lemma SplicedChain(ns: Nodes, b: nat, f: nat, l: nat)
    requires 0 < f < l < |ns| && 0 < b < |ns| && (b < f || l <= b) && Distinct(ns)
    requires Attached(ns, if l == b then f - 1 else b - 1, b, f, l)
    ensures var r := Spliced(ns, b, f, l);
            Chain(r) && |r| == |ns| && r[0] == ns[0] && r[|r| - 1] == ns[|ns| - 1]
  {
    hide Distinct, Exchanged;
    if b < f {
      RelinkedChain(ns, b, f, l);
    } else if l < b {
      RelinkedChain(ns, f, l, b);
    } else {
      ExchangedNone(ns, f, l);
    }
  }

  /** The merge of ns[p..m] and ns[m..q] is done up to x; nodes x to y and y to q are what is left of the two ranges. */
  ghost predicate Merging(ns: Nodes, p: nat, m: nat, q: nat, now: Nodes, x: nat, y: nat, less: Order<ListElem>)
    requires p <= m <= q <= |ns| && p <= x <= y <= q && |now| == |ns|
  {
    && now[..p] == ns[..p] && now[q..] == ns[q..]
    && Merge(ns[p..m], ns[m..q], less) == now[p..x] + Merge(now[x..y], now[y..q], less)
  }

  lemma MergingStart(ns: Nodes, p: nat, m: nat, q: nat, less: Order<ListElem>)
    requires p <= m <= q <= |ns|
    ensures Merging(ns, p, m, q, ns, p, m, less)
  { }

  lemma MergingAdvance(ns: Nodes, p: nat, m: nat, q: nat, now: Nodes, x: nat, y: nat, less: Order<ListElem>)
    requires p <= m <= q <= |ns| && p <= x < y < q && |now| == |ns| && Merging(ns, p, m, q, now, x, y, less)
    requires !less(now[y], now[x])
    ensures Merging(ns, p, m, q, now, x + 1, y, less)
  { }

  lemma MergingTake(ns: Nodes, p: nat, m: nat, q: nat, now: Nodes, x: nat, y: nat, less: Order<ListElem>)
    requires p <= m <= q < |ns| && p <= x < y < q && |now| == |ns| && Merging(ns, p, m, q, now, x, y, less)
    requires less(now[y], now[x])
    ensures var r := Spliced(now, x, y, y + 1);
            && |r| == |ns| && r[q] == now[q] && r[x + 1] == now[x] && r[y + 1] == now[y + 1]
            && (forall n | n in r :: n in now) && Merging(ns, p, m, q, r, x + 1, y + 1, less)
  {
    hide Spliced, Merge;
    var s, t := now[x..y], now[y..q];
    var r := Spliced(now, x, y, y + 1);
    SpliceOne(now, p, x, y, q);
    SpliceOneAt(now, x, y, q);
    SpliceOneNodes(now, x, y);
    MergeStep(s, t, less);
    assert t[1..] == now[y + 1..q];
    var rest := Merge(s, t[1..], less);
    Associative(now[p..x], [now[y]], rest);
  }

  lemma SpliceOneAt(ns: Nodes, x: nat, y: nat, q: nat)
    requires x < y < q < |ns|
    ensures var r := Spliced(ns, x, y, y + 1);
            |r| == |ns| && r[q] == ns[q] && r[x + 1] == ns[x] && r[y + 1] == ns[y + 1]
  { }

  lemma DistinctIndex(ns: Nodes, i: nat, j: nat)
    requires Chain(ns) && i < |ns| && j < |ns| && ns[i] == ns[j]
    ensures i == j
  { }

  lemma MergingDone(ns: Nodes, p: nat, m: nat, q: nat, now: Nodes, x: nat, y: nat, less: Order<ListElem>)
    requires p <= m <= q <= |ns| && p <= x <= y <= q && |now| == |ns| && Merging(ns, p, m, q, now, x, y, less)
    requires x == y || y == q
    ensures now == ns[..p] + Merge(ns[p..m], ns[m..q], less) + ns[q..]
  { }

  /** Node y moved to the front of the range that starts at x. */
  lemma SpliceOne(ns: Nodes, p: nat, x: nat, y: nat, q: nat)
    requires p <= x < y < q <= |ns|
    ensures var r := Spliced(ns, x, y, y + 1);
            && |r| == |ns| && r[..p] == ns[..p] && r[q..] == ns[q..]
            && r[p..x + 1] == ns[p..x] + [ns[y]] && r[x + 1..y + 1] == ns[x..y] && r[y + 1..q] == ns[y + 1..q]
  {
    hide Spliced;
    SpliceOnePoint(ns, x, y);
    SpliceOneSame(ns, x, y, 0, p);
    SpliceOneSame(ns, x, y, p, x);
    SpliceOneSame(ns, x, y, y + 1, q);
    SpliceOneSame(ns, x, y, q, |ns|);
    SpliceOneShift(ns, x, y);
    var r := Spliced(ns, x, y, y + 1);
    assert r[..p] == r[0..p] && ns[..p] == ns[0..p];
    assert r[q..] == r[q..|r|] && ns[q..] == ns[q..|ns|];
    SliceSnoc(r, p, x);
  }

  lemma SpliceOneSame(ns: Nodes, x: nat, y: nat, lo: nat, hi: nat)
    requires x < y < |ns| && lo <= hi <= |ns| && (hi <= x || y < lo)
    ensures |Spliced(ns, x, y, y + 1)| == |ns| && Spliced(ns, x, y, y + 1)[lo..hi] == ns[lo..hi]
  { }

  lemma SpliceOneShift(ns: Nodes, x: nat, y: nat)
    requires x < y < |ns|
    ensures |Spliced(ns, x, y, y + 1)| == |ns| && Spliced(ns, x, y, y + 1)[x + 1..y + 1] == ns[x..y]
  { }

  lemma SliceSnoc(s: Nodes, p: nat, x: nat)
    requires p <= x < |s|
    ensures s[p..x + 1] == s[p..x] + [s[x]]
  { }

  lemma SpliceOnePoint(ns: Nodes, x: nat, y: nat)
    requires x < y < |ns|
    ensures var r := Spliced(ns, x, y, y + 1);
            && |r| == |ns|
            && forall i | 0 <= i < |ns| :: r[i] == if i < x || y < i then ns[i] else if i == x then ns[y] else ns[i - 1]
    ensures Spliced(ns, x, y, y + 1)[x] == ns[y]
  {
  }

  lemma SpliceOneNodes(ns: Nodes, x: nat, y: nat)
    requires x < y < |ns|
    ensures forall n | n in Spliced(ns, x, y, y + 1) :: n in ns
  { }

  lemma SliceOfSlice(s: Nodes, lo: nat, hi: nat, a: nat, b: nat)
    requires a <= b && lo + b <= hi <= |s|
    ensures s[lo..hi][a..b] == s[lo + a..lo + b]
  {
    var t := s[lo..hi];
    assert forall k | 0 <= k < |t| :: t[k] == s[lo + k];
    SameSlice(t, a, b, s, lo + a);
  }

  lemma SameSlice(s: Nodes, lo: nat, hi: nat, t: Nodes, at: nat)
    requires lo <= hi <= |s| && at + hi - lo <= |t|
    requires forall k | lo <= k < hi :: s[k] == t[k - lo + at]
    ensures s[lo..hi] == t[at..at + hi - lo]
  { }

  lemma NodeLinks(ns: Nodes, k: nat)
    requires Chain(ns) && 0 < k < |ns| - 1
    ensures ns[k].next == ns[k + 1] && ns[k + 1].prev == ns[k]
    ensures forall j | 0 <= j < |ns| && ns[j] == ns[k] :: j == k
  { }

  /** From i to j no element is less than the one before it, and the one at j, if there is one, is. */
  ghost predicate MaximalRun(nodes: Nodes, i: nat, j: nat, less: Order<ListElem>) {
    && i < j < |nodes| && (forall k | i < k < j :: !less(nodes[k], nodes[k - 1]))
    && (j < |nodes| - 1 ==> less(nodes[j], nodes[j - 1]))
  }

  /** A pass over s is done up to node x, having put out cnt runs. */
  ghost predicate Passing(s: Nodes, now: Nodes, x: nat, cnt: nat, less: Order<ListElem>)
    requires 1 <= x < |now|
  {
    var rest := now[x..|now| - 1];
    Pass(s, less) == now[1..x] + Pass(rest, less) && PassCount(s, less) == cnt + PassCount(rest, less)
  }

  lemma FirstNode(ns: Nodes)
    requires Chain(ns)
    ensures ns[0].next == ns[1]
  { }

  lemma PassingStart(ns: Nodes, less: Order<ListElem>)
    requires |ns| >= 2
    ensures Passing(ns[1..|ns| - 1], ns, 1, 0, less)
  { }

  lemma PassingLast(s: Nodes, now: Nodes, x: nat, cnt: nat, less: Order<ListElem>)
    requires 1 <= x < |now| - 1 && Passing(s, now, x, cnt, less)
    requires RunEnd(now[..|now| - 1], x, less) == |now| - 1
    ensures Passing(s, now, |now| - 1, cnt + 1, less)
  {
    var all, rest := now[..|now| - 1], now[x..|now| - 1];
    assert all[x..] == rest;
    RunEndDrop(all, x, 0, less);
    assert now[1..|now| - 1] == now[1..x] + rest;
    assert now[|now| - 1..|now| - 1] == [];
  }

  lemma PassingDone(s: Nodes, now: Nodes, cnt: nat, less: Order<ListElem>)
    requires |now| >= 2 && Passing(s, now, |now| - 1, cnt, less)
    ensures now[1..|now| - 1] == Pass(s, less) && PassCount(s, less) == cnt
  { }

  lemma PassingStep(s: Nodes, was: Nodes, x: nat, m: nat, q: nat, now: Nodes, cnt: nat, less: Order<ListElem>)
    requires 1 <= x < m < q < |was| && Passing(s, was, x, cnt, less)
    requires RunEnd(was[..|was| - 1], x, less) == m && RunEnd(was[..|was| - 1], m, less) == q
    requires now == was[..x] + Merge(was[x..m], was[m..q], less) + was[q..]
    ensures |now| == |was| && now[q] == was[q] && Passing(s, now, q, cnt + 1, less)
  {
    hide Pass, PassCount, Merge, RunEnd;
    var rest := was[x..|was| - 1];
    RunsOfRest(was, x, m, q, less);
    PassStep(rest, m - x, q - x, less);
    SliceOfSlice(was, x, |was| - 1, 0, m - x);
    SliceOfSlice(was, x, |was| - 1, m - x, q - x);
    SliceOfSlice(was, x, |was| - 1, q - x, |was| - 1 - x);
    var merged := Merge(was[x..m], was[m..q], less);
    MergedParts(was, x, q, merged, now);
    assert was[1..x] + (merged + Pass(rest[q - x..], less)) == now[1..q] + Pass(rest[q - x..], less);
  }

  lemma MergedParts(was: Nodes, x: nat, q: nat, merged: Nodes, now: Nodes)
    requires 1 <= x <= q < |was| && |merged| == q - x && now == was[..x] + merged + was[q..]
    ensures |now| == |was| && now[q] == was[q]
    ensures now[1..q] == was[1..x] + merged && now[q..|now| - 1] == was[q..|was| - 1]
  { }

  lemma RunsOfRest(was: Nodes, x: nat, m: nat, q: nat, less: Order<ListElem>)
    requires 1 <= x < m < q < |was|
    requires RunEnd(was[..|was| - 1], x, less) == m && RunEnd(was[..|was| - 1], m, less) == q
    ensures var rest := was[x..|was| - 1];
            rest != [] && RunEnd(rest, 0, less) == m - x && m - x < |rest| && RunEnd(rest, m - x, less) == q - x
  {
    hide RunEnd;
    var all := was[..|was| - 1];
    assert all[x..] == was[x..|was| - 1];
    RunEndDrop(all, x, 0, less);
    RunEndDrop(all, x, m - x, less);
  }

  lemma PassStep(rest: Nodes, a: nat, b: nat, less: Order<ListElem>)
    requires rest != [] && RunEnd(rest, 0, less) == a && a < |rest| && RunEnd(rest, a, less) == b
    ensures Pass(rest, less) == Merge(rest[..a], rest[a..b], less) + Pass(rest[b..], less)
    ensures PassCount(rest, less) == 1 + PassCount(rest[b..], less)
  { }

  ghost predicate Keeps(s: Nodes, r: Nodes, less: Order<ListElem>, u: set<ListElem>) {
    multiset(r) == multiset(s) && forall x | x in u :: Same(r, x, less) == Same(s, x, less)
  }

  lemma AfterPass(s: Nodes, t: Nodes, less: Order<ListElem>, u: set<ListElem>)
    requires StrictWeak(less, u) && Within(t, u) && Keeps(s, t, less, u)
    ensures var r := Pass(t, less);
            && Within(r, u) && Keeps(s, r, less, u)
            && (PassCount(t, less) <= 1 ==> StableSort(s, r, less, u))
            && (PassCount(t, less) > 1 ==> Runs(r, less) < Runs(t, less))
  {
    var r := Pass(t, less);
    PassElements(t, less);
    forall x | x in u
      ensures Same(r, x, less) == Same(s, x, less)
    {
      PassStable(t, x, less, u);
    }
    PassRuns(t, less, u);
    PassHalves(t, less);
    forall x | x in r
      ensures x in u
    {
      assert x in multiset(r);
      assert x in multiset(t);
    }
    if PassCount(t, less) <= 1 {
      OneRunSorted(r, less, u);
    }
  }

  /** The element is behind all that it is not less than, and before all others. */
  ghost predicate PlacedAt(s: Nodes, s': Nodes, k: int, elem: ListElem, less: Order<ListElem>) {
    && 0 <= k <= |s| && s' == s[..k] + [elem] + s[k..]
    && (forall e | e in s[..k] :: !less(elem, e)) && (forall e | e in s[k..] :: less(elem, e))
  }

  lemma InsertSorted(s: Nodes, k: nat, elem: ListElem, less: Order<ListElem>, u: set<ListElem>)
    requires StrictWeak(less, u) && Within(s, u) && elem in u && Sorted(s, less) && k <= |s|
    requires forall j | 0 <= j < k :: !less(elem, s[j])
    requires k < |s| ==> less(elem, s[k])
    ensures Sorted(s[..k] + [elem] + s[k..], less)
    ensures PlacedAt(s, s[..k] + [elem] + s[k..], k, elem, less)
  { }

  lemma InnerInserted(was: Nodes, i: nat, elem: ListElem)
    requires 1 <= i < |was|
    ensures var s, now := was[1..|was| - 1], was[..i] + [elem] + was[i..];
            now[1..|now| - 1] == s[..i - 1] + [elem] + s[i - 1..]
  {
    var s, now := was[1..|was| - 1], was[..i] + [elem] + was[i..];
    assert s[..i - 1] == was[1..i];
    assert s[i - 1..] == was[i..|was| - 1];
    assert was[..i] == [was[0]] + was[1..i];
    assert was[i..] == was[i..|was| - 1] + [was[|was| - 1]];
  }

  lemma InsertedInner(was: Nodes, i: nat, elem: ListElem, less: Order<ListElem>, u: set<ListElem>)
    requires 1 <= i < |was| && (forall j | 1 <= j < i :: !less(elem, was[j])) && (i < |was| - 1 ==> less(elem, was[i]))
    requires var s := was[1..|was| - 1]; StrictWeak(less, u) && Within(s, u) && elem in u && Sorted(s, less)
    ensures var s, now := was[1..|was| - 1], was[..i] + [elem] + was[i..];
            Sorted(now[1..|now| - 1], less) && PlacedAt(s, now[1..|now| - 1], i - 1, elem, less)
  {
    hide PlacedAt, Sorted, StrictWeak, Within;
    var s := was[1..|was| - 1];
    InnerInserted(was, i, elem);
    assert i - 1 < |s| ==> s[i - 1] == was[i];
    assert forall j | 0 <= j < i - 1 :: s[j] == was[j + 1];
    InsertSorted(s, i - 1, elem, less, u);
  }

  class List {
    const head: ListElem
    const tail: ListElem
    ghost var nodes: Nodes   // head, the interior elements, tail

    ghost predicate Valid()
      reads this, nodes
    {
      |nodes| >= 2 && Chain(nodes) && nodes[0] == head && nodes[|nodes| - 1] == tail
    }

    ghost function Inner(): Nodes
      requires |nodes| >= 2
      reads this
    {
      nodes[1..|nodes| - 1]
    }

    constructor ()
      ensures Valid() && Inner() == [] && fresh(nodes)
    {
      head := new ListElem();
      tail := new ListElem();
      new;
      head.next := tail;
      tail.prev := head;
      nodes := [head, tail];
    }

    method ListInsert(before: ListElem, elem: ListElem, ghost b: nat)
      requires Valid() && 0 < b < |nodes| && nodes[b] == before && elem !in nodes
      modifies this`nodes, elem, nodes
      ensures Valid() && nodes == old(nodes[..b] + [elem] + nodes[b..])
    {
      ghost var ns := nodes[..b] + [elem] + nodes[b..];
      assert before.prev == nodes[b - 1];
      elem.prev := before.prev;
      elem.next := before;
      before.prev.next := elem;
      before.prev := elem;
      nodes := ns;
    }

    method ListRemove(elem: ListElem, ghost k: nat) returns (next: ListElem)
      requires Valid() && 0 < k < |nodes| - 1 && nodes[k] == elem
      modifies this`nodes, nodes
      ensures Valid() && nodes == old(nodes[..k] + nodes[k + 1..]) && next == nodes[k]
      ensures elem.prev == old(elem.prev) && elem.next == old(elem.next)
    {
      ghost var ns := nodes[..k] + nodes[k + 1..];
      assert elem.prev == nodes[k - 1] && elem.next == nodes[k + 1];
      elem.prev.next := elem.next;
      elem.next.prev := elem.prev;
      nodes := ns;
      next := elem.next;
    }

    /** Moves first to last (exclusive) in front of before, which must not be among them. */
    method ListSplice(before: ListElem, first: ListElem, last: ListElem, ghost b: nat, ghost f: nat, ghost l: nat)
      requires Valid() && 0 < f <= l < |nodes| && 0 < b < |nodes| && (b < f || l <= b)
      requires nodes[b] == before && nodes[f] == first && nodes[l] == last
      modifies this`nodes, nodes
      ensures Valid() && nodes == Spliced(old(nodes), b, f, l)
    {
      hide Chain, Distinct, Spliced, Detached, Attached;
      ChainDistinct(nodes);
      if first == last {
        SplicedNone(nodes, b, f, l);
        return;
      }
      var end := last.prev;
      LastNode(nodes, l);
      Detach(first, end, f, l);
      Attach(before, first, end, if l == b then f - 1 else b - 1, b, f, l);
      SplicedChain(nodes, b, f, l);
      nodes := Spliced(nodes, b, f, l);
    }

    /** The first half of a splice: the neighbours of first to end are linked to each other. */
    method Detach(first: ListElem, end: ListElem, ghost f: nat, ghost l: nat)
      requires Valid() && 0 < f < l < |nodes| && nodes[f] == first && nodes[l - 1] == end
      modifies nodes
      ensures Detached(nodes, f, l)
    {
      assert first.prev == nodes[f - 1] && end.next == nodes[l];
      first.prev.next := end.next;
      end.next.prev := first.prev;
    }

    /** The second half: first to end are linked in between before and the node p that now precedes it. */
    method Attach(before: ListElem, first: ListElem, end: ListElem, ghost p: nat, ghost b: nat, ghost f: nat,
                  ghost l: nat)
      requires 0 < f < l < |nodes| && 0 < b < |nodes| && (b < f || l <= b) && Distinct(nodes)
      requires p == if l == b then f - 1 else b - 1
      requires nodes[b] == before && nodes[f] == first && nodes[l - 1] == end && Detached(nodes, f, l)
      modifies nodes
      ensures Attached(nodes, p, b, f, l)
    {
      hide Distinct;
      assert before.prev == nodes[p];
      DistinctAt(nodes, f); DistinctAt(nodes, l - 1); DistinctAt(nodes, b); DistinctAt(nodes, p);
      ghost var last := nodes[|nodes| - 1];
      assert nodes[0] != before && nodes[0] != first && last != end && last != nodes[p];
      first.prev := before.prev;
      end.next := before;
      before.prev.next := first;
      before.prev := end;
    }

    /** The exclusive end of the nondecreasing run that starts at a. */
    method FindEndOfRun(a: ListElem, b: ListElem, less: Order<ListElem>, ghost i: nat)
      returns (e: ListElem, ghost j: nat)
      requires Valid() && 0 < i < |nodes| - 1 && nodes[i] == a && b == tail
      ensures j == RunEnd(nodes[..|nodes| - 1], i, less) && i < j < |nodes| && e == nodes[j]
      ensures e == tail <==> j == |nodes| - 1
      ensures MaximalRun(nodes, i, j, less)
    {
      ghost var s := nodes[..|nodes| - 1];
      e, j := a.next, i + 1;
      while e != b && !less(e, e.prev)
        invariant i < j < |nodes| && e == nodes[j]
        invariant RunEnd(s, i, less) == if j < |s| then RunEnd(s, j - 1, less) else |s|
        invariant forall k | i < k < j :: !less(nodes[k], nodes[k - 1])
        decreases |nodes| - j
      {
        e := e.next;
        j := j + 1;
      }
    }

    /** Merges the adjacent ranges a0 to a1b0 and a1b0 to b1 (exclusive) in place. */
    method InplaceMerge(a0: ListElem, a1b0: ListElem, b1: ListElem, less: Order<ListElem>, ghost p: nat, ghost m: nat,
                        ghost q: nat)
      requires Valid() && 0 < p < m < q < |nodes| && nodes[p] == a0 && nodes[m] == a1b0 && nodes[q] == b1
      modifies this`nodes, nodes
      ensures Valid() && |nodes| == |old(nodes)| && (forall n | n in nodes :: n in old(nodes))
      ensures nodes == old(nodes)[..p] + Merge(old(nodes)[p..m], old(nodes)[m..q], less) + old(nodes)[q..]
    {
      hide Chain, Merge, Spliced, Merging;
      ghost var ns := nodes;
      var a, b := a0, a1b0;
      ghost var x, y := p, m;
      MergingStart(ns, p, m, q, less);
      while a != b && b != b1
        invariant Valid() && |nodes| == |ns| && (forall n | n in nodes :: n in old(nodes))
        invariant p <= x <= y <= q && nodes[x] == a && nodes[y] == b && nodes[q] == b1
        invariant Merging(ns, p, m, q, nodes, x, y, less)
        decreases q - x, q - y
      {
        NodeLinks(nodes, x);
        NodeLinks(nodes, y);
        if !less(b, a) {
          MergingAdvance(ns, p, m, q, nodes, x, y, less);
          a := a.next;
          x := x + 1;
        } else {
          MergingTake(ns, p, m, q, nodes, x, y, less);
          b := b.next;
          assert forall i | 0 <= i < |nodes| :: nodes[i] in old(nodes);
          ListSplice(a, b.prev, b, x, y, y + 1);
          x, y := x + 1, y + 1;
        }
      }
      if a == b {
        DistinctIndex(nodes, x, y);
      } else {
        DistinctIndex(nodes, y, q);
      }
      MergingDone(ns, p, m, q, nodes, x, y, less);
    }

    /** One round of the pass: the run at a0 and the next one, if there is one, become one. */
    method MergeRound(a0: ListElem, less: Order<ListElem>, ghost x: nat, ghost s: Nodes, ghost cnt: nat)
      returns (b1: ListElem, ghost q: nat)
      requires Valid() && 1 <= x < |nodes| - 1 && nodes[x] == a0 && Passing(s, nodes, x, cnt, less)
      modifies this`nodes, nodes
      ensures Valid() && |nodes| == |old(nodes)| && (forall n | n in nodes :: n in old(nodes))
      ensures x < q < |nodes| && nodes[q] == b1 && Passing(s, nodes, q, cnt + 1, less)
    {
      hide Chain, Merge, Pass, PassCount, RunEnd, Passing, MaximalRun;
      var a1b0, m := FindEndOfRun(a0, tail, less, x);
      if a1b0 == tail {
        PassingLast(s, nodes, x, cnt, less);
        return a1b0, m;
      }
      b1, q := FindEndOfRun(a1b0, tail, less, m);
      ghost var now := nodes;
      InplaceMerge(a0, a1b0, b1, less, x, m, q);
      PassingStep(s, now, x, m, q, nodes, cnt, less);
    }

    /** One pass over the list, merging adjacent runs; returns how many runs it put out. */
    method MergePass(less: Order<ListElem>) returns (outputRunCnt: nat)
      requires Valid()
      modifies this`nodes, nodes
      ensures Valid() && |nodes| == |old(nodes)| && (forall n | n in nodes :: n in old(nodes))
      ensures Inner() == Pass(old(Inner()), less) && outputRunCnt == PassCount(old(Inner()), less)
    {
      hide Chain, Pass, PassCount, Passing;
      ghost var s := Inner();
      outputRunCnt := 0;
      var a0 := head.next;
      ghost var x := 1;
      FirstNode(nodes);
      PassingStart(nodes, less);
      while a0 != tail
        invariant Valid() && |nodes| == |old(nodes)| && (forall n | n in nodes :: n in old(nodes))
        invariant 1 <= x < |nodes| && nodes[x] == a0
        invariant Passing(s, nodes, x, outputRunCnt, less)
        decreases |nodes| - x
      {
        assert forall i | 0 <= i < |nodes| :: nodes[i] in old(nodes);
        a0, x := MergeRound(a0, less, x, s, outputRunCnt);
        outputRunCnt := outputRunCnt + 1;
      }
      DistinctIndex(nodes, x, |nodes| - 1);
      PassingDone(s, nodes, outputRunCnt, less);
    }

    /** Sorts the list, stably, for any strict weak order on its elements. */
    method ListSort(less: Order<ListElem>, ghost u: set<ListElem>)
      requires Valid() && StrictWeak(less, u) && Within(Inner(), u)
      modifies this`nodes, nodes
      ensures Valid() && StableSort(old(Inner()), Inner(), less, u)
    {
      hide Chain, Pass, PassCount, StrictWeak;
      ghost var s := Inner();
      while true
        invariant Valid() && (forall n | n in nodes :: n in old(nodes))
        invariant Within(Inner(), u) && Keeps(s, Inner(), less, u)
        decreases Runs(Inner(), less)
      {
        ghost var t := Inner();
        assert forall i | 0 <= i < |nodes| :: nodes[i] in old(nodes);
        var outputRunCnt := MergePass(less);
        AfterPass(s, t, less, u);
        if outputRunCnt <= 1 {
          break;
        }
      }
    }

    /** Inserts elem before the first element it is less than. */
    method ListInsertOrdered(elem: ListElem, less: Order<ListElem>, ghost u: set<ListElem>)
      requires Valid() && elem !in nodes
      requires StrictWeak(less, u) && Within(Inner(), u) && elem in u && Sorted(Inner(), less)
      modifies this`nodes, elem, nodes
      ensures Valid() && Sorted(Inner(), less)
      ensures exists k :: PlacedAt(old(Inner()), Inner(), k, elem, less)
    {
      hide Chain, StrictWeak, Within, Sorted, PlacedAt;
      var e := head.next;
      ghost var i := 1;
      FirstNode(nodes);
      while e != tail && !less(elem, e)
        invariant Valid() && nodes == old(nodes) && 1 <= i < |nodes| && e == nodes[i]
        invariant forall j | 1 <= j < i :: !less(elem, nodes[j])
        decreases |nodes| - i
      {
        NodeLinks(nodes, i);
        e := e.next;
        i := i + 1;
      }
      if e == tail {
        DistinctIndex(nodes, i, |nodes| - 1);
      }
      InsertedInner(nodes, i, elem, less, u);
      ListInsert(e, elem, i);
    }
  }
}
