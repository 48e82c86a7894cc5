/** Natural merge sort on sequences: what one pass and the whole sort of lib/kernel/list.c compute. */
module MergeRuns {

  type Order<!E> = (E, E) -> bool

  /** less is a strict weak order on the elements of u. */
  ghost predicate StrictWeak<E>(less: Order<E>, u: set<E>) {
    && (forall a | a in u :: !less(a, a))
    && (forall a, b, c | a in u && b in u && c in u :: less(a, b) && less(b, c) ==> less(a, c))
    && (forall a, b, c | a in u && b in u && c in u :: less(a, c) ==> less(a, b) || less(b, c))
  }

  ghost predicate Within<E>(s: seq<E>, u: set<E>) {
    forall x | x in s :: x in u
  }

  ghost predicate Sorted<E>(s: seq<E>, less: Order<E>) {
    forall i, j | 0 <= i < j < |s| :: !less(s[j], s[i])
  }

  /** The elements of s that are equivalent to x, in order. */
  function Same<E>(s: seq<E>, x: E, less: Order<E>): seq<E> {
    if s == [] then []
    else (if !less(s[0], x) && !less(x, s[0]) then [s[0]] else []) + Same(s[1..], x, less)
  }

  /** The exclusive end of the nondecreasing run that starts at i. */
  function RunEnd<E>(s: seq<E>, i: nat, less: Order<E>): (j: nat)
    requires i < |s|
    ensures i < j <= |s|
    decreases |s| - i
  {
    if i + 1 == |s| || less(s[i + 1], s[i]) then i + 1 else RunEnd(s, i + 1, less)
  }

  function Merge<E>(xs: seq<E>, ys: seq<E>, less: Order<E>): (r: seq<E>)
    ensures |r| == |xs| + |ys|
    decreases |xs| + |ys|
  {
    if xs == [] then ys else if ys == [] then xs
    else if !less(ys[0], xs[0]) then [xs[0]] + Merge(xs[1..], ys, less)
    else [ys[0]] + Merge(xs, ys[1..], less)
  }

  /** One pass: adjacent pairs of runs are merged. */
  function Pass<E>(s: seq<E>, less: Order<E>): (r: seq<E>)
    ensures |r| == |s|
  {
    if s == [] then [] else
      var a := RunEnd(s, 0, less);
      if a == |s| then s else
        var b := RunEnd(s, a, less);
        Merge(s[..a], s[a..b], less) + Pass(s[b..], less)
  }

  /** The number of runs a pass puts out. */
  function PassCount<E>(s: seq<E>, less: Order<E>): nat {
    if s == [] then 0 else
      var a := RunEnd(s, 0, less);
      if a == |s| then 1 else 1 + PassCount(s[RunEnd(s, a, less)..], less)
  }

  /** The number of maximal nondecreasing runs. */
  function Runs<E>(s: seq<E>, less: Order<E>): nat {
    if s == [] then 0 else 1 + Runs(s[RunEnd(s, 0, less)..], less)
  }

  lemma {:induction false} RunEndDrop<E>(s: seq<E>, k: nat, i: nat, less: Order<E>)
    requires k + i < |s|
    ensures RunEnd(s, k + i, less) == k + RunEnd(s[k..], i, less)
    decreases |s| - i
  {
    if k + i + 1 < |s| && !less(s[k + i + 1], s[k + i]) {
      RunEndDrop(s, k, i + 1, less);
    }
  }

  /** A pass over k runs puts out ceil(k/2). */
  lemma {:induction false} PassHalves<E>(s: seq<E>, less: Order<E>)
    ensures PassCount(s, less) == (Runs(s, less) + 1) / 2
  {
    if s != [] {
      var a := RunEnd(s, 0, less);
      if a < |s| {
        var b := RunEnd(s, a, less);
        RunEndDrop(s, a, 0, less);
        assert s[a..][b - a..] == s[b..];
        PassHalves(s[b..], less);
      }
    }
  }

  /** Elements of one run are in order. */
  lemma {:induction false} RunSorted<E>(s: seq<E>, i: nat, less: Order<E>, u: set<E>)
    requires StrictWeak(less, u) && Within(s, u) && i < |s|
    ensures Sorted(s[i..RunEnd(s, i, less)], less)
    decreases |s| - i
  {
    var j := RunEnd(s, i, less);
    if i + 1 < j {
      RunSorted(s, i + 1, less, u);
      var t, r := s[i + 1..j], s[i..j];
      forall p, q | 0 <= p < q < |r|
        ensures !less(r[q], r[p])
      {
        assert r[q] == t[q - 1] && r[q] in s && s[i] in s && s[i + 1] in s;
        if p > 0 {
          assert r[p] == t[p - 1];
        } else if q > 1 {
          assert t[0] == s[i + 1];
        }
      }
    }
  }

  lemma {:induction false} MergeElements<E>(xs: seq<E>, ys: seq<E>, less: Order<E>)
    ensures multiset(Merge(xs, ys, less)) == multiset(xs) + multiset(ys)
    decreases |xs| + |ys|
  {
    if xs != [] && ys != [] {
      assert xs == [xs[0]] + xs[1..] && ys == [ys[0]] + ys[1..];
      if !less(ys[0], xs[0]) {
        MergeElements(xs[1..], ys, less);
      } else {
        MergeElements(xs, ys[1..], less);
      }
    }
  }

  lemma InMerge<E>(xs: seq<E>, ys: seq<E>, less: Order<E>, x: E)
    ensures x in Merge(xs, ys, less) <==> x in xs || x in ys
  { }

  lemma SortedCons<E>(x: E, s: seq<E>, less: Order<E>)
    requires Sorted(s, less) && forall y | y in s :: !less(y, x)
    ensures Sorted([x] + s, less)
  { }

  lemma SortedTail<E>(s: seq<E>, less: Order<E>)
    requires Sorted(s, less) && s != []
    ensures Sorted(s[1..], less) && forall y | y in s[1..] :: !less(y, s[0])
  { }

  lemma {:induction false} MergeSorted<E>(xs: seq<E>, ys: seq<E>, less: Order<E>, u: set<E>)
    requires StrictWeak(less, u) && Within(xs, u) && Within(ys, u)
    requires Sorted(xs, less) && Sorted(ys, less)
    ensures Sorted(Merge(xs, ys, less), less)
    decreases |xs| + |ys|
  {
    if xs != [] && ys != [] {
      var x, y := xs[0], ys[0];
      SortedTail(xs, less);
      SortedTail(ys, less);
      assert xs == [x] + xs[1..] && ys == [y] + ys[1..];
      var rest := if !less(y, x) then Merge(xs[1..], ys, less) else Merge(xs, ys[1..], less);
      var first := if !less(y, x) then x else y;
      if !less(y, x) {
        MergeSorted(xs[1..], ys, less, u);
      } else {
        MergeSorted(xs, ys[1..], less, u);
      }
      forall z | z in rest
        ensures !less(z, first)
      {
        InMerge(xs[1..], ys, less, z);
        InMerge(xs, ys[1..], less, z);
        assert z in u && x in u && y in u;
      }
      SortedCons(first, rest, less);
    }
  }

  lemma {:induction false} SameAppend<E>(s: seq<E>, t: seq<E>, x: E, less: Order<E>)
    ensures Same(s + t, x, less) == Same(s, x, less) + Same(t, x, less)
  {
    if s == [] {
      assert s + t == t;
    } else {
      assert (s + t)[1..] == s[1..] + t;
      SameAppend(s[1..], t, x, less);
    }
  }

  lemma {:induction false} SameNone<E>(s: seq<E>, x: E, less: Order<E>)
    requires forall y | y in s :: less(x, y) || less(y, x)
    ensures Same(s, x, less) == []
  {
    if s != [] {
      assert s[0] in s;
      assert forall y | y in s[1..] :: y in s;
      SameNone(s[1..], x, less);
    }
  }

  /** Merging sorted runs keeps equivalent elements in order, the first run's before the second's. */
  lemma {:induction false} MergeStable<E>(xs: seq<E>, ys: seq<E>, x: E, less: Order<E>, u: set<E>)
    requires StrictWeak(less, u) && Within(xs, u) && Within(ys, u) && x in u
    requires Sorted(xs, less)
    ensures Same(Merge(xs, ys, less), x, less) == Same(xs, x, less) + Same(ys, x, less)
    decreases |xs| + |ys|
  {
    SameEmpty(x, less);
    if xs != [] && ys != [] {
      hide StrictWeak, Sorted, Within, Same, Merge;
      var a, b := xs[0], ys[0];
      WithinTail(xs, u);
      WithinTail(ys, u);
      SortedTail(xs, less);
      MergeStep(xs, ys, less);
      SameTail(xs, x, less);
      SameTail(ys, x, less);
      if !less(b, a) {
        MergeStable(xs[1..], ys, x, less, u);
        SameCons(a, Merge(xs[1..], ys, less), x, less);
        Associative([a], Same(xs[1..], x, less), Same(ys, x, less));
      } else {
        MergeStable(xs, ys[1..], x, less, u);
        SameCons(b, Merge(xs, ys[1..], less), x, less);
        Associative(Same(xs, x, less), [b], Same(ys[1..], x, less));
        if !less(b, x) && !less(x, b) {
          AllAbove(xs, b, x, less, u);
          SameNone(xs, x, less);
        }
      }
    }
  }

  lemma Associative<E>(a: seq<E>, b: seq<E>, c: seq<E>)
    ensures (a + b) + c == a + (b + c)
    ensures [] + a == a
  { }

  lemma MergeStep<E>(s: seq<E>, t: seq<E>, less: Order<E>)
    requires s != [] && t != []
    ensures Merge(s, t, less) == if !less(t[0], s[0]) then [s[0]] + Merge(s[1..], t, less)
              else [t[0]] + Merge(s, t[1..], less)
  { }

  lemma WithinTail<E>(s: seq<E>, u: set<E>)
    requires Within(s, u) && s != []
    ensures s[0] in u && Within(s[1..], u)
  { }

  lemma SameEmpty<E>(x: E, less: Order<E>)
    ensures Same([], x, less) == []
  { }

  lemma SameTail<E>(s: seq<E>, x: E, less: Order<E>)
    requires s != []
    ensures Same(s, x, less) == (if !less(s[0], x) && !less(x, s[0]) then [s[0]] else []) + Same(s[1..], x, less)
  { }

  lemma SameCons<E>(a: E, s: seq<E>, x: E, less: Order<E>)
    ensures Same([a] + s, x, less) == (if !less(a, x) && !less(x, a) then [a] else []) + Same(s, x, less)
  { }

  /** Nothing in a sorted sequence whose head is above b is equivalent to an x that is equivalent to b. */
  lemma AllAbove<E>(xs: seq<E>, b: E, x: E, less: Order<E>, u: set<E>)
    requires StrictWeak(less, u) && Within(xs, u) && x in u && b in u
    requires xs != [] && Sorted(xs, less) && less(b, xs[0]) && !less(b, x) && !less(x, b)
    ensures forall y | y in xs :: less(x, y)
  { }

  /** A pass keeps the elements. */
  lemma {:induction false} PassElements<E>(s: seq<E>, less: Order<E>)
    ensures multiset(Pass(s, less)) == multiset(s)
  {
    if s != [] {
      var a := RunEnd(s, 0, less);
      if a < |s| {
        var b := RunEnd(s, a, less);
        assert s == s[..a] + s[a..b] + s[b..];
        PassElements(s[b..], less);
        MergeElements(s[..a], s[a..b], less);
      }
    }
  }

  /** A pass keeps the order of equivalent elements. */
  lemma {:induction false} PassStable<E>(s: seq<E>, x: E, less: Order<E>, u: set<E>)
    requires StrictWeak(less, u) && Within(s, u) && x in u
    ensures Same(Pass(s, less), x, less) == Same(s, x, less)
  {
    if s != [] {
      var a := RunEnd(s, 0, less);
      if a < |s| {
        hide StrictWeak, Same, Merge;
        var b := RunEnd(s, a, less);
        var xs, ys, rest := s[..a], s[a..b], s[b..];
        assert s == xs + (ys + rest);
        RunSorted(s, 0, less, u);
        PassStable(rest, x, less, u);
        MergeStable(xs, ys, x, less, u);
        SameAppend(Merge(xs, ys, less), Pass(rest, less), x, less);
        SameAppend(ys, rest, x, less);
        SameAppend(xs, ys + rest, x, less);
      }
    }
  }

  /** Putting a sorted block in front adds at most one run. */
  lemma RunsAppend<E>(s: seq<E>, t: seq<E>, less: Order<E>)
    requires Sorted(s, less) && s != []
    ensures Runs(s + t, less) <= 1 + Runs(t, less)
  {
    RunThrough(s, t, 0, less);
    var e := RunEnd(s + t, 0, less);
    if t != [] {
      assert (s + t)[e..] == t[e - |s|..];
    }
  }

  lemma {:induction false} RunThrough<E>(s: seq<E>, t: seq<E>, i: nat, less: Order<E>)
    requires Sorted(s, less) && i < |s|
    ensures var e := RunEnd(s + t, i, less);
            e == |s| || (t != [] && e == |s| + RunEnd(t, 0, less))
    decreases |s| - i
  {
    if i + 1 < |s| {
      RunThrough(s, t, i + 1, less);
    } else if t != [] {
      RunEndDrop(s + t, |s|, 0, less);
      assert (s + t)[|s|..] == t;
    }
  }

  /** After a pass there are no more runs than it put out. */
  lemma {:induction false} PassRuns<E>(s: seq<E>, less: Order<E>, u: set<E>)
    requires StrictWeak(less, u) && Within(s, u)
    ensures Runs(Pass(s, less), less) <= PassCount(s, less)
  {
    if s != [] {
      var a := RunEnd(s, 0, less);
      if a < |s| {
        var b := RunEnd(s, a, less);
        RunSorted(s, 0, less, u);
        RunSorted(s, a, less, u);
        MergeSorted(s[..a], s[a..b], less, u);
        PassRuns(s[b..], less, u);
        RunsAppend(Merge(s[..a], s[a..b], less), Pass(s[b..], less), less);
      }
    }
  }

  /** A sequence of at most one run is sorted. */
  lemma OneRunSorted<E>(s: seq<E>, less: Order<E>, u: set<E>)
    requires StrictWeak(less, u) && Within(s, u) && Runs(s, less) <= 1
    ensures Sorted(s, less)
  {
    if s != [] {
      var a := RunEnd(s, 0, less);
      assert s[a..] == [];
      RunSorted(s, 0, less, u);
      assert s[0..a] == s;
    }
  }

  /** r is s sorted stably: in order, the same elements, equivalent ones in their old order. */
  ghost predicate StableSort<E>(s: seq<E>, r: seq<E>, less: Order<E>, u: set<E>) {
    && Sorted(r, less)
    && multiset(r) == multiset(s)
    && forall x | x in u :: Same(r, x, less) == Same(s, x, less)
  }

  // ---------------------------------------------------------------- stability, place by place

  ghost predicate Equivalent<E>(a: E, x: E, less: Order<E>) { !less(a, x) && !less(x, a) }

  /** Where an element of s that is equivalent to x stands among those that are */
  function Rank<E>(s: seq<E>, x: E, less: Order<E>, i: nat): nat
    requires i <= |s|
  {
    if i == 0 then 0 else (if !less(s[0], x) && !less(x, s[0]) then 1 else 0) + Rank(s[1..], x, less, i - 1)
  }

  lemma {:induction false} RankPlace<E>(s: seq<E>, x: E, less: Order<E>, i: nat)
    requires i < |s| && Equivalent(s[i], x, less)
    ensures Rank(s, x, less, i) < |Same(s, x, less)| && Same(s, x, less)[Rank(s, x, less, i)] == s[i]
  {
    if i > 0 {
      RankPlace(s[1..], x, less, i - 1);
    }
  }

  lemma {:induction false} RankGrows<E>(s: seq<E>, x: E, less: Order<E>, i: nat, j: nat)
    requires i < j <= |s| && Equivalent(s[i], x, less)
    ensures Rank(s, x, less, i) < Rank(s, x, less, j)
  {
    if i > 0 {
      RankGrows(s[1..], x, less, i - 1, j - 1);
    }
  }

  /** Every place among the equivalent ones is some element's. */
  lemma {:induction false} PlaceOf<E>(s: seq<E>, x: E, less: Order<E>, p: nat) returns (i: nat)
    requires p < |Same(s, x, less)|
    ensures i < |s| && Equivalent(s[i], x, less) && Rank(s, x, less, i) == p && Same(s, x, less)[p] == s[i]
  {
    if !less(s[0], x) && !less(x, s[0]) {
      if p == 0 {
        i := 0;
      } else {
        i := PlaceOf(s[1..], x, less, p - 1);
        i := i + 1;
      }
    } else {
      i := PlaceOf(s[1..], x, less, p);
      i := i + 1;
    }
  }

  /** A stable sort keeps the order of any two equivalent elements: the one that came first still does. */
  lemma StableOrder<E>(s: seq<E>, r: seq<E>, less: Order<E>, u: set<E>, i: nat, j: nat) returns (k: nat, l: nat)
    requires StableSort(s, r, less, u) && i < j < |s| && s[i] in u
    requires Equivalent(s[j], s[i], less) && Equivalent(s[i], s[i], less)
    ensures k < l < |r| && r[k] == s[i] && r[l] == s[j]
  {
    var x := s[i];
    RankPlace(s, x, less, i);
    RankPlace(s, x, less, j);
    RankGrows(s, x, less, i, j);
    k := PlaceOf(r, x, less, Rank(s, x, less, i));
    l := PlaceOf(r, x, less, Rank(s, x, less, j));
    hide Same;
    if l < k {
      RankGrows(r, x, less, l, k);
    }
  }
}
