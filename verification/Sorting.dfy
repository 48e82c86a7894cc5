/** Heap sort and binary search in place: lib/stdlib.c. */
module Sorting {
  import opened Sequences

  /** A strcmp()-like comparison: negative, zero or positive. */
  type Compare<!T> = (T, T) -> int

  /** What stdlib.c asks of a comparison: a total preorder. */
  ghost predicate Preorder<T(!new)>(compare: Compare<T>) {
    && (forall x, y :: compare(x, y) > 0 <==> compare(y, x) < 0)
    && (forall x, y, z :: compare(x, y) <= 0 && compare(y, z) <= 0 ==> compare(x, z) <= 0)
  }

  ghost predicate Sorted<T>(s: seq<T>, compare: Compare<T>) {
    forall i, j | 0 <= i < j < |s| :: compare(s[i], s[j]) <= 0
  }

  /** The element with 1-based index i */
  function At<T>(s: seq<T>, i: nat): T
    requires 1 <= i <= |s|
  {
    s[i - 1]
  }

  /** Among the first cnt elements, every one whose parent is at lo or later is no larger than its parent. */
  ghost predicate Heap<T>(s: seq<T>, lo: nat, cnt: nat, compare: Compare<T>)
    requires cnt <= |s|
  {
    forall c: nat | 2 <= c <= cnt && c / 2 >= lo && c / 2 >= 1 :: compare(At(s, c), At(s, c / 2)) <= 0
  }

  /** The same but for the children of element i, which are no larger than the parent of i. */
  ghost predicate HeapBut<T>(s: seq<T>, lo: nat, cnt: nat, i: nat, compare: Compare<T>)
    requires cnt <= |s|
  {
    && (forall c: nat | 2 <= c <= cnt && c / 2 >= lo && c / 2 >= 1 && c / 2 != i ::
          compare(At(s, c), At(s, c / 2)) <= 0)
    && (forall c: nat | 2 <= c <= cnt && c / 2 == i && i / 2 >= lo && i / 2 >= 1 ::
          compare(At(s, c), At(s, i / 2)) <= 0)
  }

  /** s with the elements at two 1-based indexes swapped */
  function Swapped<T>(s: seq<T>, i: nat, j: nat): (r: seq<T>)
    requires 1 <= i <= |s| && 1 <= j <= |s|
    ensures |r| == |s|
  {
    s[i - 1 := s[j - 1]][j - 1 := s[i - 1]]
  }

  lemma SwappedElements<T>(s: seq<T>, i: nat, j: nat, cnt: nat)
    requires 1 <= i <= cnt && 1 <= j <= cnt && cnt <= |s|
    ensures multiset(Swapped(s, i, j)[..cnt]) == multiset(s[..cnt]) && Swapped(s, i, j)[cnt..] == s[cnt..]
  { }

  /** Swapping an element with its larger child moves the gap in the heap one level down. */
  lemma FloatDown<T(!new)>(s: seq<T>, lo: nat, cnt: nat, i: nat, max: nat, compare: Compare<T>)
    requires Preorder(compare) && 1 <= lo <= i <= cnt <= |s| && HeapBut(s, lo, cnt, i, compare)
    requires i < max <= cnt && max / 2 == i && compare(At(s, max), At(s, i)) > 0
    requires forall c: nat | 2 <= c <= cnt && c / 2 == i :: compare(At(s, c), At(s, max)) <= 0
    ensures HeapBut(Swapped(s, i, max), lo, cnt, max, compare)
  {
    var r := Swapped(s, i, max);
    assert At(r, i) == At(s, max) && At(r, max) == At(s, i);
    assert forall c: nat | 1 <= c <= cnt && c != i && c != max :: At(r, c) == At(s, c);
    forall c: nat | 2 <= c <= cnt && c / 2 >= lo && c / 2 != max
      ensures compare(At(r, c), At(r, c / 2)) <= 0
    {
      if c / 2 == i {
        assert compare(At(s, c), At(s, max)) <= 0;
        assert compare(At(s, i), At(s, max)) <= 0;
      } else if c == i {
        assert compare(At(s, max), At(s, i / 2)) <= 0;
      } else {
        assert compare(At(s, c), At(s, c / 2)) <= 0;
      }
    }
    forall c: nat | 2 <= c <= cnt && c / 2 == max
      ensures compare(At(r, c), At(r, max / 2)) <= 0
    {
      assert compare(At(s, c), At(s, c / 2)) <= 0;
    }
  }

  /** A gap without larger children is no gap. */
  lemma GapClosed<T>(s: seq<T>, lo: nat, cnt: nat, i: nat, compare: Compare<T>)
    requires cnt <= |s| && i >= 1 && HeapBut(s, lo, cnt, i, compare)
    requires forall c: nat | 2 <= c <= cnt && c / 2 == i :: compare(At(s, c), At(s, i)) <= 0
    ensures Heap(s, lo, cnt, compare)
  { }

  /** The first element of a heap is its largest. */
  lemma {:induction false} RootLargest<T(!new)>(s: seq<T>, cnt: nat, c: nat, compare: Compare<T>)
    requires Preorder(compare) && 1 <= c <= cnt <= |s| && Heap(s, 1, cnt, compare)
    ensures compare(At(s, c), At(s, 1)) <= 0
    decreases c
  {
    if c > 1 {
      RootLargest(s, cnt, c / 2, compare);
      assert compare(At(s, c), At(s, c / 2)) <= 0;
    }
  }

  /** `do_swap` */
  method DoSwap<T>(a: array<T>, i: nat, j: nat)
    requires 1 <= i <= a.Length && 1 <= j <= a.Length
    modifies a
    ensures a[..] == Swapped(old(a[..]), i, j)
  {
    a[i - 1], a[j - 1] := a[j - 1], a[i - 1];
  }

  /** `heapify`: floats element i down until it is no smaller than its children. */
  method Heapify<T(!new)>(a: array<T>, i0: nat, cnt: nat, compare: Compare<T>)
    requires Preorder(compare) && 1 <= i0 <= cnt <= a.Length && Heap(a[..], i0 + 1, cnt, compare)
    modifies a
    ensures Heap(a[..], i0, cnt, compare)
    ensures multiset(a[..cnt]) == multiset(old(a[..cnt])) && a[cnt..] == old(a[cnt..])
  {
    hide Heap, HeapBut, Preorder, Swapped;
    ghost var first := a[..];
    var i := i0;
    GapAtFirst(a[..], i0, cnt, compare);
    while true
      invariant i0 <= i <= cnt && HeapBut(a[..], i0, cnt, i, compare)
      invariant multiset(a[..][..cnt]) == multiset(first[..cnt]) && a[..][cnt..] == first[cnt..]
      decreases cnt - i
    {
      var left := 2 * i;
      var right := 2 * i + 1;
      var max := i;
      if left <= cnt && compare(a[left - 1], a[max - 1]) > 0 {
        max := left;
      }
      if right <= cnt && compare(a[right - 1], a[max - 1]) > 0 {
        max := right;
      }
      LargestOfThree(a[..], i, cnt, max, compare);
      if max == i {
        GapClosed(a[..], i0, cnt, i, compare);
        break;
      }
      FloatDown(a[..], i0, cnt, i, max, compare);
      SwappedElements(a[..], i, max, cnt);
      DoSwap(a, i, max);
      i := max;
    }
    assert a[..cnt] == a[..][..cnt] && a[cnt..] == a[..][cnt..];
    assert first[..cnt] == old(a[..cnt]) && first[cnt..] == old(a[cnt..]);
  }

  lemma GapAtFirst<T>(s: seq<T>, lo: nat, cnt: nat, compare: Compare<T>)
    requires 1 <= lo && cnt <= |s| && Heap(s, lo + 1, cnt, compare)
    ensures HeapBut(s, lo, cnt, lo, compare)
  { }

  lemma LargestOfThree<T(!new)>(s: seq<T>, i: nat, cnt: nat, max: nat, compare: Compare<T>)
    requires Preorder(compare) && 1 <= i <= cnt <= |s|
    requires var m := if 2 * i <= cnt && compare(At(s, 2 * i), At(s, i)) > 0 then 2 * i else i;
             max == if 2 * i + 1 <= cnt && compare(At(s, 2 * i + 1), At(s, m)) > 0 then 2 * i + 1 else m
    ensures max <= cnt && (max == i || (max / 2 == i && compare(At(s, max), At(s, i)) > 0))
    ensures forall c: nat | 2 <= c <= cnt && c / 2 == i :: compare(At(s, c), At(s, max)) <= 0
  {
    assert forall x, y :: compare(x, y) > 0 ==> compare(y, x) <= 0;
    assert forall x :: compare(x, x) <= 0;
    forall c: nat | 2 <= c <= cnt && c / 2 == i
      ensures compare(At(s, c), At(s, max)) <= 0
    {
      assert c == 2 * i || c == 2 * i + 1;
    }
  }

  /** Largest elements behind, the rest in front. */
  ghost predicate Split<T>(s: seq<T>, n: nat, compare: Compare<T>) {
    n <= |s| && Sorted(s[n..], compare) && forall i, j | 0 <= i < n <= j < |s| :: compare(s[i], s[j]) <= 0
  }

  /** `sort`: heap sort */
  method Sort<T(!new)>(a: array<T>, compare: Compare<T>)
    requires Preorder(compare)
    modifies a
    ensures Sorted(a[..], compare) && multiset(a[..]) == multiset(old(a[..]))
  {
    hide Heap, Preorder, Split, Sorted, Swapped;
    ghost var first := a[..];
    var cnt := a.Length;
    LeavesAreHeaps(a[..], compare);
    var i := cnt / 2;
    while i > 0
      invariant 0 <= i <= cnt / 2 && Heap(a[..], i + 1, cnt, compare) && multiset(a[..]) == multiset(first)
    {
      ghost var t := a[..];
      assert a[..cnt] == t;
      Heapify(a, i, cnt, compare);
      assert a[..cnt] == a[..];
      i := i - 1;
    }
    AllInFront(a[..], compare);
    i := cnt;
    while i > 1
      invariant 0 <= i <= cnt && Heap(a[..], 1, i, compare) && Split(a[..], i, compare)
      invariant multiset(a[..]) == multiset(first)
    {
      ghost var s := a[..];
      RootBehind(s, i, compare);
      DoSwap(a, 1, i);
      ghost var t := a[..];
      Heapify(a, 1, i - 1, compare);
      Reheaped(t, a[..], i - 1, compare);
      i := i - 1;
    }
    Finished(a[..], i, compare);
  }

  lemma LeavesAreHeaps<T>(s: seq<T>, compare: Compare<T>)
    ensures Heap(s, |s| / 2 + 1, |s|, compare)
  { }

  lemma AllInFront<T>(s: seq<T>, compare: Compare<T>)
    ensures Split(s, |s|, compare)
  { }

  lemma Finished<T>(s: seq<T>, n: nat, compare: Compare<T>)
    requires n <= 1 && Split(s, n, compare)
    ensures Sorted(s, compare)
  { }

  /** The root of the heap is swapped behind it: the largest of the front joins the sorted part. */
  lemma RootBehind<T(!new)>(s: seq<T>, n: nat, compare: Compare<T>)
    requires Preorder(compare) && 2 <= n <= |s| && Heap(s, 1, n, compare) && Split(s, n, compare)
    ensures var r := Swapped(s, 1, n);
            Heap(r, 2, n - 1, compare) && Split(r, n - 1, compare) && multiset(r) == multiset(s)
  {
    var r := Swapped(s, 1, n);
    SwappedElements(s, 1, n, |s|);
    assert r == r[..|s|] && s == s[..|s|];
    forall i: nat | i < n
      ensures compare(s[i], s[0]) <= 0
    {
      RootLargest(s, n, i + 1, compare);
      assert At(s, i + 1) == s[i] && At(s, 1) == s[0];
    }
    RootSplit(s, r, n, compare);
    RootHeap(s, r, n, compare);
  }

  lemma RootHeap<T>(s: seq<T>, r: seq<T>, n: nat, compare: Compare<T>)
    requires 2 <= n <= |s| && Heap(s, 1, n, compare) && r == Swapped(s, 1, n)
    ensures Heap(r, 2, n - 1, compare)
  { }

  lemma RootSplit<T>(s: seq<T>, r: seq<T>, n: nat, compare: Compare<T>)
    requires 2 <= n <= |s| && Split(s, n, compare) && r == Swapped(s, 1, n)
    requires forall i: nat | i < n :: compare(s[i], s[0]) <= 0
    ensures Split(r, n - 1, compare)
  { }

  /** Permuting the front keeps everything in it below what is behind. */
  lemma Reheaped<T>(s: seq<T>, r: seq<T>, n: nat, compare: Compare<T>)
    requires Split(s, n, compare) && |r| == |s| && multiset(r[..n]) == multiset(s[..n]) && r[n..] == s[n..]
    ensures Split(r, n, compare) && multiset(r) == multiset(s)
  {
    assert r == r[..n] + r[n..] && s == s[..n] + s[n..];
    forall i, j | 0 <= i < n <= j < |r|
      ensures compare(r[i], r[j]) <= 0
    {
      assert r[i] in r[..n];
      assert r[i] in multiset(s[..n]);
      var k :| 0 <= k < n && s[k] == r[i];
      assert r[j] == r[n..][j - n] == s[n..][j - n] == s[j];
    }
  }

  /** `binary_search`: a match if and only if there is one */
  method BinarySearch<T(!new)>(key: T, a: array<T>, compare: Compare<T>) returns (r: Option<nat>)
    requires Preorder(compare) && Sorted(a[..], compare)
    ensures r.Some? ==> r.value < a.Length && compare(key, a[r.value]) == 0
    ensures r == None ==> forall i | 0 <= i < a.Length :: compare(key, a[i]) != 0
  {
    var first, last := 0, a.Length;
    while first < last
      invariant 0 <= first <= last <= a.Length
      invariant forall i | 0 <= i < a.Length && compare(key, a[i]) == 0 :: first <= i < last
    {
      var range := last - first;
      var middle := first + range / 2;
      var cmp := compare(key, a[middle]);
      Halved(key, a[..], middle, compare);
      if cmp < 0 {
        last := middle;
      } else if cmp > 0 {
        first := middle + 1;
      } else {
        return Some(middle);
      }
    }
    r := None;
  }

  lemma Halved<T(!new)>(key: T, s: seq<T>, m: nat, compare: Compare<T>)
    requires Preorder(compare) && Sorted(s, compare) && m < |s|
    ensures compare(key, s[m]) < 0 ==> forall i | m <= i < |s| :: compare(key, s[i]) != 0
    ensures compare(key, s[m]) > 0 ==> forall i | 0 <= i <= m :: compare(key, s[i]) != 0
  { }
}
