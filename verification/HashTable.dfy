/** The resizing chained hash table of lib/kernel/hash.c. */
module HashTable {
  import opened Bits
  import opened Sequences

  // ---------------------------------------------------------------- powers of two

  /** `turn_off_least_1bit (x)` */
  function TurnOffLeast1Bit(x: nat): nat
    requires x > 0
  {
    And(x, x - 1)
  }

  /** `is_power_of_2 (x)` */
  predicate IsPowerOf2(x: nat) { x != 0 && TurnOffLeast1Bit(x) == 0 }

  /** Turning off the lowest bit makes a number smaller, but never drops it below the power of two under it, unless it
      is that power. */
  lemma {:induction false} TurnOffKeepsTop(x: nat, k: nat)
    requires Pow2(k) <= x < Pow2(k + 1)
    ensures TurnOffLeast1Bit(x) < x
    ensures if x == Pow2(k) then TurnOffLeast1Bit(x) == 0 else Pow2(k) <= TurnOffLeast1Bit(x)
  {
    AndStep(x, x - 1);
    if k == 0 {
      assert x == 1;
    } else if x % 2 == 1 {
      assert (x - 1) / 2 == x / 2 && (x - 1) % 2 == 0;
      AndSelf(x / 2);
    } else {
      assert (x - 1) / 2 == x / 2 - 1 && (x - 1) % 2 == 1;
      TurnOffKeepsTop(x / 2, k - 1);
    }
  }

  lemma {:induction false} AndSelf(x: nat)
    ensures And(x, x) == x
  {
    if x != 0 {
      AndSelf(x / 2);
    }
  }

  /** The test recognises exactly the powers of two. */
  lemma PowerOf2Test(x: nat, k: nat)
    requires Pow2(k) <= x < Pow2(k + 1)
    ensures IsPowerOf2(x) <==> x == Pow2(k)
  {
    TurnOffKeepsTop(x, k);
  }

  lemma {:induction false} FloorLog(x: nat) returns (k: nat)
    requires x > 0
    ensures Pow2(k) <= x < Pow2(k + 1)
  {
    if x == 1 {
      k := 0;
    } else {
      k := FloorLog(x / 2);
      k := k + 1;
    }
  }

  lemma {:induction false} PowMonotone(j: nat, k: nat)
    requires j <= k
    ensures Pow2(j) <= Pow2(k)
  {
    if j < k {
      PowMonotone(j, k - 1);
    }
  }

  ghost predicate PowerOfTwo(n: nat) { exists k: nat :: n == Pow2(k) }

  /** n is the largest power of two that is at most m. */
  ghost predicate TopPower(n: nat, m: nat) {
    n <= m < 2 * n && PowerOfTwo(n)
  }

  function Target(elemCnt: nat): nat { if elemCnt / 2 < 4 then 4 else elemCnt / 2 }

  method IdealBucketCnt(elemCnt: nat) returns (n: nat)
    ensures TopPower(n, Target(elemCnt))
    ensures PowerOfTwo(n) && n >= 4 && elemCnt < 4 * n && (n > 4 ==> 2 * n <= elemCnt)
  {
    n := elemCnt / 2;
    if n < 4 {
      n := 4;
    }
    ghost var k := FloorLog(n);
    PowerOf2Test(n, k);
    while !IsPowerOf2(n)
      invariant Pow2(k) <= n < Pow2(k + 1) && n <= Target(elemCnt) < Pow2(k + 1)
      invariant IsPowerOf2(n) <==> n == Pow2(k)
      decreases n
    {
      TurnOffKeepsTop(n, k);
      n := TurnOffLeast1Bit(n);
      PowerOf2Test(n, k);
    }
    TopAtLeast4(k, Target(elemCnt));
  }

  lemma TopAtLeast4(k: nat, m: nat)
    requires 4 <= m < Pow2(k + 1)
    ensures Pow2(k) >= 4
  { }

  // ---------------------------------------------------------------- chains and their elements

  function Flat<T>(b: seq<seq<T>>): seq<T> {
    if b == [] then [] else Flat(b[..|b| - 1]) + b[|b| - 1]
  }

  ghost function All<T>(b: seq<seq<T>>): multiset<T> { multiset(Flat(b)) }

  lemma {:induction false} AllUpdate<T>(b: seq<seq<T>>, i: nat, s: seq<T>)
    requires i < |b|
    ensures All(b[i := s]) + multiset(b[i]) == All(b) + multiset(s)
  {
    var n := |b| - 1;
    if i == n {
      assert b[i := s][..n] == b[..n];
    } else {
      var l := b[..n];
      AllUpdate(l, i, s);
      assert b[i := s][..n] == l[i := s];
      assert All(b[i := s]) == All(l[i := s]) + multiset(b[n]) && All(b) == All(l) + multiset(b[n]);
      assert l[i] == b[i];
      assert All(b[i := s]) + multiset(b[i]) == All(l[i := s]) + multiset(l[i]) + multiset(b[n]);
    }
  }

  lemma {:induction false} AllHas<T>(b: seq<seq<T>>, x: T)
    ensures x in All(b) <==> exists i :: 0 <= i < |b| && x in b[i]
  {
    if b != [] {
      var n := |b| - 1;
      AllHas(b[..n], x);
      assert forall i | 0 <= i < n :: b[..n][i] == b[i];
    }
  }

  lemma {:induction false} AllEmpty<T>(b: seq<seq<T>>)
    requires forall i | 0 <= i < |b| :: b[i] == []
    ensures Flat(b) == []
  {
    if b != [] {
      AllEmpty(b[..|b| - 1]);
    }
  }

  // ---------------------------------------------------------------- what a table means

  type Less<!T> = (T, T) -> bool
  type Hash<!T> = T -> nat

  predicate Equal<T>(less: Less<T>, x: T, y: T) { !less(x, y) && !less(y, x) }

  /** What hash.h asks of its two functions: equality is an equivalence, and equal elements hash alike. */
  ghost predicate Lawful<T(!new)>(less: Less<T>, hash: Hash<T>) {
    Equivalence(less) && forall x, y :: Equal(less, x, y) ==> hash(x) == hash(y)
  }

  ghost predicate Equivalence<T(!new)>(less: Less<T>) {
    && (forall x :: Equal(less, x, x))
    && (forall x, y, z :: Equal(less, x, y) && Equal(less, y, z) ==> Equal(less, x, z))
  }

  /** No two elements are equal, and none is there twice. */
  ghost predicate Separate<T>(less: Less<T>, all: multiset<T>) {
    (forall x | x in all :: all[x] == 1) && (forall x, y | x in all && y in all && Equal(less, x, y) :: x == y)
  }

  /** The finite map a table stands for: from an element to the equal one that is stored. */
  ghost function Lookup<T>(less: Less<T>, all: multiset<T>, e: T): Option<T> {
    if exists x :: x in all && Equal(less, x, e) then
      var x :| x in all && Equal(less, x, e);
      Some(x)
    else None
  }

  lemma LookupIs<T(!new)>(less: Less<T>, all: multiset<T>, e: T, x: T)
    requires Equivalence(less) && Separate(less, all) && x in all && Equal(less, x, e)
    ensures Lookup(less, all, e) == Some(x)
  {
    var y := Lookup(less, all, e).value;
    assert Equal(less, e, y) && Equal(less, x, y);
  }

  /** Storing an element that is not there yet adds it to the map and changes nothing else. */
  lemma LookupInserted<T(!new)>(less: Less<T>, all: multiset<T>, e: T, x: T)
    requires Equivalence(less) && Separate(less, all) && Lookup(less, all, e) == None
    ensures Separate(less, all + multiset{e})
    ensures Lookup(less, all + multiset{e}, x) == if Equal(less, e, x) then Some(e) else Lookup(less, all, x)
  {
    var more := all + multiset{e};
    assert forall y | y in all :: !Equal(less, y, e) && !Equal(less, e, y) && y != e && more[y] == all[y];
    if Equal(less, e, x) {
      LookupIs(less, more, x, e);
    } else if y :| y in all && Equal(less, y, x) {
      LookupIs(less, more, x, y);
      LookupIs(less, all, x, y);
    }
  }

  /** Taking an element out removes its entry from the map and changes nothing else. */
  lemma LookupRemoved<T(!new)>(less: Less<T>, all: multiset<T>, e: T, x: T)
    requires Equivalence(less) && Separate(less, all) && e in all
    ensures Separate(less, all - multiset{e})
    ensures Lookup(less, all - multiset{e}, x) == if Equal(less, e, x) then None else Lookup(less, all, x)
  {
    var fewer := all - multiset{e};
    assert forall y :: y in fewer <==> y in all && y != e;
    if Equal(less, e, x) {
      assert forall y | y in fewer :: Equal(less, y, x) ==> Equal(less, x, y) && Equal(less, e, y);
    } else if y :| y in all && Equal(less, y, x) {
      LookupIs(less, fewer, x, y);
      LookupIs(less, all, x, y);
    }
  }

  // ---------------------------------------------------------------- the table

  /** Every element is in the bucket its hash selects. */
  ghost predicate Home<T(!new)>(hash: Hash<T>, b: seq<seq<T>>) {
    forall i, x | 0 <= i < |b| && x in b[i] :: hash(x) % |b| == i
  }

  /** The bucket an element belongs in is the one its hash selects modulo the number of buckets. */
  lemma BucketIndex(hash: nat, cnt: nat, k: nat)
    requires cnt == Pow2(k)
    ensures And(hash, cnt - 1) == hash % cnt < cnt
  {
    AndLowMask(hash, k);
  }

  /** An element equal to e is in the table exactly when one is in e's bucket. */
  lemma InItsBucket<T(!new)>(less: Less<T>, hash: Hash<T>, b: seq<seq<T>>, e: T)
    requires Lawful(less, hash) && Home(hash, b) && b != []
    ensures forall x | x in All(b) && Equal(less, x, e) :: x in b[hash(e) % |b|]
    ensures forall x | x in b[hash(e) % |b|] :: x in All(b)
  {
    forall x | x in All(b) && Equal(less, x, e)
      ensures x in b[hash(e) % |b|]
    {
      AllHas(b, x);
    }
    forall x | x in b[hash(e) % |b|]
      ensures x in All(b)
    {
      AllHas(b, x);
    }
  }

  /** What searching e's bucket finds is what the map holds. */
  lemma EqualInBucket<T(!new)>(less: Less<T>, hash: Hash<T>, b: seq<seq<T>>, e: T, r: Option<T>)
    requires Lawful(less, hash) && Home(hash, b) && b != [] && Separate(less, All(b))
    requires r.Some? ==> r.value in b[hash(e) % |b|] && Equal(less, r.value, e)
    requires r == None ==> forall x | x in b[hash(e) % |b|] :: !Equal(less, x, e)
    ensures r == Lookup(less, All(b), e) && (r.Some? ==> r.value in All(b))
  {
    InItsBucket(less, hash, b, e);
    if r.Some? {
      LookupIs(less, All(b), e, r.value);
    }
  }

  lemma InsertEffect<T(!new)>(less: Less<T>, all: multiset<T>, e: T)
    requires Equivalence(less) && Separate(less, all) && Lookup(less, all, e) == None
    ensures forall x ::
              Lookup(less, all + multiset{e}, x) == if Equal(less, e, x) then Some(e) else Lookup(less, all, x)
  {
    forall x
      ensures Lookup(less, all + multiset{e}, x) == if Equal(less, e, x) then Some(e) else Lookup(less, all, x)
    {
      LookupInserted(less, all, e, x);
    }
  }

  lemma DeleteEffect<T(!new)>(less: Less<T>, all: multiset<T>, e: T, r: Option<T>)
    requires Equivalence(less) && Separate(less, all) && r == Lookup(less, all, e)
    ensures var fewer := if r == None then all else all - multiset{r.value};
            forall x :: Lookup(less, fewer, x) == if Equal(less, e, x) then None else Lookup(less, all, x)
    ensures Lookup(less, if r == None then all else all - multiset{r.value}, e) == None
  {
    assert Equal(less, e, e);
    var fewer := if r == None then all else all - multiset{r.value};
    forall x
      ensures Lookup(less, fewer, x) == if Equal(less, e, x) then None else Lookup(less, all, x)
    {
      if r.Some? {
        LookupRemoved(less, all, r.value, x);
        assert Equal(less, r.value, x) <==> Equal(less, e, x);
      } else {
        assert forall y | y in all && Equal(less, y, x) :: Equal(less, e, x) ==> Equal(less, x, e);
      }
    }
  }

  lemma EmptyTable<T(!new)>(hash: Hash<T>, b: seq<seq<T>>)
    requires forall i | 0 <= i < |b| :: b[i] == []
    ensures All(b) == multiset{} && Home(hash, b)
  {
    AllEmpty(b);
  }

  class Table<T(==, !new)> {
    var elemCnt: nat
    var bucketCnt: nat
    var buckets: array<seq<T>>
    const hash: Hash<T>
    const less: Less<T>

    ghost predicate Valid()
      reads this, buckets
    {
      && Lawful(less, hash)
      && buckets.Length == bucketCnt >= 4 && PowerOfTwo(bucketCnt)
      && Home(hash, buckets[..]) && Separate(less, Elems()) && elemCnt == |Elems()|
    }

    ghost function Elems(): multiset<T>
      reads this, buckets
    {
      All(buckets[..])
    }

    ghost function Find(e: T): Option<T>
      reads this, buckets
    {
      Lookup(less, Elems(), e)
    }

    /** `hash_init` */
    constructor (hash: Hash<T>, less: Less<T>)
      requires Lawful(less, hash)
      ensures Valid() && Elems() == multiset{} && this.hash == hash && this.less == less && fresh(buckets)
    {
      elemCnt, bucketCnt := 0, 4;
      this.hash, this.less := hash, less;
      buckets := new seq<T>[4](_ => []);
      new;
      AllEmpty(buckets[..]);
      assert Pow2(2) == 4 by {
        assert Pow2(1) == 2;
      }
    }

    /** `find_bucket` */
    method FindBucket(e: T) returns (idx: nat)
      requires PowerOfTwo(bucketCnt)
      ensures idx == hash(e) % bucketCnt < bucketCnt
    {
      ghost var k: nat :| bucketCnt == Pow2(k);
      BucketIndex(hash(e), bucketCnt, k);
      idx := And(hash(e), bucketCnt - 1);
    }

    /** `find_elem` */
    method FindElem(bucket: seq<T>, e: T) returns (r: Option<T>)
      ensures r.Some? ==> r.value in bucket && Equal(less, r.value, e)
      ensures r == None ==> forall x | x in bucket :: !Equal(less, x, e)
    {
      for i := 0 to |bucket|
        invariant forall j | 0 <= j < i :: !Equal(less, bucket[j], e)
      {
        if !less(bucket[i], e) && !less(e, bucket[i]) {
          return Some(bucket[i]);
        }
      }
      r := None;
    }

    /** `hash_find` */
    method HashFind(e: T) returns (r: Option<T>)
      requires Valid()
      ensures r == Find(e)
    {
      var idx := FindBucket(e);
      r := FindElem(buckets[idx], e);
      EqualInBucket(less, hash, buckets[..], e, r);
    }

    /** `insert_elem` */
    method InsertElem(idx: nat, e: T)
      requires Valid() && Find(e) == None && idx == hash(e) % bucketCnt
      modifies this`elemCnt, buckets
      ensures Valid() && Elems() == old(Elems()) + multiset{e}
    {
      ghost var was := buckets[..];
      elemCnt := elemCnt + 1;
      buckets[idx] := [e] + buckets[idx];
      assert buckets[..] == was[idx := [e] + was[idx]];
      Placed(hash, was, idx, e);
      LookupInserted(less, All(was), e, e);
    }

    /** `remove_elem`: the element is unlinked from the bucket it is in. */
    method RemoveElem(idx: nat, e: T)
      requires Valid() && idx < bucketCnt && e in buckets[idx]
      modifies this`elemCnt, buckets
      ensures Valid() && Elems() == old(Elems()) - multiset{e} && e in old(Elems())
    {
      hide Lookup, Flat, Home, Separate, Equal;
      ghost var was := buckets[..];
      AllHas(was, e);
      elemCnt := elemCnt - 1;
      var at :| 0 <= at < |buckets[idx]| && buckets[idx][at] == e;
      buckets[idx] := buckets[idx][..at] + buckets[idx][at + 1..];
      assert buckets[..] == was[idx := was[idx][..at] + was[idx][at + 1..]];
      Unlinked(hash, was, idx, at);
      LookupRemoved(less, All(was), e, e);
    }

    /** `rehash`: memOk says whether the allocation of a new bucket array succeeds. */
    method Rehash(memOk: bool)
      requires Valid()
      modifies this, buckets
      ensures Valid() && Elems() == old(Elems()) && elemCnt == old(elemCnt)
      ensures bucketCnt == old(bucketCnt) || TopPower(bucketCnt, Target(elemCnt))
      ensures memOk ==> TopPower(bucketCnt, Target(elemCnt))
      ensures buckets == old(buckets) || fresh(buckets)
    {
      var n := IdealBucketCnt(elemCnt);
      if n == bucketCnt || !memOk {
        return;
      }
      assert PowerOfTwo(n);
      hide All, Flat, Home, Separate, Lawful, TopPower, PowerOfTwo;
      var olds := buckets;
      ghost var all := Elems();
      buckets := new seq<T>[n](_ => []);
      bucketCnt := n;
      EmptyTable(hash, buckets[..]);
      for i := 0 to olds.Length
        modifies olds, buckets
        invariant forall j | 0 <= j < i :: olds[j] == []
        invariant All(olds[..]) + All(buckets[..]) == all && Home(hash, buckets[..])
      {
        MoveBucket(olds, i);
      }
      EmptyTable(hash, olds[..]);
      assert Elems() == all;
      assert Separate(less, Elems());
    }

    /** Inner loop of rehash: every element of an old bucket moves to its new one. */
    method MoveBucket(olds: array<seq<T>>, i: nat)
      requires olds != buckets && buckets.Length == bucketCnt && PowerOfTwo(bucketCnt)
      requires i < olds.Length && Home(hash, buckets[..])
      modifies olds, buckets
      ensures olds[i] == [] && forall j | 0 <= j < olds.Length && j != i :: olds[j] == old(olds[j])
      ensures All(olds[..]) + All(buckets[..]) == old(All(olds[..]) + All(buckets[..])) && Home(hash, buckets[..])
    {
      hide All, Home, Flat;
      while olds[i] != []
        modifies olds, buckets
        invariant forall j | 0 <= j < olds.Length && j != i :: olds[j] == old(olds[j])
        invariant All(olds[..]) + All(buckets[..]) == old(All(olds[..]) + All(buckets[..])) && Home(hash, buckets[..])
        decreases |olds[i]|
      {
        MoveFirst(olds, i);
      }
    }

    /** One step of rehash: an element goes from the front of its old bucket to the front of its new one. */
    method MoveFirst(olds: array<seq<T>>, i: nat)
      requires olds != buckets && buckets.Length == bucketCnt && PowerOfTwo(bucketCnt)
      requires i < olds.Length && olds[i] != [] && Home(hash, buckets[..])
      modifies olds, buckets
      ensures olds[i] == old(olds[i])[1..] && forall j | 0 <= j < olds.Length && j != i :: olds[j] == old(olds[j])
      ensures All(olds[..]) + All(buckets[..]) == old(All(olds[..]) + All(buckets[..])) && Home(hash, buckets[..])
    {
      hide All, Home;
      ghost var from, into := olds[..], buckets[..];
      var e := olds[i][0];
      var idx := FindBucket(e);
      olds[i] := olds[i][1..];
      FirstTaken(from, i);
      assert olds[..] == from[i := from[i][1..]];
      buckets[idx] := [e] + buckets[idx];
      assert buckets[..] == into[idx := [e] + into[idx]];
      Placed(hash, into, idx, e);
    }

    /** `hash_insert`: stores e unless an equal element is there, which is returned. */
    method HashInsert(e: T, memOk: bool) returns (r: Option<T>)
      requires Valid()
      modifies this, buckets
      ensures Valid() && r == old(Find(e))
      ensures Elems() == if r == None then old(Elems()) + multiset{e} else old(Elems())
      ensures forall x :: Find(x) == if r == None && Equal(less, e, x) then Some(e) else old(Find(x))
      ensures memOk ==> TopPower(bucketCnt, Target(elemCnt))
      ensures buckets == old(buckets) || fresh(buckets)
    {
      hide Lookup, Flat, Home, Separate, Equal;
      ghost var all := Elems();
      var idx := FindBucket(e);
      r := FindElem(buckets[idx], e);
      EqualInBucket(less, hash, buckets[..], e, r);
      if r == None {
        InsertElem(idx, e);
        InsertEffect(less, all, e);
      }
      Rehash(memOk);
    }

    /** `hash_replace`: stores e in place of an equal element, which is returned. */
    method HashReplace(e: T, memOk: bool) returns (r: Option<T>)
      requires Valid()
      modifies this, buckets
      ensures Valid() && r == old(Find(e))
      ensures forall x :: Find(x) == if Equal(less, e, x) then Some(e) else old(Find(x))
      ensures memOk ==> TopPower(bucketCnt, Target(elemCnt))
      ensures buckets == old(buckets) || fresh(buckets)
    {
      hide Lookup, Flat, Home, Separate, Equal;
      ghost var all := Elems();
      var idx := FindBucket(e);
      r := FindElem(buckets[idx], e);
      EqualInBucket(less, hash, buckets[..], e, r);
      if r.Some? {
        RemoveElem(idx, r.value);
        DeleteEffect(less, all, e, r);
      }
      InsertEffect(less, Elems(), e);
      InsertElem(idx, e);
      Rehash(memOk);
    }

    /** `hash_delete`: takes out the element equal to e, if there is one. */
    method HashDelete(e: T, memOk: bool) returns (r: Option<T>)
      requires Valid()
      modifies this, buckets
      ensures Valid() && r == old(Find(e))
      ensures Elems() == if r == None then old(Elems()) else old(Elems()) - multiset{r.value}
      ensures forall x :: Find(x) == if Equal(less, e, x) then None else old(Find(x))
      ensures r.Some? && memOk ==> TopPower(bucketCnt, Target(elemCnt))
      ensures buckets == old(buckets) || fresh(buckets)
    {
      hide Lookup, Flat, Home, Separate, Equal;
      ghost var all := Elems();
      var idx := FindBucket(e);
      r := FindElem(buckets[idx], e);
      EqualInBucket(less, hash, buckets[..], e, r);
      if r.Some? {
        RemoveElem(idx, r.value);
        DeleteEffect(less, all, e, r);
        Rehash(memOk);
      } else {
        DeleteEffect(less, all, e, r);
      }
    }
  }

  lemma Cancel<T>(a: multiset<T>, b: multiset<T>, c: multiset<T>)
    requires a + c == b + c
    ensures a == b
  {
    forall x
      ensures a[x] == b[x]
    {
      assert (a + c)[x] == a[x] + c[x] && (b + c)[x] == b[x] + c[x];
    }
  }

  lemma HomeUpdate<T(!new)>(hash: Hash<T>, b: seq<seq<T>>, i: nat, s: seq<T>)
    requires i < |b| && Home(hash, b) && forall x | x in s :: x in b[i] || hash(x) % |b| == i
    ensures Home(hash, b[i := s])
  { }

  lemma Placed<T(!new)>(hash: Hash<T>, b: seq<seq<T>>, i: nat, e: T)
    requires i < |b| && Home(hash, b) && hash(e) % |b| == i
    ensures Home(hash, b[i := [e] + b[i]]) && All(b[i := [e] + b[i]]) == All(b) + multiset{e}
  {
    hide Home, All;
    var s := [e] + b[i];
    HomeUpdateHidden(hash, b, i, e);
    AllUpdate(b, i, s);
    assert multiset(s) == multiset{e} + multiset(b[i]);
    Cancel(All(b[i := s]), All(b) + multiset{e}, multiset(b[i]));
  }

  lemma HomeUpdateHidden<T(!new)>(hash: Hash<T>, b: seq<seq<T>>, i: nat, e: T)
    requires i < |b| && Home(hash, b) && hash(e) % |b| == i
    ensures Home(hash, b[i := [e] + b[i]])
  { }

  lemma FirstTaken<T>(b: seq<seq<T>>, i: nat)
    requires i < |b| && b[i] != []
    ensures All(b) == All(b[i := b[i][1..]]) + multiset{b[i][0]}
  {
    hide All;
    var s := b[i][1..];
    AllUpdate(b, i, s);
    assert b[i] == [b[i][0]] + s;
    Cancel(All(b), All(b[i := s]) + multiset{b[i][0]}, multiset(s));
  }

  lemma Unlinked<T(!new)>(hash: Hash<T>, b: seq<seq<T>>, i: nat, at: nat)
    requires i < |b| && Home(hash, b) && at < |b[i]|
    ensures Home(hash, b[i := b[i][..at] + b[i][at + 1..]])
    ensures All(b[i := b[i][..at] + b[i][at + 1..]]) == All(b) - multiset{b[i][at]}
    ensures b[i][at] in All(b)
  {
    hide Home, All;
    var s := b[i][..at] + b[i][at + 1..];
    assert forall x | x in s :: x in b[i];
    HomeUpdate(hash, b, i, s);
    AllUpdate(b, i, s);
    assert b[i] == b[i][..at] + [b[i][at]] + b[i][at + 1..];
    assert multiset(b[i]) == multiset{b[i][at]} + multiset(s);
    Cancel(All(b[i := s]) + multiset{b[i][at]}, All(b), multiset(s));
  }

  /** A rehash that got its memory leaves fewer than four elements per bucket. */
  lemma LoadFactor(elemCnt: nat, bucketCnt: nat)
    requires TopPower(bucketCnt, Target(elemCnt))
    ensures elemCnt < 4 * bucketCnt && (elemCnt >= 8 ==> 2 * bucketCnt <= elemCnt)
  { }

  // ---------------------------------------------------------------- iteration

  /** Element j of bucket i comes right after the elements of the buckets before it and the first j of its own. */
  lemma {:induction false} FlatAt<T>(b: seq<seq<T>>, i: nat, j: nat)
    requires i < |b| && j <= |b[i]|
    ensures |Flat(b[..i])| + j <= |Flat(b)|
    ensures j < |b[i]| ==> |Flat(b[..i])| + j < |Flat(b)| && Flat(b)[|Flat(b[..i])| + j] == b[i][j]
    ensures |Flat(b[..i + 1])| == |Flat(b[..i])| + |b[i]|
  {
    var n := |b| - 1;
    assert b[..i + 1][..i] == b[..i];
    if i == n {
      assert b[..n + 1] == b;
    } else {
      FlatAt(b[..n], i, j);
      assert b[..n][..i] == b[..i];
    }
  }

  /** `struct hash_iterator`: the bucket it is at and its element there; -1 is the list head, before the first. */
  class HashIterator<T(==, !new)> {
    const table: Table<T>
    var bucket: nat
    var elem: int

    /** How many elements have been returned, the current one included. */
    ghost function Returned(): int
      reads this, table, table.buckets
      requires bucket <= table.buckets.Length
    {
      |Flat(table.buckets[..bucket])| + elem + 1
    }

    ghost predicate Valid()
      reads this, table, table.buckets
    {
      table.buckets.Length == table.bucketCnt > 0
      && bucket < table.bucketCnt && -1 <= elem < |table.buckets[bucket]|
    }

    /** `hash_first` */
    constructor (table: Table<T>)
      requires table.Valid()
      ensures this.table == table && Valid() && Returned() == 0
    {
      this.table, bucket, elem := table, 0, -1;
    }

    /** `hash_next`: the next element, in the order of the buckets; None once all have been returned. */
    method Next() returns (r: Option<T>)
      requires Valid()
      modifies this
      ensures var all := Flat(table.buckets[..]);
              var n := old(Returned());
              if n < |all| then r == Some(all[n]) && Valid() && Returned() == n + 1 else r == None
    {
      ghost var b := table.buckets[..];
      ghost var n := Returned();
      elem := elem + 1;
      while elem == |table.buckets[bucket]|
        modifies this
        invariant bucket < |b| && 0 <= elem <= |b[bucket]| && |Flat(b[..bucket])| + elem == n
        decreases |b| - bucket
      {
        FlatAt(b, bucket, elem);
        bucket := bucket + 1;
        if bucket >= table.bucketCnt {
          assert b[..bucket] == b;
          return None;
        }
        elem := 0;
      }
      FlatAt(b, bucket, elem);
      assert b[..bucket] == table.buckets[..bucket];
      r := Some(table.buckets[bucket][elem]);
    }
  }

  /** The iteration idiom of hash.c visits every element exactly once. */
  method VisitAll<T(==, !new)>(table: Table<T>) returns (visited: seq<T>)
    requires table.Valid()
    ensures multiset(visited) == table.Elems()
  {
    hide Flat;
    var i := new HashIterator(table);
    ghost var all := Flat(table.buckets[..]);
    visited := [];
    var r := i.Next();
    while r.Some?
      modifies i
      invariant i.table == table && |visited| <= |all| && visited == all[..|visited|]
      invariant if |visited| < |all| then r == Some(all[|visited|]) && i.Valid() && i.Returned() == |visited| + 1 else r == None
      decreases |all| - |visited|, if r.Some? then 1 else 0
    {
      visited := visited + [r.value];
      r := i.Next();
    }
    assert visited == all;
  }
}
