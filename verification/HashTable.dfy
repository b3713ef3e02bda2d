/** The resizing hash table (pintos/src/lib/kernel/hash.c). Elements are numbers that name the
    structures in which the table's links are embedded. */
module HashTable {
  import opened Basics
  import opened Bitmaps
  import D = Division

  // ---------------------------------------------------------------- powers of two by bit tricks

  /** The largest power of two that is at most x. */
  function TopPow(x: nat): (p: nat)
    requires x > 0
    ensures p <= x < 2 * p
  {
    if x == 1 then 1 else 2 * TopPow(x / 2)
  }

  ghost predicate IsPow2(x: nat) { exists k: nat :: x == Pow2(k) }

  lemma {:induction false} TopPowIsPow2(x: nat)
    requires x > 0
    ensures IsPow2(TopPow(x))
  {
    if x == 1 {
      assert Pow2(0) == 1;
    } else {
      TopPowIsPow2(x / 2);
      var k: nat :| TopPow(x / 2) == Pow2(k);
      assert TopPow(x) == Pow2(k + 1);
    }
  }

  lemma {:induction false} AndSelf(x: nat)
    ensures And(x, x) == x
  {
    if x > 0 {
      AndSelf(x / 2);
    }
  }

  lemma TopPowDouble(m: nat, low: nat)
    requires m > 0 && low <= 1
    ensures TopPow(2 * m + low) == 2 * TopPow(m)
  {
    assert (2 * m + low) / 2 == m;
  }

  lemma DropOdd(m: nat)
    requires m > 0
    ensures And(2 * m + 1, 2 * m) == 2 * m
  {
    AndSelf(m);
    assert (2 * m + 1) / 2 == m && (2 * m) / 2 == m;
  }

  lemma DropEven(m: nat)
    requires m > 0
    ensures And(2 * m, 2 * m - 1) == 2 * And(m, m - 1)
  {
    assert (2 * m) / 2 == m && (2 * m - 1) / 2 == m - 1;
  }

  /** x & (x - 1) drops the lowest bit of x: it is zero exactly for a power of two, and otherwise a
      smaller number with the same highest bit. */
  lemma {:induction false} DropLowestBit(x: nat)
    requires x > 0
    ensures And(x, x - 1) < x
    ensures And(x, x - 1) == 0 <==> x == TopPow(x)
    ensures And(x, x - 1) != 0 ==> TopPow(And(x, x - 1)) == TopPow(x)
  {
    var m := x / 2;
    if x > 1 {
      TopPowDouble(m, x % 2);
      TopPowDouble(m, 0);
      if x % 2 == 1 {
        DropOdd(m);
      } else {
        DropEven(m);
        DropLowestBit(m);
        if And(m, m - 1) != 0 {
          TopPowDouble(And(m, m - 1), 0);
        }
      }
    }
  }

  /** Masking with a power of two less one takes the remainder. */
  lemma MaskIsMod(x: nat, k: nat)
    ensures And(x, Pow2(k) - 1) == x % Pow2(k)
  {
    var q := MaskRest(x, k);
    ModIs(x, Pow2(k), q, And(x, Pow2(k) - 1));
  }

  lemma {:induction false} MaskRest(x: nat, k: nat) returns (q: nat)
    ensures x == q * Pow2(k) + And(x, Pow2(k) - 1)
  {
    if k == 0 {
      q := x;
    } else if x == 0 {
      q := 0;
    } else {
      q := MaskRest(x / 2, k - 1);
      var p := Pow2(k - 1);
      HalfMask(x, p);
      Doubled(x, x / 2, q, p, And(x / 2, p - 1));
    }
  }

  lemma Doubled(x: nat, h: nat, q: nat, p: nat, a: nat)
    requires h == q * p + a && x == 2 * h + x % 2
    ensures x == q * (2 * p) + (2 * a + x % 2)
  {
  }

  lemma HalfMask(x: nat, p: nat)
    requires p > 0 && x > 0
    ensures And(x, 2 * p - 1) == 2 * And(x / 2, p - 1) + x % 2
  {
    assert (2 * p - 1) / 2 == p - 1;
  }

  lemma ModIs(x: nat, n: nat, q: nat, r: nat)
    requires n > 0 && x == q * n + r && r < n
    ensures x % n == r
  {
    D.QuotientUnique(x, n, q);
    assert x == (x / n) * n + x % n;
  }

  // ---------------------------------------------------------------- buckets

  type Elem = nat

  /** find_elem's notion of equality. */
  predicate Equal(less: (Elem, Elem) -> bool, x: Elem, y: Elem) { !less(x, y) && !less(y, x) }

  /** What the table needs of its callers' functions: equality is an equivalence, and equal elements
      have equal hashes. */
  ghost predicate Keyed(hash: Elem -> nat, less: (Elem, Elem) -> bool) {
    && (forall x :: Equal(less, x, x))
    && (forall x, y, z :: Equal(less, x, y) && Equal(less, y, z) ==> Equal(less, x, z))
    && (forall x, y :: Equal(less, x, y) ==> hash(x) == hash(y))
  }

  /** find_bucket: the hash masked by the bucket count less one. */
  function Index(hash: Elem -> nat, n: nat, e: Elem): (i: nat)
    requires n > 0
    ensures i < n
  {
    And(hash(e), n - 1)
  }

  ghost function Contents(buckets: seq<seq<Elem>>): set<Elem> {
    set i, e | 0 <= i < |buckets| && e in buckets[i] :: e
  }

  ghost predicate In(buckets: seq<seq<Elem>>, i: nat, e: Elem) { i < |buckets| && e in buckets[i] }

  /** Each element is in the bucket its hash selects, once, and no two are equal. */
  ghost predicate BucketsOk(hash: Elem -> nat, less: (Elem, Elem) -> bool, buckets: seq<seq<Elem>>) {
    && |buckets| > 0
    && (forall i :: 0 <= i < |buckets| ==> Distinct(buckets[i]))
    && (forall i, e :: In(buckets, i, e) ==> i == Index(hash, |buckets|, e))
    && (forall x, y :: x in Contents(buckets) && y in Contents(buckets) && Equal(less, x, y) ==> x == y)
  }

  lemma InContents(buckets: seq<seq<Elem>>, e: Elem)
    ensures e in Contents(buckets) <==> exists i :: In(buckets, i, e)
  {
    if e in Contents(buckets) {
      var i :| 0 <= i < |buckets| && e in buckets[i];
      assert In(buckets, i, e);
    }
  }

  ghost function Inserted(buckets: seq<seq<Elem>>, i: nat, e: Elem): seq<seq<Elem>>
    requires i < |buckets|
  {
    buckets[i := [e] + buckets[i]]
  }

  lemma InsertedIn(buckets: seq<seq<Elem>>, i: nat, e: Elem)
    requires i < |buckets|
    ensures forall j, x :: In(Inserted(buckets, i, e), j, x) <==> In(buckets, j, x) || (j == i && x == e)
    ensures Contents(Inserted(buckets, i, e)) == Contents(buckets) + {e}
  {
    var b := Inserted(buckets, i, e);
    forall j, x
      ensures In(b, j, x) <==> In(buckets, j, x) || (j == i && x == e)
    {
    }
    forall x
      ensures x in Contents(b) <==> x in Contents(buckets) || x == e
    {
      InContents(b, x);
      InContents(buckets, x);
      assert In(b, i, e);
    }
  }

  /** list_push_front of a new element into its bucket. */
  lemma InsertedOk(hash: Elem -> nat, less: (Elem, Elem) -> bool, buckets: seq<seq<Elem>>, e: Elem)
    requires BucketsOk(hash, less, buckets) && forall x :: x in Contents(buckets) ==> !Equal(less, x, e)
    requires Equal(less, e, e)
    ensures BucketsOk(hash, less, Inserted(buckets, Index(hash, |buckets|, e), e))
    ensures Contents(Inserted(buckets, Index(hash, |buckets|, e), e)) == Contents(buckets) + {e}
  {
    var i := Index(hash, |buckets|, e);
    InsertedIn(buckets, i, e);
    InContents(buckets, e);
    assert !In(buckets, i, e);
    ConsDistinct(e, buckets[i]);
  }

  ghost function Removed(buckets: seq<seq<Elem>>, i: nat, e: Elem): seq<seq<Elem>>
    requires i < |buckets|
  {
    buckets[i := Without(buckets[i], e)]
  }

  lemma RemovedOk(hash: Elem -> nat, less: (Elem, Elem) -> bool, buckets: seq<seq<Elem>>, e: Elem)
    requires BucketsOk(hash, less, buckets) && e in Contents(buckets)
    ensures BucketsOk(hash, less, Removed(buckets, Index(hash, |buckets|, e), e))
    ensures Contents(Removed(buckets, Index(hash, |buckets|, e), e)) == Contents(buckets) - {e}
  {
    var i := Index(hash, |buckets|, e);
    var b := Removed(buckets, i, e);
    WithoutKeeps(buckets[i], e);
    forall j, x
      ensures In(b, j, x) <==> In(buckets, j, x) && x != e
    {
      assert In(buckets, j, e) ==> j == i;
    }
    forall x
      ensures x in Contents(b) <==> x in Contents(buckets) && x != e
    {
      InContents(b, x);
      InContents(buckets, x);
    }
  }

  /** An element equal to e can only be in e's own bucket. */
  lemma EqualInBucket(hash: Elem -> nat, less: (Elem, Elem) -> bool, buckets: seq<seq<Elem>>, e: Elem, x: Elem)
    requires Keyed(hash, less) && BucketsOk(hash, less, buckets) && x in Contents(buckets) && Equal(less, x, e)
    ensures x in buckets[Index(hash, |buckets|, e)]
  {
    InContents(buckets, x);
    var i :| In(buckets, i, x);
    assert hash(x) == hash(e);
  }

  /** The elements of the buckets before i, and of the first j of bucket i. */
  ghost function Seen(buckets: seq<seq<Elem>>, i: nat, j: nat): set<Elem>
    requires i < |buckets| && j <= |buckets[i]|
  {
    Contents(buckets[..i]) + set k | 0 <= k < j :: buckets[i][k]
  }

  /** An element not yet moved is equal to none that has been. */
  lemma NextUnseen(hash: Elem -> nat, less: (Elem, Elem) -> bool, buckets: seq<seq<Elem>>, i: nat, j: nat)
    requires BucketsOk(hash, less, buckets) && i < |buckets| && j < |buckets[i]|
    ensures forall x :: x in Seen(buckets, i, j) ==> !Equal(less, x, buckets[i][j])
    ensures Seen(buckets, i, j + 1) == Seen(buckets, i, j) + {buckets[i][j]}
  {
    var e := buckets[i][j];
    assert In(buckets, i, e) && e in Contents(buckets);
    forall x | x in Seen(buckets, i, j)
      ensures x in Contents(buckets) && x != e
    {
      if x in Contents(buckets[..i]) {
        var k :| 0 <= k < i && x in buckets[..i][k];
        assert In(buckets, k, x);
      } else {
        assert In(buckets, i, x);
      }
    }
  }

  lemma BucketSeen(buckets: seq<seq<Elem>>, i: nat)
    requires i < |buckets|
    ensures Seen(buckets, i, |buckets[i]|) == Contents(buckets[..i + 1])
  {
    var a, b := Seen(buckets, i, |buckets[i]|), Contents(buckets[..i + 1]);
    forall x
      ensures x in a <==> x in b
    {
      if x in b {
        var k :| 0 <= k < i + 1 && x in buckets[..i + 1][k];
        if k < i {
          assert x in buckets[..i][k];
        }
      }
      if x in Contents(buckets[..i]) {
        var k :| 0 <= k < i && x in buckets[..i][k];
        assert x in buckets[..i + 1][k];
      } else if x in a {
        assert x in buckets[..i + 1][i];
      }
    }
  }

  class Hash {
    const hash: Elem -> nat
    const less: (Elem, Elem) -> bool
    var buckets: seq<seq<Elem>>
    var elemCnt: nat

    ghost function Elems(): set<Elem>
      reads this
    {
      Contents(buckets)
    }

    ghost predicate Valid()
      reads this
    {
      && Keyed(hash, less) && BucketsOk(hash, less, buckets)
      && elemCnt == |Elems()| && |buckets| >= 4 && IsPow2(|buckets|)
    }

    constructor (hash: Elem -> nat, less: (Elem, Elem) -> bool)
      requires Keyed(hash, less)
      ensures Valid() && Elems() == {} && this.hash == hash && this.less == less
    {
      this.hash, this.less := hash, less;
      elemCnt := 0;
      buckets := seq(4, _ => []);
      new;
      assert Pow2(2) == 4;
    }

    /** find_elem in the bucket of e. */
    method Find(e: Elem) returns (r: Option<Elem>)
      requires Valid()
      ensures r.Some? ==> r.value in Elems() && Equal(less, r.value, e)
      ensures r.None? ==> forall x :: x in Elems() ==> !Equal(less, x, e)
    {
      var i := Index(hash, |buckets|, e);
      var bucket := buckets[i];
      var j := 0;
      while j < |bucket|
        invariant 0 <= j <= |bucket|
        invariant forall k :: 0 <= k < j ==> !Equal(less, bucket[k], e)
      {
        if !less(bucket[j], e) && !less(e, bucket[j]) {
          assert In(buckets, i, bucket[j]);
          return Some(bucket[j]);
        }
        j := j + 1;
      }
      forall x | x in Elems()
        ensures !Equal(less, x, e)
      {
        if Equal(less, x, e) {
          EqualInBucket(hash, less, buckets, e, x);
        }
      }
      return None;
    }

    /** The bucket count rehash aims for: the largest power of two that is at most half the number of
        elements, and at least 4. */
    method TargetCount() returns (n: nat)
      ensures n == TopPow(if elemCnt / 2 < 4 then 4 else elemCnt / 2) && n >= 4 && IsPow2(n)
    {
      n := elemCnt / 2;
      if n < 4 {
        n := 4;
      }
      ghost var start := n;
      while And(n, n - 1) != 0
        invariant 0 < n && TopPow(n) == TopPow(start)
        decreases n
      {
        DropLowestBit(n);
        n := And(n, n - 1);
      }
      DropLowestBit(n);
      TopPowIsPow2(n);
      TopPowAtLeast4(start);
    }

    /** The loops of rehash: every element moves to its bucket in the new array. */
    method MoveAll(n: nat) returns (target: seq<seq<Elem>>)
      requires Valid() && n > 0
      ensures |target| == n && BucketsOk(hash, less, target) && Contents(target) == Elems()
    {
      target := seq(n, _ => []);
      assert Contents(buckets[..0]) == {};
      var i := 0;
      while i < |buckets|
        invariant 0 <= i <= |buckets| && |target| == n && BucketsOk(hash, less, target)
        invariant Contents(target) == Contents(buckets[..i])
      {
        target := MoveBucket(i, target);
        i := i + 1;
      }
      assert buckets[..|buckets|] == buckets;
    }

    method MoveBucket(i: nat, before: seq<seq<Elem>>) returns (target: seq<seq<Elem>>)
      requires Valid() && i < |buckets| && BucketsOk(hash, less, before) && Contents(before) == Contents(buckets[..i])
      ensures |target| == |before| && BucketsOk(hash, less, target) && Contents(target) == Contents(buckets[..i + 1])
    {
      target := before;
      var j := 0;
      while j < |buckets[i]|
        invariant 0 <= j <= |buckets[i]| && |target| == |before| && BucketsOk(hash, less, target)
        invariant Contents(target) == Seen(buckets, i, j)
      {
        var e := buckets[i][j];
        NextUnseen(hash, less, buckets, i, j);
        InsertedOk(hash, less, target, e);
        var k := Index(hash, |target|, e);
        target := target[k := [e] + target[k]];
        j := j + 1;
      }
      BucketSeen(buckets, i);
    }

    /** rehash changes no lookup, whether or not there is room for the new array; with room, it leaves
        2 to 4 elements per bucket, unless 4 buckets are too many for that. */
    method Rehash(room: bool)
      requires Valid()
      modifies `buckets
      ensures Valid() && Elems() == old(Elems())
      ensures room && elemCnt < 8 ==> |buckets| == 4
      ensures room && elemCnt >= 8 ==> 2 * |buckets| <= elemCnt < 4 * |buckets|
    {
      var n := TargetCount();
      if n == |buckets| || !room {
        return;
      }
      buckets := MoveAll(n);
    }

    /** hash_insert. */
    method Insert(e: Elem, room: bool) returns (was: Option<Elem>)
      requires Valid()
      modifies this
      ensures Valid()
      ensures was.Some? ==> was.value in old(Elems()) && Equal(less, was.value, e) && Elems() == old(Elems())
      ensures was.None? ==> (forall x :: x in old(Elems()) ==> !Equal(less, x, e)) && Elems() == old(Elems()) + {e}
    {
      was := Find(e);
      if was.None? {
        Add(e);
      }
      Rehash(room);
    }

    method Add(e: Elem)
      requires Valid() && forall x :: x in Elems() ==> !Equal(less, x, e)
      modifies this
      ensures Valid() && Elems() == old(Elems()) + {e}
    {
      InsertedOk(hash, less, buckets, e);
      var i := Index(hash, |buckets|, e);
      buckets := buckets[i := [e] + buckets[i]];
      elemCnt := elemCnt + 1;
    }

    method Remove(e: Elem)
      requires Valid() && e in Elems()
      modifies this
      ensures Valid() && Elems() == old(Elems()) - {e}
    {
      RemovedOk(hash, less, buckets, e);
      var i := Index(hash, |buckets|, e);
      buckets := buckets[i := Without(buckets[i], e)];
      elemCnt := elemCnt - 1;
    }

    /** hash_replace. */
    method Replace(e: Elem, room: bool) returns (was: Option<Elem>)
      requires Valid()
      modifies this
      ensures Valid()
      ensures was.Some? ==>
                was.value in old(Elems()) && Equal(less, was.value, e) && Elems() == old(Elems()) - {was.value} + {e}
      ensures was.None? ==> (forall x :: x in old(Elems()) ==> !Equal(less, x, e)) && Elems() == old(Elems()) + {e}
    {
      was := Find(e);
      if was.Some? {
        OnlyOneEqual(hash, less, buckets, e, was.value);
        Remove(was.value);
      }
      Add(e);
      Rehash(room);
    }

    /** hash_delete. */
    method Delete(e: Elem, room: bool) returns (was: Option<Elem>)
      requires Valid()
      modifies this
      ensures Valid()
      ensures was.Some? ==>
                was.value in old(Elems()) && Equal(less, was.value, e) && Elems() == old(Elems()) - {was.value}
      ensures was.None? ==> (forall x :: x in old(Elems()) ==> !Equal(less, x, e)) && Elems() == old(Elems())
    {
      was := Find(e);
      if was.Some? {
        Remove(was.value);
        Rehash(room);
      }
    }
  }

  lemma TopPowAtLeast4(x: nat)
    requires x >= 4
    ensures TopPow(x) >= 4
  {
    assert TopPow(x) == 2 * TopPow(x / 2) && TopPow(x / 2) == 2 * TopPow(x / 4);
  }

  lemma OnlyOneEqual(hash: Elem -> nat, less: (Elem, Elem) -> bool, buckets: seq<seq<Elem>>, e: Elem, y: Elem)
    requires Keyed(hash, less) && BucketsOk(hash, less, buckets) && y in Contents(buckets) && Equal(less, y, e)
    ensures forall x :: x in Contents(buckets) && x != y ==> !Equal(less, x, e)
  {
    forall x | x in Contents(buckets) && x != y
      ensures !Equal(less, x, e)
    {
      if Equal(less, x, e) {
        assert Equal(less, e, y);
      }
    }
  }

  /** In a table of a power of two of buckets, an element's bucket is its hash modulo their number. */
  lemma IndexIsMod(hash: Elem -> nat, n: nat, e: Elem)
    requires IsPow2(n) && n > 0
    ensures Index(hash, n, e) == hash(e) % n
  {
    var k: nat :| n == Pow2(k);
    MaskIsMod(hash(e), k);
  }
}
