/** What the list algorithms of list.c compute, on sequences: natural runs, merging two runs,
    one merging pass, and the order, stability and run-count facts about them. */
module ListOrder {

  /** A strict weak order on the elements of S: asymmetric, and "not less" is transitive. */
  ghost predicate StrictWeakOrder<T>(less: (T, T) -> bool, S: set<T>) {
    && (forall x, y :: x in S && y in S && less(x, y) ==> !less(y, x))
    && (forall x, y, z :: x in S && y in S && z in S && !less(x, y) && !less(y, z) ==> !less(x, z))
  }

  ghost function Elements<T>(s: seq<T>): set<T> { set x | x in s }

  ghost predicate Sorted<T>(s: seq<T>, less: (T, T) -> bool) {
    forall i, j :: 0 <= i < j < |s| ==> !less(s[j], s[i])
  }

  /** The elements of s that neither precede nor follow x, in the order of s. */
  ghost function Select<T>(s: seq<T>, x: T, less: (T, T) -> bool): seq<T> {
    if s == [] then []
    else if !less(s[0], x) && !less(x, s[0]) then [s[0]] + Select(s[1..], x, less)
    else Select(s[1..], x, less)
  }

  /** t is a permutation of s that keeps equivalent elements in their order. */
  ghost predicate StablePermutation<T>(s: seq<T>, t: seq<T>, less: (T, T) -> bool) {
    multiset(s) == multiset(t) && forall x :: x in s ==> Select(s, x, less) == Select(t, x, less)
  }

  /** Length of the nondecreasing run at the front of s. */
  ghost function RunLength<T>(s: seq<T>, less: (T, T) -> bool): (n: nat)
    ensures n <= |s| && (s != [] ==> n > 0)
  {
    if |s| <= 1 then |s| else if less(s[1], s[0]) then 1 else 1 + RunLength(s[1..], less)
  }

  /** Number of maximal nondecreasing runs in s. */
  ghost function Runs<T>(s: seq<T>, less: (T, T) -> bool): nat {
    if |s| <= 1 then |s| else (if less(s[1], s[0]) then 1 else 0) + Runs(s[1..], less)
  }

  ghost function Merge<T>(a: seq<T>, b: seq<T>, less: (T, T) -> bool): seq<T> {
    if a == [] then b
    else if b == [] then a
    else if !less(b[0], a[0]) then [a[0]] + Merge(a[1..], b, less)
    else [b[0]] + Merge(a, b[1..], less)
  }

  /** One pass of `list_sort`: adjacent runs merged two by two. */
  ghost function Pass<T>(s: seq<T>, less: (T, T) -> bool): seq<T>
    decreases |s|
  {
    if s == [] then []
    else
      var n := RunLength(s, less);
      if n == |s| then s
      else
        var m := RunLength(s[n..], less);
        Merge(s[..n], s[n..n + m], less) + Pass(s[n + m..], less)
  }

  /** Number of runs that such a pass reports as output. */
  ghost function PassCount<T>(s: seq<T>, less: (T, T) -> bool): nat
    decreases |s|
  {
    if s == [] then 0
    else
      var n := RunLength(s, less);
      if n == |s| then 1 else 1 + PassCount(s[n + RunLength(s[n..], less)..], less)
  }

  /** The first step of a pass over a + b + c, where a and b are the first two runs. */
  lemma PassFirstMerge<T>(s: seq<T>, a: seq<T>, b: seq<T>, c: seq<T>, less: (T, T) -> bool)
    requires s == a + b + c && b != [] && |a| == RunLength(s, less) && |b| == RunLength(b + c, less)
    ensures Pass(s, less) == Merge(a, b, less) + Pass(c, less) && PassCount(s, less) == 1 + PassCount(c, less)
  {
    assert s[..|a|] == a;
    assert s[|a|..] == b + c;
    assert s[|a|..|a| + |b|] == b;
    assert s[|a| + |b|..] == c;
  }

  lemma PassOfOneRun<T>(s: seq<T>, less: (T, T) -> bool)
    requires s != [] && RunLength(s, less) == |s|
    ensures Pass(s, less) == s && PassCount(s, less) == 1
  {
  }

  lemma {:induction false} RunIsSorted<T>(s: seq<T>, less: (T, T) -> bool, S: set<T>)
    requires StrictWeakOrder(less, S) && Elements(s) <= S
    ensures Sorted(s[..RunLength(s, less)], less)
  {
    if |s| > 1 && !less(s[1], s[0]) {
      var n := RunLength(s, less);
      RunIsSorted(s[1..], less, S);
      assert s[..n] == [s[0]] + s[1..][..n - 1];
      SortedCons(s[0], s[1..][..n - 1], less, S);
    }
  }

  lemma SortedCons<T>(x: T, s: seq<T>, less: (T, T) -> bool, S: set<T>)
    requires StrictWeakOrder(less, S) && Elements(s) <= S && x in S
    requires Sorted(s, less) && (s != [] ==> !less(s[0], x))
    ensures Sorted([x] + s, less)
  {
    var r := [x] + s;
    forall i, j | 0 <= i < j < |r|
      ensures !less(r[j], r[i])
    {
      if i == 0 && j > 1 {
        assert s[0] in S && s[j - 1] in S;
        assert !less(s[j - 1], s[0]);
      }
    }
  }

  lemma {:induction false} MergeMultiset<T>(a: seq<T>, b: seq<T>, less: (T, T) -> bool)
    ensures multiset(Merge(a, b, less)) == multiset(a) + multiset(b)
    decreases |a| + |b|
  {
    if a != [] && b != [] {
      if !less(b[0], a[0]) {
        MergeMultiset(a[1..], b, less);
        assert a == [a[0]] + a[1..];
      } else {
        MergeMultiset(a, b[1..], less);
        assert b == [b[0]] + b[1..];
      }
    }
  }

  lemma MergeLength<T>(a: seq<T>, b: seq<T>, less: (T, T) -> bool)
    ensures |Merge(a, b, less)| == |a| + |b|
  {
    MergeMultiset(a, b, less);
    assert |multiset(Merge(a, b, less))| == |a| + |b|;
  }

  lemma MergeHead<T>(a: seq<T>, b: seq<T>, less: (T, T) -> bool, x: T)
    requires a + b != [] && (a != [] ==> !less(a[0], x)) && (b != [] ==> !less(b[0], x))
    ensures Merge(a, b, less) != [] && !less(Merge(a, b, less)[0], x)
  {
  }

  lemma {:induction false} MergeSorted<T>(a: seq<T>, b: seq<T>, less: (T, T) -> bool, S: set<T>)
    requires StrictWeakOrder(less, S) && Elements(a) <= S && Elements(b) <= S
    requires Sorted(a, less) && Sorted(b, less)
    ensures Sorted(Merge(a, b, less), less) && Elements(Merge(a, b, less)) <= S
    decreases |a| + |b|
  {
    if a != [] && b != [] {
      assert a[0] in S && b[0] in S;
      if !less(b[0], a[0]) {
        MergeSorted(a[1..], b, less, S);
        MergeHead(a[1..], b, less, a[0]);
        SortedCons(a[0], Merge(a[1..], b, less), less, S);
      } else {
        MergeSorted(a, b[1..], less, S);
        MergeHead(a, b[1..], less, b[0]);
        SortedCons(b[0], Merge(a, b[1..], less), less, S);
      }
    }
  }

  lemma {:induction false} SelectConcat<T>(a: seq<T>, b: seq<T>, x: T, less: (T, T) -> bool)
    ensures Select(a + b, x, less) == Select(a, x, less) + Select(b, x, less)
  {
    if a == [] {
      assert a + b == b;
    } else {
      assert a == [a[0]] + a[1..];
      SelectConcat(a[1..], b, x, less);
      ConcatAssoc([a[0]], a[1..], b);
      SelectCons(a[0], a[1..], x, less);
      SelectCons(a[0], a[1..] + b, x, less);
      ConcatAssoc(if !less(a[0], x) && !less(x, a[0]) then [a[0]] else [], Select(a[1..], x, less), Select(b, x, less));
    }
  }

  lemma ConcatAssoc<T>(a: seq<T>, b: seq<T>, c: seq<T>)
    ensures (a + b) + c == a + (b + c)
  {
  }

  /** Nothing in a sorted run is equivalent to x when x precedes its first element. */
  lemma {:induction false} SelectNone<T>(a: seq<T>, x: T, y: T, less: (T, T) -> bool, S: set<T>)
    requires StrictWeakOrder(less, S) && Elements(a) <= S && x in S && y in S
    requires Sorted(a, less) && a != [] && less(y, a[0]) && !less(x, y) && !less(y, x)
    ensures Select(a, x, less) == []
  {
    assert a[0] in S;
    assert less(x, a[0]);
    if |a| > 1 {
      assert a[1] in S && !less(a[1], a[0]);
      assert less(y, a[1]);
      SelectNone(a[1..], x, y, less, S);
    }
  }

  /** Merging two runs keeps every class of equivalent elements in its order. */
  lemma {:induction false} MergeStable<T>(a: seq<T>, b: seq<T>, x: T, less: (T, T) -> bool, S: set<T>)
    requires StrictWeakOrder(less, S) && Elements(a) <= S && Elements(b) <= S && x in S
    requires Sorted(a, less) && Sorted(b, less)
    ensures Select(Merge(a, b, less), x, less) == Select(a, x, less) + Select(b, x, less)
    decreases |a| + |b|
  {
    if a != [] && b != [] {
      assert a[0] in S && b[0] in S;
      if !less(b[0], a[0]) {
        MergeStable(a[1..], b, x, less, S);
        SelectCons(a[0], Merge(a[1..], b, less), x, less);
      } else {
        MergeStable(a, b[1..], x, less, S);
        SelectCons(b[0], Merge(a, b[1..], less), x, less);
        if !less(b[0], x) && !less(x, b[0]) {
          SelectNone(a, x, b[0], less, S);
        }
      }
    }
  }

  lemma SelectCons<T>(h: T, t: seq<T>, x: T, less: (T, T) -> bool)
    ensures Select([h] + t, x, less) == (if !less(h, x) && !less(x, h) then [h] else []) + Select(t, x, less)
  {
    assert ([h] + t)[1..] == t;
  }

  lemma ElementsSlice<T>(s: seq<T>, i: int, j: int, S: set<T>)
    requires 0 <= i <= j <= |s| && Elements(s) <= S
    ensures Elements(s[i..j]) <= S
  {
    forall x | x in s[i..j]
      ensures x in S
    {
      assert x in s;
    }
  }

  /** The two runs that a pass merges first, and what is left. */
  lemma FirstTwoRuns<T>(s: seq<T>, less: (T, T) -> bool, S: set<T>) returns (n: nat, m: nat)
    requires StrictWeakOrder(less, S) && Elements(s) <= S && s != [] && RunLength(s, less) < |s|
    ensures n == RunLength(s, less) && m == RunLength(s[n..], less) && 0 < n && 0 < m && n + m <= |s|
    ensures s == s[..n] + s[n..n + m] + s[n + m..]
    ensures Sorted(s[..n], less) && Sorted(s[n..n + m], less)
    ensures Elements(s[..n]) <= S && Elements(s[n..n + m]) <= S && Elements(s[n + m..]) <= S
  {
    n := RunLength(s, less);
    m := RunLength(s[n..], less);
    RunIsSorted(s, less, S);
    ElementsSlice(s, n, |s|, S);
    RunIsSorted(s[n..], less, S);
    assert s[n..][..m] == s[n..n + m];
    ElementsSlice(s, 0, n, S);
    ElementsSlice(s, n, n + m, S);
    ElementsSlice(s, n + m, |s|, S);
  }

  /** A pass permutes its input. */
  lemma {:induction false} PassMultiset<T>(s: seq<T>, less: (T, T) -> bool, S: set<T>)
    requires StrictWeakOrder(less, S) && Elements(s) <= S
    ensures multiset(Pass(s, less)) == multiset(s)
    decreases |s|
  {
    if s != [] && RunLength(s, less) < |s| {
      var n, m := FirstTwoRuns(s, less, S);
      MergeMultiset(s[..n], s[n..n + m], less);
      PassMultiset(s[n + m..], less, S);
    }
  }

  /** A pass keeps every class of equivalent elements in its order. */
  lemma {:induction false} PassStable<T>(s: seq<T>, x: T, less: (T, T) -> bool, S: set<T>)
    requires StrictWeakOrder(less, S) && Elements(s) <= S && x in S
    ensures Select(Pass(s, less), x, less) == Select(s, x, less)
    decreases |s|
  {
    if s != [] && RunLength(s, less) < |s| {
      var n, m := FirstTwoRuns(s, less, S);
      var a, b, c := s[..n], s[n..n + m], s[n + m..];
      MergeStable(a, b, x, less, S);
      PassStable(c, x, less, S);
      SelectConcat(Merge(a, b, less), Pass(c, less), x, less);
      SelectConcat(a + b, c, x, less);
      SelectConcat(a, b, x, less);
    }
  }

  lemma PassIsStablePermutation<T>(s: seq<T>, less: (T, T) -> bool, S: set<T>)
    requires StrictWeakOrder(less, S) && Elements(s) <= S
    ensures StablePermutation(s, Pass(s, less), less)
  {
    PassMultiset(s, less, S);
    forall x | x in s
      ensures Select(s, x, less) == Select(Pass(s, less), x, less)
    {
      PassStable(s, x, less, S);
    }
  }

  lemma StableTransitive<T>(s: seq<T>, t: seq<T>, u: seq<T>, less: (T, T) -> bool)
    requires StablePermutation(s, t, less) && StablePermutation(t, u, less)
    ensures StablePermutation(s, u, less)
  {
    forall x | x in s
      ensures Select(s, x, less) == Select(u, x, less)
    {
      assert x in multiset(t);
    }
  }

  lemma {:induction false} RunsAfterFirst<T>(s: seq<T>, less: (T, T) -> bool)
    requires s != []
    ensures Runs(s, less) == 1 + Runs(s[RunLength(s, less)..], less)
  {
    if |s| > 1 && !less(s[1], s[0]) {
      RunsAfterFirst(s[1..], less);
      assert s[1..][RunLength(s[1..], less)..] == s[RunLength(s, less)..];
    }
  }

  lemma {:induction false} RunsConcat<T>(a: seq<T>, b: seq<T>, less: (T, T) -> bool)
    ensures Runs(a + b, less) <= Runs(a, less) + Runs(b, less)
  {
    if a == [] {
      assert a + b == b;
    } else if |a| == 1 {
      assert (a + b)[1..] == b;
    } else {
      RunsConcat(a[1..], b, less);
      assert (a + b)[1..] == a[1..] + b;
    }
  }

  lemma {:induction false} SortedIsOneRun<T>(s: seq<T>, less: (T, T) -> bool)
    requires Sorted(s, less) && s != []
    ensures Runs(s, less) == 1
  {
    if |s| > 1 {
      assert !less(s[1], s[0]);
      SortedIsOneRun(s[1..], less);
    }
  }

  lemma {:induction false} OneRunIsSorted<T>(s: seq<T>, less: (T, T) -> bool, S: set<T>)
    requires StrictWeakOrder(less, S) && Elements(s) <= S && Runs(s, less) <= 1
    ensures Sorted(s, less)
  {
    if s != [] {
      RunsAfterFirst(s, less);
      RunIsSorted(s, less, S);
      var rest := s[RunLength(s, less)..];
      if rest != [] {
        RunsAfterFirst(rest, less);
      }
      assert s[..RunLength(s, less)] == s;
    }
  }

  /** A pass outputs half as many runs as it found, rounded up. */
  lemma {:induction false} PassCountHalves<T>(s: seq<T>, less: (T, T) -> bool)
    ensures PassCount(s, less) == (Runs(s, less) + 1) / 2
    decreases |s|
  {
    if s != [] {
      var n := RunLength(s, less);
      RunsAfterFirst(s, less);
      if n == |s| {
        PassOfOneRun(s, less);
      } else {
        RunsAfterFirst(s[n..], less);
        var m := RunLength(s[n..], less);
        var rest := s[n + m..];
        assert s[n..][m..] == rest;
        assert Runs(s, less) == 2 + Runs(rest, less);
        assert s[n..] == s[n..n + m] + rest;
        PassFirstMerge(s, s[..n], s[n..n + m], rest, less);
        PassCountHalves(rest, less);
      }
    }
  }

  /** The next pass finds no more runs than this one output. */
  lemma {:induction false} PassRuns<T>(s: seq<T>, less: (T, T) -> bool, S: set<T>)
    requires StrictWeakOrder(less, S) && Elements(s) <= S
    ensures Runs(Pass(s, less), less) <= PassCount(s, less)
    decreases |s|
  {
    if s != [] {
      if RunLength(s, less) == |s| {
        RunsAfterFirst(s, less);
      } else {
        var n, m := FirstTwoRuns(s, less, S);
        var merged := Merge(s[..n], s[n..n + m], less);
        MergeSorted(s[..n], s[n..n + m], less, S);
        MergeLength(s[..n], s[n..n + m], less);
        SortedIsOneRun(merged, less);
        PassRuns(s[n + m..], less, S);
        RunsConcat(merged, Pass(s[n + m..], less), less);
      }
    }
  }

  /** The number of natural runs at least halves in every pass. */
  lemma RunsHalve<T>(s: seq<T>, less: (T, T) -> bool, S: set<T>)
    requires StrictWeakOrder(less, S) && Elements(s) <= S
    ensures Runs(Pass(s, less), less) <= (Runs(s, less) + 1) / 2
  {
    PassRuns(s, less, S);
    PassCountHalves(s, less);
  }
}
