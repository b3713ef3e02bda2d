/** In-place heapsort and binary search (pintos/src/lib/stdlib.c). Heap positions count from 1, array
    indexes from 0. */
module HeapSort {

  /** What sort asks of its comparison function: a strcmp()-type result for a total preorder. */
  ghost predicate TotalPreorder<T(!new)>(compare: (T, T) -> int) {
    && (forall x, y :: compare(x, y) > 0 <==> compare(y, x) < 0)
    && (forall x, y, z :: compare(x, y) <= 0 && compare(y, z) <= 0 ==> compare(x, z) <= 0)
  }

  function Swap<T>(s: seq<T>, i: nat, j: nat): (r: seq<T>)
    requires 1 <= i <= |s| && 1 <= j <= |s|
    ensures |r| == |s| && r[i - 1] == s[j - 1] && r[j - 1] == s[i - 1]
    ensures forall k :: 0 <= k < |s| && k != i - 1 && k != j - 1 ==> r[k] == s[k]
  {
    s[i - 1 := s[j - 1]][j - 1 := s[i - 1]]
  }

  /** The position of the largest among i and its children. */
  function MaxChild<T>(s: seq<T>, i: nat, cnt: nat, compare: (T, T) -> int): (m: nat)
    requires 1 <= i <= cnt <= |s|
    ensures m == i || m == 2 * i || m == 2 * i + 1
    ensures m <= cnt
  {
    var m := if 2 * i <= cnt && compare(s[2 * i - 1], s[i - 1]) > 0 then 2 * i else i;
    if 2 * i + 1 <= cnt && compare(s[2 * i], s[m - 1]) > 0 then 2 * i + 1 else m
  }

  /** heapify, on sequences. */
  function Sift<T>(s: seq<T>, i: nat, cnt: nat, compare: (T, T) -> int): (r: seq<T>)
    requires 1 <= i <= cnt <= |s|
    ensures |r| == |s|
    decreases cnt - i
  {
    var m := MaxChild(s, i, cnt, compare);
    if m == i then s else Sift(Swap(s, i, m), m, cnt, compare)
  }

  // ---------------------------------------------------------------- the heap property

  ghost predicate Below<T>(s: seq<T>, j: nat, compare: (T, T) -> int)
    requires 2 <= j <= |s|
  {
    compare(s[j - 1], s[j / 2 - 1]) <= 0
  }

  /** Every position up to cnt whose parent is at or after lo is below its parent, except those whose
      parent is `hole`. */
  ghost predicate HeapBut<T>(s: seq<T>, lo: nat, cnt: nat, hole: nat, compare: (T, T) -> int)
    requires cnt <= |s| && lo >= 1
  {
    forall j {:trigger Below(s, j, compare)} :: 2 <= j <= cnt && j / 2 >= lo && j / 2 != hole ==> Below(s, j, compare)
  }

  ghost predicate Heap<T>(s: seq<T>, lo: nat, cnt: nat, compare: (T, T) -> int)
    requires cnt <= |s| && lo >= 1
  {
    HeapBut(s, lo, cnt, 0, compare)
  }

  /** The children of i are below the parent of i. */
  ghost predicate Bridged<T>(s: seq<T>, lo: nat, cnt: nat, i: nat, compare: (T, T) -> int)
    requires cnt <= |s| && 1 <= lo && 1 <= i
  {
    i / 2 >= lo ==> forall j :: 2 <= j <= cnt && j / 2 == i ==> compare(s[j - 1], s[i / 2 - 1]) <= 0
  }

  lemma MaxChildTop<T(!new)>(s: seq<T>, i: nat, cnt: nat, compare: (T, T) -> int, j: nat)
    requires TotalPreorder(compare) && 1 <= i <= cnt <= |s| && 2 <= j <= cnt && j / 2 == i
    ensures compare(s[j - 1], s[MaxChild(s, i, cnt, compare) - 1]) <= 0
  {
  }

  /** One step of heapify moves the hole down. */
  lemma SwapStep<T(!new)>(s: seq<T>, lo: nat, i: nat, cnt: nat, compare: (T, T) -> int)
    requires TotalPreorder(compare) && 1 <= lo <= i <= cnt <= |s| && HeapBut(s, lo, cnt, i, compare)
    requires Bridged(s, lo, cnt, i, compare) && MaxChild(s, i, cnt, compare) != i
    ensures var m := MaxChild(s, i, cnt, compare);
            HeapBut(Swap(s, i, m), lo, cnt, m, compare) && Bridged(Swap(s, i, m), lo, cnt, m, compare)
  {
    var m := MaxChild(s, i, cnt, compare);
    var r := Swap(s, i, m);
    assert m / 2 == i;
    MaxIsBigger(s, i, cnt, compare);
    forall j {:trigger Below(r, j, compare)} | 2 <= j <= cnt && j / 2 >= lo && j / 2 != m
      ensures Below(r, j, compare)
    {
      if j / 2 == i {
        MaxChildTop(s, i, cnt, compare, j);
      }
      SwapBelow(s, lo, i, cnt, compare, m, j);
    }
    forall j | 2 <= j <= cnt && j / 2 == m
      ensures compare(r[j - 1], r[m / 2 - 1]) <= 0
    {
      assert Below(s, j, compare);
    }
  }

  lemma SwapBelow<T>(s: seq<T>, lo: nat, i: nat, cnt: nat, compare: (T, T) -> int, m: nat, j: nat)
    requires 1 <= lo <= i < m <= cnt <= |s| && m / 2 == i && HeapBut(s, lo, cnt, i, compare)
    requires Bridged(s, lo, cnt, i, compare) && compare(s[i - 1], s[m - 1]) <= 0
    requires 2 <= j <= cnt && j / 2 >= lo && j / 2 != m && (j / 2 == i ==> compare(s[j - 1], s[m - 1]) <= 0)
    ensures Below(Swap(s, i, m), j, compare)
  {
    if j == i {
      assert compare(s[m - 1], s[i / 2 - 1]) <= 0;
    } else if j / 2 != i {
      assert Below(s, j, compare);
    }
  }

  lemma MaxIsBigger<T(!new)>(s: seq<T>, i: nat, cnt: nat, compare: (T, T) -> int)
    requires TotalPreorder(compare) && 1 <= i <= cnt <= |s|
    ensures compare(s[i - 1], s[MaxChild(s, i, cnt, compare) - 1]) <= 0
  {
  }

  /** heapify restores the heap property from its start down. */
  lemma {:induction false} SiftHeap<T(!new)>(s: seq<T>, lo: nat, i: nat, cnt: nat, compare: (T, T) -> int)
    requires TotalPreorder(compare) && 1 <= lo <= i <= cnt <= |s|
    requires HeapBut(s, lo, cnt, i, compare) && Bridged(s, lo, cnt, i, compare)
    ensures Heap(Sift(s, i, cnt, compare), lo, cnt, compare)
    decreases cnt - i
  {
    var m := MaxChild(s, i, cnt, compare);
    if m == i {
      forall j {:trigger Below(s, j, compare)} | 2 <= j <= cnt && j / 2 >= lo
        ensures Below(s, j, compare)
      {
        if j / 2 == i {
          MaxChildTop(s, i, cnt, compare, j);
        }
      }
    } else {
      SwapStep(s, lo, i, cnt, compare);
      SiftHeap(Swap(s, i, m), lo, m, cnt, compare);
    }
  }

  // ---------------------------------------------------------------- what heapify keeps

  lemma SwapMultiset<T>(s: seq<T>, i: nat, j: nat)
    requires 1 <= i <= |s| && 1 <= j <= |s|
    ensures multiset(Swap(s, i, j)) == multiset(s)
  {
  }

  /** heapify permutes the positions from its start up to cnt and touches no other. */
  lemma {:induction false} SiftKeeps<T>(s: seq<T>, i: nat, cnt: nat, compare: (T, T) -> int)
    requires 1 <= i <= cnt <= |s|
    ensures multiset(Sift(s, i, cnt, compare)) == multiset(s)
    ensures forall k :: 0 <= k < |s| && !(i - 1 <= k < cnt) ==> Sift(s, i, cnt, compare)[k] == s[k]
    decreases cnt - i
  {
    var m := MaxChild(s, i, cnt, compare);
    if m != i {
      SwapMultiset(s, i, m);
      SiftKeeps(Swap(s, i, m), m, cnt, compare);
    }
  }

  /** A permutation that keeps a suffix permutes the prefix. */
  lemma PrefixMultiset<T>(s: seq<T>, r: seq<T>, cnt: nat)
    requires |s| == |r| && cnt <= |s| && multiset(s) == multiset(r) && forall k :: cnt <= k < |s| ==> r[k] == s[k]
    ensures multiset(r[..cnt]) == multiset(s[..cnt])
  {
    assert s == s[..cnt] + s[cnt..] && r == r[..cnt] + r[cnt..] && r[cnt..] == s[cnt..];
    assert multiset(s[..cnt]) == multiset(s) - multiset(s[cnt..]);
    assert multiset(r[..cnt]) == multiset(r) - multiset(r[cnt..]);
  }

  // ---------------------------------------------------------------- building the heap

  /** The first loop of sort, from position i down. */
  function Build<T>(s: seq<T>, i: nat, compare: (T, T) -> int): (r: seq<T>)
    requires i <= |s|
    ensures |r| == |s|
    decreases i
  {
    if i == 0 then s else Build(Sift(s, i, |s|, compare), i - 1, compare)
  }

  lemma OpenHole<T>(s: seq<T>, i: nat, compare: (T, T) -> int)
    requires 1 <= i <= |s| && Heap(s, i + 1, |s|, compare)
    ensures HeapBut(s, i, |s|, i, compare)
  {
  }

  lemma {:induction false} BuildHeap<T(!new)>(s: seq<T>, i: nat, compare: (T, T) -> int)
    requires TotalPreorder(compare) && i <= |s| && Heap(s, i + 1, |s|, compare)
    ensures Heap(Build(s, i, compare), 1, |s|, compare) && multiset(Build(s, i, compare)) == multiset(s)
    decreases i
  {
    if i > 0 {
      OpenHole(s, i, compare);
      SiftHeap(s, i, i, |s|, compare);
      SiftKeeps(s, i, |s|, compare);
      BuildHeap(Sift(s, i, |s|, compare), i - 1, compare);
    }
  }

  /** The root of a heap is its largest element. */
  lemma {:induction false} HeapTop<T(!new)>(s: seq<T>, cnt: nat, compare: (T, T) -> int, j: nat)
    requires TotalPreorder(compare) && 1 <= j <= cnt <= |s| && Heap(s, 1, cnt, compare)
    ensures compare(s[j - 1], s[0]) <= 0
  {
    if j > 1 {
      assert Below(s, j, compare);
      HeapTop(s, cnt, compare, j / 2);
    }
  }

  // ---------------------------------------------------------------- sorting the heap

  ghost predicate SortedFrom<T>(s: seq<T>, lo: nat, compare: (T, T) -> int) {
    forall i, j :: lo <= i < j < |s| ==> compare(s[i], s[j]) <= 0
  }

  /** Everything before cnt is at most everything from cnt on. */
  ghost predicate Parted<T>(s: seq<T>, cnt: nat, compare: (T, T) -> int) {
    forall i, j :: 0 <= i < cnt <= j < |s| ==> compare(s[i], s[j]) <= 0
  }

  function Step<T>(s: seq<T>, i: nat, compare: (T, T) -> int): (r: seq<T>)
    requires 2 <= i <= |s|
    ensures |r| == |s|
  {
    Sift(Swap(s, 1, i), 1, i - 1, compare)
  }

  /** The second loop of sort, from position i down. */
  function Drain<T>(s: seq<T>, i: nat, compare: (T, T) -> int): (r: seq<T>)
    requires i <= |s|
    ensures |r| == |s|
    decreases i
  {
    if i <= 1 then s else Drain(Step(s, i, compare), i - 1, compare)
  }

  ghost predicate Draining<T>(s: seq<T>, i: nat, compare: (T, T) -> int)
    requires i <= |s|
  {
    Heap(s, 1, i, compare) && SortedFrom(s, i, compare) && Parted(s, i, compare)
  }

  lemma StepHeap<T(!new)>(s: seq<T>, i: nat, compare: (T, T) -> int)
    requires TotalPreorder(compare) && 2 <= i <= |s| && Heap(s, 1, i, compare)
    ensures Heap(Step(s, i, compare), 1, i - 1, compare)
  {
    var w := Swap(s, 1, i);
    forall j {:trigger Below(w, j, compare)} | 2 <= j <= i - 1 && j / 2 >= 1 && j / 2 != 1
      ensures Below(w, j, compare)
    {
      assert Below(s, j, compare);
    }
    SiftHeap(w, 1, 1, i - 1, compare);
  }

  /** One round puts the largest remaining element in front of those already placed. */
  lemma StepPlaces<T(!new)>(s: seq<T>, i: nat, compare: (T, T) -> int)
    requires TotalPreorder(compare) && 2 <= i <= |s| && Draining(s, i, compare)
    ensures var r := Step(s, i, compare);
            && multiset(r) == multiset(s) && r[i - 1] == s[0] && (forall k :: i <= k < |s| ==> r[k] == s[k])
            && multiset(r[..i]) == multiset(s[..i])
  {
    SwapMultiset(s, 1, i);
    SiftKeeps(Swap(s, 1, i), 1, i - 1, compare);
    PrefixMultiset(s, Step(s, i, compare), i);
  }

  lemma PrefixElem<T>(s: seq<T>, r: seq<T>, n: nat, k: nat)
    requires n <= |s| && n <= |r| && multiset(r[..n]) == multiset(s[..n]) && k < n
    ensures exists j :: 0 <= j < n && s[j] == r[k]
  {
    assert r[..n][k] in multiset(r[..n]);
    assert r[k] in s[..n];
  }

  lemma StepDrains<T(!new)>(s: seq<T>, i: nat, compare: (T, T) -> int)
    requires TotalPreorder(compare) && 2 <= i <= |s| && Draining(s, i, compare)
    ensures Draining(Step(s, i, compare), i - 1, compare)
  {
    var r := Step(s, i, compare);
    StepHeap(s, i, compare);
    StepPlaces(s, i, compare);
    forall k | 0 <= k < i
      ensures compare(r[k], s[0]) <= 0 && forall j :: i <= j < |s| ==> compare(r[k], s[j]) <= 0
    {
      PrefixElem(s, r, i, k);
      var j :| 0 <= j < i && s[j] == r[k];
      HeapTop(s, i, compare, j + 1);
    }
  }

  lemma {:induction false} DrainSorts<T(!new)>(s: seq<T>, i: nat, compare: (T, T) -> int)
    requires TotalPreorder(compare) && i <= |s| && Draining(s, i, compare)
    ensures SortedFrom(Drain(s, i, compare), 0, compare) && multiset(Drain(s, i, compare)) == multiset(s)
    decreases i
  {
    if i > 1 {
      StepDrains(s, i, compare);
      StepPlaces(s, i, compare);
      DrainSorts(Step(s, i, compare), i - 1, compare);
    }
  }

  ghost function Sorted<T>(s: seq<T>, compare: (T, T) -> int): seq<T> {
    Drain(Build(s, |s| / 2, compare), |s|, compare)
  }

  /** sort yields a sorted permutation, for every array and every total preorder. */
  lemma SortIsCorrect<T(!new)>(s: seq<T>, compare: (T, T) -> int)
    requires TotalPreorder(compare)
    ensures SortedFrom(Sorted(s, compare), 0, compare) && multiset(Sorted(s, compare)) == multiset(s)
  {
    assert Heap(s, |s| / 2 + 1, |s|, compare);
    BuildHeap(s, |s| / 2, compare);
    DrainSorts(Build(s, |s| / 2, compare), |s|, compare);
  }

  // ---------------------------------------------------------------- the C functions

  method DoSwap<T>(a: array<T>, i: nat, j: nat)
    requires 1 <= i <= a.Length && 1 <= j <= a.Length
    modifies a
    ensures a[..] == Swap(old(a[..]), i, j)
  {
    a[i - 1], a[j - 1] := a[j - 1], a[i - 1];
  }

  method Heapify<T>(a: array<T>, start: nat, cnt: nat, compare: (T, T) -> int)
    requires 1 <= start <= cnt <= a.Length
    modifies a
    ensures a[..] == Sift(old(a[..]), start, cnt, compare)
  {
    var i := start;
    while true
      invariant 1 <= i <= cnt && Sift(a[..], i, cnt, compare) == Sift(old(a[..]), start, cnt, compare)
      decreases cnt - i
    {
      var left, right, max := 2 * i, 2 * i + 1, i;
      if left <= cnt && compare(a[left - 1], a[max - 1]) > 0 {
        max := left;
      }
      if right <= cnt && compare(a[right - 1], a[max - 1]) > 0 {
        max := right;
      }
      assert max == MaxChild(a[..], i, cnt, compare);
      if max == i {
        return;
      }
      DoSwap(a, i, max);
      i := max;
    }
  }

  method BuildLoop<T>(a: array<T>, compare: (T, T) -> int)
    modifies a
    ensures a[..] == Build(old(a[..]), a.Length / 2, compare)
  {
    var i := a.Length / 2;
    while i > 0
      invariant 0 <= i <= a.Length && Build(a[..], i, compare) == Build(old(a[..]), a.Length / 2, compare)
    {
      Heapify(a, i, a.Length, compare);
      i := i - 1;
    }
  }

  method DrainLoop<T>(a: array<T>, compare: (T, T) -> int)
    modifies a
    ensures a[..] == Drain(old(a[..]), a.Length, compare)
  {
    var i := a.Length;
    while i > 1
      invariant 0 <= i <= a.Length && Drain(a[..], i, compare) == Drain(old(a[..]), a.Length, compare)
    {
      DoSwap(a, 1, i);
      Heapify(a, 1, i - 1, compare);
      i := i - 1;
    }
  }

  method Sort<T(!new)>(a: array<T>, compare: (T, T) -> int)
    requires TotalPreorder(compare)
    modifies a
    ensures SortedFrom(a[..], 0, compare) && multiset(a[..]) == multiset(old(a[..]))
  {
    SortIsCorrect(a[..], compare);
    BuildLoop(a, compare);
    DrainLoop(a, compare);
  }

  /** binary_search on a sorted array finds a match exactly when there is one. */
  method BinarySearch<T(!new)>(key: T, a: array<T>, compare: (T, T) -> int) returns (r: int)
    requires TotalPreorder(compare) && SortedFrom(a[..], 0, compare)
    ensures r == -1 || (0 <= r < a.Length && compare(key, a[r]) == 0)
    ensures r == -1 <==> forall k :: 0 <= k < a.Length ==> compare(key, a[k]) != 0
  {
    var first, last := 0, a.Length;
    while first < last
      invariant 0 <= first <= last <= a.Length
      invariant forall k :: 0 <= k < first ==> compare(key, a[k]) > 0
      invariant forall k :: last <= k < a.Length ==> compare(key, a[k]) < 0
    {
      var middle := first + (last - first) / 2;
      var cmp := compare(key, a[middle]);
      ghost var s := a[..];
      if cmp < 0 {
        forall k | middle <= k < a.Length
          ensures compare(key, a[k]) < 0
        {
          assert s[middle] == a[middle] && s[k] == a[k];
          StrictlyLess(compare, key, a[middle], a[k]);
        }
        last := middle;
      } else if cmp > 0 {
        forall k | 0 <= k <= middle
          ensures compare(key, a[k]) > 0
        {
          assert s[middle] == a[middle] && s[k] == a[k];
          StrictlyMore(compare, key, a[middle], a[k]);
        }
        first := middle + 1;
      } else {
        return middle;
      }
    }
    return -1;
  }

  lemma StrictlyLess<T(!new)>(compare: (T, T) -> int, x: T, y: T, z: T)
    requires TotalPreorder(compare) && compare(x, y) < 0 && (compare(y, z) <= 0 || y == z)
    ensures compare(x, z) < 0
  {
  }

  lemma StrictlyMore<T(!new)>(compare: (T, T) -> int, x: T, y: T, z: T)
    requires TotalPreorder(compare) && compare(x, y) > 0 && (compare(z, y) <= 0 || y == z)
    ensures compare(x, z) > 0
  {
  }
}
