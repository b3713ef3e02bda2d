/** The kernel's intrusive doubly linked list (pintos/src/lib/kernel/list.c), with real
    prev/next links.  `nodes` is the ghost sequence of elements from the head header to the
    tail header. */
module KernelList {
  import Basics
  import opened ListOrder

  class ListElem {
    var prev: ListElem?
    var next: ListElem?
    constructor ()
      ensures prev == null && next == null
    {
      prev, next := null, null;
    }
  }

  /** Every element occurs once: `Distinct`, said by counting. */
  ghost predicate Once<T>(s: seq<T>) {
    forall x {:trigger multiset(s)[x]} :: x in s ==> multiset(s)[x] == 1
  }

  lemma OnceAt<T>(s: seq<T>, i: int, j: int)
    requires Once(s) && 0 <= i < |s| && 0 <= j < |s|
    ensures s[i] == s[j] <==> i == j
    decreases i > j
  {
    if i < j {
      assert s == s[..i] + [s[i]] + s[i + 1..];
      assert s[j] == s[i + 1..][j - i - 1];
      assert s[j] in s && multiset(s)[s[j]] == 1;
    } else if j < i {
      OnceAt(s, j, i);
    }
  }

  lemma OnceIsDistinct<T>(s: seq<T>)
    ensures Once(s) <==> Basics.Distinct(s)
  {
    if Once(s) {
      forall i, j | 0 <= i < j < |s|
        ensures s[i] != s[j]
      {
        OnceAt(s, i, j);
      }
    }
    if Basics.Distinct(s) {
      forall x {:trigger multiset(s)[x]} | x in s
        ensures multiset(s)[x] == 1
      {
        var i :| 0 <= i < |s| && s[i] == x;
        assert s == s[..i] + [s[i]] + s[i + 1..];
        assert x !in s[..i] && x !in s[i + 1..];
      }
    }
  }

  /** s is a well-formed list: a chain without repetition. */
  ghost predicate Linked(s: seq<ListElem>)
    reads s
  {
    Once(s) && Chain(s)
  }

  /** The links of s are null-terminated, and next and prev are mirror images. */
  ghost predicate Chain(s: seq<ListElem>)
    reads s
  {
    && |s| >= 2
    && s[0].prev == null
    && s[|s| - 1].next == null
    && (forall i {:trigger s[i].next} :: 0 <= i < |s| - 1 ==> s[i].next == s[i + 1])
    && (forall i {:trigger s[i].prev} :: 0 < i < |s| ==> s[i].prev == s[i - 1])
  }

  /** Where the element at index k came from when blocks x..y and y..z are exchanged. */
  ghost function RotatedIndex(x: int, y: int, z: int, k: int): int {
    if k < x || k >= z then k
    else if k < x + (z - y) then k + (y - x)
    else k - (z - y)
  }

  /** The adjacent blocks x..y and y..z of s exchanged. */
  ghost function Rotated<T>(s: seq<T>, x: int, y: int, z: int): (r: seq<T>)
    requires 0 <= x <= y <= z <= |s|
  {
    seq(|s|, k requires 0 <= k < |s| => s[RotatedIndex(x, y, z, k)])
  }

  lemma RotatedBlocks<T>(s: seq<T>, x: int, y: int, z: int)
    requires 0 <= x <= y <= z <= |s|
    ensures Rotated(s, x, y, z) == s[..x] + s[y..z] + s[x..y] + s[z..]
    ensures multiset(Rotated(s, x, y, z)) == multiset(s)
  {
    assert s == s[..x] + s[x..y] + s[y..z] + s[z..];
  }

  /** The successor of index i once the three boundary links are redirected. */
  ghost function NextIndex(x: int, y: int, z: int, i: int): int {
    if y == z then i + 1 else if i == x - 1 then y else if i == z - 1 then x else if i == y - 1 then z else i + 1
  }

  ghost function PrevIndex(x: int, y: int, z: int, i: int): int {
    if y == z then i - 1 else if i == y then x - 1 else if i == x then z - 1 else if i == z then y - 1 else i - 1
  }

  /** Redirecting the three links at the block boundaries turns a chain into the rotated chain. */
  lemma RelinkRotated(s: seq<ListElem>, x: int, y: int, z: int)
    requires 0 < x < y <= z < |s| && Once(s)
    requires s[0].prev == null && s[|s| - 1].next == null
    requires forall i {:trigger s[i].next} :: 0 <= i < |s| - 1 ==> s[i].next == s[NextIndex(x, y, z, i)]
    requires forall i {:trigger s[i].prev} :: 0 < i < |s| ==> s[i].prev == s[PrevIndex(x, y, z, i)]
    ensures Linked(Rotated(s, x, y, z))
  {
    assert Once(Rotated(s, x, y, z)) by { RotatedBlocks(s, x, y, z); }
    forall i | 0 <= i < |s| - 1
      ensures var r := Rotated(s, x, y, z); r[i].next == r[i + 1] && r[i + 1].prev == r[i]
    {
      RelinkedAt(s, x, y, z, i);
    }
  }

  lemma RelinkedAt(s: seq<ListElem>, x: int, y: int, z: int, i: int)
    requires 0 < x < y <= z < |s| && 0 <= i < |s| - 1
    requires forall i {:trigger s[i].next} :: 0 <= i < |s| - 1 ==> s[i].next == s[NextIndex(x, y, z, i)]
    requires forall i {:trigger s[i].prev} :: 0 < i < |s| ==> s[i].prev == s[PrevIndex(x, y, z, i)]
    ensures var r := Rotated(s, x, y, z); r[i].next == r[i + 1] && r[i + 1].prev == r[i]
  {
    NextOfRotated(x, y, z, i);
    var j, k := RotatedIndex(x, y, z, i), RotatedIndex(x, y, z, i + 1);
    assert s[j].next == s[k];
    assert s[k].prev == s[j];
  }

  lemma NextOfRotated(x: int, y: int, z: int, i: int)
    requires 0 < x < y <= z && 0 <= i
    ensures NextIndex(x, y, z, RotatedIndex(x, y, z, i)) == RotatedIndex(x, y, z, i + 1)
    ensures PrevIndex(x, y, z, RotatedIndex(x, y, z, i + 1)) == RotatedIndex(x, y, z, i)
  {
  }

  /** The elements at indices f..l moved in front of the one at index b. */
  ghost function Moved<T>(s: seq<T>, b: int, f: int, l: int): (r: seq<T>)
    requires 0 <= b <= f <= l <= |s| || 0 <= f <= l <= b <= |s|
  {
    if b <= f then Rotated(s, b, f, l) else Rotated(s, f, l, b)
  }

  ghost predicate SameNodes<T>(s: seq<T>, t: seq<T>) {
    |s| == |t| && multiset(s) == multiset(t) && Elements(s) == Elements(t)
  }

  lemma SameElements<T>(s: seq<T>, t: seq<T>)
    requires multiset(s) == multiset(t)
    ensures SameNodes(s, t)
  {
    assert |multiset(s)| == |s| && |multiset(t)| == |t|;
    forall x
      ensures x in Elements(s) <==> x in Elements(t)
    {
      assert x in s <==> x in multiset(s);
      assert x in t <==> x in multiset(t);
    }
  }

  lemma MovedNothing<T>(s: seq<T>, b: nat, f: nat)
    requires b <= |s| && f <= |s|
    ensures Moved(s, b, f, f) == s
  {
  }

  lemma MovedLinked(s: seq<ListElem>, b: nat, f: nat, l: nat)
    requires 0 < f < l < |s| && (0 < b < f || l <= b < |s|)
    requires RedirectedChain(s, b, f, l)
    ensures var r := Moved(s, b, f, l);
            Linked(r) && r[0] == s[0] && r[|r| - 1] == s[|s| - 1] && SameNodes(r, s)
  {
    var r := Moved(s, b, f, l);
    assert Linked(r) by {
      if b < f {
        RelinkRotated(s, b, f, l);
      } else {
        RelinkRotated(s, f, l, b);
      }
    }
    assert multiset(r) == multiset(s) by {
      if b < f {
        RotatedBlocks(s, b, f, l);
      } else {
        RotatedBlocks(s, f, l, b);
      }
    }
    SameElements(r, s);
  }

  /** A chain whose boundary links have been redirected so that f..l comes before b. */
  ghost predicate RedirectedChain(s: seq<ListElem>, b: nat, f: nat, l: nat)
    requires 0 < f < l < |s| && (0 < b < f || l <= b < |s|)
    reads s
  {
    && Once(s) && s[0].prev == null && s[|s| - 1].next == null
    && (forall i {:trigger s[i].next} :: 0 <= i < |s| - 1 ==>
          s[i].next == s[if b < f then NextIndex(b, f, l, i) else NextIndex(f, l, b, i)])
    && (forall i {:trigger s[i].prev} :: 0 < i < |s| ==>
          s[i].prev == s[if b < f then PrevIndex(b, f, l, i) else PrevIndex(f, l, b, i)])
  }

  class List {
    const head: ListElem
    const tail: ListElem
    ghost var nodes: seq<ListElem>

    ghost predicate Valid()
      reads this, nodes
    {
      Linked(nodes) && nodes[0] == head && nodes[|nodes| - 1] == tail
    }

    ghost function Elems(): seq<ListElem>
      requires |nodes| >= 2
      reads this
    {
      nodes[1..|nodes| - 1]
    }

    /** `list_init` on a list of its own. */
    constructor ()
      ensures Valid() && Elems() == [] && fresh(nodes)
    {
      head := new ListElem();
      tail := new ListElem();
      new;
      head.next := tail;
      tail.prev := head;
      nodes := [head, tail];
    }

    /** `list_splice` within one list. */
    method Splice(before: ListElem, first: ListElem, last0: ListElem, ghost b: nat, ghost f: nat, ghost l: nat)
      requires Valid()
      requires 0 < f <= l < |nodes| && (0 < b < f || l <= b < |nodes|)
      requires before == nodes[b] && first == nodes[f] && last0 == nodes[l]
      modifies this, Elements(nodes)
      ensures Valid() && nodes == Moved(old(nodes), b, f, l) && SameNodes(nodes, old(nodes))
    {
      if first == last0 {
        OnceAt(nodes, f, l);
        MovedNothing(nodes, b, f);
      } else {
        Redirect(nodes, before, first, last0.prev, b, f, l);
        MovedLinked(nodes, b, f, l);
        nodes := Moved(nodes, b, f, l);
      }
    }

    /** `list_insert`: puts elem, which is in no list, in front of the element at index b. */
    method Insert(before: ListElem, elem: ListElem, ghost b: nat)
      requires Valid() && 0 < b < |nodes| && before == nodes[b] && elem !in nodes
      modifies this, elem, Elements(nodes)
      ensures Valid() && nodes == old(nodes)[..b] + [elem] + old(nodes)[b..]
    {
      ghost var s := nodes;
      OnceAt(s, b, b - 1);
      assert before.prev == s[b - 1];
      assert s[b - 1] in Elements(s) && before in Elements(s);
      elem.prev := before.prev;
      elem.next := before;
      before.prev.next := elem;
      before.prev := elem;
      InsertedOnce(s, b, elem);
      nodes := s[..b] + [elem] + s[b..];
      forall i | 0 <= i < |s|
        ensures (s[i] == s[b - 1] <==> i == b - 1) && (s[i] == s[b] <==> i == b) && s[i] != elem
      {
        OnceAt(s, i, b - 1);
        OnceAt(s, i, b);
      }
      InsertedChain(s, nodes, b, elem);
    }

    /** `list_remove`: unlinks the element at index k and returns its successor. */
    method Remove(elem: ListElem, ghost k: nat) returns (r: ListElem)
      requires Valid() && 0 < k < |nodes| - 1 && elem == nodes[k]
      modifies this, Elements(nodes)
      ensures Valid() && nodes == old(nodes)[..k] + old(nodes)[k + 1..] && r == old(nodes)[k + 1]
    {
      ghost var s := nodes;
      assert elem.prev == s[k - 1] && elem.next == s[k + 1];
      assert s[k - 1] in Elements(s) && s[k + 1] in Elements(s);
      elem.prev.next := elem.next;
      elem.next.prev := elem.prev;
      r := elem.next;
      nodes := s[..k] + s[k + 1..];
      forall i | 0 <= i < |s|
        ensures (s[i] == s[k - 1] <==> i == k - 1) && (s[i] == s[k + 1] <==> i == k + 1)
      {
        OnceAt(s, i, k - 1);
        OnceAt(s, i, k + 1);
      }
      RemovedChain(s, nodes, k);
    }

    /** `list_reverse`. */
    method Reverse()
      requires Valid()
      modifies this, Elements(nodes)
      ensures Valid() && nodes == Reversal(old(nodes)) && Elements(nodes) == old(Elements(nodes))
    {
      ghost var s, m := nodes, |nodes| - 1;
      OnceAt(s, 1, m);
      if head.next != tail {
        var e := head.next;
        ghost var k := 1;
        while e != tail
          invariant 1 <= k <= m && e == s[k]
          invariant Flipped(s, k)
          decreases m - k
        {
          OnceAt(s, k, m);
          FlipStep(s, e, k);
          e, k := e.prev, k + 1;
        }
        OnceAt(s, k, m);
        FinishReverse(s, head, tail);
        nodes := Reversal(s);
      } else {
        assert nodes == Reversal(nodes);
      }
    }

    /** `list_max`: the earliest of the largest elements, or the tail of an empty list. */
    method Max(less: (ListElem, ListElem) -> bool) returns (max: ListElem, ghost k: nat)
      requires Valid() && StrictWeakOrder(less, Elements(Elems()))
      ensures 0 < k < |nodes| && max == nodes[k]
      ensures |nodes| == 2 ==> max == tail
      ensures |nodes| > 2 ==>
                && k < |nodes| - 1
                && (forall j :: 0 < j < |nodes| - 1 ==> !less(max, nodes[j]))
                && (forall j :: 0 < j < k ==> less(nodes[j], max))
    {
      max, k := head.next, 1;
      ghost var m := |nodes| - 1;
      OnceAt(nodes, 1, m);
      if max != tail {
        assert forall j :: 0 < j < m ==> nodes[j] == Elems()[j - 1];
        var e := max.next;
        ghost var i := 2;
        while e != tail
          invariant 0 < k < i <= m && max == nodes[k] && e == nodes[i]
          invariant forall j :: 0 < j < i ==> !less(max, nodes[j])
          invariant forall j :: 0 < j < k ==> less(nodes[j], max)
          decreases m - i
        {
          OnceAt(nodes, i, m);
          assert e in Elements(Elems()) && max in Elements(Elems());
          if less(max, e) {
            forall j | 0 < j < i
              ensures less(nodes[j], e)
            {
              assert nodes[j] in Elements(Elems());
            }
            max, k := e, i;
          }
          e, i := e.next, i + 1;
        }
        OnceAt(nodes, i, m);
      }
    }

    /** `find_end_of_run`: the end of the run at index i, searching no further than the tail. */
    method FindEndOfRun(a0: ListElem, less: (ListElem, ListElem) -> bool, ghost i: nat)
      returns (a: ListElem, ghost k: nat)
      requires Valid() && 0 < i < |nodes| - 1 && a0 == nodes[i]
      ensures k == i + RunLength(nodes[i..|nodes| - 1], less)
      ensures i < k < |nodes| && a == nodes[i + RunLength(nodes[i..|nodes| - 1], less)]
    {
      ghost var e := |nodes| - 1;
      a, k := a0.next, i + 1;
      RunStep(nodes, less, i, e);
      while a != tail && !less(a, a.prev)
        invariant i < k <= e && a == nodes[k]
        invariant a != tail ==> k < e
        invariant RunLength(nodes[i..e], less) == k - 1 - i + RunLength(nodes[k - 1..e], less)
        decreases e - k
      {
        RunStep(nodes, less, k - 1, e);
        OnceAt(nodes, k, e);
        OnceAt(nodes, k + 1, e);
        a, k := a.next, k + 1;
      }
      OnceAt(nodes, k, e);
      RunStep(nodes, less, k - 1, e);
    }

    /** The else-branch of `inplace_merge`: moves the element at k in front of the one at i. */
    method MoveBefore(a0: ListElem, b0: ListElem, less: (ListElem, ListElem) -> bool, ghost i: nat, ghost k: nat,
                      ghost e: nat)
      returns (a1b0: ListElem)
      requires Valid() && 0 < i < k < e < |nodes| && a0 == nodes[i] && b0 == nodes[k] && less(b0, a0)
      modifies this, Elements(nodes)
      ensures Valid() && SameNodes(nodes, old(nodes))
      ensures nodes[i + 1] == a0 && nodes[k + 1] == a1b0 && nodes[e] == old(nodes)[e]
      ensures MergeRest(nodes, less, i + 1, k + 1, e) == MergeRest(old(nodes), less, i, k, e)
    {
      MergeTakesSecond(nodes, less, i, k, e);
      a1b0 := b0.next;
      Splice(a0, a1b0.prev, a1b0, i, k, k + 1);
    }

    /** `inplace_merge`: replaces two adjacent sorted ranges by their stable merge. */
    method InplaceMerge(a: ListElem, m: ListElem, b1: ListElem, less: (ListElem, ListElem) -> bool,
                        ghost i0: nat, ghost m0: nat, ghost e: nat)
      requires Valid() && 0 < i0 <= m0 <= e < |nodes|
      requires a == nodes[i0] && m == nodes[m0] && b1 == nodes[e]
      modifies this, Elements(nodes)
      ensures Valid() && SameNodes(nodes, old(nodes))
      ensures nodes == MergeRest(old(nodes), less, i0, m0, e)
    {
      var a0, a1b0 := a, m;
      ghost var i, k := i0, m0;
      ghost var target := MergeRest(nodes, less, i0, m0, e);
      while a0 != a1b0 && a1b0 != b1
        invariant Valid() && SameNodes(nodes, old(nodes))
        invariant 0 < i <= k <= e < |nodes|
        invariant a0 == nodes[i] && a1b0 == nodes[k] && b1 == nodes[e]
        invariant MergeRest(nodes, less, i, k, e) == target
        decreases e - k, k - i
      {
        if !less(a1b0, a0) {
          MergeTakesFirst(nodes, less, i, k, e);
          a0, i := a0.next, i + 1;
        } else {
          a1b0 := MoveBefore(a0, a1b0, less, i, k, e);
          i, k := i + 1, k + 1;
        }
      }
      OnceAt(nodes, i, k);
      OnceAt(nodes, k, e);
      MergeDone(nodes, less, i, k, e);
    }

    /** One iteration of a pass of `list_sort`: stops at the last run, otherwise merges the two
        runs at index i and returns the end of the merged one. */
    method MergeNextRuns(a0: ListElem, less: (ListElem, ListElem) -> bool, ghost i: nat)
      returns (last: bool, b1: ListElem, ghost b: nat)
      requires Valid() && 0 < i < |nodes| - 1 && a0 == nodes[i]
      modifies this, Elements(nodes)
      ensures Valid() && SameNodes(nodes, old(nodes))
      ensures i < b < |nodes| && b1 == nodes[b]
      ensures PassProgress(old(nodes), i, nodes, b, 1, less)
      ensures last ==> b == |nodes| - 1
    {
      ghost var e := |nodes| - 1;
      var a1b0, m := FindEndOfRun(a0, less, i);
      OnceAt(nodes, m, e);
      if a1b0 == tail {
        PassLast(nodes, less, i);
        return true, a1b0, m;
      }
      last := false;
      b1, b := MergeTwoRuns(a0, a1b0, less, i, m);
    }

    method MergeTwoRuns(a0: ListElem, a1b0: ListElem, less: (ListElem, ListElem) -> bool, ghost i: nat, ghost m: nat)
      returns (b1: ListElem, ghost b: nat)
      requires Valid() && 0 < i < m < |nodes| - 1 && a0 == nodes[i] && a1b0 == nodes[m]
      requires m - i == RunLength(nodes[i..|nodes| - 1], less)
      modifies this, Elements(nodes)
      ensures Valid() && SameNodes(nodes, old(nodes))
      ensures i < b < |nodes| && b1 == nodes[b]
      ensures PassProgress(old(nodes), i, nodes, b, 1, less)
    {
      b1, b := FindEndOfRun(a1b0, less, m);
      InplaceMerge(a0, a1b0, b1, less, i, m, b);
      PassStep(old(nodes), nodes, less, i, m, b);
    }

    /** The inner loop of `list_sort`. */
    method PassLoop(less: (ListElem, ListElem) -> bool) returns (cnt: nat)
      requires Valid()
      modifies this, Elements(nodes)
      ensures Valid() && SameNodes(nodes, old(nodes))
      ensures PassProgress(old(nodes), 1, nodes, |nodes| - 1, cnt, less)
    {
      cnt := 0;
      var a0 := head.next;
      ghost var i, e := 1, |nodes| - 1;
      while a0 != tail
        invariant Valid() && |nodes| == e + 1 && SameNodes(nodes, old(nodes))
        invariant 0 < i <= e && a0 == nodes[i]
        invariant PassProgress(old(nodes), 1, nodes, i, cnt, less)
        decreases e - i
      {
        OnceAt(nodes, i, e);
        ghost var i0, s := i, nodes;
        var last;
        cnt := cnt + 1;
        last, a0, i := MergeNextRuns(a0, less, i);
        PassProgressTransitive(old(nodes), 1, s, i0, nodes, i, cnt - 1, 1, less);
        if last {
          break;
        }
      }
      OnceAt(nodes, i, e);
    }

    /** One pass of `list_sort` over the list; cnt is its output_run_cnt. */
    method SortPass(less: (ListElem, ListElem) -> bool) returns (cnt: nat)
      requires Valid()
      modifies this, Elements(nodes)
      ensures Valid() && SameNodes(nodes, old(nodes))
      ensures Elems() == Pass(old(Elems()), less) && cnt == PassCount(old(Elems()), less)
    {
      cnt := PassLoop(less);
      PassFinished(old(nodes), nodes, cnt, less);
    }

    /** `list_sort`: terminates because the number of runs halves, and leaves a sorted stable
        permutation of the same elements in a well-formed list. */
    method Sort(less: (ListElem, ListElem) -> bool)
      requires Valid() && StrictWeakOrder(less, Elements(Elems()))
      modifies this, Elements(nodes)
      ensures Valid() && SameNodes(nodes, old(nodes))
      ensures Sorted(Elems(), less) && StablePermutation(old(Elems()), Elems(), less)
    {
      ghost var S := Elements(Elems());
      var more := true;
      while more
        invariant Valid() && SameNodes(nodes, old(nodes))
        invariant Elements(Elems()) == S && StablePermutation(old(Elems()), Elems(), less)
        invariant !more ==> Runs(Elems(), less) <= 1
        decreases more, Runs(Elems(), less)
      {
        ghost var before := Elems();
        var cnt := SortPass(less);
        PassRuns(before, less, S);
        PassCountHalves(before, less);
        PassIsStablePermutation(before, less, S);
        StableTransitive(old(Elems()), before, Elems(), less);
        SameElements(before, Elems());
        more := cnt > 1;
      }
      OneRunIsSorted(Elems(), less, S);
    }
  }

  /** The interior of s in reverse order between the same headers. */
  ghost function Reversal<T>(s: seq<T>): seq<T> {
    seq(|s|, j requires 0 <= j < |s| => s[if 0 < j < |s| - 1 then |s| - 1 - j else j])
  }

  /** The state of `list_reverse` with the links of the elements 1..k swapped. */
  ghost predicate Flipped(s: seq<ListElem>, k: int)
    requires |s| >= 2
    reads s
  {
    && s[0].prev == null && s[0].next == s[1] && s[|s| - 1].next == null && s[|s| - 1].prev == s[|s| - 2]
    && (forall i {:trigger s[i].next} :: 0 < i < |s| - 1 ==> s[i].next == s[if i < k then i - 1 else i + 1])
    && (forall i {:trigger s[i].prev} :: 0 < i < |s| - 1 ==> s[i].prev == s[if i < k then i + 1 else i - 1])
  }

  method FlipStep(ghost s: seq<ListElem>, e: ListElem, ghost k: int)
    requires |s| >= 2 && Once(s) && 0 < k < |s| - 1 && Flipped(s, k) && e == s[k]
    modifies e
    ensures Flipped(s, k + 1)
  {
    e.prev, e.next := e.next, e.prev;
    forall i | 0 <= i < |s|
      ensures s[i] == e <==> i == k
    {
      OnceAt(s, i, k);
    }
  }

  /** The two header swaps that end `list_reverse`. */
  method FinishReverse(ghost s: seq<ListElem>, head: ListElem, tail: ListElem)
    requires |s| > 2 && Once(s) && Flipped(s, |s| - 1) && head == s[0] && tail == s[|s| - 1]
    modifies Elements(s)
    ensures Linked(Reversal(s)) && Elements(Reversal(s)) == Elements(s)
  {
    ghost var m := |s| - 1;
    forall i | 0 <= i < |s|
      ensures (s[i] == s[0] <==> i == 0) && (s[i] == s[1] <==> i == 1)
           && (s[i] == s[m - 1] <==> i == m - 1) && (s[i] == s[m] <==> i == m)
    {
      OnceAt(s, i, 0);
      OnceAt(s, i, 1);
      OnceAt(s, i, m - 1);
      OnceAt(s, i, m);
    }
    assert s[0] in Elements(s) && s[m] in Elements(s) && s[1] in Elements(s) && s[m - 1] in Elements(s);
    head.next, tail.prev := tail.prev, head.next;
    var h, t := head.next, tail.prev;
    assert h == s[m - 1] && t == s[1];
    h.prev, t.next := t.next, h.prev;
    ReversalChain(s);
  }

  lemma ReversalChain(s: seq<ListElem>)
    requires |s| > 2 && Once(s)
    requires s[0].prev == null && s[0].next == s[|s| - 2] && s[|s| - 1].next == null && s[|s| - 1].prev == s[1]
    requires forall i {:trigger s[i].next} :: 0 < i < |s| - 1 ==> s[i].next == s[if i == 1 then |s| - 1 else i - 1]
    requires forall i {:trigger s[i].prev} :: 0 < i < |s| - 1 ==> s[i].prev == s[if i == |s| - 2 then 0 else i + 1]
    ensures Linked(Reversal(s)) && Elements(Reversal(s)) == Elements(s)
  {
    ReversalMultiset(s);
    SameElements(Reversal(s), s);
    var r, m := Reversal(s), |s| - 1;
    forall i | 0 <= i < m
      ensures r[i].next == r[i + 1] && r[i + 1].prev == r[i]
    {
      assert r[i] == s[if i == 0 then 0 else m - i];
      assert r[i + 1] == s[if i + 1 == m then m else m - i - 1];
    }
  }

  /** Reversing twice restores the list. */
  lemma ReversalTwice<T>(s: seq<T>)
    ensures Reversal(Reversal(s)) == s
  {
    var r := Reversal(s);
    forall j | 0 <= j < |s|
      ensures Reversal(r)[j] == s[j]
    {
      assert Reversal(r)[j] == r[if 0 < j < |s| - 1 then |s| - 1 - j else j];
    }
  }

  lemma ReversalMultiset<T>(s: seq<T>)
    requires |s| > 2
    ensures multiset(Reversal(s)) == multiset(s)
  {
    var t := s[1..|s| - 1];
    ReverseMultiset(t);
    assert s == [s[0]] + t + [s[|s| - 1]];
    assert Reversal(s) == [s[0]] + seq(|t|, j requires 0 <= j < |t| => t[|t| - 1 - j]) + [s[|s| - 1]];
  }

  lemma {:induction false} ReverseMultiset<T>(t: seq<T>)
    ensures multiset(seq(|t|, j requires 0 <= j < |t| => t[|t| - 1 - j])) == multiset(t)
  {
    if t != [] {
      var u := t[1..];
      ReverseMultiset(u);
      assert t == [t[0]] + u;
      assert seq(|t|, j requires 0 <= j < |t| => t[|t| - 1 - j])
          == seq(|u|, j requires 0 <= j < |u| => u[|u| - 1 - j]) + [t[0]];
    }
  }

  lemma InsertedOnce<T>(s: seq<T>, b: nat, x: T)
    requires Once(s) && b <= |s| && x !in s
    ensures Once(s[..b] + [x] + s[b..])
  {
    var r := s[..b] + [x] + s[b..];
    assert s == s[..b] + s[b..];
    assert multiset(r) == multiset(s) + multiset{x};
    forall y | y in r
      ensures multiset(r)[y] == 1
    {
      if y != x {
        assert y in multiset(s);
        assert multiset(s)[y] == 1;
      } else {
        assert multiset(s)[x] == 0;
      }
    }
  }

  /** Linking x between the elements at b - 1 and b. */
  lemma InsertedChain(s: seq<ListElem>, r: seq<ListElem>, b: nat, x: ListElem)
    requires 0 < b < |s| && r == s[..b] + [x] + s[b..]
    requires s[0].prev == null && s[|s| - 1].next == null && x.prev == s[b - 1] && x.next == s[b]
    requires forall i {:trigger s[i].next} :: 0 <= i < |s| - 1 ==> s[i].next == if i == b - 1 then x else s[i + 1]
    requires forall i {:trigger s[i].prev} :: 0 < i < |s| ==> s[i].prev == if i == b then x else s[i - 1]
    ensures Chain(r)
  {
    forall i | 0 <= i < |r| - 1
      ensures r[i].next == r[i + 1] && r[i + 1].prev == r[i]
    {
      if i < b - 1 {
        assert r[i] == s[i] && r[i + 1] == s[i + 1];
      } else if i == b - 1 {
        assert r[i] == s[i] && r[i + 1] == x;
      } else if i == b {
        assert r[i] == x && r[i + 1] == s[b];
      } else {
        assert r[i] == s[i - 1] && r[i + 1] == s[i];
      }
    }
  }

  lemma RemovedOnce<T>(s: seq<T>, r: seq<T>, k: nat)
    requires Once(s) && k < |s| && r == s[..k] + s[k + 1..]
    ensures Once(r)
  {
    assert s == s[..k] + [s[k]] + s[k + 1..];
    assert multiset(s) == multiset(r) + multiset{s[k]};
    forall y | y in r
      ensures multiset(r)[y] == 1
    {
      assert y in multiset(r) && y in s;
      assert multiset(s)[y] == 1;
    }
  }

  lemma RemovedChain(s: seq<ListElem>, r: seq<ListElem>, k: nat)
    requires Once(s) && 0 < k < |s| - 1 && r == s[..k] + s[k + 1..]
    requires s[0].prev == null && s[|s| - 1].next == null
    requires forall i {:trigger s[i].next} :: 0 <= i < |s| - 1 && i != k ==>
               s[i].next == s[if i == k - 1 then k + 1 else i + 1]
    requires forall i {:trigger s[i].prev} :: 0 < i < |s| && i != k ==>
               s[i].prev == s[if i == k + 1 then k - 1 else i - 1]
    ensures Linked(r)
  {
    RemovedOnce(s, r, k);
    forall i | 0 <= i < |r| - 1
      ensures r[i].next == r[i + 1] && r[i + 1].prev == r[i]
    {
      if i < k - 1 {
        assert r[i] == s[i] && r[i + 1] == s[i + 1];
      } else if i == k - 1 {
        assert r[i] == s[i] && r[i + 1] == s[k + 1];
      } else {
        assert r[i] == s[i + 1] && r[i + 1] == s[i + 2];
      }
    }
  }

  /** Between cursor i of nodes s and cursor b of nodes r, a pass has output c runs and keeps its
      final result. */
  ghost predicate PassProgress(s: seq<ListElem>, i: int, r: seq<ListElem>, b: int, c: nat,
                               less: (ListElem, ListElem) -> bool)
  {
    && 0 < i < |s| && 0 < b < |r|
    && s[1..i] + Pass(s[i..|s| - 1], less) == r[1..b] + Pass(r[b..|r| - 1], less)
    && PassCount(s[i..|s| - 1], less) == c + PassCount(r[b..|r| - 1], less)
  }

  lemma PassProgressTransitive(s: seq<ListElem>, i: int, r: seq<ListElem>, b: int, t: seq<ListElem>, d: int,
                               c1: nat, c2: nat, less: (ListElem, ListElem) -> bool)
    requires PassProgress(s, i, r, b, c1, less) && PassProgress(r, b, t, d, c2, less)
    ensures PassProgress(s, i, t, d, c1 + c2, less)
  {
  }

  lemma PassFinished(s: seq<ListElem>, r: seq<ListElem>, c: nat, less: (ListElem, ListElem) -> bool)
    requires |s| >= 2 && |r| >= 2 && PassProgress(s, 1, r, |r| - 1, c, less)
    ensures r[1..|r| - 1] == Pass(s[1..|s| - 1], less) && c == PassCount(s[1..|s| - 1], less)
  {
    assert s[1..1] == [] && r[|r| - 1..|r| - 1] == [];
    assert r[1..|r| - 1] + [] == r[1..|r| - 1];
    assert [] + Pass(s[1..|s| - 1], less) == Pass(s[1..|s| - 1], less);
  }

  lemma PassLast(s: seq<ListElem>, less: (ListElem, ListElem) -> bool, i: int)
    requires 0 < i < |s| - 1 && RunLength(s[i..|s| - 1], less) == |s| - 1 - i
    ensures PassProgress(s, i, s, |s| - 1, 1, less)
  {
    var e := |s| - 1;
    PassOfOneRun(s[i..e], less);
    assert s[1..e] == s[1..i] + s[i..e];
    assert s[e..e] == [];
    assert s[1..e] + [] == s[1..e];
  }

  lemma PassStep(s: seq<ListElem>, r: seq<ListElem>, less: (ListElem, ListElem) -> bool, i: int, m: int, b: int)
    requires 0 < i < m < b < |s| && r == MergeRest(s, less, i, m, b)
    requires m - i == RunLength(s[i..|s| - 1], less) && b - m == RunLength(s[m..|s| - 1], less)
    ensures PassProgress(s, i, r, b, 1, less)
  {
    var e, mid := |s| - 1, Merge(s[i..m], s[m..b], less);
    assert s[m..e] == s[m..b] + s[b..e];
    assert s[i..e] == s[i..m] + s[m..b] + s[b..e];
    PassFirstMerge(s[i..e], s[i..m], s[m..b], s[b..e], less);
    MergeLength(s[i..m], s[m..b], less);
    RestKept(s, r, mid, i, b);
    ConcatAssoc(s[1..i], mid, Pass(s[b..e], less));
  }

  lemma RestKept<T>(s: seq<T>, r: seq<T>, mid: seq<T>, i: int, b: int)
    requires 0 < i <= b < |s| && |mid| == b - i && r == s[..i] + mid + s[b..]
    ensures |r| == |s| && r[b..|r| - 1] == s[b..|s| - 1] && r[1..b] == s[1..i] + mid
  {
  }

  /** What is left to merge, put back between the finished prefix and the rest. */
  ghost function MergeRest(s: seq<ListElem>, less: (ListElem, ListElem) -> bool, i: int, k: int, e: int): seq<ListElem>
    requires 0 <= i <= k <= e <= |s|
  {
    s[..i] + Merge(s[i..k], s[k..e], less) + s[e..]
  }

  lemma MergeTakesFirst(s: seq<ListElem>, less: (ListElem, ListElem) -> bool, i: int, k: int, e: int)
    requires 0 <= i < k < e <= |s| && !less(s[k], s[i])
    ensures MergeRest(s, less, i, k, e) == MergeRest(s, less, i + 1, k, e)
  {
    assert s[i..k][1..] == s[i + 1..k];
    assert s[..i + 1] == s[..i] + [s[i]];
  }

  lemma MergeTakesSecond(s: seq<ListElem>, less: (ListElem, ListElem) -> bool, i: int, k: int, e: int)
    requires 0 <= i < k < e <= |s| && less(s[k], s[i])
    ensures MergeRest(s, less, i, k, e) == MergeRest(Moved(s, i, k, k + 1), less, i + 1, k + 1, e)
  {
    var r := Moved(s, i, k, k + 1);
    RotatedBlocks(s, i, k, k + 1);
    assert s[k..e][1..] == s[k + 1..e];
    assert r[..i + 1] == s[..i] + [s[k]];
    assert r[i + 1..k + 1] == s[i..k];
    assert r[k + 1..e] == s[k + 1..e];
    assert r[e..] == s[e..];
  }

  lemma MergeDone(s: seq<ListElem>, less: (ListElem, ListElem) -> bool, i: int, k: int, e: int)
    requires 0 <= i <= k <= e <= |s| && (i == k || k == e)
    ensures MergeRest(s, less, i, k, e) == s
  {
    assert s == s[..i] + s[i..k] + s[k..e] + s[e..];
  }

  lemma RunStep(s: seq<ListElem>, less: (ListElem, ListElem) -> bool, i: nat, e: nat)
    requires i < e <= |s|
    ensures RunLength(s[i..e], less) ==
            if i + 1 < e && !less(s[i + 1], s[i]) then 1 + RunLength(s[i + 1..e], less) else 1
  {
    assert s[i..e][1..] == s[i + 1..e];
  }

  /** The six link assignments of `list_splice` for a nonempty block. */
  method Redirect(ghost s: seq<ListElem>, before: ListElem, first: ListElem, last: ListElem,
                  ghost b: nat, ghost f: nat, ghost l: nat)
    requires Linked(s)
    requires 0 < f < l < |s| && (0 < b < f || l <= b < |s|)
    requires before == s[b] && first == s[f] && last == s[l - 1]
    modifies Elements(s)
    ensures RedirectedChain(s, b, f, l)
  {
    OnceAt(s, b, f);
    OnceAt(s, b, l);
    OnceAt(s, l - 1, f - 1);
    OnceAt(s, f, l);
    AssignLinks(s, before, first, last, b, f, l);
    RedirectedNext(s, b, f, l);
    RedirectedPrev(s, b, f, l);
  }

  /** What the six assignments do to every element of a chain s: q is the element that ends up
      before the block, p and n were the neighbours of the block. */
  ghost predicate Reassigned(s: seq<ListElem>, b: nat, f: nat, l: nat)
    requires 0 < f < l < |s| && (0 < b < f || l <= b < |s|)
    reads s
  {
    var q, p, n := s[if b == l then f - 1 else b - 1], s[f - 1], s[l];
    && (forall i {:trigger s[i].next} :: 0 <= i < |s| ==>
          s[i].next == if s[i] == q then s[f] else if s[i] == s[l - 1] then s[b] else if s[i] == p then n
                       else if i < |s| - 1 then s[i + 1] else null)
    && (forall i {:trigger s[i].prev} :: 0 <= i < |s| ==>
          s[i].prev == if s[i] == s[b] then s[l - 1] else if s[i] == s[f] then q else if s[i] == n then p
                       else if i > 0 then s[i - 1] else null)
  }

  method AssignLinks(ghost s: seq<ListElem>, before: ListElem, first: ListElem, last: ListElem,
                     ghost b: nat, ghost f: nat, ghost l: nat)
    requires Chain(s)
    requires 0 < f < l < |s| && (0 < b < f || l <= b < |s|)
    requires before == s[b] && first == s[f] && last == s[l - 1]
    requires before != first && (before == s[l] <==> b == l) && last != s[f - 1] && first != s[l]
    modifies Elements(s)
    ensures Reassigned(s, b, f, l)
  {
    var p, n := first.prev, last.next;
    assert p == s[f - 1] && n == s[l] && before.prev == s[b - 1];
    assert p in Elements(s) && n in Elements(s) && s[b - 1] in Elements(s);
    p.next := n;
    n.prev := p;
    var q := before.prev;
    assert q == s[if b == l then f - 1 else b - 1];
    first.prev := q;
    last.next := before;
    q.next := first;
    before.prev := last;
  }

  lemma RedirectedNext(s: seq<ListElem>, b: nat, f: nat, l: nat)
    requires 0 < f < l < |s| && (0 < b < f || l <= b < |s|)
    requires Once(s) && Reassigned(s, b, f, l)
    ensures s[|s| - 1].next == null
    ensures forall i {:trigger s[i].next} :: 0 <= i < |s| - 1 ==>
              s[i].next == s[if b < f then NextIndex(b, f, l, i) else NextIndex(f, l, b, i)]
  {
    var q, m := if b == l then f - 1 else b - 1, |s| - 1;
    OnceAt(s, m, q);
    OnceAt(s, m, l - 1);
    OnceAt(s, m, f - 1);
    assert s[m].next == null;
    forall i | 0 <= i < |s| - 1
      ensures s[i].next == s[if b < f then NextIndex(b, f, l, i) else NextIndex(f, l, b, i)]
    {
      OnceAt(s, i, q);
      OnceAt(s, i, l - 1);
      OnceAt(s, i, f - 1);
    }
  }

  lemma RedirectedPrev(s: seq<ListElem>, b: nat, f: nat, l: nat)
    requires 0 < f < l < |s| && (0 < b < f || l <= b < |s|)
    requires Once(s) && Reassigned(s, b, f, l)
    ensures s[0].prev == null
    ensures forall i {:trigger s[i].prev} :: 0 < i < |s| ==>
              s[i].prev == s[if b < f then PrevIndex(b, f, l, i) else PrevIndex(f, l, b, i)]
  {
    OnceAt(s, 0, b);
    OnceAt(s, 0, f);
    OnceAt(s, 0, l);
    forall i | 0 < i < |s|
      ensures s[i].prev == s[if b < f then PrevIndex(b, f, l, i) else PrevIndex(f, l, b, i)]
    {
      OnceAt(s, i, b);
      OnceAt(s, i, f);
      OnceAt(s, i, l);
    }
  }
}
