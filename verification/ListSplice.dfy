/** `list_splice` (pintos/src/lib/kernel/list.c) between two lists. */
module ListSplice {
  import opened ListOrder
  import opened KernelList

  /** s with the elements f..l of t in front of its element b. */
  ghost function Took<T>(s: seq<T>, t: seq<T>, b: nat, f: nat, l: nat): seq<T>
    requires b <= |s| && f <= l <= |t|
  {
    s[..b] + t[f..l] + s[b..]
  }

  /** t without its elements f..l. */
  ghost function Gave<T>(t: seq<T>, f: nat, l: nat): seq<T>
    requires f <= l <= |t|
  {
    t[..f] + t[l..]
  }

  lemma TransferCount<T>(s: seq<T>, t: seq<T>, b: nat, f: nat, l: nat, x: T)
    requires b <= |s| && f <= l <= |t| && multiset(s)[x] + multiset(t)[x] <= 1
    ensures multiset(Took(s, t, b, f, l))[x] + multiset(Gave(t, f, l))[x] <= 1
  {
    assert s == s[..b] + s[b..] && t == t[..f] + t[f..l] + t[l..];
  }

  lemma CountOnce<T>(s: seq<T>, t: seq<T>, x: T)
    requires Once(s) && Once(t) && Elements(s) !! Elements(t)
    ensures multiset(s)[x] + multiset(t)[x] <= 1
  {
    assert x in Elements(s) <==> x in s;
    assert x in Elements(t) <==> x in t;
    assert multiset(s)[x] > 0 <==> x in s;
    assert multiset(t)[x] > 0 <==> x in t;
  }

  lemma OnceApart<T>(r: seq<T>, u: seq<T>)
    requires forall x :: multiset(r)[x] + multiset(u)[x] <= 1
    ensures Once(r) && Once(u) && Elements(r) !! Elements(u)
  {
    forall x | x in Elements(r)
      ensures x !in Elements(u)
    {
      assert multiset(r)[x] > 0 && (x in u <==> multiset(u)[x] > 0);
    }
  }

  lemma TransferOnce<T>(s: seq<T>, t: seq<T>, b: nat, f: nat, l: nat)
    requires Once(s) && Once(t) && Elements(s) !! Elements(t) && b <= |s| && f <= l <= |t|
    ensures Once(Took(s, t, b, f, l)) && Once(Gave(t, f, l))
    ensures Elements(Took(s, t, b, f, l)) !! Elements(Gave(t, f, l))
  {
    forall x
      ensures multiset(Took(s, t, b, f, l))[x] + multiset(Gave(t, f, l))[x] <= 1
    {
      CountOnce(s, t, x);
      TransferCount(s, t, b, f, l, x);
    }
    OnceApart(Took(s, t, b, f, l), Gave(t, f, l));
  }

  /** What the six assignments of `list_splice` do to the lists s and t when the block is t's. */
  ghost predicate Transferred(s: seq<ListElem>, t: seq<ListElem>, b: nat, f: nat, l: nat)
    requires 0 < b < |s| && 0 < f < l < |t|
    reads s, t
  {
    && (forall i {:trigger s[i].next} :: 0 <= i < |s| ==>
          s[i].next == if s[i] == s[b - 1] then t[f] else if i < |s| - 1 then s[i + 1] else null)
    && (forall i {:trigger s[i].prev} :: 0 <= i < |s| ==>
          s[i].prev == if s[i] == s[b] then t[l - 1] else if i > 0 then s[i - 1] else null)
    && (forall i {:trigger t[i].next} :: 0 <= i < |t| ==>
          t[i].next == if t[i] == t[l - 1] then s[b] else if t[i] == t[f - 1] then t[l]
                       else if i < |t| - 1 then t[i + 1] else null)
    && (forall i {:trigger t[i].prev} :: 0 <= i < |t| ==>
          t[i].prev == if t[i] == t[f] then s[b - 1] else if t[i] == t[l] then t[f - 1]
                       else if i > 0 then t[i - 1] else null)
  }

  /** The six link assignments of `list_splice` for a nonempty block. */
  method TransferLinks(ghost s: seq<ListElem>, ghost t: seq<ListElem>,
                       before: ListElem, first: ListElem, last: ListElem, ghost b: nat, ghost f: nat, ghost l: nat)
    requires Chain(s) && Chain(t) && Apart(s, t) && 0 < b < |s| && 0 < f < l < |t|
    requires before == s[b] && first == t[f] && last == t[l - 1] && first != t[l] && last != t[f - 1]
    modifies Elements(s), Elements(t)
    ensures Transferred(s, t, b, f, l)
  {
    var p, n, q := first.prev, last.next, before.prev;
    assert p == t[f - 1] && n == t[l] && q == s[b - 1];
    assert p in Elements(t) && n in Elements(t) && q in Elements(s) && before in Elements(s);
    assert first in Elements(t) && last in Elements(t);
    p.next := n;
    n.prev := p;
    first.prev := q;
    last.next := before;
    q.next := first;
    before.prev := last;
  }

  ghost predicate Apart<T>(s: seq<T>, t: seq<T>) {
    forall i, j :: 0 <= i < |s| && 0 <= j < |t| ==> s[i] != t[j]
  }

  lemma ElementsApart<T>(s: seq<T>, t: seq<T>)
    requires Elements(s) !! Elements(t)
    ensures Apart(s, t)
  {
    forall i, j | 0 <= i < |s| && 0 <= j < |t|
      ensures s[i] != t[j]
    {
      assert s[i] in Elements(s) && t[j] in Elements(t);
    }
  }

  lemma TransferredApart(s: seq<ListElem>, t: seq<ListElem>, b: nat, f: nat, l: nat)
    requires Once(s) && Once(t) && 0 < b < |s| && 0 < f < l < |t|
    ensures forall i :: 0 <= i < |s| ==> (s[i] == s[b - 1] <==> i == b - 1) && (s[i] == s[b] <==> i == b)
    ensures forall i :: 0 <= i < |t| ==> (t[i] == t[f - 1] <==> i == f - 1) && (t[i] == t[f] <==> i == f)
    ensures forall i :: 0 <= i < |t| ==> (t[i] == t[l - 1] <==> i == l - 1) && (t[i] == t[l] <==> i == l)
  {
    forall i | 0 <= i < |s|
      ensures (s[i] == s[b - 1] <==> i == b - 1) && (s[i] == s[b] <==> i == b)
    {
      OnceAt(s, i, b - 1);
      OnceAt(s, i, b);
    }
    forall i | 0 <= i < |t|
      ensures (t[i] == t[f - 1] <==> i == f - 1) && (t[i] == t[f] <==> i == f)
      ensures (t[i] == t[l - 1] <==> i == l - 1) && (t[i] == t[l] <==> i == l)
    {
      OnceAt(t, i, f - 1);
      OnceAt(t, i, f);
      OnceAt(t, i, l - 1);
      OnceAt(t, i, l);
    }
  }

  lemma GaveChain(s: seq<ListElem>, t: seq<ListElem>, b: nat, f: nat, l: nat)
    requires Once(s) && Once(t) && 0 < b < |s| && 0 < f < l < |t| && Transferred(s, t, b, f, l)
    ensures Chain(Gave(t, f, l))
  {
    TransferredApart(s, t, b, f, l);
    var r := Gave(t, f, l);
    assert r[0] == t[0] && r[|r| - 1] == t[|t| - 1];
    forall i | 0 <= i < |r| - 1
      ensures r[i].next == r[i + 1] && r[i + 1].prev == r[i]
    {
      if i < f - 1 {
        assert r[i] == t[i] && r[i + 1] == t[i + 1];
      } else if i == f - 1 {
        assert r[i] == t[i] && r[i + 1] == t[l];
      } else {
        assert r[i] == t[i + l - f] && r[i + 1] == t[i + l - f + 1];
      }
    }
  }

  lemma TookChain(s: seq<ListElem>, t: seq<ListElem>, b: nat, f: nat, l: nat)
    requires Once(s) && Once(t) && 0 < b < |s| && 0 < f < l < |t| && Transferred(s, t, b, f, l)
    ensures Chain(Took(s, t, b, f, l))
  {
    TransferredApart(s, t, b, f, l);
    var r := Took(s, t, b, f, l);
    assert r[0] == s[0] && r[|r| - 1] == s[|s| - 1];
    forall i | 0 <= i < |r| - 1
      ensures r[i].next == r[i + 1] && r[i + 1].prev == r[i]
    {
      TookAt(s, t, b, f, l, i);
      TookAt(s, t, b, f, l, i + 1);
    }
  }

  lemma TookAt<T>(s: seq<T>, t: seq<T>, b: nat, f: nat, l: nat, i: nat)
    requires b <= |s| && f <= l <= |t| && i < |s| + l - f
    ensures Took(s, t, b, f, l)[i] ==
            if i < b then s[i] else if i < b + l - f then t[i - b + f] else s[i - (l - f)]
  {
  }

  /** `list_splice` of a block of another list: the block leaves other for to. */
  method SpliceAcross(to: List, other: List, before: ListElem, first: ListElem, last0: ListElem,
                      ghost b: nat, ghost f: nat, ghost l: nat)
    requires to.Valid() && other.Valid() && other != to && Elements(to.nodes) !! Elements(other.nodes)
    requires 0 < b < |to.nodes| && 0 < f <= l < |other.nodes|
    requires before == to.nodes[b] && first == other.nodes[f] && last0 == other.nodes[l]
    modifies to, other, Elements(to.nodes), Elements(other.nodes)
    ensures to.Valid() && to.nodes == Took(old(to.nodes), old(other.nodes), b, f, l)
    ensures other.Valid() && other.nodes == Gave(old(other.nodes), f, l)
    ensures Elements(to.nodes) !! Elements(other.nodes)
  {
    ghost var s, t := to.nodes, other.nodes;
    TransferOnce(s, t, b, f, l);
    OnceAt(t, f, l);
    if first == last0 {
      assert Took(s, t, b, f, l) == s && Gave(t, f, l) == t;
    } else {
      ElementsApart(s, t);
      OnceAt(t, f - 1, l - 1);
      TransferLinks(s, t, before, first, last0.prev, b, f, l);
      GaveChain(s, t, b, f, l);
      TookChain(s, t, b, f, l);
      to.nodes := Took(s, t, b, f, l);
      other.nodes := Gave(t, f, l);
    }
  }
}
