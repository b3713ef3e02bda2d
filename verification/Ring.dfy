/** Placement of keys on the ring of 64-bit slave ids (kvstore/src/kvstore/TPCMaster.java).  The
    slave map is a TreeMap ordered by signed id; the ring it implements is the unsigned one. */
module Ring {
  import opened Basics

  type Long = x: int | -0x8000_0000_0000_0000 <= x < 0x8000_0000_0000_0000

  function Wrap(x: int): Long {
    (x + 0x8000_0000_0000_0000) % 0x1_0000_0000_0000_0000 - 0x8000_0000_0000_0000
  }

  function Unsigned(x: Long): nat { if x < 0 then x + 0x1_0000_0000_0000_0000 else x }

  /** How far one travels clockwise from a to b on the ring of 2^64 points. */
  function Distance(a: Long, b: Long): (d: nat)
    ensures d < 0x1_0000_0000_0000_0000
    ensures d == 0 <==> a == b
    ensures d == if a <= b then b - a else b - a + 0x1_0000_0000_0000_0000
  {
    (Unsigned(b) - Unsigned(a)) % 0x1_0000_0000_0000_0000
  }

  function Pow31(n: nat): nat { if n == 0 then 1 else 31 * Pow31(n - 1) }

  /** The sum of s[i] * 31^(|s| - 1 - i) over i < k. */
  function Terms(s: Text, k: nat): nat
    requires k <= |s|
  {
    if k == 0 then 0 else Terms(s, k - 1) + s[k - 1] * Pow31(|s| - k)
  }

  /** s as the coefficients of a polynomial at 31, with a prime in front. */
  function Polynomial(s: Text): nat { 1125899906842597 * Pow31(|s|) + Terms(s, |s|) }

  function Hash(s: Text): Long { Wrap(Polynomial(s)) }

  lemma {:induction false} TermsOfPrefix(s: Text, k: nat)
    requires k < |s|
    ensures Terms(s, k) == 31 * Terms(s[..|s| - 1], k)
  {
    if k > 0 {
      TermsOfPrefix(s, k - 1);
      assert Pow31(|s| - k) == 31 * Pow31(|s| - 1 - k);
    }
  }

  /** One more character is one step of Horner's rule. */
  lemma Horner(s: Text)
    requires s != []
    ensures Polynomial(s) == 31 * Polynomial(s[..|s| - 1]) + s[|s| - 1]
  {
    TermsOfPrefix(s, |s| - 1);
  }

  /** Wrapping early makes no difference. */
  lemma WrapThrough(x: int, c: int)
    ensures Wrap(31 * Wrap(x) + c) == Wrap(31 * x + c)
  {
    var q := (x + 0x8000_0000_0000_0000) / 0x1_0000_0000_0000_0000;
    assert Wrap(x) == x - q * 0x1_0000_0000_0000_0000;
    assert 31 * Wrap(x) + c == 31 * x + c - (31 * q) * 0x1_0000_0000_0000_0000;
  }

  /** `hashTo64bit`: the polynomial modulo 2^64, in two's complement. */
  method HashTo64bit(s: Text) returns (h: Long)
    ensures h == Hash(s)
  {
    h := 1125899906842597;
    var i := 0;
    while i < |s|
      invariant 0 <= i <= |s| && h == Hash(s[..i])
    {
      WrapThrough(Polynomial(s[..i]), s[i]);
      assert s[..i + 1][..i] == s[..i];
      Horner(s[..i + 1]);
      h := Wrap(31 * h + s[i]);
      i := i + 1;
    }
    assert s[..|s|] == s;
  }

  /** `isLessThanUnsigned`: exclusive or of the signed comparison and the sign difference. */
  function IsLessThanUnsigned(n1: Long, n2: Long): (r: bool)
    ensures r <==> Unsigned(n1) < Unsigned(n2)
  {
    (n1 < n2) != ((n1 < 0) != (n2 < 0))
  }

  ghost predicate IsLeast(x: Long, s: set<Long>) { x in s && forall y :: y in s ==> x <= y }

  lemma {:induction false} HasLeast(s: set<Long>)
    requires s != {}
    ensures exists x :: IsLeast(x, s)
  {
    var z :| z in s;
    if s == {z} {
      assert IsLeast(z, s);
    } else {
      var t := s - {z};
      HasLeast(t);
      var y :| IsLeast(y, t);
      assert s == t + {z};
      assert IsLeast(if z <= y then z else y, s);
    }
  }

  /** TreeMap.firstKey */
  ghost function FirstKey(s: set<Long>): (x: Long)
    requires s != {}
    ensures IsLeast(x, s)
  {
    HasLeast(s);
    var x :| IsLeast(x, s);
    x
  }

  /** TreeMap.tailMap */
  ghost function Tail(s: set<Long>, from: Long, inclusive: bool): set<Long> {
    set x | x in s && (from < x || (inclusive && from == x))
  }

  /** `findFirstReplica` on the ids of the registered slaves: the first id at or clockwise after
      the hash. */
  ghost function FirstReplica(ids: set<Long>, hash: Long): (id: Long)
    requires ids != {}
    ensures id in ids && forall x :: x in ids ==> Distance(hash, id) <= Distance(hash, x)
  {
    var tail := Tail(ids, hash, true);
    assert forall x :: x in ids && hash <= x ==> x in tail;
    if tail == {} then FirstKey(ids) else FirstKey(tail)
  }

  /** `findFirstReplica` for a key, null as long as no slave is registered. */
  ghost function FindFirstReplica(ids: set<Long>, key: Text): (r: Option<Long>)
    ensures r.None? <==> ids == {}
    ensures r.Some? ==> r.value in ids && forall x :: x in ids ==>
              Distance(Hash(key), r.value) <= Distance(Hash(key), x)
  {
    if ids == {} then None else Some(FirstReplica(ids, Hash(key)))
  }

  /** `findSuccessor`: the next id clockwise, which is another slave as soon as there is one. */
  ghost function Successor(ids: set<Long>, first: Long): (id: Long)
    requires first in ids
    ensures id in ids
    ensures ids == {first} ==> id == first
    ensures ids != {first} ==>
              id != first && forall x :: x in ids && x != first ==> Distance(first, id) <= Distance(first, x)
  {
    var tail := Tail(ids, first, false);
    assert forall x :: x in ids && first < x ==> x in tail;
    if tail == {} then FirstKey(ids) else FirstKey(tail)
  }

  /** Nothing else on the ring lies as close: the first replica is unique. */
  lemma FirstReplicaUnique(ids: set<Long>, hash: Long, id: Long)
    requires id in ids && forall x :: x in ids ==> Distance(hash, id) <= Distance(hash, x)
    ensures id == FirstReplica(ids, hash)
  {
    var other := FirstReplica(ids, hash);
    assert Distance(hash, id) == Distance(hash, other);
  }

  /** The master looks a key up under the hash of the decimal text of its hash. */
  ghost function KeyHash(key: Text): Long { Hash(Decimal(Hash(key))) }

  /** Long.toString: the digits start at code unit 48, the minus sign is 45. */
  function Decimal(x: int): Text
    decreases x < 0, if x < 0 then -x else x
  {
    if x < 0 then [45] + Decimal(-x)
    else if x < 10 then [48 + x]
    else Decimal(x / 10) + [48 + x % 10]
  }

  /** The number that a text of digits, with or without a minus sign, denotes. */
  function Denoted(t: Text): int {
    if t != [] && t[0] == 45 then -Digits(t[1..]) else Digits(t)
  }

  function Digits(t: Text): int {
    if t == [] then 0 else 10 * Digits(t[..|t| - 1]) + t[|t| - 1] - 48
  }

  lemma {:induction false} DecimalDigits(x: nat)
    ensures var t := Decimal(x);
            && t != [] && Digits(t) == x && (forall i :: 0 <= i < |t| ==> 48 <= t[i] <= 57)
            && (t[0] == 48 ==> x == 0)
  {
    if x >= 10 {
      DecimalDigits(x / 10);
      assert Decimal(x)[..|Decimal(x)| - 1] == Decimal(x / 10);
    } else {
      assert Digits([48 + x]) == 10 * Digits([48 + x][..0]) + x;
    }
  }

  /** The text is the decimal one, with no needless zero in front, so reading it gives the number back. */
  lemma DecimalIsRead(x: int)
    ensures Denoted(Decimal(x)) == x
    ensures x != 0 ==> Decimal(x)[if x < 0 then 1 else 0] != 48
  {
    if x < 0 {
      DecimalDigits(-x);
      assert Decimal(x)[1..] == Decimal(-x);
    } else {
      DecimalDigits(x);
    }
  }

  /** The two slaves of a key. */
  ghost function Placement(ids: set<Long>, key: Text): (Long, Long)
    requires ids != {}
  {
    var first := FirstReplica(ids, KeyHash(key));
    (first, Successor(ids, first))
  }

  /** The slave map of TPCMaster; a slave's address is opaque. */
  class Registry<Info> {
    var slaves: map<Long, Info>
    const numSlaves: nat

    constructor (n: nat)
      ensures slaves == map[] && numSlaves == n
    {
      numSlaves := n;
      slaves := map[];
    }

    /** `registerSlave`: a known id is replaced, a new one is taken only while there is room. */
    method RegisterSlave(id: Long, info: Info)
      modifies this
      ensures id in old(slaves) || |old(slaves)| < numSlaves ==> slaves == old(slaves)[id := info]
      ensures id !in old(slaves) && |old(slaves)| >= numSlaves ==> slaves == old(slaves)
      ensures slaves.Keys == Registered(old(slaves.Keys), numSlaves, id)
    {
      assert |slaves.Keys| == |slaves|;
      if id in slaves {
        slaves := slaves - {id};
        slaves := slaves[id := info];
      } else if |slaves| < numSlaves {
        slaves := slaves[id := info];
      }
    }
  }

  /** The ids of the registered slaves after one registration. */
  function Registered(ids: set<Long>, numSlaves: nat, id: Long): (r: set<Long>)
    ensures |ids| <= numSlaves ==> |r| <= numSlaves
  {
    if id in ids || |ids| < numSlaves then ids + {id} else ids
  }

  function RegisteredAll(ids: set<Long>, numSlaves: nat, arrivals: seq<Long>): set<Long> {
    if arrivals == [] then ids
    else Registered(RegisteredAll(ids, numSlaves, arrivals[..|arrivals| - 1]), numSlaves, arrivals[|arrivals| - 1])
  }

  /** First come, first served: nobody is dropped, only those who came are taken, and until the ring is full
      everybody who came is in. */
  lemma {:induction false} FirstComeFirstServed(ids: set<Long>, numSlaves: nat, arrivals: seq<Long>)
    requires |ids| <= numSlaves
    ensures Served(ids, numSlaves, Came(arrivals), RegisteredAll(ids, numSlaves, arrivals))
  {
    if arrivals != [] {
      var before, id := arrivals[..|arrivals| - 1], arrivals[|arrivals| - 1];
      FirstComeFirstServed(ids, numSlaves, before);
      assert arrivals == before + [id];
      assert Came(arrivals) == Came(before) + {id};
      OneMoreCame(ids, numSlaves, Came(before), RegisteredAll(ids, numSlaves, before), id);
    }
  }

  ghost function Came(arrivals: seq<Long>): set<Long> { set x | x in arrivals }

  ghost predicate Served(ids: set<Long>, numSlaves: nat, came: set<Long>, r: set<Long>) {
    ids <= r <= ids + came && |r| <= numSlaves && (|r| < numSlaves ==> r == ids + came)
  }

  lemma OneMoreCame(ids: set<Long>, numSlaves: nat, came: set<Long>, r: set<Long>, id: Long)
    requires Served(ids, numSlaves, came, r)
    ensures Served(ids, numSlaves, came + {id}, Registered(r, numSlaves, id))
  {
    if id in r {
      assert r + {id} == r;
    } else if |r| < numSlaves {
      assert |r + {id}| == |r| + 1;
      assert r + {id} == ids + (came + {id});
    }
  }

  /** Once numSlaves slaves are registered, no later sequence of (re-)registrations moves any key. */
  lemma {:induction false} PlacementStable(ids: set<Long>, numSlaves: nat, arrivals: seq<Long>,
                                           key: Text)
    requires |ids| == numSlaves > 0
    ensures RegisteredAll(ids, numSlaves, arrivals) == ids
    ensures Placement(RegisteredAll(ids, numSlaves, arrivals), key) == Placement(ids, key)
  {
    if arrivals != [] {
      PlacementStable(ids, numSlaves, arrivals[..|arrivals| - 1], key);
      var id := arrivals[|arrivals| - 1];
      assert id in ids ==> ids + {id} == ids;
    }
  }
}
