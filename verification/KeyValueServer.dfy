/** The set-associative second-chance cache (kvstore/src/kvstore/KVCache.java) and the
    write-through server over it (kvstore/src/kvstore/KVServer.java, KVStore.java). */
module KeyValueServer {
  import opened Basics
  import opened TpcLog

  datatype Entry = Entry(key: Text, value: Text, referenced: bool)

  // ---------------------------------------------------------------- one cache set

  /** Index of the entry for key, or |set| when there is none. */
  function Find(s: seq<Entry>, key: Text): (i: nat)
    ensures i <= |s| && (i < |s| ==> s[i].key == key)
    ensures forall j :: 0 <= j < i ==> s[j].key != key
  {
    if s == [] || s[0].key == key then 0 else 1 + Find(s[1..], key)
  }

  function Lookup(s: seq<Entry>, key: Text): Option<Text> {
    var i := Find(s, key);
    if i < |s| then Some(s[i].value) else None
  }

  ghost predicate DistinctKeys(s: seq<Entry>) {
    forall i, j :: 0 <= i < j < |s| ==> s[i].key != s[j].key
  }

  /** Index of the first entry without its reference bit, or |set| when all have it. */
  function FirstUnreferenced(s: seq<Entry>): (i: nat)
    ensures i <= |s| && (i < |s| ==> !s[i].referenced)
    ensures forall j :: 0 <= j < i ==> s[j].referenced
  {
    if s == [] || !s[0].referenced then 0 else 1 + FirstUnreferenced(s[1..])
  }

  function Cleared(s: seq<Entry>): (r: seq<Entry>)
    ensures |r| == |s| && forall i :: 0 <= i < |s| ==> r[i] == s[i].(referenced := false)
  {
    seq(|s|, i requires 0 <= i < |s| => s[i].(referenced := false))
  }

  /** Second chance: the first unreferenced entry goes and those before it lose their bit; if all
      were referenced they all lose it and the first one goes. */
  function Evicted(s: seq<Entry>): (r: seq<Entry>)
    requires s != []
  {
    var i := FirstUnreferenced(s);
    if i < |s| then Cleared(s[..i]) + s[i + 1..] else Cleared(s[1..])
  }

  function PutInSet(s: seq<Entry>, max: nat, key: Text, value: Text): seq<Entry>
    requires max > 0
  {
    var i, entry := Find(s, key), Entry(key, value, false);
    if i < |s| then s[i := entry]
    else if |s| < max then s + [entry]
    else Evicted(s) + [entry]
  }

  /** The inner loop of the eviction: one sweep over the set. */
  method Sweep(s0: seq<Entry>) returns (s: seq<Entry>, found: bool)
    requires s0 != []
    ensures found <==> FirstUnreferenced(s0) < |s0|
    ensures s == if found then Evicted(s0) else Cleared(s0)
  {
    s, found := s0, false;
    var i := 0;
    while i < |s0|
      invariant 0 <= i <= |s0| == |s|
      invariant forall j :: 0 <= j < |s| ==> s[j] == if j < i then s0[j].(referenced := false) else s0[j]
      invariant forall j :: 0 <= j < i ==> s0[j].referenced
    {
      if s[i].referenced {
        s := s[i := s[i].(referenced := false)];
        i := i + 1;
      } else {
        assert i == FirstUnreferenced(s0);
        assert s[..i] + s[i + 1..] == Cleared(s0[..i]) + s0[i + 1..];
        return s[..i] + s[i + 1..], true;
      }
    }
    assert s == Cleared(s0);
  }

  /** The eviction loop: at most two sweeps. */
  method EvictLoop(s0: seq<Entry>) returns (s: seq<Entry>, ghost sweeps: nat)
    requires s0 != []
    ensures s == Evicted(s0) && sweeps <= 2
  {
    s, sweeps := s0, 0;
    var found := false;
    while !found
      invariant sweeps <= 2
      invariant found ==> s == Evicted(s0)
      invariant !found && sweeps == 0 ==> s == s0
      invariant !found && sweeps > 0 ==> sweeps == 1 && s == Cleared(s0) && FirstUnreferenced(s0) == |s0|
      decreases !found, 2 - sweeps
    {
      if sweeps == 1 {
        EvictedAfterClearing(s0);
      }
      s, found := Sweep(s);
      sweeps := sweeps + 1;
    }
  }

  lemma EvictedAfterClearing(s: seq<Entry>)
    requires s != [] && FirstUnreferenced(s) == |s|
    ensures FirstUnreferenced(Cleared(s)) == 0 && Evicted(Cleared(s)) == Evicted(s)
  {
    assert Evicted(Cleared(s)) == Cleared(s)[1..] == Cleared(s[1..]);
  }

  // ---------------------------------------------------------------- what a set keeps

  ghost predicate SetInv(s: seq<Entry>, max: nat) { |s| <= max && DistinctKeys(s) }

  lemma FindAt(s: seq<Entry>, i: nat)
    requires DistinctKeys(s) && i < |s|
    ensures Find(s, s[i].key) == i
  {
  }

  /** The entry second chance gives up. */
  function Victim(s: seq<Entry>): (k: nat)
    requires s != []
    ensures k < |s|
  {
    if FirstUnreferenced(s) < |s| then FirstUnreferenced(s) else 0
  }

  /** Eviction takes the victim out and keeps the rest in order, reference bits apart. */
  lemma EvictedAt(s: seq<Entry>, i: nat)
    requires s != []
    ensures |Evicted(s)| == |s| - 1
    ensures var j := if i < Victim(s) then i else i + 1;
            i < |s| - 1 ==> Evicted(s)[i].key == s[j].key && Evicted(s)[i].value == s[j].value
  {
    var k, r := FirstUnreferenced(s), Evicted(s);
    if i < |s| - 1 {
      if k == |s| {
        assert r[i] == Cleared(s[1..])[i];
      } else if i < k {
        assert r[i] == Cleared(s[..k])[i];
      } else {
        assert r[i] == s[k + 1..][i - k];
      }
    }
  }

  /** The set has an entry with the key and the value of e. */
  ghost predicate Has(s: seq<Entry>, e: Entry) { exists f :: f in s && e.key == f.key && e.value == f.value }

  lemma EvictedFrom(s: seq<Entry>, i: nat)
    requires s != [] && DistinctKeys(s) && i < |Evicted(s)|
    ensures Has(s, Evicted(s)[i]) && Evicted(s)[i].key != s[Victim(s)].key
  {
    EvictedAt(s, i);
    assert s[if i < Victim(s) then i else i + 1] in s;
  }

  lemma EvictedInv(s: seq<Entry>, max: nat)
    requires s != [] && SetInv(s, max)
    ensures |Evicted(s)| == |s| - 1 && SetInv(Evicted(s), max)
  {
    EvictedAt(s, 0);
    forall i, j | 0 <= i < j < |Evicted(s)|
      ensures Evicted(s)[i].key != Evicted(s)[j].key
    {
      EvictedAt(s, i);
      EvictedAt(s, j);
    }
  }

  predicate PutEvicts(s: seq<Entry>, max: nat, key: Text) { Find(s, key) == |s| && |s| >= max }

  lemma PutInSetInv(s: seq<Entry>, max: nat, key: Text, value: Text)
    requires max > 0 && SetInv(s, max)
    ensures var r := PutInSet(s, max, key, value); SetInv(r, max) && Lookup(r, key) == Some(value)
  {
    var i, r := Find(s, key), PutInSet(s, max, key, value);
    if i < |s| {
      FindAt(r, i);
    } else {
      if |s| == max {
        EvictedInv(s, max);
        forall j | 0 <= j < |Evicted(s)|
          ensures Evicted(s)[j].key != key
        {
          EvictedAt(s, j);
        }
      }
      FindAt(r, |r| - 1);
    }
  }

  lemma PutInSetFrom(s: seq<Entry>, max: nat, key: Text, value: Text, e: Entry)
    requires max > 0 && SetInv(s, max) && e in PutInSet(s, max, key, value) && e.key != key
    ensures Has(s, e)
  {
    if PutEvicts(s, max, key) {
      var i :| 0 <= i < |Evicted(s)| && Evicted(s)[i] == e;
      EvictedFrom(s, i);
    } else {
      assert e in s;
    }
  }

  lemma PutInSetOther(s: seq<Entry>, max: nat, key: Text, value: Text, j: nat)
    requires max > 0 && SetInv(s, max) && j < |s| && s[j].key != key
    ensures Lookup(PutInSet(s, max, key, value), s[j].key) ==
            if PutEvicts(s, max, key) && j == Victim(s) then None else Some(s[j].value)
  {
    var r := PutInSet(s, max, key, value);
    PutInSetInv(s, max, key, value);
    if !PutEvicts(s, max, key) {
      FindAt(r, j);
    } else if j == Victim(s) {
      forall i | 0 <= i < |r|
        ensures r[i].key != s[j].key
      {
        if i < |Evicted(s)| {
          EvictedFrom(s, i);
        }
      }
    } else {
      var i := if j < Victim(s) then j else j - 1;
      EvictedAt(s, i);
      FindAt(r, i);
    }
  }

  /** Putting a key: it is found afterwards with its value; every other key keeps its value, except
      that a new key in a full set drives out the victim; nothing else appears; and the set stays
      within its bound. */
  lemma PutInSetKeeps(s: seq<Entry>, max: nat, key: Text, value: Text)
    requires max > 0 && SetInv(s, max)
    ensures var r := PutInSet(s, max, key, value);
            && SetInv(r, max)
            && Lookup(r, key) == Some(value)
            && (forall e {:trigger Has(s, e)} {:trigger e in r} :: e in r && e.key != key ==> Has(s, e))
    ensures var r := PutInSet(s, max, key, value);
            forall j :: 0 <= j < |s| && s[j].key != key ==>
                          Lookup(r, s[j].key) ==
                          if PutEvicts(s, max, key) && j == Victim(s) then None else Some(s[j].value)
  {
    var r := PutInSet(s, max, key, value);
    PutInSetInv(s, max, key, value);
    forall e {:trigger Has(s, e)} {:trigger e in r} | e in r && e.key != key
      ensures Has(s, e)
    {
      PutInSetFrom(s, max, key, value, e);
    }
    forall j | 0 <= j < |s| && s[j].key != key
      ensures Lookup(r, s[j].key) == if PutEvicts(s, max, key) && j == Victim(s) then None else Some(s[j].value)
    {
      PutInSetOther(s, max, key, value, j);
    }
  }

  /** A hit sets the reference bit. */
  function Touched(s: seq<Entry>, key: Text): seq<Entry> {
    var i := Find(s, key);
    if i < |s| then s[i := s[i].(referenced := true)] else s
  }

  /** A key that has just been read is not the next to go while another entry is unreferenced; nothing else
      about the set changes. */
  lemma TouchedIsSpared(s: seq<Entry>, key: Text, j: nat)
    requires Find(s, key) < |s| && j < |s| && j != Find(s, key)
    ensures var t := Touched(s, key);
            && |t| == |s| && t[j] == s[j] && t[Find(s, key)] == s[Find(s, key)].(referenced := true)
            && (!s[j].referenced ==> Victim(t) != Find(s, key))
  {
    var t := Touched(s, key);
    assert t[j] == s[j];
  }

  function Removed(s: seq<Entry>, key: Text): seq<Entry> {
    var i := Find(s, key);
    if i < |s| then s[..i] + s[i + 1..] else s
  }

  lemma RemovedKeeps(s: seq<Entry>, max: nat, key: Text)
    requires SetInv(s, max)
    ensures SetInv(Removed(s, key), max) && forall e :: e in Removed(s, key) ==> e in s && e.key != key
  {
    var i, r := Find(s, key), Removed(s, key);
    assert forall j :: 0 <= j < |r| ==> r[j] == s[if j < i then j else j + 1];
  }

  lemma FindAbsent(s: seq<Entry>, key: Text)
    requires forall e :: e in s ==> e.key != key
    ensures Lookup(s, key) == None
  {
  }

  /** Removing a key makes it unknown and changes no other lookup. */
  lemma RemovedLookup(s: seq<Entry>, max: nat, key: Text, k: Text)
    requires SetInv(s, max)
    ensures Lookup(Removed(s, key), k) == if k == key then None else Lookup(s, k)
  {
    var i, r, j := Find(s, key), Removed(s, key), Find(s, k);
    RemovedKeeps(s, max, key);
    if k == key || j == |s| {
      FindAbsent(r, k);
    } else if i < |s| {
      var at := if j < i then j else j - 1;
      assert r[at] == s[j];
      FindAt(r, at);
    }
  }

  lemma FindStep(s: seq<Entry>, key: Text, i: nat)
    requires i <= |s| && forall j :: 0 <= j < i ==> s[j].key != key
    ensures i < |s| && s[i].key == key ==> Find(s, key) == i
    ensures i == |s| ==> Find(s, key) == i
  {
  }

  /** Java's `Math.abs(h) % n` for a 32-bit h: the absolute value of the least int is itself. */
  function SetId(h: int, n: nat): int
    requires n > 0
  {
    if h >= 0 then h % n else if h == -0x8000_0000 then -(0x8000_0000 % n) else (-h) % n
  }

  /** Its size is the remainder of the hash code's size, and its sign is minus for the least int alone. */
  lemma SetIdLaw(h: int, n: nat)
    requires n > 0 && -0x8000_0000 <= h < 0x8000_0000
    ensures var size, r := if h < 0 then -h else h, SetId(h, n);
            && (h > -0x8000_0000 ==> 0 <= r < n && size == size / n * n + r)
            && (h == -0x8000_0000 ==> 0 <= -r < n && size == size / n * n - r)
  {
    var size := if h < 0 then -h else h;
    assert size == size / n * n + size % n;
  }

  /** It is a valid set number for every hash code exactly when n divides 2^31. */
  lemma SetIdInRangeIff(n: nat)
    requires n > 0
    ensures (forall h :: -0x8000_0000 <= h < 0x8000_0000 ==> 0 <= SetId(h, n) < n) <==> 0x8000_0000 % n == 0
  {
    if 0x8000_0000 % n != 0 {
      assert SetId(-0x8000_0000, n) < 0;
    }
  }

  class KVCache {
    const numSets: nat
    const maxElemsPerSet: nat
    const setOf: Text -> nat
    var sets: seq<seq<Entry>>

    ghost predicate Valid()
      reads this
    {
      && maxElemsPerSet > 0 && |sets| == numSets
      && (forall k :: setOf(k) < numSets)
      && (forall i :: 0 <= i < |sets| ==> SetInv(sets[i], maxElemsPerSet))
      && (forall i, e :: 0 <= i < |sets| && e in sets[i] ==> setOf(e.key) == i)
    }

    constructor (numSets: nat, maxElemsPerSet: nat, setOf: Text -> nat)
      requires maxElemsPerSet > 0 && forall k :: setOf(k) < numSets
      ensures Valid() && forall i :: 0 <= i < |sets| ==> sets[i] == []
    {
      this.numSets, this.maxElemsPerSet, this.setOf := numSets, maxElemsPerSet, setOf;
      sets := seq(numSets, _ => []);
    }

    ghost function Cached(key: Text): Option<Text>
      requires Valid()
      reads this
    {
      Lookup(sets[setOf(key)], key)
    }

    method Get(key: Text) returns (value: Option<Text>)
      requires Valid()
      modifies this
      ensures Valid() && value == old(Cached(key))
      ensures sets == old(sets)[setOf(key) := Touched(old(sets)[setOf(key)], key)]
    {
      var id := setOf(key);
      var s := sets[id];
      var i := 0;
      value := None;
      while i < |s| && s[i].key != key
        invariant 0 <= i <= |s| && forall j :: 0 <= j < i ==> s[j].key != key
      {
        i := i + 1;
      }
      FindStep(s, key, i);
      if i < |s| {
        value := Some(s[i].value);
        sets := sets[id := s[i := s[i].(referenced := true)]];
      }
    }

    method Put(key: Text, value: Text)
      requires Valid()
      modifies this
      ensures Valid()
      ensures sets == old(sets)[setOf(key) := PutInSet(old(sets)[setOf(key)], maxElemsPerSet, key, value)]
    {
      var id := setOf(key);
      var s := sets[id];
      var i := 0;
      while i < |s| && s[i].key != key
        invariant 0 <= i <= |s| && forall j :: 0 <= j < i ==> s[j].key != key
      {
        i := i + 1;
      }
      FindStep(s, key, i);
      PutInSetKeeps(s, maxElemsPerSet, key, value);
      var entry := Entry(key, value, false);
      if i < |s| {
        s := s[i := entry];
      } else if |s| < maxElemsPerSet {
        s := s + [entry];
      } else {
        ghost var sweeps;
        s, sweeps := EvictLoop(s);
        s := s + [entry];
      }
      sets := sets[id := s];
    }

    method Del(key: Text)
      requires Valid()
      modifies this
      ensures Valid() && sets == old(sets)[setOf(key) := Removed(old(sets)[setOf(key)], key)]
      ensures forall k {:trigger Cached(k)} :: Cached(k) == if k == key then None else old(Cached(k))
    {
      var id := setOf(key);
      var s := sets[id];
      var i := 0;
      while i < |s| && s[i].key != key
        invariant 0 <= i <= |s| && forall j :: 0 <= j < i ==> s[j].key != key
      {
        i := i + 1;
      }
      FindStep(s, key, i);
      RemovedKeeps(s, maxElemsPerSet, key);
      if i < |s| {
        sets := sets[id := s[..i] + s[i + 1..]];
      }
      forall k {:trigger Cached(k)}
        ensures Cached(k) == if k == key then None else old(Cached(k))
      {
        RemovedLookup(s, maxElemsPerSet, key, k);
      }
    }
  }

  // ---------------------------------------------------------------- the server

  datatype ServerError = InvalidKey | OversizedKey | InvalidValue | OversizedValue | NoSuchKey

  function KeyError(key: Option<Text>): (e: Option<ServerError>)
    ensures e.None? <==> ValidKey(key)
  {
    if key.None? || |key.value| == 0 then Some(InvalidKey)
    else if |key.value| > MAX_KEY_SIZE then Some(OversizedKey)
    else None
  }

  function ValueError(value: Option<Text>): Option<ServerError> {
    if value.None? || |value.value| == 0 then Some(InvalidValue)
    else if |value.value| > MAX_VAL_SIZE then Some(OversizedValue)
    else None
  }

  /** What the cache holds is what the store holds, and no reference bit is set. */
  ghost predicate Coherent(sets: seq<seq<Entry>>, store: Store) {
    forall i, e :: 0 <= i < |sets| && e in sets[i] ==> e.key in store && store[e.key] == e.value && !e.referenced
  }

  /** The store holds nothing that `put` would have refused. */
  ghost predicate Admissible(store: Store) {
    forall k :: k in store ==> Accepts(store, TpcLog.Put(Some(k), Some(store[k])))
  }

  /** With no reference bit set, second chance evicts the oldest entry: first in, first out. */
  lemma UnreferencedIsFifo(s: seq<Entry>)
    requires s != [] && forall e :: e in s ==> !e.referenced
    ensures Evicted(s) == s[1..]
  {
    assert s[0] in s;
    assert Evicted(s) == Cleared(s[..0]) + s[1..];
  }

  /** A first-in, first-out set: replace in place, append while there is room, drop the oldest. */
  function FifoPut(s: seq<Entry>, max: nat, key: Text, value: Text): seq<Entry>
    requires max > 0
  {
    var i, entry := Find(s, key), Entry(key, value, false);
    if i < |s| then s[i := entry] else if |s| < max then s + [entry] else s[1..] + [entry]
  }

  lemma PutIsFifo(s: seq<Entry>, max: nat, key: Text, value: Text)
    requires max > 0 && forall e :: e in s ==> !e.referenced
    ensures PutInSet(s, max, key, value) == FifoPut(s, max, key, value)
  {
    if Find(s, key) == |s| && |s| >= max {
      UnreferencedIsFifo(s);
    }
  }

  /** A value stored in one set and in the map under the same key keeps them coherent. */
  lemma PutCoherent(sets: seq<seq<Entry>>, store: Store, id: nat, max: nat, key: Text, value: Text)
    requires id < |sets| && max > 0 && Coherent(sets, store)
    requires forall i :: 0 <= i < |sets| ==> SetInv(sets[i], max)
    requires forall i, e :: 0 <= i < |sets| && e in sets[i] && e.key == key ==> i == id
    ensures Coherent(sets[id := PutInSet(sets[id], max, key, value)], store[key := value])
  {
    var s := sets[id];
    var r, t := PutInSet(s, max, key, value), sets[id := PutInSet(sets[id], max, key, value)];
    PutInSetKeeps(s, max, key, value);
    PutUnreferenced(s, max, key, value);
    forall i: int, e: Entry | 0 <= i < |t| && e in t[i]
      ensures e.key in store[key := value] && store[key := value][e.key] == e.value && !e.referenced
    {
      if i == id {
        assert e in r;
        if e.key == key {
          KeyHasValue(r, max, e, key, value);
        } else {
          assert Has(s, e);
          var f :| f in s && e.key == f.key && e.value == f.value;
          assert f in sets[id];
        }
      } else {
        assert e in sets[i];
      }
    }
  }

  lemma PutUnreferenced(s: seq<Entry>, max: nat, key: Text, value: Text)
    requires max > 0 && forall e :: e in s ==> !e.referenced
    ensures forall e :: e in PutInSet(s, max, key, value) ==> !e.referenced
  {
    PutIsFifo(s, max, key, value);
  }

  lemma KeyHasValue(r: seq<Entry>, max: nat, e: Entry, key: Text, value: Text)
    requires SetInv(r, max) && e in r && e.key == key && Lookup(r, key) == Some(value)
    ensures e.value == value
  {
    var i :| 0 <= i < |r| && r[i] == e;
    FindAt(r, i);
  }

  /** KVServer: in every run it behaves as the plain map `store`, whatever its cache does. */
  class KVServer {
    const cache: KVCache
    var store: Store

    ghost predicate Valid()
      reads this, cache
    {
      cache.Valid() && Coherent(cache.sets, store) && Admissible(store)
    }

    constructor (numSets: nat, maxElemsPerSet: nat, setOf: Text -> nat)
      requires maxElemsPerSet > 0 && forall k :: setOf(k) < numSets
      ensures Valid() && fresh(cache) && store == map[]
    {
      cache := new KVCache(numSets, maxElemsPerSet, setOf);
      store := map[];
    }

    /** Succeeds exactly on what `Accepts` admits, and then stores through the cache; a set that
        is full loses its oldest entry. */
    method Put(key: Option<Text>, value: Option<Text>) returns (err: Option<ServerError>)
      requires Valid()
      modifies this, cache
      ensures Valid()
      ensures err == if KeyError(key).Some? then KeyError(key) else ValueError(value)
      ensures err == Some(InvalidKey) <==> key.None? || key.value == []
      ensures err == Some(OversizedKey) <==> key.Some? && |key.value| > 256
      ensures err == Some(InvalidValue) <==>
              key.Some? && 0 < |key.value| <= 256 && (value.None? || value.value == [])
      ensures err == Some(OversizedValue) <==>
              key.Some? && 0 < |key.value| <= 256 && value.Some? && |value.value| > 262144
      ensures err.None? <==> Accepts(old(store), TpcLog.Put(key, value))
      ensures err.None? ==>
                && store == Apply(old(store), TpcLog.Put(key, value)) == old(store)[key.value := value.value]
                && cache.Cached(key.value) == value
                && var id := cache.setOf(key.value);
                   cache.sets == old(cache.sets)[
                     id := FifoPut(old(cache.sets)[id], cache.maxElemsPerSet, key.value, value.value)]
      ensures err.Some? ==> store == old(store) && cache.sets == old(cache.sets)
    {
      err := if KeyError(key).Some? then KeyError(key) else ValueError(value);
      if err.None? {
        PutCoherent(cache.sets, store, cache.setOf(key.value), cache.maxElemsPerSet, key.value, value.value);
        PutInSetKeeps(cache.sets[cache.setOf(key.value)], cache.maxElemsPerSet, key.value, value.value);
        PutIsFifo(cache.sets[cache.setOf(key.value)], cache.maxElemsPerSet, key.value, value.value);
        cache.Put(key.value, value.value);
        store := store[key.value := value.value];
      }
    }

    /** Returns what the store holds, found in the cache or not, and leaves it cached. */
    method Get(key: Option<Text>) returns (r: Result)
      requires Valid()
      modifies this, cache
      ensures Valid() && store == old(store)
      ensures KeyError(key).Some? ==> r == Failed(KeyError(key).value)
      ensures r == Failed(InvalidKey) <==> key.None? || key.value == []
      ensures r == Failed(OversizedKey) <==> key.Some? && |key.value| > 256
      ensures KeyError(key).None? && key.value in store ==>
                r == Found(store[key.value]) && cache.Cached(key.value) == Some(store[key.value])
      ensures KeyError(key).None? && key.value !in store ==> r == Failed(NoSuchKey) && cache.sets == old(cache.sets)
    {
      if KeyError(key).Some? {
        return Failed(KeyError(key).value);
      }
      ghost var was, id, max := cache.sets, cache.setOf(key.value), cache.maxElemsPerSet;
      var value := cache.Get(key.value);
      if value.None? {
        assert cache.sets == was;
        r := StoreGet(key.value);
        if r.Failed? {
          return;
        }
        value := Some(r.value);
      } else {
        HitIsStored(was, store, id, key.value);
      }
      TouchedThenPut(was[id], max, key.value, value.value);
      PutCoherent(was, store, id, max, key.value, value.value);
      PutInSetKeeps(was[id], max, key.value, value.value);
      cache.Put(key.value, value.value);
      assert cache.sets == was[id := PutInSet(was[id], max, key.value, value.value)];
      assert store[key.value := value.value] == store;
      r := Found(value.value);
    }

    /** Fails with NoSuchKey when the key is absent; the cache forgets the key first. */
    method Del(key: Option<Text>) returns (err: Option<ServerError>)
      requires Valid()
      modifies this, cache
      ensures Valid()
      ensures err == if KeyError(key).Some? then KeyError(key)
                     else if key.value in old(store) then None else Some(NoSuchKey)
      ensures err == Some(InvalidKey) <==> key.None? || key.value == []
      ensures err == Some(OversizedKey) <==> key.Some? && |key.value| > 256
      ensures err.None? <==> Accepts(old(store), TpcLog.Del(key))
      ensures err.None? ==>
                && store == Apply(old(store), TpcLog.Del(key)) == old(store) - {key.value}
                && forall k {:trigger cache.Cached(k)} ::
                     cache.Cached(k) == if k == key.value then None else old(cache.Cached(k))
      ensures err.Some? ==> store == old(store) && cache.sets == old(cache.sets)
    {
      err := KeyError(key);
      if err.None? {
        ghost var was := cache.sets;
        DelCoherent(was, store, cache.setOf(key.value), cache.maxElemsPerSet, key.value);
        cache.Del(key.value);
        if key.value !in store {
          return Some(NoSuchKey);
        }
        store := store - {key.value};
      }
    }

    /** The answer behind the vote on a delete: true exactly when that delete would be carried
        out now.  Unlike `Get` it leaves the cache alone. */
    method HasKey(key: Text) returns (r: bool)
      requires Valid()
      ensures r <==> Accepts(store, TpcLog.Del(Some(key)))
      ensures r <==> Vote(store, TpcLog.Del(Some(key))) == Ready
    {
      var value := StoreGet(key);
      r := value.Found?;
    }

    /** `KVStore.get`, which throws for a key it does not hold. */
    method StoreGet(key: Text) returns (r: Result)
      ensures r == Failed(NoSuchKey) <==> key !in store
      ensures r.Found? ==> store[key] == r.value
      ensures r.Failed? ==> r.error == NoSuchKey
    {
      r := if key in store then Found(store[key]) else Failed(NoSuchKey);
    }
  }

  datatype Result = Found(value: Text) | Failed(error: ServerError)

  /** Because `get` puts a hit back, its reference bit never survives the call. */
  lemma TouchedThenPut(s: seq<Entry>, max: nat, key: Text, value: Text)
    requires max > 0
    ensures PutInSet(Touched(s, key), max, key, value) == PutInSet(s, max, key, value)
  {
    var i, t := Find(s, key), Touched(s, key);
    if i < |s| {
      FindStep(t, key, i);
    }
  }

  lemma DelCoherent(sets: seq<seq<Entry>>, store: Store, id: nat, max: nat, key: Text)
    requires id < |sets| && Coherent(sets, store) && SetInv(sets[id], max)
    requires forall i, e :: 0 <= i < |sets| && e in sets[i] && e.key == key ==> i == id
    ensures Coherent(sets[id := Removed(sets[id], key)], store)
    ensures Coherent(sets[id := Removed(sets[id], key)], store - {key})
  {
    RemovedKeeps(sets[id], max, key);
    var t := sets[id := Removed(sets[id], key)];
    forall i: int, e: Entry | 0 <= i < |t| && e in t[i]
      ensures e in sets[i] && e.key != key
    {
    }
  }

  lemma HitIsStored(sets: seq<seq<Entry>>, store: Store, id: nat, key: Text)
    requires id < |sets| && Coherent(sets, store) && Lookup(sets[id], key).Some?
    ensures key in store && Lookup(sets[id], key) == Some(store[key])
  {
    var i := Find(sets[id], key);
    assert sets[id][i] in sets[id];
  }
}
