/** The write-back buffer cache of the file system (pintos/src/filesys/cache.c), used sequentially:
    64 buffers, an LRU free list, sectors 0 and 1 never evicted. */
module BufferCache {
  import opened Basics
  import opened Swap

  datatype Buffer = Buffer(sector: Option<nat>, delayed: bool, data: Sector)

  datatype Cache = Cache(buffers: seq<Buffer>, index: map<nat, nat>, lru: seq<nat>, disk: seq<Sector>)

  /** The free map and the root directory stay in the cache once read. */
  predicate Pinned(s: Option<nat>) { s == Some(0) || s == Some(1) }

  // ---------------------------------------------------------------- invariant

  ghost predicate BufferOk(index: map<nat, nat>, disk: seq<Sector>, b: nat, x: Buffer) {
    && (x.sector.None? ==> !x.delayed)
    && (x.sector.Some? ==> x.sector.value < |disk| && x.sector.value in index && index[x.sector.value] == b)
    && (x.sector.Some? && !x.delayed ==> x.data == disk[x.sector.value])
  }

  ghost predicate BuffersOk(c: Cache) {
    forall b {:trigger c.buffers[b]} :: 0 <= b < |c.buffers| ==> BufferOk(c.index, c.disk, b, c.buffers[b])
  }

  ghost predicate IndexOk(index: map<nat, nat>, buffers: seq<Buffer>) {
    forall s {:trigger index[s]} :: s in index ==> index[s] < |buffers| && buffers[index[s]].sector == Some(s)
  }

  ghost predicate LruOk(lru: seq<nat>, buffers: seq<Buffer>) {
    && Distinct(lru)
    && (forall i :: 0 <= i < |lru| ==> lru[i] < |buffers|)
    && (forall b {:trigger b in lru} :: 0 <= b < |buffers| ==> (b in lru <==> !Pinned(buffers[b].sector)))
  }

  /** Buffer b is in use: the list holds every other buffer that it should, and not b. */
  ghost predicate OffList(lru: seq<nat>, buffers: seq<Buffer>, b: nat) {
    && Distinct(lru)
    && (forall i :: 0 <= i < |lru| ==> lru[i] < |buffers|)
    && (forall x {:trigger x in lru} :: 0 <= x < |buffers| ==>
          (x in lru <==> x != b && !Pinned(buffers[x].sector)))
  }

  ghost predicate Inv(c: Cache) {
    |c.buffers| == 64 && BuffersOk(c) && IndexOk(c.index, c.buffers) && LruOk(c.lru, c.buffers)
  }

  /** The disk as its users see it through the cache. */
  ghost function View(c: Cache): (v: seq<Sector>)
    requires IndexOk(c.index, c.buffers)
    ensures |v| == |c.disk|
    ensures forall s :: 0 <= s < |v| ==> v[s] == SectorSeen(c, s)
  {
    seq(|c.disk|, s requires 0 <= s < |c.disk| => SectorSeen(c, s))
  }

  ghost function SectorSeen(c: Cache, s: nat): Sector
    requires IndexOk(c.index, c.buffers) && s < |c.disk|
  {
    if s in c.index then c.buffers[c.index[s]].data else c.disk[s]
  }

  // ---------------------------------------------------------------- the free list

  ghost function Elems(l: seq<nat>): (e: set<nat>)
    requires Distinct(l)
    ensures |e| == |l| && forall b :: b in e <==> b in l
  {
    if l == [] then {} else Elems(l[..|l| - 1]) + {l[|l| - 1]}
  }

  ghost function IndexOf(index: map<nat, nat>, s: nat): (r: set<nat>)
    ensures |r| <= 1
  {
    if s in index then {index[s]} else {}
  }

  lemma UnionSize(a: set<nat>, b: set<nat>)
    ensures |a + b| <= |a| + |b|
  {
    assert |a + b| == |a| + |b - a| && b - a <= b by {
      assert a + b == a + (b - a);
    }
    SubsetSize(b - a, b);
  }

  lemma OnOrOff(c: Cache)
    requires BuffersOk(c) && LruOk(c.lru, c.buffers)
    ensures UpTo(|c.buffers|) <= Elems(c.lru) + (IndexOf(c.index, 0) + IndexOf(c.index, 1))
  {
    forall b | b in UpTo(|c.buffers|)
      ensures b in c.lru || b in IndexOf(c.index, 0) || b in IndexOf(c.index, 1)
    {
      assert BufferOk(c.index, c.disk, b, c.buffers[b]);
    }
  }

  /** At most two buffers are ever off the free list between operations. */
  lemma LruIsLong(c: Cache)
    requires Inv(c)
    ensures |c.lru| >= 62
  {
    OnOrOff(c);
    var a, b := IndexOf(c.index, 0), IndexOf(c.index, 1);
    SubsetSize(UpTo(|c.buffers|), Elems(c.lru) + (a + b));
    UnionSize(a, b);
    UnionSize(Elems(c.lru), a + b);
  }

  // ---------------------------------------------------------------- one access

  /** The buffer that cache_get_block returns. */
  ghost function Chosen(c: Cache, s: nat): (b: nat)
    requires Inv(c)
    ensures b < 64
  {
    LruIsLong(c);
    if s in c.index then c.index[s] else c.lru[0]
  }

  /** The state when cache_get_block returns: the buffer is off the list; if it held another sector,
      that sector has been written back and dropped from the index. */
  ghost function Got(c: Cache, s: nat): Cache
    requires Inv(c)
  {
    LruIsLong(c);
    var b := Chosen(c, s);
    var x := c.buffers[b];
    if s in c.index then c.(lru := if s > 1 then Without(c.lru, b) else c.lru)
    else
      assert BufferOk(c.index, c.disk, b, x);
      Cache(c.buffers[b := x.(delayed := false)],
            if x.sector.Some? then c.index - {x.sector.value} else c.index,
            c.lru[1..],
            if x.delayed then c.disk[x.sector.value := x.data] else c.disk)
  }

  /** The state after cache_block_read (store is None) or cache_block_write. */
  ghost function After(c: Cache, s: nat, store: Option<Sector>): (c': Cache)
    requires Inv(c) && s < |c.disk|
    ensures |c'.buffers| == 64 && |c'.disk| == |c.disk|
  {
    var g, b := Got(c, s), Chosen(c, s);
    var x := g.buffers[b];
    var data := if store.Some? then store.value else if s in c.index then x.data else g.disk[s];
    Cache(g.buffers[b := Buffer(Some(s), store.Some? || (s in c.index && x.delayed), data)],
          g.index[s := b], if s > 1 then g.lru + [b] else g.lru, g.disk)
  }

  lemma AfterBuffer(c: Cache, s: nat, store: Option<Sector>, x: nat)
    requires Inv(c) && s < |c.disk| && x < 64
    ensures var c' := After(c, s, store); BufferOk(c'.index, c'.disk, x, c'.buffers[x])
  {
    LruIsLong(c);
    var b := Chosen(c, s);
    assert BufferOk(c.index, c.disk, b, c.buffers[b]) && BufferOk(c.index, c.disk, x, c.buffers[x]);
  }

  lemma AfterBuffers(c: Cache, s: nat, store: Option<Sector>)
    requires Inv(c) && s < |c.disk|
    ensures |After(c, s, store).buffers| == 64 && BuffersOk(After(c, s, store))
  {
    forall x | 0 <= x < 64
      ensures var c' := After(c, s, store); BufferOk(c'.index, c'.disk, x, c'.buffers[x])
    {
      AfterBuffer(c, s, store, x);
    }
  }

  lemma AfterIndex(c: Cache, s: nat, store: Option<Sector>)
    requires Inv(c) && s < |c.disk|
    ensures var c' := After(c, s, store); IndexOk(c'.index, c'.buffers)
  {
    LruIsLong(c);
    var b := Chosen(c, s);
    assert BufferOk(c.index, c.disk, b, c.buffers[b]);
  }

  /** cache_get_block takes its buffer off the free list and no other. */
  lemma GotLru(c: Cache, s: nat)
    requires Inv(c)
    ensures Distinct(Got(c, s).lru) && forall x :: x in Got(c, s).lru <==> x in c.lru && x != Chosen(c, s)
  {
    LruIsLong(c);
    var b := Chosen(c, s);
    if s !in c.index {
      PoppedKeeps(c.lru);
    } else if s > 1 {
      WithoutKeeps(c.lru, b);
    } else {
      assert b in c.lru <==> !Pinned(c.buffers[b].sector);
    }
  }

  lemma GotOffList(c: Cache, s: nat)
    requires Inv(c)
    ensures OffList(Got(c, s).lru, Got(c, s).buffers, Chosen(c, s))
  {
    LruIsLong(c);
    GotLru(c, s);
    var g := Got(c, s);
    forall i | 0 <= i < |g.lru|
      ensures g.lru[i] < 64
    {
      assert g.lru[i] in g.lru;
    }
  }

  lemma LruRestored(lru: seq<nat>, buffers: seq<Buffer>, b: nat)
    requires OffList(lru, buffers, b) && b < |buffers|
    ensures Pinned(buffers[b].sector) ==> LruOk(lru, buffers)
    ensures !Pinned(buffers[b].sector) ==> LruOk(lru + [b], buffers)
  {
    AppendDistinct(lru, b);
  }

  lemma AfterLru(c: Cache, s: nat, store: Option<Sector>)
    requires Inv(c) && s < |c.disk|
    ensures var c' := After(c, s, store); LruOk(c'.lru, c'.buffers)
  {
    GotOffList(c, s);
    LruRestored(Got(c, s).lru, After(c, s, store).buffers, Chosen(c, s));
  }

  /** Writes are delayed: a written buffer waits for its eviction or a flush, a read makes nothing wait that
      did not, and the disk changes only where a waiting buffer is evicted, to what that buffer held. */
  lemma WritesAreDelayed(c: Cache, s: nat, store: Option<Sector>, t: nat)
    requires Inv(c) && s < |c.disk| && t < |c.disk|
    ensures var c' := After(c, s, store);
            && s in c'.index && c'.index[s] < 64
            && (c'.buffers[c'.index[s]].delayed <==> store.Some? || (s in c.index && c.buffers[c.index[s]].delayed))
            && (c'.disk[t] != c.disk[t] ==>
                  && s !in c.index && t in c.index && t !in c'.index
                  && c.buffers[c.index[t]].delayed && c'.disk[t] == c.buffers[c.index[t]].data)
  {
    LruIsLong(c);
    var b := Chosen(c, s);
    assert BufferOk(c.index, c.disk, b, c.buffers[b]);
  }

  lemma AfterViewAt(c: Cache, s: nat, store: Option<Sector>, t: nat)
    requires Inv(c) && s < |c.disk| && t < |c.disk|
    requires IndexOk(After(c, s, store).index, After(c, s, store).buffers)
    ensures SectorSeen(After(c, s, store), t) == if t == s && store.Some? then store.value else SectorSeen(c, t)
  {
    LruIsLong(c);
    var b := Chosen(c, s);
    assert BufferOk(c.index, c.disk, b, c.buffers[b]);
  }

  /** A read changes nothing that users see; a write changes its own sector alone. */
  lemma AfterView(c: Cache, s: nat, store: Option<Sector>)
    requires Inv(c) && s < |c.disk|
    ensures IndexOk(After(c, s, store).index, After(c, s, store).buffers)
    ensures View(After(c, s, store)) == View(c)[s := if store.Some? then store.value else View(c)[s]]
  {
    AfterIndex(c, s, store);
    var v, v' := View(c), View(After(c, s, store));
    forall t | 0 <= t < |v|
      ensures v'[t] == if t == s && store.Some? then store.value else v[t]
    {
      AfterViewAt(c, s, store, t);
    }
  }

  lemma AfterOk(c: Cache, s: nat, store: Option<Sector>)
    requires Inv(c) && s < |c.disk|
    ensures Inv(After(c, s, store)) && |After(c, s, store).disk| == |c.disk|
    ensures View(After(c, s, store)) == View(c)[s := if store.Some? then store.value else View(c)[s]]
  {
    AfterBuffers(c, s, store);
    AfterIndex(c, s, store);
    AfterLru(c, s, store);
    AfterView(c, s, store);
  }

  // ---------------------------------------------------------------- flushing

  /** The state after cache_flush_buffer on buffer b. */
  ghost function Flushed(c: Cache, b: nat): Cache
    requires Inv(c) && b < 64
  {
    var x := c.buffers[b];
    assert BufferOk(c.index, c.disk, b, x);
    if x.delayed then
      c.(buffers := c.buffers[b := x.(delayed := false)], disk := c.disk[x.sector.value := x.data])
    else c
  }

  lemma FlushedOk(c: Cache, b: nat)
    requires Inv(c) && b < 64
    ensures Inv(Flushed(c, b)) && View(Flushed(c, b)) == View(c)
  {
    var c' := Flushed(c, b);
    assert BufferOk(c.index, c.disk, b, c.buffers[b]);
    forall x {:trigger c'.buffers[x]} | 0 <= x < 64
      ensures BufferOk(c'.index, c'.disk, x, c'.buffers[x]) && c'.buffers[x].sector == c.buffers[x].sector
    {
      assert BufferOk(c.index, c.disk, x, c.buffers[x]);
    }
    assert forall t :: 0 <= t < |c.disk| ==> View(c')[t] == View(c)[t];
  }

  /** When no buffer is delayed, the disk is what users see. */
  lemma CleanIsDisk(c: Cache)
    requires Inv(c) && forall s :: s in c.index ==> !c.buffers[c.index[s]].delayed
    ensures View(c) == c.disk
  {
    forall s | 0 <= s < |c.disk|
      ensures View(c)[s] == c.disk[s]
    {
      if s in c.index {
        assert BufferOk(c.index, c.disk, c.index[s], c.buffers[c.index[s]]);
      }
    }
  }

  // ---------------------------------------------------------------- the plain disk

  datatype Op = Read(s: nat) | Write(s: nat, d: Sector) | Flush

  ghost predicate InRange(ops: seq<Op>, n: nat) { forall i :: 0 <= i < |ops| && !ops[i].Flush? ==> ops[i].s < n }

  ghost function PlainStep(v: seq<Sector>, op: Op): seq<Sector>
    requires op.Write? ==> op.s < |v|
  {
    if op.Write? then v[op.s := op.d] else v
  }

  ghost function PlainRun(v: seq<Sector>, ops: seq<Op>): (r: seq<Sector>)
    requires InRange(ops, |v|)
    ensures |r| == |v|
  {
    if ops == [] then v else PlainStep(PlainRun(v, ops[..|ops| - 1]), ops[|ops| - 1])
  }

  /** The sectors that the reads of a run must deliver. */
  ghost function PlainAnswers(v: seq<Sector>, ops: seq<Op>): seq<Sector>
    requires InRange(ops, |v|)
  {
    if ops == [] then []
    else
      var n := |ops| - 1;
      PlainAnswers(v, ops[..n]) + OpAnswer(PlainRun(v, ops[..n]), ops[n])
  }

  /** The sectors used by a run. */
  ghost function Uses(ops: seq<Op>): seq<nat> {
    if ops == [] then [] else Uses(ops[..|ops| - 1]) + OpUses(ops[|ops| - 1])
  }

  ghost function OpUses(op: Op): seq<nat> { if op.Flush? then [] else [op.s] }

  ghost function OpAnswer(v: seq<Sector>, op: Op): seq<Sector>
    requires op.Read? ==> op.s < |v|
  {
    if op.Read? then [v[op.s]] else []
  }

  /** Buffers change in their delayed flags alone; those of indexed sectors outside `todo` are clean. */
  ghost predicate Cleaning(a: seq<Buffer>, b: seq<Buffer>, index: map<nat, nat>, todo: set<nat>) {
    && |a| == |b| == 64
    && (forall i :: 0 <= i < 64 ==> b[i].sector == a[i].sector && b[i].data == a[i].data)
    && (forall s :: s in index && s !in todo ==> index[s] < 64 && !b[index[s]].delayed)
  }

  lemma CleaningStep(a: seq<Buffer>, c: Cache, todo: set<nat>, s: nat)
    requires Inv(c) && Cleaning(a, c.buffers, c.index, todo) && s in c.index
    ensures Cleaning(a, Flushed(c, c.index[s]).buffers, c.index, todo - {s})
  {
    assert BufferOk(c.index, c.disk, c.index[s], c.buffers[c.index[s]]);
  }

  lemma CleaningDone(a: Cache, c: Cache)
    requires Inv(a) && Inv(c) && c.lru == a.lru && Cleaning(a.buffers, c.buffers, c.index, {})
    ensures View(c) == c.disk && Line(c) == Line(a)
  {
    CleanIsDisk(c);
  }

  class BufferCache {
    var buffers: seq<Buffer>
    var index: map<nat, nat>
    var lru: seq<nat>
    var disk: seq<Sector>

    ghost function State(): Cache
      reads this
    {
      Cache(buffers, index, lru, disk)
    }

    ghost predicate Valid()
      reads this
    {
      Inv(State())
    }

    constructor (device: seq<Sector>)
      ensures Valid() && View(State()) == device && disk == device && Tracks(Line(State()), Recency([]))
    {
      buffers := seq(64, _ => Buffer(None, false, seq(512, _ => 0)));
      index := map[];
      lru := seq(64, i => i);
      disk := device;
      new;
      assert forall b {:trigger b in lru} :: 0 <= b < 64 ==> lru[b] == b;
    }

    /** cache_get_block: the sector's buffer, or the least recently used one, written back first if
        it is delayed. */
    method GetBlock(s: nat) returns (b: nat)
      requires Valid()
      modifies this
      ensures State() == Got(old(State()), s) && b == Chosen(old(State()), s)
      ensures b < 64 && OffList(lru, buffers, b)
    {
      GotOffList(State(), s);
      if s in index {
        b := index[s];
        if s > 1 {
          lru := Without(lru, b);
        }
      } else {
        LruIsLong(State());
        b := lru[0];
        lru := lru[1..];
        var x := buffers[b];
        assert BufferOk(index, disk, b, x);
        if x.delayed {
          disk := disk[x.sector.value := x.data];
          buffers := buffers[b := x.(delayed := false)];
        }
        if x.sector.Some? {
          index := index - {x.sector.value};
        }
      }
    }

    /** Gives a buffer taken by `GetBlock` back: the list is whole again, with the buffer last in
        line for eviction unless it is pinned. */
    method Release(b: nat)
      requires b < |buffers|
      modifies `lru
      ensures OffList(old(lru), buffers, b) ==> LruOk(lru, buffers)
      ensures lru == if Pinned(buffers[b].sector) then old(lru) else old(lru) + [b]
    {
      if OffList(lru, buffers, b) {
        LruRestored(lru, buffers, b);
      }
      if !Pinned(buffers[b].sector) {
        lru := lru + [b];
      }
    }

    /** Reads deliver the last data written, and change nothing that users see. */
    method BlockRead(s: nat) returns (d: Sector)
      requires Valid() && s < |disk|
      modifies this
      ensures Valid() && View(State()) == old(View(State())) && d == old(View(State()))[s]
      ensures State() == After(old(State()), s, None)
    {
      ghost var c := State();
      var b := GetBlock(s);
      if buffers[b].sector != Some(s) {
        buffers := buffers[b := Buffer(Some(s), buffers[b].delayed, disk[s])];
        index := index[s := b];
      }
      Release(b);
      d := buffers[b].data;
      ReadState(c, s, State(), b);
      ReadData(c, s);
    }

    /** Writes change their own sector and no other. */
    method BlockWrite(s: nat, d: Sector)
      requires Valid() && s < |disk|
      modifies this
      ensures Valid() && View(State()) == old(View(State()))[s := d]
      ensures State() == After(old(State()), s, Some(d))
    {
      ghost var c := State();
      var b := GetBlock(s);
      buffers := buffers[b := Buffer(Some(s), true, d)];
      index := index[s := b];
      Release(b);
      WriteState(c, s, d, State());
    }

    /** cache_flush_buffer. */
    method FlushBuffer(b: nat)
      requires Valid() && b < 64
      modifies `buffers, `disk
      ensures State() == Flushed(old(State()), b) && Valid() && View(State()) == old(View(State()))
    {
      FlushedOk(State(), b);
      var x := buffers[b];
      if x.delayed {
        disk := disk[x.sector.value := x.data];
        buffers := buffers[b := x.(delayed := false)];
      }
    }

    /** cache_flush_cache makes the disk equal to what users see. */
    method FlushCache()
      requires Valid()
      modifies `buffers, `disk
      ensures Valid() && View(State()) == old(View(State())) && disk == View(State())
      ensures Cleaning(old(buffers), buffers, index, {}) && Line(State()) == old(Line(State()))
    {
      var todo := index.Keys;
      while todo != {}
        invariant Valid() && View(State()) == old(View(State())) && todo <= index.Keys
        invariant Cleaning(old(buffers), buffers, index, todo)
        decreases todo
      {
        var s :| s in todo;
        CleaningStep(old(buffers), State(), todo, s);
        FlushBuffer(index[s]);
        todo := todo - {s};
      }
      CleaningDone(old(State()), State());
    }

    method Do(op: Op, ghost hist: seq<nat>) returns (answer: seq<Sector>)
      requires Valid() && (!op.Flush? ==> op.s < |disk|) && Tracks(Line(State()), Recency(hist))
      modifies this
      ensures Valid() && View(State()) == PlainStep(old(View(State())), op)
      ensures answer == OpAnswer(old(View(State())), op)
      ensures Tracks(Line(State()), Recency(hist + OpUses(op)))
    {
      answer := [];
      match op
      case Flush =>
        FlushCache();
        assert hist + OpUses(op) == hist;
      case Read(s) =>
        AfterTracks(State(), s, None, hist);
        var d := BlockRead(s);
        answer := [d];
      case Write(s, d) =>
        AfterTracks(State(), s, Some(d), hist);
        BlockWrite(s, d);
    }

    /** In every sequential run the cache answers as the plain disk does, and its free list stays
        in the order of last use. */
    method Run(ops: seq<Op>, ghost hist: seq<nat>) returns (answers: seq<Sector>)
      requires Valid() && InRange(ops, |disk|) && Tracks(Line(State()), Recency(hist))
      modifies this
      ensures Valid() && View(State()) == PlainRun(old(View(State())), ops)
      ensures answers == PlainAnswers(old(View(State())), ops)
      ensures Tracks(Line(State()), Recency(hist + Uses(ops)))
    {
      ghost var v := View(State());
      ghost var used := hist;
      answers := [];
      for i := 0 to |ops|
        invariant Valid() && View(State()) == PlainRun(v, ops[..i]) && answers == PlainAnswers(v, ops[..i])
        invariant used == hist + Uses(ops[..i]) && Tracks(Line(State()), Recency(used))
      {
        assert ops[..i + 1][..i] == ops[..i];
        assert |disk| == |View(State())|;
        var answer := Do(ops[i], used);
        used := used + OpUses(ops[i]);
        answers := answers + answer;
      }
      assert ops[..|ops|] == ops;
    }
  }

  lemma WriteState(c: Cache, s: nat, d: Sector, c': Cache)
    requires Inv(c) && s < |c.disk|
    requires var g, b := Got(c, s), Chosen(c, s);
             && c'.disk == g.disk && c'.lru == (if s > 1 then g.lru + [b] else g.lru)
             && c'.buffers == g.buffers[b := Buffer(Some(s), true, d)] && c'.index == g.index[s := b]
    ensures c' == After(c, s, Some(d)) && Inv(c') && View(c') == View(c)[s := d]
  {
    AfterOk(c, s, Some(d));
  }

  lemma ReadState(c: Cache, s: nat, c': Cache, b: nat)
    requires Inv(c) && s < |c.disk| && b == Chosen(c, s)
    requires var g := Got(c, s);
             && c'.disk == g.disk && c'.lru == (if s > 1 then g.lru + [b] else g.lru)
             && (if g.buffers[b].sector != Some(s)
                 then
                    && c'.buffers == g.buffers[b := Buffer(Some(s), g.buffers[b].delayed, g.disk[s])]
                    && c'.index == g.index[s := b]
                 else c'.buffers == g.buffers && c'.index == g.index)
    ensures c' == After(c, s, None)
  {
    assert BufferOk(c.index, c.disk, b, c.buffers[b]);
    if s in c.index {
      assert c.index[s := b] == c.index;
      assert c'.buffers == After(c, s, None).buffers;
    } else {
      assert c'.buffers == After(c, s, None).buffers;
    }
  }

  lemma ReadData(c: Cache, s: nat)
    requires Inv(c) && s < |c.disk|
    ensures var c' := After(c, s, None);
            Inv(c') && View(c') == View(c) && c'.buffers[Chosen(c, s)].data == View(c)[s]
  {
    AfterOk(c, s, None);
    assert SectorSeen(After(c, s, None), s) == SectorSeen(c, s);
  }

  // ---------------------------------------------------------------- least recently used

  /** The evictable sectors of a history of accesses, each once, in the order of their last use. */
  ghost function Recency(hist: seq<nat>): seq<nat> {
    if hist == [] then []
    else
      var s := hist[|hist| - 1];
      var r := Recency(hist[..|hist| - 1]);
      if s > 1 then Without(r, s) + [s] else r
  }

  /** The sectors of the buffers on the free list, in list order. */
  ghost function Line(c: Cache): seq<Option<nat>>
    requires forall i :: 0 <= i < |c.lru| ==> c.lru[i] < |c.buffers|
  {
    seq(|c.lru|, i requires 0 <= i < |c.lru| => c.buffers[c.lru[i]].sector)
  }

  /** Counted from the back, the line is the recency order, and blank where that ends. */
  ghost predicate Tracks(line: seq<Option<nat>>, r: seq<nat>) {
    forall i :: 0 <= i < |line| ==> line[i] == At(r, i + |r| - |line|)
  }

  ghost function At(r: seq<nat>, k: int): Option<nat> { if 0 <= k < |r| then Some(r[k]) else None }

  /** l with the element at p moved to the back. */
  ghost function MovedBack<T>(l: seq<T>, p: nat): (m: seq<T>)
    requires p < |l|
    ensures |m| == |l|
    ensures forall i :: 0 <= i < |l| ==> m[i] == if i < p then l[i] else if i < |l| - 1 then l[i + 1] else l[p]
  {
    l[..p] + l[p + 1..] + [l[p]]
  }

  lemma {:induction false} WithoutAt(l: seq<nat>, p: nat)
    requires Distinct(l) && p < |l|
    ensures Without(l, l[p]) == l[..p] + l[p + 1..]
  {
    if p == 0 {
      WithoutAbsent(l[1..], l[0]);
    } else {
      WithoutAt(l[1..], p - 1);
      assert l[..p] + l[p + 1..] == [l[0]] + (l[1..][..p - 1] + l[1..][p..]);
    }
  }

  lemma {:induction false} RecencyDistinct(hist: seq<nat>)
    ensures Distinct(Recency(hist))
  {
    if hist != [] {
      var s := hist[|hist| - 1];
      var r := Recency(hist[..|hist| - 1]);
      RecencyDistinct(hist[..|hist| - 1]);
      WithoutKeeps(r, s);
      AppendDistinct(Without(r, s), s);
    }
  }

  /** Moving the same element to the back of both keeps them in step. */
  lemma TracksMoved(line: seq<Option<nat>>, r: seq<nat>, p: nat, s: nat)
    requires Tracks(line, r) && Distinct(r) && p < |line| && line[p] == Some(s)
    ensures Tracks(MovedBack(line, p), Without(r, s) + [s])
  {
    var q := p + |r| - |line|;
    assert line[p] == At(r, q);
    WithoutAt(r, q);
    var r' := MovedBack(r, q);
    assert Without(r, s) + [s] == r';
    var line' := MovedBack(line, p);
    forall i | 0 <= i < |line'|
      ensures line'[i] == At(r', i + |r| - |line|)
    {
      assert line[i] == At(r, i + |r| - |line|);
      assert i + 1 < |line| ==> line[i + 1] == At(r, i + 1 + |r| - |line|);
    }
  }

  lemma InLine(line: seq<Option<nat>>, r: seq<nat>, q: nat)
    requires Tracks(line, r) && |r| - |line| <= q < |r|
    ensures Some(r[q]) in line
  {
    assert line[q - (|r| - |line|)] == At(r, q);
  }

  lemma TracksReplaced(line: seq<Option<nat>>, r: seq<nat>, q: nat)
    requires Tracks(line, r) && line != [] && q < |r| - |line|
    ensures Tracks(line[1..] + [Some(r[q])], MovedBack(r, q))
  {
    var line', r' := line[1..] + [Some(r[q])], MovedBack(r, q);
    forall i | 0 <= i < |line'|
      ensures line'[i] == At(r', i + |r'| - |line'|)
    {
      assert i + 1 < |line| ==> line[i + 1] == At(r, i + 1 + |r| - |line|);
    }
  }

  /** A sector from outside goes to the back, and the front of the line makes room. */
  lemma TracksPushed(line: seq<Option<nat>>, r: seq<nat>, s: nat)
    requires Tracks(line, r) && Distinct(r) && line != [] && Some(s) !in line
    ensures Tracks(line[1..] + [Some(s)], Without(r, s) + [s])
  {
    if s in r {
      var q :| 0 <= q < |r| && r[q] == s;
      if q >= |r| - |line| {
        InLine(line, r, q);
      } else {
        WithoutAt(r, q);
        assert Without(r, s) + [s] == MovedBack(r, q);
        TracksReplaced(line, r, q);
      }
    } else {
      WithoutAbsent(r, s);
      TracksAppended(line, r, s);
    }
  }

  lemma TracksAppended(line: seq<Option<nat>>, r: seq<nat>, s: nat)
    requires Tracks(line, r) && line != []
    ensures Tracks(line[1..] + [Some(s)], r + [s])
  {
    var line' := line[1..] + [Some(s)];
    forall i | 0 <= i < |line'|
      ensures line'[i] == At(r + [s], i + |r| + 1 - |line|)
    {
      assert i + 1 < |line| ==> line[i + 1] == At(r, i + 1 + |r| - |line|);
    }
  }

  lemma TracksPopped(line: seq<Option<nat>>, r: seq<nat>)
    requires Tracks(line, r) && line != []
    ensures Tracks(line[1..], r)
  {
    var line' := line[1..];
    forall i | 0 <= i < |line'|
      ensures line'[i] == At(r, i + |r| - |line'|)
    {
      assert line[i + 1] == At(r, i + 1 + |r| - |line|);
    }
  }

  lemma HitLru(c: Cache, s: nat, store: Option<Sector>) returns (p: nat)
    requires Inv(c) && s < |c.disk| && s in c.index && s > 1
    ensures p < |c.lru| && c.lru[p] == c.index[s] && After(c, s, store).lru == MovedBack(c.lru, p)
  {
    var b := c.index[s];
    assert b in c.lru;
    p :| 0 <= p < |c.lru| && c.lru[p] == b;
    WithoutAt(c.lru, p);
  }

  lemma HitLine(c: Cache, s: nat, store: Option<Sector>) returns (p: nat)
    requires Inv(c) && s < |c.disk| && s in c.index && s > 1 && Inv(After(c, s, store))
    ensures p < |Line(c)| && Line(c)[p] == Some(s) && Line(After(c, s, store)) == MovedBack(Line(c), p)
  {
    p := HitLru(c, s, store);
    SameLine(c, After(c, s, store), p);
  }

  lemma SameLine(c: Cache, c': Cache, p: nat)
    requires LruOk(c.lru, c.buffers) && LruOk(c'.lru, c'.buffers) && |c.buffers| == |c'.buffers|
    requires p < |c.lru| && c'.lru == MovedBack(c.lru, p)
    requires forall b :: 0 <= b < |c.buffers| ==> c'.buffers[b].sector == c.buffers[b].sector
    ensures Line(c') == MovedBack(Line(c), p)
  {
  }

  lemma RecencyNext(hist: seq<nat>, s: nat)
    ensures Distinct(Recency(hist))
    ensures Recency(hist + [s]) == if s > 1 then Without(Recency(hist), s) + [s] else Recency(hist)
  {
    RecencyDistinct(hist);
    assert (hist + [s])[..|hist|] == hist;
  }

  lemma MissTracks(c: Cache, s: nat, store: Option<Sector>, r: seq<nat>)
    requires Inv(c) && s < |c.disk| && s !in c.index && Inv(After(c, s, store)) && Tracks(Line(c), r) && Distinct(r)
    ensures Tracks(Line(After(c, s, store)), if s > 1 then Without(r, s) + [s] else r)
  {
    OutsideLine(c, s);
    MissedLine(c, s, store);
    TracksMissed(Line(c), Line(After(c, s, store)), r, s);
  }

  lemma TracksMissed(line: seq<Option<nat>>, line': seq<Option<nat>>, r: seq<nat>, s: nat)
    requires Tracks(line, r) && Distinct(r) && line != [] && Some(s) !in line
    requires line' == if s > 1 then line[1..] + [Some(s)] else line[1..]
    ensures Tracks(line', if s > 1 then Without(r, s) + [s] else r)
  {
    if s > 1 {
      TracksPushed(line, r, s);
    } else {
      TracksPopped(line, r);
    }
  }

  lemma HitTracks(c: Cache, s: nat, store: Option<Sector>, r: seq<nat>)
    requires Inv(c) && s < |c.disk| && s in c.index && Inv(After(c, s, store)) && Tracks(Line(c), r) && Distinct(r)
    ensures Tracks(Line(After(c, s, store)), if s > 1 then Without(r, s) + [s] else r)
  {
    if s > 1 {
      var p := HitLine(c, s, store);
      TracksMoved(Line(c), r, p, s);
    } else {
      PinnedHitLine(c, s, store);
    }
  }

  /** One access keeps the free list in the order of last use. */
  lemma AfterTracks(c: Cache, s: nat, store: Option<Sector>, hist: seq<nat>)
    requires Inv(c) && s < |c.disk| && Tracks(Line(c), Recency(hist))
    ensures Inv(After(c, s, store)) && Tracks(Line(After(c, s, store)), Recency(hist + [s]))
  {
    AfterOk(c, s, store);
    RecencyNext(hist, s);
    if s in c.index {
      HitTracks(c, s, store, Recency(hist));
    } else {
      MissTracks(c, s, store, Recency(hist));
    }
  }

  lemma PinnedHitLine(c: Cache, s: nat, store: Option<Sector>)
    requires Inv(c) && s < |c.disk| && s in c.index && s <= 1 && Inv(After(c, s, store))
    ensures Line(After(c, s, store)) == Line(c)
  {
    assert BufferOk(c.index, c.disk, Chosen(c, s), c.buffers[Chosen(c, s)]);
  }

  lemma OutsideLine(c: Cache, s: nat)
    requires Inv(c) && s !in c.index
    ensures Some(s) !in Line(c)
  {
    forall i | 0 <= i < |c.lru|
      ensures Line(c)[i] != Some(s)
    {
      assert BufferOk(c.index, c.disk, c.lru[i], c.buffers[c.lru[i]]);
    }
  }

  lemma MissedLine(c: Cache, s: nat, store: Option<Sector>)
    requires Inv(c) && s < |c.disk| && s !in c.index && Inv(After(c, s, store))
    ensures Line(c) != [] && Line(After(c, s, store)) == if s > 1 then Line(c)[1..] + [Some(s)] else Line(c)[1..]
  {
    LruIsLong(c);
    var c' := After(c, s, store);
    forall i | 0 <= i < |c.lru| - 1
      ensures Line(c')[i] == Line(c)[i + 1]
    {
      assert c.lru[i + 1] != c.lru[0];
    }
  }
}
