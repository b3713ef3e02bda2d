/** The kernel's memory allocator (pintos/src/threads/malloc.c) over the page allocator
    (pintos/src/threads/palloc.c). Addresses are byte offsets from the base of the kernel pool. */
module Malloc {
  import opened Basics
  import opened Bitmaps

  /** Size of the blocks of descriptor d: 16, 32, ... 1024. */
  function BlockSize(d: nat): (n: nat)
    ensures n >= 16
  {
    if d == 0 then 16 else 2 * BlockSize(d - 1)
  }

  /** Blocks that fit in one page after the 12-byte arena header. */
  function PerArena(d: nat): nat { if d == 0 then 255 else PerArena(d - 1) / 2 }

  lemma Sizes(d: nat)
    requires d < 7
    ensures 3 <= PerArena(d) && 12 + PerArena(d) * BlockSize(d) <= 4096 && BlockSize(d) <= 1024
  {
    assert BlockSize(2) == 64 && BlockSize(4) == 256 && BlockSize(6) == 1024;
    assert PerArena(2) == 63 && PerArena(4) == 15 && PerArena(6) == 3;
  }

  lemma PerArenaIs(d: nat)
    requires d < 7
    ensures PerArena(d) == (4096 - 12) / BlockSize(d)
  {
    assert BlockSize(2) == 64 && BlockSize(4) == 256 && BlockSize(6) == 1024;
    assert PerArena(2) == 63 && PerArena(4) == 15 && PerArena(6) == 3;
  }

  /** arena_to_block: the address of block i of a descriptor-d arena on page g. */
  function Slot(g: nat, d: nat, i: nat): nat { 4096 * g + 12 + i * BlockSize(d) }

  lemma SlotIn(g: nat, d: nat, i: nat)
    requires d < 7 && i < PerArena(d)
    ensures 4096 * g + 12 <= Slot(g, d, i) && Slot(g, d, i) + BlockSize(d) <= 4096 * (g + 1)
    ensures Slot(g, d, i) / 4096 == g
  {
    BlockFits(d, i);
    Within(g, BlockSize(d), i * BlockSize(d));
  }

  lemma BlockFits(d: nat, i: nat)
    requires d < 7 && i < PerArena(d)
    ensures 0 <= i * BlockSize(d) && 12 + i * BlockSize(d) + BlockSize(d) <= 4096
  {
    Sizes(d);
    StepFits(BlockSize(d), i, PerArena(d));
  }

  lemma StepFits(n: nat, i: nat, m: nat)
    requires i < m && 12 + m * n <= 4096
    ensures 0 <= i * n && 12 + i * n + n <= 4096
  {
    MulStep(n, i, m);
  }

  lemma Within(g: nat, n: nat, t: int)
    requires 0 <= t && n > 0 && 12 + t + n <= 4096
    ensures var x := 4096 * g + 12 + t; x + n <= 4096 * (g + 1) && x / 4096 == g
  {
  }

  lemma MulStep(n: nat, a: nat, b: nat)
    requires a < b
    ensures a * n + n <= b * n
  {
    MulMono(n, a + 1, b);
  }

  lemma SlotsApart(g: nat, d: nat, i: nat, j: nat)
    requires i < j
    ensures Slot(g, d, i) + BlockSize(d) <= Slot(g, d, j)
  {
    MulStep(BlockSize(d), i, j);
  }

  // ---------------------------------------------------------------- state

  /** An arena header: a page of equal blocks, or the start of a block of whole pages. */
  datatype Arena = Small(d: nat, cnt: nat) | Big(pages: nat)

  /** Pages in use, arena headers by page, free lists by descriptor, and what callers hold: the
      address of each live block with the size that was asked for. */
  datatype Heap = Heap(used: seq<bool>, arenas: map<nat, Arena>, free: seq<seq<nat>>, live: map<nat, nat>)

  function Extent(a: Arena): nat { if a.Small? then 1 else a.pages }

  // ---------------------------------------------------------------- invariant

  ghost predicate Covers(arenas: map<nat, Arena>, g: nat, k: nat) { g in arenas && g <= k < g + Extent(arenas[g]) }

  /** Arenas lie on used pages, do not overlap, and account for every used page. */
  ghost predicate PagesOk(used: seq<bool>, arenas: map<nat, Arena>) {
    && (forall g {:trigger arenas[g]} :: g in arenas ==> Extent(arenas[g]) >= 1 && g + Extent(arenas[g]) <= |used|)
    && (forall g: nat, k: nat :: Covers(arenas, g, k) ==> used[k])
    && (forall g, h, k :: Covers(arenas, g, k) && Covers(arenas, h, k) ==> g == h)
    && (forall k :: 0 <= k < |used| && used[k] ==> exists g :: Covers(arenas, g, k))
  }

  /** x is block i of a descriptor-d arena. */
  ghost predicate IsBlock(arenas: map<nat, Arena>, x: nat, d: nat, i: nat) {
    var g := x / 4096;
    g in arenas && arenas[g].Small? && arenas[g].d == d && d < 7 && i < PerArena(d) && x == Slot(g, d, i)
  }

  ghost predicate FreeOk(arenas: map<nat, Arena>, l: seq<nat>, d: nat) {
    Distinct(l) && forall x {:trigger x in l} :: x in l ==> exists i :: IsBlock(arenas, x, d, i)
  }

  ghost predicate IsBig(arenas: map<nat, Arena>, x: nat) {
    x / 4096 in arenas && arenas[x / 4096].Big? && x == 4096 * (x / 4096) + 12
  }

  /** A live block is a block of its arena, is big enough, and is not on a free list. */
  ghost predicate LiveOk(h: Heap, x: nat, size: nat) {
    || (IsBig(h.arenas, x) && size + 12 <= 4096 * h.arenas[x / 4096].pages)
    || (exists d: nat, i: nat :: IsBlock(h.arenas, x, d, i) && size <= BlockSize(d) && d < |h.free| && x !in h.free[d])
  }

  /** Every block of every arena is free or live. */
  ghost predicate Accounted(h: Heap, g: nat, a: Arena) {
    match a
    case Small(d, cnt) =>
      && d < 7 && d < |h.free|
      && forall i {:trigger Slot(g, d, i)} :: 0 <= i < PerArena(d) ==>
           Slot(g, d, i) in h.free[d] || Slot(g, d, i) in h.live
    case Big(n) => 4096 * g + 12 in h.live
  }

  ghost function FreeIn(l: seq<nat>, g: nat, d: nat): set<nat> {
    set i {:trigger Slot(g, d, i)} | 0 <= i < PerArena(d) && Slot(g, d, i) in l
  }

  /** free_cnt counts the arena's blocks on the free list; some block is in use, unless the arena is
      just being set up or taken down. */
  ghost predicate CountOk(free: seq<seq<nat>>, g: nat, a: Arena, changing: bool) {
    a.Small? ==> a.d < |free| && a.cnt == |FreeIn(free[a.d], g, a.d)| && (a.cnt < PerArena(a.d) || changing)
  }

  ghost predicate ListsOk(arenas: map<nat, Arena>, free: seq<seq<nat>>) {
    |free| == 7 && forall d {:trigger free[d]} :: 0 <= d < 7 ==> FreeOk(arenas, free[d], d)
  }

  ghost predicate BlocksOk(h: Heap) {
    forall x {:trigger LiveOk(h, x, h.live[x])} :: x in h.live ==> LiveOk(h, x, h.live[x])
  }

  ghost predicate ArenasOk(h: Heap) {
    forall g {:trigger Accounted(h, g, h.arenas[g])} :: g in h.arenas ==> Accounted(h, g, h.arenas[g])
  }

  ghost predicate CountsOk(arenas: map<nat, Arena>, free: seq<seq<nat>>, hole: Option<nat>) {
    forall g {:trigger CountOk(free, g, arenas[g], hole == Some(g))} :: g in arenas ==>
      CountOk(free, g, arenas[g], hole == Some(g))
  }

  /** `hole` is the arena being set up or taken down. */
  ghost predicate Inv(h: Heap, hole: Option<nat>) {
    && PagesOk(h.used, h.arenas) && ListsOk(h.arenas, h.free) && BlocksOk(h) && ArenasOk(h)
    && CountsOk(h.arenas, h.free, hole)
  }

  // ---------------------------------------------------------------- taking a block

  ghost predicate SameShape(a: map<nat, Arena>, b: map<nat, Arena>) {
    && a.Keys == b.Keys
    && forall g {:trigger a[g]} {:trigger b[g]} :: g in a ==>
         if a[g].Small? then b[g].Small? && b[g].d == a[g].d else b[g] == a[g]
  }

  lemma ShapePages(used: seq<bool>, a: map<nat, Arena>, b: map<nat, Arena>)
    requires PagesOk(used, a) && SameShape(a, b)
    ensures PagesOk(used, b)
  {
    assert forall g, k :: Covers(b, g, k) <==> Covers(a, g, k);
  }

  lemma ShapeBlocks(a: map<nat, Arena>, b: map<nat, Arena>)
    requires SameShape(a, b)
    ensures forall x, d, i :: IsBlock(b, x, d, i) <==> IsBlock(a, x, d, i)
    ensures forall x: nat :: IsBig(b, x) ==> IsBig(a, x) && a[x / 4096] == b[x / 4096]
    ensures forall x: nat :: IsBig(a, x) ==> IsBig(b, x) && a[x / 4096] == b[x / 4096]
  {
  }

  /** Changing one block between free and live changes the count of its own arena by one and no
      other. */
  lemma FreeInChanged(l: seq<nat>, l': seq<nat>, g: nat, d: nat, i: nat)
    requires d < 7 && i < PerArena(d) && Slot(g, d, i) !in l'
    requires forall x :: x in l <==> x in l' || x == Slot(g, d, i)
    ensures FreeIn(l', g, d) == FreeIn(l, g, d) - {i} && |FreeIn(l, g, d)| == |FreeIn(l', g, d)| + 1
    ensures forall g' :: g' != g ==> FreeIn(l', g', d) == FreeIn(l, g', d)
  {
    forall j {:trigger Slot(g, d, j)} | 0 <= j < PerArena(d) && j != i
      ensures Slot(g, d, j) != Slot(g, d, i)
    {
      SlotsApart(g, d, if i < j then i else j, if i < j then j else i);
    }
    assert FreeIn(l, g, d) == FreeIn(l', g, d) + {i};
    forall g' | g' != g
      ensures FreeIn(l', g', d) == FreeIn(l, g', d)
    {
      forall j {:trigger Slot(g', d, j)} | 0 <= j < PerArena(d)
        ensures Slot(g', d, j) != Slot(g, d, i)
      {
        SlotIn(g', d, j);
        SlotIn(g, d, i);
      }
    }
  }

  lemma FreeInBound(l: seq<nat>, g: nat, d: nat)
    ensures |FreeIn(l, g, d)| <= PerArena(d)
    ensures |FreeIn(l, g, d)| == PerArena(d) ==>
              forall i {:trigger Slot(g, d, i)} :: 0 <= i < PerArena(d) ==> Slot(g, d, i) in l
  {
    SubsetSize(FreeIn(l, g, d), UpTo(PerArena(d)));
    if i :| 0 <= i < PerArena(d) && Slot(g, d, i) !in l {
      SubsetSize(FreeIn(l, g, d), UpTo(PerArena(d)) - {i});
    }
  }

  /** Block x, block i of a descriptor-d arena, heads its free list. */
  ghost predicate Heads(h: Heap, x: nat, d: nat, i: nat) {
    d < 7 == |h.free| && h.free[d] != [] && x == h.free[d][0] && IsBlock(h.arenas, x, d, i)
  }

  lemma HeadBlock(h: Heap, hole: Option<nat>, d: nat) returns (i: nat)
    requires Inv(h, hole) && d < 7 && h.free[d] != []
    ensures Heads(h, h.free[d][0], d, i) && h.arenas[h.free[d][0] / 4096].cnt > 0
  {
    var x := h.free[d][0];
    var g := x / 4096;
    assert FreeOk(h.arenas, h.free[d], d) && x in h.free[d];
    i :| IsBlock(h.arenas, x, d, i);
    assert i in FreeIn(h.free[d], g, d);
    assert CountOk(h.free, g, h.arenas[g], hole == Some(g));
  }

  /** The state after a block has been taken off the head of free list d. */
  ghost function Popped(h: Heap, x: nat, d: nat, i: nat, size: nat): Heap
    requires Heads(h, x, d, i) && h.arenas[x / 4096].cnt > 0
  {
    var g := x / 4096;
    Heap(h.used, h.arenas[g := Small(d, h.arenas[g].cnt - 1)], h.free[d := h.free[d][1..]], h.live[x := size])
  }

  lemma PoppedLists(h: Heap, x: nat, d: nat, i: nat, size: nat)
    requires ListsOk(h.arenas, h.free) && Heads(h, x, d, i) && h.arenas[x / 4096].cnt > 0
    ensures var h' := Popped(h, x, d, i, size); SameShape(h.arenas, h'.arenas) && ListsOk(h'.arenas, h'.free)
  {
    var h' := Popped(h, x, d, i, size);
    ShapeBlocks(h.arenas, h'.arenas);
    forall e {:trigger h'.free[e]} | 0 <= e < 7
      ensures FreeOk(h'.arenas, h'.free[e], e)
    {
      assert FreeOk(h.arenas, h.free[e], e);
      if e == d {
        PoppedKeeps(h.free[d]);
      }
    }
  }

  lemma PoppedBlocks(h: Heap, x: nat, d: nat, i: nat, size: nat)
    requires ListsOk(h.arenas, h.free) && BlocksOk(h) && Heads(h, x, d, i)
    requires h.arenas[x / 4096].cnt > 0 && size <= BlockSize(d)
    ensures BlocksOk(Popped(h, x, d, i, size))
  {
    var h' := Popped(h, x, d, i, size);
    ShapeBlocks(h.arenas, h'.arenas);
    assert FreeOk(h.arenas, h.free[d], d);
    PoppedKeeps(h.free[d]);
    forall y {:trigger LiveOk(h', y, h'.live[y])} | y in h'.live
      ensures LiveOk(h', y, h'.live[y])
    {
      if y == x {
        assert IsBlock(h'.arenas, x, d, i);
      } else {
        assert LiveOk(h, y, h.live[y]);
        if !IsBig(h.arenas, y) {
          var e: nat, j: nat :|
          IsBlock(h.arenas, y, e, j) && h.live[y] <= BlockSize(e) && e < |h.free| && y !in h.free[e];
          assert IsBlock(h'.arenas, y, e, j);
        }
      }
    }
  }

  lemma PoppedArenas(h: Heap, x: nat, d: nat, i: nat, size: nat)
    requires ListsOk(h.arenas, h.free) && ArenasOk(h) && Heads(h, x, d, i) && h.arenas[x / 4096].cnt > 0
    ensures ArenasOk(Popped(h, x, d, i, size))
  {
    var h' := Popped(h, x, d, i, size);
    assert FreeOk(h.arenas, h.free[d], d);
    PoppedKeeps(h.free[d]);
    forall g {:trigger Accounted(h', g, h'.arenas[g])} | g in h'.arenas
      ensures Accounted(h', g, h'.arenas[g])
    {
      assert Accounted(h, g, h.arenas[g]);
    }
  }

  lemma PoppedCounts(h: Heap, hole: Option<nat>, x: nat, d: nat, i: nat, size: nat)
    requires ListsOk(h.arenas, h.free) && CountsOk(h.arenas, h.free, hole)
    requires Heads(h, x, d, i) && h.arenas[x / 4096].cnt > 0
    requires hole.None? || hole == Some(x / 4096)
    ensures var h' := Popped(h, x, d, i, size); CountsOk(h'.arenas, h'.free, None)
  {
    var h', g := Popped(h, x, d, i, size), x / 4096;
    assert FreeOk(h.arenas, h.free[d], d);
    PoppedKeeps(h.free[d]);
    FreeInChanged(h.free[d], h'.free[d], g, d, i);
    FreeInBound(h.free[d], g, d);
    forall k {:trigger CountOk(h'.free, k, h'.arenas[k], None == Some(k))} | k in h'.arenas
      ensures CountOk(h'.free, k, h'.arenas[k], None == Some(k))
    {
      assert CountOk(h.free, k, h.arenas[k], hole == Some(k));
    }
  }

  lemma PoppedOk(h: Heap, hole: Option<nat>, x: nat, d: nat, i: nat, size: nat)
    requires Inv(h, hole) && Heads(h, x, d, i) && h.arenas[x / 4096].cnt > 0 && size <= BlockSize(d)
    requires hole.None? || hole == Some(x / 4096)
    ensures Inv(Popped(h, x, d, i, size), None)
  {
    PoppedLists(h, x, d, i, size);
    ShapePages(h.used, h.arenas, Popped(h, x, d, i, size).arenas);
    PoppedBlocks(h, x, d, i, size);
    PoppedArenas(h, x, d, i, size);
    PoppedCounts(h, hole, x, d, i, size);
  }

  // ---------------------------------------------------------------- giving a block back

  /** x is live, and block i of a descriptor-d arena. */
  ghost predicate Holds(h: Heap, x: nat, d: nat, i: nat) {
    x in h.live && d < 7 == |h.free| && IsBlock(h.arenas, x, d, i) && x !in h.free[d]
  }

  /** The state after block x has been put on the head of its free list. */
  ghost function Pushed(h: Heap, x: nat, d: nat, i: nat): Heap
    requires Holds(h, x, d, i)
  {
    var g := x / 4096;
    Heap(h.used, h.arenas[g := Small(d, h.arenas[g].cnt + 1)], h.free[d := [x] + h.free[d]], h.live - {x})
  }

  lemma PushedLists(h: Heap, x: nat, d: nat, i: nat)
    requires ListsOk(h.arenas, h.free) && Holds(h, x, d, i)
    ensures var h' := Pushed(h, x, d, i); SameShape(h.arenas, h'.arenas) && ListsOk(h'.arenas, h'.free)
  {
    var h' := Pushed(h, x, d, i);
    ShapeBlocks(h.arenas, h'.arenas);
    forall e {:trigger h'.free[e]} | 0 <= e < 7
      ensures FreeOk(h'.arenas, h'.free[e], e)
    {
      assert FreeOk(h.arenas, h.free[e], e);
      assert IsBlock(h'.arenas, x, d, i);
    }
  }

  lemma PushedBlocks(h: Heap, x: nat, d: nat, i: nat)
    requires BlocksOk(h) && Holds(h, x, d, i)
    ensures BlocksOk(Pushed(h, x, d, i))
  {
    var h' := Pushed(h, x, d, i);
    ShapeBlocks(h.arenas, h'.arenas);
    forall y {:trigger LiveOk(h', y, h'.live[y])} | y in h'.live
      ensures LiveOk(h', y, h'.live[y])
    {
      assert LiveOk(h, y, h.live[y]);
      if !IsBig(h.arenas, y) {
        var e: nat, j: nat :|
          IsBlock(h.arenas, y, e, j) && h.live[y] <= BlockSize(e) && e < |h.free| && y !in h.free[e];
        assert IsBlock(h'.arenas, y, e, j);
      }
    }
  }

  lemma PushedArenas(h: Heap, x: nat, d: nat, i: nat)
    requires ArenasOk(h) && Holds(h, x, d, i)
    ensures ArenasOk(Pushed(h, x, d, i))
  {
    var h' := Pushed(h, x, d, i);
    forall g {:trigger Accounted(h', g, h'.arenas[g])} | g in h'.arenas
      ensures Accounted(h', g, h'.arenas[g])
    {
      assert Accounted(h, g, h.arenas[g]);
      if h.arenas[g].Small? {
        var e := h.arenas[g].d;
        forall j {:trigger Slot(g, e, j)} | 0 <= j < PerArena(e)
          ensures Slot(g, e, j) in h'.free[e] || Slot(g, e, j) in h'.live
        {
          SlotIn(g, e, j);
        }
      }
    }
  }

  lemma PushedCounts(h: Heap, x: nat, d: nat, i: nat)
    requires CountsOk(h.arenas, h.free, None) && Holds(h, x, d, i)
    ensures var h' := Pushed(h, x, d, i); CountsOk(h'.arenas, h'.free, Some(x / 4096))
  {
    var h', g := Pushed(h, x, d, i), x / 4096;
    FreeInChanged(h'.free[d], h.free[d], g, d, i);
    forall k {:trigger CountOk(h'.free, k, h'.arenas[k], Some(g) == Some(k))} | k in h'.arenas
      ensures CountOk(h'.free, k, h'.arenas[k], Some(g) == Some(k))
    {
      assert CountOk(h.free, k, h.arenas[k], None == Some(k));
    }
  }

  lemma PushedOk(h: Heap, x: nat, d: nat, i: nat)
    requires Inv(h, None) && Holds(h, x, d, i)
    ensures Inv(Pushed(h, x, d, i), Some(x / 4096))
  {
    PushedLists(h, x, d, i);
    ShapePages(h.used, h.arenas, Pushed(h, x, d, i).arenas);
    PushedBlocks(h, x, d, i);
    PushedArenas(h, x, d, i);
    PushedCounts(h, x, d, i);
  }

  /** l without the blocks on page g. */
  function OffPage(l: seq<nat>, g: nat): (r: seq<nat>)
    ensures forall x :: x in r <==> x in l && x / 4096 != g
  {
    if l == [] then []
    else
      assert forall x :: x in l <==> x == l[0] || x in l[1..];
      if l[0] / 4096 == g then OffPage(l[1..], g) else [l[0]] + OffPage(l[1..], g)
  }

  lemma {:induction false} OffPageDistinct(l: seq<nat>, g: nat)
    requires Distinct(l)
    ensures Distinct(OffPage(l, g))
  {
    if l != [] {
      PoppedKeeps(l);
      OffPageDistinct(l[1..], g);
    }
  }

  /** Arena g has all its blocks on the free list. */
  ghost predicate Idle(h: Heap, g: nat, d: nat) {
    Inv(h, Some(g)) && g in h.arenas && h.arenas[g] == Small(d, PerArena(d)) && d < 7
  }

  /** The state after an idle arena has gone back to the page allocator. */
  ghost function Removed(h: Heap, g: nat, d: nat): Heap
    requires Idle(h, g, d)
  {
    assert Covers(h.arenas, g, g);
    Heap(h.used[g := false], h.arenas - {g}, h.free[d := OffPage(h.free[d], g)], h.live)
  }

  lemma RemovedPages(used: seq<bool>, arenas: map<nat, Arena>, g: nat)
    requires PagesOk(used, arenas) && g in arenas && arenas[g].Small?
    ensures Covers(arenas, g, g) && g < |used| && PagesOk(used[g := false], arenas - {g})
  {
    assert Covers(arenas, g, g);
    var a := arenas - {g};
    assert forall k, j :: Covers(a, k, j) <==> Covers(arenas, k, j) && k != g;
    var used' := used[g := false];
    forall j | 0 <= j < |used'| && used'[j]
      ensures exists k :: Covers(a, k, j)
    {
      var k :| Covers(arenas, k, j);
      assert Covers(a, k, j);
    }
  }

  lemma IdleHasNoLive(h: Heap, g: nat, d: nat, x: nat)
    requires Idle(h, g, d) && x in h.live
    ensures x / 4096 != g
  {
    assert LiveOk(h, x, h.live[x]) && CountOk(h.free, g, h.arenas[g], Some(g) == Some(g));
    FreeInBound(h.free[d], g, d);
  }

  lemma RemovedLists(h: Heap, g: nat, d: nat)
    requires Idle(h, g, d)
    ensures var h' := Removed(h, g, d); ListsOk(h'.arenas, h'.free)
  {
    var h' := Removed(h, g, d);
    forall e {:trigger h'.free[e]} | 0 <= e < 7
      ensures FreeOk(h'.arenas, h'.free[e], e)
    {
      assert FreeOk(h.arenas, h.free[e], e);
      OffPageDistinct(h.free[d], g);
      forall x {:trigger x in h'.free[e]} | x in h'.free[e]
        ensures exists i :: IsBlock(h'.arenas, x, e, i)
      {
        assert x in h.free[e];
        var i :| IsBlock(h.arenas, x, e, i);
        assert IsBlock(h'.arenas, x, e, i);
      }
    }
  }

  lemma RemovedBlocks(h: Heap, g: nat, d: nat)
    requires Idle(h, g, d)
    ensures BlocksOk(Removed(h, g, d))
  {
    var h' := Removed(h, g, d);
    forall x {:trigger LiveOk(h', x, h'.live[x])} | x in h'.live
      ensures LiveOk(h', x, h'.live[x])
    {
      IdleHasNoLive(h, g, d, x);
      assert LiveOk(h, x, h.live[x]);
      if !IsBig(h.arenas, x) {
        var e: nat, j: nat :|
          IsBlock(h.arenas, x, e, j) && h.live[x] <= BlockSize(e) && e < |h.free| && x !in h.free[e];
        assert IsBlock(h'.arenas, x, e, j);
      }
    }
  }

  lemma RemovedArenas(h: Heap, g: nat, d: nat)
    requires Idle(h, g, d)
    ensures var h' := Removed(h, g, d); ArenasOk(h') && CountsOk(h'.arenas, h'.free, None)
  {
    var h' := Removed(h, g, d);
    forall k | k in h'.arenas
      ensures Accounted(h', k, h'.arenas[k]) && CountOk(h'.free, k, h'.arenas[k], None == Some(k))
    {
      assert Accounted(h, k, h.arenas[k]) && CountOk(h.free, k, h.arenas[k], Some(g) == Some(k));
      if h.arenas[k].Small? {
        var e := h.arenas[k].d;
        forall i {:trigger Slot(k, e, i)} | 0 <= i < PerArena(e)
          ensures Slot(k, e, i) in h'.free[e] <==> Slot(k, e, i) in h.free[e]
        {
          SlotIn(k, e, i);
        }
        assert FreeIn(h'.free[e], k, e) == FreeIn(h.free[e], k, e);
      }
    }
  }

  lemma RemovedOk(h: Heap, g: nat, d: nat)
    requires Idle(h, g, d)
    ensures Inv(Removed(h, g, d), None)
  {
    RemovedPages(h.used, h.arenas, g);
    RemovedLists(h, g, d);
    RemovedBlocks(h, g, d);
    RemovedArenas(h, g, d);
  }

  // ---------------------------------------------------------------- new arenas

  ghost function Slots(g: nat, d: nat, n: nat): (l: seq<nat>)
    ensures |l| == n && forall i :: 0 <= i < n ==> l[i] == Slot(g, d, i)
  {
    seq(n, i requires 0 <= i < n => Slot(g, d, i))
  }

  lemma SlotsFacts(g: nat, d: nat)
    requires d < 7
    ensures Distinct(Slots(g, d, PerArena(d))) && forall x :: x in Slots(g, d, PerArena(d)) ==> x / 4096 == g
    ensures |FreeIn(Slots(g, d, PerArena(d)), g, d)| == PerArena(d)
  {
    var l := Slots(g, d, PerArena(d));
    forall i, j | 0 <= i < j < |l|
      ensures l[i] != l[j]
    {
      SlotsApart(g, d, i, j);
    }
    forall i {:trigger Slot(g, d, i)} | 0 <= i < |l|
      ensures l[i] / 4096 == g && l[i] == Slot(g, d, i)
    {
      SlotIn(g, d, i);
    }
    assert FreeIn(l, g, d) == UpTo(PerArena(d));
  }

  /** The state after a free page g has become an arena of descriptor d, whose list was empty. */
  ghost function AddedSmall(h: Heap, g: nat, d: nat): Heap
    requires g < |h.used| && d < 7 == |h.free|
  {
    Heap(h.used[g := true], h.arenas[g := Small(d, PerArena(d))], h.free[d := Slots(g, d, PerArena(d))], h.live)
  }

  ghost predicate Ready(h: Heap, g: nat, d: nat) {
    Inv(h, None) && g < |h.used| && !h.used[g] && d < 7 && h.free[d] == []
  }

  lemma PageUnused(used: seq<bool>, arenas: map<nat, Arena>, g: nat)
    requires PagesOk(used, arenas) && g < |used| && !used[g]
    ensures g !in arenas
  {
    assert g in arenas ==> Covers(arenas, g, g);
  }

  lemma AddedPages(used: seq<bool>, arenas: map<nat, Arena>, g: nat, a: Arena)
    requires PagesOk(used, arenas) && Extent(a) >= 1 && g + Extent(a) <= |used| && AllAre(used, g, Extent(a), false)
    ensures PagesOk(Filled(used, g, Extent(a), true), arenas[g := a])
  {
    PageUnused(used, arenas, g);
    var b, used' := arenas[g := a], Filled(used, g, Extent(a), true);
    assert forall k: nat, j: nat ::
        Covers(b, k, j) <==> if k == g then g <= j < g + Extent(a) else Covers(arenas, k, j);
    forall j | 0 <= j < |used'| && used'[j]
      ensures exists k :: Covers(b, k, j)
    {
      if g <= j < g + Extent(a) {
        assert Covers(b, g, j);
      } else {
        var k :| Covers(arenas, k, j);
        assert Covers(b, k, j);
      }
    }
  }

  lemma AddedSmallLists(h: Heap, g: nat, d: nat)
    requires Ready(h, g, d)
    ensures var h' := AddedSmall(h, g, d); ListsOk(h'.arenas, h'.free)
  {
    var h' := AddedSmall(h, g, d);
    PageUnused(h.used, h.arenas, g);
    SlotsFacts(g, d);
    forall e {:trigger h'.free[e]} | 0 <= e < 7
      ensures FreeOk(h'.arenas, h'.free[e], e)
    {
      assert FreeOk(h.arenas, h.free[e], e);
      forall x {:trigger x in h'.free[e]} | x in h'.free[e]
        ensures exists i :: IsBlock(h'.arenas, x, e, i)
      {
        if e == d {
          var i :| 0 <= i < PerArena(d) && h'.free[d][i] == x;
          assert IsBlock(h'.arenas, x, d, i);
        } else {
          var i :| IsBlock(h.arenas, x, e, i);
          assert IsBlock(h'.arenas, x, e, i);
        }
      }
    }
  }

  lemma AddedSmallBlocks(h: Heap, g: nat, d: nat)
    requires Ready(h, g, d)
    ensures BlocksOk(AddedSmall(h, g, d))
  {
    var h' := AddedSmall(h, g, d);
    PageUnused(h.used, h.arenas, g);
    SlotsFacts(g, d);
    forall x {:trigger LiveOk(h', x, h'.live[x])} | x in h'.live
      ensures LiveOk(h', x, h'.live[x])
    {
      assert LiveOk(h, x, h.live[x]);
      if !IsBig(h.arenas, x) {
        var e: nat, j: nat :|
          IsBlock(h.arenas, x, e, j) && h.live[x] <= BlockSize(e) && e < |h.free| && x !in h.free[e];
        assert IsBlock(h'.arenas, x, e, j);
      }
    }
  }

  lemma AddedSmallArenas(h: Heap, g: nat, d: nat)
    requires Ready(h, g, d)
    ensures var h' := AddedSmall(h, g, d); ArenasOk(h') && CountsOk(h'.arenas, h'.free, Some(g))
  {
    var h' := AddedSmall(h, g, d);
    PageUnused(h.used, h.arenas, g);
    SlotsFacts(g, d);
    forall k | k in h'.arenas
      ensures Accounted(h', k, h'.arenas[k]) && CountOk(h'.free, k, h'.arenas[k], Some(g) == Some(k))
    {
      if k == g {
        assert forall i {:trigger Slot(g, d, i)} :: 0 <= i < PerArena(d) ==> h'.free[d][i] == Slot(g, d, i);
      } else {
        assert Accounted(h, k, h.arenas[k]) && CountOk(h.free, k, h.arenas[k], None == Some(k));
        if h.arenas[k].Small? && h.arenas[k].d == d {
          OtherPage(h'.free[d], g, k, d);
          assert FreeIn(h.free[d], k, d) == {};
        }
      }
    }
  }

  lemma OtherPage(l: seq<nat>, g: nat, k: nat, d: nat)
    requires d < 7 && k != g && forall x :: x in l ==> x / 4096 == g
    ensures FreeIn(l, k, d) == {}
  {
    forall i {:trigger Slot(k, d, i)} | 0 <= i < PerArena(d)
      ensures Slot(k, d, i) !in l
    {
      SlotIn(k, d, i);
    }
  }

  lemma AddedSmallOk(h: Heap, g: nat, d: nat)
    requires Ready(h, g, d)
    ensures Inv(AddedSmall(h, g, d), Some(g))
  {
    var a := Small(d, PerArena(d));
    assert AllAre(h.used, g, 1, false);
    AddedPages(h.used, h.arenas, g, a);
    assert Filled(h.used, g, 1, true) == h.used[g := true];
    AddedSmallLists(h, g, d);
    AddedSmallBlocks(h, g, d);
    AddedSmallArenas(h, g, d);
  }

  ghost function AddedBig(h: Heap, g: nat, n: nat, size: nat): Heap
    requires g + n <= |h.used|
  {
    Heap(Filled(h.used, g, n, true), h.arenas[g := Big(n)], h.free, h.live[4096 * g + 12 := size])
  }

  lemma AddedBigOk(h: Heap, g: nat, n: nat, size: nat)
    requires Inv(h, None) && n >= 1 && g + n <= |h.used| && AllAre(h.used, g, n, false) && size + 12 <= 4096 * n
    ensures Inv(AddedBig(h, g, n, size), None) && 4096 * g + 12 !in h.live
  {
    var h' := AddedBig(h, g, n, size);
    PageUnused(h.used, h.arenas, g);
    AddedPages(h.used, h.arenas, g, Big(n));
    var x0 := 4096 * g + 12;
    assert x0 / 4096 == g && IsBig(h'.arenas, x0);
    assert x0 in h.live ==> LiveOk(h, x0, h.live[x0]);
    forall d {:trigger h'.free[d]} | 0 <= d < 7
      ensures FreeOk(h'.arenas, h'.free[d], d)
    {
      assert FreeOk(h.arenas, h.free[d], d);
      forall x {:trigger x in h'.free[d]} | x in h'.free[d]
        ensures exists i :: IsBlock(h'.arenas, x, d, i)
      {
        var i :| IsBlock(h.arenas, x, d, i);
        assert IsBlock(h'.arenas, x, d, i);
      }
    }
    forall x {:trigger LiveOk(h', x, h'.live[x])} | x in h'.live
      ensures LiveOk(h', x, h'.live[x])
    {
      if x != x0 {
        KeptLive(h, h', x);
      }
    }
    forall k | k in h'.arenas
      ensures Accounted(h', k, h'.arenas[k]) && CountOk(h'.free, k, h'.arenas[k], None == Some(k))
    {
      assert k != g ==> Accounted(h, k, h.arenas[k]) && CountOk(h.free, k, h.arenas[k], None == Some(k));
    }
  }

  /** A live block is unaffected when its own arena and the free lists stay. */
  lemma KeptLive(h: Heap, h': Heap, x: nat)
    requires x in h.live && LiveOk(h, x, h.live[x]) && h'.free == h.free && x in h'.live && h'.live[x] == h.live[x]
    requires x / 4096 in h'.arenas && x / 4096 in h.arenas && h'.arenas[x / 4096] == h.arenas[x / 4096]
    ensures LiveOk(h', x, h'.live[x])
  {
    if !IsBig(h.arenas, x) {
      var e: nat, j: nat :|
          IsBlock(h.arenas, x, e, j) && h.live[x] <= BlockSize(e) && e < |h.free| && x !in h.free[e];
      assert IsBlock(h'.arenas, x, e, j);
    }
  }

  ghost function RemovedBig(h: Heap, x: nat): Heap
    requires Inv(h, None) && IsBig(h.arenas, x)
  {
    var g := x / 4096;
    Heap(Filled(h.used, g, h.arenas[g].pages, false), h.arenas - {g}, h.free, h.live - {x})
  }

  lemma RemovedBigPages(used: seq<bool>, arenas: map<nat, Arena>, g: nat)
    requires PagesOk(used, arenas) && g in arenas && g + Extent(arenas[g]) <= |used|
    ensures PagesOk(Filled(used, g, Extent(arenas[g]), false), arenas - {g})
  {
    var a, used' := arenas - {g}, Filled(used, g, Extent(arenas[g]), false);
    assert forall k: nat, j: nat :: Covers(a, k, j) <==> Covers(arenas, k, j) && k != g;
    forall k: nat, j: nat | Covers(a, k, j)
      ensures used'[j]
    {
      assert !Covers(arenas, g, j);
    }
    forall j | 0 <= j < |used'| && used'[j]
      ensures exists k :: Covers(a, k, j)
    {
      var k :| Covers(arenas, k, j);
      assert Covers(a, k, j);
    }
  }

  lemma OneBlockOfBig(h: Heap, g: nat, x: nat)
    requires x in h.live && LiveOk(h, x, h.live[x]) && g in h.arenas && h.arenas[g].Big? && x / 4096 == g
    ensures x == 4096 * g + 12
  {
  }

  lemma RemovedBigOk(h: Heap, x: nat)
    requires Inv(h, None) && x in h.live && IsBig(h.arenas, x)
    ensures Inv(RemovedBig(h, x), None)
  {
    var h', g := RemovedBig(h, x), x / 4096;
    RemovedBigPages(h.used, h.arenas, g);
    forall d {:trigger h'.free[d]} | 0 <= d < 7
      ensures FreeOk(h'.arenas, h'.free[d], d)
    {
      assert FreeOk(h.arenas, h.free[d], d);
      forall y {:trigger y in h'.free[d]} | y in h'.free[d]
        ensures exists i :: IsBlock(h'.arenas, y, d, i)
      {
        var i :| IsBlock(h.arenas, y, d, i);
        assert IsBlock(h'.arenas, y, d, i);
      }
    }
    forall y {:trigger LiveOk(h', y, h'.live[y])} | y in h'.live
      ensures LiveOk(h', y, h'.live[y])
    {
      assert LiveOk(h, y, h.live[y]);
      if y / 4096 == g {
        OneBlockOfBig(h, g, y);
      } else {
        KeptLive(h, h', y);
      }
    }
    RemovedBigArenas(h, x);
  }

  lemma RemovedBigArenas(h: Heap, x: nat)
    requires Inv(h, None) && IsBig(h.arenas, x)
    ensures var h' := RemovedBig(h, x); ArenasOk(h') && CountsOk(h'.arenas, h'.free, None)
  {
    var h' := RemovedBig(h, x);
    forall k | k in h'.arenas
      ensures Accounted(h', k, h'.arenas[k]) && CountOk(h'.free, k, h'.arenas[k], None == Some(k))
    {
      assert Accounted(h, k, h.arenas[k]) && CountOk(h.free, k, h.arenas[k], None == Some(k));
      if h.arenas[k].Small? {
        var e := h.arenas[k].d;
        forall i {:trigger Slot(k, e, i)} | 0 <= i < PerArena(e)
          ensures Slot(k, e, i) != x
        {
          SlotIn(k, e, i);
        }
      }
    }
  }

  // ---------------------------------------------------------------- theorems

  /** A live block lies within its arena, past the header. */
  lemma LiveInside(h: Heap, x: nat)
    requires Inv(h, None) && x in h.live
    ensures var g := x / 4096;
            g in h.arenas && 4096 * g + 12 <= x && x + h.live[x] <= 4096 * (g + Extent(h.arenas[g]))
  {
    assert LiveOk(h, x, h.live[x]);
    if !IsBig(h.arenas, x) {
      var d: nat, i: nat :| IsBlock(h.arenas, x, d, i) && h.live[x] <= BlockSize(d) && d < |h.free| && x !in h.free[d];
      SlotIn(x / 4096, d, i);
    }
  }

  /** Live blocks never overlap. */
  lemma LiveDisjoint(h: Heap, x: nat, y: nat)
    requires Inv(h, None) && x in h.live && y in h.live && x < y
    ensures x + h.live[x] <= y
  {
    LiveInside(h, x);
    LiveInside(h, y);
    assert LiveOk(h, x, h.live[x]) && LiveOk(h, y, h.live[y]);
    var g, k := x / 4096, y / 4096;
    if g == k {
      SameArenaDisjoint(h, x, y);
    } else if 4096 * k + 12 < x + h.live[x] {
      assert Covers(h.arenas, g, k) && Covers(h.arenas, k, k);
    }
  }

  lemma SameArenaDisjoint(h: Heap, x: nat, y: nat)
    requires x in h.live && y in h.live && LiveOk(h, x, h.live[x])
    requires LiveOk(h, y, h.live[y]) && x < y && x / 4096 == y / 4096
    ensures x + h.live[x] <= y
  {
    var d: nat, i: nat :| IsBlock(h.arenas, x, d, i) && h.live[x] <= BlockSize(d) && d < |h.free| && x !in h.free[d];
    var e: nat, j: nat :|
          IsBlock(h.arenas, y, e, j) && h.live[y] <= BlockSize(e) && e < |h.free| && y !in h.free[e];
    if j <= i {
      MulMono(BlockSize(d), j, i);
    } else {
      SlotsApart(x / 4096, d, i, j);
    }
  }

  /** The allocator's own writes to free blocks stay clear of live ones. */
  lemma FreeLiveDisjoint(h: Heap, d: nat, f: nat, x: nat)
    requires Inv(h, None) && d < 7 && f in h.free[d] && x in h.live
    ensures f + BlockSize(d) <= x || x + h.live[x] <= f
  {
    assert FreeOk(h.arenas, h.free[d], d);
    var i: nat :| IsBlock(h.arenas, f, d, i);
    SlotIn(f / 4096, d, i);
    LiveInside(h, x);
    assert LiveOk(h, x, h.live[x]);
    var g, k := f / 4096, x / 4096;
    if g == k {
      var e: nat, j: nat :|
          IsBlock(h.arenas, x, e, j) && h.live[x] <= BlockSize(e) && e < |h.free| && x !in h.free[e];
      if i < j {
        SlotsApart(g, d, i, j);
      } else if j < i {
        SlotsApart(g, d, j, i);
      }
    } else if k < g && 4096 * g < x + h.live[x] {
      assert Covers(h.arenas, k, g) && Covers(h.arenas, g, g);
    }
  }

  /** When everything has been freed, every page is back. */
  lemma AllFreed(h: Heap)
    requires Inv(h, None) && h.live == map[]
    ensures h.arenas == map[] && forall k :: 0 <= k < |h.used| ==> !h.used[k]
    ensures forall d :: 0 <= d < 7 ==> h.free[d] == []
  {
    forall g | g in h.arenas
      ensures false
    {
      assert Accounted(h, g, h.arenas[g]) && CountOk(h.free, g, h.arenas[g], None == Some(g));
      if h.arenas[g].Small? {
        AllSlotsFree(h.free[h.arenas[g].d], g, h.arenas[g].d);
      }
    }
    forall d | 0 <= d < 7
      ensures h.free[d] == []
    {
      if h.free[d] != [] {
        HeadHasArena(h.arenas, h.free[d], d);
      }
    }
  }

  lemma HeadHasArena(arenas: map<nat, Arena>, l: seq<nat>, d: nat)
    requires FreeOk(arenas, l, d) && l != []
    ensures l[0] / 4096 in arenas
  {
    assert l[0] in l;
  }

  lemma AllSlotsFree(l: seq<nat>, g: nat, d: nat)
    requires forall i {:trigger Slot(g, d, i)} :: 0 <= i < PerArena(d) ==> Slot(g, d, i) in l
    ensures |FreeIn(l, g, d)| == PerArena(d)
  {
    assert FreeIn(l, g, d) == UpTo(PerArena(d));
  }

  // ---------------------------------------------------------------- the allocator

  ghost predicate Among(x: nat, g: nat, d: nat, n: nat) { exists i :: 0 <= i < n && x == Slot(g, d, i) }

  /** l without the first n blocks of arena g. */
  ghost function OffSlots(l: seq<nat>, g: nat, d: nat, n: nat): seq<nat> {
    if l == [] then []
    else if Among(l[0], g, d, n) then OffSlots(l[1..], g, d, n)
    else [l[0]] + OffSlots(l[1..], g, d, n)
  }

  lemma {:induction false} OffNone(l: seq<nat>, g: nat, d: nat)
    ensures OffSlots(l, g, d, 0) == l
  {
    if l != [] {
      OffNone(l[1..], g, d);
    }
  }

  lemma {:induction false} OffOneMore(l: seq<nat>, g: nat, d: nat, n: nat)
    ensures Without(OffSlots(l, g, d, n), Slot(g, d, n)) == OffSlots(l, g, d, n + 1)
  {
    if l != [] {
      NotAmongEarlier(g, d, n);
      OffOneMore(l[1..], g, d, n);
      var rest := OffSlots(l[1..], g, d, n);
      assert Among(l[0], g, d, n + 1) <==> Among(l[0], g, d, n) || l[0] == Slot(g, d, n);
      assert ([l[0]] + rest)[1..] == rest;
    }
  }

  lemma NotAmongEarlier(g: nat, d: nat, n: nat)
    ensures !Among(Slot(g, d, n), g, d, n)
  {
    forall i {:trigger Slot(g, d, i)} | 0 <= i < n
      ensures Slot(g, d, i) != Slot(g, d, n)
    {
      SlotsApart(g, d, i, n);
    }
  }

  /** Removing an arena's blocks one by one removes all blocks on its page. */
  lemma {:induction false} OffAll(arenas: map<nat, Arena>, l: seq<nat>, g: nat, d: nat)
    requires d < 7 && FreeOk(arenas, l, d)
    ensures OffSlots(l, g, d, PerArena(d)) == OffPage(l, g)
  {
    if l != [] {
      PoppedKeeps(l);
      OffAll(arenas, l[1..], g, d);
      assert l[0] in l;
      var i :| IsBlock(arenas, l[0], d, i);
      if l[0] / 4096 == g {
        assert Among(l[0], g, d, PerArena(d));
      } else if Among(l[0], g, d, PerArena(d)) {
        var j :| 0 <= j < PerArena(d) && l[0] == Slot(g, d, j);
        SlotIn(g, d, j);
      }
    }
  }

  datatype Desc = Desc(blockSize: nat, blocksPerArena: nat)

  ghost predicate DescsOk(descs: seq<Desc>) {
    |descs| == 7 && forall d :: 0 <= d < 7 ==> descs[d] == Desc(BlockSize(d), PerArena(d))
  }

  /** The descriptor malloc chooses: the smallest whose blocks are large enough. */
  ghost predicate Fits(d: nat, size: nat) { d < 7 && size <= BlockSize(d) && (d > 0 ==> BlockSize(d - 1) < size) }

  ghost predicate AllUsed(v: seq<bool>) { forall k :: 0 <= k < |v| ==> v[k] }

  lemma OnePage(v: seq<bool>, r: Option<nat>)
    requires IsFirstGroup(v, 0, 1, false, r)
    ensures r.None? <==> AllUsed(v)
    ensures r.Some? ==> !v[r.value] && Filled(v, r.value, 1, true) == v[r.value := true]
  {
    forall k | 0 <= k < |v|
      ensures v[k] <==> !AllAre(v, k, 1, false)
    {
    }
    if r.Some? {
      assert !v[r.value];
    }
  }

  lemma {:induction false} SizesGrow(d: nat, e: nat)
    requires d <= e
    ensures BlockSize(d) <= BlockSize(e)
  {
    if d < e {
      SizesGrow(d, e - 1);
    }
  }

  lemma OnlyFit(d: nat, size: nat)
    requires Fits(d, size)
    ensures size <= 1024 && forall e: nat :: Fits(e, size) ==> e == d
  {
    Sizes(d);
    forall e: nat | Fits(e, size)
      ensures e == d
    {
      if e < d {
        SizesGrow(e, d - 1);
      } else if d < e {
        SizesGrow(d, e - 1);
      }
    }
  }

  /** The pages for a big block and its header, rounded up in 32-bit arithmetic. */
  function PageCount(size: nat): nat { (size + 12 + 4095) % 0x1_0000_0000 / 4096 }

  /** What a block is good for: the size asked for, unless the page count wrapped around. */
  function Granted(size: nat): nat {
    if size <= 1024 || size + 12 <= 4096 * PageCount(size) || PageCount(size) == 0 then size
    else 4096 * PageCount(size) - 12
  }

  /** Just below 2^32 the page count wraps to 0 and the request is refused; the last eleven sizes wrap
      to one page and are granted too little. */
  lemma PageCountWraps(size: nat)
    requires 1024 < size < 0x1_0000_0000
    ensures PageCount(size) == 0 <==> 0xFFFF_EFF5 <= size <= 0xFFFF_FFF4
    ensures Granted(size) == size <==> size <= 0xFFFF_FFF4
    ensures size > 0xFFFF_FFF4 ==> PageCount(size) == 1 && Granted(size) == 4084
  {
    var x := size + 12 + 4095;
    if x >= 0x1_0000_0000 {
      assert x % 0x1_0000_0000 == x - 0x1_0000_0000;
    } else {
      assert x % 0x1_0000_0000 == x;
    }
  }

  /** malloc answers NULL: for a zero size or page count, or for want of consecutive free pages, or
      for want of both a free block of the right size and a free page. */
  ghost predicate Refuses(h: Heap, size: nat) {
    || size == 0
    || (size > 1024 && (PageCount(size) == 0 || IsFirstGroup(h.used, 0, PageCount(size), false, None)))
    || (size <= 1024 && AllUsed(h.used) && forall d: nat :: Fits(d, size) ==> d < |h.free| && h.free[d] == [])
  }

  /** a * b as calloc computes it. */
  function Product(a: nat, b: nat): (r: nat)
    ensures r < 0x1_0000_0000
  {
    a * b % 0x1_0000_0000
  }

  /** The overflow test of calloc. */
  predicate CallocRejects(a: nat, b: nat) { Product(a, b) < a || Product(a, b) < b }

  /** The test lets some products through that wrapped, so calloc's block holds a * b bytes exactly
      when the true product is one that malloc can grant. */
  lemma CallocGrants(a: nat, b: nat)
    ensures Granted(Product(a, b)) == a * b <==> a * b <= 0xFFFF_FFF4
  {
    var x, r := a * b, Product(a, b);
    WrappedIsLess(x);
    if r > 1024 {
      PageCountWraps(r);
    }
  }

  lemma WrappedIsLess(x: nat)
    ensures x % 0x1_0000_0000 == x <==> x < 0x1_0000_0000
    ensures x % 0x1_0000_0000 <= x
  {
  }

  /** 65537 times 65537 wraps to 131073, which the test lets through. */
  lemma CallocMissesOverflow()
    ensures 65537 * 65537 >= 0x1_0000_0000 && !CallocRejects(65537, 65537)
    ensures Granted(Product(65537, 65537)) < 65537 * 65537
  {
    assert 65537 * 65537 % 0x1_0000_0000 == 131073;
  }

  class Allocator {
    const pool: Bitmap
    const descs: seq<Desc>
    var arenas: map<nat, Arena>
    var free: seq<seq<nat>>
    ghost var live: map<nat, nat>

    ghost function State(): Heap
      requires pool.Valid()
      reads this, pool.bits
    {
      Heap(pool.View(), arenas, free, live)
    }

    ghost predicate Valid()
      reads this, pool.bits
    {
      pool.Valid() && DescsOk(descs) && Inv(State(), None)
    }

    /** init_pool and malloc_init. */
    constructor (pages: nat)
      ensures Valid() && live == map[] && pool.bitCnt == pages && fresh(pool.bits)
    {
      var ds: seq<Desc> := [];
      var size := 16;
      while size < 4096 / 2
        invariant size == BlockSize(|ds|) && |ds| <= 7
        invariant forall d :: 0 <= d < |ds| ==> ds[d] == Desc(BlockSize(d), PerArena(d))
        decreases 7 - |ds|
      {
        assert BlockSize(2) == 64 && BlockSize(4) == 256 && BlockSize(6) == 1024;
        PerArenaIs(|ds|);
        ds := ds + [Desc(size, (4096 - 12) / size)];
        size := size * 2;
      }
      assert BlockSize(2) == 64 && BlockSize(4) == 256 && BlockSize(6) == 1024;
      descs := ds;
      pool := new Bitmap(pages);
      arenas, live := map[], map[];
      free := seq(|ds|, _ => []);
    }

    /** The smallest descriptor that satisfies the request, or 7 when none does. */
    method FindDesc(size: nat) returns (d: nat)
      requires DescsOk(descs)
      ensures d <= 7 && (d < 7 ==> Fits(d, size)) && (d == 7 ==> size > 1024)
    {
      d := 0;
      while d < |descs|
        invariant d <= 7 && (d > 0 ==> BlockSize(d - 1) < size)
      {
        if descs[d].blockSize >= size {
          return;
        }
        d := d + 1;
      }
      assert BlockSize(2) == 64 && BlockSize(4) == 256 && BlockSize(6) == 1024;
    }

    /** palloc_get_multiple on the kernel pool. */
    method GetMultiple(n: nat) returns (r: Option<nat>)
      requires pool.Valid()
      modifies pool.bits
      ensures n == 0 ==> r.None?
      ensures n > 0 ==> IsFirstGroup(old(pool.View()), 0, n, false, r)
      ensures pool.View() == if r.Some? then Filled(old(pool.View()), r.value, n, true) else old(pool.View())
    {
      if n == 0 {
        return None;
      }
      r := pool.ScanAndFlip(0, n, false);
    }

    /** Requests too big for any descriptor get whole pages. */
    method MallocBig(size: nat) returns (r: Option<nat>)
      requires Valid() && size > 1024
      modifies this, pool.bits
      ensures Valid()
      ensures r.None? ==> State() == old(State())
      ensures r.None? <==>
              PageCount(size) == 0 || IsFirstGroup(old(pool.View()), 0, PageCount(size), false, None)
      ensures r.Some? ==> r.value !in old(live) && live == old(live)[r.value := Granted(size)]
    {
      ghost var h := State();
      var pageCnt := (size + 12 + 4095) % 0x1_0000_0000 / 4096;
      var g := GetMultiple(pageCnt);
      if g.None? {
        return None;
      }
      AddedBigOk(h, g.value, pageCnt, Granted(size));
      arenas := arenas[g.value := Big(pageCnt)];
      r := Some(4096 * g.value + 12);
      live := live[r.value := Granted(size)];
      assert State() == AddedBig(h, g.value, pageCnt, Granted(size));
    }

    method ListBlocks(page: nat, d: nat)
      requires DescsOk(descs) && d < 7 == |free| && free[d] == []
      modifies `free
      ensures free == old(free)[d := Slots(page, d, PerArena(d))]
    {
      var i := 0;
      while i < descs[d].blocksPerArena
        invariant 0 <= i <= PerArena(d) && |free| == 7 && free[d] == Slots(page, d, i)
        invariant free == old(free)[d := free[d]]
      {
        free := free[d := free[d] + [4096 * page + 12 + i * descs[d].blockSize]];
        i := i + 1;
      }
    }

    /** Page `page`, just taken from the pool of heap h, becomes an arena of descriptor d. */
    method SetUp(page: nat, d: nat, ghost h: Heap)
      requires pool.Valid() && DescsOk(descs) && Ready(h, page, d) && State() == h.(used := h.used[page := true])
      modifies `arenas, `free
      ensures State() == AddedSmall(h, page, d) && Inv(State(), Some(page))
    {
      AddedSmallOk(h, page, d);
      arenas := arenas[page := Small(d, descs[d].blocksPerArena)];
      ListBlocks(page, d);
    }

    /** A new arena for descriptor d, whose free list is empty; fails when no page is free. */
    method NewArena(d: nat) returns (g: Option<nat>)
      requires Valid() && d < 7 && free[d] == []
      modifies `arenas, `free, pool.bits
      ensures g.None? <==> AllUsed(old(pool.View()))
      ensures g.None? ==> State() == old(State())
      ensures g.Some? ==> Inv(State(), g) && free[d] == Slots(g.value, d, PerArena(d))
    {
      ghost var h := State();
      g := GetMultiple(1);
      OnePage(h.used, g);
      if g.Some? {
        SetUp(g.value, d, h);
      }
    }

    /** The head of free list d becomes a live block. */
    method Take(d: nat, size: nat, ghost hole: Option<nat>) returns (x: nat)
      requires pool.Valid() && Inv(State(), hole) && DescsOk(descs) && d < 7 && free[d] != [] && size <= BlockSize(d)
      requires hole.None? || hole == Some(free[d][0] / 4096)
      modifies this
      ensures Valid() && x !in old(live) && live == old(live)[x := size]
    {
      ghost var h := State();
      x := free[d][0];
      ghost var i := HeadBlock(h, hole, d);
      PoppedOk(h, hole, x, d, i, size);
      HeadNotLive(h, x, d, i);
      free := free[d := free[d][1..]];
      var g := x / 4096;
      arenas := arenas[g := Small(d, arenas[g].cnt - 1)];
      live := live[x := size];
    }

    /** malloc: a new block of the size asked for, short of the last eleven 32-bit sizes. */
    method Malloc(size: nat) returns (r: Option<nat>)
      requires Valid() && size < 0x1_0000_0000
      modifies this, pool.bits
      ensures Valid()
      ensures r.None? ==> State() == old(State())
      ensures r.None? <==> Refuses(old(State()), size)
      ensures r.Some? ==> size > 0 && r.value !in old(live) && live == old(live)[r.value := Granted(size)]
      ensures r.Some? ==> (live[r.value] == size <==> size <= 0xFFFF_FFF4)
    {
      if size > 1024 {
        PageCountWraps(size);
      }
      if size == 0 {
        return None;
      }
      var d := FindDesc(size);
      if d == |descs| {
        r := MallocBig(size);
        return;
      }
      Sizes(d);
      ghost var hole := None;
      if free[d] == [] {
        var g := NewArena(d);
        if g.None? {
          OnlyFit(d, size);
          return None;
        }
        FirstSlot(g.value, d);
        hole := g;
      }
      var x := Take(d, size, hole);
      r := Some(x);
    }

    /** calloc, up to clearing the block. */
    method Calloc(a: nat, b: nat) returns (r: Option<nat>)
      requires Valid() && a < 0x1_0000_0000 && b < 0x1_0000_0000
      modifies this, pool.bits
      ensures Valid()
      ensures r.None? ==> State() == old(State())
      ensures r.None? <==> CallocRejects(a, b) || Refuses(old(State()), Product(a, b))
      ensures r.Some? ==> r.value !in old(live) && live == old(live)[r.value := Granted(Product(a, b))]
    {
      var size := Product(a, b);
      if size < a || size < b {
        return None;
      }
      r := Malloc(size);
    }

    /** The free list of an idle arena's descriptor loses the arena's blocks, one by one. */
    method UnlistBlocks(g: nat, d: nat)
      requires DescsOk(descs) && d < 7 == |free| && FreeOk(arenas, free[d], d)
      modifies `free
      ensures free == old(free)[d := OffPage(old(free)[d], g)]
    {
      ghost var l := free[d];
      OffNone(l, g, d);
      var i := 0;
      while i < descs[d].blocksPerArena
        invariant 0 <= i <= PerArena(d) && |free| == 7 && free[d] == OffSlots(l, g, d, i)
        invariant free == old(free)[d := free[d]]
      {
        OffOneMore(l, g, d, i);
        free := free[d := Without(free[d], 4096 * g + 12 + i * descs[d].blockSize)];
        i := i + 1;
      }
      OffAll(arenas, l, g, d);
    }

    /** An arena whose blocks are all free goes back to the page allocator. */
    method Retire(g: nat, d: nat)
      requires pool.Valid() && DescsOk(descs) && Idle(State(), g, d)
      modifies this, pool.bits
      ensures Valid() && live == old(live)
    {
      ghost var h := State();
      RemovedPages(h.used, h.arenas, g);
      RemovedOk(h, g, d);
      assert FreeOk(arenas, free[d], d);
      UnlistBlocks(g, d);
      pool.SetMultiple(g, 1, false);
      arenas := arenas - {g};
      assert pool.View() == h.used[g := false];
      assert State() == Removed(h, g, d);
    }

    /** free of a block of an arena. */
    method FreeSmall(x: nat, ghost i: nat)
      requires Valid() && x / 4096 in arenas && arenas[x / 4096].Small? && Holds(State(), x, arenas[x / 4096].d, i)
      modifies this, pool.bits
      ensures Valid() && live == old(live) - {x}
    {
      ghost var h := State();
      var g := x / 4096;
      var d := arenas[g].d;
      PushedOk(h, x, d, i);
      free := free[d := [x] + free[d]];
      arenas := arenas[g := Small(d, arenas[g].cnt + 1)];
      live := live - {x};
      assert State() == Pushed(h, x, d, i);
      if arenas[g].cnt >= descs[d].blocksPerArena {
        CountFull(State(), g);
        Retire(g, d);
      } else {
        CountNotFull(State(), g);
      }
    }

    method FreeBig(x: nat)
      requires Valid() && x in live && IsBig(arenas, x)
      modifies this, pool.bits
      ensures Valid() && live == old(live) - {x}
    {
      ghost var h := State();
      var g := x / 4096;
      RemovedBigOk(h, x);
      pool.SetMultiple(g, arenas[g].pages, false);
      arenas := arenas - {g};
      live := live - {x};
      assert State() == RemovedBig(h, x);
    }

    /** free: the block is no longer live, every other block is untouched. */
    method Free(p: Option<nat>)
      requires Valid() && (p.Some? ==> p.value in live)
      modifies this, pool.bits
      ensures Valid() && live == if p.Some? then old(live) - {p.value} else old(live)
    {
      if p.Some? {
        var x := p.value;
        ghost var i := LiveBlock(State(), x);
        if arenas[x / 4096].Small? {
          FreeSmall(x, i);
        } else {
          FreeBig(x);
        }
      }
    }
  }

  lemma FirstSlot(g: nat, d: nat)
    requires d < 7
    ensures PerArena(d) > 0 && Slots(g, d, PerArena(d))[0] / 4096 == g
  {
    Sizes(d);
    SlotIn(g, d, 0);
  }

  lemma CountFull(h: Heap, g: nat)
    requires Inv(h, Some(g)) && g in h.arenas && h.arenas[g].Small? && h.arenas[g].cnt >= PerArena(h.arenas[g].d)
    ensures Idle(h, g, h.arenas[g].d)
  {
    assert Accounted(h, g, h.arenas[g]) && CountOk(h.free, g, h.arenas[g], Some(g) == Some(g));
    FreeInBound(h.free[h.arenas[g].d], g, h.arenas[g].d);
  }

  lemma CountNotFull(h: Heap, g: nat)
    requires Inv(h, Some(g)) && g in h.arenas && h.arenas[g].Small? && h.arenas[g].cnt < PerArena(h.arenas[g].d)
    ensures Inv(h, None)
  {
    forall k | k in h.arenas
      ensures CountOk(h.free, k, h.arenas[k], None == Some(k))
    {
      assert CountOk(h.free, k, h.arenas[k], Some(g) == Some(k));
    }
  }

  lemma LiveBlock(h: Heap, x: nat) returns (i: nat)
    requires Inv(h, None) && x in h.live
    ensures x / 4096 in h.arenas
    ensures var a := h.arenas[x / 4096]; if a.Small? then Holds(h, x, a.d, i) else IsBig(h.arenas, x)
  {
    assert LiveOk(h, x, h.live[x]);
    i := 0;
    if !IsBig(h.arenas, x) {
      var d: nat, j: nat :| IsBlock(h.arenas, x, d, j) && h.live[x] <= BlockSize(d) && d < |h.free| && x !in h.free[d];
      i := j;
    }
  }

  lemma HeadNotLive(h: Heap, x: nat, d: nat, i: nat)
    requires BlocksOk(h) && Heads(h, x, d, i)
    ensures x !in h.live
  {
    assert x in h.live ==> LiveOk(h, x, h.live[x]);
  }
}