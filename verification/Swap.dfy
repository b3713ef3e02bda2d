/** The swap device: 8-sector groups handed out from a sector bitmap (pintos/src/vm/swap.c). */
module Swap {
  import opened Basics
  import opened Bitmaps

  type Sector = s: seq<Byte> | |s| == 512 witness seq(512, _ => 0)
  type PageData = d: seq<Byte> | |d| == 4096 witness seq(4096, _ => 0)

  /** The contents of n sectors from s on. */
  ghost function Joined(sectors: seq<Sector>, s: nat, n: nat): (d: seq<Byte>)
    requires s + n <= |sectors|
    ensures |d| == 512 * n
  {
    if n == 0 then [] else Joined(sectors, s, n - 1) + sectors[s + n - 1]
  }

  lemma {:induction false} JoinedFrame(a: seq<Sector>, b: seq<Sector>, s: nat, n: nat)
    requires s + n <= |a| && s + n <= |b|
    requires forall k :: s <= k < s + n ==> a[k] == b[k]
    ensures Joined(a, s, n) == Joined(b, s, n)
  {
    if n > 0 {
      JoinedFrame(a, b, s, n - 1);
    }
  }

  /** Marked bits come in whole groups of 8 that start at multiples of 8. */
  ghost predicate Grouped(v: seq<bool>) {
    forall k {:trigger v[k]} :: 0 <= k < |v| ==> v[k] == GroupMarked(v, k / 8)
  }

  ghost predicate GroupMarked(v: seq<bool>, g: nat) { 8 * g + 8 <= |v| && v[8 * g] }

  /** The sectors where a group of a device of n sectors may start. */
  ghost function Starts(n: nat): (r: set<nat>) { set k | 0 <= k < n && k % 8 == 0 && k + 8 <= n }

  /** What swap holds: for each marked group, its start and the page stored there. */
  ghost function Held(v: seq<bool>, sectors: seq<Sector>): (h: map<nat, PageData>)
    requires |v| == |sectors|
  {
    map s | s in Starts(|v|) && v[s] :: Joined(sectors, s, 8)
  }

  lemma LastStart(n: nat, k: nat)
    requires n >= 8
    ensures k in Starts(n) <==> k in Starts(n - 8) || k == 8 * (n / 8) - 8
  {
    var q, j := n / 8, k / 8;
    if k % 8 == 0 {
      assert k == 8 * j;
      assert k + 8 <= n <==> j + 1 <= q;
      assert k + 8 <= n - 8 <==> j + 2 <= q;
    }
  }

  lemma {:induction false} StartsCount(n: nat)
    ensures |Starts(n)| == n / 8
  {
    if n < 8 {
      assert Starts(n) == {};
    } else {
      var s := 8 * (n / 8) - 8;
      forall k: nat
        ensures k in Starts(n) <==> k in Starts(n - 8) || k == s
      {
        LastStart(n, k);
      }
      StartsCount(n - 8);
      assert Starts(n) == Starts(n - 8) + {s} && s !in Starts(n - 8);
    }
  }

  lemma SameGroup(v: seq<bool>, s: nat, k: nat)
    requires Grouped(v) && s in Starts(|v|) && s <= k < s + 8
    ensures v[k] == v[s]
  {
    assert k / 8 == s / 8 && 8 * (k / 8) == s;
  }

  /** The first free run of 8 bits starts at a group boundary: freed and fresh groups never
      straddle. */
  lemma FirstFreeIsAligned(v: seq<bool>, r: nat)
    requires Grouped(v) && IsFirstGroup(v, 0, 8, false, Some(r))
    ensures r in Starts(|v|)
  {
    var g := r - r % 8;
    assert g in Starts(|v|);
    forall k | g <= k < g + 8
      ensures !v[k]
    {
      SameGroup(v, g, k);
      SameGroup(v, g, r);
    }
    assert AllAre(v, g, 8, false);
  }

  /** No free run of 8 bits means that every group is marked. */
  lemma NoneFreeMeansFull(v: seq<bool>)
    requires Grouped(v) && IsFirstGroup(v, 0, 8, false, None)
    ensures forall s :: s in Starts(|v|) ==> v[s]
  {
    forall s | s in Starts(|v|)
      ensures v[s]
    {
      assert !AllAre(v, s, 8, false);
      var k :| s <= k < s + 8 && v[k];
      SameGroup(v, s, k);
    }
  }

  lemma FilledGrouped(v: seq<bool>, s: nat, value: bool)
    requires Grouped(v) && s in Starts(|v|)
    ensures Grouped(Filled(v, s, 8, value))
  {
    var w := Filled(v, s, 8, value);
    forall k {:trigger w[k]} | 0 <= k < |w|
      ensures w[k] == GroupMarked(w, k / 8)
    {
      assert v[k] == GroupMarked(v, k / 8);
      assert s <= k < s + 8 <==> k / 8 == s / 8;
    }
  }

  /** Marking a group and writing its sectors adds that page and keeps every other. */
  lemma HeldAfterOut(v: seq<bool>, a: seq<Sector>, b: seq<Sector>, s: nat, d: PageData)
    requires |v| == |a| == |b| && s in Starts(|v|)
    requires forall k :: 0 <= k < |a| && !(s <= k < s + 8) ==> a[k] == b[k]
    requires Joined(b, s, 8) == d
    ensures Held(Filled(v, s, 8, true), b) == Held(v, a)[s := d]
  {
    var w := Filled(v, s, 8, true);
    forall t | t in Starts(|v|) && t != s
      ensures w[t] == v[t] && Joined(a, t, 8) == Joined(b, t, 8)
    {
      JoinedFrame(a, b, t, 8);
    }
  }

  lemma HeldAfterClear(v: seq<bool>, a: seq<Sector>, s: nat)
    requires |v| == |a| && s in Starts(|v|)
    ensures Held(Filled(v, s, 8, false), a) == Held(v, a) - {s}
  {
    var w := Filled(v, s, 8, false);
    assert forall t :: t in Starts(|v|) && t != s ==> w[t] == v[t];
  }

  class SwapDevice {
    const bitmap: Bitmap
    var sectors: seq<Sector>

    ghost predicate Valid()
      reads this, bitmap.bits
    {
      bitmap.Valid() && |sectors| == bitmap.bitCnt && Grouped(bitmap.View())
    }

    ghost function Pages(): map<nat, PageData>
      requires Valid()
      reads this, bitmap.bits
    {
      Held(bitmap.View(), sectors)
    }

    constructor (device: seq<Sector>)
      ensures Valid() && Pages() == map[] && |sectors| == |device| && fresh(bitmap.bits)
    {
      bitmap := new Bitmap(|device|);
      sectors := device;
      new;
      assert Grouped(bitmap.View());
    }

    /** Stores a page in a group of its own, or fails when, and only when, all groups are in use. */
    method SwapOut(data: PageData) returns (slot: Option<nat>)
      requires Valid()
      modifies this, bitmap.bits
      ensures Valid() && |sectors| == old(|sectors|)
      ensures slot.None? <==> |old(Pages())| == |sectors| / 8
      ensures slot.None? ==> Pages() == old(Pages())
      ensures slot.Some? ==> slot.value !in old(Pages()) && slot.value % 8 == 0
      ensures slot.Some? ==> Pages() == old(Pages())[slot.value := data]
    {
      ghost var v, a := bitmap.View(), sectors;
      slot := bitmap.ScanAndFlip(0, 8, false);
      if slot.Some? {
        var s := slot.value;
        FirstFreeIsAligned(v, s);
        FilledGrouped(v, s, true);
        WriteSectors(s, data);
        HeldAfterOut(v, a, sectors, s, data);
        NotFull(v, a, s);
      } else {
        NoneFreeMeansFull(v);
        FullCount(v, a);
      }
    }

    method WriteSectors(s: nat, data: PageData)
      requires s + 8 <= |sectors|
      modifies `sectors
      ensures |sectors| == old(|sectors|) && Joined(sectors, s, 8) == data
      ensures forall k :: 0 <= k < |sectors| && !(s <= k < s + 8) ==> sectors[k] == old(sectors)[k]
    {
      var i := 0;
      while i < 8
        invariant 0 <= i <= 8 && |sectors| == old(|sectors|)
        invariant Joined(sectors, s, i) == data[..512 * i]
        invariant forall k :: 0 <= k < |sectors| && !(s <= k < s + 8) ==> sectors[k] == old(sectors)[k]
      {
        ghost var before := sectors;
        sectors := sectors[s + i := data[512 * i..512 * i + 512]];
        JoinedFrame(before, sectors, s, i);
        assert data[..512 * i + 512] == data[..512 * i] + data[512 * i..512 * i + 512];
        i := i + 1;
      }
      assert data[..4096] == data;
    }

    /** Reads a stored page back and frees its group. */
    method SwapIn(slot: nat) returns (data: PageData)
      requires Valid() && slot in Pages()
      modifies this, bitmap.bits
      ensures Valid() && |sectors| == old(|sectors|)
      ensures data == old(Pages())[slot] && Pages() == old(Pages()) - {slot}
    {
      data := ReadSectors(slot);
      SwapClear(slot);
    }

    method ReadSectors(s: nat) returns (data: PageData)
      requires s + 8 <= |sectors|
      ensures data == Joined(sectors, s, 8)
    {
      var buffer: seq<Byte> := [];
      var i := 0;
      while i < 8
        invariant 0 <= i <= 8 && buffer == Joined(sectors, s, i)
      {
        buffer := buffer + sectors[s + i];
        i := i + 1;
      }
      data := buffer;
    }

    method SwapClear(slot: nat)
      requires Valid() && slot in Pages()
      modifies this, bitmap.bits
      ensures Valid() && |sectors| == old(|sectors|) && Pages() == old(Pages()) - {slot}
    {
      ghost var v := bitmap.View();
      bitmap.SetMultiple(slot, 8, false);
      FilledGrouped(v, slot, false);
      HeldAfterClear(v, sectors, slot);
    }
  }

  lemma FullCount(v: seq<bool>, a: seq<Sector>)
    requires |v| == |a| && forall s :: s in Starts(|v|) ==> v[s]
    ensures |Held(v, a)| == |v| / 8
  {
    assert Held(v, a).Keys == Starts(|v|);
    StartsCount(|v|);
  }

  lemma NotFull(v: seq<bool>, a: seq<Sector>, s: nat)
    requires |v| == |a| && s in Starts(|v|) && !v[s]
    ensures |Held(v, a)| < |v| / 8
  {
    var keys := Held(v, a).Keys;
    assert keys <= Starts(|v|) - {s};
    SubsetSize(keys, Starts(|v|) - {s});
    StartsCount(|v|);
  }
}
