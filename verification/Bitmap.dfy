/** Arrays of bits packed into 32-bit words (pintos/src/lib/kernel/bitmap.c). */
module Bitmaps {
  import opened Basics

  // ---------------------------------------------------------------- bits of a word

  type Word = w: nat | w < 0x1_0000_0000

  function And(a: nat, b: nat): (r: nat)
    ensures r <= a && r <= b
    decreases a
  {
    if a == 0 || b == 0 then 0
    else 2 * And(a / 2, b / 2) + (if a % 2 == 1 && b % 2 == 1 then 1 else 0)
  }

  function Or(a: nat, b: nat): nat
    decreases a + b
  {
    if a == 0 && b == 0 then 0
    else 2 * Or(a / 2, b / 2) + (if a % 2 == 1 || b % 2 == 1 then 1 else 0)
  }

  /** Binary digit i. */
  predicate Bit(w: nat, i: nat) { if i == 0 then w % 2 == 1 else Bit(w / 2, i - 1) }

  lemma {:induction false} BitZero(i: nat)
    ensures !Bit(0, i)
  {
    if i > 0 {
      BitZero(i - 1);
    }
  }

  lemma {:induction false} BitAnd(a: nat, b: nat, i: nat)
    ensures Bit(And(a, b), i) == (Bit(a, i) && Bit(b, i))
  {
    BitZero(i);
    if a > 0 && b > 0 && i > 0 {
      assert And(a, b) / 2 == And(a / 2, b / 2);
      BitAnd(a / 2, b / 2, i - 1);
    }
  }

  lemma {:induction false} BitOr(a: nat, b: nat, i: nat)
    ensures Bit(Or(a, b), i) == (Bit(a, i) || Bit(b, i))
  {
    BitZero(i);
    if (a > 0 || b > 0) && i > 0 {
      assert Or(a, b) / 2 == Or(a / 2, b / 2);
      BitOr(a / 2, b / 2, i - 1);
    }
  }

  lemma {:induction false} OrBelow(a: nat, b: nat, n: nat)
    requires a < Pow2(n) && b < Pow2(n)
    ensures Or(a, b) < Pow2(n)
  {
    if n > 0 && (a > 0 || b > 0) {
      OrBelow(a / 2, b / 2, n - 1);
    }
  }

  /** A power of two is a mask of one bit, so AND with it is a test. */
  lemma {:induction false} MaskBit(k: nat, i: nat)
    ensures Bit(Pow2(k), i) == (k == i)
  {
    if k > 0 && i > 0 {
      assert Pow2(k) / 2 == Pow2(k - 1);
      MaskBit(k - 1, i - 1);
    } else if i > 0 {
      assert Pow2(k) / 2 == 0;
      BitZero(i - 1);
    }
  }

  lemma {:induction false} AndMask(w: nat, k: nat)
    ensures And(w, Pow2(k)) == if Bit(w, k) then Pow2(k) else 0
  {
    if w == 0 {
      BitZero(k);
    } else if k > 0 {
      assert Pow2(k) / 2 == Pow2(k - 1);
      AndMask(w / 2, k - 1);
    } else {
      assert And(w / 2, 0) == 0;
    }
  }

  /** The complement of an n-bit word. */
  lemma {:induction false} BitNot(n: nat, w: nat, i: nat)
    requires w < Pow2(n) && i < n
    ensures Bit(Pow2(n) - 1 - w, i) == !Bit(w, i)
  {
    if i > 0 {
      assert (Pow2(n) - 1 - w) / 2 == Pow2(n - 1) - 1 - w / 2;
      BitNot(n - 1, w / 2, i - 1);
    }
  }

  lemma WordSize()
    ensures Pow2(32) == 0x1_0000_0000
  {
    assert Pow2(8) == 0x100;
    assert Pow2(16) == 0x1_0000;
    assert Pow2(24) == 0x100_0000;
  }

  // ---------------------------------------------------------------- packed and plain bits

  function ElemIdx(bitIdx: nat): nat { bitIdx / 32 }

  lemma {:induction false} MaskFits(k: nat)
    requires k < 32
    ensures Pow2(k) < 0x1_0000_0000
    decreases 32 - k
  {
    if k == 31 {
      WordSize();
    } else {
      MaskFits(k + 1);
    }
  }

  function BitMask(bitIdx: nat): (m: Word) {
    MaskFits(bitIdx % 32);
    Pow2(bitIdx % 32)
  }

  function ElemCnt(bitCnt: nat): nat { (bitCnt + 31) / 32 }

  /** The word after bitmap_mark (the orl instruction) or bitmap_reset (the andl instruction). */
  function Written(w: Word, bitIdx: nat, value: bool): (r: Word) {
    WordSize();
    OrBelow(w, BitMask(bitIdx), 32);
    if value then Or(w, BitMask(bitIdx)) else And(w, 0xFFFF_FFFF - BitMask(bitIdx))
  }

  /** Writing one bit changes that bit of the word and no other. */
  lemma WrittenBit(w: Word, bitIdx: nat, value: bool, i: nat)
    requires i < 32
    ensures Bit(Written(w, bitIdx, value), i) == if i == bitIdx % 32 then value else Bit(w, i)
  {
    var m := BitMask(bitIdx);
    MaskBit(bitIdx % 32, i);
    if value {
      BitOr(w, m, i);
    } else {
      WordSize();
      BitNot(32, m, i);
      BitAnd(w, 0xFFFF_FFFF - m, i);
    }
  }

  /** The first n bits held by an array of words: what the bitmap looks like from the outside. */
  ghost function Unpack(words: seq<Word>, n: nat): (v: seq<bool>)
    requires n <= 32 * |words|
    ensures |v| == n
    ensures forall j :: 0 <= j < n ==> v[j] == Bit(words[j / 32], j % 32)
  {
    seq(n, j requires 0 <= j < n => Bit(words[j / 32], j % 32))
  }

  lemma UnpackWritten(words: seq<Word>, n: nat, i: nat, value: bool)
    requires i < n <= 32 * |words|
    ensures Unpack(words[i / 32 := Written(words[i / 32], i, value)], n) == Unpack(words, n)[i := value]
  {
    var w := words[i / 32];
    var words' := words[i / 32 := Written(w, i, value)];
    forall j | 0 <= j < n
      ensures Unpack(words', n)[j] == Unpack(words, n)[i := value][j]
    {
      if j / 32 == i / 32 {
        WrittenBit(w, i, value, j % 32);
      }
    }
  }

  ghost predicate AllAre(v: seq<bool>, start: nat, cnt: nat, value: bool)
    requires start + cnt <= |v|
  {
    forall k :: start <= k < start + cnt ==> v[k] == value
  }

  /** v with cnt bits from start set to value. */
  ghost function Filled(v: seq<bool>, start: nat, cnt: nat, value: bool): (r: seq<bool>)
    requires start + cnt <= |v|
    ensures |r| == |v|
    ensures forall k :: 0 <= k < |v| ==> r[k] == if start <= k < start + cnt then value else v[k]
  {
    seq(|v|, k requires 0 <= k < |v| => if start <= k < start + cnt then value else v[k])
  }

  /** r is the least start of a group of cnt bits equal to value at or after start, or None when
      there is no such group. */
  ghost predicate IsFirstGroup(v: seq<bool>, start: nat, cnt: nat, value: bool, r: Option<nat>) {
    && (r.Some? ==> start <= r.value && r.value + cnt <= |v| && AllAre(v, r.value, cnt, value))
    && forall i :: start <= i && i + cnt <= |v| && (r.Some? ==> i < r.value) ==> !AllAre(v, i, cnt, value)
  }

  /** Scanning for an empty group finds it at the start of the search. */
  lemma EmptyGroupIsStart(v: seq<bool>, start: nat, value: bool, r: Option<nat>)
    requires start <= |v| && IsFirstGroup(v, start, 0, value, r)
    ensures r == Some(start)
  {
    assert AllAre(v, start, 0, value);
  }

  class Bitmap {
    const bitCnt: nat
    const bits: array<Word>

    ghost predicate Valid() { bits.Length == ElemCnt(bitCnt) }

    ghost function View(): (v: seq<bool>)
      requires Valid()
      reads bits
      ensures |v| == bitCnt
    {
      Unpack(bits[..], bitCnt)
    }

    constructor (n: nat)
      ensures Valid() && bitCnt == n && fresh(bits)
      ensures AllAre(View(), 0, n, false)
    {
      bitCnt := n;
      bits := new Word[ElemCnt(n)];
      new;
      SetMultiple(0, bitCnt, false);
    }

    method Test(idx: nat) returns (r: bool)
      requires Valid() && idx < bitCnt
      ensures r == View()[idx]
    {
      AndMask(bits[ElemIdx(idx)], idx % 32);
      r := And(bits[ElemIdx(idx)], BitMask(idx)) != 0;
    }

    method Set(idx: nat, value: bool)
      requires Valid() && idx < bitCnt
      modifies bits
      ensures View() == old(View())[idx := value]
    {
      UnpackWritten(bits[..], bitCnt, idx, value);
      bits[ElemIdx(idx)] := Written(bits[ElemIdx(idx)], idx, value);
    }

    method SetMultiple(start: nat, cnt: nat, value: bool)
      requires Valid() && start + cnt <= bitCnt
      modifies bits
      ensures View() == Filled(old(View()), start, cnt, value)
    {
      var i := 0;
      while i < cnt
        invariant i <= cnt
        invariant View() == Filled(old(View()), start, i, value)
      {
        Set(start + i, value);
        i := i + 1;
      }
    }

    /** True exactly when some bit of the range has the value. */
    method Contains(start: nat, cnt: nat, value: bool) returns (r: bool)
      requires Valid() && start + cnt <= bitCnt
      ensures r == !AllAre(View(), start, cnt, !value)
    {
      var i := 0;
      while i < cnt
        invariant i <= cnt
        invariant AllAre(View(), start, i, !value)
      {
        var b := Test(start + i);
        if b == value {
          return true;
        }
        i := i + 1;
      }
      return false;
    }

    /** The first group of cnt equal bits at or after start, or none when no group exists. */
    method Scan(start: nat, cnt: nat, value: bool) returns (r: Option<nat>)
      requires Valid() && start <= bitCnt
      ensures IsFirstGroup(View(), start, cnt, value, r)
    {
      if cnt <= bitCnt {
        var last := bitCnt - cnt;
        var i := start;
        while i <= last
          invariant start <= i
          invariant forall j :: start <= j < i && j + cnt <= bitCnt ==> !AllAre(View(), j, cnt, value)
        {
          var other := Contains(i, cnt, !value);
          if !other {
            return Some(i);
          }
          i := i + 1;
        }
      }
      return None;
    }

    /** Scan, then flip the group found; nothing changes when there is none. */
    method ScanAndFlip(start: nat, cnt: nat, value: bool) returns (r: Option<nat>)
      requires Valid() && start <= bitCnt
      modifies bits
      ensures IsFirstGroup(old(View()), start, cnt, value, r)
      ensures View() == if r.Some? then Filled(old(View()), r.value, cnt, !value) else old(View())
    {
      r := Scan(start, cnt, value);
      if r.Some? {
        SetMultiple(r.value, cnt, !value);
      }
    }
  }
}
