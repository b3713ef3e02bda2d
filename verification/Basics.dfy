/** Shared vocabulary of the models. */
module Basics {

  datatype Option<+T> = None | Some(value: T)

  type Byte = b: nat | b < 256

  /** A Java string: its length, its characters and its hash are those of its 16-bit code units. */
  type CodeUnit = c: nat | c < 0x1_0000

  type Text = seq<CodeUnit>

  function Zeroes(n: nat): (d: seq<Byte>)
    ensures |d| == n
  {
    seq(n, _ => 0)
  }

  function Pow2(n: nat): (r: nat)
    ensures r > 0
  {
    if n == 0 then 1 else 2 * Pow2(n - 1)
  }

  lemma {:induction false} SubsetSize(a: set<nat>, b: set<nat>)
    requires a <= b
    ensures |a| <= |b|
  {
    if a != {} {
      var x :| x in a;
      SubsetSize(a - {x}, b - {x});
    }
  }

  /** The numbers below n. */
  ghost function UpTo(n: nat): (r: set<nat>)
    ensures |r| == n && forall i :: i in r <==> 0 <= i < n
  {
    if n == 0 then {} else UpTo(n - 1) + {n - 1}
  }

  lemma MulMono(d: int, a: int, b: int)
    requires d >= 0 && a <= b
    ensures a * d <= b * d
  {
  }

  // ---------------------------------------------------------------- lists without repetition

  ghost predicate Distinct<T>(l: seq<T>) { forall i, j :: 0 <= i < j < |l| ==> l[i] != l[j] }

  /** l without b: what unlinking b leaves of a list. */
  function Without(l: seq<nat>, b: nat): (r: seq<nat>)
    ensures b !in r
  {
    if l == [] then []
    else if l[0] == b then Without(l[1..], b)
    else [l[0]] + Without(l[1..], b)
  }

  lemma ConsDistinct(x: nat, l: seq<nat>)
    requires Distinct(l) && x !in l
    ensures Distinct([x] + l)
  {
  }

  lemma {:induction false} WithoutKeeps(l: seq<nat>, b: nat)
    requires Distinct(l)
    ensures Distinct(Without(l, b)) && forall x :: x in Without(l, b) <==> x in l && x != b
  {
    if l != [] {
      assert forall x :: x in l <==> x == l[0] || x in l[1..];
      WithoutKeeps(l[1..], b);
      assert l[0] !in l[1..];
      ConsDistinct(l[0], Without(l[1..], b));
    }
  }

  lemma AppendDistinct(l: seq<nat>, b: nat)
    requires Distinct(l) && b !in l
    ensures Distinct(l + [b])
  {
  }

  lemma PoppedKeeps(l: seq<nat>)
    requires Distinct(l) && l != []
    ensures Distinct(l[1..]) && l[0] !in l[1..]
    ensures forall x :: x in l <==> x in l[1..] || x == l[0]
  {
    assert l == [l[0]] + l[1..];
  }

  lemma {:induction false} WithoutAbsent(l: seq<nat>, b: nat)
    requires b !in l
    ensures Without(l, b) == l
  {
    if l != [] {
      WithoutAbsent(l[1..], b);
    }
  }
}
