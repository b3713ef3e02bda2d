/** Archive headers in the "ustar Interchange Format" of the pax utility in SUSv3
    (pintos/src/lib/ustar.c), with the octal conversion of pintos/src/lib/stdio.c. Strings are
    sequences of non-zero bytes. */
module Ustar {
  import opened Basics

  type Text = t: seq<Byte> | forall i :: 0 <= i < |t| ==> t[i] != 0

  // ---------------------------------------------------------------- octal numbers

  predicate IsDigit(b: Byte) { 48 <= b <= 55 }

  function Digit(b: Byte): nat
    requires IsDigit(b)
  {
    var n: int := b;
    n - 48
  }

  /** The number that a sequence of octal digits denotes. */
  function Value(ds: seq<Byte>): nat
    requires forall i :: 0 <= i < |ds| ==> IsDigit(ds[i])
  {
    if ds == [] then 0 else 8 * Value(ds[..|ds| - 1]) + Digit(ds[|ds| - 1])
  }

  /** The digits of v, none for 0. */
  function Digits(v: nat): (ds: Text)
    ensures forall i :: 0 <= i < |ds| ==> IsDigit(ds[i])
    ensures Value(ds) == v
  {
    if v == 0 then [] else
      var ds := Digits(v / 8) + [48 + v % 8];
      assert ds[..|ds| - 1] == Digits(v / 8);
      ds
  }

  function Eight(n: nat): (p: nat)
    ensures p > 0
  {
    if n == 0 then 1 else 8 * Eight(n - 1)
  }

  lemma {:induction false} DigitsShort(v: nat, w: nat)
    requires v < Eight(w)
    ensures |Digits(v)| <= w
  {
    if v > 0 {
      DigitsShort(v / 8, w - 1);
    }
  }

  /** What "%0<w>o" prints: at least w digits, zeros in front. */
  function Octal(v: nat, w: nat): (t: Text) {
    var ds := if v == 0 then [48] else Digits(v);
    if |ds| < w then seq(w - |ds|, _ => 48) + ds else ds
  }

  lemma {:induction false} LeadingZeros(n: nat, ds: seq<Byte>)
    requires forall i :: 0 <= i < |ds| ==> IsDigit(ds[i])
    ensures var z: seq<Byte> := seq(n, _ => 48);
            (forall i :: 0 <= i < |z + ds| ==> IsDigit((z + ds)[i])) && Value(z + ds) == Value(ds)
  {
    var z: seq<Byte> := seq(n, _ => 48);
    if ds != [] {
      var m := |ds| - 1;
      LeadingZeros(n, ds[..m]);
      assert (z + ds)[..|z + ds| - 1] == z + ds[..m];
    } else {
      assert z + ds == z;
      ZerosAreZero(n);
    }
  }

  lemma {:induction false} ZerosAreZero(n: nat)
    ensures Value(seq(n, _ => 48)) == 0
  {
    if n > 0 {
      var z: seq<Byte> := seq(n, _ => 48);
      assert z[..n - 1] == seq(n - 1, _ => 48);
      ZerosAreZero(n - 1);
    }
  }

  lemma OctalOk(v: nat, w: nat)
    requires v < Eight(w) && w > 0
    ensures |Octal(v, w)| == w && (forall i :: 0 <= i < w ==> IsDigit(Octal(v, w)[i])) && Value(Octal(v, w)) == v
  {
    var ds: seq<Byte> := if v == 0 then [48] else Digits(v);
    DigitsShort(v, w);
    assert v == 0 ==> ds[..0] == [] && Value(ds) == 0;
    LeadingZeros(w - |ds|, ds);
  }

  /** The digits of v, lowest first. */
  method CollectDigits(v: nat) returns (buf: seq<Byte>)
    ensures Reversed(buf) == Digits(v)
  {
    var value := v;
    buf := [];
    while value > 0
      invariant Digits(value) + Reversed(buf) == Digits(v)
    {
      var d: Byte := 48 + value % 8;
      ReversedAppend(buf, d);
      Regroup(Digits(value / 8), d, Reversed(buf));
      buf := buf + [d];
      value := value / 8;
    }
  }

  lemma Regroup(a: seq<Byte>, d: Byte, b: seq<Byte>)
    ensures (a + [d]) + b == a + ([d] + b)
  {
  }

  /** format_integer for an unsigned octal conversion with the zero flag and field width w. */
  method FormatOctal(v: nat, w: nat) returns (out: seq<Byte>)
    ensures out == Octal(v, w)
  {
    var buf := CollectDigits(v);
    if |buf| < 1 {
      buf := buf + [48];
    }
    assert Reversed(buf) == if v == 0 then [48] else Digits(v);
    out := if |buf| < w then seq(w - |buf|, _ => 48) else [];
    out := EmitReversed(out, buf);
  }

  method EmitReversed(before: seq<Byte>, buf: seq<Byte>) returns (out: seq<Byte>)
    ensures out == before + Reversed(buf)
  {
    out := before;
    var cp := |buf|;
    assert buf[..cp] == buf;
    while cp > 0
      invariant 0 <= cp <= |buf| && out + Reversed(buf[..cp]) == before + Reversed(buf)
    {
      ReversedAppend(buf[..cp - 1], buf[cp - 1]);
      assert buf[..cp] == buf[..cp - 1] + [buf[cp - 1]];
      cp := cp - 1;
      assert out + ([buf[cp]] + Reversed(buf[..cp])) == (out + [buf[cp]]) + Reversed(buf[..cp]);
      out := out + [buf[cp]];
    }
    assert buf[..0] == [] && out + [] == out;
  }

  ghost function Reversed(s: seq<Byte>): (r: seq<Byte>)
    ensures |r| == |s|
  {
    if s == [] then [] else Reversed(s[1..]) + [s[0]]
  }

  lemma {:induction false} ReversedAppend(s: seq<Byte>, b: Byte)
    ensures Reversed(s + [b]) == [b] + Reversed(s)
  {
    if s != [] {
      assert (s + [b])[1..] == s[1..] + [b];
      ReversedAppend(s[1..], b);
    }
  }

  /** How many octal digits s starts with. */
  function DigitRun(s: seq<Byte>): (n: nat)
    ensures n <= |s| && (forall i :: 0 <= i < n ==> IsDigit(s[i])) && (n < |s| ==> !IsDigit(s[n]))
  {
    if s == [] || !IsDigit(s[0]) then 0 else 1 + DigitRun(s[1..])
  }

  /** A field is valid when it is one or more digits ended by a space or a null byte, and its value
      fits in 32 bits. */
  function OctalField(s: seq<Byte>): Option<nat> {
    var n := DigitRun(s);
    if 0 < n < |s| && (s[n] == 32 || s[n] == 0) && Value(s[..n]) <= 0xFFFF_FFFF then Some(Value(s[..n])) else None
  }

  lemma {:induction false} ValueGrows(s: seq<Byte>, k: nat, n: nat)
    requires k <= n <= |s| && forall i :: 0 <= i < n ==> IsDigit(s[i])
    ensures Value(s[..k]) <= Value(s[..n])
  {
    if k < n {
      ValueGrows(s, k, n - 1);
      ValueStep(s, n - 1);
    }
  }

  lemma ValueStep(s: seq<Byte>, k: nat)
    requires k < |s| && forall i :: 0 <= i <= k ==> IsDigit(s[i])
    ensures Value(s[..k + 1]) == 8 * Value(s[..k]) + Digit(s[k])
  {
    assert s[..k + 1][..k] == s[..k];
  }

  /** parse_octal_field accepts exactly the valid fields. */
  method ParseOctalField(s: seq<Byte>) returns (r: Option<nat>)
    ensures r == OctalField(s)
  {
    var value := 0;
    var ofs := 0;
    ghost var n := DigitRun(s);
    while ofs < |s|
      invariant 0 <= ofs <= n && value == Value(s[..ofs]) <= 0xFFFF_FFFF
    {
      var c := s[ofs];
      if 48 <= c <= 55 {
        ValueStep(s, ofs);
        if value > 0xFFFF_FFFF / 8 {
          ValueGrows(s, ofs + 1, n);
          return None;
        }
        value := Digit(c) + value * 8;
        ofs := ofs + 1;
      } else if c == 32 || c == 0 {
        return if ofs > 0 then Some(value) else None;
      } else {
        return None;
      }
    }
    return None;
  }

  /** A text in a field of n bytes, the rest zero. */
  function InField(t: Text, n: nat): (f: seq<Byte>)
    requires |t| < n
    ensures |f| == n
  {
    t + Zeroes(n - |t|)
  }

  /** Printing a number into a field and parsing it back. */
  lemma OctalRoundTrip(v: nat, w: nat)
    requires v < Eight(w) && v <= 0xFFFF_FFFF && w > 0
    ensures OctalField(OctalIn(v, w)) == Some(v)
  {
    OctalOk(v, w);
    var t := Octal(v, w);
    var f := InField(t, w + 1);
    RunIs(f, w);
    assert f[..w] == t;
  }

  lemma {:induction false} RunIs(s: seq<Byte>, n: nat)
    requires n < |s| && (forall i :: 0 <= i < n ==> IsDigit(s[i])) && !IsDigit(s[n])
    ensures DigitRun(s) == n
  {
    if n > 0 {
      RunIs(s[1..], n - 1);
    }
  }

  // ---------------------------------------------------------------- file names

  /** Names that start with "/", "./" or "../". */
  predicate Antisocial(t: Text) {
    || (|t| >= 1 && t[0] == 47)
    || (|t| >= 2 && t[0] == 46 && t[1] == 47)
    || (|t| >= 3 && t[0] == 46 && t[1] == 46 && t[2] == 47)
  }

  /** strchr (t, '/'). */
  function SlashAt(t: Text): (i: nat)
    requires 47 in t
    ensures i < |t| && t[i] == 47 && 47 !in t[..i]
  {
    if t[0] == 47 then 0
    else
      assert t == [t[0]] + t[1..];
      var i := SlashAt(t[1..]);
      assert t[..i + 1] == [t[0]] + t[1..][..i];
      1 + i
  }

  function Strip(t: Text): (r: Text)
    decreases |t|
  {
    if Antisocial(t) then Strip(t[SlashAt(t) + 1..])
    else if t == [] || t == [46, 46] then [46]
    else t
  }

  ghost predicate Suffix(r: Text, t: Text) { |r| <= |t| && r == t[|t| - |r|..] }

  /** A stripped name is safe: not empty, not "..", and not antisocial; it is the end of the name it
      came from, or "."; and stripping it again changes nothing. */
  lemma {:induction false} StripIsSafe(t: Text)
    ensures var r := Strip(t);
            r != [] && r != [46, 46] && !Antisocial(r) && (r == [46] || Suffix(r, t)) && Strip(r) == r
    decreases |t|
  {
    if Antisocial(t) {
      StripIsSafe(t[SlashAt(t) + 1..]);
    } else if t != [] && t != [46, 46] {
      assert Suffix(t, t);
    }
  }

  /** The first component of a path with a slash in it is empty, "." or "..". */
  ghost predicate BadStart(t: Text) {
    47 in t && (t[..SlashAt(t)] == [] || t[..SlashAt(t)] == [46] || t[..SlashAt(t)] == [46, 46])
  }

  lemma AntisocialIff(t: Text)
    ensures Antisocial(t) <==> BadStart(t)
  {
    if 47 in t {
      var i := SlashAt(t);
      assert t[i] == 47;
      assert i <= 2 ==> |t[..i]| == i;
    }
  }

  /** Such a component with its slash. */
  ghost predicate BadPart(s: seq<Byte>) { s == [47] || s == [46, 47] || s == [46, 46, 47] }

  /** t[a..b] consists of such components. */
  ghost predicate Junk(t: seq<Byte>, a: nat, b: nat)
    requires a <= b <= |t|
    decreases b - a
  {
    a == b || exists c :: a < c <= b && BadPart(t[a..c]) && Junk(t, c, b)
  }

  /** Stripping takes such components off the front and nothing more, until none is left; what remains is
      kept as it is, except that nothing and ".." become ".". */
  lemma {:induction false} StripTakesJunk(t: Text, a: nat) returns (n: nat)
    requires a <= |t|
    ensures a <= n <= |t| && Junk(t, a, n) && !BadStart(t[n..])
    ensures Strip(t[a..]) == if t[n..] == [] || t[n..] == [46, 46] then [46] else t[n..]
    decreases |t| - a
  {
    AntisocialIff(t[a..]);
    if Antisocial(t[a..]) {
      var c := FirstPart(t, a);
      n := StripTakesJunk(t, c);
    } else {
      n := a;
    }
  }

  lemma FirstPart(t: Text, a: nat) returns (c: nat)
    requires a <= |t| && BadStart(t[a..])
    ensures a < c <= |t| && BadPart(t[a..c]) && c == a + SlashAt(t[a..]) + 1
    ensures t[a..][SlashAt(t[a..]) + 1..] == t[c..]
  {
    var i := SlashAt(t[a..]);
    c := a + i + 1;
    assert t[a..c] == t[a..][..i] + [47];
  }

  method StripAntisocialPrefixes(name: Text) returns (r: Text)
    ensures r == Strip(name)
  {
    r := name;
    while Antisocial(r)
      invariant Strip(r) == Strip(name)
      decreases |r|
    {
      r := r[SlashAt(r) + 1..];
    }
    if r == [] || r == [46, 46] {
      r := [46];
    }
  }

  // ---------------------------------------------------------------- headers

  datatype Header = Header(name: seq<Byte>, mode: seq<Byte>, uid: seq<Byte>, gid: seq<Byte>, size: seq<Byte>,
                           mtime: seq<Byte>, chksum: seq<Byte>, typeflag: Byte, linkname: seq<Byte>, magic: seq<Byte>,
                           version: seq<Byte>, uname: seq<Byte>, gname: seq<Byte>, devmajor: seq<Byte>,
                           devminor: seq<Byte>, prefix: seq<Byte>, padding: seq<Byte>)

  predicate Sized(h: Header) {
    && |h.name| == 100 && |h.mode| == |h.uid| == |h.gid| == 8 && |h.size| == |h.mtime| == 12 && |h.chksum| == 8
    && |h.linkname| == 100 && |h.magic| == 6 && |h.version| == 2 && |h.uname| == |h.gname| == 32
    && |h.devmajor| == |h.devminor| == 8 && |h.prefix| == 155 && |h.padding| == 12
  }

  function Front(h: Header): seq<Byte> { h.name + h.mode + h.uid + h.gid + h.size + h.mtime }

  function Rest(h: Header): seq<Byte> {
    [h.typeflag] + h.linkname + h.magic + h.version + h.uname + h.gname + h.devmajor + h.devminor + h.prefix + h.padding
  }

  /** The 512 bytes of a header. */
  function Bytes(h: Header): (r: seq<Byte>)
    requires Sized(h)
    ensures |r| == 512
  {
    Front(h) + h.chksum + Rest(h)
  }

  /** Sum of the first n bytes, those of the checksum field taken as spaces. */
  function SumTo(s: seq<Byte>, n: nat): nat
    requires n <= |s|
  {
    if n == 0 then 0 else SumTo(s, n - 1) + if 148 <= n - 1 < 156 then 32 else s[n - 1]
  }

  method CalculateChksum(s: seq<Byte>) returns (chksum: nat)
    requires |s| == 512
    ensures chksum == SumTo(s, 512) < Eight(7)
  {
    chksum := 0;
    var i := 0;
    while i < 512
      invariant 0 <= i <= 512 && chksum == SumTo(s, i) <= 255 * i
    {
      chksum := chksum + if 148 <= i < 156 then 32 else s[i];
      i := i + 1;
    }
    assert Eight(2) == 64 && Eight(4) == 4096 && Eight(6) == 262144;
  }

  lemma {:induction false} SumBound(s: seq<Byte>, n: nat)
    requires n <= |s|
    ensures SumTo(s, n) <= 255 * n
  {
    if n > 0 {
      SumBound(s, n - 1);
    }
  }

  /** The checksum does not depend on its own field. */
  lemma {:induction false} SumIgnoresField(s: seq<Byte>, t: seq<Byte>, n: nat)
    requires n <= |s| && n <= |t| && forall i :: 0 <= i < n && !(148 <= i < 156) ==> s[i] == t[i]
    ensures SumTo(s, n) == SumTo(t, n)
  {
    if n > 0 {
      SumIgnoresField(s, t, n - 1);
    }
  }

  /** Any change of one other byte changes the checksum. */
  lemma {:induction false} SumDetects(s: seq<Byte>, n: nat, i: nat, b: Byte)
    requires i < n <= |s| && !(148 <= i < 156) && b != s[i]
    ensures SumTo(s[i := b], n) - SumTo(s, n) == b - s[i] != 0
  {
    if n - 1 == i {
      SumIgnoresField(s[i := b], s, n - 1);
    } else {
      SumDetects(s, n - 1, i, b);
    }
  }

  datatype Type = Regular | Directory

  function TypeByte(t: Type): Byte { if t.Regular? then 48 else 53 }

  datatype Parsed = Eof | Entry(name: Text, ty: Type, size: nat) | Error(message: string)

  /** A number printed with snprintf into a field of w + 1 bytes. */
  function OctalIn(v: nat, w: nat): (f: seq<Byte>)
    requires v < Eight(w) && w > 0
    ensures |f| == w + 1
  {
    OctalOk(v, w);
    InField(Octal(v, w), w + 1)
  }

  function TextField(t: Text, n: nat): (f: seq<Byte>)
    ensures |f| == n
  {
    if |t| < n then InField(t, n) else Zeroes(n)
  }

  /** The header before its checksum is filled in. */
  function Blank(name: Text, ty: Type, size: nat): (h: Header)
    requires |name| <= 99 && size < 0x8000_0000
    ensures Sized(h)
  {
    MtimeFits();
    Header(InField(name, 100), OctalIn(if ty.Regular? then 420 else 493, 7),
           TextField([48, 48, 48, 48, 48, 48, 48], 8), TextField([48, 48, 48, 48, 48, 48, 48], 8),
           OctalIn(size, 11), OctalIn(1136102400, 11), Zeroes(8), TypeByte(ty), Zeroes(100),
           [117, 115, 116, 97, 114, 0], [48, 48],
           TextField([114, 111, 111, 116], 32), TextField([114, 111, 111, 116], 32),
           Zeroes(8), Zeroes(8), Zeroes(155), Zeroes(12))
  }

  lemma MtimeFits()
    ensures 1136102400 < 0x8000_0000 < Eight(11) && 420 < 493 < Eight(7)
  {
    assert Eight(3) == 512 && Eight(6) == 262144 && Eight(9) == 134217728;
  }

  /** ustar_make_header: fails exactly when the stripped name is longer than 99 bytes. */
  function Make(name: Text, ty: Type, size: nat): (r: Option<Header>)
    requires size < 0x8000_0000
    ensures r.None? <==> |Strip(name)| > 99
    ensures r.Some? ==> Sized(r.value)
  {
    var stripped := Strip(name);
    if |stripped| > 99 then None
    else
      var h := Blank(stripped, ty, size);
      ChksumFits(Bytes(h));
      Some(h.(chksum := OctalIn(SumTo(Bytes(h), 512), 7)))
  }

  lemma ChksumFits(s: seq<Byte>)
    requires |s| == 512
    ensures SumTo(s, 512) < Eight(7) && SumTo(s, 512) <= 0xFFFF_FFFF
  {
    SumBound(s, 512);
    assert Eight(3) == 512 && Eight(6) == 262144;
  }

  /** The C string at the start of a field. */
  function CString(f: seq<Byte>): (t: Text)
    ensures |t| <= |f| && t == f[..|t|] && (|t| < |f| ==> f[|t|] == 0)
  {
    if f == [] || f[0] == 0 then [] else [f[0]] + CString(f[1..])
  }

  lemma {:induction false} CStringIs(t: Text, n: nat)
    requires |t| < n
    ensures CString(InField(t, n)) == t
  {
    if t != [] {
      assert InField(t, n)[1..] == InField(t[1..], n - 1);
      CStringIs(t[1..], n - 1);
    }
  }

  predicate AllZero(s: seq<Byte>) { forall i :: 0 <= i < |s| ==> s[i] == 0 }

  /** ustar_parse_header. */
  function Parse(h: Header): Parsed
    requires Sized(h)
  {
    if AllZero(Bytes(h)) then Eof
    else if h.magic != [117, 115, 116, 97, 114, 0] then Error("not a ustar archive")
    else if h.version != [48, 48] then Error("invalid ustar version")
    else if OctalField(h.chksum).None? then Error("corrupt chksum field")
    else if OctalField(h.chksum).value != SumTo(Bytes(h), 512) then Error("checksum mismatch")
    else if h.name[99] != 0 || h.prefix[0] != 0 then Error("file name too long")
    else if h.typeflag != 48 && h.typeflag != 53 then Error("unimplemented file type")
    else if h.typeflag == 48 && OctalField(h.size).None? then Error("corrupt file size field")
    else if h.typeflag == 48 && OctalField(h.size).value > 0x7FFF_FFFF then Error("file too large")
    else Entry(Strip(CString(h.name)), if h.typeflag == 48 then Regular else Directory,
               if h.typeflag == 48 then OctalField(h.size).value else 0)
  }

  /** Headers that differ in the checksum field have the same checksum. */
  lemma SameChksum(h: Header, c: seq<Byte>)
    requires Sized(h) && |c| == 8
    ensures SumTo(Bytes(h.(chksum := c)), 512) == SumTo(Bytes(h), 512)
  {
    var h' := h.(chksum := c);
    assert |Front(h)| == 148;
    forall i | 0 <= i < 512 && !(148 <= i < 156)
      ensures Bytes(h)[i] == Bytes(h')[i]
    {
    }
    SumIgnoresField(Bytes(h'), Bytes(h), 512);
  }

  /** When every check passes, the fields decide the entry. */
  lemma ParseIs(h: Header, t: Text, ty: Type, size: nat)
    requires Sized(h) && h.magic == [117, 115, 116, 97, 114, 0] && h.version == [48, 48] && h.typeflag == TypeByte(ty)
    requires OctalField(h.chksum) == Some(SumTo(Bytes(h), 512))
    requires OctalField(h.size) == Some(size) && size <= 0x7FFF_FFFF
    requires h.name[0] != 0 && h.name[99] == 0 && CString(h.name) == t && h.prefix[0] == 0
    ensures Parse(h) == Entry(Strip(t), ty, if ty.Regular? then size else 0)
  {
    NotBlank(h);
  }

  lemma NameField(t: Text)
    requires t != [] && |t| < 100
    ensures var f := InField(t, 100); f[0] != 0 && f[99] == 0 && CString(f) == t
  {
    CStringIs(t, 100);
  }

  lemma NotBlank(h: Header)
    requires Sized(h) && h.name[0] != 0
    ensures !AllZero(Bytes(h))
  {
    assert Front(h)[0] == h.name[0];
    assert Bytes(h)[0] == Front(h)[0];
  }

  /** Parsing a made header gives back the stripped name, the type and the size (0 for directories). */
  lemma RoundTrip(name: Text, ty: Type, size: nat)
    requires size < 0x8000_0000 && |Strip(name)| <= 99
    ensures Parse(Make(name, ty, size).value) == Entry(Strip(name), ty, if ty.Regular? then size else 0)
  {
    var t := Strip(name);
    StripIsSafe(name);
    MtimeFits();
    var b := Blank(t, ty, size);
    var h := Make(name, ty, size).value;
    ChksumFits(Bytes(b));
    SameChksum(b, h.chksum);
    OctalRoundTrip(SumTo(Bytes(b), 512), 7);
    OctalRoundTrip(size, 11);
    NameField(t);
    ParseIs(h, t, ty, size);
  }

  lemma FieldsOf(h: Header)
    requires Sized(h)
    ensures Bytes(h)[148..156] == h.chksum && Bytes(h)[257..263] == h.magic
  {
    var r := Rest(h);
    assert |Front(h)| == 148 && r[101..107] == h.magic;
    assert Bytes(h)[257..263] == r[101..107];
  }

  /** An entry damaged in one byte, anywhere but in the checksum field, is refused. */
  lemma DamageIsDetected(h: Header, h': Header, i: nat, b: Byte)
    requires Sized(h) && Sized(h') && Parse(h).Entry? && i < 512 && !(148 <= i < 156)
    requires b != Bytes(h)[i] && Bytes(h') == Bytes(h)[i := b]
    ensures Parse(h').Error?
  {
    FieldsOf(h);
    FieldsOf(h');
    assert h'.chksum == h.chksum;
    SumDetects(Bytes(h), 512, i, b);
    assert Bytes(h)[257] == h.magic[0] == 117 && Bytes(h)[258] == h.magic[1] == 115;
    assert Bytes(h')[257] != 0 || Bytes(h')[258] != 0;
  }

  /** Whatever bytes it is given, the parser lets only safe names and sizes through. */
  lemma EntriesAreSafe(h: Header)
    requires Sized(h) && Parse(h).Entry?
    ensures var e := Parse(h);
            && 0 < |e.name| <= 99 && e.name != [46, 46] && !BadStart(e.name)
            && e.size <= 0x7FFF_FFFF && (e.ty.Directory? ==> e.size == 0)
  {
    var t := CString(h.name);
    StripIsSafe(t);
    StripShortens(t);
    AntisocialIff(Strip(t));
    CStringStops(h.name);
  }

  lemma {:induction false} CStringStops(f: seq<Byte>)
    requires f != [] && f[|f| - 1] == 0
    ensures |CString(f)| < |f|
  {
    if f[0] != 0 {
      CStringStops(f[1..]);
    }
  }

  lemma StripShortens(t: Text)
    ensures |Strip(t)| <= |t| || Strip(t) == [46]
  {
    StripIsSafe(t);
  }

  /** A block ends the archive exactly when it is all zeros, and is an entry exactly when it is a ustar header
      of the right version with the right checksum, a short name, a known type and, for a file, a size that
      fits; it is an error otherwise. */
  lemma ParseIff(h: Header)
    requires Sized(h)
    ensures Parse(h).Eof? <==> forall i :: 0 <= i < 512 ==> Bytes(h)[i] == 0
    ensures Parse(h).Entry? <==>
            && h.magic == [117, 115, 116, 97, 114, 0] && h.version == [48, 48]
            && OctalField(h.chksum) == Some(SumTo(Bytes(h), 512))
            && h.name[99] == 0 && h.prefix[0] == 0
            && (h.typeflag == 53 ||
                (h.typeflag == 48 && OctalField(h.size).Some? && OctalField(h.size).value < 0x8000_0000))
    ensures Parse(h).Entry? ==> (Parse(h).ty.Directory? <==> h.typeflag == 53)
  {
    FieldsOf(h);
    assert h.magic == [117, 115, 116, 97, 114, 0] ==> Bytes(h)[257] == h.magic[0];
  }

  /** What a made header says of the file: its permissions, root as owner and group, and the fixed date. */
  lemma MadeFields(name: Text, ty: Type, size: nat)
    requires size < 0x8000_0000 && |Strip(name)| <= 99
    ensures var h := Make(name, ty, size).value;
            && OctalField(h.mode) == Some(if ty.Directory? then 493 else 420)
            && OctalField(h.uid) == Some(0) && OctalField(h.gid) == Some(0)
            && OctalField(h.mtime) == Some(1136102400)
            && CString(h.uname) == [114, 111, 111, 116] == CString(h.gname)
  {
    MtimeFits();
    OctalRoundTrip(if ty.Directory? then 493 else 420, 7);
    OctalRoundTrip(1136102400, 11);
    ZeroField();
    RootField();
  }

  lemma RootField()
    ensures CString(TextField([114, 111, 111, 116], 32)) == [114, 111, 111, 116]
  {
    CStringIs([114, 111, 111, 116], 32);
  }

  lemma ZeroField()
    ensures OctalField(TextField([48, 48, 48, 48, 48, 48, 48], 8)) == Some(0)
  {
    assert Eight(1) == 8 && 0 < Eight(7);
    OctalRoundTrip(0, 7);
    assert Octal(0, 7) == seq(6, _ => 48) + [48] == [48, 48, 48, 48, 48, 48, 48];
  }
}
