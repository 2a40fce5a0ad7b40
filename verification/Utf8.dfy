/** Well-formed UTF-8 (section 4 of RFC 3629): what `core::str::from_utf8` accepts. */
module Utf8 {
  import opened Bytes

  predicate Cont(b: byte) { 0x80 <= b <= 0xBF }

  /** Length of the well-formed character at `i`, or 0. */
  function CharAt(s: seq<byte>, i: nat): (n: nat)
    requires i < |s|
    ensures i + n <= |s| && n <= 4
  {
    var b, left := s[i], |s| - i;
    if b < 0x80 then 1
    else if 0xC2 <= b <= 0xDF then if left >= 2 && Cont(s[i + 1]) then 2 else 0
    else if 0xE0 <= b <= 0xEF then
      if left >= 3 && Cont(s[i + 1]) && Cont(s[i + 2])
         && (b == 0xE0 ==> s[i + 1] >= 0xA0) && (b == 0xED ==> s[i + 1] <= 0x9F) then 3 else 0
    else if 0xF0 <= b <= 0xF4 then
      if left >= 4 && Cont(s[i + 1]) && Cont(s[i + 2]) && Cont(s[i + 3])
         && (b == 0xF0 ==> s[i + 1] >= 0x90) && (b == 0xF4 ==> s[i + 1] <= 0x8F) then 4 else 0
    else 0
  }

  predicate ValidFrom(s: seq<byte>, i: nat)
    requires i <= |s|
    decreases |s| - i
  {
    i == |s| || (CharAt(s, i) > 0 && ValidFrom(s, i + CharAt(s, i)))
  }

  predicate Valid(s: seq<byte>) { ValidFrom(s, 0) }

  // ---- Joining and cutting ---------------------------------------------------------------------

  lemma {:induction false} ValidBehind(a: seq<byte>, b: seq<byte>, j: nat)
    requires j <= |b|
    ensures ValidFrom(a + b, |a| + j) <==> ValidFrom(b, j)
    decreases |b| - j
  {
    if j < |b| {
      assert CharAt(a + b, |a| + j) == CharAt(b, j);
      if CharAt(b, j) > 0 { ValidBehind(a, b, j + CharAt(b, j)); }
    }
  }

  lemma {:induction false} ValidBefore(a: seq<byte>, b: seq<byte>, i: nat)
    requires i <= |a| && ValidFrom(a, i) && Valid(b)
    ensures ValidFrom(a + b, i)
    decreases |a| - i
  {
    if i < |a| {
      assert CharAt(a + b, i) == CharAt(a, i);
      ValidBefore(a, b, i + CharAt(a, i));
    } else {
      ValidBehind(a, b, 0);
    }
  }

  lemma Joined(a: seq<byte>, b: seq<byte>)
    requires Valid(a) && Valid(b)
    ensures Valid(a + b)
  {
    ValidBefore(a, b, 0);
  }

  lemma {:induction false} CutFrom(s: seq<byte>, i: nat, m: nat)
    requires i <= m <= |s| && ValidFrom(s, i) && (m < |s| ==> s[m] < 0x80)
    ensures ValidFrom(s[..m], i) && ValidFrom(s, m)
    decreases m - i
  {
    if i < m {
      var n := CharAt(s, i);
      assert i + n <= m && CharAt(s[..m], i) == n;
      CutFrom(s, i + n, m);
    }
  }

  /** No character spans a plain ASCII byte. */
  lemma Cut(s: seq<byte>, m: nat)
    requires Valid(s) && m <= |s| && (m < |s| ==> s[m] < 0x80)
    ensures Valid(s[..m]) && Valid(s[m..])
  {
    CutFrom(s, 0, m);
    assert s[..m] + s[m..] == s;
    ValidBehind(s[..m], s[m..], 0);
  }

  // ---- The encoding of section 3 of RFC 3629 -----------------------------------------------------

  type Scalar = c: nat | c < 0xD800 || 0xE000 <= c < 0x11_0000

  /** One character, its bits six to a byte behind the first. */
  function Encode(c: Scalar): (r: seq<byte>)
    ensures 0 < |r| <= 4
  {
    if c < 0x80 then [c]
    else if c < 0x800 then [0xC0 + c / 0x40, 0x80 + c % 0x40]
    else if c < 0x1_0000 then [0xE0 + c / 0x1000, 0x80 + c / 0x40 % 0x40, 0x80 + c % 0x40]
    else [0xF0 + c / 0x4_0000, 0x80 + c / 0x1000 % 0x40, 0x80 + c / 0x40 % 0x40, 0x80 + c % 0x40]
  }

  function EncodeAll(cs: seq<Scalar>): seq<byte> {
    if cs == [] then [] else Encode(cs[0]) + EncodeAll(cs[1..])
  }

  lemma EncodedChar(c: Scalar)
    ensures Valid(Encode(c))
  {
    var e := Encode(c);
    assert CharAt(e, 0) == |e|;
  }

  lemma {:induction false} EncodedValid(cs: seq<Scalar>)
    ensures Valid(EncodeAll(cs))
  {
    if cs != [] {
      EncodedValid(cs[1..]);
      EncodedChar(cs[0]);
      Joined(Encode(cs[0]), EncodeAll(cs[1..]));
    }
  }

  /** Six bits behind others. */
  lemma Low(hi: nat, x: nat)
    requires x < 0x40
    ensures (hi * 0x40 + x) % 0x40 == x && (hi * 0x40 + x) / 0x40 == hi
  {
  }

  lemma Three(a: nat, x: nat, y: nat)
    requires a < 0x10 && x < 0x40 && y < 0x40 && (a == 0 ==> x >= 0x20) && (a == 0xD ==> x < 0x20)
    ensures var c := (a * 0x40 + x) * 0x40 + y;
            (0x800 <= c < 0xD800 || 0xE000 <= c < 0x1_0000) && Encode(c) == [0xE0 + a, 0x80 + x, 0x80 + y]
  {
    Low(a, x);
    Low(a * 0x40 + x, y);
    var c := (a * 0x40 + x) * 0x40 + y;
    assert c / 0x1000 == c / 0x40 / 0x40;
  }

  lemma Four(a: nat, x: nat, y: nat, z: nat)
    requires a < 5 && x < 0x40 && y < 0x40 && z < 0x40 && (a == 0 ==> x >= 0x10) && (a == 4 ==> x < 0x10)
    ensures var c := ((a * 0x40 + x) * 0x40 + y) * 0x40 + z;
            0x1_0000 <= c < 0x11_0000 && Encode(c) == [0xF0 + a, 0x80 + x, 0x80 + y, 0x80 + z]
  {
    Low(a, x);
    Low(a * 0x40 + x, y);
    Low((a * 0x40 + x) * 0x40 + y, z);
    var c := ((a * 0x40 + x) * 0x40 + y) * 0x40 + z;
    assert c / 0x1000 == c / 0x40 / 0x40 && c / 0x4_0000 == c / 0x40 / 0x40 / 0x40;
  }

  /** Every character accepted is the encoding of one. */
  lemma CharDecodes(s: seq<byte>, i: nat) returns (c: Scalar)
    requires i < |s| && CharAt(s, i) > 0
    ensures Encode(c) == s[i..i + CharAt(s, i)]
  {
    var n := CharAt(s, i);
    var e := s[i..i + n];
    if n == 1 {
      c := s[i];
    } else if n == 2 {
      Low(e[0] as int - 0xC0, e[1] as int - 0x80);
      c := (e[0] as int - 0xC0) * 0x40 + (e[1] as int - 0x80);
    } else if n == 3 {
      var a, x, y := e[0] as int - 0xE0, e[1] as int - 0x80, e[2] as int - 0x80;
      Three(a, x, y);
      c := (a * 0x40 + x) * 0x40 + y;
    } else {
      var a, x, y, z := e[0] as int - 0xF0, e[1] as int - 0x80, e[2] as int - 0x80, e[3] as int - 0x80;
      Four(a, x, y, z);
      c := ((a * 0x40 + x) * 0x40 + y) * 0x40 + z;
    }
  }

  lemma {:induction false} ValidDecodes(s: seq<byte>, i: nat) returns (cs: seq<Scalar>)
    requires i <= |s| && ValidFrom(s, i)
    ensures EncodeAll(cs) == s[i..]
    decreases |s| - i
  {
    if i == |s| { return []; }
    var n := CharAt(s, i);
    var c := CharDecodes(s, i);
    var rest := ValidDecodes(s, i + n);
    cs := [c] + rest;
    assert cs[1..] == rest && s[i..] == s[i..i + n] + s[i + n..];
  }

  /** The check accepts exactly the encodings of sequences of characters. */
  lemma ValidExact(s: seq<byte>)
    ensures Valid(s) <==> exists cs: seq<Scalar> :: EncodeAll(cs) == s
  {
    if Valid(s) {
      var cs := ValidDecodes(s, 0);
      assert s[0..] == s;
    }
    if cs: seq<Scalar> :| EncodeAll(cs) == s { EncodedValid(cs); }
  }
}
