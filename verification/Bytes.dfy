/** Bytes, fixed-width little-endian integers and in-place patches of byte
    buffers, shared by every on-disk and on-wire format of the kernel. */
module Bytes {

  type byte = b: int | 0 <= b < 256
  type u16 = v: int | 0 <= v < 0x1_0000
  type u32 = v: int | 0 <= v < 0x1_0000_0000
  type u64 = v: int | 0 <= v < 0x1_0000_0000_0000_0000

  datatype Option<+T> = None | Some(value: T)

  function Min(a: nat, b: nat): nat { if a <= b then a else b }

  /** 256 to the power of `width`: one more than the largest value of that many bytes. */
  function Range(width: nat): (r: nat)
    ensures r > 0
  {
    if width == 0 then 1 else 256 * Range(width - 1)
  }

  lemma Ranges()
    ensures Range(2) == 0x1_0000
    ensures Range(4) == 0x1_0000_0000
    ensures Range(8) == 0x1_0000_0000_0000_0000
  {
    assert Range(1) == 256;
    assert Range(2) == 256 * Range(1);
    assert Range(3) == 256 * Range(2);
    assert Range(4) == 256 * Range(3);
    assert Range(5) == 256 * Range(4);
    assert Range(6) == 256 * Range(5);
    assert Range(7) == 256 * Range(6);
    assert Range(8) == 256 * Range(7);
  }

  /** `to_le_bytes` for an integer of `width` bytes. */
  function ToLe(width: nat, v: nat): (r: seq<byte>)
    ensures |r| == width
  {
    seq(width, i requires 0 <= i < width => v / Range(i) % 256)
  }

  lemma {:induction false} Monotone(a: nat, y: nat, b: nat)
    requires y <= b
    ensures a * y <= a * b
  {
    if y < b {
      Monotone(a, y, b - 1);
      assert a * b == a * (b - 1) + a;
    }
  }

  /** Two quotients of one number with remainders below the divisor are the same. */
  lemma DivideIs(v: nat, d: nat, q: nat, r: nat)
    requires v == d * q + r && r < d
    ensures v / d == q
  {
    var e := v / d;
    assert d * (e - q) == d * e - d * q;
    SmallMultiple(d, e - q);
  }

  lemma SmallMultiple(d: int, k: int)
    requires -d < d * k < d
    ensures k == 0
  {
    MultipleSign(d, k);
    MultipleSign(d, -k);
  }

  lemma MultipleSign(d: int, k: int)
    requires d > 0
    ensures k >= 1 ==> d * k >= d
  {
    if k >= 1 { Monotone(d, 1, k); }
  }

  lemma DivideTwice(v: nat, a: nat)
    requires a > 0
    ensures v / a / 256 == v / (256 * a)
  {
    var q, r := v / a, v % a;
    var x, y := q / 256, q % 256;
    assert a * q == a * (256 * x) + a * y;
    assert a * (256 * x) == 256 * a * x;
    Monotone(a, y, 255);
    DivideIs(v, 256 * a, x, a * y + r);
  }

  lemma ToLeZero(width: nat)
    ensures ToLe(width, 0) == Zeros(width)
  {
  }

  /** The number in the bytes from `i` on, lowest first. */
  function LeFrom(s: seq<byte>, i: nat): (r: nat)
    requires i <= |s|
    ensures r < Range(|s| - i)
    decreases |s| - i
  {
    if i == |s| then 0 else s[i] + 256 * LeFrom(s, i + 1)
  }

  /** `from_le_bytes`. */
  function FromLe(s: seq<byte>): (r: nat)
    ensures r < Range(|s|)
  {
    LeFrom(s, 0)
  }

  lemma {:induction false} LeTail(width: nat, v: nat, i: nat)
    requires v < Range(width) && i <= width
    ensures LeFrom(ToLe(width, v), i) == v / Range(i)
    decreases width - i
  {
    if i < width {
      LeTail(width, v, i + 1);
      LeDigit(v, i);
    } else {
      DivideIs(v, Range(i), 0, v);
    }
  }

  lemma LeDigit(v: nat, i: nat)
    ensures v / Range(i) == v / Range(i) % 256 + 256 * (v / Range(i + 1))
  {
    DivideTwice(v, Range(i));
  }

  lemma LeRoundTrip(width: nat, v: nat)
    requires v < Range(width)
    ensures FromLe(ToLe(width, v)) == v
  {
    LeTail(width, v, 0);
    assert Range(0) == 1;
  }

  function FromLe16(s: seq<byte>): (r: u16)
    requires |s| == 2
  {
    Ranges();
    FromLe(s)
  }

  function FromLe32(s: seq<byte>): (r: u32)
    requires |s| == 4
  {
    Ranges();
    FromLe(s)
  }

  function FromLe64(s: seq<byte>): (r: u64)
    requires |s| == 8
  {
    Ranges();
    FromLe(s)
  }

  lemma LeRoundTrip16(v: u16)
    ensures FromLe16(ToLe(2, v)) == v
  {
    Ranges();
    LeRoundTrip(2, v);
  }

  lemma LeRoundTrip32(v: u32)
    ensures FromLe32(ToLe(4, v)) == v
  {
    Ranges();
    LeRoundTrip(4, v);
  }

  lemma LeRoundTrip64(v: u64)
    ensures FromLe64(ToLe(8, v)) == v
  {
    Ranges();
    LeRoundTrip(8, v);
  }

  /** `vec![0u8; n]` */
  function Zeros(n: nat): (r: seq<byte>)
    ensures |r| == n
    ensures forall i :: 0 <= i < n ==> r[i] == 0
  {
    seq(n, _ => 0)
  }

  /** `buf[off..off + data.len()].copy_from_slice(data)` */
  function Patch(buf: seq<byte>, off: nat, data: seq<byte>): (r: seq<byte>)
    requires off + |data| <= |buf|
    ensures |r| == |buf|
    ensures r[off..off + |data|] == data
    ensures forall i :: 0 <= i < |buf| && !(off <= i < off + |data|) ==> r[i] == buf[i]
  {
    buf[..off] + data + buf[off + |data|..]
  }

  /** A slice of a patched buffer that the patch does not touch. */
  lemma PatchFrame(buf: seq<byte>, off: nat, data: seq<byte>, lo: nat, hi: nat)
    requires off + |data| <= |buf|
    requires lo <= hi <= |buf|
    requires hi <= off || off + |data| <= lo
    ensures Patch(buf, off, data)[lo..hi] == buf[lo..hi]
  {
  }

  lemma SliceOfSlice<T>(s: seq<T>, a: nat, b: nat, lo: nat, hi: nat)
    requires a <= b <= |s|
    requires lo <= hi <= b - a
    ensures s[a..b][lo..hi] == s[a + lo..a + hi]
  {
    var l, r := s[a..b][lo..hi], s[a + lo..a + hi];
    assert |l| == |r| && forall i :: 0 <= i < |l| ==> l[i] == r[i];
  }

  /** Overwrite `data` at `offset`, filling a hole with zeros. */
  function Overlay(content: seq<byte>, offset: nat, data: seq<byte>): (r: seq<byte>)
    ensures |r| == if |content| < offset + |data| then offset + |data| else |content|
    ensures r[offset..offset + |data|] == data
    ensures forall i :: 0 <= i < |r| && !(offset <= i < offset + |data|)
                        ==> r[i] == if i < |content| then content[i] else 0
  {
    var grown := if |content| < offset + |data| then content + Zeros(offset + |data| - |content|) else content;
    Patch(grown, offset, data)
  }

  /** `part` lies at `at` in `buf`. */
  ghost predicate Holds(buf: seq<byte>, at: nat, part: seq<byte>) {
    at + |part| <= |buf| && buf[at..at + |part|] == part
  }

  lemma HoldsParts(buf: seq<byte>, at: nat, a: seq<byte>, b: seq<byte>)
    requires Holds(buf, at, a + b)
    ensures Holds(buf, at, a) && Holds(buf, at + |a|, b)
  {
    var ab := buf[at..at + |a + b|];
    assert buf[at..at + |a|] == ab[..|a|] == a;
    assert buf[at + |a|..at + |a| + |b|] == ab[|a|..] == b;
  }

  lemma HoldsThree(buf: seq<byte>, at: nat, a: seq<byte>, b: seq<byte>, c: seq<byte>)
    requires Holds(buf, at, a + b + c)
    ensures Holds(buf, at, a) && Holds(buf, at + |a|, b) && Holds(buf, at + |a| + |b|, c)
  {
    HoldsParts(buf, at, a + b, c);
    HoldsParts(buf, at, a, b);
  }

  lemma HoldsFive(buf: seq<byte>, at: nat, a: seq<byte>, b: seq<byte>, c: seq<byte>, d: seq<byte>, e: seq<byte>)
    requires Holds(buf, at, a + b + c + d + e)
    ensures Holds(buf, at, a) && Holds(buf, at + |a|, b) && Holds(buf, at + |a| + |b|, c)
    ensures Holds(buf, at + |a| + |b| + |c|, d) && Holds(buf, at + |a| + |b| + |c| + |d|, e)
  {
    HoldsParts(buf, at, a + b + c + d, e);
    HoldsParts(buf, at, a + b + c, d);
    HoldsThree(buf, at, a, b, c);
  }
}
