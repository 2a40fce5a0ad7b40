/** The Internet checksum of IPv4 headers and TCP segments (section 3.1 of RFC 791, section 3.1 of RFC 793):
    the folding loop, self-verification, and the pseudo-header. */
module Checksum {
  import opened Bytes

  const ONES: nat := 0xFFFF

  /** Bytes whose word sum fits in 32 bits. */
  const MAX_BYTES: nat := 131072

  /** The sum of the big-endian words from byte `i` on; a last odd byte counts as a high byte. */
  function SumFrom(data: seq<byte>, i: nat): (r: nat)
    requires i <= |data|
    ensures r <= ONES * ((|data| - i + 1) / 2)
    decreases |data| - i
  {
    if i == |data| then 0
    else if i + 1 == |data| then 256 * data[i]
    else Word(data, i) + SumFrom(data, i + 2)
  }

  function Word(data: seq<byte>, i: nat): (r: u16)
    requires i + 1 < |data|
  {
    256 * (data[i] as int) + data[i + 1]
  }

  function Sum(data: seq<byte>): nat { SumFrom(data, 0) }

  /** One's complement addition folded to 16 bits: the sum modulo 65535, with 65535 for a non-zero multiple. */
  function Fold(sum: nat): (r: u16)
    ensures r == 0 <==> sum == 0
    ensures (sum - r) % ONES == 0
  {
    if sum == 0 then 0 else (sum - 1) % ONES + 1
  }

  /** `checksum` */
  function Checksum(data: seq<byte>): u16 { ONES - Fold(Sum(data)) }

  /** The example of section 3 of RFC 1071. */
  lemma KnownChecksum()
    ensures Checksum([0x00, 0x01, 0xF2, 0x03, 0xF4, 0xF5, 0xF6, 0xF7]) == 0x220D
  {
    var d: seq<byte> := [0x00, 0x01, 0xF2, 0x03, 0xF4, 0xF5, 0xF6, 0xF7];
    assert SumFrom(d, 6) == 0xF6F7 && SumFrom(d, 4) == 0xF4F5 + 0xF6F7;
    assert SumFrom(d, 2) == 0xF203 + SumFrom(d, 4) && Sum(d) == 0x0001 + SumFrom(d, 2);
  }

  // ---- The loops --------------------------------------------------------------------------------------------

  lemma FoldStep(sum: nat)
    requires sum > ONES
    ensures Fold(sum % 0x1_0000 + sum / 0x1_0000) == Fold(sum) && 0 < sum % 0x1_0000 + sum / 0x1_0000 < sum
  {
    var hi, lo := sum / 0x1_0000, sum % 0x1_0000;
    assert sum - 1 == (lo + hi - 1) + ONES * hi;
    AddMultiple(lo + hi - 1, hi);
  }

  lemma AddMultiple(x: nat, k: nat)
    ensures (x + ONES * k) % ONES == x % ONES
  {
  }

  method FoldLoop(start: u32) returns (r: u16)
    ensures r == Fold(start)
  {
    var sum: nat := start;
    while sum > ONES
      invariant Fold(sum) == Fold(start)
      decreases sum
    {
      FoldStep(sum);
      sum := sum % 0x1_0000 + sum / 0x1_0000;
    }
    r := sum;
  }

  /** The word loop; the 32-bit sum does not overflow. */
  method SumLoop(data: seq<byte>, start: nat) returns (sum: u32)
    requires |data| <= MAX_BYTES && start + ONES * ((|data| + 1) / 2) < 0x1_0000_0000
    ensures sum == start + Sum(data)
  {
    sum := start;
    var i := 0;
    while i + 1 < |data|
      invariant 0 <= i <= |data| && i % 2 == 0 && sum + SumFrom(data, i) == start + Sum(data)
    {
      sum := sum + Word(data, i);
      i := i + 2;
    }
    if i < |data| { sum := sum + 256 * (data[i] as int); }
  }

  method ChecksumLoop(data: seq<byte>) returns (r: u16)
    requires |data| <= MAX_BYTES
    ensures r == Checksum(data)
  {
    var sum := SumLoop(data, 0);
    var folded := FoldLoop(sum);
    r := ONES - folded;
  }

  // ---- Self-verification --------------------------------------------------------------------------------------

  lemma {:induction false} SumSame(a: seq<byte>, b: seq<byte>, i: nat)
    requires |a| == |b| && i <= |a| && forall j :: i <= j < |a| ==> a[j] == b[j]
    ensures SumFrom(a, i) == SumFrom(b, i)
    decreases |a| - i
  {
    if i + 1 < |a| { SumSame(a, b, i + 2); }
  }

  /** Two bytes as a big-endian word. */
  function ToBe16(v: u16): (r: seq<byte>)
    ensures |r| == 2 && Word(r, 0) == v
  {
    [v / 256, v % 256]
  }

  /** Filling a zero word adds its value to the sum. */
  lemma {:induction false} FillWord(data: seq<byte>, at: nat, v: u16, i: nat)
    requires at % 2 == 0 && at + 2 <= |data| && data[at] == 0 && data[at + 1] == 0 && i % 2 == 0 && i <= at
    ensures SumFrom(Patch(data, at, ToBe16(v)), i) == SumFrom(data, i) + v
    decreases at - i
  {
    var p := Patch(data, at, ToBe16(v));
    if i < at {
      FillWord(data, at, v, i + 2);
    } else {
      assert p[at] == p[at..at + 2][0] && p[at + 1] == p[at..at + 2][1];
      SumSame(p, data, at + 2);
    }
  }

  /** Storing the computed checksum in its zeroed, even-aligned field makes the checksum of the whole zero. */
  lemma SelfVerifies(data: seq<byte>, at: nat)
    requires at % 2 == 0 && at + 2 <= |data| && data[at] == 0 && data[at + 1] == 0
    ensures Checksum(Patch(data, at, ToBe16(Checksum(data)))) == 0
  {
    var c := Checksum(data);
    FillWord(data, at, c, 0);
    FoldsToOnes(Sum(data));
  }

  lemma FoldsToOnes(sum: nat)
    ensures Fold(sum + (ONES - Fold(sum))) == ONES
  {
    if sum > 0 {
      var q := (sum - 1) / ONES;
      assert sum + (ONES - Fold(sum)) - 1 == ONES * q + (ONES - 1);
      AddMultiple(ONES - 1, q);
    }
  }

  /** And only that value does: any other value in the field is found out, but for the two forms of zero. */
  lemma OnlyTheChecksumVerifies(data: seq<byte>, at: nat, v: u16)
    requires at % 2 == 0 && at + 2 <= |data| && data[at] == 0 && data[at + 1] == 0
    ensures Checksum(Patch(data, at, ToBe16(v))) == 0 <==>
              Sum(data) + v > 0 && (v == Checksum(data) || (v == ONES && Checksum(data) == 0))
  {
    FillWord(data, at, v, 0);
    FoldIsOnes(Sum(data), v);
  }

  lemma FoldIsOnes(sum: nat, v: u16)
    ensures Fold(sum + v) == ONES <==> sum + v > 0 && (v == ONES - Fold(sum) || (v == ONES && Fold(sum) == ONES))
  {
    var f := Fold(sum);
    var q := (sum - f) / ONES;
    assert sum == ONES * q + f;
    if sum + v > 0 {
      if f + v > 0 {
        assert sum + v - 1 == (f + v - 1) + ONES * q;
        AddMultiple(f + v - 1, q);
      }
    }
  }

  // ---- The TCP pseudo-header ----------------------------------------------------------------------------------------

  type Ip = a: seq<byte> | |a| == 4 witness Zeros(4)

  const TCP: byte := 6

  /** Source, destination, a zero, the protocol and the segment length. */
  function PseudoHeader(src: Ip, dst: Ip, len: u16): (r: seq<byte>)
    ensures |r| == 12
  {
    src + dst + [0, TCP] + ToBe16(len)
  }

  /** The pseudo-header of section 3.1 of RFC 793, field by field. */
  lemma PseudoHeaderFields(src: Ip, dst: Ip, len: u16)
    ensures var h := PseudoHeader(src, dst, len);
            h[..4] == src && h[4..8] == dst && h[8] == 0 && h[9] == 6 && Word(h, 10) == len
  {
    var h := PseudoHeader(src, dst, len);
    assert h[10] == ToBe16(len)[0] && h[11] == ToBe16(len)[1];
    assert h[..4] == src && h[4..8] == dst;
  }

  /** `tcp_checksum` */
  method TcpChecksum(src: Ip, dst: Ip, segment: seq<byte>) returns (r: u16)
    requires |segment| < 0x1_0000
    ensures r == Checksum(PseudoHeader(src, dst, |segment|) + segment)
  {
    var start := Word(src, 0) + Word(src, 2) + Word(dst, 0) + Word(dst, 2) + TCP + |segment|;
    var sum := SumLoop(segment, start);
    var folded := FoldLoop(sum);
    PseudoSum(src, dst, |segment|, segment);
    r := ONES - folded;
  }

  lemma {:induction false} SumBehind(a: seq<byte>, b: seq<byte>, i: nat)
    requires i <= |b|
    ensures SumFrom(a + b, |a| + i) == SumFrom(b, i)
    decreases |b| - i
  {
    if i + 1 < |b| { SumBehind(a, b, i + 2); }
  }

  lemma PseudoSum(src: Ip, dst: Ip, len: u16, segment: seq<byte>)
    ensures Sum(PseudoHeader(src, dst, len) + segment)
         == Word(src, 0) + Word(src, 2) + Word(dst, 0) + Word(dst, 2) + TCP + len + Sum(segment)
  {
    var h := PseudoHeader(src, dst, len);
    var all := h + segment;
    SumBehind(h, segment, 0);
    assert SumFrom(all, 10) == Word(all, 10) + SumFrom(all, 12);
    assert SumFrom(all, 8) == Word(all, 8) + SumFrom(all, 10);
    assert SumFrom(all, 6) == Word(all, 6) + SumFrom(all, 8);
    assert SumFrom(all, 4) == Word(all, 4) + SumFrom(all, 6);
    assert SumFrom(all, 2) == Word(all, 2) + SumFrom(all, 4);
    assert SumFrom(all, 0) == Word(all, 0) + SumFrom(all, 2);
    assert all[10] == ToBe16(len)[0] && all[11] == ToBe16(len)[1];
  }

  // ---- The IPv4 header ------------------------------------------------------------------------------------------------

  /** The header `send_ipv4_ttl` builds, with a zero checksum field. */
  function BlankHeader(total: u16, id: u16, ttl: byte, protocol: byte, src: Ip, dst: Ip): (r: seq<byte>)
    ensures |r| == 20
  {
    [0x45, 0x00] + ToBe16(total) + ToBe16(id) + [0x40, 0x00, ttl, protocol, 0, 0] + src + dst
  }

  /** The finished header: its checksum is zero, and everything but the field is as built. */
  method BuildHeader(payload: nat, id: u16, ttl: byte, protocol: byte, src: Ip, dst: Ip) returns (h: Option<seq<byte>>)
    ensures h.Some? <==> 20 + payload <= 1480
    ensures h.Some? ==> |h.value| == 20 && Checksum(h.value) == 0
    ensures h.Some? ==> h.value[..10] == BlankHeader(20 + payload, id, ttl, protocol, src, dst)[..10]
    ensures h.Some? ==> h.value[12..16] == src && h.value[16..] == dst && Word(h.value, 2) == 20 + payload
    // Version 4 with five words, no service type, the identification, Don't Fragment, the time to live and the protocol.
    ensures h.Some? ==> h.value[0] == 0x45 && h.value[1] == 0 && Word(h.value, 4) == id && Word(h.value, 6) == 0x4000
    ensures h.Some? ==> h.value[8] == ttl && h.value[9] == protocol
  {
    var total := 20 + payload;
    if total > 1480 { return None; }
    var blank := BlankHeader(total, id, ttl, protocol, src, dst);
    var c := ChecksumLoop(blank);
    SelfVerifies(blank, 10);
    var r := Patch(blank, 10, ToBe16(c));
    assert r[..10] == blank[..10] && r[12..16] == blank[12..16] == src && r[16..] == blank[16..] == dst;
    assert r[2] == blank[2] == ToBe16(total)[0] && r[3] == blank[3] == ToBe16(total)[1];
    assert r[4] == blank[4] == ToBe16(id)[0] && r[5] == blank[5] == ToBe16(id)[1];
    assert r[0] == blank[0] && r[1] == blank[1] && r[6] == blank[6] && r[7] == blank[7] && r[8] == blank[8] && r[9] == blank[9];
    h := Some(r);
  }
}
