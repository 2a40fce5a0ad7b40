/** The 44100 to 48000 Hz resampler of the audio bridge: 160 output frames for 147 input frames,
    with a fraction carried from call to call. */
module Resampler {

  const UP: nat := 160
  const DOWN: nat := 147
  const MAX_OUT: nat := 1536

  type Sample = s: int | -0x8000 <= s < 0x8000

  datatype Frame = Frame(left: Sample, right: Sample)

  /** Division that truncates toward zero. */
  function Truncate(a: int, b: nat): int
    requires b > 0
  {
    if a >= 0 then a / b else -(-a / b)
  }

  ghost predicate Between(x: int, a: int, b: int) { (a <= x <= b) || (b <= x <= a) }

  lemma MulBounds(d: int, f: nat, u: nat)
    requires f < u
    ensures 0 <= d ==> 0 <= d * f <= d * u
    ensures d <= 0 ==> d * u <= d * f <= 0
  {
    if d >= 0 {
      assert d * u == d * f + d * (u - f);
    } else {
      assert d * f == -((-d) * f) && d * u == -((-d) * u);
      assert (-d) * u == (-d) * f + (-d) * (u - f);
    }
  }

  lemma TruncateWithin(d: int, f: nat)
    requires f < UP
    ensures Between(Truncate(d * f, UP), 0, d)
  {
    MulBounds(d, f, UP);
  }

  /** Linear interpolation at `frac` parts of 160: the result lies between its two neighbours. */
  function Interpolate(a: Sample, b: Sample, frac: nat): (r: Sample)
    requires frac < UP
    ensures Between(r, a, b)
  {
    TruncateWithin(b - a, frac);
    a + Truncate((b - a) * frac, UP)
  }

  /** `r` lies `frac` parts of 160 of the way from `a` to `b`, cut toward `a`. */
  ghost predicate OnTheWay(a: int, b: int, frac: nat, r: int) {
    var d := (b - a) * frac;
    if d >= 0 then UP * (r - a) <= d < UP * (r - a) + UP else UP * (r - a) - UP < d <= UP * (r - a)
  }

  lemma InterpolateExact(a: Sample, b: Sample, frac: nat)
    requires frac < UP
    ensures OnTheWay(a, b, frac, Interpolate(a, b, frac))
  {
    CutIs((b - a) * frac);
  }

  lemma CutIs(d: int)
    ensures var q := Truncate(d, UP); if d >= 0 then UP * q <= d < UP * q + UP else UP * q - UP < d <= UP * q
  {
  }

  ghost predicate FrameOnTheWay(a: Frame, b: Frame, frac: nat, r: Frame) {
    OnTheWay(a.left, b.left, frac, r.left) && OnTheWay(a.right, b.right, frac, r.right)
  }

  function Blend(a: Frame, b: Frame, frac: nat): Frame
    requires frac < UP
  {
    Frame(Interpolate(a.left, b.left, frac), Interpolate(a.right, b.right, frac))
  }

  lemma BlendExact(a: Frame, b: Frame, frac: nat)
    requires frac < UP
    ensures FrameOnTheWay(a, b, frac, Blend(a, b, frac))
  {
    InterpolateExact(a.left, b.left, frac);
    InterpolateExact(a.right, b.right, frac);
  }

  // ---- One call ----------------------------------------------------------------------------------------

  /** Position of output `k` of a call, in 160ths of an input frame. */
  function At(frac: nat, k: nat): nat { frac + DOWN * k }

  /** Frames a call with `n` frames could put out if the buffer were large enough. */
  function Wanted(frac: nat, n: nat): (r: nat)
    requires frac < UP
    ensures n > 0 ==> r > 0 && At(frac, r - 1) < UP * n <= At(frac, r)
    ensures n == 0 ==> r == 0
  {
    if UP * n <= frac then 0 else (UP * n - frac + DOWN - 1) / DOWN
  }

  /** The call runs out of output buffer before it runs out of input. */
  predicate Truncated(frac: nat, n: nat)
    requires frac < UP
  {
    Wanted(frac, n) > MAX_OUT
  }

  function Outputs(frac: nat, n: nat): nat
    requires frac < UP
  {
    if Truncated(frac, n) then MAX_OUT else Wanted(frac, n)
  }

  /** Output `k` of a call: the input frame at its position, blended with the next one, or with itself at the end
      of the input. */
  function OutputAt(input: seq<Frame>, frac: nat, k: nat): Frame
    requires At(frac, k) < UP * |input|
  {
    var i := At(frac, k) / UP;
    Blend(input[i], input[if i + 1 < |input| then i + 1 else i], At(frac, k) % UP)
  }

  /** The fraction carried to the next call. */
  function Carry(frac: nat, n: nat): (r: nat)
    requires frac < UP
    ensures r < UP
  {
    At(frac, Outputs(frac, n)) % UP
  }

  /** Input frames a call consumes. */
  function Consumed(frac: nat, n: nat): nat
    requires frac < UP
  {
    At(frac, Outputs(frac, n)) / UP
  }

  class Bridge {
    var frac: nat

    ghost predicate Valid()
      reads this
    {
      frac < UP
    }

    constructor ()
      ensures Valid() && frac == 0
    {
      frac := 0;
    }

    /** `rust_hda_write_pcm`: the frames handed to the audio driver. */
    method WritePcm(input: seq<Frame>) returns (out: seq<Frame>)
      requires Valid()
      modifies this
      ensures Valid() && frac == Carry(old(frac), |input|)
      ensures |out| == Outputs(old(frac), |input|) && AllAt(input, old(frac), out)
      ensures forall k: nat | k < |out| :: Blended(input, old(frac), k, out[k])
    {
      out := [];
      var start: nat := frac;
      var inIdx: nat, f: nat := 0, frac;
      while inIdx < |input| && |out| < MAX_OUT
        invariant frac == start < UP && f < UP && UP * inIdx + f == At(start, |out|) && |out| <= MAX_OUT
        invariant AllAt(input, start, out)
        decreases MAX_OUT - |out|
      {
        var i1 := if inIdx + 1 < |input| then inIdx + 1 else inIdx;
        OneMore(input, start, out, inIdx, f);
        out := out + [Blend(input[inIdx], input[i1], f)];
        inIdx, f := Advance(inIdx, f);
      }
      Position(At(start, |out|), inIdx, f);
      HowMany(start, |input|, |out|, inIdx);
      AllBlended(input, start, out);
      frac := f;
    }

    /** The next output position. */
    method Advance(inIdx: nat, f: nat) returns (i: nat, g: nat)
      requires f < UP
      ensures g < UP && UP * i + g == UP * inIdx + f + DOWN
    {
      i, g := inIdx, f + DOWN;
      while g >= UP
        invariant UP * i + g == UP * inIdx + f + DOWN
      {
        g := g - UP;
        i := i + 1;
      }
    }
  }

  /** The frames put out so far are the right ones. */
  ghost predicate AllAt(input: seq<Frame>, frac: nat, out: seq<Frame>) {
    forall k: nat | k < |out| :: At(frac, k) < UP * |input| && out[k] == OutputAt(input, frac, k)
  }

  /** Output `k` of a call lies between the input frames around its position, or is the last one. */
  ghost predicate Blended(input: seq<Frame>, frac: nat, k: nat, r: Frame) {
    var i := At(frac, k) / UP;
    i < |input| && FrameOnTheWay(input[i], input[if i + 1 < |input| then i + 1 else i], At(frac, k) % UP, r)
  }

  lemma AllBlended(input: seq<Frame>, frac: nat, out: seq<Frame>)
    requires AllAt(input, frac, out)
    ensures forall k: nat | k < |out| :: Blended(input, frac, k, out[k])
  {
    forall k: nat | k < |out| ensures Blended(input, frac, k, out[k]) {
      var i := At(frac, k) / UP;
      BlendExact(input[i], input[if i + 1 < |input| then i + 1 else i], At(frac, k) % UP);
    }
  }

  lemma OneMore(input: seq<Frame>, frac: nat, out: seq<Frame>, i: nat, f: nat)
    requires AllAt(input, frac, out) && i < |input| && f < UP && UP * i + f == At(frac, |out|)
    ensures AllAt(input, frac, out + [Blend(input[i], input[if i + 1 < |input| then i + 1 else i], f)])
  {
    Position(At(frac, |out|), i, f);
  }

  lemma Position(p: nat, i: nat, f: nat)
    requires p == UP * i + f && f < UP
    ensures p / UP == i && p % UP == f
  {
  }

  /** The loop stops exactly where the count says. */
  lemma HowMany(frac: nat, n: nat, k: nat, inIdx: nat)
    requires frac < UP && k <= MAX_OUT && At(frac, k) / UP == inIdx && (inIdx >= n || k == MAX_OUT)
    requires k > 0 ==> At(frac, k - 1) < UP * n
    ensures k == Outputs(frac, n)
  {
  }

  // ---- Any number of calls -----------------------------------------------------------------------------------

  /** The fraction after calls with these many frames. */
  ghost function CarryAll(ns: seq<nat>): (r: nat)
    ensures r < UP
  {
    if ns == [] then 0 else Carry(CarryAll(ns[..|ns| - 1]), ns[|ns| - 1])
  }

  ghost function TotalOut(ns: seq<nat>): nat {
    if ns == [] then 0 else TotalOut(ns[..|ns| - 1]) + Outputs(CarryAll(ns[..|ns| - 1]), ns[|ns| - 1])
  }

  ghost function TotalIn(ns: seq<nat>): nat {
    if ns == [] then 0 else TotalIn(ns[..|ns| - 1]) + ns[|ns| - 1]
  }

  /** Some call ran out of output buffer. */
  ghost predicate AnyTruncated(ns: seq<nat>) {
    ns != [] && (AnyTruncated(ns[..|ns| - 1]) || Truncated(CarryAll(ns[..|ns| - 1]), ns[|ns| - 1]))
  }

  function CeilDiv(a: nat, b: nat): nat
    requires b > 0
  {
    (a + b - 1) / b
  }

  /** A call consumes all its input, unless it is truncated: then some is lost. */
  lemma OneCall(frac: nat, n: nat)
    requires frac < UP
    ensures At(frac, Outputs(frac, n)) == UP * Consumed(frac, n) + Carry(frac, n)
    ensures if Truncated(frac, n) then Consumed(frac, n) < n else Consumed(frac, n) == n
    ensures !Truncated(frac, n) && frac < DOWN ==> Carry(frac, n) < DOWN
  {
  }

  /** The balance of all calls: outputs account for the consumed input and the carried fraction. */
  lemma {:induction false} Balance(ns: seq<nat>)
    ensures !AnyTruncated(ns) ==> DOWN * TotalOut(ns) == UP * TotalIn(ns) + CarryAll(ns) && CarryAll(ns) < DOWN
    ensures AnyTruncated(ns) ==> DOWN * TotalOut(ns) + UP <= UP * TotalIn(ns) + CarryAll(ns)
  {
    if ns != [] {
      var before, n := ns[..|ns| - 1], ns[|ns| - 1];
      Balance(before);
      OneCall(CarryAll(before), n);
      AddCall(TotalOut(before), TotalIn(before), CarryAll(before), n, AnyTruncated(before));
    }
  }

  lemma AddCall(o: nat, i: nat, frac: nat, n: nat, lost: bool)
    requires frac < UP && (if lost then DOWN * o + UP <= UP * i + frac else DOWN * o == UP * i + frac && frac < DOWN)
    ensures var o', i', f' := o + Outputs(frac, n), i + n, Carry(frac, n);
            if lost || Truncated(frac, n) then DOWN * o' + UP <= UP * i' + f' else DOWN * o' == UP * i' + f' && f' < DOWN
  {
    OneCall(frac, n);
  }

  /** No drift: the total output is the exact ratio, rounded up, however the input was cut into calls, if and only if
      no call ran out of output buffer. */
  lemma NoDrift(ns: seq<nat>)
    ensures TotalOut(ns) == CeilDiv(UP * TotalIn(ns), DOWN) <==> !AnyTruncated(ns)
  {
    Balance(ns);
    CeilIs(TotalOut(ns), UP * TotalIn(ns), CarryAll(ns));
  }

  lemma CeilIs(o: nat, a: nat, f: nat)
    requires f < UP
    ensures DOWN * o == a + f && f < DOWN ==> o == CeilDiv(a, DOWN)
    ensures DOWN * o + UP <= a + f ==> o < CeilDiv(a, DOWN)
  {
  }

  /** A call of at most 1411 frames is never truncated. */
  lemma {:induction false} SmallCallsFit(ns: seq<nat>)
    requires forall i :: 0 <= i < |ns| ==> ns[i] <= 1411
    ensures !AnyTruncated(ns) && TotalOut(ns) == CeilDiv(UP * TotalIn(ns), DOWN)
  {
    if ns != [] { SmallCallsFit(ns[..|ns| - 1]); }
    NoDrift(ns);
  }

  /** The exact limit of one call. */
  lemma TruncatedExact(frac: nat, n: nat)
    requires frac < UP
    ensures Truncated(frac, n) <==> UP * n - frac > DOWN * MAX_OUT
  {
  }

  /** The position of an output in the whole stream does not depend on how the input was cut into calls: output `k` of
      the next call is output number `TotalOut + k`, and its position is 147/160 of that number. */
  lemma PositionInStream(ns: seq<nat>, k: nat)
    requires !AnyTruncated(ns)
    ensures UP * TotalIn(ns) + At(CarryAll(ns), k) == DOWN * (TotalOut(ns) + k)
  {
    Balance(ns);
  }

  // ---- The samples themselves -------------------------------------------------------------------------------------------

  ghost function Lengths(calls: seq<seq<Frame>>): (r: seq<nat>)
    ensures |r| == |calls|
  {
    seq(|calls|, i requires 0 <= i < |calls| => |calls[i]|)
  }

  /** The input of the first `n` calls in one piece. */
  ghost function Joined(calls: seq<seq<Frame>>, n: nat): (r: seq<Frame>)
    requires n <= |calls|
  {
    if n == 0 then [] else Joined(calls, n - 1) + calls[n - 1]
  }

  lemma {:induction false} JoinedLength(calls: seq<seq<Frame>>, n: nat)
    requires n <= |calls|
    ensures |Joined(calls, n)| == TotalIn(Lengths(calls)[..n])
  {
    if n > 0 {
      JoinedLength(calls, n - 1);
      assert Lengths(calls)[..n][..n - 1] == Lengths(calls)[..n - 1];
    }
  }

  lemma {:induction false} JoinedPrefix(calls: seq<seq<Frame>>, n: nat, m: nat)
    requires n <= m <= |calls|
    ensures Joined(calls, n) <= Joined(calls, m)
  {
    if n < m { JoinedPrefix(calls, n, m - 1); }
  }

  /** A frame blended with itself is itself. */
  lemma BlendSelf(a: Frame, f: nat)
    requires f < UP
    ensures Blend(a, a, f) == a
  {
    assert 0 * f == 0;
  }

  lemma SplitPosition(t: nat, frac: nat, k: nat)
    ensures (UP * t + At(frac, k)) / UP == t + At(frac, k) / UP && (UP * t + At(frac, k)) % UP == At(frac, k) % UP
  {
    Position(UP * t + At(frac, k), t + At(frac, k) / UP, At(frac, k) % UP);
  }

  /** What cutting the input into calls does to the samples, on both channels: output number `m` of the whole stream
      lies, as without any cut, between the two input frames around its position `147 m / 160`, at the fraction of that
      position, except that the last frame of a call is held instead of leading to the first frame of the next call. */
  lemma ValueInStream(calls: seq<seq<Frame>>, n: nat, k: nat)
    requires n < |calls| && !AnyTruncated(Lengths(calls)[..n])
    requires At(CarryAll(Lengths(calls)[..n]), k) < UP * |calls[n]|
    ensures var frac := CarryAll(Lengths(calls)[..n]); var all := Joined(calls, |calls|);
            var p := DOWN * (TotalOut(Lengths(calls)[..n]) + k); var i := p / UP; var end := |Joined(calls, n + 1)|;
            && i < end <= |all|
            && if i + 1 == end then OutputAt(calls[n], frac, k) == all[i]
               else FrameOnTheWay(all[i], all[i + 1], p % UP, OutputAt(calls[n], frac, k))
  {
    var ns := Lengths(calls)[..n];
    var t := TotalIn(ns);
    JoinedLength(calls, n);
    PositionInStream(ns, k);
    SplitPosition(t, CarryAll(ns), k);
    JoinedPrefix(calls, n + 1, |calls|);
    ValueInCall(Joined(calls, n), calls[n], Joined(calls, |calls|), CarryAll(ns), k);
  }

  lemma ValueInCall(before: seq<Frame>, input: seq<Frame>, all: seq<Frame>, frac: nat, k: nat)
    requires At(frac, k) < UP * |input| && before + input <= all
    ensures var i := |before| + At(frac, k) / UP;
            && i < |before| + |input| <= |all|
            && if i + 1 == |before| + |input| then OutputAt(input, frac, k) == all[i]
               else FrameOnTheWay(all[i], all[i + 1], At(frac, k) % UP, OutputAt(input, frac, k))
  {
    var j := At(frac, k) / UP;
    assert input[j] == (before + input)[|before| + j] == all[|before| + j];
    BlendSelf(input[j], At(frac, k) % UP);
    if j + 1 < |input| {
      assert input[j + 1] == (before + input)[|before| + j + 1] == all[|before| + j + 1];
      BlendExact(input[j], input[j + 1], At(frac, k) % UP);
    }
  }
}
