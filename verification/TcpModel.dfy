/** One TCP connection as a value: what the segment handler, send, receive and
    close do, and what holds over every run against any network. */
module TcpModel {
  import opened Bytes

  const RX_BUF_SIZE: nat := 8192
  const TX_BUF_SIZE: nat := 4096
  const MAX_PAYLOAD: nat := 1440
  const DEFAULT_WINDOW: u16 := 8192
  const W: nat := 0x1_0000_0000

  datatype State =
    Closed | Listen | SynSent | SynReceived | Established | FinWait1 | FinWait2 | CloseWait | LastAck | TimeWait

  datatype Segment = Segment(seqNo: u32, ackNo: u32, syn: bool, ack: bool, fin: bool, rst: bool,
                             window: u16, payload: seq<byte>)

  /** A connection block; `rx` is what the receive ring holds, `resend` the chunk kept for retransmission. */
  datatype Conn = Conn(state: State, sndUna: u32, sndNxt: u32, sndIss: u32, rcvNxt: u32, rcvIrs: u32,
                       rcvWnd: u16, sndWnd: u16, rx: seq<byte>, resend: seq<byte>)

  /** `wrapping_add` on sequence numbers. */
  function Plus(a: u32, n: nat): u32 { (a + n) % W }

  function FreeSpace(c: Conn): nat { if |c.rx| <= RX_BUF_SIZE then RX_BUF_SIZE - |c.rx| else 0 }

  /** `TcpConn::new` */
  function Fresh(): Conn { Conn(Closed, 0, 0, 0, 0, 0, DEFAULT_WINDOW, DEFAULT_WINDOW, [], []) }

  /** `tcp_connect` up to the wait: a SYN has been sent. */
  function Connect(iss: u32): Conn {
    Fresh().(state := SynSent, sndIss := iss, sndUna := iss, sndNxt := Plus(iss, 1))
  }

  /** `tcp_accept` up to the wait: a SYN with sequence number `irs` has been answered. */
  function Accept(iss: u32, irs: u32): Conn {
    Fresh().(state := SynReceived, sndIss := iss, sndUna := iss, sndNxt := Plus(iss, 1),
             rcvIrs := irs, rcvNxt := Plus(irs, 1))
  }

  /** `ack_in_range` */
  predicate AckInRange(una: u32, ack: u32, nxt: u32) {
    if nxt >= una then una <= ack <= nxt else ack >= una || ack <= nxt
  }

  function Control(c: Conn, flagSyn: bool, flagFin: bool, window: u16): Segment {
    Segment(c.sndNxt, c.rcvNxt, flagSyn, true, flagFin, false, window, [])
  }

  datatype Step = Step(conn: Conn, sent: seq<Segment>)

  /** `Established`, first part: the acknowledgment. */
  function TakeAck(c: Conn, g: Segment): Conn {
    if !g.ack then c
    else if AckInRange(c.sndUna, g.ackNo, c.sndNxt) then c.(sndUna := g.ackNo, resend := [], sndWnd := g.window)
    else c.(sndWnd := g.window)
  }

  /** `Established`, second part: in-order data goes into the ring as far as it fits. */
  function TakeData(c: Conn, g: Segment): Step {
    if g.payload != [] && g.seqNo == c.rcvNxt then
      var n := Min(|g.payload|, FreeSpace(c));
      var c1 := c.(rx := c.rx + g.payload[..n], rcvNxt := Plus(c.rcvNxt, n));
      Step(c1, [Control(c1, false, false, Min(FreeSpace(c1), 0xFFFF))])
    else Step(c, [])
  }

  /** A FIN is accepted whatever its sequence number. */
  function TakeFin(c: Conn, next: State): Step {
    var c1 := c.(rcvNxt := Plus(c.rcvNxt, 1), state := next);
    Step(c1, [Control(c1, false, false, c1.rcvWnd)])
  }

  /** `handle_conn_segment` */
  function Handle(c: Conn, g: Segment): (r: Step) {
    if g.rst then Step(c.(state := Closed), []) else
    match c.state
    case SynSent =>
      if g.syn && g.ack then
        if g.ackNo == c.sndNxt then
          var c1 := c.(rcvIrs := g.seqNo, rcvNxt := Plus(g.seqNo, 1), sndUna := g.ackNo, sndWnd := g.window,
                       state := Established);
          Step(c1, [Control(c1, false, false, c1.rcvWnd)])
        else Step(c.(state := Closed), [Segment(g.ackNo, 0, false, false, false, true, 0, [])])
      else Step(c, [])
    case SynReceived =>
      if g.ack && g.ackNo == c.sndNxt then
        Step(c.(sndUna := g.ackNo, sndWnd := g.window, state := Established), [])
      else Step(c, [])
    case Established =>
      var d := TakeData(TakeAck(c, g), g);
      if g.fin then
        var f := TakeFin(d.conn, CloseWait);
        Step(f.conn, d.sent + f.sent)
      else d
    case FinWait1 =>
      if g.ack && g.ackNo == c.sndNxt then
        var c1 := c.(sndUna := g.ackNo);
        if g.fin then TakeFin(c1, TimeWait) else Step(c1.(state := FinWait2), [])
      else if g.fin then TakeFin(c, TimeWait)
      else Step(c, [])
    case FinWait2 => if g.fin then TakeFin(c, TimeWait) else Step(c, [])
    case LastAck => if g.ack && g.ackNo == c.sndNxt then Step(c.(state := Closed), []) else Step(c, [])
    case TimeWait => Step(c.(state := Closed), [])
    case CloseWait => if g.ack then Step(c.(sndUna := g.ackNo), []) else Step(c, [])
    case _ => Step(c, [])
  }

  /** The chunk loop of `tcp_send`, with `mss` bytes for each segment at most. */
  function SendChunks(c: Conn, data: seq<byte>, mss: nat): (r: Step)
    requires mss > 0
    decreases |data|
  {
    if data == [] then Step(c, []) else
    var n := Min(|data|, mss);
    var g := Segment(c.sndNxt, c.rcvNxt, false, true, false, false, Min(FreeSpace(c), 0xFFFF), data[..n]);
    var c1 := c.(resend := data[..Min(n, TX_BUF_SIZE)], sndNxt := Plus(c.sndNxt, n));
    var r := SendChunks(c1, data[n..], mss);
    Step(r.conn, [g] + r.sent)
  }

  /** One turn of the chunk loop. */
  lemma SendUnfold(c: Conn, data: seq<byte>, mss: nat)
    requires 0 < mss <= TX_BUF_SIZE && data != []
    ensures var n := Min(|data|, mss);
            var g := Segment(c.sndNxt, c.rcvNxt, false, true, false, false, Min(FreeSpace(c), 0xFFFF), data[..n]);
            var r := SendChunks(c.(resend := data[..n], sndNxt := Plus(c.sndNxt, n)), data[n..], mss);
            SendChunks(c, data, mss) == Step(r.conn, [g] + r.sent)
  {
  }

  /** What a step sends, behind what has been sent already. */
  function Onto(sent: seq<Segment>, r: Step): Step { Step(r.conn, sent + r.sent) }

  lemma OntoOnto(a: seq<Segment>, b: seq<Segment>, r: Step)
    ensures Onto(a, Onto(b, r)) == Onto(a + b, r)
  {
    assert a + (b + r.sent) == a + b + r.sent;
  }

  lemma OntoMore(sent: seq<Segment>, g: Segment, r: Step)
    ensures Onto(sent, Onto([g], r)) == Onto(sent + [g], r)
  {
    assert sent + ([g] + r.sent) == sent + [g] + r.sent;
  }

  /** `tcp_send`: nothing happens unless the connection is open and the peer has a window. */
  function Send(c: Conn, data: seq<byte>): (r: Step) {
    var mss := Min(MAX_PAYLOAD, c.sndWnd);
    if (c.state == Established || c.state == CloseWait) && mss > 0 then SendChunks(c, data, mss) else Step(c, [])
  }

  /** The retransmission of `tcp_recv`: the kept chunk, at `snd_una`. */
  function Retransmit(c: Conn): Segment {
    Segment(c.sndUna, c.rcvNxt, false, true, false, false, Min(FreeSpace(c), 0xFFFF), c.resend)
  }

  /** `tcp_close` up to the wait for the peer. */
  function Close(c: Conn): (r: Step) {
    if c.state == Established || c.state == CloseWait then
      var next := if c.state == Established then FinWait1 else LastAck;
      Step(c.(sndNxt := Plus(c.sndNxt, 1), state := next), [Control(c, false, true, c.rcvWnd)])
    else Step(Fresh(), [])
  }

  /** The segments that one poll brings, one after the other. */
  function HandleAll(c: Conn, gs: seq<Segment>): (r: Step)
    decreases |gs|
  {
    if gs == [] then Step(c, []) else
    var first := Handle(c, gs[0]); Onto(first.sent, HandleAll(first.conn, gs[1..]))
  }

  /** Poll until the connection is closed, or in `TimeWait` where that is enough, or the time is over. */
  function Wait(c: Conn, timeWait: bool, polls: seq<seq<Segment>>): (r: Step)
    decreases |polls|
  {
    if polls == [] then Step(c, []) else
    var r := HandleAll(c, polls[0]);
    if r.conn.state == Closed || (timeWait && r.conn.state == TimeWait) then r
    else Onto(r.sent, Wait(r.conn, timeWait, polls[1..]))
  }

  /** `tcp_close` to its end: the FIN, the wait, and the reset. */
  function CloseFully(c: Conn, polls: seq<seq<Segment>>): (r: Step) {
    var f := Close(c);
    if c.state == Established || c.state == CloseWait
    then Step(Fresh(), f.sent + Wait(f.conn, c.state == Established, polls).sent) else f
  }

  ghost predicate NoFin(gs: seq<Segment>) { forall i :: 0 <= i < |gs| ==> !gs[i].fin }

  lemma {:induction false} AllNoFin(c: Conn, gs: seq<Segment>)
    ensures NoFin(HandleAll(c, gs).sent)
    decreases |gs|
  {
    if gs != [] { AllNoFin(Handle(c, gs[0]).conn, gs[1..]); }
  }

  lemma {:induction false} WaitNoFin(c: Conn, timeWait: bool, polls: seq<seq<Segment>>)
    ensures NoFin(Wait(c, timeWait, polls).sent)
    decreases |polls|
  {
    if polls != [] {
      AllNoFin(c, polls[0]);
      WaitNoFin(HandleAll(c, polls[0]).conn, timeWait, polls[1..]);
    }
  }

  /** However the peer behaves while an open connection is closed, exactly one FIN goes out, first, at the end of what
      was sent, and the block is free afterwards. */
  lemma CloseSendsOneFin(c: Conn, polls: seq<seq<Segment>>)
    requires c.state == Established || c.state == CloseWait
    ensures var r := CloseFully(c, polls);
            && r.conn == Fresh() && |r.sent| > 0 && r.sent[0].fin && r.sent[0].seqNo == c.sndNxt && r.sent[0].payload == []
            && r.sent[0].ack && r.sent[0].ackNo == c.rcvNxt && !r.sent[0].syn && !r.sent[0].rst
            && NoFin(r.sent[1..])
  {
    var f := Close(c);
    var w := Wait(f.conn, c.state == Established, polls);
    WaitNoFin(f.conn, c.state == Established, polls);
    assert (f.sent + w.sent)[1..] == w.sent;
  }

  // ---- Receiving: what the application gets is a prefix of what the peer sent ---------------

  /** A segment of a peer that sends `stream` from sequence number `irs` on. Payload bytes, if any, are
      those of the stream at the place the sequence number says; everything else is arbitrary. */
  ghost predicate Faithful(stream: seq<byte>, irs: u32, g: Segment) {
    if g.syn then g.seqNo == irs && g.payload == []
    else g.payload != [] ==>
      exists off: nat :: AtOffset(stream, irs, g, off)
  }

  ghost predicate AtOffset(stream: seq<byte>, irs: u32, g: Segment, off: nat) {
    off + |g.payload| <= |stream| && g.seqNo == (irs + 1 + off) % W && g.payload == stream[off..off + |g.payload|]
  }

  /** A connection together with the bytes `tcp_recv` has returned so far. */
  datatype Receiver = Receiver(conn: Conn, got: seq<byte>)

  ghost predicate InSync(s: Receiver, stream: seq<byte>, irs: u32) {
    && s.got + s.conn.rx <= stream
    && |s.conn.rx| <= RX_BUF_SIZE
    && (s.conn.state == SynSent ==> s.got + s.conn.rx == [])
    && (s.conn.state in {SynReceived, Established, FinWait1, FinWait2} ==>
          s.conn.rcvNxt == (irs + 1 + |s.got + s.conn.rx|) % W)
  }

  /** A network or application event. Loss is an event that does not happen, duplication and
      reordering are repeated and permuted arrivals. */
  datatype Event =
    | Arrive(g: Segment)
    | Read(max: nat)
    | Write(data: seq<byte>)
    | Shut
    | Abandon

  function Next(s: Receiver, e: Event): Receiver {
    match e
    case Arrive(g) => s.(conn := Handle(s.conn, g).conn)
    case Read(max) =>
      var n := Min(max, |s.conn.rx|);
      Receiver(s.conn.(rx := s.conn.rx[n..]), s.got + s.conn.rx[..n])
    case Write(data) => s.(conn := Send(s.conn, data).conn)
    case Shut => s.(conn := Close(s.conn).conn)
    case Abandon => s.(conn := Fresh())
  }

  /** Two offsets below 2^32 that agree modulo 2^32 are the same. */
  lemma OffsetUnique(base: nat, a: nat, b: nat)
    requires a < W && b < W && (base + a) % W == (base + b) % W
    ensures a == b
  {
  }

  lemma PlusPlus(a: nat, n: nat)
    ensures Plus(a % W, n) == (a + n) % W
  {
  }

  /** Accepted data extends the prefix. */
  lemma TakeDataInSync(s: Receiver, g: Segment, stream: seq<byte>, irs: u32)
    requires |stream| < W && s.conn.state == Established
    requires InSync(s, stream, irs) && Faithful(stream, irs, g) && !(g.syn && g.payload != [])
    ensures InSync(s.(conn := TakeData(s.conn, g).conn), stream, irs)
    ensures TakeData(s.conn, g).conn.state == Established
  {
    var c := s.conn;
    if g.payload != [] && g.seqNo == c.rcvNxt {
      var off: nat :| AtOffset(stream, irs, g, off);
      var have := s.got + c.rx;
      OffsetUnique(irs + 1, off, |have|);
      var n := Min(|g.payload|, FreeSpace(c));
      var c1 := TakeData(c, g).conn;
      assert s.got + c1.rx == have + g.payload[..n];
      PrefixExtends(have, g.payload, n, stream);
      PlusPlus(irs + 1 + |have|, n);
    }
  }

  lemma PrefixExtends(have: seq<byte>, payload: seq<byte>, n: nat, stream: seq<byte>)
    requires have <= stream && |have| + |payload| <= |stream| && n <= |payload|
    requires payload == stream[|have|..|have| + |payload|]
    ensures have + payload[..n] <= stream
  {
    assert payload[..n] == stream[|have|..|have| + n];
  }

  lemma ArriveInSync(s: Receiver, g: Segment, stream: seq<byte>, irs: u32)
    requires |stream| < W && InSync(s, stream, irs) && Faithful(stream, irs, g)
    ensures InSync(Next(s, Arrive(g)), stream, irs)
  {
    var c := s.conn;
    if !g.rst {
      match c.state
      case Established =>
        var s1 := s.(conn := TakeAck(c, g));
        assert InSync(s1, stream, irs);
        TakeDataInSync(s1, g, stream, irs);
      case SynSent =>
        if g.syn && g.ack && g.ackNo == c.sndNxt { PlusPlus(irs, 1); }
      case _ =>
    }
  }

  lemma {:induction false} SendKeepsReceiver(c: Conn, data: seq<byte>, mss: nat)
    requires mss > 0
    ensures var r := SendChunks(c, data, mss).conn;
            r == c.(resend := r.resend, sndNxt := r.sndNxt)
    decreases |data|
  {
    if data != [] {
      var n := Min(|data|, mss);
      SendKeepsReceiver(c.(resend := data[..Min(n, TX_BUF_SIZE)], sndNxt := Plus(c.sndNxt, n)), data[n..], mss);
    }
  }

  lemma NextInSync(s: Receiver, e: Event, stream: seq<byte>, irs: u32)
    requires |stream| < W && InSync(s, stream, irs)
    requires e.Arrive? ==> Faithful(stream, irs, e.g)
    ensures InSync(Next(s, e), stream, irs)
    ensures s.got <= Next(s, e).got
  {
    match e
    case Arrive(g) => ArriveInSync(s, g, stream, irs);
    case Read(max) =>
      var n := Min(max, |s.conn.rx|);
      var s1 := Next(s, e);
      assert s1.got + s1.conn.rx == s.got + s.conn.rx;
    case Write(data) =>
      var mss := Min(MAX_PAYLOAD, s.conn.sndWnd);
      if mss > 0 { SendKeepsReceiver(s.conn, data, mss); }
    case _ =>
  }

  function Run(s: Receiver, es: seq<Event>): Receiver
    decreases |es|
  {
    if es == [] then s else Run(Next(s, es[0]), es[1..])
  }

  /** Stream safety: over every run of arrivals, reads, writes and closes, for any loss, duplication and
      reordering of the segments of a peer that sends `stream`, the bytes read so far followed by the
      ring are a prefix of the stream, bytes once read are never taken back, and while the connection
      is established the next expected sequence number is that of the first byte not yet in the ring. */
  lemma {:induction false} StreamSafety(s: Receiver, es: seq<Event>, stream: seq<byte>, irs: u32)
    requires |stream| < W && InSync(s, stream, irs)
    requires forall i :: 0 <= i < |es| && es[i].Arrive? ==> Faithful(stream, irs, es[i].g)
    ensures var t := Run(s, es);
            && t.got + t.conn.rx <= stream && s.got <= t.got
            && (t.conn.state == Established ==> t.conn.rcvNxt == (irs + 1 + |t.got + t.conn.rx|) % W)
    decreases |es|
  {
    if es != [] {
      assert es[0].Arrive? ==> Faithful(stream, irs, es[0].g);
      NextInSync(s, es[0], stream, irs);
      forall i | 0 <= i < |es[1..]| && es[1..][i].Arrive? ensures Faithful(stream, irs, es[1..][i].g) {
        assert es[1..][i] == es[i + 1];
      }
      StreamSafety(Next(s, es[0]), es[1..], stream, irs);
    }
  }

  /** Both ways of opening a connection start in sync. */
  lemma OpensInSync(iss: u32, irs: u32, stream: seq<byte>)
    ensures InSync(Receiver(Connect(iss), []), stream, irs)
    ensures InSync(Receiver(Accept(iss, irs), []), stream, irs)
  {
  }

  // ---- Sending: the window ----------------------------------------------------------------------

  /** Distance from `a` forward to `b` on the circle of sequence numbers. */
  function Ahead(a: u32, b: u32): nat { (b - a) % W }

  lemma AheadOf(x: nat, y: nat)
    requires x <= y < x + W
    ensures Ahead(x % W, y % W) == y - x
  {
    assert y % W - x % W == (y - x) - W * (y / W - x / W);
  }

  lemma AheadReaches(x: nat, b: u32)
    ensures (x + Ahead(x % W, b)) % W == b
  {
    assert x == W * (x / W) + x % W;
  }

  /** `ack_in_range` is exactly membership in the circular interval from `una` to `nxt`. */
  lemma AckInRangeExact(una: u32, ack: u32, nxt: u32)
    ensures AckInRange(una, ack, nxt) <==> Ahead(una, ack) <= Ahead(una, nxt)
  {
  }

  /** `acked` of the `sent` sequence numbers handed out since `iss` are acknowledged. */
  ghost predicate Window(c: Conn, sent: nat, acked: nat) {
    && acked <= sent < acked + W
    && c.sndNxt == (c.sndIss + sent) % W && c.sndUna == (c.sndIss + acked) % W
  }

  lemma WindowAhead(c: Conn, sent: nat, acked: nat)
    requires Window(c, sent, acked)
    ensures Ahead(c.sndUna, c.sndNxt) == sent - acked
  {
    AheadOf(c.sndIss + acked, c.sndIss + sent);
  }

  /** An acknowledgment in range moves `snd_una` forward, to a number that was sent. */
  lemma AckMoves(c: Conn, sent: nat, acked: nat, ack: u32)
    requires Window(c, sent, acked) && AckInRange(c.sndUna, ack, c.sndNxt)
    ensures Window(c.(sndUna := ack), sent, acked + Ahead(c.sndUna, ack))
  {
    AckInRangeExact(c.sndUna, ack, c.sndNxt);
    WindowAhead(c, sent, acked);
    AheadReaches(c.sndIss + acked, ack);
  }

  /** How far one arriving segment moves `snd_una`. */
  function Progress(c: Conn, g: Segment): nat { Ahead(c.sndUna, Handle(c, g).conn.sndUna) }

  /** For an arbitrary segment in any state but CloseWait, `snd_una` moves forward or stays and never
      passes `snd_nxt`. */
  lemma ArriveWindow(c: Conn, g: Segment, sent: nat, acked: nat)
    requires Window(c, sent, acked) && c.state != CloseWait
    ensures Window(Handle(c, g).conn, sent, acked + Progress(c, g))
    ensures acked + Progress(c, g) <= sent
  {
    var c1 := Handle(c, g).conn;
    assert c1.sndNxt == c.sndNxt && c1.sndIss == c.sndIss;
    assert c1.sndUna == c.sndUna || (c1.sndUna == g.ackNo && AckInRange(c.sndUna, g.ackNo, c.sndNxt));
    if c1.sndUna != c.sndUna { AckMoves(c, sent, acked, g.ackNo); }
  }

  /** In CloseWait any acknowledgment is taken, so there the window survives exactly the segments that are
      resets, carry no acknowledgment or acknowledge something in range. */
  lemma CloseWaitWindow(c: Conn, g: Segment, sent: nat, acked: nat)
    requires Window(c, sent, acked) && c.state == CloseWait
    ensures (exists a: nat :: acked <= a && Window(Handle(c, g).conn, sent, a)) <==>
            (g.rst || !g.ack || AckInRange(c.sndUna, g.ackNo, c.sndNxt))
  {
    var c1 := Handle(c, g).conn;
    if g.rst || !g.ack {
      assert Window(c1, sent, acked);
    } else if AckInRange(c.sndUna, g.ackNo, c.sndNxt) {
      AckMoves(c, sent, acked, g.ackNo);
    } else {
      forall a: nat | acked <= a ensures !Window(c1, sent, a) {
        if Window(c1, sent, a) { InRangeIf(c, g.ackNo, sent, acked, a); }
      }
    }
  }

  /** A number that stands for a count between `acked` and `sent` is in range. */
  lemma InRangeIf(c: Conn, ack: u32, sent: nat, acked: nat, a: nat)
    requires Window(c, sent, acked) && acked <= a && Window(c.(sndUna := ack), sent, a)
    ensures AckInRange(c.sndUna, ack, c.sndNxt)
  {
    AckInRangeExact(c.sndUna, ack, c.sndNxt);
    WindowAhead(c, sent, acked);
    AheadOf(c.sndIss + acked, c.sndIss + a);
  }

  /** The acknowledgment that breaks it: one past everything sent. */
  lemma CloseWaitAcceptsUnsent(c: Conn, window: u16, sent: nat, acked: nat)
    requires Window(c, sent, acked) && c.state == CloseWait && sent + 1 < acked + W
    ensures var g := Segment(0, Plus(c.sndNxt, 1), false, true, false, false, window, []);
            !exists a: nat :: acked <= a && Window(Handle(c, g).conn, sent, a)
  {
    var g := Segment(0, Plus(c.sndNxt, 1), false, true, false, false, window, []);
    CloseWaitWindow(c, g, sent, acked);
    AckInRangeExact(c.sndUna, g.ackNo, c.sndNxt);
    WindowAhead(c, sent, acked);
    assert Ahead(c.sndUna, g.ackNo) == sent - acked + 1;
  }

  lemma {:induction false} SendAdvances(c: Conn, data: seq<byte>, mss: nat)
    requires mss > 0
    ensures SendChunks(c, data, mss).conn.sndNxt == (c.sndNxt + |data|) % W
    decreases |data|
  {
    if data != [] {
      var n := Min(|data|, mss);
      SendAdvances(c.(resend := data[..Min(n, TX_BUF_SIZE)], sndNxt := Plus(c.sndNxt, n)), data[n..], mss);
      PlusPlus(c.sndNxt + n, |data| - n);
    }
  }

  /** A connection with the counts that its sequence numbers stand for. */
  datatype Sender = Sender(conn: Conn, sent: nat, acked: nat)

  function NextSender(s: Sender, e: Event): Sender {
    match e
    case Arrive(g) => Sender(Handle(s.conn, g).conn, s.sent, s.acked + Progress(s.conn, g))
    case Read(max) => s.(conn := s.conn.(rx := s.conn.rx[Min(max, |s.conn.rx|)..]))
    case Write(data) => Sender(Send(s.conn, data).conn, s.sent + HandedOut(s.conn, e), s.acked)
    case Shut => Sender(Close(s.conn).conn, s.sent + HandedOut(s.conn, e), s.acked)
    case Abandon => s.(conn := Fresh())
  }

  ghost predicate BeforeCloseWait(st: State) { st in {SynSent, SynReceived, Established, FinWait1, FinWait2} }

  /** Fewer than 2^32 sequence numbers are outstanding after the event. */
  ghost predicate Room(s: Sender, e: Event) {
    NextSender(s, e).sent < NextSender(s, e).acked + W
  }

  /** Handing out `n` more sequence numbers. */
  lemma HandOut(c: Conn, sent: nat, acked: nat, n: nat)
    requires Window(c, sent, acked) && sent + n < acked + W
    ensures Window(c.(sndNxt := (c.sndNxt + n) % W), sent + n, acked)
  {
    PlusPlus(c.sndIss + sent, n);
  }

  lemma WriteWindow(c: Conn, data: seq<byte>, sent: nat, acked: nat)
    requires Window(c, sent, acked) && c.state == Established && c.sndWnd > 0 && sent + |data| < acked + W
    ensures Window(Send(c, data).conn, sent + |data|, acked)
  {
    var mss := Min(MAX_PAYLOAD, c.sndWnd);
    SendAdvances(c, data, mss);
    SendKeepsReceiver(c, data, mss);
    HandOut(c, sent, acked, |data|);
  }

  /** What the write and the shutdown add to the count of sequence numbers sent. */
  function HandedOut(c: Conn, e: Event): nat {
    match e
    case Write(data) => if (c.state == Established || c.state == CloseWait) && c.sndWnd > 0 then |data| else 0
    case Shut => if c.state == Established || c.state == CloseWait then 1 else 0
    case _ => 0
  }

  lemma NextWindow(s: Sender, e: Event)
    requires Window(s.conn, s.sent, s.acked) && BeforeCloseWait(s.conn.state) && Room(s, e)
    requires BeforeCloseWait(NextSender(s, e).conn.state)
    ensures var t := NextSender(s, e); Window(t.conn, t.sent, t.acked) && s.acked <= t.acked && s.sent <= t.sent
  {
    match e
    case Arrive(g) => ArriveWindow(s.conn, g, s.sent, s.acked);
    case Write(data) => if HandedOut(s.conn, e) > 0 { WriteWindow(s.conn, data, s.sent, s.acked); }
                        else if s.conn.state == Established && s.conn.sndWnd > 0 { assert data == []; }
    case Shut => if s.conn.state == Established { HandOut(s.conn, s.sent, s.acked, 1); }
    case _ =>
  }

  /** `es` keeps the connection before CloseWait and within the window. */
  ghost predicate Steady(s: Sender, es: seq<Event>)
    decreases |es|
  {
    BeforeCloseWait(s.conn.state) && (es != [] ==> Room(s, es[0]) && Steady(NextSender(s, es[0]), es[1..]))
  }

  function RunSender(s: Sender, es: seq<Event>): Sender
    decreases |es|
  {
    if es == [] then s else RunSender(NextSender(s, es[0]), es[1..])
  }

  /** Window safety: over every run before CloseWait, for arbitrary incoming segments, the acknowledged
      count never decreases and never passes the sent count, and the two sequence numbers stand for them. */
  lemma {:induction false} WindowSafety(s: Sender, es: seq<Event>)
    requires Window(s.conn, s.sent, s.acked) && Steady(s, es)
    ensures var t := RunSender(s, es);
            s.acked <= t.acked <= t.sent && Window(t.conn, t.sent, t.acked)
    decreases |es|
  {
    if es != [] {
      NextWindow(s, es[0]);
      WindowSafety(NextSender(s, es[0]), es[1..]);
    }
  }

  lemma OpensWindow(iss: u32, irs: u32)
    ensures Window(Connect(iss), 1, 0) && Window(Accept(iss, irs), 1, 0)
  {
  }

  // ---- Sending: what goes out is a faithful stream ------------------------------------------------

  lemma {:induction false} ChunksFaithful(c: Conn, before: seq<byte>, data: seq<byte>, mss: nat, stream: seq<byte>)
    requires mss > 0 && stream == before + data
    requires c.sndNxt == (c.sndIss + 1 + |before|) % W
    ensures var r := SendChunks(c, data, mss);
            && (forall i :: 0 <= i < |r.sent| ==>
                  Faithful(stream, c.sndIss, r.sent[i]) && 0 < |r.sent[i].payload| <= mss)
            && r.conn.sndNxt == (c.sndIss + 1 + |stream|) % W
    decreases |data|
  {
    if data != [] {
      var n := Min(|data|, mss);
      var g := Segment(c.sndNxt, c.rcvNxt, false, true, false, false, Min(FreeSpace(c), 0xFFFF), data[..n]);
      var c1 := c.(resend := data[..Min(n, TX_BUF_SIZE)], sndNxt := Plus(c.sndNxt, n));
      assert stream[|before|..|before| + n] == data[..n];
      assert AtOffset(stream, c.sndIss, g, |before|);
      PlusPlus(c.sndIss + 1 + |before|, n);
      assert stream == (before + data[..n]) + data[n..];
      ChunksFaithful(c1, before + data[..n], data[n..], mss, stream);
    }
  }

  function Payloads(gs: seq<Segment>): seq<byte> {
    if gs == [] then [] else gs[0].payload + Payloads(gs[1..])
  }

  lemma {:induction false} ChunksCover(c: Conn, data: seq<byte>, mss: nat)
    requires mss > 0
    ensures Payloads(SendChunks(c, data, mss).sent) == data
    decreases |data|
  {
    if data != [] {
      var n := Min(|data|, mss);
      var c1 := c.(resend := data[..Min(n, TX_BUF_SIZE)], sndNxt := Plus(c.sndNxt, n));
      ChunksCover(c1, data[n..], mss);
      assert SendChunks(c, data, mss).sent[1..] == SendChunks(c1, data[n..], mss).sent;
      assert data == data[..n] + data[n..];
    }
  }

  /** A data segment that acknowledges what has been received and tells the room in the ring. */
  ghost predicate Plain(c: Conn, g: Segment) {
    g.ack && !g.syn && !g.fin && !g.rst && g.ackNo == c.rcvNxt && (|c.rx| <= RX_BUF_SIZE ==> g.window == RX_BUF_SIZE - |c.rx|)
  }

  ghost predicate AllPlain(c: Conn, gs: seq<Segment>) { forall i :: 0 <= i < |gs| ==> Plain(c, gs[i]) }

  lemma {:induction false} ChunksPlain(c: Conn, data: seq<byte>, mss: nat)
    requires mss > 0
    ensures AllPlain(c, SendChunks(c, data, mss).sent)
    decreases |data|
  {
    if data != [] {
      var n := Min(|data|, mss);
      var c1 := c.(resend := data[..Min(n, TX_BUF_SIZE)], sndNxt := Plus(c.sndNxt, n));
      ChunksPlain(c1, data[n..], mss);
      var rest := SendChunks(c1, data[n..], mss).sent;
      assert forall i :: 0 <= i < |rest| ==> Plain(c1, rest[i]);
    }
  }

  /** `tcp_send` puts on the wire exactly the bytes given, in order, each segment a faithful one of the stream
      sent so far, small enough never to be dropped by the segment builder. */
  lemma SendIsFaithful(c: Conn, before: seq<byte>, data: seq<byte>)
    requires c.sndNxt == (c.sndIss + 1 + |before|) % W
    requires (c.state == Established || c.state == CloseWait) && c.sndWnd > 0
    ensures var r := Send(c, data);
            && Payloads(r.sent) == data && AllPlain(c, r.sent)
            && (forall i :: 0 <= i < |r.sent| ==>
                  Faithful(before + data, c.sndIss, r.sent[i]) && |r.sent[i].payload| <= MAX_PAYLOAD)
            && r.conn.sndNxt == (c.sndIss + 1 + |before + data|) % W
  {
    var mss := Min(MAX_PAYLOAD, c.sndWnd);
    ChunksFaithful(c, before, data, mss, before + data);
    ChunksCover(c, data, mss);
    ChunksPlain(c, data, mss);
  }

  /** The retransmission of a connection that has sent `stream`, of which `acked` bytes are acknowledged
      and the last chunk, `len` bytes long, is kept. */
  ghost predicate ResendFaithful(stream: seq<byte>, iss: u32, acked: nat, len: nat)
    requires len <= |stream|
  {
    var g := Segment((iss + 1 + acked) % W, 0, false, true, false, false, 0, stream[|stream| - len..]);
    Faithful(stream, iss, g)
  }

  lemma ResendAt(stream: seq<byte>, iss: u32, acked: nat, len: nat)
    requires 0 < len <= |stream| < W && acked < W
    ensures ResendFaithful(stream, iss, acked, len) <==>
            acked + len <= |stream| && stream[acked..acked + len] == stream[|stream| - len..]
  {
    var g := Segment((iss + 1 + acked) % W, 0, false, true, false, false, 0, stream[|stream| - len..]);
    if ResendFaithful(stream, iss, acked, len) {
      var off: nat :| AtOffset(stream, iss, g, off);
      OffsetUnique(iss + 1, off, acked);
    }
    if acked + len <= |stream| && stream[acked..acked + len] == stream[|stream| - len..] {
      assert AtOffset(stream, iss, g, acked);
    }
  }

  /** Only the last chunk is kept, but it is resent at `snd_una`: that is faithful whatever was sent if and
      only if nothing before the last chunk is still unacknowledged. */
  lemma ResendExact(total: nat, iss: u32, acked: nat, len: nat)
    requires 0 < len <= total < W && acked + len <= total
    ensures (forall stream: seq<byte> :: |stream| == total ==> ResendFaithful(stream, iss, acked, len)) <==>
            acked + len == total
  {
    if acked + len == total {
      forall stream: seq<byte> | |stream| == total ensures ResendFaithful(stream, iss, acked, len) {
        ResendAt(stream, iss, acked, len);
      }
    } else {
      ResendAt(LastOne(total), iss, acked, len);
      EndIsUnique(total, acked, len);
    }
  }

  /** What is kept for retransmission is the last chunk. */
  lemma {:induction false} KeepsLastChunk(c: Conn, data: seq<byte>, mss: nat)
    requires 0 < mss <= TX_BUF_SIZE && data != []
    ensures var kept := SendChunks(c, data, mss).conn.resend;
            0 < |kept| <= Min(mss, |data|) && kept == data[|data| - |kept|..] && (|data| <= mss <==> |kept| == |data|)
    decreases |data|
  {
    var n := Min(|data|, mss);
    var c1 := c.(resend := data[..Min(n, TX_BUF_SIZE)], sndNxt := Plus(c.sndNxt, n));
    if n < |data| {
      KeepsLastChunk(c1, data[n..], mss);
    }
  }

  /** The retransmission right after `tcp_send` of `data` carries bytes of the stream at their place. */
  ghost predicate ResentRight(c: Conn, prior: seq<byte>, data: seq<byte>) {
    Faithful(prior + data, c.sndIss, Retransmit(Send(c, data).conn))
  }

  /** A connection that has sent `sent` stream bytes, of which `acked` are acknowledged. */
  ghost predicate HasSent(c: Conn, sent: nat, acked: nat) {
    && c.state == Established && 0 < c.sndWnd && acked <= sent
    && c.sndNxt == (c.sndIss + 1 + sent) % W && c.sndUna == (c.sndIss + 1 + acked) % W
  }

  lemma OneChunkRight(c: Conn, prior: seq<byte>, data: seq<byte>)
    requires HasSent(c, |prior|, |prior|) && 0 < |data| <= Min(MAX_PAYLOAD, c.sndWnd) && |prior| + |data| < W
    ensures ResentRight(c, prior, data)
  {
    RetransmitIs(c, prior, data, |prior|);
    var stream := prior + data;
    ResendAt(stream, c.sndIss, |prior|, |data|);
  }

  /** Zeros, and a last byte of 1. */
  ghost function LastOne(n: nat): (r: seq<byte>)
    requires n > 0
    ensures |r| == n && r[n - 1] == 1 && forall i :: 0 <= i < n - 1 ==> r[i] == 0
  {
    Zeros(n)[n - 1 := 1]
  }

  /** The stream that ends in its only 1 does not repeat its end anywhere before. */
  lemma EndIsUnique(total: nat, acked: nat, len: nat)
    requires 0 < len && acked + len < total
    ensures var s := LastOne(total); s[acked..acked + len] != s[total - len..]
  {
    var s := LastOne(total);
    assert s[acked..acked + len][len - 1] == 0 && s[total - len..][len - 1] == 1;
  }

  lemma OtherwiseWrong(c: Conn, sent: nat, acked: nat, len: nat)
    requires HasSent(c, sent, acked) && 0 < len && sent + len < W && !(acked == sent && len <= Min(MAX_PAYLOAD, c.sndWnd))
    ensures var s := LastOne(sent + len); !ResentRight(c, s[..sent], s[sent..])
  {
    var s := LastOne(sent + len);
    var prior, data := s[..sent], s[sent..];
    assert prior + data == s;
    RetransmitIs(c, prior, data, acked);
    var kept := |Send(c, data).conn.resend|;
    ResendAt(s, c.sndIss, acked, kept);
    EndIsUnique(sent + len, acked, kept);
  }

  /** A retransmission after `tcp_send`, with `acked` of the `sent` stream bytes before it acknowledged, is faithful for
      all data of that length exactly when the data went out in one chunk and everything before it is acknowledged. */
  lemma RetransmitAfterSend(c: Conn, sent: nat, acked: nat, len: nat)
    requires HasSent(c, sent, acked) && 0 < len && sent + len < W
    ensures (forall prior: seq<byte>, data: seq<byte> :: |prior| == sent && |data| == len ==> ResentRight(c, prior, data)) <==>
            (acked == sent && len <= Min(MAX_PAYLOAD, c.sndWnd))
  {
    if acked == sent && len <= Min(MAX_PAYLOAD, c.sndWnd) {
      forall prior: seq<byte>, data: seq<byte> | |prior| == sent && |data| == len ensures ResentRight(c, prior, data) {
        OneChunkRight(c, prior, data);
      }
    } else {
      OtherwiseWrong(c, sent, acked, len);
    }
  }

  lemma RetransmitIs(c: Conn, prior: seq<byte>, data: seq<byte>, acked: nat)
    requires c.state == Established && 0 < c.sndWnd && data != [] && c.sndUna == (c.sndIss + 1 + acked) % W
    ensures var kept := |Send(c, data).conn.resend|;
            && 0 < kept <= |data| && (|data| <= Min(MAX_PAYLOAD, c.sndWnd) <==> kept == |data|)
            && (Faithful(prior + data, c.sndIss, Retransmit(Send(c, data).conn)) <==>
                ResendFaithful(prior + data, c.sndIss, acked, kept))
  {
    var mss := Min(MAX_PAYLOAD, c.sndWnd);
    KeepsLastChunk(c, data, mss);
    SendKeepsReceiver(c, data, mss);
    var stream, kept := prior + data, |Send(c, data).conn.resend|;
    var g := Segment((c.sndIss + 1 + acked) % W, 0, false, true, false, false, 0, stream[|stream| - kept..]);
    var r := Retransmit(Send(c, data).conn);
    assert r.payload == g.payload;
    assert forall off: nat :: AtOffset(stream, c.sndIss, r, off) == AtOffset(stream, c.sndIss, g, off);
  }
}
