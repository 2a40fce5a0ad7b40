/** What a segment does to a connection, what the in-order arrival of a stream delivers, and what two connections do
    together: opening, transfer and closing, for all initial sequence numbers and all data. */
module TcpDelivery {
  import opened Bytes
  import opened TcpModel

  // ---- One segment, established -----------------------------------------------------------------------------------

  /** An acknowledgment of `ackNo`, and nothing else. */
  ghost predicate PureAck(g: Segment, seqNo: u32, ackNo: u32) {
    g.ack && !g.syn && !g.fin && !g.rst && g.payload == [] && g.seqNo == seqNo && g.ackNo == ackNo
  }

  /** In-order data goes behind the bytes in the ring, as much as the ring has room for; the next expected number moves by
      as many; and exactly one segment answers, which acknowledges them and tells the room left. */
  lemma InOrderTaken(c: Conn, g: Segment)
    requires c.state == Established && !g.rst && !g.fin && g.seqNo == c.rcvNxt && g.payload != [] && |c.rx| <= RX_BUF_SIZE
    ensures var r := Handle(c, g); var m := if |g.payload| < RX_BUF_SIZE - |c.rx| then |g.payload| else RX_BUF_SIZE - |c.rx|;
            && r.conn.state == Established && r.conn.rx == c.rx + g.payload[..m] && r.conn.rcvNxt == (c.rcvNxt + m) % W
            && r.conn.sndNxt == c.sndNxt && |r.sent| == 1 && PureAck(r.sent[0], c.sndNxt, r.conn.rcvNxt)
            && r.sent[0].window == Min(RX_BUF_SIZE - |r.conn.rx|, 0xFFFF)
  {
  }

  /** Any other segment without RST and FIN leaves ring and next expected number alone, and is not answered. */
  lemma OthersIgnored(c: Conn, g: Segment)
    requires c.state == Established && !g.rst && !g.fin && (g.seqNo != c.rcvNxt || g.payload == [])
    ensures var r := Handle(c, g);
            r.conn.state == Established && r.conn.rx == c.rx && r.conn.rcvNxt == c.rcvNxt && r.conn.sndNxt == c.sndNxt && r.sent == []
  {
  }

  /** What an acknowledgment does: the peer's window is taken over; a number between `snd_una` and `snd_nxt` on the circle
      becomes `snd_una` and drops the kept chunk. */
  lemma AckTaken(c: Conn, g: Segment)
    requires c.state == Established && !g.rst
    ensures var r := Handle(c, g).conn; var inRange := g.ack && Ahead(c.sndUna, g.ackNo) <= Ahead(c.sndUna, c.sndNxt);
            && r.sndWnd == (if g.ack then g.window else c.sndWnd)
            && r.sndUna == (if inRange then g.ackNo else c.sndUna)
            && r.resend == (if inRange then [] else c.resend)
  {
    AckInRangeExact(c.sndUna, g.ackNo, c.sndNxt);
  }

  // ---- One segment, any state -------------------------------------------------------------------------------------

  /** Bytes taken: in-order data of an established connection, as far as there is room. */
  ghost function Taken(c: Conn, g: Segment): nat {
    if c.state != Established || g.seqNo != c.rcvNxt || RX_BUF_SIZE < |c.rx| then 0
    else if |g.payload| < RX_BUF_SIZE - |c.rx| then |g.payload| else RX_BUF_SIZE - |c.rx|
  }

  /** The FIN counts in the three states that still receive. */
  ghost predicate FinCounts(c: Conn, g: Segment) { g.fin && c.state in {Established, FinWait1, FinWait2} }

  /** The ring grows by the bytes taken, the next expected number by these and the FIN, and the last answer acknowledges
      all of it. */
  ghost predicate Received(c: Conn, g: Segment, taken: nat, fin: bool, r: Step) {
    && taken <= |g.payload| && r.conn.rx == c.rx + g.payload[..taken] && r.conn.sndNxt == c.sndNxt
    && r.conn.rcvNxt == (c.rcvNxt + taken + (if fin then 1 else 0)) % W
    && (r.sent != [] ==> PureAck(r.sent[|r.sent| - 1], c.sndNxt, r.conn.rcvNxt))
  }

  /** Receiving in any state once the peer's first number is known: data is taken, and a FIN counted, as said; and there
      is an answer exactly for in-order data and for a FIN that counts. */
  lemma ReceivesExactly(c: Conn, g: Segment)
    requires c.state != SynSent && !g.rst && |c.rx| <= RX_BUF_SIZE
    ensures Received(c, g, Taken(c, g), FinCounts(c, g), Handle(c, g))
    ensures Handle(c, g).sent != [] <==>
            FinCounts(c, g) || (c.state == Established && g.payload != [] && g.seqNo == c.rcvNxt)
  {
    assert c.rx + g.payload[..0] == c.rx;
    if c.state == Established {
      var d := TakeData(TakeAck(c, g), g);
      TakesData(c, g, d);
      if g.fin { FinAfter(c, g, d, Handle(c, g)); }
    }
  }

  lemma TakesData(c: Conn, g: Segment, d: Step)
    requires c.state == Established && |c.rx| <= RX_BUF_SIZE && d == TakeData(TakeAck(c, g), g)
    ensures Received(c, g, Taken(c, g), false, d) && (d.sent != [] <==> g.payload != [] && g.seqNo == c.rcvNxt)
  {
    assert c.rx + g.payload[..0] == c.rx;
  }

  lemma FinAfter(c: Conn, g: Segment, d: Step, r: Step)
    requires Received(c, g, Taken(c, g), false, d)
    requires r.conn == TakeFin(d.conn, CloseWait).conn && r.sent == d.sent + TakeFin(d.conn, CloseWait).sent
    ensures Received(c, g, Taken(c, g), true, r) && r.sent != []
  {
    PlusPlus(c.rcvNxt + Taken(c, g), 1);
  }

  /** The state after a segment without RST: what was ours and is now acknowledged (the SYN or the FIN, whichever is at
      the end of what was sent) and the peer's FIN decide. */
  lemma Transitions(c: Conn, g: Segment)
    requires !g.rst
    ensures var mine := g.ack && g.ackNo == c.sndNxt; var t := Handle(c, g).conn.state;
            && (t == Established <==> (c.state == Established && !g.fin) || (mine && (c.state == SynReceived || (c.state == SynSent && g.syn))))
            && (t == CloseWait <==> c.state == CloseWait || (c.state == Established && g.fin))
            && (t == FinWait1 <==> c.state == FinWait1 && !mine && !g.fin)
            && (t == FinWait2 <==> !g.fin && (c.state == FinWait2 || (c.state == FinWait1 && mine)))
            && (t == TimeWait <==> g.fin && (c.state == FinWait1 || c.state == FinWait2))
            && (t == LastAck <==> c.state == LastAck && !mine)
            && (t == SynSent <==> c.state == SynSent && !(g.syn && g.ack))
            && (t == SynReceived <==> c.state == SynReceived && !mine)
            && (t == Listen <==> c.state == Listen)
  {
  }

  /** A reset closes in every state, silently. */
  lemma ResetCloses(c: Conn, g: Segment)
    requires g.rst
    ensures Handle(c, g) == Step(c.(state := Closed), [])
  {
  }

  /** A refused opening: an answer to something else than our SYN is reset, and the opening fails. */
  lemma WrongAnswer(iss: u32, g: Segment)
    requires g.syn && g.ack && !g.rst && g.ackNo != Plus(iss, 1)
    ensures var r := Handle(Connect(iss), g);
            r.conn.state == Closed && |r.sent| == 1 && r.sent[0].rst && r.sent[0].seqNo == g.ackNo
  {
  }

  // ---- In-order arrival of a whole stream ------------------------------------------------------------------------------

  /** The rest of the stream from `off` on arrives in order, every segment with room for it when it comes; in between the
      application may read and write. */
  ghost predicate InOrder(s: Receiver, es: seq<Event>, stream: seq<byte>, irs: u32, off: nat)
    decreases |es|
  {
    if es == [] then off == |stream| else
    match es[0]
    case Arrive(g) =>
      && !g.rst && !g.fin && AtOffset(stream, irs, g, off) && |s.conn.rx| + |g.payload| <= RX_BUF_SIZE
      && InOrder(Next(s, es[0]), es[1..], stream, irs, off + |g.payload|)
    case Read(_) => InOrder(Next(s, es[0]), es[1..], stream, irs, off)
    case Write(_) => InOrder(Next(s, es[0]), es[1..], stream, irs, off)
    case _ => false
  }

  /** Everything up to `off` has been received. */
  ghost predicate Has(s: Receiver, stream: seq<byte>, irs: u32, off: nat) {
    && s.conn.state == Established && off <= |stream| && s.got + s.conn.rx == stream[..off]
    && s.conn.rcvNxt == (irs + 1 + off) % W
  }

  lemma ArriveHas(s: Receiver, g: Segment, stream: seq<byte>, irs: u32, off: nat)
    requires Has(s, stream, irs, off) && !g.rst && !g.fin && AtOffset(stream, irs, g, off) && |s.conn.rx| + |g.payload| <= RX_BUF_SIZE
    ensures Has(Next(s, Arrive(g)), stream, irs, off + |g.payload|)
  {
    if g.payload == [] {
      OthersIgnored(s.conn, g);
    } else {
      InOrderTaken(s.conn, g);
      HasMore(s, Handle(s.conn, g).conn, g.payload, stream, irs, off);
    }
  }

  lemma HasMore(s: Receiver, c: Conn, more: seq<byte>, stream: seq<byte>, irs: u32, off: nat)
    requires Has(s, stream, irs, off) && off + |more| <= |stream| && more == stream[off..off + |more|]
    requires c.state == Established && c.rx == s.conn.rx + more[..|more|] && c.rcvNxt == (s.conn.rcvNxt + |more|) % W
    ensures Has(s.(conn := c), stream, irs, off + |more|)
  {
    assert more[..|more|] == more;
    assert s.got + (s.conn.rx + more) == (s.got + s.conn.rx) + more == stream[..off + |more|];
    PlusPlus(irs + 1 + off, |more|);
  }

  lemma OtherHas(s: Receiver, e: Event, stream: seq<byte>, irs: u32, off: nat)
    requires Has(s, stream, irs, off) && (e.Read? || e.Write?)
    ensures Has(Next(s, e), stream, irs, off)
  {
    match e
    case Read(max) => assert Next(s, e).got + Next(s, e).conn.rx == s.got + s.conn.rx;
    case Write(data) =>
      var mss := Min(MAX_PAYLOAD, s.conn.sndWnd);
      if mss > 0 { SendKeepsReceiver(s.conn, data, mss); }
  }

  /** If the segments of a stream arrive in order, each fitting when it arrives, the whole stream is received; and once
      the application has read everything, what it has got is the stream. */
  lemma {:induction false} InOrderDelivers(s: Receiver, es: seq<Event>, stream: seq<byte>, irs: u32, off: nat)
    requires Has(s, stream, irs, off) && InOrder(s, es, stream, irs, off)
    ensures var t := Run(s, es);
            && Has(t, stream, irs, |stream|)
            && forall max: nat :: max >= |t.conn.rx| ==> Next(t, Read(max)).got == stream
    decreases |es|
  {
    if es == [] {
      ReadsRest(s, stream, irs);
    } else if es[0].Arrive? {
      ArriveHas(s, es[0].g, stream, irs, off);
      InOrderDelivers(Next(s, es[0]), es[1..], stream, irs, off + |es[0].g.payload|);
    } else {
      OtherHas(s, es[0], stream, irs, off);
      InOrderDelivers(Next(s, es[0]), es[1..], stream, irs, off);
    }
  }

  lemma ReadsRest(s: Receiver, stream: seq<byte>, irs: u32)
    requires Has(s, stream, irs, |stream|)
    ensures forall max: nat :: max >= |s.conn.rx| ==> Next(s, Read(max)).got == stream
  {
    forall max: nat | max >= |s.conn.rx| ensures Next(s, Read(max)).got == stream {
      assert s.conn.rx[..|s.conn.rx|] == s.conn.rx && stream[..|stream|] == stream;
    }
  }

  /** A FIN is taken whatever its sequence number. So at the FIN behind the last byte the connection passes to
      `CloseWait`, where no more data is taken, and then the stream is complete if and only if that segment was the next
      one expected or nothing was missing before it. */
  lemma FinExact(s: Receiver, g: Segment, stream: seq<byte>, irs: u32, off: nat, at: nat)
    requires Has(s, stream, irs, off) && |stream| < W && g.fin && !g.rst && AtOffset(stream, irs, g, at)
    requires at + |g.payload| == |stream| && |s.conn.rx| + |g.payload| <= RX_BUF_SIZE
    ensures var t := Next(s, Arrive(g));
            t.conn.state == CloseWait && (t.got + t.conn.rx == stream <==> g.seqNo == s.conn.rcvNxt || off == |stream|)
  {
    ReceivesExactly(s.conn, g);
    var c := Handle(s.conn, g).conn;
    assert s.got + c.rx == (s.got + s.conn.rx) + g.payload[..Taken(s.conn, g)];
    if g.seqNo == s.conn.rcvNxt {
      OffsetUnique(irs + 1, at, off);
      assert stream[..off] + stream[off..] == stream && g.payload[..|g.payload|] == stream[off..];
    } else {
      assert stream[..off] + g.payload[..0] == stream[..off];
    }
  }

  /** The failing input: the FIN of any non-empty stream, come before its data. */
  lemma EarlyFin(c: Conn, stream: seq<byte>, irs: u32, window: u16)
    requires c.state == Established && c.rx == [] && c.rcvNxt == (irs + 1) % W && 0 < |stream| < W
    ensures var g := Segment((irs + 1 + |stream|) % W, 0, false, false, true, false, window, []);
            var t := Next(Receiver(c, []), Arrive(g)); t.conn.state == CloseWait && t.got + t.conn.rx != stream
  {
    var g := Segment((irs + 1 + |stream|) % W, 0, false, false, true, false, window, []);
    if g.seqNo == c.rcvNxt { OffsetUnique(irs + 1, 0, |stream|); }
    FinExact(Receiver(c, []), g, stream, irs, 0, |stream|);
  }

  // ---- Two connections ---------------------------------------------------------------------------------------------------

  /** Each side expects what the other sends next, and nothing is unacknowledged. */
  ghost predicate Paired(a: Conn, b: Conn) {
    && a.sndNxt == b.rcvNxt && b.sndNxt == a.rcvNxt && a.sndUna == a.sndNxt && b.sndUna == b.sndNxt
  }

  /** The SYN-ACK of `tcp_accept`. */
  function SynAck(c: Conn): Segment { Segment(c.sndIss, c.rcvNxt, true, true, false, false, DEFAULT_WINDOW, []) }

  /** Opening: for all initial numbers, the answer to the SYN and the answer to that establish both sides, each expecting
      what the other sends next. */
  lemma Handshake(iss: u32, irs: u32)
    ensures var client := Handle(Connect(iss), SynAck(Accept(irs, iss)));
            && |client.sent| == 1
            && var server := Handle(Accept(irs, iss), client.sent[0]);
               && client.conn.state == Established == server.conn.state && server.sent == []
               && Paired(client.conn, server.conn) && client.conn.rx == server.conn.rx == []
               && client.conn.sndWnd == server.conn.sndWnd == DEFAULT_WINDOW
  {
  }

  datatype Delivery = Delivery(to: Receiver, replies: seq<Segment>)

  /** Segments delivered one after the other to an application that reads everything at once. */
  function Deliver(b: Receiver, gs: seq<Segment>): Delivery
    decreases |gs|
  {
    if gs == [] then Delivery(b, []) else
    var h := Handle(b.conn, gs[0]);
    var d := Deliver(Receiver(h.conn.(rx := []), b.got + h.conn.rx), gs[1..]);
    Delivery(d.to, h.sent + d.replies)
  }

  /** The replies acknowledge more and more of `total` bytes sent from number `from` on, in the end all of them. */
  ghost predicate AckRun(replies: seq<Segment>, from: nat, done: nat, total: nat)
    decreases |replies|
  {
    if replies == [] then done == total else
    exists n: nat :: AckStep(replies[0], from, done, total, n) && AckRun(replies[1..], from, done + n, total)
  }

  ghost predicate AckStep(g: Segment, from: nat, done: nat, total: nat, n: nat) {
    0 < n && done + n <= total && g.ack && !g.rst && !g.fin && g.payload == [] && g.ackNo == (from + done + n) % W
  }

  lemma OneChunk(seqNo: u32, g: Segment, data: seq<byte>, n: nat, b: Receiver, from: nat, done: nat) returns (h: Step)
    requires 0 < n <= |data| && n <= MAX_PAYLOAD && b.conn.state == Established && b.conn.rx == []
    requires g.seqNo == seqNo && g.payload == data[..n] && !g.rst && !g.fin
    requires b.conn.rcvNxt == seqNo == (from + done) % W
    ensures h == Handle(b.conn, g) && h.conn.state == Established && h.conn.rx == data[..n]
    ensures h.conn.rcvNxt == (from + done + n) % W == Plus(seqNo, n) && h.conn.sndNxt == b.conn.sndNxt
    ensures |h.sent| == 1 && PureAck(h.sent[0], b.conn.sndNxt, (from + done + n) % W)
  {
    h := Handle(b.conn, g);
    InOrderTaken(b.conn, g);
    assert g.payload[..n] == g.payload && b.conn.rx + g.payload == g.payload;
    PlusPlus(from + done, n);
  }

  /** All of `data` has been read behind what `b` had got, and acknowledged. */
  ghost predicate Arrived(b: Receiver, data: seq<byte>, d: Delivery, from: nat, done: nat) {
    && d.to.got == b.got + data && d.to.conn.rx == [] && d.to.conn.state == Established
    && d.to.conn.rcvNxt == (from + done + |data|) % W && d.to.conn.sndNxt == b.conn.sndNxt
    && AckRun(d.replies, from, done, done + |data|)
  }

  lemma ArrivedMore(b: Receiver, b1: Receiver, ack: Segment, data: seq<byte>, n: nat, d: Delivery, d1: Delivery, from: nat, done: nat)
    requires 0 < n <= |data| && b1.got == b.got + data[..n] && b1.conn.sndNxt == b.conn.sndNxt
    requires PureAck(ack, b.conn.sndNxt, (from + done + n) % W) && Arrived(b1, data[n..], d1, from, done + n)
    requires d.to == d1.to && d.replies == [ack] + d1.replies
    ensures Arrived(b, data, d, from, done)
  {
    assert b.got + data[..n] + data[n..] == b.got + data;
    AckMore(ack, d1.replies, from, done, done + |data|, n);
  }

  /** What the chunks of a send deliver. */
  lemma {:induction false} ChunksArrive(c: Conn, data: seq<byte>, mss: nat, b: Receiver, from: nat, done: nat)
    requires 0 < mss <= MAX_PAYLOAD && b.conn.state == Established && b.conn.rx == []
    requires b.conn.rcvNxt == c.sndNxt == (from + done) % W
    ensures Arrived(b, data, Deliver(b, SendChunks(c, data, mss).sent), from, done)
    decreases |data|
  {
    if data == [] {
      assert b.got + data == b.got;
    } else {
      var n := Min(|data|, mss);
      var c1 := c.(resend := data[..n], sndNxt := Plus(c.sndNxt, n));
      var g, rest := ChunkFirst(c, data, mss);
      var h := OneChunk(c.sndNxt, g, data, n, b, from, done);
      var b1 := Receiver(h.conn.(rx := []), b.got + h.conn.rx);
      ChunksArrive(c1, data[n..], mss, b1, from, done + n);
      DeliverFirst(b, g, rest);
      ArrivedMore(b, b1, h.sent[0], data, n, Deliver(b, [g] + rest), Deliver(b1, rest), from, done);
    }
  }

  /** The first chunk and the others. */
  lemma ChunkFirst(c: Conn, data: seq<byte>, mss: nat) returns (g: Segment, rest: seq<Segment>)
    requires 0 < mss <= MAX_PAYLOAD && data != []
    ensures var n := Min(|data|, mss);
            && SendChunks(c, data, mss).sent == [g] + rest
            && rest == SendChunks(c.(resend := data[..n], sndNxt := Plus(c.sndNxt, n)), data[n..], mss).sent
            && g.seqNo == c.sndNxt && g.payload == data[..n] && !g.rst && !g.fin && !g.syn
  {
    SendUnfold(c, data, mss);
    var n := Min(|data|, mss);
    g := Segment(c.sndNxt, c.rcvNxt, false, true, false, false, Min(FreeSpace(c), 0xFFFF), data[..n]);
    rest := SendChunks(c.(resend := data[..n], sndNxt := Plus(c.sndNxt, n)), data[n..], mss).sent;
  }

  lemma DeliverFirst(b: Receiver, g: Segment, rest: seq<Segment>)
    ensures var h := Handle(b.conn, g); var d := Deliver(Receiver(h.conn.(rx := []), b.got + h.conn.rx), rest);
            && Deliver(b, [g] + rest) == Delivery(d.to, h.sent + d.replies)
            && (|h.sent| == 1 ==> Deliver(b, [g] + rest).replies == [h.sent[0]] + d.replies)
  {
    var all := [g] + rest;
    assert all[0] == g && all[1..] == rest;
  }

  lemma AckMore(g: Segment, rest: seq<Segment>, from: nat, done: nat, total: nat, n: nat)
    requires AckStep(g, from, done, total, n) && AckRun(rest, from, done + n, total)
    ensures AckRun([g] + rest, from, done, total)
  {
    var all := [g] + rest;
    assert all[0] == g && all[1..] == rest;
    assert AckStep(all[0], from, done, total, n);
  }

  /** Acknowledgments in order clear the sender. */
  lemma {:induction false} AcksClear(a: Conn, replies: seq<Segment>, from: nat, done: nat, total: nat)
    requires a.state == Established && total < W && done <= total && AckRun(replies, from, done, total)
    requires a.sndUna == (from + done) % W && a.sndNxt == (from + total) % W
    ensures var r := HandleAll(a, replies);
            && r.conn.state == Established && r.conn.sndUna == r.conn.sndNxt == a.sndNxt && r.sent == []
            && r.conn.rcvNxt == a.rcvNxt && r.conn.rx == a.rx && (done < total ==> r.conn.resend == [])
            && (a.resend == [] ==> r.conn.resend == [])
    decreases |replies|
  {
    if replies != [] {
      var n: nat :| AckStep(replies[0], from, done, total, n) && AckRun(replies[1..], from, done + n, total);
      OneAck(a, replies[0], from, done, total, n);
      AcksClear(Handle(a, replies[0]).conn, replies[1..], from, done + n, total);
    }
  }

  lemma OneAck(a: Conn, g: Segment, from: nat, done: nat, total: nat, n: nat)
    requires a.state == Established && total < W && done <= total && AckStep(g, from, done, total, n)
    requires a.sndUna == (from + done) % W && a.sndNxt == (from + total) % W
    ensures var r := Handle(a, g);
            && r.conn.state == Established && r.conn.sndUna == (from + done + n) % W && r.conn.sndNxt == a.sndNxt
            && r.conn.rcvNxt == a.rcvNxt && r.conn.rx == a.rx && r.conn.resend == [] && r.sent == []
  {
    AheadOf(from + done, from + done + n);
    AheadOf(from + done, from + total);
    AckTaken(a, g);
    OthersIgnored(a, g);
  }

  /** Transfer: data sent over a pair of connections arrives whole and in order at an application that keeps reading,
      and its acknowledgments clear the sender, for all data below 2^32 bytes and any window of the peer. */
  lemma Transfer(a: Conn, b: Conn, data: seq<byte>) returns (s: Step, d: Delivery, end: Step)
    requires a.state == Established == b.state && Paired(a, b) && b.rx == [] && a.sndWnd > 0 && 0 < |data| < W
    ensures s == Send(a, data) && d == Deliver(Receiver(b, []), s.sent) && end == HandleAll(s.conn, d.replies)
    ensures d.to.got == data && end.sent == [] && end.conn.resend == []
    ensures end.conn.sndUna == end.conn.sndNxt == d.to.conn.rcvNxt == (a.sndNxt + |data|) % W
    ensures end.conn.state == Established == d.to.conn.state
  {
    s := Send(a, data);
    d := Deliver(Receiver(b, []), s.sent);
    end := HandleAll(s.conn, d.replies);
    SentIs(a, data);
    SmallMod(a.sndNxt);
    ChunksArrive(a, data, Min(MAX_PAYLOAD, a.sndWnd), Receiver(b, []), a.sndNxt, 0);
    assert [] + data == data;
    AcksClear(s.conn, d.replies, a.sndNxt, 0, |data|);
  }

  lemma SentIs(a: Conn, data: seq<byte>)
    requires a.state == Established && a.sndWnd > 0
    ensures var s := Send(a, data);
            && s == SendChunks(a, data, Min(MAX_PAYLOAD, a.sndWnd)) && s.conn.state == Established
            && s.conn.sndUna == a.sndUna && s.conn.sndNxt == (a.sndNxt + |data|) % W
  {
    var mss := Min(MAX_PAYLOAD, a.sndWnd);
    SendKeepsReceiver(a, data, mss);
    SendAdvances(a, data, mss);
  }

  lemma SmallMod(x: u32)
    ensures x % W == x
  {
  }

  /** Closing: the side that closes first ends in `TimeWait` and then, with any segment, closed; the other goes through
      `CloseWait` and `LastAck` to closed; every FIN and its acknowledgment carry the next numbers. */
  lemma Teardown(a: Conn, b: Conn, any: Segment) returns (fin: Step, b1: Step, a1: Step, fin2: Step, a2: Step)
    requires a.state == Established == b.state && Paired(a, b)
    ensures fin == Close(a) && |fin.sent| == 1 && fin.conn.state == FinWait1 && b1 == Handle(b, fin.sent[0])
    ensures b1.conn.state == CloseWait && b1.conn.rcvNxt == (b.rcvNxt + 1) % W && b1.conn.rx == b.rx
    ensures |b1.sent| == 1 && PureAck(b1.sent[0], b.sndNxt, (a.sndNxt + 1) % W) && a1 == Handle(fin.conn, b1.sent[0])
    ensures a1.conn.state == FinWait2 && a1.conn.sndUna == a1.conn.sndNxt && a1.sent == [] && fin2 == Close(b1.conn)
    ensures fin2.conn.state == LastAck && |fin2.sent| == 1 && a2 == Handle(a1.conn, fin2.sent[0])
    ensures a2.conn.state == TimeWait && |a2.sent| == 1 && PureAck(a2.sent[0], (a.sndNxt + 1) % W, (b.sndNxt + 1) % W)
    ensures Handle(fin2.conn, a2.sent[0]).conn.state == Closed && Handle(a2.conn, any).conn.state == Closed
  {
    fin := Close(a);
    b1 := Handle(b, fin.sent[0]);
    a1 := Handle(fin.conn, b1.sent[0]);
    fin2 := Close(b1.conn);
    a2 := Handle(a1.conn, fin2.sent[0]);
  }

  /** Both sides close at once: the FINs cross, both answer and end in `TimeWait`. */
  lemma SimultaneousClose(a: Conn, b: Conn) returns (a1: Step, b1: Step)
    requires a.state == Established == b.state && Paired(a, b)
    ensures |Close(a).sent| == 1 == |Close(b).sent|
    ensures a1 == Handle(Close(a).conn, Close(b).sent[0]) && b1 == Handle(Close(b).conn, Close(a).sent[0])
    ensures a1.conn.state == TimeWait == b1.conn.state && |a1.sent| == 1 && |b1.sent| == 1
    ensures PureAck(a1.sent[0], (a.sndNxt + 1) % W, (b.sndNxt + 1) % W)
    ensures PureAck(b1.sent[0], (b.sndNxt + 1) % W, (a.sndNxt + 1) % W)
  {
    a1 := Handle(Close(a).conn, Close(b).sent[0]);
    b1 := Handle(Close(b).conn, Close(a).sent[0]);
  }
}
