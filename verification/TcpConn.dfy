/** The connection block of the TCP stack: the receive ring and the fields that the
    handlers update in place, proved against the value model. */
module TcpConn {
  import opened Bytes
  import M = TcpModel

  const N: nat := M.RX_BUF_SIZE

  /** Ring position `x` steps after position 0, for less than two rounds. */
  function Slot(x: nat): (r: nat)
    requires x < 2 * N
    ensures r == x % N && r < N
  {
    if x < N then x else x - N
  }

  /** Fixed-size receive ring: `head` is the write position, `tail` the read position. */
  class RxRing {
    const buf: array<byte>
    var head: nat
    var tail: nat
    var len: nat

    ghost predicate Valid()
      reads this
    {
      buf.Length == N && len <= N && tail < N && head == Slot(tail + len)
    }

    /** The queued bytes, oldest first. */
    ghost function Contents(): (s: seq<byte>)
      reads this, buf
      requires Valid()
      ensures |s| == len
      ensures forall i :: 0 <= i < len ==> s[i] == buf[Slot(tail + i)]
    {
      seq(len, i requires 0 <= i < len && tail < N && buf.Length == N && len <= N reads this, buf => buf[Slot(tail + i)])
    }

    constructor ()
      ensures Valid() && Contents() == [] && fresh(buf)
    {
      buf := new byte[N](_ => 0);
      head, tail, len := 0, 0, 0;
    }

    method Write(data: seq<byte>) returns (n: nat)
      requires Valid()
      modifies this, buf
      ensures Valid() && n == Min(|data|, N - old(len))
      ensures Contents() == old(Contents()) + data[..n]
    {
      n := Min(|data|, N - len);
      ghost var all := Contents() + data[..n];
      for i := 0 to n
        invariant tail == old(tail) && len == old(len) && head == Slot(tail + len + i)
        invariant forall j :: 0 <= j < len + i ==> buf[Slot(tail + j)] == all[j]
      {
        buf[head] := data[i];
        head := (head + 1) % N;
      }
      len := len + n;
    }

    method Read(out: array<byte>) returns (n: nat)
      requires Valid() && out != buf
      modifies this, out
      ensures Valid() && n == Min(out.Length, old(len))
      ensures out[..n] == old(Contents())[..n] && Contents() == old(Contents())[n..]
      ensures forall i :: n <= i < out.Length ==> out[i] == old(out[i])
    {
      n := Min(out.Length, len);
      ghost var was := Contents();
      CopyOut(out, n);
      len := len - n;
      forall j | 0 <= j < len ensures Contents()[j] == was[n + j] {
        assert Slot(tail + j) == Slot(old(tail) + (n + j));
      }
    }

    /** The copying loop: the oldest `n` bytes, and the tail moved past them. */
    method CopyOut(out: array<byte>, n: nat)
      requires Valid() && out != buf && n <= out.Length && n <= len
      modifies this`tail, out
      ensures tail == Slot(old(tail) + n) && out[..n] == old(Contents())[..n]
      ensures forall i :: n <= i < out.Length ==> out[i] == old(out[i])
    {
      ghost var was := Contents();
      for i := 0 to n
        invariant tail == Slot(old(tail) + i)
        invariant forall j :: 0 <= j < i ==> out[j] == was[j]
        invariant forall j :: i <= j < out.Length ==> out[j] == old(out[j])
      {
        out[i] := buf[tail];
        tail := (tail + 1) % N;
      }
    }
  }

  /** A connection block. Segments that the handlers send are returned to the caller. */
  class TcpConn {
    var state: M.State
    var sndUna: u32
    var sndNxt: u32
    var sndIss: u32
    var rcvNxt: u32
    var rcvIrs: u32
    var rcvWnd: u16
    var sndWnd: u16
    const ring: RxRing
    const resendData: array<byte>
    var resendLen: nat

    ghost predicate Valid()
      reads this, ring
    {
      ring.Valid() && resendData.Length == M.TX_BUF_SIZE && resendLen <= M.TX_BUF_SIZE && resendData != ring.buf
    }

    ghost function Value(): M.Conn
      reads this, ring, ring.buf, resendData
      requires Valid()
    {
      M.Conn(state, sndUna, sndNxt, sndIss, rcvNxt, rcvIrs, rcvWnd, sndWnd, ring.Contents(), resendData[..resendLen])
    }

    /** `tcp_connect` up to the wait. */
    constructor Connect(iss: u32)
      ensures Valid() && Value() == M.Connect(iss) && fresh(ring) && fresh(ring.buf) && fresh(resendData)
    {
      state, sndIss, sndUna, sndNxt := M.SynSent, iss, iss, M.Plus(iss, 1);
      rcvNxt, rcvIrs, rcvWnd, sndWnd := 0, 0, M.DEFAULT_WINDOW, M.DEFAULT_WINDOW;
      ring := new RxRing();
      resendData := new byte[M.TX_BUF_SIZE](_ => 0);
      resendLen := 0;
    }

    /** The control segment that acknowledges what has been received. */
    method Acknowledge(window: u16) returns (g: M.Segment)
      requires Valid()
      ensures g == M.Control(Value(), false, false, window)
    {
      g := M.Segment(sndNxt, rcvNxt, false, true, false, false, window, []);
    }

    method TakeData(g: M.Segment) returns (sent: seq<M.Segment>)
      requires Valid()
      modifies this`rcvNxt, ring, ring.buf
      ensures Valid() && M.TakeData(old(Value()), g) == M.Step(Value(), sent)
    {
      sent := [];
      if g.payload != [] && g.seqNo == rcvNxt {
        var written := ring.Write(g.payload);
        rcvNxt := M.Plus(rcvNxt, written);
        var a := Acknowledge(Min(N - ring.len, 0xFFFF));
        sent := [a];
      }
    }

    method TakeFin(next: M.State) returns (sent: seq<M.Segment>)
      requires Valid()
      modifies this`rcvNxt, this`state
      ensures Valid() && M.TakeFin(old(Value()), next) == M.Step(Value(), sent)
    {
      rcvNxt := M.Plus(rcvNxt, 1);
      state := next;
      var a := Acknowledge(rcvWnd);
      sent := [a];
    }

    method HandleEstablished(g: M.Segment) returns (sent: seq<M.Segment>)
      requires Valid() && state == M.Established && !g.rst
      modifies this, ring, ring.buf
      ensures Valid() && M.Handle(old(Value()), g) == M.Step(Value(), sent)
    {
      if g.ack {
        if M.AckInRange(sndUna, g.ackNo, sndNxt) {
          sndUna := g.ackNo;
          resendLen := 0;
        }
        sndWnd := g.window;
      }
      assert Value() == M.TakeAck(old(Value()), g);
      sent := TakeData(g);
      if g.fin {
        var f := TakeFin(M.CloseWait);
        sent := sent + f;
      }
    }

    method HandleSynSent(g: M.Segment) returns (sent: seq<M.Segment>)
      requires Valid() && state == M.SynSent && !g.rst
      modifies this
      ensures Valid() && M.Handle(old(Value()), g) == M.Step(Value(), sent)
    {
      sent := [];
      if g.syn && g.ack {
        if g.ackNo == sndNxt {
          rcvIrs, rcvNxt, sndUna, sndWnd := g.seqNo, M.Plus(g.seqNo, 1), g.ackNo, g.window;
          state := M.Established;
          var a := Acknowledge(rcvWnd);
          sent := [a];
        } else {
          sent := [M.Segment(g.ackNo, 0, false, false, false, true, 0, [])];
          state := M.Closed;
        }
      }
    }

    method HandleFinWait1(g: M.Segment) returns (sent: seq<M.Segment>)
      requires Valid() && state == M.FinWait1 && !g.rst
      modifies this
      ensures Valid() && M.Handle(old(Value()), g) == M.Step(Value(), sent)
    {
      sent := [];
      if g.ack && g.ackNo == sndNxt {
        sndUna := g.ackNo;
        if g.fin {
          sent := TakeFin(M.TimeWait);
        } else {
          state := M.FinWait2;
        }
      } else if g.fin {
        sent := TakeFin(M.TimeWait);
      }
    }

    /** `handle_conn_segment` */
    method HandleSegment(g: M.Segment) returns (sent: seq<M.Segment>)
      requires Valid()
      modifies this, ring, ring.buf
      ensures Valid() && M.Handle(old(Value()), g) == M.Step(Value(), sent)
    {
      sent := [];
      if g.rst {
        state := M.Closed;
        return;
      }
      match state {
        case SynSent => sent := HandleSynSent(g);
        case SynReceived =>
          if g.ack && g.ackNo == sndNxt {
            sndUna, sndWnd, state := g.ackNo, g.window, M.Established;
          }
        case Established => sent := HandleEstablished(g);
        case FinWait1 => sent := HandleFinWait1(g);
        case FinWait2 => if g.fin { sent := TakeFin(M.TimeWait); }
        case LastAck => if g.ack && g.ackNo == sndNxt { state := M.Closed; }
        case TimeWait => state := M.Closed;
        case CloseWait => if g.ack { sndUna := g.ackNo; }
        case _ =>
      }
    }

    /** `tcp_send`; `None` stands for its error returns. */
    method Send(data: seq<byte>) returns (r: Option<nat>, sent: seq<M.Segment>)
      requires Valid()
      modifies this, resendData
      ensures Valid() && M.Send(old(Value()), data) == M.Step(Value(), sent)
      ensures r == if old(state) in {M.Established, M.CloseWait} && old(sndWnd) > 0 then Some(|data|) else None
    {
      sent := [];
      if state != M.Established && state != M.CloseWait { return None, []; }
      var mss := Min(M.MAX_PAYLOAD, sndWnd);
      if mss == 0 { return None, []; }
      sent := SendChunks(data, mss);
      r := Some(|data|);
    }

    method SendChunks(data: seq<byte>, mss: nat) returns (sent: seq<M.Segment>)
      requires Valid() && 0 < mss <= M.MAX_PAYLOAD
      modifies this, resendData
      ensures Valid() && M.SendChunks(old(Value()), data, mss) == M.Step(Value(), sent)
    {
      ghost var goal := M.SendChunks(Value(), data, mss);
      sent := [];
      var done := 0;
      ghost var rest := data;
      while done < |data|
        invariant done <= |data| && rest == data[done..] && Valid() && M.Onto(sent, M.SendChunks(Value(), rest, mss)) == goal
      {
        var n := Min(|data| - done, mss);
        var g := SendChunk(data[done..], n, mss);
        M.OntoMore(sent, g, M.SendChunks(Value(), rest[n..], mss));
        sent, done, rest := sent + [g], done + n, rest[n..];
      }
    }

    method SendChunk(data: seq<byte>, n: nat, mss: nat) returns (g: M.Segment)
      requires Valid() && 0 < mss <= M.MAX_PAYLOAD && data != [] && n == Min(|data|, mss)
      modifies this, resendData
      ensures Valid()
      ensures M.SendChunks(old(Value()), data, mss) == M.Onto([g], M.SendChunks(Value(), data[n..], mss))
    {
      M.SendUnfold(Value(), data, mss);
      g := SendOne(data[..n]);
      KeepChunk(data[..n]);
    }

    function SendOne(payload: seq<byte>): M.Segment
      reads this, ring
      requires Valid()
    {
      M.Segment(sndNxt, rcvNxt, false, true, false, false, Min(N - ring.len, 0xFFFF), payload)
    }

    /** The part of `tcp_recv` and `tcp_recv_nb` that hands bytes to the application. */
    method Recv(out: array<byte>) returns (n: nat)
      requires Valid() && out != ring.buf && out != resendData
      modifies ring, out
      ensures Valid() && n == Min(out.Length, |old(Value()).rx|)
      ensures out[..n] == old(Value()).rx[..n] && Value() == old(Value()).(rx := old(Value()).rx[n..])
    {
      n := ring.Read(out);
    }

    /** `tcp_close` up to the wait for the peer, in the two states that send a FIN. */
    method Close() returns (sent: seq<M.Segment>)
      requires Valid()
      modifies this, ring
      ensures Valid() && M.Close(old(Value())) == M.Step(Value(), sent)
    {
      if state != M.Established && state != M.CloseWait {
        Reset();
        return [];
      }
      sent := [M.Segment(sndNxt, rcvNxt, false, true, true, false, rcvWnd, [])];
      sndNxt := M.Plus(sndNxt, 1);
      state := if state == M.Established then M.FinWait1 else M.LastAck;
    }

    method HandleAll(gs: seq<M.Segment>) returns (sent: seq<M.Segment>)
      requires Valid()
      modifies this, ring, ring.buf
      ensures Valid()
      ensures M.HandleAll(old(Value()), gs) == M.Step(Value(), sent)
    {
      sent := [];
      ghost var goal := M.HandleAll(Value(), gs);
      ghost var rest := gs;
      for i := 0 to |gs|
        invariant Valid()
        invariant rest == gs[i..] && M.Onto(sent, M.HandleAll(Value(), rest)) == goal
      {
        var out := HandleSegment(gs[i]);
        M.OntoOnto(sent, out, M.HandleAll(Value(), rest[1..]));
        sent, rest := sent + out, rest[1..];
      }
    }

    /** The wait of `tcp_close` for the peer: `polls` is what arrives until the deadline. */
    method Wait(timeWait: bool, polls: seq<seq<M.Segment>>) returns (sent: seq<M.Segment>)
      requires Valid()
      modifies this, ring, ring.buf
      ensures Valid() && M.Wait(old(Value()), timeWait, polls) == M.Step(Value(), sent)
    {
      sent := [];
      ghost var goal := M.Wait(Value(), timeWait, polls);
      ghost var rest := polls;
      for i := 0 to |polls|
        invariant Valid()
        invariant rest == polls[i..] && M.Onto(sent, M.Wait(Value(), timeWait, rest)) == goal
      {
        var out := HandleAll(polls[i]);
        if state == M.Closed || (timeWait && state == M.TimeWait) {
          sent := sent + out;
          return;
        }
        M.OntoOnto(sent, out, M.Wait(Value(), timeWait, rest[1..]));
        sent, rest := sent + out, rest[1..];
      }
    }

    /** `tcp_close` to its end. */
    method CloseFully(polls: seq<seq<M.Segment>>) returns (sent: seq<M.Segment>)
      requires Valid()
      modifies this, ring, ring.buf
      ensures Valid() && M.CloseFully(old(Value()), polls) == M.Step(Value(), sent)
    {
      var wait, timeWait := state == M.Established || state == M.CloseWait, state == M.Established;
      sent := Close();
      if wait {
        var more := Wait(timeWait, polls);
        sent := sent + more;
        Reset();
      }
    }

    /** `reset`: the fields of a new connection block. */
    method Reset()
      requires Valid()
      modifies this, ring
      ensures Valid() && Value() == M.Fresh()
    {
      state := M.Closed;
      sndUna, sndNxt, sndIss, rcvNxt, rcvIrs := 0, 0, 0, 0, 0;
      rcvWnd, sndWnd := M.DEFAULT_WINDOW, M.DEFAULT_WINDOW;
      ring.head, ring.tail, ring.len := 0, 0, 0;
      resendLen := 0;
    }

    /** Store the chunk for a retransmission and advance `snd_nxt`. */
    method KeepChunk(payload: seq<byte>)
      requires Valid() && |payload| <= M.TX_BUF_SIZE
      modifies this`resendLen, this`sndNxt, resendData
      ensures Valid() && Value() == old(Value()).(resend := payload, sndNxt := M.Plus(old(sndNxt), |payload|))
    {
      for i := 0 to |payload|
        modifies resendData
        invariant forall j :: 0 <= j < i ==> resendData[j] == payload[j]
      {
        resendData[i] := payload[i];
      }
      resendLen := |payload|;
      assert resendData[..resendLen] == payload;
      sndNxt := M.Plus(sndNxt, |payload|);
    }
  }
}
