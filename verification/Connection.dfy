/**
  A sender and a receiver as the program keeps them, with wrapped numbers, and
  the network between them.  Any sequence of calls is a run in which every
  message that arrives is at most a quarter of the number circle old.  Nothing
  else is assumed; messages, confirmations among them, may be lost for ever.
 */
module Connection {
  import opened SeqNo
  import opened LossReport
  import opened Streams
  import opened Transport
  import opened TransportLag
  import opened TransportProgress
  import opened TransportSafety
  import opened TransportSilence
  import SE = SenderEnd
  import RE = ReceiverEnd
  import SndBuffer

  /** What a message looks like on the wire. */
  datatype Wire =
    | DataWire(seqno: int, payload: Payload)
    | LiteWire(ack: int)
    | FullWire(id: int, ack: int, window: int)
    | NakWire(words: seq<int>)
    | Ack2Wire(id: int)

  function OnWire(m: Message): Wire {
    match m
    case Data(no, payload) => DataWire(Wrap(no), payload)
    case LiteAck(ack) => LiteWire(Wrap(ack))
    case FullAck(id, ack, window) => FullWire(Wrap(id), Wrap(ack), window)
    case Nak(ranges) => NakWire(Code(ranges))
    case Ack2(id) => Ack2Wire(Wrap(id))
  }

  const AGE: int := SEQ_NO_TH / 2

  class Connection {
    const snd: SE.SenderEnd
    const rcv: RE.ReceiverEnd
    ghost const c: Config

    /** The unbounded view of both ends, with everything sent so far. */
    ghost var sys: System

    /** The bytes the two applications have handed over and have got. */
    ghost var handed: seq<Byte>
    ghost var got: seq<Byte>

    ghost predicate Sizes()
      reads rcv
    {
      && c.Valid() && snd.wmax == c.wmax && snd.buffer.mss == c.mss
      && rcv.buffer.size == c.size && rcv.ackWindow.size - 1 == c.cap
    }

    /** The two ends share no array. */
    ghost predicate Apart() {
      {snd.lossList.data1, snd.lossList.data2, snd.lossList.next}
      !! {rcv.lossList.data1, rcv.lossList.data2, rcv.lossList.next, rcv.lossList.prior,
          rcv.ackWindow.ackSeqNo, rcv.ackWindow.ack, rcv.ackWindow.timeStamp}
    }

    ghost predicate Ends()
      reads snd, snd.lossList, snd.lossList.data1, snd.lossList.data2, snd.lossList.next
      reads snd.buffer, snd.buffer.ring, snd.buffer.buffers
      reads rcv, rcv.lossList, rcv.lossList.data1, rcv.lossList.data2, rcv.lossList.next, rcv.lossList.prior
      reads rcv.buffer, rcv.buffer.units, rcv.ackWindow, rcv.ackWindow.ackSeqNo, rcv.ackWindow.ack
      reads rcv.ackWindow.timeStamp
    {
      snd.Valid() && rcv.Valid() && Sizes() && Apart()
    }

    /** Both ends are well formed, and together they are in a state that a run can reach. */
    ghost predicate Valid()
      reads this, snd, snd.lossList, snd.lossList.data1, snd.lossList.data2, snd.lossList.next
      reads snd.buffer, snd.buffer.ring, snd.buffer.buffers
      reads rcv, rcv.lossList, rcv.lossList.data1, rcv.lossList.data2, rcv.lossList.next, rcv.lossList.prior
      reads rcv.buffer, rcv.buffer.units, rcv.ackWindow, rcv.ackWindow.ackSeqNo, rcv.ackWindow.ack
      reads rcv.ackWindow.timeStamp
    {
      && Ends() && sys.snd == snd.Abs() && sys.rcv == rcv.Abs() && Inv(c, sys) && LagInv(sys)
      && Flatten(sys.accepted) == handed && sys.delivered == got
    }

    /** The step `t` of the run led from `s` to the present state. */
    ghost predicate Stepped(s: System, t: Step)
      reads this`sys
    {
      c.Valid() && StepFrom(c, s, t, sys)
    }

    /** Message `m` is in the network, looks like `w`, and is not too old for its receiver. */
    ghost predicate Arrives(w: Wire, m: Message)
      reads this
    {
      m in sys.net && w == OnWire(m) && InTime(sys, m, AGE)
    }

    /** The sender starts with a window of `flow`, the receiver can record `flight` losses. */
    constructor (c: Config, flow: int, flight: int)
      requires c.Valid() && c.isn <= MAX_SEQ_NO && 2 <= flow <= c.wmax <= 2 * flow < AGE
      requires 1 < c.size <= flight <= SEQ_NO_TH && c.size < AGE && c.cap + 1 < AGE
      ensures Valid() && handed == [] && got == [] && this.c == c && sys == Init(c, flow)
    {
      hide SE.SenderEnd.Valid, RE.ReceiverEnd.Valid, Later, Inv, LagInv, Flatten, Init;
      var s, r := MakeEnds(c, flow, flight);
      snd, rcv := s, r;
      this.c := c;
      sys := Init(c, flow);
      handed, got := [], [];
      new;
      InitInv(c, flow);
      InitLag(c, flow);
      InitIs(c, flow);
    }

    static method MakeEnds(c: Config, flow: int, flight: int) returns (snd: SE.SenderEnd, rcv: RE.ReceiverEnd)
      requires c.Valid() && c.isn <= MAX_SEQ_NO && 2 <= flow <= c.wmax <= 2 * flow < AGE
      requires 1 < c.size <= flight <= SEQ_NO_TH && c.size < AGE && c.cap + 1 < AGE
      ensures snd.Valid() && snd.wmax == c.wmax && snd.buffer.mss == c.mss
      ensures snd.Abs() == Sender(c.isn, c.isn, c.isn - 1, {}, [], 0, flow, false)
      ensures rcv.Valid() && rcv.buffer.size == c.size && rcv.ackWindow.size - 1 == c.cap
      ensures rcv.Abs() == Receiver(c.isn, c.isn, c.isn - 1, {}, 0, [], map[], c.isn, 0)
      ensures {snd.lossList.data1, snd.lossList.data2, snd.lossList.next}
              !! {rcv.lossList.data1, rcv.lossList.data2, rcv.lossList.next, rcv.lossList.prior,
                  rcv.ackWindow.ackSeqNo, rcv.ackWindow.ack, rcv.ackWindow.timeStamp}
    {
      hide SE.SenderEnd.Valid, RE.ReceiverEnd.Valid;
      snd := new SE.SenderEnd(c.isn, c.mss, flow, c.wmax);
      rcv := new RE.ReceiverEnd(c.isn, c.size, flight, c.cap + 1);
    }

    static lemma InitIs(c: Config, flow: int)
      ensures var s := Init(c, flow);
              && s.snd == Sender(c.isn, c.isn, c.isn - 1, {}, [], 0, flow, false)
              && s.rcv == Receiver(c.isn, c.isn, c.isn - 1, {}, 0, [], map[], c.isn, 0)
              && Flatten(s.accepted) == [] && s.delivered == []
    {
    }

    /** The windows are far smaller than the number circle. */
    lemma Widths()
      requires Ends()
      ensures c.wmax < AGE && c.size < AGE
    {
    }

    /** The invariants hold after any step. */
    lemma StepHolds(t: Step)
      requires Valid() && Enabled(sys, t)
      ensures Inv(c, Apply(c, sys, t)) && LagInv(Apply(c, sys, t))
    {
      hide SE.SenderEnd.Valid, RE.ReceiverEnd.Valid, Later, Inv, LagInv, Apply, Enabled, Flatten;
      Widths();
      StepKeeps(c, sys, t);
      StepKeepsLag(c, sys, t);
    }

    // ---------------------------------------------------------------- the two applications

    /** The sender's application hands over data. */
    method Send(data: seq<Byte>, sndBufSize: int) returns (taken: int)
      requires Valid() && sndBufSize > 0
      modifies this`sys, this`handed, snd.buffer, snd.buffer.ring, snd.buffer.buffers
      ensures Valid() && 0 <= taken <= |data| && handed == old(handed) + data[..taken] && got == old(got)
      ensures Stepped(old(sys), StepAccept(data[..taken]))
    {
      hide SE.SenderEnd.Valid, RE.ReceiverEnd.Valid, Later, Inv, LagInv, Flatten, Chunks, Accept, Apply;
      hide SE.SenderEnd.Allowed, Enabled;
      Widths();
      taken := snd.Send(data, sndBufSize);
      assert Ends();
      ghost var t := StepAccept(data[..taken]);
      AcceptHolds(c, sys, data[..taken]);
      sys := Apply(c, sys, t);
      handed := handed + data[..taken];
    }

    static lemma AcceptHolds(c: Config, s: System, data: seq<Byte>)
      requires c.Valid() && c.wmax < AGE && Inv(c, s) && LagInv(s)
      ensures var u := Apply(c, s, StepAccept(data));
              && u == s.(snd := Accept(s.snd, data, c.mss), accepted := u.accepted)
              && Flatten(u.accepted) == Flatten(s.accepted) + data
              && Inv(c, u) && LagInv(u) && Enabled(s, StepAccept(data))
    {
      hide Inv, LagInv, Later, Apply, Accept, Flatten;
      AcceptApplied(c, s, data);
      StepKeeps(c, s, StepAccept(data));
      StepKeepsLag(c, s, StepAccept(data));
    }

    static lemma AcceptApplied(c: Config, s: System, data: seq<Byte>)
      requires c.Valid()
      ensures var u := Apply(c, s, StepAccept(data));
              u == s.(snd := Accept(s.snd, data, c.mss), accepted := u.accepted)
              && Flatten(u.accepted) == Flatten(s.accepted) + data
    {
      hide Flatten, Chunks, Accept;
      FlattenConcat(s.accepted, Chunks(data, c.mss));
      ChunksFlatten(data, c.mss);
    }

    /**
      The receiver's application reads: what it has got so far is always a
      prefix of what was handed over at the other end.
     */
    method Recv(len: int) returns (data: seq<Byte>)
      requires Valid()
      modifies this`sys, this`got, rcv.buffer`startPos, rcv.buffer`notch, rcv.buffer`start, rcv.buffer`store
      modifies rcv.buffer.units
      ensures Valid() && got == old(got) + data && handed == old(handed)
      ensures got <= handed
      ensures Stepped(old(sys), StepRead(len))
    {
      hide Valid, Stepped;
      data := Take(len);
      GotPrefix();
    }

    /** Whatever happened before: what was got is a prefix of what was handed over. */
    lemma GotPrefix()
      requires Valid()
      ensures got <= handed
    {
      hide Ends, Flatten, SenderInv, ReceiverInv, NetInv;
    }

    method Take(len: int) returns (data: seq<Byte>)
      requires Valid()
      modifies this`sys, this`got, rcv.buffer`startPos, rcv.buffer`notch, rcv.buffer`start, rcv.buffer`store
      modifies rcv.buffer.units
      ensures Valid() && got == old(got) + data && handed == old(handed)
      ensures Stepped(old(sys), StepRead(len))
    {
      hide SE.SenderEnd.Valid, RE.ReceiverEnd.Valid, Later, Inv, LagInv, Flatten, Read, Apply, Readable;
      InvReadable(c, sys);
      ghost var t := StepRead(len);
      StepHolds(t);
      ReadApplied(c, sys, len);
      data := rcv.Recv(len);
      assert Ends();
      sys := Apply(c, sys, t);
      got := got + data;
    }

    static lemma ReadApplied(c: Config, s: System, len: int)
      requires c.Valid() && Readable(s.rcv)
      ensures Apply(c, s, StepRead(len))
              == s.(rcv := Read(s.rcv, len).0, delivered := s.delivered + Read(s.rcv, len).1)
    {
      hide Read;
    }

    // ---------------------------------------------------------------- what the ends send

    /** The sender sends a packet, if it may. */
    method Pack(cwnd: int) returns (sent: bool, w: Wire, ghost m: Message)
      requires Valid()
      modifies this`sys, snd`sndCurrSeqNo, snd`curr, snd.buffer`curr, snd.buffer`pos
      modifies snd.lossList, snd.lossList.data1, snd.lossList.data2, snd.lossList.next
      ensures Valid() && got == old(got) && handed == old(handed) && Stepped(old(sys), StepPack(cwnd))
      ensures sent ==> m in sys.net && w == OnWire(m)
    {
      hide SE.SenderEnd.Valid, RE.ReceiverEnd.Valid, Later, Inv, LagInv, Flatten, PackData, Apply, Wrap;
      ghost var t := StepPack(cwnd);
      PackApplied(c, sys, cwnd);
      StepHolds(t);
      var seqno, payload; ghost var no;
      sent, seqno, payload, no := snd.PackData(cwnd);
      assert Ends();
      sys := Apply(c, sys, t);
      w, m := DataWire(seqno, payload), Data(no, payload);
    }

    static lemma PackApplied(c: Config, s: System, cwnd: int)
      requires c.Valid()
      ensures var u := Apply(c, s, StepPack(cwnd)); var (q, sent) := PackData(s.snd, cwnd);
              u == s.(snd := q, net := u.net) && (sent.Packet? ==> Data(sent.no, sent.payload) in u.net)
    {
      hide PackData;
    }

    /** The receiver acknowledges with nothing but a number. */
    method SendLiteAck() returns (sent: bool, w: Wire, ghost m: Message)
      requires Valid()
      modifies this`sys
      ensures Valid() && got == old(got) && handed == old(handed) && Stepped(old(sys), StepLite)
      ensures sent ==> m in sys.net && w == OnWire(m)
    {
      hide SE.SenderEnd.Valid, RE.ReceiverEnd.Valid, Later, Inv, LagInv, Flatten, Transport.SendLiteAck, FirstMissing;
      hide Apply, Wrap;
      LiteApplied(c, sys);
      StepHolds(StepLite);
      var ack; ghost var n;
      sent, ack, n := rcv.SendLiteAck();
      assert Ends();
      sys := Apply(c, sys, StepLite);
      w, m := LiteWire(ack), LiteAck(n);
    }

    static lemma LiteApplied(c: Config, s: System)
      requires c.Valid()
      ensures var u := Apply(c, s, StepLite); var sent := Transport.SendLiteAck(s.rcv);
              u == s.(net := u.net) && (sent.Lite? ==> LiteAck(sent.ack) in u.net)
    {
      hide Transport.SendLiteAck;
    }

    /** The receiver's periodic acknowledgement. */
    method SendFullAck(early: bool, now: int) returns (sent: bool, w: Wire, ghost m: Message)
      requires Valid()
      modifies this`sys, rcv`rcvLastAck, rcv`ackSeqNo, rcv`ackId, rcv`log
      modifies rcv.buffer`lastAckPos, rcv.buffer`maxPos, rcv.buffer`ack
      modifies rcv.ackWindow, rcv.ackWindow.ackSeqNo, rcv.ackWindow.ack, rcv.ackWindow.timeStamp
      ensures Valid() && got == old(got) && handed == old(handed) && Stepped(old(sys), StepFull(early, now))
      ensures sent ==> m in sys.net && w == OnWire(m)
    {
      hide SE.SenderEnd.Valid, RE.ReceiverEnd.Valid, Later, Inv, LagInv, Flatten, Transport.SendFullAck, Apply, Wrap;
      ghost var t := StepFull(early, now);
      FullApplied(c, sys, early, now);
      StepHolds(t);
      var id, ack, window;
      sent, id, ack, window := rcv.SendFullAck(early, now);
      assert Ends();
      sys := Apply(c, sys, t);
      w, m := FullWire(id, ack, window), FullAck(rcv.ackId, rcv.buffer.ack, window);
    }

    static lemma FullApplied(c: Config, s: System, early: bool, now: int)
      requires c.Valid()
      ensures var u := Apply(c, s, StepFull(early, now));
              var (r, sent) := Transport.SendFullAck(s.rcv, c.size, c.cap, early, now);
              u == s.(rcv := r, net := u.net, acks := u.acks)
              && (sent.Full? ==> FullAck(sent.id, sent.ack, sent.window) in u.net)
    {
      hide Transport.SendFullAck;
    }

    /** The sender heard nothing for too long. */
    method Expire()
      requires Valid()
      modifies this`sys, snd.lossList, snd.lossList.data1, snd.lossList.data2, snd.lossList.next
      ensures Valid() && got == old(got) && handed == old(handed) && Stepped(old(sys), StepExpire)
    {
      hide SE.SenderEnd.Valid, RE.ReceiverEnd.Valid, Later, Inv, LagInv, Flatten, OnExpire;
      StepHolds(StepExpire);
      snd.Expire();
      assert Ends();
      sys := Apply(c, sys, StepExpire);
    }

    // ---------------------------------------------------------------- what arrives

    /** How far the counters of the two ends are apart. */
    static lemma Spread(c: Config, s: System)
      requires c.Valid() && Inv(c, s)
      ensures s.snd.curr + 1 <= s.rcv.lastAck + c.wmax && s.snd.curr + 1 <= s.snd.lastAck + c.wmax && !s.snd.broken
    {
      hide Flatten, StreamInv, NetInv, FirstMissing;
    }

    /** What arrives is as the two ends demand. */
    lemma Ready(w: Wire, m: Message)
      requires Valid() && Arrives(w, m)
      ensures w == OnWire(m) && m in sys.net && !snd.broken
      ensures match m
              case Data(no, _) => rcv.Recent(no)
              case LiteAck(ack) => snd.Recent(ack) && ack <= snd.curr + 1
              case FullAck(_, ack, window) => snd.Recent(ack) && window <= snd.wmax
              case Nak(ranges) => forall r :: r in ranges ==> snd.Recent(r.0) && snd.Recent(r.1)
              case Ack2(id) => rcv.ackId - SEQ_NO_TH < id <= rcv.ackId
    {
      hide SE.SenderEnd.Valid, RE.ReceiverEnd.Valid, Later, Inv, LagInv, Flatten, OnWire;
      InFlight(c, sys, m);
      Spread(c, sys);
      Widths();
    }

    /** A data packet arrives at the receiver, which may report a loss. */
    method DataArrives(seqno: int, payload: Payload, ghost no: int) returns (report: seq<int>, ghost m: Message)
      requires Valid() && Arrives(DataWire(seqno, payload), Data(no, payload))
      modifies this`sys, rcv`rcvCurrSeqNo, rcv`curr, rcv.buffer`maxPos, rcv.buffer`store, rcv.buffer.units
      modifies rcv.lossList, rcv.lossList.data1, rcv.lossList.data2, rcv.lossList.next, rcv.lossList.prior
      ensures Valid() && got == old(got) && handed == old(handed) && Stepped(old(sys), StepData(no, payload))
      ensures report != [] ==> m in sys.net && NakWire(report) == OnWire(m)
    {
      hide SE.SenderEnd.Valid, RE.ReceiverEnd.Valid, Later, RE.ReceiverEnd.Recent, Arrives, Inv, LagInv;
      hide Flatten, OnData, Apply, Wrap, Code;
      ghost var t := StepData(no, payload);
      Ready(DataWire(seqno, payload), Data(no, payload));
      DataApplied(c, sys, no, payload);
      StepHolds(t);
      m := Nak([(rcv.curr + 1, no - 1)]);
      report := rcv.ProcessData(seqno, payload, no);
      assert Ends();
      sys := Apply(c, sys, t);
    }

    static lemma DataApplied(c: Config, s: System, no: int, payload: Payload)
      requires c.Valid() && Data(no, payload) in s.net
      ensures var u := Apply(c, s, StepData(no, payload)); var (r, reply) := OnData(s.rcv, no, payload, c.size);
              u == s.(rcv := r, net := u.net) && (reply.Report? ==> Nak([(reply.a, reply.b)]) in u.net)
    {
      hide OnData;
    }

    /** A lite acknowledgement arrives at the sender. */
    method LiteAckArrives(ack: int, ghost n: int)
      requires Valid() && Arrives(LiteWire(ack), LiteAck(n))
      modifies this`sys, snd`flowWindowSize, snd`sndLastAck, snd`lastAck
      ensures Valid() && got == old(got) && handed == old(handed) && Stepped(old(sys), StepLiteAck(n))
    {
      hide SE.SenderEnd.Valid, RE.ReceiverEnd.Valid, Later, SE.SenderEnd.Recent, SE.SenderEnd.Parts, Arrives;
      hide Inv, LagInv, Flatten, OnLiteAck, Apply, Wrap;
      Ready(LiteWire(ack), LiteAck(n));
      LiteAckApplied(c, sys, n);
      StepHolds(StepLiteAck(n));
      snd.ProcessLiteAck(ack, n);
      assert Ends();
      sys := Apply(c, sys, StepLiteAck(n));
    }

    static lemma LiteAckApplied(c: Config, s: System, n: int)
      requires c.Valid() && LiteAck(n) in s.net
      ensures Apply(c, s, StepLiteAck(n)) == s.(snd := OnLiteAck(s.snd, n))
    {
    }

    /** A full acknowledgement arrives at the sender, which may confirm it. */
    method FullAckArrives(id: int, ack: int, window: int, ghost k: int, ghost n: int, confirm: bool)
      returns (w: Wire, ghost m: Message)
      requires Valid() && Arrives(FullWire(id, ack, window), FullAck(k, n, window))
      modifies this`sys, snd, snd.lossList, snd.lossList.data1, snd.lossList.data2, snd.lossList.next, snd.buffer
      ensures Valid() && got == old(got) && handed == old(handed)
      ensures Stepped(old(sys), StepFullAck(k, n, window, confirm))
      ensures w == OnWire(m) && (confirm ==> m in sys.net)
    {
      hide SE.SenderEnd.Valid, RE.ReceiverEnd.Valid, Later, SE.SenderEnd.Recent, Arrives, Inv, LagInv;
      hide Flatten, OnFullAck, Apply, Wrap;
      Ready(FullWire(id, ack, window), FullAck(k, n, window));
      FullAckApplied(c, sys, k, n, window, confirm);
      StepHolds(StepFullAck(k, n, window, confirm));
      snd.ProcessFullAck(ack, window, n);
      assert Ends();
      sys := Apply(c, sys, StepFullAck(k, n, window, confirm));
      w, m := Ack2Wire(id), Ack2(k);
    }

    static lemma FullAckApplied(c: Config, s: System, id: int, ack: int, window: int, confirm: bool)
      requires c.Valid() && FullAck(id, ack, window) in s.net
      ensures var u := Apply(c, s, StepFullAck(id, ack, window, confirm));
              u == s.(snd := OnFullAck(s.snd, ack, window), net := u.net) && (confirm ==> Ack2(id) in u.net)
    {
      hide OnFullAck;
    }

    /** A loss report arrives at the sender. */
    method NakArrives(words: seq<int>, ghost rs: Ranges)
      requires Valid() && Arrives(NakWire(words), Nak(rs))
      modifies this`sys, snd`broken, snd.lossList, snd.lossList.data1, snd.lossList.data2, snd.lossList.next
      ensures Valid() && got == old(got) && handed == old(handed) && Stepped(old(sys), StepNak(rs))
    {
      hide SE.SenderEnd.Valid, RE.ReceiverEnd.Valid, Later, SE.SenderEnd.Recent, Arrives, Inv, LagInv;
      hide Flatten, OnNak, Wrap, Code;
      Ready(NakWire(words), Nak(rs));
      StepHolds(StepNak(rs));
      snd.ProcessNak(words, rs);
      assert Ends();
      sys := Apply(c, sys, StepNak(rs));
    }

    /** The confirmation of an acknowledgement arrives at the receiver. */
    method Ack2Arrives(id: int, now: int, ghost n: int)
      requires Valid() && Arrives(Ack2Wire(id), Ack2(n))
      modifies this`sys, rcv`rcvLastAckAck, rcv`lastAckAck, rcv`log, rcv.ackWindow, rcv.ackWindow.ackSeqNo
      ensures Valid() && got == old(got) && handed == old(handed)
              && Stepped(old(sys), StepAck2(n, now))
    {
      hide SE.SenderEnd.Valid, RE.ReceiverEnd.Valid, Later, Arrives, Inv, LagInv, Flatten, OnAck2, Wrap;
      Ready(Ack2Wire(id), Ack2(n));
      StepHolds(StepAck2(n, now));
      rcv.ProcessAck2(id, now);
      assert Ends();
      sys := Apply(c, sys, StepAck2(n, now));
    }

    // ---------------------------------------------------------------- progress

    /**
      Were the network to lose all it holds, calls of the methods above that
      let nothing arrive too late can deliver and release everything exactly
      if the ends are alive; with a lag inside the half window they are.
     */
    lemma CanFinishIff()
      requires Valid() && c.size >= 2 && c.cap > 0
      ensures var s := sys.(net := {});
              && (CanFinish(c, AGE, s) <==> Alive(c, s))
              && (Lag(rcv.Abs()) < SEQ_NO_TH ==> Alive(c, s))
    {
      hide SE.SenderEnd.Valid, RE.ReceiverEnd.Valid, Inv, LagInv, CanFinish, Alive, Flatten, FirstMissing;
      Widths();
      LoseAll(c, sys);
      FinishIff(c, AGE, sys.(net := {}));
      if Lag(sys.rcv) < SEQ_NO_TH { ShortLagAlive(c, sys.(net := {})); }
    }
  }
}
