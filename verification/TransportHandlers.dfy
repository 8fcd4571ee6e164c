/**
  What each handler achieves, in terms of numbers, bytes and windows: the laws
  that tell a handler of `Transport` from one that does too little.
 */
module TransportHandlers {
  import opened AckWindow
  import opened LossIntervals
  import opened SeqNo
  import opened Sets
  import opened Streams
  import opened Transport
  import opened TransportLag
  import opened TransportSafety
  import RB = RcvBuffer

  // ---------------------------------------------------------------- loss reports

  /** Number `x` is in one of the ranges of a report. */
  ghost predicate Reported(rs: seq<(int, int)>, x: int) {
    exists k :: 0 <= k < |rs| && rs[k].0 <= x <= rs[k].1
  }

  lemma ReportedFirst(rs: seq<(int, int)>, x: int)
    requires rs != []
    ensures Reported(rs, x) <==> rs[0].0 <= x <= rs[0].1 || Reported(rs[1..], x)
  {
    if k :| 0 < k < |rs| && rs[k].0 <= x <= rs[k].1 { assert rs[1..][k - 1] == rs[k]; }
    if Reported(rs[1..], x) {
      var k :| 0 <= k < |rs| - 1 && rs[1..][k].0 <= x <= rs[1..][k].1;
      assert rs[k + 1] == rs[1..][k];
    }
  }

  lemma EntryRecords(s: Sender, r: (int, int), x: int)
    requires !s.broken && 0 <= r.0 <= r.1 <= s.curr
    ensures var t := OnLossEntry(s, r);
            && t == s.(loss := t.loss)
            && (x in t.loss <==> x in s.loss || (x >= s.lastAck && r.0 <= x <= r.1))
  {
    RangeIs(r.0, r.1);
    RangeIs(s.lastAck, r.1);
  }

  /** A report of numbers that were sent records exactly those not acknowledged, and changes nothing else. */
  lemma {:induction false} NakRecords(s: Sender, rs: seq<(int, int)>)
    requires !s.broken && forall k :: 0 <= k < |rs| ==> 0 <= rs[k].0 <= rs[k].1 <= s.curr
    ensures var t := OnNak(s, rs);
            && t == s.(loss := t.loss)
            && forall x :: x in t.loss <==> x in s.loss || (x >= s.lastAck && Reported(rs, x))
    decreases |rs|
  {
    hide OnLossEntry, Reported;
    if rs == [] {
      forall x ensures !Reported(rs, x) { NothingReported(x); }
    } else {
      var t := OnLossEntry(s, rs[0]);
      EntryRecords(s, rs[0], 0);
      NakRecords(t, rs[1..]);
      forall x ensures x in OnNak(s, rs).loss <==> x in s.loss || (x >= s.lastAck && Reported(rs, x)) {
        EntryRecords(s, rs[0], x);
        ReportedFirst(rs, x);
      }
    }
  }

  lemma NothingReported(x: int)
    ensures !Reported([], x)
  {
  }

  /** What no report can claim of numbers not sent, or of a range the wrong way round. */
  ghost predicate Impossible(s: Sender, r: (int, int)) {
    if r.0 == r.1 then r.0 >= s.lastAck && r.0 > s.curr else r.0 > r.1 || r.1 > s.curr
  }

  /** Any report at all breaks the connection exactly if one of its entries is impossible. */
  lemma {:induction false} NakBreaksIff(s: Sender, rs: seq<(int, int)>)
    ensures OnNak(s, rs).broken <==> s.broken || exists k :: 0 <= k < |rs| && Impossible(s, rs[k])
    decreases |rs|
  {
    hide Range;
    if rs != [] && !s.broken {
      var t := OnLossEntry(s, rs[0]);
      NakBreaksIff(t, rs[1..]);
      assert t.broken <==> Impossible(s, rs[0]);
      if !t.broken {
        forall k | 0 <= k < |rs| - 1 ensures Impossible(t, rs[1..][k]) <==> Impossible(s, rs[k + 1]) { }
        if k :| 0 <= k < |rs| && Impossible(s, rs[k]) { assert k > 0 && rs[1..][k - 1] == rs[k]; }
      }
    }
  }

  /** In every run: the delivery of a report records exactly its numbers not yet acknowledged. */
  lemma ReportDelivered(c: Config, states: seq<System>, steps: seq<Step>, n: nat, ranges: seq<(int, int)>, x: int)
    requires c.Valid() && IsRun(c, states, steps) && n < |steps| && steps[n] == StepNak(ranges)
    ensures var s, t := states[n].snd, states[n + 1].snd;
            && !t.broken
            && (x in t.loss <==> x in s.loss || (x >= s.lastAck && Reported(ranges, x)))
  {
    hide Flatten, StreamInv, ReceiverInv, StoreInv, CrossInv, AckInv, OnNak, Reported;
    RunInv(c, states, steps, n);
    assert StepFrom(c, states[n], steps[n], states[n + 1]);
    assert MessageOk(c, states[n], Nak(ranges));
    DataBounds(c, states[n]);
    NakRecords(states[n].snd, ranges);
  }

  // ---------------------------------------------------------------- sending

  /** How many packets are on their way, for all the sender knows. */
  function Unacknowledged(s: Sender): int {
    s.curr + 1 - s.lastAck
  }

  /**
    With nothing to resend, a packet goes out if and only if there is a block
    never sent and both windows are wider than what is unacknowledged.
   */
  lemma SendsNewIff(s: Sender, cwnd: int)
    requires s.loss == {}
    ensures PackData(s, cwnd).1.Packet? <==>
            0 <= s.next < |s.blocks| && Unacknowledged(s) < cwnd && Unacknowledged(s) < s.flow
    ensures var (t, sent) := PackData(s, cwnd);
            if sent.Packet? then
              && sent.no == s.curr + 1 && sent.payload == s.blocks[s.next]
              && t == s.(curr := s.curr + 1, next := s.next + 1)
            else t == s
  {
  }

  /** With something to resend, the least number lost goes out, whatever the windows are. */
  lemma ResendsFirst(c: Config, s: System, cwnd: int)
    requires c.Valid() && Inv(c, s) && s.snd.loss != {}
    ensures var (t, sent) := PackData(s.snd, cwnd);
            && sent.Packet? && sent.no in s.snd.loss && (forall x :: x in s.snd.loss ==> sent.no <= x)
            && 0 <= sent.no - c.isn < |s.accepted| && sent.payload == s.accepted[sent.no - c.isn]
            && t == s.snd.(loss := s.snd.loss - {sent.no})
  {
    hide Flatten, StreamInv, ReceiverInv, FirstMissing, AckInv, StoreInv, NetInv, CrossInv;
    var x := Least(s.snd.loss);
    assert s.snd.blocks[x - s.snd.dataAck] == s.accepted[x - c.isn];
  }

  /** What a call to send does to the sender, in terms of the counters. */
  lemma PackIff(c: Config, s: System, cwnd: int)
    requires c.Valid() && Inv(c, s)
    ensures var (t, sent) := PackData(s.snd, cwnd);
            && (t.curr == s.snd.curr || t.curr == s.snd.curr + 1) && t.lastAck == s.snd.lastAck && t.flow == s.snd.flow
            && (t.curr != s.snd.curr <==>
                && s.snd.loss == {} && s.snd.curr + 1 < c.isn + |s.accepted|
                && s.snd.curr + 1 - s.snd.lastAck < cwnd && s.snd.curr + 1 - s.snd.lastAck < s.snd.flow)
            && (t.curr != s.snd.curr ==>
                && 0 <= t.curr - c.isn < |s.accepted| && sent == Packet(t.curr, s.accepted[t.curr - c.isn]))
  {
    hide Flatten, StreamInv, ReceiverInv, StoreInv, NetInv, AckInv, CrossInv, PackData, FirstMissing;
    if s.snd.loss == {} {
      SendsNewIff(s.snd, cwnd);
      NextBlock(c, s);
    } else {
      ResendsFirst(c, s, cwnd);
    }
  }

  lemma NextBlock(c: Config, s: System)
    requires Inv(c, s)
    ensures 0 <= s.snd.next
    ensures s.snd.next < |s.snd.blocks| <==> s.snd.curr + 1 < c.isn + |s.accepted|
    ensures s.snd.next < |s.snd.blocks| ==>
              0 <= s.snd.curr + 1 - c.isn < |s.accepted|
              && s.snd.blocks[s.snd.next] == s.accepted[s.snd.curr + 1 - c.isn]
  {
    hide Flatten, StreamInv, ReceiverInv, StoreInv, NetInv, AckInv, CrossInv;
  }

  /**
    In every run: a packet never sent before goes out exactly if nothing waits
    to be resent, something was handed over that was not sent, and both windows
    are wider than what is unacknowledged.  So no new packet takes what is
    unacknowledged beyond the congestion window or the flow window.
   */
  lemma NewPacketIff(c: Config, states: seq<System>, steps: seq<Step>, n: nat, cwnd: int)
    requires c.Valid() && IsRun(c, states, steps) && n < |steps| && steps[n] == StepPack(cwnd)
    ensures var s, t := states[n], states[n + 1];
            && (t.snd.curr == s.snd.curr || t.snd.curr == s.snd.curr + 1)
            && (t.snd.curr != s.snd.curr <==>
                && s.snd.loss == {} && s.snd.curr + 1 < c.isn + |s.accepted|
                && s.snd.curr + 1 - s.snd.lastAck < cwnd && s.snd.curr + 1 - s.snd.lastAck < s.snd.flow)
            && (t.snd.curr != s.snd.curr ==>
                && t.snd.curr + 1 - t.snd.lastAck <= cwnd && t.snd.curr + 1 - t.snd.lastAck <= t.snd.flow
                && 0 <= t.snd.curr - c.isn < |s.accepted|
                && Data(t.snd.curr, s.accepted[t.snd.curr - c.isn]) in t.net)
  {
    hide Inv, PackData;
    RunInv(c, states, steps, n);
    assert StepFrom(c, states[n], steps[n], states[n + 1]);
    PackIff(c, states[n], cwnd);
  }

  /** After a silence everything unacknowledged is to be resent, unless something is already. */
  lemma ExpireRecords(c: Config, s: System, x: int)
    requires c.Valid() && Inv(c, s)
    ensures var t := OnExpire(s.snd);
            && t == s.snd.(loss := t.loss)
            && (x in t.loss <==> x in s.snd.loss || (s.snd.loss == {} && s.snd.lastAck <= x <= s.snd.curr))
  {
    hide Flatten, StreamInv, ReceiverInv, FirstMissing, AckInv, StoreInv, NetInv, CrossInv;
    RangeIs(s.snd.lastAck, s.snd.curr);
  }

  /** A full acknowledgement forgets the losses before it and no other. */
  lemma FullAckForgets(c: Config, s: System, ack: int, window: int, x: int)
    requires c.Valid() && Inv(c, s) && ack <= s.snd.curr + 1
    ensures var t := OnFullAck(s.snd, ack, window);
            x in t.loss <==> x in s.snd.loss && x >= ack
  {
    hide Flatten, StreamInv, ReceiverInv, FirstMissing, AckInv, StoreInv, NetInv, CrossInv;
  }

  // ---------------------------------------------------------------- arrivals

  /**
    A packet is taken if and only if it is not acknowledged, not held, and the
    buffer has a slot for it with one left over.
   */
  lemma TakenIff(c: Config, r: Receiver, no: int, payload: Payload)
    requires c.Valid() && ReceiverInv(c, r)
    ensures var (t, reply) := OnData(r, no, payload, c.size);
            && (t != r <==> r.lastAck <= no < r.start + c.size - 1 && no !in r.store)
            && (t != r ==> t.store == r.store[no := payload] && t.curr == (if no > r.curr then no else r.curr))
            && t == r.(store := t.store, curr := t.curr, loss := t.loss)
  {
  }

  /**
    A report is sent if and only if the packet taken leaves a gap.  It names
    exactly the numbers of the gap, which are those that become lost; a packet
    that fills a gap is lost no more.
   */
  lemma GapReported(c: Config, r: Receiver, no: int, payload: Payload, x: int)
    requires c.Valid() && ReceiverInv(c, r)
    ensures var (t, reply) := OnData(r, no, payload, c.size);
            && (reply.Report? <==> t != r && no > r.curr + 1)
            && (reply.Report? ==> (reply.a <= x <= reply.b <==> r.curr < x < no))
            && (x in t.loss <==> (x in r.loss && (x != no || t == r)) || (t != r && r.curr < x < no))
  {
    RangeIs(r.curr + 1, no - 1);
  }

  // ---------------------------------------------------------------- acknowledgements

  /**
    In every run: a lite acknowledgement is sent exactly if the lag is
    positive; it carries the first number missing.
   */
  lemma LiteIff(c: Config, states: seq<System>, steps: seq<Step>, n: nat)
    requires c.Valid() && c.wmax < SEQ_NO_TH && IsRun(c, states, steps) && n < |states|
    ensures var r := states[n].rcv;
            && (Transport.SendLiteAck(r) != NoAck <==> Lag(r) > 0)
            && (Lag(r) > 0 ==> Transport.SendLiteAck(r) == Lite(FirstMissing(r)))
  {
    hide Inv, LagInv, IsRun, FirstMissing, Wrap;
    RunLag(c, states, steps, n);
    LagBelowTurn(c, states[n]);
  }

  /**
    In every run: with a positive lag the periodic acknowledgement lets
    everything that arrived without a gap be read.  What it announces is the
    first number missing, and the window it grants is what the buffer still
    has room for, but at least two.
   */
  lemma FullGrants(c: Config, states: seq<System>, steps: seq<Step>, n: nat, now: int)
    requires c.Valid() && c.wmax < SEQ_NO_TH && IsRun(c, states, steps) && n < |states|
    ensures var r := states[n].rcv; var (t, sent) := Transport.SendFullAck(r, c.size, c.cap, false, now);
            && t.lastAck == FirstMissing(r)
            && (sent.Full? ==>
                && sent.ack == FirstMissing(r) && sent.id == r.ackId + 1 == t.ackId
                && sent.window >= 2 && sent.window >= r.start + c.size - 1 - sent.ack
                && (sent.window == 2 || sent.window == r.start + c.size - 1 - sent.ack))
  {
    hide LagInv, IsRun, FirstMissing, Wrap, Ahead, SenderInv, StoreInv, NetInv, StreamInv, CrossInv, AckInv, Stored;
    RunLag(c, states, steps, n);
    LagBelowTurn(c, states[n]);
    FirstMissingIs(c, states[n].rcv);
  }

  /** A lite acknowledgement moves the acknowledged number up, never back; the right edge of the window stays. */
  lemma LiteAckMoves(s: Sender, ack: int)
    ensures var t := OnLiteAck(s, ack);
            && t.lastAck == (if ack > s.lastAck then ack else s.lastAck)
            && t.lastAck + t.flow == s.lastAck + s.flow
            && t == s.(lastAck := t.lastAck, flow := t.flow)
  {
  }

  /**
    In every run: a confirmation that arrives later than its acknowledgement
    was sent makes that the last one confirmed, if it is recorded and inside
    the half window; one that is not recorded changes nothing.
   */
  lemma ConfirmationMoves(c: Config, states: seq<System>, steps: seq<Step>, n: nat, id: int, now: int)
    requires c.Valid() && c.wmax < SEQ_NO_TH && IsRun(c, states, steps) && n < |steps| && steps[n] == StepAck2(id, now)
    ensures var r, u := states[n].rcv, states[n + 1].rcv; var acks := states[n].acks;
            && 1 <= id <= |acks|
            && ((forall e :: e in r.window ==> e.id != id) ==> u == r)
            && ((exists e :: e in r.window && e.id == id) ==>
                  exists e :: e in r.window && e.id == id && e.ack == acks[id - 1]
                              && (now <= e.time ==> u.lastAckAck == r.lastAckAck)
                              && (now > e.time && e.ack - r.lastAckAck < SEQ_NO_TH ==> u.lastAckAck == acks[id - 1]))
            && u == r.(window := u.window, lastAckAck := u.lastAckAck)
  {
    hide Flatten, StreamInv, StoreInv, SenderInv, ReceiverInv, CrossInv, FirstMissing, Ahead, Wrap;
    RunLag(c, states, steps, n);
    assert StepFrom(c, states[n], steps[n], states[n + 1]);
    assert MessageOk(c, states[n], Ack2(id));
    var r := states[n].rcv;
    var i := Position(r.window, id);
    if i < |r.window| {
      var e := r.window[i];
      assert EntryOk(states[n].acks, e);
      AheadNear(e.ack, r.lastAckAck);
    }
  }

  lemma AheadNear(x: int, y: int)
    requires 0 <= x - y
    ensures x - y < SEQ_NO_TH ==> (Ahead(x, y) <==> x > y)
  {
    if x - y < SEQ_NO_TH { CmpSign(x, y); }
  }

  // ---------------------------------------------------------------- reading

  /** The bytes that packets `start` up to `ack` hold, less those of the first that are read. */
  ghost function Unread(store: map<int, Payload>, start: int, ack: int, notch: int): int
    requires RB.Readable(store, start, ack, notch)
    decreases ack - start
  {
    if start >= ack then 0 else |store[start]| - notch + Unread(store, start + 1, ack, 0)
  }

  lemma {:induction false} UnreadRest(store: map<int, Payload>, x: int, start: int, ack: int)
    requires x < start && RB.Readable(store, start, ack, 0) && RB.Readable(store - {x}, start, ack, 0)
    ensures Unread(store - {x}, start, ack, 0) == Unread(store, start, ack, 0)
    decreases ack - start
  {
    if start < ack { UnreadRest(store, x, start + 1, ack); }
  }

  lemma {:induction false} UnreadPositive(store: map<int, Payload>, start: int, ack: int, notch: int)
    requires RB.Readable(store, start, ack, notch)
    ensures Unread(store, start, ack, notch) >= 0
    decreases ack - start
  {
    if start < ack { UnreadPositive(store, start + 1, ack, 0); }
  }

  /** A read gives as many bytes as are wanted and there. */
  lemma {:induction false} TakeAmount(store: map<int, Payload>, start: int, ack: int, notch: int, len: int)
    requires RB.Readable(store, start, ack, notch)
    ensures var there := Unread(store, start, ack, notch);
            |RB.Take(store, start, ack, notch, len).data| == if len <= 0 then 0 else if len < there then len else there
    decreases ack - start
  {
    UnreadPositive(store, start, ack, notch);
    if start < ack && len > 0 {
      var unit := store[start][notch..];
      UnreadPositive(store, start + 1, ack, 0);
      if len >= |unit| {
        TakeAmount(store - {start}, start + 1, ack, 0, len - |unit|);
        UnreadRest(store, start, start + 1, ack);
      }
    }
  }

  lemma {:induction false} UnreadIs(c: Config, store: map<int, Payload>, accepted: seq<Payload>, start: int, ack: int,
                                    notch: int)
    requires RB.Readable(store, start, ack, notch) && StoreInv(c, store, accepted)
    requires 0 <= start - c.isn <= ack - c.isn <= |accepted| && (start == ack ==> notch == 0)
    ensures Unread(store, start, ack, notch) == |Flatten(accepted[start - c.isn..ack - c.isn])| - notch
    decreases ack - start
  {
    if start < ack {
      var ps := accepted[start - c.isn..ack - c.isn];
      assert start in store;
      assert ps[0] == store[start] && ps[1..] == accepted[start + 1 - c.isn..ack - c.isn];
      UnreadIs(c, store, accepted, start + 1, ack, 0);
    }
  }

  /** The packets up to the acknowledged position are among those handed over. */
  lemma AcknowledgedAccepted(c: Config, s: System)
    requires Inv(c, s)
    ensures 0 <= s.rcv.start - c.isn <= s.rcv.lastAck - c.isn <= |s.accepted|
    ensures s.rcv.start == s.rcv.lastAck ==> s.rcv.notch == 0
  {
  }

  lemma DeliveredSize(c: Config, s: System)
    requires Inv(c, s)
    ensures 0 <= s.rcv.start - c.isn <= |s.accepted|
    ensures |s.delivered| == |Flatten(s.accepted[..s.rcv.start - c.isn])| + s.rcv.notch
  {
    hide SenderInv, ReceiverInv, CrossInv, StoreInv, AckInv, NetInv;
    var i := s.rcv.start - c.isn;
    FlattenConcat(s.accepted[..i], s.accepted[i..]);
    assert s.accepted == s.accepted[..i] + s.accepted[i..];
  }

  /**
    In every run: a read of `len` bytes goes on by `len` bytes, or up to the
    end of what is acknowledged.
   */
  lemma ReadAmount(c: Config, states: seq<System>, steps: seq<Step>, n: nat, len: int)
    requires c.Valid() && IsRun(c, states, steps) && n < |steps| && steps[n] == StepRead(len)
    ensures var s, t := states[n], states[n + 1];
            && 0 <= s.rcv.lastAck - c.isn <= |s.accepted|
            && var there := |Flatten(s.accepted[..s.rcv.lastAck - c.isn])|;
            && |s.delivered| <= there
            && |t.delivered| == if len <= 0 then |s.delivered|
                                else if |s.delivered| + len < there then |s.delivered| + len else there
  {
    hide Inv, Flatten, Later, RB.Take;
    RunInv(c, states, steps, n);
    assert StepFrom(c, states[n], steps[n], states[n + 1]);
    var s := states[n];
    var r := s.rcv;
    AcknowledgedAccepted(c, s);
    DeliveredSize(c, s);
    InvStore(c, s);
    UnreadIs(c, r.store, s.accepted, r.start, r.lastAck, r.notch);
    UnreadPositive(r.store, r.start, r.lastAck, r.notch);
    TakeAmount(r.store, r.start, r.lastAck, r.notch, len);
    var i, j := r.start - c.isn, r.lastAck - c.isn;
    FlattenConcat(s.accepted[..i], s.accepted[i..j]);
    assert s.accepted[..j] == s.accepted[..i] + s.accepted[i..j];
  }

  lemma InvStore(c: Config, s: System)
    requires Inv(c, s)
    ensures StoreInv(c, s.rcv.store, s.accepted)
  {
  }
}
