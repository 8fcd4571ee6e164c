/**
  How far the last confirmed acknowledgement lags behind, and when the receiver
  therefore falls silent.  Nothing bounds the lag but the silence itself: while
  confirmations are lost, it grows with every packet.
 */
module TransportLag {
  import opened AckWindow
  import opened LossIntervals
  import opened SeqNo
  import opened Streams
  import opened Transport
  import opened TransportSafety

  /** The largest distance at which a number can still be taken to be later. */
  const REACH: int := SEQ_NO_TH + 2

  /** What is recorded of the acknowledgements sent ascends, from the last one confirmed on. */
  ghost predicate WindowInv(r: Receiver) {
    && (forall k :: 0 <= k < |r.window| ==> r.lastAckAck <= r.window[k].ack <= r.lastAck)
    && (forall j, k :: 0 <= j < k < |r.window| ==> r.window[j].ack <= r.window[k].ack)
  }

  /** No acknowledgement was sent, and none taken, that was not ahead of the last one confirmed. */
  ghost predicate LagInv(s: System) {
    && WindowInv(s.rcv)
    && s.rcv.lastAckAck <= s.rcv.lastAck
    && s.snd.dataAck - s.rcv.lastAckAck <= REACH
    && (forall i :: 0 <= i < |s.acks| ==> s.acks[i] - s.rcv.lastAckAck <= REACH)
  }

  /** How far the first missing number is ahead of the last acknowledgement confirmed. */
  ghost function Lag(r: Receiver): int {
    FirstMissing(r) - r.lastAckAck
  }

  /** With windows inside the half circle the lag never reaches a full turn. */
  lemma LagBelowTurn(c: Config, s: System)
    requires c.Valid() && c.wmax < SEQ_NO_TH && Inv(c, s) && LagInv(s)
    ensures 0 <= Lag(s.rcv) < MODULUS && s.rcv.lastAckAck <= s.rcv.lastAck <= FirstMissing(s.rcv)
    ensures s.rcv.lastAckAck <= s.snd.dataAck <= s.rcv.lastAck
    ensures Wrap(FirstMissing(s.rcv)) == Wrap(s.rcv.lastAckAck) <==> Lag(s.rcv) == 0
  {
    hide Flatten, StreamInv, StoreInv, NetInv, AckInv, FirstMissing, Wrap;
    MissingBelowCurr(c, s);
    WrapInjective(FirstMissing(s.rcv), s.rcv.lastAckAck);
  }

  lemma StoredAscends(r: Receiver, cap: int, e: Entry)
    requires cap >= 0 && WindowInv(r) && r.lastAckAck <= e.ack && r.lastAck <= e.ack
    ensures WindowInv(r.(lastAck := e.ack, window := Stored(r.window, cap, e)))
  {
  }

  lemma FullLag(c: Config, s: System, early: bool, now: int)
    requires c.Valid() && c.wmax < SEQ_NO_TH && Inv(c, s) && LagInv(s)
    ensures LagInv(Apply(c, s, StepFull(early, now)))
  {
    hide Inv, FirstMissing, Ahead, Wrap, Stored;
    LagBelowTurn(c, s);
    var f := FirstMissing(s.rcv);
    AheadIff(f, s.rcv.lastAckAck);
    StoredAscends(s.rcv, c.cap, Entry(s.rcv.ackId + 1, f, now));
  }

  lemma Ack2Lag(s: System, id: int, now: int)
    requires LagInv(s)
    ensures LagInv(s.(rcv := OnAck2(s.rcv, id, now)))
  {
    hide Ahead;
  }

  /** Every step keeps the bound. */
  lemma StepKeepsLag(c: Config, s: System, t: Step)
    requires c.Valid() && c.wmax < SEQ_NO_TH && Inv(c, s) && LagInv(s) && Enabled(s, t)
    ensures LagInv(Apply(c, s, t))
  {
    match t
    case StepFull(early, now) => FullLag(c, s, early, now);
    case StepAck2(id, now) => Ack2Lag(s, id, now);
    case StepFullAck(id, ack, window, confirm) => AckLag(c, s, id, ack, window, confirm);
    case StepNak(ranges) => NakLag(c, s, ranges);
    case _ => OtherLag(c, s, t);
  }

  lemma AckLag(c: Config, s: System, id: int, ack: int, window: int, confirm: bool)
    requires c.Valid() && Inv(c, s) && LagInv(s) && FullAck(id, ack, window) in s.net
    ensures LagInv(Apply(c, s, StepFullAck(id, ack, window, confirm)))
  {
    hide Flatten, StreamInv, StoreInv, FirstMissing, WindowInv;
    assert MessageOk(c, s, FullAck(id, ack, window));
  }

  lemma NakLag(c: Config, s: System, ranges: seq<(int, int)>)
    requires c.Valid() && Inv(c, s) && LagInv(s) && Nak(ranges) in s.net
    ensures LagInv(Apply(c, s, StepNak(ranges)))
  {
    hide Flatten, FirstMissing, WindowInv, OnNak;
    assert MessageOk(c, s, Nak(ranges));
    NakSender(c, s, ranges);
  }

  lemma OtherLag(c: Config, s: System, t: Step)
    requires c.Valid() && LagInv(s) && Enabled(s, t)
    requires !t.StepFull? && !t.StepAck2? && !t.StepFullAck? && !t.StepNak?
    ensures LagInv(Apply(c, s, t))
  {
    hide Flatten, FirstMissing, Read, WindowInv;
    if t.StepRead? { ReadLag(s.rcv, t.len); }
    var u := Apply(c, s, t);
    assert u.rcv.window == s.rcv.window && u.rcv.lastAck == s.rcv.lastAck && u.rcv.lastAckAck == s.rcv.lastAckAck;
    SameWindow(s.rcv, u.rcv);
  }

  lemma SameWindow(r: Receiver, u: Receiver)
    requires WindowInv(r) && u.window == r.window && u.lastAck == r.lastAck && u.lastAckAck == r.lastAckAck
    ensures WindowInv(u)
  {
  }

  lemma ReadLag(r: Receiver, len: int)
    requires Readable(r)
    ensures var u := Read(r, len).0;
            u.window == r.window && u.lastAck == r.lastAck && u.lastAckAck == r.lastAckAck
  {
  }

  lemma InitLag(c: Config, flow: int)
    requires c.Valid()
    ensures LagInv(Init(c, flow))
  {
  }

  lemma {:induction false} RunLag(c: Config, states: seq<System>, steps: seq<Step>, n: nat)
    requires c.Valid() && c.wmax < SEQ_NO_TH && IsRun(c, states, steps) && n < |states|
    ensures Inv(c, states[n]) && LagInv(states[n])
    decreases n
  {
    hide Inv, LagInv, Apply, Enabled;
    RunInv(c, states, steps, n);
    if n == 0 {
      var flow: int :| 2 <= flow <= c.wmax && states[0] == Init(c, flow);
      InitLag(c, flow);
    } else {
      RunLag(c, states, steps, n - 1);
      assert StepFrom(c, states[n - 1], steps[n - 1], states[n]);
      StepKeepsLag(c, states[n - 1], steps[n - 1]);
    }
  }

  /**
    At every moment of every run: the receiver sends a full acknowledgement
    exactly if it has something new to acknowledge, or the last one was sent
    long enough ago, and the lag is positive and inside the half window, or a
    little beyond it with the number circle closed in between.
   */
  lemma AnnouncesIff(c: Config, states: seq<System>, steps: seq<Step>, n: nat, early: bool, now: int)
    requires c.Valid() && c.wmax < SEQ_NO_TH && IsRun(c, states, steps) && n < |states|
    ensures var r := states[n].rcv; var d := Lag(r);
            && 0 <= d < MODULUS
            && (SendFullAck(r, c.size, c.cap, early, now).1.Full? <==>
                (early ==> r.lastAck < FirstMissing(r))
                && (0 < d < SEQ_NO_TH || (SEQ_NO_TH <= d <= REACH && Wrap(FirstMissing(r)) < Wrap(r.lastAckAck))))
  {
    hide Inv, LagInv, IsRun, FirstMissing, Ahead, Wrap;
    RunLag(c, states, steps, n);
    var r := states[n].rcv;
    LagBelowTurn(c, states[n]);
    AheadIff(FirstMissing(r), r.lastAckAck);
  }
}
