/**
  The transport can get stuck: when confirmations of acknowledgements are lost
  for long enough, the receiver takes its own acknowledgements for old ones and
  sends no more.  Exactly when this happens, and a run in which it does.
 */
module TransportSilence {
  import opened AckWindow
  import opened LossIntervals
  import opened SeqNo
  import opened Sets
  import opened Streams
  import opened Transport
  import opened TransportLag
  import opened TransportProgress
  import opened TransportSafety
  import RB = RcvBuffer

  // ---------------------------------------------------------------- once silent, silent for ever

  /** None of the numbers that can become the first missing one is ahead of the last confirmed one. */
  ghost predicate Silent(s: System, n: int) {
    && s.net == {}
    && forall x :: FirstMissing(s.rcv) <= x <= Limit(s, n) && x !in s.rcv.store ==> !Ahead(x, s.rcv.lastAckAck)
  }

  /** What the silence of `s` keeps, while no more than `n` packets are handed over. */
  ghost predicate Frozen(c: Config, s: System, n: int, t: System) {
    && (forall m :: m in t.net ==> !m.FullAck? && !m.Ack2?)
    && t.rcv.lastAckAck == s.rcv.lastAckAck && t.snd.dataAck == s.snd.dataAck
    && t.snd.curr + 1 <= Limit(s, n)
    && t.snd.lastAck + t.snd.flow == s.snd.lastAck + s.snd.flow
    && (forall x :: x in s.rcv.store ==> x in t.rcv.store || x < t.rcv.start)
    && FirstMissing(s.rcv) <= FirstMissing(t.rcv)
  }

  lemma FrozenFirst(c: Config, s: System, n: int)
    requires Silent(s, n)
    ensures Frozen(c, s, n, s)
  {
    hide FirstMissing;
  }

  /** The first missing number is one that the silence speaks about. */
  lemma StillSilent(c: Config, s: System, n: int, t: System)
    requires c.Valid() && Silent(s, n) && Inv(c, t) && Frozen(c, s, n, t)
    ensures !Ahead(FirstMissing(t.rcv), t.rcv.lastAckAck)
  {
    hide Flatten, StreamInv, StoreInv, NetInv, SenderInv, FirstMissing, Ahead, Limit;
    MissingBelowCurr(c, t);
    FirstMissingIs(c, t.rcv);
  }

  lemma FrozenStep(c: Config, s: System, n: int, t: System, p: Step)
    requires c.Valid() && Silent(s, n) && Inv(c, t) && Frozen(c, s, n, t) && Enabled(t, p)
    requires End(c, t) <= n && End(c, Apply(c, t, p)) <= n
    ensures Frozen(c, s, n, Apply(c, t, p))
  {
    hide Inv, Frozen, Silent, Apply, Later;
    StepKeeps(c, t, p);
    match p
    case StepPack(cwnd) => FrozenPack(c, s, n, t, cwnd);
    case StepFull(early, now) => StillSilent(c, s, n, t); FrozenFull(c, s, n, t, early, now);
    case StepData(no, payload) => FrozenData(c, s, n, t, no, payload);
    case StepRead(len) => FrozenRead(c, s, n, t, len);
    case StepNak(ranges) => FrozenNak(c, s, n, t, ranges);
    case _ => FrozenOther(c, s, n, t, p);
  }

  lemma FrozenPack(c: Config, s: System, n: int, t: System, cwnd: int)
    requires c.Valid() && Inv(c, t) && Frozen(c, s, n, t) && End(c, t) <= n
    ensures Frozen(c, s, n, Apply(c, t, StepPack(cwnd)))
  {
    hide Flatten, StreamInv, StoreInv, NetInv, ReceiverInv, FirstMissing, AckInv, Least;
  }

  lemma FrozenFull(c: Config, s: System, n: int, t: System, early: bool, now: int)
    requires c.Valid() && Frozen(c, s, n, t) && !Ahead(FirstMissing(t.rcv), t.rcv.lastAckAck)
    ensures Frozen(c, s, n, Apply(c, t, StepFull(early, now)))
  {
    hide FirstMissing, Ahead, Wrap;
    var u := Apply(c, t, StepFull(early, now));
    SameMissing(t.rcv, u.rcv);
  }

  lemma FrozenData(c: Config, s: System, n: int, t: System, no: int, payload: Payload)
    requires c.Valid() && Inv(c, t) && Frozen(c, s, n, t) && Data(no, payload) in t.net
    requires Later(t, Apply(c, t, StepData(no, payload)))
    ensures Frozen(c, s, n, Apply(c, t, StepData(no, payload)))
  {
    hide Flatten, StreamInv, StoreInv, NetInv, SenderInv, AckInv, FirstMissing, OnData;
    DataReceiver(c, t.rcv, no, payload);
  }

  lemma FrozenRead(c: Config, s: System, n: int, t: System, len: int)
    requires c.Valid() && Inv(c, t) && Frozen(c, s, n, t) && Readable(t.rcv)
    ensures Frozen(c, s, n, Apply(c, t, StepRead(len)))
  {
    hide Flatten, StreamInv, StoreInv, NetInv, SenderInv, AckInv, FirstMissing, Read;
    ReadFrameOf(c, t, len);
    var u := Apply(c, t, StepRead(len));
    SameMissing(t.rcv, u.rcv);
    ReadStore(c, t, len);
    ReadForward(t.rcv, len);
  }

  /** A read takes out of the buffer only what it reads. */
  lemma ReadStore(c: Config, t: System, len: int)
    requires c.Valid() && Inv(c, t) && Readable(t.rcv)
    ensures var u := Read(t.rcv, len).0;
            forall x :: x in t.rcv.store ==> x in u.store || x < u.start
  {
    hide Flatten, StreamInv, NetInv, SenderInv, AckInv, FirstMissing, Read;
    ReadReceiver(c, t.rcv, t.accepted, t.delivered, len);
  }

  lemma FrozenNak(c: Config, s: System, n: int, t: System, ranges: seq<(int, int)>)
    requires c.Valid() && Inv(c, t) && Frozen(c, s, n, t) && Nak(ranges) in t.net
    ensures Frozen(c, s, n, Apply(c, t, StepNak(ranges)))
  {
    hide Flatten, StreamInv, StoreInv, ReceiverInv, AckInv, FirstMissing, OnNak;
    assert MessageOk(c, t, Nak(ranges));
    NakSender(c, t, ranges);
  }

  lemma FrozenOther(c: Config, s: System, n: int, t: System, p: Step)
    requires c.Valid() && Frozen(c, s, n, t) && Enabled(t, p)
    requires p.StepAccept? || p.StepLite? || p.StepLiteAck? || p.StepFullAck? || p.StepAck2? || p.StepExpire?
    ensures Frozen(c, s, n, Apply(c, t, p))
  {
    hide Flatten, FirstMissing, Chunks, Limit, Range;
  }

  lemma {:induction false} Grows(c: Config, age: int, s: System, steps: seq<Step>, t: System)
    requires c.Valid() && Inv(c, s) && Reach(c, age, s, steps, t)
    ensures End(c, s) <= End(c, t)
    decreases |steps|
  {
    hide Apply, Enabled, Timely, Inv;
    if steps != [] {
      StepKeeps(c, s, steps[0]);
      Grows(c, age, Apply(c, s, steps[0]), steps[1..], t);
    }
  }

  lemma {:induction false} FrozenOn(c: Config, age: int, s: System, n: int, t: System, steps: seq<Step>, u: System)
    requires c.Valid() && Silent(s, n) && Inv(c, t) && Frozen(c, s, n, t)
    requires Reach(c, age, t, steps, u) && End(c, u) <= n
    ensures Inv(c, u) && Frozen(c, s, n, u)
    decreases |steps|
  {
    hide Apply, Enabled, Timely, Inv, Silent, Frozen;
    if steps != [] {
      var v := Apply(c, t, steps[0]);
      StepKeeps(c, t, steps[0]);
      Grows(c, age, t, steps, u);
      Grows(c, age, v, steps[1..], u);
      FrozenStep(c, s, n, t, steps[0]);
      FrozenOn(c, age, s, n, v, steps[1..], u);
    }
  }

  lemma NothingReleased(c: Config, s: System, n: int, t: System)
    requires Inv(c, s) && Inv(c, t) && Frozen(c, s, n, t) && End(c, s) <= End(c, t) && s.snd.blocks != []
    ensures t.snd.blocks != []
  {
    hide Flatten, StreamInv, StoreInv, NetInv, ReceiverInv, AckInv, FirstMissing;
  }

  /**
    From silence there is no way out: whatever happens, and however late
    messages may be, the sender never releases what it still holds.
   */
  lemma SilentForEver(c: Config, age: int, s: System, n: int, steps: seq<Step>, t: System)
    requires c.Valid() && Inv(c, s) && Silent(s, n) && s.snd.blocks != []
    requires Reach(c, age, s, steps, t) && End(c, t) <= n
    ensures t.snd.blocks != []
  {
    hide Reach, Inv, Silent, Frozen;
    Grows(c, age, s, steps, t);
    FrozenFirst(c, s, n);
    FrozenOn(c, age, s, n, s, steps, t);
    NothingReleased(c, s, n, t);
  }

  // ---------------------------------------------------------------- the exact condition

  /** Without more data, some steps deliver and release everything. */
  ghost predicate CanFinish(c: Config, age: int, s: System)
    requires c.Valid()
  {
    exists steps, t :: Reach(c, age, s, steps, t) && t.accepted == s.accepted && Finished(t)
  }

  lemma FinishIff(c: Config, age: int, s: System)
    requires c.Valid() && age > 0 && c.cap > 0 && c.size >= 2 && c.wmax < SEQ_NO_TH
    requires Inv(c, s) && LagInv(s) && s.net == {}
    ensures CanFinish(c, age, s) <==> Alive(c, s)
  {
    hide Inv, LagInv, Reach, Flatten, FirstMissing, Ahead, Limit;
    if Alive(c, s) {
      var steps, t := Finish(c, age, s);
    } else {
      forall steps, t | Reach(c, age, s, steps, t) && t.accepted == s.accepted ensures !Finished(t) {
        SilentForEver(c, age, s, End(c, s), steps, t);
      }
    }
  }

  /**
    At every moment of every run, were the network to lose all it holds, the
    two ends can finish exactly if they are alive; and they are alive exactly
    unless the lag is beyond the half window and no number that can still
    become the first missing one is taken to be ahead.
   */
  lemma CanFinishIff(c: Config, age: int, states: seq<System>, run: seq<Step>, n: nat)
    requires c.Valid() && age > 0 && c.cap > 0 && c.size >= 2 && c.wmax < SEQ_NO_TH
    requires IsRun(c, states, run) && n < |states|
    ensures var s := states[n].(net := {});
            && (CanFinish(c, age, s) <==> Alive(c, s))
            && (Lag(s.rcv) < SEQ_NO_TH ==> Alive(c, s))
            && (Lag(s.rcv) > REACH ==> (Alive(c, s) <==> s.snd.blocks == []))
  {
    hide Inv, LagInv, IsRun, Alive, CanFinish, FirstMissing;
    RunLag(c, states, run, n);
    var s := states[n].(net := {});
    LoseAll(c, states[n]);
    FinishIff(c, age, s);
    if Lag(s.rcv) < SEQ_NO_TH { ShortLagAlive(c, s); }
    if Lag(s.rcv) > REACH { LongLagSilent(c, s); }
  }

  lemma LimitBelowTurn(c: Config, s: System)
    requires c.Valid() && Inv(c, s)
    ensures Limit(s, End(c, s)) <= s.snd.dataAck + c.wmax
  {
    hide Flatten, StreamInv, StoreInv, NetInv, ReceiverInv, AckInv, FirstMissing;
  }

  lemma LongLagSilent(c: Config, s: System)
    requires c.Valid() && c.wmax < SEQ_NO_TH && Inv(c, s) && LagInv(s) && Lag(s.rcv) > REACH
    ensures Alive(c, s) <==> s.snd.blocks == []
  {
    hide Inv, FirstMissing, Ahead, Limit, WindowInv;
    LimitBelowTurn(c, s);
    forall x | FirstMissing(s.rcv) <= x <= Limit(s, End(c, s)) ensures !Ahead(x, s.rcv.lastAckAck) {
      AheadIff(x, s.rcv.lastAckAck);
    }
  }

  // ---------------------------------------------------------------- a run that gets stuck

  /** After `d` packets of one byte each: all is read and released, and no confirmation ever arrived. */
  ghost predicate Settled(c: Config, s: System, d: int) {
    var f := c.isn + d;
    && s.snd == Sender(f, f, f - 1, {}, [], 0, s.snd.flow, false) && s.snd.flow >= 2
    && s.rcv == Receiver(f, c.isn, f - 1, {}, s.rcv.ackId, s.rcv.window, map[], f, 0)
  }

  /** One more packet of one byte is on its way. */
  ghost predicate Arrived(c: Config, s: System, d: int) {
    var f := c.isn + d;
    && s.snd == Sender(f, f, f, {}, [[0]], 1, s.snd.flow, false) && s.snd.flow >= 2
    && s.rcv == Receiver(f, c.isn, f, {}, s.rcv.ackId, s.rcv.window, map[f := [0]], f, 0)
  }

  ghost predicate RunTo(c: Config, states: seq<System>, steps: seq<Step>, s: System)
    requires c.Valid()
  {
    |states| == |steps| + 1 && IsRun(c, states, steps) && states[|steps|] == s
  }

  /** A run, one step longer. */
  lemma Longer(c: Config, states: seq<System>, steps: seq<Step>, s: System, p: Step)
    returns (states': seq<System>, steps': seq<Step>, t: System)
    requires c.Valid() && RunTo(c, states, steps, s) && Enabled(s, p)
    ensures t == Apply(c, s, p) && RunTo(c, states', steps', t)
  {
    hide Apply, Enabled;
    t := Apply(c, s, p);
    states', steps' := states + [t], steps + [p];
    forall i | 0 <= i < |steps'| ensures StepFrom(c, states'[i], steps'[i], states'[i + 1]) {
      if i < |steps| { assert StepFrom(c, states[i], steps[i], states[i + 1]); }
    }
  }

  lemma OneChunk(mss: int)
    requires mss > 0
    ensures Chunks([0], mss) == [[0]]
  {
  }

  lemma OneAccepted(c: Config, s: System, d: int)
    requires c.Valid() && Settled(c, s, d)
    ensures var f := c.isn + d;
            && Apply(c, s, StepAccept([0])).snd == Sender(f, f, f - 1, {}, [[0]], 0, s.snd.flow, false)
            && Apply(c, s, StepAccept([0])).rcv == s.rcv
  {
    OneChunk(c.mss);
    assert [] + [[0]] == [[0]];
  }

  /** Three steps bring one more byte to the receiver. */
  lemma OneArrives(c: Config, states: seq<System>, steps: seq<Step>, s: System, d: int)
    returns (states': seq<System>, steps': seq<Step>, t: System)
    requires c.Valid() && c.size >= 2 && RunTo(c, states, steps, s) && Settled(c, s, d)
    ensures RunTo(c, states', steps', t) && Arrived(c, t, d)
  {
    hide IsRun, Chunks;
    var f := c.isn + d;
    OneAccepted(c, s, d);
    states', steps', t := Longer(c, states, steps, s, StepAccept([0]));
    states', steps', t := Longer(c, states', steps', t, StepPack(2));
    assert Data(f, [0]) in t.net;
    states', steps', t := Longer(c, states', steps', t, StepData(f, [0]));
    assert t.rcv.store == map[f := [0]];
  }

  /** Three more let it be acknowledged, released and read; the confirmation is lost. */
  lemma OneReleased(c: Config, states: seq<System>, steps: seq<Step>, s: System, d: int)
    returns (states': seq<System>, steps': seq<Step>, t: System)
    requires c.Valid() && c.size >= 2 && RunTo(c, states, steps, s) && Arrived(c, s, d) && 0 <= d < SEQ_NO_TH - 1
    ensures RunTo(c, states', steps', t) && Settled(c, t, d + 1)
  {
    hide IsRun, Ahead, Stored, Wrap;
    var f := c.isn + d;
    SoonAhead(f + 1, c.isn);
    NotEqual(f + 1, c.isn);
    states', steps', t := Longer(c, states, steps, s, StepFull(false, 0));
    var id, w := t.rcv.ackId, if Avail(t.rcv, c.size) < 2 then 2 else Avail(t.rcv, c.size);
    assert FullAck(id, f + 1, w) in t.net;
    OneTaken(s.snd, f, w);
    states', steps', t := Longer(c, states', steps', t, StepFullAck(id, f + 1, w, true));
    OneRead(t.rcv, f);
    states', steps', t := Longer(c, states', steps', t, StepRead(1));
  }

  lemma OneTaken(q: Sender, f: int, w: int)
    requires q == Sender(f, f, f, {}, [[0]], 1, q.flow, false)
    ensures OnFullAck(q, f + 1, w) == Sender(f + 1, f + 1, f, {}, [], 0, w, false)
  {
    assert Above({}, f) == {};
    assert q.blocks[1..] == [];
  }

  lemma OneRead(r: Receiver, f: int)
    requires r == Receiver(f + 1, r.lastAckAck, f, {}, r.ackId, r.window, map[f := [0]], f, 0)
    ensures Readable(r) && Read(r, 1).0 == r.(store := map[], start := f + 1, notch := 0)
  {
    assert r.store[f][0..] == [0];
    assert r.store - {f} == map[];
    assert RB.Take(map[], f + 1, f + 1, 0, 0).store == map[];
  }

  /** While confirmations are lost, a run reaches every lag inside the half window. */
  lemma {:induction false} EveryLag(c: Config, flow: int, d: int)
    returns (states: seq<System>, steps: seq<Step>, s: System)
    requires c.Valid() && c.size >= 2 && 2 <= flow <= c.wmax && 0 <= d < SEQ_NO_TH
    ensures RunTo(c, states, steps, s) && Settled(c, s, d)
    decreases d
  {
    hide IsRun, Settled, Arrived;
    if d == 0 {
      s := Init(c, flow);
      states, steps := [s], [];
      assert IsRun(c, states, steps) by { RunOfNone(c, flow); }
      assert Settled(c, s, 0) by { InitSettled(c, flow); }
    } else {
      states, steps, s := EveryLag(c, flow, d - 1);
      states, steps, s := OneArrives(c, states, steps, s, d - 1);
      states, steps, s := OneReleased(c, states, steps, s, d - 1);
    }
  }

  lemma RunOfNone(c: Config, flow: int)
    requires c.Valid() && 2 <= flow <= c.wmax
    ensures IsRun(c, [Init(c, flow)], [])
  {
  }

  lemma InitSettled(c: Config, flow: int)
    requires flow >= 2
    ensures Settled(c, Init(c, flow), 0)
  {
  }

  /**
    The failing run: packet after packet is delivered, acknowledged, released
    and read, and every confirmation is lost.  Packet 2^30 - 1 arrives and is
    never acknowledged: whatever is handed over and whatever happens from then
    on, the sender keeps it.
   */
  lemma Deadlock(c: Config, flow: int) returns (states: seq<System>, steps: seq<Step>, s: System)
    requires c.Valid() && c.size >= 2 && 2 <= flow <= c.wmax < SEQ_NO_TH && c.isn + SEQ_NO_TH + c.wmax <= MAX_SEQ_NO
    ensures RunTo(c, states, steps, s) && s.snd.blocks != [] && Lag(s.rcv) == SEQ_NO_TH
    ensures forall age, more, t :: Reach(c, age, s.(net := {}), more, t) ==> t.snd.blocks != []
  {
    hide IsRun, Inv, Reach, Silent;
    states, steps, s := EveryLag(c, flow, SEQ_NO_TH - 1);
    states, steps, s := OneArrives(c, states, steps, s, SEQ_NO_TH - 1);
    RunLag(c, states, steps, |steps|);
    LoseAll(c, s);
    forall age, more, t | Reach(c, age, s.(net := {}), more, t) ensures t.snd.blocks != [] {
      BeyondReach(c, s.(net := {}), End(c, t));
      SilentForEver(c, age, s.(net := {}), End(c, t), more, t);
    }
  }

  lemma BeyondReach(c: Config, s: System, n: int)
    requires c.Valid() && Inv(c, s) && Arrived(c, s, SEQ_NO_TH - 1) && s.net == {}
    requires c.wmax < SEQ_NO_TH && c.isn + SEQ_NO_TH + c.wmax <= MAX_SEQ_NO
    ensures Silent(s, n)
  {
    hide Flatten, StreamInv, StoreInv, NetInv, ReceiverInv, AckInv, Ahead;
    forall x | FirstMissing(s.rcv) <= x <= Limit(s, n) ensures !Ahead(x, c.isn) {
      AheadIff(x, c.isn);
    }
  }
}
