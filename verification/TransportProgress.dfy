/**
  The transport does not get stuck as long as the receiver is heard: even if
  everything in flight is lost, the two ends can still finish, with nothing but
  messages they send from then on.  `TransportSilence` is about the other case.
 */
module TransportProgress {
  import opened AckWindow
  import opened LossIntervals
  import opened SeqNo
  import opened Sets
  import opened Streams
  import opened Transport
  import opened TransportLag
  import opened TransportSafety

  /** `t` is reached from `s` by these steps, with no message delivered `age` numbers late or later. */
  ghost predicate Reach(c: Config, age: int, s: System, steps: seq<Step>, t: System)
    requires c.Valid()
    decreases |steps|
  {
    if steps == [] then s == t
    else Possible(s, steps[0], age) && Reach(c, age, Apply(c, s, steps[0]), steps[1..], t)
  }

  ghost predicate Possible(s: System, t: Step, age: int) {
    Enabled(s, t) && Timely(s, t, age)
  }

  lemma {:induction false} ReachTrans(
      c: Config, age: int, s: System, a: seq<Step>, t: System, b: seq<Step>, u: System)
    requires c.Valid() && Reach(c, age, s, a, t) && Reach(c, age, t, b, u)
    ensures Reach(c, age, s, a + b, u)
    decreases |a|
  {
    hide Apply, Enabled, Timely;
    if a == [] {
      assert a + b == b;
    } else {
      ReachTrans(c, age, Apply(c, s, a[0]), a[1..], t, b, u);
      assert (a + b)[1..] == a[1..] + b;
    }
  }

  lemma ReachOne(c: Config, age: int, s: System, p: Step)
    requires c.Valid() && Possible(s, p, age)
    ensures Reach(c, age, s, [p], Apply(c, s, p))
  {
    hide Apply, Enabled, Timely;
    assert [p][1..] == [];
  }

  lemma ReachNone(c: Config, age: int, s: System)
    requires c.Valid()
    ensures Reach(c, age, s, [], s) && forall p: int :: Possible(s, StepPack(p), age)
    ensures Possible(s, StepFull(false, 0), age) && Possible(s, StepExpire, age)
  {
  }

  /** Taking one more step. */
  lemma Extend(c: Config, age: int, s: System, steps: seq<Step>, t: System, p: Step)
    returns (steps': seq<Step>, t': System)
    requires c.Valid() && Reach(c, age, s, steps, t) && Inv(c, t) && Possible(t, p, age)
    ensures t' == Apply(c, t, p) && Reach(c, age, s, steps', t') && Inv(c, t') && Later(t, t')
  {
    hide Apply, Enabled, Timely, Inv, Later, Reach;
    t' := Apply(c, t, p);
    StepKeeps(c, t, p);
    ReachOne(c, age, t, p);
    steps' := steps + [p];
    ReachTrans(c, age, s, steps, t, [p], t');
  }

  // ---------------------------------------------------------------- sending a given packet again

  /** One send from a non-empty loss list: the least lost number goes out. */
  lemma PackLost(c: Config, s: System)
    requires c.Valid() && Inv(c, s) && s.snd.loss != {}
    ensures var x := Least(s.snd.loss); var t := Apply(c, s, StepPack(0));
            && c.isn <= x <= s.snd.curr && x - c.isn < |s.accepted|
            && t == s.(snd := s.snd.(loss := s.snd.loss - {x}), net := s.net + {Data(x, s.accepted[x - c.isn])})
  {
    hide Flatten, StreamInv, ReceiverInv, FirstMissing, AckInv, StoreInv, NetInv, CrossInv;
    var x := Least(s.snd.loss);
    assert s.snd.blocks[x - s.snd.dataAck] == s.accepted[x - c.isn];
  }

  /** The sender sends its lost packets until number `x` has gone out. */
  lemma {:induction false} SendLost(c: Config, age: int, s: System, x: int) returns (steps: seq<Step>, t: System)
    requires c.Valid() && Inv(c, s) && x in s.snd.loss
    ensures Reach(c, age, s, steps, t) && Inv(c, t)
    ensures t == s.(snd := t.snd, net := t.net) && t.snd == s.snd.(loss := t.snd.loss)
    ensures 0 <= x - c.isn < |s.accepted| && Data(x, s.accepted[x - c.isn]) in t.net
    decreases |s.snd.loss|
  {
    hide Inv, Reach, Apply, Possible;
    PackLost(c, s);
    var y := Least(s.snd.loss);
    ReachNone(c, age, s);
    steps, t := Extend(c, age, s, [], s, StepPack(0));
    if y != x {
      var more, u := SendLost(c, age, t, x);
      ReachTrans(c, age, s, steps, t, more, u);
      steps, t := steps + more, u;
    }
  }

  /** The sender sends its lost packets until none is left. */
  lemma {:induction false} SendAllLost(c: Config, age: int, s: System) returns (steps: seq<Step>, t: System)
    requires c.Valid() && Inv(c, s)
    ensures Reach(c, age, s, steps, t) && Inv(c, t)
    ensures t == s.(snd := t.snd, net := t.net) && t.snd == s.snd.(loss := {})
    decreases |s.snd.loss|
  {
    hide Inv, Reach, Apply, Possible;
    ReachNone(c, age, s);
    steps, t := [], s;
    if s.snd.loss != {} {
      PackLost(c, s);
      steps, t := Extend(c, age, s, [], s, StepPack(0));
      var more, u := SendAllLost(c, age, t);
      ReachTrans(c, age, s, steps, t, more, u);
      steps, t := steps + more, u;
    }
  }

  /** Any unacknowledged packet can be sent again, if need be after an expiration. */
  lemma Resend(c: Config, age: int, s: System, x: int) returns (steps: seq<Step>, t: System)
    requires c.Valid() && Inv(c, s) && s.snd.lastAck <= x <= s.snd.curr
    ensures Reach(c, age, s, steps, t) && Inv(c, t)
    ensures t == s.(snd := t.snd, net := t.net) && t.snd == s.snd.(loss := t.snd.loss)
    ensures 0 <= x - c.isn < |s.accepted| && Data(x, s.accepted[x - c.isn]) in t.net
  {
    hide Inv, Reach, Apply, Possible;
    if x in s.snd.loss {
      steps, t := SendLost(c, age, s, x);
    } else {
      steps, t := SendAllLost(c, age, s);
      ExpireAll(c, t, x);
      ReachNone(c, age, t);
      var steps1, t1 := Extend(c, age, s, steps, t, StepExpire);
      var more, u := SendLost(c, age, t1, x);
      ReachTrans(c, age, s, steps1, t1, more, u);
      steps, t := steps1 + more, u;
    }
  }

  lemma ExpireAll(c: Config, s: System, x: int)
    requires c.Valid() && Inv(c, s) && s.snd.loss == {} && s.snd.lastAck <= x <= s.snd.curr
    ensures var t := Apply(c, s, StepExpire);
            t == s.(snd := t.snd) && t.snd == s.snd.(loss := t.snd.loss) && x in t.snd.loss
  {
    hide Flatten, StreamInv, ReceiverInv, FirstMissing, AckInv, StoreInv, NetInv, CrossInv;
    assert Between(s.snd.lastAck, x, s.snd.curr);
  }

  // ---------------------------------------------------------------- an exchange of acknowledgements

  /** Both ends agree, and know it, that everything before `f` has arrived, and the sender may send. */
  ghost predicate Agreed(s: System, f: int) {
    && s.rcv.lastAck == s.rcv.lastAckAck == f == FirstMissing(s.rcv)
    && s.snd.lastAck == s.snd.dataAck == f && s.snd.flow >= 2
  }

  lemma AgreedAlready(c: Config, s: System)
    requires Inv(c, s) && s.rcv.lastAckAck == FirstMissing(s.rcv)
    ensures Agreed(s, FirstMissing(s.rcv))
  {
    hide Flatten, StreamInv, StoreInv, NetInv;
    FirstMissingIs(c, s.rcv);
  }

  /** The receiver announces what it has, and remembers that it did. */
  lemma AckOut(c: Config, s: System) returns (id: int, w: int)
    requires c.Valid() && c.cap > 0 && Inv(c, s) && Ahead(FirstMissing(s.rcv), s.rcv.lastAckAck)
    ensures var f := FirstMissing(s.rcv); var t := Apply(c, s, StepFull(false, 0));
            && t == s.(rcv := t.rcv, net := t.net, acks := t.acks)
            && t.rcv == s.rcv.(lastAck := f, ackId := id, window := t.rcv.window)
            && FullAck(id, f, w) in t.net && Position(t.rcv.window, id) < |t.rcv.window|
  {
    hide Flatten, StreamInv, StoreInv, NetInv, SenderInv, Ahead, AckInv;
    var f := FirstMissing(s.rcv);
    NotEqual(f, s.rcv.lastAckAck);
    FirstMissingIs(c, s.rcv);
    var t := Apply(c, s, StepFull(false, 0));
    var sent := SendFullAck(s.rcv, c.size, c.cap, false, 0).1;
    id, w := sent.id, sent.window;
    var e := t.rcv.window[|t.rcv.window| - 1];
    assert e == Entry(id, f, 0);
  }

  lemma NotEqual(x: int, y: int)
    requires Ahead(x, y)
    ensures Wrap(x) != Wrap(y)
  {
  }

  lemma AckIn(c: Config, age: int, s: System, id: int, f: int, w: int)
    requires c.Valid() && age > 0 && Inv(c, s) && FullAck(id, f, w) in s.net && f == FirstMissing(s.rcv)
    ensures Possible(s, StepFullAck(id, f, w, true), age)
    ensures var t := Apply(c, s, StepFullAck(id, f, w, true));
            && t == s.(snd := t.snd, net := t.net) && t.snd.curr == s.snd.curr && s.net <= t.net && Ack2(id) in t.net
            && t.snd.lastAck == t.snd.dataAck == f && t.snd.flow >= 2
  {
    hide Flatten, StreamInv, StoreInv, ReceiverInv, AckInv, SenderInv, FirstMissing, OnFullAck;
    assert MessageOk(c, s, FullAck(id, f, w));
    MissingBelowCurr(c, s);
    FullAckSender(c, s, f, w);
    AckedBelow(c, s);
  }

  lemma AckedBelow(c: Config, s: System)
    requires Inv(c, s)
    ensures s.snd.dataAck <= s.snd.lastAck <= FirstMissing(s.rcv)
  {
  }

  /** The confirmation arrives. */
  lemma Confirm(c: Config, age: int, s: System, id: int, f: int, w: int) returns (now: int)
    requires c.Valid() && age > 0 && Inv(c, s) && FullAck(id, f, w) in s.net && Ack2(id) in s.net
    requires Position(s.rcv.window, id) < |s.rcv.window| && Ahead(f, s.rcv.lastAckAck) && id == s.rcv.ackId
    ensures Possible(s, StepAck2(id, now), age)
    ensures var t := Apply(c, s, StepAck2(id, now));
            t == s.(rcv := s.rcv.(lastAckAck := f, window := t.rcv.window))
  {
    hide Flatten, StreamInv, StoreInv, ReceiverInv, SenderInv, FirstMissing, Ahead;
    assert MessageOk(c, s, FullAck(id, f, w));
    var e := s.rcv.window[Position(s.rcv.window, id)];
    assert EntryOk(s.acks, e);
    now := e.time + 1;
  }

  /** The receiver is not silent for good: it has nothing to announce, or is heard. */
  ghost predicate Heard(r: Receiver) {
    FirstMissing(r) == r.lastAckAck || Ahead(FirstMissing(r), r.lastAckAck)
  }

  lemma Exchange(c: Config, age: int, s: System) returns (steps: seq<Step>, t: System)
    requires c.Valid() && age > 0 && c.cap > 0 && Inv(c, s) && Heard(s.rcv)
    ensures Reach(c, age, s, steps, t) && Inv(c, t) && Agreed(t, FirstMissing(s.rcv))
    ensures t.accepted == s.accepted && t.delivered == s.delivered && t.snd.curr == s.snd.curr
    ensures t.rcv.start == s.rcv.start && t.rcv.curr == s.rcv.curr
  {
    hide Inv, Reach, Apply, Possible, FirstMissing, Later, Ahead;
    ReachNone(c, age, s);
    var f := FirstMissing(s.rcv);
    if f == s.rcv.lastAckAck {
      steps, t := [], s;
      AgreedAlready(c, s);
    } else {
      var id, w := AckOut(c, s);
      steps, t := Extend(c, age, s, [], s, StepFull(false, 0));
      SameMissing(s.rcv, t.rcv);
      AckIn(c, age, t, id, f, w);
      steps, t := Extend(c, age, s, steps, t, StepFullAck(id, f, w, true));
      var now := Confirm(c, age, t, id, f, w);
      var u := t;
      steps, t := Extend(c, age, s, steps, t, StepAck2(id, now));
      SameMissing(u.rcv, t.rcv);
    }
  }

  lemma SameMissing(r: Receiver, u: Receiver)
    requires r.loss == u.loss && r.curr == u.curr
    ensures FirstMissing(r) == FirstMissing(u)
  {
  }

  // ---------------------------------------------------------------- reading everything acknowledged

  lemma ReadSome(c: Config, age: int, s: System, len: int)
    requires c.Valid() && Inv(c, s) && s.rcv.start < s.rcv.lastAck
    requires s.rcv.start in s.rcv.store ==> len > |s.rcv.store[s.rcv.start]|
    ensures Possible(s, StepRead(len), age)
    ensures var t := Apply(c, s, StepRead(len));
            && t == s.(rcv := t.rcv, delivered := t.delivered)
            && t.rcv == s.rcv.(store := t.rcv.store, start := t.rcv.start, notch := t.rcv.notch)
            && s.rcv.start < t.rcv.start && t.rcv.store.Keys <= s.rcv.store.Keys
  {
    hide Flatten, StreamInv, StoreInv, AckInv, SenderInv, NetInv, CrossInv, ReceiverInv;
    InvReadable(c, s);
    ReadFrameOf(c, s, len);
    ReadMoves(s.rcv, len);
  }

  lemma ReadFrameOf(c: Config, s: System, len: int)
    requires c.Valid() && Inv(c, s) && Readable(s.rcv)
    ensures ReadFrame(s.rcv, Read(s.rcv, len).0)
  {
    hide Flatten, StreamInv, ReceiverInv, SenderInv, NetInv, Read, ReadFrame;
    ReadReceiver(c, s.rcv, s.accepted, s.delivered, len);
  }

  lemma ReadMoves(r: Receiver, len: int)
    requires Readable(r) && r.start < r.lastAck && len > |r.store[r.start]|
    ensures r.start < Read(r, len).0.start
  {
    var unit := r.store[r.start][r.notch..];
    ReadForward(Consumed(r), len - |unit|);
  }

  lemma {:induction false} ReadForward(r: Receiver, len: int)
    requires Readable(r)
    ensures r.start <= Read(r, len).0.start
    decreases r.lastAck - r.start
  {
    if r.start < r.lastAck && len > 0 {
      var unit := r.store[r.start][r.notch..];
      if len >= |unit| { ReadForward(Consumed(r), len - |unit|); }
    }
  }

  lemma {:induction false} ReadAll(c: Config, age: int, s: System) returns (steps: seq<Step>, t: System)
    requires c.Valid() && Inv(c, s) && s.rcv.start <= s.rcv.lastAck
    ensures Reach(c, age, s, steps, t) && Inv(c, t) && t.rcv.start == t.rcv.lastAck
    ensures t == s.(rcv := t.rcv, delivered := t.delivered)
    ensures t.rcv == s.rcv.(store := t.rcv.store, start := t.rcv.start, notch := t.rcv.notch)
    ensures t.rcv.store.Keys <= s.rcv.store.Keys
    decreases s.rcv.lastAck - s.rcv.start
  {
    hide Inv, Reach, Apply, Possible, Later;
    ReachNone(c, age, s);
    steps, t := [], s;
    if s.rcv.start < s.rcv.lastAck {
      var len := if s.rcv.start in s.rcv.store then |s.rcv.store[s.rcv.start]| + 1 else 1;
      ReadSome(c, age, s, len);
      steps, t := Extend(c, age, s, [], s, StepRead(len));
      StartBelowAck(c, t);
      var more, u := ReadAll(c, age, t);
      ReachTrans(c, age, s, steps, t, more, u);
      steps, t := steps + more, u;
    }
  }

  lemma StartBelowAck(c: Config, s: System)
    requires Inv(c, s)
    ensures s.rcv.start <= s.rcv.lastAck
  {
  }

  // ---------------------------------------------------------------- one more packet arrives

  /** Everything before `f` is read, and packet `f` is in the network: it is taken. */
  lemma Arrive(c: Config, age: int, s: System, f: int, p: Payload)
    requires c.Valid() && age > 0 && Inv(c, s) && c.size >= 2 && Data(f, p) in s.net
    requires s.rcv.start == s.rcv.lastAck == f == FirstMissing(s.rcv)
    ensures Possible(s, StepData(f, p), age)
    ensures var t := Apply(c, s, StepData(f, p));
            && t == s.(rcv := t.rcv, net := t.net) && t.rcv.lastAckAck == s.rcv.lastAckAck
            && t.rcv.store.Keys <= s.rcv.store.Keys + {f}
            && f < FirstMissing(t.rcv) < f + c.size
            && forall y :: f < y < FirstMissing(t.rcv) ==> y in s.rcv.store
  {
    hide Flatten, StreamInv, StoreInv, AckInv, SenderInv, NetInv, CrossInv;
    FirstMissingIs(c, s.rcv);
    DataReceiver(c, s.rcv, f, p);
    var t := Apply(c, s, StepData(f, p));
    FirstMissingIs(c, t.rcv);
    assert f in t.rcv.store;
  }

  /** One past the last number that can be sent without a new acknowledgement, of `n` packets at most. */
  ghost function Limit(s: System, n: int): int {
    var e := s.snd.lastAck + s.snd.flow;
    var m := if e < n then e else n;
    if m > s.snd.curr + 1 then m else s.snd.curr + 1
  }

  /** The number after the last packet handed over so far. */
  ghost function End(c: Config, s: System): int {
    c.isn + |s.accepted|
  }

  /** With the window open and nothing to resend, a block never sent goes out. */
  lemma SendNext(c: Config, s: System)
    requires c.Valid() && Inv(c, s) && s.snd.loss == {} && s.snd.curr + 1 < Limit(s, End(c, s))
    ensures var t := Apply(c, s, StepPack(s.snd.flow)); var f := s.snd.curr + 1;
            && t == s.(snd := t.snd, net := t.net) && t.snd == s.snd.(curr := f, next := t.snd.next)
            && 0 <= f - c.isn < |s.accepted| && Data(f, s.accepted[f - c.isn]) in t.net
            && Limit(t, End(c, s)) == Limit(s, End(c, s))
  {
    hide Flatten, StreamInv, StoreInv, AckInv, ReceiverInv, NetInv, CrossInv, FirstMissing;
    var f := s.snd.curr + 1;
    assert s.snd.blocks[s.snd.next] == s.accepted[f - c.isn];
  }

  /** Packet `f`, the first one missing, is brought into the network. */
  lemma Supply(c: Config, age: int, s: System, f: int) returns (steps: seq<Step>, t: System)
    requires c.Valid() && Inv(c, s) && f == FirstMissing(s.rcv) < Limit(s, End(c, s))
    ensures Reach(c, age, s, steps, t) && Inv(c, t) && t == s.(snd := t.snd, net := t.net)
    ensures 0 <= f - c.isn < |s.accepted| && Data(f, s.accepted[f - c.isn]) in t.net
    ensures Limit(t, End(c, t)) == Limit(s, End(c, s)) && t.snd.dataAck == s.snd.dataAck
  {
    hide Inv, Reach, Apply, Possible, Later, FirstMissing;
    MissingBelowCurr(c, s);
    AckedBelow(c, s);
    if f <= s.snd.curr {
      steps, t := Resend(c, age, s, f);
    } else {
      steps, t := SendAllLost(c, age, s);
      SendNext(c, t);
      ReachNone(c, age, t);
      steps, t := Extend(c, age, s, steps, t, StepPack(t.snd.flow));
    }
  }

  /** The receiver may advance, whether or not it announces that. */
  lemma FullAdvances(c: Config, s: System)
    requires c.Valid() && Inv(c, s) && Wrap(FirstMissing(s.rcv)) != Wrap(s.rcv.lastAckAck)
    ensures var f := FirstMissing(s.rcv); var t := Apply(c, s, StepFull(false, 0));
            && t == s.(rcv := t.rcv, net := t.net, acks := t.acks)
            && t.rcv == s.rcv.(lastAck := f, ackId := t.rcv.ackId, window := t.rcv.window)
  {
    hide Flatten, StreamInv, StoreInv, NetInv, SenderInv, Ahead, AckInv, Wrap;
    FirstMissingIs(c, s.rcv);
  }

  /** Everything that arrived without a gap is acknowledged to the reader, and read. */
  lemma Empty(c: Config, age: int, s: System) returns (steps: seq<Step>, t: System)
    requires c.Valid() && Inv(c, s)
    requires Wrap(FirstMissing(s.rcv)) == Wrap(s.rcv.lastAckAck) ==> FirstMissing(s.rcv) == s.rcv.lastAck
    ensures Reach(c, age, s, steps, t) && Inv(c, t) && t.snd == s.snd && t.accepted == s.accepted
    ensures t.rcv.start == t.rcv.lastAck == FirstMissing(s.rcv) == FirstMissing(t.rcv)
    ensures t.rcv.lastAckAck == s.rcv.lastAckAck && t.rcv.store.Keys <= s.rcv.store.Keys
  {
    hide Inv, Reach, Apply, Possible, Later, FirstMissing, Wrap;
    ReachNone(c, age, s);
    steps, t := [], s;
    if Wrap(FirstMissing(s.rcv)) != Wrap(s.rcv.lastAckAck) {
      FullAdvances(c, s);
      steps, t := Extend(c, age, s, [], s, StepFull(false, 0));
    }
    SameMissing(s.rcv, t.rcv);
    StartBelowAck(c, t);
    var more, u := ReadAll(c, age, t);
    ReachTrans(c, age, s, steps, t, more, u);
    SameMissing(t.rcv, u.rcv);
    steps, t := steps + more, u;
  }

  /** As long as the sender may send, the first missing number can be made to grow, to the next one missing. */
  lemma Advance(c: Config, age: int, s: System) returns (steps: seq<Step>, t: System)
    requires c.Valid() && age > 0 && c.size >= 2 && Inv(c, s) && FirstMissing(s.rcv) < Limit(s, End(c, s))
    requires Wrap(FirstMissing(s.rcv)) == Wrap(s.rcv.lastAckAck) ==> FirstMissing(s.rcv) == s.rcv.lastAck
    ensures Reach(c, age, s, steps, t) && Inv(c, t) && t.accepted == s.accepted
    ensures t.rcv.lastAckAck == s.rcv.lastAckAck && t.snd.dataAck == s.snd.dataAck
    ensures Limit(t, End(c, t)) == Limit(s, End(c, s))
    ensures var f := FirstMissing(s.rcv);
            && f < FirstMissing(t.rcv) < f + c.size && t.rcv.store.Keys <= s.rcv.store.Keys + {f}
            && forall y :: f < y < FirstMissing(t.rcv) ==> y in s.rcv.store
  {
    hide Inv, Reach, Apply, Possible, Later, FirstMissing, Wrap, Limit;
    var f := FirstMissing(s.rcv);
    steps, t := Empty(c, age, s);
    SameLimit(s, t, End(c, s));
    var steps1, t1 := Supply(c, age, t, f);
    ReachTrans(c, age, s, steps, t, steps1, t1);
    Arrive(c, age, t1, f, t1.accepted[f - c.isn]);
    steps, t := Extend(c, age, s, steps + steps1, t1, StepData(f, t1.accepted[f - c.isn]));
    SameLimit(t1, t, End(c, s));
  }

  lemma SameLimit(s: System, t: System, n: int)
    requires s.snd == t.snd
    ensures Limit(s, n) == Limit(t, n)
  {
  }

  // ---------------------------------------------------------------- finishing

  /** Everything handed over is read, and the sender has released everything. */
  ghost predicate Finished(s: System) {
    s.delivered == Flatten(s.accepted) && s.snd.blocks == []
  }

  lemma FinishedIs(c: Config, s: System)
    requires Inv(c, s) && s.snd.dataAck == End(c, s) == s.rcv.start == s.rcv.lastAck
    ensures Finished(s)
  {
    hide AckInv, ReceiverInv, NetInv, CrossInv, FirstMissing;
    var none := s.accepted[|s.accepted|..];
    assert none == [];
    assert Flatten(none) == [];
    assert s.delivered + [] == s.delivered;
  }

  lemma MissingBound(c: Config, s: System)
    requires Inv(c, s)
    ensures FirstMissing(s.rcv) <= End(c, s)
  {
    hide Flatten, StreamInv, StoreInv, AckInv, NetInv;
    MissingBelowCurr(c, s);
  }

  /** Both ends being agreed on `f`, an arrival soon after it is announced. */
  lemma SoonAhead(x: int, f: int)
    requires f < x < f + SEQ_NO_TH
    ensures Ahead(x, f)
  {
    CmpSign(x, f);
  }

  /** While the receiver is heard, packet after packet arrives and is confirmed. */
  lemma {:induction false} ArriveAll(c: Config, age: int, s: System) returns (steps: seq<Step>, t: System)
    requires c.Valid() && age > 0 && c.cap > 0 && 2 <= c.size && c.wmax < SEQ_NO_TH && Inv(c, s) && Heard(s.rcv)
    ensures Reach(c, age, s, steps, t) && Inv(c, t) && t.accepted == s.accepted
    ensures Agreed(t, End(c, s))
    decreases End(c, s) - FirstMissing(s.rcv)
  {
    hide Inv, Reach, Apply, Possible, Later, FirstMissing, Wrap, Ahead;
    MissingBound(c, s);
    var f := FirstMissing(s.rcv);
    steps, t := Exchange(c, age, s);
    if f < End(c, s) {
      var steps1, t1 := Advance(c, age, t);
      ReachTrans(c, age, s, steps, t, steps1, t1);
      SoonAhead(FirstMissing(t1.rcv), f);
      MissingBound(c, t1);
      var more, u := ArriveAll(c, age, t1);
      ReachTrans(c, age, s, steps + steps1, t1, more, u);
      steps, t := steps + steps1 + more, u;
    }
  }

  /** Without any announcement the first missing number can be made any one below the limit not arrived yet. */
  lemma {:induction false} Crawl(c: Config, age: int, s: System, x: int) returns (steps: seq<Step>, t: System)
    requires c.Valid() && age > 0 && c.size >= 2 && c.wmax < SEQ_NO_TH && Inv(c, s)
    requires FirstMissing(s.rcv) <= x <= Limit(s, End(c, s)) && x !in s.rcv.store
    requires s.snd.dataAck - s.rcv.lastAckAck <= REACH
    ensures Reach(c, age, s, steps, t) && Inv(c, t) && t.accepted == s.accepted
    ensures FirstMissing(t.rcv) == x && t.rcv.lastAckAck == s.rcv.lastAckAck
    decreases x - FirstMissing(s.rcv)
  {
    hide Inv, Reach, Apply, Possible, Later, FirstMissing, Wrap, Limit;
    ReachNone(c, age, s);
    steps, t := [], s;
    if FirstMissing(s.rcv) < x {
      NoTurn(c, s);
      steps, t := Advance(c, age, s);
      var more, u := Crawl(c, age, t, x);
      ReachTrans(c, age, s, steps, t, more, u);
      steps, t := steps + more, u;
    }
  }

  lemma NoTurn(c: Config, s: System)
    requires c.Valid() && c.wmax < SEQ_NO_TH && Inv(c, s) && s.snd.dataAck - s.rcv.lastAckAck <= REACH
    ensures Wrap(FirstMissing(s.rcv)) == Wrap(s.rcv.lastAckAck) ==> FirstMissing(s.rcv) == s.rcv.lastAck
  {
    hide Flatten, StreamInv, StoreInv, NetInv, AckInv, FirstMissing, Wrap;
    MissingBelowCurr(c, s);
    WrapInjective(FirstMissing(s.rcv), s.rcv.lastAckAck);
  }

  /**
    The two ends can still finish: nothing is left to release, or a number not
    arrived yet can become the first missing one, and is taken to be later than
    the last acknowledgement confirmed.
   */
  ghost predicate Alive(c: Config, s: System) {
    s.snd.blocks == []
    || exists x :: FirstMissing(s.rcv) <= x <= Limit(s, End(c, s)) && x !in s.rcv.store && Ahead(x, s.rcv.lastAckAck)
  }

  /** The steps after which everything is read and released. */
  lemma Finish(c: Config, age: int, s: System) returns (steps: seq<Step>, t: System)
    requires c.Valid() && age > 0 && c.cap > 0 && c.size >= 2 && c.wmax < SEQ_NO_TH
    requires Inv(c, s) && LagInv(s) && Alive(c, s)
    ensures Reach(c, age, s, steps, t) && t.accepted == s.accepted && Finished(t)
  {
    hide Inv, Reach, Apply, Possible, Later, FirstMissing, Finished, LagInv, Wrap, Ahead, Limit;
    LagBelowTurn(c, s);
    if s.snd.blocks == [] {
      AllReleased(c, s);
      steps, t := Empty(c, age, s);
    } else {
      var x :| FirstMissing(s.rcv) <= x <= Limit(s, End(c, s)) && x !in s.rcv.store && Ahead(x, s.rcv.lastAckAck);
      Released(s);
      var steps1, t1 := Crawl(c, age, s, x);
      var steps2, t2 := ArriveAll(c, age, t1);
      ReachTrans(c, age, s, steps1, t1, steps2, t2);
      StartBelowAck(c, t2);
      var more, u := ReadAll(c, age, t2);
      ReachTrans(c, age, s, steps1 + steps2, t2, more, u);
      steps, t := steps1 + steps2 + more, u;
    }
    FinishedIs(c, t);
  }

  lemma Released(s: System)
    requires LagInv(s)
    ensures s.snd.dataAck - s.rcv.lastAckAck <= REACH
  {
  }

  lemma AllReleased(c: Config, s: System)
    requires Inv(c, s) && s.snd.blocks == []
    ensures s.snd.dataAck == s.rcv.lastAck == FirstMissing(s.rcv) == End(c, s)
  {
    hide Flatten, StreamInv, StoreInv, NetInv, AckInv;
    MissingBelowCurr(c, s);
  }

  lemma LoseAll(c: Config, s: System)
    requires Inv(c, s) && LagInv(s)
    ensures Inv(c, s.(net := {})) && LagInv(s.(net := {}))
  {
    hide Flatten, StreamInv;
  }

  /** With a lag inside the half window the two ends are alive. */
  lemma ShortLagAlive(c: Config, s: System)
    requires c.Valid() && c.wmax < SEQ_NO_TH && Inv(c, s) && LagInv(s) && Lag(s.rcv) < SEQ_NO_TH
    ensures Alive(c, s)
  {
    hide Flatten, StreamInv, StoreInv, NetInv, FirstMissing, Ahead;
    var f, l := FirstMissing(s.rcv), s.rcv.lastAckAck;
    LagBelowTurn(c, s);
    FirstMissingIs(c, s.rcv);
    if s.snd.blocks != [] {
      // with nothing to announce yet, the sender may send beyond what has arrived
      var x := if f > l then f else if s.rcv.curr >= f then s.rcv.curr + 1 else f + 1;
      if f == l { AgreedAlready(c, s); }
      SoonAhead(x, l);
      assert f <= x <= Limit(s, End(c, s)) && x !in s.rcv.store;
    }
  }

  /**
    No deadlock: at every moment of every run, were the network to lose all it
    holds, there are further steps after which the receiver's application has
    read everything handed over so far and the sender's buffer is empty;
    provided that less than half a window of numbers, all of which arrived, is
    still to be confirmed.
   */
  lemma NeverStuck(c: Config, age: int, states: seq<System>, run: seq<Step>, n: nat)
    returns (steps: seq<Step>, t: System)
    requires c.Valid() && age > 0 && c.cap > 0 && c.size >= 2 && c.wmax < SEQ_NO_TH
    requires IsRun(c, states, run) && n < |states| && Lag(states[n].rcv) < SEQ_NO_TH
    ensures Reach(c, age, states[n].(net := {}), steps, t)
    ensures t.accepted == states[n].accepted
    ensures t.delivered == Flatten(t.accepted) && t.snd.blocks == []
  {
    hide Inv, Reach, Flatten, LagInv, Alive, FirstMissing;
    RunLag(c, states, run, n);
    LoseAll(c, states[n]);
    ShortLagAlive(c, states[n].(net := {}));
    steps, t := Finish(c, age, states[n].(net := {}));
  }
}
