/**
  Safety of whole runs of the transport, over a network that may lose,
  duplicate and reorder: everything ever sent stays in `net`, and a step may
  deliver any of it, any number of times or never.
 */
module TransportSafety {
  import opened AckWindow
  import opened LossIntervals
  import opened Sets
  import opened Streams
  import opened Transport
  import RB = RcvBuffer

  /** `size` is the receive buffer in packets, `wmax` bounds every window ever granted. */
  datatype Config = Config(isn: int, mss: int, size: int, cap: int, wmax: int) {
    predicate Valid() {
      isn >= 0 && mss > 0 && size > 0 && cap >= 0 && wmax >= 2 && size - 1 <= wmax
    }
  }

  datatype System = System(
    snd: Sender,
    rcv: Receiver,
    net: set<Message>,
    accepted: seq<Payload>,   // all blocks the application handed over
    delivered: seq<Byte>,     // all bytes the application has read
    acks: seq<int>)           // the data number of every full acknowledgement

  ghost function Init(c: Config, flow: int): System {
    System(Sender(c.isn, c.isn, c.isn - 1, {}, [], 0, flow, false),
           Receiver(c.isn, c.isn, c.isn - 1, {}, 0, [], map[], c.isn, 0),
           {}, [], [], [])
  }

  // ---------------------------------------------------------------- steps

  datatype Step =
    | StepAccept(data: seq<Byte>)
    | StepPack(cwnd: int)
    | StepData(no: int, payload: Payload)
    | StepLite
    | StepFull(early: bool, now: int)
    | StepLiteAck(ack: int)
    | StepFullAck(id: int, ack: int, window: int, confirm: bool)
    | StepNak(ranges: seq<(int, int)>)
    | StepAck2(id: int, now: int)
    | StepExpire
    | StepRead(len: int)

  /** A delivery needs a message that was sent at some time. */
  ghost predicate Enabled(s: System, t: Step) {
    match t
    case StepData(no, payload) => Data(no, payload) in s.net
    case StepLiteAck(ack) => LiteAck(ack) in s.net
    case StepFullAck(id, ack, window, _) => FullAck(id, ack, window) in s.net
    case StepNak(ranges) => Nak(ranges) in s.net
    case StepAck2(id, _) => Ack2(id) in s.net
    case StepRead(_) => Readable(s.rcv)
    case _ => true
  }

  /** Message `m` is less than `age` numbers late for its receiver. */
  ghost predicate InTime(s: System, m: Message, age: int) {
    match m
    case Data(no, _) => s.rcv.lastAck - no < age
    case LiteAck(ack) => s.snd.lastAck - ack < age
    case FullAck(_, ack, _) => s.snd.lastAck - ack < age
    case Nak(ranges) => forall r :: r in ranges ==> s.snd.lastAck - r.0 < age
    case Ack2(id) => s.rcv.ackId - id < age
  }

  /** Nothing is delivered too late. */
  ghost predicate Timely(s: System, t: Step, age: int) {
    match t
    case StepData(no, payload) => InTime(s, Data(no, payload), age)
    case StepLiteAck(ack) => InTime(s, LiteAck(ack), age)
    case StepFullAck(id, ack, window, _) => InTime(s, FullAck(id, ack, window), age)
    case StepNak(ranges) => InTime(s, Nak(ranges), age)
    case StepAck2(id, _) => InTime(s, Ack2(id), age)
    case _ => true
  }

  ghost predicate Readable(r: Receiver) {
    RB.Readable(r.store, r.start, r.lastAck, r.notch)
  }

  ghost function Apply(c: Config, s: System, t: Step): System
    requires c.Valid() && Enabled(s, t)
  {
    match t
    case StepAccept(data) =>
      s.(snd := Accept(s.snd, data, c.mss), accepted := s.accepted + Chunks(data, c.mss))
    case StepPack(cwnd) =>
      var (snd, sent) := PackData(s.snd, cwnd);
      s.(snd := snd, net := if sent.Packet? then s.net + {Data(sent.no, sent.payload)} else s.net)
    case StepData(no, payload) =>
      var (rcv, reply) := OnData(s.rcv, no, payload, c.size);
      s.(rcv := rcv, net := if reply.Report? then s.net + {Nak([(reply.a, reply.b)])} else s.net)
    case StepLite =>
      var sent := SendLiteAck(s.rcv);
      s.(net := if sent.Lite? then s.net + {LiteAck(sent.ack)} else s.net)
    case StepFull(early, now) =>
      var (rcv, sent) := SendFullAck(s.rcv, c.size, c.cap, early, now);
      if sent.Full? then
        s.(rcv := rcv, net := s.net + {FullAck(sent.id, sent.ack, sent.window)}, acks := s.acks + [sent.ack])
      else s.(rcv := rcv)
    case StepLiteAck(ack) => s.(snd := OnLiteAck(s.snd, ack))
    case StepFullAck(id, ack, window, confirm) =>
      s.(snd := OnFullAck(s.snd, ack, window), net := if confirm then s.net + {Ack2(id)} else s.net)
    case StepNak(ranges) => s.(snd := OnNak(s.snd, ranges))
    case StepAck2(id, now) => s.(rcv := OnAck2(s.rcv, id, now))
    case StepExpire => s.(snd := OnExpire(s.snd))
    case StepRead(len) =>
      var (rcv, data) := Read(s.rcv, len);
      s.(rcv := rcv, delivered := s.delivered + data)
  }

  // ---------------------------------------------------------------- the invariant

  /** The sender's own bookkeeping. */
  ghost predicate SenderInv(c: Config, q: Sender, accepted: seq<Payload>) {
    && !q.broken
    && c.isn <= q.dataAck <= q.lastAck <= q.curr + 1 <= c.isn + |accepted|
    && q.blocks == accepted[q.dataAck - c.isn..]
    && q.next == q.curr + 1 - q.dataAck
    && (forall x :: x in q.loss ==> q.dataAck <= x <= q.curr)
    && q.curr + 1 <= q.dataAck + c.wmax
    && q.lastAck + q.flow <= q.dataAck + c.wmax
  }

  /** The receiver's own bookkeeping: the buffer holds exactly what is not missing. */
  ghost predicate ReceiverInv(c: Config, r: Receiver) {
    && c.isn <= r.start <= r.lastAck <= r.curr + 1
    && r.curr + 1 <= r.start + c.size - 1
    && (forall x :: x in r.loss ==> r.lastAck <= x < r.curr)
    && (forall x :: x in r.store <==> r.start <= x <= r.curr && x !in r.loss)
    && (r.start == r.lastAck ==> r.notch == 0)
  }

  /** What the two ends know about each other. */
  ghost predicate CrossInv(q: Sender, r: Receiver) {
    && r.curr <= q.curr
    && q.dataAck <= r.lastAck
    && q.lastAck <= FirstMissing(r)
    && r.lastAckAck <= q.dataAck
    // the receiver stops acknowledging only when the sender may still send
    && (r.lastAckAck == q.lastAck ==> q.flow >= 2)
  }

  /** The receive buffer holds what the sender's application handed over. */
  ghost predicate StoreInv(c: Config, store: map<int, Payload>, accepted: seq<Payload>) {
    forall x :: x in store ==> 0 <= x - c.isn < |accepted| && store[x] == accepted[x - c.isn]
  }

  ghost predicate AckInv(r: Receiver, acks: seq<int>) {
    && r.ackId == |acks|
    && (forall i :: 0 <= i < |acks| ==> acks[i] <= r.lastAck)
    && (forall e :: e in r.window ==> EntryOk(acks, e))
  }

  ghost predicate EntryOk(acks: seq<int>, e: Entry) {
    1 <= e.id <= |acks| && acks[e.id - 1] == e.ack
  }

  /** What may be in the network. */
  ghost predicate MessageOk(c: Config, s: System, m: Message) {
    match m
    case Data(no, payload) =>
      c.isn <= no <= s.snd.curr && no - c.isn < |s.accepted| && payload == s.accepted[no - c.isn]
    case LiteAck(ack) => c.isn <= ack <= FirstMissing(s.rcv)
    case FullAck(id, ack, window) =>
      1 <= id <= |s.acks| && s.acks[id - 1] == ack && c.isn <= ack <= s.rcv.lastAck && 2 <= window <= c.wmax
    case Nak(ranges) => forall i :: 0 <= i < |ranges| ==> c.isn <= ranges[i].0 <= ranges[i].1 < s.rcv.curr
    case Ack2(id) =>
      1 <= id <= |s.acks| && s.acks[id - 1] <= s.snd.dataAck && s.acks[id - 1] <= s.snd.lastAck
      && (s.acks[id - 1] == s.snd.lastAck ==> s.snd.flow >= 2)
  }

  ghost predicate NetInv(c: Config, s: System) {
    forall m :: m in s.net ==> MessageOk(c, s, m)
  }

  /** The bytes still to be read. */
  ghost function Pending(c: Config, accepted: seq<Payload>, start: int, notch: int): seq<Byte>
    requires 0 <= start - c.isn <= |accepted|
    requires 0 <= notch <= |Flatten(accepted[start - c.isn..])|
  {
    Flatten(accepted[start - c.isn..])[notch..]
  }

  ghost predicate StreamInv(c: Config, r: Receiver, accepted: seq<Payload>, delivered: seq<Byte>) {
    && 0 <= r.start - c.isn <= |accepted|
    && (r.start < r.lastAck ==> r.start - c.isn < |accepted| && 0 <= r.notch <= |accepted[r.start - c.isn]|)
    && 0 <= r.notch <= |Flatten(accepted[r.start - c.isn..])|
    && Flatten(accepted) == delivered + Pending(c, accepted, r.start, r.notch)
  }

  ghost predicate Inv(c: Config, s: System) {
    && SenderInv(c, s.snd, s.accepted)
    && ReceiverInv(c, s.rcv)
    && CrossInv(s.snd, s.rcv)
    && StoreInv(c, s.rcv.store, s.accepted)
    && AckInv(s.rcv, s.acks)
    && NetInv(c, s)
    && StreamInv(c, s.rcv, s.accepted, s.delivered)
  }

  // ---------------------------------------------------------------- the first missing number

  /** The first missing number splits what has arrived without gap from the rest. */
  lemma FirstMissingIs(c: Config, r: Receiver)
    requires ReceiverInv(c, r)
    ensures r.lastAck <= FirstMissing(r) <= r.curr + 1
    ensures FirstMissing(r) !in r.store
    ensures forall x :: r.start <= x < FirstMissing(r) ==> x in r.store
    ensures forall x :: x in r.loss ==> FirstMissing(r) <= x
  {
  }

  /** More arrivals never move the first missing number back. */
  lemma FirstMissingGrows(c: Config, r: Receiver, t: Receiver)
    requires ReceiverInv(c, r) && ReceiverInv(c, t)
    requires r.start == t.start && r.store.Keys <= t.store.Keys
    ensures FirstMissing(r) <= FirstMissing(t)
  {
    FirstMissingIs(c, r);
    FirstMissingIs(c, t);
  }

  // ---------------------------------------------------------------- stability of what is in the network

  ghost predicate Later(s: System, t: System) {
    && s.snd.curr <= t.snd.curr && s.snd.lastAck <= t.snd.lastAck && s.snd.dataAck <= t.snd.dataAck
    && (s.snd.lastAck == t.snd.lastAck && s.snd.flow >= 2 ==> t.snd.flow >= 2)
    && s.rcv.lastAck <= t.rcv.lastAck && s.rcv.curr <= t.rcv.curr
    && FirstMissing(s.rcv) <= FirstMissing(t.rcv)
    && s.accepted <= t.accepted && s.acks <= t.acks
  }

  lemma MessageStays(c: Config, s: System, t: System, m: Message)
    requires Later(s, t) && MessageOk(c, s, m)
    ensures MessageOk(c, t, m)
  {
  }

  lemma NetStays(c: Config, s: System, t: System)
    requires Later(s, t) && NetInv(c, s)
    ensures forall m :: m in s.net ==> MessageOk(c, t, m)
  {
    forall m | m in s.net ensures MessageOk(c, t, m) { MessageStays(c, s, t, m); }
  }

  // ---------------------------------------------------------------- every step keeps the invariant

  lemma AcceptKeeps(c: Config, s: System, data: seq<Byte>)
    requires c.Valid() && Inv(c, s)
    ensures var t := Apply(c, s, StepAccept(data)); Inv(c, t) && Later(s, t)
  {
    hide Flatten, StreamInv, ReceiverInv, FirstMissing, AckInv, Chunks;
    var t := Apply(c, s, StepAccept(data));
    AcceptStream(c, s, data);
    NetStays(c, s, t);
  }

  lemma AcceptStream(c: Config, s: System, data: seq<Byte>)
    requires c.Valid() && StreamInv(c, s.rcv, s.accepted, s.delivered)
    ensures StreamInv(c, s.rcv, s.accepted + Chunks(data, c.mss), s.delivered)
  {
    var cs := Chunks(data, c.mss);
    var i := s.rcv.start - c.isn;
    FlattenConcat(s.accepted, cs);
    FlattenConcat(s.accepted[i..], cs);
    assert (s.accepted + cs)[i..] == s.accepted[i..] + cs;
  }

  lemma PackKeeps(c: Config, s: System, cwnd: int)
    requires c.Valid() && Inv(c, s)
    ensures var t := Apply(c, s, StepPack(cwnd)); Inv(c, t) && Later(s, t)
  {
    hide Flatten, StreamInv, ReceiverInv, FirstMissing, AckInv, StoreInv, PackData, SenderInv;
    var t := Apply(c, s, StepPack(cwnd));
    PackSender(c, s, cwnd);
    NetStays(c, s, t);
  }

  /** Resending stays inside what is buffered; sending anew stays inside the window. */
  lemma PackSender(c: Config, s: System, cwnd: int)
    requires c.Valid() && SenderInv(c, s.snd, s.accepted)
    ensures var (q, sent) := PackData(s.snd, cwnd);
            && SenderInv(c, q, s.accepted) && s.snd.curr <= q.curr
            && q.lastAck == s.snd.lastAck && q.dataAck == s.snd.dataAck
            && q.flow == s.snd.flow
            && (sent.Packet? ==> c.isn <= sent.no <= q.curr && sent.no - c.isn < |s.accepted|
                                 && sent.payload == s.accepted[sent.no - c.isn])
            && (s.snd.loss != {} ==> sent.Packet?)
  {
    hide PackData, SenderInv;
    if s.snd.loss != {} {
      PackLost(c, s.snd, s.accepted, cwnd);
    } else {
      PackNew(c, s.snd, s.accepted, cwnd);
    }
  }

  lemma PackLost(c: Config, q: Sender, accepted: seq<Payload>, cwnd: int)
    requires SenderInv(c, q, accepted) && q.loss != {}
    ensures var (r, sent) := PackData(q, cwnd);
            && r == q.(loss := r.loss) && SenderInv(c, r, accepted)
            && sent.Packet? && c.isn <= sent.no <= q.curr && sent.no - c.isn < |accepted|
            && sent.payload == accepted[sent.no - c.isn]
  {
    var no := Least(q.loss);
    assert no in q.loss;
    hide Least;
    assert q.blocks[no - q.dataAck] == accepted[no - c.isn];
  }

  lemma PackNew(c: Config, q: Sender, accepted: seq<Payload>, cwnd: int)
    requires c.Valid() && SenderInv(c, q, accepted) && q.loss == {}
    ensures var (r, sent) := PackData(q, cwnd);
            && r == q.(curr := r.curr, next := r.next) && q.curr <= r.curr && SenderInv(c, r, accepted)
            && (sent.Packet? ==> c.isn <= sent.no <= r.curr && sent.no - c.isn < |accepted|
                                 && sent.payload == accepted[sent.no - c.isn])
  {
  }

  lemma DataKeeps(c: Config, s: System, no: int, payload: Payload)
    requires c.Valid() && Inv(c, s) && Data(no, payload) in s.net
    ensures var t := Apply(c, s, StepData(no, payload)); Inv(c, t) && Later(s, t)
  {
    hide Flatten, Pending, ReceiverInv, FirstMissing, Chunks, OnData, SenderInv;
    DataReceiver(c, s.rcv, no, payload);
    var t := Apply(c, s, StepData(no, payload));
    assert MessageOk(c, s, Data(no, payload));
    FirstMissingGrows(c, s.rcv, t.rcv);
    DataBounds(c, s);
    NetStays(c, s, t);
  }

  lemma DataBounds(c: Config, s: System)
    requires Inv(c, s)
    ensures c.isn <= s.rcv.curr + 1 && s.rcv.curr <= s.snd.curr
  {
  }

  lemma DataReceiver(c: Config, r: Receiver, no: int, payload: Payload)
    requires c.Valid() && ReceiverInv(c, r)
    ensures var (u, reply) := OnData(r, no, payload, c.size);
            && ReceiverInv(c, u)
            && u.start == r.start && u.lastAck == r.lastAck && u.lastAckAck == r.lastAckAck && u.notch == r.notch
            && u.ackId == r.ackId && u.window == r.window
            && r.curr <= u.curr && (u.curr == r.curr || u.curr == no)
            && (u.store == r.store || u.store == r.store[no := payload])
            && r.store.Keys <= u.store.Keys
            && (reply.Report? ==> r.curr + 1 == reply.a <= reply.b < u.curr)
  {
    var (u, reply) := OnData(r, no, payload, c.size);
    if u != r {
      forall x ensures x in u.store <==> u.start <= x <= u.curr && x !in u.loss {
        if no > r.curr + 1 { assert x in Range(r.curr + 1, no - 1) <==> Between(r.curr + 1, x, no - 1); }
      }
      forall x | x in u.loss ensures u.lastAck <= x < u.curr {
        if no > r.curr + 1 { assert x in Range(r.curr + 1, no - 1) <==> Between(r.curr + 1, x, no - 1); }
      }
    }
  }

  lemma LiteKeeps(c: Config, s: System)
    requires c.Valid() && Inv(c, s)
    ensures var t := Apply(c, s, StepLite); Inv(c, t) && Later(s, t)
  {
    hide Flatten, Pending, SenderInv;
    FirstMissingIs(c, s.rcv);
    NetStays(c, s, Apply(c, s, StepLite));
  }

  lemma FullReceiver(c: Config, r: Receiver, early: bool, now: int)
    requires c.Valid() && ReceiverInv(c, r)
    ensures var (u, sent) := SendFullAck(r, c.size, c.cap, early, now);
            && ReceiverInv(c, u) && FirstMissing(u) == FirstMissing(r)
            && r.lastAck <= u.lastAck && u.store == r.store && u.lastAckAck == r.lastAckAck && u.curr == r.curr
            && u.start == r.start && u.notch == r.notch
            && (sent.NoAck? ==> u.window == r.window && u.ackId == r.ackId)
            && (sent.Full? ==>
                  sent.id == u.ackId == r.ackId + 1 && sent.ack == u.lastAck == FirstMissing(r) && sent.window <= c.wmax
                  && 2 <= sent.window
                  && u.window == Stored(r.window, c.cap, Entry(u.ackId, sent.ack, now)))
            && !sent.Lite?
  {
    FirstMissingIs(c, r);
  }

  lemma FullKeeps(c: Config, s: System, early: bool, now: int)
    requires c.Valid() && Inv(c, s)
    ensures var t := Apply(c, s, StepFull(early, now)); Inv(c, t) && Later(s, t)
  {
    hide Flatten, Pending, ReceiverInv, FirstMissing, SendFullAck, MessageOk;
    FullReceiver(c, s.rcv, early, now);
    var t := Apply(c, s, StepFull(early, now));
    FullAcks(c, s, t, early, now);
    FullStream(c, s, t);
    FullNet(c, s, t, early, now);
  }

  lemma FullStream(c: Config, s: System, t: System)
    requires Inv(c, s) && s.accepted == t.accepted && s.delivered == t.delivered
    requires s.rcv.start == t.rcv.start && s.rcv.notch == t.rcv.notch && s.rcv.lastAck <= t.rcv.lastAck
    requires ReceiverInv(c, t.rcv) && s.rcv.store == t.rcv.store
    ensures StreamInv(c, t.rcv, t.accepted, t.delivered)
  {
    hide FirstMissing, MessageOk, AckInv, SenderInv;
    if t.rcv.start < t.rcv.lastAck && s.rcv.start == s.rcv.lastAck {
      FirstMissingIs(c, t.rcv);
      assert t.rcv.start in t.rcv.store;
    }
  }

  lemma FullAcks(c: Config, s: System, t: System, early: bool, now: int)
    requires c.Valid() && AckInv(s.rcv, s.acks) && ReceiverInv(c, s.rcv) && t == Apply(c, s, StepFull(early, now))
    ensures AckInv(t.rcv, t.acks)
  {
    hide Flatten, Pending, ReceiverInv, FirstMissing, SendFullAck, Stored;
    FullReceiver(c, s.rcv, early, now);
    StoredElements(s.rcv.window, c.cap, Entry(t.rcv.ackId, t.rcv.lastAck, now));
    var (u, sent) := SendFullAck(s.rcv, c.size, c.cap, early, now);
    forall e | e in t.rcv.window ensures EntryOk(t.acks, e) {
      if e in s.rcv.window {
        assert EntryOk(s.acks, e);
      } else {
        assert sent.Full? && e == Entry(t.rcv.ackId, t.rcv.lastAck, now);
      }
    }
  }

  lemma StoredElements(w: Window, cap: int, e: Entry)
    requires cap >= 0
    ensures forall x :: x in Stored(w, cap, e) ==> x in w || x == e
  {
  }

  lemma FullNet(c: Config, s: System, t: System, early: bool, now: int)
    requires c.Valid() && Inv(c, s) && t == Apply(c, s, StepFull(early, now))
    ensures Later(s, t) && NetInv(c, t)
  {
    hide Flatten, Pending, ReceiverInv, FirstMissing, SendFullAck, Stored;
    FullReceiver(c, s.rcv, early, now);
    FullAckBounds(c, s);
    NetStays(c, s, t);
  }

  lemma FullAckBounds(c: Config, s: System)
    requires Inv(c, s)
    ensures c.isn <= s.rcv.lastAck <= FirstMissing(s.rcv)
  {
    FirstMissingIs(c, s.rcv);
  }

  lemma LiteAckKeeps(c: Config, s: System, ack: int)
    requires c.Valid() && Inv(c, s) && LiteAck(ack) in s.net
    ensures var t := Apply(c, s, StepLiteAck(ack)); Inv(c, t) && Later(s, t)
  {
    hide Flatten, Pending, FirstMissing;
    assert MessageOk(c, s, LiteAck(ack));
    MissingBelowCurr(c, s);
    NetStays(c, s, Apply(c, s, StepLiteAck(ack)));
  }

  lemma MissingBelowCurr(c: Config, s: System)
    requires Inv(c, s)
    ensures s.rcv.lastAck <= FirstMissing(s.rcv) <= s.rcv.curr + 1 <= s.snd.curr + 1
  {
    FirstMissingIs(c, s.rcv);
  }

  /** A full acknowledgement between conforming ends is never beyond what was sent. */
  lemma FullAckSender(c: Config, s: System, ack: int, window: int)
    requires c.Valid() && SenderInv(c, s.snd, s.accepted) && c.isn <= ack <= s.snd.curr + 1 && window <= c.wmax
    ensures var q := OnFullAck(s.snd, ack, window);
            && SenderInv(c, q, s.accepted) && q.curr == s.snd.curr
            && (q.lastAck == s.snd.lastAck || q.lastAck == ack) && q.lastAck >= ack && s.snd.lastAck <= q.lastAck
            && (q.dataAck == s.snd.dataAck || q.dataAck == ack) && q.dataAck >= ack && s.snd.dataAck <= q.dataAck
            && (q.lastAck == ack ==> q.flow == window) && (q.lastAck != ack ==> q.flow == s.snd.flow)
  {
    var q := OnFullAck(s.snd, ack, window);
    var d := ack - s.snd.dataAck;
    if d > 0 {
      assert s.accepted[s.snd.dataAck - c.isn..][d..] == s.accepted[ack - c.isn..];
    }
  }

  lemma FullAckKeeps(c: Config, s: System, id: int, ack: int, window: int, confirm: bool)
    requires c.Valid() && Inv(c, s) && FullAck(id, ack, window) in s.net
    ensures var t := Apply(c, s, StepFullAck(id, ack, window, confirm)); Inv(c, t) && Later(s, t)
  {
    hide Flatten, Pending, FirstMissing, OnFullAck, SenderInv, ReceiverInv;
    assert MessageOk(c, s, FullAck(id, ack, window));
    MissingBelowCurr(c, s);
    FullAckSender(c, s, ack, window);
    NetStays(c, s, Apply(c, s, StepFullAck(id, ack, window, confirm)));
  }

  lemma {:induction false} NakSender(c: Config, s: System, rs: seq<(int, int)>)
    requires c.Valid() && SenderInv(c, s.snd, s.accepted)
    requires forall i :: 0 <= i < |rs| ==> c.isn <= rs[i].0 <= rs[i].1 <= s.snd.curr
    ensures var q := OnNak(s.snd, rs);
            && SenderInv(c, q, s.accepted)
            && q.curr == s.snd.curr && q.lastAck == s.snd.lastAck && q.dataAck == s.snd.dataAck && q.flow == s.snd.flow
    decreases |rs|
  {
    if rs != [] {
      var q := OnLossEntry(s.snd, rs[0]);
      assert forall x, a, b :: x in Range(a, b) ==> Between(a, x, b);
      NakSender(c, s.(snd := q), rs[1..]);
    }
  }

  lemma NakKeeps(c: Config, s: System, rs: seq<(int, int)>)
    requires c.Valid() && Inv(c, s) && Nak(rs) in s.net
    ensures var t := Apply(c, s, StepNak(rs)); Inv(c, t) && Later(s, t)
  {
    hide Flatten, Pending, FirstMissing, OnNak, SenderInv, ReceiverInv;
    assert MessageOk(c, s, Nak(rs));
    NakSender(c, s, rs);
    NetStays(c, s, Apply(c, s, StepNak(rs)));
  }

  lemma Ack2Keeps(c: Config, s: System, id: int, now: int)
    requires c.Valid() && Inv(c, s) && Ack2(id) in s.net
    ensures var t := Apply(c, s, StepAck2(id, now)); Inv(c, t) && Later(s, t)
  {
    hide Flatten, Pending, SenderInv, AckInv, OnAck2;
    assert MessageOk(c, s, Ack2(id));
    var t := Apply(c, s, StepAck2(id, now));
    Ack2Window(s.snd, s.rcv, s.acks, id, now);
    NetStays(c, s, t);
  }

  lemma Ack2Window(q: Sender, r: Receiver, acks: seq<int>, id: int, now: int)
    requires AckInv(r, acks) && 1 <= id <= |acks| && acks[id - 1] <= q.dataAck && r.lastAckAck <= q.dataAck
    requires (acks[id - 1] == q.lastAck || r.lastAckAck == q.lastAck) ==> q.flow >= 2
    ensures var u := OnAck2(r, id, now);
            && AckInv(u, acks) && u.lastAckAck <= q.dataAck
            && u == r.(window := u.window, lastAckAck := u.lastAckAck)
            && (u.lastAckAck == q.lastAck ==> q.flow >= 2)
  {
    var w := r.window;
    var i := Position(w, id);
    if i < |w| { assert w[i] in w; }
    assert forall e :: e in Acknowledged(w, id) ==> e in w;
  }

  lemma ExpireKeeps(c: Config, s: System)
    requires c.Valid() && Inv(c, s)
    ensures var t := Apply(c, s, StepExpire); Inv(c, t) && Later(s, t)
  {
    hide Flatten, Pending, FirstMissing, ReceiverInv;
    assert forall x :: x in Range(s.snd.lastAck, s.snd.curr) ==> Between(s.snd.lastAck, x, s.snd.curr);
    NetStays(c, s, Apply(c, s, StepExpire));
  }

  // ---- reading

  lemma InvReadable(c: Config, s: System)
    requires Inv(c, s)
    ensures Readable(s.rcv)
  {
    hide Flatten, Pending, SenderInv, AckInv, NetInv;
    FirstMissingIs(c, s.rcv);
    if s.rcv.start < s.rcv.lastAck {
      assert s.rcv.start in s.rcv.store;
    }
  }

  /** What a read leaves alone. */
  ghost predicate ReadFrame(r: Receiver, u: Receiver) {
    && u == r.(store := u.store, start := u.start, notch := u.notch)
    && u.store.Keys <= r.store.Keys && (forall x :: x in u.store ==> u.store[x] == r.store[x])
  }

  /** Reading returns the next pending bytes and leaves the rest pending. */
  lemma {:induction false} ReadReceiver(c: Config, r: Receiver, accepted: seq<Payload>, delivered: seq<Byte>, len: int)
    requires c.Valid() && ReceiverInv(c, r) && StreamInv(c, r, accepted, delivered) && Readable(r)
    requires StoreInv(c, r.store, accepted)
    ensures var (u, data) := Read(r, len);
            ReceiverInv(c, u) && ReadFrame(r, u) && StreamInv(c, u, accepted, delivered + data)
    decreases r.lastAck - r.start
  {
    hide ReceiverInv, StreamInv, StoreInv, Flatten, ReadFrame;
    if r.start >= r.lastAck || len <= 0 {
      assert delivered + [] == delivered;
      assert ReadFrame(r, r) by { FrameSelf(r); }
    } else {
      ReadOne(c, r, accepted, delivered, len);
      var unit := r.store[r.start][r.notch..];
      if len >= |unit| {
        var t := Consumed(r);
        ReadReceiver(c, t, accepted, delivered + unit, len - |unit|);
        var (u, rest) := Read(t, len - |unit|);
        assert delivered + (unit + rest) == delivered + unit + rest;
        FrameTrans(r, t, u);
      }
    }
  }

  ghost function Consumed(r: Receiver): Receiver {
    r.(store := r.store - {r.start}, start := r.start + 1, notch := 0)
  }

  lemma FrameSelf(r: Receiver)
    ensures ReadFrame(r, r)
  {
  }

  lemma FrameTrans(r: Receiver, t: Receiver, u: Receiver)
    requires ReadFrame(r, t) && ReadFrame(t, u)
    ensures ReadFrame(r, u)
  {
  }

  lemma ReadOne(c: Config, r: Receiver, accepted: seq<Payload>, delivered: seq<Byte>, len: int)
    requires c.Valid() && ReceiverInv(c, r) && StreamInv(c, r, accepted, delivered) && Readable(r)
    requires StoreInv(c, r.store, accepted) && r.start < r.lastAck && len > 0
    ensures var unit := r.store[r.start][r.notch..];
            if len >= |unit| then
              var t := Consumed(r);
              ReceiverInv(c, t) && Readable(t) && StreamInv(c, t, accepted, delivered + unit)
              && StoreInv(c, t.store, accepted) && ReadFrame(r, t)
            else
              var t := r.(notch := r.notch + len);
              ReceiverInv(c, t) && StreamInv(c, t, accepted, delivered + unit[..len]) && ReadFrame(r, t)
  {
    hide Flatten, StreamInv;
    var unit := r.store[r.start][r.notch..];
    if len >= |unit| { ConsumeStream(c, r, accepted, delivered); } else { PartStream(c, r, accepted, delivered, len); }
  }

  lemma ConsumeStream(c: Config, r: Receiver, accepted: seq<Payload>, delivered: seq<Byte>)
    requires ReceiverInv(c, r) && StreamInv(c, r, accepted, delivered) && Readable(r)
    requires StoreInv(c, r.store, accepted) && r.start < r.lastAck
    ensures StreamInv(c, Consumed(r), accepted, delivered + r.store[r.start][r.notch..])
  {
    var i := r.start - c.isn;
    assert r.start in r.store;
    assert accepted[i..][0] == accepted[i] && accepted[i..][1..] == accepted[i + 1..];
    assert Flatten(accepted[i..]) == accepted[i] + Flatten(accepted[i + 1..]);
    assert Flatten(accepted[i..])[r.notch..] == accepted[i][r.notch..] + Flatten(accepted[i + 1..]);
    assert Flatten(accepted[i + 1..])[0..] == Flatten(accepted[i + 1..]);
    assert r.start + 1 < r.lastAck ==> r.start + 1 in r.store;
  }

  lemma PartStream(c: Config, r: Receiver, accepted: seq<Payload>, delivered: seq<Byte>, len: int)
    requires ReceiverInv(c, r) && StreamInv(c, r, accepted, delivered) && Readable(r)
    requires StoreInv(c, r.store, accepted) && r.start < r.lastAck && 0 < len < |r.store[r.start][r.notch..]|
    ensures StreamInv(c, r.(notch := r.notch + len), accepted, delivered + r.store[r.start][r.notch..][..len])
  {
    var i := r.start - c.isn;
    var f := Flatten(accepted[i..]);
    assert accepted[i..][0] == accepted[i];
    assert f == accepted[i] + Flatten(accepted[i..][1..]);
    assert accepted[i][r.notch..][..len] == f[r.notch..][..len];
    assert f[r.notch..] == f[r.notch..][..len] + f[r.notch + len..];
  }

  lemma ReadKeeps(c: Config, s: System, len: int)
    requires c.Valid() && Inv(c, s) && Readable(s.rcv)
    ensures var t := Apply(c, s, StepRead(len)); Inv(c, t) && Later(s, t)
  {
    hide Flatten, StreamInv, Read, SenderInv;
    ReadReceiver(c, s.rcv, s.accepted, s.delivered, len);
    var t := Apply(c, s, StepRead(len));
    NetStays(c, s, t);
  }

  // ---------------------------------------------------------------- whole runs

  lemma InitInv(c: Config, flow: int)
    requires c.Valid() && 2 <= flow <= c.wmax
    ensures Inv(c, Init(c, flow))
  {
    hide Flatten, StreamInv, SenderInv, ReceiverInv, CrossInv, StoreInv, AckInv, NetInv;
    InitEnds(c, flow);
    InitBuffers(c, flow);
    InitNet(c, flow);
    InitStream(c, Init(c, flow).rcv);
  }

  lemma InitEnds(c: Config, flow: int)
    requires c.Valid() && 2 <= flow <= c.wmax
    ensures var s := Init(c, flow);
            SenderInv(c, s.snd, s.accepted) && CrossInv(s.snd, s.rcv)
  {
  }

  lemma InitBuffers(c: Config, flow: int)
    requires c.Valid()
    ensures var s := Init(c, flow);
            ReceiverInv(c, s.rcv) && StoreInv(c, s.rcv.store, s.accepted)
  {
  }

  lemma InitNet(c: Config, flow: int)
    requires c.Valid()
    ensures var s := Init(c, flow); AckInv(s.rcv, s.acks) && NetInv(c, s)
  {
  }

  lemma InitStream(c: Config, r: Receiver)
    requires r.start == r.lastAck == c.isn && r.notch == 0
    ensures StreamInv(c, r, [], [])
  {
    var none: seq<Payload> := [];
    assert none[0..] == none;
    assert Flatten(none) == [];
    hide Flatten;
  }

  /** Every enabled step keeps the invariant and moves every counter forward only. */
  lemma StepKeeps(c: Config, s: System, t: Step)
    requires c.Valid() && Inv(c, s) && Enabled(s, t)
    ensures Inv(c, Apply(c, s, t)) && Later(s, Apply(c, s, t))
  {
    hide Inv, Later, Apply;
    match t
    case StepAccept(data) => AcceptKeeps(c, s, data);
    case StepPack(cwnd) => PackKeeps(c, s, cwnd);
    case StepData(no, payload) => DataKeeps(c, s, no, payload);
    case StepLite => LiteKeeps(c, s);
    case StepFull(early, now) => FullKeeps(c, s, early, now);
    case StepLiteAck(ack) => LiteAckKeeps(c, s, ack);
    case StepFullAck(id, ack, window, confirm) => FullAckKeeps(c, s, id, ack, window, confirm);
    case StepNak(ranges) => NakKeeps(c, s, ranges);
    case StepAck2(id, now) => Ack2Keeps(c, s, id, now);
    case StepExpire => ExpireKeeps(c, s);
    case StepRead(len) => ReadKeeps(c, s, len);
  }

  /** `states` is a run: it starts initially and every step is an enabled one. */
  ghost predicate IsRun(c: Config, states: seq<System>, steps: seq<Step>)
    requires c.Valid()
  {
    && |states| == |steps| + 1
    && (exists flow: int :: 2 <= flow <= c.wmax && states[0] == Init(c, flow))
    && forall i :: 0 <= i < |steps| ==> StepFrom(c, states[i], steps[i], states[i + 1])
  }

  ghost predicate StepFrom(c: Config, s: System, t: Step, s': System)
    requires c.Valid()
  {
    Enabled(s, t) && s' == Apply(c, s, t)
  }

  lemma {:induction false} RunInv(c: Config, states: seq<System>, steps: seq<Step>, n: nat)
    requires c.Valid() && IsRun(c, states, steps) && n < |states|
    ensures Inv(c, states[n])
    decreases n
  {
    hide Inv, Later, Apply, Enabled;
    if n == 0 {
      var flow: int :| 2 <= flow <= c.wmax && states[0] == Init(c, flow);
      InitInv(c, flow);
    } else {
      RunInv(c, states, steps, n - 1);
      assert StepFrom(c, states[n - 1], steps[n - 1], states[n]);
      StepKeeps(c, states[n - 1], steps[n - 1]);
    }
  }

  /**
    Stream safety: at every moment of every run the bytes the receiver's
    application has read are a prefix of the bytes the sender's application
    handed over.
   */
  lemma DeliveredIsPrefix(c: Config, states: seq<System>, steps: seq<Step>, n: nat)
    requires c.Valid() && IsRun(c, states, steps) && n < |states|
    ensures states[n].delivered <= Flatten(states[n].accepted)
  {
    hide Flatten, SenderInv, ReceiverInv, NetInv;
    RunInv(c, states, steps, n);
  }

  /** No block is released by the sender before the receiver has it. */
  lemma ReleasedWasReceived(c: Config, states: seq<System>, steps: seq<Step>, n: nat, no: int)
    requires c.Valid() && IsRun(c, states, steps) && n < |states|
    requires c.isn <= no < states[n].snd.dataAck
    ensures no < states[n].rcv.start
            || (no in states[n].rcv.store && no - c.isn < |states[n].accepted|
                && states[n].rcv.store[no] == states[n].accepted[no - c.isn])
  {
    hide Flatten, Pending, NetInv, SenderInv;
    RunInv(c, states, steps, n);
    var s := states[n];
    FirstMissingIs(c, s.rcv);
    if s.rcv.start <= no { assert no in s.rcv.store; }
  }

  /** The branches for impossible acknowledgements and loss reports are never taken. */
  lemma NeverBroken(c: Config, states: seq<System>, steps: seq<Step>, n: nat)
    requires c.Valid() && IsRun(c, states, steps) && n < |states|
    ensures !states[n].snd.broken
  {
    hide Flatten, Pending, NetInv, ReceiverInv;
    RunInv(c, states, steps, n);
  }

  /** The order of all protocol counters, at every moment of every run. */
  lemma CountersOrdered(c: Config, states: seq<System>, steps: seq<Step>, n: nat)
    requires c.Valid() && IsRun(c, states, steps) && n < |states|
    ensures var q, r := states[n].snd, states[n].rcv; var f := FirstMissing(r);
            && c.isn <= q.dataAck <= q.lastAck <= f <= r.curr + 1 <= q.curr + 1
            && q.dataAck <= r.lastAck <= f
            && r.lastAckAck <= q.dataAck
  {
    hide Flatten, Pending, NetInv, StreamInv;
    RunInv(c, states, steps, n);
    FirstMissingIs(c, states[n].rcv);
  }

  /**
    Everything in flight and everything either loss list holds lies in one
    window, so the arrays of the loss lists and the comparisons of wrapped
    numbers are always within their limits; one buffer slot stays empty.
   */
  lemma WindowsBounded(c: Config, states: seq<System>, steps: seq<Step>, n: nat)
    requires c.Valid() && IsRun(c, states, steps) && n < |states|
    ensures var q, r := states[n].snd, states[n].rcv;
            && q.curr + 1 - q.dataAck <= c.wmax
            && (forall x :: x in q.loss ==> q.dataAck <= x <= q.curr)
            && (forall x :: x in r.loss ==> r.lastAck <= x < r.curr)
            && r.curr - r.start + 1 < c.size
            && q.curr - r.start < c.wmax + c.size
  {
    hide Flatten, Pending, NetInv, StreamInv;
    RunInv(c, states, steps, n);
    FirstMissingIs(c, states[n].rcv);
  }

  /** The receive buffer holds a packet exactly if it is not recorded as lost. */
  lemma BufferMatchesLossList(c: Config, states: seq<System>, steps: seq<Step>, n: nat, no: int)
    requires c.Valid() && IsRun(c, states, steps) && n < |states|
    requires states[n].rcv.lastAck <= no <= states[n].rcv.curr
    ensures no in states[n].rcv.store <==> no !in states[n].rcv.loss
  {
    hide Flatten, Pending, NetInv, StreamInv, SenderInv;
    RunInv(c, states, steps, n);
  }

  /** What a message in the network may carry. */
  lemma InFlight(c: Config, s: System, m: Message)
    requires c.Valid() && Inv(c, s) && m in s.net
    ensures match m
            case Data(no, _) => 0 <= no <= s.snd.curr
            case LiteAck(ack) => 0 <= ack <= s.snd.curr + 1
            case FullAck(id, ack, window) => 1 <= id <= s.rcv.ackId && 0 <= ack <= s.snd.curr + 1 && window <= c.wmax
            case Nak(ranges) => forall i :: 0 <= i < |ranges| ==> 0 <= ranges[i].0 <= ranges[i].1 <= s.snd.curr
            case Ack2(id) => 1 <= id <= s.rcv.ackId
  {
    hide Flatten, Pending, StreamInv;
    FirstMissingIs(c, s.rcv);
    assert MessageOk(c, s, m);
  }

  /**
    Whatever is in flight meets what the methods of `SenderEnd` and
    `ReceiverEnd` demand of a number that arrives, save that it be recent.
   */
  lemma ArrivalsAcceptable(c: Config, states: seq<System>, steps: seq<Step>, n: nat, m: Message)
    requires c.Valid() && IsRun(c, states, steps) && n < |states| && m in states[n].net
    ensures match m
            case Data(no, _) => 0 <= no <= states[n].snd.curr
            case LiteAck(ack) => 0 <= ack <= states[n].snd.curr + 1
            case FullAck(id, ack, window) =>
              1 <= id <= states[n].rcv.ackId && 0 <= ack <= states[n].snd.curr + 1 && window <= c.wmax
            case Nak(ranges) => forall i :: 0 <= i < |ranges| ==> 0 <= ranges[i].0 <= ranges[i].1 <= states[n].snd.curr
            case Ack2(id) => 1 <= id <= states[n].rcv.ackId
  {
    hide Inv, IsRun;
    RunInv(c, states, steps, n);
    InFlight(c, states[n], m);
  }
}
