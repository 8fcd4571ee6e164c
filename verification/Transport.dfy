/**
  One sender and one receiver of the reliable transport as functions on
  unbounded sequence numbers: what each protocol handler does to the state and
  what it puts on the wire.  The classes of `SenderEnd` and `ReceiverEnd` do the
  same with wrapped numbers, loss-list arrays and buffers.  Only the last
  confirmed acknowledgement may lag without bound, so numbers are compared with
  it as the program does it, after wrapping.
 */
module Transport {
  import opened AckWindow
  import opened LossIntervals
  import opened SeqNo
  import opened Sets
  import opened Streams
  import RB = RcvBuffer

  // ---------------------------------------------------------------- messages

  datatype Message =
    | Data(no: int, payload: Payload)
    | LiteAck(ack: int)
    | FullAck(id: int, ack: int, window: int)
    | Nak(ranges: seq<(int, int)>)
    | Ack2(id: int)

  // ---------------------------------------------------------------- the sender

  /**
    `blocks` are the payloads accepted and not yet released, in order; the
    first of them has number `dataAck`; `next` is the first one never sent.
   */
  datatype Sender = Sender(
    dataAck: int,          // everything before is released
    lastAck: int,          // everything before is acknowledged, by any kind of ack
    curr: int,             // the last number sent
    loss: set<int>,        // numbers to be sent again
    blocks: seq<Payload>,
    next: int,
    flow: int,             // the window the receiver granted
    broken: bool)

  function Accept(s: Sender, data: seq<Byte>, mss: int): Sender
    requires mss > 0
  {
    s.(blocks := s.blocks + Chunks(data, mss))
  }

  datatype Sent = Nothing | Packet(no: int, payload: Payload)

  /** Sends a lost packet again or, inside the window of `cwnd` and `flow`, a new one. */
  ghost function PackData(s: Sender, cwnd: int): (Sender, Sent) {
    if s.loss != {} then
      var no := Least(s.loss);
      var s' := s.(loss := s.loss - {no});
      var offset := no - s.dataAck;
      if 0 <= offset < |s.blocks| then (s', Packet(no, s.blocks[offset])) else (s', Nothing)
    else if (if s.flow < cwnd then s.flow else cwnd) >= s.curr + 1 - s.lastAck + 1 && 0 <= s.next < |s.blocks| then
      (s.(curr := s.curr + 1, next := s.next + 1), Packet(s.curr + 1, s.blocks[s.next]))
    else (s, Nothing)
  }

  function OnLiteAck(s: Sender, ack: int): Sender {
    if ack >= s.lastAck then s.(flow := s.flow - (ack - s.lastAck), lastAck := ack) else s
  }

  /** A full acknowledgement of everything before `ack`. */
  ghost function OnFullAck(s: Sender, ack: int, window: int): Sender {
    if ack > s.curr + 1 then s.(broken := true)
    else
      var t := if ack >= s.lastAck then s.(flow := window, lastAck := ack) else s;
      Release(t, ack)
  }

  /** Releases the blocks before `ack`, unless they are released already. */
  ghost function Release(s: Sender, ack: int): Sender {
    var offset := ack - s.dataAck;
    if offset <= 0 then s
    else s.(blocks := if offset <= |s.blocks| then s.blocks[offset..] else [],
            next := s.next - offset, dataAck := ack, loss := Above(s.loss, ack - 1))
  }

  /** One entry of a loss report; the connection is broken when it claims something impossible. */
  ghost function OnLossEntry(s: Sender, r: (int, int)): Sender {
    var (a, b) := r;
    if a != b && (a > b || b > s.curr) then s.(broken := true)
    else if a == b && a >= s.lastAck && a > s.curr then s.(broken := true)
    else if a >= s.lastAck then s.(loss := s.loss + Range(a, b))
    else if b >= s.lastAck then s.(loss := s.loss + Range(s.lastAck, b))
    else s
  }

  /** A loss report, entry by entry, up to the first impossible one. */
  ghost function OnNak(s: Sender, rs: seq<(int, int)>): Sender
    decreases |rs|
  {
    if rs == [] || s.broken then s else OnNak(OnLossEntry(s, rs[0]), rs[1..])
  }

  /** Nothing was heard for too long: everything in flight is taken for lost. */
  ghost function OnExpire(s: Sender): Sender {
    if |s.blocks| > 0 && s.curr + 1 != s.lastAck && s.loss == {} then s.(loss := Range(s.lastAck, s.curr)) else s
  }

  // ---------------------------------------------------------------- the receiver

  /**
    `store` holds the packets received and not yet read; `start` is the number
    of the first of them still to be read, of which `notch` bytes are read already.
   */
  datatype Receiver = Receiver(
    lastAck: int,          // everything before is acknowledged and may be read
    lastAckAck: int,       // the last acknowledgement known to have arrived
    curr: int,             // the largest number received
    loss: set<int>,        // numbers known to be missing
    ackId: int,            // the number of the last full acknowledgement
    window: Window,        // the full acknowledgements not yet confirmed
    store: map<int, Payload>,
    start: int,
    notch: int)

  function Avail(r: Receiver, size: int): int {
    size - (r.lastAck - r.start) - 1
  }

  datatype Reply = Quiet | Report(a: int, b: int)

  ghost function OnData(r: Receiver, no: int, payload: Payload, size: int): (Receiver, Reply) {
    var offset := no - r.lastAck;
    if offset < 0 || offset >= Avail(r, size) || no in r.store then (r, Quiet)
    else
      var t := r.(store := r.store[no := payload]);
      if no > r.curr + 1 then
        (t.(loss := r.loss + Range(r.curr + 1, no - 1), curr := no), Report(r.curr + 1, no - 1))
      else if no > r.curr then (t.(curr := no), Quiet)
      else (t.(loss := r.loss - {no}), Quiet)
  }

  /** The first number not received: what an acknowledgement carries. */
  ghost function FirstMissing(r: Receiver): int {
    if r.loss == {} then r.curr + 1 else Least(r.loss)
  }

  datatype AckSent = NoAck | Lite(ack: int) | Full(id: int, ack: int, window: int)

  ghost function SendLiteAck(r: Receiver): AckSent {
    if Wrap(FirstMissing(r)) == Wrap(r.lastAckAck) then NoAck else Lite(FirstMissing(r))
  }

  /**
    The periodic full acknowledgement.  `early` tells that the last one was
    sent too recently to repeat it; `now` is the time stamp to record.
   */
  ghost function SendFullAck(r: Receiver, size: int, cap: int, early: bool, now: int): (Receiver, AckSent) {
    var ack := FirstMissing(r);
    if Wrap(ack) == Wrap(r.lastAckAck) || ack < r.lastAck || (ack == r.lastAck && early) then (r, NoAck)
    else
      var t := r.(lastAck := ack);
      if Ahead(t.lastAck, t.lastAckAck) then
        var avail := Avail(t, size);
        (t.(ackId := r.ackId + 1, window := Stored(r.window, cap, Entry(r.ackId + 1, ack, now))),
         Full(r.ackId + 1, ack, if avail < 2 then 2 else avail))
      else (t, NoAck)
  }

  /** The confirmation of acknowledgement `id` arrived at time `now`. */
  function OnAck2(r: Receiver, id: int, now: int): Receiver {
    var i := Position(r.window, id);
    if i == |r.window| then r
    else
      var e := r.window[i];
      var t := r.(window := Acknowledged(r.window, id));
      if now - e.time > 0 && Ahead(e.ack, r.lastAckAck) then t.(lastAckAck := e.ack) else t
  }

  /** The application reads up to `len` bytes of acknowledged data. */
  ghost function Read(r: Receiver, len: int): (Receiver, seq<Byte>)
    requires RB.Readable(r.store, r.start, r.lastAck, r.notch)
  {
    var t := RB.Take(r.store, r.start, r.lastAck, r.notch, len);
    (r.(store := t.store, start := t.start, notch := t.notch), t.data)
  }
}
