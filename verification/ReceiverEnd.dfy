/**
  The receiving half of a connection as the program keeps it: wrapped sequence
  numbers, the array loss list, the circular buffer and the acknowledgement
  window.  Every method does to the unbounded view `Abs()` what the handler of
  the same name in `Transport` does.
 */
module ReceiverEnd {
  import opened SeqNo
  import opened LossIntervals
  import opened LossReport
  import opened Streams
  import opened Transport
  import opened Sets
  import AW = AckWindow
  import RL = RcvLossList
  import RB = RcvBuffer

  // ---------------------------------------------------------------- the acknowledgement window, wrapped

  function WrapEntry(e: AW.Entry): AW.Entry {
    AW.Entry(Wrap(e.id), Wrap(e.ack), e.time)
  }

  /** `live` is what the program keeps of `log`. */
  ghost predicate Mirrors(live: AW.Window, log: AW.Window) {
    |live| == |log| && forall k :: 0 <= k < |log| ==> live[k] == WrapEntry(log[k])
  }

  /** The entries are consecutive, up to number `last`, and what they acknowledge ascends from `low` to `high`. */
  ghost predicate Consecutive(log: AW.Window, last: int, low: int, high: int) {
    && (forall k :: 0 <= k < |log| ==> log[k].id == last - |log| + 1 + k && low <= log[k].ack <= high)
    && (forall j, k :: 0 <= j < k < |log| ==> log[j].ack <= log[k].ack)
  }

  /** The wrapped number finds the same entry. */
  lemma SamePosition(live: AW.Window, log: AW.Window, last: int, low: int, high: int, id: int)
    requires Mirrors(live, log) && Consecutive(log, last, low, high)
    requires |log| < SEQ_NO_TH && last - SEQ_NO_TH < id <= last
    ensures AW.Position(live, Wrap(id)) == AW.Position(log, id)
  {
    hide Wrap;
    var i := AW.Position(log, id);
    forall k | 0 <= k < |log| ensures live[k].id == Wrap(id) <==> log[k].id == id {
      WrapInjective(log[k].id, id);
    }
    AW.PositionUnique(live, Wrap(id), i);
  }

  lemma StoredBoth(live: AW.Window, log: AW.Window, cap: int, e: AW.Entry, last: int, low: int, high: int)
    requires Mirrors(live, log) && Consecutive(log, last, low, high)
    requires e.id == last + 1 && low <= high <= e.ack
    ensures Mirrors(AW.Stored(live, cap, WrapEntry(e)), AW.Stored(log, cap, e))
    ensures Consecutive(AW.Stored(log, cap, e), last + 1, low, e.ack)
  {
    hide WrapEntry;
  }

  lemma AcknowledgedBoth(live: AW.Window, log: AW.Window, last: int, low: int, high: int, id: int)
    requires Mirrors(live, log) && Consecutive(log, last, low, high)
    requires |log| < SEQ_NO_TH && last - SEQ_NO_TH < id <= last
    ensures |live| == |log| && AW.Position(live, Wrap(id)) == AW.Position(log, id)
    ensures Mirrors(AW.Acknowledged(live, Wrap(id)), AW.Acknowledged(log, id))
    ensures Consecutive(AW.Acknowledged(log, id), last, low, high)
    ensures var i := AW.Position(log, id);
            i < |log| ==> (low <= log[i].ack <= high && live[i] == WrapEntry(log[i])
                           && Consecutive(AW.Acknowledged(log, id), last, log[i].ack, high))
  {
    hide Wrap, WrapEntry, Consecutive, Mirrors, AW.Position;
    SamePosition(live, log, last, low, high, id);
    MirrorsRest(live, log, AW.Position(log, id));
    if AW.Position(log, id) < |log| { Later(log, last, low, high, AW.Position(log, id)); }
  }

  lemma MirrorsRest(live: AW.Window, log: AW.Window, i: nat)
    requires Mirrors(live, log) && i <= |log|
    ensures |live| == |log|
    ensures i < |log| ==> live[i] == WrapEntry(log[i]) && Mirrors(live[i + 1..], log[i + 1..])
  {
    hide WrapEntry;
  }

  lemma Later(log: AW.Window, last: int, low: int, high: int, i: int)
    requires Consecutive(log, last, low, high) && 0 <= i < |log|
    ensures low <= log[i].ack <= high && Consecutive(log[i + 1..], last, log[i].ack, high)
    ensures Consecutive(log[i + 1..], last, low, high)
  {
  }

  /** What the confirmation with number `id` does. */
  ghost predicate Confirms(r: Receiver, t: Receiver, id: int, now: int) {
    && (forall n: int :: r.ackId - SEQ_NO_TH < n <= r.ackId && id == Wrap(n) ==> t == OnAck2(r, n, now))
    && ((forall k :: 0 <= k < |r.window| ==> Wrap(r.window[k].id) != id) ==> t == r)
  }

  /** The unbounded number of the entry that `id` finds, or one without an entry. */
  lemma MeantBy(live: AW.Window, log: AW.Window, last: int, low: int, high: int, id: int) returns (n: int)
    requires Mirrors(live, log) && Consecutive(log, last, low, high) && |log| < SEQ_NO_TH
    ensures |live| == |log| && AW.Position(live, id) == AW.Position(log, n)
    ensures Mirrors(AW.Acknowledged(live, id), AW.Acknowledged(log, n))
    ensures Consecutive(AW.Acknowledged(log, n), last, low, high)
    ensures var i := AW.Position(log, n);
            if i < |log| then
              low <= log[i].ack <= high && live[i] == WrapEntry(log[i]) && id == Wrap(n)
              && Consecutive(AW.Acknowledged(log, n), last, log[i].ack, high)
            else forall k :: 0 <= k < |log| ==> Wrap(log[k].id) != id
  {
    hide Wrap;
    var i := AW.Position(live, id);
    if i < |live| {
      n := log[i].id;
      AcknowledgedBoth(live, log, last, low, high, n);
    } else {
      n := last + 1;
      AW.PositionUnique(log, n, |log|);
      forall k | 0 <= k < |log| ensures Wrap(log[k].id) != id { assert live[k].id != id; }
    }
  }

  /** All recent numbers that `id` may stand for do the same. */
  lemma ConfirmsAll(r: Receiver, live: AW.Window, high: int, id: int, now: int, n: int)
    requires Mirrors(live, r.window) && Consecutive(r.window, r.ackId, r.lastAckAck, high) && |r.window| < SEQ_NO_TH
    requires AW.Position(live, id) == AW.Position(r.window, n)
    requires AW.Position(r.window, n) < |r.window| ==> id == Wrap(n)
    ensures Confirms(r, OnAck2(r, n, now), id, now)
  {
    hide Wrap, Ahead;
    forall m: int | r.ackId - SEQ_NO_TH < m <= r.ackId && id == Wrap(m)
      ensures OnAck2(r, m, now) == OnAck2(r, n, now)
    {
      SamePosition(live, r.window, r.ackId, r.lastAckAck, high, m);
    }
    if forall k :: 0 <= k < |r.window| ==> Wrap(r.window[k].id) != id {
      assert AW.Position(r.window, n) == |r.window|;
    }
  }

  // ---------------------------------------------------------------- reading

  /** What a read leaves in the buffer. */
  lemma {:induction false} TakeLeaves(store: map<int, Payload>, start: int, ack: int, notch: int, len: int)
    requires RB.Readable(store, start, ack, notch) && start <= ack
    requires start == ack ==> notch == 0
    ensures var t := RB.Take(store, start, ack, notch, len);
            && start <= t.start <= ack && (t.start == ack ==> t.notch == 0)
            && forall x :: x in t.store <==> x in store && !(start <= x < t.start)
    decreases ack - start
  {
    if start < ack && len > 0 {
      var unit := store[start][notch..];
      if len >= |unit| {
        TakeLeaves(store - {start}, start + 1, ack, 0, len - |unit|);
      }
    }
  }

  // ---------------------------------------------------------------- the receiver

  /** The buffer holds exactly the numbers received: those not in the loss list. */
  ghost predicate Held(start: int, ack: int, curr: int, loss: set<int>, store: map<int, Payload>) {
    && (forall x :: x in loss ==> ack <= x < curr)
    && (forall x :: x in store <==> start <= x <= curr && x !in loss)
  }

  /** The handler's result for a packet that is taken; the buffer and the loss list change together. */
  lemma Taken(r: Receiver, x: int, payload: Payload, size: int, loss: set<int>, c: int)
    requires Held(r.start, r.lastAck, r.curr, r.loss, r.store) && r.start <= r.lastAck <= r.curr + 1
             && RB.Readable(r.store, r.start, r.lastAck, r.notch)
    requires 0 <= x - r.lastAck < Avail(r, size) && x !in r.store
    requires c == if x > r.curr then x else r.curr
    requires loss == if x > r.curr + 1 then r.loss + Range(r.curr + 1, x - 1) else if x > r.curr then r.loss
             else r.loss - {x}
    ensures var t := r.(store := r.store[x := payload], loss := loss, curr := c);
            && Held(t.start, t.lastAck, t.curr, t.loss, t.store) && RB.Readable(t.store, t.start, t.lastAck, t.notch)
            && OnData(r, x, payload, size) == (t, if x > r.curr + 1 then Report(r.curr + 1, x - 1) else Quiet)
  {
    RangeIs(r.curr + 1, x - 1);
  }

  lemma Dropped(r: Receiver, x: int, payload: Payload, size: int)
    requires x < r.lastAck || x - r.lastAck >= Avail(r, size) || x in r.store
    ensures OnData(r, x, payload, size) == (r, Quiet)
  {
  }

  class ReceiverEnd {
    var rcvLastAck: int
    var rcvLastAckAck: int
    var rcvCurrSeqNo: int
    var ackSeqNo: int
    const lossList: RL.RcvLossList
    const buffer: RB.RcvBuffer
    const ackWindow: AW.AckWindow

    /** The unbounded numbers behind the wrapped ones. */
    ghost var lastAckAck: int
    ghost var curr: int
    ghost var ackId: int
    ghost var log: AW.Window

    ghost function Abs(): Receiver
      reads this, lossList, buffer
    {
      Receiver(buffer.ack, lastAckAck, curr, lossList.Lost(), ackId, log, buffer.store, buffer.start, buffer.notch)
    }

    /** The loss list and the acknowledgement window share no array. */
    ghost predicate Apart() {
      {lossList.data1, lossList.data2, lossList.next, lossList.prior}
          !! {ackWindow.ackSeqNo, ackWindow.ack, ackWindow.timeStamp}
    }

    ghost predicate Parts()
      reads this, lossList, lossList.data1, lossList.data2, lossList.next, lossList.prior
      reads buffer, buffer.units, ackWindow, ackWindow.ackSeqNo, ackWindow.ack, ackWindow.timeStamp
    {
      lossList.Valid() && buffer.Valid() && ackWindow.Valid() && Apart()
    }

    /** What the wrapped fields stand for, and the window everything lies in. */
    ghost predicate Counters()
      reads this, buffer
    {
      && rcvLastAck == Wrap(buffer.ack) && rcvLastAckAck == Wrap(lastAckAck) && Stands(rcvCurrSeqNo, curr)
      && 0 <= buffer.start <= buffer.ack <= curr + 1 <= buffer.start + buffer.size - 1
      && 0 <= lastAckAck <= buffer.ack
      && ackSeqNo == Wrap(ackId) && ackId >= 0
      && buffer.size <= lossList.size && buffer.size < SEQ_NO_TH / 2
      && RB.Readable(buffer.store, buffer.start, buffer.ack, buffer.notch)
      && (buffer.start == buffer.ack ==> buffer.notch == 0)
    }

    ghost predicate Exact()
      reads this, buffer, lossList
    {
      Held(buffer.start, buffer.ack, curr, lossList.Lost(), buffer.store)
    }

    ghost predicate Logged()
      reads this`log, this`ackId, this`lastAckAck, buffer`ack, ackWindow`live
    {
      && Mirrors(ackWindow.live, log) && Consecutive(log, ackId, lastAckAck, buffer.ack)
      && ackWindow.size < SEQ_NO_TH
    }

    ghost predicate Valid()
      reads this, lossList, lossList.data1, lossList.data2, lossList.next, lossList.prior
      reads buffer, buffer.units, ackWindow, ackWindow.ackSeqNo, ackWindow.ack, ackWindow.timeStamp
    {
      Parts() && Counters() && Exact() && Logged()
    }

    /** A number that arrives is recent enough to be compared. */
    ghost predicate Recent(n: int)
      reads this, buffer
    {
      n >= 0 && SeqNo.Abs(n - buffer.ack) < SEQ_NO_TH / 2
    }

    constructor (isn: int, bufSize: int, lossSize: int, ackSize: int)
      requires 0 <= isn <= MAX_SEQ_NO && 1 < bufSize <= lossSize <= SEQ_NO_TH && bufSize < SEQ_NO_TH / 2
      requires 0 < ackSize < SEQ_NO_TH
      ensures Valid() && buffer.size == bufSize && ackWindow.size == ackSize
      ensures Abs() == Receiver(isn, isn, isn - 1, {}, 0, [], map[], isn, 0)
      ensures fresh(lossList) && fresh(lossList.data1) && fresh(lossList.data2) && fresh(lossList.next)
              && fresh(lossList.prior)
      ensures fresh(ackWindow) && fresh(ackWindow.ackSeqNo) && fresh(ackWindow.ack) && fresh(ackWindow.timeStamp)
      ensures fresh(buffer) && fresh(buffer.units)
    {
      hide RL.RcvLossList.Valid, RB.RcvBuffer.Valid, AW.AckWindow.Valid;
      rcvLastAck, rcvLastAckAck, rcvCurrSeqNo, ackSeqNo := isn, isn, isn - 1, 0;
      lossList := new RL.RcvLossList(lossSize);
      buffer := new RB.RcvBuffer(bufSize, isn);
      ackWindow := new AW.AckWindow(ackSize);
      lastAckAck, curr, ackId, log := isn, isn - 1, 0, [];
    }

    // ---------------------------------------------------------------- data

    lemma BufferFacts()
      requires buffer.Valid()
      ensures buffer.size > 0 && buffer.start <= buffer.ack < buffer.start + buffer.size
    {
    }

    /** How a data packet's number compares with the largest received. */
    lemma Reach(x: int)
      requires Stands(rcvCurrSeqNo, curr) && curr >= -1 && x >= 0 && SeqNo.Abs(x - curr) < SEQ_NO_TH - 1
      ensures IncSeq(rcvCurrSeqNo) == Wrap(curr + 1) && DecSeq(Wrap(x)) == Wrap(x - 1)
      ensures SeqCmp(Wrap(x), IncSeq(rcvCurrSeqNo)) > 0 <==> x > curr + 1
      ensures SeqCmp(Wrap(x), rcvCurrSeqNo) > 0 <==> x > curr
      ensures Wrap(curr + 1) == Wrap(x - 1) <==> curr + 1 == x - 1
    {
      hide SeqCmp, IncSeq, DecSeq, Wrap;
      IncExact(curr);
      DecExact(x);
      CmpSign(x, curr + 1);
      CmpSignStands(x, rcvCurrSeqNo, curr);
      WrapInjective(curr + 1, x - 1);
    }

    /** The numbers skipped by packet `x` become losses; returns their report. */
    method DetectLoss(seqno: int, ghost x: int) returns (report: seq<int>)
      requires lossList.Valid() && SkipFits(x)
      requires IncSeq(rcvCurrSeqNo) == Wrap(curr + 1) && DecSeq(seqno) == Wrap(x - 1)
      requires Wrap(curr + 1) == Wrap(x - 1) <==> curr + 1 == x - 1
      modifies lossList, lossList.data1, lossList.data2, lossList.next, lossList.prior
      ensures lossList.Valid() && lossList.Lost() == old(lossList.Lost()) + Range(curr + 1, x - 1)
      ensures report == Code([(curr + 1, x - 1)]) && report != []
    {
      hide RL.RcvLossList.Valid, RL.RcvLossList.Lost, Wrap, IncSeq, DecSeq, Range;
      lossList.Insert(IncSeq(rcvCurrSeqNo), DecSeq(seqno), curr + 1, x - 1);
      assert [(curr + 1, x - 1)][1..] == [];
      // a single number is reported alone, without the flag of a range
      if IncSeq(rcvCurrSeqNo) == DecSeq(seqno) {
        report := [DecSeq(seqno)];
      } else {
        report := [IncSeq(rcvCurrSeqNo) + FLAG, DecSeq(seqno)];
      }
    }

    ghost predicate SkipFits(x: int)
      reads this, lossList
    {
      lossList.Fits(curr + 1, x - 1)
    }

    /** Records that packet `x` arrived: what it skips is lost, what it fills is lost no more. */
    method Account(seqno: int, ghost x: int) returns (report: seq<int>)
      requires lossList.Valid() && seqno == Wrap(x) && lossList.Near(x) && (x > curr + 1 ==> SkipFits(x))
      requires Stands(rcvCurrSeqNo, curr) && curr >= -1 && x >= 0 && SeqNo.Abs(x - curr) < SEQ_NO_TH - 1
      modifies this`rcvCurrSeqNo, this`curr, lossList, lossList.data1, lossList.data2, lossList.next, lossList.prior
      ensures lossList.Valid() && Stands(rcvCurrSeqNo, curr) && curr == if x > old(curr) then x else old(curr)
      ensures lossList.Lost() == if x > old(curr) + 1 then old(lossList.Lost()) + Range(old(curr) + 1, x - 1)
                                 else if x > old(curr) then old(lossList.Lost()) else old(lossList.Lost()) - {x}
      ensures if x > old(curr) + 1 then report == Code([(old(curr) + 1, x - 1)]) && report != [] else report == []
    {
      hide RL.RcvLossList.Valid, RL.RcvLossList.Lost, RL.RcvLossList.Near, Wrap, SeqCmp, IncSeq, DecSeq, Code, SkipFits;
      report := [];
      Reach(x);
      if SeqCmp(seqno, IncSeq(rcvCurrSeqNo)) > 0 {
        report := DetectLoss(seqno, x);
      }
      if SeqCmp(seqno, rcvCurrSeqNo) > 0 {
        rcvCurrSeqNo := seqno;
        curr := x;
      } else {
        var found := lossList.Remove(seqno, x);
      }
    }

    /** A packet that fits into the buffer can be accounted for. */
    lemma Accountable(x: int)
      requires Counters() && Exact() && buffer.ack <= x < buffer.start + buffer.size - 1
      ensures lossList.Near(x) && (x > curr + 1 ==> SkipFits(x))
      ensures curr >= -1 && x >= 0 && SeqNo.Abs(x - curr) < SEQ_NO_TH - 1
    {
      hide RL.RcvLossList.Lost, Wrap;
    }

    /** A packet in the range of the buffer is stored and accounted for, unless its slot is taken. */
    method Store(seqno: int, payload: Payload, offset: int, ghost x: int) returns (report: seq<int>)
      requires Valid() && seqno == Wrap(x) && offset == x - buffer.ack && 0 <= offset < Avail(Abs(), buffer.size)
      modifies this`rcvCurrSeqNo, this`curr, lossList, lossList.data1, lossList.data2, lossList.next, lossList.prior
      modifies buffer`maxPos, buffer`store, buffer.units
      ensures Valid()
      ensures OnData(old(Abs()), x, payload, buffer.size)
              == (Abs(), if report == [] then Quiet else Report(old(curr) + 1, x - 1))
      ensures report != [] ==> report == Code([(old(curr) + 1, x - 1)])
    {
      hide RL.RcvLossList.Valid, RL.RcvLossList.Lost, RL.RcvLossList.Near, RB.RcvBuffer.Valid, AW.AckWindow.Valid;
      hide Wrap, Code, Logged, SkipFits, Range, OnData, Held, RB.Readable;
      ghost var r := Abs();
      Accountable(x);
      var ok := buffer.AddData(payload, offset);
      if !ok {
        Dropped(r, x, payload, buffer.size);
        return [];
      }
      report := Account(seqno, x);
      Taken(r, x, payload, buffer.size, lossList.Lost(), curr);
    }

    /** A data packet with number `seqno`, which stands for `x`; returns the loss report to send, if any. */
    method ProcessData(seqno: int, payload: Payload, ghost x: int) returns (report: seq<int>)
      requires Valid() && Recent(x) && seqno == Wrap(x)
      modifies this`rcvCurrSeqNo, this`curr, lossList, lossList.data1, lossList.data2, lossList.next, lossList.prior
      modifies buffer`maxPos, buffer`store, buffer.units
      ensures Valid()
      ensures OnData(old(Abs()), x, payload, buffer.size)
              == (Abs(), if report == [] then Quiet else Report(old(curr) + 1, x - 1))
      ensures report != [] ==> report == Code([(old(curr) + 1, x - 1)])
    {
      hide RL.RcvLossList.Valid, RL.RcvLossList.Lost, RL.RcvLossList.Near, RB.RcvBuffer.Valid, AW.AckWindow.Valid;
      hide Wrap, SeqOff, Code, Exact, Range, OnData;
      OffExact(buffer.ack, x);
      BufferFacts();
      ghost var r := Abs();
      var offset := SeqOff(rcvLastAck, seqno);
      var avail := buffer.GetAvailBufSize();
      if offset < 0 || offset >= avail {
        Dropped(r, x, payload, buffer.size);
        return [];
      }
      report := Store(seqno, payload, offset, x);
    }

    // ---------------------------------------------------------------- acknowledgements

    /** What an acknowledgement carries: the first number missing. */
    method AckNumber() returns (ack: int, ghost n: int)
      requires lossList.Valid() && Stands(rcvCurrSeqNo, curr) && curr >= -1
      ensures n == FirstMissing(Abs()) && ack == Wrap(n)
    {
      hide RL.RcvLossList.Valid, RL.RcvLossList.Lost, Wrap, IncSeq, RB.RcvBuffer.Valid;
      LossFacts();
      if lossList.length == 0 {
        IncExact(curr);
        return IncSeq(rcvCurrSeqNo), curr + 1;
      }
      ack, n := lossList.GetFirstLostSeq();
      LeastUnique(n, lossList.Lost());
    }

    lemma LossFacts()
      requires lossList.Valid()
      ensures lossList.length == 0 <==> lossList.Lost() == {}
    {
      hide RL.RcvLossList.Valid, RL.RcvLossList.Lost;
      lossList.CountLost();
    }

    /** How the next acknowledgement number compares with the last one. */
    lemma AckReach(n: int)
      requires Counters() && Exact() && n == FirstMissing(Abs())
      ensures buffer.ack <= n <= curr + 1
      ensures Wrap(n) == rcvLastAck <==> n == buffer.ack
      ensures SeqCmp(Wrap(n), rcvLastAck) > 0 <==> n > buffer.ack
      ensures SeqOff(rcvLastAck, Wrap(n)) == n - buffer.ack
      ensures forall x :: buffer.ack <= x < n ==> x in buffer.store
      ensures forall x :: x in lossList.Lost() ==> n <= x
    {
      hide RL.RcvLossList.Lost, Wrap, SeqCmp, SeqOff;
      WrapInjective(n, buffer.ack);
      CmpSign(n, buffer.ack);
      OffExact(buffer.ack, n);
    }

    /** A lite acknowledgement carries nothing but the number. */
    method SendLiteAck() returns (sent: bool, ack: int, ghost n: int)
      requires Valid()
      ensures Transport.SendLiteAck(Abs()) == if sent then Lite(n) else NoAck
      ensures n == FirstMissing(Abs()) && ack == Wrap(FirstMissing(Abs()))
    {
      hide RL.RcvLossList.Valid, RL.RcvLossList.Lost, RB.RcvBuffer.Valid, AW.AckWindow.Valid, Wrap, SeqCmp, SeqOff;
      hide FirstMissing;
      ack, n := AckNumber();
      sent := ack != rcvLastAckAck;
    }

    /** Everything before `ack` may be read from now on. */
    method Advance(ack: int, ghost n: int)
      requires Valid() && n == FirstMissing(Abs()) && ack == Wrap(n) && n > buffer.ack
      modifies this`rcvLastAck, buffer`lastAckPos, buffer`maxPos, buffer`ack
      ensures Valid() && Abs() == old(Abs()).(lastAck := n)
    {
      hide RL.RcvLossList.Valid, RL.RcvLossList.Lost, RB.RcvBuffer.Valid, AW.AckWindow.Valid, Wrap, SeqCmp, SeqOff;
      hide FirstMissing, Consecutive, Mirrors;
      AckReach(n);
      BufferFacts();
      Higher(log, ackId, lastAckAck, buffer.ack, n);
      var acksize := SeqOff(rcvLastAck, ack);
      rcvLastAck := ack;
      buffer.AckData(acksize);
    }

    static lemma Higher(w: AW.Window, last: int, low: int, high: int, top: int)
      requires Consecutive(w, last, low, high) && high <= top
      ensures Consecutive(w, last, low, top)
    {
    }

    /** Numbers and records a full acknowledgement sent at time `now`; returns the window it grants. */
    method Announce(now: int) returns (id: int, window: int)
      requires Valid()
      modifies this`ackSeqNo, this`ackId, this`log, ackWindow, ackWindow.ackSeqNo, ackWindow.ack, ackWindow.timeStamp
      ensures Valid() && id == Wrap(ackId)
      ensures Abs() == old(Abs()).(ackId := old(ackId) + 1,
                window := AW.Stored(old(log), ackWindow.size - 1, AW.Entry(old(ackId) + 1, buffer.ack, now)))
      ensures window == if Avail(Abs(), buffer.size) < 2 then 2 else Avail(Abs(), buffer.size)
    {
      hide RL.RcvLossList.Valid, RL.RcvLossList.Lost, RB.RcvBuffer.Valid, AW.AckWindow.Valid, Wrap, IncSeq;
      hide Held, RB.Readable, Mirrors, Consecutive, AW.Stored;
      IncExact(ackId);
      StoredBoth(ackWindow.live, log, ackWindow.size - 1, AW.Entry(ackId + 1, buffer.ack, now),
                 ackId, lastAckAck, buffer.ack);
      ackSeqNo := IncSeq(ackSeqNo);
      window := buffer.GetAvailBufSize();
      // a window of at least 2 is granted even when the buffer is full
      if window < 2 {
        window := 2;
      }
      ackWindow.Store(ackSeqNo, rcvLastAck, now);
      log := AW.Stored(log, ackWindow.size - 1, AW.Entry(ackId + 1, buffer.ack, now));
      ackId := ackId + 1;
      id := ackSeqNo;
    }

    /** The periodic full acknowledgement. */
    method SendFullAck(early: bool, now: int) returns (sent: bool, id: int, ack: int, window: int)
      requires Valid()
      modifies this`rcvLastAck, this`ackSeqNo, this`ackId, this`log, buffer`lastAckPos, buffer`maxPos, buffer`ack
      modifies ackWindow, ackWindow.ackSeqNo, ackWindow.ack, ackWindow.timeStamp
      ensures Valid()
      ensures Transport.SendFullAck(old(Abs()), buffer.size, ackWindow.size - 1, early, now)
              == (Abs(), if sent then Full(ackId, buffer.ack, window) else NoAck)
      ensures sent ==> id == Wrap(ackId) && ack == Wrap(buffer.ack)
    {
      hide RL.RcvLossList.Valid, RL.RcvLossList.Lost, RB.RcvBuffer.Valid, AW.AckWindow.Valid, Wrap, IncSeq, SeqCmp;
      hide SeqOff;
      hide Held, RB.Readable, Logged, FirstMissing, AW.Stored;
      ghost var n;
      sent, id, window := false, 0, 0;
      ack, n := AckNumber();
      AckReach(n);
      if ack == rcvLastAckAck {
        return;
      }
      if SeqCmp(ack, rcvLastAck) > 0 {
        Advance(ack, n);
      } else if ack == rcvLastAck {
        if early {
          return;
        }
      } else {
        return;
      }
      if SeqCmp(rcvLastAck, rcvLastAckAck) > 0 {
        id, window := Announce(now);
        sent := true;
      }
    }

    /**
      The confirmation of an acknowledgement.  A number that was never used, or
      not recently, does nothing (`Confirms`).
     */
    method ProcessAck2(id: int, now: int)
      requires Valid()
      modifies this`rcvLastAckAck, this`lastAckAck, this`log, ackWindow, ackWindow.ackSeqNo
      ensures Valid() && Confirms(old(Abs()), Abs(), id, now)
    {
      hide RL.RcvLossList.Valid, RL.RcvLossList.Lost, RB.RcvBuffer.Valid, AW.AckWindow.Valid, Wrap, SeqCmp;
      hide Held, RB.Readable, Mirrors, Consecutive, AW.Position, Confirms;
      WindowFits();
      ghost var n := MeantBy(ackWindow.live, log, ackId, lastAckAck, buffer.ack, id);
      ConfirmsAll(Abs(), ackWindow.live, buffer.ack, id, now, n);
      ghost var i := AW.Position(log, n);
      var found, ack, rtt := ackWindow.Acknowledge(id, now);
      log := AW.Acknowledged(log, n);
      if rtt <= 0 {
        return;
      }
      if SeqCmp(ack, rcvLastAckAck) > 0 {
        rcvLastAckAck := ack;
        lastAckAck := old(log)[i].ack;
      }
    }

    lemma WindowFits()
      requires Parts() && Logged()
      ensures |log| < SEQ_NO_TH
    {
    }

    // ---------------------------------------------------------------- reading

    /** The application reads up to `len` bytes. */
    method Recv(len: int) returns (data: seq<Byte>)
      requires Valid()
      modifies buffer`startPos, buffer`notch, buffer`start, buffer`store, buffer.units
      ensures Valid() && Read(old(Abs()), len) == (Abs(), data)
    {
      hide RL.RcvLossList.Valid, RL.RcvLossList.Lost, RB.RcvBuffer.Valid, AW.AckWindow.Valid, Wrap, Logged, RB.Take;
      TakeLeaves(buffer.store, buffer.start, buffer.ack, buffer.notch, len);
      data := buffer.ReadBuffer(len);
    }
  }
}
