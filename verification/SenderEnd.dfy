/**
  The sending half of a connection as the program keeps it: wrapped sequence
  numbers, the array loss list and the block ring.  Every method does to the
  unbounded view `Abs()` what the handler of the same name in `Transport` does,
  as long as what arrives is not older than half the number circle.
 */
module SenderEnd {
  import opened SeqNo
  import opened LossIntervals
  import opened LossReport
  import opened Streams
  import opened Transport
  import SL = SndLossList
  import SB = SndBuffer
  import Arith
  import Sets

  class SenderEnd {
    var sndLastAck: int
    var sndLastDataAck: int
    var sndCurrSeqNo: int
    var flowWindowSize: int
    var broken: bool
    const lossList: SL.SndLossList
    const buffer: SB.SndBuffer

    /** The unbounded numbers behind the wrapped ones, and the largest window ever granted. */
    ghost var lastAck: int
    ghost var dataAck: int
    ghost var curr: int
    ghost const wmax: int

    ghost function Abs(): Sender
      reads this, lossList, buffer
    {
      Sender(dataAck, lastAck, curr, lossList.Lost(), buffer.contents, buffer.pos, flowWindowSize, broken)
    }

    ghost predicate Parts()
      reads this, lossList, lossList.data1, lossList.data2, lossList.next, buffer, buffer.ring, buffer.buffers
    {
      lossList.Valid() && buffer.Valid()
    }

    /** The order of the counters and what the wrapped fields stand for. */
    ghost predicate Ordered()
      reads this, lossList, buffer
    {
      && 0 <= dataAck <= lastAck <= curr + 1 <= dataAck + wmax
      && buffer.pos == curr + 1 - dataAck
      && (forall x :: x in lossList.Lost() ==> dataAck <= x <= curr)
      && wmax <= lossList.size && wmax < SEQ_NO_TH / 2
      && sndLastAck == Wrap(lastAck) && sndLastDataAck == Wrap(dataAck) && Stands(sndCurrSeqNo, curr)
    }

    /** What may still be sent stays inside the largest window. */
    ghost predicate Counters()
      reads this, lossList, buffer
    {
      Ordered() && lastAck + flowWindowSize <= dataAck + wmax
    }

    ghost predicate Valid()
      reads this, lossList, lossList.data1, lossList.data2, lossList.next, buffer, buffer.ring, buffer.buffers
    {
      Parts() && Counters()
    }

    /** A number that arrives is recent enough to be compared. */
    ghost predicate Recent(n: int)
      reads this
    {
      n >= 0 && SeqNo.Abs(n - lastAck) < SEQ_NO_TH / 2
    }

    constructor (isn: int, payloadSize: int, flow: int, ghost w: int)
      requires 0 <= isn <= MAX_SEQ_NO && payloadSize > 0 && 0 < flow <= w <= 2 * flow < SEQ_NO_TH / 2
      ensures Valid() && wmax == w
      ensures Abs() == Sender(isn, isn, isn - 1, {}, [], 0, flow, false)
      ensures buffer.mss == payloadSize
      ensures fresh(lossList) && fresh(lossList.data1) && fresh(lossList.data2) && fresh(lossList.next)
      ensures fresh(buffer) && fresh(buffer.ring) && fresh(buffer.buffers)
    {
      hide SL.SndLossList.Valid, SB.SndBuffer.Valid;
      sndLastAck, sndLastDataAck, sndCurrSeqNo := isn, isn, isn - 1;
      flowWindowSize, broken := flow, false;
      lossList := new SL.SndLossList(2 * flow);
      buffer := new SB.SndBuffer(32, payloadSize);
      lastAck, dataAck, curr, wmax := isn, isn, isn - 1, w;
    }

    // ---------------------------------------------------------------- sending

    /**
      The application hands over data, as much as the buffer limit allows;
      returns how much was taken.  Either all is, or the buffer is full then;
      it is never filled beyond its limit.
     */
    method Send(data: seq<Byte>, sndBufSize: int) returns (taken: int)
      requires Valid() && sndBufSize > 0
      modifies buffer, buffer.ring, buffer.buffers
      ensures Valid() && 0 <= taken <= |data| && buffer.mss > 0
      ensures taken == Allowed(sndBufSize - |old(Abs()).blocks|, buffer.mss, |data|)
      ensures Abs() == Accept(old(Abs()), data[..taken], buffer.mss)
      ensures taken < |data| ==> |Abs().blocks| >= sndBufSize
      ensures |Abs().blocks| <= sndBufSize || |Abs().blocks| == |old(Abs()).blocks|
    {
      hide SL.SndLossList.Valid, SB.SndBuffer.Valid, Chunks, Allowed;
      BufferFacts();
      AllowedFills(sndBufSize - buffer.count, buffer.mss, data);
      if sndBufSize <= buffer.count || |data| == 0 {
        NoChunks(buffer.mss);
        return 0;
      }
      taken := Room(sndBufSize - buffer.count, buffer.mss, |data|);
      buffer.AddBuffer(data[..taken], false);
    }

    /** How many of `len` bytes `blocks` more blocks of `mss` bytes have room for. */
    static function Allowed(blocks: int, mss: int, len: int): int {
      if blocks <= 0 then 0 else if blocks * mss > len then len else blocks * mss
    }

    /** What is taken fits, and fills all blocks unless it is everything. */
    static lemma AllowedFills(blocks: int, mss: int, data: seq<Byte>)
      requires mss > 0
      ensures var taken := Allowed(blocks, mss, |data|);
              && 0 <= taken <= |data| && (blocks <= 0 ==> taken == 0) && (|data| == 0 ==> taken == 0)
              && var n := |Chunks(data[..taken], mss)|;
                 if blocks <= 0 then n == 0 else n <= blocks && (taken < |data| ==> n == blocks)
    {
      var taken := Allowed(blocks, mss, |data|);
      if blocks > 0 {
        Arith.NonNegative(blocks, mss);
        ChunksCount(data[..taken], mss);
        if blocks * mss > |data| {
          Arith.BelowMultiple(|data|, mss, blocks);
        } else {
          Arith.DivModUnique(mss, blocks, 0);
        }
      }
    }

    static method Room(blocks: int, mss: int, len: int) returns (taken: int)
      requires blocks > 0 && mss > 0 && len >= 0
      ensures taken == Allowed(blocks, mss, len)
      ensures 0 <= taken <= len
    {
      taken := blocks * mss;
      assert taken >= 0;
      if taken > len {
        taken := len;
      }
    }

    lemma BufferFacts()
      requires buffer.Valid()
      ensures buffer.mss > 0 && buffer.count == |buffer.contents| && 0 <= buffer.pos <= |buffer.contents|
    {
    }

    lemma NoChunks(mss: int)
      requires mss > 0
      ensures forall b: seq<Payload> :: b + Chunks([], mss) == b
    {
    }

    lemma LossFacts()
      requires lossList.Valid()
      ensures lossList.length == |lossList.Lost()|
      ensures lossList.length == 0 <==> lossList.Lost() == {}
    {
      hide SL.SndLossList.Valid, SL.SndLossList.Lost;
      lossList.CountLost();
    }

    /** What the wrapped fields say about the space between the counters. */
    lemma Spans()
      requires Counters()
      ensures IncSeq(sndCurrSeqNo) == Wrap(curr + 1)
      ensures SeqLen(sndLastAck, IncSeq(sndCurrSeqNo)) == curr + 1 - lastAck + 1
      ensures IncSeq(sndCurrSeqNo) == sndLastAck <==> curr + 1 == lastAck
      ensures forall x: int :: dataAck <= x <= curr ==> SeqOff(sndLastDataAck, Wrap(x)) == x - dataAck
      ensures lastAck <= curr ==> sndCurrSeqNo == Wrap(curr)
    {
      IncExact(curr);
      LenExact(lastAck, curr + 1);
      WrapInjective(lastAck, curr + 1);
      forall x: int | dataAck <= x <= curr ensures SeqOff(sndLastDataAck, Wrap(x)) == x - dataAck {
        OffExact(dataAck, x);
      }
    }

    /** The least lost packet goes out again; it is always still buffered. */
    method Retransmit(lost: int, ghost x: int) returns (payload: Payload)
      requires Parts() && dataAck <= x <= curr && lost == Wrap(x) && SeqOff(sndLastDataAck, lost) == x - dataAck
      requires buffer.pos == curr + 1 - dataAck
      ensures x - dataAck < |buffer.contents| && payload == buffer.contents[x - dataAck]
    {
      hide SL.SndLossList.Valid, SB.SndBuffer.Valid, Wrap, SeqOff;
      BufferFacts();
      // the offset is never negative: nothing before `dataAck` stays in the loss list
      var offset := SeqOff(sndLastDataAck, lost);
      var msg;
      payload, msg := buffer.ReadAt(offset);
    }

    /** A packet never sent before, if the window and the buffer have room for one. */
    method SendNew(cwnd: int) returns (sent: bool, seqno: int, payload: Payload)
      requires Valid() && lossList.Lost() == {}
      modifies this`sndCurrSeqNo, this`curr, buffer`curr, buffer`pos
      ensures Valid()
      ensures Transport.PackData(old(Abs()), cwnd) == (Abs(), if sent then Packet(curr, payload) else Nothing)
      ensures sent ==> seqno == Wrap(curr)
    {
      hide SL.SndLossList.Valid, SL.SndLossList.Lost, SB.SndBuffer.Valid, Wrap, SeqLen, SeqOff, IncSeq;
      Spans();
      BufferFacts();
      var window := if flowWindowSize < cwnd then flowWindowSize else cwnd;
      if window >= SeqLen(sndLastAck, IncSeq(sndCurrSeqNo)) {
        var ok, data, msg := buffer.ReadNext();
        if ok {
          sndCurrSeqNo := IncSeq(sndCurrSeqNo);
          curr := curr + 1;
          return true, sndCurrSeqNo, data;
        }
      }
      return false, 0, [];
    }

    /** The packet to send next: a lost one first, else a new one if the window allows. */
    method PackData(cwnd: int) returns (sent: bool, seqno: int, payload: Payload, ghost no: int)
      requires Valid()
      modifies this`sndCurrSeqNo, this`curr, lossList, lossList.data1, lossList.data2, lossList.next, buffer`curr
      modifies buffer`pos
      ensures Valid()
      ensures Transport.PackData(old(Abs()), cwnd) == (Abs(), if sent then Packet(no, payload) else Nothing)
      ensures sent ==> seqno == Wrap(no)
    {
      hide SL.SndLossList.Valid, SL.SndLossList.Lost, SB.SndBuffer.Valid, Wrap, SeqLen, SeqOff, IncSeq;
      Spans();
      ghost var before := lossList.Lost();
      var lost; ghost var x;
      lost, x := lossList.GetLostSeq();
      if lost >= 0 {
        LostIsLeast(before, x);
        payload := Retransmit(lost, x);
        return true, lost, payload, x;
      }
      sent, seqno, payload := SendNew(cwnd);
      no := curr;
    }

    lemma LostIsLeast(s: set<int>, x: int)
      requires s != {} ==> x in s && forall y :: y in s ==> x <= y
      ensures s != {} ==> Sets.Least(s) == x
    {
      if s != {} { Sets.LeastUnique(x, s); }
    }

    // ---------------------------------------------------------------- acknowledgements

    /** How an acknowledgement number compares with the counters. */
    lemma Reach(n: int)
      requires Ordered() && Recent(n)
      ensures SeqCmp(Wrap(n), sndLastAck) >= 0 <==> n >= lastAck
      ensures SeqCmp(Wrap(n), IncSeq(sndCurrSeqNo)) > 0 <==> n > curr + 1
      ensures SeqCmp(Wrap(n), sndCurrSeqNo) > 0 <==> n > curr
      ensures SeqOff(sndLastAck, Wrap(n)) == n - lastAck
      ensures SeqOff(sndLastDataAck, Wrap(n)) == n - dataAck
    {
      IncExact(curr);
      CmpSign(n, lastAck);
      CmpSign(n, curr + 1);
      CmpSignStands(n, sndCurrSeqNo, curr);
      OffExact(lastAck, n);
      OffExact(dataAck, n);
    }

    /**
      A lite acknowledgement of everything before `ack`, which stands for `n`.
      It is believed even if it is for numbers not sent yet.
     */
    method ProcessLiteAck(ack: int, ghost n: int)
      requires Valid() && Recent(n) && ack == Wrap(n)
      modifies this`flowWindowSize, this`sndLastAck, this`lastAck
      ensures Parts() && Abs() == OnLiteAck(old(Abs()), n) && (n <= curr + 1 ==> Valid())
      ensures sndLastAck == Wrap(lastAck)
    {
      hide SL.SndLossList.Valid, SL.SndLossList.Lost, SB.SndBuffer.Valid, Wrap, SeqCmp, SeqOff;
      Reach(n);
      if SeqCmp(ack, sndLastAck) >= 0 {
        flowWindowSize := flowWindowSize - SeqOff(sndLastAck, ack);
        sndLastAck := ack;
        lastAck := n;
      }
    }

    /** The blocks before `n` are released and forgotten as losses. */
    method ReleaseData(ack: int, ghost n: int)
      requires Parts() && Ordered() && Recent(n) && ack == Wrap(n) && n <= lastAck
      modifies this`sndLastDataAck, this`dataAck, lossList, lossList.data1, lossList.data2, lossList.next, buffer
      ensures Parts() && Ordered() && Abs() == Release(old(Abs()), n) && lastAck == old(lastAck)
      ensures dataAck == if n > old(dataAck) then n else old(dataAck)
    {
      hide SL.SndLossList.Valid, SL.SndLossList.Lost, SB.SndBuffer.Valid, Wrap, SeqCmp, SeqOff, DecSeq, Above;
      Reach(n);
      BufferFacts();
      var offset := SeqOff(sndLastDataAck, ack);
      if offset <= 0 {
        // a repeated acknowledgement
        return;
      }
      buffer.AckData(offset);
      sndLastDataAck := ack;
      DecExact(n);
      AboveIs(lossList.Lost(), n - 1);
      lossList.Remove(DecSeq(sndLastDataAck), n - 1);
      dataAck := n;
    }

    lemma AboveIs(s: set<int>, x: int)
      ensures forall y :: y in Above(s, x) <==> y in s && x < y
    {
    }

    /** The newest acknowledgement number and the window that came with it. */
    method Grant(ack: int, window: int, ghost n: int)
      requires Valid() && Recent(n) && ack == Wrap(n) && n <= curr + 1
      modifies this`flowWindowSize, this`sndLastAck, this`lastAck
      ensures Parts() && Ordered() && n <= lastAck && Recent(n)
      ensures Abs() == if n >= old(lastAck) then old(Abs()).(flow := window, lastAck := n) else old(Abs())
    {
      hide SL.SndLossList.Valid, SL.SndLossList.Lost, SB.SndBuffer.Valid, Wrap, SeqCmp, SeqOff, IncSeq;
      Reach(n);
      if SeqCmp(ack, sndLastAck) >= 0 {
        flowWindowSize := window;
        sndLastAck := ack;
        lastAck := n;
      }
    }

    /** A full acknowledgement of everything before `ack`, which stands for `n`, granting `window`. */
    method ProcessFullAck(ack: int, window: int, ghost n: int)
      requires Valid() && Recent(n) && ack == Wrap(n) && window <= wmax
      modifies this, lossList, lossList.data1, lossList.data2, lossList.next, buffer
      ensures Valid() && Abs() == OnFullAck(old(Abs()), n, window)
    {
      hide SL.SndLossList.Valid, SL.SndLossList.Lost, SB.SndBuffer.Valid, Wrap, SeqCmp, SeqOff, IncSeq, Above;
      Reach(n);
      if SeqCmp(ack, IncSeq(sndCurrSeqNo)) > 0 {
        Break();
        return;
      }
      Grant(ack, window, n);
      ReleaseData(ack, n);
    }

    // ---------------------------------------------------------------- losses

    /** What one entry `a..b` of a loss report means for the wrapped fields. */
    lemma EntryReach(a: int, b: int)
      requires Ordered() && Recent(a) && Recent(b)
      ensures SeqCmp(Wrap(a), Wrap(b)) > 0 <==> a > b
      ensures SeqCmp(Wrap(b), sndCurrSeqNo) > 0 <==> b > curr
      ensures SeqCmp(Wrap(a), sndLastAck) >= 0 <==> a >= lastAck
      ensures SeqCmp(Wrap(b), sndLastAck) >= 0 <==> b >= lastAck
      ensures a <= b <= curr && a >= lastAck ==> lossList.Fits(a, b)
      ensures lastAck <= b <= curr ==> lossList.Fits(lastAck, b)
    {
      hide SL.SndLossList.Lost, Wrap, SeqCmp, SeqOff, IncSeq;
      Reach(a);
      Reach(b);
      CmpSign(a, b);
    }

    /** Records the numbers `a..b`, which have been sent and are not acknowledged. */
    method Lose(seqno1: int, seqno2: int, ghost a: int, ghost b: int)
      requires Valid() && lossList.Fits(a, b) && lastAck <= a <= b <= curr
      requires seqno1 == Wrap(a) && seqno2 == Wrap(b)
      modifies lossList, lossList.data1, lossList.data2, lossList.next
      ensures Valid() && Abs() == old(Abs()).(loss := old(lossList.Lost()) + Range(a, b))
    {
      hide SL.SndLossList.Valid, SL.SndLossList.Lost, SL.SndLossList.Fits, SB.SndBuffer.Valid, Wrap, Range;
      RangeIs(a, b);
      var num := lossList.Insert(seqno1, seqno2, a, b);
    }

    /** A reported range; returns whether it is believable. */
    method ProcessRange(seqno1: int, seqno2: int, ghost a: int, ghost b: int) returns (secure: bool)
      requires Valid() && Recent(a) && Recent(b) && a != b && seqno1 == Wrap(a) && seqno2 == Wrap(b)
      modifies lossList, lossList.data1, lossList.data2, lossList.next
      ensures Valid() && !secure ==> Abs() == old(Abs())
      ensures Valid() && OnLossEntry(old(Abs()), (a, b)) == if secure then Abs() else Abs().(broken := true)
    {
      hide SL.SndLossList.Valid, SL.SndLossList.Lost, SL.SndLossList.Fits, SB.SndBuffer.Valid, Wrap, SeqCmp, Range;
      EntryReach(a, b);
      if SeqCmp(seqno1, seqno2) > 0 || SeqCmp(seqno2, sndCurrSeqNo) > 0 {
        return false;
      }
      if SeqCmp(seqno1, sndLastAck) >= 0 {
        Lose(seqno1, seqno2, a, b);
      } else if SeqCmp(seqno2, sndLastAck) >= 0 {
        Lose(sndLastAck, seqno2, lastAck, b);
      }
      secure := true;
    }

    /** A reported single number; returns whether it is believable. */
    method ProcessSingle(seqno: int, ghost a: int) returns (secure: bool)
      requires Valid() && Recent(a) && seqno == Wrap(a)
      modifies lossList, lossList.data1, lossList.data2, lossList.next
      ensures Valid() && !secure ==> Abs() == old(Abs())
      ensures Valid() && OnLossEntry(old(Abs()), (a, a)) == if secure then Abs() else Abs().(broken := true)
    {
      hide SL.SndLossList.Valid, SL.SndLossList.Lost, SL.SndLossList.Fits, SB.SndBuffer.Valid, Wrap, SeqCmp, Range;
      EntryReach(a, a);
      if SeqCmp(seqno, sndLastAck) >= 0 {
        if SeqCmp(seqno, sndCurrSeqNo) > 0 {
          return false;
        }
        Lose(seqno, seqno, a, a);
      }
      secure := true;
    }

    /** A loss report for the ranges `rs`, as coded on the wire. */
    method ProcessNak(words: seq<int>, ghost rs: Ranges)
      requires Valid() && !broken && words == Code(rs)
      requires forall r :: r in rs ==> Recent(r.0) && Recent(r.1)
      modifies this`broken, lossList, lossList.data1, lossList.data2, lossList.next
      ensures Valid() && Abs() == OnNak(old(Abs()), rs)
    {
      hide SL.SndLossList.Valid, SL.SndLossList.Lost, SB.SndBuffer.Valid, Counters, Wrap, OnLossEntry, Recent;
      var secure := true;
      var i := 0;
      ghost var k := 0;
      assert rs[0..] == rs;
      while i < |words| && secure
        invariant 0 <= i <= |words| && 0 <= k <= |rs|
        invariant Valid() && !broken && lastAck == old(lastAck)
        invariant secure ==> words[i..] == Code(rs[k..]) && OnNak(Abs(), rs[k..]) == OnNak(old(Abs()), rs)
        invariant !secure ==> Abs().(broken := true) == OnNak(old(Abs()), rs)
        invariant forall r :: r in rs ==> Recent(r.0) && Recent(r.1)
        decreases |words| - i, secure
      {
        CodeAt(words, i, rs, k);
        if words[i] >= FLAG {
          secure := ProcessRange(words[i] - FLAG, words[i + 1], rs[k].0, rs[k].1);
          i := i + 1;
        } else {
          secure := ProcessSingle(words[i], rs[k].0);
        }
        i := i + 1;
        k := k + 1;
      }
      if secure {
        CodeEmpty(words, rs[k..]);
      } else {
        Break();
      }
    }

    /** This should not happen: attack or bug. */
    method Break()
      requires Valid()
      modifies this`broken
      ensures Valid() && Abs() == old(Abs()).(broken := true)
    {
      hide SL.SndLossList.Valid, SL.SndLossList.Lost, SB.SndBuffer.Valid, Wrap;
      broken := true;
    }

    lemma CodeEmpty(words: seq<int>, rs: Ranges)
      requires words[|words|..] == Code(rs)
      ensures rs == []
    {
    }

    /** The words at `i` code the entry `k`. */
    lemma CodeAt(words: seq<int>, i: int, rs: Ranges, k: int)
      requires 0 <= i < |words| && 0 <= k <= |rs| && words[i..] == Code(rs[k..])
      ensures k < |rs| && rs[k..][0] == rs[k] && rs[k..][1..] == rs[k + 1..]
      ensures words[i] >= FLAG <==> rs[k].0 != rs[k].1
      ensures words[i] >= FLAG ==> i + 1 < |words| && words[i + 1] == Wrap(rs[k].1) && words[i] - FLAG == Wrap(rs[k].0)
      ensures words[i] >= FLAG ==> words[i + 2..] == Code(rs[k + 1..])
      ensures words[i] < FLAG ==> words[i] == Wrap(rs[k].0) && words[i + 1..] == Code(rs[k + 1..])
    {
      hide Wrap;
      var c := words[i..];
      assert rs[k..][1..] == rs[k + 1..];
      if rs[k].0 == rs[k].1 {
        assert c[1..] == words[i + 1..];
      } else {
        assert c[2..] == words[i + 2..];
        assert c[1] == words[i + 1];
      }
    }

    /** Nothing was heard for too long: everything in flight is taken for lost. */
    method Expire()
      requires Valid()
      modifies lossList, lossList.data1, lossList.data2, lossList.next
      ensures Valid() && Abs() == OnExpire(old(Abs()))
    {
      hide SL.SndLossList.Valid, SL.SndLossList.Lost, SL.SndLossList.Fits, SB.SndBuffer.Valid, Wrap, IncSeq, Range;
      hide SeqLen, SeqOff;
      Spans();
      BufferFacts();
      LossFacts();
      if buffer.count > 0 && IncSeq(sndCurrSeqNo) != sndLastAck && lossList.length == 0 {
        ExpireFits();
        Lose(sndLastAck, sndCurrSeqNo, lastAck, curr);
      }
    }

    lemma ExpireFits()
      requires Ordered() && lastAck <= curr
      ensures lossList.Fits(lastAck, curr)
      ensures lossList.Lost() == {} ==> lossList.Lost() + Range(lastAck, curr) == Range(lastAck, curr)
    {
    }
  }
}
