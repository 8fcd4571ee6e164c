/**
  Reading messages, for every order of arrivals, acknowledgements and reads:
  each read returns one message as it was sent, no message twice, and one that
  must come in order only after all before it.
 */
module MessageSafety {
  import opened Streams
  import opened Messages

  // ---------------------------------------------------------------- what was sent

  /** The packets sent so far; the first has number `isn`. */
  datatype Sent = Sent(isn: int, us: seq<Unit>)

  predicate In(c: Sent, x: int) {
    0 <= x - c.isn < |c.us|
  }

  function U(c: Sent, x: int): Unit
    requires In(c, x)
  {
    c.us[x - c.isn]
  }

  /** A sequence of whole messages. */
  ghost predicate Frame(us: seq<Unit>, i: int)
    requires 0 <= i < |us|
  {
    us[i].begins <==> i == 0 || us[i - 1].ends
  }

  ghost predicate Framed(c: Sent) {
    && c.isn >= 0
    && (forall i :: 0 <= i < |c.us| ==> Frame(c.us, i))
    && (c.us != [] ==> c.us[|c.us| - 1].ends)
  }

  /** The first packet of the message that packet `x` belongs to. */
  function First(c: Sent, x: int): int
    requires In(c, x)
    decreases x - c.isn
  {
    if U(c, x).begins || x == c.isn then x else First(c, x - 1)
  }

  lemma {:induction false} FirstIs(c: Sent, x: int)
    requires Framed(c) && In(c, x)
    ensures c.isn <= First(c, x) <= x && U(c, First(c, x)).begins && First(c, First(c, x)) == First(c, x)
    ensures forall y :: First(c, x) <= y < x ==> !U(c, y).ends
    decreases x - c.isn
  {
    assert Frame(c.us, x - c.isn);
    if !U(c, x).begins && x != c.isn {
      FirstIs(c, x - 1);
    }
  }

  lemma FirstOfInner(c: Sent, x: int)
    requires Framed(c) && In(c, x)
    ensures !U(c, x).begins ==> In(c, x - 1) && First(c, x) == First(c, x - 1)
  {
    assert Frame(c.us, x - c.isn);
  }

  /** Between the first packet and an end, everything belongs to the message, and nothing after it does. */
  lemma {:induction false} SameMessage(c: Sent, h: int, y: int)
    requires Framed(c) && In(c, h) && In(c, y) && h <= y && U(c, h).begins
    ensures (forall z :: h <= z < y ==> !U(c, z).ends) ==> First(c, y) == h
    ensures forall z :: h <= z < y && U(c, z).ends ==> First(c, y) > z
    decreases y - h
  {
    if h < y {
      SameMessage(c, h, y - 1);
      FirstIs(c, y);
      assert Frame(c.us, y - c.isn);
      assert U(c, y - 1).ends || First(c, y) == First(c, y - 1);
    }
  }

  // ---------------------------------------------------------------- the invariant

  type Log = seq<(int, int)>

  ghost predicate Logged(log: Log, p: int) {
    exists k :: 0 <= k < |log| && log[k].0 == p
  }

  /** The buffer holds packets as they were sent, without gap up to the acknowledged position. */
  ghost predicate Holding(b: Buf, c: Sent) {
    && c.isn <= b.start <= b.ack && b.maxPos >= 0
    && (forall x :: b.start <= x < b.ack ==> x in b.store)
    && (forall x :: x in b.store ==> b.start <= x <= b.ack + b.maxPos && In(c, x) && b.store[x].u == U(c, x))
  }

  /** What was read is marked, or gone; nothing else is. */
  ghost predicate Tracking(b: Buf, c: Sent, log: Log) {
    && (forall x :: x in b.store && In(c, x) ==> (b.store[x].seen <==> Logged(log, First(c, x))))
    && (forall x :: In(c, x) && x < b.start ==> Logged(log, First(c, x)))
    && (forall x :: In(c, x) && b.start <= x && Logged(log, First(c, x)) ==> x in b.store)
  }

  ghost predicate Inv(b: Buf, c: Sent, log: Log) {
    Framed(c) && Holding(b, c) && Tracking(b, c, log) && (b.start > c.isn ==> In(c, b.start - 1))
  }

  // ---------------------------------------------------------------- skipping

  /** An unread packet at the start begins its message. */
  lemma StartBegins(b: Buf, c: Sent, log: Log)
    requires Inv(b, c, log) && Fresh(b, b.start)
    ensures In(c, b.start) && U(c, b.start).begins
  {
    hide Logged;
    FirstOfInner(c, b.start);
  }

  /** Unread as far as acknowledged. */
  lemma {:induction false} StartGood(b: Buf, c: Sent, log: Log, i: int)
    requires Inv(b, c, log) && b.start < b.ack && Fresh(b, b.start) && b.start <= i
    requires forall z :: b.start <= z < i ==> In(c, z) && !U(c, z).ends
    ensures Good(b, i)
    decreases b.ack - i
  {
    hide Logged;
    if i < b.ack {
      StartBegins(b, c, log);
      assert i in b.store && In(c, i);
      SameMessage(c, b.start, i);
      assert First(c, b.start) == b.start;
      if !b.store[i].u.ends { StartGood(b, c, log, i + 1); }
    }
  }

  /** Only packets of messages read before are freed. */
  lemma {:induction false} SkipKeeps(b: Buf, c: Sent, log: Log)
    requires Inv(b, c, log)
    ensures var d := Skip(b);
            && Inv(d, c, log) && d.ack == b.ack && d.maxPos == b.maxPos && b.start <= d.start
            && (d.start < d.ack ==> Fresh(d, d.start) && U(c, d.start).begins)
    decreases b.ack - b.start
  {
    hide Logged, Good, First;
    if b.start < b.ack {
      assert b.start in b.store;
      if Fresh(b, b.start) {
        StartBegins(b, c, log);
        StartGood(b, c, log, b.start);
      } else {
        SkipKeeps(b.(store := b.store - {b.start}, start := b.start + 1), c, log);
      }
    }
  }

  // ---------------------------------------------------------------- scanning

  /** `p` is no head, or the head of an unread message whose packets up to `q` are all there. */
  ghost predicate HeadOk(b: Buf, c: Sent, q: int, p: int) {
    p == -1 || (b.start <= p < q && In(c, p) && U(c, p).begins
                && forall x :: p <= x < q ==> Fresh(b, x) && In(c, x) && First(c, x) == p)
  }

  lemma HeadKeeps(b: Buf, c: Sent, log: Log, q: int, p: int)
    requires Inv(b, c, log) && HeadOk(b, c, q, p) && b.start <= q
    requires q == b.start && Fresh(b, q) ==> U(c, q).begins
    ensures HeadOk(b, c, q + 1, Head(b, q, p))
    ensures Head(b, q, p) != -1 ==> Fresh(b, q) && First(c, q) == Head(b, q, p)
  {
    hide Logged;
    if Fresh(b, q) {
      FirstOfInner(c, q);
    }
  }

  /** What the search finds is a whole unread message that may be read. */
  lemma {:induction false} ScanIs(b: Buf, c: Sent, log: Log, q: int, p: int, last: int)
    requires Inv(b, c, log) && HeadOk(b, c, q, p) && b.start <= q && last <= b.ack + b.maxPos
    requires q == b.start && Fresh(b, q) ==> U(c, q).begins
    ensures match Scan(b, q, p, last)
            case None => true
            case Message(h, e) =>
              && b.start <= h <= e && In(c, h) && In(c, e) && U(c, h).begins && U(c, e).ends && First(c, e) == h
              && (forall x :: h <= x <= e ==> Fresh(b, x) && In(c, x) && First(c, x) == h)
              && (e < b.ack || !U(c, e).order)
    decreases last - q
  {
    hide Logged, First, Inv;
    if q <= last {
      HeadKeeps(b, c, log, q, p);
      var h := Head(b, q, p);
      InStore(b, c, log, q);
      if !(Fresh(b, q) && b.store[q].u.ends && h != -1 && (q < b.ack || !b.store[q].u.order)) {
        ScanIs(b, c, log, q + 1, h, last);
      }
    }
  }

  lemma InStore(b: Buf, c: Sent, log: Log, x: int)
    requires Inv(b, c, log)
    ensures x in b.store ==> In(c, x) && b.store[x].u == U(c, x) && b.start <= x <= b.ack + b.maxPos
    ensures b.start >= 0
  {
  }

  /** An unread message that may be read, with all its packets in the buffer. */
  ghost predicate Deliverable(b: Buf, c: Sent, a: int, e: int) {
    && In(c, a) && In(c, e) && b.start <= a <= e && U(c, a).begins && U(c, e).ends && First(c, e) == a
    && (forall x :: a <= x <= e ==> Fresh(b, x))
    && (e < b.ack || !U(c, e).order)
  }

  /** The search stops at the first message that may be read. */
  lemma {:induction false} ScanFinds(b: Buf, c: Sent, log: Log, q: int, p: int, last: int, a: int, e: int)
    requires Inv(b, c, log) && Deliverable(b, c, a, e) && e <= last && q <= e
    requires a < q ==> p == a
    ensures Scan(b, q, p, last).Message? && Scan(b, q, p, last).q <= e
    decreases last - q
  {
    hide Logged, Inv;
    InStore(b, c, log, q);
    InStore(b, c, log, e);
    if a < q { InnerNotBegins(c, a, q, e); }
    var h := Head(b, q, p);
    if !(Fresh(b, q) && b.store[q].u.ends && h != -1 && (q < b.ack || !b.store[q].u.order)) {
      assert a == q ==> h == a;
      ScanFinds(b, c, log, q + 1, h, last, a, e);
    }
  }

  lemma InnerNotBegins(c: Sent, a: int, q: int, e: int)
    requires In(c, a) && In(c, e) && a < q <= e && First(c, e) == a
    ensures !U(c, q).begins
    decreases e - q
  {
    if q < e { InnerNotBegins(c, a, q, e - 1); }
  }

  // ---------------------------------------------------------------- reading

  /** The bytes of the packets `p` to `q`. */
  lemma {:induction false} BytesAre(b: Buf, c: Sent, p: int, q: int)
    requires forall x :: p <= x <= q ==> x in b.store && In(c, x) && b.store[x].u == U(c, x)
    ensures Bytes(b, p, q) == Content(c, p, q)
    decreases q - p
  {
    if p <= q { BytesAre(b, c, p + 1, q); }
  }

  /** The bytes of the packets `p` to `q` as they were sent. */
  function Content(c: Sent, p: int, q: int): seq<Byte>
    decreases q - p
  {
    if p > q then [] else (if In(c, p) then U(c, p).data else []) + Content(c, p + 1, q)
  }

  /** Taking the message `p..q` and recording it. */
  lemma TakenKeeps(b: Buf, c: Sent, log: Log, p: int, q: int)
    requires Inv(b, c, log) && In(c, p) && In(c, q) && b.start <= p <= q && U(c, p).begins && U(c, q).ends
    requires forall x :: p <= x <= q ==> Fresh(b, x) && In(c, x) && First(c, x) == p
    requires q < b.ack ==> p == b.start
    ensures Inv(Taken(b, p, q), c, log + [(p, q)])
  {
    hide Logged, First;
    LogGrows(log, p, q);
    forall x | In(c, x) ensures First(c, x) == p <==> p <= x <= q {
      FirstIs(c, x);
      if x > q { SameMessage(c, p, x); }
    }
  }

  lemma LogGrows(log: Log, p: int, q: int)
    ensures forall h :: Logged(log + [(p, q)], h) <==> Logged(log, h) || h == p
  {
    forall h ensures Logged(log + [(p, q)], h) <==> Logged(log, h) || h == p {
      if k :| 0 <= k < |log| && log[k].0 == h { assert (log + [(p, q)])[k].0 == h; }
      if h == p { assert (log + [(p, q)])[|log|].0 == h; }
    }
  }

  /** What one read returns. */
  ghost predicate ReadOk(c: Sent, log: Log, len: int, f: Found, data: seq<Byte>) {
    match f
    case None => data == []
    case Message(p, q) =>
      && In(c, p) && In(c, q) && p <= q && U(c, p).begins && U(c, q).ends && First(c, q) == p
      && data == Upto(Content(c, p, q), len)
      && !Logged(log, p)
      && (U(c, q).order ==> forall x :: In(c, x) && x < p ==> Logged(log, First(c, x)))
  }

  ghost function Recorded(log: Log, f: Found): Log {
    match f
    case None => log
    case Message(p, q) => log + [(p, q)]
  }

  /** An acknowledged message found is the one at the start. */
  lemma FoundAtStart(b: Buf, c: Sent, log: Log)
    requires Inv(b, c, log) && (b.start < b.ack ==> Fresh(b, b.start) && U(c, b.start).begins)
    ensures Find(b).Message? && Find(b).q < b.ack ==> Find(b).p == b.start
  {
    hide Logged, First, Inv;
    if Fresh(b, b.start) { StartBegins(b, c, log); }
    ScanIs(b, c, log, b.start, -1, b.ack + b.maxPos);
    if Find(b).Message? && Find(b).q < b.ack && Find(b).p > b.start {
      var e := EndBefore(b, c, log, Find(b).p);
      assert Fresh(b, e);
      InStore(b, c, log, e);
      ScanFinds(b, c, log, b.start, -1, b.ack + b.maxPos, b.start, e);
    }
  }

  /** Before the head of an acknowledged message ends the unread one at the start. */
  lemma EndBefore(b: Buf, c: Sent, log: Log, h: int) returns (e: int)
    requires Inv(b, c, log) && b.start < h < b.ack && Fresh(b, b.start) && U(c, b.start).begins && In(c, h)
             && U(c, h).begins
    ensures Deliverable(b, c, b.start, e) && e < h
  {
    e := b.start;
    while !U(c, e).ends
      invariant b.start <= e < h && In(c, e) && forall z :: b.start <= z < e ==> !U(c, z).ends
      decreases h - e
    {
      assert Frame(c.us, e + 1 - c.isn);
      e := e + 1;
      assert e in b.store;
    }
    forall x | b.start <= x <= e ensures Fresh(b, x) {
      assert x in b.store;
      SameMessage(c, b.start, x);
    }
    SameMessage(c, b.start, e);
  }

  /** Each read keeps the invariant and returns what it should. */
  lemma ReadKeeps(b: Buf, c: Sent, log: Log, len: int)
    requires Inv(b, c, log)
    ensures var (d, f, data) := ReadMsg(b, len); Inv(d, c, Recorded(log, f)) && ReadOk(c, log, len, f, data)
  {
    hide Inv, Logged, First, Find, Skip, Bytes, Taken;
    if !(b.start == b.ack && b.maxPos <= 0) {
      SkipKeeps(b, c, log);
      var d := Skip(b);
      FoundAtStart(d, c, log);
      FoundIs(d, c, log);
      if Find(d).Message? {
        TakenKeeps(d, c, log, Find(d).p, Find(d).q);
      }
    }
  }

  lemma FoundIs(b: Buf, c: Sent, log: Log)
    requires Inv(b, c, log) && (b.start < b.ack ==> Fresh(b, b.start) && U(c, b.start).begins)
    requires Find(b).Message? && Find(b).q < b.ack ==> Find(b).p == b.start
    ensures Find(b).Message? ==>
              var p, q := Find(b).p, Find(b).q;
              && In(c, p) && In(c, q) && b.start <= p <= q && U(c, p).begins && U(c, q).ends && First(c, q) == p
              && (forall x :: p <= x <= q ==> Fresh(b, x) && In(c, x) && First(c, x) == p)
              && Bytes(b, p, q) == Content(c, p, q)
              && !Logged(log, p)
              && (U(c, q).order ==> forall x :: In(c, x) && x < p ==> Logged(log, First(c, x)))
  {
    hide Logged, First;
    if Fresh(b, b.start) { StartBegins(b, c, log); }
    ScanIs(b, c, log, b.start, -1, b.ack + b.maxPos);
    if Find(b).Message? {
      BytesAre(b, c, Find(b).p, Find(b).q);
    }
  }

  /**
    A read finds nothing exactly if no unread message may be read; the one
    exception is a buffer whose only packet is at the acknowledged position.
   */
  lemma ReadFindsIff(b: Buf, c: Sent, log: Log, len: int)
    requires Inv(b, c, log)
    ensures ReadMsg(b, len).1.Message?
            <==> !(b.start == b.ack && b.maxPos <= 0) && exists a, e :: Deliverable(Skip(b), c, a, e)
  {
    hide Inv, Logged, First, Find, Skip, Deliverable;
    SkipKeeps(b, c, log);
    var d := Skip(b);
    FindsIff(d, c, log);
  }

  lemma FindsIff(b: Buf, c: Sent, log: Log)
    requires Inv(b, c, log)
    ensures Find(b).Message? <==> exists a, e :: Deliverable(b, c, a, e)
  {
    hide Inv, Logged, First;
    if Fresh(b, b.start) { StartBegins(b, c, log); }
    ScanIs(b, c, log, b.start, -1, b.ack + b.maxPos);
    if Find(b).Message? {
      assert Deliverable(b, c, Find(b).p, Find(b).q);
    }
    if a, e :| Deliverable(b, c, a, e) {
      assert Fresh(b, e);
      InStore(b, c, log, e);
      ScanFinds(b, c, log, b.start, -1, b.ack + b.maxPos, a, e);
    }
  }

  /** What a read finds may be read, and no message that may be read ends before it. */
  lemma ReadFindsFirst(b: Buf, c: Sent, log: Log, len: int)
    requires Inv(b, c, log)
    ensures match ReadMsg(b, len).1
            case None => true
            case Message(p, q) =>
              Deliverable(Skip(b), c, p, q) && forall a, e :: Deliverable(Skip(b), c, a, e) ==> q <= e
  {
    hide Inv, Logged, First, Find, Skip, Deliverable;
    SkipKeeps(b, c, log);
    FindsFirst(Skip(b), c, log);
  }

  /**
    A message read is freed if all of it is acknowledged, and the buffer begins
    behind it; otherwise all of it stays and is marked as read.
   */
  lemma ReadFreesIff(b: Buf, c: Sent, log: Log, len: int, x: int)
    requires Inv(b, c, log)
    ensures var (d, f, data) := ReadMsg(b, len); var s := Skip(b);
            && d.ack == b.ack
            && (f.Message? && f.q < b.ack ==> d.start == f.q + 1)
            && (f.Message? && f.q >= b.ack ==> d.start == s.start)
            && (f.Message? && f.p <= x <= f.q ==>
                  s.start <= f.p && x in s.store && (x in d.store <==> f.q >= b.ack)
                  && (x in d.store ==> d.store[x] == s.store[x].(seen := true)))
            && (f.Message? && !(f.p <= x <= f.q) ==>
                  (x in d.store <==> x in s.store) && (x in d.store ==> d.store[x] == s.store[x]))
  {
    hide Inv, Logged, First, Find, Skip;
    SkipKeeps(b, c, log);
    SkipAck(b);
    FindsFirst(Skip(b), c, log);
    var f := ReadMsg(b, len).1;
    assert f.Message? && f.p <= x <= f.q ==> Fresh(Skip(b), x);
  }

  lemma {:induction false} SkipAck(b: Buf)
    ensures Skip(b).ack == b.ack
    decreases b.ack - b.start
  {
    if b.start < b.ack {
      if b.start !in b.store {
        SkipAck(b.(start := b.start + 1));
      } else {
        SkipAck(b.(store := b.store - {b.start}, start := b.start + 1));
      }
    }
  }

  lemma FindsFirst(b: Buf, c: Sent, log: Log)
    requires Inv(b, c, log)
    ensures match Find(b)
            case None => true
            case Message(p, q) => Deliverable(b, c, p, q) && forall a, e :: Deliverable(b, c, a, e) ==> q <= e
  {
    hide Inv, Logged, First;
    if Fresh(b, b.start) { StartBegins(b, c, log); }
    ScanIs(b, c, log, b.start, -1, b.ack + b.maxPos);
    forall a, e | Deliverable(b, c, a, e) ensures Find(b).Message? && Find(b).q <= e {
      assert Fresh(b, e);
      InStore(b, c, log, e);
      ScanFinds(b, c, log, b.start, -1, b.ack + b.maxPos, a, e);
    }
  }

  // ---------------------------------------------------------------- whole runs

  /** The packets of one message. */
  function Packets(ps: seq<Payload>, order: bool): seq<Unit> {
    seq(|ps|, i requires 0 <= i < |ps| => Unit(ps[i], i == 0, i == |ps| - 1, order))
  }

  datatype World = World(b: Buf, c: Sent, log: Log)

  datatype Step =
    | StepSend(ps: seq<Payload>, order: bool)
    | StepArrive(x: int)
    | StepAck(len: int)
    | StepRead(len: int)

  /** Packets arrive that were sent and are not acknowledged; what is acknowledged has arrived without gap. */
  predicate Enabled(w: World, t: Step) {
    match t
    case StepSend(ps, _) => ps != []
    case StepArrive(x) => In(w.c, x) && w.b.ack <= x
    case StepAck(len) => len >= 0 && forall x :: w.b.ack <= x < w.b.ack + len ==> x in w.b.store
    case StepRead(len) => len >= 0
  }

  ghost function Apply(w: World, t: Step): World
    requires Enabled(w, t)
  {
    match t
    case StepSend(ps, order) => w.(c := w.c.(us := w.c.us + Packets(ps, order)))
    case StepArrive(x) => w.(b := Add(w.b, x - w.b.ack, U(w.c, x)))
    case StepAck(len) => w.(b := Ack(w.b, len))
    case StepRead(len) =>
      var (b, f, data) := ReadMsg(w.b, len);
      w.(b := b, log := Recorded(w.log, f))
  }

  lemma {:induction false} FirstStays(c: Sent, d: Sent, x: int)
    requires c.isn == d.isn && c.us <= d.us && In(c, x)
    ensures In(d, x) && U(d, x) == U(c, x) && First(d, x) == First(c, x)
    decreases x - c.isn
  {
    if !U(c, x).begins && x != c.isn { FirstStays(c, d, x - 1); }
  }

  lemma SendFramed(c: Sent, ps: seq<Payload>, order: bool)
    requires Framed(c) && ps != []
    ensures Framed(c.(us := c.us + Packets(ps, order)))
  {
    var us := c.us + Packets(ps, order);
    forall i | 0 <= i < |us| ensures Frame(us, i) {
      if i < |c.us| { assert Frame(c.us, i); }
    }
  }

  /** A packet of a new message belongs to no message read. */
  lemma NewUnread(c: Sent, d: Sent, log: Log, x: int, b: Buf)
    requires Inv(b, c, log) && Framed(d) && c.isn == d.isn && c.us < d.us && In(d, x) && !In(c, x)
    requires forall k :: 0 <= k < |log| ==> In(c, log[k].0)
    ensures !Logged(log, First(d, x))
  {
    var h := c.isn + |c.us|;
    assert Frame(d.us, |c.us|);
    assert d.us[|c.us|].begins;
    SameMessage(d, h, x);
    FirstIs(d, x);
    AfterHead(d, h, x);
  }

  lemma {:induction false} AfterHead(c: Sent, h: int, y: int)
    requires In(c, h) && In(c, y) && h <= y && U(c, h).begins
    ensures First(c, y) >= h
    decreases y - h
  {
    if h < y { AfterHead(c, h, y - 1); }
  }

  ghost predicate WorldInv(w: World) {
    Inv(w.b, w.c, w.log) && forall k :: 0 <= k < |w.log| ==> In(w.c, w.log[k].0)
  }

  lemma SendKeeps(w: World, ps: seq<Payload>, order: bool)
    requires WorldInv(w) && ps != []
    ensures WorldInv(Apply(w, StepSend(ps, order)))
  {
    hide Logged, First, Framed;
    var d := w.c.(us := w.c.us + Packets(ps, order));
    SendFramed(w.c, ps, order);
    forall x | In(w.c, x) ensures In(d, x) && U(d, x) == U(w.c, x) && First(d, x) == First(w.c, x) {
      FirstStays(w.c, d, x);
    }
    forall x | In(d, x) && !In(w.c, x) ensures !Logged(w.log, First(d, x)) { NewUnread(w.c, d, w.log, x, w.b); }
  }

  lemma ArriveKeeps(w: World, x: int)
    requires WorldInv(w) && In(w.c, x) && w.b.ack <= x
    ensures WorldInv(Apply(w, StepArrive(x)))
  {
    hide Logged, First, Framed;
  }

  lemma AckKeeps(w: World, len: int)
    requires WorldInv(w) && Enabled(w, StepAck(len))
    ensures WorldInv(Apply(w, StepAck(len)))
  {
    hide Logged, First, Framed;
  }

  lemma StepKeeps(w: World, t: Step)
    requires WorldInv(w) && Enabled(w, t)
    ensures WorldInv(Apply(w, t))
  {
    hide Inv, ReadMsg;
    match t
    case StepSend(ps, order) => SendKeeps(w, ps, order);
    case StepArrive(x) => ArriveKeeps(w, x);
    case StepAck(len) => AckKeeps(w, len);
    case StepRead(len) =>
      ReadKeeps(w.b, w.c, w.log, len);
  }

  ghost function Init(isn: int): World {
    World(Buf(isn, isn, map[], 0), Sent(isn, []), [])
  }

  ghost predicate IsRun(states: seq<World>, steps: seq<Step>) {
    && |states| == |steps| + 1
    && (exists isn :: isn >= 0 && states[0] == Init(isn))
    && forall i :: 0 <= i < |steps| ==> StepFrom(states[i], steps[i], states[i + 1])
  }

  ghost predicate StepFrom(w: World, t: Step, w': World) {
    Enabled(w, t) && w' == Apply(w, t)
  }

  lemma {:induction false} RunInv(states: seq<World>, steps: seq<Step>, n: nat)
    requires IsRun(states, steps) && n < |states|
    ensures WorldInv(states[n])
    decreases n
  {
    if n > 0 {
      RunInv(states, steps, n - 1);
      hide WorldInv, Apply, Enabled;
      assert StepFrom(states[n - 1], steps[n - 1], states[n]);
      StepKeeps(states[n - 1], steps[n - 1]);
    }
  }

  /**
    Whatever was sent, arrived, was acknowledged and read before: a read
    returns nothing or one message, exactly as it was sent if the space
    suffices; it was never returned before; and if it must come in order, all
    messages before it were.
   */
  lemma ReadsWholeMessages(states: seq<World>, steps: seq<Step>, n: nat, len: int)
    requires IsRun(states, steps) && n < |states|
    ensures var (b, f, data) := ReadMsg(states[n].b, len); ReadOk(states[n].c, states[n].log, len, f, data)
  {
    RunInv(states, steps, n);
    ReadKeeps(states[n].b, states[n].c, states[n].log, len);
  }

  /**
    The exception of `ReadFindsIff` does occur: the one packet sent arrives,
    may be read out of order, and a read finds nothing.
   */
  lemma ReadMissesLone(isn: int, d: Payload, len: int)
    requires isn >= 0 && len >= 0
    ensures var w0 := Init(isn); var t, u := StepSend([d], false), StepArrive(isn);
            && Enabled(w0, t)
            && var w1 := Apply(w0, t);
               Enabled(w1, u)
               && var w2 := Apply(w1, u);
                  && IsRun([w0, w1, w2], [t, u])
                  && Deliverable(Skip(w2.b), w2.c, isn, isn)
                  && ReadMsg(w2.b, len).1.None?
  {
    var w0 := Init(isn);
    var w1 := Apply(w0, StepSend([d], false));
    var w2 := Apply(w1, StepArrive(isn));
    assert w1.c.us == [Unit(d, true, true, false)];
    assert w2.b.store == map[isn := Held(w1.c.us[0], false)] && w2.b.maxPos == 0;
    assert First(w2.c, isn) == isn;
    assert StepFrom(w0, StepSend([d], false), w1) && StepFrom(w1, StepArrive(isn), w2);
  }

  // ---------------------------------------------------------------- the history of reads

  /** Entry `k` of the history is a message not read before; one that must come in order came after all before it. */
  ghost predicate EntryOk(c: Sent, log: Log, k: nat)
    requires k < |log|
  {
    var (p, q) := log[k];
    && In(c, p) && In(c, q) && p <= q && First(c, q) == p && !Logged(log[..k], p)
    && (U(c, q).order ==> forall x :: In(c, x) && x < p ==> Logged(log[..k], First(c, x)))
  }

  lemma EntryStays(c: Sent, log: Log, d: Sent, more: Log, k: nat)
    requires k < |log| && EntryOk(c, log, k) && c.isn == d.isn && c.us <= d.us && log <= more
    ensures EntryOk(d, more, k)
  {
    hide Logged;
    var (p, q) := log[k];
    assert more[..k] == log[..k];
    FirstStays(c, d, q);
    FirstStays(c, d, p);
    forall x | In(d, x) && x < p ensures In(c, x) && First(d, x) == First(c, x) { FirstStays(c, d, x); }
  }

  lemma {:induction false} HistoryOk(states: seq<World>, steps: seq<Step>, n: nat, k: nat)
    requires IsRun(states, steps) && n < |states| && k < |states[n].log|
    ensures EntryOk(states[n].c, states[n].log, k)
    decreases n
  {
    hide Logged, EntryOk, First, ReadMsg, WorldInv;
    if n > 0 {
      var w, w' := states[n - 1], states[n];
      assert StepFrom(w, steps[n - 1], w');
      if k < |w.log| {
        HistoryOk(states, steps, n - 1, k);
        EntryStays(w.c, w.log, w'.c, w'.log, k);
      } else {
        RunInv(states, steps, n - 1);
        NewEntry(w, steps[n - 1]);
      }
    }
  }

  lemma NewEntry(w: World, t: Step)
    requires WorldInv(w) && Enabled(w, t) && t.StepRead?
    ensures var w' := Apply(w, t); |w'.log| <= |w.log| + 1 && (|w'.log| > |w.log| ==> EntryOk(w'.c, w'.log, |w.log|))
  {
    hide Logged, First, ReadMsg, Inv;
    ReadKeeps(w.b, w.c, w.log, t.len);
    var (b, f, data) := ReadMsg(w.b, t.len);
    assert Recorded(w.log, f)[..|w.log|] == w.log;
  }

  /** No message is read twice, and those that must come in order come in the order they were sent. */
  lemma OnceAndInOrder(states: seq<World>, steps: seq<Step>, n: nat, j: nat, k: nat)
    requires IsRun(states, steps) && n < |states| && j < k < |states[n].log|
    ensures var w := states[n];
            && w.log[j].0 != w.log[k].0
            && In(w.c, w.log[j].1) && In(w.c, w.log[k].1)
            && (U(w.c, w.log[j].1).order && U(w.c, w.log[k].1).order ==> w.log[j].0 < w.log[k].0)
  {
    hide First;
    var w := states[n];
    HistoryOk(states, steps, n, j);
    HistoryOk(states, steps, n, k);
    HeadOfItself(w.c, w.log[k].1);
    var (p, q) := w.log[k];
    assert w.log[..k][j] == w.log[j];
    if Logged(w.log[..j], p) {
      var i :| 0 <= i < j && w.log[..j][i].0 == p;
      assert w.log[..k][i].0 == p;
    }
  }

  lemma {:induction false} HeadOfItself(c: Sent, x: int)
    requires In(c, x)
    ensures In(c, First(c, x)) && First(c, First(c, x)) == First(c, x)
    decreases x - c.isn
  {
    if !U(c, x).begins && x != c.isn { HeadOfItself(c, x - 1); }
  }
}
