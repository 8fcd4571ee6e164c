/**
  Message mode of the receive buffer in its circular array of slots.  `b` is
  the buffer over unbounded packet numbers; the methods do to it what the
  functions of `Messages` do.
 */
module MsgBuffer {
  import opened Streams
  import opened Messages
  import RB = RcvBuffer
  import S = MessageSafety

  datatype Slot = Empty | Full(h: Held)

  function Content(store: map<int, Held>, x: int): Slot {
    if x in store then Full(store[x]) else Empty
  }

  /** The slots hold exactly the packets of `store`, one turn from `start` on. */
  ghost predicate Holds(us: seq<Slot>, startPos: int, start: int, store: map<int, Held>) {
    && 0 <= startPos < |us|
    && forall x :: start <= x < start + |us| ==> us[RB.Index(|us|, startPos, start, x)] == Content(store, x)
  }

  lemma PutHolds(us: seq<Slot>, startPos: int, start: int, store: map<int, Held>, y: int, h: Held)
    requires Holds(us, startPos, start, store) && start <= y < start + |us|
    ensures Holds(us[RB.Index(|us|, startPos, start, y) := Full(h)], startPos, start, store[y := h])
  {
  }

  lemma DropHolds(us: seq<Slot>, startPos: int, start: int, store: map<int, Held>, y: int)
    requires Holds(us, startPos, start, store) && start <= y < start + |us|
    ensures Holds(us[RB.Index(|us|, startPos, start, y) := Empty], startPos, start, store - {y})
  {
  }

  /** The window moves on past `k` empty slots. */
  lemma MoveHolds(us: seq<Slot>, startPos: int, start: int, store: map<int, Held>, k: nat)
    requires Holds(us, startPos, start, store) && k < |us|
    requires forall x :: x in store ==> start + k <= x < start + |us|
    ensures Holds(us, RB.Index(|us|, startPos, start, start + k), start + k, store)
  {
    var n, p := |us|, RB.Index(|us|, startPos, start, start + k);
    forall x | start + k <= x < start + k + n ensures us[RB.Index(n, p, start + k, x)] == Content(store, x) {
      if x < start + n {
        assert RB.Index(n, p, start + k, x) == RB.Index(n, startPos, start, x);
      } else {
        assert RB.Index(n, p, start + k, x) == RB.Index(n, startPos, start, x - n);
      }
    }
  }

  class MsgBuffer {
    const size: int
    const units: array<Slot>
    var startPos: int
    var lastAckPos: int
    var maxPos: int

    ghost var b: Buf

    ghost function Pos(x: int): int
      reads this
    {
      RB.Index(size, startPos, b.start, x)
    }

    /** The counters, and where the packets lie: one slot always stays empty. */
    ghost predicate Bounds()
      reads this
    {
      && size > 1 && 0 <= startPos < size && b.start <= b.ack < b.start + size
      && lastAckPos == Pos(b.ack) && maxPos == b.maxPos >= 0 && b.ack + b.maxPos < b.start + size
      && forall x :: x in b.store ==> b.start <= x <= b.ack + b.maxPos && x < b.start + size - 1
    }

    ghost predicate Valid()
      reads this, units
    {
      units.Length == size && Bounds() && Holds(units[..], startPos, b.start, b.store)
    }

    constructor (n: int, isn: int)
      requires n > 1
      ensures Valid() && size == n && b == Buf(isn, isn, map[], 0) && fresh(units)
    {
      size := n;
      units := new Slot[n](_ => Empty);
      startPos, lastAckPos, maxPos := 0, 0, 0;
      b := Buf(isn, isn, map[], 0);
    }

    lemma SlotAt(x: int)
      requires Valid() && b.start <= x < b.start + size
      ensures 0 <= Pos(x) < size && units[Pos(x)] == Content(b.store, x)
      ensures units[Pos(x)].Full? && !units[Pos(x)].h.seen <==> Fresh(b, x)
      ensures Pos(x + 1) == if Pos(x) + 1 == size then 0 else Pos(x) + 1
    {
      assert units[Pos(x)] == units[..][Pos(x)];
    }

    lemma SamePos(x: int, y: int)
      requires Bounds() && b.start <= x < b.start + size && b.start <= y < b.start + size
      ensures Pos(x) == Pos(y) <==> x == y
    {
    }

    /** Puts a packet `offset` places after the acknowledged position, unless one is there. */
    method AddData(u: Unit, offset: int) returns (ok: bool)
      requires Valid() && 0 <= offset && b.ack + offset < b.start + size - 1
      modifies this`maxPos, this`b, units
      ensures Valid() && b == Add(old(b), offset, u)
      ensures ok <==> b.ack + offset !in old(b).store
    {
      hide Holds;
      ghost var x := b.ack + offset;
      SlotAt(x);
      RB.IndexMod(size, startPos, b.start, b.ack, offset);
      PutHolds(units[..], startPos, b.start, b.store, x, Held(u, false));
      var pos := (lastAckPos + offset) % size;
      if offset > maxPos {
        maxPos := offset;
        b := b.(maxPos := offset);
      }
      if units[pos] != Empty {
        return false;
      }
      units[pos] := Full(Held(u, false));
      b := b.(store := b.store[x := Held(u, false)]);
      ok := true;
    }

    /** The acknowledged position moves on by `len` packets, all of which are there. */
    method AckData(len: int)
      requires Valid() && 0 <= len && forall x :: b.ack <= x < b.ack + len ==> x in b.store
      modifies this`lastAckPos, this`maxPos, this`b
      ensures Valid() && b == Ack(old(b), len)
    {
      hide Holds;
      if len > 0 { assert b.ack + len - 1 in b.store; }
      RB.IndexMod(size, startPos, b.start, b.ack, len);
      lastAckPos := (lastAckPos + len) % size;
      maxPos := maxPos - len;
      if maxPos < 0 {
        maxPos := 0;
      }
      b := Ack(b, len);
    }

    // -------------------------------------------------------------- scanning

    /** Looks ahead from the start to the end of the first message, or to what is acknowledged. */
    method LookAhead() returns (good: bool)
      requires Valid()
      ensures good == Good(b, b.start)
    {
      hide Holds, RB.Index;
      var i := startPos;
      ghost var x := b.start;
      StartPos();
      while i != lastAckPos
        invariant b.start <= x <= b.ack && i == Pos(x) && 0 <= i < size
        invariant i == lastAckPos <==> x == b.ack
        invariant Good(b, b.start) == Good(b, x)
        decreases b.ack - x
      {
        SlotAt(x);
        if units[i] == Empty || units[i].h.seen {
          return false;
        }
        if units[i].h.u.ends {
          return true;
        }
        i := i + 1;
        if i == size {
          i := 0;
        }
        x := x + 1;
        SamePos(x, b.ack);
      }
      good := true;
    }

    lemma StartPos()
      requires Valid()
      ensures Pos(b.start) == startPos && units.Length == size && b.start <= b.ack < b.start + size
              && 0 <= startPos < size
      ensures startPos == lastAckPos <==> b.start == b.ack
    {
      SamePos(b.start, b.ack);
    }

    /** Empties the first slot and moves on. */
    method FreeStart()
      requires Valid() && b.start < b.ack
      modifies this`startPos, this`b, units
      ensures Valid() && b == old(b).(store := old(b).store - {old(b).start}, start := old(b).start + 1)
      ensures b.start <= b.ack
    {
      hide Holds;
      StartPos();
      SlotAt(b.start);
      DropHolds(units[..], startPos, b.start, b.store, b.start);
      ghost var us := units[..][startPos := Empty];
      MoveHolds(us, startPos, b.start, b.store - {b.start}, 1);
      units[startPos] := Empty;
      startPos := startPos + 1;
      if startPos == size {
        startPos := 0;
      }
      b := b.(store := b.store - {b.start}, start := b.start + 1);
    }

    /** Frees what cannot start a message to be read. */
    method SkipBad()
      requires Valid()
      modifies this`startPos, this`b, units
      ensures Valid() && b == Skip(old(b))
    {
      hide Holds, RB.Index, Good;
      StartPos();
      while startPos != lastAckPos
        invariant Valid() && Skip(b) == Skip(old(b)) && (startPos == lastAckPos <==> b.start == b.ack)
        decreases b.ack - b.start
      {
        StartPos();
        SlotAt(b.start);
        if units[startPos] != Empty && !units[startPos].h.seen && units[startPos].h.u.begins {
          var good := LookAhead();
          if good {
            break;
          }
        }
        GoneIfAbsent();
        FreeStart();
        StartPos();
      }
    }

    lemma GoneIfAbsent()
      ensures b.start !in b.store ==> b.store - {b.start} == b.store
    {
    }

    /** The slot of a head, or -1. */
    ghost function HeadPos(p: int): int
      reads this
    {
      if p == -1 then -1 else Pos(p)
    }

    /** The slot becomes the head of a message, keeps the head before it, or breaks the message off. */
    method NextHead(q: int, p: int, ghost h: int, ghost x: int) returns (p': int, ghost h': int)
      requires Valid() && b.start <= x < b.start + size && q == Pos(x) && b.start >= 0
      requires p == HeadPos(h) && (h == -1 || b.start <= h < x)
      ensures h' == Head(b, x, h) && p' == HeadPos(h') && (p' == -1 <==> h' == -1)
      ensures h' != -1 ==> Fresh(b, x)
    {
      hide Holds, RB.Index;
      SlotAt(x);
      if h != -1 { SlotAt(h); }
      if units[q] != Empty && !units[q].h.seen {
        return if units[q].h.u.begins then q else p, Head(b, x, h);
      }
      return -1, -1;
    }

    /** The end of the acknowledged part is met exactly at its number. */
    lemma AckPos(x: int)
      requires Valid() && b.start < x <= b.start + size
      ensures Pos(x) == lastAckPos <==> x == b.ack || (x == b.start + size && b.start == b.ack)
    {
    }

    /** How many acknowledged packets wait to be read. */
    method DataSize() returns (n: int)
      requires Valid()
      ensures n == b.ack - b.start
    {
      if lastAckPos >= startPos {
        return lastAckPos - startPos;
      }
      return size + lastAckPos - startPos;
    }

    /** Looks for the first whole message that may be read. */
    method Search() returns (found: bool, p: int, q: int, passack: bool, ghost f: Found, ghost h: int)
      requires Valid() && b.start >= 0
      ensures f == Find(b) && (found <==> f.Message?)
      ensures found ==> b.start <= f.q < b.start + size && p == HeadPos(f.p) && q == Pos(f.q)
                        && (passack <==> f.q >= b.ack)
      ensures !found ==> passack && p == HeadPos(h)
      ensures !found ==> q == Pos(b.ack + b.maxPos + 1)
      ensures !found ==> h == -1 || b.start <= h <= b.ack + b.maxPos
      ensures !found && h != -1 ==> forall x :: h <= x <= b.ack + b.maxPos ==> Fresh(b, x)
    {
      hide Holds, RB.Index;
      StartPos();
      p := -1;
      q := startPos;
      passack := startPos == lastAckPos;
      found := false;
      h := -1;
      ghost var x := b.start;
      var used := DataSize();
      var i, n := 0, maxPos + used;
      while i <= n
        invariant 0 <= i <= n + 1 && x == b.start + i && n == b.ack + b.maxPos - b.start && !found
        invariant q == Pos(x) && 0 <= q < size && p == HeadPos(h) && (passack <==> x >= b.ack)
        invariant h == -1 || (b.start <= h < x && forall y :: h <= y < x ==> Fresh(b, y))
        invariant Scan(b, x, h, b.ack + b.maxPos) == Find(b)
      {
        SlotAt(x);
        p, h := NextHead(q, p, h, x);
        if units[q] != Empty && !units[q].h.seen && units[q].h.u.ends && p != -1 {
          // acknowledged, or allowed to be read out of order
          if !passack || !units[q].h.u.order {
            return true, p, q, passack, Message(h, x), h;
          }
        }
        q := q + 1;
        if q == size {
          q := 0;
        }
        x := x + 1;
        AckPos(x);
        if q == lastAckPos {
          passack := true;
        }
        i := i + 1;
      }
      f := None;
    }

    /**
      Finds the first whole message that may be read.  A message larger than
      the buffer is found, too, but as the empty range from `p` to `p`.
     */
    method ScanMsg() returns (found: bool, p: int, q: int, passack: bool, ghost f: Found)
      requires Valid() && b.start >= 0
      modifies this`startPos, this`b, units
      ensures Valid()
      ensures b == if old(b.start == b.ack && b.maxPos <= 0) then old(b) else Skip(old(b))
      ensures f == if old(b.start == b.ack && b.maxPos <= 0) then None else Find(b)
      ensures f.Message? ==>
                found && b.start <= f.q < b.start + size && p == HeadPos(f.p) && q == Pos(f.q)
                && (passack <==> f.q >= b.ack)
      ensures found && f.None? ==> passack && p == (q + 1) % size
    {
      hide Holds, RB.Index, Find, Skip;
      p, q, passack, f := -1, 0, true, None;
      // empty buffer
      StartPos();
      if startPos == lastAckPos && maxPos <= 0 {
        return false, p, q, passack, f;
      }
      SkipForward(b);
      SkipBad();
      ghost var h;
      found, p, q, passack, f, h := Search();
      if !found {
        // a message larger than the buffer
        if p != -1 && (q + 1) % size == p {
          found := true;
        }
      }
    }

    static lemma {:induction false} SkipForward(b: Buf)
      ensures Skip(b).start >= b.start
      decreases b.ack - b.start
    {
      hide Good;
      if b.start < b.ack {
        SkipForward(b.(start := b.start + 1));
        SkipForward(b.(store := b.store - {b.start}, start := b.start + 1));
      }
    }

    // -------------------------------------------------------------- reading

    /** The packets `h` to `e` gone, or marked as read. */
    static function Left(b: Buf, h: int, e: int, passack: bool): Buf {
      b.(store := if passack then Marked(b.store, h, e) else Removed(b.store, h, e))
    }

    static lemma LeftNone(b: Buf, h: int, passack: bool)
      ensures Left(b, h, h - 1, passack) == b
    {
      assert Marked(b.store, h, h - 1) == b.store;
      assert Removed(b.store, h, h - 1) == b.store;
    }

    static lemma LeftNext(b: Buf, h: int, x: int, passack: bool)
      requires h <= x && x in b.store
      ensures var c := Left(b, h, x - 1, passack);
              && x in c.store && c.store[x] == b.store[x]
              && Left(b, h, x, passack)
                 == c.(store := if passack then c.store[x := b.store[x].(seen := true)] else c.store - {x})
    {
      var c := Left(b, h, x - 1, passack);
      if passack {
        assert Marked(b.store, h, x) == c.store[x := b.store[x].(seen := true)];
      } else {
        assert Removed(b.store, h, x) == c.store - {x};
      }
    }

    static lemma {:induction false} BytesNext(b: Buf, h: int, x: int)
      requires h <= x && x in b.store
      ensures Bytes(b, h, x) == Bytes(b, h, x - 1) + b.store[x].u.data
      decreases x - h
    {
      if h < x {
        BytesNext(b, h + 1, x);
      } else {
        assert Bytes(b, x + 1, x) == [];
      }
    }

    static lemma UptoNext(a: seq<Byte>, d: seq<Byte>, len: nat)
      ensures var rest := len - |Upto(a, len)|;
              Upto(a + d, len) == Upto(a, len) + (if |d| > rest then d[..rest] else d)
    {
    }

    /** Frees packet `x`, or marks it as read. */
    method TakeUnit(p: int, passack: bool, ghost x: int)
      requires Valid() && b.start <= x < b.start + size && p == Pos(x) && x in b.store
      modifies this`b, units
      ensures Valid()
      ensures b == old(b).(store := if passack then old(b).store[x := old(b).store[x].(seen := true)]
              else old(b).store - {x})
    {
      hide Holds;
      SlotAt(x);
      PutHolds(units[..], startPos, b.start, b.store, x, b.store[x].(seen := true));
      DropHolds(units[..], startPos, b.start, b.store, x);
      if !passack {
        units[p] := Empty;
        b := b.(store := b.store - {x});
      } else {
        units[p] := Full(units[p].h.(seen := true));
        b := b.(store := b.store[x := b.store[x].(seen := true)]);
      }
    }

    /** Appends as much of a packet as the space left allows. */
    static method Copy(data0: seq<Byte>, rs0: int, unit: Payload) returns (data: seq<Byte>, rs: int)
      requires rs0 >= 0
      ensures data == data0 + (if |unit| > rs0 then unit[..rs0] else unit)
      ensures rs == rs0 - (|data| - |data0|) && rs >= 0
    {
      data, rs := data0, rs0;
      var unitsize := |unit|;
      if rs >= 0 && unitsize > rs {
        unitsize := rs;
      }
      if unitsize > 0 {
        data := data + unit[..unitsize];
        rs := rs - unitsize;
      }
    }

    /** Copies the packets from slot `p` to slot `q` and frees or marks them; at most `len` bytes are copied. */
    method TakeUnits(p0: int, q: int, passack: bool, len: int, ghost h: int, ghost e: int) returns (data: seq<Byte>)
      requires Valid() && len >= 0 && b.start <= h <= e < b.start + size - 1 && p0 == Pos(h) && q == Pos(e)
      requires forall x :: h <= x <= e ==> x in b.store
      modifies this`b, units
      ensures Valid() && b == Left(old(b), h, e, passack) && data == Upto(Bytes(old(b), h, e), len)
    {
      hide Holds, RB.Index, Left, Bytes, Upto;
      ghost var b0 := b;
      var p, rs := p0, len;
      data := [];
      ghost var x := h;
      Begin(b0, h, passack, len);
      Ends(e, x);
      while p != (q + 1) % size
        invariant h <= x <= e + 1 && p == Pos(x) && (p == (q + 1) % size <==> x == e + 1)
        invariant Valid() && startPos == old(startPos) && b.start == b0.start && b == Left(b0, h, x - 1, passack)
        invariant data == Upto(Bytes(b0, h, x - 1), len) && rs == len - |data| >= 0
        decreases e + 1 - x
      {
        SlotAt(x);
        LeftNext(b0, h, x, passack);
        BytesNext(b0, h, x);
        UptoNext(Bytes(b0, h, x - 1), b0.store[x].u.data, len);
        data, rs := Copy(data, rs, units[p].h.u.data);
        TakeUnit(p, passack, x);
        p := p + 1;
        if p == size {
          p := 0;
        }
        x := x + 1;
        Ends(e, x);
      }
    }

    static lemma Begin(b: Buf, h: int, passack: bool, len: int)
      requires len >= 0
      ensures Left(b, h, h - 1, passack) == b && Upto(Bytes(b, h, h - 1), len) == []
    {
      LeftNone(b, h, passack);
    }

    lemma Ends(e: int, x: int)
      requires Bounds() && b.start <= e < b.start + size - 1 && b.start <= x <= e + 1
      ensures (Pos(e) + 1) % size == Pos(e + 1) && (Pos(x) == Pos(e + 1) <==> x == e + 1) && 0 <= Pos(x)
    {
      RB.IndexMod(size, startPos, b.start, e, 1);
    }

    /** What the promises of `MessageSafety` say about the message found. */
    lemma FoundFacts(c: S.Sent, log: S.Log)
      requires S.Inv(b, c, log)
      ensures b.start >= 0
      ensures var d := Skip(b);
              Find(d).Message? ==>
                && 0 <= d.start <= Find(d).p <= Find(d).q && (forall x :: Find(d).p <= x <= Find(d).q ==> x in d.store)
                && (Find(d).q < d.ack ==> Find(d).p == d.start)
    {
      hide S.Inv, Skip, Find, S.Logged, Bytes;
      S.SkipKeeps(b, c, log);
      S.FoundAtStart(Skip(b), c, log);
      S.FoundIs(Skip(b), c, log);
      S.InStore(b, c, log, b.start);
      S.InStore(Skip(b), c, log, b.start);
      var d := Skip(b);
      if Find(d).Message? {
        forall x | Find(d).p <= x <= Find(d).q ensures x in d.store { assert Fresh(d, x); }
      }
    }

    /** The window moves on to packet `x`, before which nothing is left. */
    method MoveStart(pos: int, ghost x: int)
      requires Valid() && b.start <= x <= b.ack && pos == Pos(x) && forall y :: y in b.store ==> x <= y
      modifies this`startPos, this`b
      ensures Valid() && b == old(b).(start := x)
    {
      hide Holds;
      MoveHolds(units[..], startPos, b.start, b.store, x - b.start);
      SamePos(x, b.ack);
      startPos := pos;
      b := b.(start := x);
    }

    lemma Inside(x: int)
      requires Valid() && x in b.store
      ensures b.start <= x < b.start + size - 1
    {
    }

    lemma AllGone(b0: Buf, e: int)
      requires b == Left(b0, b0.start, e, false) && Valid() && b.start == b0.start
      ensures forall y :: y in b.store ==> e + 1 <= y
    {
      hide Holds;
    }

    /** Reads one message, or nothing; of a longer message only the first `len` bytes. */
    method ReadMsg(len: int, ghost c: S.Sent, ghost log: S.Log) returns (data: seq<Byte>, ghost f: Found)
      requires Valid() && len >= 0 && S.Inv(b, c, log)
      modifies this`startPos, this`b, units
      ensures Valid() && Messages.ReadMsg(old(b), len) == (b, f, data)
    {
      hide Holds, RB.Index, Find, Skip, S.Inv, Bytes, Upto;
      FoundFacts(c, log);
      var found, p, q, passack;
      found, p, q, passack, f := ScanMsg();
      if !found {
        return [], f;
      }
      ghost var d := b;
      if f.Message? {
        Inside(f.q);
        Ends(f.q, f.p);
      }
      if p == (q + 1) % size {
        // an empty range: nothing is copied, freed or moved
        return [], f;
      }
      data := TakeUnits(p, q, passack, len, f.p, f.q);
      if !passack {
        AllGone(d, f.q);
        Ends(f.q, f.q + 1);
        MoveStart((q + 1) % size, f.q + 1);
      }
    }
  }
}
