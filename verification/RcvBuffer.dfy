/**
  The receive buffer: a circular array of packet slots.  Slots between the
  start position and the acknowledged position are readable; packets beyond it
  wait for the gaps before them to fill.  One slot always stays empty.
 */
module RcvBuffer {
  import opened Streams

  datatype Slot = Empty | Filled(data: Payload)

  /** What is left after a read, and what was read. */
  datatype Taken = Taken(store: map<int, Payload>, start: int, notch: int, data: seq<Byte>)

  ghost predicate Readable(store: map<int, Payload>, start: int, ack: int, notch: int) {
    && (forall n :: start <= n < ack ==> n in store)
    && (start < ack ==> 0 <= notch <= |store[start]|)
  }

  /** Up to `len` bytes from the packets `start..ack`, of the first of which `notch` bytes are gone. */
  ghost function Take(store: map<int, Payload>, start: int, ack: int, notch: int, len: int): Taken
    requires Readable(store, start, ack, notch)
    decreases ack - start
  {
    if start >= ack || len <= 0 then Taken(store, start, notch, [])
    else
      var unit := store[start][notch..];
      if len >= |unit| then
        var t := Take(store - {start}, start + 1, ack, 0, len - |unit|);
        t.(data := unit + t.data)
      else Taken(store, start, notch + len, unit[..len])
  }

  /** The slot of packet `x`, when packet `start` is in slot `startPos`. */
  function Index(size: int, startPos: int, start: int, x: int): int {
    if startPos + (x - start) < size then startPos + (x - start) else startPos + (x - start) - size
  }

  function Content(store: map<int, Payload>, x: int): Slot {
    if x in store then Filled(store[x]) else Empty
  }

  /** The slots hold exactly the packets of `store`, one turn from `start` on. */
  ghost predicate Holds(us: seq<Slot>, startPos: int, start: int, store: map<int, Payload>) {
    && 0 <= startPos < |us|
    && forall x :: start <= x < start + |us| ==> us[Index(|us|, startPos, start, x)] == Content(store, x)
  }

  lemma IndexMod(size: int, startPos: int, start: int, x: int, k: int)
    requires 0 <= startPos < size && start <= x < start + size && 0 <= k && x + k < start + size
    ensures (Index(size, startPos, start, x) + k) % size == Index(size, startPos, start, x + k)
  {
    var i := Index(size, startPos, start, x) + k;
    if i >= size { assert i % size == i - size; }
  }

  lemma PutHolds(us: seq<Slot>, startPos: int, start: int, store: map<int, Payload>, y: int, p: Payload)
    requires Holds(us, startPos, start, store) && start <= y < start + |us|
    ensures us[Index(|us|, startPos, start, y)] == Content(store, y)
    ensures Holds(us[Index(|us|, startPos, start, y) := Filled(p)], startPos, start, store[y := p])
  {
  }

  /** The first slot is emptied and the window moves on. */
  lemma ShiftHolds(us: seq<Slot>, startPos: int, start: int, store: map<int, Payload>)
    requires Holds(us, startPos, start, store) && start + |us| !in store
    ensures us[startPos] == Content(store, start)
    ensures Holds(us[startPos := Empty], if startPos + 1 == |us| then 0 else startPos + 1, start + 1, store - {start})
  {
    var vs := us[startPos := Empty];
    var p := if startPos + 1 == |us| then 0 else startPos + 1;
    assert Index(|us|, startPos, start, start) == startPos;
    forall x | start + 1 <= x < start + 1 + |us|
      ensures vs[Index(|us|, p, start + 1, x)] == Content(store - {start}, x)
    {
      if x < start + |us| { assert Index(|us|, p, start + 1, x) == Index(|us|, startPos, start, x); }
    }
  }

  class RcvBuffer {
    const size: int
    const units: array<Slot>
    var startPos: int
    var lastAckPos: int
    var maxPos: int
    var notch: int

    /** The packet number of the slot at `startPos`, and the first number not acknowledged. */
    ghost var start: int
    ghost var ack: int
    /** The packets held. */
    ghost var store: map<int, Payload>

    ghost predicate Valid()
      reads this, units
    {
      && size > 0 && units.Length == size
      && 0 <= startPos < size && start <= ack < start + size && lastAckPos == Index(size, startPos, start, ack)
      && Holds(units[..], startPos, start, store)
      && (forall x :: x in store ==> start <= x < start + size && x - ack <= maxPos)
      && maxPos >= 0 && notch >= 0
    }

    constructor (n: int, isn: int)
      requires n > 0
      ensures Valid() && size == n && start == isn && ack == isn && notch == 0 && store == map[]
      ensures fresh(units)
    {
      size := n;
      units := new Slot[n](_ => Empty);
      startPos, lastAckPos, maxPos, notch := 0, 0, 0, 0;
      start, ack, store := isn, isn, map[];
    }

    /** How many acknowledged packets wait to be read. */
    method GetRcvDataSize() returns (n: int)
      requires Valid()
      ensures n == ack - start
    {
      if lastAckPos >= startPos {
        return lastAckPos - startPos;
      }
      return size + lastAckPos - startPos;
    }

    method GetAvailBufSize() returns (n: int)
      requires Valid()
      ensures n == size - (ack - start) - 1
    {
      var used := GetRcvDataSize();
      return size - used - 1;
    }

    /** Puts a packet `offset` places after the acknowledged position, unless one is there. */
    method AddData(data: Payload, offset: int) returns (ok: bool)
      requires Valid() && 0 <= offset && ack + offset < start + size
      modifies this`maxPos, this`store, units
      ensures Valid()
      ensures ok <==> ack + offset !in old(store)
      ensures store == if ok then old(store)[ack + offset := data] else old(store)
    {
      IndexMod(size, startPos, start, ack, offset);
      PutHolds(units[..], startPos, start, store, ack + offset, data);
      var pos := (lastAckPos + offset) % size;
      if offset > maxPos {
        maxPos := offset;
      }
      if units[pos] != Empty {
        return false;
      }
      units[pos] := Filled(data);
      store := store[ack + offset := data];
      ok := true;
    }

    /** The acknowledged position moves on by `len` packets. */
    method AckData(len: int)
      requires Valid() && 0 <= len && ack + len < start + size
      modifies this`lastAckPos, this`maxPos, this`ack
      ensures Valid() && ack == old(ack) + len
    {
      IndexMod(size, startPos, start, ack, len);
      lastAckPos := (lastAckPos + len) % size;
      maxPos := maxPos - len;
      if maxPos < 0 {
        maxPos := 0;
      }
      ack := ack + len;
    }

    /** Reads from the first packet: all the rest of it, or the next `rs` bytes. */
    method ReadUnit(rs: int) returns (piece: seq<Byte>)
      requires Valid() && Readable(store, start, ack, notch) && start < ack && rs > 0
      modifies this`startPos, this`notch, this`start, this`store, units
      ensures Valid() && Readable(store, start, ack, notch) && start >= old(start)
      ensures |piece| < rs ==> start > old(start)
      ensures |piece| <= rs
      ensures old(Take(store, start, ack, notch, rs)) == Extend(piece, Take(store, start, ack, notch, rs - |piece|))
    {
      hide Holds, Index, Take;
      var unit := FirstUnit();
      var unitsize := |unit| - notch;
      if unitsize > rs {
        unitsize := rs;
      }
      piece := unit[notch..notch + unitsize];
      if rs > unitsize || rs == |unit| - notch {
        TakeWhole(store, start, ack, notch, rs);
        FreeFirst();
        notch := 0;
      } else {
        TakePart(store, start, ack, notch, rs);
        notch := notch + rs;
      }
    }

    method FirstUnit() returns (unit: Payload)
      requires Valid() && start < ack && start in store
      ensures unit == store[start]
    {
      ShiftHolds(units[..], startPos, start, store);
      assert units[startPos] == units[..][startPos];
      unit := units[startPos].data;
    }

    /** Empties the first slot and moves on. */
    method FreeFirst()
      requires Valid() && start < ack
      modifies this`startPos, this`start, this`store, units
      ensures Valid() && start == old(start) + 1 && store == old(store) - {old(start)}
    {
      hide Holds, Index;
      AfterShift();
      ShiftHolds(units[..], startPos, start, store);
      units[startPos] := Empty;
      startPos := startPos + 1;
      if startPos == size {
        startPos := 0;
      }
      start, store := start + 1, store - {start};
    }

    lemma AfterShift()
      requires Valid() && start < ack
      ensures start + size !in store
      ensures lastAckPos == Index(size, if startPos + 1 == size then 0 else startPos + 1, start + 1, ack)
    {
    }

    /** Reads up to `len` bytes of acknowledged data. */
    method ReadBuffer(len: int) returns (data: seq<Byte>)
      requires Valid() && Readable(store, start, ack, notch)
      modifies this`startPos, this`notch, this`start, this`store, units
      ensures Valid() && Readable(store, start, ack, notch)
      ensures Taken(store, start, notch, data) == old(Take(store, start, ack, notch, len))
    {
      var rs := len;
      data := [];
      while startPos != lastAckPos && rs > 0
        invariant Valid() && Readable(store, start, ack, notch)
        invariant Extend(data, Take(store, start, ack, notch, rs)) == old(Take(store, start, ack, notch, len))
        decreases ack - start, rs
      {
        StartIsNotAck();
        ghost var before := Take(store, start, ack, notch, rs);
        var piece := ReadUnit(rs);
        ExtendTwice(data, piece, Take(store, start, ack, notch, rs - |piece|));
        data := data + piece;
        rs := rs - |piece|;
      }
      StartIsNotAck();
    }

    lemma StartIsNotAck()
      requires Valid()
      ensures startPos == lastAckPos <==> start == ack
    {
    }
  }

  ghost function Extend(data: seq<Byte>, t: Taken): Taken {
    t.(data := data + t.data)
  }

  lemma ExtendTwice(a: seq<Byte>, b: seq<Byte>, t: Taken)
    ensures Extend(a, Extend(b, t)) == Extend(a + b, t)
  {
    assert a + (b + t.data) == a + b + t.data;
  }

  lemma TakeWhole(store: map<int, Payload>, start: int, ack: int, notch: int, len: int)
    requires Readable(store, start, ack, notch) && start < ack && len > 0
    requires len >= |store[start][notch..]|
    ensures Readable(store - {start}, start + 1, ack, 0)
    ensures var unit := store[start][notch..];
            Take(store, start, ack, notch, len)
            == Extend(unit, Take(store - {start}, start + 1, ack, 0, len - |unit|))
  {
  }

  lemma TakePart(store: map<int, Payload>, start: int, ack: int, notch: int, len: int)
    requires Readable(store, start, ack, notch) && start < ack && 0 < len < |store[start][notch..]|
    ensures Take(store, start, ack, notch, len)
            == Extend(store[start][notch..][..len], Take(store, start, ack, notch + len, 0))
  {
    assert store[start][notch..][..len] + [] == store[start][notch..][..len];
  }
}
