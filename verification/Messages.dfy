/**
  Message mode of the receive buffer: packets carry message boundaries, whole
  messages are read, and one that need not come in order may be read before
  the packets in front of it have arrived.
 */
module Messages {
  import opened Streams

  /** A packet of a message: whether it is the first or last of it, and whether the message must come in order. */
  datatype Unit = Unit(data: Payload, begins: bool, ends: bool, order: bool)

  /** A packet in the buffer; `seen` once its message was read ahead of time. */
  datatype Held = Held(u: Unit, seen: bool)

  datatype Buf = Buf(start: int, ack: int, store: map<int, Held>, maxPos: int)

  predicate Fresh(b: Buf, x: int) {
    x in b.store && !b.store[x].seen
  }

  // ---------------------------------------------------------------- arrival and acknowledgement

  function Add(b: Buf, offset: int, u: Unit): Buf {
    var c := b.(maxPos := if offset > b.maxPos then offset else b.maxPos);
    if b.ack + offset in b.store then c else c.(store := b.store[b.ack + offset := Held(u, false)])
  }

  function Ack(b: Buf, len: int): Buf {
    b.(ack := b.ack + len, maxPos := if b.maxPos - len < 0 then 0 else b.maxPos - len)
  }

  // ---------------------------------------------------------------- scanning

  /** From `i` on, up to the end of its message or of what is acknowledged, nothing is missing or read. */
  function Good(b: Buf, i: int): bool
    decreases b.ack - i
  {
    if i >= b.ack then true
    else if !Fresh(b, i) then false
    else if b.store[i].u.ends then true
    else Good(b, i + 1)
  }

  /** Frees what cannot start a message to be read. */
  function Skip(b: Buf): Buf
    decreases b.ack - b.start
  {
    if b.start >= b.ack then b
    else if b.start !in b.store then Skip(b.(start := b.start + 1))
    else if Fresh(b, b.start) && b.store[b.start].u.begins && Good(b, b.start) then b
    else Skip(b.(store := b.store - {b.start}, start := b.start + 1))
  }

  datatype Found = None | Message(p: int, q: int)

  /** The head of the message that position `q` belongs to, given the head `p` before it; -1 for none. */
  function Head(b: Buf, q: int, p: int): int {
    if !Fresh(b, q) then -1 else if b.store[q].u.begins then q else p
  }

  /** The search for the first whole message that may be read, from `q` up to `last`. */
  function Scan(b: Buf, q: int, p: int, last: int): Found
    decreases last - q
  {
    if q > last then None
    else
      var h := Head(b, q, p);
      if Fresh(b, q) && b.store[q].u.ends && h != -1 && (q < b.ack || !b.store[q].u.order) then Message(h, q)
      else Scan(b, q + 1, h, last)
  }

  function Find(b: Buf): Found {
    Scan(b, b.start, -1, b.ack + b.maxPos)
  }

  // ---------------------------------------------------------------- reading

  function Bytes(b: Buf, p: int, q: int): seq<Byte>
    decreases q - p
  {
    if p > q then [] else (if p in b.store then b.store[p].u.data else []) + Bytes(b, p + 1, q)
  }

  function Removed(store: map<int, Held>, p: int, q: int): map<int, Held> {
    map x | x in store && !(p <= x <= q) :: store[x]
  }

  function Marked(store: map<int, Held>, p: int, q: int): map<int, Held> {
    map x | x in store :: if p <= x <= q then store[x].(seen := true) else store[x]
  }

  function Upto(data: seq<Byte>, len: int): seq<Byte> {
    if 0 <= len < |data| then data[..len] else data
  }

  /** A message is freed when all of it is acknowledged, else it is marked as read. */
  function Taken(b: Buf, p: int, q: int): Buf {
    if q < b.ack then b.(store := Removed(b.store, p, q), start := q + 1)
    else b.(store := Marked(b.store, p, q))
  }

  /** One read of up to `len` bytes. */
  function ReadMsg(b: Buf, len: int): (Buf, Found, seq<Byte>) {
    if b.start == b.ack && b.maxPos <= 0 then (b, None, [])
    else
      var c := Skip(b);
      match Find(c)
      case None => (c, None, [])
      case Message(p, q) => (Taken(c, p, q), Message(p, q), Upto(Bytes(c, p, q), len))
  }
}
