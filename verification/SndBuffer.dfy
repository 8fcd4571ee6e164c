/**
  The send buffer: a ring of linked blocks that grows on demand.  `first`,
  `curr` and `last` walk around it; the blocks from `first` up to `last` hold
  the payloads not yet released, in order.  Every block has its own part of one
  of the memory buffers.
 */
module SndBuffer {
  import opened Arith
  import opened Streams

  /** The message field of a packet: boundary bits, order bit and number. */
  datatype MsgField = MsgField(begins: bool, ends: bool, order: bool, no: int)

  type Memory = array<Byte>

  /** The data of a block are the first `length` bytes from `offset` on in `area`. */
  class Block {
    var area: array?<Byte>
    var offset: int
    var length: int
    var msg: MsgField
    var next: Block?

    constructor ()
      ensures next == null
    {
      area, offset, length, msg, next := null, 0, 0, MsgField(false, false, false, 0), null;
    }
  }

  function After(i: int, n: int): int {
    if i + 1 == n then 0 else i + 1
  }

  /** `ring` is one cycle: each block once, each leading to the following one. */
  ghost predicate Cycle(ring: seq<Block>)
    reads ring`next
  {
    && (forall i, j :: 0 <= i < j < |ring| ==> ring[i] != ring[j])
    && (forall i :: 0 <= i < |ring| ==> ring[i].next == ring[After(i, |ring|)])
  }

  /** `c` is a line: each block once, each but the last leading to the following one. */
  ghost predicate Line(c: seq<Block>)
    reads c`next
  {
    && (forall i, j :: 0 <= i < j < |c| ==> c[i] != c[j])
    && (forall i :: 0 <= i < |c| - 1 ==> c[i].next == c[i + 1])
  }

  /** A line whose last block leads back to the first is a cycle. */
  lemma Closed(c: seq<Block>)
    requires Line(c) && c != [] && c[|c| - 1].next == c[0]
    ensures Cycle(c)
  {
  }

  // ---------------------------------------------------------------- memory

  /** Block `b` has `mss` bytes of one of the buffers for itself, and uses `length` of them. */
  ghost predicate Placed(b: Block, buffers: seq<Memory>, mss: int)
    reads b`area, b`offset, b`length
  {
    b.area != null && b.area in buffers && 0 <= b.offset <= b.offset + mss <= b.area.Length && 0 <= b.length <= mss
  }

  /** The parts of two blocks do not overlap. */
  ghost predicate Apart(a: Block, b: Block, mss: int)
    reads a`area, a`offset, b`area, b`offset
  {
    a.area != b.area || a.offset + mss <= b.offset || b.offset + mss <= a.offset
  }

  ghost predicate Disjoint(ring: seq<Block>, buffers: seq<Memory>, mss: int)
    reads ring`area, ring`offset, ring`length
  {
    && (forall i :: 0 <= i < |ring| ==> Placed(ring[i], buffers, mss))
    && (forall i, j :: 0 <= i < |ring| && 0 <= j < |ring| && i != j ==> Apart(ring[i], ring[j], mss))
  }

  /** The data of block `b` are `data`, its message field is `msg`. */
  ghost predicate Shows(b: Block, buffers: seq<Memory>, data: seq<Byte>, msg: MsgField)
    reads b`area, b`offset, b`length, b`msg, buffers
  {
    && b.area != null && b.area in buffers && b.length == |data| && b.msg == msg
    && 0 <= b.offset <= b.offset + |data| <= b.area.Length
    && forall i :: 0 <= i < |data| ==> b.area[b.offset + i] == data[i]
  }

  /** The blocks from position `from` on hold `cs` with the message fields `fs`. */
  ghost predicate Holds(ring: seq<Block>, buffers: seq<Memory>, from: nat, cs: seq<Payload>, fs: seq<MsgField>)
    reads ring`area, ring`offset, ring`length, ring`msg, buffers
  {
    && from + |cs| <= |ring| && |cs| == |fs|
    && forall k :: from <= k < from + |cs| ==> Shows(ring[k], buffers, cs[k - from], fs[k - from])
  }

  /** Blocks that share a buffer evenly do not overlap. */
  lemma EvenlyPlaced(c: seq<Block>, nbuf: Memory, buffers: seq<Memory>, mss: int)
    requires mss > 0 && nbuf.Length == |c| * mss && nbuf in buffers
    requires forall i :: 0 <= i < |c| ==> c[i].area == nbuf && c[i].offset == i * mss && c[i].length == 0
    ensures Disjoint(c, buffers, mss)
  {
    forall i, j | 0 <= i < |c| && 0 <= j < |c| && i != j ensures Apart(c[i], c[j], mss) {
      if i < j { NextMultiple(i, j, mss); } else { NextMultiple(j, i, mss); }
    }
    forall i | 0 <= i < |c| ensures Placed(c[i], buffers, mss) {
      NextMultiple(i, |c|, mss);
    }
  }

  lemma NextMultiple(i: nat, j: nat, mss: int)
    requires i < j && mss > 0
    ensures 0 <= i * mss <= i * mss + mss <= j * mss
  {
    assert (j - i - 1) * mss >= 0;
    assert j * mss == (j - i - 1) * mss + i * mss + mss;
  }

  const MAX_MSG_NO: int := 0x1FFF_FFFF

  class SndBuffer {
    const mss: int
    const unit: int          // blocks added at each growth
    var size: int
    var count: int
    var nextMsgNo: int
    var first: Block
    var curr: Block
    var last: Block
    /** The memory behind the blocks, one buffer for each growth. */
    var buffers: seq<Memory>

    /** All blocks, from `first` on. */
    ghost var ring: seq<Block>
    /** The payloads not yet released, and the message fields of their blocks. */
    ghost var contents: seq<Payload>
    ghost var msgs: seq<MsgField>
    /** How many of them have been sent. */
    ghost var pos: int

    ghost predicate Valid()
      reads this, ring, buffers
    {
      && mss > 0 && unit > 0
      && |ring| == size && Cycle(ring) && Disjoint(ring, buffers, mss)
      && |contents| == |msgs| == count < size && 0 <= pos <= count
      && first == ring[0] && curr == ring[pos] && last == ring[count]
      && Holds(ring, buffers, 0, contents, msgs)
      && 1 <= nextMsgNo < MAX_MSG_NO
    }

    constructor (n: int, payloadSize: int)
      requires n > 0 && payloadSize > 0
      ensures Valid() && contents == [] && msgs == [] && pos == 0 && mss == payloadSize && unit == n && size == n
      ensures fresh(ring) && fresh(buffers)
    {
      hide Cycle, Disjoint, Holds;
      mss, unit := payloadSize, n;
      size, count, nextMsgNo := n, 0, 1;
      contents, msgs, pos := [], [], 0;
      assert n * payloadSize >= 0 by { NextMultiple(0, n, payloadSize); }
      var nbuf := new Byte[n * payloadSize](_ => 0);
      buffers := [nbuf];
      var b := new Block();
      first, curr, last := b, b, b;
      ring := [b];
      new;
      ring := MakeRing(b, n, nbuf, payloadSize);
      HoldsNothing(ring, buffers);
    }

    static lemma HoldsNothing(r: seq<Block>, buffers: seq<Memory>)
      ensures Holds(r, buffers, 0, [], [])
    {
    }

    /** Links `n` blocks, of which `b` is the first, into one cycle, with their data in `nbuf`. */
    static method MakeRing(b: Block, n: int, nbuf: Memory, mss: int) returns (ghost c: seq<Block>)
      requires n > 0 && mss > 0 && nbuf.Length == n * mss
      modifies b
      ensures |c| == n && c[0] == b && (forall k :: 0 < k < n ==> fresh(c[k]))
      ensures Cycle(c) && Disjoint(c, [nbuf], mss)
    {
      hide Disjoint;
      var end;
      c, end := MakeChain(b, n - 1);
      end.next := b;
      Closed(c);
      AssignAreas(nbuf, b, n, mss, c);
      EvenlyPlaced(c, nbuf, [nbuf], mss);
    }

    /** Gives the `n` blocks from `nblk` on their parts of `nbuf`, one after the other. */
    static method AssignAreas(nbuf: Memory, nblk: Block, n: int, mss: int, ghost c: seq<Block>)
      requires |c| == n > 0 && c[0] == nblk && Line(c) && c[n - 1].next != null
      modifies c`area, c`offset, c`length
      ensures forall k :: 0 <= k < n ==> c[k].area == nbuf && c[k].offset == k * mss && c[k].length == 0
    {
      var pb, pc := nblk, 0;
      var i := 0;
      while i < n
        invariant 0 <= i <= n && pc == i * mss && (i < n ==> pb == c[i])
        invariant forall k :: 0 <= k < i ==> c[k].area == nbuf && c[k].offset == k * mss && c[k].length == 0
      {
        pb.area, pb.offset, pb.length := nbuf, pc, 0;
        pb := pb.next;
        pc := pc + mss;
        i := i + 1;
      }
    }

    /** Links `n` new blocks behind `b`; `c` is the line of all of them. */
    static method MakeChain(b: Block, n: int) returns (ghost c: seq<Block>, end: Block)
      requires n >= 0
      modifies b`next
      ensures |c| == n + 1 && c[0] == b && end == c[n] && Line(c) && forall k :: 0 < k <= n ==> fresh(c[k])
    {
      c, end := [b], b;
      var i := 0;
      while i < n
        invariant 0 <= i <= n && |c| == i + 1 && c[0] == b && end == c[i] && Line(c)
        invariant forall k :: 0 < k <= i ==> fresh(c[k])
      {
        var pb := new Block();
        end.next := pb;
        c := c + [pb];
        end := pb;
        i := i + 1;
      }
    }

    /** The next block never sent, if any; it counts as sent from now on. */
    method ReadNext() returns (ok: bool, data: seq<Byte>, msg: MsgField)
      requires Valid()
      modifies this`curr, this`pos
      ensures Valid() && contents == old(contents) && msgs == old(msgs) && ring == old(ring)
      ensures buffers == old(buffers)
      ensures ok <==> old(pos) < |contents|
      ensures ok ==> data == contents[old(pos)] && msg == msgs[old(pos)] && pos == old(pos) + 1
      ensures !ok ==> pos == old(pos)
    {
      if curr == last {
        assert pos == count;
        return false, [], MsgField(false, false, false, 0);
      }
      data, msg := curr.area[curr.offset..curr.offset + curr.length], curr.msg;
      curr := curr.next;
      pos := pos + 1;
      ok := true;
    }

    /** The block `offset` places after the first. */
    method Walk(offset: int) returns (p: Block)
      requires Valid() && 0 <= offset < size
      ensures p == ring[offset]
    {
      p := first;
      var i := 0;
      while i < offset
        invariant 0 <= i <= offset && p == ring[i]
      {
        p := p.next;
        i := i + 1;
      }
    }

    /** The payload `offset` places after the first. */
    method ReadAt(offset: int) returns (data: seq<Byte>, msg: MsgField)
      requires Valid() && 0 <= offset < |contents|
      ensures data == contents[offset] && msg == msgs[offset]
    {
      var p := Walk(offset);
      data, msg := p.area[p.offset..p.offset + p.length], p.msg;
    }

    /** Releases the first `offset` payloads. */
    method AckData(offset: int)
      requires Valid() && 0 <= offset <= pos
      modifies this`first, this`count, this`ring, this`contents, this`msgs, this`pos
      ensures Valid() && contents == old(contents)[offset..] && msgs == old(msgs)[offset..] && pos == old(pos) - offset
      ensures ring == old(ring)[offset..] + old(ring)[..offset] && buffers == old(buffers)
    {
      hide Cycle, Holds, Disjoint;
      var p := Walk(offset);
      ghost var r, cs, fs := Turned(offset);
      first, count := p, count - offset;
      ring, contents, msgs, pos := r, cs, fs, pos - offset;
    }

    /** The ring, begun `k` blocks later, holds what comes after the first `k` payloads. */
    lemma Turned(k: nat) returns (r: seq<Block>, cs: seq<Payload>, fs: seq<MsgField>)
      requires |ring| == size && Cycle(ring) && Disjoint(ring, buffers, mss) && Holds(ring, buffers, 0, contents, msgs)
      requires k <= |contents| == |msgs| < size
      ensures r == ring[k..] + ring[..k] && cs == contents[k..] && fs == msgs[k..]
      ensures |r| == size && Cycle(r) && Disjoint(r, buffers, mss) && Holds(r, buffers, 0, cs, fs)
      ensures r[0] == ring[k] && forall i :: k <= i <= |contents| ==> r[i - k] == ring[i]
    {
      hide Cycle, Holds, Disjoint;
      r, cs, fs := ring[k..] + ring[..k], contents[k..], msgs[k..];
      Rotated(ring, k);
      DisjointRotated(ring, buffers, mss, k);
      HoldsRest(ring, buffers, contents, msgs, k);
    }

    static lemma HoldsRest(r: seq<Block>, buffers: seq<Memory>, cs: seq<Payload>, fs: seq<MsgField>, k: nat)
      requires Holds(r, buffers, 0, cs, fs) && k <= |cs|
      ensures Holds(r[k..] + r[..k], buffers, 0, cs[k..], fs[k..])
    {
    }

    static lemma DisjointRotated(r: seq<Block>, buffers: seq<Memory>, mss: int, k: int)
      requires Disjoint(r, buffers, mss) && 0 <= k < |r|
      ensures Disjoint(r[k..] + r[..k], buffers, mss)
    {
      hide Placed, Apart;
      var t := r[k..] + r[..k];
      forall i | 0 <= i < |t| ensures t[i] == r[if i < |r| - k then i + k else i + k - |r|] { }
    }

    static lemma Rotated(r: seq<Block>, k: int)
      requires Cycle(r) && 0 <= k < |r|
      ensures Cycle(r[k..] + r[..k])
    {
      var t := r[k..] + r[..k];
      forall i | 0 <= i < |t| ensures t[i].next == t[After(i, |t|)] {
        var o := if i < |r| - k then i + k else i + k - |r|;
        assert t[i] == r[o];
      }
    }

    /** Adds `unit` new blocks behind `last`; nothing buffered is disturbed. */
    method Increase()
      requires Valid()
      modifies this`size, this`ring, this`buffers, ring
      ensures Valid() && contents == old(contents) && msgs == old(msgs) && pos == old(pos)
      ensures size == old(size) + unit
      ensures fresh(set b | b in ring && b !in old(ring)) && fresh(set b | b in buffers && b !in old(buffers))
    {
      hide Cycle, Line, Holds, Disjoint;
      assert unit * mss >= 0 by { NextMultiple(0, unit, mss); }
      var nbuf := new Byte[unit * mss](_ => 0);
      var nblk := new Block();
      ghost var c;
      var end;
      c, end := MakeChain(nblk, unit - 1);
      Splice(nbuf, nblk, end, c);
    }

    /** Puts the line `c` of new blocks behind `last`, with their data in `nbuf`. */
    method Splice(nbuf: Memory, nblk: Block, end: Block, ghost c: seq<Block>)
      requires Valid() && Line(c) && |c| == unit && nblk == c[0] && end == c[|c| - 1]
      requires forall k :: 0 <= k < |c| ==> c[k] !in ring
      requires nbuf !in buffers && nbuf.Length == unit * mss
      modifies this`size, this`ring, this`buffers, last`next, c`area, c`offset, c`length, end`next
      ensures Valid() && contents == old(contents) && msgs == old(msgs) && pos == old(pos)
      ensures size == old(size) + unit && ring == old(ring)[..count + 1] + c + old(ring)[count + 1..]
      ensures buffers == old(buffers) + [nbuf]
    {
      hide Cycle, Line, Holds, Disjoint;
      ghost var k := count + 1;
      AfterLast();
      Insert(last, nbuf, nblk, end, unit, mss, ring, c, k, buffers, contents, msgs);
      buffers := buffers + [nbuf];
      size := size + unit;
      ring := ring[..k] + c + ring[k..];
    }

    /** Links and places the new blocks; the longer ring holds what the old one held. */
    static method Insert(last: Block, nbuf: Memory, nblk: Block, end: Block, n: int, mss: int,
                         ghost r: seq<Block>, ghost c: seq<Block>, ghost k: nat,
                         ghost buffers: seq<Memory>, ghost cs: seq<Payload>, ghost fs: seq<MsgField>)
      requires Cycle(r) && Line(c) && |c| == n > 0 && 0 < k <= |r| && last == r[k - 1]
               && last.next == r[After(k - 1, |r|)]
      requires nblk == c[0] && end == c[n - 1] && forall j :: 0 <= j < |c| ==> c[j] !in r
      requires mss > 0 && nbuf !in buffers && nbuf.Length == n * mss
      requires Disjoint(r, buffers, mss) && Holds(r, buffers, 0, cs, fs) && |cs| <= k
      modifies last`next, end`next, c`area, c`offset, c`length
      ensures var t := r[..k] + c + r[k..];
              Cycle(t) && Disjoint(t, buffers + [nbuf], mss) && Holds(t, buffers + [nbuf], 0, cs, fs)
    {
      hide Cycle, Line, Holds, Disjoint;
      Relink(last, nblk, end, r, c, k);
      PlaceNew(nbuf, nblk, n, mss, c, r, buffers, cs, fs);
      DisjointSpliced(r, c, buffers, nbuf, mss, k);
      HoldsSpliced(r, c, buffers, nbuf, cs, fs, k);
    }

    /** Gives new blocks their parts of the new buffer; the old ones do not notice. */
    static method PlaceNew(nbuf: Memory, nblk: Block, n: int, mss: int, ghost c: seq<Block>,
                           ghost r: seq<Block>, ghost buffers: seq<Memory>,
                           ghost cs: seq<Payload>, ghost fs: seq<MsgField>)
      requires |c| == n > 0 && c[0] == nblk && Line(c) && c[n - 1].next != null && mss > 0 && nbuf.Length == n * mss
      requires (forall k :: 0 <= k < |c| ==> c[k] !in r) && Disjoint(r, buffers, mss) && Holds(r, buffers, 0, cs, fs)
      modifies c`area, c`offset, c`length
      ensures Disjoint(c, [nbuf], mss) && Disjoint(r, buffers, mss) && Holds(r, buffers, 0, cs, fs)
    {
      hide Line, Disjoint, Holds;
      AssignAreas(nbuf, nblk, n, mss, c);
      EvenlyPlaced(c, nbuf, [nbuf], mss);
    }

    /** Blocks with their data in a new buffer overlap with none of the others. */
    static lemma DisjointSpliced(r: seq<Block>, c: seq<Block>, buffers: seq<Memory>, nbuf: Memory, mss: int, k: nat)
      requires Disjoint(r, buffers, mss) && Disjoint(c, [nbuf], mss) && nbuf !in buffers && k <= |r|
      ensures Disjoint(r[..k] + c + r[k..], buffers + [nbuf], mss)
    {
      var t := r[..k] + c + r[k..];
      forall i | 0 <= i < |t| ensures t[i] == Pick(r, c, k, i) && Placed(t[i], buffers + [nbuf], mss) { }
      forall i, j | 0 <= i < |t| && 0 <= j < |t| && i != j ensures Apart(t[i], t[j], mss) {
        assert t[i] == Pick(r, c, k, i) && t[j] == Pick(r, c, k, j);
      }
    }

    static lemma HoldsSpliced(r: seq<Block>, c: seq<Block>, buffers: seq<Memory>, nbuf: Memory,
                              cs: seq<Payload>, fs: seq<MsgField>, k: nat)
      requires Holds(r, buffers, 0, cs, fs) && |cs| <= k <= |r|
      ensures Holds(r[..k] + c + r[k..], buffers + [nbuf], 0, cs, fs)
    {
    }

    lemma AfterLast()
      requires Valid()
      ensures last.next == ring[After(count, |ring|)]
    {
    }

    /** The two link changes that splice the line `c` into the cycle `r` before position `k`. */
    static method Relink(last: Block, nblk: Block, end: Block, ghost r: seq<Block>, ghost c: seq<Block>, ghost k: nat)
      requires Cycle(r) && Line(c) && c != [] && 0 < k <= |r| && last == r[k - 1] && last.next == r[After(k - 1, |r|)]
      requires nblk == c[0] && end == c[|c| - 1] && forall j :: 0 <= j < |c| ==> c[j] !in r
      modifies last`next, end`next
      ensures Cycle(r[..k] + c + r[k..]) && Line(c) && end.next != null
    {
      end.next := last.next;
      last.next := nblk;
      Spliced(r, c, k);
    }

    /** A line of new blocks spliced in before position `k` of a cycle gives a cycle. */
    static lemma Spliced(r: seq<Block>, c: seq<Block>, k: nat)
      requires 0 < k <= |r| && c != []
      requires forall i, j :: 0 <= i < j < |r| ==> r[i] != r[j]
      requires forall i, j :: 0 <= i < j < |c| ==> c[i] != c[j]
      requires forall j :: 0 <= j < |c| ==> c[j] !in r
      requires forall i :: 0 <= i < |r| && i != k - 1 ==> r[i].next == r[After(i, |r|)]
      requires r[k - 1].next == c[0]
      requires forall i :: 0 <= i < |c| - 1 ==> c[i].next == c[i + 1]
      requires c[|c| - 1].next == r[After(k - 1, |r|)]
      ensures Cycle(r[..k] + c + r[k..])
    {
      var t := r[..k] + c + r[k..];
      forall i, j | 0 <= i < j < |t| ensures t[i] != t[j] {
        assert t[i] == Pick(r, c, k, i) && t[j] == Pick(r, c, k, j);
      }
      forall i | 0 <= i < |t| ensures t[i].next == t[After(i, |t|)] {
        assert t[i] == Pick(r, c, k, i) && t[After(i, |t|)] == Pick(r, c, k, After(i, |t|));
      }
    }

    /** Block `i` of the cycle `r` with `c` spliced in. */
    static function Pick(r: seq<Block>, c: seq<Block>, k: nat, i: int): Block
      requires k <= |r| && 0 <= i < |r| + |c|
    {
      if i < k then r[i] else if i < k + |c| then c[i - k] else r[i - |c|]
    }

    /** Grows the ring until `n` more payloads fit. */
    method MakeRoom(n: int)
      requires Valid() && n >= 0
      modifies this`size, this`ring, this`buffers, ring
      ensures Valid() && contents == old(contents) && msgs == old(msgs) && pos == old(pos)
      ensures n + count < size
      ensures fresh(set b | b in ring && b !in old(ring)) && fresh(set b | b in buffers && b !in old(buffers))
    {
      hide Cycle, Holds, Disjoint;
      while n + count >= size
        invariant Valid() && contents == old(contents) && msgs == old(msgs) && pos == old(pos)
        invariant fresh(set b | b in ring && b !in old(ring)) && fresh(set b | b in buffers && b !in old(buffers))
        decreases n + count - size
      {
        Increase();
      }
    }

    /** The message fields of a message of `n` blocks. */
    static function Fields(n: int, order: bool, no: int): seq<MsgField>
      requires n >= 0
    {
      seq(n, i => MsgField(i == 0, i == n - 1, order, no))
    }

    /** Buffers `data`, cut into blocks, as one message. */
    method AddBuffer(data: seq<Byte>, order: bool)
      requires Valid()
      modifies this, ring, buffers
      ensures Valid() && pos == old(pos)
      ensures contents == old(contents) + Chunks(data, mss)
      ensures msgs == old(msgs) + Fields(|Chunks(data, mss)|, order, old(nextMsgNo))
      ensures fresh(set b | b in ring && b !in old(ring)) && fresh(set b | b in buffers && b !in old(buffers))
      ensures nextMsgNo == if old(nextMsgNo) + 1 == MAX_MSG_NO then 1 else old(nextMsgNo) + 1
    {
      hide Cycle, Disjoint, Holds, Chunks;
      var n := |data| / mss;
      if |data| % mss != 0 {
        n := n + 1;
      }
      ChunksCount(data, mss);
      // dynamically increase the buffer
      MakeRoom(n);
      var s := WriteBlocks(data, n, order);
      Commit(s, n, Chunks(data, mss), Fields(n, order, nextMsgNo));
    }

    /** Moves `last` behind `n` freshly written blocks, which end before `s`. */
    method Commit(s: Block, n: int, ghost cs: seq<Payload>, ghost fs: seq<MsgField>)
      requires Valid() && n == |cs| == |fs| && n + count < size && s == ring[count + n]
      requires Holds(ring, buffers, 0, contents + cs, msgs + fs)
      modifies this`last, this`count, this`contents, this`msgs, this`nextMsgNo
      ensures Valid() && contents == old(contents) + cs && msgs == old(msgs) + fs
      ensures nextMsgNo == if old(nextMsgNo) + 1 == MAX_MSG_NO then 1 else old(nextMsgNo) + 1
    {
      hide Cycle, Holds, Disjoint;
      last := s;
      count := count + n;
      contents, msgs := contents + cs, msgs + fs;
      nextMsgNo := nextMsgNo + 1;
      if nextMsgNo == MAX_MSG_NO {
        nextMsgNo := 1;
      }
    }

    /** Block `i` of `data`. */
    method Cut(data: seq<Byte>, i: int) returns (chunk: seq<Byte>)
      requires mss > 0 && 0 <= i < |Chunks(data, mss)|
      ensures chunk == Chunks(data, mss)[i] && |chunk| <= mss
    {
      ChunkAt(data, mss, i);
      var pktlen := |data| - i * mss;
      if pktlen > mss {
        pktlen := mss;
      }
      chunk := data[i * mss..i * mss + pktlen];
    }

    /** Copies `chunk` into the memory of block `s`. */
    static method CopyIn(s: Block, area: Memory, chunk: seq<Byte>)
      requires s.area == area && 0 <= s.offset <= s.offset + |chunk| <= area.Length
      modifies area
      ensures forall j :: 0 <= j < area.Length ==>
                area[j] == if s.offset <= j < s.offset + |chunk| then chunk[j - s.offset] else old(area[j])
    {
      var i := 0;
      while i < |chunk|
        invariant 0 <= i <= |chunk|
        invariant forall j :: 0 <= j < area.Length ==>
                    area[j] == if s.offset <= j < s.offset + i then chunk[j - s.offset] else old(area[j])
      {
        area[s.offset + i] := chunk[i];
        i := i + 1;
      }
    }

    lemma BlockAt(x: nat)
      requires Valid() && x < |ring| - 1
      ensures Placed(ring[x], buffers, mss) && ring[x].next == ring[x + 1]
      ensures forall k :: 0 <= k < |ring| && k != x ==> ring[k] != ring[x]
    {
    }

    /** Block `x` has its memory for itself. */
    static lemma Alone(r: seq<Block>, buffers: seq<Memory>, mss: int, x: nat)
      requires Disjoint(r, buffers, mss) && x < |r|
      ensures Placed(r[x], buffers, mss)
      ensures forall k :: 0 <= k < |r| && k != x ==> Placed(r[k], buffers, mss) && Apart(r[k], r[x], mss)
    {
      hide Placed, Apart;
    }

    /** Blocks whose memory lies apart from that of `s` do not notice the copying. */
    static method CopyApart(s: Block, chunk: seq<Byte>, ghost r: seq<Block>, ghost buffers: seq<Memory>,
                            ghost mss: int, ghost cs: seq<Payload>, ghost fs: seq<MsgField>)
      requires |chunk| <= mss && Placed(s, buffers, mss) && Holds(r, buffers, 0, cs, fs)
      requires forall k :: 0 <= k < |cs| ==> Placed(r[k], buffers, mss) && Apart(r[k], s, mss)
      modifies s.area
      ensures Holds(r, buffers, 0, cs, fs)
      ensures forall i :: 0 <= i < |chunk| ==> s.area[s.offset + i] == chunk[i]
    {
      CopyIn(s, s.area, chunk);
    }

    /** Copies `chunk` into the memory of the block behind those that hold `cs`; they do not notice. */
    static method CopyKeeps(s: Block, chunk: seq<Byte>, ghost r: seq<Block>, ghost buffers: seq<Memory>, ghost mss: int,
                            ghost cs: seq<Payload>, ghost fs: seq<MsgField>)
      requires Disjoint(r, buffers, mss) && |cs| < |r| && s == r[|cs|] && |chunk| <= mss && Holds(r, buffers, 0, cs, fs)
      modifies s.area
      ensures Disjoint(r, buffers, mss) && Placed(s, buffers, mss) && Holds(r, buffers, 0, cs, fs)
      ensures forall i :: 0 <= i < |chunk| ==> s.area[s.offset + i] == chunk[i]
    {
      hide Disjoint, Apart, Shows;
      Alone(r, buffers, mss, |cs|);
      CopyApart(s, chunk, r, buffers, mss, cs, fs);
    }

    /** Block `x`, into which `chunk` was copied, gets its length and message field. */
    static method Label(s: Block, chunk: seq<Byte>, msg: MsgField, ghost r: seq<Block>, ghost buffers: seq<Memory>,
                        ghost mss: int, ghost cs: seq<Payload>, ghost fs: seq<MsgField>)
      requires Disjoint(r, buffers, mss) && |cs| < |r| && s == r[|cs|]
               && (forall k :: 0 <= k < |r| && k != |cs| ==> r[k] != s)
      requires |chunk| <= mss && Placed(s, buffers, mss)
      requires forall i :: 0 <= i < |chunk| ==> s.area[s.offset + i] == chunk[i]
      requires Holds(r, buffers, 0, cs, fs)
      modifies s`length, s`msg
      ensures Disjoint(r, buffers, mss) && Holds(r, buffers, 0, cs + [chunk], fs + [msg])
    {
      hide Apart;
      s.length := |chunk|;
      s.msg := msg;
    }

    /** Writes block `i` of a message behind the `i` blocks written so far, and moves on. */
    method WriteBlock(s: Block, chunk: seq<Byte>, msg: MsgField, i: nat, ghost cs: seq<Payload>,
                      ghost fs: seq<MsgField>)
      returns (next: Block)
      requires Valid() && i == |cs| == |fs| && count + i < size - 1 && s == ring[count + i] && |chunk| <= mss
      requires Holds(ring, buffers, 0, contents + cs, msgs + fs)
      modifies s`length, s`msg, s.area
      ensures Valid() && next == ring[count + i + 1]
              && Holds(ring, buffers, 0, contents + (cs + [chunk]), msgs + (fs + [msg]))
    {
      hide Cycle, Disjoint, Holds, Placed;
      BlockAt(count + i);
      CopyKeeps(s, chunk, ring, buffers, mss, contents + cs, msgs + fs);
      Label(s, chunk, msg, ring, buffers, mss, contents + cs, msgs + fs);
      assert contents + cs + [chunk] == contents + (cs + [chunk]) && msgs + fs + [msg] == msgs + (fs + [msg]);
      HoldsPart(ring, buffers, contents, msgs, cs + [chunk], fs + [msg]);
      next := s.next;
    }

    static lemma HoldsPart(r: seq<Block>, buffers: seq<Memory>, cs: seq<Payload>, fs: seq<MsgField>,
                           cs': seq<Payload>, fs': seq<MsgField>)
      requires Holds(r, buffers, 0, cs + cs', fs + fs') && |cs| == |fs|
      ensures Holds(r, buffers, 0, cs, fs)
    {
      hide Shows;
      assert forall k :: 0 <= k < |cs| ==> (cs + cs')[k] == cs[k] && (fs + fs')[k] == fs[k];
    }

    /** Fills the `n` blocks from `last` on; returns the block after them. */
    method WriteBlocks(data: seq<Byte>, n: int, order: bool) returns (s: Block)
      requires Valid() && n == |Chunks(data, mss)| && n + count < size
      modifies ring, buffers
      ensures Valid() && s == ring[count + n]
      ensures Holds(ring, buffers, 0, contents + Chunks(data, mss), msgs + Fields(n, order, nextMsgNo))
    {
      hide Cycle, Holds, Disjoint, Chunks;
      s := last;
      ghost var cs, fs := Chunks(data, mss), Fields(n, order, nextMsgNo);
      NothingYet();
      var i := 0;
      while i < n
        invariant 0 <= i <= n && Valid() && s == ring[count + i]
        invariant Holds(ring, buffers, 0, contents + cs[..i], msgs + fs[..i])
      {
        var chunk := Cut(data, i);
        BlockAt(count + i);
        assert cs[..i] + [cs[i]] == cs[..i + 1] && fs[..i] + [fs[i]] == fs[..i + 1];
        s := WriteBlock(s, chunk, MsgField(i == 0, i == n - 1, order, nextMsgNo), i, cs[..i], fs[..i]);
        i := i + 1;
      }
      assert cs[..n] == cs && fs[..n] == fs;
    }

    lemma NothingYet()
      requires Valid()
      ensures last == ring[count] && contents + [] == contents && msgs + [] == msgs
              && Holds(ring, buffers, 0, contents, msgs)
    {
    }
  }
}
