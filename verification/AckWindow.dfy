/**
  The receiver's record of the acknowledgements it sent, a circular buffer
  that forgets its oldest entry when full.
 */
module AckWindow {
  import opened Arith

  datatype Entry = Entry(id: int, ack: int, time: int)

  type Window = seq<Entry>

  /** The live entries after recording `e`, when at most `cap` are kept. */
  function Stored(w: Window, cap: int, e: Entry): Window {
    if |w| < cap then w + [e] else (w + [e])[1..]
  }

  /** The oldest entry with number `id`; the length when there is none. */
  function Position(w: Window, id: int): (i: int)
    ensures 0 <= i <= |w|
    ensures i < |w| ==> w[i].id == id
    ensures forall k :: 0 <= k < i ==> w[k].id != id
  {
    if w == [] || w[0].id == id then 0 else 1 + Position(w[1..], id)
  }

  /** Acknowledging `id` forgets its entry and all older ones. */
  function Acknowledged(w: Window, id: int): Window {
    var i := Position(w, id);
    if i < |w| then w[i + 1..] else w
  }

  lemma PositionUnique(w: Window, id: int, i: int)
    requires 0 <= i <= |w|
    requires i < |w| ==> w[i].id == id
    requires forall k :: 0 <= k < i ==> w[k].id != id
    ensures Position(w, id) == i
  {
  }

  /** Recording keeps the most recent entries, as many as there is room for. */
  lemma StoredRecent(w: Window, cap: nat, e: Entry)
    requires 0 < cap && |w| <= cap
    ensures var r := Stored(w, cap, e); var n := |r|;
            && n == (if |w| < cap then |w| + 1 else cap)
            && r[n - 1] == e && forall k :: 0 <= k < n - 1 ==> r[k] == w[|w| + 1 - n + k]
  {
  }

  /**
    Confirming an acknowledgement forgets it and all recorded before it, and
    nothing else; a number that is not recorded forgets nothing.
   */
  lemma AcknowledgedRest(w: Window, id: int, k: nat)
    requires k < |w| && forall i, j :: 0 <= i < j < |w| ==> w[i].id < w[j].id
    ensures var r := Acknowledged(w, id);
            && (w[k] in r <==> w[k].id > id || forall j :: 0 <= j < |w| ==> w[j].id != id)
            && forall i, j :: 0 <= i < j < |r| ==> r[i].id < r[j].id
  {
    var i, r := Position(w, id), Acknowledged(w, id);
    if i < |w| {
      assert forall j :: 0 <= j < |r| ==> r[j] == w[i + 1 + j];
      if k > i { assert r[k - i - 1] == w[k]; }
    }
  }

  class AckWindow {
    const size: int
    const ackSeqNo: array<int>
    const ack: array<int>
    const timeStamp: array<int>
    var head: int
    var tail: int

    /** The live entries, oldest first. */
    ghost var live: Window

    /** The slot of the `k`-th live entry. */
    ghost function At(k: int): int
      reads this
    {
      if tail + k < size then tail + k else tail + k - size
    }

    ghost predicate Valid()
      reads this, ackSeqNo, ack, timeStamp
    {
      && size > 0
      && ackSeqNo.Length == ack.Length == timeStamp.Length == size
      && ackSeqNo != ack && ackSeqNo != timeStamp && ack != timeStamp
      && 0 <= tail < size && |live| < size
      && head == At(|live|)
      && forall k :: 0 <= k < |live| ==>
           ackSeqNo[At(k)] == live[k].id && ack[At(k)] == live[k].ack && timeStamp[At(k)] == live[k].time
    }

    constructor (n: int)
      requires n > 0
      ensures Valid() && live == [] && size == n
      ensures fresh(ackSeqNo) && fresh(ack) && fresh(timeStamp)
    {
      size := n;
      ackSeqNo := new int[n](_ => -1);
      ack := new int[n];
      timeStamp := new int[n];
      head, tail, live := 0, 0, [];
    }

    lemma Next(i: int)
      requires 0 <= i < size
      ensures (i + 1) % size == if i + 1 == size then 0 else i + 1
    {
    }

    /** Slot `i` holds entry `e`. */
    ghost predicate Has(i: int, e: Entry)
      reads this, ackSeqNo, ack, timeStamp
      requires ackSeqNo.Length == ack.Length == timeStamp.Length == size && 0 <= i < size
    {
      ackSeqNo[i] == e.id && ack[i] == e.ack && timeStamp[i] == e.time
    }

    /** Writes an entry into the free slot at the head. */
    method Write(id: int, dataAck: int, now: int)
      requires Valid()
      modifies ackSeqNo, ack, timeStamp
      ensures Valid() && 0 <= head < size && Has(head, Entry(id, dataAck, now))
    {
      ackSeqNo[head] := id;
      ack[head] := dataAck;
      timeStamp[head] := now;
    }

    /** Records that acknowledgement `id` of data up to `dataAck` was sent at time `now`. */
    method Store(id: int, dataAck: int, now: int)
      requires Valid()
      modifies this, ackSeqNo, ack, timeStamp
      ensures Valid() && live == Stored(old(live), size - 1, Entry(id, dataAck, now))
    {
      Write(id, dataAck, now);
      Next(head);
      Next(tail);
      head := (head + 1) % size;
      live := live + [Entry(id, dataAck, now)];
      // overwrite the oldest entry when the buffer is full
      if head == tail {
        tail := (tail + 1) % size;
        live := live[1..];
      }
    }

    /** Finds acknowledgement `id`; returns the data number it carried and the time since. */
    method Acknowledge(id: int, now: int) returns (found: bool, dataAck: int, rtt: int)
      requires Valid()
      modifies this, ackSeqNo
      ensures Valid() && live == Acknowledged(old(live), id)
      ensures found <==> Position(old(live), id) < |old(live)|
      ensures found ==> var e := old(live)[Position(old(live), id)]; dataAck == e.ack && rtt == now - e.time
      ensures !found ==> rtt == -1
    {
      dataAck := 0;
      if head >= tail {
        var i := tail;
        while i < head && id != ackSeqNo[i]
          invariant tail <= i <= head
          invariant forall k :: 0 <= k < i - tail ==> live[k].id != id
        {
          i := i + 1;
        }
        PositionUnique(live, id, i - tail);
        if i == head {
          return false, dataAck, -1;
        }
        dataAck := ack[i];
        rtt := now - timeStamp[i];
        if i + 1 == head {
          live := live[i - tail + 1..];
          head, tail := 0, 0;
          ackSeqNo[0] := -1;
        } else {
          Next(i);
          ForgetTo(i - tail, (i + 1) % size);
        }
        return true, dataAck, rtt;
      }
      found, dataAck, rtt := AcknowledgeWrapped(id, now);
    }

    lemma WrapIndex(j: int)
      requires Valid() && head < tail <= j < head + size
      ensures j % size == At(j - tail) != head && 0 <= j - tail < |live|
    {
      if j < size { ModSmall(j, size); } else { DivStep(j, size); ModSmall(j - size, size); }
    }

    /** Forgets the first `k + 1` live entries; the next one is at `newTail`. */
    method ForgetTo(ghost k: int, newTail: int)
      requires Valid() && 0 <= k < |live| && newTail == At(k + 1)
      modifies this`tail, this`live
      ensures Valid() && live == old(live)[k + 1..]
    {
      tail := newTail;
      live := live[k + 1..];
    }

    /** The same search when the live entries wrap around the end of the arrays. */
    method AcknowledgeWrapped(id: int, now: int) returns (found: bool, dataAck: int, rtt: int)
      requires Valid() && head < tail
      modifies this, ackSeqNo
      ensures Valid() && live == Acknowledged(old(live), id)
      ensures found <==> Position(old(live), id) < |old(live)|
      ensures found ==> var e := old(live)[Position(old(live), id)]; dataAck == e.ack && rtt == now - e.time
      ensures !found ==> rtt == -1
    {
      var j, n := tail, head + size;
      WrapIndex(j);
      while j < n && id != ackSeqNo[j % size]
        invariant tail <= j <= n
        invariant j < n ==> j % size == At(j - tail)
        invariant forall k :: 0 <= k < j - tail ==> live[k].id != id
        modifies {}
      {
        j := j + 1;
        if j < n { WrapIndex(j); }
      }
      PositionUnique(live, id, j - tail);
      if j == n {
        return false, 0, -1;
      }
      WrapIndex(j);
      j := j % size;
      dataAck := ack[j];
      rtt := now - timeStamp[j];
      found := true;
      // the slot found is never the head slot, so the two indices are never reset here
      Next(j);
      ForgetTo(Position(live, id), (j + 1) % size);
    }
  }
}
