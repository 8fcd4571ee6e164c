/**
  The sender's loss list: a set of sequence numbers kept as disjoint intervals
  in three fixed arrays.  Each method is proved against the set of unbounded
  numbers the list stands for (`Lost`).
 */
module SndLossList {
  import opened SeqNo
  import opened LossIntervals

  class SndLossList {
    const size: int
    const data1: array<int>
    const data2: array<int>
    const next: array<int>
    var head: int
    var length: int
    var lastInsertPos: int

    ghost var base: int
    ghost var m: Intervals
    ghost var own: seq<int>

    ghost predicate Arrays() {
      && data1.Length == data2.Length == next.Length == size
      && data1 != data2 && data1 != next && data2 != next
    }

    ghost function Sh(): Shape
      reads this, data1, data2, next
    {
      Shape(size, base, m, own, data1[..], data2[..], next[..])
    }

    /** The set of numbers the list stands for. */
    ghost function Lost(): set<int>
      reads this
    {
      Members(m)
    }

    /** The shape is right and the two roving positions are good. */
    ghost predicate Threaded()
      reads this, data1, data2, next
    {
      && Arrays()
      && Sh().Rep()
      && Sh().HeadOk(head)
      && (lastInsertPos == -1 || Sh().Live(lastInsertPos))
    }

    ghost predicate Valid()
      reads this, data1, data2, next
    {
      && Threaded()
      && Disjoint(m)
      && length == |Lost()|
    }

    /** The state between an insertion at interval `c` and the end of coalescing. */
    ghost predicate Loose(c: int)
      reads this, data1, data2, next
    {
      && Threaded()
      && LooseAt(m, c)
      && lastInsertPos == Sh().At(c)
      && length == LooseSize(m, c)
    }

    constructor (n: int)
      requires 0 < n <= SEQ_NO_TH
      ensures Valid() && size == n && Lost() == {}
      ensures fresh(data1) && fresh(data2) && fresh(next)
    {
      size := n;
      data1 := new int[n](_ => -1);
      data2 := new int[n](_ => -1);
      next := new int[n];
      head, length, lastInsertPos := -1, 0, -1;
      base, m, own := 0, map[], seq(n, _ => 0);
    }

    /** The end of the node at `loc` and the length, once node `i` is absorbed. */
    method MergeEnds(loc: int, i: int, ghost c: int, ghost h: int, ghost z: int, ghost y: int)
      requires Arrays() && 0 <= loc < size && 0 <= i < size && loc != i
      requires c < h && c < z <= h + 1 && z <= y && y - c < SEQ_NO_TH && h - c < SEQ_NO_TH
      requires data2[loc] == Wrap(h) && data1[i] == Wrap(z) && data2[i] == Shape.End(z, y)
      modifies this`length, data2
      ensures var e := if y > h then y else h;
              data2[..] == old(data2[..])[loc := Wrap(e)] && length == old(length) - (y - z + 1) + (e - h)
    {
      hide SeqCmp, SeqLen, Wrap, IncSeq;
      CmpSign(y, h);
      CmpSign(h, z);
      if data2[i] != -1 {
        if SeqCmp(data2[i], data2[loc]) > 0 {
          if SeqCmp(data2[loc], data1[i]) >= 0 {
            LenExact(z, h);
            length := length - SeqLen(data1[i], data2[loc]);
          }
          data2[loc] := data2[i];
        } else {
          LenExact(z, y);
          length := length - SeqLen(data1[i], data2[i]);
        }
      } else {
        IncExact(h);
        WrapInjective(z, h + 1);
        if data1[i] == IncSeq(data2[loc]) {
          data2[loc] := data1[i];
        } else {
          length := length - 1;
        }
      }
    }

    lemma AbsorbReady(c: int)
      requires Loose(c) && next[Sh().At(c)] != -1
      ensures var s := Sh(); s.Rep() && s.HeadOk(head) && c in m && Arrays()
      ensures var i := next[Sh().At(c)];
              && 0 <= i < size && own[i] in m && i != Sh().At(c)
              && var z := own[i]; var y := m[z];
                 data1[i] == Wrap(z) && data2[i] == Shape.End(z, y)
                 && data2[Sh().At(c)] == Shape.End(c, m[c])
                 && c < z <= y && y - c < SEQ_NO_TH && c <= m[c] < c + SEQ_NO_TH
      ensures LooseAt(m, c) && length == LooseSize(m, c) && lastInsertPos == Sh().At(c)
    {
      assert c in m;
      hide Shape.Rep, Shape.HeadOk, Shape.Live, LooseAt, LooseSize, Members, Wrap, Slot;
      Sh().NodeAt(c);
      var z := Sh().NextOf(c);
    }

    /** `Loose` from its parts, for a shape just built. */
    lemma LooseFrom(c: int, s: Shape)
      requires Arrays() && s.Rep() && s.HeadOk(head) && LooseAt(s.m, c)
      requires s.n == size && s.base == base && s.m == m && s.own == own
      requires s.d1 == data1[..] && s.d2 == data2[..] && s.nx == next[..]
      requires length == LooseSize(m, c) && lastInsertPos == s.At(c)
      ensures s == Sh() && Loose(c)
    {
      assert c in m;
      s.NodeAt(c);
    }

    /** The node at `i`, next after `loc`, is swallowed by the node at `loc`. */
    method Absorb(loc: int, i: int, ghost c: int, ghost z: int)
      requires Loose(c) && loc == Sh().At(c)
      requires i == next[loc] != -1 && data2[loc] != -1
      requires z == own[i] && z <= m[c] + 1
      modifies this`length, this`m, data1, data2, next
      ensures Loose(c) && Lost() == old(Lost())
      ensures m.Keys == old(m.Keys) - {z} && z in old(m)
    {
      hide Loose, Shape.Rep, Shape.HeadOk, Shape.Live, LooseAt, LooseSize, Members, Wrap, Slot;
      ghost var s0 := Sh();
      AbsorbReady(c);
      ghost var e := if m[z] > m[c] then m[z] else m[c];
      AbsorbNext(m, c, z, e);
      ghost var s1 := s0.SwallowNext(c, e);

      MergeEnds(loc, i, c, m[c], z, m[z]);
      data1[i] := -1;
      data2[i] := -1;
      next[loc] := next[i];
      m := (m - {z})[c := e];
      LooseFrom(c, s1);
    }

    /** What the nodes at and after `c` hold, during coalescing. */
    lemma Peek(loc: int, c: int) returns (z: int)
      requires Loose(c) && Sh().Sized() && loc == Sh().At(c)
      ensures Arrays() && 0 <= loc < size && c in m && -1 <= next[loc] < size && |own| == size
      ensures data2[loc] == Shape.End(c, m[c])
      ensures next[loc] != -1 ==>
                z in m && z == own[next[loc]] && data1[next[loc]] == Wrap(z) && Abs(z - m[c] - 1) < SEQ_NO_TH
      ensures next[loc] == -1 ==> forall k :: k in m ==> k <= c
      ensures next[loc] != -1 ==> forall k :: k in m && c < k ==> z <= k
    {
      assert c in m;
      z := 0;
      hide Shape.Rep, Shape.HeadOk, Shape.Live, LooseAt, LooseSize, Members, Slot;
      Sh().NodeAt(c);
      if next[loc] != -1 { z := Sh().NextOf(c); } else { Sh().NoNext(c); }
    }

    lemma Tightened(c: int)
      requires Loose(c) && forall k :: k in m && c < k ==> m[c] < k
      ensures Valid()
    {
      LooseDone(m, c);
    }

    /** Coalescing with the intervals that follow ends the overlap. */
    method Coalesce(loc: int, ghost c: int)
      requires Loose(c) && Sh().Sized() && loc == Sh().At(c)
      modifies this`length, this`m, data1, data2, next
      ensures Valid() && Lost() == old(Lost())
    {
      hide Loose, Valid, Lost, Shape.Rep, Slot, SeqCmp, IncSeq, Wrap;
      ghost var z := Peek(loc, c);
      while next[loc] != -1 && data2[loc] != -1
        invariant Loose(c) && Sh().Sized() && loc == Sh().At(c)
        invariant 0 <= loc < size && Arrays()
        invariant Lost() == old(Lost())
        decreases |m.Keys|
      {
        z := Peek(loc, c);
        var i := next[loc];
        IncExact(m[c]);
        CmpSign(z, m[c] + 1);
        if SeqCmp(data1[i], IncSeq(data2[loc])) <= 0 {
          Absorb(loc, i, c, z);
        } else {
          break;
        }
      }
      z := Peek(loc, c);
      Tightened(c);
    }

    // ---------------------------------------------------------------- insertion

    /** The range [a, b] and the recorded numbers fit one window of the arrays. */
    ghost predicate Fits(a: int, b: int)
      reads this
    {
      a <= b && b - a < size && forall x :: x in Lost() ==> x - a < size && b - x < size
    }

    lemma FitsNodes(a: int, b: int)
      requires Valid() && Fits(a, b)
      ensures forall k :: k in m ==> k <= m[k] && m[k] - a < size && b - k < size
      ensures size <= SEQ_NO_TH
    {
      hide Shape.Stored, Shape.Blank, Shape.Linked, Members, Shape.HeadOk, Shape.Live;
      EndsAreMembers(m);
    }

    lemma HeadNode() returns (h: int)
      requires Valid()
      ensures Arrays() && |own| == size && Sh().Sized()
      ensures length == 0 <==> m == map[]
      ensures length != 0 ==> 0 <= head < size && h == own[head] && h in m && Sh().At(h) == head && Sh().IsFirst(h)
                              && data1[head] == Wrap(h) && data2[head] == Shape.End(h, m[h])
    {
      hide Members, Disjoint, Shape.Blank, Shape.Linked, Lost;
      EmptyIff();
      h := 0;
      if length != 0 {
        assert Sh().HeadOk(head) && Sh().Live(head);
        h := own[head];
      }
    }

    lemma EmptyIff()
      requires Valid()
      ensures length == 0 <==> m == map[]
    {
      hide Shape.Rep, Shape.HeadOk, Shape.Live, Members, Disjoint;
      EndsAreMembers(m);
    }

    /** `Valid` from its parts, for a shape just built. */
    lemma ValidFrom(s: Shape)
      requires Arrays() && s.Rep() && s.HeadOk(head) && Disjoint(s.m) && length == |Members(s.m)|
      requires s.n == size && s.base == base && s.m == m && s.own == own
      requires s.d1 == data1[..] && s.d2 == data2[..] && s.nx == next[..]
      requires lastInsertPos == -1 || s.Live(lastInsertPos)
      ensures s == Sh() && Valid()
    {
    }

    method InsertIntoEmpty(seqno1: int, seqno2: int, ghost a: int, ghost b: int)
      requires Valid() && Fits(a, b) && seqno1 == Wrap(a) && seqno2 == Wrap(b) && m == map[] && length == 0
      modifies this`head, this`length, this`lastInsertPos, this`m, this`own, this`base, data1, data2, next
      ensures Valid() && Lost() == Range(a, b) && length == |Lost()|
    {
      hide Valid, Fits, Shape.Rep, Shape.HeadOk, Shape.Live, Members, Wrap, Disjoint, Slot, SeqLen, Range;
      ghost var s := EmptyReady(a, b);
      head := 0;
      WriteNode(head, seqno1, seqno2, a, b);
      next[head] := -1;
      lastInsertPos := head;
      length := length + SeqLen(seqno1, seqno2);
      base, m, own := -a, m[a := b], own[0 := a];
      ValidFrom(s);
    }

    lemma EmptyReady(a: int, b: int) returns (s: Shape)
      requires Valid() && m == map[] && Fits(a, b)
      ensures Arrays() && size > 0 && |own| == size && data2[0] == -1 && a <= b < a + SEQ_NO_TH
      ensures s == Shape(size, -a, m[a := b], own[0 := a], data1[..][0 := Wrap(a)],
                         data2[..][0 := Shape.End(a, b)], next[..][0 := -1])
      ensures s.Rep() && s.HeadOk(0) && s.Live(0)
      ensures Disjoint(s.m) && Members(s.m) == Range(a, b) && |Members(s.m)| == SeqLen(Wrap(a), Wrap(b))
    {
      s := Sh().Restart(a, b);
      PutLoose(m, a, b);
      LooseDone(m[a := b], a);
      assert Members(m) == {};
      hide Shape.Rep, Shape.HeadOk, Shape.Live, Members, Wrap, Disjoint, SeqLen;
      LenExact(a, b);
    }

    method WriteNode(loc: int, seqno1: int, seqno2: int, ghost a: int, ghost b: int)
      requires Arrays() && 0 <= loc < size && data2[loc] == -1
      requires seqno1 == Wrap(a) && seqno2 == Wrap(b) && a <= b < a + SEQ_NO_TH
      modifies data1, data2
      ensures data1[..] == old(data1[..])[loc := Wrap(a)]
      ensures data2[..] == old(data2[..])[loc := Shape.End(a, b)]
    {
      WrapInjective(a, b);
      data1[loc] := seqno1;
      if seqno2 != seqno1 {
        data2[loc] := seqno2;
      }
    }

    lemma FrontReady(a: int, b: int) returns (s: Shape)
      requires Valid() && Fits(a, b) && length != 0 && Sh().Sized() && a < own[head]
      ensures Arrays() && |own| == size && data2[Sh().At(a)] == -1 && a <= b < a + SEQ_NO_TH
      ensures var j := Sh().At(a);
              s == Shape(size, base, m[a := b], own[j := a], data1[..][j := Wrap(a)],
                         data2[..][j := Shape.End(a, b)], next[..][j := head])
      ensures s.Rep() && s.HeadOk(s.At(a))
      ensures LooseAt(s.m, a) && LooseSize(s.m, a) == length + SeqLen(Wrap(a), Wrap(b))
      ensures Members(s.m) == Lost() + Range(a, b)
    {
      hide Shape.Stored, Shape.Blank, Shape.Linked, Members, LooseAt, LooseSize, Slot, SeqLen, Wrap;
      var h := HeadNode();
      FitsNodes(a, b);
      PutLoose(m, a, b);
      Sh().FreeSlot(a);
      s := Sh().PutFirst(a, b, head);
      LenExact(a, b);
    }

    /** A node for [a, b] at its slot `loc`, in front of the list. */
    method InsertInFront(loc: int, seqno1: int, seqno2: int, ghost a: int, ghost b: int)
      requires Valid() && Fits(a, b) && length != 0 && Sh().Sized() && a < own[head] && loc == Sh().At(a)
      requires seqno1 == Wrap(a) && seqno2 == Wrap(b)
      modifies this`head, this`length, this`lastInsertPos, this`m, this`own, data1, data2, next
      ensures Loose(a) && Lost() == old(Lost()) + Range(a, b) && Sh().Sized() && loc == Sh().At(a)
    {
      hide Valid, Loose, Fits, Shape.Rep, Shape.HeadOk, Members, Wrap, LooseAt, LooseSize, Slot, Range, SeqLen;
      ghost var s := FrontReady(a, b);
      WriteNode(loc, seqno1, seqno2, a, b);
      next[loc] := head;
      head := loc;
      lastInsertPos := loc;
      length := length + SeqLen(seqno1, seqno2);
      m, own := m[a := b], own[loc := a];
      LooseFrom(a, s);
    }

    /** No recorded interval starts after `p` and not after `a`. */
    ghost predicate NoneBetween(p: int, a: int)
      reads this
    {
      forall k :: k in m ==> k <= p || a < k
    }

    lemma AfterSlot(p: int, a: int, b: int)
      requires Valid() && Fits(a, b) && Sh().Sized() && p in m && a !in m
      ensures Arrays() && |own| == size && data2[Sh().At(a)] == -1 && Sh().At(p) != Sh().At(a)
      ensures !Sh().Live(Sh().At(a)) && b - a < SEQ_NO_TH
    {
      hide Shape.Rep, Shape.HeadOk, Shape.Live, Members, Slot, Disjoint, Fits, Lost, Near;
      FitsNear(a, b);
      SlotFree(a);
    }

    lemma SlotFree(a: int)
      requires Valid() && Sh().Sized() && a !in m && forall k :: k in m ==> Abs(a - k) < size
      ensures Arrays() && |own| == size && !Sh().Live(Sh().At(a)) && data2[Sh().At(a)] == -1
      ensures forall k :: k in m ==> Sh().At(k) != Sh().At(a)
    {
      hide Shape.Rep, Shape.HeadOk, Shape.Live, Members, Slot, Disjoint;
      Sh().FreeSlot(a);
    }

    lemma AfterReady(p: int, a: int, b: int) returns (s: Shape)
      requires Valid() && Fits(a, b) && Sh().Sized() && p in m && a !in m && p < a
      requires NoneBetween(p, a)
      ensures var j := Sh().At(a); var i := Sh().At(p);
              s == Shape(size, base, m[a := b], own[j := a], data1[..][j := Wrap(a)],
                         data2[..][j := Shape.End(a, b)], next[..][j := next[i]][i := j])
      ensures s.Rep() && s.HeadOk(head)
    {
      AfterSlot(p, a, b);
      FitsNodes(a, b);
      assert Sh().HeadOk(head);
      hide Shape.Rep, Shape.HeadOk, Shape.Live, Lost, Slot, Disjoint, Fits;
      s := Sh().PutAfter(p, a, b);
      Sh().PutAfterHead(p, a, b, head);
    }

    lemma AfterLoose(p: int, a: int, b: int)
      requires Valid() && p in m && a !in m && p < a <= b && m[p] < a
      requires NoneBetween(p, a)
      ensures LooseAt(m[a := b], a) && LooseSize(m[a := b], a) == length + b - a + 1
      ensures Members(m[a := b]) == Lost() + Range(a, b)
    {
      hide Shape.Rep, Shape.HeadOk, Shape.Live, Members, Slot;
      PutLoose(m, a, b);
    }

    /** The array writes that create a node at `loc` after the node at `i`. */
    method NewNode(i: int, loc: int, seqno1: int, seqno2: int, ghost a: int, ghost b: int)
      requires Arrays() && 0 <= i < size && 0 <= loc < size && i != loc && data2[loc] == -1
      requires seqno1 == Wrap(a) && seqno2 == Wrap(b) && a <= b < a + SEQ_NO_TH
      modifies data1, data2, next
      ensures data1[..] == old(data1[..])[loc := Wrap(a)]
      ensures data2[..] == old(data2[..])[loc := Shape.End(a, b)]
      ensures next[..] == old(next[..])[loc := old(next[i])][i := loc]
    {
      WriteNode(loc, seqno1, seqno2, a, b);
      next[loc] := next[i];
      next[i] := loc;
    }

    lemma AfterAll(p: int, a: int, b: int) returns (s: Shape)
      requires Valid() && Fits(a, b) && Sh().Sized() && p in m && a !in m && p < a && m[p] < a
      requires NoneBetween(p, a)
      ensures Arrays() && |own| == size && data2[Sh().At(a)] == -1 && Sh().At(p) != Sh().At(a)
      ensures a <= b < a + SEQ_NO_TH
      ensures var j := Sh().At(a); var i := Sh().At(p);
              s == Shape(size, base, m[a := b], own[j := a], data1[..][j := Wrap(a)],
                         data2[..][j := Shape.End(a, b)], next[..][j := next[i]][i := j])
      ensures s.Rep() && s.HeadOk(head)
      ensures LooseAt(s.m, a) && LooseSize(s.m, a) == length + SeqLen(Wrap(a), Wrap(b))
      ensures Members(s.m) == Lost() + Range(a, b)
    {
      AfterSlot(p, a, b);
      assert a <= b by { assert Fits(a, b); }
      AfterLoose(p, a, b);
      hide Valid, Fits, NoneBetween, Shape.Rep, Shape.HeadOk, Shape.Live, Members, Wrap, LooseAt, LooseSize, Slot;
      hide Range, SeqLen;
      s := AfterReady(p, a, b);
      LenExact(a, b);
    }

    /** A node for [a, b] at its slot `loc`, linked after the node at `i`. */
    method InsertAfter(i: int, loc: int, seqno1: int, seqno2: int, ghost p: int, ghost a: int, ghost b: int)
      requires Valid() && Fits(a, b) && Sh().Sized() && p in m && a !in m && p < a && m[p] < a
      requires NoneBetween(p, a)
      requires i == Sh().At(p) && loc == Sh().At(a)
      requires seqno1 == Wrap(a) && seqno2 == Wrap(b)
      modifies this`length, this`lastInsertPos, this`m, this`own, data1, data2, next
      ensures Loose(a) && Lost() == old(Lost()) + Range(a, b) && Sh().Sized() && loc == Sh().At(a)
    {
      hide Valid, Loose, Fits, NoneBetween, Shape.Rep, Shape.HeadOk, Members, Wrap, LooseAt, LooseSize, Slot, Range;
      hide SeqLen;
      ghost var s := AfterAll(p, a, b);
      NewNode(i, loc, seqno1, seqno2, a, b);
      lastInsertPos := loc;
      length := length + SeqLen(seqno1, seqno2);
      m, own := m[a := b], own[loc := a];
      LooseFrom(a, s);
    }

    lemma StretchReady(c: int, a: int, b: int) returns (s: Shape)
      requires Valid() && Fits(a, b) && Sh().Sized() && c in m && m[c] < b && c <= a <= m[c] + 1
      ensures Arrays() && |own| == size
      ensures var j := Sh().At(c);
              s == Shape(size, base, m[c := b], own, data1[..], data2[..][j := Wrap(b)], next[..])
      ensures s.Rep() && s.HeadOk(head)
      ensures LooseAt(s.m, c) && LooseSize(s.m, c) == length + SeqLen(Wrap(m[c]), Wrap(b)) - 1
      ensures Members(s.m) == Lost() + Range(a, b)
    {
      hide Shape.Stored, Shape.Blank, Shape.Linked, Members, LooseAt, LooseSize, Slot, Wrap, SeqLen;
      FitsNodes(a, b);
      StretchLoose(m, c, a, b);
      s := Sh().SetEnd(c, b);
      LenExact(m[c], b);
    }

    /** The node at `loc`, which ends at `from`, is made to end at `seqno2`. */
    method Stretch(loc: int, from: int, seqno2: int, ghost c: int, ghost a: int, ghost b: int)
      requires Valid() && Fits(a, b) && Sh().Sized() && c in m && m[c] < b && c <= a <= m[c] + 1
      requires loc == Sh().At(c) && from == Wrap(m[c]) && seqno2 == Wrap(b)
      modifies this`length, this`lastInsertPos, this`m, data2
      ensures Loose(c) && Lost() == old(Lost()) + Range(a, b) && Sh().Sized() && loc == Sh().At(c)
    {
      hide Valid, Loose, Fits, Shape.Rep, Shape.HeadOk, Members, Wrap, LooseAt, LooseSize, Slot, Range, SeqLen;
      ghost var s := StretchReady(c, a, b);
      lastInsertPos := loc;
      length := length + SeqLen(from, seqno2) - 1;
      data2[loc] := seqno2;
      m := m[c := b];
      LooseFrom(c, s);
    }

    /** All nodes are within comparison range of number `a`. */
    ghost predicate Near(a: int)
      reads this
    {
      forall k :: k in m ==> Abs(k - a) < SEQ_NO_TH && Abs(m[k] - a) < SEQ_NO_TH
    }

    /** A live slot is that of the number that owns it. */
    lemma SlotOwned(i: int)
      requires Valid() && Sh().Live(i)
      ensures Arrays() && |own| == size && 0 <= i < size && own[i] in m && Sh().At(own[i]) == i && Sh().Rep()
    {
      hide Lost, Disjoint, Members, Shape.HeadOk, Wrap;
    }

    lemma NodeReady(i: int, a: int) returns (p: int)
      requires Valid() && Sh().Sized() && Sh().Live(i) && Near(a)
      ensures Arrays() && |own| == size && 0 <= i < size
      ensures p == own[i] && p in m && Sh().At(p) == i && Abs(p - a) < SEQ_NO_TH
      ensures data1[i] == Wrap(p) && data2[i] == Shape.End(p, m[p]) && p <= m[p] && Abs(m[p] - a) < SEQ_NO_TH
      ensures -1 <= next[i] < size
      ensures next[i] == -1 ==> forall k :: k in m ==> k <= p
      ensures next[i] != -1 ==>
                var z := own[next[i]];
                Sh().Live(next[i]) && z in m && p < z && Abs(z - a) < SEQ_NO_TH
                && data1[next[i]] == Wrap(z) && forall k :: k in m ==> k <= p || z <= k
    {
      hide Shape.Rep, Shape.Live, Shape.HeadOk, Lost, Disjoint, Slot;
      SlotOwned(i);
      p := own[i];
      Sh().NodeAt(p);
      if next[i] == -1 { Sh().NoNext(p); } else { var z := Sh().NextOf(p); Sh().NodeAt(z); }
    }

    /** The last node that starts before `seqno1`, searching from the last insertion if possible. */
    method FindPrior(seqno1: int, ghost a: int) returns (i: int)
      requires Valid() && Sh().Sized() && length != 0 && own[head] < a && seqno1 == Wrap(a)
      requires Near(a)
      ensures Sh().Live(i) && own[i] < a
      ensures forall k :: k in m ==> k <= own[i] || a <= k
    {
      hide Valid, Sh, Shape.Live, Wrap, SeqCmp, Near;
      i := StartOfSearch(seqno1, a);
      ghost var p := NodeReady(i, a);
      if next[i] != -1 { CmpSign(own[next[i]], a); }
      while next[i] != -1 && SeqCmp(data1[next[i]], seqno1) < 0
        invariant Sh().Sized() && Sh().Live(i) && 0 <= i < size && own[i] == p < a
        invariant -1 <= next[i] < size
        invariant next[i] != -1 ==> Sh().Live(next[i]) && p < own[next[i]]
        invariant next[i] != -1 ==> (SeqCmp(data1[next[i]], seqno1) < 0 <==> own[next[i]] < a)
        decreases a - own[i]
      {
        i := next[i];
        p := NodeReady(i, a);
        if next[i] != -1 { CmpSign(own[next[i]], a); }
      }
      p := NodeReady(i, a);
    }

    method StartOfSearch(seqno1: int, ghost a: int) returns (i: int)
      requires Valid() && Sh().Sized() && length != 0 && own[head] < a && seqno1 == Wrap(a)
      requires Near(a)
      ensures Sh().Live(i) && own[i] < a
    {
      ghost var h := HeadNode();
      assert Sh().Live(head) && (lastInsertPos == -1 || Sh().Live(lastInsertPos));
      hide Valid, Shape.Live, Wrap, SeqCmp, Near;
      if lastInsertPos != -1 {
        ghost var p := NodeReady(lastInsertPos, a);
        CmpSign(p, a);
      }
      if lastInsertPos != -1 && SeqCmp(data1[lastInsertPos], seqno1) < 0 {
        i := lastInsertPos;
      } else {
        i := head;
      }
    }

    /** Where the head-relative slot computation leads. */
    lemma Locate(a: int, b: int)
      requires Valid() && Fits(a, b) && length != 0
      ensures Arrays() && |own| == size && Sh().Sized() && 0 <= head < size && own[head] in m
      ensures SeqOff(data1[head], Wrap(a)) == a - own[head]
      ensures (head + (a - own[head]) + size) % size == Sh().At(a)
    {
      var h := HeadNode();
      FitsNodes(a, b);
      hide Shape.Rep, Shape.HeadOk, Members, Fits, Disjoint, SeqOff, Wrap;
      OffExact(h, a);
      SlotStep(size, base, h, a - h);
    }

    lemma FitsNear(a: int, b: int)
      requires Valid() && Fits(a, b)
      ensures Near(a) && Near(b) && a <= b < a + SEQ_NO_TH
      ensures forall k :: k in m ==> Abs(a - k) < size
    {
      hide Valid, Lost;
      FitsNodes(a, b);
    }

    /** What the slot of `a` holds. */
    lemma AtSlot(a: int, b: int)
      requires Valid() && Fits(a, b) && Sh().Sized()
      ensures Arrays() && |own| == size
      ensures data1[Sh().At(a)] == Wrap(a) <==> a in m
      ensures a in m ==> data2[Sh().At(a)] == Shape.End(a, m[a]) && Sh().Live(Sh().At(a))
    {
      hide Near, Fits, Shape.Rep, Shape.HeadOk, Shape.Live, Members, Slot, Disjoint, Lost;
      FitsNear(a, b);
      if a in m { Sh().NodeAt(a); } else { Sh().FreeSlot(a); }
    }

    lemma StillLoose(c: int)
      requires Valid() && c in m && Sh().Sized() && lastInsertPos == Sh().At(c)
      ensures Loose(c)
    {
      assert c <= m[c];
      LooseDone(m, c) by { assert LooseAt(m, c); }
    }

    lemma SameReady(a: int, b: int)
      requires Valid() && Fits(a, b) && a in m && Sh().Sized()
      ensures Arrays() && 0 <= Sh().At(a) < size && Sh().Live(Sh().At(a))
      ensures data2[Sh().At(a)] == Shape.End(a, m[a])
      ensures Wrap(a) == Wrap(b) <==> a == b
      ensures SeqCmp(Wrap(b), Wrap(m[a])) > 0 <==> b > m[a]
      ensures b <= m[a] ==> Lost() + Range(a, b) == Lost()
      ensures a <= b && a <= m[a]
    {
      hide Valid, Fits, Wrap, SeqCmp, Shape.Live, Members;
      FitsNodes(a, b);
      AtSlot(a, b);
      FitsNear(a, b);
      WrapInjective(a, b);
      CmpSign(b, m[a]);
      if b <= m[a] { Covered(m, a, a, b); }
    }

    /** The list has a node that starts at `a`: make it reach `b`. */
    method InsertSameStart(loc: int, seqno1: int, seqno2: int, ghost a: int, ghost b: int) returns (grown: bool)
      requires Valid() && Fits(a, b) && length != 0 && a in m && Sh().Sized() && loc == Sh().At(a)
      requires seqno1 == Wrap(a) && seqno2 == Wrap(b)
      modifies this`length, this`lastInsertPos, this`m, data2
      ensures Sh().Sized() && loc == Sh().At(a)
      ensures if grown then Loose(a) else Valid() && length == old(length)
      ensures Lost() == old(Lost()) + Range(a, b)
    {
      hide Valid, Loose, Fits, Shape.Live, Wrap, SeqCmp, Slot, Range, Lost;
      SameReady(a, b);
      if data2[loc] == -1 {
        if seqno2 != seqno1 {
          Stretch(loc, seqno1, seqno2, a, a, b);
        } else {
          Mark(loc);
          StillLoose(a);
        }
        grown := true;
      } else if SeqCmp(seqno2, data2[loc]) > 0 {
        Stretch(loc, data2[loc], seqno2, a, a, b);
        grown := true;
      } else {
        Mark(loc);
        grown := false;
      }
    }

    method Mark(loc: int)
      requires Valid() && Sh().Sized() && Sh().Live(loc)
      modifies this`lastInsertPos
      ensures Valid() && lastInsertPos == loc && Lost() == old(Lost())
    {
      lastInsertPos := loc;
    }

    lemma PriorReady(i: int, a: int, b: int) returns (p: int)
      requires Valid() && Fits(a, b) && Sh().Sized() && Sh().Live(i) && own[i] < a && a !in m
      requires forall k :: k in m ==> k <= own[i] || a <= k
      ensures Arrays() && 0 <= i < size && |own| == size
      ensures p == own[i] && p in m && i == Sh().At(p) && p < a && NoneBetween(p, a)
      ensures data2[i] == Shape.End(p, m[p]) && p <= m[p]
      ensures SeqCmp(Wrap(m[p]), Wrap(a)) < 0 <==> m[p] < a
      ensures SeqCmp(Wrap(m[p]), Wrap(b)) < 0 <==> m[p] < b
      ensures b <= m[p] ==> Lost() + Range(a, b) == Lost()
    {
      hide Valid, Fits, SeqCmp, Wrap, Shape.Live, Members;
      FitsNear(a, b);
      p := NodeReady(i, a);
      CmpSign(m[p], a);
      CmpSign(m[p], b);
      if b <= m[p] { Covered(m, p, a, b); }
    }

    /** No node starts at `a`: make one, or let the node before `a` reach `b`. */
    method InsertBetween(loc: int, seqno1: int, seqno2: int, ghost a: int, ghost b: int)
      returns (grown: bool, at: int, ghost c: int)
      requires Valid() && Fits(a, b) && length != 0 && a !in m && Sh().Sized() && own[head] < a && loc == Sh().At(a)
      requires seqno1 == Wrap(a) && seqno2 == Wrap(b)
      modifies this`length, this`lastInsertPos, this`m, this`own, data1, data2, next
      ensures if grown then Loose(c) && Sh().Sized() && at == Sh().At(c) else Valid() && length == old(length)
      ensures Lost() == old(Lost()) + Range(a, b)
    {
      hide Valid, Loose, Fits, Near, NoneBetween, Shape.Live, Wrap, SeqCmp, Slot, Range, Lost;
      FitsNear(a, b);
      var i := FindPrior(seqno1, a);
      ghost var p := PriorReady(i, a, b);
      if data2[i] == -1 || SeqCmp(data2[i], seqno1) < 0 {
        InsertAfter(i, loc, seqno1, seqno2, p, a, b);
        grown, at, c := true, loc, a;
      } else if SeqCmp(data2[i], seqno2) < 0 {
        Stretch(i, data2[i], seqno2, p, a, b);
        grown, at, c := true, i, p;
      } else {
        Mark(i);
        grown, at, c := false, i, p;
      }
    }

    /** The head node starts at `a`: make it reach `b`. */
    method InsertAtHead(seqno1: int, seqno2: int, ghost a: int, ghost b: int) returns (grown: bool)
      requires Valid() && Fits(a, b) && length != 0 && a in m && Sh().Sized() && head == Sh().At(a)
      requires seqno1 == Wrap(a) && seqno2 == Wrap(b)
      modifies this`length, this`lastInsertPos, this`m, data2
      ensures Sh().Sized() && head == Sh().At(a)
      ensures if grown then Loose(a) else Valid() && length == old(length)
      ensures Lost() == old(Lost()) + Range(a, b)
    {
      hide Valid, Loose, Fits, Shape.Live, Wrap, SeqCmp, Slot, Range, Lost;
      SameReady(a, b);
      grown := false;
      if seqno2 != seqno1 {
        if data2[head] == -1 {
          Stretch(head, seqno1, seqno2, a, a, b);
          grown := true;
        } else if SeqCmp(seqno2, data2[head]) > 0 {
          Stretch(head, data2[head], seqno2, a, a, b);
          grown := true;
        } else {
          Mark(head);
        }
      } else {
        Mark(head);
      }
    }

    lemma CountLost()
      requires Valid()
      ensures length == |Lost()|
      ensures length == 0 ==> m == map[] && Lost() == {}
    {
      EndsAreMembers(m);
    }

    /** Records [a, b] in a non-empty list, up to the coalescing with later nodes. */
    method Splice(seqno1: int, seqno2: int, ghost a: int, ghost b: int)
      returns (grown: bool, loc: int, ghost c: int)
      requires Valid() && Fits(a, b) && length != 0
      requires seqno1 == Wrap(a) && seqno2 == Wrap(b)
      modifies this, data1, data2, next
      ensures if grown then Loose(c) && Sh().Sized() && loc == Sh().At(c) else Valid() && length == old(length)
      ensures Lost() == old(Lost()) + Range(a, b)
    {
      hide Valid, Loose, Fits, Wrap, Slot, Range, Lost, SeqOff, Shape.Live;
      Locate(a, b);
      AtSlot(a, b);
      var offset := SeqOff(data1[head], seqno1);
      loc := (head + offset + size) % size;
      grown, c := true, a;

      if offset < 0 {
        InsertInFront(loc, seqno1, seqno2, a, b);
      } else if offset > 0 {
        if seqno1 == data1[loc] {
          grown := InsertSameStart(loc, seqno1, seqno2, a, b);
        } else {
          grown, loc, c := InsertBetween(loc, seqno1, seqno2, a, b);
        }
      } else {
        loc := head;
        grown := InsertAtHead(seqno1, seqno2, a, b);
      }
    }

    /**
      Records the range `seqno1..seqno2`, which stands for [a, b], and returns
      how many of its numbers were not recorded before.
     */
    method Insert(seqno1: int, seqno2: int, ghost a: int, ghost b: int) returns (added: int)
      requires Valid() && Fits(a, b)
      requires seqno1 == Wrap(a) && seqno2 == Wrap(b)
      modifies this, data1, data2, next
      ensures Valid()
      ensures Lost() == old(Lost()) + Range(a, b)
      ensures added == |Lost()| - |old(Lost())|
    {
      hide Valid, Loose, Fits, Wrap, Slot, Range, Lost;
      CountLost();
      if length == 0 {
        InsertIntoEmpty(seqno1, seqno2, a, b);
        return length;
      }
      var origlen := length;
      var grown, loc; ghost var c;
      grown, loc, c := Splice(seqno1, seqno2, a, b);
      if !grown {
        CountLost();
        return 0;
      }
      Coalesce(loc, c);
      CountLost();
      return length - origlen;
    }

    // ---------------------------------------------------------------- removal

    /** Dropping the single-number head node. */
    lemma Threading()
      requires Valid()
      ensures Arrays() && |own| == size && Sh().Sized() && Sh().Rep() && Disjoint(m)
      ensures lastInsertPos != -1 ==> Sh().Live(lastInsertPos)
    {
      hide Shape.Stored, Shape.Blank, Shape.Linked, Shape.Windowed, Shape.Live, Members, Disjoint;
    }

    lemma DropReady() returns (h: int, s: Shape)
      requires Valid() && length != 0
      ensures Arrays() && 0 <= head < size && h == own[head] && h in m && data1[head] == Wrap(h)
      ensures h <= m[h] < h + SEQ_NO_TH && data2[head] == Shape.End(h, m[h])
      ensures s == Shape(size, base, m - {h}, own, data1[..][head := -1], data2[..][head := -1], next[..])
      ensures s.Rep() && s.HeadOk(next[head])
      ensures lastInsertPos != -1 && lastInsertPos != head ==> s.Live(lastInsertPos)
    {
      hide Valid, Shape.Rep, Shape.Live, Shape.HeadOk, Slot;
      h := HeadNode();
      Threading();
      Sh().Window(h);
      Sh().NodeAt(h);
      s := Sh().DropFirst(h);
      if lastInsertPos != -1 && lastInsertPos != head { Sh().DropFirstLive(h, lastInsertPos); }
    }

    /** Moving the head node, which has several numbers, up by one. */
    lemma ShiftReady() returns (h: int, s: Shape)
      requires Valid() && length != 0 && 0 <= head < data2.Length && data2[head] != -1
      ensures Arrays() && |own| == size && 0 <= head < size && h == own[head] && h in m && data1[head] == Wrap(h)
      ensures h < m[h] && data2[head] == Wrap(m[h])
      ensures (head + 1) % size == Sh().At(h + 1) != head && data2[Sh().At(h + 1)] == -1
      ensures IncSeq(Wrap(h)) == Wrap(h + 1)
      ensures SeqCmp(Wrap(m[h]), Wrap(h + 1)) > 0 <==> m[h] > h + 1
      ensures var j := Sh().At(h + 1);
              s == Shape(size, base, (m - {h})[h + 1 := m[h]], own[j := h + 1],
                         data1[..][head := -1][j := Wrap(h + 1)],
                         data2[..][head := -1][j := Shape.End(h + 1, m[h])],
                         next[..][j := next[head]])
      ensures s.Rep() && s.HeadOk(Sh().At(h + 1))
      ensures lastInsertPos != -1 && lastInsertPos != head ==> s.Live(lastInsertPos)
    {
      hide Valid, Shape.Rep, Shape.HeadOk, Shape.Live, Slot, Wrap, SeqCmp, IncSeq, Disjoint;
      var t;
      h, t := DropReady();
      var g := HeadNode();
      Threading();
      SlotStep(size, base, h, 1);
      IncExact(h);
      CmpSign(m[h], h + 1);
      s := Sh().ShiftFirst(h);
      if lastInsertPos != -1 && lastInsertPos != head { Sh().ShiftFirstLive(h, lastInsertPos, s); }
    }

    /** What is recorded once the smallest number is gone. */
    lemma LeastGone() returns (h: int)
      requires Valid() && length != 0
      ensures h == own[head] && h in m && h in Lost() && forall x :: x in Lost() ==> h <= x
      ensures var m' := if h == m[h] then m - {h} else (m - {h})[h + 1 := m[h]];
              Disjoint(m') && Members(m') == Lost() - {h} && |Members(m')| == length - 1
    {
      h := HeadNode();
      StartGone(m, h);
      FirstIsLeast(m, h);
    }

    /** The array writes that move the head node to the next slot `loc`. */
    method MoveHead(loc: int, seqno: int, ghost h: int, ghost e: int)
      requires Arrays() && 0 <= head < size && 0 <= loc < size && loc != head && data2[loc] == -1
      requires h < e && data2[head] == Wrap(e) && IncSeq(seqno) == Wrap(h + 1)
      requires SeqCmp(Wrap(e), Wrap(h + 1)) > 0 <==> e > h + 1
      modifies data1, data2, next
      ensures data1[..] == old(data1[..])[head := -1][loc := Wrap(h + 1)]
      ensures data2[..] == old(data2[..])[head := -1][loc := Shape.End(h + 1, e)]
      ensures next[..] == old(next[..])[loc := old(next[head])]
    {
      hide Wrap, SeqCmp, IncSeq;
      data1[loc] := IncSeq(seqno);
      if SeqCmp(data2[head], data1[loc]) > 0 {
        data2[loc] := data2[head];
      }
      data1[head] := -1;
      data2[head] := -1;
      next[loc] := next[head];
    }

    /** The head node is a single number: unlink it. */
    method PopSingle(ghost h: int)
      requires Valid() && length != 0 && 0 <= head < data2.Length && data2[head] == -1
      requires |own| > head && h == own[head]
      modifies this`head, this`length, this`lastInsertPos, this`m, data1, data2
      ensures Valid() && Lost() == old(Lost()) - {h}
    {
      hide Valid, Members, Shape.Rep, Shape.HeadOk, Shape.Live, Wrap, Slot, Disjoint;
      ghost var x, s := DropReady();
      x := LeastGone();
      if lastInsertPos == head {
        lastInsertPos := -1;
      }
      data1[head] := -1;
      assert data2[..] == s.d2;
      head := next[head];
      length := length - 1;
      m := m - {h};
      ValidFrom(s);
    }

    /** What is recorded once the head node is moved up by one. */
    lemma ShiftMembers(h: int)
      requires Valid() && length != 0 && |own| > head && h == own[head] && h in m && h != m[h]
      ensures var m' := (m - {h})[h + 1 := m[h]];
              Disjoint(m') && Members(m') == Lost() - {h} && |Members(m')| == length - 1
    {
      hide Valid, Members, Disjoint;
      var x := LeastGone();
    }

    lemma PopReady(h: int) returns (s: Shape)
      requires Valid() && length != 0 && 0 <= head < data2.Length && data2[head] != -1
      requires |own| > head && h == own[head]
      ensures Arrays() && |own| == size && 0 <= head < size && h in m && IncSeq(data1[head]) == Wrap(h + 1)
      ensures h < m[h] && data2[head] == Wrap(m[h])
      ensures SeqCmp(Wrap(m[h]), Wrap(h + 1)) > 0 <==> m[h] > h + 1
      ensures var j := (head + 1) % size;
              && 0 <= j < size && j != head && data2[j] == -1
              && s == Shape(size, base, s.m, own[j := h + 1],
                            data1[..][head := -1][j := Wrap(h + 1)],
                            data2[..][head := -1][j := Shape.End(h + 1, m[h])],
                            next[..][j := next[head]])
              && s.Rep() && s.HeadOk(j)
      ensures Disjoint(s.m) && Members(s.m) == Lost() - {h} && |Members(s.m)| == length - 1
      ensures lastInsertPos != -1 && lastInsertPos != head ==> s.Live(lastInsertPos)
    {
      hide Valid, Members, Shape.Rep, Shape.HeadOk, Shape.Live, Wrap, IncSeq, SeqCmp, Slot, Disjoint;
      var x;
      x, s := ShiftReady();
      assert x == h && s.m == (m - {h})[h + 1 := m[h]];
      ShiftMembers(h);
    }

    /** The head node has several numbers: move it up by one. */
    method PopShift(ghost h: int)
      requires Valid() && length != 0 && 0 <= head < data2.Length && data2[head] != -1
      requires |own| > head && h == own[head]
      modifies this`head, this`length, this`lastInsertPos, this`m, this`own, data1, data2, next
      ensures Valid() && Lost() == old(Lost()) - {h}
    {
      hide Valid, Members, Shape.Rep, Shape.HeadOk, Shape.Live, Wrap, IncSeq, SeqCmp, Slot, Disjoint;
      ghost var s := PopReady(h);
      if lastInsertPos == head {
        lastInsertPos := -1;
      }
      var loc := (head + 1) % size;
      MoveHead(loc, data1[head], h, m[h]);
      head := loc;
      length := length - 1;
      m, own := s.m, s.own;
      ValidFrom(s);
    }

    /** Reads and removes the smallest lost number; -1 when there is none. */
    method GetLostSeq() returns (seqno: int, ghost x: int)
      requires Valid()
      modifies this, data1, data2, next
      ensures Valid()
      ensures old(Lost()) == {} ==> seqno == -1 && Lost() == {}
      ensures old(Lost()) != {} ==>
                && x in old(Lost()) && (forall y :: y in old(Lost()) ==> x <= y)
                && seqno == Wrap(x) && Lost() == old(Lost()) - {x}
    {
      hide Valid, Lost, Shape.Rep, Shape.HeadOk, Wrap;
      CountLost();
      x := 0;
      if length == 0 {
        return -1, x;
      }
      x := HeadNode();
      ghost var x' := LeastGone();
      seqno := data1[head];
      if data2[head] == -1 {
        PopSingle(x);
      } else {
        PopShift(x);
      }
    }

    /**
      A removal in progress: the list still starts at slot `h`, everything it
      holds up to `x` is about to go, and `head` is already the new head.
     */
    ghost predicate Beheaded(h: int, x: int)
      reads this, data1, data2, next
    {
      && Arrays() && Sh().Rep() && Sh().HeadOk(h)
      && Disjoint(m) && length == |Lost()|
      && (lastInsertPos == -1 || Sh().Live(lastInsertPos))
      && (head == -1 || Sh().Live(head))
      && SplitAt(x)
    }

    /** `head` separates the intervals up to `x` from those above it. */
    ghost predicate SplitAt(x: int)
      requires |own| == size
      reads this
    {
      && -1 <= head < size
      && forall k :: k in m ==>
           (k <= x ==> m[k] <= x) && (k <= x <==> head == -1 || k < own[head])
    }

    lemma DropOneReady(h: int, x: int) returns (k: int, s: Shape)
      requires Beheaded(h, x) && h != head
      ensures Arrays() && |own| == size && 0 <= h < size && k == own[h] && k in m
      ensures data1[h] == Wrap(k) && data2[h] == Shape.End(k, m[k]) && k <= m[k]
      ensures SeqLen(Wrap(k), Wrap(m[k])) == m[k] - k + 1
      ensures s == Shape(size, base, m - {k}, own, data1[..][h := -1], data2[..][h := -1], next[..])
      ensures s.Rep() && s.HeadOk(next[h]) && Disjoint(s.m)
      ensures Above(Members(s.m), x) == Above(Lost(), x) && |Members(s.m)| == length - (m[k] - k + 1)
    {
      assert head != -1 ==> own[head] in m;
      assert h != -1;
      k := own[h];
      assert k in m && Sh().IsFirst(k) && m[k] <= x && Sh().At(k) == h;
      hide Shape.Rep, Shape.HeadOk, Shape.Live, Members, Slot, Above, SeqLen, Wrap, Disjoint;
      Sh().NodeAt(k);
      FirstBelow(m, k, x) by { assert forall j :: j in m ==> k <= j; }
      s := Sh().DropFirst(k);
      LenExact(k, m[k]);
    }

    lemma DropOneLive(h: int, x: int, k: int, s: Shape)
      requires Beheaded(h, x) && h != head && 0 <= h < size && |own| == size && k == own[h] && s.Sized()
      requires s == Shape(size, base, m - {k}, own, data1[..][h := -1], data2[..][h := -1], next[..])
      ensures lastInsertPos != -1 && lastInsertPos != h ==> s.Live(lastInsertPos)
      ensures head == -1 || s.Live(head)
      ensures forall j :: j in s.m ==>
           (j <= x ==> s.m[j] <= x) && (j <= x <==> head == -1 || j < own[head])
    {
      assert Sh().IsFirst(k) && Sh().At(k) == h;
      hide Shape.Rep, Shape.HeadOk, Slot, Disjoint;
    }

    lemma BeheadedFrom(h: int, x: int, s: Shape)
      requires Arrays() && s.Rep() && s.HeadOk(h) && Disjoint(s.m) && length == |Members(s.m)|
      requires s.n == size && s.base == base && s.m == m && s.own == own
      requires s.d1 == data1[..] && s.d2 == data2[..] && s.nx == next[..]
      requires lastInsertPos == -1 || s.Live(lastInsertPos)
      requires head == -1 || s.Live(head)
      requires forall j :: j in s.m ==>
           (j <= x ==> s.m[j] <= x) && (j <= x <==> head == -1 || j < own[head])
      ensures Beheaded(h, x)
    {
    }

    /** Unlinks the first node, all of it at or below `x`. */
    method DropOne(h: int, ghost x: int) returns (h': int)
      requires Beheaded(h, x) && h != head
      modifies this`length, this`lastInsertPos, this`m, data1, data2
      ensures Beheaded(h', x) && Above(Lost(), x) == Above(old(Lost()), x)
      ensures m.Keys < old(m.Keys)
    {
      hide Beheaded, Members, Above, Shape.Rep, Shape.HeadOk, Shape.Live, Slot, Disjoint, SeqLen, Wrap, SplitAt;
      ghost var k, s := DropOneReady(h, x);
      DropOneLive(h, x, k, s);
      if data2[h] != -1 {
        length := length - SeqLen(data1[h], data2[h]);
        data2[h] := -1;
      } else {
        length := length - 1;
      }
      assert data2[..] == s.d2;
      data1[h] := -1;
      if lastInsertPos == h {
        lastInsertPos := -1;
      }
      h' := next[h];
      m := m - {k};
      BeheadedFrom(h', x, s);
    }

    lemma DropDone(h: int, x: int)
      requires Beheaded(h, x) && h == head
      ensures Valid() && Above(Lost(), x) == Lost()
    {
      AllAbove(m, x);
    }

    /** Unlinks all nodes in front of the new head. */
    method DropUntilHead(h0: int, ghost x: int)
      requires Beheaded(h0, x)
      modifies this`length, this`lastInsertPos, this`m, data1, data2
      ensures Valid() && Lost() == Above(old(Lost()), x)
    {
      hide *;
      var h := h0;
      while h != head
        invariant Beheaded(h, x) && Above(Lost(), x) == Above(old(Lost()), x)
        decreases m.Keys
      {
        h := DropOne(h, x);
      }
      DropDone(h, x);
    }

    /** The removal starts with head moved past node `p`, the last one at or below `x`. */
    lemma StepOver(h: int, p: int, x: int)
      requires Arrays() && Sh().Rep() && Sh().HeadOk(h) && Disjoint(m) && length == |Lost()|
      requires lastInsertPos == -1 || Sh().Live(lastInsertPos)
      requires p in m && p <= x && m[p] <= x && (forall k :: k in m ==> k <= p || x < k)
      requires head == next[Sh().At(p)]
      ensures Beheaded(h, x)
    {
      hide Shape.Rep, Shape.HeadOk, Shape.Live, Slot, Members;
      Sh().NodeAt(p);
      if head == -1 { Sh().NoNext(p); } else { var z := Sh().NextOf(p); Sh().NodeAt(z); }
    }

    lemma CutReady(p: int, x: int) returns (s: Shape)
      requires Valid() && Sh().Sized() && length != 0 && p in m && p <= x < m[p]
      requires forall k :: k in m ==> k <= p || x < k
      ensures Arrays() && |own| == size && data2[Sh().At(p)] == Wrap(m[p]) && Sh().At(x + 1) != Sh().At(p)
      ensures data2[Sh().At(x + 1)] == -1 && 0 <= Sh().At(x + 1) < size
      ensures m[p] - x < SEQ_NO_TH
      ensures var j := Sh().At(x + 1); var i := Sh().At(p);
              s == Shape(size, base, m[p := x][x + 1 := m[p]], own[j := x + 1],
                         data1[..][j := Wrap(x + 1)],
                         data2[..][i := Shape.End(p, x)][j := Shape.End(x + 1, m[p])],
                         next[..][j := next[i]][i := j])
      ensures s.Rep() && Disjoint(s.m) && Members(s.m) == Lost() && length == |Members(s.m)|
    {
      hide Shape.Rep, Shape.HeadOk, Shape.Live, Members, Slot, Disjoint;
      CutSame(m, p, x);
      Sh().CutFree(p, x);
      Sh().NodeAt(p);
      s := Sh().Cut(p, x);
    }

    /** After a cut at `x` the upper part can be the new head. */
    lemma CutHead(p: int, x: int, s: Shape)
      requires Valid() && Sh().Sized() && length != 0 && p in m && p <= x < m[p]
      requires |own| == size && s.Rep() && !Sh().Live(Sh().At(x + 1))
      requires s == Shape(size, base, m[p := x][x + 1 := m[p]], own[Sh().At(x + 1) := x + 1], s.d1, s.d2, s.nx)
      ensures s.HeadOk(head)
      ensures lastInsertPos == -1 || s.Live(lastInsertPos)
    {
      hide Shape.Rep, Members, Disjoint, Slot;
    }

    lemma CutSplit(p: int, x: int)
      requires Disjoint(m) && p in m && p <= x < m[p]
      requires forall k :: k in m ==> k <= p || x < k
      ensures var m' := m[p := x][x + 1 := m[p]];
              forall j :: j in m' ==> (j <= x ==> m'[j] <= x) && (j <= x <==> j < x + 1)
    {
    }

    /** Node `i`, which starts at or below `x` and reaches above it, is cut; the upper part becomes the head. */
    method CutNode(i: int, loc: int, seqno: int, newEnd: int, ghost p: int, ghost x: int)
      requires Valid() && Sh().Sized() && length != 0 && p in m && p <= x < m[p]
      requires forall k :: k in m ==> k <= p || x < k
      requires i == Sh().At(p) && loc == Sh().At(x + 1) && seqno == Wrap(x) && newEnd == Shape.End(p, x)
      modifies this`head, this`m, this`own, data1, data2, next
      ensures Beheaded(old(head), x) && Lost() == old(Lost())
    {
      hide Valid, Beheaded, Members, Shape.Rep, Shape.HeadOk, Shape.Live, Slot, Disjoint, Wrap, SeqCmp, IncSeq;
      ghost var s := CutReady(p, x);
      CutLive(p, x);
      CutHead(p, x, s);
      CutSplit(p, x);
      s.NodeAt(x + 1);
      IncExact(x);
      CmpSign(m[p], x + 1);
      CutWrites(i, loc, seqno, newEnd, x, m[p]);
      head := loc;
      m, own := s.m, s.own;
      BeheadedFrom(old(head), x, s);
    }

    lemma CutLive(p: int, x: int)
      requires Valid() && Sh().Sized() && p in m && p <= x < m[p]
      ensures !Sh().Live(Sh().At(x + 1)) && Disjoint(m)
    {
      hide Shape.Rep, Shape.HeadOk, Shape.Live, Members, Slot, Disjoint;
      Sh().CutFree(p, x);
    }

    /** The array writes of a cut. */
    method CutWrites(i: int, loc: int, seqno: int, newEnd: int, ghost x: int, ghost e: int)
      requires Arrays() && 0 <= i < size && 0 <= loc < size && loc != i && data2[loc] == -1
      requires data2[i] == Wrap(e) && IncSeq(seqno) == Wrap(x + 1) && x < e
      requires SeqCmp(Wrap(e), Wrap(x + 1)) > 0 <==> e > x + 1
      modifies data1, data2, next
      ensures data1[..] == old(data1[..])[loc := Wrap(x + 1)]
      ensures data2[..] == old(data2[..])[i := newEnd][loc := Shape.End(x + 1, e)]
      ensures next[..] == old(next[..])[loc := old(next[i])][i := loc]
    {
      hide Wrap, SeqCmp, IncSeq;
      data1[loc] := IncSeq(seqno);
      if SeqCmp(data2[i], data1[loc]) > 0 {
        data2[loc] := data2[i];
      }
      data2[i] := newEnd;
      next[loc] := next[i];
      next[i] := loc;
    }

    /** Where a removal of `x` looks first. */
    lemma RemoveReady(x: int)
      requires Valid() && length != 0 && Near(x)
      ensures Arrays() && |own| == size && Sh().Sized() && 0 <= head < size && own[head] in m
      ensures SeqOff(data1[head], Wrap(x)) == x - own[head]
      ensures (head + (x - own[head]) + size) % size == Sh().At(x)
      ensures Sh().Live(head)
    {
      hide Shape.Rep, Shape.HeadOk, Members, Disjoint, SeqOff, Wrap;
      var h := HeadNode();
      OffExact(h, x);
      SlotStep(size, base, h, x - h);
    }

    /** What the slot of `x` holds, wherever `x` lies. */
    lemma RemoveSlot(x: int)
      requires Valid() && Sh().Sized() && Near(x)
      ensures Arrays() && |own| == size
      ensures data1[Sh().At(x)] == Wrap(x) <==> x in m
      ensures x in m ==> data2[Sh().At(x)] == Shape.End(x, m[x]) && Sh().Live(Sh().At(x))
    {
      var j := Sh().At(x);
      if x in m {
        Sh().NodeAt(x);
      } else if Sh().Live(j) {
        var y := own[j];
        Sh().NodeAt(y);
        WrapInjective(x, y);
      }
    }

    /** The last node that starts before `seqno`, searching from the head. */
    method FindPriorFromHead(seqno: int, ghost x: int) returns (i: int)
      requires Valid() && Sh().Sized() && length != 0 && Sh().Live(head) && own[head] < x && seqno == Wrap(x)
      requires Near(x)
      ensures Sh().Live(i) && own[i] < x
      ensures forall k :: k in m ==> k <= own[i] || x <= k
    {
      hide Valid, Sh, Shape.Live, Wrap, SeqCmp, Near;
      i := head;
      ghost var p := NodeReady(i, x);
      if next[i] != -1 { CmpSign(own[next[i]], x); }
      while next[i] != -1 && SeqCmp(data1[next[i]], seqno) < 0
        invariant Sh().Sized() && Sh().Live(i) && 0 <= i < size && own[i] == p < x
        invariant -1 <= next[i] < size
        invariant next[i] != -1 ==> Sh().Live(next[i]) && p < own[next[i]]
        invariant next[i] != -1 ==> (SeqCmp(data1[next[i]], seqno) < 0 <==> own[next[i]] < x)
        decreases x - own[i]
      {
        i := next[i];
        p := NodeReady(i, x);
        if next[i] != -1 { CmpSign(own[next[i]], x); }
      }
      p := NodeReady(i, x);
    }

    /** Makes the node after `i` the head; nothing of node `i` lies above `x`. */
    method SkipNode(i: int, ghost p: int, ghost x: int)
      requires Valid() && Sh().Sized() && length != 0 && p in m && i == Sh().At(p) && p <= x && m[p] <= x
      requires forall k :: k in m ==> k <= p || x < k
      modifies this`head
      ensures Beheaded(old(head), x) && Lost() == old(Lost())
    {
      hide Shape.Rep, Shape.HeadOk, Shape.Live, Beheaded, Members, Slot;
      ghost var h := head;
      assert Sh().HeadOk(h) && Sh().Rep();
      head := next[i];
      StepOver(h, p, x);
    }

    /** The new head for a removal of everything up to `seqno`, when some of it lies before `seqno`. */
    method Behead(loc0: int, seqno: int, ghost x: int)
      requires Valid() && Sh().Sized() && length != 0 && Sh().Live(head) && own[head] < x
      requires Near(x) && seqno == Wrap(x) && loc0 == Sh().At(x)
      modifies this`head, this`m, this`own, data1, data2, next
      ensures Beheaded(old(head), x) && Lost() == old(Lost())
    {
      hide Valid, Beheaded, Shape.Live, Wrap, SeqCmp, Slot, Near, Lost;
      RemoveSlot(x);
      StepSlot(x);
      var loc := loc0;
      if seqno == data1[loc] {
        var temp := loc;
        loc := (loc + 1) % size;
        AtOrAfter(x, x);
        if data2[temp] == -1 {
          SkipNode(temp, x, x);
        } else {
          CutNode(temp, loc, seqno, -1, x, x);
        }
      } else {
        var i := FindPriorFromHead(seqno, x);
        ghost var p := RemovePrior(i, x);
        loc := (loc + 1) % size;
        if data2[i] == -1 {
          SkipNode(i, p, x);
        } else if SeqCmp(data2[i], seqno) > 0 {
          CutNode(i, loc, seqno, seqno, p, x);
        } else {
          SkipNode(i, p, x);
        }
      }
    }

    lemma StepSlot(x: int)
      requires Sh().Sized()
      ensures (Sh().At(x) + 1) % size == Sh().At(x + 1)
    {
      SlotStep(size, base, x, 1);
    }

    lemma AtOrAfter(p: int, x: int)
      requires Valid() && p in m
      ensures p <= m[p]
      ensures forall k :: k in m ==> k <= p || p < k
    {
    }

    lemma RemovePrior(i: int, x: int) returns (p: int)
      requires Valid() && Sh().Sized() && Sh().Live(i) && own[i] < x && Near(x) && x !in m
      requires forall k :: k in m ==> k <= own[i] || x <= k
      ensures Arrays() && 0 <= i < size && |own| == size
      ensures p == own[i] && p in m && i == Sh().At(p) && p < x
      ensures forall k :: k in m ==> k <= p || x < k
      ensures data2[i] == Shape.End(p, m[p]) && p <= m[p]
      ensures SeqCmp(Wrap(m[p]), Wrap(x)) > 0 <==> m[p] > x
    {
      hide Valid, SeqCmp, Wrap, Shape.Live;
      p := NodeReady(i, x);
      CmpSign(m[p], x);
    }

    /** `seqno` starts the head node: that number goes. */
    method RemoveHead(ghost x: int)
      requires Valid() && length != 0 && |own| == size && 0 <= head < size && own[head] == x && Arrays()
      modifies this, data1, data2, next
      ensures Valid() && Lost() == Above(old(Lost()), x)
    {
      hide Valid, Lost, Above;
      ghost var h := LeastGone();
      AboveLeast(Lost(), x);
      if data2[head] == -1 {
        PopSingle(x);
      } else {
        PopShift(x);
      }
    }

    /** Removes all recorded numbers up to and including `seqno`, which stands for `x`. */
    method Remove(seqno: int, ghost x: int)
      requires Valid() && seqno == Wrap(x)
      requires forall y :: y in Lost() ==> Abs(y - x) < SEQ_NO_TH
      modifies this, data1, data2, next
      ensures Valid() && Lost() == Above(old(Lost()), x)
    {
      hide Valid, Beheaded, Shape.Live, Wrap, SeqOff, Slot, Near, Lost, Above;
      NearFromLost(x);
      CountLost();
      if length == 0 {
        assert Above({}, x) == {} by { AboveAll({}, x); }
        return;
      }
      RemoveReady(x);
      var offset := SeqOff(data1[head], seqno);
      var loc := (head + offset + size) % size;
      if offset == 0 {
        RemoveHead(x);
      } else if offset > 0 {
        var start := head;
        Behead(loc, seqno, x);
        DropUntilHead(start, x);
      } else {
        AllAfter(x);
      }
    }

    lemma AllAfter(x: int)
      requires Valid() && length != 0 && x < own[head]
      requires 0 <= head < |own|
      ensures Lost() == Above(Lost(), x)
    {
      hide Valid, Lost, Above;
      var h := LeastGone();
      AboveAll(Lost(), x);
    }

    lemma NearFromLost(x: int)
      requires Valid() && forall y :: y in Lost() ==> Abs(y - x) < SEQ_NO_TH
      ensures Near(x)
    {
      hide Members, Shape.Rep;
      EndsAreMembers(m);
    }

    lemma AboveLeast(s: set<int>, h: int)
      requires h in s && forall y :: y in s ==> h <= y
      ensures Above(s, h) == s - {h}
    {
    }

    lemma AboveAll(s: set<int>, x: int)
      requires forall y :: y in s ==> x < y
      ensures Above(s, x) == s
    {
    }
  }
}
