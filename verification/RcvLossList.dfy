/**
  The receiver's loss list: disjoint intervals in four fixed arrays, linked
  forwards and backwards.  New losses are appended; any single number may be
  removed.  Each method is proved against the set `Lost`.
 */
module RcvLossList {
  import opened SeqNo
  import opened LossIntervals
  import opened LossReport
  import opened Sets

  class RcvLossList {
    const size: int
    const data1: array<int>
    const data2: array<int>
    const next: array<int>
    const prior: array<int>
    var head: int
    var tail: int
    var length: int

    ghost var base: int
    ghost var m: Intervals
    ghost var own: seq<int>

    ghost predicate Arrays() {
      && data1.Length == data2.Length == next.Length == prior.Length == size
      && data1 != data2 && data1 != next && data1 != prior
      && data2 != next && data2 != prior && next != prior
    }

    ghost function Sh(): Shape
      reads this, data1, data2, next
    {
      Shape(size, base, m, own, data1[..], data2[..], next[..])
    }

    /** The set of numbers the list stands for. */
    ghost function Lost(): set<int>
      reads this
    {
      Members(m)
    }

    ghost predicate Valid()
      reads this, data1, data2, next, prior
    {
      && Arrays()
      && Sh().Rep()
      && Sh().HeadOk(head) && Sh().TailOk(tail)
      && Sh().Priors(prior[..])
      && Disjoint(m)
      && length == |Lost()|
    }

    constructor (n: int)
      requires 0 < n <= SEQ_NO_TH
      ensures Valid() && size == n && Lost() == {}
      ensures fresh(data1) && fresh(data2) && fresh(next) && fresh(prior)
    {
      size := n;
      data1 := new int[n](_ => -1);
      data2 := new int[n](_ => -1);
      next := new int[n];
      prior := new int[n];
      head, tail, length := -1, -1, 0;
      base, m, own := 0, map[], seq(n, _ => 0);
    }

    /** `Valid` from its parts, for a shape just built. */
    lemma ValidFrom(s: Shape)
      requires Arrays() && s.Rep() && s.HeadOk(head) && s.TailOk(tail) && s.Priors(prior[..])
      requires Disjoint(s.m) && length == |Members(s.m)|
      requires s.n == size && s.base == base && s.m == m && s.own == own
      requires s.d1 == data1[..] && s.d2 == data2[..] && s.nx == next[..]
      ensures s == Sh() && Valid()
    {
    }

    lemma Open()
      requires Valid()
      ensures Arrays() && |own| == size && Sh().Sized() && Sh().Rep() && Disjoint(m)
    {
    }

    lemma CountLost()
      requires Valid()
      ensures length == |Lost()|
      ensures length == 0 <==> m == map[]
      ensures length == 0 <==> Lost() == {}
    {
      EndsAreMembers(m);
    }

    // ---------------------------------------------------------------- insertion

    /** [a, b] lies above everything recorded, all within one window of the arrays. */
    ghost predicate Fits(a: int, b: int)
      reads this
    {
      a <= b && b - a < size && forall x :: x in Lost() ==> x < a && b - x < size
    }

    lemma FitsNodes(a: int, b: int)
      requires Valid() && Fits(a, b)
      ensures forall k :: k in m ==> k <= m[k] < a && b - k < size
      ensures size <= SEQ_NO_TH && a !in m && a <= b < a + size
    {
      hide Shape.Stored, Shape.Blank, Shape.Linked, Members, Shape.HeadOk, Shape.TailOk, Shape.Priors;
      EndsAreMembers(m);
    }

    lemma EmptyReady(a: int, b: int) returns (s: Shape)
      requires Valid() && m == map[] && Fits(a, b)
      ensures Arrays() && size > 0 && |own| == size && data2[0] == -1 && a <= b < a + SEQ_NO_TH
      ensures s == Shape(size, -a, m[a := b], own[0 := a], data1[..][0 := Wrap(a)],
                         data2[..][0 := Shape.End(a, b)], next[..][0 := -1])
      ensures s.Rep() && s.HeadOk(0) && s.TailOk(0) && s.Priors(prior[..][0 := -1])
      ensures Disjoint(s.m) && Members(s.m) == Range(a, b) && |Members(s.m)| == SeqLen(Wrap(a), Wrap(b))
    {
      s := Sh().Restart(a, b);
      PutLoose(m, a, b);
      LooseDone(m[a := b], a);
      assert Members(m) == {};
      hide Shape.Rep, Shape.HeadOk, Shape.Live, Members, Wrap, Disjoint, SeqLen;
      LenExact(a, b);
    }

    method WriteNode(loc: int, seqno1: int, seqno2: int, ghost a: int, ghost b: int)
      requires Arrays() && 0 <= loc < size && data2[loc] == -1
      requires seqno1 == Wrap(a) && seqno2 == Wrap(b) && a <= b < a + SEQ_NO_TH
      modifies data1, data2
      ensures data1[..] == old(data1[..])[loc := Wrap(a)]
      ensures data2[..] == old(data2[..])[loc := Shape.End(a, b)]
    {
      WrapInjective(a, b);
      data1[loc] := seqno1;
      if seqno2 != seqno1 {
        data2[loc] := seqno2;
      }
    }

    method InsertIntoEmpty(seqno1: int, seqno2: int, ghost a: int, ghost b: int)
      requires Valid() && Fits(a, b) && seqno1 == Wrap(a) && seqno2 == Wrap(b) && m == map[] && length == 0
      modifies this, data1, data2, next, prior
      ensures Valid() && Lost() == Range(a, b)
    {
      hide Valid, Fits, Shape.Rep, Shape.HeadOk, Shape.TailOk, Shape.Priors, Members, Wrap, Disjoint, Slot, SeqLen;
      hide Range;
      ghost var s := EmptyReady(a, b);
      head := 0;
      tail := 0;
      WriteNode(head, seqno1, seqno2, a, b);
      next[head] := -1;
      prior[head] := -1;
      length := length + SeqLen(seqno1, seqno2);
      base, m, own := -a, m[a := b], own[0 := a];
      ValidFrom(s);
    }

    /** The first and last nodes of a non-empty list. */
    lemma Ends() returns (h: int, p: int)
      requires Valid() && length != 0
      ensures Arrays() && |own| == size && Sh().Sized() && size <= SEQ_NO_TH
      ensures 0 <= head < size && h == own[head] && h in m && Sh().At(h) == head && (forall k :: k in m ==> h <= k)
      ensures 0 <= tail < size && p == own[tail] && p in m && Sh().At(p) == tail && (forall k :: k in m ==> k <= p)
    {
      hide Shape.Stored, Shape.Blank, Shape.Linked, Members, Disjoint, Shape.Priors;
      EndsAreMembers(m);
      h, p := own[head], own[tail];
    }

    /** The last node, and where a number above it is stored. */
    lemma TailNode(a: int, b: int) returns (p: int)
      requires Valid() && Fits(a, b) && length != 0
      ensures Arrays() && |own| == size && Sh().Sized() && 0 <= tail < size && 0 <= head < size
      ensures p == own[tail] && p in m && Sh().At(p) == tail && (forall k :: k in m ==> k <= p)
      ensures data2[tail] == Shape.End(p, m[p])
      ensures IndexAt(size, head, SeqOff(data1[head], Wrap(a))) == Sh().At(a)
    {
      hide Shape.Rep, Shape.HeadOk, Shape.TailOk, Shape.Priors, Shape.Live, Members, Disjoint, Fits, SeqOff, Wrap;
      hide Slot, IndexAt;
      var h;
      h, p := Ends();
      FitsNodes(a, b);
      Sh().NodeAt(p);
      Sh().NodeAt(h);
      OffExact(h, a);
      StepFrom(h, a - h);
    }

    lemma FitsNear(a: int, b: int)
      requires Valid() && Fits(a, b)
      ensures a !in m && forall k :: k in m ==> Abs(a - k) < size
    {
      hide Valid, Lost;
      FitsNodes(a, b);
    }

    lemma FreeAbove(a: int, b: int)
      requires Valid() && Fits(a, b) && Sh().Sized()
      ensures data2[Sh().At(a)] == -1 && !Sh().Live(Sh().At(a))
      ensures forall k :: k in m ==> Sh().At(k) != Sh().At(a)
    {
      hide Shape.Rep, Shape.HeadOk, Shape.TailOk, Shape.Priors, Shape.Live, Members, Disjoint, Fits, Slot;
      FitsNear(a, b);
      Sh().FreeSlot(a);
    }

    lemma AppendSlot(p: int, a: int, b: int)
      requires Valid() && Fits(a, b) && Sh().Sized() && p in m && forall k :: k in m ==> k <= p
      ensures Arrays() && |own| == size && data2[Sh().At(a)] == -1 && !Sh().Live(Sh().At(a))
      ensures forall k :: k in m ==> Sh().At(k) != Sh().At(a)
      ensures next[Sh().At(p)] == -1 && a <= b < a + SEQ_NO_TH
    {
      hide Shape.Rep, Shape.HeadOk, Shape.TailOk, Shape.Priors, Shape.Live, Members, Disjoint, Fits, Slot;
      FreeAbove(a, b);
      FitsNodes(a, b);
      Sh().LastHasNoNext(p);
    }

    lemma AppendShape(p: int, a: int, b: int) returns (s: Shape)
      requires Valid() && Fits(a, b) && Sh().Sized() && p in m && (forall k :: k in m ==> k <= p)
      requires next[Sh().At(p)] == -1 && Sh().At(p) != Sh().At(a)
      ensures var j := Sh().At(a); var i := Sh().At(p);
              s == Shape(size, base, m[a := b], own[j := a], data1[..][j := Wrap(a)],
                         data2[..][j := Shape.End(a, b)], next[..][j := -1][i := j])
      ensures s.Rep() && s.HeadOk(head)
    {
      hide Shape.Rep, Shape.HeadOk, Shape.TailOk, Shape.Priors, Shape.Live, Members, Disjoint, Fits, Slot;
      FitsNodes(a, b);
      AppendSlot(p, a, b);
      assert Sh().HeadOk(head);
      s := Sh().PutAfter(p, a, b);
      Sh().PutAfterHead(p, a, b, head);
    }

    lemma AppendPriors(p: int, a: int, b: int, s: Shape)
      requires Valid() && Fits(a, b) && Sh().Sized() && p in m && (forall k :: k in m ==> k <= p)
      requires next[Sh().At(p)] == -1 && s.Rep()
      requires var t := Sh().Put(a, b, -1); s == t.(nx := t.nx[Sh().At(p) := Sh().At(a)])
      ensures s.Priors(prior[..][Sh().At(a) := Sh().At(p)]) && s.TailOk(Sh().At(a))
    {
      hide Shape.HeadOk, Members, Disjoint, Fits, Slot, Shape.Live, Shape.Windowed, Shape.Blank;
      FitsNodes(a, b);
      AppendSlot(p, a, b);
      s.NodeAt(a);
      Sh().PriorsPutAfter(p, a, b, prior[..]);
    }

    lemma AppendReady(p: int, a: int, b: int) returns (s: Shape)
      requires Valid() && Fits(a, b) && Sh().Sized() && p in m && (forall k :: k in m ==> k <= p)
      ensures Arrays() && |own| == size && data2[Sh().At(a)] == -1 && a <= b < a + SEQ_NO_TH
      ensures var j := Sh().At(a); var i := Sh().At(p);
              s == Shape(size, base, m[a := b], own[j := a], data1[..][j := Wrap(a)],
                         data2[..][j := Shape.End(a, b)], next[..][j := -1][i := j])
              && i != j
      ensures s.Rep() && s.HeadOk(head) && s.TailOk(Sh().At(a)) && s.Priors(prior[..][Sh().At(a) := Sh().At(p)])
      ensures Disjoint(s.m) && Members(s.m) == Lost() + Range(a, b)
      ensures |Members(s.m)| == length + SeqLen(Wrap(a), Wrap(b))
    {
      hide Valid, Fits, Shape.Rep, Shape.HeadOk, Shape.TailOk, Shape.Priors, Shape.Live, Members, Disjoint, Slot;
      hide SeqLen, Wrap;
      AppendMembers(a, b);
      AppendSlot(p, a, b);
      s := AppendShape(p, a, b);
      AppendPriors(p, a, b, s);
      LenExact(a, b);
    }

    lemma AppendMembers(a: int, b: int)
      requires Valid() && Fits(a, b)
      ensures Disjoint(m[a := b]) && Members(m[a := b]) == Lost() + Range(a, b)
      ensures |Members(m[a := b])| == length + b - a + 1
    {
      FitsNodes(a, b);
      PutLoose(m, a, b);
      LooseDone(m[a := b], a);
    }

    /** A new last node at `loc` for [a, b]. */
    method Append(loc: int, seqno1: int, seqno2: int, ghost p: int, ghost a: int, ghost b: int)
      requires Valid() && Fits(a, b) && Sh().Sized() && p in m && (forall k :: k in m ==> k <= p)
      requires tail == Sh().At(p) && loc == Sh().At(a) && seqno1 == Wrap(a) && seqno2 == Wrap(b)
      modifies this, data1, data2, next, prior
      ensures Valid() && Lost() == old(Lost()) + Range(a, b)
    {
      hide Valid, Fits, Shape.Rep, Shape.HeadOk, Shape.TailOk, Shape.Priors, Members, Wrap, Disjoint, Slot, SeqLen;
      hide Range;
      ghost var s := AppendReady(p, a, b);
      WriteNode(loc, seqno1, seqno2, a, b);
      next[tail] := loc;
      prior[loc] := tail;
      next[loc] := -1;
      tail := loc;
      length := length + SeqLen(seqno1, seqno2);
      m, own := m[a := b], own[loc := a];
      assert next[..] == s.nx;
      ValidFrom(s);
    }

    lemma GrowReady(p: int, a: int, b: int) returns (s: Shape)
      requires Valid() && Fits(a, b) && Sh().Sized() && p in m && m[p] + 1 == a && (forall k :: k in m ==> k <= p)
      ensures Arrays() && |own| == size
      ensures s == Shape(size, base, m[p := b], own, data1[..], data2[..][Sh().At(p) := Wrap(b)], next[..])
      ensures s.Rep() && s.HeadOk(head) && s.TailOk(tail) && s.Priors(prior[..])
      ensures Disjoint(s.m) && Members(s.m) == Lost() + Range(a, b)
      ensures |Members(s.m)| == length + SeqLen(Wrap(a), Wrap(b))
    {
      FitsNodes(a, b);
      GrowMembers(p, a, b);
      assert Sh().Stored() && Sh().Linked();
      assert Sh().Live(tail) && own[tail] == p;
      hide Shape.Rep, Shape.HeadOk, Shape.Priors, Shape.Live, Members, Disjoint, Fits, Slot, SeqLen, Wrap;
      s := Sh().SetEnd(p, b);
      Sh().PriorsSetEnd(p, b, prior[..]);
      s.NodeAt(p);
      LenExact(a, b);
    }

    lemma GrowMembers(p: int, a: int, b: int)
      requires Valid() && Fits(a, b) && p in m && m[p] + 1 == a && (forall k :: k in m ==> k <= p)
      ensures Disjoint(m[p := b]) && Members(m[p := b]) == Lost() + Range(a, b)
      ensures |Members(m[p := b])| == length + b - a + 1
    {
      hide Valid, Fits, Shape.Rep, Shape.HeadOk, Shape.TailOk, Shape.Priors, Members, Disjoint, Range;
      GrowSize(p, a, b);
      StretchLoose(m, p, a, b);
      LooseDone(m[p := b], p);
    }

    lemma GrowSize(p: int, a: int, b: int)
      requires Valid() && Fits(a, b) && p in m && m[p] + 1 == a
      ensures Disjoint(m) && length == |Members(m)| && Lost() == Members(m) && p <= a && m[p] < b
    {
      hide Shape.Rep, Shape.HeadOk, Shape.TailOk, Shape.Priors, Members;
    }

    /** The last node, which ends just before `a`, is made to end at `b`. */
    method Grow(seqno1: int, seqno2: int, ghost p: int, ghost a: int, ghost b: int)
      requires Valid() && Fits(a, b) && Sh().Sized() && p in m && m[p] + 1 == a && (forall k :: k in m ==> k <= p)
      requires tail == Sh().At(p) && seqno1 == Wrap(a) && seqno2 == Wrap(b)
      modifies this, data2
      ensures Valid() && Lost() == old(Lost()) + Range(a, b)
    {
      hide Valid, Fits, Shape.Rep, Shape.HeadOk, Shape.TailOk, Shape.Priors, Members, Wrap, Disjoint, Slot, SeqLen;
      hide Range;
      ghost var s := GrowReady(p, a, b);
      var loc := tail;
      data2[loc] := seqno2;
      length := length + SeqLen(seqno1, seqno2);
      m := m[p := b];
      ValidFrom(s);
    }

    /** Records the losses `seqno1..seqno2`, which stand for [a, b] and are above all recorded ones. */
    method Insert(seqno1: int, seqno2: int, ghost a: int, ghost b: int)
      requires Valid() && Fits(a, b)
      requires seqno1 == Wrap(a) && seqno2 == Wrap(b)
      modifies this, data1, data2, next, prior
      ensures Valid() && Lost() == old(Lost()) + Range(a, b)
    {
      hide Valid, Fits, Slot, Range, Lost, SeqOff, IncSeq, Wrap, IndexAt;
      CountLost();
      if length == 0 {
        InsertIntoEmpty(seqno1, seqno2, a, b);
        return;
      }
      ghost var p := TailNode(a, b);
      InsertSplit(p, a, b);
      var offset := SeqOff(data1[head], seqno1);
      var loc := IndexAt(size, head, offset);
      if data2[tail] != -1 && IncSeq(data2[tail]) == seqno1 {
        Grow(seqno1, seqno2, p, a, b);
      } else {
        Append(loc, seqno1, seqno2, p, a, b);
      }
    }

    lemma InsertSplit(p: int, a: int, b: int)
      requires Valid() && Fits(a, b) && p in m
      ensures IncSeq(Wrap(m[p])) == Wrap(a) <==> m[p] + 1 == a
    {
      FitsNodes(a, b);
      IncExact(m[p]);
      WrapInjective(m[p] + 1, a);
    }

    // ---------------------------------------------------------------- removal

    /** All recorded numbers are within comparison range of `x`. */
    ghost predicate Near(x: int)
      reads this
    {
      forall y :: y in Lost() ==> Abs(y - x) < SEQ_NO_TH
    }

    lemma NearNodes(x: int)
      requires Valid() && Near(x)
      ensures forall k :: k in m ==> Abs(k - x) < SEQ_NO_TH && Abs(m[k] - x) < SEQ_NO_TH && k <= m[k]
    {
      hide Members, Shape.Rep, Shape.HeadOk, Shape.TailOk, Shape.Priors;
      EndsAreMembers(m);
    }

    /** What the arrays hold at the node that starts at `x`. */
    lemma NodeReady(x: int) returns (c: int)
      requires Valid() && x in m
      ensures Arrays() && |own| == size && Sh().Sized() && Sh().Full(head, tail, prior[..]) && Disjoint(m)
      ensures var loc := Sh().At(x);
              && 0 <= loc < size && data1[loc] == Wrap(x) && data2[loc] == Shape.End(x, m[x]) && own[loc] == x
              && 0 <= m[x] - x < SEQ_NO_TH
              && -1 <= next[loc] < size && -1 <= prior[loc] < size && 0 <= head < size && 0 <= tail < size
              && (prior[loc] == -1 <==> head == loc) && (next[loc] == -1 <==> tail == loc)
              && (prior[loc] == -1 ==> Sh().IsFirst(x))
              && (prior[loc] != -1 ==> c in m && c < x && Sh().At(c) == prior[loc] && next[prior[loc]] == loc)
              && (next[loc] != -1 ==> next[loc] != loc && next[loc] != prior[loc])
      ensures m != map[]
    {
      hide Shape.Rep, Shape.HeadOk, Shape.TailOk, Shape.Priors, Members, Slot, Disjoint, Wrap;
      Sh().NodeAt(x);
      c := Sh().FullNode(head, tail, prior[..], x);
    }

    lemma DropHeadReady(x: int) returns (s: Shape)
      requires Valid() && x in m && m[x] == x && Sh().Sized() && head == Sh().At(x)
      ensures Arrays() && |own| == size && 0 <= head < size && -1 <= next[head] < size && data2[head] == -1
      ensures s == Shape(size, base, m - {x}, own, data1[..][head := -1], data2[..][head := -1], next[..])
      ensures s.Full(next[head], tail, if next[head] == -1 then prior[..] else prior[..][next[head] := -1])
      ensures Disjoint(s.m) && Members(s.m) == Lost() - {x} && |Members(s.m)| == length - 1 && x in Lost()
    {
      var c := NodeReady(x);
      StartGone(m, x);
      hide Valid, Shape.Full, Members, Slot, Disjoint;
      s := Sh().FullDropFirst(head, tail, prior[..], x);
    }

    /** The single-number head node is unlinked. */
    method DropHead(ghost x: int)
      requires Valid() && x in m && m[x] == x && Sh().Sized() && head == Sh().At(x)
      modifies this, data1, prior
      ensures Valid() && Lost() == old(Lost()) - {x} && x in old(Lost())
    {
      hide Valid, Shape.Rep, Shape.HeadOk, Shape.TailOk, Shape.Priors, Members, Slot, Disjoint;
      ghost var s := DropHeadReady(x);
      var loc := head;
      head := next[head];
      if head != -1 {
        prior[head] := -1;
      }
      data1[loc] := -1;
      length := length - 1;
      m := m - {x};
      assert data2[..] == s.d2;
      ValidFrom(s);
    }

    lemma DropInnerReady(x: int) returns (s: Shape)
      requires Valid() && x in m && m[x] == x && Sh().Sized() && head != Sh().At(x)
      ensures Arrays() && |own| == size
      ensures var loc := Sh().At(x);
              && 0 <= loc < size && data2[loc] == -1 && 0 <= prior[loc] < size && -1 <= next[loc] < size
              && s == Shape(size, base, m - {x}, own, data1[..][loc := -1], data2[..][loc := -1],
                            next[..][prior[loc] := next[loc]])
              && s.Full(head, if next[loc] == -1 then prior[loc] else tail,
                        if next[loc] == -1 then prior[..] else prior[..][next[loc] := prior[loc]])
              && (next[loc] != -1 ==> next[loc] != loc) && prior[loc] != loc
      ensures Disjoint(s.m) && Members(s.m) == Lost() - {x} && |Members(s.m)| == length - 1 && x in Lost()
    {
      var c := NodeReady(x);
      StartGone(m, x);
      hide Valid, Shape.Full, Members, Slot, Disjoint;
      s := Sh().FullDropNext(head, tail, prior[..], c, x);
    }

    /** A single-number node that is not the head is unlinked. */
    method DropInner(loc: int, ghost x: int)
      requires Valid() && x in m && m[x] == x && Sh().Sized() && head != Sh().At(x) && loc == Sh().At(x)
      modifies this, data1, next, prior
      ensures Valid() && Lost() == old(Lost()) - {x} && x in old(Lost())
    {
      hide Valid, Shape.Rep, Shape.HeadOk, Shape.TailOk, Shape.Priors, Members, Slot, Disjoint;
      ghost var s := DropInnerReady(x);
      next[prior[loc]] := next[loc];
      if next[loc] != -1 {
        prior[next[loc]] := prior[loc];
      } else {
        tail := prior[loc];
      }
      data1[loc] := -1;
      length := length - 1;
      m := m - {x};
      assert data2[..] == s.d2;
      ValidFrom(s);
    }

    /** The neighbour slot and the wrapped numbers of a shift or split at `x`. */
    lemma NextSlot(x: int, e: int)
      requires Sh().Sized() && Abs(e - x) < SEQ_NO_TH
      ensures (Sh().At(x) + 1) % size == Sh().At(x + 1)
      ensures IncSeq(Wrap(x)) == Wrap(x + 1)
      ensures x < e ==> (SeqCmp(Wrap(e), Wrap(x + 1)) > 0 <==> e > x + 1)
    {
      SlotStep(size, base, x, 1);
      IncExact(x);
      if x < e { CmpSign(e, x + 1); }
    }

    /** The links once the node at `loc` has moved to slot `i`. */
    ghost function MovedLinks(loc: int, i: int): seq<int>
      requires Arrays() && 0 <= loc < size && 0 <= i < size && -1 <= prior[loc] < size
      reads this, next, prior
    {
      if prior[loc] == -1 then next[..][i := next[loc]] else next[..][i := next[loc]][prior[loc] := i]
    }

    lemma ShiftSlots(x: int, loc: int) returns (c: int, i: int)
      requires Valid() && x in m && x < m[x] && Sh().Sized() && loc == Sh().At(x)
      ensures Arrays() && |own| == size && 0 <= head < size && 0 <= tail < size
      ensures i == (loc + 1) % size == Sh().At(x + 1) && 0 <= i < size && 0 <= loc < size
      ensures -1 <= prior[loc] < size && -1 <= next[loc] < size && prior[loc] != loc
      ensures data1[loc] == Wrap(x) && data2[loc] == Wrap(m[x]) && i != loc && data2[i] == -1
      ensures (prior[loc] == -1 <==> head == loc) && (next[loc] == -1 <==> tail == loc)
      ensures IncSeq(Wrap(x)) == Wrap(x + 1) && (SeqCmp(Wrap(m[x]), Wrap(x + 1)) > 0 <==> m[x] > x + 1)
    {
      hide Valid, Shape.Full, Shape.Rep, Members, Slot, Disjoint, Wrap, SeqCmp, IncSeq;
      Open();
      c := NodeReady(x);
      i := (loc + 1) % size;
      NextSlot(x, m[x]);
      Sh().CutFree(x, x);
    }

    lemma ShiftShapes(x: int, loc: int, i: int) returns (s: Shape)
      requires Arrays() && 0 <= loc < size && 0 <= i < size && -1 <= prior[loc] < size && -1 <= next[loc] < size
      requires Valid() && x in m && x < m[x] && Sh().Sized() && loc == Sh().At(x) && i == Sh().At(x + 1)
      ensures s == Sh().ShiftShape(x, MovedLinks(loc, i))
      ensures s.Full(if prior[loc] == -1 then i else head, if next[loc] == -1 then i else tail,
                     Shape.LinkIn(prior[..], i, prior[loc], next[loc]))
    {
      hide Valid, Shape.Full, Shape.Rep, Members, Slot, Disjoint, Wrap, Shape.ShiftShape, Shape.LinkIn;
      var c := NodeReady(x);
      if prior[loc] == -1 {
        s := Sh().FullShiftFirst(head, tail, prior[..], x);
      } else {
        s := Sh().FullShiftNext(head, tail, prior[..], c, x);
      }
    }

    lemma ShiftMembers(x: int)
      requires Valid() && x in m && x < m[x]
      ensures var m' := (m - {x})[x + 1 := m[x]];
              Disjoint(m') && Members(m') == Lost() - {x} && |Members(m')| == length - 1 && x in Lost()
    {
      StartGone(m, x);
    }

    /** The data writes that move the node at `loc` to the next slot `i`. */
    method MoveData(loc: int, i: int, ghost x: int, ghost e: int)
      requires Arrays() && 0 <= loc < size && 0 <= i < size && i != loc && data2[i] == -1
      requires data1[loc] == Wrap(x) && data2[loc] == Wrap(e) && x < e
      requires IncSeq(Wrap(x)) == Wrap(x + 1) && (SeqCmp(Wrap(e), Wrap(x + 1)) > 0 <==> e > x + 1)
      modifies data1, data2
      ensures data1[..] == old(data1[..])[loc := -1][i := Wrap(x + 1)]
      ensures data2[..] == old(data2[..])[loc := -1][i := Shape.End(x + 1, e)]
    {
      hide Wrap, SeqCmp, IncSeq;
      data1[i] := IncSeq(data1[loc]);
      if SeqCmp(data2[loc], IncSeq(data1[loc])) > 0 {
        data2[i] := data2[loc];
      }
      data1[loc] := -1;
      data2[loc] := -1;
    }

    /** The pointer writes that let slot `i` take the place of `loc`. */
    method MoveLinks(loc: int, i: int)
      requires Arrays() && 0 <= loc < size && 0 <= i < size && i != loc
      requires -1 <= prior[loc] < size && -1 <= next[loc] < size && prior[loc] != loc
      requires (prior[loc] == -1 <==> head == loc) && (next[loc] == -1 <==> tail == loc)
      modifies this`head, this`tail, next, prior
      ensures head == if old(prior[loc]) == -1 then i else old(head)
      ensures tail == if old(next[loc]) == -1 then i else old(tail)
      ensures next[..] == if old(prior[loc]) == -1 then old(next[..])[i := old(next[loc])]
                          else old(next[..])[i := old(next[loc])][old(prior[loc]) := i]
      ensures prior[..] == Shape.LinkIn(old(prior[..]), i, old(prior[loc]), old(next[loc]))
    {
      var f := next[loc];
      next[i] := next[loc];
      prior[i] := prior[loc];
      if head == loc {
        head := i;
      } else {
        next[prior[i]] := i;
      }
      if tail == loc {
        tail := i;
      } else {
        prior[f] := i;
      }
    }

    /** The node that starts at `x` has other numbers: it moves to the next slot. */
    method Shift(loc: int, ghost x: int)
      requires Valid() && x in m && x < m[x] && Sh().Sized() && loc == Sh().At(x)
      modifies this, data1, data2, next, prior
      ensures Valid() && Lost() == old(Lost()) - {x} && x in old(Lost())
    {
      hide Valid, Shape.Rep, Shape.HeadOk, Shape.TailOk, Shape.Priors, Members, Slot, Disjoint, Wrap, SeqCmp;
      hide IncSeq, Shape.LinkIn;
      ghost var c, i' := ShiftSlots(x, loc);
      ghost var s := ShiftShapes(x, loc, i');
      ShiftMembers(x);
      var i := (loc + 1) % size;
      MoveData(loc, i, x, m[x]);
      MoveLinks(loc, i);
      length := length - 1;
      m, own := s.m, s.own;
      ValidFrom(s);
    }

    lemma TrimWindow(p: int, e: int)
      requires Valid() && p in m && e < m[p]
      ensures forall k :: k in m ==> e - k < size
    {
      Sh().Window(p);
    }

    lemma TrimShape(p: int, e: int) returns (s: Shape)
      requires Valid() && p in m && p <= e < m[p] && Sh().Sized()
      ensures Arrays() && |own| == size && 0 <= Sh().At(p) < size
      ensures s == Shape(size, base, m[p := e], own, data1[..],
                         data2[..][Sh().At(p) := Shape.End(p, e)], next[..])
      ensures s.Full(head, tail, prior[..])
    {
      hide Shape.Rep, Shape.HeadOk, Shape.TailOk, Shape.Priors, Slot;
      TrimWindow(p, e);
      s := Sh().FullSetEnd(head, tail, prior[..], p, e);
    }

    lemma TrimMembers(p: int, x: int)
      requires Valid() && p in m && p < x == m[p]
      ensures var m' := m[p := x - 1];
              Disjoint(m') && Members(m') == Lost() - {x} && |Members(m')| == length - 1 && x in Lost()
    {
      EndGone(m, p);
    }

    /** `newEnd` is the end of the node at `i` once its last number is gone. */
    method Trim(i: int, newEnd: int, ghost p: int, ghost x: int)
      requires Valid() && p in m && p < x == m[p] && Sh().Sized() && i == Sh().At(p)
      requires newEnd == Shape.End(p, x - 1)
      modifies this, data2
      ensures Valid() && Lost() == old(Lost()) - {x} && x in old(Lost())
    {
      hide Valid, Shape.Rep, Shape.HeadOk, Shape.TailOk, Shape.Priors, Members, Slot, Disjoint, Wrap;
      ghost var s := TrimShape(p, x - 1);
      TrimMembers(p, x);
      data2[i] := newEnd;
      length := length - 1;
      m := s.m;
      ValidFrom(s);
    }

    lemma LostIsMembers()
      requires Valid()
      ensures Lost() == Members(m) && length == |Members(m)|
    {
    }

    lemma SplitReady(p: int, x: int) returns (s: Shape)
      requires Valid() && p in m && p < x < m[p] && Sh().Sized()
      ensures Arrays() && |own| == size && 0 <= tail < size
      ensures var i := Sh().At(p); var loc := Sh().At(x + 1);
              && 0 <= i < size && 0 <= loc < size && i != loc && data2[loc] == -1 && data2[i] == Wrap(m[p])
              && -1 <= next[i] < size && next[i] != i && (next[i] == -1 <==> tail == i)
              && s == Sh().SplitShape(p, x)
              && s.Full(head, if next[i] == -1 then loc else tail, Shape.LinkIn(prior[..], loc, i, next[i]))
      ensures IncSeq(Wrap(x)) == Wrap(x + 1) && (SeqCmp(Wrap(m[p]), Wrap(x + 1)) > 0 <==> m[p] > x + 1)
      ensures Disjoint(s.m) && Members(s.m) == Lost() - {x} && |Members(s.m)| == length - 1 && x in Lost()
    {
      hide Valid, Shape.Full, Shape.Rep, Members, Slot, Disjoint, Wrap, SeqCmp, IncSeq;
      Open();
      var c := NodeReady(p);
      MiddleGone(m, p, x);
      LostIsMembers();
      NextSlot(x, m[p]);
      Sh().CutFree(p, x);
      s := Sh().FullSplit(head, tail, prior[..], p, x);
    }

    /** The writes that split the node at `i`: its upper part starts at slot `loc`. */
    method SplitWrites(i: int, loc: int, seqno: int, newEnd: int, ghost x: int, ghost e: int)
      requires Arrays() && 0 <= i < size && 0 <= loc < size && i != loc && data2[loc] == -1 && data2[i] == Wrap(e)
      requires -1 <= next[i] < size && next[i] != i && (next[i] == -1 <==> tail == i)
      requires IncSeq(seqno) == Wrap(x + 1) && x < e && (SeqCmp(Wrap(e), Wrap(x + 1)) > 0 <==> e > x + 1)
      modifies this`tail, data1, data2, next, prior
      ensures data1[..] == old(data1[..])[loc := Wrap(x + 1)]
      ensures data2[..] == old(data2[..])[i := newEnd][loc := Shape.End(x + 1, e)]
      ensures next[..] == old(next[..])[loc := old(next[i])][i := loc]
      ensures prior[..] == Shape.LinkIn(old(prior[..]), loc, i, old(next[i]))
      ensures tail == if old(next[i]) == -1 then loc else old(tail)
    {
      hide Wrap, SeqCmp, IncSeq;
      var f := next[i];
      data1[loc] := IncSeq(seqno);
      if SeqCmp(data2[i], data1[loc]) > 0 {
        data2[loc] := data2[i];
      }
      data2[i] := newEnd;
      next[loc] := next[i];
      next[i] := loc;
      prior[loc] := i;
      if tail == i {
        tail := loc;
      } else {
        prior[f] := loc;
      }
    }

    /** The node at `i` is split around `seqno`. */
    method SplitNode(i: int, loc: int, seqno: int, newEnd: int, ghost p: int, ghost x: int)
      requires Valid() && p in m && p < x < m[p] && Sh().Sized() && i == Sh().At(p) && loc == Sh().At(x + 1)
      requires seqno == Wrap(x) && newEnd == Shape.End(p, x - 1)
      modifies this, data1, data2, next, prior
      ensures Valid() && Lost() == old(Lost()) - {x} && x in old(Lost())
    {
      hide Valid, Shape.Rep, Shape.HeadOk, Shape.TailOk, Shape.Priors, Members, Slot, Disjoint, Wrap, SeqCmp;
      hide IncSeq, Shape.LinkIn;
      ghost var s := SplitReady(p, x);
      SplitWrites(i, loc, seqno, newEnd, x, m[p]);
      length := length - 1;
      m, own := s.m, s.own;
      ValidFrom(s);
    }

    /** What slot `i`, which is the slot of `y`, holds. */
    lemma Probe(i: int, y: int)
      requires Valid() && Sh().Sized() && i == Sh().At(y)
      ensures Arrays() && |own| == size && 0 <= i < size
      ensures data1[i] != -1 <==> Sh().Live(i)
      ensures y in m ==> own[i] == y && Sh().Live(i)
    {
      hide Shape.Linked, Shape.Windowed, Shape.HeadOk, Shape.TailOk, Shape.Priors, Slot, Disjoint, Members;
      if y in m { Sh().NodeAt(y); }
    }

    /** The node in a live slot `i`; `x` is any number in range. */
    lemma LiveNode(i: int, x: int) returns (p: int)
      requires Valid() && Near(x) && Sh().Sized() && Sh().Live(i)
      ensures Arrays() && |own| == size && 0 <= i < size && p == own[i] && p in m && Sh().At(p) == i
      ensures data1[i] == Wrap(p) && data2[i] == Shape.End(p, m[p]) && p <= m[p]
      ensures Abs(p - x) < SEQ_NO_TH && Abs(m[p] - x) < SEQ_NO_TH
    {
      hide Valid, Shape.Rep, Shape.Live, Slot, Disjoint, Near;
      Open();
      NearNodes(x);
      p := WalkOwner(i);
      Sh().NodeAt(p);
    }

    lemma SameSlot(y: int, z: int)
      requires Sh().Sized() && Sh().At(y) == Sh().At(z) && Abs(y - z) < size
      ensures y == z
    {
      if y != z { SlotDistinct(size, base, y, z); }
    }

    lemma PreviousSlot(y: int)
      requires Sh().Sized()
      ensures IndexBefore(size, Sh().At(y)) == Sh().At(y - 1)
    {
      SlotStep(size, base, y, -1);
    }

    /** No recorded interval starts after `y` and before `x`. */
    ghost predicate NoneBetween(y: int, x: int)
      reads this
    {
      forall k :: k in m ==> k <= y || x <= k
    }

    lemma NoneBetweenNext(x: int)
      ensures NoneBetween(x - 1, x)
    {
    }

    lemma ScanStep(i: int, y: int, x: int, h: int)
      requires Valid() && Sh().Sized() && i == Sh().At(y) && 0 <= i < size && data1.Length == size && data1[i] == -1
      requires NoneBetween(y, x) && h in m && h <= y < x
      ensures h <= y - 1 && NoneBetween(y - 1, x)
      ensures IndexBefore(size, i) == Sh().At(y - 1)
    {
      hide Valid, Slot, IndexBefore, Shape.Live;
      Probe(i, y);
      PreviousSlot(y);
    }

    /** The nearest occupied slot before the slot of `x`; the scan stops at the head node at the latest. */
    method ScanBack(loc: int, ghost x: int, ghost h: int) returns (i: int, ghost y: int)
      requires Valid() && Sh().Sized() && loc == Sh().At(x) && h in m && h < x
      ensures Sh().Live(i) && i == Sh().At(y) && h <= y < x && NoneBetween(y, x)
    {
      hide Valid, Sh, Shape.Live, NoneBetween, IndexBefore, Slot;
      NoneBetweenNext(x);
      Probe(loc, x);
      PreviousSlot(x);
      y := x - 1;
      i := IndexBefore(size, loc);
      Probe(i, y);
      while data1[i] == -1
        invariant Arrays() && 0 <= i < size && Sh().Sized() && i == Sh().At(y)
        invariant h <= y < x && NoneBetween(y, x)
        decreases y - h
      {
        ScanStep(i, y, x, h);
        i := IndexBefore(size, i);
        y := y - 1;
        Probe(i, y);
      }
      Probe(i, y);
    }

    /** `i` was found scanning back from `x`: it decides whether `x` is recorded. */
    lemma Decide(i: int, y: int, x: int, h: int) returns (p: int)
      requires Valid() && Near(x) && Sh().Sized() && Sh().Live(i) && i == Sh().At(y) && h <= y < x
      requires h in m && (forall k :: k in m ==> h <= k) && NoneBetween(y, x)
      requires x !in m
      ensures Arrays() && |own| == size && 0 <= i < size
      ensures p == own[i] && p in m && Sh().At(p) == i && p < x && data1[i] == Wrap(p)
              && data2[i] == Shape.End(p, m[p]) && p <= m[p]
      ensures x in Lost() <==> x <= m[p]
      ensures SeqCmp(Wrap(x), Wrap(m[p])) > 0 <==> x > m[p]
      ensures Wrap(x) == Wrap(m[p]) <==> x == m[p]
      ensures Wrap(x) == IncSeq(Wrap(p)) <==> x == p + 1
    {
      hide Valid, Near, Shape.Live, Lost, Slot, NoneBetween;
      p := LiveNode(i, x);
      DecideCover(p, y, x, h);
      CmpSign(x, m[p]);
      WrapInjective(x, m[p]);
      IncExact(p);
      WrapInjective(x, p + 1);
    }

    lemma DecideCover(p: int, y: int, x: int, h: int)
      requires Valid() && Sh().Sized() && p in m && Sh().At(p) == Sh().At(y) && h <= y < x
      requires h in m && (forall k :: k in m ==> h <= k) && NoneBetween(y, x)
      requires x !in m
      ensures x in Lost() <==> x <= m[p]
      ensures p < x
    {
      hide Valid, Shape.Rep, Shape.Live, Slot, Members, Disjoint;
      Open();
      Sh().Window(h);
      if x - h < size {
        SameSlot(y, p);
        CoveredBy(m, p, x);
      } else {
        OutOfReach(m, x);
      }
    }

    /** Where a removal of `x` looks first. */
    lemma Locate(x: int) returns (h: int)
      requires Valid() && Near(x) && length != 0
      ensures Arrays() && |own| == size && Sh().Sized() && 0 <= head < size && size <= SEQ_NO_TH
      ensures h == own[head] && h in m && Sh().At(h) == head && (forall k :: k in m ==> h <= k)
      ensures SeqOff(data1[head], Wrap(x)) == x - h
      ensures IndexAt(size, head, x - h) == Sh().At(x)
    {
      hide Valid, Near, Shape.Live, SeqOff, Slot, Members, IndexAt;
      var p;
      h, p := Ends();
      Probe(head, h);
      p := LiveNode(head, x);
      OffExact(h, x);
      StepFrom(h, x - h);
    }

    lemma StepFrom(h: int, k: int)
      requires Sh().Sized()
      ensures IndexAt(size, Sh().At(h), k) == Sh().At(h + k)
    {
      SlotStep(size, base, h, k);
    }

    /** What the slot of `x` says about `x`. */
    lemma AtSlot(x: int, h: int)
      requires Valid() && Near(x) && Sh().Sized() && h in m && forall k :: k in m ==> h <= k
      ensures Arrays() && 0 <= Sh().At(x) < size
      ensures data1[Sh().At(x)] == Wrap(x) <==> x in m
      ensures x < h ==> x !in Lost()
    {
      hide Valid, Near, Slot, Members;
      Probe(Sh().At(x), x);
      if x < h { OutOfReach(m, x); }
      if Sh().Live(Sh().At(x)) {
        var p := LiveNode(Sh().At(x), x);
        WrapInjective(x, p);
      }
    }

    /** `seqno` starts a node. */
    method RemoveStart(loc: int, ghost x: int)
      requires Valid() && x in m && Sh().Sized() && loc == Sh().At(x)
      modifies this, data1, data2, next, prior
      ensures Valid() && Lost() == old(Lost()) - {x} && x in old(Lost())
    {
      hide Valid, Shape.Full, Members, Slot, Disjoint, Wrap;
      ghost var c := NodeReady(x);
      if data2[loc] == -1 {
        if head == loc {
          DropHead(x);
        } else {
          DropInner(loc, x);
        }
      } else {
        Shift(loc, x);
      }
    }

    /** `seqno` starts no node: it may lie inside an earlier one. */
    method RemoveInside(loc0: int, seqno: int, ghost x: int, ghost h: int) returns (found: bool)
      requires Valid() && Near(x) && Sh().Sized() && loc0 == Sh().At(x) && x !in m && seqno == Wrap(x)
      requires h in m && h < x && (forall k :: k in m ==> h <= k)
      modifies this, data1, data2, next, prior
      ensures Valid() && Lost() == old(Lost()) - {x} && (found <==> x in old(Lost()))
    {
      hide Valid, Near, NoneBetween, Shape.Live, Wrap, SeqCmp, IncSeq, DecSeq, Slot, Lost;
      var i; ghost var y;
      i, y := ScanBack(loc0, x, h);
      ghost var p := Decide(i, y, x, h);
      if data2[i] == -1 || SeqCmp(seqno, data2[i]) > 0 {
        return false;
      }
      found := true;
      DecExact(x);
      var newEnd := if seqno == IncSeq(data1[i]) then -1 else DecSeq(seqno);
      if seqno == data2[i] {
        Trim(i, newEnd, p, x);
      } else {
        StepSlot(x);
        var loc := (loc0 + 1) % size;
        SplitNode(i, loc, seqno, newEnd, p, x);
      }
    }

    lemma StepSlot(x: int)
      requires Sh().Sized()
      ensures (Sh().At(x) + 1) % size == Sh().At(x + 1)
    {
      SlotStep(size, base, x, 1);
    }

    /** Removes `seqno`, which stands for `x`; tells whether it was recorded. */
    method Remove(seqno: int, ghost x: int) returns (found: bool)
      requires Valid() && Near(x) && seqno == Wrap(x)
      modifies this, data1, data2, next, prior
      ensures Valid()
      ensures found <==> x in old(Lost())
      ensures Lost() == old(Lost()) - {x}
    {
      hide Valid, Near, Wrap, SeqOff, Slot, Lost, IndexAt;
      CountLost();
      if length == 0 {
        return false;
      }
      ghost var h := Locate(x);
      AtSlot(x, h);
      var offset := SeqOff(data1[head], seqno);
      if offset < 0 {
        return false;
      }
      var loc := IndexAt(size, head, offset);
      if seqno == data1[loc] {
        RemoveStart(loc, x);
        return true;
      }
      found := RemoveInside(loc, seqno, x, h);
    }

    // ---------------------------------------------------------------- queries

    /** The smallest recorded number; -1 when there is none. */
    method GetFirstLostSeq() returns (seqno: int, ghost x: int)
      requires Valid()
      ensures Lost() == {} ==> seqno == -1
      ensures Lost() != {} ==> x in Lost() && (forall y :: y in Lost() ==> x <= y) && seqno == Wrap(x)
    {
      hide Valid, Lost, Wrap;
      CountLost();
      x := 0;
      if length == 0 {
        return -1, x;
      }
      x := FirstReady();
      return data1[head], x;
    }

    lemma FirstReady() returns (x: int)
      requires Valid() && length != 0
      ensures Arrays() && 0 <= head < size && data1[head] == Wrap(x)
      ensures x in Lost() && (forall y :: y in Lost() ==> x <= y)
    {
      hide Valid, Members, Disjoint, Shape.Rep;
      var p;
      x, p := Ends();
      Open();
      Sh().NodeAt(x);
      FirstIsLeast(m, x);
    }

    /** Node `k` meets the query for `seqno1..seqno2`. */
    ghost predicate Hit(k: int, a: int, b: int)
      requires k in m
      reads this
    {
      k == a || a < k <= b || (k < a && a <= m[k])
    }

    lemma HitFound(k: int, a: int, b: int)
      requires k in m && k <= m[k] && Hit(k, a, b)
      ensures exists x :: x in Lost() && (x == a || a <= x <= b)
    {
      var x := if k < a then a else k;
      assert Between(k, x, m[k]);
      assert x in Lost();
    }

    lemma NoHit(a: int, b: int)
      requires forall k :: k in m ==> !Hit(k, a, b)
      ensures !exists x :: x in Lost() && (x == a || a <= x <= b)
    {
      forall x | x in Lost() ensures !(x == a || a <= x <= b) {
        var k :| k in m && Between(k, x, m[k]);
        assert Between(k, x, m[k]) && !Hit(k, a, b);
      }
    }

    /** The node at `p` and the one after it, during a walk from the head. */
    lemma WalkNode(p: int) returns (k: int)
      requires Valid() && Sh().Sized() && Sh().Live(p)
      ensures Arrays() && |own| == size && 0 <= p < size && k == own[p] && k in m && k <= m[k]
      ensures data1[p] == Wrap(k) && data2[p] == Shape.End(k, m[k]) && -1 <= next[p] < size
      ensures next[p] == -1 ==> forall j :: j in m ==> j <= k
      ensures next[p] != -1 ==> Sh().Live(next[p]) && k < own[next[p]]
                                  && forall j :: j in m ==> j <= k || own[next[p]] <= j
    {
      hide Valid, Shape.Rep, Shape.Live, Members, Disjoint, Slot;
      k := WalkOwner(p);
      Open();
      Sh().NodeAt(k);
      if next[p] == -1 { Sh().NoNext(k); } else { var z := Sh().NextOf(k); Sh().NodeAt(z); }
    }

    lemma WalkOwner(p: int) returns (k: int)
      requires Valid() && Sh().Sized() && Sh().Live(p)
      ensures |own| == size && 0 <= p < size && k == own[p] && k in m && Sh().At(k) == p && k <= m[k]
    {
      hide Shape.Stored, Shape.Blank, Shape.Linked, Shape.HeadOk, Shape.TailOk, Shape.Priors;
      k := own[p];
    }

    lemma WalkStart()
      requires Valid() && length != 0
      ensures Sh().Sized() && Sh().Live(head) && Arrays() && |own| == size && 0 <= head < size
      ensures forall k :: k in m ==> own[head] <= k
    {
      hide Valid, Shape.Live;
      var h, p := Ends();
      Probe(head, h);
    }

    lemma HitWrapped(k: int, a: int, b: int)
      requires Valid() && k in m && Near(a) && Near(b)
      ensures Hit(k, a, b) <==>
                || SeqCmp(Wrap(k), Wrap(a)) == 0
                || (SeqCmp(Wrap(k), Wrap(a)) > 0 && SeqCmp(Wrap(k), Wrap(b)) <= 0)
                || (SeqCmp(Wrap(k), Wrap(a)) < 0 && Shape.End(k, m[k]) != -1
                   && SeqCmp(Shape.End(k, m[k]), Wrap(a)) >= 0)
    {
      hide Valid, Near, SeqCmp, Wrap;
      NearNodes(a);
      NearNodes(b);
      CmpSign(k, a);
      CmpSign(k, b);
      CmpSign(m[k], a);
    }

    /** Whether some number from `seqno1` to `seqno2` (or `seqno1` itself) is recorded. */
    method Find(seqno1: int, seqno2: int, ghost a: int, ghost b: int) returns (found: bool)
      requires Valid() && Near(a) && Near(b) && seqno1 == Wrap(a) && seqno2 == Wrap(b)
      ensures found <==> exists x :: x in Lost() && (x == a || a <= x <= b)
    {
      hide Valid, Near, Hit, Lost, SeqCmp, Wrap, Shape.Live, Slot;
      CountLost();
      if length == 0 {
        return false;
      }
      Open();
      WalkStart();
      var p := head;
      ghost var k := WalkNode(p);
      while p != -1
        invariant Sh().Sized() && |own| == size
        invariant p != -1 ==> Sh().Live(p) && 0 <= p < size
        invariant forall j :: j in m && (p == -1 || j < own[p]) ==> !Hit(j, a, b)
        decreases if p == -1 then {} else set j | j in m && own[p] <= j
      {
        k := WalkNode(p);
        var hit := Touches(p, seqno1, seqno2, k, a, b);
        if hit {
          HitFound(k, a, b);
          return true;
        }
        WalkDown(p, k);
        p := next[p];
      }
      NoHit(a, b);
      return false;
    }

    /** Does the node at `p` hold `seqno1` or start in the range? */
    method Touches(p: int, seqno1: int, seqno2: int, ghost k: int, ghost a: int, ghost b: int) returns (hit: bool)
      requires Valid() && Near(a) && Near(b) && seqno1 == Wrap(a) && seqno2 == Wrap(b)
      requires Arrays() && 0 <= p < size && k in m && data1[p] == Wrap(k) && data2[p] == Shape.End(k, m[k])
      ensures hit <==> Hit(k, a, b)
    {
      hide Valid, Near, Hit, SeqCmp, Wrap;
      HitWrapped(k, a, b);
      hit := SeqCmp(data1[p], seqno1) == 0
             || (SeqCmp(data1[p], seqno1) > 0 && SeqCmp(data1[p], seqno2) <= 0)
             || (SeqCmp(data1[p], seqno1) < 0 && data2[p] != -1 && SeqCmp(data2[p], seqno1) >= 0);
    }

    lemma WalkDown(p: int, k: int)
      requires Arrays() && |own| == size && 0 <= p < size && k == own[p] && k in m && -1 <= next[p] < size
      requires next[p] != -1 ==> k < own[next[p]]
      ensures (if next[p] == -1 then {} else set j | j in m && own[next[p]] <= j) < (set j | j in m && k <= j)
    {
      assert k in (set j | j in m && k <= j);
    }

    lemma ReportStart()
      requires Valid()
      ensures Ascends([]) && Code([]) == []
      ensures head != -1 ==> Sh().Live(head) && 0 <= head < size && |own| == size
      ensures Covers(m, [], head == -1, if head == -1 || |own| != size || head < 0 || head >= size then 0
              else own[head])
    {
      assert head == -1 ==> m == map[];
    }

    lemma ReportStep(i: int, k: int, rs: Ranges)
      requires Valid() && Sh().Sized() && Sh().Live(i) && |own| == size && 0 <= i < size && k == own[i]
      requires Arrays() && -1 <= next[i] < size
      requires Ascends(rs) && Covers(m, rs, false, k)
      ensures k in m
      ensures Ascends(rs + [(k, m[k])])
      ensures Covers(m, rs + [(k, m[k])], next[i] == -1, if next[i] == -1 then 0 else own[next[i]])
    {
      hide Valid, Ascends, Covers, Shape.Live, Slot, Disjoint;
      var k' := WalkNode(i);
      Open();
      CoversNext(m, rs, k, next[i] == -1, if next[i] == -1 then 0 else own[next[i]]);
    }

    /** Writes one range of the report at `len`. */
    method WriteCode(arr: array<int>, len0: int, first: int, end: int, ghost k: int, ghost e: int, ghost done: seq<int>)
      returns (len: int)
      requires 0 <= len0 < arr.Length - 1 && len0 == |done|
      requires first == Wrap(k) && end == Shape.End(k, e)
      requires done <= arr[..]
      modifies arr
      ensures len == len0 + |CodeOne((k, e))| <= arr.Length
      ensures arr[..] == done + CodeOne((k, e)) + old(arr[len..])
    {
      hide Wrap;
      len := len0;
      arr[len] := first;
      if end != -1 {
        // more than one number: mark the first word and add the last number
        arr[len] := arr[len] + FLAG;
        len := len + 1;
        arr[len] := end;
      }
      len := len + 1;
    }

    lemma ReportEnd(rs: Ranges, all: bool, stop: int)
      requires Valid() && Covers(m, rs, all, stop)
      ensures Named(rs) <= Lost()
      ensures forall x, y :: x in Lost() && y in Named(rs) && x <= y ==> x in Named(rs)
      ensures all ==> Named(rs) == Lost()
    {
      hide Valid, Covers, Named, Members, Disjoint;
      Open();
      CoversNames(m, rs, all, stop);
    }

    lemma ReportShort(rs: Ranges)
      requires Ascends(rs) && Named(rs) <= Lost()
      ensures |Code(rs)| <= |Lost()| && (Named(rs) != Lost() ==> |Code(rs)| < |Lost()|)
    {
      WordsAtMostNumbers(rs);
      SubsetSize(Named(rs), Lost());
    }

    static lemma RestOf(done: seq<int>, orig: seq<int>, i: int, j: int)
      requires 0 <= i <= j <= |orig| && |done| == i
      ensures (done + orig[i..])[j..] == orig[j..]
    {
    }

    /** Writes the loss report, in ascending order, as far as `limit` words allow. */
    method GetLossArray(arr: array<int>, limit: int) returns (len: int, ghost rs: Ranges)
      requires Valid() && limit <= arr.Length
      requires arr != data1 && arr != data2 && arr != next && arr != prior
      modifies arr
      ensures 0 <= len <= arr.Length && (len == 0 || len <= limit)
      ensures arr[..] == Code(rs) + old(arr[len..]) && len == |Code(rs)|
      ensures Ascends(rs) && Named(rs) <= Lost()
      ensures forall x, y :: x in Lost() && y in Named(rs) && x <= y ==> x in Named(rs)
      ensures len < limit - 1 || |Lost()| <= limit - 1 ==> Named(rs) == Lost()
    {
      hide Valid, Covers, Lost, Ascends, Code, Named, Wrap, Shape.Live, Slot, FLAG;
      Open();
      ReportStart();
      len, rs := 0, [];
      ghost var orig := arr[..];
      assert orig[0..] == orig;
      var i := head;
      while len < limit - 1 && i != -1
        invariant Sh().Sized() && |own| == size && Arrays() && (i != -1 ==> Sh().Live(i) && 0 <= i < size)
        invariant 0 <= len <= arr.Length && (len == 0 || len <= limit) && len == |Code(rs)|
        invariant arr[..] == Code(rs) + orig[len..]
        invariant Ascends(rs) && Covers(m, rs, i == -1, if i == -1 then 0 else own[i])
        decreases if i == -1 then {} else set j | j in m && own[i] <= j
      {
        ghost var k := WalkNode(i);
        ReportStep(i, k, rs);
        CodeAppend(rs, (k, m[k]));
        ghost var len0 := len;
        len := WriteCode(arr, len, data1[i], data2[i], k, m[k], Code(rs));
        RestOf(Code(rs), orig, len0, len);
        rs := rs + [(k, m[k])];
        WalkDown(i, k);
        i := next[i];
      }
      ReportEnd(rs, i == -1, if i == -1 then 0 else own[i]);
      ReportShort(rs);
    }
  }
}
