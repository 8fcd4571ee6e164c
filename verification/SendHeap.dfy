/**
  The send scheduler: a binary heap of sockets by the time of their next
  packet, where every entry knows its place.
 */
module SendHeap {

  class SNode {
    var timeStamp: int
    var heapLoc: int

    constructor ()
      ensures heapLoc == -1
    {
      timeStamp, heapLoc := 1, -1;
    }
  }

  /** An entry of the heap and its time. */
  datatype Item = Item(node: SNode, ts: int)

  type Heap = seq<Item>

  function Parent(i: int): (p: int)
    requires i > 0
    ensures 0 <= p < i && (i == 2 * p + 1 || i == 2 * p + 2)
  {
    (i - 1) / 2
  }

  function Swap(h: Heap, i: int, j: int): (r: Heap)
    requires 0 <= i < |h| && 0 <= j < |h|
    ensures |r| == |h|
  {
    h[i := h[j]][j := h[i]]
  }

  /** The entry at `q` moves up past every later parent. */
  function Up(h: Heap, q: int): (r: Heap)
    requires 0 <= q < |h|
    ensures |r| == |h|
    decreases q
  {
    if q == 0 then h
    else if h[Parent(q)].ts > h[q].ts then Up(Swap(h, Parent(q), q), Parent(q))
    else h
  }

  /** The earlier child of `q`. */
  function Child(h: Heap, q: int): (c: int)
    requires 0 <= q && 2 * q + 1 < |h|
    ensures c == 2 * q + 1 || c == 2 * q + 2
    ensures c < |h|
  {
    if 2 * q + 2 < |h| && h[2 * q + 1].ts > h[2 * q + 2].ts then 2 * q + 2 else 2 * q + 1
  }

  /** The entry at `q` moves down past every earlier child. */
  function Down(h: Heap, q: int): (r: Heap)
    requires 0 <= q
    ensures |r| == |h|
    decreases |h| - q
  {
    if 2 * q + 1 < |h| && h[q].ts > h[Child(h, q)].ts then Down(Swap(h, Child(h, q), q), Child(h, q)) else h
  }

  function Inserted(h: Heap, e: Item): Heap {
    Up(h + [e], |h|)
  }

  /** Removing entry `loc`: the last entry takes its place and moves down, but never up. */
  function Removed(h: Heap, loc: int): Heap
    requires 0 <= loc < |h|
  {
    Down(h[loc := h[|h| - 1]][..|h| - 1], loc)
  }

  ghost predicate Ordered(h: Heap) {
    forall i :: 0 < i < |h| ==> h[Parent(i)].ts <= h[i].ts
  }

  // ---------------------------------------------------------------- the earliest entry is first

  lemma {:induction false} RootIsEarliest(h: Heap, i: int)
    requires Ordered(h) && 0 <= i < |h|
    ensures h[0].ts <= h[i].ts
    decreases i
  {
    if i > 0 { RootIsEarliest(h, Parent(i)); }
  }

  // ---------------------------------------------------------------- moving keeps the entries

  lemma SwapKeeps(h: Heap, i: int, j: int)
    requires 0 <= i < |h| && 0 <= j < |h|
    ensures multiset(Swap(h, i, j)) == multiset(h)
  {
  }

  lemma {:induction false} UpKeeps(h: Heap, q: int)
    requires 0 <= q < |h|
    ensures multiset(Up(h, q)) == multiset(h)
    decreases q
  {
    if q > 0 && h[Parent(q)].ts > h[q].ts {
      SwapKeeps(h, Parent(q), q);
      UpKeeps(Swap(h, Parent(q), q), Parent(q));
    }
  }

  lemma {:induction false} DownKeeps(h: Heap, q: int)
    requires 0 <= q
    ensures multiset(Down(h, q)) == multiset(h)
    decreases |h| - q
  {
    if 2 * q + 1 < |h| && h[q].ts > h[Child(h, q)].ts {
      SwapKeeps(h, Child(h, q), q);
      DownKeeps(Swap(h, Child(h, q), q), Child(h, q));
    }
  }

  /** Inserting and removing change nothing but the entry in question. */
  lemma Entries(h: Heap, e: Item, loc: int)
    ensures multiset(Inserted(h, e)) == multiset(h) + multiset{e}
    ensures 0 <= loc < |h| ==> multiset(Removed(h, loc)) == multiset(h) - multiset{h[loc]}
  {
    UpKeeps(h + [e], |h|);
    if 0 <= loc < |h| {
      var last := h[|h| - 1];
      var g := h[loc := last];
      assert g == g[..|h| - 1] + [last];
      Updated(h, loc, last);
      Cancel(multiset(g[..|h| - 1]), multiset(h) - multiset{h[loc]}, last);
      DownKeeps(g[..|h| - 1], loc);
    }
  }

  lemma Updated(h: Heap, loc: int, e: Item)
    requires 0 <= loc < |h|
    ensures multiset(h[loc := e]) == multiset(h) - multiset{h[loc]} + multiset{e}
  {
    var a, b := h[..loc], h[loc + 1..];
    assert h == a + [h[loc]] + b && h[loc := e] == a + [e] + b;
    assert multiset(h) == multiset(a) + multiset{h[loc]} + multiset(b);
    assert multiset(h[loc := e]) == multiset(a) + multiset{e} + multiset(b);
  }

  lemma Cancel(a: multiset<Item>, b: multiset<Item>, e: Item)
    requires a + multiset{e} == b + multiset{e}
    ensures a == b
  {
    forall x ensures a[x] == b[x] {
      assert (a + multiset{e})[x] == (b + multiset{e})[x];
    }
  }

  // ---------------------------------------------------------------- moving up

  /** In order everywhere except that the entry at `q` may be too late in the heap. */
  ghost predicate UpReady(h: Heap, q: int) {
    && (forall i :: 0 < i < |h| && i != q ==> h[Parent(i)].ts <= h[i].ts)
    && (forall i :: 0 < i < |h| && q > 0 && Parent(i) == q ==> h[Parent(q)].ts <= h[i].ts)
  }

  lemma UpStep(h: Heap, q: int)
    requires 0 < q < |h| && UpReady(h, q) && h[Parent(q)].ts > h[q].ts
    ensures UpReady(Swap(h, Parent(q), q), Parent(q))
  {
    var p := Parent(q);
    var g := Swap(h, p, q);
    forall i | 0 < i < |h| && i != p ensures g[Parent(i)].ts <= g[i].ts {
      if i == q {
      } else if Parent(i) == q {
      } else if Parent(i) == p {
      }
    }
    forall i | 0 < i < |h| && p > 0 && Parent(i) == p ensures g[Parent(p)].ts <= g[i].ts {
      assert h[Parent(p)].ts <= h[p].ts;
      if i != q { assert h[p].ts <= h[i].ts; }
    }
  }

  lemma {:induction false} UpOrders(h: Heap, q: int)
    requires 0 <= q < |h| && UpReady(h, q)
    ensures Ordered(Up(h, q))
    decreases q
  {
    if q > 0 && h[Parent(q)].ts > h[q].ts {
      UpStep(h, q);
      UpOrders(Swap(h, Parent(q), q), Parent(q));
    }
  }

  lemma InsertOrders(h: Heap, e: Item)
    requires Ordered(h)
    ensures Ordered(Inserted(h, e))
  {
    UpOrders(h + [e], |h|);
  }

  // ---------------------------------------------------------------- moving down

  /** In order everywhere except that the entry at `q` may be too early in the heap. */
  ghost predicate DownReady(h: Heap, q: int) {
    && (forall i :: 0 < i < |h| && Parent(i) != q ==> h[Parent(i)].ts <= h[i].ts)
    && (forall i :: 0 < i < |h| && q > 0 && Parent(i) == q ==> h[Parent(q)].ts <= h[i].ts)
  }

  lemma DownStep(h: Heap, q: int)
    requires 0 <= q && 2 * q + 1 < |h| && DownReady(h, q) && h[q].ts > h[Child(h, q)].ts
    ensures DownReady(Swap(h, Child(h, q), q), Child(h, q))
  {
    var c := Child(h, q);
    var g := Swap(h, c, q);
    assert Parent(c) == q;
    forall i | 0 < i < |h| && Parent(i) != c ensures g[Parent(i)].ts <= g[i].ts {
      if i == q {
        assert h[Parent(q)].ts <= h[c].ts;
      } else if Parent(i) == q {
      }
    }
    forall i | 0 < i < |h| && Parent(i) == c ensures g[Parent(c)].ts <= g[i].ts {
      assert h[c].ts <= h[i].ts;
    }
  }

  lemma {:induction false} DownOrders(h: Heap, q: int)
    requires 0 <= q && DownReady(h, q)
    ensures Ordered(Down(h, q))
    decreases |h| - q
  {
    if 2 * q + 1 < |h| && h[q].ts > h[Child(h, q)].ts {
      DownStep(h, q);
      DownOrders(Swap(h, Child(h, q), q), Child(h, q));
    } else {
      forall i | 0 < i < |h| && Parent(i) == q ensures h[Parent(i)].ts <= h[i].ts {
        assert i == 2 * q + 1 || i == 2 * q + 2;
      }
    }
  }

  /**
    Removing an entry keeps the order exactly if the last entry, which takes
    its place, is not earlier than its new parent; for the first and the last
    entry that is always so.
   */
  lemma RemoveOrdersIff(h: Heap, loc: int)
    requires Ordered(h) && 0 <= loc < |h|
    ensures Ordered(Removed(h, loc)) <==> loc == 0 || loc == |h| - 1 || h[Parent(loc)].ts <= h[|h| - 1].ts
  {
    var last := h[|h| - 1];
    var g := h[loc := last][..|h| - 1];
    if loc == |h| - 1 {
      assert Removed(h, loc) == g;
    } else if loc == 0 || h[Parent(loc)].ts <= last.ts {
      Replaced(h, loc, g);
      DownOrders(g, loc);
    } else {
      TooEarly(h, loc, g);
    }
  }

  lemma Replaced(h: Heap, loc: int, g: Heap)
    requires Ordered(h) && 0 <= loc < |h| - 1 && g == h[loc := h[|h| - 1]][..|h| - 1]
    requires loc == 0 || h[Parent(loc)].ts <= h[|h| - 1].ts
    ensures DownReady(g, loc)
  {
    forall i | 0 < i < |g| && loc > 0 && Parent(i) == loc ensures g[Parent(loc)].ts <= g[i].ts {
      assert h[Parent(loc)].ts <= h[loc].ts <= h[i].ts;
    }
  }

  /** An entry earlier than its new parent is earlier than its children too, and stays. */
  lemma TooEarly(h: Heap, loc: int, g: Heap)
    requires Ordered(h) && 0 < loc < |h| - 1 && g == h[loc := h[|h| - 1]][..|h| - 1]
    requires h[Parent(loc)].ts > h[|h| - 1].ts
    ensures Down(g, loc) == g && !Ordered(g)
  {
    if 2 * loc + 1 < |g| {
      var c := Child(g, loc);
      assert Parent(c) == loc;
      assert h[Parent(loc)].ts <= h[loc].ts <= h[c].ts;
    }
    assert g[Parent(loc)].ts > g[loc].ts;
  }

  /** Entries at the times `ts` for the sockets `ns`. */
  function Items(ns: seq<SNode>, ts: seq<int>): (h: Heap)
    requires |ns| == |ts|
    ensures |h| == |ns|
  {
    seq(|ns|, i requires 0 <= i < |ns| => Item(ns[i], ts[i]))
  }

  /** The heap after scheduling the sockets `ns` one after the other at the times `ts`. */
  function Scheduled(ns: seq<SNode>, ts: seq<int>): (h: Heap)
    requires |ns| == |ts|
    ensures |h| == |ns|
  {
    if ns == [] then []
    else
      var k := |ns| - 1;
      Inserted(Scheduled(ns[..k], ts[..k]), Item(ns[k], ts[k]))
  }

  lemma ItemsNext(ns: seq<SNode>, ts: seq<int>)
    requires |ns| == |ts| > 0
    ensures var k := |ns| - 1; Items(ns, ts) == Items(ns[..k], ts[..k]) + [Item(ns[k], ts[k])]
  {
  }

  /** An entry that is in order at the end stays there. */
  lemma StaysLast(h: Heap, e: Item)
    requires Ordered(h + [e])
    ensures Ordered(h) && Inserted(h, e) == h + [e]
  {
    var g := h + [e];
    forall i | 0 < i < |h| ensures h[Parent(i)].ts <= h[i].ts {
      assert g[Parent(i)].ts <= g[i].ts;
    }
    if h != [] { assert g[Parent(|h|)].ts <= g[|h|].ts; }
  }

  /** Entries in order can be scheduled in that order. */
  lemma {:induction false} ScheduledInOrder(ns: seq<SNode>, ts: seq<int>)
    requires |ns| == |ts| && Ordered(Items(ns, ts))
    ensures Scheduled(ns, ts) == Items(ns, ts)
  {
    hide Items, Ordered, Inserted;
    if ns == [] {
      assert Items(ns, ts) == [];
    } else {
      var k := |ns| - 1;
      ItemsNext(ns, ts);
      StaysLast(Items(ns[..k], ts[..k]), Item(ns[k], ts[k]));
      ScheduledInOrder(ns[..k], ts[..k]);
    }
  }

  ghost predicate Different(ns: seq<SNode>) {
    forall i, j :: 0 <= i < j < |ns| ==> ns[i] != ns[j]
  }

  /** Six sockets, scheduled one after the other. */
  function Six(ns: seq<SNode>): Heap
    requires |ns| == 6
  {
    Scheduled(ns, [1, 10, 2, 11, 12, 3])
  }

  /** Six entries of different sockets, in order, that are out of order once the fourth is removed. */
  lemma RemoveCanDisorder(ns: seq<SNode>)
    requires |ns| == 6 && Different(ns)
    ensures Ordered(Six(ns)) && !Ordered(Removed(Six(ns), 3))
  {
    SixOrdered(ns);
    RemoveOrdersIff(Six(ns), 3);
  }

  lemma SixOrdered(ns: seq<SNode>)
    requires |ns| == 6
    ensures Six(ns) == Items(ns, [1, 10, 2, 11, 12, 3])
    ensures Ordered(Six(ns)) && |Six(ns)| == 6 && Six(ns)[1].ts == 10 && Six(ns)[5].ts == 3 && Parent(3) == 1
    ensures forall i :: 0 <= i < 6 ==> Six(ns)[i].node == ns[i] && Six(ns)[i].ts >= 1
  {
    assert Parent(1) == 0 && Parent(2) == 0 && Parent(3) == 1 && Parent(4) == 1 && Parent(5) == 2;
    var h := Items(ns, [1, 10, 2, 11, 12, 3]);
    assert h[0].ts == 1 && h[1].ts == 10 && h[2].ts == 2 && h[3].ts == 11 && h[4].ts == 12 && h[5].ts == 3;
    assert Ordered(h);
    ScheduledInOrder(ns, [1, 10, 2, 11, 12, 3]);
  }

  // ---------------------------------------------------------------- the operations of the scheduler

  function Rescheduled(h: Heap, n: SNode, loc: int, reschedule: bool): Heap
    requires -1 <= loc < |h|
  {
    if loc == -1 then Inserted(h, Item(n, 1))
    else if !reschedule then h
    else if loc == 0 then h[0 := Item(n, 1)]
    else Inserted(Removed(h, loc), Item(n, 1))
  }

  /** The first entry is served; it comes back at time `next`, if that is positive. */
  function Served(h: Heap, next: int): Heap
    requires h != []
  {
    if next > 0 then Inserted(Removed(h, 0), Item(h[0].node, next)) else Removed(h, 0)
  }

  /** Serving always takes the earliest entry and keeps the order. */
  lemma ServedEarliest(h: Heap, next: int, i: int)
    requires Ordered(h) && 0 <= i < |h|
    ensures h[0].ts <= h[i].ts && Ordered(Served(h, next))
    ensures multiset(Served(h, next)) == multiset(h) - multiset{h[0]}
            + (if next > 0 then multiset{Item(h[0].node, next)} else multiset{})
  {
    hide Removed, Inserted;
    RootIsEarliest(h, i);
    RemoveOrdersIff(h, 0);
    Entries(h, h[0], 0);
    Entries(Removed(h, 0), Item(h[0].node, next), 0);
    InsertOrders(Removed(h, 0), Item(h[0].node, next));
  }

  /** Slot `i` is `q` or an ancestor of it. */
  predicate Above(i: int, q: int)
    requires q >= 0
    decreases q
  {
    i == q || (q > 0 && Above(i, Parent(q)))
  }

  lemma {:induction false} AboveIsEarlier(h: Heap, i: int, q: int)
    requires Ordered(h) && 0 <= q < |h| && Above(i, q)
    ensures 0 <= i <= q && h[i].ts <= h[q].ts
    decreases q
  {
    if i != q { AboveIsEarlier(h, i, Parent(q)); }
  }

  /** An entry that moves up touches only the slots above it. */
  lemma {:induction false} UpTouches(h: Heap, q: int, i: int)
    requires 0 <= q < |h| && 0 <= i < |h| && !Above(i, q)
    ensures Up(h, q)[i] == h[i]
    decreases q
  {
    if q > 0 && h[Parent(q)].ts > h[q].ts {
      UpTouches(Swap(h, Parent(q), q), Parent(q), i);
    }
  }

  /** Neither the slot that fell out of order nor its parent is on the way of the entry put back. */
  lemma DisorderStays(h: Heap, loc: int, e: Item)
    requires Ordered(h) && 0 < loc < |h| - 1 && h[Parent(loc)].ts > h[|h| - 1].ts
    ensures !Ordered(Inserted(Removed(h, loc), e))
  {
    var n, p := |h| - 1, Parent(loc);
    var g := h[loc := h[n]][..n];
    TooEarly(h, loc, g);
    if Above(p, n) { AboveIsEarlier(h, p, n); }
    if Above(loc, n) { AboveIsEarlier(h, loc, n); }
    UpTouches(g + [e], n, p);
    UpTouches(g + [e], n, loc);
    assert Inserted(g, e)[p].ts > Inserted(g, e)[loc].ts;
  }

  /**
    Rescheduling keeps the order, times being positive, exactly unless it
    takes an inner entry out whose parent is later than the last entry.
   */
  lemma RescheduledOrders(h: Heap, n: SNode, loc: int, reschedule: bool)
    requires Ordered(h) && -1 <= loc < |h| && forall i :: 0 <= i < |h| ==> h[i].ts >= 1
    ensures Ordered(Rescheduled(h, n, loc, reschedule))
            <==> !(reschedule && 0 < loc < |h| - 1 && h[Parent(loc)].ts > h[|h| - 1].ts)
  {
    hide Removed, Inserted;
    InsertOrders(h, Item(n, 1));
    if loc > 0 && reschedule {
      RemoveOrdersIff(h, loc);
      if Ordered(Removed(h, loc)) {
        InsertOrders(Removed(h, loc), Item(n, 1));
      } else {
        DisorderStays(h, loc, Item(n, 1));
      }
    }
  }

  // ---------------------------------------------------------------- scheduled at once

  /** An entry earlier than all others moves up to the root. */
  lemma {:induction false} UpToRoot(h: Heap, q: int)
    requires 0 <= q < |h| && forall i :: 0 <= i < |h| && i != q ==> h[i].ts > h[q].ts
    ensures Up(h, q)[0] == h[q]
    decreases q
  {
    if q > 0 {
      var g := Swap(h, Parent(q), q);
      UpToRoot(g, Parent(q));
    }
  }

  /** Each socket has at most one entry, and `loc` is that of `n`, if it has one. */
  ghost predicate Single(h: Heap, n: SNode, loc: int) {
    && (forall i, j :: 0 <= i < j < |h| ==> h[i].node != h[j].node)
    && -1 <= loc < |h|
    && (forall i :: 0 <= i < |h| ==> (h[i].node == n <==> i == loc))
  }

  /** What is left of a heap when the entry of `n` is taken out, if it has one. */
  lemma OneLess(h: Heap, n: SNode, loc: int) returns (rest: multiset<Item>)
    requires Single(h, n, loc)
    ensures rest == if loc == -1 then multiset(h) else multiset(h) - multiset{h[loc]}
    ensures forall e :: e in rest ==> e in h && e.node != n
    ensures forall e: Item :: e.node != n ==> rest[e] == multiset(h)[e]
  {
    rest := if loc == -1 then multiset(h) else multiset(h) - multiset{h[loc]};
    forall e | e in rest ensures e in h && e.node != n {
      assert e in multiset(h);
      if e.node == n {
        var i :| 0 <= i < |h| && h[i] == e;
        assert i == loc;
        OnceOnly(h, loc);
      }
    }
  }

  lemma OnceOnly(h: Heap, loc: int)
    requires 0 <= loc < |h| && forall i :: 0 <= i < |h| && i != loc ==> h[i].node != h[loc].node
    ensures multiset(h)[h[loc]] == 1
  {
    var a, b := h[..loc], h[loc + 1..];
    assert h == a + [h[loc]] + b;
    assert h[loc] !in a && h[loc] !in b;
  }

  /**
    An update that schedules: socket `n` has exactly one entry, at time 1, so
    no entry is earlier; the other sockets keep theirs.  If those are all later
    than 1, `n` is first, whether or not the rest is in order.
   */
  lemma RescheduledAtOnce(h: Heap, n: SNode, loc: int, reschedule: bool)
    requires Single(h, n, loc) && (loc == -1 || reschedule)
    ensures var g := Rescheduled(h, n, loc, reschedule);
            && multiset(g)[Item(n, 1)] == 1 && (forall e :: e in g && e.node == n ==> e == Item(n, 1))
            && (forall e: Item :: e.node != n ==> multiset(g)[e] == multiset(h)[e])
            && ((forall e :: e in h && e.node != n ==> e.ts > 1) ==> g[0] == Item(n, 1))
  {
    hide Removed, Inserted;
    var rest := OneLess(h, n, loc);
    var g := Rescheduled(h, n, loc, reschedule);
    RescheduledEntries(h, n, loc, reschedule, rest);
    assert forall e :: e in g ==> e in multiset(g);
    if forall e :: e in h && e.node != n ==> e.ts > 1 { ComesFirst(h, n, loc, reschedule, rest); }
  }

  lemma RescheduledEntries(h: Heap, n: SNode, loc: int, reschedule: bool, rest: multiset<Item>)
    requires -1 <= loc < |h| && (loc == -1 || reschedule)
    requires rest == if loc == -1 then multiset(h) else multiset(h) - multiset{h[loc]}
    ensures multiset(Rescheduled(h, n, loc, reschedule)) == rest + multiset{Item(n, 1)}
  {
    hide Removed, Inserted;
    if loc == -1 {
      Entries(h, Item(n, 1), 0);
    } else if loc == 0 {
      Updated(h, 0, Item(n, 1));
    } else {
      Entries(h, Item(n, 1), loc);
      Entries(Removed(h, loc), Item(n, 1), 0);
    }
  }

  lemma ComesFirst(h: Heap, n: SNode, loc: int, reschedule: bool, rest: multiset<Item>)
    requires Single(h, n, loc) && (loc == -1 || reschedule)
    requires rest == if loc == -1 then multiset(h) else multiset(h) - multiset{h[loc]}
    requires forall e :: e in rest ==> e.ts > 1
    ensures Rescheduled(h, n, loc, reschedule)[0] == Item(n, 1)
  {
    hide Removed, Up;
    if loc != 0 {
      var r := if loc == -1 then h else Removed(h, loc);
      Entries(h, Item(n, 1), loc);
      assert multiset(r) == rest;
      forall i | 0 <= i < |r| ensures r[i].ts > 1 {
        assert r[i] in multiset(r);
      }
      UpToRoot(r + [Item(n, 1)], |r|);
    }
  }

  /** Rescheduling outgrows the array exactly if that is full and the socket is not scheduled. */
  lemma RescheduledFits(h: Heap, n: SNode, loc: int, reschedule: bool, slots: nat)
    requires -1 <= loc < |h| <= slots
    ensures |Rescheduled(h, n, loc, reschedule)| <= slots <==> !(loc == -1 && |h| == slots)
  {
  }

  /** The slots a new array has. */
  const SLOTS: nat := 4096

  /** Where socket `n` is in the heap; -1 if it is not scheduled. */
  function LocOf(h: Heap, n: SNode): (i: int)
    ensures -1 <= i < |h|
    ensures i >= 0 ==> h[i].node == n
    ensures i == -1 ==> forall k :: 0 <= k < |h| ==> h[k].node != n
  {
    if h == [] then -1
    else if h[|h| - 1].node == n then |h| - 1
    else LocOf(h[..|h| - 1], n)
  }

  /** The heap after the sockets `ns` were updated one after the other. */
  function Updates(ns: seq<SNode>, reschedule: bool): Heap {
    if ns == [] then []
    else
      var k := |ns| - 1;
      var h := Updates(ns[..k], reschedule);
      Rescheduled(h, ns[k], LocOf(h, ns[k]), reschedule)
  }

  lemma InsertedFrom(h: Heap, e: Item)
    ensures |Inserted(h, e)| == |h| + 1
    ensures forall x :: x in Inserted(h, e) ==> x in h || x == e
  {
    hide Up;
    Entries(h, e, 0);
    forall x | x in Inserted(h, e) ensures x in h || x == e {
      assert x in multiset(Inserted(h, e));
    }
  }

  /** Every update of one more socket takes one more slot. */
  lemma {:induction false} UpdatesGrow(ns: seq<SNode>, reschedule: bool)
    requires Different(ns)
    ensures |Updates(ns, reschedule)| == |ns|
    ensures forall e :: e in Updates(ns, reschedule) ==> e.node in ns
  {
    hide Inserted, Removed;
    if ns != [] {
      var k := |ns| - 1;
      var h := Updates(ns[..k], reschedule);
      UpdatesGrow(ns[..k], reschedule);
      Unscheduled(h, ns);
      InsertedFrom(h, Item(ns[k], 1));
    }
  }

  /** A socket different from all those updated has no entry. */
  lemma Unscheduled(h: Heap, ns: seq<SNode>)
    requires Different(ns) && ns != [] && forall e :: e in h ==> e.node in ns[..|ns| - 1]
    ensures LocOf(h, ns[|ns| - 1]) == -1
  {
    assert forall k :: 0 <= k < |h| ==> h[k] in h;
  }

  /** A run that outgrows the array: one more socket than it has slots is updated. */
  lemma UpdatesCanOverflow(ns: seq<SNode>, reschedule: bool)
    requires |ns| == SLOTS + 1 && Different(ns)
    ensures forall k :: 0 <= k <= SLOTS ==> |Updates(ns[..k], reschedule)| == k
    ensures |Updates(ns, reschedule)| == SLOTS + 1
  {
    UpdatesGrow(ns, reschedule);
    forall k | 0 <= k <= SLOTS ensures |Updates(ns[..k], reschedule)| == k {
      UpdatesGrow(ns[..k], reschedule);
    }
  }

  /** The same six entries are out of order once the fourth is rescheduled. */
  lemma RescheduleCanDisorder(ns: seq<SNode>)
    requires |ns| == 6 && Different(ns)
    ensures Ordered(Six(ns)) && !Ordered(Rescheduled(Six(ns), ns[3], 3, true))
  {
    hide Rescheduled;
    SixOrdered(ns);
    RescheduledOrders(Six(ns), ns[3], 3, true);
  }

  // ---------------------------------------------------------------- the heap in its array

  class SndUList {
    var heap: array<SNode?>
    var lastEntry: int

    /** The entries with their times, and all sockets there are. */
    ghost var h: Heap
    ghost var nodes: set<SNode>

    ghost predicate Shape()
      reads this, heap
    {
      0 < heap.Length && |h| == lastEntry + 1 <= heap.Length
    }

    /** The slots hold the entries, each of which knows its slot; a socket without entry knows that too. */
    ghost predicate Valid()
      reads this, heap, nodes
    {
      ValidBut(null)
    }

    /** The same but for what socket `x` knows, while it is taken out. */
    ghost predicate ValidBut(x: SNode?)
      reads this, heap, nodes
    {
      && Shape()
      && (forall i :: 0 <= i < |h| ==>
            heap[i] == h[i].node && h[i].node in nodes && h[i].node.heapLoc == i && h[i].node.timeStamp == h[i].ts)
      && (forall n :: n in nodes && n != x ==> n.heapLoc == -1 || (0 <= n.heapLoc < |h| && h[n.heapLoc].node == n))
    }

    constructor (ghost all: set<SNode>)
      requires forall n :: n in all ==> n.heapLoc == -1
      ensures Valid() && h == [] && nodes == all && heap.Length == SLOTS && fresh(heap)
    {
      heap := new SNode?[SLOTS](_ => null);
      lastEntry, h, nodes := -1, [], all;
    }

    /** Exchanges the entries `i` and `j`. */
    method Exchange(i: int, j: int, ghost x: SNode?)
      requires ValidBut(x) && 0 <= i < |h| && 0 <= j < |h| && i != j
      modifies this`h, heap, nodes
      ensures ValidBut(x) && h == Swap(old(h), i, j)
      ensures x != null && (forall k :: 0 <= k < |h| ==> old(h)[k].node != x) ==>
                x.heapLoc == old(x.heapLoc) && forall k :: 0 <= k < |h| ==> h[k].node != x
    {
      var t, u := heap[i], heap[j];
      heap[i], heap[j] := u, t;
      t.heapLoc := j;
      u.heapLoc := i;
      h := Swap(h, i, j);
    }

    /** Puts a socket without entry into the heap, to be served at time `ts`. */
    method Insert(ts: int, n: SNode)
      requires Valid() && n in nodes && (n.heapLoc < 0 ==> |h| < heap.Length)
      modifies this`h, this`lastEntry, heap, nodes
      ensures Valid() && heap == old(heap)
      ensures h == if old(n.heapLoc) >= 0 then old(h) else Inserted(old(h), Item(n, ts))
    {
      if n.heapLoc >= 0 {
        return;
      }
      Append(ts, n);
      ghost var start := h;
      var q := lastEntry;
      var p := q;
      while p != 0
        invariant Valid() && |h| == |start| && 0 <= q < |h| && (p == 0 <==> q == 0) && p >= 0
        invariant Up(h, q) == Up(start, |start| - 1)
        decreases q, p
      {
        p := (q - 1) / 2;
        assert p == Parent(q);
        if heap[p].timeStamp > heap[q].timeStamp {
          Exchange(p, q, null);
          q := p;
        } else {
          break;
        }
      }
    }

    method Append(ts: int, n: SNode)
      requires Valid() && n in nodes && |h| < heap.Length && n.heapLoc < 0
      modifies this`h, this`lastEntry, heap, n
      ensures Valid() && heap == old(heap) && h == old(h) + [Item(n, ts)]
    {
      assert forall i :: 0 <= i < |h| ==> h[i].node != n;
      lastEntry := lastEntry + 1;
      heap[lastEntry] := n;
      n.timeStamp := ts;
      n.heapLoc := lastEntry;
      h := h + [Item(n, ts)];
    }

    /** Takes a socket out of the heap. */
    method Remove(n: SNode)
      requires Valid() && n in nodes
      modifies this`h, this`lastEntry, heap, nodes
      ensures Valid() && n.heapLoc == -1
      ensures h == if old(n.heapLoc) >= 0 then Removed(old(h), old(n.heapLoc)) else old(h)
    {
      if n.heapLoc >= 0 {
        TakeOut(n);
        SiftDown(n.heapLoc, n);
        n.heapLoc := -1;
      }
    }

    /** Moves the entry at `loc` down to its place. */
    method SiftDown(loc: int, ghost n: SNode)
      requires ValidBut(n) && 0 <= loc && forall k :: 0 <= k < |h| ==> h[k].node != n
      modifies this`h, heap, nodes
      ensures ValidBut(n) && h == Down(old(h), loc) && n.heapLoc == old(n.heapLoc)
      ensures forall k :: 0 <= k < |h| ==> h[k].node != n
    {
      hide ValidBut, Down;
      Sized(n);
      ghost var start := h;
      var q := loc;
      var p := q * 2 + 1;
      while p <= lastEntry
        invariant ValidBut(n) && |h| == |start| == lastEntry + 1 && 0 <= q && p == 2 * q + 1
        invariant n.heapLoc == old(n.heapLoc) && forall k :: 0 <= k < |h| ==> h[k].node != n
        invariant Down(h, q) == Down(start, loc)
        decreases |h| - q
      {
        DownUnfolds(h, q);
        var moved;
        moved, p := StepDown(q, n);
        if !moved {
          return;
        }
        q := p;
        p := q * 2 + 1;
      }
      DownUnfolds(h, q);
    }

    lemma Sized(x: SNode?)
      requires ValidBut(x)
      ensures |h| == lastEntry + 1
    {
    }

    static lemma DownUnfolds(h: Heap, q: int)
      requires 0 <= q
      ensures 2 * q + 1 >= |h| ==> Down(h, q) == h
      ensures 2 * q + 1 < |h| ==>
                Down(h, q) == if h[q].ts > h[Child(h, q)].ts then Down(Swap(h, Child(h, q), q), Child(h, q)) else h
    {
    }

    /** The entry at `q` changes places with its earlier child, if that is earlier than itself. */
    method StepDown(q: int, ghost x: SNode) returns (moved: bool, p: int)
      requires ValidBut(x) && 0 <= q && 2 * q + 1 <= lastEntry && forall k :: 0 <= k < |h| ==> h[k].node != x
      modifies this`h, heap, nodes
      ensures ValidBut(x) && |h| == |old(h)| && (forall k :: 0 <= k < |h| ==> h[k].node != x)
      ensures x.heapLoc == old(x.heapLoc)
      ensures p == Child(old(h), q) && (moved <==> old(h)[q].ts > old(h)[p].ts)
      ensures h == if moved then Swap(old(h), p, q) else old(h)
    {
      p := q * 2 + 1;
      if p + 1 <= lastEntry && heap[p].timeStamp > heap[p + 1].timeStamp {
        p := p + 1;
      }
      moved := heap[q].timeStamp > heap[p].timeStamp;
      if moved {
        Exchange(p, q, x);
      }
    }

    /** The last entry takes the place of the entry `n`. */
    method TakeOut(n: SNode)
      requires Valid() && n in nodes && n.heapLoc >= 0
      modifies this`h, this`lastEntry, heap, nodes
      ensures ValidBut(n) && n.heapLoc == old(n.heapLoc)
      ensures h == old(h)[old(n.heapLoc) := old(h)[|old(h)| - 1]][..|old(h)| - 1]
      ensures forall k :: 0 <= k < |h| ==> h[k].node != n
    {
      var loc, last := n.heapLoc, heap[lastEntry];
      heap[loc] := last;
      lastEntry := lastEntry - 1;
      last.heapLoc := loc;
      h := h[loc := h[|h| - 1]][..|h| - 1];
    }

    /** Doubles the array when it is full, then inserts. */
    method InsertGrowing(ts: int, n: SNode)
      requires Valid() && n in nodes
      modifies this, heap, nodes
      ensures Valid() && nodes == old(nodes) && (heap == old(heap) || fresh(heap))
      ensures h == if old(n.heapLoc) >= 0 then old(h) else Inserted(old(h), Item(n, ts))
    {
      if lastEntry == heap.Length - 1 {
        var temp := new SNode?[heap.Length * 2](_ => null);
        var i := 0;
        while i < heap.Length
          invariant 0 <= i <= heap.Length && temp.Length == heap.Length * 2
          invariant forall k :: 0 <= k < i ==> temp[k] == heap[k]
          modifies temp
        {
          temp[i] := heap[i];
          i := i + 1;
        }
        heap := temp;
      }
      Insert(ts, n);
    }

    lemma OneEach(n: SNode)
      requires Valid() && n in nodes
      ensures Single(h, n, n.heapLoc)
    {
    }

    /** A socket just updated is the next one served, at any positive time, if nobody else is due that early. */
    method UpdateAndPop(n: SNode, reschedule: bool, now: int, ready: bool, next: int) returns (m: SNode?)
      requires Valid() && n in nodes && (n.heapLoc < 0 ==> |h| < heap.Length) && now >= 1
      requires (n.heapLoc < 0 || reschedule) && forall e :: e in h && e.node != n ==> e.ts > 1
      modifies this`h, this`lastEntry, heap, nodes
      ensures Valid() && m == n
    {
      Update(n, reschedule);
      m := Pop(now, ready, next);
    }

    /**
      Schedules a socket at once, or only if it is not scheduled yet.  A full
      array has no slot for one more socket (`RescheduledFits`).
     */
    method Update(n: SNode, reschedule: bool)
      requires Valid() && n in nodes && (n.heapLoc < 0 ==> |h| < heap.Length)
      modifies this`h, this`lastEntry, heap, nodes
      ensures Valid() && h == Rescheduled(old(h), n, old(n.heapLoc), reschedule)
      ensures Single(old(h), n, old(n.heapLoc))
      ensures (old(n.heapLoc) < 0 || reschedule) && (forall e :: e in old(h) && e.node != n ==> e.ts > 1) ==>
                h != [] && h[0] == Item(n, 1)
    {
      OneEach(n);
      if n.heapLoc < 0 || reschedule { RescheduledAtOnce(h, n, n.heapLoc, reschedule); }
      if n.heapLoc >= 0 {
        if !reschedule {
          return;
        }
        if n.heapLoc == 0 {
          n.timeStamp := 1;
          h := h[0 := Item(n, 1)];
          return;
        }
        Remove(n);
      }
      Insert(1, n);
    }

    /** Takes the earliest socket if it is due; puts it back at time `next` when it had a packet to send. */
    method Pop(now: int, ready: bool, next: int) returns (n: SNode?)
      requires Valid()
      modifies this`h, this`lastEntry, heap, nodes
      ensures Valid()
      ensures n == null <==> old(h) == [] || now < old(h)[0].ts
      ensures n == null ==> h == old(h)
      ensures n != null ==> n == old(h)[0].node && h == Served(old(h), if ready then next else 0)
    {
      if lastEntry == -1 {
        return null;
      }
      if now < heap[0].timeStamp {
        return null;
      }
      n := heap[0];
      Remove(n);
      if ready && next > 0 {
        Insert(next, n);
      }
    }

    /** The earliest time in the heap, 0 when it is empty. */
    method GetNextProcTime() returns (ts: int)
      requires Valid()
      ensures ts == if h == [] then 0 else h[0].ts
    {
      if lastEntry == -1 {
        return 0;
      }
      ts := heap[0].timeStamp;
    }
  }
}
