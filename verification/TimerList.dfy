/**
  The receiver's timer list: sockets in the order of their last event, as a
  doubly linked list, and the loop that serves those not heard of for long.
 */
module TimerList {

  class RNode {
    var timeStamp: int
    var prev: RNode?
    var next: RNode?
    var onList: bool

    constructor ()
      ensures !onList && prev == null && next == null
    {
      timeStamp, prev, next, onList := 0, null, null, false;
    }
  }

  function At(l: seq<RNode>, i: int): RNode? {
    if 0 <= i < |l| then l[i] else null
  }

  function Nexts(l: seq<RNode>): (s: seq<RNode?>)
    ensures |s| == |l|
  {
    seq(|l|, k => At(l, k + 1))
  }

  function Prevs(l: seq<RNode>): (s: seq<RNode?>)
    ensures |s| == |l|
  {
    seq(|l|, k => At(l, k - 1))
  }

  predicate Distinct(l: seq<RNode>) {
    forall i, j :: 0 <= i < j < |l| ==> l[i] != l[j]
  }

  predicate Ascending(ts: seq<int>) {
    forall i, j :: 0 <= i < j < |ts| ==> ts[i] <= ts[j]
  }

  predicate Past(ts: seq<int>, now: int) {
    forall i :: 0 <= i < |ts| ==> ts[i] <= now
  }

  /** The fields of the nodes `l`. */
  ghost predicate Holds(l: seq<RNode>, nx: seq<RNode?>, pv: seq<RNode?>, ts: seq<int>)
    reads l
  {
    && |l| == |nx| == |pv| == |ts|
    && forall k :: 0 <= k < |l| ==> l[k].next == nx[k] && l[k].prev == pv[k] && l[k].timeStamp == ts[k] && l[k].onList
  }

  function Drop<T>(l: seq<T>, i: int): seq<T>
    requires 0 <= i < |l|
  {
    l[..i] + l[i + 1..]
  }

  /** How many leading times lie before `ctime`. */
  function Stale(ts: seq<int>, ctime: int): (m: nat)
    ensures m <= |ts|
  {
    if ts == [] || ts[0] >= ctime then 0 else 1 + Stale(ts[1..], ctime)
  }

  /** In an ascending list these are exactly the times before `ctime`. */
  lemma {:induction false} StaleIs(ts: seq<int>, ctime: int, k: nat)
    requires Ascending(ts) && k < |ts|
    ensures k < Stale(ts, ctime) <==> ts[k] < ctime
    decreases k
  {
    if k > 0 {
      var t := ts[1..];
      assert forall i :: 0 <= i < |t| ==> t[i] == ts[i + 1];
      StaleIs(t, ctime, k - 1);
    }
  }

  const TWO_TO_THE_64: int := 0x1_0000_0000_0000_0000

  /** The unsigned difference of a clock reading and an interval. */
  function Before(now: int, interval: int): (t: int)
    ensures 0 <= t < TWO_TO_THE_64
    ensures 0 <= interval <= now < TWO_TO_THE_64 ==> t == now - interval
  {
    (now - interval) % TWO_TO_THE_64
  }

  /**
    A socket served at time `now` counts as not heard of since `Before(start,
    interval)`, and would be served again and again, exactly if the clock began
    its count less than the interval before `start`.
   */
  lemma ServedAgainIff(start: int, now: int, interval: int)
    requires 0 <= start <= now < start + TWO_TO_THE_64 - interval && 0 <= interval && start < TWO_TO_THE_64
    ensures now < Before(start, interval) <==> start < interval
  {
    if start < interval { assert Before(start, interval) == start - interval + TWO_TO_THE_64; }
  }

  /** The nodes of `l` whose sockets are alive. */
  function Kept(l: seq<RNode>, alive: set<RNode>): seq<RNode> {
    if l == [] then [] else Kept(l[..|l| - 1], alive) + (if l[|l| - 1] in alive then [l[|l| - 1]] else [])
  }

  /** The living ones are kept one after the other, in their order. */
  lemma {:induction false} KeptInOrder(a: seq<RNode>, b: seq<RNode>, alive: set<RNode>)
    ensures Kept(a + b, alive) == Kept(a, alive) + Kept(b, alive)
    ensures |a| == 1 ==> Kept(a, alive) == if a[0] in alive then a else []
    decreases |b|, |a|
  {
    if |a| == 1 { assert a == [a[0]] && a[..0] == []; }
    if b == [] {
      assert a + b == a;
    } else {
      KeptInOrder(a, b[..|b| - 1], alive);
      assert (a + b)[..|a + b| - 1] == a + b[..|b| - 1];
    }
  }

  // ---------------------------------------------------------------- writing one field

  method SetNext(p: RNode, q: RNode?, ghost k: int, ghost l: seq<RNode>, ghost nx: seq<RNode?>,
                 ghost pv: seq<RNode?>, ghost ts: seq<int>)
    requires Distinct(l) && Holds(l, nx, pv, ts) && 0 <= k < |l| && p == l[k]
    modifies p`next
    ensures Holds(l, nx[k := q], pv, ts)
  {
    p.next := q;
  }

  method SetPrev(p: RNode, q: RNode?, ghost k: int, ghost l: seq<RNode>, ghost nx: seq<RNode?>,
                 ghost pv: seq<RNode?>, ghost ts: seq<int>)
    requires Distinct(l) && Holds(l, nx, pv, ts) && 0 <= k < |l| && p == l[k]
    modifies p`prev
    ensures Holds(l, nx, pv[k := q], ts)
  {
    p.prev := q;
  }

  /** Everybody but node `i` is linked as if it were not there. */
  lemma Without(l: seq<RNode>, i: int, nx: seq<RNode?>, pv: seq<RNode?>, ts: seq<int>)
    requires Distinct(l) && 0 <= i < |l| && Holds(l, nx, pv, ts)
    requires nx == if i > 0 then Nexts(l)[i - 1 := At(l, i + 1)] else Nexts(l)
    requires pv == if i + 1 < |l| then Prevs(l)[i + 1 := At(l, i - 1)] else Prevs(l)
    ensures var r := Drop(l, i); Distinct(r) && l[i] !in r && Holds(r, Nexts(r), Prevs(r), Drop(ts, i))
  {
    hide Distinct, Holds, Nexts, Prevs;
    DropDistinct(l, i);
    NextsWithout(l, i, nx);
    PrevsWithout(l, i, pv);
    HoldsDropped(l, i, nx, pv, ts);
  }

  /** The former place of entry `k`, once entry `i` is gone. */
  function Place(i: int, k: int): int {
    if k < i then k else k + 1
  }

  lemma NextsWithout(l: seq<RNode>, i: int, nx: seq<RNode?>)
    requires 0 <= i < |l| && nx == if i > 0 then Nexts(l)[i - 1 := At(l, i + 1)] else Nexts(l)
    ensures |nx| == |l| && forall k :: 0 <= k < |l| - 1 ==> nx[Place(i, k)] == Nexts(Drop(l, i))[k]
  {
  }

  lemma PrevsWithout(l: seq<RNode>, i: int, pv: seq<RNode?>)
    requires 0 <= i < |l| && pv == if i + 1 < |l| then Prevs(l)[i + 1 := At(l, i - 1)] else Prevs(l)
    ensures |pv| == |l| && forall k :: 0 <= k < |l| - 1 ==> pv[Place(i, k)] == Prevs(Drop(l, i))[k]
  {
  }

  lemma DropDistinct(l: seq<RNode>, i: int)
    requires Distinct(l) && 0 <= i < |l|
    ensures Distinct(Drop(l, i)) && l[i] !in Drop(l, i)
  {
  }

  lemma HoldsDropped(l: seq<RNode>, i: int, nx: seq<RNode?>, pv: seq<RNode?>, ts: seq<int>)
    requires 0 <= i < |l| && Holds(l, nx, pv, ts)
    requires var r := Drop(l, i);
             forall k :: 0 <= k < |r| ==> nx[Place(i, k)] == Nexts(r)[k] && pv[Place(i, k)] == Prevs(r)[k]
    ensures var r := Drop(l, i); Holds(r, Nexts(r), Prevs(r), Drop(ts, i))
  {
    hide Nexts, Prevs;
    var r := Drop(l, i);
    forall k | 0 <= k < |r| ensures r[k] == l[Place(i, k)] && Drop(ts, i)[k] == ts[Place(i, k)] { }
  }

  class RcvUList {
    var first: RNode?
    var last: RNode?
    ghost var list: seq<RNode>
    ghost var times: seq<int>

    ghost predicate Valid()
      reads this, list
    {
      && Distinct(list) && Holds(list, Nexts(list), Prevs(list), times)
      && first == At(list, 0) && last == At(list, |list| - 1)
    }

    constructor ()
      ensures Valid() && list == []
    {
      first, last, list, times := null, null, [], [];
    }

    /** Links `n`, which is on no list, behind the last node. */
    method Append(n: RNode)
      requires Valid() && n !in list && n.onList
      modifies this, n`prev, n`next, list
      ensures Valid() && list == old(list) + [n] && times == old(times) + [n.timeStamp]
    {
      hide Holds;
      Sizes();
      if first == null {
        Single(n);
        return;
      }
      // always insert at the end
      n.prev := last;
      n.next := null;
      ghost var l, t := list, times;
      SetNext(last, n, |l| - 1, l, Nexts(l), Prevs(l), t);
      last := n;
      list, times := list + [n], times + [n.timeStamp];
      Longer(l, n, t);
    }

    lemma Sizes()
      requires Valid()
      ensures |times| == |list|
    {
    }

    method Single(n: RNode)
      requires list == [] && n.onList
      modifies this, n`prev, n`next
      ensures Valid() && list == [n] && times == [n.timeStamp]
    {
      n.prev := null;
      n.next := null;
      last := n;
      first := n;
      list, times := [n], [n.timeStamp];
    }

    static lemma Longer(l: seq<RNode>, n: RNode, ts: seq<int>)
      requires l != [] && Distinct(l) && n !in l && n.onList && n.prev == l[|l| - 1] && n.next == null
      requires Holds(l, Nexts(l)[|l| - 1 := n], Prevs(l), ts)
      ensures Distinct(l + [n]) && Holds(l + [n], Nexts(l + [n]), Prevs(l + [n]), ts + [n.timeStamp])
    {
    }

    /** Takes node `i` out of the links. */
    method Unlink(n: RNode, ghost i: int)
      requires Valid() && 0 <= i < |list| && list[i] == n
      modifies this, list
      ensures Valid() && list == Drop(old(list), i) && times == Drop(old(times), i)
      ensures n.prev == n.next == null && n !in list && n.onList && n.timeStamp == old(n.timeStamp)
    {
      hide Holds, Distinct;
      ghost var l, t := list, times;
      Ends(n, i);
      if n.prev == null {
        // n is the first node
        first := n.next;
        if first == null {
          last := null;
        } else {
          SetPrev(first, null, 1, l, Nexts(l), Prevs(l), t);
        }
      } else {
        SetNext(n.prev, n.next, i - 1, l, Nexts(l), Prevs(l), t);
        if n.next == null {
          // n is the last node
          last := n.prev;
        } else {
          SetPrev(n.next, n.prev, i + 1, l, Nexts(l)[i - 1 := At(l, i + 1)], Prevs(l), t);
        }
      }
      Without(l, i, if i > 0 then Nexts(l)[i - 1 := At(l, i + 1)] else Nexts(l),
              if i + 1 < |l| then Prevs(l)[i + 1 := At(l, i - 1)] else Prevs(l), t);
      Clear(n, Drop(l, i), Drop(t, i));
      list, times := Drop(l, i), Drop(t, i);
    }

    lemma Ends(n: RNode, i: int)
      requires Valid() && 0 <= i < |list| && list[i] == n
      ensures |times| == |list| && n.next == At(list, i + 1) && n.prev == At(list, i - 1) && n.onList
      ensures n.prev == null <==> i == 0
      ensures n.next == null <==> i == |list| - 1
      ensures At(list, i - 1) != n && At(list, i + 1) != n
    {
    }

    static method Clear(n: RNode, ghost r: seq<RNode>, ghost ts: seq<int>)
      requires n !in r && Holds(r, Nexts(r), Prevs(r), ts)
      modifies n`next, n`prev
      ensures Holds(r, Nexts(r), Prevs(r), ts) && n.next == null && n.prev == null
    {
      n.next := null;
      n.prev := null;
    }

    // -------------------------------------------------------------- the operations

    /** Puts a flagged node, whose latest event is `now`, on the list. */
    method Insert(n: RNode, now: int)
      requires Valid() && n !in list && n.onList && Past(times, now) && Ascending(times)
      modifies this, n, list
      ensures Valid() && list == old(list) + [n] && times == old(times) + [now]
      ensures Ascending(times) && Past(times, now)
    {
      Stamp(n, now);
      Append(n);
    }

    method Stamp(n: RNode, now: int)
      requires Valid() && n !in list
      modifies n`timeStamp
      ensures Valid() && n.timeStamp == now
    {
      n.timeStamp := now;
    }

    /** Takes a node off the list, if it is flagged as being on it. */
    method Remove(n: RNode, ghost i: int)
      requires Valid() && (n.onList ==> 0 <= i < |list| && list[i] == n)
      modifies this, list
      ensures Valid()
      ensures old(n.onList) ==> list == Drop(old(list), i) && times == Drop(old(times), i) && n !in list && n.onList
      ensures !old(n.onList) ==> list == old(list) && times == old(times)
    {
      if !n.onList {
        return;
      }
      Unlink(n, i);
    }

    /** Moves a node that had an event at time `now` to the end, if it is flagged as being on the list. */
    method Update(n: RNode, now: int, ghost i: int)
      requires Valid() && (n.onList ==> 0 <= i < |list| && list[i] == n)
      requires Ascending(times) && Past(times, now)
      modifies this, list
      ensures Valid() && Ascending(times) && Past(times, now)
      ensures old(n.onList) ==> list == Drop(old(list), i) + [n] && times == Drop(old(times), i) + [now]
      ensures !old(n.onList) ==> list == old(list) && times == old(times)
    {
      hide Holds, Distinct;
      if !n.onList {
        return;
      }
      Ends(n, i);
      MovedAscends(times, i, now);
      Touch(n, now, i);
      if n.next == null {
        // the last node need not move
        LastStays(list, i);
        LastStays(times, i);
        return;
      }
      Unlink(n, i);
      Append(n);
    }

    method Touch(n: RNode, now: int, ghost i: int)
      requires Valid() && 0 <= i < |list| && list[i] == n
      modifies this`times, n`timeStamp
      ensures Valid() && n.timeStamp == now && times == old(times)[i := now]
      ensures n.next == old(n.next)
    {
      n.timeStamp := now;
      times := times[i := now];
    }

    static lemma MovedAscends(ts: seq<int>, i: int, now: int)
      requires 0 <= i < |ts| && Ascending(ts) && Past(ts, now)
      ensures Ascending(Drop(ts, i) + [now]) && Past(Drop(ts, i) + [now], now)
      ensures Drop(ts[i := now], i) == Drop(ts, i)
    {
    }

    static lemma LastStays<T>(s: seq<T>, i: int)
      requires 0 <= i == |s| - 1
      ensures s == Drop(s, i) + [s[i]]
    {
    }

    // -------------------------------------------------------------- the timer check

    /** The loop has handled the first `j` nodes: the living ones moved to the end. */
    ghost predicate Handled(l: seq<RNode>, t: seq<int>, j: nat, served: seq<RNode>, alive: set<RNode>, ctime: int)
      reads this`list, this`times
    {
      && j <= |l| == |t| && |times| == |list|
      && served == Kept(l[..j], alive) && list == l[j..] + served
      && (forall k :: 0 <= k < |t| - j ==> times[k] == t[j + k])
      && (forall k :: |t| - j <= k < |times| ==> times[k] >= ctime)
    }

    lemma Begin(alive: set<RNode>, ctime: int)
      requires Valid()
      ensures Handled(list, times, 0, [], alive, ctime)
    {
    }

    lemma First()
      requires Valid()
      ensures first == null <==> list == []
      ensures list != [] ==> |times| == |list| && first == list[0] && first.timeStamp == times[0] && first.onList
    {
    }

    /** A stale first node is one of the old ones, and stale among them. */
    lemma Next(l: seq<RNode>, t: seq<int>, j: nat, served: seq<RNode>, alive: set<RNode>, ctime: int)
      requires Handled(l, t, j, served, alive, ctime) && Ascending(t)
      requires list != [] && times[0] < ctime
      ensures j < |l| && list[0] == l[j] && t[j] < ctime && j < Stale(t, ctime)
      ensures Drop(list, 0) == l[j + 1..] + served
      ensures Kept(l[..j + 1], alive) == served + (if l[j] in alive then [l[j]] else [])
    {
      StaleIs(t, ctime, j);
      assert l[..j + 1][..j] == l[..j];
    }

    /** The state after a node was served or dropped. */
    lemma After(l: seq<RNode>, t: seq<int>, j: nat, served: seq<RNode>, alive: set<RNode>, ctime: int, before: seq<int>)
      requires j < |l| == |t| && |times| == |list|
      requires served == Kept(l[..j + 1], alive) && list == l[j + 1..] + served
      requires |before| >= |t| - j && (forall k :: 0 <= k < |t| - j ==> before[k] == t[j + k])
      requires forall k :: |t| - j <= k < |before| ==> before[k] >= ctime
      requires times == before[1..] || (|times| == |before| && times[..|before| - 1] == before[1..]
               && times[|before| - 1] >= ctime)
      ensures Handled(l, t, j + 1, served, alive, ctime)
    {
      assert forall k :: 0 <= k < |before| - 1 ==> times[k] == before[k + 1];
    }

    lemma Ended(l: seq<RNode>, t: seq<int>, j: nat, served: seq<RNode>, alive: set<RNode>, ctime: int)
      requires Handled(l, t, j, served, alive, ctime) && Ascending(t) && Ascending(times)
      requires list == [] || times[0] >= ctime
      requires j <= Stale(t, ctime)
      ensures j == Stale(t, ctime) && forall k :: 0 <= k < |times| ==> times[k] >= ctime
    {
      if j < |t| { StaleIs(t, ctime, j); }
    }

    static lemma Later(ts: seq<int>, now: int, after: int)
      requires Past(ts, now) && now <= after
      ensures Past(ts, after)
    {
    }

    static lemma RestAscends(ts: seq<int>, now: int)
      requires ts != [] && Ascending(ts) && Past(ts, now)
      ensures Ascending(Drop(ts, 0)) && Past(Drop(ts, 0), now) && Drop(ts, 0) == ts[1..]
    {
    }

    /** Serves or drops the first node, which is stale. */
    method HandleFirst(u: RNode, now: int, ghost now0: int, alive: set<RNode>, ctime: int,
                       ghost l: seq<RNode>, ghost t: seq<int>, ghost j: nat, served0: seq<RNode>)
      returns (served: seq<RNode>)
      requires Valid() && Ascending(times) && Past(times, now0) && now0 <= now && ctime <= now0
      requires Handled(l, t, j, served0, alive, ctime) && Ascending(t)
      requires list != [] && u == list[0] && u.onList && |times| == |list| && times[0] < ctime
      modifies this, list
      ensures Valid() && Ascending(times) && Past(times, now)
      ensures j < Stale(t, ctime) && j < |l| && Handled(l, t, j + 1, served, alive, ctime)
      ensures forall k :: 0 <= k < |list| ==> list[k] in old(list)
    {
      hide Holds, Distinct, Ascending, Past, Kept;
      ghost var before := times;
      Next(l, t, j, served0, alive, ctime);
      Later(times, now0, now);
      RestAscends(times, now);
      HandledIs(l, t, j, served0, alive, ctime);
      if u in alive {
        Update(u, now, 0);
        served := served0 + [u];
      } else {
        Remove(u, 0);
        Unflag(u);
        served := served0;
      }
      After(l, t, j, served, alive, ctime, before);
    }

    lemma HandledIs(l: seq<RNode>, t: seq<int>, j: nat, served: seq<RNode>, alive: set<RNode>, ctime: int)
      requires Handled(l, t, j, served, alive, ctime)
      ensures |l| == |t| && |times| >= |t| - j && (forall k :: 0 <= k < |t| - j ==> times[k] == t[j + k])
      ensures forall k :: |t| - j <= k < |times| ==> times[k] >= ctime
    {
    }

    /**
      Serves the sockets not heard of for `interval`: checks the timers of the
      living ones, drops the others.  `clock` gives the successive readings.
     */
    method CheckTimers(interval: int, alive: set<RNode>, clock: nat -> int) returns (served: seq<RNode>, ghost m: nat)
      requires Valid() && Ascending(times) && Past(times, clock(0))
      requires 0 <= interval <= clock(0) < TWO_TO_THE_64 && forall i: nat :: clock(i) <= clock(i + 1)
      modifies this, list
      ensures Valid() && Ascending(times)
      ensures m == Stale(old(times), clock(0) - interval)
      ensures m <= |old(list)| && served == Kept(old(list)[..m], alive) && list == old(list)[m..] + served
      ensures forall k :: 0 <= k < |times| ==> times[k] >= clock(0) - interval
    {
      hide Holds, Distinct, Ascending, Past, Kept, Handled;
      var ctime := Before(clock(0), interval);
      ghost var l, t := list, times;
      var reading := 0;
      served, m := [], 0;
      Begin(alive, ctime);
      First();
      while first != null && first.timeStamp < ctime
        invariant Valid() && Ascending(times) && Past(times, clock(reading)) && ctime <= clock(reading)
        invariant Handled(l, t, m, served, alive, ctime) && m <= Stale(t, ctime) && |t| == |l|
        invariant first == null <==> list == []
        invariant first != null ==> |times| == |list| && first == list[0] && first.timeStamp == times[0] && first.onList
        invariant forall k :: 0 <= k < |list| ==> list[k] in l
        decreases |l| - m
      {
        reading := reading + 1;
        assert clock(reading - 1) <= clock(reading);
        served := HandleFirst(first, clock(reading), clock(reading - 1), alive, ctime, l, t, m, served);
        m := m + 1;
        First();
      }
      Ended(l, t, m, served, alive, ctime);
      Result(l, t, m, served, alive, ctime);
    }

    lemma Result(l: seq<RNode>, t: seq<int>, j: nat, served: seq<RNode>, alive: set<RNode>, ctime: int)
      requires Handled(l, t, j, served, alive, ctime)
      ensures j <= |l| && served == Kept(l[..j], alive) && list == l[j..] + served
    {
    }

    method Unflag(u: RNode)
      requires Valid() && u !in list
      modifies u`onList
      ensures Valid() && !u.onList
    {
      u.onList := false;
    }
  }
}
