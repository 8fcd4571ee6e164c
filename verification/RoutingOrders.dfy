/**
  When the search over the whole table gives exactly the nearest contacts, and
  a run after which it does not.
 */
module RoutingOrders {
  import opened NodeId
  import opened Nearest
  import opened RoutingTrie
  import opened RoutingSafety
  import opened RoutingClosest
  import opened RoutingExact

  /** The last bucket the search visits, and how many contacts are still wanted there. */
  function LastVisited(t: Trie, local: Key, d: nat, id: Key, stale: set<Contact>, qty: nat): (seq<Contact>, nat)
    requires Depths(t, d)
  {
    match t
    case Space(m0, m1) =>
      var (near, far) := if Bit(Dist(local, id), d) then (m1, m0) else (m0, m1);
      var n := |FindClosest(near, local, d + 1, id, stale, qty)|;
      if n < qty then LastVisited(far, local, d + 1, id, stale, qty - n)
      else LastVisited(near, local, d + 1, id, stale, qty)
    case Bucket(contacts, _) => (contacts, qty)
  }

  /** At most one contact is still wanted in the last bucket, or it has room for all its live ones. */
  predicate Settled(t: Trie, local: Key, d: nat, id: Key, stale: set<Contact>, qty: nat)
    requires Depths(t, d)
  {
    var (s, n) := LastVisited(t, local, d, id, stale, qty);
    n <= 1 || |Live(s, stale)| <= n
  }

  /** The same table, with the contacts of its buckets in other orders. */
  ghost predicate Shuffled(t: Trie, u: Trie) {
    match t
    case Space(m0, m1) => u.Space? && Shuffled(m0, u.m0) && Shuffled(m1, u.m1)
    case Bucket(contacts, cache) => u.Bucket? && Reorders(u.contacts, contacts) && u.cache == cache
  }

  lemma {:induction false} ShuffledSelf(t: Trie)
    ensures Shuffled(t, t)
  {
    if t.Space? {
      ShuffledSelf(t.m0);
      ShuffledSelf(t.m1);
    }
  }

  lemma {:induction false} ShuffledAll(t: Trie, u: Trie)
    requires Shuffled(t, u)
    ensures Reorders(All(u), All(t))
  {
    if t.Space? {
      ShuffledAll(t.m0, u.m0);
      ShuffledAll(t.m1, u.m1);
    }
  }

  lemma ReordersIn(u: seq<Contact>, s: seq<Contact>)
    requires Reorders(u, s)
    ensures |u| == |s| && forall k :: 0 <= k < |u| ==> u[k] in s
  {
    assert |multiset(u)| == |multiset(s)|;
    forall k | 0 <= k < |u| ensures u[k] in s {
      assert u[k] in multiset(u);
    }
  }

  /** The order within buckets does not matter to the invariant. */
  lemma {:induction false} ShuffledInv(p: Params, t: Trie, u: Trie, local: Key, d: nat, x: nat)
    requires p.Valid() && d < ID_BITS && Inv(p, t, local, d, x) && Shuffled(t, u)
    ensures Inv(p, u, local, d, x) && Depths(u, d)
    decreases t
  {
    hide Dist, PathIndex;
    match t
    case Space(m0, m1) =>
      ShuffledInv(p, m0, u.m0, local, d + 1, 2 * x);
      ShuffledInv(p, m1, u.m1, local, d + 1, 2 * x + 1);
    case Bucket(contacts, cache) =>
      ReordersIn(u.contacts, contacts);
      ReordersDistinct(u.contacts, contacts);
      forall k | 0 <= k < |u.contacts| ensures PathIndex(Dist(local, u.contacts[k].id), d) == x {
        var j :| 0 <= j < |contacts| && contacts[j] == u.contacts[k];
      }
  }

  /** Nor to the number of contacts found. */
  lemma ShuffledFinds(p: Params, t: Trie, u: Trie, local: Key, d: nat, x: nat, id: Key, stale: set<Contact>, qty: nat)
    requires p.Valid() && d < ID_BITS && Depths(t, d) && Inv(p, t, local, d, x) && Shuffled(t, u)
    ensures Depths(u, d) && Inv(p, u, local, d, x)
    ensures |FindClosest(u, local, d, id, stale, qty)| == |FindClosest(t, local, d, id, stale, qty)|
  {
    hide Inv, Shuffled, FindClosest, Ranked, Live;
    ShuffledInv(p, t, u, local, d, x);
    ShuffledAll(t, u);
    LiveReorders(All(u), All(t), stale);
    Closest(p, t, local, d, x, id, stale, qty);
    Closest(p, u, local, d, x, id, stale, qty);
  }

  /** The search ends in the same bucket, with as many contacts wanted. */
  lemma {:induction false} ShuffledSettled(
      p: Params, t: Trie, u: Trie, local: Key, d: nat, x: nat, id: Key, stale: set<Contact>, qty: nat)
    requires p.Valid() && d < ID_BITS && Depths(t, d) && Inv(p, t, local, d, x) && Shuffled(t, u)
    ensures Depths(u, d) && (Settled(u, local, d, id, stale, qty) <==> Settled(t, local, d, id, stale, qty))
    decreases t
  {
    hide Dist, Bit, Live, FindClosest, PathIndex, MaySplit;
    ShuffledInv(p, t, u, local, d, x);
    match t
    case Bucket(contacts, _) => LiveReorders(u.contacts, contacts, stale);
    case Space(m0, m1) =>
      var one := Bit(Dist(local, id), d);
      var near, far := if one then m1 else m0, if one then m0 else m1;
      var vn, vf := if one then u.m1 else u.m0, if one then u.m0 else u.m1;
      var y, z := if one then 2 * x + 1 else 2 * x, if one then 2 * x else 2 * x + 1;
      ShuffledFinds(p, near, vn, local, d + 1, y, id, stale, qty);
      var n := |FindClosest(near, local, d + 1, id, stale, qty)|;
      if n < qty {
        ShuffledSettled(p, far, vf, local, d + 1, z, id, stale, qty - n);
      } else {
        ShuffledSettled(p, near, vn, local, d + 1, y, id, stale, qty);
      }
  }

  // ---------------------------------------------------------------- settled tables

  /** The near side used up, exactness is decided on the far side. */
  lemma ExactFar(m0: Trie, m1: Trie, near: Trie, far: Trie, id: Key, stale: set<Contact>, r: seq<Contact>,
                 q: seq<Contact>)
    requires (near == m0 && far == m1) || (near == m1 && far == m0)
    requires Before(id, All(near), All(far)) && From(r, All(near)) && From(q, All(far))
    requires forall j :: 0 <= j < |All(near)| && All(near)[j] !in stale ==> All(near)[j] in r
    ensures Exact(id, All(Space(m0, m1)), stale, r + q) <==> Exact(id, All(far), stale, q)
  {
    hide Closer;
    var a, b, s := All(near), All(far), All(Space(m0, m1));
    BeforeApart(id, a, b);
    assert forall k :: 0 <= k < |r| ==> r[k] in a;
    assert forall c :: c in a && c !in stale ==> c in r;
    if Exact(id, b, stale, q) {
      forall k, j | 0 <= k < |r + q| && 0 <= j < |s| && s[j] !in stale && s[j] !in r + q
        ensures Closer(id, (r + q)[k].id, s[j].id)
      {
        assert s[j] in b;
        var i :| 0 <= i < |b| && b[i] == s[j];
        if k < |r| { var h :| 0 <= h < |a| && a[h] == r[k]; } else { assert Closer(id, q[k - |r|].id, b[i].id); }
      }
    } else {
      var k, j :| 0 <= k < |q| && 0 <= j < |b| && b[j] !in stale && b[j] !in q && !Closer(id, q[k].id, b[j].id);
      assert b[j] in s && b[j] !in r;
      var i :| 0 <= i < |s| && s[i] == b[j];
      assert (r + q)[|r| + k] == q[k];
    }
  }

  /** The near side giving enough, exactness is decided there. */
  lemma ExactNear(m0: Trie, m1: Trie, near: Trie, far: Trie, id: Key, stale: set<Contact>, r: seq<Contact>)
    requires (near == m0 && far == m1) || (near == m1 && far == m0)
    requires Before(id, All(near), All(far)) && From(r, All(near))
    ensures Exact(id, All(Space(m0, m1)), stale, r) <==> Exact(id, All(near), stale, r)
  {
    hide Closer;
    var a, b, s := All(near), All(far), All(Space(m0, m1));
    if Exact(id, a, stale, r) {
      forall k, j | 0 <= k < |r| && 0 <= j < |s| && s[j] !in stale && s[j] !in r ensures Closer(id, r[k].id, s[j].id) {
        assert s[j] in a || s[j] in b;
        if s[j] in a {
          var i :| 0 <= i < |a| && a[i] == s[j];
          assert Closer(id, r[k].id, a[i].id);
        } else {
          var i :| 0 <= i < |b| && b[i] == s[j];
          var h :| 0 <= h < |a| && a[h] == r[k];
        }
      }
    } else {
      var k, j :| 0 <= k < |r| && 0 <= j < |a| && a[j] !in stale && a[j] !in r && !Closer(id, r[k].id, a[j].id);
      assert a[j] in s;
      var i :| 0 <= i < |s| && s[i] == a[j];
    }
  }

  /** What the search finds below a node, in terms of its two sides. */
  lemma Sides(p: Params, m0: Trie, m1: Trie, local: Key, d: nat, x: nat, id: Key, stale: set<Contact>, qty: nat)
    returns (near: Trie, far: Trie, y: nat, z: nat, r: seq<Contact>)
    requires p.Valid() && d < ID_BITS && qty > 0 && Depths(Space(m0, m1), d) && Inv(p, Space(m0, m1), local, d, x)
    ensures var one := Bit(Dist(local, id), d);
            && near == (if one then m1 else m0) && far == (if one then m0 else m1)
            && y == (if one then 2 * x + 1 else 2 * x) && z == (if one then 2 * x else 2 * x + 1)
    ensures d + 1 < ID_BITS && Depths(near, d + 1) && Depths(far, d + 1)
    ensures Inv(p, near, local, d + 1, y) && Inv(p, far, local, d + 1, z)
    ensures r == FindClosest(near, local, d + 1, id, stale, qty) && Before(id, All(near), All(far))
    ensures Picked(All(near), stale, qty, r)
  {
    hide Dist, Bit, Picked, Ranked, Before, FindClosest, MaySplit;
    var one := Bit(Dist(local, id), d);
    near, far := if one then m1 else m0, if one then m0 else m1;
    y, z := if one then 2 * x + 1 else 2 * x, if one then 2 * x else 2 * x + 1;
    r := FindClosest(near, local, d + 1, id, stale, qty);
    SidesBefore(p, m0, m1, local, d, x, id);
    Closest(p, near, local, d + 1, y, id, stale, qty);
  }

  lemma FarPicked(p: Params, far: Trie, local: Key, d: nat, z: nat, id: Key, stale: set<Contact>, qty: nat)
    requires p.Valid() && d < ID_BITS && Depths(far, d) && Inv(p, far, local, d, z)
    ensures From(FindClosest(far, local, d, id, stale, qty), All(far))
  {
    hide Dist, Bit, Ranked, FindClosest, Inv;
    Closest(p, far, local, d, z, id, stale, qty);
  }

  lemma NoneExact(id: Key, s: seq<Contact>, stale: set<Contact>)
    ensures Exact(id, s, stale, [])
  {
  }

  lemma {:induction false} SettledExact(
      p: Params, t: Trie, local: Key, d: nat, x: nat, id: Key, stale: set<Contact>, qty: nat)
    requires p.Valid() && d < ID_BITS && Depths(t, d) && Inv(p, t, local, d, x)
    requires Settled(t, local, d, id, stale, qty)
    ensures Exact(id, All(t), stale, FindClosest(t, local, d, id, stale, qty))
    decreases t
  {
    hide Dist, Bit, Live, PathIndex, MaySplit, Exact, Before, Pick;
    if qty == 0 {
      NoneExact(id, All(t), stale);
    } else {
      match t
      case Bucket(contacts, _) => PickExact(id, contacts, stale, qty);
      case Space(m0, m1) =>
        var near, far, y, z, r := Sides(p, m0, m1, local, d, x, id, stale, qty);
        if |r| < qty {
          SettledExact(p, far, local, d + 1, z, id, stale, qty - |r|);
          FarPicked(p, far, local, d + 1, z, id, stale, qty - |r|);
          ExactFar(m0, m1, near, far, id, stale, r, FindClosest(far, local, d + 1, id, stale, qty - |r|));
        } else {
          SettledExact(p, near, local, d + 1, y, id, stale, qty);
          ExactNear(m0, m1, near, far, id, stale, r);
        }
    }
  }

  // ---------------------------------------------------------------- the others

  /** A far side that misses somebody, in the place of the old one. */
  lemma MissesFar(p: Params, t: Trie, v: Trie, local: Key, d: nat, x: nat, id: Key, stale: set<Contact>, qty: nat)
    returns (u: Trie)
    requires p.Valid() && d < ID_BITS && qty > 0 && t.Space? && Depths(t, d) && Inv(p, t, local, d, x)
    requires var one := Bit(Dist(local, id), d);
             var near, far := if one then t.m1 else t.m0, if one then t.m0 else t.m1;
             var r := FindClosest(near, local, d + 1, id, stale, qty);
             && |r| < qty && Shuffled(far, v) && Depths(v, d + 1)
             && !Exact(id, All(v), stale, FindClosest(v, local, d + 1, id, stale, qty - |r|))
    ensures Shuffled(t, u) && Depths(u, d) && Inv(p, u, local, d, x)
    ensures !Exact(id, All(u), stale, FindClosest(u, local, d, id, stale, qty))
  {
    hide Dist, Bit, Live, MaySplit, Exact, Before, Pick, Picked, Inv, All, From;
    var one := Bit(Dist(local, id), d);
    ShuffledSelf(t.m0);
    ShuffledSelf(t.m1);
    u := if one then Space(v, t.m1) else Space(t.m0, v);
    ShuffledInv(p, t, u, local, d, x);
    var near, far, y, z, r := Sides(p, u.m0, u.m1, local, d, x, id, stale, qty);
    FarPicked(p, v, local, d + 1, z, id, stale, qty - |r|);
    AllPicked(All(near), stale, qty, r);
    ExactFar(u.m0, u.m1, near, v, id, stale, r, FindClosest(v, local, d + 1, id, stale, qty - |r|));
  }

  /** A near side that misses somebody, in the place of the old one. */
  lemma MissesNear(p: Params, t: Trie, v: Trie, local: Key, d: nat, x: nat, id: Key, stale: set<Contact>, qty: nat)
    returns (u: Trie)
    requires p.Valid() && d < ID_BITS && qty > 0 && t.Space? && Depths(t, d) && Inv(p, t, local, d, x)
    requires var near := if Bit(Dist(local, id), d) then t.m1 else t.m0;
             && Shuffled(near, v) && Depths(v, d + 1) && |FindClosest(v, local, d + 1, id, stale, qty)| >= qty
             && !Exact(id, All(v), stale, FindClosest(v, local, d + 1, id, stale, qty))
    ensures Shuffled(t, u) && Depths(u, d) && Inv(p, u, local, d, x)
    ensures !Exact(id, All(u), stale, FindClosest(u, local, d, id, stale, qty))
  {
    hide Dist, Bit, Live, MaySplit, Exact, Before, Pick, Picked, Inv, All, From;
    var one := Bit(Dist(local, id), d);
    ShuffledSelf(t.m0);
    ShuffledSelf(t.m1);
    u := if one then Space(t.m0, v) else Space(v, t.m1);
    ShuffledInv(p, t, u, local, d, x);
    var near, far, y, z, r := Sides(p, u.m0, u.m1, local, d, x, id, stale, qty);
    AllPicked(All(near), stale, qty, r);
    ExactNear(u.m0, u.m1, near, far, id, stale, r);
  }

  /** In any other table the last bucket can be reordered such that a nearer contact is missed. */
  lemma {:induction false} UnsettledMisses(
      p: Params, t: Trie, local: Key, d: nat, x: nat, id: Key, stale: set<Contact>, qty: nat) returns (u: Trie)
    requires p.Valid() && d < ID_BITS && Depths(t, d) && Inv(p, t, local, d, x)
    requires !Settled(t, local, d, id, stale, qty)
    ensures Shuffled(t, u) && Depths(u, d) && Inv(p, u, local, d, x)
    ensures !Exact(id, All(u), stale, FindClosest(u, local, d, id, stale, qty))
    decreases t
  {
    hide Dist, Bit, Live, PathIndex, MaySplit, Exact, Before, Pick, Picked, FindClosest, All;
    match t
    case Bucket(contacts, cache) => u := BucketMisses(p, t, local, d, x, id, stale, qty);
    case Space(m0, m1) =>
      WantedPositive(t, local, d, id, stale, qty);
      var near, far, y, z, r := Sides(p, m0, m1, local, d, x, id, stale, qty);
      if |r| < qty {
        var v := UnsettledMisses(p, far, local, d + 1, z, id, stale, qty - |r|);
        u := MissesFar(p, t, v, local, d, x, id, stale, qty);
      } else {
        var v := UnsettledMisses(p, near, local, d + 1, y, id, stale, qty);
        ShuffledFinds(p, near, v, local, d + 1, y, id, stale, qty);
        u := MissesNear(p, t, v, local, d, x, id, stale, qty);
      }
  }

  lemma BucketMisses(p: Params, t: Trie, local: Key, d: nat, x: nat, id: Key, stale: set<Contact>, qty: nat)
    returns (u: Trie)
    requires p.Valid() && d < ID_BITS && t.Bucket? && Inv(p, t, local, d, x) && 1 < qty < |Live(t.contacts, stale)|
    ensures Shuffled(t, u) && Depths(u, d) && Inv(p, u, local, d, x)
    ensures !Exact(id, All(u), stale, FindClosest(u, local, d, id, stale, qty))
  {
    hide Dist, Live, PathIndex, MaySplit, Exact, Pick;
    var s := PickMisses(id, t.contacts, stale, qty);
    u := Bucket(s, t.cache);
    ShuffledInv(p, t, u, local, d, x);
  }

  lemma AllPicked(s: seq<Contact>, stale: set<Contact>, qty: nat, r: seq<Contact>)
    requires Picked(s, stale, qty, r)
    ensures From(r, s)
    ensures |r| < qty ==> forall j :: 0 <= j < |s| && s[j] !in stale ==> s[j] in r
  {
  }

  lemma {:induction false} WantedPositive(t: Trie, local: Key, d: nat, id: Key, stale: set<Contact>, qty: nat)
    requires Depths(t, d) && !Settled(t, local, d, id, stale, qty)
    ensures qty > 0
    decreases t
  {
    hide Dist, Bit, Live;
    if qty == 0 && t.Space? {
      var near := if Bit(Dist(local, id), d) then t.m1 else t.m0;
      WantedPositive(near, local, d + 1, id, stale, qty);
    }
  }

  /**
    After any run: the search gives exactly the nearest live contacts, in
    whatever order the buckets have theirs, if and only if at most one is still
    wanted in the last bucket it visits, or that has room for all its live ones.
   */
  lemma ClosestExactIff(p: Params, local: Key, steps: seq<Step>, id: Key, stale: set<Contact>, qty: nat)
    requires p.Valid()
    ensures var t := Run(p, local, steps);
            (forall u :: Shuffled(t, u) && Depths(u, 0) ==>
               Exact(id, All(u), stale, FindClosest(u, local, 0, id, stale, qty)))
            <==> Settled(t, local, 0, id, stale, qty)
  {
    hide Inv, Run, Depths, Exact, Shuffled, Settled, FindClosest;
    var t := Run(p, local, steps);
    if Settled(t, local, 0, id, stale, qty) {
      forall u | Shuffled(t, u) && Depths(u, 0)
        ensures Exact(id, All(u), stale, FindClosest(u, local, 0, id, stale, qty))
      {
        ShuffledInv(p, t, u, local, 0, 0);
        ShuffledSettled(p, t, u, local, 0, 0, id, stale, qty);
        SettledExact(p, u, local, 0, 0, id, stale, qty);
      }
    } else {
      var u := UnsettledMisses(p, t, local, 0, 0, id, stale, qty);
    }
  }

  // ---------------------------------------------------------------- a run that misses one

  /** The contacts `cs` are added one after the other. */
  function Adds(cs: seq<Contact>): seq<Step> {
    if cs == [] then [] else Adds(cs[..|cs| - 1]) + [Add(cs[|cs| - 1])]
  }

  lemma AddsNext(p: Params, local: Key, cs: seq<Contact>, c: Contact)
    requires p.Valid()
    ensures Run(p, local, Adds(cs + [c])) == AddNode(p, Run(p, local, Adds(cs)), local, 0, 0, c).0
  {
    hide AddNode, Inv;
    assert (cs + [c])[..|cs|] == cs;
    var steps := Adds(cs) + [Add(c)];
    assert steps[..|steps| - 1] == Adds(cs);
  }

  lemma {:induction false} AddsFill(p: Params, local: Key, cs: seq<Contact>)
    requires p.Valid() && DistinctIds(cs) && |cs| <= p.bucket
    ensures Run(p, local, Adds(cs)) == Bucket(cs, [])
  {
    hide Run, Adds;
    if cs == [] {
      AddsNone(p, local);
    } else {
      var t, c := cs[..|cs| - 1], cs[|cs| - 1];
      assert forall k :: 0 <= k < |t| ==> t[k] == cs[k];
      AddsFill(p, local, t);
      AddsNext(p, local, t, c);
      assert t + [c] == cs;
      assert !HasId(t, c.id);
    }
  }

  lemma AddsNone(p: Params, local: Key)
    requires p.Valid()
    ensures Run(p, local, Adds([])) == Bucket([], [])
  {
  }

  lemma {:induction false} OneSide(s: seq<Contact>, local: Key, d: nat, one: bool)
    requires d < ID_BITS && forall k :: 0 <= k < |s| ==> Bit(Dist(local, s[k].id), d) == one
    ensures Side(s, local, d, one) == s && Side(s, local, d, !one) == []
  {
    hide Bit, Dist;
    if s != [] { OneSide(s[1..], local, d, one); }
  }

  /** A full bucket with all contacts on one side splits for a contact on the other. */
  lemma SplitFor(p: Params, local: Key, cs: seq<Contact>, x: Contact)
    requires p.Valid() && |cs| == p.bucket && !HasId(cs, x.id)
    requires forall k :: 0 <= k < |cs| ==> Bit(Dist(local, cs[k].id), 0) != Bit(Dist(local, x.id), 0)
    ensures var a, b := Bucket(cs, []), Bucket([x], []);
            AddNode(p, a, local, 0, 0, x).0 == if Bit(Dist(local, x.id), 0) then Space(a, b) else Space(b, a)
  {
    hide Bit, Dist;
    var one := Bit(Dist(local, x.id), 0);
    OneSide(cs, local, 0, !one);
    assert MaySplit(p, 0, 0) by { assert Pow(2, 0) == 1; }
    assert Split(p, Bucket(cs, []), local, 0)
           == if one then Space(Bucket(cs, []), Bucket([], [])) else Space(Bucket([], []), Bucket(cs, [])) by {
      assert cs + [] == cs;
      assert Side([], local, 0, one) == [] && Side([], local, 0, !one) == [];
    }
    assert [] + [x] == [x];
  }

  lemma OnePicked(id: Key, x: Contact, qty: nat)
    requires qty > 0
    ensures Pick(id, [x], {}, qty) == [x]
  {
    hide Closer;
    assert [x][..0] == [];
    assert Pick(id, [], {}, qty) == [];
    assert [] + [x] == [x];
  }

  /**
    The failing run: a full bucket on the far side of the key, the nearest of
    it added last, and one contact on the near side.  Asked for as many
    contacts as a bucket holds, the search misses the second nearest of the far
    side, though it returns farther ones.
   */
  lemma ClosestCanMiss(p: Params, local: Key, id: Key, l: seq<Contact>, x: Contact)
    requires p.Valid() && p.bucket >= 3 && Sorted(id, l) && |l| == p.bucket
    requires Bit(Dist(local, x.id), 0) == Bit(Dist(local, id), 0)
    requires forall k :: 0 <= k < |l| ==> Bit(Dist(local, l[k].id), 0) != Bit(Dist(local, id), 0)
    ensures var t := Run(p, local, Adds(NearestLate(l, p.bucket - 1) + [x]));
            var r := FindClosest(t, local, 0, id, {}, p.bucket);
            && r == [x, l[0]] + l[2..] && l[1] in All(t) && l[1] !in r && Closer(id, l[1].id, l[2].id)
  {
    hide Bit, Dist, Closer, Run, Adds, AddNode, Pick;
    var cs := NearestLate(l, p.bucket - 1);
    LateSides(p, local, id, l, x);
    AddsFill(p, local, cs);
    AddsNext(p, local, cs, x);
    SplitFor(p, local, cs, x);
    OnePicked(id, x, p.bucket);
    PickMissesSorted(id, l, p.bucket - 1);
    assert l[2..p.bucket] == l[2..];
    assert [x] + ([l[0]] + l[2..]) == [x, l[0]] + l[2..];
    SecondMissed(id, l, x, cs);
  }

  lemma LateSides(p: Params, local: Key, id: Key, l: seq<Contact>, x: Contact)
    requires p.bucket >= 3 && Sorted(id, l) && |l| == p.bucket
    requires Bit(Dist(local, x.id), 0) == Bit(Dist(local, id), 0)
    requires forall k :: 0 <= k < |l| ==> Bit(Dist(local, l[k].id), 0) != Bit(Dist(local, id), 0)
    ensures var cs := NearestLate(l, p.bucket - 1);
            && |cs| == p.bucket && DistinctIds(cs) && !HasId(cs, x.id)
            && forall k :: 0 <= k < |cs| ==> Bit(Dist(local, cs[k].id), 0) != Bit(Dist(local, x.id), 0)
  {
    hide Bit, Dist, Closer;
    Order(id);
    var cs := NearestLate(l, p.bucket - 1);
    assert forall k :: 0 <= k < |cs| ==> cs[k] == l[if k == p.bucket - 1 then 0 else k + 1];
    forall j, k | 0 <= j < k < |l| ensures l[j].id != l[k].id {
      assert Closer(id, l[j].id, l[k].id);
    }
  }

  lemma SecondMissed(id: Key, l: seq<Contact>, x: Contact, cs: seq<Contact>)
    requires |l| >= 3 && Sorted(id, l) && cs == NearestLate(l, |l| - 1) && !HasId(cs, x.id)
    ensures l[1] in cs && l[1] !in [x, l[0]] + l[2..] && Closer(id, l[1].id, l[2].id)
  {
    hide Closer;
    Order(id);
    assert cs[0] == l[1];
    forall k | 2 <= k < |l| ensures l[k] != l[1] {
      assert Closer(id, l[1].id, l[k].id);
    }
    assert Closer(id, l[0].id, l[1].id);
  }
}
