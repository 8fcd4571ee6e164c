/**
  What `FindClosest` returns: enough contacts, the very nearest among them,
  and nobody farther than an omitted one except within one bucket.
 */
module RoutingClosest {
  import opened NodeId
  import opened Nearest
  import opened RoutingTrie
  import opened RoutingSafety

  function Min(a: nat, b: nat): nat {
    if a < b then a else b
  }

  ghost predicate From(r: seq<Contact>, s: seq<Contact>) {
    forall k :: 0 <= k < |r| ==> r[k] in s
  }

  // ---------------------------------------------------------------- live contacts

  lemma {:induction false} LiveIs(s: seq<Contact>, stale: set<Contact>)
    ensures var l := Live(s, stale);
            && (forall k :: 0 <= k < |l| ==> l[k] in s && l[k] !in stale)
            && (forall k :: 0 <= k < |s| && s[k] !in stale ==> s[k] in l)
            && |l| <= |s|
  {
    if s != [] {
      LiveIs(s[1..], stale);
      var l := Live(s[1..], stale);
      assert forall k :: 0 <= k < |l| ==> l[k] in s[1..];
      forall k | 0 <= k < |s| && s[k] !in stale ensures s[k] in Live(s, stale) {
        if k > 0 { assert s[1..][k - 1] == s[k]; }
      }
    }
  }

  lemma LiveLast(s: seq<Contact>, stale: set<Contact>)
    requires s != []
    ensures var c := s[|s| - 1];
            Live(s, stale) == Live(s[..|s| - 1], stale) + (if c in stale then [] else [c])
  {
    var t, c := s[..|s| - 1], s[|s| - 1];
    assert s == t + [c];
    LiveConcat(t, [c], stale);
    assert Live([c][1..], stale) == [];
  }

  // ---------------------------------------------------------------- one bucket

  lemma {:induction false} ReplaceIs(id: Key, res: seq<Contact>, c: Contact)
    requires Distinct(res) && c !in res
    ensures var r := Replace(id, res, c);
            && |r| == |res| && Distinct(r)
            && forall k :: 0 <= k < |r| ==> r[k] in res || r[k] == c
  {
    hide Closer;
    if res != [] && !Closer(id, c.id, res[0].id) {
      var t := res[1..];
      assert forall k :: 0 <= k < |t| ==> t[k] == res[k + 1];
      ReplaceIs(id, t, c);
      var u := Replace(id, t, c);
      assert forall k :: 0 <= k < |u| ==> u[k] in t || u[k] == c;
    }
  }

  /** Only a farther contact makes way, and the new one gets its place. */
  lemma {:induction false} ReplaceKeeps(id: Key, res: seq<Contact>, c: Contact)
    ensures var r := Replace(id, res, c);
            && (forall k :: 0 <= k < |res| && !Closer(id, c.id, res[k].id) ==> res[k] in r)
            && ((exists k :: 0 <= k < |res| && Closer(id, c.id, res[k].id)) ==> c in r)
  {
    hide Closer;
    if res != [] {
      var t := res[1..];
      if Closer(id, c.id, res[0].id) {
        assert Replace(id, res, c)[0] == c;
      } else {
        ReplaceKeeps(id, t, c);
        forall k | 0 <= k < |res| && !Closer(id, c.id, res[k].id) ensures res[k] in Replace(id, res, c) {
          if k > 0 { assert t[k - 1] == res[k]; }
        }
        if k :| 0 <= k < |res| && Closer(id, c.id, res[k].id) { assert t[k - 1] == res[k]; }
      }
    }
  }

  /** How many a bucket gives, and that they are live contacts of it, each once. */
  lemma {:induction false} PickIs(id: Key, s: seq<Contact>, stale: set<Contact>, qty: nat)
    requires Distinct(s)
    ensures var r := Pick(id, s, stale, qty);
            && |r| == Min(qty, |Live(s, stale)|) && Distinct(r) && From(r, s)
            && forall k :: 0 <= k < |r| ==> r[k] !in stale
  {
    hide Closer, Live, Replace;
    if s == [] {
      EmptyLive(stale);
    } else {
      var t, c := s[..|s| - 1], s[|s| - 1];
      assert forall k :: 0 <= k < |t| ==> t[k] == s[k];
      PickIs(id, t, stale, qty);
      LiveLast(s, stale);
      assert s == t + [c];
      hide Distinct, From;
      if c !in stale { PickStep(id, t, c, stale, qty, Pick(id, t, stale, qty)); }
    }
  }

  lemma EmptyLive(stale: set<Contact>)
    ensures Live([], stale) == []
  {
  }

  lemma PickStep(id: Key, t: seq<Contact>, c: Contact, stale: set<Contact>, qty: nat, r: seq<Contact>)
    requires Distinct(t + [c]) && Distinct(r) && From(r, t) && |r| == Min(qty, |Live(t, stale)|)
    requires c !in stale && forall k :: 0 <= k < |r| ==> r[k] !in stale
    ensures var q := if |r| < qty then r + [c] else Replace(id, r, c);
            && |q| == Min(qty, |Live(t, stale)| + 1) && Distinct(q) && From(q, t + [c])
            && forall k :: 0 <= k < |q| ==> q[k] !in stale
  {
    hide Closer, Live, Replace;
    LastIsNew(t, c);
    ReplaceIs(id, r, c);
  }

  lemma LastIsNew(t: seq<Contact>, c: Contact)
    requires Distinct(t + [c])
    ensures c !in t
  {
    assert forall k :: 0 <= k < |t| ==> (t + [c])[k] == t[k];
    assert (t + [c])[|t|] == c;
  }

  /** A bucket with few live contacts gives them all, in its order. */
  lemma {:induction false} PickAll(id: Key, s: seq<Contact>, stale: set<Contact>, qty: nat)
    requires |Live(s, stale)| <= qty
    ensures Pick(id, s, stale, qty) == Live(s, stale)
  {
    hide Closer, Replace;
    if s != [] {
      LiveLast(s, stale);
      PickAll(id, s[..|s| - 1], stale, qty);
    }
  }

  /** The very nearest live contact of a bucket is never pushed out. */
  lemma {:induction false} PickHasNearest(id: Key, s: seq<Contact>, stale: set<Contact>, qty: nat, m: Contact)
    requires Distinct(s) && qty > 0 && m in s && m !in stale
    requires forall k :: 0 <= k < |s| && s[k] !in stale && s[k] != m ==> Closer(id, m.id, s[k].id)
    ensures m in Pick(id, s, stale, qty)
  {
    hide Closer;
    Order(id);
    var t, c := s[..|s| - 1], s[|s| - 1];
    assert s == t + [c];
    PickIs(id, t, stale, qty);
    var r := Pick(id, t, stale, qty);
    assert c !in r by { assert c !in t; }
    ReplaceKeeps(id, r, c);
    if c != m {
      PickHasNearest(id, t, stale, qty, m);
      if c !in stale {
        var k :| 0 <= k < |r| && r[k] == m;
        assert !Closer(id, c.id, m.id);
      }
    } else if |r| >= qty {
      assert r[0] in t;
      var k :| 0 <= k < |t| && t[k] == r[0];
      assert Closer(id, m.id, s[k].id);
    }
  }

  // ---------------------------------------------------------------- the two sides of a node

  lemma {:induction false} SamePath(local: Key, a: Key, b: Key, d: nat)
    requires d <= ID_BITS && PathIndex(Dist(local, a), d) == PathIndex(Dist(local, b), d)
    ensures forall i: nat :: i < d ==> Bit(a, i) == Bit(b, i)
  {
    hide Bit, Dist;
    if d > 0 {
      SamePath(local, a, b, d - 1);
      SameBit(local, a, b, d - 1);
    }
  }

  lemma SameBit(local: Key, a: Key, b: Key, i: nat)
    requires i < ID_BITS
    ensures Bit(Dist(local, a), i) == Bit(Dist(local, b), i) <==> Bit(a, i) == Bit(b, i)
  {
    hide Bit, Xor;
    XorBit(local, a, i);
    XorBit(local, b, i);
  }

  /** Of two contacts of one node, the one on the side of the key is nearer to it. */
  lemma SideCloser(local: Key, id: Key, a: Key, b: Key, d: nat)
    requires d < ID_BITS && PathIndex(Dist(local, a), d) == PathIndex(Dist(local, b), d)
    requires Bit(Dist(local, a), d) == Bit(Dist(local, id), d) != Bit(Dist(local, b), d)
    ensures Closer(id, a, b)
  {
    hide Bit, Xor, PathIndex, Less;
    SamePath(local, a, b, d);
    SameBit(local, a, id, d);
    SameBit(local, b, id, d);
    var x, y := Xor(id, a), Xor(id, b);
    forall i: nat | i < d ensures Bit(x, i) == Bit(y, i) {
      XorBit(id, a, i);
      XorBit(id, b, i);
    }
    XorBit(id, a, d);
    XorBit(id, b, d);
    FirstBitDecides(x, y, d);
  }

  lemma PathBack(dist: Key, d: nat, x: nat)
    requires d < ID_BITS && PathIndex(dist, d + 1) == x
    ensures PathIndex(dist, d) == x / 2 && (Bit(dist, d) <==> x % 2 == 1)
  {
    hide Bit;
  }

  // ---------------------------------------------------------------- the whole table

  /** The two contacts are in the same bucket. */
  predicate SameLeaf(t: Trie, a: Contact, b: Contact) {
    match t
    case Space(m0, m1) => SameLeaf(m0, a, b) || SameLeaf(m1, a, b)
    case Bucket(contacts, _) => a in contacts && b in contacts
  }

  /** `a` is nearer to `id` than `c`, or at least from the same bucket. */
  ghost predicate Beats(t: Trie, id: Key, a: Contact, c: Contact) {
    Closer(id, a.id, c.id) || SameLeaf(t, a, c)
  }

  /** Different live contacts of the table; all of them when there are fewer than wanted. */
  ghost predicate Picked(s: seq<Contact>, stale: set<Contact>, qty: nat, r: seq<Contact>) {
    && |r| == Min(qty, |Live(s, stale)|) && Distinct(r) && From(r, s)
    && (forall k :: 0 <= k < |r| ==> r[k] !in stale)
    && (|r| < qty ==> forall j :: 0 <= j < |s| && s[j] !in stale ==> s[j] in r)
  }

  /** Nobody returned is farther than somebody omitted, except within one bucket. */
  ghost predicate Ranked(t: Trie, id: Key, stale: set<Contact>, r: seq<Contact>) {
    forall k, j :: 0 <= k < |r| && 0 <= j < |All(t)| && All(t)[j] !in stale && All(t)[j] !in r ==>
      Beats(t, id, r[k], All(t)[j])
  }

  lemma IdsDistinct(s: seq<Contact>)
    requires DistinctIds(s)
    ensures Distinct(s)
  {
  }

  lemma BucketClosest(p: Params, t: Trie, local: Key, d: nat, x: nat, id: Key, stale: set<Contact>, qty: nat)
    requires p.Valid() && d < ID_BITS && t.Bucket? && Inv(p, t, local, d, x)
    ensures var r := FindClosest(t, local, d, id, stale, qty); Picked(All(t), stale, qty, r) && Ranked(t, id, stale, r)
  {
    hide PathIndex, MaySplit, Closer, Dist;
    IdsDistinct(t.contacts);
    PickIs(id, t.contacts, stale, qty);
    LiveIs(t.contacts, stale);
    if |Live(t.contacts, stale)| <= qty { PickAll(id, t.contacts, stale, qty); }
  }

  /** All contacts of `near` are nearer to `id` than all of `far`. */
  ghost predicate Before(id: Key, near: seq<Contact>, far: seq<Contact>) {
    forall k, j :: 0 <= k < |near| && 0 <= j < |far| ==> Closer(id, near[k].id, far[j].id)
  }

  lemma BeforeApart(id: Key, near: seq<Contact>, far: seq<Contact>)
    requires Before(id, near, far)
    ensures forall k :: 0 <= k < |near| ==> near[k] !in far
  {
    hide Closer;
    Order(id);
  }

  lemma JoinPicked(id: Key, a: seq<Contact>, b: seq<Contact>, all: seq<Contact>, stale: set<Contact>, qty: nat,
                   r: seq<Contact>, q: seq<Contact>)
    requires all == a + b || all == b + a
    requires Before(id, a, b) && Picked(a, stale, qty, r) && |r| < qty && Picked(b, stale, qty - |r|, q)
    ensures Picked(all, stale, qty, r + q)
  {
    hide Closer, Before, Live;
    BeforeApart(id, a, b);
    if all == a + b { LiveConcat(a, b, stale); } else { LiveConcat(b, a, stale); }
    JoinDistinct(a, b, r, q);
  }

  lemma JoinDistinct(a: seq<Contact>, b: seq<Contact>, r: seq<Contact>, q: seq<Contact>)
    requires Distinct(r) && Distinct(q) && From(r, a) && From(q, b) && forall k :: 0 <= k < |a| ==> a[k] !in b
    ensures Distinct(r + q)
  {
    forall k | 0 <= k < |r| ensures r[k] !in q {
      assert r[k] in a;
    }
    assert forall k, j :: 0 <= k < |r| && 0 <= j < |q| ==> r[k] != q[j];
  }

  lemma NearPicked(a: seq<Contact>, b: seq<Contact>, all: seq<Contact>, stale: set<Contact>, qty: nat, r: seq<Contact>)
    requires all == a + b || all == b + a
    requires Picked(a, stale, qty, r) && |r| >= qty
    ensures Picked(all, stale, qty, r)
  {
    if all == a + b { LiveConcat(a, b, stale); } else { LiveConcat(b, a, stale); }
  }

  /** Ranking on the near side carries over; on the far side it holds once the near side is used up. */
  lemma JoinRanked(m0: Trie, m1: Trie, near: Trie, far: Trie, id: Key, stale: set<Contact>, r: seq<Contact>,
                   q: seq<Contact>)
    requires (near == m0 && far == m1) || (near == m1 && far == m0)
    requires Before(id, All(near), All(far)) && From(r, All(near)) && From(q, All(far))
    requires Ranked(near, id, stale, r) && Ranked(far, id, stale, q)
    requires q != [] ==> forall j :: 0 <= j < |All(near)| && All(near)[j] !in stale ==> All(near)[j] in r
    ensures Ranked(Space(m0, m1), id, stale, r + q)
  {
    hide Closer;
    var t, s := Space(m0, m1), r + q;
    forall k, j | 0 <= k < |s| && 0 <= j < |All(t)| && All(t)[j] !in stale && All(t)[j] !in s
      ensures Beats(t, id, s[k], All(t)[j])
    {
      var c := All(t)[j];
      assert c in All(near) || c in All(far);
      if c in All(near) {
        var i :| 0 <= i < |All(near)| && All(near)[i] == c;
        assert k < |r| && Beats(near, id, r[k], All(near)[i]);
      } else {
        var i :| 0 <= i < |All(far)| && All(far)[i] == c;
        if k < |r| {
          assert r[k] in All(near);
          var h :| 0 <= h < |All(near)| && All(near)[h] == r[k];
        } else {
          assert Beats(far, id, q[k - |r|], All(far)[i]);
        }
      }
    }
  }

  lemma SidesBefore(p: Params, m0: Trie, m1: Trie, local: Key, d: nat, x: nat, id: Key)
    requires p.Valid() && d < ID_BITS && Inv(p, Space(m0, m1), local, d, x)
    ensures if Bit(Dist(local, id), d) then Before(id, All(m1), All(m0)) else Before(id, All(m0), All(m1))
  {
    AllOnPath(p, m0, local, d + 1, 2 * x);
    AllOnPath(p, m1, local, d + 1, 2 * x + 1);
    hide Dist, Bit, Inv, All, Closer, PathIndex;
    var a, b := All(m0), All(m1);
    forall k, j | 0 <= k < |a| && 0 <= j < |b|
      ensures if Bit(Dist(local, id), d) then Closer(id, b[j].id, a[k].id) else Closer(id, a[k].id, b[j].id)
    {
      OppositeSides(local, id, a[k].id, b[j].id, d, x);
    }
  }

  lemma OppositeSides(local: Key, id: Key, a: Key, b: Key, d: nat, x: nat)
    requires d < ID_BITS && PathIndex(Dist(local, a), d + 1) == 2 * x && PathIndex(Dist(local, b), d + 1) == 2 * x + 1
    ensures if Bit(Dist(local, id), d) then Closer(id, b, a) else Closer(id, a, b)
  {
    hide Dist, Bit, Closer, PathIndex;
    PathBack(Dist(local, a), d, 2 * x);
    PathBack(Dist(local, b), d, 2 * x + 1);
    if Bit(Dist(local, id), d) { SideCloser(local, id, b, a, d); } else { SideCloser(local, id, a, b, d); }
  }

  lemma {:induction false} Closest(p: Params, t: Trie, local: Key, d: nat, x: nat, id: Key, stale: set<Contact>,
                                   qty: nat)
    requires p.Valid() && d < ID_BITS && Depths(t, d) && Inv(p, t, local, d, x)
    ensures var r := FindClosest(t, local, d, id, stale, qty); Picked(All(t), stale, qty, r) && Ranked(t, id, stale, r)
    decreases t
  {
    hide Dist, Bit, Picked, Ranked, Before, PathIndex;
    match t
    case Bucket(_, _) => BucketClosest(p, t, local, d, x, id, stale, qty);
    case Space(m0, m1) =>
      if qty == 0 {
        Nothing(All(t), t, id, stale);
      } else {
        SidesBefore(p, m0, m1, local, d, x, id);
        var one := Bit(Dist(local, id), d);
        var near, far := if one then m1 else m0, if one then m0 else m1;
        var y, z := if one then 2 * x + 1 else 2 * x, if one then 2 * x else 2 * x + 1;
        Closest(p, near, local, d + 1, y, id, stale, qty);
        var r := FindClosest(near, local, d + 1, id, stale, qty);
        if |r| < qty {
          Closest(p, far, local, d + 1, z, id, stale, qty - |r|);
          var q := FindClosest(far, local, d + 1, id, stale, qty - |r|);
          Join(m0, m1, near, far, id, stale, qty, r, q);
        } else {
          NearOnly(m0, m1, near, far, id, stale, qty, r);
        }
      }
  }

  lemma Nothing(s: seq<Contact>, t: Trie, id: Key, stale: set<Contact>)
    ensures Picked(s, stale, 0, []) && Ranked(t, id, stale, [])
  {
  }

  lemma Join(m0: Trie, m1: Trie, near: Trie, far: Trie, id: Key, stale: set<Contact>, qty: nat, r: seq<Contact>,
             q: seq<Contact>)
    requires (near == m0 && far == m1) || (near == m1 && far == m0)
    requires Before(id, All(near), All(far)) && Ranked(near, id, stale, r) && Ranked(far, id, stale, q)
    requires Picked(All(near), stale, qty, r) && |r| < qty && Picked(All(far), stale, qty - |r|, q)
    ensures Picked(All(Space(m0, m1)), stale, qty, r + q) && Ranked(Space(m0, m1), id, stale, r + q)
  {
    hide Before, Ranked, Live;
    JoinPicked(id, All(near), All(far), All(Space(m0, m1)), stale, qty, r, q);
    JoinRanked(m0, m1, near, far, id, stale, r, q);
  }

  lemma NearOnly(m0: Trie, m1: Trie, near: Trie, far: Trie, id: Key, stale: set<Contact>, qty: nat, r: seq<Contact>)
    requires (near == m0 && far == m1) || (near == m1 && far == m0)
    requires Before(id, All(near), All(far)) && Ranked(near, id, stale, r)
    requires Picked(All(near), stale, qty, r) && |r| >= qty
    ensures Picked(All(Space(m0, m1)), stale, qty, r) && Ranked(Space(m0, m1), id, stale, r)
  {
    NearPicked(All(near), All(far), All(Space(m0, m1)), stale, qty, r);
    var none: seq<Contact> := [];
    assert r + none == r;
    assert Ranked(far, id, stale, none);
    hide Before, Ranked, Live;
    JoinRanked(m0, m1, near, far, id, stale, r, none);
  }

  // ---------------------------------------------------------------- the very nearest

  ghost predicate IsNearest(id: Key, s: seq<Contact>, stale: set<Contact>, m: Contact) {
    m in s && m !in stale && forall k :: 0 <= k < |s| && s[k] !in stale && s[k] != m ==> Closer(id, m.id, s[k].id)
  }

  lemma BucketHasNearest(id: Key, s: seq<Contact>, stale: set<Contact>, qty: nat, m: Contact)
    requires DistinctIds(s) && qty > 0 && IsNearest(id, s, stale, m)
    ensures m in Pick(id, s, stale, qty)
  {
    hide Closer;
    IdsDistinct(s);
    PickHasNearest(id, s, stale, qty, m);
  }

  lemma NobodyPicked(s: seq<Contact>, stale: set<Contact>, qty: nat, r: seq<Contact>)
    requires Picked(s, stale, qty, r) && Live(s, stale) == []
    ensures r == []
  {
  }

  lemma {:induction false} HasNearest(p: Params, t: Trie, local: Key, d: nat, x: nat, id: Key, stale: set<Contact>,
                                      qty: nat, m: Contact)
    requires p.Valid() && d < ID_BITS && Depths(t, d) && Inv(p, t, local, d, x) && qty > 0
             && IsNearest(id, All(t), stale, m)
    ensures m in FindClosest(t, local, d, id, stale, qty)
    decreases t
  {
    hide Dist, Bit, PathIndex, Closer, IsNearest, Picked, Ranked, Live;
    match t
    case Bucket(contacts, _) => BucketHasNearest(id, contacts, stale, qty, m);
    case Space(m0, m1) =>
      SidesBefore(p, m0, m1, local, d, x, id);
      var one := Bit(Dist(local, id), d);
      var near, far := if one then m1 else m0, if one then m0 else m1;
      var y, z := if one then 2 * x + 1 else 2 * x, if one then 2 * x else 2 * x + 1;
      NearestSide(id, m0, m1, near, far, stale, m);
      if m in All(near) {
        HasNearest(p, near, local, d + 1, y, id, stale, qty, m);
      } else {
        Closest(p, near, local, d + 1, y, id, stale, qty);
        NobodyPicked(All(near), stale, qty, FindClosest(near, local, d + 1, id, stale, qty));
        HasNearest(p, far, local, d + 1, z, id, stale, qty, m);
      }
  }

  /** The nearest contact is on the near side, unless nobody there is live. */
  lemma NearestSide(id: Key, m0: Trie, m1: Trie, near: Trie, far: Trie, stale: set<Contact>, m: Contact)
    requires (near == m0 && far == m1) || (near == m1 && far == m0)
    requires Before(id, All(near), All(far)) && IsNearest(id, All(Space(m0, m1)), stale, m)
    ensures m in All(near) ==> IsNearest(id, All(near), stale, m)
    ensures m !in All(near) ==> IsNearest(id, All(far), stale, m) && Live(All(near), stale) == []
  {
    hide Closer, Live;
    Order(id);
    var a, b, s := All(near), All(far), All(Space(m0, m1));
    forall k | 0 <= k < |a| ensures a[k] in s { }
    forall k | 0 <= k < |b| ensures b[k] in s { }
    LiveIs(a, stale);
    var l := Live(a, stale);
    if l != [] {
      var k :| 0 <= k < |a| && a[k] == l[0];
      var i :| 0 <= i < |s| && s[i] == l[0];
      NearSideWins(id, a, b, k, m);
    }
  }

  /** Nobody of the far side is nearer than one of the near side. */
  lemma NearSideWins(id: Key, a: seq<Contact>, b: seq<Contact>, k: nat, m: Contact)
    requires Before(id, a, b) && k < |a|
    ensures m == a[k] || Closer(id, m.id, a[k].id) ==> m !in b
  {
    hide Closer;
    Order(id);
  }

  /**
    The promises of the search over all contacts of the table: as many
    different live contacts as there are, up to the number wanted; the very
    nearest live one among them; and nobody farther than one left out, except
    within one bucket.
   */
  lemma FindClosestPromises(p: Params, local: Key, steps: seq<Step>, id: Key, stale: set<Contact>, qty: nat, m: Contact)
    requires p.Valid()
    ensures var t := Run(p, local, steps); var r := FindClosest(t, local, 0, id, stale, qty);
            && Picked(All(t), stale, qty, r) && Ranked(t, id, stale, r)
            && (qty > 0 && IsNearest(id, All(t), stale, m) ==> m in r)
  {
    hide Inv, Run, Depths, Picked, Ranked, IsNearest;
    var t := Run(p, local, steps);
    Closest(p, t, local, 0, 0, id, stale, qty);
    if qty > 0 && IsNearest(id, All(t), stale, m) { HasNearest(p, t, local, 0, 0, id, stale, qty, m); }
  }
}
