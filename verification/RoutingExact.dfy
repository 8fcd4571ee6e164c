/** When one bucket gives exactly the nearest contacts, and when it may miss one. */
module RoutingExact {
  import opened NodeId
  import opened Nearest
  import opened RoutingTrie
  import opened RoutingSafety
  import opened RoutingClosest

  /** `r` is exactly the `qty` nearest live contacts of `s`: nobody left out is nearer than somebody returned. */
  ghost predicate Exact(id: Key, s: seq<Contact>, stale: set<Contact>, r: seq<Contact>) {
    forall k, j :: 0 <= k < |r| && 0 <= j < |s| && s[j] !in stale && s[j] !in r ==> Closer(id, r[k].id, s[j].id)
  }

  /** One wanted contact, or room for all live ones: then a bucket gives exactly the nearest ones. */
  lemma PickExact(id: Key, s: seq<Contact>, stale: set<Contact>, qty: nat)
    requires DistinctIds(s) && (qty <= 1 || |Live(s, stale)| <= qty)
    ensures Exact(id, s, stale, Pick(id, s, stale, qty))
  {
    hide Closer;
    IdsDistinct(s);
    LiveIs(s, stale);
    PickIs(id, s, stale, qty);
    if |Live(s, stale)| <= qty {
      PickAll(id, s, stale, qty);
    } else {
      PickOne(id, s, stale, qty);
    }
  }

  lemma {:induction false} PickOne(id: Key, s: seq<Contact>, stale: set<Contact>, qty: nat)
    requires DistinctIds(s) && qty <= 1
    ensures Exact(id, s, stale, Pick(id, s, stale, qty))
  {
    hide Closer;
    if s != [] {
      var t, c := s[..|s| - 1], s[|s| - 1];
      assert forall k :: 0 <= k < |t| ==> t[k] == s[k];
      IdsDistinct(t);
      PickOne(id, t, stale, qty);
      PickIs(id, t, stale, qty);
      LiveIs(t, stale);
      OneMore(id, t, stale, qty, c, Pick(id, t, stale, qty));
      assert s == t + [c];
    }
  }

  lemma OneMore(id: Key, t: seq<Contact>, stale: set<Contact>, qty: nat, c: Contact, r: seq<Contact>)
    requires Exact(id, t, stale, r) && qty <= 1 && |r| == Min(qty, |Live(t, stale)|) && From(r, t) && !HasId(t, c.id)
    requires forall j :: 0 <= j < |t| && t[j] !in stale ==> t[j] in Live(t, stale)
    ensures Exact(id, t + [c], stale, if c in stale then r else if |r| < qty then r + [c] else Replace(id, r, c))
  {
    hide Closer, Live;
    if |r| == 1 {
      assert r == [r[0]] && r[0] in t;
      OneOf(id, t, stale, r[0], c);
    }
  }

  /** Of the nearest so far and the next one, the nearer is the nearest of all. */
  lemma OneOf(id: Key, t: seq<Contact>, stale: set<Contact>, m: Contact, c: Contact)
    requires Exact(id, t, stale, [m]) && m in t && m.id != c.id
    ensures Exact(id, t + [c], stale, if Closer(id, c.id, m.id) then [c] else [m])
  {
    hide Closer;
    Order(id);
    var s, r := t + [c], if Closer(id, c.id, m.id) then [c] else [m];
    forall j | 0 <= j < |s| && s[j] !in stale && s[j] !in r ensures Closer(id, r[0].id, s[j].id) {
      if j < |t| && s[j] != m { assert Closer(id, [m][0].id, t[j].id); }
    }
  }

  /** Contacts farther than all picked ones change nothing. */
  lemma {:induction false} PickFar(id: Key, s: seq<Contact>, far: seq<Contact>, qty: nat)
    requires |Pick(id, s, {}, qty)| >= qty
    requires forall k, j :: 0 <= k < |Pick(id, s, {}, qty)| && 0 <= j < |far| ==>
               !Closer(id, far[j].id, Pick(id, s, {}, qty)[k].id)
    ensures Pick(id, s + far, {}, qty) == Pick(id, s, {}, qty)
    decreases |far|
  {
    hide Closer;
    if far == [] {
      assert s + far == s;
    } else {
      var t, c := far[..|far| - 1], far[|far| - 1];
      PickFar(id, s, t, qty);
      assert (s + far)[..|s + far| - 1] == s + t;
      NoReplace(id, Pick(id, s, {}, qty), c);
    }
  }

  lemma {:induction false} NoReplace(id: Key, res: seq<Contact>, c: Contact)
    requires forall k :: 0 <= k < |res| ==> !Closer(id, c.id, res[k].id)
    ensures Replace(id, res, c) == res
  {
    hide Closer;
    if res != [] { NoReplace(id, res[1..], c); }
  }

  lemma {:induction false} AllLive(s: seq<Contact>)
    ensures Live(s, {}) == s
  {
    if s != [] { AllLive(s[1..]); }
  }

  /**
    With the nearest one behind the others of the nearest, one is missed: the
    newcomer replaces the first farther one, not the farthest.
   */
  lemma PickMissesSorted(id: Key, s: seq<Contact>, qty: nat)
    requires Sorted(id, s) && 2 <= qty < |s|
    ensures var u := s[1..qty + 1] + [s[0]] + s[qty + 1..];
            && Pick(id, u, {}, qty) == [s[0]] + s[2..qty + 1]
            && !Exact(id, u, {}, Pick(id, u, {}, qty))
  {
    hide Closer, Pick, Exact;
    Order(id);
    var b, far := s[1..qty + 1], s[qty + 1..];
    NearestReplaces(id, s, qty);
    PickFar(id, b + [s[0]], far, qty);
    Missed(id, s, qty);
  }

  /** The nearest contact replaces the second nearest, which came first. */
  lemma NearestReplaces(id: Key, s: seq<Contact>, qty: nat)
    requires Sorted(id, s) && 2 <= qty < |s|
    ensures Pick(id, s[1..qty + 1] + [s[0]], {}, qty) == [s[0]] + s[2..qty + 1]
  {
    var b := s[1..qty + 1];
    AllLive(b);
    PickAll(id, b, {}, qty);
    hide Closer;
    assert (b + [s[0]])[..qty] == b;
    assert Closer(id, s[0].id, s[1].id);
    assert b[1..] == s[2..qty + 1];
  }

  lemma Missed(id: Key, s: seq<Contact>, qty: nat)
    requires Sorted(id, s) && 2 <= qty < |s|
    ensures !Exact(id, s[1..qty + 1] + [s[0]] + s[qty + 1..], {}, [s[0]] + s[2..qty + 1])
  {
    hide Closer;
    Order(id);
    var u, r := s[1..qty + 1] + [s[0]] + s[qty + 1..], [s[0]] + s[2..qty + 1];
    assert u[0] == s[1] && r[1] == s[2];
    assert forall k :: 0 <= k < |r| ==> r[k] == if k == 0 then s[0] else s[k + 1];
    assert s[1] !in r;
    assert !Closer(id, s[2].id, s[1].id) by { assert Closer(id, s[1].id, s[2].id); }
  }

  // ---------------------------------------------------------------- the orders of a bucket

  /** The same contacts in some order. */
  ghost predicate Reorders(u: seq<Contact>, s: seq<Contact>) {
    multiset(u) == multiset(s)
  }

  lemma {:induction false} LiveCount(s: seq<Contact>, stale: set<Contact>, x: Contact)
    ensures multiset(Live(s, stale))[x] == if x in stale then 0 else multiset(s)[x]
  {
    if s != [] {
      assert s == [s[0]] + s[1..];
      LiveCount(s[1..], stale, x);
    }
  }

  lemma LiveReorders(u: seq<Contact>, s: seq<Contact>, stale: set<Contact>)
    requires Reorders(u, s)
    ensures Reorders(Live(u, stale), Live(s, stale)) && |Live(u, stale)| == |Live(s, stale)|
  {
    hide Live;
    var a, b := multiset(Live(u, stale)), multiset(Live(s, stale));
    forall x: Contact ensures a[x] == b[x] {
      LiveCount(u, stale, x);
      LiveCount(s, stale, x);
    }
    SameCounts(a, b);
    assert |Live(u, stale)| == |a| && |Live(s, stale)| == |b|;
  }

  lemma SameCounts(a: multiset<Contact>, b: multiset<Contact>)
    requires forall x: Contact :: a[x] == b[x]
    ensures a == b
  {
    forall x ensures a[x] == b[x] { }
  }

  lemma {:induction false} OnceAtMost(s: seq<Contact>, x: Contact)
    requires DistinctIds(s)
    ensures multiset(s)[x] <= 1
  {
    if s != [] {
      var t := s[1..];
      assert s == [s[0]] + t;
      assert forall k :: 0 <= k < |t| ==> t[k] == s[k + 1];
      OnceAtMost(t, x);
      if x == s[0] { assert x !in t; }
    }
  }

  lemma TwiceAtLeast(u: seq<Contact>, j: nat, k: nat)
    requires j < k < |u| && u[j] == u[k]
    ensures multiset(u)[u[j]] >= 2
  {
    var a, b := u[..k], u[k..];
    assert u == a + b;
    assert a[j] in a && b[0] in b;
  }

  lemma ReordersDistinct(u: seq<Contact>, s: seq<Contact>)
    requires Reorders(u, s) && DistinctIds(s)
    ensures DistinctIds(u)
  {
    forall j, k | 0 <= j < k < |u| ensures u[j].id != u[k].id {
      if u[j] == u[k] {
        TwiceAtLeast(u, j, k);
        OnceAtMost(s, u[j]);
      } else {
        assert u[j] in multiset(s) && u[k] in multiset(s);
        var a :| 0 <= a < |s| && s[a] == u[j];
        var b :| 0 <= b < |s| && s[b] == u[k];
      }
    }
  }

  /** Different contacts can be put in the order of their distance. */
  lemma {:induction false} Arrange(id: Key, s: seq<Contact>) returns (l: seq<Contact>)
    requires DistinctIds(s)
    ensures Sorted(id, l) && Reorders(l, s)
  {
    hide Closer, Place;
    if s == [] {
      l := [];
    } else {
      var c, t := s[0], s[1..];
      assert forall k :: 0 <= k < |t| ==> t[k] == s[k + 1];
      var m := Arrange(id, t);
      assert s == [c] + t;
      forall k | 0 <= k < |m| ensures m[k].id != c.id {
        assert m[k] in multiset(t);
      }
      var i := Place(id, m, c.id);
      InsertSorted(id, m, c, |m| + 1);
      l := m[..i] + [c] + m[i..];
      assert m == m[..i] + m[i..];
    }
  }

  function Dead(s: seq<Contact>, stale: set<Contact>): seq<Contact> {
    if s == [] then [] else (if s[0] in stale then [s[0]] else []) + Dead(s[1..], stale)
  }

  lemma {:induction false} LiveAndDead(s: seq<Contact>, stale: set<Contact>)
    ensures multiset(Live(s, stale)) + multiset(Dead(s, stale)) == multiset(s)
    ensures Live(Dead(s, stale), stale) == []
  {
    if s != [] {
      assert s == [s[0]] + s[1..];
      LiveAndDead(s[1..], stale);
      var l, d := Live(s[1..], stale), Dead(s[1..], stale);
      if s[0] in stale {
        assert ([s[0]] + d)[1..] == d;
        assert Live(s, stale) == l && Dead(s, stale) == [s[0]] + d;
      } else {
        assert Live(s, stale) == [s[0]] + l && Dead(s, stale) == d;
      }
    }
  }

  lemma {:induction false} OnlyLive(s: seq<Contact>, stale: set<Contact>)
    requires forall k :: 0 <= k < |s| ==> s[k] !in stale
    ensures Live(s, stale) == s
  {
    if s != [] { OnlyLive(s[1..], stale); }
  }

  lemma {:induction false} LiveDistinct(s: seq<Contact>, stale: set<Contact>)
    requires DistinctIds(s)
    ensures DistinctIds(Live(s, stale))
  {
    if s != [] {
      var t := s[1..];
      assert forall k :: 0 <= k < |t| ==> t[k] == s[k + 1];
      LiveDistinct(t, stale);
      LiveIs(t, stale);
      assert forall k :: 0 <= k < |Live(t, stale)| ==> Live(t, stale)[k] in t;
    }
  }

  /** Stale contacts of a bucket make no difference to what is collected. */
  lemma {:induction false} PickLive(id: Key, s: seq<Contact>, stale: set<Contact>, qty: nat)
    ensures Pick(id, s, stale, qty) == Pick(id, Live(s, stale), {}, qty)
  {
    hide Closer, Replace;
    if s != [] {
      var t, c := s[..|s| - 1], s[|s| - 1];
      LiveLast(s, stale);
      PickLive(id, t, stale, qty);
      if c !in stale { assert (Live(t, stale) + [c])[..|Live(t, stale)|] == Live(t, stale); }
      else { assert Live(t, stale) + [] == Live(t, stale); }
    }
  }

  /** `s` sorted by distance, but with the nearest one behind the next `qty`. */
  function NearestLate(s: seq<Contact>, qty: nat): seq<Contact>
    requires qty < |s|
  {
    s[1..qty + 1] + [s[0]] + s[qty + 1..]
  }

  lemma NearestLateReorders(s: seq<Contact>, qty: nat)
    requires qty < |s|
    ensures Reorders(NearestLate(s, qty), s)
  {
    assert s == [s[0]] + s[1..qty + 1] + s[qty + 1..];
  }

  /**
    With more live contacts than wanted and at least two wanted, the contacts
    of a bucket can always be arranged such that one of the nearest is missed.
   */
  lemma PickMisses(id: Key, s: seq<Contact>, stale: set<Contact>, qty: nat) returns (u: seq<Contact>)
    requires DistinctIds(s) && 2 <= qty < |Live(s, stale)|
    ensures Reorders(u, s) && !Exact(id, u, stale, Pick(id, u, stale, qty))
  {
    hide Closer, Live, Dead, Pick, NearestLate;
    LiveDistinct(s, stale);
    var l := Arrange(id, Live(s, stale));
    assert |l| == |multiset(l)| == |multiset(Live(s, stale))| == |Live(s, stale)|;
    var v, d := NearestLate(l, qty), Dead(s, stale);
    NearestLateReorders(l, qty);
    LiveAndDead(s, stale);
    u := v + d;
    forall k | 0 <= k < |v| ensures v[k] !in stale {
      assert v[k] in multiset(Live(s, stale));
      LiveIs(s, stale);
    }
    LiveConcat(v, d, stale);
    OnlyLive(v, stale);
    assert v + [] == v;
    PickLive(id, u, stale, qty);
    MissedInSorted(id, l, qty);
    ExactOfLive(id, v, d, stale, Pick(id, u, stale, qty));
  }

  lemma MissedInSorted(id: Key, l: seq<Contact>, qty: nat)
    requires Sorted(id, l) && 2 <= qty < |l|
    ensures !Exact(id, NearestLate(l, qty), {}, Pick(id, NearestLate(l, qty), {}, qty))
  {
    hide Exact, Pick;
    PickMissesSorted(id, l, qty);
  }

  lemma ExactOfLive(id: Key, v: seq<Contact>, d: seq<Contact>, stale: set<Contact>, r: seq<Contact>)
    requires forall k :: 0 <= k < |v| ==> v[k] !in stale
    ensures Exact(id, v + d, stale, r) ==> Exact(id, v, {}, r)
  {
    hide Closer;
    assert forall j :: 0 <= j < |v| ==> (v + d)[j] == v[j];
  }

  /**
    The contacts of a bucket give exactly the nearest ones in every order they
    may be in if and only if one is wanted, or none, or there is room for all.
   */
  lemma PickExactIff(id: Key, s: seq<Contact>, stale: set<Contact>, qty: nat)
    requires DistinctIds(s)
    ensures (forall u :: Reorders(u, s) ==> Exact(id, u, stale, Pick(id, u, stale, qty)))
            <==> qty <= 1 || |Live(s, stale)| <= qty
  {
    hide Closer, Live, Pick, Exact;
    if qty <= 1 || |Live(s, stale)| <= qty {
      forall u | Reorders(u, s) ensures Exact(id, u, stale, Pick(id, u, stale, qty)) {
        ReordersDistinct(u, s);
        LiveReorders(u, s, stale);
        PickExact(id, u, stale, qty);
      }
    } else {
      var u := PickMisses(id, s, stale, qty);
    }
  }
}
