/** What the routing table keeps, for every sequence of additions and removals. */
module RoutingSafety {
  import opened NodeId
  import opened Nearest
  import opened RoutingTrie

  // ---------------------------------------------------------------- the invariant

  ghost predicate OnPath(local: Key, s: seq<Contact>, d: nat, x: nat)
    requires d <= ID_BITS
  {
    forall k :: 0 <= k < |s| ==> PathIndex(Dist(local, s[k].id), d) == x
  }

  ghost predicate DistinctIds(s: seq<Contact>) {
    forall j, k :: 0 <= j < k < |s| ==> s[j].id != s[k].id
  }

  /**
    Every contact is in the bucket its distance leads to, buckets are bounded
    and without repetitions, only nodes that may split did, and only buckets
    that can never split cache anything.
   */
  ghost predicate Inv(p: Params, t: Trie, local: Key, d: nat, x: nat)
    requires p.Valid() && d < ID_BITS
  {
    match t
    case Space(m0, m1) =>
      MaySplit(p, d, x) && Inv(p, m0, local, d + 1, 2 * x) && Inv(p, m1, local, d + 1, 2 * x + 1)
    case Bucket(contacts, cache) =>
      && |contacts| <= p.bucket && |cache| <= p.cache
      && OnPath(local, contacts, d, x) && OnPath(local, cache, d, x)
      && DistinctIds(contacts) && DistinctIds(cache)
      && (cache != [] ==> !MaySplit(p, d, x))
  }

  lemma {:induction false} InvDepths(p: Params, t: Trie, local: Key, d: nat, x: nat)
    requires p.Valid() && d < ID_BITS && Inv(p, t, local, d, x)
    ensures Depths(t, d)
  {
    if t.Space? {
      InvDepths(p, t.m0, local, d + 1, 2 * x);
      InvDepths(p, t.m1, local, d + 1, 2 * x + 1);
    }
  }

  lemma PathStep(dist: Key, d: nat, x: nat)
    requires d < ID_BITS && PathIndex(dist, d) == x
    ensures PathIndex(dist, d + 1) == if Bit(dist, d) then 2 * x + 1 else 2 * x
  {
  }

  // ---------------------------------------------------------------- lists of contacts

  /** What is on one side: contacts of the list, each once, one step further down. */
  lemma {:induction false} SideIs(s: seq<Contact>, local: Key, d: nat, x: nat, one: bool)
    requires d < ID_BITS && OnPath(local, s, d, x) && DistinctIds(s)
    ensures var r := Side(s, local, d, one);
            && |r| <= |s| && DistinctIds(r) && OnPath(local, r, d + 1, if one then 2 * x + 1 else 2 * x)
            && forall k :: 0 <= k < |r| ==> r[k] in s
  {
    hide Bit, Dist, PathIndex;
    if s != [] {
      var t := s[1..];
      assert forall k :: 0 <= k < |t| ==> t[k] == s[k + 1];
      SideIs(t, local, d, x, one);
      PathStep(Dist(local, s[0].id), d, x);
      var u := Side(t, local, d, one);
      assert forall k :: 0 <= k < |u| ==> u[k] in t;
    }
  }

  /** Everybody is on one side. */
  lemma {:induction false} SidesCover(s: seq<Contact>, local: Key, d: nat)
    requires d < ID_BITS
    ensures |Side(s, local, d, false)| + |Side(s, local, d, true)| == |s|
    ensures forall k :: 0 <= k < |s| ==> s[k] in Side(s, local, d, Bit(Dist(local, s[k].id), d))
  {
    hide Bit, Dist;
    if s != [] {
      var t := s[1..];
      SidesCover(t, local, d);
      forall k | 0 <= k < |s| ensures s[k] in Side(s, local, d, Bit(Dist(local, s[k].id), d)) {
        if k > 0 { assert t[k - 1] == s[k]; }
      }
    }
  }

  lemma {:induction false} WithoutIdIs(s: seq<Contact>, id: Key)
    requires DistinctIds(s) && HasId(s, id)
    ensures var r := WithoutId(s, id);
            && |r| == |s| - 1 && DistinctIds(r) && !HasId(r, id)
            && (forall k :: 0 <= k < |r| ==> r[k] in s)
            && (forall k :: 0 <= k < |s| && s[k].id != id ==> s[k] in r)
  {
    var t := s[1..];
    assert forall k :: 0 <= k < |t| ==> t[k] == s[k + 1];
    if s[0].id != id {
      var k :| 0 <= k < |s| && s[k].id == id;
      assert t[k - 1].id == id;
      WithoutIdIs(t, id);
      var r := WithoutId(t, id);
      assert forall k :: 0 <= k < |r| ==> r[k] in t;
    }
  }

  // ---------------------------------------------------------------- splitting

  /** A bucket that may split has nothing cached, so a split only distributes its contacts. */
  lemma SplitKeeps(p: Params, t: Trie, local: Key, d: nat, x: nat)
    requires p.Valid() && d < ID_BITS && t.Bucket? && Inv(p, t, local, d, x) && MaySplit(p, d, x)
    ensures var u := Split(p, t, local, d);
            && u.Space? && u.m0.Bucket? && u.m1.Bucket? && Inv(p, u, local, d, x)
            && |All(u)| == |All(t)|
            && (forall k :: 0 <= k < |All(t)| ==> All(t)[k] in All(u))
            && (forall k :: 0 <= k < |All(u)| ==> All(u)[k] in All(t))
  {
    hide PathIndex, MaySplit;
    SideIs(t.contacts, local, d, x, false);
    SideIs(t.contacts, local, d, x, true);
    SidesCover(t.contacts, local, d);
    assert t.cache == [];
    var c0, c1 := Side(t.contacts, local, d, false), Side(t.contacts, local, d, true);
    assert c0 + [] == c0 && c1 + [] == c1;
    var u := Split(p, t, local, d);
    assert All(u) == c0 + c1;
  }

  // ---------------------------------------------------------------- adding

  /** `b` has everything of `a`, and nothing else but `c`. */
  ghost predicate Grown(a: seq<Contact>, b: seq<Contact>, c: Contact) {
    && (forall k :: 0 <= k < |a| ==> a[k] in b)
    && (forall k :: 0 <= k < |b| ==> b[k] in a || b[k] == c)
  }

  /** `r` stands for the identifier of `c` in a table that grew from `a` to `b`. */
  ghost predicate Stands(a: seq<Contact>, b: seq<Contact>, c: Contact, r: Contact) {
    && r.id == c.id
    && (HasId(a, c.id) ==> r in a && |b| == |a|)
    && (!HasId(a, c.id) ==> (r == c && r in b && |b| == |a| + 1) || |b| == |a|)
  }

  lemma AddToBucket(p: Params, t: Trie, local: Key, d: nat, x: nat, c: Contact)
    requires p.Valid() && d < ID_BITS && t.Bucket? && Inv(p, t, local, d, x) && PathIndex(Dist(local, c.id), d) == x
    requires HasId(t.contacts, c.id) || |t.contacts| < p.bucket || !MaySplit(p, d, x)
    ensures var (u, r) := AddNode(p, t, local, d, x, c);
            Inv(p, u, local, d, x) && Grown(All(t), All(u), c) && Stands(All(t), All(u), c, r)
  {
    hide PathIndex, MaySplit, Dist;
    if HasId(t.contacts, c.id) {
      WithoutIdIs(t.contacts, c.id);
      Readded(t.contacts, c.id);
    } else if |t.contacts| < p.bucket {
      Appended(t.contacts, c);
    } else if HasId(t.cache, c.id) {
      WithoutIdIs(t.cache, c.id);
      Readded(t.cache, c.id);
    } else {
      Appended(t.cache, c);
    }
  }

  /** Moving a contact to the end keeps everybody. */
  lemma Readded(s: seq<Contact>, id: Key)
    requires DistinctIds(s) && HasId(s, id)
    ensures var r := WithoutId(s, id) + [ById(s, id)];
            && |r| == |s| && DistinctIds(r)
            && (forall k :: 0 <= k < |s| ==> s[k] in r)
            && (forall k :: 0 <= k < |r| ==> r[k] in s)
  {
    WithoutIdIs(s, id);
    var w, c := WithoutId(s, id), ById(s, id);
    var r := w + [c];
    assert r[|w|] == c;
    forall k | 0 <= k < |s| ensures s[k] in r {
      if s[k].id == id {
        var j :| 0 <= j < |s| && s[j] == c;
        assert s[k] == c;
      }
    }
  }

  lemma Appended(s: seq<Contact>, c: Contact)
    requires DistinctIds(s) && !HasId(s, c.id)
    ensures DistinctIds(s + [c]) && (s != [] ==> DistinctIds(s[1..] + [c]))
    ensures (s + [c])[|s|] == c
  {
  }

  /** Adding keeps the invariant, loses nobody and repeats nobody. */
  lemma {:induction false} AddKeeps(p: Params, t: Trie, local: Key, d: nat, x: nat, c: Contact)
    requires p.Valid() && d < ID_BITS && Depths(t, d) && Inv(p, t, local, d, x) && PathIndex(Dist(local, c.id), d) == x
    ensures var (u, r) := AddNode(p, t, local, d, x, c);
            Inv(p, u, local, d, x) && Grown(All(t), All(u), c) && Stands(All(t), All(u), c, r)
    decreases ID_BITS - d, 1
  {
    hide PathIndex, Dist, Grown, Stands, Split;
    match t
    case Space(m0, m1) =>
      AddBelowKeeps(p, m0, m1, local, d, x, c);
    case Bucket(contacts, cache) =>
      if HasId(contacts, c.id) || |contacts| < p.bucket || !MaySplit(p, d, x) {
        AddToBucket(p, t, local, d, x, c);
      } else {
        SplitKeeps(p, t, local, d, x);
        var s := Split(p, t, local, d);
        AddBelowKeeps(p, s.m0, s.m1, local, d, x, c);
        var (u, r) := AddNode(p, t, local, d, x, c);
        GrownFrom(All(t), All(s), All(u), c, r);
      }
  }

  lemma GrownFrom(a: seq<Contact>, s: seq<Contact>, b: seq<Contact>, c: Contact, r: Contact)
    requires |a| == |s| && (forall k :: 0 <= k < |a| ==> a[k] in s) && (forall k :: 0 <= k < |s| ==> s[k] in a)
    requires Grown(s, b, c) && Stands(s, b, c, r)
    ensures Grown(a, b, c) && Stands(a, b, c, r)
  {
    if k :| 0 <= k < |s| && s[k].id == c.id { assert s[k] in a; }
    if k :| 0 <= k < |a| && a[k].id == c.id { assert a[k] in s; }
  }

  lemma {:induction false} AddBelowKeeps(p: Params, m0: Trie, m1: Trie, local: Key, d: nat, x: nat, c: Contact)
    requires p.Valid() && d < ID_BITS - 1 && Depths(m0, d + 1) && Depths(m1, d + 1)
    requires Inv(p, Space(m0, m1), local, d, x) && PathIndex(Dist(local, c.id), d) == x
    ensures var (u, r) := AddBelow(p, m0, m1, local, d, x, c);
            Inv(p, u, local, d, x) && Grown(All(m0) + All(m1), All(u), c) && Stands(All(m0) + All(m1), All(u), c, r)
    decreases ID_BITS - d, 0
  {
    hide PathIndex, MaySplit, Dist, Grown, Stands, Depths;
    PathStep(Dist(local, c.id), d, x);
    if Bit(Dist(local, c.id), d) {
      AddKeeps(p, m1, local, d + 1, 2 * x + 1, c);
      var (t, r) := AddNode(p, m1, local, d + 1, 2 * x + 1, c);
      OtherSide(p, m0, local, d + 1, 2 * x, c, 2 * x + 1);
      GrownRight(All(m0), All(m1), All(t), c, r);
    } else {
      AddKeeps(p, m0, local, d + 1, 2 * x, c);
      var (t, r) := AddNode(p, m0, local, d + 1, 2 * x, c);
      OtherSide(p, m1, local, d + 1, 2 * x + 1, c, 2 * x);
      GrownLeft(All(m0), All(t), All(m1), c, r);
    }
  }

  /** All contacts of a node are on its path. */
  lemma {:induction false} AllOnPath(p: Params, t: Trie, local: Key, d: nat, x: nat)
    requires p.Valid() && d < ID_BITS && Inv(p, t, local, d, x)
    ensures OnPath(local, All(t), d, x)
  {
    hide Dist;
    if t.Space? {
      AllOnPath(p, t.m0, local, d + 1, 2 * x);
      AllOnPath(p, t.m1, local, d + 1, 2 * x + 1);
    }
  }

  /** An identifier that leads elsewhere is not in this node. */
  lemma OtherSide(p: Params, t: Trie, local: Key, d: nat, x: nat, c: Contact, y: nat)
    requires p.Valid() && d < ID_BITS && Inv(p, t, local, d, x) && PathIndex(Dist(local, c.id), d) == y != x
    ensures !HasId(All(t), c.id)
  {
    hide PathIndex, Dist, Inv;
    AllOnPath(p, t, local, d, x);
  }

  lemma GrownRight(a: seq<Contact>, b: seq<Contact>, b': seq<Contact>, c: Contact, r: Contact)
    requires Grown(b, b', c) && Stands(b, b', c, r) && !HasId(a, c.id)
    ensures Grown(a + b, a + b', c) && Stands(a + b, a + b', c, r)
  {
    HasIdConcat(a, b, c.id);
  }

  lemma GrownLeft(a: seq<Contact>, a': seq<Contact>, b: seq<Contact>, c: Contact, r: Contact)
    requires Grown(a, a', c) && Stands(a, a', c, r) && !HasId(b, c.id)
    ensures Grown(a + b, a' + b, c) && Stands(a + b, a' + b, c, r)
  {
    HasIdConcat(a, b, c.id);
  }

  lemma HasIdConcat(a: seq<Contact>, b: seq<Contact>, id: Key)
    ensures HasId(a + b, id) <==> HasId(a, id) || HasId(b, id)
  {
    if k :| 0 <= k < |a| && a[k].id == id { assert (a + b)[k].id == id; }
    if k :| 0 <= k < |b| && b[k].id == id { assert (a + b)[|a| + k].id == id; }
  }

  // ---------------------------------------------------------------- removing

  function Cached(t: Trie): seq<Contact> {
    match t
    case Space(m0, m1) => Cached(m0) + Cached(m1)
    case Bucket(_, cache) => cache
  }

  /** `b` is `a` without its contact `id`. */
  ghost predicate Shrunk(a: seq<Contact>, b: seq<Contact>, id: Key) {
    && |b| == |a| - 1 && !HasId(b, id)
    && (forall k :: 0 <= k < |b| ==> b[k] in a)
    && (forall k :: 0 <= k < |a| && a[k].id != id ==> a[k] in b)
  }

  /** Contact `id` is gone from `b`, or from the cache when `a` did not have it; `ok` tells whether either had it. */
  ghost predicate Took(a: seq<Contact>, cached: seq<Contact>, b: seq<Contact>, ok: bool, id: Key) {
    && (ok <==> HasId(a, id) || HasId(cached, id))
    && (if HasId(a, id) then Shrunk(a, b, id) else a == b)
  }

  lemma {:induction false} RemoveKeeps(p: Params, t: Trie, local: Key, d: nat, x: nat, id: Key)
    requires p.Valid() && d < ID_BITS && Depths(t, d) && Inv(p, t, local, d, x) && PathIndex(Dist(local, id), d) == x
    ensures var (u, ok) := RemoveNode(t, local, d, id);
            Inv(p, u, local, d, x) && Took(All(t), Cached(t), All(u), ok, id)
    decreases t
  {
    hide Dist, PathIndex, Took, Bit, HasId;
    match t
    case Bucket(contacts, cache) => RemoveFromBucket(p, t, local, d, x, id);
    case Space(m0, m1) =>
      PathStep(Dist(local, id), d, x);
      if Bit(Dist(local, id), d) {
        RemoveKeeps(p, m1, local, d + 1, 2 * x + 1, id);
        var (u, ok) := RemoveNode(m1, local, d + 1, id);
        RemovedRight(p, m0, m1, u, local, d, x, ok, id);
      } else {
        RemoveKeeps(p, m0, local, d + 1, 2 * x, id);
        var (u, ok) := RemoveNode(m0, local, d + 1, id);
        RemovedLeft(p, m0, u, m1, local, d, x, ok, id);
      }
  }

  lemma RemovedRight(p: Params, m0: Trie, m1: Trie, u: Trie, local: Key, d: nat, x: nat, ok: bool, id: Key)
    requires p.Valid() && d < ID_BITS && Inv(p, Space(m0, m1), local, d, x)
             && PathIndex(Dist(local, id), d + 1) == 2 * x + 1
    requires Inv(p, u, local, d + 1, 2 * x + 1) && Took(All(m1), Cached(m1), All(u), ok, id)
    ensures Inv(p, Space(m0, u), local, d, x)
            && Took(All(m0) + All(m1), Cached(m0) + Cached(m1), All(m0) + All(u), ok, id)
  {
    hide Dist, PathIndex, Took, HasId, All, Cached, OnPath, DistinctIds;
    Elsewhere(p, m0, local, d + 1, 2 * x, id, 2 * x + 1);
    TookRight(All(m0), All(m1), All(u), Cached(m0), Cached(m1), ok, id);
  }

  lemma RemovedLeft(p: Params, m0: Trie, u: Trie, m1: Trie, local: Key, d: nat, x: nat, ok: bool, id: Key)
    requires p.Valid() && d < ID_BITS && Inv(p, Space(m0, m1), local, d, x)
             && PathIndex(Dist(local, id), d + 1) == 2 * x
    requires Inv(p, u, local, d + 1, 2 * x) && Took(All(m0), Cached(m0), All(u), ok, id)
    ensures Inv(p, Space(u, m1), local, d, x)
            && Took(All(m0) + All(m1), Cached(m0) + Cached(m1), All(u) + All(m1), ok, id)
  {
    hide Dist, PathIndex, Took, HasId, All, Cached, OnPath, DistinctIds;
    Elsewhere(p, m1, local, d + 1, 2 * x + 1, id, 2 * x);
    TookLeft(All(m0), All(u), All(m1), Cached(m0), Cached(m1), ok, id);
  }

  lemma RemoveFromBucket(p: Params, t: Trie, local: Key, d: nat, x: nat, id: Key)
    requires p.Valid() && d < ID_BITS && t.Bucket? && Inv(p, t, local, d, x)
    ensures var (u, ok) := RemoveNode(t, local, d, id);
            Inv(p, u, local, d, x) && Took(All(t), Cached(t), All(u), ok, id)
  {
    hide Dist, MaySplit, Shrunk, PathIndex;
    if HasId(t.contacts, id) {
      WithoutIdIs(t.contacts, id);
      ShrunkIs(t.contacts, id);
    } else if HasId(t.cache, id) {
      WithoutIdIs(t.cache, id);
    }
  }

  lemma ShrunkIs(s: seq<Contact>, id: Key)
    requires DistinctIds(s) && HasId(s, id)
    ensures Shrunk(s, WithoutId(s, id), id)
  {
    WithoutIdIs(s, id);
  }

  lemma {:induction false} CachedOnPath(p: Params, t: Trie, local: Key, d: nat, x: nat)
    requires p.Valid() && d < ID_BITS && Inv(p, t, local, d, x)
    ensures OnPath(local, Cached(t), d, x)
  {
    hide Dist;
    if t.Space? {
      CachedOnPath(p, t.m0, local, d + 1, 2 * x);
      CachedOnPath(p, t.m1, local, d + 1, 2 * x + 1);
    }
  }

  /** An identifier that leads elsewhere is neither in this node nor cached there. */
  lemma Elsewhere(p: Params, t: Trie, local: Key, d: nat, x: nat, id: Key, y: nat)
    requires p.Valid() && d < ID_BITS && Inv(p, t, local, d, x) && PathIndex(Dist(local, id), d) == y != x
    ensures !HasId(All(t), id) && !HasId(Cached(t), id)
  {
    hide PathIndex, Dist, Inv;
    AllOnPath(p, t, local, d, x);
    CachedOnPath(p, t, local, d, x);
  }

  lemma TookRight(a: seq<Contact>, b: seq<Contact>, b': seq<Contact>, ca: seq<Contact>, cb: seq<Contact>, ok: bool,
                  id: Key)
    requires !HasId(a, id) && !HasId(ca, id) && Took(b, cb, b', ok, id)
    ensures Took(a + b, ca + cb, a + b', ok, id)
  {
    hide HasId;
    HasIdConcat(a, b, id);
    HasIdConcat(a, b', id);
    HasIdConcat(ca, cb, id);
  }

  lemma TookLeft(a: seq<Contact>, a': seq<Contact>, b: seq<Contact>, ca: seq<Contact>, cb: seq<Contact>, ok: bool,
                 id: Key)
    requires !HasId(b, id) && !HasId(cb, id) && Took(a, ca, a', ok, id)
    ensures Took(a + b, ca + cb, a' + b, ok, id)
  {
    hide HasId;
    HasIdConcat(a, b, id);
    HasIdConcat(a', b, id);
    HasIdConcat(ca, cb, id);
  }

  // ---------------------------------------------------------------- looking up

  /** No identifier is in the table twice. */
  lemma {:induction false} AllDistinct(p: Params, t: Trie, local: Key, d: nat, x: nat)
    requires p.Valid() && d < ID_BITS && Inv(p, t, local, d, x)
    ensures DistinctIds(All(t))
  {
    if t.Space? {
      AllDistinct(p, t.m0, local, d + 1, 2 * x);
      AllDistinct(p, t.m1, local, d + 1, 2 * x + 1);
      AllOnPath(p, t.m0, local, d + 1, 2 * x);
      AllOnPath(p, t.m1, local, d + 1, 2 * x + 1);
      hide Dist, PathIndex, Inv;
      var a, b := All(t.m0), All(t.m1);
      forall j, k | 0 <= j < |a| && 0 <= k < |b| ensures a[j].id != b[k].id {
        assert PathIndex(Dist(local, a[j].id), d + 1) != PathIndex(Dist(local, b[k].id), d + 1);
      }
    }
  }

  /** Following the bits of the distance finds what a search through all contacts finds. */
  lemma {:induction false} FindIsSearch(p: Params, t: Trie, local: Key, d: nat, x: nat, id: Key)
    requires p.Valid() && d < ID_BITS && Depths(t, d) && Inv(p, t, local, d, x) && PathIndex(Dist(local, id), d) == x
    ensures FindNode(t, local, d, id) == if HasId(All(t), id) then Somebody(ById(All(t), id)) else Nobody
    decreases t
  {
    hide Dist, PathIndex, HasId;
    if t.Space? {
      PathStep(Dist(local, id), d, x);
      HasIdConcat(All(t.m0), All(t.m1), id);
      if Bit(Dist(local, id), d) {
        FindIsSearch(p, t.m1, local, d + 1, 2 * x + 1, id);
        Elsewhere(p, t.m0, local, d + 1, 2 * x, id, 2 * x + 1);
        if HasId(All(t.m1), id) { ByIdRight(All(t.m0), All(t.m1), id); }
      } else {
        FindIsSearch(p, t.m0, local, d + 1, 2 * x, id);
        if HasId(All(t.m0), id) { ByIdLeft(All(t.m0), All(t.m1), id); }
        Elsewhere(p, t.m1, local, d + 1, 2 * x + 1, id, 2 * x);
      }
    }
  }

  lemma {:induction false} ByIdRight(a: seq<Contact>, b: seq<Contact>, id: Key)
    requires !HasId(a, id) && HasId(b, id)
    ensures HasId(a + b, id) && ById(a + b, id) == ById(b, id)
  {
    HasIdConcat(a, b, id);
    if a == [] {
      assert a + b == b;
    } else {
      assert forall k :: 0 <= k < |a| - 1 ==> a[1..][k] == a[k + 1];
      ByIdRight(a[1..], b, id);
      assert (a + b)[1..] == a[1..] + b;
    }
  }

  lemma {:induction false} ByIdLeft(a: seq<Contact>, b: seq<Contact>, id: Key)
    requires HasId(a, id)
    ensures HasId(a + b, id) && ById(a + b, id) == ById(a, id)
  {
    HasIdConcat(a, b, id);
    if a[0].id != id {
      var k :| 0 <= k < |a| && a[k].id == id;
      assert a[1..][k - 1].id == id;
      ByIdLeft(a[1..], b, id);
      assert (a + b)[1..] == a[1..] + b;
    }
  }

  lemma {:induction false} LiveConcat(a: seq<Contact>, b: seq<Contact>, stale: set<Contact>)
    ensures Live(a + b, stale) == Live(a, stale) + Live(b, stale)
  {
    if a == [] {
      assert a + b == b;
    } else {
      var t := a[1..];
      LiveConcat(t, b, stale);
      assert a + b == [a[0]] + (t + b);
      LiveHead(a[0], t, stale);
      LiveHead(a[0], t + b, stale);
      assert a == [a[0]] + t;
    }
  }

  lemma LiveHead(c: Contact, t: seq<Contact>, stale: set<Contact>)
    ensures Live([c] + t, stale) == (if c in stale then [] else [c]) + Live(t, stale)
  {
    assert ([c] + t)[1..] == t;
  }

  /** The two ways to list the table agree with the contacts it has. */
  lemma {:induction false} ListingsAgree(t: Trie, stale: set<Contact>)
    ensures GetContacts(t, stale) == Live(All(t), stale) && CountContacts(t) == |All(t)|
  {
    if t.Space? {
      ListingsAgree(t.m0, stale);
      ListingsAgree(t.m1, stale);
      LiveConcat(All(t.m0), All(t.m1), stale);
    }
  }

  // ---------------------------------------------------------------- whole runs

  datatype Step = Add(c: Contact) | Remove(id: Key)

  /** The table after the steps, in order, from the empty one. */
  function Run(p: Params, local: Key, steps: seq<Step>): (t: Trie)
    requires p.Valid()
    ensures Depths(t, 0) && Inv(p, t, local, 0, 0)
  {
    if steps == [] then Bucket([], [])
    else
      var t := Run(p, local, steps[..|steps| - 1]);
      match steps[|steps| - 1]
      case Add(c) =>
        AddKeeps(p, t, local, 0, 0, c);
        InvDepths(p, AddNode(p, t, local, 0, 0, c).0, local, 0, 0);
        AddNode(p, t, local, 0, 0, c).0
      case Remove(id) =>
        RemoveKeeps(p, t, local, 0, 0, id);
        InvDepths(p, RemoveNode(t, local, 0, id).0, local, 0, 0);
        RemoveNode(t, local, 0, id).0
  }

  /**
    Whatever was added and removed before: no identifier is in the table
    twice, looking up follows the bits to the contact a full search finds, and
    the listings show exactly the contacts.
   */
  lemma TableIsIndex(p: Params, local: Key, steps: seq<Step>, id: Key, stale: set<Contact>)
    requires p.Valid()
    ensures var t := Run(p, local, steps);
            && DistinctIds(All(t))
            && FindNode(t, local, 0, id) == (if HasId(All(t), id) then Somebody(ById(All(t), id)) else Nobody)
            && GetContacts(t, stale) == Live(All(t), stale) && CountContacts(t) == |All(t)|
  {
    hide DistinctIds, HasId, Dist, Inv, Run, Depths;
    var t := Run(p, local, steps);
    AllDistinct(p, t, local, 0, 0);
    FindIsSearch(p, t, local, 0, 0, id);
    ListingsAgree(t, stale);
  }
}
