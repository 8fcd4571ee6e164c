/** That the routing table grows: where an added identifier goes, and when it has to wait in a cache. */
module RoutingGrowth {
  import opened NodeId
  import opened Nearest
  import opened RoutingTrie
  import opened RoutingSafety

  /** The bucket that the bits of a distance lead to, and its depth. */
  function LeafOf(t: Trie, local: Key, d: nat, id: Key): (r: (Trie, nat))
    requires Depths(t, d)
    ensures r.0.Bucket? && r.1 >= d
  {
    match t
    case Bucket(_, _) => (t, d)
    case Space(m0, m1) =>
      if Bit(Dist(local, id), d) then LeafOf(m1, local, d + 1, id) else LeafOf(m0, local, d + 1, id)
  }

  /** A bucket at this place of this depth stays one: the identifiers end, or the table is wide enough. */
  predicate Final(p: Params, depth: nat, index: nat)
    requires p.Valid()
  {
    depth >= ID_BITS - 1 || (depth >= p.base && index >= Pow(2, depth % p.b))
  }

  /** `id` is a contact of the bucket, or waits at the end of the cache of a full one that stays. */
  predicate Placed(p: Params, leaf: Trie, depth: nat, local: Key, id: Key)
    requires p.Valid() && leaf.Bucket? && depth <= ID_BITS
  {
    || HasId(leaf.contacts, id)
    || (|leaf.contacts| == p.bucket && Final(p, depth, PathIndex(Dist(local, id), depth))
        && leaf.cache != [] && leaf.cache[|leaf.cache| - 1].id == id)
  }

  lemma FoundLast(s: seq<Contact>, c: Contact, id: Key)
    requires c.id == id
    ensures HasId(s + [c], id)
  {
    assert (s + [c])[|s|] == c;
  }

  lemma BucketPlaces(p: Params, t: Trie, local: Key, d: nat, x: nat, c: Contact)
    requires p.Valid() && d < ID_BITS && t.Bucket? && Inv(p, t, local, d, x) && PathIndex(Dist(local, c.id), d) == x
    requires HasId(t.contacts, c.id) || |t.contacts| < p.bucket || !MaySplit(p, d, x)
    ensures var u := AddNode(p, t, local, d, x, c).0; u.Bucket? && Placed(p, u, d, local, c.id)
  {
    hide PathIndex, Dist, WithoutId;
    if HasId(t.contacts, c.id) {
      FoundLast(WithoutId(t.contacts, c.id), ById(t.contacts, c.id), c.id);
    } else if |t.contacts| < p.bucket {
      FoundLast(t.contacts, c, c.id);
    }
  }

  /** After an addition the identifier is in the bucket it leads to, unless that is full and stays a bucket. */
  lemma {:induction false} AddPlaces(p: Params, t: Trie, local: Key, d: nat, x: nat, c: Contact)
    requires p.Valid() && d < ID_BITS && Depths(t, d) && Inv(p, t, local, d, x) && PathIndex(Dist(local, c.id), d) == x
    ensures var u := AddNode(p, t, local, d, x, c).0;
            && Depths(u, d)
            && var (leaf, e) := LeafOf(u, local, d, c.id); e < ID_BITS && Placed(p, leaf, e, local, c.id)
    decreases ID_BITS - d, 1
  {
    hide PathIndex, Dist, Placed, Split, Bit;
    AddKeeps(p, t, local, d, x, c);
    InvDepths(p, AddNode(p, t, local, d, x, c).0, local, d, x);
    match t
    case Space(m0, m1) => BelowPlaces(p, m0, m1, local, d, x, c);
    case Bucket(contacts, cache) =>
      if HasId(contacts, c.id) || |contacts| < p.bucket || !MaySplit(p, d, x) {
        BucketPlaces(p, t, local, d, x, c);
      } else {
        SplitKeeps(p, t, local, d, x);
        var s := Split(p, t, local, d);
        BelowPlaces(p, s.m0, s.m1, local, d, x, c);
      }
  }

  lemma {:induction false} BelowPlaces(p: Params, m0: Trie, m1: Trie, local: Key, d: nat, x: nat, c: Contact)
    requires p.Valid() && d < ID_BITS - 1 && Depths(m0, d + 1) && Depths(m1, d + 1)
    requires Inv(p, Space(m0, m1), local, d, x) && PathIndex(Dist(local, c.id), d) == x
    ensures var u := AddBelow(p, m0, m1, local, d, x, c).0;
            && Depths(u, d)
            && var (leaf, e) := LeafOf(u, local, d, c.id); e < ID_BITS && Placed(p, leaf, e, local, c.id)
    decreases ID_BITS - d, 0
  {
    hide PathIndex, MaySplit, Dist, Placed, Bit;
    PathStep(Dist(local, c.id), d, x);
    if Bit(Dist(local, c.id), d) {
      AddPlaces(p, m1, local, d + 1, 2 * x + 1, c);
    } else {
      AddPlaces(p, m0, local, d + 1, 2 * x, c);
    }
  }

  lemma {:induction false} LeafInAll(t: Trie, local: Key, d: nat, id: Key)
    requires Depths(t, d) && HasId(LeafOf(t, local, d, id).0.contacts, id)
    ensures HasId(All(t), id)
    decreases t
  {
    hide Dist, Bit;
    if t.Space? {
      var one := Bit(Dist(local, id), d);
      var m := if one then t.m1 else t.m0;
      LeafInAll(m, local, d + 1, id);
      var k :| 0 <= k < |All(m)| && All(m)[k].id == id;
      if one { assert (All(t.m0) + All(t.m1))[|All(t.m0)| + k] == All(m)[k]; }
      else { assert (All(t.m0) + All(t.m1))[k] == All(m)[k]; }
    }
  }

  /**
    After any run and one more addition: the table finds the identifier, unless
    its bucket is full, at the last depth or as deep as the base and beyond the
    first 2^(depth mod b) of its depth.
   */
  lemma AddFinds(p: Params, local: Key, steps: seq<Step>, c: Contact)
    requires p.Valid()
    ensures var t := Run(p, local, steps + [Add(c)]); var (leaf, e) := LeafOf(t, local, 0, c.id);
            && e < ID_BITS
            && (FindNode(t, local, 0, c.id) != Nobody
                || (|leaf.contacts| == p.bucket
                    && (e >= ID_BITS - 1 || (e >= p.base && PathIndex(Dist(local, c.id), e) >= Pow(2, e % p.b)))
                    && leaf.cache != [] && leaf.cache[|leaf.cache| - 1].id == c.id))
  {
    hide Inv, Depths, AddNode, Dist, HasId;
    var t, u := Run(p, local, steps), Run(p, local, steps + [Add(c)]);
    assert (steps + [Add(c)])[..|steps|] == steps;
    assert u == AddNode(p, t, local, 0, 0, c).0;
    hide Run;
    PathNone(Dist(local, c.id));
    AddPlaces(p, t, local, 0, 0, c);
    if HasId(LeafOf(u, local, 0, c.id).0.contacts, c.id) {
      LeafInAll(u, local, 0, c.id);
      FindIsSearch(p, u, local, 0, 0, c.id);
    }
  }

  lemma PathNone(dist: Key)
    ensures PathIndex(dist, 0) == 0
  {
  }

  // ---------------------------------------------------------------- where tables split

  /** Inner nodes may be split, and what has a cache may not. */
  ghost predicate WellSplit(p: Params, t: Trie, d: nat, x: nat)
    requires p.Valid()
  {
    match t
    case Space(m0, m1) => !Final(p, d, x) && WellSplit(p, m0, d + 1, 2 * x) && WellSplit(p, m1, d + 1, 2 * x + 1)
    case Bucket(_, cache) => cache != [] ==> Final(p, d, x)
  }

  lemma {:induction false} InvGrown(p: Params, t: Trie, local: Key, d: nat, x: nat)
    requires p.Valid() && d < ID_BITS && Inv(p, t, local, d, x)
    ensures WellSplit(p, t, d, x)
    decreases t
  {
    hide OnPath, DistinctIds, PathIndex, Pow;
    if t.Space? {
      InvGrown(p, t.m0, local, d + 1, 2 * x);
      InvGrown(p, t.m1, local, d + 1, 2 * x + 1);
    }
  }

  /** After any run nothing waits in the cache of a bucket that could be split, and nothing else was split. */
  lemma RunGrown(p: Params, local: Key, steps: seq<Step>)
    requires p.Valid()
    ensures WellSplit(p, Run(p, local, steps), 0, 0)
  {
    hide Inv, Run, WellSplit;
    InvGrown(p, Run(p, local, steps), local, 0, 0);
  }

  lemma SideFirst(s: seq<Contact>, local: Key, d: nat, one: bool)
    requires d < ID_BITS && s != []
    ensures Side(s, local, d, one)
            == (if Bit(Dist(local, s[0].id), d) == one then [s[0]] else []) + Side(s[1..], local, d, one)
  {
  }

  /** A side takes what is on it, one after the other: a split keeps the order of the contacts. */
  lemma {:induction false} SideOrders(a: seq<Contact>, b: seq<Contact>, local: Key, d: nat, one: bool)
    requires d < ID_BITS
    ensures Side(a + b, local, d, one) == Side(a, local, d, one) + Side(b, local, d, one)
    decreases |a|
  {
    if a == [] {
      assert a + b == b;
      assert Side(a, local, d, one) == [];
    } else {
      hide Bit, Dist, Side;
      assert (a + b)[0] == a[0] && (a + b)[1..] == a[1..] + b;
      SideFirst(a, local, d, one);
      SideFirst(a + b, local, d, one);
      SideOrders(a[1..], b, local, d, one);
      var x := if Bit(Dist(local, a[0].id), d) == one then [a[0]] else [];
      assert x + (Side(a[1..], local, d, one) + Side(b, local, d, one))
             == x + Side(a[1..], local, d, one) + Side(b, local, d, one);
    }
  }

  lemma SideOfOne(c: Contact, local: Key, d: nat, one: bool)
    requires d < ID_BITS
    ensures Side([c], local, d, one) == if Bit(Dist(local, c.id), d) == one then [c] else []
  {
    SideFirst([c], local, d, one);
    assert [c][1..] == [];
  }

  // ---------------------------------------------------------------- the most recent last

  lemma {:induction false} WithoutIdSplits(s: seq<Contact>, id: Key) returns (a: seq<Contact>, b: seq<Contact>)
    requires HasId(s, id)
    ensures s == a + [ById(s, id)] + b && WithoutId(s, id) == a + b && !HasId(a, id)
  {
    if s[0].id == id {
      a, b := [], s[1..];
    } else {
      var k :| 0 <= k < |s| && s[k].id == id;
      assert s[1..][k - 1].id == id;
      a, b := WithoutIdSplits(s[1..], id);
      a := [s[0]] + a;
    }
  }

  /** A contact added again moves to the end of its bucket; the others keep their order. */
  lemma {:induction false} KnownMoves(p: Params, t: Trie, local: Key, d: nat, x: nat, c: Contact)
    returns (a: seq<Contact>, b: seq<Contact>, s: Contact)
    requires p.Valid() && Depths(t, d) && HasId(LeafOf(t, local, d, c.id).0.contacts, c.id)
    ensures var (u, r) := AddNode(p, t, local, d, x, c); var leaf := LeafOf(t, local, d, c.id).0;
            && s.id == c.id && r == s && leaf.contacts == a + [s] + b
            && Depths(u, d) && LeafOf(u, local, d, c.id).0 == Bucket(a + b + [s], leaf.cache)
    decreases t
  {
    hide Dist, Bit, WithoutId;
    match t
    case Bucket(contacts, _) =>
      a, b := WithoutIdSplits(contacts, c.id);
      s := ById(contacts, c.id);
    case Space(m0, m1) =>
      if Bit(Dist(local, c.id), d) {
        a, b, s := KnownMoves(p, m1, local, d + 1, 2 * x + 1, c);
      } else {
        a, b, s := KnownMoves(p, m0, local, d + 1, 2 * x, c);
      }
  }

  /**
    A contact that finds no place in a bucket that stays: it is the last one
    cached, and whoever the cache forgets was its oldest, in a full cache that
    did not have the new one.
   */
  lemma CacheForgetsOldest(p: Params, t: Trie, local: Key, d: nat, x: nat, c: Contact)
    requires p.Valid() && d < ID_BITS && t.Bucket? && Inv(p, t, local, d, x)
    requires !HasId(t.contacts, c.id) && |t.contacts| == p.bucket && Final(p, d, x)
    ensures var (u, r) := AddNode(p, t, local, d, x, c);
            && u.Bucket? && u.contacts == t.contacts && 0 < |u.cache| <= p.cache
            && r.id == c.id && u.cache[|u.cache| - 1] == r
            && (HasId(t.cache, c.id) ==> r in t.cache)
            && forall k :: 0 <= k < |t.cache| && t.cache[k] !in u.cache ==>
                 k == 0 && |t.cache| == p.cache && !HasId(t.cache, c.id)
  {
    hide Dist, PathIndex, Pow;
    if HasId(t.cache, c.id) {
      WithoutIdIs(t.cache, c.id);
      var a, b := WithoutIdSplits(t.cache, c.id);
      var u := AddNode(p, t, local, d, x, c).0;
      assert u.cache == a + b + [ById(t.cache, c.id)];
      forall k | 0 <= k < |t.cache| ensures t.cache[k] in u.cache {
        assert t.cache[k] in a || t.cache[k] == ById(t.cache, c.id) || t.cache[k] in b;
      }
    } else if |t.cache| == p.cache {
      forall k | 0 < k < |t.cache| ensures t.cache[k] in t.cache[1..] { assert t.cache[1..][k - 1] == t.cache[k]; }
    }
  }

  /**
    Removing takes one entry out of the bucket that the identifier leads to,
    from the contacts if it is there, else from the cache; the others keep
    their order.
   */
  lemma {:induction false} RemoveTakes(t: Trie, local: Key, d: nat, id: Key) returns (i: nat)
    requires Depths(t, d)
    ensures var (u, ok) := RemoveNode(t, local, d, id); var leaf := LeafOf(t, local, d, id).0;
            && Depths(u, d)
            && var left := LeafOf(u, local, d, id).0; var s, k := leaf.contacts, leaf.cache;
               if HasId(s, id) then ok && i < |s| && s[i].id == id && left == Bucket(s[..i] + s[i + 1..], k)
               else if HasId(k, id) then ok && i < |k| && k[i].id == id && left == Bucket(s, k[..i] + k[i + 1..])
               else !ok && u == t
    decreases t
  {
    hide Dist, Bit, WithoutId;
    i := 0;
    match t
    case Bucket(contacts, cache) =>
      if HasId(contacts, id) {
        i := WithoutIdAt(contacts, id);
      } else if HasId(cache, id) {
        i := WithoutIdAt(cache, id);
      }
    case Space(m0, m1) =>
      if Bit(Dist(local, id), d) {
        i := RemoveTakes(m1, local, d + 1, id);
      } else {
        i := RemoveTakes(m0, local, d + 1, id);
      }
  }

  lemma WithoutIdAt(s: seq<Contact>, id: Key) returns (i: nat)
    requires HasId(s, id)
    ensures i < |s| && s[i].id == id && WithoutId(s, id) == s[..i] + s[i + 1..]
  {
    hide WithoutId;
    var a, b := WithoutIdSplits(s, id);
    i := |a|;
    assert s[..i] == a && s[i + 1..] == b;
  }
}
