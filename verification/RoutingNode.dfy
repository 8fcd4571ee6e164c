/**
  The routing table as linked nodes that split in place.  `Abs()` is the trie
  a node stands for; the methods do to it what the functions of the same
  names in `RoutingTrie` do.
 */
module RoutingNode {
  import opened NodeId
  import opened Nearest
  import opened RoutingTrie
  import RC = RoutingClosest
  import RS = RoutingSafety

  class RtNode {
    const p: Params
    const local: Key
    const depth: nat
    const index: nat
    var m0: RtNode?
    var m1: RtNode?
    var contacts: seq<Contact>
    var cache: seq<Contact>
    ghost var Repr: set<RtNode>

    ghost predicate Valid()
      reads this, Repr
      decreases Repr
    {
      && this in Repr && p.Valid() && depth < ID_BITS
      && (m0 == null <==> m1 == null)
      && (m0 != null && m1 != null ==>
            m0 in Repr && m1 in Repr && Below(m0, 2 * index) && Below(m1, 2 * index + 1)
            && contacts == [] && cache == [] && depth < ID_BITS - 1)
      && (m0 != null && m1 != null ==> m0.Repr !! m1.Repr && m0.Valid() && m1.Valid())
    }

    /** `m` is a child node with index `x`. */
    ghost predicate Below(m: RtNode, x: nat)
      reads this, m
    {
      m.Repr < Repr && this !in m.Repr
      && m.p == p && m.local == local && m.depth == depth + 1 && m.index == x
    }

    ghost function Abs(): (t: Trie)
      requires Valid()
      reads this, Repr
      ensures Depths(t, depth)
      decreases Repr
    {
      if m0 == null then Bucket(contacts, cache) else Space(m0.Abs(), m1.Abs())
    }

    constructor (p: Params, local: Key, depth: nat, index: nat)
      requires p.Valid() && depth < ID_BITS
      ensures Valid() && fresh(Repr) && Abs() == Bucket([], []) && Repr == {this}
      ensures this.p == p && this.local == local && this.depth == depth && this.index == index
    {
      this.p, this.local, this.depth, this.index := p, local, depth, index;
      m0, m1, contacts, cache, Repr := null, null, [], [], {this};
    }

    method IsSplittable() returns (ok: bool)
      requires p.Valid()
      ensures ok <==> |contacts| >= p.bucket && MaySplit(p, depth, index)
    {
      ok := depth < ID_BITS - 1 && |contacts| >= p.bucket && (depth < p.base || index < Pow(2, depth % p.b));
    }

    /** The position of the contact `id`, searching from the back. */
    static method FindNodeById(s: seq<Contact>, id: Key) returns (i: int)
      requires RS.DistinctIds(s)
      ensures -1 <= i < |s| && (i == -1 <==> !HasId(s, id))
      ensures i >= 0 ==> s[i] == ById(s, id) && WithoutId(s, id) == s[..i] + s[i + 1..]
    {
      i := |s| - 1;
      while i >= 0
        invariant -1 <= i < |s| && forall k :: i < k < |s| ==> s[k].id != id
      {
        if s[i].id == id {
          AtIndex(s, id, i);
          return;
        }
        i := i - 1;
      }
    }

    static lemma {:induction false} AtIndex(s: seq<Contact>, id: Key, i: nat)
      requires RS.DistinctIds(s) && i < |s| && s[i].id == id
      ensures HasId(s, id) && s[i] == ById(s, id) && WithoutId(s, id) == s[..i] + s[i + 1..]
      decreases i
    {
      if i == 0 {
        assert s[..0] + s[1..] == s[1..];
      } else {
        var t := s[1..];
        assert t[i - 1] == s[i];
        assert forall k :: 0 <= k < |t| ==> t[k] == s[k + 1];
        AtIndex(t, id, i - 1);
        assert s[0].id != id;
        assert s[..i] + s[i + 1..] == [s[0]] + (t[..i - 1] + t[i..]);
      }
    }

    // -------------------------------------------------------------- splitting

    static lemma {:induction false} SideAppend(s: seq<Contact>, c: Contact, local: Key, d: nat, one: bool)
      requires d < ID_BITS
      ensures Side(s + [c], local, d, one) == Side(s, local, d, one)
              + (if Bit(Dist(local, c.id), d) == one then [c] else [])
    {
      hide Bit, Dist;
      if s == [] {
        assert [] + [c] == [c];
        assert Side([c][1..], local, d, one) == [];
      } else {
        SideAppend(s[1..], c, local, d, one);
        assert (s + [c])[1..] == s[1..] + [c];
      }
    }

    static lemma SideNext(s: seq<Contact>, i: nat, local: Key, d: nat, one: bool)
      requires d < ID_BITS && i < |s|
      ensures Side(s[..i + 1], local, d, one) == Side(s[..i], local, d, one)
              + (if Bit(Dist(local, s[i].id), d) == one then [s[i]] else [])
    {
      assert s[..i + 1] == s[..i] + [s[i]];
      SideAppend(s[..i], s[i], local, d, one);
    }

    static lemma FilledNext(p: Params, c: seq<Contact>, k: seq<Contact>, z: Contact)
      ensures var t := Filled(p, c, k);
              Filled(p, c, k + [z]) == if |t.contacts| < p.bucket then Bucket(t.contacts + [z], t.cache)
                                       else if |t.cache| < p.cache then Bucket(t.contacts, t.cache + [z]) else t
    {
      var room := if |c| < p.bucket then p.bucket - |c| else 0;
      if |k| >= room {
        assert (k + [z])[..room] == k[..room];
        assert (k + [z])[room..] == k[room..] + [z];
        if |k| == room { assert k[..room] == k && k[room..] == []; }
      } else {
        assert c + (k + [z]) == c + k + [z];
      }
    }

    /** Hands the contacts of a bucket to the two new ones. */
    static method HandOver(n0: RtNode, n1: RtNode, local: Key, depth: nat, contacts: seq<Contact>)
      requires n0 != n1 && depth < ID_BITS && n0.contacts == [] && n1.contacts == []
      modifies n0`contacts, n1`contacts
      ensures n0.contacts == Side(contacts, local, depth, false) && n1.contacts == Side(contacts, local, depth, true)
    {
      hide Bit, Dist, Side;
      var i := 0;
      EmptySide(local, depth);
      assert contacts[..0] == [];
      while i < |contacts|
        invariant 0 <= i <= |contacts|
        invariant n0.contacts == Side(contacts[..i], local, depth, false)
        invariant n1.contacts == Side(contacts[..i], local, depth, true)
      {
        SideNext(contacts, i, local, depth, false);
        SideNext(contacts, i, local, depth, true);
        var c := contacts[i];
        if Bit(Dist(local, c.id), depth) {
          n1.contacts := n1.contacts + [c];
        } else {
          n0.contacts := n0.contacts + [c];
        }
        i := i + 1;
      }
      assert contacts[..|contacts|] == contacts;
    }

    static lemma EmptySide(local: Key, d: nat)
      requires d < ID_BITS
      ensures Side([], local, d, false) == [] && Side([], local, d, true) == []
    {
    }

    /** Takes a cached contact as a contact if there is room, else into the cache if there is room. */
    method TakeCached(z: Contact, ghost c: seq<Contact>, ghost k: seq<Contact>)
      requires Bucket(contacts, cache) == Filled(p, c, k)
      modifies this`contacts, this`cache
      ensures Bucket(contacts, cache) == Filled(p, c, k + [z])
    {
      FilledNext(p, c, k, z);
      if |contacts| < p.bucket {
        contacts := contacts + [z];
      } else if |cache| < p.cache {
        cache := cache + [z];
      }
    }

    /** Hands the cached contacts of a bucket to the two new ones. */
    static method HandOverCache(n0: RtNode, n1: RtNode, local: Key, depth: nat, cached: seq<Contact>)
      requires n0 != n1 && depth < ID_BITS && n0.cache == [] && n1.cache == []
      modifies n0`contacts, n0`cache, n1`contacts, n1`cache
      ensures Bucket(n0.contacts, n0.cache) == Filled(n0.p, old(n0.contacts), Side(cached, local, depth, false))
      ensures Bucket(n1.contacts, n1.cache) == Filled(n1.p, old(n1.contacts), Side(cached, local, depth, true))
    {
      hide Bit, Dist, Side, Filled;
      ghost var c0, c1 := n0.contacts, n1.contacts;
      var i := 0;
      EmptySide(local, depth);
      FilledNone(n0.p, c0);
      FilledNone(n1.p, c1);
      assert cached[..0] == [];
      while i < |cached|
        invariant 0 <= i <= |cached|
        invariant Bucket(n0.contacts, n0.cache) == Filled(n0.p, c0, Side(cached[..i], local, depth, false))
        invariant Bucket(n1.contacts, n1.cache) == Filled(n1.p, c1, Side(cached[..i], local, depth, true))
      {
        SideNext(cached, i, local, depth, false);
        SideNext(cached, i, local, depth, true);
        ghost var k0, k1 := Side(cached[..i], local, depth, false), Side(cached[..i], local, depth, true);
        assert k0 + [] == k0 && k1 + [] == k1;
        var c := cached[i];
        if Bit(Dist(local, c.id), depth) {
          n1.TakeCached(c, c1, k1);
        } else {
          n0.TakeCached(c, c0, k0);
        }
        i := i + 1;
      }
      assert cached[..|cached|] == cached;
    }

    static lemma FilledNone(p: Params, c: seq<Contact>)
      ensures Filled(p, c, []) == Bucket(c, [])
    {
      assert c + [] == c;
    }

    lemma SplitDepth()
      requires p.Valid() && MaySplit(p, depth, index)
      ensures depth < ID_BITS - 1
    {
    }

    /** Splits a full bucket, if its depth and index allow. */
    method Split() returns (ok: bool)
      requires Valid() && m0 == null
      modifies this
      ensures Valid() && Repr >= old(Repr) && fresh(Repr - old(Repr))
      ensures ok <==> |old(contacts)| >= p.bucket && MaySplit(p, depth, index)
      ensures !ok ==> Abs() == old(Abs()) && m0 == null
      ensures ok ==> m0 != null && Abs() == RoutingTrie.Split(p, old(Abs()), local, depth)
    {
      hide Side, Filled, Pow, MaySplit;
      ok := IsSplittable();
      if !ok {
        return;
      }
      SplitDepth();
      var n0 := new RtNode(p, local, depth + 1, 2 * index);
      var n1 := new RtNode(p, local, depth + 1, 2 * index + 1);
      HandOver(n0, n1, local, depth, contacts);
      HandOverCache(n0, n1, local, depth, cache);
      Adopt(n0, n1);
    }

    /** Becomes an inner node over two new buckets. */
    method Adopt(n0: RtNode, n1: RtNode)
      requires Valid() && m0 == null && depth < ID_BITS - 1 && n0 != n1
      requires NewChild(n0, 2 * index) && NewChild(n1, 2 * index + 1)
      modifies this
      ensures Valid() && Repr == old(Repr) + {n0, n1} && m0 != null
      ensures Abs() == Space(Bucket(n0.contacts, n0.cache), Bucket(n1.contacts, n1.cache))
    {
      m0, m1, contacts, cache := n0, n1, [], [];
      Repr := Repr + {n0, n1};
    }

    ghost predicate NewChild(n: RtNode, x: nat)
      reads this`Repr, n
    {
      && n !in Repr && n.Repr == {n} && n.m0 == null && n.m1 == null
      && n.p == p && n.local == local && n.depth == depth + 1 && n.index == x
    }

    // -------------------------------------------------------------- adding

    /** Moves the contact at `i` of `s` to the end. */
    static method MoveToEnd(s: seq<Contact>, i: int, id: Key) returns (t: seq<Contact>, c: Contact)
      requires 0 <= i < |s| && HasId(s, id) && s[i] == ById(s, id) && WithoutId(s, id) == s[..i] + s[i + 1..]
      ensures c == ById(s, id) && t == WithoutId(s, id) + [c]
    {
      c := s[i];
      t := s[..i] + s[i + 1..] + [c];
    }

    /** Adds to the cache of a full bucket that cannot split. */
    method AddToCache(id: Key) returns (c: Contact)
      requires Valid() && m0 == null && RS.DistinctIds(cache)
      modifies this`cache
      ensures Valid() && c.id == id
      ensures cache == if HasId(old(cache), id) then WithoutId(old(cache), id) + [c]
                       else if |old(cache)| < p.cache then old(cache) + [c]
                       else (if old(cache) == [] then [] else old(cache)[1..]) + [c]
      ensures HasId(old(cache), id) ==> c == ById(old(cache), id)
    {
      var i := FindNodeById(cache, id);
      if i >= 0 {
        cache, c := MoveToEnd(cache, i, id);
      } else {
        if |cache| >= p.cache && cache != [] {
          cache := cache[1..];
        }
        c := new Contact(id);
        cache := cache + [c];
      }
    }

    /** Adds a contact for `id`, at distance `dist` from the local identifier, unless it is there. */
    method AddNode(id: Key, dist: Key) returns (r: Contact)
      requires Valid() && RS.Inv(p, Abs(), local, depth, index) && dist == Dist(local, id)
      modifies Repr
      ensures Valid() && fresh(Repr - old(Repr)) && Repr >= old(Repr) && r.id == id
      ensures RoutingTrie.AddNode(p, old(Abs()), local, depth, index, r) == (Abs(), r)
      decreases ID_BITS - depth, 1
    {
      hide RS.Inv, HasId, WithoutId, Dist, Bit, MaySplit, Depths;
      if m0 != null {
        r := AddBelow(id, dist);
        return;
      }
      BucketDistinct();
      var i := FindNodeById(contacts, id);
      if i >= 0 {
        contacts, r := MoveToEnd(contacts, i, id);
      } else if |contacts| < p.bucket {
        r := new Contact(id);
        contacts := contacts + [r];
      } else {
        SplitInv();
        var ok := Split();
        if ok {
          r := AddBelow(id, dist);
        } else {
          r := AddToCache(id);
        }
      }
    }

    lemma BucketDistinct()
      requires Valid() && m0 == null && RS.Inv(p, Abs(), local, depth, index)
      ensures RS.DistinctIds(contacts) && RS.DistinctIds(cache)
    {
    }

    lemma SplitInv()
      requires Valid() && m0 == null && RS.Inv(p, Abs(), local, depth, index)
      ensures MaySplit(p, depth, index) ==> RS.Inv(p, RoutingTrie.Split(p, Abs(), local, depth), local, depth, index)
    {
      hide RS.Inv, MaySplit;
      if MaySplit(p, depth, index) { RS.SplitKeeps(p, Abs(), local, depth, index); }
    }

    /** The same in the child the distance leads to. */
    method AddBelow(id: Key, dist: Key) returns (r: Contact)
      requires Valid() && m0 != null && RS.Inv(p, Abs(), local, depth, index) && dist == Dist(local, id)
      modifies Repr
      ensures Valid() && fresh(Repr - old(Repr)) && Repr >= old(Repr) && r.id == id
      ensures old(Abs()).Space? && depth < ID_BITS - 1
      ensures RoutingTrie.AddBelow(p, old(Abs()).m0, old(Abs()).m1, local, depth, index, r) == (Abs(), r)
      decreases ID_BITS - depth, 0
    {
      hide Dist, Bit, MaySplit, RS.OnPath, RS.DistinctIds, Depths;
      if Bit(dist, depth) {
        r := m1.AddNode(id, dist);
        Repr := Repr + m1.Repr;
      } else {
        r := m0.AddNode(id, dist);
        Repr := Repr + m0.Repr;
      }
    }

    // -------------------------------------------------------------- removing and looking up

    /** Removes the contact `id`, or a cached one. */
    method RemoveNode(id: Key, dist: Key) returns (ok: bool)
      requires Valid() && RS.Inv(p, Abs(), local, depth, index) && dist == Dist(local, id)
      modifies Repr
      ensures Valid() && Repr == old(Repr)
      ensures RoutingTrie.RemoveNode(old(Abs()), local, depth, id) == (Abs(), ok)
      decreases Repr
    {
      hide Dist, Bit, MaySplit, RS.Inv, HasId, WithoutId, Depths;
      if m0 != null {
        ChildrenInv();
        if Bit(dist, depth) {
          ok := m1.RemoveNode(id, dist);
        } else {
          ok := m0.RemoveNode(id, dist);
        }
        return;
      }
      BucketDistinct();
      ok := RemoveHere(id);
    }

    lemma ChildrenInv()
      requires Valid() && m0 != null && RS.Inv(p, Abs(), local, depth, index)
      ensures RS.Inv(p, m0.Abs(), m0.local, m0.depth, m0.index) && RS.Inv(p, m1.Abs(), m1.local, m1.depth, m1.index)
    {
      hide Dist, Bit, MaySplit, RS.OnPath, RS.DistinctIds, HasId, WithoutId, Depths;
    }

    /** Removes the contact `id` from this bucket, or else from its cache. */
    method RemoveHere(id: Key) returns (ok: bool)
      requires Valid() && m0 == null && RS.DistinctIds(contacts) && RS.DistinctIds(cache)
      modifies this`contacts, this`cache
      ensures Valid() && m0 == null && Repr == old(Repr)
      ensures contacts == if HasId(old(contacts), id) then WithoutId(old(contacts), id) else old(contacts)
      ensures cache == if !HasId(old(contacts), id) && HasId(old(cache), id) then WithoutId(old(cache), id)
              else old(cache)
      ensures ok <==> HasId(old(contacts), id) || HasId(old(cache), id)
    {
      hide Valid, HasId, WithoutId, RS.DistinctIds;
      var i := FindNodeById(contacts, id);
      if i >= 0 {
        SetLists(contacts[..i] + contacts[i + 1..], cache);
        return true;
      }
      i := FindNodeById(cache, id);
      if i >= 0 {
        SetLists(contacts, cache[..i] + cache[i + 1..]);
        return true;
      }
      ok := false;
    }

    method SetLists(contacts: seq<Contact>, cache: seq<Contact>)
      requires Valid() && m0 == null
      modifies this`contacts, this`cache
      ensures Valid() && m0 == null && this.contacts == contacts && this.cache == cache
    {
      this.contacts, this.cache := contacts, cache;
    }

    static lemma {:induction false} FirstIs(s: seq<Contact>, id: Key, i: nat)
      requires i < |s| && s[i].id == id && forall k :: 0 <= k < i ==> s[k].id != id
      ensures HasId(s, id) && ById(s, id) == s[i]
      decreases i
    {
      if i > 0 {
        assert s[1..][i - 1] == s[i];
        FirstIs(s[1..], id, i - 1);
      }
    }

    /** The contact `id`, found by following the bits of its distance. */
    method FindNode(id: Key, dist: Key) returns (f: Found)
      requires Valid() && dist == Dist(local, id)
      ensures f == RoutingTrie.FindNode(Abs(), local, depth, id)
      decreases Repr
    {
      hide Dist, Bit, HasId, ById;
      if m0 != null {
        if Bit(dist, depth) {
          f := m1.FindNode(id, dist);
        } else {
          f := m0.FindNode(id, dist);
        }
        return;
      }
      f := FindIn(contacts, id);
    }

    static method FindIn(s: seq<Contact>, id: Key) returns (f: Found)
      ensures f == if HasId(s, id) then Somebody(ById(s, id)) else Nobody
    {
      var i := 0;
      while i < |s|
        invariant 0 <= i <= |s| && forall k :: 0 <= k < i ==> s[k].id != id
      {
        if s[i].id == id {
          FirstIs(s, id, i);
          return Somebody(s[i]);
        }
        i := i + 1;
      }
      f := Nobody;
    }

    method CountContacts() returns (n: nat)
      requires Valid()
      ensures n == |All(Abs())|
      decreases Repr
    {
      if m0 == null {
        return |contacts|;
      }
      var a := m0.CountContacts();
      var b := m1.CountContacts();
      n := a + b;
    }

    // -------------------------------------------------------------- the closest contacts

    /** `stale` are those of the `known` contacts that failed too often. */
    static ghost predicate Marks(known: set<Contact>, limit: nat, stale: set<Contact>)
      reads known
    {
      forall c :: c in known ==> (c in stale <==> c.failQty >= limit)
    }

    static ghost predicate Within(s: seq<Contact>, known: set<Contact>) {
      forall k :: 0 <= k < |s| ==> s[k] in known
    }

    static lemma LiveNone(s: seq<Contact>, stale: set<Contact>)
      ensures Live(s[|s|..], stale) == []
    {
    }

    /** The live contacts from place `i` on. */
    static lemma LiveFrom(s: seq<Contact>, stale: set<Contact>, i: nat)
      requires i < |s|
      ensures Live(s[i..], stale) == (if s[i] in stale then [] else [s[i]]) + Live(s[i + 1..], stale)
    {
      assert s[i..][1..] == s[i + 1..];
    }

    static method LiveOf(s: seq<Contact>, limit: nat, ghost known: set<Contact>, ghost stale: set<Contact>)
      returns (l: seq<Contact>)
      requires Marks(known, limit, stale) && Within(s, known)
      ensures l == Live(s, stale)
    {
      hide Live;
      l := [];
      var i := 0;
      LiveNone(s, stale);
      assert s[0..] == s;
      while i < |s|
        invariant 0 <= i <= |s| && Live(s, stale) == l + Live(s[i..], stale)
      {
        LiveFrom(s, stale, i);
        assert s[i] in known;
        if !(s[i].failQty >= limit) {
          l := l + [s[i]];
        }
        i := i + 1;
      }
    }

    method GetContacts(limit: nat, ghost known: set<Contact>, ghost stale: set<Contact>) returns (l: seq<Contact>)
      requires Valid() && Marks(known, limit, stale) && Within(All(Abs()), known)
      ensures l == Live(All(Abs()), stale)
      decreases Repr
    {
      hide Live;
      if m0 == null {
        l := LiveOf(contacts, limit, known, stale);
        return;
      }
      WithinBoth(All(m0.Abs()), All(m1.Abs()), known);
      var a := m0.GetContacts(limit, known, stale);
      var b := m1.GetContacts(limit, known, stale);
      RS.LiveConcat(All(m0.Abs()), All(m1.Abs()), stale);
      l := a + b;
    }

    static lemma WithinBoth(a: seq<Contact>, b: seq<Contact>, known: set<Contact>)
      requires Within(a + b, known)
      ensures Within(a, known) && Within(b, known)
    {
      assert forall k :: 0 <= k < |a| ==> (a + b)[k] == a[k];
      assert forall k :: 0 <= k < |b| ==> (a + b)[|a| + k] == b[k];
    }

    static lemma Here(id: Key, res: seq<Contact>, c: Contact, j: nat)
      requires j < |res| && Closer(id, c.id, res[j].id)
      ensures res[..j] + Replace(id, res[j..], c) == res[j := c]
    {
      hide Closer;
      assert res[j..][1..] == res[j + 1..];
    }

    static lemma Further(id: Key, res: seq<Contact>, c: Contact, j: nat)
      requires j < |res| && !Closer(id, c.id, res[j].id)
      ensures res[..j] + Replace(id, res[j..], c) == res[..j + 1] + Replace(id, res[j + 1..], c)
    {
      hide Closer;
      assert res[j..][1..] == res[j + 1..];
      assert res[..j] + [res[j]] == res[..j + 1];
    }

    /** Puts `c` in the place of the first contact farther from `id`. */
    static method ReplaceFirst(id: Key, res: seq<Contact>, c: Contact) returns (r: seq<Contact>)
      ensures r == Replace(id, res, c)
    {
      hide Closer, Replace;
      var j := 0;
      assert res[0..] == res;
      while j < |res|
        invariant 0 <= j <= |res| && Replace(id, res, c) == res[..j] + Replace(id, res[j..], c)
      {
        if Closer(id, c.id, res[j].id) {
          Here(id, res, c, j);
          return res[j := c];
        }
        Further(id, res, c, j);
        j := j + 1;
      }
      NoneFarther(id, res[|res|..], c);
      r := res;
    }

    static lemma NoneFarther(id: Key, none: seq<Contact>, c: Contact)
      requires none == []
      ensures Replace(id, none, c) == []
    {
    }

    /** The scan of one bucket. */
    static method PickOf(id: Key, s: seq<Contact>, qty: nat, limit: nat, ghost known: set<Contact>,
                         ghost stale: set<Contact>) returns (res: seq<Contact>)
      requires Marks(known, limit, stale) && Within(s, known)
      ensures res == Pick(id, s, stale, qty)
    {
      hide Replace;
      res := [];
      var i := 0;
      while i < |s|
        invariant 0 <= i <= |s| && res == Pick(id, s[..i], stale, qty)
      {
        assert s[..i + 1][..i] == s[..i];
        if !(s[i].failQty >= limit) {
          if |res| < qty {
            res := res + [s[i]];
          } else {
            res := ReplaceFirst(id, res, s[i]);
          }
        }
        i := i + 1;
      }
      assert s[..|s|] == s;
    }

    /** Up to `qty` live contacts closest to `id`, whose distance from the local identifier is `dist`. */
    method FindClosest(id: Key, dist: Key, qty: nat, limit: nat, ghost known: set<Contact>, ghost stale: set<Contact>)
      returns (res: seq<Contact>)
      requires Valid() && dist == Dist(local, id) && Marks(known, limit, stale) && Within(All(Abs()), known)
      ensures res == RoutingTrie.FindClosest(Abs(), local, depth, id, stale, qty)
      decreases Repr
    {
      hide Dist, Bit, Pick, Marks, Within;
      if qty <= 0 {
        return [];
      }
      if m0 == null {
        res := PickOf(id, contacts, qty, limit, known, stale);
        return;
      }
      WithinBoth(All(m0.Abs()), All(m1.Abs()), known);
      var one := Bit(dist, depth);
      var near, far := if one then m1 else m0, if one then m0 else m1;
      res := near.FindClosest(id, dist, qty, limit, known, stale);
      if |res| < qty {
        var more := far.FindClosest(id, dist, qty - |res|, limit, known, stale);
        res := res + more;
      }
    }

    // -------------------------------------------------------------- the table

    /** A root node with the promises of `RoutingSafety`. */
    ghost predicate IsTable()
      reads this, Repr
    {
      Valid() && depth == 0 && index == 0 && RS.Inv(p, Abs(), local, 0, 0)
    }

    method Add(id: Key) returns (r: Contact)
      requires IsTable()
      modifies Repr
      ensures IsTable() && fresh(Repr - old(Repr)) && r.id == id
      ensures RS.Grown(old(All(Abs())), All(Abs()), r) && RS.Stands(old(All(Abs())), All(Abs()), r, r)
    {
      hide RS.Inv, RS.Grown, RS.Stands, Dist;
      ghost var t := Abs();
      r := AddNode(id, Dist(local, id));
      RS.AddKeeps(p, t, local, 0, 0, r);
    }

    method Remove(id: Key) returns (ok: bool)
      requires IsTable()
      modifies Repr
      ensures IsTable() && Repr == old(Repr)
      ensures RS.Took(old(All(Abs())), old(RS.Cached(Abs())), All(Abs()), ok, id)
    {
      hide RS.Inv, RS.Took, Dist;
      RS.RemoveKeeps(p, Abs(), local, 0, 0, id);
      ok := RemoveNode(id, Dist(local, id));
    }
  }
}
