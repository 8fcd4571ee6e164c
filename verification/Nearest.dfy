/**
  Contacts and the bounded list of the nearest ones to a key, kept in
  ascending distance.
 */
module Nearest {
  import opened NodeId

  /** Identifiers have 160 bits. */
  const ID_SIZE: nat := 20

  type Key = a: Id | |a| == ID_SIZE witness seq(ID_SIZE, i => 0)

  /** A peer; how often in a row it did not answer is counted in the shared object. */
  class Contact {
    const id: Key
    var failQty: nat

    constructor (id: Key)
      ensures this.id == id && failQty == 0
    {
      this.id, failQty := id, 0;
    }
  }

  ghost function Ids(cs: seq<Contact>): set<Key> {
    set c | c in cs :: c.id
  }

  predicate HasId(s: seq<Contact>, id: Key) {
    exists k :: 0 <= k < |s| && s[k].id == id
  }

  ghost predicate Distinct(s: seq<Contact>) {
    forall j, k :: 0 <= j < k < |s| ==> s[j] != s[k]
  }

  ghost predicate Sorted(key: Key, list: seq<Contact>) {
    forall i, j :: 0 <= i < j < |list| ==> Closer(key, list[i].id, list[j].id)
  }

  /** The first place whose contact is the same as, or farther than, the given identifier. */
  function Place(key: Key, list: seq<Contact>, id: Key): (i: nat)
    ensures i <= |list|
    ensures forall k :: 0 <= k < i ==> list[k].id != id && !Closer(key, id, list[k].id)
    ensures i < |list| ==> list[i].id == id || Closer(key, id, list[i].id)
  {
    if list == [] || list[0].id == id || Closer(key, id, list[0].id) then 0
    else 1 + Place(key, list[1..], id)
  }

  lemma PlaceUnique(key: Key, list: seq<Contact>, id: Key, i: nat)
    requires i <= |list|
    requires forall k :: 0 <= k < i ==> list[k].id != id && !Closer(key, id, list[k].id)
    requires i < |list| ==> list[i].id == id || Closer(key, id, list[i].id)
    ensures Place(key, list, id) == i
  {
  }

  /** What `list` becomes when `c` is offered, and whether `c` got in. */
  function Inserted(key: Key, list: seq<Contact>, c: Contact, bucket: nat): (seq<Contact>, bool) {
    var i := Place(key, list, c.id);
    if i < |list| && list[i].id == c.id then (list, false)
    else if i == |list| && |list| >= bucket then (list, false)
    else
      var l := list[..i] + [c] + list[i..];
      (if |list| < bucket then l else l[..|list|], true)
  }

  /** Offering all of `cs`, one after the other, to an empty list. */
  function Offered(key: Key, cs: seq<Contact>, bucket: nat): seq<Contact> {
    if cs == [] then [] else Inserted(key, Offered(key, cs[..|cs| - 1], bucket), cs[|cs| - 1], bucket).0
  }

  /** `l` is exactly the `bucket` nearest different identifiers among `cs`, nearest first. */
  ghost predicate IsNearest(key: Key, cs: seq<Contact>, bucket: nat, l: seq<Contact>) {
    && Sorted(key, l)
    && Ids(l) <= Ids(cs)
    && |l| == (if |Ids(cs)| < bucket then |Ids(cs)| else bucket)
    && forall x, y :: x in Ids(cs) && x !in Ids(l) && y in l ==> Closer(key, y.id, x)
  }

  // ---------------------------------------------------------------- order

  lemma Order(key: Key)
    ensures forall a: Key :: !Closer(key, a, a)
    ensures forall a: Key, b: Key :: a != b ==> (Closer(key, a, b) <==> !Closer(key, b, a))
    ensures forall a: Key, b: Key, c: Key :: Closer(key, a, b) && Closer(key, b, c) ==> Closer(key, a, c)
  {
    hide Closer;
    forall a: Key, b: Key, c: Key
      ensures !Closer(key, a, a)
      ensures a != b ==> (Closer(key, a, b) <==> !Closer(key, b, a))
      ensures Closer(key, a, b) && Closer(key, b, c) ==> Closer(key, a, c)
    {
      CloserIsOrder(key, a, b, c);
    }
  }

  /** In a sorted list everything before the place is nearer, everything from it on is farther. */
  lemma PlaceSplits(key: Key, list: seq<Contact>, id: Key)
    requires Sorted(key, list)
    ensures var i := Place(key, list, id);
            && (forall k :: 0 <= k < i ==> Closer(key, list[k].id, id))
            && (forall k :: i < k < |list| ==> Closer(key, id, list[k].id))
            && ((exists k :: 0 <= k < |list| && list[k].id == id) <==> i < |list| && list[i].id == id)
  {
    hide Closer;
    Order(key);
  }

  lemma InsertSorted(key: Key, list: seq<Contact>, c: Contact, bucket: nat)
    requires Sorted(key, list)
    ensures Sorted(key, Inserted(key, list, c, bucket).0)
  {
    hide Closer, Place;
    PlaceSplits(key, list, c.id);
    var i := Place(key, list, c.id);
    var l := list[..i] + [c] + list[i..];
    if !(i < |list| && list[i].id == c.id) {
      forall j, k | 0 <= j < k < |l| ensures Closer(key, l[j].id, l[k].id) {
        var j', k' := if j < i then j else j - 1, if k < i then k else k - 1;
        if j != i && k != i { assert l[j] == list[j'] && l[k] == list[k']; }
      }
    }
  }

  /** A contact gets in exactly if its identifier is new and the list keeps it. */
  lemma InsertTells(key: Key, list: seq<Contact>, c: Contact, bucket: nat)
    requires Sorted(key, list) && bucket > 0 && |list| <= bucket
    ensures var (l, ok) := Inserted(key, list, c, bucket);
            && (ok <==> c.id !in Ids(list) && c.id in Ids(l))
            && (ok ==> c in l)
            && |l| <= bucket && Ids(l) <= Ids(list) + {c.id}
            && (forall x :: x in l ==> x in list || x == c)
  {
    hide Closer, Place;
    PlaceSplits(key, list, c.id);
    var (l, ok) := Inserted(key, list, c, bucket);
    var i := Place(key, list, c.id);
    if ok { assert l[i] == c; }
    if c.id in Ids(list) {
      var x :| x in list && x.id == c.id;
      var k :| 0 <= k < |list| && list[k] == x;
    }
  }

  // ---------------------------------------------------------------- the nearest of all offered

  lemma {:induction false} IdsSize(key: Key, l: seq<Contact>)
    requires Sorted(key, l)
    ensures |Ids(l)| == |l|
  {
    if l == [] {
      assert Ids(l) == {};
    } else {
      var t, z := l[..|l| - 1], l[|l| - 1];
      IdsSize(key, t);
      Order(key);
      assert l == t + [z];
      assert z.id !in Ids(t);
      IdsGrow(t, z);
    }
  }

  lemma IdsGrow(cs: seq<Contact>, c: Contact)
    ensures Ids(cs + [c]) == Ids(cs) + {c.id}
  {
    assert c in cs + [c];
  }

  lemma SubsetFull(a: set<Key>, b: set<Key>)
    requires a <= b && |a| == |b|
    ensures a == b
  {
    assert b == a + (b - a);
  }

  lemma ProperSmaller(a: set<Key>, b: set<Key>, x: Key)
    requires a <= b && x in b && x !in a
    ensures |a| < |b|
  {
    assert b == a + (b - a) && x in b - a;
  }

  /** An identifier offered before changes nothing. */
  lemma OfferAgain(key: Key, cs: seq<Contact>, l: seq<Contact>, c: Contact, bucket: nat)
    requires IsNearest(key, cs, bucket, l) && c.id in Ids(cs)
    ensures Inserted(key, l, c, bucket).0 == l
  {
    hide Closer, Place;
    Order(key);
    PlaceSplits(key, l, c.id);
    IdsSize(key, l);
    if c.id in Ids(l) {
      var x :| x in l && x.id == c.id;
      var k :| 0 <= k < |l| && l[k] == x;
    } else {
      ProperSmaller(Ids(l), Ids(cs), c.id);
    }
  }

  /** A new identifier finds room. */
  lemma OfferRoom(key: Key, cs: seq<Contact>, l: seq<Contact>, c: Contact, bucket: nat)
    requires IsNearest(key, cs, bucket, l) && c.id !in Ids(cs) && |l| < bucket
    ensures IsNearest(key, cs + [c], bucket, Inserted(key, l, c, bucket).0)
  {
    hide Closer, Place, Sorted, Ids, Inserted;
    IdsSize(key, l);
    SubsetFull(Ids(l), Ids(cs));
    IdsGrow(cs, c);
    InsertSorted(key, l, c, bucket);
    RoomInserted(key, l, c, bucket);
    IdsSize(key, Inserted(key, l, c, bucket).0);
  }

  /** A new identifier in a list with room. */
  lemma RoomInserted(key: Key, l: seq<Contact>, c: Contact, bucket: nat)
    requires Sorted(key, l) && c.id !in Ids(l) && |l| < bucket
    ensures var l' := Inserted(key, l, c, bucket).0; |l'| == |l| + 1 && Ids(l') == Ids(l) + {c.id}
  {
    hide Closer, Place, Sorted;
    var i := Place(key, l, c.id);
    if i < |l| { assert l[i] in l; }
    SpliceIds(l, i, c);
  }

  lemma SpliceIds(l: seq<Contact>, i: nat, c: Contact)
    requires i <= |l|
    ensures forall x :: x in l[..i] + [c] + l[i..] <==> x in l || x == c
    ensures Ids(l[..i] + [c] + l[i..]) == Ids(l) + {c.id}
  {
    var l' := l[..i] + [c] + l[i..];
    assert l == l[..i] + l[i..];
    assert l'[i] == c;
    forall x ensures x in l' <==> x in l || x == c { }
    assert forall x :: x in l ==> x in l';
  }

  /** A new identifier that is farther than a full list. */
  lemma OfferFar(key: Key, cs: seq<Contact>, l: seq<Contact>, c: Contact, bucket: nat)
    requires IsNearest(key, cs, bucket, l) && c.id !in Ids(cs) && |l| == bucket && Place(key, l, c.id) == |l|
    ensures Inserted(key, l, c, bucket).0 == l && IsNearest(key, cs + [c], bucket, l)
  {
    hide Closer, Place;
    PlaceSplits(key, l, c.id);
    IdsGrow(cs, c);
  }

  /** A full list with one more contact spliced in is the kept part and the one pushed out. */
  lemma SpliceShape(key: Key, l: seq<Contact>, c: Contact) returns (l': seq<Contact>, z: Contact)
    requires c.id !in Ids(l) && Place(key, l, c.id) < |l|
    ensures var i := Place(key, l, c.id); l' + [z] == l[..i] + [c] + l[i..] && z == l[|l| - 1]
    ensures l' == Inserted(key, l, c, |l|).0 && |l'| == |l|
  {
    hide Closer, Place;
    var i, n := Place(key, l, c.id), |l|;
    assert l[i] in l;
    var full := l[..i] + [c] + l[i..];
    l', z := full[..n], l[n - 1];
    assert full == l' + [z];
  }

  /** Splicing a new identifier into a list and dropping the last one. */
  lemma Splice(key: Key, l: seq<Contact>, c: Contact) returns (l': seq<Contact>, z: Contact)
    requires Sorted(key, l) && c.id !in Ids(l) && Place(key, l, c.id) < |l|
    ensures l' == Inserted(key, l, c, |l|).0 && |l'| == |l| && z in l && Sorted(key, l' + [z])
    ensures Ids(l') + {z.id} == Ids(l) + {c.id} && forall y :: y in l' ==> y in l || y == c
  {
    hide Closer, Place, Sorted, Ids;
    l', z := SpliceShape(key, l, c);
    SpliceIds(l, Place(key, l, c.id), c);
    SplicedSorted(key, l, c);
    IdsGrow(l', z);
    assert forall y :: y in l' ==> y in l' + [z];
  }

  lemma SplicedSorted(key: Key, l: seq<Contact>, c: Contact)
    requires Sorted(key, l) && c.id !in Ids(l) && Place(key, l, c.id) < |l|
    ensures var i := Place(key, l, c.id); Sorted(key, l[..i] + [c] + l[i..])
  {
    hide Closer, Place, Sorted;
    InsertSorted(key, l, c, |l| + 1);
    assert l[Place(key, l, c.id)] in l;
  }

  /** A new identifier that pushes the farthest one out of a full list. */
  lemma OfferNear(key: Key, cs: seq<Contact>, l: seq<Contact>, c: Contact, bucket: nat)
    requires IsNearest(key, cs, bucket, l) && c.id !in Ids(cs) && |l| == bucket && Place(key, l, c.id) < |l|
    ensures IsNearest(key, cs + [c], bucket, Inserted(key, l, c, bucket).0)
  {
    hide Closer, Place, Inserted, Ids;
    IdsGrow(cs, c);
    InsertSorted(key, l, c, bucket);
    var l', z := Splice(key, l, c);
    PushedOut(key, cs, l, c, bucket, l', z);
  }

  lemma PushedOut(key: Key, cs: seq<Contact>, l: seq<Contact>, c: Contact, bucket: nat, l': seq<Contact>, z: Contact)
    requires IsNearest(key, cs, bucket, l) && |l'| == |l| == bucket > 0
    requires Sorted(key, l' + [z]) && z in l
    requires Ids(l') + {z.id} == Ids(l) + {c.id} && forall y :: y in l' ==> y in l || y == c
    ensures forall x, y :: x in Ids(cs) + {c.id} && x !in Ids(l') && y in l' ==> Closer(key, y.id, x)
    ensures Ids(l') <= Ids(cs) + {c.id}
  {
    hide Closer;
    Order(key);
    var full := l' + [z];
    forall x, y | x in Ids(cs) + {c.id} && x !in Ids(l') && y in l' ensures Closer(key, y.id, x) {
      var k :| 0 <= k < |l'| && l'[k] == y;
      assert full[k] == y && full[|l'|] == z;
      assert Closer(key, y.id, z.id);
      if x != z.id { assert Closer(key, z.id, x); }
    }
  }

  lemma NearestStep(key: Key, cs: seq<Contact>, l: seq<Contact>, c: Contact, bucket: nat)
    requires IsNearest(key, cs, bucket, l)
    ensures IsNearest(key, cs + [c], bucket, Inserted(key, l, c, bucket).0)
  {
    if c.id in Ids(cs) {
      OfferAgain(key, cs, l, c, bucket);
      IdsGrow(cs, c);
      assert Ids(cs) + {c.id} == Ids(cs);
    } else if |l| < bucket {
      OfferRoom(key, cs, l, c, bucket);
    } else if Place(key, l, c.id) == |l| {
      OfferFar(key, cs, l, c, bucket);
    } else {
      OfferNear(key, cs, l, c, bucket);
    }
  }

  /**
    Whatever contacts are offered, in any order and with any repetitions, the
    list ends up as the `bucket` nearest different identifiers of them all.
   */
  lemma {:induction false} OfferedIsNearest(key: Key, cs: seq<Contact>, bucket: nat)
    ensures IsNearest(key, cs, bucket, Offered(key, cs, bucket))
  {
    if cs == [] {
      assert Ids(cs) == {};
    } else {
      var t := cs[..|cs| - 1];
      OfferedIsNearest(key, t, bucket);
      hide IsNearest, Inserted;
      NearestStep(key, t, Offered(key, t, bucket), cs[|cs| - 1], bucket);
      assert t + [cs[|cs| - 1]] == cs;
    }
  }

  /** There is only one such list of identifiers: the order of the offers does not matter. */
  lemma NearestUnique(key: Key, cs: seq<Contact>, ds: seq<Contact>, bucket: nat)
    requires Ids(cs) == Ids(ds)
    ensures Ids(Offered(key, cs, bucket)) == Ids(Offered(key, ds, bucket))
  {
    hide Closer, Offered;
    var l, m := Offered(key, cs, bucket), Offered(key, ds, bucket);
    OfferedIsNearest(key, cs, bucket);
    OfferedIsNearest(key, ds, bucket);
    IdsSize(key, l);
    IdsSize(key, m);
    Order(key);
    if x :| x in Ids(l) && x !in Ids(m) {
      var y := Missing(Ids(l), Ids(m), x);
      NotBoth(key, cs, l, m, bucket, x, y);
    } else {
      SubsetFull(Ids(l), Ids(m));
    }
  }

  lemma Missing(a: set<Key>, b: set<Key>, x: Key) returns (y: Key)
    requires |a| == |b| && x in a && x !in b
    ensures y in b && y !in a
  {
    if b <= a {
      SubsetFull(b, a);
      y := x;
    } else {
      y :| y in b && y !in a;
    }
  }

  /** Of two such lists each cannot miss something the other has: each would be nearer than the other. */
  lemma NotBoth(key: Key, cs: seq<Contact>, l: seq<Contact>, m: seq<Contact>, bucket: nat, x: Key, y: Key)
    requires Ids(l) <= Ids(cs) && Ids(m) <= Ids(cs)
    requires forall x, y :: x in Ids(cs) && x !in Ids(l) && y in l ==> Closer(key, y.id, x)
    requires forall x, y :: x in Ids(cs) && x !in Ids(m) && y in m ==> Closer(key, y.id, x)
    ensures !(x in Ids(l) && x !in Ids(m) && y in Ids(m) && y !in Ids(l))
  {
    hide Closer;
    Order(key);
  }
}
