/** Whom a lookup asks, how many at a time, and what replies and timeouts do to its list and to the counters. */
module LookupAsks {
  import opened NodeId
  import opened Nearest
  import opened Lookup
  import opened LookupSafety
  import opened LookupEnds

  function Min(a: int, b: int): int {
    if a < b then a else b
  }

  /** The contacts in the list of a lookup that it may ask. */
  ghost function MayAsk(p: Params, o: Op, fail: map<Contact, nat>): set<Contact> {
    set c | c in o.list && c !in o.block && Fail(fail, c) < p.stale
  }

  // ---------------------------------------------------------------- how many

  ghost function Members(s: seq<Contact>): set<Contact> {
    set c | c in s
  }

  lemma MembersLast(t: seq<Contact>, c: Contact)
    ensures Members(t + [c]) == Members(t) + {c}
  {
    assert c in t + [c];
  }

  lemma {:induction false} MembersSize(s: seq<Contact>)
    requires Distinct(s)
    ensures |Members(s)| == |s|
  {
    if s == [] {
      assert Members(s) == {};
    } else {
      var t, c := s[..|s| - 1], s[|s| - 1];
      assert s == t + [c];
      MembersSize(t);
      MembersLast(t, c);
      assert c !in Members(t);
    }
  }

  lemma EligibleCount(p: Params, o: Op, fail: map<Contact, nat>)
    requires Sorted(o.key, o.list)
    ensures |Eligible(o.list, o.block, fail, 0, p.stale)| == |MayAsk(p, o, fail)|
  {
    hide Eligible, Fail, Sorted;
    SortedDistinct(o.key, o.list);
    EligibleIs(o.list, o.block, fail, 0, p.stale);
    var cs := Eligible(o.list, o.block, fail, 0, p.stale);
    MembersSize(cs);
    SameMembers(p, o, fail, cs);
  }

  lemma SameMembers(p: Params, o: Op, fail: map<Contact, nat>, cs: seq<Contact>)
    requires Lists(cs, o.list, o.block, fail, 0, p.stale)
    ensures Members(cs) == MayAsk(p, o, fail)
  {
    hide Fail;
    forall c ensures c in cs <==> c in MayAsk(p, o, fail) {
      if c in cs { var k :| 0 <= k < |cs| && cs[k] == c; }
      if c in MayAsk(p, o, fail) {
        var k :| 0 <= k < |o.list| && o.list[k] == c;
        assert Askable(o.block, fail, o.list[k], 0, p.stale);
      }
    }
  }

  /** As many are asked as may be sent and may be asked. */
  lemma SendsMin(p: Params, w: World, i: nat, qty: nat, rnd: nat -> int)
    requires i < |w.ops| && Sorted(w.ops[i].key, w.ops[i].list)
    ensures var u := Send(p, w, i, qty, rnd);
            && |u.ops| == |w.ops|
            && u.ops[i].pending == w.ops[i].pending + Min(qty, |MayAsk(p, w.ops[i], w.fail)|)
            && u.ops[i].list == w.ops[i].list && u.fail == w.fail
  {
    hide Eligible, Sorted, MayAsk, Requests;
    EligibleCount(p, w.ops[i], w.fail);
  }

  /** A new lookup asks as many of its first contacts as it may, up to the parallelism limit. */
  lemma StartAsks(p: Params, w: World, key: Key, initial: seq<Contact>, rnd: nat -> int)
    requires p.Valid()
    ensures var u := Start(p, w, key, initial, rnd); var n := |w.ops|;
            && |u.ops| == n + 1 && IsNearest(key, initial, p.bucket, u.ops[n].list)
            && u.ops[n].pending == Min(p.alpha, |set c | c in u.ops[n].list && Fail(w.fail, c) < p.stale|)
  {
    hide Sorted, Send, Offered, Closer, Fail;
    OfferedIsNearest(key, initial, p.bucket);
    var o := Begun(p, key, initial);
    SendsMin(p, w.(ops := w.ops + [o]), |w.ops|, p.alpha, rnd);
    assert MayAsk(p, o, w.fail) == set c | c in o.list && Fail(w.fail, c) < p.stale;
  }

  // ---------------------------------------------------------------- replies

  /** The contacts of a reply that are neither void, oneself, nor asked already. */
  ghost function Usable(found: seq<Contact>, block: seq<Contact>, local: Key): seq<Contact> {
    if found == [] then []
    else
      var c := found[|found| - 1];
      Usable(found[..|found| - 1], block, local)
      + (if Value(c.id) == 0 || c.id == local || HasId(block, c.id) then [] else [c])
  }

  lemma SelfNearest(key: Key, list: seq<Contact>, bucket: nat)
    requires Sorted(key, list) && |list| <= bucket
    ensures IsNearest(key, list, bucket, list)
  {
    hide Closer;
    IdsSize(key, list);
  }

  lemma HasIdIs(s: seq<Contact>, id: Key)
    ensures HasId(s, id) <==> id in Ids(s)
  {
    if HasId(s, id) {
      var k :| 0 <= k < |s| && s[k].id == id;
      assert s[k] in s;
    }
    if id in Ids(s) {
      var c :| c in s && c.id == id;
      var k :| 0 <= k < |s| && s[k] == c;
    }
  }

  /** Taking in one more contact that is not in the list. */
  lemma MergeNext(key: Key, list: seq<Contact>, us: seq<Contact>, bucket: nat, l: seq<Contact>, n: nat, c: Contact)
    requires bucket > 0 && IsNearest(key, list + us, bucket, l) && !HasId(l, c.id)
    requires n > 0 <==> !(Ids(l) <= Ids(list))
    ensures var (m, ok) := Inserted(key, l, c, bucket); var k := if ok then n + 1 else n;
            IsNearest(key, list + (us + [c]), bucket, m) && (k > 0 <==> !(Ids(m) <= Ids(list)))
  {
    hide Closer, Inserted, Ids, Sorted;
    HasIdIs(l, c.id);
    NearestStep(key, list + us, l, c, bucket);
    assert list + us + [c] == list + (us + [c]);
    InsertTells(key, l, c, bucket);
    var (m, ok) := Inserted(key, l, c, bucket);
    if ok {
      NewcomerNew(key, list, us, bucket, l, c);
    } else {
      NotInserted(key, l, c, bucket);
    }
  }

  lemma NotInserted(key: Key, l: seq<Contact>, c: Contact, bucket: nat)
    ensures !Inserted(key, l, c, bucket).1 ==> Inserted(key, l, c, bucket).0 == l
  {
  }

  /** A contact that gets in was not in the list before: it would have been kept or is too far. */
  lemma NewcomerNew(key: Key, list: seq<Contact>, us: seq<Contact>, bucket: nat, l: seq<Contact>, c: Contact)
    requires bucket > 0 && IsNearest(key, list + us, bucket, l) && Inserted(key, l, c, bucket).1
    ensures c.id !in Ids(list)
  {
    hide Closer, Inserted, Sorted;
    InsertTells(key, l, c, bucket);
    if c.id in Ids(list) {
      var x :| x in list && x.id == c.id;
      assert x in list + us;
      OfferAgain(key, list + us, l, c, bucket);
    }
  }

  /**
    After a reply the list holds the nearest of what it held and what the reply
    brought that can be used; it brought somebody new if and only if somebody
    is in the list that was not.
   */
  lemma {:induction false} MergedIsNearest(p: Params, key: Key, list: seq<Contact>, block: seq<Contact>,
                                           found: seq<Contact>, local: Key)
    requires p.Valid() && Sorted(key, list) && |list| <= p.bucket
    ensures var (l, n) := Merged(p, key, list, block, found, local);
            && IsNearest(key, list + Usable(found, block, local), p.bucket, l)
            && (n > 0 <==> !(Ids(l) <= Ids(list)))
            && (n == 0 ==> l == list)
  {
    hide Closer, Inserted, Value, IsNearest, HasId, Ids, Sorted;
    NothingMerged(p, key, list, block, found, local);
    if found == [] {
      SelfNearest(key, list, p.bucket);
      assert list + [] == list;
    } else {
      var t, c := found[..|found| - 1], found[|found| - 1];
      MergedIsNearest(p, key, list, block, t, local);
      var (l, n) := Merged(p, key, list, block, t, local);
      var us := Usable(t, block, local);
      if Value(c.id) == 0 || c.id == local || HasId(block, c.id) {
        assert us + [] == us;
      } else if HasId(l, c.id) {
        Repeated(key, list, us, p.bucket, l, c);
      } else {
        MergeNext(key, list, us, p.bucket, l, n, c);
      }
    }
  }

  lemma Repeated(key: Key, list: seq<Contact>, us: seq<Contact>, bucket: nat, l: seq<Contact>, c: Contact)
    requires IsNearest(key, list + us, bucket, l) && HasId(l, c.id)
    ensures IsNearest(key, list + (us + [c]), bucket, l)
  {
    hide Closer, Inserted, Sorted;
    HasIdIs(l, c.id);
    OfferAgain(key, list + us, l, c, bucket);
    NearestStep(key, list + us, l, c, bucket);
    assert list + us + [c] == list + (us + [c]);
  }

  /**
    A reply that brought somebody new fills the lookup up: to the parallelism
    limit, or until nobody of its list is left to ask.  A reply that did not
    asks nobody.
   */
  lemma ReplyAsks(p: Params, w: World, msgId: int, found: seq<Contact>, local: Key, rnd: nat -> int)
    requires p.Valid() && Inv(p, w) && msgId != 0 && ByMsgId(w.trackers, msgId) < |w.trackers|
    ensures var t := w.trackers[ByMsgId(w.trackers, msgId)]; var o := w.ops[t.op];
            var u := HandleResponse(p, w, msgId, found, local, rnd);
            && |u.ops| == |w.ops|
            && IsNearest(o.key, o.list + Usable(found, o.block, local), p.bucket, u.ops[t.op].list)
            && (u.ops[t.op].pending ==
                if Ids(u.ops[t.op].list) <= Ids(o.list) then o.pending - 1
                else Min(p.alpha, o.pending - 1 + |MayAsk(p, o.(list := u.ops[t.op].list), w.fail)|))
            && (!(Ids(u.ops[t.op].list) <= Ids(o.list)) ==>
                u.ops[t.op].pending == p.alpha || Exhausted(p, u.ops[t.op], u.fail))
  {
    hide Sorted, Covered, Distinct, Serials, Count, Send, Merged, Exhausted, MayAsk, Ids, IsNearest, Fail;
    var k := ByMsgId(w.trackers, msgId);
    var t := w.trackers[k];
    var o := w.ops[t.op];
    OwnKeeps(p, o, w.trackers, k, t.op);
    MergedKeeps(p, o.key, o.list, o.block, found, local);
    MergedIsNearest(p, o.key, o.list, o.block, found, local);
    var (l, n) := Merged(p, o.key, o.list, o.block, found, local);
    var v := w.(succ := w.succ + 1, trackers := Drop(w.trackers, k), fail := w.fail[t.dst := 0],
               resets := w.resets + [(t.dst, t.op)]);
    var q := o.(pending := o.pending - 1, list := l);
    var x := v.(ops := v.ops[t.op := q]);
    SendsMin(p, x, t.op, p.alpha - q.pending, rnd);
    BlockedAnyway(p, o.(list := l), q, w.fail, t.dst);
    if n > 0 { FilledUp(p, x, t.op, p.alpha - q.pending, rnd); }
  }

  /** The counter of a contact asked already does not matter. */
  lemma BlockedAnyway(p: Params, o: Op, q: Op, fail: map<Contact, nat>, c: Contact)
    requires c in o.block && q.list == o.list && q.block == o.block
    ensures MayAsk(p, q, fail[c := 0]) == MayAsk(p, o, fail)
  {
  }

  /** After sending, either all that may be sent was, or nobody is left to ask. */
  lemma FilledUp(p: Params, w: World, i: nat, qty: nat, rnd: nat -> int)
    requires i < |w.ops| && Sorted(w.ops[i].key, w.ops[i].list)
    ensures var u := Send(p, w, i, qty, rnd);
            u.ops[i].pending == w.ops[i].pending + qty || Exhausted(p, u.ops[i], u.fail)
  {
    hide Sorted, Chosen, Requests, Fail;
    ChosenIs(p, w.ops[i], w.fail, qty);
    var cs := Chosen(p, w.ops[i], w.fail, qty);
    var o, u := w.ops[i], Send(p, w, i, qty, rnd);
    if |cs| < qty {
      forall k | 0 <= k < |o.list| ensures !Askable(u.ops[i].block, u.fail, o.list[k], 0, p.stale) {
        if Askable(o.block, w.fail, o.list[k], 0, p.stale) { assert o.list[k] in cs; }
      }
    }
  }

  /** A reply takes the counter of its sender back to zero and touches no other. */
  lemma ReplyCounts(p: Params, w: World, msgId: int, found: seq<Contact>, local: Key, rnd: nat -> int, c: Contact)
    requires Indexed(w) && msgId != 0 && ByMsgId(w.trackers, msgId) < |w.trackers|
    ensures var t := w.trackers[ByMsgId(w.trackers, msgId)]; var u := HandleResponse(p, w, msgId, found, local, rnd);
            Fail(u.fail, c) == if c == t.dst then 0 else Fail(w.fail, c)
  {
    hide Merged, Chosen, Requests;
  }

  // ---------------------------------------------------------------- timeouts

  /** A timeout raises the counter of the contact by one and touches no other. */
  lemma TimeoutCounts(p: Params, w: World, serial: nat, rnd: nat -> int, c: Contact)
    requires Indexed(w) && BySerial(w.trackers, serial) < |w.trackers|
    ensures var t := w.trackers[BySerial(w.trackers, serial)]; var u := HandleTimeout(p, w, serial, rnd);
            Fail(u.fail, c) == Fail(w.fail, c) + if c == t.dst then 1 else 0
  {
    hide Without, Chosen, Requests;
  }

  /**
    After a timeout the contact leaves the list if it failed too often, and may
    be asked again if not; the lookup asks one more, if there is one.
   */
  lemma TimeoutAsks(p: Params, w: World, serial: nat, rnd: nat -> int)
    requires p.Valid() && Inv(p, w) && BySerial(w.trackers, serial) < |w.trackers|
    ensures var t := w.trackers[BySerial(w.trackers, serial)]; var o := w.ops[t.op];
            var u := HandleTimeout(p, w, serial, rnd);
            && |u.ops| == |w.ops|
            && (forall c :: c in u.ops[t.op].list <==>
                  c in o.list && !(c == t.dst && Fail(w.fail, t.dst) + 1 >= p.stale))
            && var may := set c | c in o.list && Fail(u.fail, c) < p.stale && (c !in o.block || c == t.dst);
               u.ops[t.op].pending == o.pending - 1 + Min(1, |may|)
  {
    hide Sorted, Covered, Distinct, Serials, Count, Send, Without, Fail, MayAsk, Chosen;
    var k := BySerial(w.trackers, serial);
    var t := w.trackers[k];
    var o := w.ops[t.op];
    OwnKeeps(p, o, w.trackers, k, t.op);
    TimeoutCounts(p, w, serial, rnd, t.dst);
    var v := w.(failed := w.failed + 1, trackers := Drop(w.trackers, k),
               fail := w.fail[t.dst := Fail(w.fail, t.dst) + 1]);
    FailNow(w.fail, t.dst);
    var q := o.(pending := o.pending - 1);
    var q' := if Fail(v.fail, t.dst) >= p.stale then q.(list := Without(q.list, t.dst))
              else q.(block := Without(q.block, t.dst));
    var x := v.(ops := v.ops[t.op := q']);
    WithoutSorted(o.key, o.list, t.dst);
    SendsMin(p, x, t.op, 1, rnd);
    MayAskAfter(p, o, q', v.fail, t.dst);
  }

  lemma FailNow(fail: map<Contact, nat>, c: Contact)
    ensures Fail(fail[c := Fail(fail, c) + 1], c) == Fail(fail, c) + 1
  {
  }

  lemma MayAskAfter(p: Params, o: Op, q: Op, fail: map<Contact, nat>, d: Contact)
    requires Sorted(o.key, o.list) && Distinct(o.block) && d in o.block
    requires q == if Fail(fail, d) >= p.stale then q.(list := Without(o.list, d), block := o.block)
                  else q.(list := o.list, block := Without(o.block, d))
    ensures MayAsk(p, q, fail) == set c | c in o.list && Fail(fail, c) < p.stale && (c !in o.block || c == d)
    ensures forall c :: c in q.list <==> c in o.list && !(c == d && Fail(fail, d) >= p.stale)
  {
    hide Sorted, Fail, Without, Distinct;
    SortedDistinct(o.key, o.list);
    WithoutIs(o.list, d);
    WithoutIs(o.block, d);
    WithoutHas(o.list, d);
    WithoutHas(o.block, d);
  }

  lemma WithoutHas(s: seq<Contact>, d: Contact)
    requires Distinct(s)
    ensures forall c :: c in Without(s, d) <==> c in s && c != d
  {
    WithoutIs(s, d);
    hide Distinct, Without;
    forall c ensures c in Without(s, d) <==> c in s && c != d {
      if c in s { var k :| 0 <= k < |s| && s[k] == c; }
      if c in Without(s, d) { var k :| 0 <= k < |Without(s, d)| && Without(s, d)[k] == c; }
    }
  }

  // ---------------------------------------------------------------- in which order

  /** `c` is asked rather than `d`: it failed less often, or as often and is nearer. */
  ghost predicate Rather(key: Key, fail: map<Contact, nat>, c: Contact, d: Contact) {
    Fail(fail, c) < Fail(fail, d) || (Fail(fail, c) == Fail(fail, d) && Closer(key, c.id, d.id))
  }

  /** `cs` are contacts of `list` that failed `level` times. */
  ghost predicate AtLevel(cs: seq<Contact>, list: seq<Contact>, fail: map<Contact, nat>, level: nat) {
    forall k :: 0 <= k < |cs| ==> cs[k] in list && Fail(fail, cs[k]) == level
  }

  ghost predicate AtLeast(cs: seq<Contact>, fail: map<Contact, nat>, level: nat) {
    forall k :: 0 <= k < |cs| ==> Fail(fail, cs[k]) >= level
  }

  ghost predicate InOrder(key: Key, fail: map<Contact, nat>, cs: seq<Contact>) {
    forall j, k :: 0 <= j < k < |cs| ==> Rather(key, fail, cs[j], cs[k])
  }

  lemma {:induction false} LevelRather(key: Key, list: seq<Contact>, block: seq<Contact>, fail: map<Contact, nat>,
                                       level: nat)
    requires Sorted(key, list)
    ensures AtLevel(Level(list, block, fail, level), list, fail, level)
    ensures InOrder(key, fail, Level(list, block, fail, level))
  {
    hide Closer, Fail;
    if list != [] {
      var t := list[1..];
      assert Sorted(key, t) by { assert forall k :: 0 <= k < |t| ==> t[k] == list[k + 1]; }
      LevelRather(key, t, block, fail, level);
      var cs := Level(t, block, fail, level);
      forall k | 0 <= k < |cs| ensures cs[k] in list && Closer(key, list[0].id, cs[k].id) {
        var i :| 0 <= i < |t| && t[i] == cs[k];
        assert list[i + 1] == cs[k];
      }
    }
  }

  lemma {:induction false} EligibleRather(key: Key, list: seq<Contact>, block: seq<Contact>, fail: map<Contact, nat>,
                                          level: nat, stale: nat)
    requires Sorted(key, list)
    ensures AtLeast(Eligible(list, block, fail, level, stale), fail, level)
    ensures InOrder(key, fail, Eligible(list, block, fail, level, stale))
    decreases stale - level
  {
    hide Closer, Fail, Level, Sorted;
    if level < stale {
      LevelRather(key, list, block, fail, level);
      EligibleRather(key, list, block, fail, level + 1, stale);
      var a, b := Level(list, block, fail, level), Eligible(list, block, fail, level + 1, stale);
      forall j, k | 0 <= j < k < |a + b| ensures Rather(key, fail, (a + b)[j], (a + b)[k]) {
        if j < |a| <= k { assert Fail(fail, a[j]) == level < Fail(fail, b[k - |a|]); }
      }
    }
  }

  /**
    Whom a lookup asks: one that failed less often before one that failed more
    often, and the nearer one first among equals; nobody passed over should
    have been asked rather than somebody who was.
   */
  lemma ChosenRather(p: Params, o: Op, fail: map<Contact, nat>, qty: nat, d: Contact)
    requires Sorted(o.key, o.list)
    ensures var cs := Chosen(p, o, fail, qty);
            && (forall j, k :: 0 <= j < k < |cs| ==> Rather(o.key, fail, cs[j], cs[k]))
            && (d in MayAsk(p, o, fail) && d !in cs ==> forall k :: 0 <= k < |cs| ==> Rather(o.key, fail, cs[k], d))
  {
    hide Closer, Fail, Eligible, Sorted, Rather;
    var all, cs := Eligible(o.list, o.block, fail, 0, p.stale), Chosen(p, o, fail, qty);
    EligibleRather(o.key, o.list, o.block, fail, 0, p.stale);
    SortedDistinct(o.key, o.list);
    EligibleIs(o.list, o.block, fail, 0, p.stale);
    SameMembers(p, o, fail, all);
    assert forall k :: 0 <= k < |cs| ==> cs[k] == all[k];
    if d in MayAsk(p, o, fail) && d !in cs {
      assert d in Members(all);
      var i :| 0 <= i < |all| && all[i] == d;
      assert i >= |cs|;
    }
  }
}
