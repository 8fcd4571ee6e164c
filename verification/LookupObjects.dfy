/**
  The lookup as objects that change in place: contacts with their fail
  counters, the lookups, and the manager with its list of outstanding
  requests.  Each handler does to the view `Abs()` what the function of the
  same name in `Lookup` does.
 */
module LookupObjects {
  import opened NodeId
  import opened Nearest
  import L = Lookup
  import S = LookupSafety

  /** The fail counters of the contacts in `known`. */
  ghost function Counters(known: set<Contact>): map<Contact, nat>
    reads known
  {
    map c | c in known :: c.failQty
  }

  class FindOp {
    const key: Key
    var list: seq<Contact>
    var block: seq<Contact>
    var pendingQty: int
    var completed: nat
    ghost var asked: multiset<Contact>

    ghost function Abs(): L.Op
      reads this
    {
      L.Op(key, list, block, pendingQty, completed, asked)
    }

    constructor (key: Key)
      ensures Abs() == L.Op(key, [], [], 0, 0, multiset{})
    {
      this.key := key;
      list, block, pendingQty, completed, asked := [], [], 0, 0, multiset{};
    }

    /** Offers `c` to the list of the nearest contacts; returns whether it got in. */
    method Insert(c: Contact, bucket: nat) returns (ok: bool)
      modifies this`list
      ensures (list, ok) == Inserted(key, old(list), c, bucket)
    {
      hide Closer;
      var i := 0;
      while i < |list|
        invariant 0 <= i <= |list|
        invariant forall k :: 0 <= k < i ==> list[k].id != c.id && !Closer(key, c.id, list[k].id)
      {
        if c.id == list[i].id {
          PlaceUnique(key, list, c.id, i);
          return false;
        } else if Closer(key, c.id, list[i].id) {
          break;
        }
        i := i + 1;
      }
      PlaceUnique(key, list, c.id, i);
      if i == |list| {
        if |list| < bucket {
          assert list + [c] == list[..i] + [c] + list[i..];
          list := list + [c];
          return true;
        }
      } else if |list| < bucket {
        list := list[..i] + [c] + list[i..];
        return true;
      } else {
        // the farthest one is dropped
        list := list[..i] + [c] + list[i..];
        list := list[..|list| - 1];
        return true;
      }
      return false;
    }

    /** Offers all of `initial`, in order. */
    method InsertAll(initial: seq<Contact>, bucket: nat)
      requires list == []
      modifies this`list
      ensures list == Offered(key, initial, bucket)
    {
      var i := 0;
      while i < |initial|
        invariant 0 <= i <= |initial| && list == Offered(key, initial[..i], bucket)
      {
        assert initial[..i + 1][..i] == initial[..i];
        var ok := Insert(initial[i], bucket);
        i := i + 1;
      }
      assert initial[..|initial|] == initial;
    }

    static method HasId(id: Key, s: seq<Contact>) returns (has: bool)
      ensures has <==> Nearest.HasId(s, id)
    {
      var i := 0;
      while i < |s|
        invariant 0 <= i <= |s| && forall k :: 0 <= k < i ==> s[k].id != id
      {
        if s[i].id == id {
          return true;
        }
        i := i + 1;
      }
      has := false;
    }

    /** Merges the contacts of a reply into the list; returns how many got in. */
    method Merge(p: L.Params, found: seq<Contact>, local: Key) returns (insertQty: nat)
      modifies this`list
      ensures (list, insertQty) == L.Merged(p, key, old(list), block, found, local)
    {
      hide Inserted, Value, Nearest.HasId;
      insertQty := 0;
      var i := 0;
      while i < |found|
        invariant 0 <= i <= |found| && (list, insertQty) == L.Merged(p, key, old(list), block, found[..i], local)
      {
        assert found[..i + 1][..i] == found[..i];
        var id := found[i].id;
        if Value(id) != 0 && id != local {
          var blocked := HasId(id, block);
          var listed := HasId(id, list);
          if !blocked && !listed {
            var ok := Insert(found[i], p.bucket);
            if ok {
              insertQty := insertQty + 1;
            }
          }
        }
        i := i + 1;
      }
      assert found[..|found|] == found;
    }

    /** Removes `c` from a list of contacts. */
    static method Remove(s: seq<Contact>, c: Contact) returns (t: seq<Contact>)
      ensures t == L.Without(s, c)
    {
      var i := 0;
      while i < |s| && s[i] != c
        invariant 0 <= i <= |s| && forall k :: 0 <= k < i ==> s[k] != c
      {
        i := i + 1;
      }
      WithoutAt(s, c, i);
      if i == |s| {
        return s;
      }
      t := s[..i] + s[i + 1..];
    }

    static lemma {:induction false} WithoutAt(s: seq<Contact>, c: Contact, i: nat)
      requires i <= |s| && (i < |s| ==> s[i] == c) && forall k :: 0 <= k < i ==> s[k] != c
      ensures L.Without(s, c) == if i < |s| then s[..i] + s[i + 1..] else s
      decreases i
    {
      if i > 0 {
        var t := s[1..];
        assert forall k :: 0 <= k < |t| ==> t[k] == s[k + 1];
        WithoutAt(t, c, i - 1);
        assert L.Without(s, c) == [s[0]] + L.Without(t, c);
        if i < |s| {
          assert s[..i] + s[i + 1..] == [s[0]] + (t[..i - 1] + t[i..]);
        } else {
          assert s == [s[0]] + t;
        }
      } else if s != [] {
        assert s[..0] + s[1..] == s[1..];
      }
    }
  }

  ghost function OpsOf(fs: seq<FindOp>): (ops: seq<L.Op>)
    reads fs
    ensures |ops| == |fs| && forall i :: 0 <= i < |fs| ==> ops[i] == fs[i].Abs()
  {
    seq(|fs|, i requires 0 <= i < |fs| reads fs => fs[i].Abs())
  }

  // ---------------------------------------------------------------- everybody mentioned is known

  ghost predicate Within(s: seq<Contact>, known: set<Contact>) {
    forall k :: 0 <= k < |s| ==> s[k] in known
  }

  ghost predicate ClosedOp(o: L.Op, known: set<Contact>) {
    Within(o.list, known) && Within(o.block, known)
  }

  ghost predicate Closed(w: L.World, known: set<Contact>) {
    && (forall i :: 0 <= i < |w.ops| ==> ClosedOp(w.ops[i], known))
    && (forall k :: 0 <= k < |w.trackers| ==> w.trackers[k].dst in known)
  }

  lemma SendCloses(p: L.Params, w: L.World, i: nat, qty: nat, rnd: nat -> int, known: set<Contact>)
    requires Closed(w, known) && i < |w.ops| && Sorted(w.ops[i].key, w.ops[i].list)
    ensures Closed(L.Send(p, w, i, qty, rnd), known) && |L.Send(p, w, i, qty, rnd).ops| == |w.ops|
  {
    hide Sorted, L.Chosen, Distinct, S.Lists, S.Askable;
    S.ChosenIs(p, w.ops[i], w.fail, qty);
  }

  lemma InsertedFrom(key: Key, list: seq<Contact>, c: Contact, bucket: nat, known: set<Contact>)
    requires Within(list, known) && c in known
    ensures Within(Inserted(key, list, c, bucket).0, known)
  {
    hide Place, Closer;
  }

  lemma {:induction false} MergedFrom(p: L.Params, key: Key, list: seq<Contact>, block: seq<Contact>,
                                      found: seq<Contact>, local: Key, known: set<Contact>)
    requires Within(list, known) && Within(found, known)
    ensures Within(L.Merged(p, key, list, block, found, local).0, known)
  {
    hide Inserted, Value, Nearest.HasId;
    if found != [] {
      var (l, n) := L.Merged(p, key, list, block, found[..|found| - 1], local);
      MergedFrom(p, key, list, block, found[..|found| - 1], local, known);
      InsertedFrom(key, l, found[|found| - 1], p.bucket, known);
    }
  }

  lemma {:induction false} OfferedFrom(key: Key, cs: seq<Contact>, bucket: nat, known: set<Contact>)
    requires Within(cs, known)
    ensures Within(Offered(key, cs, bucket), known)
  {
    hide Inserted;
    if cs != [] {
      OfferedFrom(key, cs[..|cs| - 1], bucket, known);
      InsertedFrom(key, Offered(key, cs[..|cs| - 1], bucket), cs[|cs| - 1], bucket, known);
    }
  }

  lemma {:induction false} WithoutFrom(s: seq<Contact>, c: Contact, known: set<Contact>)
    requires Within(s, known)
    ensures Within(L.Without(s, c), known)
  {
    if s != [] && s[0] != c {
      WithoutFrom(s[1..], c, known);
    }
  }

  lemma ResponseCloses(p: L.Params, w: L.World, msgId: int, found: seq<Contact>, local: Key, rnd: nat -> int,
                       known: set<Contact>)
    requires p.Valid() && S.Inv(p, w) && Closed(w, known) && Within(found, known)
    ensures Closed(L.HandleResponse(p, w, msgId, found, local, rnd), known)
  {
    hide L.Send, L.Merged, S.Covered, S.Serials, Distinct, S.Count, Sorted;
    var k := L.ByMsgId(w.trackers, msgId);
    if msgId != 0 && k < |w.trackers| {
      var t := w.trackers[k];
      var o := w.ops[t.op];
      MergedFrom(p, o.key, o.list, o.block, found, local, known);
      S.MergedKeeps(p, o.key, o.list, o.block, found, local);
      S.OwnKeeps(p, o, w.trackers, k, t.op);
      var (l, n) := L.Merged(p, o.key, o.list, o.block, found, local);
      var v := w.(succ := w.succ + 1, trackers := L.Drop(w.trackers, k), fail := w.fail[t.dst := 0],
                 resets := w.resets + [(t.dst, t.op)]);
      var q := o.(pending := o.pending - 1, list := l);
      SendCloses(p, v.(ops := v.ops[t.op := q]), t.op, p.alpha - q.pending, rnd, known);
    }
  }

  lemma TimeoutCloses(p: L.Params, w: L.World, serial: nat, rnd: nat -> int, known: set<Contact>)
    requires p.Valid() && S.Inv(p, w) && Closed(w, known)
    ensures Closed(L.HandleTimeout(p, w, serial, rnd), known)
  {
    hide L.Send, L.Without, L.Chosen, L.Fail, S.Covered, S.Serials, Distinct, S.Count, Sorted;
    var k := L.BySerial(w.trackers, serial);
    if k < |w.trackers| {
      var t := w.trackers[k];
      var o := w.ops[t.op];
      WithoutFrom(o.list, t.dst, known);
      WithoutFrom(o.block, t.dst, known);
      S.WithoutSorted(o.key, o.list, t.dst);
      S.OwnKeeps(p, o, w.trackers, k, t.op);
      var v := w.(failed := w.failed + 1, trackers := L.Drop(w.trackers, k),
                 fail := w.fail[t.dst := L.Fail(w.fail, t.dst) + 1]);
      var q := o.(pending := o.pending - 1);
      var q' := if L.Fail(v.fail, t.dst) >= p.stale then q.(list := L.Without(q.list, t.dst))
                else q.(block := L.Without(q.block, t.dst));
      SendCloses(p, v.(ops := v.ops[t.op := q']), t.op, 1, rnd, known);
    }
  }

  // ---------------------------------------------------------------- the manager

  class OpMgr {
    const p: L.Params
    const local: Key
    const rnd: nat -> int
    var trackers: seq<L.Tracker>
    var finds: seq<FindOp>
    var reqSucc: nat
    var reqFail: nat
    var rspUnkn: nat
    var sent: nat            // numbers the tracker objects
    ghost var wrong: nat
    ghost var resets: seq<(Contact, int)>
    /** All contacts there are. */
    ghost var known: set<Contact>

    ghost function Abs(): L.World
      reads this, finds, known
    {
      L.World(Counters(known), OpsOf(finds), trackers, sent, reqSucc, reqFail, rspUnkn, wrong, resets)
    }

    ghost predicate Knows(s: seq<Contact>)
      reads this`known
    {
      Within(s, known)
    }

    ghost predicate Apart()
      reads this`finds
    {
      forall i, j :: 0 <= i < j < |finds| ==> finds[i] != finds[j]
    }

    ghost predicate Valid()
      reads this, finds, known
    {
      p.Valid() && Apart() && Closed(Abs(), known) && S.Inv(p, Abs())
    }

    constructor (p: L.Params, local: Key, rnd: nat -> int)
      requires p.Valid()
      ensures Valid() && Abs() == L.Init() && this.p == p && this.local == local && this.rnd == rnd
    {
      this.p, this.local, this.rnd := p, local, rnd;
      trackers, finds, reqSucc, reqFail, rspUnkn := [], [], 0, 0, 0;
      sent, wrong, resets, known := 0, 0, [], {};
    }

    // -------------------------------------------------------------- sending

    /** What lookup `i` and the manager were like when `cs` had not been asked yet. */
    ghost predicate Asked(i: nat, before: L.Op, ts: seq<L.Tracker>, n: nat, cs: seq<Contact>)
      reads this`finds, this`trackers, this`sent, finds
    {
      && i < |finds|
      && finds[i].Abs() == before.(block := before.block + cs, pending := before.pending + |cs|,
                                     asked := before.asked + multiset(cs))
      && trackers == ts + L.Requests(cs, n, i, rnd) && sent == n + |cs|
    }

    /** Blocks `c` and sends it a request. */
    method Ask(op: FindOp, i: nat, c: Contact, ghost before: L.Op, ghost ts: seq<L.Tracker>, ghost n: nat,
               ghost cs: seq<Contact>)
      requires Asked(i, before, ts, n, cs) && op == finds[i]
      modifies this`trackers, this`sent, op`block, op`pendingQty, op`asked
      ensures Asked(i, before, ts, n, cs + [c])
    {
      op.block := op.block + [c];
      trackers := trackers + [L.Tracker(sent, rnd(sent), c, i)];
      sent := sent + 1;
      op.pendingQty := op.pendingQty + 1;
      op.asked := op.asked + multiset([c]);
      OneMore(before, ts, n, i, cs, c);
    }

    lemma OneMore(before: L.Op, ts: seq<L.Tracker>, n: nat, i: nat, cs: seq<Contact>, c: Contact)
      ensures before.block + cs + [c] == before.block + (cs + [c])
      ensures before.asked + multiset(cs) + multiset([c]) == before.asked + multiset(cs + [c])
      ensures ts + L.Requests(cs, n, i, rnd) + [L.Tracker(n + |cs|, rnd(n + |cs|), c, i)]
              == ts + L.Requests(cs + [c], n, i, rnd)
    {
    }

    /** The contacts of one fail count: asks those that may be asked, up to `qty` in all. */
    method SendLevel(op: FindOp, i: nat, stale: nat, qty: int, sent0: int,
                     ghost before: L.Op, ghost ts: seq<L.Tracker>, ghost n: nat, ghost cs: seq<Contact>)
      returns (sentQty: int, ghost ds: seq<Contact>)
      requires Asked(i, before, ts, n, cs) && op == finds[i] && |cs| == sent0 < qty
      requires Distinct(before.list) && Knows(before.list)
      requires forall k :: 0 <= k < |cs| ==> cs[k].failQty < stale
      modifies this`trackers, this`sent, op`block, op`pendingQty, op`asked
      ensures Asked(i, before, ts, n, cs + ds) && sentQty == sent0 + |ds|
      ensures ds == L.Take(L.Level(before.list, before.block, Counters(known), stale), qty - sent0)
    {
      hide Distinct, L.Level, Asked, L.Take, Counters, Knows;
      sentQty, ds := sent0, [];
      ghost var f := Counters(known);
      ghost var lv := L.Level(before.list, before.block, f, stale);
      var j := 0;
      LevelStart(before.list, before.block, f, stale);
      assert cs + [] == cs;
      AskedIs(op, i, before, ts, n, cs);
      while j < |op.list|
        invariant 0 <= j <= |before.list| && op.list == before.list && Knows(before.list) && f == Counters(known)
        invariant Asked(i, before, ts, n, cs + ds) && sentQty == sent0 + |ds| < qty
        invariant lv == ds + L.Level(before.list[j..], before.block, f, stale)
        invariant forall k :: 0 <= k < |ds| ==> ds[k] in before.list[..j]
      {
        var c := op.list[j];
        LevelNext(before, cs, ds, j, stale);
        AskedIs(op, i, before, ts, n, cs + ds);
        if stale == c.failQty && c !in op.block {
          Ask(op, i, c, before, ts, n, cs + ds);
          MoreOf(cs, ds, c, L.Level(before.list[j + 1..], before.block, f, stale));
          ds := ds + [c];
          sentQty := sentQty + 1;
          if sentQty >= qty {
            TakeAll(lv, ds, L.Level(before.list[j + 1..], before.block, f, stale), qty - sent0);
            return;
          }
        }
        j := j + 1;
      }
      LevelEnd(before.list, before.block, f, stale);
      TakeAll(lv, ds, [], qty - sent0);
    }

    lemma AskedIs(op: FindOp, i: nat, before: L.Op, ts: seq<L.Tracker>, n: nat, cs: seq<Contact>)
      requires Asked(i, before, ts, n, cs) && op == finds[i]
      ensures op.list == before.list && op.block == before.block + cs
    {
    }

    static lemma MoreOf(cs: seq<Contact>, ds: seq<Contact>, c: Contact, rest: seq<Contact>)
      ensures cs + ds + [c] == cs + (ds + [c]) && ds + ([c] + rest) == ds + [c] + rest
    {
    }

    static lemma TakeAll(lv: seq<Contact>, ds: seq<Contact>, rest: seq<Contact>, n: int)
      requires lv == ds + rest && (if rest == [] then |ds| <= n else |ds| == n) && n > 0
      ensures L.Take(lv, n) == ds
    {
    }

    lemma LevelStart(list: seq<Contact>, block: seq<Contact>, f: map<Contact, nat>, stale: nat)
      ensures L.Level(list, block, f, stale) == [] + L.Level(list[0..], block, f, stale)
    {
      assert list[0..] == list;
    }

    lemma LevelEnd(list: seq<Contact>, block: seq<Contact>, f: map<Contact, nat>, stale: nat)
      ensures L.Level(list[|list|..], block, f, stale) == []
    {
    }

    /** The next contact of the level: it is in the level exactly if the test of the loop succeeds. */
    lemma LevelNext(before: L.Op, cs: seq<Contact>, ds: seq<Contact>, j: nat, stale: nat)
      requires j < |before.list| && Distinct(before.list) && Knows(before.list)
      requires forall k :: 0 <= k < |cs| ==> cs[k].failQty < stale
      requires forall k :: 0 <= k < |ds| ==> ds[k] in before.list[..j]
      ensures var c := before.list[j]; var f := Counters(known);
              L.Level(before.list[j..], before.block, f, stale)
              == (if stale == c.failQty && c !in before.block + (cs + ds) then [c] else [])
                 + L.Level(before.list[j + 1..], before.block, f, stale)
      ensures forall k :: 0 <= k < |ds| ==> ds[k] in before.list[..j + 1]
      ensures before.list[j] in before.list[..j + 1]
    {
      var c := before.list[j];
      assert before.list[j..][0] == c && before.list[j..][1..] == before.list[j + 1..];
      assert c !in before.list[..j];
      assert c in known;
    }

    /** What one level contributes to the contacts that may be asked. */
    lemma LevelDone(before: L.Op, cs: seq<Contact>, s: nat, n: int)
      requires Distinct(before.list) && Knows(before.list) && s < p.stale && |cs| < n
      requires forall k :: 0 <= k < |cs| ==> cs[k].failQty < s
      ensures var f := Counters(known);
              var lv := L.Level(before.list, before.block, f, s);
              var rest := L.Eligible(before.list, before.block, f, s + 1, p.stale);
              var ds := L.Take(lv, n - |cs|);
              && L.Eligible(before.list, before.block, f, s, p.stale) == lv + rest
              && (forall k :: 0 <= k < |cs + ds| ==> (cs + ds)[k].failQty < s + 1)
              && (|cs + ds| < n ==> ds == lv)
              && (|cs + ds| >= n ==> L.Take(cs + (lv + rest), n) == cs + ds)
              && cs + (lv + rest) == cs + lv + rest
    {
      hide L.Level, Distinct, Counters;
      var f := Counters(known);
      var lv := L.Level(before.list, before.block, f, s);
      var rest := L.Eligible(before.list, before.block, f, s + 1, p.stale);
      LevelFails(before, s);
      TakePart(cs, lv, rest, n);
    }

    /** The contacts of level `s` failed `s` times. */
    lemma LevelFails(before: L.Op, s: nat)
      requires Distinct(before.list) && Knows(before.list)
      ensures var lv := L.Level(before.list, before.block, Counters(known), s);
              forall k :: 0 <= k < |lv| ==> lv[k].failQty == s
    {
      hide L.Level, Distinct;
      var lv := L.Level(before.list, before.block, Counters(known), s);
      S.LevelIs(before.list, before.block, Counters(known), s);
      forall k | 0 <= k < |lv| ensures lv[k].failQty == s { assert lv[k] in known; }
    }

    static lemma TakePart(cs: seq<Contact>, lv: seq<Contact>, rest: seq<Contact>, n: int)
      requires |cs| < n
      ensures var ds := L.Take(lv, n - |cs|);
              && (|cs + ds| < n ==> ds == lv)
              && (|cs + ds| >= n ==> L.Take(cs + (lv + rest), n) == cs + ds)
              && cs + (lv + rest) == cs + lv + rest
    {
    }

    lemma Unasked(op: FindOp, i: nat)
      requires i < |finds| && op == finds[i]
      ensures Asked(i, op.Abs(), trackers, sent, [])
    {
      assert op.block + [] == op.block;
      assert op.asked + multiset([]) == op.asked;
      assert trackers + [] == trackers;
    }

    /** Asks up to `qty` contacts, those that failed least first. */
    method SendLevels(op: FindOp, i: nat, qty: int) returns (sentQty: int, ghost cs: seq<Contact>)
      requires i < |finds| && op == finds[i] && Distinct(op.list) && Knows(op.list) && qty > 0
      modifies this`trackers, this`sent, op`block, op`pendingQty, op`asked
      ensures Asked(i, old(op.Abs()), old(trackers), old(sent), cs) && sentQty == |cs|
      ensures cs == L.Chosen(p, old(op.Abs()), old(Counters(known)), qty)
    {
      hide Distinct, L.Level, L.Eligible, Asked, L.Take, Counters, Knows;
      ghost var before, ts, n, f := op.Abs(), trackers, sent, Counters(known);
      ghost var all := L.Eligible(before.list, before.block, f, 0, p.stale);
      Unasked(op, i);
      sentQty, cs := 0, [];
      var stale := 0;
      assert [] + all == all;
      while stale < p.stale
        invariant 0 <= stale <= p.stale && f == Counters(known) && Knows(before.list)
        invariant Asked(i, before, ts, n, cs) && sentQty == |cs| < qty
        invariant all == cs + L.Eligible(before.list, before.block, f, stale, p.stale)
        invariant forall k :: 0 <= k < |cs| ==> cs[k].failQty < stale
      {
        ghost var ds;
        sentQty, ds := SendLevel(op, i, stale, qty, sentQty, before, ts, n, cs);
        LevelDone(before, cs, stale, qty);
        cs := cs + ds;
        if sentQty >= qty {
          return;
        }
        stale := stale + 1;
      }
      NoMoreLevels(before, f, cs, qty);
    }

    lemma NoMoreLevels(before: L.Op, f: map<Contact, nat>, cs: seq<Contact>, qty: int)
      requires |cs| < qty
      ensures L.Take(cs + L.Eligible(before.list, before.block, f, p.stale, p.stale), qty) == cs
    {
    }

    /** Sends up to `qty` requests for lookup `i`; the program asserts that `qty` is positive. */
    method Send(op: FindOp, i: nat, qty: int) returns (sentQty: int)
      requires i < |finds| && op == finds[i] && Apart() && Distinct(op.list) && Knows(op.list) && qty > 0
      modifies this`trackers, this`sent, op`block, op`pendingQty, op`asked
      ensures Abs() == L.Send(p, old(Abs()), i, qty, rnd)
      ensures sentQty == |L.Chosen(p, old(op.Abs()), old(Counters(known)), qty)|
    {
      hide Distinct, L.Chosen, Counters, Knows, L.Requests, OpsOf;
      ghost var w := Abs();
      ghost var cs;
      sentQty, cs := SendLevels(op, i, qty);
      OthersAs(w.ops, i);
    }

    /** All lookups but number `i` are as in `ops`. */
    lemma OthersAs(ops: seq<L.Op>, i: nat)
      requires |ops| == |finds| && i < |finds| && forall j :: 0 <= j < |finds| && j != i ==> finds[j].Abs() == ops[j]
      ensures OpsOf(finds) == ops[i := finds[i].Abs()]
    {
    }

    // -------------------------------------------------------------- a new lookup

    /** Begins a lookup of `key` with the contacts `initial`. */
    method Find(key: Key, initial: seq<Contact>)
      requires Valid() && Knows(initial)
      modifies this`finds, this`trackers, this`sent
      ensures Valid() && Abs() == L.Start(p, old(Abs()), key, initial, rnd)
      ensures finds[..|finds| - 1] == old(finds) && fresh(finds[|finds| - 1])
    {
      hide S.Inv, Distinct, Closed, L.Send, Offered, Counters, Sorted, Within;
      ghost var w := Abs();
      ghost var o := L.Op(key, Offered(key, initial, p.bucket), [], 0, 0, multiset{});
      S.StartKeeps(p, w, key, initial, rnd);
      NewLookup(w, o, key, initial);
      var op := new FindOp(key);
      op.InsertAll(initial, p.bucket);
      var i := |finds|;
      Enlist(op);
      var sentQty := Send(op, i, p.alpha);
    }

    /** A new lookup joins the others. */
    method Enlist(op: FindOp)
      requires Apart() && op !in finds
      modifies this`finds
      ensures finds == old(finds) + [op] && Apart() && Abs() == old(Abs()).(ops := old(Abs()).ops + [op.Abs()])
    {
      hide Counters;
      finds := finds + [op];
      assert OpsOf(finds) == old(OpsOf(finds)) + [op.Abs()];
    }

    lemma NewLookup(w: L.World, o: L.Op, key: Key, initial: seq<Contact>)
      requires p.Valid() && S.Inv(p, w) && Closed(w, known) && Knows(initial)
      requires o == L.Op(key, Offered(key, initial, p.bucket), [], 0, 0, multiset{})
      ensures Distinct(o.list) && Within(o.list, known)
      ensures Closed(L.Start(p, w, key, initial, rnd), known)
    {
      hide Closer, Offered, L.Send, S.OpInv, S.Serials;
      OfferedIsNearest(key, initial, p.bucket);
      S.SortedDistinct(key, o.list);
      OfferedFrom(key, initial, p.bucket, known);
      SendCloses(p, w.(ops := w.ops + [o]), |w.ops|, p.alpha, rnd, known);
    }

    // -------------------------------------------------------------- replies

    /** Reports the result of lookup `i`. */
    method Complete(op: FindOp, i: nat)
      requires i < |finds| && op == finds[i] && Apart()
      modifies op`completed
      ensures Abs() == L.Complete(old(Abs()), i)
    {
      hide Counters;
      op.completed := op.completed + 1;
      assert OpsOf(finds) == old(OpsOf(finds))[i := op.Abs()];
    }

    /** Lookup `i` waits for one answer less and takes in the contacts `found`. */
    method Absorb(op: FindOp, i: nat, found: seq<Contact>) returns (insertQty: nat)
      requires i < |finds| && op == finds[i] && Apart()
      modifies op`list, op`pendingQty
      ensures var w := old(Abs()); var o := w.ops[i]; var (l, n) := L.Merged(p, o.key, o.list, o.block, found, local);
              n == insertQty && Abs() == w.(ops := w.ops[i := o.(pending := o.pending - 1, list := l)])
    {
      hide L.Merged, Counters;
      op.pendingQty := op.pendingQty - 1;
      insertQty := op.Merge(p, found, local);
      assert OpsOf(finds) == old(OpsOf(finds))[i := op.Abs()];
    }

    /** Contact `contact` answered lookup `i` with the contacts `found`. */
    method OnReply(op: FindOp, i: nat, contact: Contact, found: seq<Contact>)
      requires p.Valid() && i < |finds| && op == finds[i] && Apart() && op.pendingQty <= p.alpha
      requires Sorted(op.key, op.list) && |op.list| <= p.bucket && Knows(op.list) && Knows(found)
      modifies this`trackers, this`sent, this`wrong, op`list, op`block, op`pendingQty, op`asked, op`completed
      ensures Abs() == L.OnReply(p, old(Abs()), i, contact, found, local, rnd)
    {
      hide Distinct, L.Send, L.Merged, L.Complete, Counters, Sorted, Knows;
      assert Abs().ops[i] == op.Abs();
      if contact !in op.block {
        wrong := wrong + 1;
        return;
      }
      ReplyReady(op.key, op.list, op.block, found);
      var insertQty := Absorb(op, i, found);
      assert op.Abs() == Abs().ops[i];
      if insertQty > 0 {
        var sentQty := Send(op, i, p.alpha - op.pendingQty);
      } else if op.pendingQty == 0 {
        Complete(op, i);
      }
    }

    lemma ReplyReady(key: Key, list: seq<Contact>, block: seq<Contact>, found: seq<Contact>)
      requires p.Valid() && Sorted(key, list) && |list| <= p.bucket && Knows(list) && Knows(found)
      ensures var l := L.Merged(p, key, list, block, found, local).0; Distinct(l) && Knows(l)
    {
      hide Sorted, L.Merged;
      S.MergedKeeps(p, key, list, block, found, local);
      S.SortedDistinct(key, L.Merged(p, key, list, block, found, local).0);
      MergedFrom(p, key, list, block, found, local, known);
    }

    lemma OpAt(i: nat)
      requires i < |finds|
      ensures |Abs().ops| == |finds| && Abs().ops[i] == finds[i].Abs()
    {
    }

    lemma FailIs(c: Contact)
      requires c in known
      ensures L.Fail(Counters(known), c) == c.failQty
    {
    }

    /** Lookup `i` waits for one answer less and forgets a stale contact. */
    method Forget(op: FindOp, i: nat, contact: Contact)
      requires i < |finds| && op == finds[i] && Apart()
      modifies op`list, op`pendingQty
      ensures var w := old(Abs()); var o := w.ops[i];
              Abs() == w.(ops := w.ops[i := o.(pending := o.pending - 1, list := L.Without(o.list, contact))])
    {
      hide L.Without, Counters;
      op.pendingQty := op.pendingQty - 1;
      op.list := FindOp.Remove(op.list, contact);
      assert OpsOf(finds) == old(OpsOf(finds))[i := op.Abs()];
    }

    /** Lookup `i` waits for one answer less and may ask the contact again. */
    method Unblock(op: FindOp, i: nat, contact: Contact)
      requires i < |finds| && op == finds[i] && Apart()
      modifies op`block, op`pendingQty
      ensures var w := old(Abs()); var o := w.ops[i];
              Abs() == w.(ops := w.ops[i := o.(pending := o.pending - 1, block := L.Without(o.block, contact))])
    {
      hide L.Without, Counters;
      op.pendingQty := op.pendingQty - 1;
      op.block := FindOp.Remove(op.block, contact);
      assert OpsOf(finds) == old(OpsOf(finds))[i := op.Abs()];
    }

    /** Lookup `i` waits for one answer less: it drops a stale contact, or may ask it again. */
    method Settle(op: FindOp, i: nat, contact: Contact)
      requires i < |finds| && op == finds[i] && Apart() && contact in known
      modifies op`list, op`block, op`pendingQty
      ensures var w := old(Abs()); var q := w.ops[i].(pending := w.ops[i].pending - 1);
              Abs() == w.(ops := w.ops[i := if L.Fail(w.fail, contact) >= p.stale
                                            then q.(list := L.Without(q.list, contact))
                                            else q.(block := L.Without(q.block, contact))])
    {
      hide L.Without, L.Fail, Counters, OpsOf, Apart;
      FailIs(contact);
      if contact.failQty >= p.stale {
        Forget(op, i, contact);
      } else {
        Unblock(op, i, contact);
      }
    }

    /** Contact `contact` did not answer lookup `i` in time. */
    method OnTimeout(op: FindOp, i: nat, contact: Contact)
      requires p.Valid() && i < |finds| && op == finds[i] && Apart()
      requires Sorted(op.key, op.list) && Knows(op.list) && contact in known
      modifies this`trackers, this`sent, this`wrong, op`list, op`block, op`pendingQty, op`asked, op`completed
      ensures Abs() == L.OnTimeout(p, old(Abs()), i, contact, rnd)
    {
      hide Distinct, L.Send, L.Without, L.Chosen, L.Complete, Sorted, Knows, Counters, L.Fail, OpsOf, Apart;
      OpAt(i);
      if contact !in op.block {
        wrong := wrong + 1;
        return;
      }
      TimeoutReady(op.key, op.list, contact);
      Settle(op, i, contact);
      OpAt(i);
      AskNext(op, i);
    }

    /** Lookup `i` asks one more contact; with nobody to ask and nothing outstanding it completes. */
    method AskNext(op: FindOp, i: nat)
      requires i < |finds| && op == finds[i] && Apart() && Distinct(op.list) && Knows(op.list)
      modifies this`trackers, this`sent, op`block, op`pendingQty, op`asked, op`completed
      ensures var w := old(Abs()); var u := L.Send(p, w, i, 1, rnd);
              Abs() == if |L.Chosen(p, old(op.Abs()), w.fail, 1)| == 0 && u.ops[i].pending == 0 then L.Complete(u, i)
                       else u
    {
      hide Distinct, L.Send, L.Chosen, L.Complete, Knows, Counters, OpsOf, Apart;
      var sentQty := Send(op, i, 1);
      OpAt(i);
      if sentQty == 0 && op.pendingQty == 0 {
        Complete(op, i);
      }
    }

    lemma TimeoutReady(key: Key, list: seq<Contact>, c: Contact)
      requires Sorted(key, list) && Knows(list)
      ensures Distinct(list) && Distinct(L.Without(list, c)) && Knows(L.Without(list, c))
    {
      hide Sorted, L.Without;
      S.WithoutSorted(key, list, c);
      S.SortedDistinct(key, list);
      S.SortedDistinct(key, L.Without(list, c));
      WithoutFrom(list, c, known);
    }

    // -------------------------------------------------------------- the request list

    method ByMsgId(msgId: int) returns (k: nat)
      ensures k == L.ByMsgId(trackers, msgId)
    {
      k := 0;
      while k < |trackers| && trackers[k].msgId != msgId
        invariant 0 <= k <= |trackers| && forall j :: 0 <= j < k ==> trackers[j].msgId != msgId
      {
        k := k + 1;
      }
      var _ := L.ByMsgId(trackers, msgId);
    }

    method BySerial(serial: nat) returns (k: nat)
      ensures k == L.BySerial(trackers, serial)
    {
      k := 0;
      while k < |trackers| && trackers[k].serial != serial
        invariant 0 <= k <= |trackers| && forall j :: 0 <= j < k ==> trackers[j].serial != serial
      {
        k := k + 1;
      }
      var _ := L.BySerial(trackers, serial);
    }

    /** Takes request `k`, which was answered, off the list. */
    method TakeAnswered(k: nat) returns (t: L.Tracker)
      requires k < |trackers| && trackers[k].dst in known && p.Valid()
      modifies this`trackers, this`reqSucc, this`resets, known
      ensures var w := old(Abs());
              && t == w.trackers[k]
              && Abs() == w.(succ := w.succ + 1, trackers := L.Drop(w.trackers, k), fail := w.fail[t.dst := 0],
                             resets := w.resets + [(t.dst, t.op)])
    {
      t := trackers[k];
      reqSucc := reqSucc + 1;
      trackers := trackers[..k] + trackers[k + 1..];
      t.dst.failQty := 0;
      resets := resets + [(t.dst, t.op)];
      assert Counters(known) == old(Counters(known))[t.dst := 0];
      assert OpsOf(finds) == old(OpsOf(finds));
    }

    /** Takes request `k`, which timed out, off the list. */
    method TakeFailed(k: nat) returns (t: L.Tracker)
      requires k < |trackers| && trackers[k].dst in known && p.Valid()
      modifies this`trackers, this`reqFail, known
      ensures var w := old(Abs());
              && t == w.trackers[k]
              && Abs() == w.(failed := w.failed + 1, trackers := L.Drop(w.trackers, k),
                 fail := w.fail[t.dst := L.Fail(w.fail, t.dst) + 1])
    {
      t := trackers[k];
      reqFail := reqFail + 1;
      trackers := trackers[..k] + trackers[k + 1..];
      t.dst.failQty := t.dst.failQty + 1;
      assert Counters(known) == old(Counters(known))[t.dst := old(t.dst.failQty) + 1];
      assert OpsOf(finds) == old(OpsOf(finds));
    }

    lemma HandlerReady(k: nat)
      requires Valid() && k < |trackers|
      ensures var t := trackers[k];
              && t.op < |finds| && t.dst in known && finds[t.op].pendingQty <= p.alpha
              && Sorted(finds[t.op].key, finds[t.op].list) && |finds[t.op].list| <= p.bucket && Knows(finds[t.op].list)
    {
      hide Distinct, S.Covered, S.Count, S.Serials, Counters, Sorted;
      assert OpsOf(finds)[trackers[k].op] == finds[trackers[k].op].Abs();
    }

    /** A response with message number `msgId` arrived, naming the contacts `found`. */
    method HandleResponse(msgId: int, found: seq<Contact>)
      requires Valid() && Knows(found)
      modifies this, finds, known
      ensures Valid() && Abs() == L.HandleResponse(p, old(Abs()), msgId, found, local, rnd)
      ensures finds == old(finds) && known == old(known)
    {
      hide S.Inv, Closed, Counters, L.OnReply, Sorted, OpsOf, Within;
      S.ResponseKeeps(p, Abs(), msgId, found, local, rnd);
      ResponseCloses(p, Abs(), msgId, found, local, rnd, known);
      if msgId == 0 {
        return;
      }
      var k := ByMsgId(msgId);
      if k < |trackers| {
        HandlerReady(k);
        var t := TakeAnswered(k);
        OnReply(finds[t.op], t.op, t.dst, found);
      } else {
        rspUnkn := rspUnkn + 1;
      }
    }

    /** The timer of request `serial` ran out. */
    method HandleTimeout(serial: nat)
      requires Valid()
      modifies this, finds, known
      ensures Valid() && Abs() == L.HandleTimeout(p, old(Abs()), serial, rnd)
      ensures finds == old(finds) && known == old(known)
    {
      hide S.Inv, Closed, Counters, L.OnTimeout, Sorted, Knows, OpsOf, L.Fail, L.Drop, Within;
      S.TimeoutKeeps(p, Abs(), serial, rnd);
      TimeoutCloses(p, Abs(), serial, rnd, known);
      var k := BySerial(serial);
      if k < |trackers| {
        HandlerReady(k);
        var t := TakeFailed(k);
        OnTimeout(finds[t.op], t.op, t.dst);
      }
    }

    // -------------------------------------------------------------- other traffic

    /** A contact that lookups may hear of from now on. */
    ghost method Meet(c: Contact)
      requires Valid() && c !in known
      modifies this`known
      ensures Valid() && known == old(known) + {c}
      ensures Abs() == L.Apply(p, old(Abs()), L.StepTouch(c, c.failQty), local, rnd)
    {
      hide S.Inv;
      S.StepKeeps(p, Abs(), L.StepTouch(c, c.failQty), local, rnd);
      known := known + {c};
      assert Counters(known) == old(Counters(known))[c := c.failQty];
    }

    /** Any message from `c` arrived: a stale contact is taken back. */
    method Heard(c: Contact)
      requires Valid() && c in known
      modifies this`resets, c`failQty
      ensures Valid()
      ensures Abs() == if old(c.failQty) >= p.stale then L.Apply(p, old(Abs()), L.StepTouch(c, 0), local, rnd)
              else old(Abs())
    {
      hide S.Inv;
      S.StepKeeps(p, Abs(), L.StepTouch(c, 0), local, rnd);
      if c.failQty >= p.stale {
        c.failQty := 0;
        resets := resets + [(c, -1)];
        assert Counters(known) == old(Counters(known))[c := 0];
        assert OpsOf(finds) == old(OpsOf(finds));
      }
    }
  }
}
