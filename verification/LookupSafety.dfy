/** What holds at every moment of every run of the lookups. */
module LookupSafety {
  import opened NodeId
  import opened Nearest
  import opened Lookup

  // ---------------------------------------------------------------- the invariant

  function Count(ts: seq<Tracker>, i: nat): nat {
    if ts == [] then 0 else (if ts[0].op == i then 1 else 0) + Count(ts[1..], i)
  }

  /** The requests of lookup `i` went to different contacts, all of them in `block`. */
  ghost predicate Covered(block: seq<Contact>, ts: seq<Tracker>, i: nat) {
    && (forall k :: 0 <= k < |ts| && ts[k].op == i ==> ts[k].dst in block)
    && (forall j, k :: 0 <= j < k < |ts| && ts[j].op == i && ts[k].op == i ==> ts[j].dst != ts[k].dst)
  }

  ghost predicate OpInv(p: Params, o: Op, ts: seq<Tracker>, i: nat) {
    && Sorted(o.key, o.list) && |o.list| <= p.bucket
    && Distinct(o.block)
    && o.pending == Count(ts, i) && o.pending <= p.alpha
    && Covered(o.block, ts, i)
    && (o.completed == 0 || (o.completed == 1 && o.pending == 0))
  }

  ghost predicate Serials(ts: seq<Tracker>, sent: nat) {
    && (forall k :: 0 <= k < |ts| ==> ts[k].serial < sent)
    && (forall j, k :: 0 <= j < k < |ts| ==> ts[j].serial != ts[k].serial)
  }

  ghost predicate Inv(p: Params, w: World) {
    && Indexed(w)
    && (forall i :: 0 <= i < |w.ops| ==> OpInv(p, w.ops[i], w.trackers, i))
    && Serials(w.trackers, w.sent)
    && w.wrong == 0
    && w.sent == w.succ + w.failed + |w.trackers|
  }

  // ---------------------------------------------------------------- counting requests

  lemma {:induction false} CountConcat(a: seq<Tracker>, b: seq<Tracker>, i: nat)
    ensures Count(a + b, i) == Count(a, i) + Count(b, i)
  {
    if a == [] {
      assert a + b == b;
    } else {
      CountConcat(a[1..], b, i);
      assert (a + b)[1..] == a[1..] + b;
    }
  }

  lemma CountDrop(ts: seq<Tracker>, k: nat, i: nat)
    requires k < |ts|
    ensures Count(Drop(ts, k), i) == Count(ts, i) - (if ts[k].op == i then 1 else 0)
  {
    CountConcat(ts[..k], ts[k + 1..], i);
    CountConcat(ts[..k], [ts[k]] + ts[k + 1..], i);
    assert ts == ts[..k] + ([ts[k]] + ts[k + 1..]);
    assert ([ts[k]] + ts[k + 1..])[1..] == ts[k + 1..];
  }

  lemma {:induction false} CountAll(ts: seq<Tracker>, op: nat, i: nat)
    requires forall t :: t in ts ==> t.op == op
    ensures Count(ts, i) == if i == op then |ts| else 0
  {
    if ts != [] { CountAll(ts[1..], op, i); }
  }

  // ---------------------------------------------------------------- a request is answered or given up

  /** Taking away a request of another lookup. */
  lemma OthersKeep(p: Params, o: Op, ts: seq<Tracker>, k: nat, i: nat)
    requires OpInv(p, o, ts, i) && k < |ts| && ts[k].op != i
    ensures OpInv(p, o, Drop(ts, k), i)
  {
    hide Sorted, Count, Distinct;
    CountDrop(ts, k, i);
  }

  /** Taking away a request of this lookup: its contact was pending, and is pending no more. */
  lemma OwnKeeps(p: Params, o: Op, ts: seq<Tracker>, k: nat, i: nat)
    requires OpInv(p, o, ts, i) && k < |ts| && ts[k].op == i
    ensures OpInv(p, o.(pending := o.pending - 1), Drop(ts, k), i)
    ensures ts[k].dst in o.block && o.completed == 0 && 0 < o.pending <= p.alpha
    ensures forall t :: t in Drop(ts, k) && t.op == i ==> t.dst != ts[k].dst
  {
    hide Sorted, Count, Distinct;
    CountDrop(ts, k, i);
  }

  // ---------------------------------------------------------------- lists

  lemma DistinctConcat(a: seq<Contact>, b: seq<Contact>)
    requires Distinct(a) && Distinct(b) && forall k :: 0 <= k < |a| ==> a[k] !in b
    ensures Distinct(a + b)
  {
    var c := a + b;
    forall j, k | 0 <= j < k < |c| ensures c[j] != c[k] {
      if j < |a| <= k { assert c[j] == a[j] && c[k] in b; }
    }
  }

  lemma {:induction false} WithoutIs(s: seq<Contact>, c: Contact)
    requires Distinct(s)
    ensures var t := Without(s, c);
            && Distinct(t)
            && (forall k :: 0 <= k < |t| ==> t[k] in s && t[k] != c)
            && (forall k :: 0 <= k < |s| && s[k] != c ==> s[k] in t)
  {
    if s != [] {
      var t := s[1..];
      assert forall k :: 0 <= k < |t| ==> t[k] == s[k + 1] != s[0];
      assert Distinct(t);
      WithoutIs(t, c);
      var u := Without(t, c);
      if s[0] != c {
        DistinctConcat([s[0]], u);
        assert Without(s, c)[0] == s[0];
        assert forall k :: 0 <= k < |u| ==> u[k] in t;
        assert forall k :: 0 <= k < |t| && t[k] != c ==> t[k] in u;
        forall k | 0 <= k < |s| && s[k] != c ensures s[k] in Without(s, c) {
          if k > 0 { assert t[k - 1] == s[k]; }
        }
      }
    }
  }

  lemma {:induction false} WithoutSorted(key: Key, s: seq<Contact>, c: Contact)
    requires Sorted(key, s)
    ensures Sorted(key, Without(s, c)) && |Without(s, c)| <= |s|
    ensures forall k :: 0 <= k < |Without(s, c)| ==> Without(s, c)[k] in s
  {
    hide Closer;
    if s != [] && s[0] != c {
      var t := Without(s[1..], c);
      WithoutSorted(key, s[1..], c);
      forall k | 0 <= k < |t| ensures Closer(key, s[0].id, t[k].id) {
        assert t[k] in s[1..];
      }
    }
  }

  lemma SortedDistinct(key: Key, s: seq<Contact>)
    requires Sorted(key, s)
    ensures Distinct(s)
  {
    hide Closer;
    Order(key);
  }

  lemma {:induction false} MergedKeeps(p: Params, key: Key, list: seq<Contact>, block: seq<Contact>,
                                       found: seq<Contact>, local: Key)
    requires p.Valid() && Sorted(key, list) && |list| <= p.bucket
    ensures var (l, n) := Merged(p, key, list, block, found, local); Sorted(key, l) && |l| <= p.bucket
  {
    hide Closer, Inserted, HasId, Value;
    if found != [] {
      MergedKeeps(p, key, list, block, found[..|found| - 1], local);
      var (l, n) := Merged(p, key, list, block, found[..|found| - 1], local);
      InsertSorted(key, l, found[|found| - 1], p.bucket);
      InsertTells(key, l, found[|found| - 1], p.bucket);
    }
  }

  // ---------------------------------------------------------------- whom to ask

  ghost predicate Askable(block: seq<Contact>, fail: map<Contact, nat>, c: Contact, from: nat, to: nat) {
    c !in block && from <= Fail(fail, c) < to
  }

  /** `cs` are exactly the contacts of `list` that may be asked, each once. */
  ghost predicate Lists(cs: seq<Contact>, list: seq<Contact>, block: seq<Contact>, fail: map<Contact, nat>,
                        from: nat, to: nat) {
    && Distinct(cs)
    && (forall k :: 0 <= k < |cs| ==> cs[k] in list && Askable(block, fail, cs[k], from, to))
    && (forall k :: 0 <= k < |list| && Askable(block, fail, list[k], from, to) ==> list[k] in cs)
  }

  lemma {:induction false} LevelIs(list: seq<Contact>, block: seq<Contact>, fail: map<Contact, nat>, level: nat)
    requires Distinct(list)
    ensures Lists(Level(list, block, fail, level), list, block, fail, level, level + 1)
  {
    hide Fail;
    if list != [] {
      var t := list[1..];
      assert forall k :: 0 <= k < |t| ==> t[k] == list[k + 1] != list[0];
      LevelIs(t, block, fail, level);
      var a, b := Level(list, block, fail, level), Level(t, block, fail, level);
      DistinctConcat([list[0]], b);
      forall k | 0 <= k < |list| && Askable(block, fail, list[k], level, level + 1) ensures list[k] in a {
        if k > 0 { assert t[k - 1] == list[k]; }
      }
    }
  }

  lemma {:induction false} EligibleIs(list: seq<Contact>, block: seq<Contact>, fail: map<Contact, nat>, level: nat,
                                      stale: nat)
    requires Distinct(list)
    ensures Lists(Eligible(list, block, fail, level, stale), list, block, fail, level, stale)
    decreases stale - level
  {
    hide Fail, Level;
    if level < stale {
      LevelIs(list, block, fail, level);
      EligibleIs(list, block, fail, level + 1, stale);
      var a, b := Level(list, block, fail, level), Eligible(list, block, fail, level + 1, stale);
      DistinctConcat(a, b);
      forall k | 0 <= k < |list| && Askable(block, fail, list[k], level, stale) ensures list[k] in a + b {
        if Fail(fail, list[k]) == level { assert Askable(block, fail, list[k], level, level + 1); }
        else { assert Askable(block, fail, list[k], level + 1, stale); }
      }
    }
  }

  /** The contacts chosen may all be asked; when there are fewer than wanted, they are all that may. */
  lemma ChosenIs(p: Params, o: Op, fail: map<Contact, nat>, qty: nat)
    requires Sorted(o.key, o.list)
    ensures var cs := Chosen(p, o, fail, qty);
            && Distinct(cs) && |cs| <= qty
            && (forall k :: 0 <= k < |cs| ==> cs[k] in o.list && Askable(o.block, fail, cs[k], 0, p.stale))
            && (|cs| < qty ==> Lists(cs, o.list, o.block, fail, 0, p.stale))
  {
    hide Closer, Askable;
    SortedDistinct(o.key, o.list);
    EligibleIs(o.list, o.block, fail, 0, p.stale);
  }

  /** Sending keeps the invariant of the lookup that sends. */
  lemma SendOwn(p: Params, o: Op, ts: seq<Tracker>, i: nat, cs: seq<Contact>, serial: nat, rnd: nat -> int)
    requires OpInv(p, o, ts, i) && Distinct(cs) && (forall k :: 0 <= k < |cs| ==> cs[k] !in o.block)
    requires o.pending + |cs| <= p.alpha && (cs != [] ==> o.completed == 0)
    ensures OpInv(p, o.(block := o.block + cs, pending := o.pending + |cs|, asked := o.asked + multiset(cs)),
                  ts + Requests(cs, serial, i, rnd), i)
  {
    hide Sorted, Count, Distinct;
    var rs := Requests(cs, serial, i, rnd);
    CountConcat(ts, rs, i);
    CountAll(rs, i, i);
    forall k | 0 <= k < |o.block| ensures o.block[k] !in cs { }
    DistinctConcat(o.block, cs);
    NewCovered(o.block, ts, i, cs, serial, rnd);
  }

  lemma NewCovered(block: seq<Contact>, ts: seq<Tracker>, i: nat, cs: seq<Contact>, serial: nat, rnd: nat -> int)
    requires Covered(block, ts, i) && Distinct(cs) && forall k :: 0 <= k < |cs| ==> cs[k] !in block
    ensures Covered(block + cs, ts + Requests(cs, serial, i, rnd), i)
  {
    var rs := Requests(cs, serial, i, rnd);
    var us := ts + rs;
    forall k | 0 <= k < |rs| ensures rs[k].dst in cs && rs[k].dst !in block { }
    forall j, k | 0 <= j < k < |us| && us[j].op == i && us[k].op == i ensures us[j].dst != us[k].dst {
      if j < |ts| <= k { assert us[j].dst in block && us[k] == rs[k - |ts|]; }
    }
  }

  /** Sending keeps the invariant of the other lookups. */
  lemma SendOther(p: Params, o: Op, ts: seq<Tracker>, i: nat, cs: seq<Contact>, serial: nat, j: nat, rnd: nat -> int)
    requires OpInv(p, o, ts, i) && j != i
    ensures OpInv(p, o, ts + Requests(cs, serial, j, rnd), i)
  {
    hide Sorted, Count, Distinct;
    var rs := Requests(cs, serial, j, rnd);
    CountConcat(ts, rs, i);
    CountAll(rs, j, i);
  }

  // ---------------------------------------------------------------- every step keeps the invariant

  lemma OpKeeps(p: Params, w: World, i: nat, o: Op)
    requires Inv(p, w) && i < |w.ops| && OpInv(p, o, w.trackers, i)
    ensures Inv(p, w.(ops := w.ops[i := o]))
  {
    hide OpInv, Serials;
  }

  lemma SerialsGrow(ts: seq<Tracker>, sent: nat, cs: seq<Contact>, i: nat, rnd: nat -> int)
    requires Serials(ts, sent)
    ensures Serials(ts + Requests(cs, sent, i, rnd), sent + |cs|)
  {
  }

  lemma SendKeeps(p: Params, w: World, i: nat, qty: nat, rnd: nat -> int)
    requires Inv(p, w) && i < |w.ops| && w.ops[i].pending + qty <= p.alpha && w.ops[i].completed == 0
    ensures Inv(p, Send(p, w, i, qty, rnd))
    ensures var o, n := w.ops[i], |Chosen(p, w.ops[i], w.fail, qty)|;
            |Send(p, w, i, qty, rnd).ops| == |w.ops|
            && Send(p, w, i, qty, rnd).ops[i].pending == o.pending + n && Send(p, w, i, qty, rnd).ops[i].completed == 0
  {
    hide Sorted, Distinct, Covered, Count, Serials, Chosen, Requests;
    var o := w.ops[i];
    var cs := Chosen(p, o, w.fail, qty);
    ChosenIs(p, o, w.fail, qty);
    SendParts(p, w, i, cs, rnd);
  }

  lemma SendParts(p: Params, w: World, i: nat, cs: seq<Contact>, rnd: nat -> int)
    requires Inv(p, w) && i < |w.ops| && Distinct(cs) && w.ops[i].pending + |cs| <= p.alpha && w.ops[i].completed == 0
    requires forall k :: 0 <= k < |cs| ==> cs[k] !in w.ops[i].block
    ensures var o := w.ops[i]; var ts := w.trackers + Requests(cs, w.sent, i, rnd);
            && OpInv(p, o.(block := o.block + cs, pending := o.pending + |cs|, asked := o.asked + multiset(cs)), ts, i)
            && (forall j :: 0 <= j < |w.ops| && j != i ==> OpInv(p, w.ops[j], ts, j))
            && Serials(ts, w.sent + |cs|)
            && |ts| == |w.trackers| + |cs|
            && forall t :: t in ts ==> t.op < |w.ops|
  {
    hide OpInv, Serials;
    SendOwn(p, w.ops[i], w.trackers, i, cs, w.sent, rnd);
    SerialsGrow(w.trackers, w.sent, cs, i, rnd);
    forall j | 0 <= j < |w.ops| && j != i ensures OpInv(p, w.ops[j], w.trackers + Requests(cs, w.sent, i, rnd), j) {
      SendOther(p, w.ops[j], w.trackers, j, cs, w.sent, i, rnd);
    }
  }

  lemma CompleteKeeps(p: Params, w: World, i: nat)
    requires Inv(p, w) && i < |w.ops| && w.ops[i].pending == 0 && w.ops[i].completed == 0
    ensures Inv(p, Complete(w, i))
  {
    hide Sorted, Distinct, Covered, Count;
    OpKeeps(p, w, i, w.ops[i].(completed := 1));
  }

  /** The state once request `k` is taken off the list and its lookup waits for one answer less. */
  ghost function Retired(w: World, k: nat): World
    requires k < |w.trackers| && w.trackers[k].op < |w.ops|
  {
    var i := w.trackers[k].op;
    w.(trackers := Drop(w.trackers, k), ops := w.ops[i := w.ops[i].(pending := w.ops[i].pending - 1)])
  }

  lemma RetireKeeps(p: Params, w: World, k: nat, u: World)
    requires Inv(p, w) && k < |w.trackers|
    requires u.trackers == Retired(w, k).trackers && u.ops == Retired(w, k).ops && u.sent == w.sent && u.wrong == 0
    requires u.succ + u.failed == w.succ + w.failed + 1
    ensures Inv(p, u)
    ensures var i, c := w.trackers[k].op, w.trackers[k].dst;
            && c in w.ops[i].block && w.ops[i].completed == 0 && 0 < w.ops[i].pending <= p.alpha
            && forall t :: t in u.trackers && t.op == i ==> t.dst != c
  {
    hide OpInv, Serials;
    var i := w.trackers[k].op;
    OwnKeeps(p, w.ops[i], w.trackers, k, i);
    forall j | 0 <= j < |u.ops| ensures OpInv(p, u.ops[j], u.trackers, j) {
      if j != i { OthersKeep(p, w.ops[j], w.trackers, k, j); }
    }
    SerialsDrop(w.trackers, w.sent, k);
  }

  lemma SerialsDrop(ts: seq<Tracker>, sent: nat, k: nat)
    requires Serials(ts, sent) && k < |ts|
    ensures Serials(Drop(ts, k), sent)
  {
  }

  /** A lookup that lost a contact for good, or may ask it again. */
  lemma SettledKeeps(p: Params, o: Op, ts: seq<Tracker>, i: nat, c: Contact)
    requires OpInv(p, o, ts, i) && forall t :: t in ts && t.op == i ==> t.dst != c
    ensures OpInv(p, o.(list := Without(o.list, c)), ts, i)
    ensures OpInv(p, o.(block := Without(o.block, c)), ts, i)
  {
    hide Sorted, Distinct, Count;
    WithoutSorted(o.key, o.list, c);
    WithoutIs(o.block, c);
    forall k | 0 <= k < |ts| && ts[k].op == i ensures ts[k].dst in Without(o.block, c) {
      var j :| 0 <= j < |o.block| && o.block[j] == ts[k].dst;
      assert ts[k] in ts;
    }
  }

  lemma TimeoutKeeps(p: Params, w: World, serial: nat, rnd: nat -> int)
    requires p.Valid() && Inv(p, w)
    ensures Inv(p, HandleTimeout(p, w, serial, rnd))
  {
    hide OpInv, Serials, Send, Complete, Chosen, Without, Fail;
    var k := BySerial(w.trackers, serial);
    if k < |w.trackers| {
      var t := w.trackers[k];
      var i, c := t.op, t.dst;
      var v := w.(failed := w.failed + 1, trackers := Drop(w.trackers, k), fail := w.fail[c := Fail(w.fail, c) + 1]);
      var u := v.(ops := Retired(w, k).ops);
      RetireKeeps(p, w, k, u);
      assert HandleTimeout(p, w, serial, rnd) == OnTimeout(p, v, i, c, rnd);
      TimedOut(p, v, u, i, c, rnd);
    }
  }

  lemma TimedOut(p: Params, v: World, u: World, i: nat, c: Contact, rnd: nat -> int)
    requires p.Valid() && Inv(p, u) && i < |u.ops| && |v.ops| == |u.ops|
    requires u == v.(ops := v.ops[i := v.ops[i].(pending := v.ops[i].pending - 1)])
    requires c in v.ops[i].block && v.ops[i].completed == 0 && 0 < v.ops[i].pending <= p.alpha
    requires forall t :: t in u.trackers && t.op == i ==> t.dst != c
    ensures Inv(p, OnTimeout(p, v, i, c, rnd))
  {
    hide Serials, Send, Complete, Chosen, Without, Fail, Sorted, Distinct, Covered;
    var q := u.ops[i];
    SettledKeeps(p, q, u.trackers, i, c);
    var q' := if Fail(v.fail, c) >= p.stale then q.(list := Without(q.list, c)) else q.(block := Without(q.block, c));
    var x := u.(ops := u.ops[i := q']);
    OpKeeps(p, u, i, q');
    SendKeeps(p, x, i, 1, rnd);
    var y := Send(p, x, i, 1, rnd);
    assert v.(ops := v.ops[i := q']) == x;
    if |Chosen(p, q', v.fail, 1)| == 0 && y.ops[i].pending == 0 {
      CompleteKeeps(p, y, i);
    }
  }

  lemma ResponseKeeps(p: Params, w: World, msgId: int, found: seq<Contact>, local: Key, rnd: nat -> int)
    requires p.Valid() && Inv(p, w)
    ensures Inv(p, HandleResponse(p, w, msgId, found, local, rnd))
  {
    hide OpInv, Serials, Send, Complete, Chosen, Merged;
    var k := ByMsgId(w.trackers, msgId);
    if msgId != 0 && k < |w.trackers| {
      var t := w.trackers[k];
      var i, c := t.op, t.dst;
      var v := w.(succ := w.succ + 1, trackers := Drop(w.trackers, k), fail := w.fail[c := 0],
                   resets := w.resets + [(c, i)]);
      var u := v.(ops := Retired(w, k).ops);
      RetireKeeps(p, w, k, u);
      assert HandleResponse(p, w, msgId, found, local, rnd) == OnReply(p, v, i, c, found, local, rnd);
      Replied(p, v, u, i, c, found, local, rnd);
    }
  }

  lemma Replied(p: Params, v: World, u: World, i: nat, c: Contact, found: seq<Contact>, local: Key, rnd: nat -> int)
    requires p.Valid() && Inv(p, u) && i < |u.ops| && |v.ops| == |u.ops|
    requires u == v.(ops := v.ops[i := v.ops[i].(pending := v.ops[i].pending - 1)])
    requires c in v.ops[i].block && v.ops[i].completed == 0 && 0 < v.ops[i].pending <= p.alpha
    ensures Inv(p, OnReply(p, v, i, c, found, local, rnd))
  {
    hide Serials, Send, Complete, Chosen, Merged, Sorted, Distinct, Covered;
    var q := u.ops[i];
    MergedKeeps(p, q.key, q.list, q.block, found, local);
    var (l, n) := Merged(p, q.key, q.list, q.block, found, local);
    var x := u.(ops := u.ops[i := q.(list := l)]);
    OpKeeps(p, u, i, q.(list := l));
    assert v.(ops := v.ops[i := q.(list := l)]) == x;
    if n > 0 {
      SendKeeps(p, x, i, p.alpha - q.pending, rnd);
    } else if q.pending == 0 {
      CompleteKeeps(p, x, i);
    }
  }

  /** Nobody has asked anything for a lookup that does not exist yet. */
  lemma {:induction false} NoneYet(ts: seq<Tracker>, n: nat)
    requires forall t :: t in ts ==> t.op < n
    ensures Count(ts, n) == 0
  {
    if ts != [] { NoneYet(ts[1..], n); }
  }

  lemma NewOpInv(p: Params, key: Key, initial: seq<Contact>, ts: seq<Tracker>, n: nat)
    requires forall t :: t in ts ==> t.op < n
    ensures OpInv(p, Op(key, Offered(key, initial, p.bucket), [], 0, 0, multiset{}), ts, n)
  {
    hide Closer, Offered;
    OfferedIsNearest(key, initial, p.bucket);
    NoneYet(ts, n);
  }

  lemma StartKeeps(p: Params, w: World, key: Key, initial: seq<Contact>, rnd: nat -> int)
    requires p.Valid() && Inv(p, w)
    ensures Inv(p, Start(p, w, key, initial, rnd))
  {
    hide Serials, Send, OpInv, Offered;
    var o := Op(key, Offered(key, initial, p.bucket), [], 0, 0, multiset{});
    NewOpInv(p, key, initial, w.trackers, |w.ops|);
    SendKeeps(p, w.(ops := w.ops + [o]), |w.ops|, p.alpha, rnd);
  }

  lemma StepKeeps(p: Params, w: World, t: Step, local: Key, rnd: nat -> int)
    requires p.Valid() && Inv(p, w)
    ensures Inv(p, Apply(p, w, t, local, rnd))
  {
    hide OpInv, Serials, Start, HandleResponse, HandleTimeout;
    match t
    case StepStart(key, initial) => StartKeeps(p, w, key, initial, rnd);
    case StepResponse(msgId, found) => ResponseKeeps(p, w, msgId, found, local, rnd);
    case StepTimeout(serial) => TimeoutKeeps(p, w, serial, rnd);
    case StepTouch(c, q) =>
  }

  // ---------------------------------------------------------------- whole runs

  /** The state after the steps, in order, from the initial state. */
  ghost function Run(p: Params, steps: seq<Step>, local: Key, rnd: nat -> int): (w: World)
    requires p.Valid()
    ensures Inv(p, w)
  {
    if steps == [] then Init()
    else
      hide OpInv, Serials, Apply;
      var w := Run(p, steps[..|steps| - 1], local, rnd);
      StepKeeps(p, w, steps[|steps| - 1], local, rnd);
      Apply(p, w, steps[|steps| - 1], local, rnd)
  }

  /**
    At every moment of every run, for every lookup: the pending counter is the
    number of its outstanding requests and never exceeds the parallelism
    limit; these went to different contacts, all of them blocked, so a reply
    always finds its contact; the list is sorted and bounded; and the lookup
    completed at most once, and only with nothing outstanding.
   */
  lemma LookupsSafe(p: Params, steps: seq<Step>, local: Key, rnd: nat -> int, i: nat)
    requires p.Valid() && i < |Run(p, steps, local, rnd).ops|
    ensures var w := Run(p, steps, local, rnd); var o := w.ops[i];
            && o.pending == Count(w.trackers, i) && 0 <= o.pending <= p.alpha
            && Covered(o.block, w.trackers, i)
            && w.wrong == 0
            && Sorted(o.key, o.list) && |o.list| <= p.bucket
            && o.completed <= 1 && (o.completed == 1 ==> Count(w.trackers, i) == 0)
  {
    hide Sorted, Covered, Distinct, Count, Serials, Run;
  }

  /** Every request sent was answered, given up, or is outstanding. */
  lemma RequestsConserved(p: Params, steps: seq<Step>, local: Key, rnd: nat -> int)
    requires p.Valid()
    ensures var w := Run(p, steps, local, rnd); w.sent == w.succ + w.failed + |w.trackers|
  {
    hide OpInv, Serials, Run;
  }
}
