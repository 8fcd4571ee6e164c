/** When a lookup reports its result, and when it never does. */
module LookupEnds {
  import opened NodeId
  import opened Nearest
  import opened Lookup
  import opened LookupSafety

  /** Nobody in the list may be asked: all are asked already or failed too often. */
  ghost predicate Exhausted(p: Params, o: Op, fail: map<Contact, nat>) {
    forall k :: 0 <= k < |o.list| ==> !Askable(o.block, fail, o.list[k], 0, p.stale)
  }

  lemma NobodyChosen(p: Params, o: Op, fail: map<Contact, nat>, qty: nat)
    requires Sorted(o.key, o.list) && qty > 0
    ensures |Chosen(p, o, fail, qty)| == 0 <==> Exhausted(p, o, fail)
  {
    hide Sorted, Chosen, Askable;
    ChosenIs(p, o, fail, qty);
    var cs := Chosen(p, o, fail, qty);
    if |cs| > 0 {
      assert cs[0] in o.list;
      var k :| 0 <= k < |o.list| && o.list[k] == cs[0];
    } else {
      forall k | 0 <= k < |o.list| ensures !Askable(o.block, fail, o.list[k], 0, p.stale) { }
    }
  }

  /** What sending does to the lookup that sends. */
  lemma Sends(p: Params, w: World, i: nat, qty: nat, rnd: nat -> int)
    requires i < |w.ops| && Sorted(w.ops[i].key, w.ops[i].list) && qty > 0 && w.ops[i].pending >= 0
    ensures var u := Send(p, w, i, qty, rnd);
            && |u.ops| == |w.ops| && u.fail == w.fail && u.ops[i].completed == w.ops[i].completed
            && u.ops[i].list == w.ops[i].list
            && (u.ops[i].pending == 0 <==> w.ops[i].pending == 0 && Exhausted(p, w.ops[i], w.fail))
            && (Exhausted(p, w.ops[i], w.fail) ==> u.ops[i] == w.ops[i])
  {
    hide Sorted, Chosen, Exhausted, Requests;
    NobodyChosen(p, w.ops[i], w.fail, qty);
    var cs := Chosen(p, w.ops[i], w.fail, qty);
    if cs == [] {
      assert w.ops[i].block + cs == w.ops[i].block;
      assert w.ops[i].asked + multiset(cs) == w.ops[i].asked;
    }
  }

  /** A lookup as it begins, with nobody asked yet. */
  ghost function Begun(p: Params, key: Key, initial: seq<Contact>): Op {
    Op(key, Offered(key, initial, p.bucket), [], 0, 0, multiset{})
  }

  /**
    Starting a lookup never completes it; if nobody of its first contacts may
    be asked, nothing is outstanding and it stays silent for ever (`StaysAsIs`).
   */
  lemma StartEnds(p: Params, w: World, key: Key, initial: seq<Contact>, rnd: nat -> int)
    requires p.Valid()
    ensures var u := Start(p, w, key, initial, rnd);
            && |u.ops| == |w.ops| + 1 && (forall i :: 0 <= i < |w.ops| ==> u.ops[i] == w.ops[i])
            && u.ops[|w.ops|].completed == 0
            && (u.ops[|w.ops|].pending == 0 <==> Exhausted(p, Begun(p, key, initial), w.fail))
  {
    hide Sorted, Chosen, Exhausted, Requests, Offered, Closer;
    OfferedIsNearest(key, initial, p.bucket);
    Sends(p, w.(ops := w.ops + [Begun(p, key, initial)]), |w.ops|, p.alpha, rnd);
  }

  /**
    After a timeout the lookup has completed exactly if nothing is outstanding,
    and then nobody in its result is left to ask.
   */
  lemma TimeoutEnds(p: Params, w: World, serial: nat, rnd: nat -> int)
    requires p.Valid() && Inv(p, w) && BySerial(w.trackers, serial) < |w.trackers|
    ensures var i := w.trackers[BySerial(w.trackers, serial)].op; var u := HandleTimeout(p, w, serial, rnd);
            && |u.ops| == |w.ops|
            && (u.ops[i].completed == 1 <==> u.ops[i].pending == 0)
            && (u.ops[i].completed == 1 ==> Exhausted(p, u.ops[i], u.fail))
  {
    hide Sorted, Covered, Distinct, Serials, Count, Send, Chosen, Without, Fail, Exhausted;
    var k := BySerial(w.trackers, serial);
    var t := w.trackers[k];
    var o := w.ops[t.op];
    OwnKeeps(p, o, w.trackers, k, t.op);
    var v := w.(failed := w.failed + 1, trackers := Drop(w.trackers, k),
               fail := w.fail[t.dst := Fail(w.fail, t.dst) + 1]);
    var q := o.(pending := o.pending - 1);
    var q' := if Fail(v.fail, t.dst) >= p.stale then q.(list := Without(q.list, t.dst))
              else q.(block := Without(q.block, t.dst));
    var x := v.(ops := v.ops[t.op := q']);
    WithoutSorted(o.key, o.list, t.dst);
    Sends(p, x, t.op, 1, rnd);
    NobodyChosen(p, q', v.fail, 1);
    SameOp(q', p, v.fail);
  }

  lemma SameOp(q: Op, p: Params, fail: map<Contact, nat>)
    ensures Exhausted(p, q, fail) ==> Exhausted(p, q.(completed := q.completed + 1), fail)
  {
  }

  /**
    After a reply the lookup has completed exactly if nothing is outstanding
    and the reply brought no new contact.  If it did bring one but nobody may
    be asked, the lookup stays silent for ever (`StaysAsIs`).
   */
  lemma ResponseEnds(p: Params, w: World, msgId: int, found: seq<Contact>, local: Key, rnd: nat -> int)
    requires p.Valid() && Inv(p, w) && msgId != 0 && ByMsgId(w.trackers, msgId) < |w.trackers|
    ensures var t := w.trackers[ByMsgId(w.trackers, msgId)]; var o := w.ops[t.op];
            var u := HandleResponse(p, w, msgId, found, local, rnd);
            var (l, n) := Merged(p, o.key, o.list, o.block, found, local);
            && |u.ops| == |w.ops|
            && u.ops[t.op].completed <= 1
            && (u.ops[t.op].completed == 1 <==> u.ops[t.op].pending == 0 && n == 0)
            && (u.ops[t.op].pending == 0 <==>
                o.pending == 1 && (n == 0 || Exhausted(p, o.(list := l), w.fail[t.dst := 0])))
  {
    hide Sorted, Covered, Distinct, Serials, Count, Send, Merged, Exhausted;
    var k := ByMsgId(w.trackers, msgId);
    var t := w.trackers[k];
    var o := w.ops[t.op];
    OwnKeeps(p, o, w.trackers, k, t.op);
    MergedKeeps(p, o.key, o.list, o.block, found, local);
    var (l, n) := Merged(p, o.key, o.list, o.block, found, local);
    var v := w.(succ := w.succ + 1, trackers := Drop(w.trackers, k), fail := w.fail[t.dst := 0],
               resets := w.resets + [(t.dst, t.op)]);
    var q := o.(pending := o.pending - 1, list := l);
    var x := v.(ops := v.ops[t.op := q]);
    Sends(p, x, t.op, p.alpha - q.pending, rnd);
    SameList(p, o.(list := l), q, v.fail);
  }

  lemma SameList(p: Params, o: Op, q: Op, fail: map<Contact, nat>)
    requires o.list == q.list && o.block == q.block
    ensures Exhausted(p, o, fail) <==> Exhausted(p, q, fail)
  {
  }

  /**
    A reply that completes a lookup leaves nobody of its list to ask exactly
    if nobody was left before the reply.
   */
  lemma ResponseExhausts(p: Params, w: World, msgId: int, found: seq<Contact>, local: Key, rnd: nat -> int)
    requires p.Valid() && Inv(p, w) && msgId != 0 && ByMsgId(w.trackers, msgId) < |w.trackers|
    ensures var i := w.trackers[ByMsgId(w.trackers, msgId)].op; var u := HandleResponse(p, w, msgId, found, local, rnd);
            && |u.ops| == |w.ops|
            && (u.ops[i].completed == 1 ==> (Exhausted(p, u.ops[i], u.fail) <==> Exhausted(p, w.ops[i], w.fail)))
  {
    hide Sorted, Covered, Distinct, Serials, Count, Send, Merged, Exhausted;
    ResponseEnds(p, w, msgId, found, local, rnd);
    var k := ByMsgId(w.trackers, msgId);
    var t := w.trackers[k];
    var o := w.ops[t.op];
    OwnKeeps(p, o, w.trackers, k, t.op);
    if Merged(p, o.key, o.list, o.block, found, local).1 == 0 {
      NothingMerged(p, o.key, o.list, o.block, found, local);
      BlockedNotAskable(p, o, w.fail, t.dst);
      var q := o.(pending := o.pending - 1, completed := o.completed + 1);
      SameList(p, o, q, w.fail[t.dst := 0]);
    }
  }

  lemma {:induction false} NothingMerged(p: Params, key: Key, list: seq<Contact>, block: seq<Contact>,
                                         found: seq<Contact>, local: Key)
    ensures Merged(p, key, list, block, found, local).1 == 0 ==> Merged(p, key, list, block, found, local).0 == list
  {
    hide Value, HasId, Place;
    if found != [] { NothingMerged(p, key, list, block, found[..|found| - 1], local); }
  }

  /** The fail count of a contact asked already does not matter. */
  lemma BlockedNotAskable(p: Params, o: Op, fail: map<Contact, nat>, c: Contact)
    requires c in o.block
    ensures Exhausted(p, o, fail) <==> Exhausted(p, o, fail[c := 0])
  {
    forall x | x !in o.block ensures Fail(fail, x) == Fail(fail[c := 0], x) { }
    hide Fail;
  }

  /** A lookup that nobody is asked for changes no more, whatever happens. */
  lemma StaysAsIs(p: Params, w: World, t: Step, local: Key, rnd: nat -> int, i: nat)
    requires p.Valid() && Inv(p, w) && i < |w.ops| && w.ops[i].pending == 0
    ensures i < |Apply(p, w, t, local, rnd).ops| && Apply(p, w, t, local, rnd).ops[i] == w.ops[i]
  {
    hide Sorted, Covered, Distinct, Serials, Chosen, Requests, Merged, Without, Fail, Offered;
    match t
    case StepStart(key, initial) =>
    case StepResponse(msgId, found) =>
      var k := ByMsgId(w.trackers, msgId);
      if k < |w.trackers| { NotMine(w.trackers, k, i); }
    case StepTimeout(serial) =>
      var k := BySerial(w.trackers, serial);
      if k < |w.trackers| { NotMine(w.trackers, k, i); }
    case StepTouch(d, q) =>
  }

  lemma NotMine(ts: seq<Tracker>, k: nat, i: nat)
    requires k < |ts| && Count(ts, i) == 0
    ensures ts[k].op != i
  {
    CountDrop(ts, k, i);
  }

  // ---------------------------------------------------------------- lookups at rest that never completed

  /** Lookup `i` has nothing outstanding, and its result was never reported. */
  ghost predicate Silent(w: World, i: nat) {
    i < |w.ops| && w.ops[i].pending == 0 && w.ops[i].completed == 0
  }

  /**
    What silences lookup `i`: a start with nobody to ask, or the last
    outstanding reply when it brings a new contact and leaves nobody to ask.
   */
  ghost predicate Silences(p: Params, w: World, t: Step, local: Key, i: nat)
    requires Indexed(w)
  {
    match t
    case StepStart(key, initial) => i == |w.ops| && Exhausted(p, Begun(p, key, initial), w.fail)
    case StepResponse(msgId, found) =>
      var k := ByMsgId(w.trackers, msgId);
      msgId != 0 && k < |w.trackers| && w.trackers[k].op == i
      && var o := w.ops[i];
         var (l, n) := Merged(p, o.key, o.list, o.block, found, local);
         o.pending == 1 && n > 0 && Exhausted(p, o.(list := l), w.fail[w.trackers[k].dst := 0])
    case _ => false
  }

  lemma StartSilence(p: Params, w: World, key: Key, initial: seq<Contact>, local: Key, rnd: nat -> int, i: nat)
    requires p.Valid() && Inv(p, w)
    ensures var t := StepStart(key, initial);
            Silent(Apply(p, w, t, local, rnd), i) <==> Silent(w, i) || Silences(p, w, t, local, i)
  {
    hide Start, OpInv, Serials, Exhausted;
    StartEnds(p, w, key, initial, rnd);
  }

  lemma ResponseSilence(p: Params, w: World, msgId: int, found: seq<Contact>, local: Key, rnd: nat -> int, i: nat)
    requires p.Valid() && Inv(p, w)
    ensures var t := StepResponse(msgId, found);
            Silent(Apply(p, w, t, local, rnd), i) <==> Silent(w, i) || Silences(p, w, t, local, i)
  {
    var k := ByMsgId(w.trackers, msgId);
    if msgId != 0 && k < |w.trackers| {
      OwnKeeps(p, w.ops[w.trackers[k].op], w.trackers, k, w.trackers[k].op);
      hide OpInv, Serials, ByMsgId, Merged, Exhausted, HandleResponse;
      ResponseEnds(p, w, msgId, found, local, rnd);
      if i < |w.ops| && w.trackers[k].op != i { OthersLeft(p, w, msgId, found, local, rnd, i); }
    }
  }

  /** A reply changes no lookup but its own. */
  lemma OthersLeft(p: Params, w: World, msgId: int, found: seq<Contact>, local: Key, rnd: nat -> int, i: nat)
    requires Indexed(w) && i < |w.ops| && msgId != 0
    requires var k := ByMsgId(w.trackers, msgId); k < |w.trackers| && w.trackers[k].op != i
    ensures |HandleResponse(p, w, msgId, found, local, rnd).ops| == |w.ops|
    ensures HandleResponse(p, w, msgId, found, local, rnd).ops[i] == w.ops[i]
  {
    hide Chosen, Requests, Merged, Fail;
  }

  lemma TimeoutSilence(p: Params, w: World, serial: nat, local: Key, rnd: nat -> int, i: nat)
    requires p.Valid() && Inv(p, w)
    ensures Silent(Apply(p, w, StepTimeout(serial), local, rnd), i) <==> Silent(w, i)
  {
    var k := BySerial(w.trackers, serial);
    if k < |w.trackers| {
      OwnKeeps(p, w.ops[w.trackers[k].op], w.trackers, k, w.trackers[k].op);
      hide OpInv, Serials, BySerial, Exhausted, HandleTimeout;
      TimeoutEnds(p, w, serial, rnd);
      if i < |w.ops| && w.trackers[k].op != i { OthersStay(p, w, serial, rnd, i); }
    }
  }

  /** A timeout changes no lookup but its own. */
  lemma OthersStay(p: Params, w: World, serial: nat, rnd: nat -> int, i: nat)
    requires Indexed(w) && i < |w.ops|
    requires var k := BySerial(w.trackers, serial); k < |w.trackers| && w.trackers[k].op != i
    ensures |HandleTimeout(p, w, serial, rnd).ops| == |w.ops|
    ensures HandleTimeout(p, w, serial, rnd).ops[i] == w.ops[i]
  {
    hide Chosen, Requests, Without, Fail;
  }

  /** After a step those are silent that were before, and those it silences. */
  lemma StepSilence(p: Params, w: World, t: Step, local: Key, rnd: nat -> int, i: nat)
    requires p.Valid() && Inv(p, w)
    ensures Silent(Apply(p, w, t, local, rnd), i) <==> Silent(w, i) || Silences(p, w, t, local, i)
  {
    hide OpInv, Serials, Apply, Silent;
    match t
    case StepStart(key, initial) => StartSilence(p, w, key, initial, local, rnd, i);
    case StepResponse(msgId, found) => ResponseSilence(p, w, msgId, found, local, rnd, i);
    case StepTimeout(serial) => TimeoutSilence(p, w, serial, local, rnd, i);
    case StepTouch(c, q) => TouchSilence(p, w, c, q, local, rnd, i);
  }

  lemma TouchSilence(p: Params, w: World, c: Contact, q: nat, local: Key, rnd: nat -> int, i: nat)
    requires Indexed(w)
    ensures Silent(Apply(p, w, StepTouch(c, q), local, rnd), i) <==> Silent(w, i)
  {
  }

  /** Step `k` of a run silences lookup `i`. */
  ghost predicate SilencedAt(p: Params, steps: seq<Step>, local: Key, rnd: nat -> int, i: nat, k: nat)
    requires p.Valid() && k < |steps|
  {
    Silences(p, Run(p, steps[..k], local, rnd), steps[k], local, i)
  }

  /**
    Over every run: a lookup is at rest without having completed exactly if
    some step was its start with nobody to ask, or its last outstanding reply,
    which brought a new contact and left nobody to ask.
   */
  lemma {:induction false} SilentIff(p: Params, steps: seq<Step>, local: Key, rnd: nat -> int, i: nat)
    requires p.Valid()
    ensures Silent(Run(p, steps, local, rnd), i)
            <==> exists k :: 0 <= k < |steps| && SilencedAt(p, steps, local, rnd, i, k)
  {
    hide OpInv, Serials, Apply, Silences;
    if steps == [] {
    } else {
      var n := |steps| - 1;
      var w := Run(p, steps[..n], local, rnd);
      SilentIff(p, steps[..n], local, rnd, i);
      StepSilence(p, w, steps[n], local, rnd, i);
      forall k | 0 <= k < n
        ensures SilencedAt(p, steps, local, rnd, i, k) <==> SilencedAt(p, steps[..n], local, rnd, i, k)
      {
        assert steps[..n][..k] == steps[..k];
      }
      assert SilencedAt(p, steps, local, rnd, i, n) <==> Silences(p, w, steps[n], local, i);
    }
  }

  /** A lookup begun with nobody who may be asked is silent from the start. */
  lemma StartCanHang(p: Params, key: Key, a: Contact, local: Key, rnd: nat -> int)
    requires p.Valid()
    ensures Silent(Run(p, [StepStart(key, [])], local, rnd), 0)
    ensures Silent(Run(p, [StepTouch(a, p.stale), StepStart(key, [a])], local, rnd), 0)
  {
    hide Apply, Silent, Exhausted, OpInv, Serials;
    var touch, none, one := StepTouch(a, p.stale), StepStart(key, []), StepStart(key, [a]);
    assert [none][..0] == [] && [touch][..0] == [] && [touch, one][..1] == [touch];
    assert SilencedAt(p, [none], local, rnd, 0, 0) by { NobodyKnown(p, key, Init().fail); }
    SilentIff(p, [none], local, rnd, 0);
    assert SilencedAt(p, [touch, one], local, rnd, 0, 1) by { TouchedFirst(p, key, a, local, rnd); }
    SilentIff(p, [touch, one], local, rnd, 0);
  }

  lemma TouchedFirst(p: Params, key: Key, a: Contact, local: Key, rnd: nat -> int)
    requires p.Valid()
    ensures Silences(p, Run(p, [StepTouch(a, p.stale)], local, rnd), StepStart(key, [a]), local, 0)
  {
    RunOn(p, [], StepTouch(a, p.stale), local, rnd);
    assert [] + [StepTouch(a, p.stale)] == [StepTouch(a, p.stale)];
    Touched(p, a, local, rnd);
    OnlyStale(p, key, a, Apply(p, Init(), StepTouch(a, p.stale), local, rnd).fail);
  }

  lemma Touched(p: Params, a: Contact, local: Key, rnd: nat -> int)
    ensures var v := Apply(p, Init(), StepTouch(a, p.stale), local, rnd); v.ops == [] && Fail(v.fail, a) == p.stale
  {
  }

  lemma NobodyKnown(p: Params, key: Key, fail: map<Contact, nat>)
    ensures Exhausted(p, Begun(p, key, []), fail)
  {
  }

  lemma OnlyStale(p: Params, key: Key, a: Contact, fail: map<Contact, nat>)
    requires p.Valid() && Fail(fail, a) >= p.stale
    ensures Exhausted(p, Begun(p, key, [a]), fail)
  {
    OfferOne(key, a, p.bucket);
  }

  lemma RunOn(p: Params, steps: seq<Step>, t: Step, local: Key, rnd: nat -> int)
    requires p.Valid()
    ensures Run(p, steps + [t], local, rnd) == Apply(p, Run(p, steps, local, rnd), t, local, rnd)
  {
    hide Apply, Inv;
    assert (steps + [t])[..|steps|] == steps;
  }

  // ---------------------------------------------------------------- two lookups that end badly

  lemma OfferOne(key: Key, a: Contact, bucket: nat)
    requires bucket > 0
    ensures Offered(key, [a], bucket) == [a]
  {
    assert [a][..0] == [];
    assert Offered(key, [], bucket) == [];
  }

  lemma {:induction false} AskOne(a: Contact, fail: map<Contact, nat>, level: nat, stale: nat)
    requires level <= stale
    ensures Eligible([a], [], fail, level, stale) == if level <= Fail(fail, a) < stale then [a] else []
    decreases stale - level
  {
    assert Level([a][1..], [], fail, level) == [];
    assert Level([a], [], fail, level) == if Fail(fail, a) == level then [a] else [];
    if level < stale { AskOne(a, fail, level + 1, stale); }
  }

  /** A first lookup that knows one contact asks it. */
  lemma StartOne(p: Params, w: World, key: Key, a: Contact, rnd: nat -> int)
    requires p.Valid() && w.ops == [] && w.trackers == [] && w.sent == 0 && Fail(w.fail, a) < p.stale
    ensures var u := Start(p, w, key, [a], rnd);
            && u.ops == [Op(key, [a], [a], 1, 0, multiset{a})]
            && u.trackers == [Tracker(0, rnd(0), a, 0)] && u.fail == w.fail
  {
    hide Fail, Eligible, Offered;
    OfferOne(key, a, p.bucket);
    AskOne(a, w.fail, 0, p.stale);
    assert Chosen(p, Op(key, [a], [], 0, 0, multiset{}), w.fail, p.alpha) == [a];
    assert [] + [a] == [a];
  }

  /** A reply with one new contact brings it into a list with room. */
  lemma MergeOne(p: Params, key: Key, a: Contact, b: Contact, local: Key)
    requires p.bucket >= 2 && a.id != b.id && Value(b.id) != 0 && b.id != local
    ensures var (l, n) := Merged(p, key, [a], [a], [b], local);
            n == 1 && |l| == 2 && forall k :: 0 <= k < 2 ==> l[k] == a || l[k] == b
  {
    hide Closer, Value;
    assert [b][..0] == [];
    assert Merged(p, key, [a], [a], [], local) == ([a], 0);
    assert !HasId([a], b.id);
  }

  /**
    A lookup that never reports: its only contact answers with one that is
    new to it but has failed too often to be asked.
   */
  lemma LookupCanHang(p: Params, key: Key, a: Contact, b: Contact, local: Key, rnd: nat -> int)
    requires p.Valid() && p.bucket >= 2 && a.id != b.id && Value(b.id) != 0 && b.id != local && rnd(0) != 0
    ensures var w1 := Apply(p, Init(), StepTouch(b, p.stale), local, rnd);
            var w2 := Apply(p, w1, StepStart(key, [a]), local, rnd);
            && Inv(p, w1) && Inv(p, w2)
            && var w3 := Apply(p, w2, StepResponse(rnd(0), [b]), local, rnd);
            |w3.ops| == 1 && w3.ops[0].pending == 0 && w3.ops[0].completed == 0
  {
    hide Start, HandleResponse, OpInv, Serials, Value;
    StepKeepsTwice(p, key, a, b, local, rnd);
    var w1 := Apply(p, Init(), StepTouch(b, p.stale), local, rnd);
    var w2 := Apply(p, w1, StepStart(key, [a]), local, rnd);
    StartOne(p, w1, key, a, rnd);
    MergeOne(p, key, a, b, local);
    assert ByMsgId(w2.trackers, rnd(0)) == 0;
    var (l, n) := Merged(p, key, [a], [a], [b], local);
    assert Exhausted(p, w2.ops[0].(list := l), w2.fail[a := 0]);
    hide Merged, ByMsgId, Exhausted, Inserted;
    ResponseEnds(p, w2, rnd(0), [b], local, rnd);
  }

  lemma StepKeepsTwice(p: Params, key: Key, a: Contact, b: Contact, local: Key, rnd: nat -> int)
    requires p.Valid()
    ensures var w1 := Apply(p, Init(), StepTouch(b, p.stale), local, rnd);
            Inv(p, w1) && Inv(p, Apply(p, w1, StepStart(key, [a]), local, rnd))
  {
    assert Inv(p, Init());
    StepKeeps(p, Init(), StepTouch(b, p.stale), local, rnd);
    hide Apply, OpInv, Serials;
    StepKeeps(p, Apply(p, Init(), StepTouch(b, p.stale), local, rnd), StepStart(key, [a]), local, rnd);
  }

  // ---------------------------------------------------------------- a lookup that completes too early

  lemma {:induction false} OfferSorted(key: Key, cs: seq<Contact>, bucket: nat)
    requires Sorted(key, cs) && |cs| <= bucket
    ensures Offered(key, cs, bucket) == cs
  {
    hide Closer;
    if cs != [] {
      var t, c := cs[..|cs| - 1], cs[|cs| - 1];
      OfferSorted(key, t, bucket);
      forall k | 0 <= k < |t| ensures t[k].id != c.id && !Closer(key, c.id, t[k].id) {
        assert Closer(key, cs[k].id, cs[|t|].id);
        Order(key);
      }
      PlaceUnique(key, t, c.id, |t|);
      assert t + [c] + [] == cs;
    }
  }

  /** When nobody failed yet, everyone may be asked. */
  lemma {:induction false} LevelAll(list: seq<Contact>, level: nat)
    ensures Level(list, [], map[], level) == if level == 0 then list else []
  {
    if list != [] { LevelAll(list[1..], level); }
  }

  lemma {:induction false} EligibleLater(list: seq<Contact>, level: nat, stale: nat)
    requires level > 0
    ensures Eligible(list, [], map[], level, stale) == []
    decreases stale - level
  {
    LevelAll(list, level);
    if level < stale { EligibleLater(list, level + 1, stale); }
  }

  /** The world in which `k` of the first contacts of `cs` have answered, all without news. */
  ghost predicate Answered(p: Params, key: Key, cs: seq<Contact>, rnd: nat -> int, k: nat, w: World)
    requires p.alpha <= |cs|
  {
    var first := cs[..p.alpha];
    && w.ops == [Op(key, cs, first, p.alpha - k, if k == p.alpha then 1 else 0, multiset(first))]
    && k <= p.alpha && w.trackers == Requests(first, 0, 0, rnd)[k..]
    && forall c :: c in w.fail ==> w.fail[c] == 0
  }

  lemma StartAsksFirst(p: Params, key: Key, cs: seq<Contact>, local: Key, rnd: nat -> int)
    requires p.Valid() && Sorted(key, cs) && p.alpha <= |cs| <= p.bucket
    ensures Answered(p, key, cs, rnd, 0, Apply(p, Init(), StepStart(key, cs), local, rnd))
  {
    hide Sorted, Offered, Level, Requests;
    OfferSorted(key, cs, p.bucket);
    LevelAll(cs, 0);
    EligibleLater(cs, 1, p.stale);
    var o := Op(key, cs, [], 0, 0, multiset{});
    assert Eligible(cs, [], map[], 0, p.stale) == cs + [];
    assert Chosen(p, o, map[], p.alpha) == cs[..p.alpha];
    assert [] + cs[..p.alpha] == cs[..p.alpha];
    var rs := Requests(cs[..p.alpha], 0, 0, rnd);
    assert [] + rs == rs && rs[0..] == rs;
  }

  lemma AnswerNext(p: Params, key: Key, cs: seq<Contact>, w: World, k: nat, local: Key, rnd: nat -> int)
    requires p.Valid() && p.alpha <= |cs| && k < p.alpha && Answered(p, key, cs, rnd, k, w) && rnd(k) != 0
    requires Indexed(w)
    ensures Answered(p, key, cs, rnd, k + 1, Apply(p, w, StepResponse(rnd(k), []), local, rnd))
  {
    hide Send;
    var first := cs[..p.alpha];
    var rs := Requests(first, 0, 0, rnd);
    assert w.trackers[0] == rs[k] == Tracker(k, rnd(k), first[k], 0);
    assert first[k] in first;
    assert ByMsgId(w.trackers, rnd(k)) == 0;
    assert Drop(w.trackers, 0) == rs[k + 1..];
  }

  /** The lookup for `key` starts with `cs`, and its first `k` requests are answered without news. */
  function Answers(key: Key, cs: seq<Contact>, rnd: nat -> int, k: nat): seq<Step> {
    if k == 0 then [StepStart(key, cs)] else Answers(key, cs, rnd, k - 1) + [StepResponse(rnd(k - 1), [])]
  }

  lemma {:induction false} AnswersRun(p: Params, key: Key, cs: seq<Contact>, local: Key, rnd: nat -> int, k: nat)
    requires p.Valid() && Sorted(key, cs) && p.alpha <= |cs| <= p.bucket && k <= p.alpha
    requires forall j: nat :: j < k ==> rnd(j) != 0
    ensures Answered(p, key, cs, rnd, k, Run(p, Answers(key, cs, rnd, k), local, rnd))
  {
    hide Sorted, Answered, Apply, OpInv, Serials;
    if k == 0 {
      RunOn(p, [], StepStart(key, cs), local, rnd);
      assert [] + [StepStart(key, cs)] == [StepStart(key, cs)];
      StartAsksFirst(p, key, cs, local, rnd);
    } else {
      AnswersRun(p, key, cs, local, rnd, k - 1);
      var steps := Answers(key, cs, rnd, k - 1);
      RunOn(p, steps, StepResponse(rnd(k - 1), []), local, rnd);
      AnswerNext(p, key, cs, Run(p, steps, local, rnd), k - 1, local, rnd);
    }
  }

  /**
    A lookup that completes too early: it knows more contacts than it may ask
    at once, and those it asked answer without news.  The others are in its
    list, may be asked, and never are.
   */
  lemma CompletesUnasked(p: Params, key: Key, cs: seq<Contact>, local: Key, rnd: nat -> int, j: nat)
    requires p.Valid() && Sorted(key, cs) && p.alpha < |cs| <= p.bucket && p.alpha <= j < |cs|
    requires forall k: nat :: k < p.alpha ==> rnd(k) != 0
    ensures var w := Run(p, Answers(key, cs, rnd, p.alpha), local, rnd);
            && |w.ops| == 1 && w.ops[0].completed == 1 && w.ops[0].list == cs
            && cs[j] !in w.ops[0].asked && Askable(w.ops[0].block, w.fail, cs[j], 0, p.stale)
  {
    hide Sorted, Run;
    AnswersRun(p, key, cs, local, rnd, p.alpha);
    SortedDistinct(key, cs);
    assert cs[j] !in cs[..p.alpha];
  }
}
