/** How often a lookup asks a contact. */
module LookupBounds {
  import opened NodeId
  import opened Nearest
  import opened Lookup
  import opened LookupSafety

  // ---------------------------------------------------------------- how often a contact is asked

  /** How often something other than lookup `i` set the fail counter of `c` back. */
  ghost function Resets(h: seq<(Contact, int)>, i: int, c: Contact): nat {
    if h == [] then 0
    else Resets(h[..|h| - 1], i, c) + (if h[|h| - 1].0 == c && h[|h| - 1].1 != i then 1 else 0)
  }

  ghost predicate Waiting(ts: seq<Tracker>, i: nat, c: Contact) {
    exists k :: 0 <= k < |ts| && ts[k].op == i && ts[k].dst == c
  }

  function Min(a: int, b: int): int {
    if a < b then a else b
  }

  /**
    The limit on the requests a lookup sent to a contact: once per failure
    while it may be asked, one more while the answer is due, and `stale`
    times once it answered or became stale, all per reset.
   */
  function Limit(stale: nat, resets: nat, fail: nat, blocked: bool, waiting: bool): int {
    stale * resets + (if !blocked then Min(fail, stale) else if waiting then Min(fail + 1, stale) else stale)
  }

  ghost predicate AskOk(p: Params, w: World, i: nat, c: Contact)
    requires i < |w.ops|
  {
    w.ops[i].asked[c] <= Limit(p.stale, Resets(w.resets, i, c), Fail(w.fail, c), c in w.ops[i].block,
        Waiting(w.trackers, i, c))
  }

  lemma LimitGrows(s: nat, r: nat, r': nat, f: nat, f': nat, blocked: bool, waiting: bool)
    requires r' == r || r' == r + 1
    requires r == r' ==> f <= f'
    ensures Limit(s, r, f, blocked, waiting) <= Limit(s, r', f', blocked, waiting)
  {
    assert s * (r + 1) == s * r + s;
  }

  /** A contact that is waited for no more is either settled for good or may be asked again. */
  lemma LimitSettled(s: nat, r: nat, f: nat, g: nat)
    ensures Limit(s, r, f, true, true) <= Limit(s, r, g, true, false)
    ensures Limit(s, r, f, true, true) == Limit(s, r, f + 1, false, false)
  {
  }

  lemma ResetsAdd(h: seq<(Contact, int)>, e: (Contact, int), i: int, c: Contact)
    ensures Resets(h + [e], i, c) == Resets(h, i, c) + (if e.0 == c && e.1 != i then 1 else 0)
  {
    assert (h + [e])[..|h|] == h;
  }

  lemma WaitingDrop(ts: seq<Tracker>, k: nat, i: nat, c: Contact)
    requires k < |ts| && !(ts[k].op == i && ts[k].dst == c)
    ensures Waiting(Drop(ts, k), i, c) == Waiting(ts, i, c)
  {
    var us := Drop(ts, k);
    if j :| 0 <= j < |ts| && ts[j].op == i && ts[j].dst == c {
      assert us[if j < k then j else j - 1] == ts[j];
    }
  }

  lemma WaitingAdd(ts: seq<Tracker>, cs: seq<Contact>, serial: nat, j: nat, rnd: nat -> int, i: nat, c: Contact)
    ensures Waiting(ts + Requests(cs, serial, j, rnd), i, c) <==> Waiting(ts, i, c) || (i == j && c in cs)
  {
    var rs := Requests(cs, serial, j, rnd);
    var us := ts + rs;
    if k :| 0 <= k < |ts| && ts[k].op == i && ts[k].dst == c { assert us[k] == ts[k]; }
    if i == j && c in cs {
      var k :| 0 <= k < |cs| && cs[k] == c;
      assert us[|ts| + k] == rs[k];
    }
  }

  lemma {:induction false} DistinctCount(cs: seq<Contact>, c: Contact)
    requires Distinct(cs)
    ensures multiset(cs)[c] == if c in cs then 1 else 0
  {
    if cs != [] {
      var t, z := cs[..|cs| - 1], cs[|cs| - 1];
      assert cs == t + [z];
      DistinctCount(t, c);
      assert forall k :: 0 <= k < |t| ==> t[k] == cs[k] != z;
    }
  }

  /** Sending: a contact is asked once more only when it may be. */
  lemma SendAsks(p: Params, w: World, j: nat, qty: nat, rnd: nat -> int, i: nat, c: Contact)
    requires j < |w.ops| && Sorted(w.ops[j].key, w.ops[j].list) && i < |w.ops| && AskOk(p, w, i, c)
    ensures |Send(p, w, j, qty, rnd).ops| == |w.ops| && AskOk(p, Send(p, w, j, qty, rnd), i, c)
  {
    hide Sorted, Distinct, Chosen, Requests, Waiting, Resets;
    var cs := Chosen(p, w.ops[j], w.fail, qty);
    ChosenIs(p, w.ops[j], w.fail, qty);
    WaitingAdd(w.trackers, cs, w.sent, j, rnd, i, c);
    DistinctCount(cs, c);
  }

  lemma StartAsks(p: Params, w: World, key: Key, initial: seq<Contact>, rnd: nat -> int, i: nat, c: Contact)
    requires p.Valid() && Inv(p, w) && i <= |w.ops| && (i < |w.ops| ==> AskOk(p, w, i, c))
    ensures |Start(p, w, key, initial, rnd).ops| == |w.ops| + 1 && AskOk(p, Start(p, w, key, initial, rnd), i, c)
  {
    hide Send, OpInv, Offered, Waiting, Resets, Serials;
    var o := Op(key, Offered(key, initial, p.bucket), [], 0, 0, multiset{});
    var v := w.(ops := w.ops + [o]);
    OfferedIsNearest(key, initial, p.bucket);
    assert AskOk(p, v, i, c);
    SendAsks(p, v, |w.ops|, p.alpha, rnd, i, c);
  }

  /** The answer of contact `d` to lookup `j`, before the lookup acts on it. */
  lemma AnswerAsks(p: Params, w: World, k: nat, i: nat, c: Contact)
    requires Inv(p, w) && k < |w.trackers| && i < |w.ops| && AskOk(p, w, i, c)
    ensures var t := w.trackers[k];
            AskOk(p, w.(succ := w.succ + 1, trackers := Drop(w.trackers, k), fail := w.fail[t.dst := 0],
                        resets := w.resets + [(t.dst, t.op)]), i, c)
  {
    hide Sorted, Distinct, Count, Waiting, Resets, Limit, Serials, Covered;
    var t := w.trackers[k];
    ResetsAdd(w.resets, (t.dst, t.op), i, c);
    var r, f := Resets(w.resets, i, c), Fail(w.fail, c);
    if t.op == i && t.dst == c {
      OwnAnswer(p, w, k);
      LimitSettled(p.stale, r, f, 0);
    } else {
      WaitingDrop(w.trackers, k, i, c);
      LimitGrows(p.stale, r, if t.dst == c then r + 1 else r, f, if t.dst == c then 0 else f,
                 c in w.ops[i].block, Waiting(w.trackers, i, c));
    }
  }

  /** The contact that answers or times out was blocked and waited for, and is waited for no more. */
  lemma OwnAnswer(p: Params, w: World, k: nat)
    requires Inv(p, w) && k < |w.trackers|
    ensures var t := w.trackers[k];
            && t.dst in w.ops[t.op].block && Waiting(w.trackers, t.op, t.dst)
            && !Waiting(Drop(w.trackers, k), t.op, t.dst)
  {
    hide Sorted, Distinct, Count;
    var t := w.trackers[k];
    OwnKeeps(p, w.ops[t.op], w.trackers, k, t.op);
    forall j | 0 <= j < |w.trackers| - 1
      ensures !(Drop(w.trackers, k)[j].op == t.op && Drop(w.trackers, k)[j].dst == t.dst)
    {
      assert Drop(w.trackers, k)[j] in Drop(w.trackers, k);
    }
  }

  lemma ResponseAsks(p: Params, w: World, msgId: int, found: seq<Contact>, local: Key, rnd: nat -> int, i: nat,
                     c: Contact)
    requires p.Valid() && Inv(p, w) && i < |w.ops| && AskOk(p, w, i, c)
    ensures |HandleResponse(p, w, msgId, found, local, rnd).ops| == |w.ops|
    ensures AskOk(p, HandleResponse(p, w, msgId, found, local, rnd), i, c)
  {
    hide Send, Merged, Waiting, Resets, Limit, Serials, Sorted, Covered, Distinct, Count;
    var k := ByMsgId(w.trackers, msgId);
    if msgId != 0 && k < |w.trackers| {
      var t := w.trackers[k];
      var o := w.ops[t.op];
      AnswerAsks(p, w, k, i, c);
      OwnAnswer(p, w, k);
      OwnKeeps(p, o, w.trackers, k, t.op);
      MergedKeeps(p, o.key, o.list, o.block, found, local);
      var v := w.(succ := w.succ + 1, trackers := Drop(w.trackers, k), fail := w.fail[t.dst := 0],
                 resets := w.resets + [(t.dst, t.op)]);
      var (l, n) := Merged(p, o.key, o.list, o.block, found, local);
      var q := o.(pending := o.pending - 1, list := l);
      var x := v.(ops := v.ops[t.op := q]);
      assert AskOk(p, x, i, c);
      if n > 0 { SendAsks(p, x, t.op, p.alpha - q.pending, rnd, i, c); }
    }
  }

  /** A timeout, up to the point where the lookup sends again. */
  lemma SettleAsks(p: Params, w: World, k: nat, x: World, i: nat, c: Contact)
    requires Inv(p, w) && k < |w.trackers| && i < |w.ops| && AskOk(p, w, i, c)
    requires var t := w.trackers[k]; var o := w.ops[t.op]; var f := w.fail[t.dst := Fail(w.fail, t.dst) + 1];
             && x.trackers == Drop(w.trackers, k) && x.fail == f && x.resets == w.resets && |x.ops| == |w.ops|
             && (forall j :: 0 <= j < |w.ops| && j != t.op ==> x.ops[j] == w.ops[j])
             && x.ops[t.op].asked == o.asked
             && x.ops[t.op].block == if Fail(f, t.dst) >= p.stale then o.block else Without(o.block, t.dst)
    ensures AskOk(p, x, i, c)
  {
    hide Sorted, Count, Waiting, Resets, Limit, Serials, Covered, Without, Distinct;
    var t := w.trackers[k];
    var r, f := Resets(w.resets, i, c), Fail(w.fail, c);
    BlockAfter(p, w, t.op, t.dst, c);
    if t.op == i && t.dst == c {
      OwnAnswer(p, w, k);
      LimitSettled(p.stale, r, f, f + 1);
    } else {
      WaitingDrop(w.trackers, k, i, c);
      LimitGrows(p.stale, r, r, f, if t.dst == c then f + 1 else f, c in w.ops[i].block, Waiting(w.trackers, i, c));
    }
  }

  lemma BlockAfter(p: Params, w: World, j: nat, d: Contact, c: Contact)
    requires Inv(p, w) && j < |w.ops|
    ensures c in Without(w.ops[j].block, d) <==> c in w.ops[j].block && c != d
  {
    hide Sorted, Count, Serials, Covered;
    WithoutIs(w.ops[j].block, d);
  }

  lemma TimeoutAsks(p: Params, w: World, serial: nat, rnd: nat -> int, i: nat, c: Contact)
    requires p.Valid() && Inv(p, w) && i < |w.ops| && AskOk(p, w, i, c)
    ensures |HandleTimeout(p, w, serial, rnd).ops| == |w.ops|
    ensures AskOk(p, HandleTimeout(p, w, serial, rnd), i, c)
  {
    hide Send, Waiting, Resets, Limit, Serials, Sorted, Covered, Distinct, Count, Without, Chosen, Fail;
    var k := BySerial(w.trackers, serial);
    if k < |w.trackers| {
      var t := w.trackers[k];
      var o := w.ops[t.op];
      OwnAnswer(p, w, k);
      var v := w.(failed := w.failed + 1, trackers := Drop(w.trackers, k),
                 fail := w.fail[t.dst := Fail(w.fail, t.dst) + 1]);
      var q := o.(pending := o.pending - 1);
      var q' := if Fail(v.fail, t.dst) >= p.stale then q.(list := Without(q.list, t.dst))
                else q.(block := Without(q.block, t.dst));
      var x := v.(ops := v.ops[t.op := q']);
      SettleAsks(p, w, k, x, i, c);
      WithoutSorted(o.key, o.list, t.dst);
      SendAsks(p, x, t.op, 1, rnd, i, c);
    }
  }

  lemma TouchAsks(p: Params, w: World, d: Contact, q: nat, local: Key, rnd: nat -> int, i: nat, c: Contact)
    requires Inv(p, w) && i < |w.ops| && AskOk(p, w, i, c)
    ensures AskOk(p, Apply(p, w, StepTouch(d, q), local, rnd), i, c)
  {
    hide Waiting, Resets, Limit, OpInv, Serials;
    ResetsAdd(w.resets, (d, -1), i, c);
    var f := Fail(w.fail, c);
    var r := Resets(w.resets, i, c);
    LimitGrows(p.stale, r, if d == c && q < f then r + 1 else r, f, if d == c then q else f,
               c in w.ops[i].block, Waiting(w.trackers, i, c));
  }

  lemma StepAsks(p: Params, w: World, t: Step, local: Key, rnd: nat -> int, i: nat, c: Contact)
    requires p.Valid() && Inv(p, w) && (i < |w.ops| ==> AskOk(p, w, i, c)) && i < |Apply(p, w, t, local, rnd).ops|
    ensures AskOk(p, Apply(p, w, t, local, rnd), i, c)
  {
    hide Start, HandleResponse, HandleTimeout, AskOk, OpInv, Serials;
    match t
    case StepStart(key, initial) => SizeAfterStart(p, w, key, initial, rnd); StartAsks(p, w, key, initial, rnd, i, c);
    case StepResponse(msgId, found) =>
      SizeAfterResponse(p, w, msgId, found, local, rnd);
      ResponseAsks(p, w, msgId, found, local, rnd, i, c);
    case StepTimeout(serial) => SizeAfterTimeout(p, w, serial, rnd); TimeoutAsks(p, w, serial, rnd, i, c);
    case StepTouch(d, q) => TouchAsks(p, w, d, q, local, rnd, i, c);
  }

  lemma SizeAfterStart(p: Params, w: World, key: Key, initial: seq<Contact>, rnd: nat -> int)
    ensures |Start(p, w, key, initial, rnd).ops| == |w.ops| + 1
  {
    hide Offered, Chosen, Requests;
  }

  lemma SizeAfterResponse(p: Params, w: World, msgId: int, found: seq<Contact>, local: Key, rnd: nat -> int)
    requires Indexed(w)
    ensures |HandleResponse(p, w, msgId, found, local, rnd).ops| == |w.ops|
  {
    hide Merged, Chosen, Requests;
  }

  lemma SizeAfterTimeout(p: Params, w: World, serial: nat, rnd: nat -> int)
    requires Indexed(w)
    ensures |HandleTimeout(p, w, serial, rnd).ops| == |w.ops|
  {
    hide Chosen, Requests, Without;
  }

  lemma {:induction false} RunAsks(p: Params, steps: seq<Step>, local: Key, rnd: nat -> int, i: nat, c: Contact)
    requires p.Valid() && i < |Run(p, steps, local, rnd).ops|
    ensures AskOk(p, Run(p, steps, local, rnd), i, c)
  {
    hide Apply, AskOk, OpInv, Serials;
    if steps != [] {
      var before := steps[..|steps| - 1];
      var w := Run(p, before, local, rnd);
      if i < |w.ops| { RunAsks(p, before, local, rnd, i, c); }
      StepAsks(p, w, steps[|steps| - 1], local, rnd, i, c);
    }
  }

  /**
    A lookup never asks a contact more than `stale` times, plus `stale` times
    for each time something else set the contact's fail counter back.
   */
  lemma AskedAtMost(p: Params, steps: seq<Step>, local: Key, rnd: nat -> int, i: nat, c: Contact)
    requires p.Valid() && i < |Run(p, steps, local, rnd).ops|
    ensures var w := Run(p, steps, local, rnd);
            w.ops[i].asked[c] <= p.stale * (Resets(w.resets, i, c) + 1)
  {
    hide Run, Resets, Waiting, OpInv;
    RunAsks(p, steps, local, rnd, i, c);
    var w := Run(p, steps, local, rnd);
    Whole(p.stale, Resets(w.resets, i, c));
  }

  lemma Whole(s: nat, r: nat)
    ensures s * (r + 1) == s * r + s
  {
  }

  /** When only this lookup touches the fail counters, `stale` is the limit. */
  lemma AskedAtMostStale(p: Params, steps: seq<Step>, local: Key, rnd: nat -> int, i: nat, c: Contact)
    requires p.Valid() && i < |Run(p, steps, local, rnd).ops|
    requires forall e :: e in Run(p, steps, local, rnd).resets ==> e.1 == i
    ensures Run(p, steps, local, rnd).ops[i].asked[c] <= p.stale
  {
    hide Run, Resets, OpInv;
    AskedAtMost(p, steps, local, rnd, i, c);
    NoResets(Run(p, steps, local, rnd).resets, i, c);
  }

  lemma {:induction false} NoResets(h: seq<(Contact, int)>, i: int, c: Contact)
    requires forall e :: e in h ==> e.1 == i
    ensures Resets(h, i, c) == 0
  {
    if h != [] { NoResets(h[..|h| - 1], i, c); }
  }
}
