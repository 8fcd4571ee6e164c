/**
  The iterative node lookup as a state machine: several lookups share the
  contacts and the list of outstanding requests, and replies, timeouts and
  other traffic arrive in any order.
 */
module Lookup {
  import opened NodeId
  import opened Nearest

  /** The constants of the configuration; every positive choice is covered. */
  datatype Params = Params(bucket: nat, alpha: nat, stale: nat) {
    predicate Valid() {
      bucket > 0 && alpha > 0 && stale > 0
    }
  }

  /** An outstanding request; `serial` tells apart the tracker objects. */
  datatype Tracker = Tracker(serial: nat, msgId: int, dst: Contact, op: nat)

  /** One lookup. `asked` records the requests it ever sent. */
  datatype Op = Op(
    key: Key,
    list: seq<Contact>,
    block: seq<Contact>,
    pending: int,
    completed: nat,
    asked: multiset<Contact>)

  datatype World = World(
    fail: map<Contact, nat>,
    ops: seq<Op>,
    trackers: seq<Tracker>,
    sent: nat,
    succ: nat,
    failed: nat,
    unknown: nat,
    wrong: nat,                              // how often a reply found no pending contact
    resets: seq<(Contact, int)>)             // who set a fail counter back: a lookup, or -1 for other traffic

  /** How often `c` failed to answer. */
  function Fail(fail: map<Contact, nat>, c: Contact): nat {
    if c in fail then fail[c] else 0
  }

  // ---------------------------------------------------------------- sending

  /** The contacts of one fail count that may be asked, nearest first. */
  function Level(list: seq<Contact>, block: seq<Contact>, fail: map<Contact, nat>, level: nat): seq<Contact> {
    if list == [] then []
    else
      (if Fail(fail, list[0]) == level && list[0] !in block then [list[0]] else [])
      + Level(list[1..], block, fail, level)
  }

  /** All contacts that may be asked, those that failed least first. */
  function Eligible(list: seq<Contact>, block: seq<Contact>, fail: map<Contact, nat>, level: nat,
                    stale: nat): seq<Contact>
    decreases stale - level
  {
    if level >= stale then []
    else Level(list, block, fail, level) + Eligible(list, block, fail, level + 1, stale)
  }

  function Take(s: seq<Contact>, n: int): seq<Contact> {
    if n <= 0 then [] else if n < |s| then s[..n] else s
  }

  /** Whom a lookup asks next, when it may send `qty` requests. */
  function Chosen(p: Params, o: Op, fail: map<Contact, nat>, qty: int): seq<Contact> {
    Take(Eligible(o.list, o.block, fail, 0, p.stale), qty)
  }

  function Requests(cs: seq<Contact>, serial: nat, op: nat, rnd: nat -> int): seq<Tracker> {
    seq(|cs|, k requires 0 <= k < |cs| => Tracker(serial + k, rnd(serial + k), cs[k], op))
  }

  /** Lookup `i` sends up to `qty` requests; `rnd` are the random message numbers. */
  ghost function Send(p: Params, w: World, i: nat, qty: int, rnd: nat -> int): World
    requires i < |w.ops|
  {
    var o := w.ops[i];
    var cs := Chosen(p, o, w.fail, qty);
    w.(ops := w.ops[i := o.(block := o.block + cs, pending := o.pending + |cs|, asked := o.asked + multiset(cs))],
       trackers := w.trackers + Requests(cs, w.sent, i, rnd),
       sent := w.sent + |cs|)
  }

  ghost function Complete(w: World, i: nat): World
    requires i < |w.ops|
  {
    w.(ops := w.ops[i := w.ops[i].(completed := w.ops[i].completed + 1)])
  }

  /** A new lookup of `key`, begun with the contacts `initial`. */
  ghost function Start(p: Params, w: World, key: Key, initial: seq<Contact>, rnd: nat -> int): World {
    var v := w.(ops := w.ops + [Op(key, Offered(key, initial, p.bucket), [], 0, 0, multiset{})]);
    Send(p, v, |w.ops|, p.alpha, rnd)
  }

  // ---------------------------------------------------------------- replies and timeouts

  function Without(s: seq<Contact>, c: Contact): seq<Contact> {
    if s == [] then [] else if s[0] == c then s[1..] else [s[0]] + Without(s[1..], c)
  }

  /** Contact `c` did not answer lookup `i` in time. */
  ghost function OnTimeout(p: Params, w: World, i: nat, c: Contact, rnd: nat -> int): World
    requires i < |w.ops|
  {
    var o := w.ops[i];
    if c !in o.block then w.(wrong := w.wrong + 1)
    else
      var q := o.(pending := o.pending - 1);
      var q' := if Fail(w.fail, c) >= p.stale then q.(list := Without(q.list, c)) else q.(block := Without(q.block, c));
      var v := w.(ops := w.ops[i := q']);
      var u := Send(p, v, i, 1, rnd);
      if |Chosen(p, q', w.fail, 1)| == 0 && u.ops[i].pending == 0 then Complete(u, i) else u
  }

  /** The contacts of a reply that are neither void, oneself, nor known to the lookup. */
  function Merged(p: Params, key: Key, list: seq<Contact>, block: seq<Contact>, found: seq<Contact>,
                  local: Key): (seq<Contact>, nat) {
    if found == [] then (list, 0)
    else
      var (l, n) := Merged(p, key, list, block, found[..|found| - 1], local);
      var c := found[|found| - 1];
      if Value(c.id) == 0 || c.id == local || HasId(block, c.id) || HasId(l, c.id) then (l, n)
      else
        var (l', ok) := Inserted(key, l, c, p.bucket);
        (l', if ok then n + 1 else n)
  }

  /** Contact `c` answered lookup `i` with the contacts `found`. */
  ghost function OnReply(p: Params, w: World, i: nat, c: Contact, found: seq<Contact>, local: Key,
                         rnd: nat -> int): World
    requires i < |w.ops|
  {
    var o := w.ops[i];
    if c !in o.block then w.(wrong := w.wrong + 1)
    else
      var (l, n) := Merged(p, o.key, o.list, o.block, found, local);
      var q := o.(pending := o.pending - 1, list := l);
      var v := w.(ops := w.ops[i := q]);
      if n > 0 then Send(p, v, i, p.alpha - q.pending, rnd)
      else if q.pending == 0 then Complete(v, i)
      else v
  }

  // ---------------------------------------------------------------- the request list

  /** The first outstanding request with message number `msgId`. */
  function ByMsgId(ts: seq<Tracker>, msgId: int): (k: nat)
    ensures k <= |ts| && (k < |ts| ==> ts[k].msgId == msgId)
    ensures forall j :: 0 <= j < k ==> ts[j].msgId != msgId
  {
    if ts == [] || ts[0].msgId == msgId then 0 else 1 + ByMsgId(ts[1..], msgId)
  }

  function BySerial(ts: seq<Tracker>, serial: nat): (k: nat)
    ensures k <= |ts| && (k < |ts| ==> ts[k].serial == serial)
    ensures forall j :: 0 <= j < k ==> ts[j].serial != serial
  {
    if ts == [] || ts[0].serial == serial then 0 else 1 + BySerial(ts[1..], serial)
  }

  function Drop(ts: seq<Tracker>, k: nat): seq<Tracker>
    requires k < |ts|
  {
    ts[..k] + ts[k + 1..]
  }

  ghost function HandleResponse(p: Params, w: World, msgId: int, found: seq<Contact>, local: Key,
                                rnd: nat -> int): World
    requires Indexed(w)
  {
    var k := ByMsgId(w.trackers, msgId);
    if msgId == 0 then w
    else if k == |w.trackers| then w.(unknown := w.unknown + 1)
    else
      var t := w.trackers[k];
      var v := w.(succ := w.succ + 1, trackers := Drop(w.trackers, k), fail := w.fail[t.dst := 0],
                 resets := w.resets + [(t.dst, t.op)]);
      OnReply(p, v, t.op, t.dst, found, local, rnd)
  }

  ghost function HandleTimeout(p: Params, w: World, serial: nat, rnd: nat -> int): World
    requires Indexed(w)
  {
    var k := BySerial(w.trackers, serial);
    if k == |w.trackers| then w
    else
      var t := w.trackers[k];
      var v := w.(failed := w.failed + 1, trackers := Drop(w.trackers, k),
                 fail := w.fail[t.dst := Fail(w.fail, t.dst) + 1]);
      OnTimeout(p, v, t.op, t.dst, rnd)
  }

  /** Every request belongs to a lookup. */
  ghost predicate Indexed(w: World) {
    forall t :: t in w.trackers ==> t.op < |w.ops|
  }

  // ---------------------------------------------------------------- steps

  datatype Step =
    | StepStart(key: Key, initial: seq<Contact>)
    | StepResponse(msgId: int, found: seq<Contact>)
    | StepTimeout(serial: nat)
    | StepTouch(c: Contact, failQty: nat)    // other traffic changes the fail counter of a contact

  ghost function Apply(p: Params, w: World, t: Step, local: Key, rnd: nat -> int): World
    requires Indexed(w)
  {
    match t
    case StepStart(key, initial) => Start(p, w, key, initial, rnd)
    case StepResponse(msgId, found) => HandleResponse(p, w, msgId, found, local, rnd)
    case StepTimeout(serial) => HandleTimeout(p, w, serial, rnd)
    case StepTouch(c, q) =>
      w.(fail := w.fail[c := q], resets := if q < Fail(w.fail, c) then w.resets + [(c, -1)] else w.resets)
  }

  ghost function Init(): World {
    World(map[], [], [], 0, 0, 0, 0, 0, [])
  }
}
