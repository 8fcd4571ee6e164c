/** What a read returns, in terms of the messages the application handed over. */
module MessageRuns {
  import opened Streams
  import opened Messages
  import opened MessageSafety
  import SB = SndBuffer

  /** The number of the first packet of the message sent by step `s`. */
  function SentAt(states: seq<World>, s: nat): int
    requires s < |states|
  {
    states[s].c.isn + |states[s].c.us|
  }

  /** Packet `x` of `c` belongs to the message that step `s` sent. */
  ghost predicate Carries(states: seq<World>, steps: seq<Step>, c: Sent, s: nat, x: int) {
    && s < |steps| <= |states| && steps[s].StepSend?
    && var at, ps := SentAt(states, s), steps[s].ps;
       && at <= x < at + |ps|
       && forall y :: at <= y < at + |ps| ==> In(c, y) && U(c, y) == Packets(ps, steps[s].order)[y - at]
  }

  lemma SendsGrow(w: World, t: Step)
    requires Enabled(w, t)
    ensures var v := Apply(w, t);
            && v.c.isn == w.c.isn
            && v.c.us == w.c.us + (if t.StepSend? then Packets(t.ps, t.order) else [])
  {
    hide ReadMsg;
  }

  lemma CarriesStays(states: seq<World>, steps: seq<Step>, c: Sent, d: Sent, s: nat, x: int)
    requires Carries(states, steps, c, s, x) && c.isn == d.isn && c.us <= d.us
    ensures Carries(states, steps, d, s, x)
  {
    hide Packets;
    forall y | In(c, y) ensures In(d, y) && U(d, y) == U(c, y) { }
  }

  lemma CarriesNew(states: seq<World>, steps: seq<Step>, d: Sent, s: nat, x: int)
    requires s < |steps| <= |states| && steps[s].StepSend?
    requires var c := states[s].c;
             !In(c, x) && In(d, x) && d.isn == c.isn && d.us == c.us + Packets(steps[s].ps, steps[s].order)
    ensures Carries(states, steps, d, s, x)
  {
    hide Packets;
    var at, ps, c := SentAt(states, s), steps[s].ps, states[s].c;
    var added := Packets(ps, steps[s].order);
    assert |added| == |ps| by { PacketsSize(ps, steps[s].order); }
    forall y | at <= y < at + |ps| ensures In(d, y) && U(d, y) == added[y - at] {
      assert d.us[y - d.isn] == added[y - d.isn - |c.us|];
    }
  }

  lemma PacketsSize(ps: seq<Payload>, order: bool)
    ensures |Packets(ps, order)| == |ps|
  {
  }

  /** Every packet sent so far is one of a message that some step sent. */
  lemma {:induction false} CarriedBy(states: seq<World>, steps: seq<Step>, n: nat, x: int) returns (s: nat)
    requires IsRun(states, steps) && n < |states| && In(states[n].c, x)
    ensures s < n && Carries(states, steps, states[n].c, s, x)
    decreases n
  {
    hide Apply, Enabled, Carries, Packets;
    assert states[0].c.us == [] by { var isn :| isn >= 0 && states[0] == Init(isn); }
    assert n > 0;
    var w, v := states[n - 1], states[n];
    assert StepFrom(w, steps[n - 1], v);
    SendsGrow(w, steps[n - 1]);
    if In(w.c, x) {
      s := CarriedBy(states, steps, n - 1, x);
      CarriesStays(states, steps, w.c, v.c, s, x);
    } else {
      s := n - 1;
      CarriesNew(states, steps, v.c, s, x);
    }
  }

  /** A read message begins and ends with the message of one step. */
  lemma WholeSend(states: seq<World>, steps: seq<Step>, c: Sent, s: nat, p: int, q: int)
    requires Framed(c) && Carries(states, steps, c, s, p)
    requires In(c, q) && p <= q && U(c, p).begins && U(c, q).ends && First(c, q) == p
    ensures p == SentAt(states, s) && q == p + |steps[s].ps| - 1
  {
    hide First;
    var at, ps := SentAt(states, s), steps[s].ps;
    assert U(c, p) == Packets(ps, steps[s].order)[p - at];
    FirstIs(c, q);
    var last := at + |ps| - 1;
    assert U(c, last) == Packets(ps, steps[s].order)[last - at];
  }

  lemma {:induction false} ContentIs(c: Sent, ps: seq<Payload>, order: bool, at: int, i: nat)
    requires i <= |ps| && forall y :: at <= y < at + |ps| ==> In(c, y) && U(c, y) == Packets(ps, order)[y - at]
    ensures Content(c, at + i, at + |ps| - 1) == Flatten(ps[i..])
    decreases |ps| - i
  {
    if i < |ps| {
      ContentIs(c, ps, order, at, i + 1);
      assert U(c, at + i).data == ps[i] && ps[i..][0] == ps[i] && ps[i..][1..] == ps[i + 1..];
    } else {
      assert ps[i..] == [];
    }
  }

  lemma RunFramed(states: seq<World>, steps: seq<Step>, n: nat)
    requires IsRun(states, steps) && n < |states|
    ensures Framed(states[n].c)
  {
    hide IsRun;
    RunInv(states, steps, n);
  }

  /**
    In every run a read that finds a message returns what one earlier step
    sent, all of it if the space suffices.
   */
  lemma ReadsOneSend(states: seq<World>, steps: seq<Step>, n: nat, len: int)
    requires IsRun(states, steps) && n < |states| && ReadMsg(states[n].b, len).1.Message?
    ensures var (b, f, data) := ReadMsg(states[n].b, len);
            exists s: nat :: s < n && steps[s].StepSend? && f.p == SentAt(states, s) && f.q == f.p + |steps[s].ps| - 1
                             && |data| == (if 0 <= len < |Flatten(steps[s].ps)| then len else |Flatten(steps[s].ps)|)
                             && data == Flatten(steps[s].ps)[..|data|]
  {
    hide ReadMsg, IsRun, Inv, Framed, Logged, First, Content;
    RunFramed(states, steps, n);
    ReadsWholeMessages(states, steps, n, len);
    var c := states[n].c;
    var (b, f, data) := ReadMsg(states[n].b, len);
    var s := CarriedBy(states, steps, n, f.p);
    WholeSend(states, steps, c, s, f.p, f.q);
    ContentIs(c, steps[s].ps, steps[s].order, f.p, 0);
    assert steps[s].ps[0..] == steps[s].ps;
  }

  /** In every run: a packet that arrives is held as it was sent, unless it is held already; nothing else changes. */
  lemma ArrivalHeld(states: seq<World>, steps: seq<Step>, n: nat, x: int, y: int)
    requires IsRun(states, steps) && n < |steps| && steps[n] == StepArrive(x)
    ensures var b, d, c := states[n].b, states[n + 1].b, states[n].c;
            && In(c, x) && x in d.store && d.start == b.start && d.ack == b.ack
            && (x !in b.store ==> d.store[x] == Held(U(c, x), false))
            && (y != x || x in b.store ==> (y in d.store <==> y in b.store))
            && (y in b.store ==> d.store[y] == b.store[y])
  {
    assert StepFrom(states[n], steps[n], states[n + 1]);
  }

  /**
    The packets of one message are the blocks the send buffer adds for it:
    its payloads with the boundary and order bits of their message fields.
   */
  lemma PacketsAreBlocks(data: seq<Byte>, mss: int, order: bool, no: int, i: nat)
    requires mss > 0 && i < |Chunks(data, mss)|
    ensures var ps := Chunks(data, mss); var f := SB.SndBuffer.Fields(|ps|, order, no)[i];
            Packets(ps, order)[i] == Unit(ps[i], f.begins, f.ends, f.order)
    ensures Flatten(Chunks(data, mss)) == data
  {
    ChunksFlatten(data, mss);
  }
}
