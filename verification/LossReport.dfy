/**
  The coding of a loss report: a single number is one word, a range is its
  first number with the top bit set followed by its last number.  A report
  word is an unsigned 32-bit value here.
 */
module LossReport {
  import opened SeqNo
  import opened LossIntervals

  const FLAG: int := 0x8000_0000

  type Ranges = seq<(int, int)>

  function CodeOne(r: (int, int)): seq<int> {
    if r.0 == r.1 then [Wrap(r.0)] else [Wrap(r.0) + FLAG, Wrap(r.1)]
  }

  function Code(rs: Ranges): seq<int> {
    if rs == [] then [] else CodeOne(rs[0]) + Code(rs[1..])
  }

  /** Reading a report the way the sender does; `Broken` when a range lacks its end. */
  datatype Decoded = Broken | Ranges(rs: Ranges)

  function Decode(words: seq<int>): Decoded
    decreases |words|
  {
    if words == [] then Ranges([])
    else if words[0] >= FLAG then
      if |words| == 1 then Broken
      else Prepend((words[0] - FLAG, words[1]), Decode(words[2..]))
    else Prepend((words[0], words[0]), Decode(words[1..]))
  }

  function Prepend(r: (int, int), d: Decoded): Decoded {
    match d
    case Broken => Broken
    case Ranges(rs) => Ranges([r] + rs)
  }

  function Wrapped(rs: Ranges): Ranges {
    seq(|rs|, i requires 0 <= i < |rs| => (Wrap(rs[i].0), Wrap(rs[i].1)))
  }

  /** What the receiver codes is what the sender decodes. */
  lemma {:induction false} RoundTrip(rs: Ranges)
    ensures Decode(Code(rs)) == Ranges(Wrapped(rs))
  {
    if rs != [] {
      RoundTrip(rs[1..]);
      hide Wrap;
      var c := Code(rs);
      assert c == CodeOne(rs[0]) + Code(rs[1..]);
      assert Wrapped(rs) == [(Wrap(rs[0].0), Wrap(rs[0].1))] + Wrapped(rs[1..]);
      if rs[0].0 == rs[0].1 {
        assert c[1..] == Code(rs[1..]);
      } else {
        assert c[2..] == Code(rs[1..]);
      }
    }
  }

  lemma {:induction false} CodeAppend(rs: Ranges, r: (int, int))
    ensures Code(rs + [r]) == Code(rs) + CodeOne(r)
  {
    if rs == [] {
      assert rs + [r] == [r];
      assert Code([r][1..]) == [];
    } else {
      CodeAppend(rs[1..], r);
      assert (rs + [r])[1..] == rs[1..] + [r];
    }
  }

  /** The numbers a report names. */
  ghost function Named(rs: Ranges): set<int> {
    if rs == [] then {} else Named(rs[..|rs| - 1]) + Range(rs[|rs| - 1].0, rs[|rs| - 1].1)
  }

  ghost predicate Ascends(rs: Ranges) {
    && (forall i :: 0 <= i < |rs| ==> rs[i].0 <= rs[i].1)
    && (forall i, j :: 0 <= i < j < |rs| ==> rs[i].1 < rs[j].0)
  }

  lemma {:induction false} NamedBelow(rs: Ranges)
    requires Ascends(rs)
    ensures forall x :: x in Named(rs) ==> rs != [] && x <= rs[|rs| - 1].1
  {
    if rs != [] {
      var t := rs[..|rs| - 1];
      NamedBelow(t);
      forall x | x in Named(rs) ensures x <= rs[|rs| - 1].1 {
        if x in Named(t) { assert t[|t| - 1] == rs[|rs| - 2]; }
      }
    }
  }

  lemma LastIsNew(rs: Ranges)
    requires Ascends(rs) && rs != []
    ensures Named(rs[..|rs| - 1]) !! Range(rs[|rs| - 1].0, rs[|rs| - 1].1)
  {
    var t := rs[..|rs| - 1];
    NamedBelow(t);
    forall x | x in Named(t) ensures x !in Range(rs[|rs| - 1].0, rs[|rs| - 1].1) {
      assert t[|t| - 1] == rs[|rs| - 2];
    }
  }

  /** A report of disjoint ranges never has more words than the numbers it names. */
  lemma {:induction false} WordsAtMostNumbers(rs: Ranges)
    requires Ascends(rs)
    ensures |Code(rs)| <= |Named(rs)|
  {
    if rs == [] {
    } else {
      var t, r := rs[..|rs| - 1], rs[|rs| - 1];
      assert rs == t + [r];
      WordsAtMostNumbers(t);
      CodeAppend(t, r);
      LastIsNew(rs);
      RangeSize(r.0, r.1);
    }
  }

  // ---------------------------------------------------------------- reports taken from a list of intervals

  /** `rs` holds exactly the intervals of `m` that satisfy: all, or only those starting before `stop`. */
  ghost predicate Covers(m: Intervals, rs: Ranges, all: bool, stop: int) {
    && (forall i :: 0 <= i < |rs| ==> rs[i].0 in m && m[rs[i].0] == rs[i].1 && (all || rs[i].0 < stop))
    && (forall k :: k in m && (all || k < stop) ==> (k, m[k]) in rs)
  }

  /** Reporting the next interval in ascending order. */
  lemma CoversNext(m: Intervals, rs: Ranges, k: int, all: bool, stop: int)
    requires Disjoint(m) && Ascends(rs) && Covers(m, rs, false, k) && k in m
    requires forall j :: j in m ==> j <= k || (!all && stop <= j)
    requires all || k < stop
    ensures Ascends(rs + [(k, m[k])]) && Covers(m, rs + [(k, m[k])], all, stop)
  {
    var t := rs + [(k, m[k])];
    forall j | j in m && (all || j < stop) ensures (j, m[j]) in t {
      if j != k { assert (j, m[j]) in rs; } else { assert t[|rs|] == (k, m[k]); }
    }
  }

  lemma {:induction false} NamedIs(rs: Ranges)
    ensures forall x :: x in Named(rs) <==> exists i :: 0 <= i < |rs| && Between(rs[i].0, x, rs[i].1)
  {
    if rs != [] {
      NamedIs(rs[..|rs| - 1]);
      forall x ensures x in Named(rs) <==> exists i :: 0 <= i < |rs| && Between(rs[i].0, x, rs[i].1) {
        if x in Named(rs[..|rs| - 1]) {
          var i :| 0 <= i < |rs| - 1 && Between(rs[i].0, x, rs[i].1);
        } else if x in Named(rs) {
          assert Between(rs[|rs| - 1].0, x, rs[|rs| - 1].1);
        }
        if i :| 0 <= i < |rs| && Between(rs[i].0, x, rs[i].1) {
          if i < |rs| - 1 { assert rs[..|rs| - 1][i] == rs[i]; }
        }
      }
    }
  }

  /** Such a report names a downward-closed part of the recorded numbers, or all of them. */
  lemma CoversNames(m: Intervals, rs: Ranges, all: bool, stop: int)
    requires Disjoint(m) && Covers(m, rs, all, stop)
    ensures Named(rs) <= Members(m)
    ensures forall x, y :: x in Members(m) && y in Named(rs) && x <= y ==> x in Named(rs)
    ensures all ==> Named(rs) == Members(m)
  {
    NamedIs(rs);
    forall y | y in Named(rs) ensures y in Members(m) {
      var i :| 0 <= i < |rs| && Between(rs[i].0, y, rs[i].1);
      assert Between(rs[i].0, y, m[rs[i].0]);
    }
    forall x, y | x in Members(m) && y in Named(rs) && x <= y ensures x in Named(rs) {
      var i :| 0 <= i < |rs| && Between(rs[i].0, y, rs[i].1);
      var k :| k in m && Between(k, x, m[k]);
      CoversOne(m, rs, all, stop, k, x, rs[i].0);
    }
    if all {
      forall x | x in Members(m) ensures x in Named(rs) {
        var k :| k in m && Between(k, x, m[k]);
        CoversOne(m, rs, all, stop, k, x, k);
      }
    }
  }

  lemma CoversOne(m: Intervals, rs: Ranges, all: bool, stop: int, k: int, x: int, j: int)
    requires Covers(m, rs, all, stop) && k in m && Between(k, x, m[k]) && k <= j && (all || j < stop)
    ensures x in Named(rs)
  {
    assert (k, m[k]) in rs;
    var i :| 0 <= i < |rs| && rs[i] == (k, m[k]);
    assert Between(rs[i].0, x, rs[i].1);
    NamedIs(rs);
  }
}
