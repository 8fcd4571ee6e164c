/**
  The shape shared by the two loss lists: disjoint intervals of sequence
  numbers threaded through three fixed arrays.  An interval is named by its
  first number; the slot that stores it is fixed by that number.
 */
module LossIntervals {
  import opened Arith
  import opened SeqNo

  /** First number of an interval -> last number of the interval. */
  type Intervals = map<int, int>

  ghost predicate Between(a: int, x: int, b: int) {
    a <= x <= b
  }

  ghost function Range(a: int, b: int): set<int> {
    set x | a <= x <= b && Between(a, x, b)
  }

  /** The numbers recorded by a collection of intervals. */
  ghost function Members(m: Intervals): set<int> {
    set a, x | a in m.Keys && a <= x <= m[a] && Between(a, x, m[a]) :: x
  }

  ghost predicate Disjoint(m: Intervals) {
    && (forall a :: a in m ==> a <= m[a])
    && (forall a, b :: a in m && b in m && a < b ==> m[a] < b)
  }

  lemma RangeIs(a: int, b: int)
    ensures forall x :: x in Range(a, b) <==> a <= x <= b
  {
    forall x ensures x in Range(a, b) <==> a <= x <= b { assert x in Range(a, b) <==> Between(a, x, b); }
  }

  lemma RangeGrows(a: int, b: int)
    requires a <= b
    ensures Range(a, b) == Range(a, b - 1) + {b} && b !in Range(a, b - 1)
  {
    forall x ensures x in Range(a, b) <==> x in Range(a, b - 1) + {b} {
      assert x in Range(a, b) <==> Between(a, x, b);
      assert x in Range(a, b - 1) <==> Between(a, x, b - 1);
    }
  }

  lemma NoRange(a: int, b: int)
    requires b < a
    ensures Range(a, b) == {}
  {
  }

  lemma {:induction false} RangeSize(a: int, b: int)
    requires a <= b + 1
    ensures |Range(a, b)| == b - a + 1
    decreases b - a
  {
    hide Range;
    RangeIs(a, b);
    RangeIs(a, b - 1);
    if a <= b {
      RangeSize(a, b - 1);
      RangeGrows(a, b);
    } else {
      NoRange(a, b);
    }
  }

  /** Recording one more interval adds exactly its numbers. */
  lemma MembersPut(m: Intervals, a: int, b: int)
    ensures Members(m[a := b]) == Members(m - {a}) + Range(a, b)
  {
    var m' := m[a := b];
    forall x | x in Members(m') ensures x in Members(m - {a}) + Range(a, b) {
      var k :| k in m' && Between(k, x, m'[k]);
      if k == a { assert Between(a, x, b); } else { assert k in m - {a} && Between(k, x, (m - {a})[k]); }
    }
    forall x | x in Members(m - {a}) + Range(a, b) ensures x in Members(m') {
      if x in Range(a, b) {
        assert a in m' && Between(a, x, m'[a]);
      } else {
        var k :| k in m - {a} && Between(k, x, (m - {a})[k]);
        assert k in m' && Between(k, x, m'[k]);
      }
    }
  }

  /** Dropping an interval that overlaps no other one removes exactly its numbers. */
  lemma MembersDrop(m: Intervals, a: int)
    requires a in m && a <= m[a]
    requires forall b :: b in m && b != a ==> b > m[a] || m[b] < a
    ensures Members(m - {a}) !! Range(a, m[a])
    ensures Members(m) == Members(m - {a}) + Range(a, m[a])
    ensures |Members(m)| == |Members(m - {a})| + m[a] - a + 1
  {
    MembersPut(m, a, m[a]);
    assert m[a := m[a]] == m;
    forall x | x in Members(m - {a}) ensures x !in Range(a, m[a]) {
      var k :| k in m - {a} && Between(k, x, (m - {a})[k]);
    }
    RangeSize(a, m[a]);
  }

  /**
    `c` is the one interval that may overlap intervals after it: the state
    between the insertion of a range and the end of coalescing.
   */
  ghost predicate LooseAt(m: Intervals, c: int) {
    && c in m && c <= m[c]
    && Disjoint(m - {c})
    && (forall k :: k in m && k < c ==> m[k] < c)
  }

  /** Size of a loose collection, counting overlapped numbers twice. */
  ghost function LooseSize(m: Intervals, c: int): int
    requires c in m
  {
    |Members(m - {c})| + m[c] - c + 1
  }

  lemma RangeUnion(c: int, h: int, z: int, y: int)
    requires c < z <= h + 1 && z <= y && c <= h
    ensures Range(c, h) + Range(z, y) == Range(c, if y > h then y else h)
  {
    var e := if y > h then y else h;
    forall x | x in Range(c, e) ensures x in Range(c, h) + Range(z, y) {
      if x <= h { assert Between(c, x, h); } else { assert Between(z, x, y); }
    }
    forall x | x in Range(c, h) + Range(z, y) ensures x in Range(c, e) {
      assert Between(c, x, e);
    }
  }

  lemma LooseSplit(m: Intervals, c: int)
    requires c in m
    ensures Members(m) == Members(m - {c}) + Range(c, m[c])
  {
    MembersPut(m, c, m[c]);
    assert m[c := m[c]] == m;
  }

  lemma AbsorbKeepsLoose(m: Intervals, c: int, z: int, e: int)
    requires LooseAt(m, c) && z in m && c < z && m[c] <= e
    ensures LooseAt((m - {z})[c := e], c)
  {
    var m' := (m - {z})[c := e];
    assert m' - {c} == (m - {c}) - {z};
  }

  lemma DropFromRest(m: Intervals, c: int, z: int)
    requires LooseAt(m, c) && z in m && c != z
    ensures z <= m[z]
    ensures Members(m - {c}) == Members((m - {c}) - {z}) + Range(z, m[z])
    ensures |Members(m - {c})| == |Members((m - {c}) - {z})| + m[z] - z + 1
  {
    var r := m - {c};
    assert r[z] == m[z] && z in r;
    MembersDrop(r, z);
  }

  lemma LooseHas(m: Intervals, c: int)
    requires LooseAt(m, c)
    ensures c in m && c <= m[c]
  {
  }

  lemma AbsorbSets(m: Intervals, c: int, z: int, e: int)
    requires LooseAt(m, c) && z in m && c < z <= m[c] + 1
    requires e == if m[z] > m[c] then m[z] else m[c]
    ensures var m' := (m - {z})[c := e];
            && Members(m') == Members(m)
            && |Members(m' - {c})| == |Members(m - {c})| - (m[z] - z + 1)
  {
    hide *;
    LooseHas(m, c);
    DropFromRest(m, c, z);
    var m' := (m - {z})[c := e];
    assert m' - {c} == (m - {c}) - {z};
    LooseSplit(m', c);
    LooseSplit(m, c);
    RangeUnion(c, m[c], z, m[z]);
  }

  /** Absorbing the next interval `z`, when it overlaps or touches, loses nothing. */
  lemma AbsorbNext(m: Intervals, c: int, z: int, e: int)
    requires LooseAt(m, c) && z in m && c < z <= m[c] + 1
    requires e == if m[z] > m[c] then m[z] else m[c]
    ensures var m' := (m - {z})[c := e];
            && LooseAt(m', c)
            && Members(m') == Members(m)
            && LooseSize(m', c) == LooseSize(m, c) - (m[z] - z + 1) + (e - m[c])
  {
    AbsorbKeepsLoose(m, c, z, e);
    AbsorbSets(m, c, z, e);
  }

  /** Once `c` stops short of the intervals after it, the collection is disjoint. */
  lemma LooseDone(m: Intervals, c: int)
    requires LooseAt(m, c)
    requires forall k :: k in m && c < k ==> m[c] < k
    ensures Disjoint(m) && LooseSize(m, c) == |Members(m)|
  {
    forall a, b | a in m && b in m && a < b ensures m[a] < b {
      if a != c && b != c { assert a in m - {c} && b in m - {c}; }
    }
    forall a | a in m ensures a <= m[a] {
      if a != c { assert a in m - {c}; }
    }
    MembersDrop(m, c);
  }

  /** A new interval that no earlier one reaches leaves the collection loose at it. */
  lemma PutLoose(m: Intervals, a: int, b: int)
    requires Disjoint(m) && a !in m && a <= b
    requires forall k :: k in m && k < a ==> m[k] < a
    ensures LooseAt(m[a := b], a)
    ensures LooseSize(m[a := b], a) == |Members(m)| + b - a + 1
    ensures Members(m[a := b]) == Members(m) + Range(a, b)
  {
    MembersPut(m, a, b);
    assert m - {a} == m;
    assert m[a := b] - {a} == m;
  }

  lemma RangeStretch(c: int, h: int, a: int, b: int)
    requires c <= a <= h + 1 && c <= h < b
    ensures Range(c, b) == Range(c, h) + Range(a, b)
  {
    forall x | x in Range(c, b) ensures x in Range(c, h) + Range(a, b) {
      if x <= h { assert Between(c, x, h); } else { assert Between(a, x, b); }
    }
    forall x | x in Range(c, h) + Range(a, b) ensures x in Range(c, b) {
      assert Between(c, x, b);
    }
  }

  lemma StretchMembers(m: Intervals, c: int, a: int, b: int)
    requires Disjoint(m) && c in m && c <= m[c] < b && c <= a <= m[c] + 1
    ensures Members(m[c := b]) == Members(m) + Range(a, b)
  {
    hide *;
    MembersPut(m, c, b);
    LooseSplit(m, c);
    RangeStretch(c, m[c], a, b);
  }

  /** Moving the end of interval `c` up to `b` adds the range from anywhere in it. */
  lemma StretchLoose(m: Intervals, c: int, a: int, b: int)
    requires Disjoint(m) && c in m && m[c] < b && c <= a <= m[c] + 1
    ensures LooseAt(m[c := b], c)
    ensures LooseSize(m[c := b], c) == |Members(m)| + b - m[c]
    ensures Members(m[c := b]) == Members(m) + Range(a, b)
  {
    assert m[c := b] - {c} == m - {c};
    assert c <= m[c] && LooseAt(m, c) && LooseAt(m[c := b], c);
    LooseDone(m, c);
    hide Members, Range, Disjoint, LooseAt;
    StretchMembers(m, c, a, b);
  }

  /** Which numbers an interval `p` speaks for, when no other starts between it and `x`. */
  lemma CoveredBy(m: Intervals, p: int, x: int)
    requires Disjoint(m) && p in m && p <= x
    requires forall k :: k in m ==> k <= p || x < k
    ensures x in Members(m) <==> x <= m[p]
  {
    if x <= m[p] {
      assert Between(p, x, m[p]);
    } else {
      forall y | y in Members(m) ensures y != x {
        var k :| k in m && Between(k, y, m[k]);
      }
    }
  }

  /** Nothing is recorded beyond every end, nor before every start. */
  lemma OutOfReach(m: Intervals, x: int)
    requires (forall k :: k in m ==> m[k] < x) || (forall k :: k in m ==> x < k)
    ensures x !in Members(m)
  {
    forall y | y in Members(m) ensures y != x {
      var k :| k in m && Between(k, y, m[k]);
    }
  }

  /** A range inside one interval is already recorded. */
  lemma Covered(m: Intervals, c: int, a: int, b: int)
    requires c in m && c <= a && b <= m[c]
    ensures Members(m) + Range(a, b) == Members(m)
  {
    forall x | x in Range(a, b) ensures x in Members(m) {
      assert Between(c, x, m[c]);
    }
  }

  lemma RangeHead(h: int, e: int)
    requires h <= e
    ensures Range(h, e) == {h} + Range(h + 1, e) && h !in Range(h + 1, e)
    ensures h == e ==> Range(h + 1, e) == {}
  {
    forall x | x in Range(h, e) ensures x in {h} + Range(h + 1, e) {
      if x != h { assert Between(h + 1, x, e); }
    }
    forall x | x in {h} + Range(h + 1, e) ensures x in Range(h, e) { assert Between(h, x, e); }
  }

  lemma StartOnlyThere(m: Intervals, h: int)
    requires Disjoint(m) && h in m
    ensures h !in Members(m - {h})
  {
    forall x | x in Members(m - {h}) ensures x != h {
      var k :| k in m - {h} && Between(k, x, (m - {h})[k]);
    }
  }

  lemma StartDisjoint(m: Intervals, h: int)
    requires Disjoint(m) && h in m
    ensures h <= m[h] && h in Members(m) && Disjoint(m - {h})
    ensures h != m[h] ==> h + 1 !in m - {h} && Disjoint((m - {h})[h + 1 := m[h]])
  {
    assert Between(h, h, m[h]);
  }

  /** Removing the first number of interval `h`: the interval now starts one later. */
  lemma StartGone(m: Intervals, h: int)
    requires Disjoint(m) && h in m
    ensures var m' := if h == m[h] then m - {h} else (m - {h})[h + 1 := m[h]];
            && Disjoint(m')
            && Members(m') == Members(m) - {h}
            && |Members(m')| == |Members(m)| - 1
    ensures h in Members(m)
  {
    hide Members, Range, Disjoint, Between;
    StartOnlyThere(m, h);
    StartDisjoint(m, h);
    LooseSplit(m, h);
    RangeHead(h, m[h]);
    if h != m[h] {
      MembersPut(m - {h}, h + 1, m[h]);
      assert (m - {h}) - {h + 1} == m - {h};
    }
  }

  lemma RangeLast(h: int, e: int)
    requires h < e
    ensures Range(h, e) == Range(h, e - 1) + {e} && e !in Range(h, e - 1)
  {
    forall x | x in Range(h, e) ensures x in Range(h, e - 1) + {e} {
      if x != e { assert Between(h, x, e - 1); }
    }
    forall x | x in Range(h, e - 1) + {e} ensures x in Range(h, e) { assert Between(h, x, e); }
  }

  lemma EndOnlyThere(m: Intervals, p: int)
    requires Disjoint(m) && p in m
    ensures m[p] !in Members(m - {p}) && m[p] in Members(m)
  {
    assert Between(p, m[p], m[p]);
    forall x | x in Members(m - {p}) ensures x != m[p] {
      var k :| k in m - {p} && Between(k, x, (m - {p})[k]);
      assert k < p || p < k;
    }
  }

  /** Removing the last number of interval `p`, which has others. */
  lemma EndGone(m: Intervals, p: int)
    requires Disjoint(m) && p in m && p < m[p]
    ensures var m' := m[p := m[p] - 1];
            Disjoint(m') && Members(m') == Members(m) - {m[p]} && |Members(m')| == |Members(m)| - 1
    ensures m[p] in Members(m)
  {
    var m' := m[p := m[p] - 1];
    EndOnlyThere(m, p);
    assert Disjoint(m');
    hide Members, Range, Disjoint, Between;
    LooseSplit(m, p);
    LooseSplit(m', p);
    assert m' - {p} == m - {p};
    RangeLast(p, m[p]);
  }

  /** Removing an inner number `x` of interval `p` splits it. */
  lemma MiddleGone(m: Intervals, p: int, x: int)
    requires Disjoint(m) && p in m && p < x < m[p]
    ensures var m' := m[p := x - 1][x + 1 := m[p]];
            Disjoint(m') && Members(m') == Members(m) - {x} && |Members(m')| == |Members(m)| - 1
    ensures x in Members(m) && x + 1 !in m
  {
    hide Members, Disjoint;
    CutSame(m, p, x);
    var c := m[p := x][x + 1 := m[p]];
    EndGone(c, p);
    assert c[p := x - 1] == m[p := x - 1][x + 1 := m[p]];
  }

  lemma FirstIsLeast(m: Intervals, h: int)
    requires Disjoint(m) && h in m && forall k :: k in m ==> h <= k
    ensures h in Members(m) && forall x :: x in Members(m) ==> h <= x
  {
    assert Between(h, h, m[h]);
    forall x | x in Members(m) ensures h <= x {
      var k :| k in m && Between(k, x, m[k]);
    }
  }

  ghost function Above(s: set<int>, x: int): set<int> {
    set y | y in s && y > x
  }

  /** Dropping the first interval, all of it at or below `x`. */
  lemma FirstBelow(m: Intervals, h: int, x: int)
    requires Disjoint(m) && h in m && (forall k :: k in m ==> h <= k) && m[h] <= x
    ensures Disjoint(m - {h})
    ensures Above(Members(m - {h}), x) == Above(Members(m), x)
    ensures |Members(m - {h})| == |Members(m)| - (m[h] - h + 1)
  {
    assert h <= m[h];
    MembersDrop(m, h);
    forall y | y in Range(h, m[h]) ensures y <= x { assert Between(h, y, m[h]); }
  }

  /** Cutting interval `p` after `x` records the same numbers. */
  lemma CutSame(m: Intervals, p: int, x: int)
    requires Disjoint(m) && p in m && p <= x < m[p]
    ensures var m' := m[p := x][x + 1 := m[p]];
            && x + 1 !in m && Disjoint(m') && Members(m') == Members(m)
  {
    hide Members, Range, Disjoint;
    CutDisjoint(m, p, x);
    MembersPut(m[p := x], x + 1, m[p]);
    assert m[p := x] - {x + 1} == m[p := x];
    MembersPut(m, p, x);
    LooseSplit(m, p);
    RangeUnion(p, x, x + 1, m[p]);
  }

  lemma CutDisjoint(m: Intervals, p: int, x: int)
    requires Disjoint(m) && p in m && p <= x < m[p]
    ensures x + 1 !in m && Disjoint(m[p := x][x + 1 := m[p]])
  {
  }

  /** Nothing at or below `x` remains once every interval starts above it. */
  lemma AllAbove(m: Intervals, x: int)
    requires forall k :: k in m ==> x < k
    ensures Above(Members(m), x) == Members(m)
  {
    forall y | y in Members(m) ensures y > x {
      var k :| k in m && Between(k, y, m[k]);
    }
  }

  lemma EndsAreMembers(m: Intervals)
    requires Disjoint(m)
    ensures forall k :: k in m ==> k in Members(m) && m[k] in Members(m)
    ensures |Members(m)| == 0 <==> m == map[]
  {
    forall k | k in m ensures k in Members(m) && m[k] in Members(m) {
      assert Between(k, k, m[k]) && Between(k, m[k], m[k]);
    }
    hide *;
    if m != map[] {
      assert m.Keys != {};
      var k :| k in m.Keys;
      assert k in Members(m);
    }
  }

  // ---------------------------------------------------------------- slots

  /** The slot of number `x`; `base` is fixed from one empty list to the next. */
  ghost function Slot(n: int, base: int, x: int): (j: int)
    requires n > 0
    ensures 0 <= j < n
  {
    (x + base) % n
  }

  /** Index arithmetic of the lists, in arrays of `n` slots. */
  function IndexAt(n: int, head: int, offset: int): int
    requires n > 0
  {
    (head + offset) % n
  }

  function IndexBefore(n: int, i: int): int
    requires n > 0
  {
    (i - 1 + n) % n
  }

  lemma SlotStep(n: int, base: int, x: int, k: int)
    requires n > 0
    ensures (Slot(n, base, x) + k) % n == Slot(n, base, x + k)
    ensures (Slot(n, base, x) + k + n) % n == Slot(n, base, x + k)
  {
    ModShift(n, x + base, k);
    SlotTurn(n, base, x, k);
  }

  lemma SlotTurn(n: int, base: int, x: int, k: int)
    requires n > 0
    ensures (Slot(n, base, x) + k + n) % n == Slot(n, base, x + k)
  {
    ModShift(n, x + base, k + n);
    DivStep(x + base + k + n, n);
  }

  lemma SlotDistinct(n: int, base: int, x: int, y: int)
    requires n > 0 && Abs(x - y) < n && x != y
    ensures Slot(n, base, x) != Slot(n, base, y)
  {
    ModDistinct(n, x + base, y + base);
  }

  // ---------------------------------------------------------------- the threaded arrays

  /**
    What the arrays of a loss list say: interval `a -> m[a]` lives at slot
    `Slot(n, base, a)`.  `own` remembers, for each slot, which interval was put
    there last.
   */
  datatype Shape = Shape(n: int, base: int, m: Intervals,
                         own: seq<int>, d1: seq<int>, d2: seq<int>, nx: seq<int>)
  {
    ghost predicate Sized() {
      n > 0 && |own| == n && |d1| == n && |d2| == n && |nx| == n
    }

    ghost function At(a: int): (j: int)
      requires Sized()
      ensures 0 <= j < n
    {
      Slot(n, base, a)
    }

    /** Slot `j` holds a live interval. */
    ghost predicate Live(j: int)
      requires Sized()
    {
      0 <= j < n && own[j] in m && At(own[j]) == j
    }

    /** The stored form of the end of interval [a, b]. */
    static function End(a: int, b: int): int {
      if a == b then -1 else Wrap(b)
    }

    /** Every interval is stored at its slot. */
    ghost predicate Stored()
      requires Sized()
    {
      forall a :: a in m ==>
        own[At(a)] == a && d1[At(a)] == Wrap(a) && d2[At(a)] == End(a, m[a])
    }

    /** Every other slot is blank. */
    ghost predicate Blank()
      requires Sized()
    {
      forall j :: 0 <= j < n ==> Live(j) || (d1[j] == -1 && d2[j] == -1)
    }

    /** `next` leads to the interval that follows in ascending order. */
    ghost predicate Follows(a: int)
      requires Sized()
    {
      var j := nx[At(a)];
      if j == -1 then forall b :: b in m ==> b <= a
      else Live(j) && own[j] > a && forall b :: b in m ==> b <= a || own[j] <= b
    }

    ghost predicate Linked()
      requires Sized()
    {
      forall a :: a in m ==> Follows(a)
    }

    /** All numbers lie in a window narrower than the arrays. */
    ghost predicate Windowed() {
      && n <= SEQ_NO_TH
      && (forall a :: a in m ==> a <= m[a])
      && (forall a, b :: a in m && b in m ==> m[b] - a < n)
    }

    ghost predicate Rep() {
      Sized() && Stored() && Blank() && Linked() && Windowed()
    }

    /** Interval `a` is the one with the smallest start. */
    ghost predicate IsFirst(a: int) {
      a in m && forall b :: b in m ==> a <= b
    }

    /** `head` points at the first interval, or is -1 when there is none. */
    ghost predicate HeadOk(head: int)
      requires Sized()
    {
      if head == -1 then m == map[] else Live(head) && IsFirst(own[head])
    }

    // ---- what a well-shaped list tells its reader

    lemma NodeAt(c: int)
      requires Rep() && c in m
      ensures Sized() && n <= SEQ_NO_TH
      ensures d1[At(c)] == Wrap(c) && d2[At(c)] == End(c, m[c]) && own[At(c)] == c && Live(At(c))
      ensures -1 <= nx[At(c)] < n
      ensures 0 <= m[c] - c < n
    {
      assert Follows(c);
    }

    lemma NextOf(c: int) returns (z: int)
      requires Rep() && c in m
      requires Sized() && nx[At(c)] != -1
      ensures 0 <= nx[At(c)] < n && z == own[nx[At(c)]] && At(z) == nx[At(c)]
      ensures z in m && c < z && (forall k :: k in m ==> k <= c || z <= k)
      ensures d1[nx[At(c)]] == Wrap(z) && d2[nx[At(c)]] == End(z, m[z]) && nx[At(c)] != At(c)
      ensures z - c < n && Abs(m[z] - m[c]) < n && 0 <= m[z] - z < n && Abs(m[c] - z) < n
    {
      assert Follows(c);
      z := own[nx[At(c)]];
    }

    lemma Window(c: int)
      requires Rep() && c in m
      ensures forall k :: k in m ==> k <= m[k] && m[c] - k < n && m[k] - c < n
    {
    }

    lemma NoNext(c: int)
      requires Rep() && c in m
      requires Sized() && nx[At(c)] == -1
      ensures forall k :: k in m ==> k <= c
    {
      assert Follows(c);
    }

    lemma LastHasNoNext(p: int)
      requires Rep() && p in m && forall k :: k in m ==> k <= p
      ensures Sized() && nx[At(p)] == -1
    {
      assert Follows(p);
    }

    // ---- the updates the lists are made of

    /** A slot within the window of all intervals, but of none of them, is not live. */
    lemma FreeSlot(a: int)
      requires Rep() && a !in m
      requires forall b :: b in m ==> Abs(a - b) < n
      ensures !Live(At(a)) && d1[At(a)] == -1 && d2[At(a)] == -1
      ensures forall b :: b in m ==> At(b) != At(a)
    {
      forall b | b in m ensures At(b) != At(a) {
        SlotDistinct(n, base, a, b);
      }
    }

    ghost function Put(a: int, b: int, next: int): Shape
      requires Sized()
    {
      var j := At(a);
      this.(m := m[a := b], own := own[j := a], d1 := d1[j := Wrap(a)],
            d2 := d2[j := End(a, b)], nx := nx[j := next])
    }

    lemma PutStored(a: int, b: int, next: int)
      requires Rep() && a !in m && a <= b && b - a < n
      requires forall k :: k in m ==> Abs(a - k) < n && m[k] - a < n && b - k < n
      ensures var s := Put(a, b, next); s.Stored() && s.Blank() && s.Windowed()
      ensures forall k :: k in m ==> At(k) != At(a)
    {
      FreeSlot(a);
      var s := Put(a, b, next);
      forall j | 0 <= j < n ensures s.Live(j) || (s.d1[j] == -1 && s.d2[j] == -1) {
        assert Live(j) || (d1[j] == -1 && d2[j] == -1);
      }
    }

    lemma PutAfterLinked(p: int, a: int, b: int)
      requires Sized() && Stored() && Linked() && p in m && a !in m && p < a
      requires forall k :: k in m ==> (k <= p || a < k) && At(k) != At(a)
      ensures var t := Put(a, b, nx[At(p)]); t.(nx := t.nx[At(p) := At(a)]).Linked()
    {
      var t := Put(a, b, nx[At(p)]);
      var s := t.(nx := t.nx[At(p) := At(a)]);
      forall k | k in s.m ensures s.Follows(k) {
        if k == a {
          assert Follows(p);
        } else {
          assert Follows(k);
          if k == p { assert s.Live(At(a)); }
        }
      }
    }

    /** Creating a node after node `p` keeps the shape. */
    lemma PutAfter(p: int, a: int, b: int) returns (s: Shape)
      requires Rep() && p in m && a !in m && p < a <= b
      requires forall k :: k in m ==> k <= p || a < k
      requires forall k :: k in m ==> m[k] - a < n && b - k < n
      requires b - a < n
      ensures var t := Put(a, b, nx[At(p)]); s == t.(nx := t.nx[At(p) := At(a)])
      ensures s.Rep() && At(a) != At(p)
    {
      hide Shape.Stored, Shape.Blank, Shape.Linked, Shape.Windowed, Slot;
      PutRoom(p, a, b);
      PutStored(a, b, nx[At(p)]);
      PutAfterLinked(p, a, b);
      var t := Put(a, b, nx[At(p)]);
      s := t.(nx := t.nx[At(p) := At(a)]);
      SameButNext(t, s);
    }

    lemma PutRoom(p: int, a: int, b: int)
      requires Rep() && p in m && a !in m && p < a <= b
      requires forall k :: k in m ==> m[k] - a < n && b - k < n
      ensures forall k :: k in m ==> Abs(a - k) < n
    {
      hide Shape.Stored, Shape.Blank, Shape.Linked;
    }

    /** The links have no part in what the slots hold. */
    static lemma SameButNext(t: Shape, s: Shape)
      requires t.Sized() && t.Stored() && t.Blank() && t.Windowed() && s == t.(nx := s.nx) && |s.nx| == t.n
      ensures s.Sized() && s.Stored() && s.Blank() && s.Windowed()
    {
      hide Slot;
      forall j | 0 <= j < s.n ensures s.Live(j) || (s.d1[j] == -1 && s.d2[j] == -1) {
        assert t.Live(j) || (t.d1[j] == -1 && t.d2[j] == -1);
      }
    }

    lemma PutAfterHead(p: int, a: int, b: int, head: int)
      requires Rep() && p in m && a !in m && p < a && At(a) != At(p) && HeadOk(head)
      requires !Live(At(a))
      ensures var t := Put(a, b, nx[At(p)]); t.(nx := t.nx[At(p) := At(a)]).HeadOk(head)
    {
      assert Live(head) && IsFirst(own[head]);
    }

    lemma PutFirstLinked(a: int, b: int, head: int)
      requires Sized() && Stored() && Linked() && HeadOk(head)
      requires forall k :: k in m ==> a < k && At(k) != At(a)
      ensures Put(a, b, head).Linked() && Put(a, b, head).HeadOk(At(a))
    {
      var s := Put(a, b, head);
      forall k | k in s.m ensures s.Follows(k) {
        if k == a {
          if head != -1 { assert s.Live(head); }
        } else {
          assert Follows(k);
          if nx[At(k)] != -1 { assert s.Live(nx[At(k)]); }
        }
      }
    }

    /** Creating a node in front of all others keeps the shape. */
    lemma PutFirst(a: int, b: int, head: int) returns (s: Shape)
      requires Rep() && HeadOk(head) && a <= b
      requires forall k :: k in m ==> a < k
      requires forall k :: k in m ==> m[k] - a < n && b - k < n
      requires b - a < n
      ensures s == Put(a, b, head) && s.Rep() && s.HeadOk(At(a))
    {
      PutStored(a, b, head);
      PutFirstLinked(a, b, head);
      s := Put(a, b, head);
    }

    /** Moving the end of an interval keeps the shape. */
    lemma SetEnd(c: int, e: int) returns (s: Shape)
      requires Rep() && c in m && c <= e
      requires forall k :: k in m ==> e - k < n
      ensures s == this.(m := m[c := e], d2 := d2[At(c) := End(c, e)])
      ensures s.Rep()
      ensures forall h :: HeadOk(h) ==> s.HeadOk(h)
    {
      hide Shape.Blank, Shape.Linked, Slot;
      s := this.(m := m[c := e], d2 := d2[At(c) := End(c, e)]);
      SetEndBlank(c, e);
      SetEndLinked(c, e);
    }

    lemma SetEndBlank(c: int, e: int)
      requires Sized() && Blank() && Stored() && c in m
      ensures this.(m := m[c := e], d2 := d2[At(c) := End(c, e)]).Blank()
    {
      var s := this.(m := m[c := e], d2 := d2[At(c) := End(c, e)]);
      forall j | 0 <= j < n ensures s.Live(j) || (s.d1[j] == -1 && s.d2[j] == -1) {
        assert Live(j) || (d1[j] == -1 && d2[j] == -1);
      }
    }

    lemma SetEndLinked(c: int, e: int)
      requires Sized() && Linked() && c in m
      ensures this.(m := m[c := e], d2 := d2[At(c) := End(c, e)]).Linked()
    {
      var s := this.(m := m[c := e], d2 := d2[At(c) := End(c, e)]);
      forall k | k in s.m ensures s.Follows(k) { assert Follows(k); }
    }

    lemma DropNextLinked(c: int, z: int)
      requires Sized() && Stored() && Linked() && c in m && nx[At(c)] != -1
      requires z == own[nx[At(c)]]
      ensures z in m && At(z) == nx[At(c)]
      ensures this.(m := m - {z}, nx := nx[At(c) := nx[At(z)]]).Linked()
    {
      assert Follows(c);
      var s := this.(m := m - {z}, nx := nx[At(c) := nx[At(z)]]);
      forall k | k in s.m ensures s.Follows(k) {
        assert Follows(k) && Follows(z);
        if k == c {
          if nx[At(z)] != -1 { assert s.Live(nx[At(z)]); }
        } else if nx[At(k)] != -1 {
          assert own[nx[At(k)]] != z;
          assert s.Live(nx[At(k)]);
        }
      }
    }

    /** Unlinking the node after `c` keeps the shape. */
    lemma DropNext(c: int) returns (s: Shape)
      requires Rep() && c in m && nx[At(c)] != -1
      ensures var j := nx[At(c)]; var z := own[j];
              && Live(j) && z in m && c < z
              && s == this.(m := m - {z}, d1 := d1[j := -1], d2 := d2[j := -1],
                            nx := nx[At(c) := nx[j]])
      ensures s.Rep()
      ensures forall h :: HeadOk(h) ==> s.HeadOk(h)
    {
      var j := nx[At(c)];
      assert Follows(c);
      var z := own[j];
      s := this.(m := m - {z}, d1 := d1[j := -1], d2 := d2[j := -1], nx := nx[At(c) := nx[j]]);
      DropNextLinked(c, z);
      var t := this.(m := m - {z}, nx := nx[At(c) := nx[At(z)]]);
      forall k | k in s.m ensures s.Follows(k) { assert t.Follows(k); }
      assert s.Blank() by {
        forall i | 0 <= i < n ensures s.Live(i) || (s.d1[i] == -1 && s.d2[i] == -1) {
          assert Live(i) || (d1[i] == -1 && d2[i] == -1);
        }
      }
    }

    /** Swallowing the node after `c` into the node at `c`. */
    lemma SwallowNext(c: int, e: int) returns (s: Shape)
      requires Rep() && c in m && nx[At(c)] != -1 && c <= e
      requires var z := own[nx[At(c)]]; z in m ==> e == if m[z] > m[c] then m[z] else m[c]
      ensures var j := nx[At(c)]; var z := own[j];
              && Live(j) && z in m
              && s == this.(m := (m - {z})[c := e], d1 := d1[j := -1],
                            d2 := d2[j := -1][At(c) := End(c, e)], nx := nx[At(c) := nx[j]])
      ensures s.Rep() && s.Live(At(c))
      ensures forall h :: HeadOk(h) ==> s.HeadOk(h)
    {
      var t := DropNext(c);
      Window(c);
      Window(own[nx[At(c)]]);
      s := t.SetEnd(c, e);
      s.NodeAt(c);
    }

    /** Unlinking the first node keeps the shape and makes its successor first. */
    lemma DropFirst(h: int) returns (s: Shape)
      requires Rep() && IsFirst(h)
      ensures s == this.(m := m - {h}, d1 := d1[At(h) := -1], d2 := d2[At(h) := -1])
      ensures s.Rep() && s.HeadOk(nx[At(h)])
    {
      hide Shape.Stored, Shape.Blank, Shape.Linked, Slot;
      s := this.(m := m - {h}, d1 := d1[At(h) := -1], d2 := d2[At(h) := -1]);
      DropSlots(h, s);
      DropFirstLinks(h, s);
    }

    lemma DropSlots(h: int, s: Shape)
      requires Sized() && Stored() && Blank() && h in m
      requires s == this.(m := m - {h}, d1 := d1[At(h) := -1], d2 := d2[At(h) := -1])
      ensures s.Stored() && s.Blank()
    {
      hide Slot;
      forall i | 0 <= i < n ensures s.Live(i) || (s.d1[i] == -1 && s.d2[i] == -1) {
        assert Live(i) || (d1[i] == -1 && d2[i] == -1);
      }
    }

    lemma DropFirstLinks(h: int, s: Shape)
      requires Sized() && Linked() && IsFirst(h)
      requires s == this.(m := m - {h}, d1 := d1[At(h) := -1], d2 := d2[At(h) := -1])
      ensures s.Linked() && s.HeadOk(nx[At(h)])
    {
      hide Slot;
      assert Follows(h);
      forall k | k in s.m ensures s.Follows(k) {
        assert Follows(k);
        if nx[At(k)] != -1 { assert s.Live(nx[At(k)]); }
      }
      if nx[At(h)] == -1 {
        assert forall b :: b in m ==> b == h;
        assert s.m == map[];
      } else {
        assert s.Live(nx[At(h)]);
      }
    }

    /** The first node of an empty list goes to slot 0. */
    lemma Restart(a: int, b: int) returns (s: Shape)
      requires Rep() && m == map[] && a <= b && b - a < n
      ensures d2[0] == -1
      ensures s == Shape(n, -a, m[a := b], own[0 := a], d1[0 := Wrap(a)], d2[0 := End(a, b)], nx[0 := -1])
      ensures s.Rep() && s.HeadOk(0) && s.TailOk(0) && s.At(a) == 0 && s.Live(0)
      ensures forall pr :: |pr| == n && pr[0] == -1 ==> s.Priors(pr)
    {
      var s0 := this.(base := -a);
      assert s0.Blank() by {
        forall j | 0 <= j < s0.n ensures s0.Live(j) || (s0.d1[j] == -1 && s0.d2[j] == -1) {
          assert !Live(j);
        }
      }
      assert s0.At(a) == 0;
      assert !Live(0);
      s := s0.PutFirst(a, b, -1);
    }

    lemma DropFirstLive(h: int, j: int)
      requires Rep() && IsFirst(h) && Live(j) && j != At(h)
      ensures this.(m := m - {h}, d1 := d1[At(h) := -1], d2 := d2[At(h) := -1]).Live(j)
    {
    }

    /** Moving the start of the first interval up by one, to the next slot. */
    /** The other live slots stay so when interval `h` starts one later. */
    lemma ShiftFirstLive(h: int, j: int, s: Shape)
      requires Sized() && Live(j) && h in m && At(h) != j && !Live(At(h + 1)) && s.Sized()
      requires s.n == n && s.base == base && s.m == (m - {h})[h + 1 := m[h]] && s.own == own[At(h + 1) := h + 1]
      ensures s.Live(j)
    {
    }

    lemma ShiftFirst(h: int) returns (s: Shape)
      requires Rep() && Disjoint(m) && IsFirst(h) && h < m[h]
      ensures At(h + 1) != At(h) && d2[At(h + 1)] == -1 && !Live(At(h + 1))
      ensures s == this.(m := (m - {h})[h + 1 := m[h]], own := own[At(h + 1) := h + 1],
                         d1 := d1[At(h) := -1][At(h + 1) := Wrap(h + 1)],
                         d2 := d2[At(h) := -1][At(h + 1) := End(h + 1, m[h])],
                         nx := nx[At(h + 1) := nx[At(h)]])
      ensures s.Rep() && s.HeadOk(At(h + 1))
    {
      hide Shape.Rep, Shape.Live, Shape.HeadOk, Disjoint, Slot;
      NodeAt(h);
      CutWindow(h, h);
      FreeSlot(h + 1);
      var t := DropFirst(h);
      s := t.PutFirst(h + 1, m[h], nx[At(h)]);
    }

    lemma CutWindow(p: int, x: int)
      requires Rep() && Disjoint(m) && p in m && p <= x < m[p]
      ensures x + 1 !in m && p <= m[p] && m[p] - p < n
      ensures forall k :: k in m ==> k <= p || x + 1 < k
      ensures forall k :: k in m ==> m[k] - (x + 1) < n && m[p] - k < n && Abs(x + 1 - k) < n && x - k < n
    {
      Window(p);
    }

    lemma CutFree(p: int, x: int)
      requires Rep() && Disjoint(m) && p in m && p <= x < m[p]
      ensures At(x + 1) != At(p) && d2[At(x + 1)] == -1 && !Live(At(x + 1))
    {
      hide Shape.Rep, Shape.Live, Shape.HeadOk, Disjoint, Slot;
      CutWindow(p, x);
      FreeSlot(x + 1);
    }

    /** Cutting the node at `p` after `x`: the upper part moves to the slot of `x + 1`. */
    lemma Cut(p: int, x: int) returns (s: Shape)
      requires Rep() && Disjoint(m) && p in m && p <= x < m[p]
      ensures s == this.(m := m[p := x][x + 1 := m[p]], own := own[At(x + 1) := x + 1],
                         d1 := d1[At(x + 1) := Wrap(x + 1)],
                         d2 := d2[At(p) := End(p, x)][At(x + 1) := End(x + 1, m[p])],
                         nx := nx[At(x + 1) := nx[At(p)]][At(p) := At(x + 1)])
      ensures s.Rep()
    {
      hide Shape.Rep, Shape.Live, Shape.HeadOk, Disjoint, Slot;
      CutWindow(p, x);
      var t := SetEnd(p, x);
      s := t.CutRest(p, x, m[p]);
    }

    /** The second half of a cut: interval `p` already ends at `x`. */
    lemma CutRest(p: int, x: int, e: int) returns (s: Shape)
      requires Rep() && p in m && p <= m[p] <= x < e && x + 1 !in m && e - p < n
      requires forall k :: k in m ==> k <= p || x + 1 < k
      requires forall k :: k in m && k != p ==> m[k] - (x + 1) < n && e - k < n
      ensures s == this.(m := m[x + 1 := e], own := own[At(x + 1) := x + 1],
                         d1 := d1[At(x + 1) := Wrap(x + 1)],
                         d2 := d2[At(x + 1) := End(x + 1, e)],
                         nx := nx[At(x + 1) := nx[At(p)]][At(p) := At(x + 1)])
      ensures s.Rep()
    {
      hide Shape.Rep, Shape.Live, Shape.HeadOk, Slot;
      s := PutAfter(p, x + 1, e);
    }

    // ---- the backward links of the receiver's list

    /** `prior` leads to the interval before, in ascending order. */
    ghost predicate Precedes(a: int, pr: seq<int>)
      requires Sized() && |pr| == n
    {
      var j := pr[At(a)];
      if j == -1 then forall b :: b in m ==> a <= b
      else Live(j) && own[j] < a && forall b :: b in m ==> b <= own[j] || a <= b
    }

    ghost predicate Priors(pr: seq<int>)
      requires Sized()
    {
      |pr| == n && forall a :: a in m ==> Precedes(a, pr)
    }

    /** `tail` points at the last interval, when there is one. */
    ghost predicate TailOk(tail: int)
      requires Sized()
    {
      m == map[] || (Live(tail) && forall b :: b in m ==> b <= own[tail])
    }

    /** The two link arrays are mutually inverse. */
    lemma LinksAreInverse(pr: seq<int>, a: int, b: int)
      requires Rep() && Priors(pr) && a in m && b in m
      ensures nx[At(a)] == At(b) <==> pr[At(b)] == At(a)
      ensures nx[At(a)] == -1 <==> forall k :: k in m ==> k <= a
      ensures pr[At(b)] == -1 <==> forall k :: k in m ==> b <= k
    {
      assert Follows(a) && Precedes(b, pr);
    }

    lemma PriorOf(c: int, pr: seq<int>) returns (z: int)
      requires Rep() && Priors(pr) && c in m
      ensures Sized() && -1 <= pr[At(c)] < n
      ensures pr[At(c)] == -1 ==> forall k :: k in m ==> c <= k
      ensures pr[At(c)] != -1 ==>
                z == own[pr[At(c)]] && z in m && At(z) == pr[At(c)] && z < c && nx[At(z)] == At(c)
                && pr[At(c)] != At(c)
                && forall k :: k in m ==> k <= z || c <= k
    {
      assert Precedes(c, pr);
      z := 0;
      if pr[At(c)] != -1 {
        z := own[pr[At(c)]];
        assert Follows(z);
      }
    }

    lemma PriorsSetEnd(c: int, e: int, pr: seq<int>)
      requires Sized() && Priors(pr) && c in m
      ensures this.(m := m[c := e], d2 := d2[At(c) := End(c, e)]).Priors(pr)
    {
      var s := this.(m := m[c := e], d2 := d2[At(c) := End(c, e)]);
      forall k | k in s.m ensures s.Precedes(k, pr) { assert Precedes(k, pr); }
    }

    /** Backward links after `a` was put behind `p`, which was followed by `nx[At(p)]`. */
    static function LinkIn(pr: seq<int>, at: int, before: int, after: int): seq<int>
      requires 0 <= at < |pr| && -1 <= after < |pr|
    {
      if after == -1 then pr[at := before] else pr[at := before][after := at]
    }

    lemma PriorsPutAfter(p: int, a: int, b: int, pr: seq<int>)
      requires Sized() && Stored() && Linked() && Priors(pr) && p in m && a !in m && p < a
      requires forall k :: k in m ==> (k <= p || a < k) && At(k) != At(a)
      requires -1 <= nx[At(p)] < n
      ensures var t := Put(a, b, nx[At(p)]);
              t.(nx := t.nx[At(p) := At(a)]).Priors(LinkIn(pr, At(a), At(p), nx[At(p)]))
    {
      var t := Put(a, b, nx[At(p)]);
      var s := t.(nx := t.nx[At(p) := At(a)]);
      hide Shape.Precedes, Shape.Follows, Shape.Stored, Slot;
      assert Follows(p);
      forall k | k in s.m ensures s.Precedes(k, LinkIn(pr, At(a), At(p), nx[At(p)])) {
        if k == a { PriorsPutNew(p, a, b, pr); } else { PriorsPutOld(p, a, b, pr, k); }
      }
      AllPrecede(s, LinkIn(pr, At(a), At(p), nx[At(p)]));
    }

    static lemma AllPrecede(s: Shape, pr: seq<int>)
      requires s.Sized() && |pr| == s.n && forall k :: k in s.m ==> s.Precedes(k, pr)
      ensures s.Priors(pr)
    {
      hide Shape.Precedes;
    }

    lemma PriorsPutNew(p: int, a: int, b: int, pr: seq<int>)
      requires Sized() && Stored() && |pr| == n && p in m && a !in m && p < a && Follows(p)
      requires forall k :: k in m ==> (k <= p || a < k) && At(k) != At(a)
      requires -1 <= nx[At(p)] < n
      ensures var t := Put(a, b, nx[At(p)]);
              t.(nx := t.nx[At(p) := At(a)]).Precedes(a, LinkIn(pr, At(a), At(p), nx[At(p)]))
    {
      var t := Put(a, b, nx[At(p)]);
      assert t.(nx := t.nx[At(p) := At(a)]).Live(At(p));
    }

    lemma PriorsPutOld(p: int, a: int, b: int, pr: seq<int>, k: int)
      requires Sized() && Stored() && |pr| == n && p in m && a !in m && p < a && Follows(p) && k in m && Precedes(k, pr)
      requires forall k :: k in m ==> (k <= p || a < k) && At(k) != At(a)
      requires -1 <= nx[At(p)] < n
      ensures var t := Put(a, b, nx[At(p)]);
              t.(nx := t.nx[At(p) := At(a)]).Precedes(k, LinkIn(pr, At(a), At(p), nx[At(p)]))
    {
      var t := Put(a, b, nx[At(p)]);
      var s := t.(nx := t.nx[At(p) := At(a)]);
      if pr[At(k)] != -1 { assert s.Live(pr[At(k)]); }
      assert s.Live(At(a));
    }

    lemma PriorsDropNextAt(c: int, z: int, pr: seq<int>, k: int)
      requires Sized() && Stored() && Priors(pr) && c in m && nx[At(c)] != -1
      requires Follows(c) && z in m && Follows(z) && -1 <= nx[At(z)] < n && c < z
      requires z == own[nx[At(c)]] && At(z) == nx[At(c)] && k in m && k != z
      ensures var pr' := if nx[At(z)] == -1 then pr else pr[nx[At(z)] := At(c)];
              this.(m := m - {z}, d1 := d1[At(z) := -1], d2 := d2[At(z) := -1],
                    nx := nx[At(c) := nx[At(z)]]).Precedes(k, pr')
    {
      var s := this.(m := m - {z}, d1 := d1[At(z) := -1], d2 := d2[At(z) := -1], nx := nx[At(c) := nx[At(z)]]);
      assert Precedes(k, pr);
      if nx[At(z)] == At(k) {
        assert s.Live(At(c));
      } else if pr[At(k)] != -1 {
        assert s.Live(pr[At(k)]);
      }
    }

    lemma PriorsDropNext(c: int, z: int, pr: seq<int>)
      requires Sized() && Stored() && Linked() && Priors(pr) && c in m && nx[At(c)] != -1
      requires z == own[nx[At(c)]] && z in m && At(z) == nx[At(c)] && -1 <= nx[At(z)] < n && c < z
      ensures var pr' := if nx[At(z)] == -1 then pr else pr[nx[At(z)] := At(c)];
              this.(m := m - {z}, d1 := d1[At(z) := -1], d2 := d2[At(z) := -1],
                    nx := nx[At(c) := nx[At(z)]]).Priors(pr')
    {
      var pr' := if nx[At(z)] == -1 then pr else pr[nx[At(z)] := At(c)];
      var s := this.(m := m - {z}, d1 := d1[At(z) := -1], d2 := d2[At(z) := -1], nx := nx[At(c) := nx[At(z)]]);
      forall k | k in s.m ensures s.Precedes(k, pr') {
        PriorsDropNextAt(c, z, pr, k);
      }
    }

    lemma PriorsDropFirst(h: int, pr: seq<int>)
      requires Sized() && Stored() && Linked() && Priors(pr) && IsFirst(h) && -1 <= nx[At(h)] < n
      ensures var pr' := if nx[At(h)] == -1 then pr else pr[nx[At(h)] := -1];
              this.(m := m - {h}, d1 := d1[At(h) := -1], d2 := d2[At(h) := -1]).Priors(pr')
    {
      hide Slot;
      var pr' := if nx[At(h)] == -1 then pr else pr[nx[At(h)] := -1];
      var s := this.(m := m - {h}, d1 := d1[At(h) := -1], d2 := d2[At(h) := -1]);
      assert Follows(h);
      forall k | k in s.m ensures s.Precedes(k, pr') {
        assert Precedes(k, pr);
        PriorsDropFirstAt(h, pr, pr', s, k);
      }
    }

    lemma PriorsDropFirstAt(h: int, pr: seq<int>, pr': seq<int>, s: Shape, k: int)
      requires Sized() && |pr| == n && Precedes(k, pr) && IsFirst(h) && -1 <= nx[At(h)] < n && Follows(h)
               && k in m && k != h
      requires Stored() && pr' == if nx[At(h)] == -1 then pr else pr[nx[At(h)] := -1]
      requires s == this.(m := m - {h}, d1 := d1[At(h) := -1], d2 := d2[At(h) := -1])
      ensures s.Precedes(k, pr')
    {
      hide Slot;
      if pr[At(k)] != -1 && own[pr[At(k)]] != h { assert s.Live(pr[At(k)]); }
    }

    lemma PriorsPutFirst(a: int, b: int, head: int, pr: seq<int>)
      requires Sized() && Stored() && Priors(pr) && HeadOk(head) && -1 <= head < n
      requires forall k :: k in m ==> a < k && At(k) != At(a)
      ensures Put(a, b, head).Priors(LinkIn(pr, At(a), -1, head))
    {
      var s := Put(a, b, head);
      var pr' := LinkIn(pr, At(a), -1, head);
      forall k | k in s.m ensures s.Precedes(k, pr') {
        if k != a {
          assert Precedes(k, pr);
          if pr[At(k)] != -1 { assert s.Live(pr[At(k)]); }
          assert s.Live(At(a));
        }
      }
    }

    // ---- the updates of the doubly linked list, with both ends

    ghost predicate Full(head: int, tail: int, pr: seq<int>) {
      Rep() && HeadOk(head) && TailOk(tail) && Priors(pr)
    }

    lemma FullNode(head: int, tail: int, pr: seq<int>, x: int) returns (c: int)
      requires Full(head, tail, pr) && x in m
      ensures Sized() && |pr| == n && m != map[]
      ensures -1 <= nx[At(x)] < n && -1 <= pr[At(x)] < n && 0 <= head < n && 0 <= tail < n
      ensures d1[At(x)] == Wrap(x) && d2[At(x)] == End(x, m[x]) && 0 <= m[x] - x < n <= SEQ_NO_TH
      ensures pr[At(x)] == -1 <==> head == At(x)
      ensures nx[At(x)] == -1 <==> tail == At(x)
      ensures pr[At(x)] == -1 ==> IsFirst(x)
      ensures pr[At(x)] != -1 ==>
                c in m && c < x && At(c) == pr[At(x)] && nx[At(c)] == At(x) && own[At(x)] == x
                && pr[At(x)] != At(x)
      ensures nx[At(x)] != -1 ==> nx[At(x)] != At(x) && nx[At(x)] != pr[At(x)] && pr[nx[At(x)]] == At(x)
    {
      NodeAt(x);
      c := PriorOf(x, pr);
      if nx[At(x)] == -1 { NoNext(x); } else {
        var z := NextOf(x);
        NodeAt(z);
        LinksAreInverse(pr, x, z);
      }
      hide Shape.Stored, Shape.Blank, Shape.Linked, Shape.Windowed, Shape.Priors;
    }

    lemma FullDropFirst(head: int, tail: int, pr: seq<int>, x: int) returns (s: Shape)
      requires Full(head, tail, pr) && x in m && Sized() && |pr| == n && head == At(x)
      requires -1 <= nx[At(x)] < n
      ensures s == this.(m := m - {x}, d1 := d1[head := -1], d2 := d2[head := -1])
      ensures s.Full(nx[head], tail, if nx[head] == -1 then pr else pr[nx[head] := -1])
    {
      s := DropFirst(x);
      PriorsDropFirst(x, pr);
      if m - {x} != map[] {
        assert Live(tail) && own[tail] != x by {
          assert (m - {x}).Keys != {};
          var k :| k in (m - {x}).Keys;
          assert x <= k;
        }
        DropFirstLive(x, tail);
      }
      hide Shape.Rep, Shape.Priors, Shape.HeadOk;
    }

    lemma FullDropNext(head: int, tail: int, pr: seq<int>, c: int, x: int) returns (s: Shape)
      requires Full(head, tail, pr) && x in m && c in m && c < x && Sized() && |pr| == n
      requires nx[At(c)] == At(x) && pr[At(x)] == At(c) && own[At(x)] == x && -1 <= nx[At(x)] < n
      requires nx[At(x)] == -1 <==> tail == At(x)
      ensures var j := At(x); var i := At(c);
              && s == this.(m := m - {x}, d1 := d1[j := -1], d2 := d2[j := -1], nx := nx[i := nx[j]])
              && s.Full(head, if nx[j] == -1 then i else tail, if nx[j] == -1 then pr else pr[nx[j] := i])
    {
      s := DropNext(c);
      PriorsDropNext(c, x, pr);
      DropNextTail(c, x, tail, s);
      hide Shape.Rep, Shape.Priors, Shape.TailOk;
    }

    lemma DropNextTail(c: int, x: int, tail: int, s: Shape)
      requires Rep() && TailOk(tail) && x in m && c in m && c < x && nx[At(c)] == At(x) && own[At(x)] == x
      requires s == this.(m := m - {x}, d1 := s.d1, d2 := s.d2, nx := s.nx) && s.Rep()
      requires nx[At(x)] == -1 <==> tail == At(x)
      ensures s.TailOk(if nx[At(x)] == -1 then At(c) else tail)
    {
      assert Follows(c);
      s.NodeAt(c);
      hide Shape.Rep;
    }

    lemma FullSetEnd(head: int, tail: int, pr: seq<int>, p: int, e: int) returns (s: Shape)
      requires Full(head, tail, pr) && p in m && p <= e && Sized()
      requires forall k :: k in m ==> e - k < n
      ensures s == this.(m := m[p := e], d2 := d2[At(p) := End(p, e)]) && s.Full(head, tail, pr)
    {
      hide Shape.Rep, Shape.Priors, Shape.HeadOk;
      s := SetEnd(p, e);
      PriorsSetEnd(p, e, pr);
      assert Live(tail);
    }

    /** [a, b] can be put after `p` without leaving the window of the arrays. */
    static ghost predicate Room(n: int, m: Intervals, p: int, a: int, b: int) {
      && p < a <= b && b - a < n && a !in m
      && (forall k :: k in m ==> k <= p || a < k)
      && (forall k :: k in m ==> m[k] - a < n && b - k < n && Abs(a - k) < n)
    }

    /** [a, b] can be put in front of everything. */
    static ghost predicate FrontRoom(n: int, m: Intervals, a: int, b: int) {
      && a <= b && b - a < n
      && forall k :: k in m ==> a < k && m[k] - a < n && b - k < n && Abs(a - k) < n
    }

    ghost function PutAfterShape(p: int, a: int, b: int): Shape
      requires Sized()
    {
      var t := Put(a, b, nx[At(p)]);
      t.(nx := t.nx[At(p) := At(a)])
    }

    lemma FullPutAfter(head: int, tail: int, pr: seq<int>, p: int, a: int, b: int) returns (s: Shape)
      requires Full(head, tail, pr) && p in m && Sized() && |pr| == n && Room(n, m, p, a, b)
      requires -1 <= nx[At(p)] < n && (nx[At(p)] == -1 <==> tail == At(p))
      ensures At(a) != At(p) && d2[At(a)] == -1
      ensures s == PutAfterShape(p, a, b)
      ensures s.Full(head, if nx[At(p)] == -1 then At(a) else tail, LinkIn(pr, At(a), At(p), nx[At(p)]))
    {
      FreeSlot(a);
      s := PutAfter(p, a, b);
      PutAfterHead(p, a, b, head);
      PriorsPutAfter(p, a, b, pr);
      PutAfterTail(p, a, b, tail, s);
      hide Shape.Rep, Shape.Priors, Shape.TailOk, Shape.HeadOk;
    }

    lemma PutAfterTail(p: int, a: int, b: int, tail: int, s: Shape)
      requires Rep() && TailOk(tail) && p in m && a !in m && p < a && !Live(At(a))
      requires forall k :: k in m ==> k <= p || a < k
      requires s == PutAfterShape(p, a, b)
      requires s.Rep() && (nx[At(p)] == -1 <==> tail == At(p))
      ensures s.TailOk(if nx[At(p)] == -1 then At(a) else tail)
    {
      s.NodeAt(a);
      assert Live(tail);
      if nx[At(p)] == -1 { NoNext(p); } else { var z := NextOf(p); }
      hide Shape.Rep;
    }

    lemma FullPutFirst(head: int, tail: int, pr: seq<int>, a: int, b: int) returns (s: Shape)
      requires Full(head, tail, pr) && Sized() && |pr| == n && -1 <= head < n && FrontRoom(n, m, a, b)
      ensures d2[At(a)] == -1 && s == Put(a, b, head)
      ensures s.Full(At(a), if head == -1 then At(a) else tail, LinkIn(pr, At(a), -1, head))
    {
      assert a !in m;
      FreeSlot(a);
      s := PutFirst(a, b, head);
      PriorsPutFirst(a, b, head, pr);
      PutFirstTail(a, b, head, tail, s);
      hide Shape.Rep, Shape.Priors, Shape.TailOk, Shape.HeadOk;
    }

    lemma PutFirstTail(a: int, b: int, head: int, tail: int, s: Shape)
      requires Rep() && TailOk(tail) && HeadOk(head) && a !in m && !Live(At(a))
      requires forall k :: k in m ==> a < k
      requires s == Put(a, b, head) && s.Rep()
      ensures s.TailOk(if head == -1 then At(a) else tail)
    {
      s.NodeAt(a);
      hide Shape.Rep;
    }

    // shifting the start of an interval up by one, splitting, dropping

    lemma RoomToShift(x: int, c: int)
      requires Rep() && Disjoint(m) && x in m && x < m[x] && c < x
      requires forall k :: k in m ==> k <= c || x <= k
      ensures Room(n, m - {x}, c, x + 1, m[x])
    {
      hide Shape.Rep;
      CutWindow(x, x);
    }

    lemma RoomToShiftFirst(x: int)
      requires Rep() && Disjoint(m) && x in m && x < m[x] && IsFirst(x)
      ensures FrontRoom(n, m - {x}, x + 1, m[x])
    {
      CutWindow(x, x);
    }

    lemma RoomToSplit(p: int, x: int)
      requires Rep() && Disjoint(m) && p in m && p < x < m[p]
      ensures Room(n, m[p := x - 1], p, x + 1, m[p])
      ensures forall k :: k in m ==> x - 1 - k < n
    {
      CutWindow(p, x);
    }

    /** The shape once interval `x` starts one later. */
    ghost function ShiftShape(x: int, links: seq<int>): Shape
      requires Sized() && x in m
    {
      this.(m := (m - {x})[x + 1 := m[x]], own := own[At(x + 1) := x + 1],
            d1 := d1[At(x) := -1][At(x + 1) := Wrap(x + 1)],
            d2 := d2[At(x) := -1][At(x + 1) := End(x + 1, m[x])], nx := links)
    }

    lemma FullRep(head: int, tail: int, pr: seq<int>)
      requires Full(head, tail, pr)
      ensures Rep()
    {
    }

    lemma FullShiftFirst(head: int, tail: int, pr: seq<int>, x: int) returns (s: Shape)
      requires Full(head, tail, pr) && Disjoint(m) && x in m && x < m[x] && Sized() && |pr| == n && head == At(x)
      requires -1 <= nx[At(x)] < n && IsFirst(x)
      ensures s == ShiftShape(x, nx[At(x + 1) := nx[At(x)]])
      ensures s.Full(At(x + 1), if nx[At(x)] == -1 then At(x + 1) else tail, LinkIn(pr, At(x + 1), -1, nx[At(x)]))
    {
      hide Shape.Full, Shape.Rep, Shape.FrontRoom, Shape.IsFirst, Disjoint, Slot;
      FullRep(head, tail, pr);
      RoomToShiftFirst(x);
      var t := FullDropFirst(head, tail, pr, x);
      var f := nx[head];
      var pr1 := if f == -1 then pr else pr[f := -1];
      s := t.FullPutFirst(f, tail, pr1, x + 1, m[x]);
      assert LinkIn(pr1, At(x + 1), -1, f) == LinkIn(pr, At(x + 1), -1, f);
    }

    lemma FullShiftNext(head: int, tail: int, pr: seq<int>, c: int, x: int) returns (s: Shape)
      requires Full(head, tail, pr) && Disjoint(m) && x in m && x < m[x] && c in m && c < x && Sized() && |pr| == n
      requires nx[At(c)] == At(x) && pr[At(x)] == At(c) && own[At(x)] == x && -1 <= nx[At(x)] < n
      requires nx[At(x)] == -1 <==> tail == At(x)
      requires nx[At(x)] != At(c)
      ensures s == ShiftShape(x, nx[At(x + 1) := nx[At(x)]][At(c) := At(x + 1)])
      ensures s.Full(head, if nx[At(x)] == -1 then At(x + 1) else tail, LinkIn(pr, At(x + 1), At(c), nx[At(x)]))
    {
      ShiftNextBetween(c, x);
      RoomToShift(x, c);
      hide Shape.Full, Shape.Rep, Shape.Room, Disjoint, Slot;
      var t := FullDropNext(head, tail, pr, c, x);
      s := ShiftNextSecond(head, tail, pr, c, x, t);
    }

    lemma ShiftNextSecond(head: int, tail: int, pr: seq<int>, c: int, x: int, t: Shape) returns (s: Shape)
      requires Sized() && c in m && c < x && x in m && Room(n, m - {x}, c, x + 1, m[x]) && |pr| == n
      requires -1 <= nx[At(x)] < n && nx[At(x)] != At(c)
      requires t == this.(m := m - {x}, d1 := d1[At(x) := -1], d2 := d2[At(x) := -1], nx := nx[At(c) := nx[At(x)]])
      requires t.Full(head, if nx[At(x)] == -1 then At(c) else tail,
                      if nx[At(x)] == -1 then pr else pr[nx[At(x)] := At(c)])
      requires nx[At(x)] != -1 ==> tail != At(c)
      ensures s == ShiftShape(x, nx[At(x + 1) := nx[At(x)]][At(c) := At(x + 1)])
      ensures s.Full(head, if nx[At(x)] == -1 then At(x + 1) else tail, LinkIn(pr, At(x + 1), At(c), nx[At(x)]))
    {
      hide Shape.Full, Shape.Room, Slot;
      var f := nx[At(x)];
      var pr1 := if f == -1 then pr else pr[f := At(c)];
      s := t.FullPutAfter(head, if f == -1 then At(c) else tail, pr1, c, x + 1, m[x]);
      LinkInOver(pr, At(x + 1), At(c), f);
      assert s.nx == nx[At(x + 1) := f][At(c) := At(x + 1)];
    }

    lemma LinkInOver(pr: seq<int>, i: int, c: int, f: int)
      requires 0 <= i < |pr| && -1 <= f < |pr|
      ensures LinkIn(if f == -1 then pr else pr[f := c], i, c, f) == LinkIn(pr, i, c, f)
    {
    }

    lemma ShiftNextBetween(c: int, x: int)
      requires Rep() && c in m && x in m && c < x && nx[At(c)] == At(x) && own[At(x)] == x
      ensures forall k :: k in m ==> k <= c || x <= k
    {
      assert Follows(c);
    }

    ghost function SplitShape(p: int, x: int): Shape
      requires Sized() && p in m
    {
      this.(m := m[p := x - 1][x + 1 := m[p]], own := own[At(x + 1) := x + 1],
            d1 := d1[At(x + 1) := Wrap(x + 1)],
            d2 := d2[At(p) := End(p, x - 1)][At(x + 1) := End(x + 1, m[p])],
            nx := nx[At(x + 1) := nx[At(p)]][At(p) := At(x + 1)])
    }

    lemma FullIsRep(head: int, tail: int, pr: seq<int>)
      requires Full(head, tail, pr)
      ensures Rep()
    {
    }

    lemma FullSplit(head: int, tail: int, pr: seq<int>, p: int, x: int) returns (s: Shape)
      requires Full(head, tail, pr) && Disjoint(m) && p in m && p < x < m[p] && Sized() && |pr| == n
      requires -1 <= nx[At(p)] < n && (nx[At(p)] == -1 <==> tail == At(p))
      ensures s == SplitShape(p, x)
      ensures s.Full(head, if nx[At(p)] == -1 then At(x + 1) else tail, LinkIn(pr, At(x + 1), At(p), nx[At(p)]))
    {
      hide Shape.Full, Shape.Rep, Shape.Room, Disjoint, Slot;
      FullIsRep(head, tail, pr);
      RoomToSplit(p, x);
      var t := FullSetEnd(head, tail, pr, p, x - 1);
      s := t.FullPutAfter(head, tail, pr, p, x + 1, m[p]);
    }
  }
}
