/** How large the routing table can get, and how large the indices of its nodes. */
module RoutingBounds {
  import opened NodeId
  import opened Nearest
  import opened RoutingTrie
  import opened RoutingSafety

  function Leaves(t: Trie): nat {
    match t
    case Space(m0, m1) => Leaves(m0) + Leaves(m1)
    case Bucket(_, _) => 1
  }

  function Spaces(t: Trie): nat {
    match t
    case Space(m0, m1) => 1 + Spaces(m0) + Spaces(m1)
    case Bucket(_, _) => 0
  }

  lemma {:induction false} LeavesAreSpacesPlusOne(t: Trie)
    ensures Leaves(t) == Spaces(t) + 1
  {
    if t.Space? {
      LeavesAreSpacesPlusOne(t.m0);
      LeavesAreSpacesPlusOne(t.m1);
    }
  }

  lemma {:induction false} PowGrows(n: nat, m: nat)
    requires n <= m
    ensures Pow(2, n) <= Pow(2, m)
    decreases m
  {
    if n < m { PowGrows(n, m - 1); }
  }

  // ---------------------------------------------------------------- indices

  ghost predicate IndicesBelow(t: Trie, x: nat, limit: nat) {
    x < limit && (t.Space? ==> IndicesBelow(t.m0, 2 * x, limit) && IndicesBelow(t.m1, 2 * x + 1, limit))
  }

  /** The index of a node fits its depth, and is small once splitting is restricted. */
  ghost predicate Small(p: Params, d: nat, x: nat) {
    x < Pow(2, d) && (d > p.base ==> x < Pow(2, p.b))
  }

  lemma ChildSmall(p: Params, d: nat, x: nat)
    requires p.Valid() && MaySplit(p, d, x) && Small(p, d, x)
    ensures Small(p, d + 1, 2 * x) && Small(p, d + 1, 2 * x + 1)
  {
    assert Pow(2, d + 1) == 2 * Pow(2, d);
    if d >= p.base {
      var r := d % p.b;
      assert Pow(2, r + 1) == 2 * Pow(2, r);
      PowGrows(r + 1, p.b);
    }
  }

  lemma {:induction false} SmallIndices(p: Params, t: Trie, local: Key, d: nat, x: nat)
    requires p.Valid() && d < ID_BITS && Inv(p, t, local, d, x) && Small(p, d, x)
    ensures IndicesBelow(t, x, Pow(2, if p.base < p.b then p.b else p.base))
  {
    var m := if p.base < p.b then p.b else p.base;
    PowGrows(p.b, m);
    if d <= p.base { PowGrows(d, m); }
    if t.Space? {
      ChildSmall(p, d, x);
      hide Pow, PathIndex, OnPath, MaySplit;
      SmallIndices(p, t.m0, local, d + 1, 2 * x);
      SmallIndices(p, t.m1, local, d + 1, 2 * x + 1);
    }
  }

  /** Every node's index fits an unsigned 32-bit field as long as the two parameters do not exceed 32. */
  lemma IndexNeverOverflows(p: Params, local: Key, steps: seq<Step>)
    requires p.Valid() && p.base <= 32 && p.b <= 32
    ensures IndicesBelow(Run(p, local, steps), 0, 0x1_0000_0000)
  {
    hide Run, Inv;
    var m := if p.base < p.b then p.b else p.base;
    assert Pow(2, 0) == 1;
    SmallIndices(p, Run(p, local, steps), local, 0, 0);
    PowGrows(m, 32);
    TwoTo32();
    Widen(Run(p, local, steps), 0, Pow(2, m), 0x1_0000_0000);
  }

  lemma TwoTo32()
    ensures Pow(2, 32) == 0x1_0000_0000
  {
    assert Pow(2, 8) == 256;
    PowSum(8, 8);
    PowSum(16, 16);
  }

  lemma {:induction false} Widen(t: Trie, x: nat, limit: nat, wider: nat)
    requires IndicesBelow(t, x, limit) && limit <= wider
    ensures IndicesBelow(t, x, wider)
  {
    if t.Space? {
      Widen(t.m0, 2 * x, limit, wider);
      Widen(t.m1, 2 * x + 1, limit, wider);
    }
  }

  // ---------------------------------------------------------------- the number of buckets

  /** How many of the nodes `lo..hi` of depth `d` may split. */
  function Allowed(p: Params, d: nat, lo: nat, hi: nat): nat
    requires p.Valid() && lo <= hi
  {
    if d < p.base then hi - lo
    else
      var top := Pow(2, d % p.b);
      if hi <= top then hi - lo else if lo < top then top - lo else 0
  }

  /** How many nodes may split in the part of the trie below the nodes `lo..hi` of depth `d`. */
  function Budget(p: Params, d: nat, lo: nat, hi: nat): nat
    requires p.Valid() && lo <= hi
    decreases ID_BITS - d
  {
    if d >= ID_BITS - 1 then 0 else Allowed(p, d, lo, hi) + Budget(p, d + 1, 2 * lo, 2 * hi)
  }

  lemma {:induction false} BudgetSplits(p: Params, d: nat, lo: nat, mid: nat, hi: nat)
    requires p.Valid() && lo <= mid <= hi
    ensures Budget(p, d, lo, hi) == Budget(p, d, lo, mid) + Budget(p, d, mid, hi)
    decreases ID_BITS - d
  {
    if d < ID_BITS - 1 {
      BudgetSplits(p, d + 1, 2 * lo, 2 * mid, 2 * hi);
    }
  }

  lemma BudgetOne(p: Params, d: nat, x: nat)
    requires p.Valid() && MaySplit(p, d, x)
    ensures d < ID_BITS - 1 && Budget(p, d, x, x + 1) == 1 + Budget(p, d + 1, 2 * x, 2 * x + 2)
  {
    hide Pow;
  }

  lemma {:induction false} SpacesWithinBudget(p: Params, t: Trie, local: Key, d: nat, x: nat)
    requires p.Valid() && d < ID_BITS && Inv(p, t, local, d, x)
    ensures Spaces(t) <= Budget(p, d, x, x + 1)
    decreases t
  {
    hide PathIndex, OnPath, MaySplit, Budget, Pow;
    if t.Space? {
      BudgetOne(p, d, x);
      SpacesWithinBudget(p, t.m0, local, d + 1, 2 * x);
      SpacesWithinBudget(p, t.m1, local, d + 1, 2 * x + 1);
      BudgetSplits(p, d + 1, 2 * x, 2 * x + 1, 2 * x + 2);
    }
  }

  /** The sum of 2^(d mod b) for the depths from `d` on at which a node may split. */
  function Sum(p: Params, d: nat): nat
    requires p.Valid()
    decreases ID_BITS - d
  {
    if d >= ID_BITS - 1 then 0 else Pow(2, d % p.b) + Sum(p, d + 1)
  }

  lemma {:induction false} BudgetAtMost(p: Params, d: nat)
    requires p.Valid() && p.base <= ID_BITS - 1
    ensures Budget(p, d, 0, Pow(2, d)) <= (if d < p.base then Pow(2, p.base) - Pow(2, d) + Sum(p, p.base)
            else Sum(p, d))
    decreases ID_BITS - d
  {
    if d < ID_BITS - 1 {
      BudgetAtMost(p, d + 1);
      assert Pow(2, d + 1) == 2 * Pow(2, d);
      if d < p.base { PowGrows(d + 1, p.base); }
    } else if d < p.base {
      PowGrows(d, p.base);
    }
  }

  lemma {:induction false} ContactsInLeaves(p: Params, t: Trie, local: Key, d: nat, x: nat)
    requires p.Valid() && d < ID_BITS && Inv(p, t, local, d, x)
    ensures |All(t)| <= Leaves(t) * p.bucket
  {
    hide PathIndex, OnPath;
    if t.Space? {
      ContactsInLeaves(p, t.m0, local, d + 1, 2 * x);
      ContactsInLeaves(p, t.m1, local, d + 1, 2 * x + 1);
      Distribute(Leaves(t.m0), Leaves(t.m1), p.bucket);
    }
  }

  lemma Distribute(a: nat, b: nat, n: nat)
    ensures (a + b) * n == a * n + b * n
  {
  }

  /** The table never has more buckets than the split rule provides for, nor more contacts than fit these. */
  lemma TableBounded(p: Params, local: Key, steps: seq<Step>)
    requires p.Valid() && p.base <= ID_BITS - 1
    ensures var t := Run(p, local, steps); var limit := Pow(2, p.base) + Sum(p, p.base);
            Leaves(t) <= limit && |All(t)| <= limit * p.bucket
  {
    hide Inv, Run, Sum, Budget;
    var t := Run(p, local, steps);
    assert Pow(2, 0) == 1;
    SpacesWithinBudget(p, t, local, 0, 0);
    BudgetAtMost(p, 0);
    LeavesAreSpacesPlusOne(t);
    ContactsInLeaves(p, t, local, 0, 0);
    var limit := Pow(2, p.base) + Sum(p, p.base);
    Scaled(Leaves(t), limit, p.bucket);
  }

  lemma Scaled(a: nat, b: nat, n: nat)
    requires a <= b
    ensures a * n <= b * n
  {
    Distribute(a, b - a, n);
  }
}
