/**
  Node identifiers: byte vectors, most significant byte first, with XOR as
  their distance and the order of `memcmp`.
 */
module NodeId {
  import Arith

  type Id = seq<bv8>

  // ---------------------------------------------------------------- distance and order

  function Xor(a: Id, b: Id): (c: Id)
    requires |a| == |b|
    ensures |c| == |a|
  {
    seq(|a|, i requires 0 <= i < |a| => a[i] ^ b[i])
  }

  function Memcmp(a: Id, b: Id): int
    requires |a| == |b|
  {
    if a == [] then 0
    else if a[0] != b[0] then (a[0] as int) - (b[0] as int)
    else Memcmp(a[1..], b[1..])
  }

  predicate Less(a: Id, b: Id)
    requires |a| == |b|
  {
    Memcmp(a, b) < 0
  }

  /** `key` is closer to `to` than to `than`. */
  predicate Closer(key: Id, to: Id, than: Id)
    requires |key| == |to| == |than|
  {
    Less(Xor(key, to), Xor(key, than))
  }

  // ---------------------------------------------------------------- numeric value

  function Pow(base: nat, n: nat): (p: nat)
    ensures base > 0 ==> p > 0
  {
    if n == 0 then 1 else base * Pow(base, n - 1)
  }

  function Value(a: Id): nat {
    if a == [] then 0 else (a[0] as int) * Pow(256, |a| - 1) + Value(a[1..])
  }

  lemma {:induction false} ValueBound(a: Id)
    ensures Value(a) < Pow(256, |a|)
  {
    if a != [] {
      ValueBound(a[1..]);
      TopDigit(a[0] as int, Pow(256, |a| - 1));
    }
  }

  lemma ValueHead(a: Id) returns (d: int, p: nat)
    requires a != []
    ensures d == a[0] as int && 0 <= d < 256 && p == Pow(256, |a| - 1) && Value(a) == d * p + Value(a[1..])
  {
    d, p := a[0] as int, Pow(256, |a| - 1);
  }

  lemma TopDigit(d: int, p: nat)
    requires 0 <= d <= 255
    ensures d * p + p <= 256 * p
  {
  }

  lemma DigitOrder(d: int, e: int, p: nat, x: nat, y: nat)
    requires d < e && x < p && y < p
    ensures d * p + x < e * p + y
  {
    assert (e - d - 1) * p >= 0;
    assert e * p == (e - d - 1) * p + d * p + p;
  }

  /** Different first bytes decide. */
  lemma FirstDecides(a: Id, b: Id)
    requires |a| == |b| > 0 && a[0] != b[0]
    ensures Memcmp(a, b) != 0 && Value(a) != Value(b)
    ensures Memcmp(a, b) < 0 <==> Value(a) < Value(b)
  {
    hide Value, Pow;
    var d, p := ValueHead(a);
    var e, q := ValueHead(b);
    ValueBound(a[1..]);
    ValueBound(b[1..]);
    if d < e {
      DigitOrder(d, e, p, Value(a[1..]), Value(b[1..]));
    } else {
      DigitOrder(e, d, p, Value(b[1..]), Value(a[1..]));
    }
  }

  /** The order of `memcmp` is the numeric order. */
  lemma {:induction false} MemcmpIsNumeric(a: Id, b: Id)
    requires |a| == |b|
    ensures Memcmp(a, b) < 0 <==> Value(a) < Value(b)
    ensures Memcmp(a, b) == 0 <==> Value(a) == Value(b)
    ensures Memcmp(a, b) == 0 <==> a == b
  {
    hide Value, Pow;
    if a != [] {
      if a[0] == b[0] {
        var d, p := ValueHead(a);
        var e, q := ValueHead(b);
        MemcmpIsNumeric(a[1..], b[1..]);
        assert a == [a[0]] + a[1..] && b == [b[0]] + b[1..];
      } else {
        FirstDecides(a, b);
      }
    }
  }

  // ---------------------------------------------------------------- XOR is a metric

  lemma XorLaws(a: Id, b: Id, c: Id)
    requires |a| == |b| == |c|
    ensures Xor(a, b) == Xor(b, a)
    ensures Xor(a, Xor(a, b)) == b
    ensures Xor(Xor(a, b), Xor(b, c)) == Xor(a, c)
    ensures Xor(a, b) == Xor(a, c) <==> b == c
  {
    assert Xor(a, b) == Xor(b, a);
    assert Xor(a, Xor(a, b)) == b;
    assert Xor(a, Xor(a, c)) == c;
    assert Xor(Xor(a, b), Xor(b, c)) == Xor(a, c);
  }

  /** `Closer` is a strict total order on identifiers, for every key. */
  lemma CloserIsOrder(key: Id, a: Id, b: Id, c: Id)
    requires |key| == |a| == |b| == |c|
    ensures !Closer(key, a, a)
    ensures a != b ==> (Closer(key, a, b) <==> !Closer(key, b, a))
    ensures Closer(key, a, b) && Closer(key, b, c) ==> Closer(key, a, c)
  {
    hide Memcmp, Value, Xor;
    XorLaws(key, a, b);
    MemcmpIsNumeric(Xor(key, a), Xor(key, b));
    MemcmpIsNumeric(Xor(key, b), Xor(key, a));
    MemcmpIsNumeric(Xor(key, b), Xor(key, c));
    MemcmpIsNumeric(Xor(key, a), Xor(key, c));
    MemcmpIsNumeric(Xor(key, a), Xor(key, a));
  }

  lemma XorByteBound(x: bv8, y: bv8)
    ensures (x ^ y) as int <= (x as int) + (y as int)
  {
  }

  lemma AddDigits(d: int, e: int, f: int, p: nat)
    requires f <= d + e
    ensures f * p <= d * p + e * p
  {
    assert (d + e - f) * p >= 0;
  }

  lemma XorNothing(a: Id, b: Id)
    requires a == [] && b == []
    ensures Xor(a, b) == []
  {
  }

  lemma ValueNothing()
    ensures Value([]) == 0
  {
  }

  lemma {:induction false} XorBelowSum(a: Id, b: Id)
    requires |a| == |b|
    ensures Value(Xor(a, b)) <= Value(a) + Value(b)
  {
    hide Xor, Value, Pow;
    if a == [] {
      assert Xor(a, b) == [] by { XorNothing(a, b); }
      ValueNothing();
    } else {
      ValueStep(a, b);
      XorBelowSum(a[1..], b[1..]);
    }
  }

  lemma XorHead(a: Id, b: Id)
    requires |a| == |b| && a != []
    ensures Xor(a, b)[1..] == Xor(a[1..], b[1..]) && |Xor(a, b)| == |a|
  {
  }

  lemma XorFirst(a: Id, b: Id)
    requires |a| == |b| && a != []
    ensures |Xor(a, b)| == |a| && Xor(a, b)[0] == a[0] ^ b[0]
  {
  }

  lemma XorDigit(a: Id, b: Id)
    requires |a| == |b| && a != []
    ensures |Xor(a, b)| == |a| && Xor(a, b)[0] as int <= a[0] as int + b[0] as int
  {
    hide Xor;
    XorFirst(a, b);
    XorByteBound(a[0], b[0]);
  }

  lemma ValueStep(a: Id, b: Id)
    requires |a| == |b| && a != []
    ensures Value(Xor(a, b)) - Value(Xor(a[1..], b[1..])) <= Value(a) - Value(a[1..]) + Value(b) - Value(b[1..])
  {
    hide Xor, Pow, Value;
    XorHead(a, b);
    XorDigit(a, b);
    var d, p := ValueHead(a);
    var e, q := ValueHead(b);
    var f, r := ValueHead(Xor(a, b));
    AddDigits(d, e, f, p);
  }

  /** The triangle inequality. */
  lemma Triangle(a: Id, b: Id, c: Id)
    requires |a| == |b| == |c|
    ensures Value(Xor(a, c)) <= Value(Xor(a, b)) + Value(Xor(b, c))
  {
    XorLaws(a, b, c);
    XorBelowSum(Xor(a, b), Xor(b, c));
  }

  // ---------------------------------------------------------------- bits

  /** Bit `k` of a byte, counted from the most significant one. */
  predicate BitOf(x: bv8, k: nat)
    requires k < 8
  {
    (x >> (7 - k)) & 1 == 1
  }

  predicate Bit(a: Id, i: nat)
    requires i < 8 * |a|
  {
    BitOf(a[i / 8], i % 8)
  }

  lemma XorBit(a: Id, b: Id, i: nat)
    requires |a| == |b| && i < 8 * |a|
    ensures Bit(Xor(a, b), i) <==> Bit(a, i) != Bit(b, i)
  {
    XorByteBit(a[i / 8], b[i / 8], i % 8);
  }

  lemma XorByteBit(x: bv8, y: bv8, k: nat)
    requires k < 8
    ensures BitOf(x ^ y, k) <==> BitOf(x, k) != BitOf(y, k)
  {
    match k {
      case 0 => case 1 => case 2 => case 3 => case 4 => case 5 => case 6 => case 7 =>
    }
  }

  ghost predicate ByteAgree(x: bv8, y: bv8, k: nat)
    requires k <= 8
  {
    forall j: nat :: j < k ==> BitOf(x, j) == BitOf(y, j)
  }

  lemma ByteOrder(x: bv8, y: bv8, k: nat)
    requires k < 8 && ByteAgree(x, y, k) && BitOf(x, k) != BitOf(y, k)
    ensures x != y && (x < y <==> BitOf(y, k))
  {
    if k < 4 { HighOrder(x, y, k); } else { LowOrder(x, y, k); }
  }

  lemma HighOrder(x: bv8, y: bv8, k: nat)
    requires k < 4 && ByteAgree(x, y, k) && BitOf(x, k) != BitOf(y, k)
    ensures x != y && (x < y <==> BitOf(y, k))
  {
    assert k > 0 ==> BitOf(x, 0) == BitOf(y, 0);
    assert k > 1 ==> BitOf(x, 1) == BitOf(y, 1);
    assert k > 2 ==> BitOf(x, 2) == BitOf(y, 2);
  }

  lemma LowOrder(x: bv8, y: bv8, k: nat)
    requires 4 <= k < 8 && ByteAgree(x, y, k) && BitOf(x, k) != BitOf(y, k)
    ensures x != y && (x < y <==> BitOf(y, k))
  {
    assert k > 0 ==> BitOf(x, 0) == BitOf(y, 0);
    assert k > 1 ==> BitOf(x, 1) == BitOf(y, 1);
    assert k > 2 ==> BitOf(x, 2) == BitOf(y, 2);
    assert k > 3 ==> BitOf(x, 3) == BitOf(y, 3);
    assert k > 4 ==> BitOf(x, 4) == BitOf(y, 4);
    assert k > 5 ==> BitOf(x, 5) == BitOf(y, 5);
    assert k > 6 ==> BitOf(x, 6) == BitOf(y, 6);
  }

  lemma ByteEqual(x: bv8, y: bv8)
    requires ByteAgree(x, y, 8)
    ensures x == y
  {
    assert BitOf(x, 0) == BitOf(y, 0) && BitOf(x, 1) == BitOf(y, 1);
    assert BitOf(x, 2) == BitOf(y, 2) && BitOf(x, 3) == BitOf(y, 3);
    assert BitOf(x, 4) == BitOf(y, 4) && BitOf(x, 5) == BitOf(y, 5);
    assert BitOf(x, 6) == BitOf(y, 6) && BitOf(x, 7) == BitOf(y, 7);
  }

  /** The first `n` bits are the same. */
  ghost predicate Agree(a: Id, b: Id, n: nat)
    requires |a| == |b| && n <= 8 * |a|
  {
    forall i: nat :: i < n ==> Bit(a, i) == Bit(b, i)
  }

  lemma BytesAgree(a: Id, b: Id, n: nat, j: nat, m: nat)
    requires |a| == |b| && n <= 8 * |a| && Agree(a, b, n) && j < |a| && m <= 8 && 8 * j + m <= n
    ensures ByteAgree(a[j], b[j], m)
  {
    hide BitOf;
    forall k: nat | k < m ensures BitOf(a[j], k) == BitOf(b[j], k) {
      DivMod(j, k);
      assert Bit(a, 8 * j + k) == Bit(b, 8 * j + k);
    }
  }

  lemma DivMod(j: nat, k: nat)
    requires k < 8
    ensures (8 * j + k) / 8 == j && (8 * j + k) % 8 == k
  {
  }

  lemma {:induction false} MemcmpAt(a: Id, b: Id, j: nat)
    requires |a| == |b| && j < |a| && a[j] != b[j] && forall i :: 0 <= i < j ==> a[i] == b[i]
    ensures Memcmp(a, b) < 0 <==> a[j] < b[j]
    decreases j
  {
    if j > 0 {
      assert a[0] == b[0];
      MemcmpAt(a[1..], b[1..], j - 1);
    }
  }

  /** The first bit in which two identifiers differ decides their order. */
  lemma FirstBitDecides(a: Id, b: Id, i: nat)
    requires |a| == |b| && i < 8 * |a| && Agree(a, b, i) && Bit(a, i) != Bit(b, i)
    ensures Less(a, b) <==> Bit(b, i)
  {
    hide BitOf, Agree, ByteAgree, Memcmp;
    var j, k := i / 8, i % 8;
    forall l | 0 <= l < j ensures a[l] == b[l] {
      BytesAgree(a, b, i, l, 8);
      ByteEqual(a[l], b[l]);
    }
    BytesAgree(a, b, i, j, k);
    ByteOrder(a[j], b[j], k);
    MemcmpAt(a, b, j);
  }

  // ---------------------------------------------------------------- the distance exponent

  lemma {:induction false} PowDouble(n: nat)
    ensures Pow(256, n) == Pow(2, 8 * n)
  {
    if n > 0 {
      PowDouble(n - 1);
      var m := 8 * n;
      assert Pow(2, m) == 2 * Pow(2, m - 1) && Pow(2, m - 1) == 2 * Pow(2, m - 2) && Pow(2, m - 2) == 2 * Pow(2, m - 3);
      assert Pow(2, m - 3) == 2 * Pow(2, m - 4) && Pow(2, m - 4) == 2 * Pow(2, m - 5)
             && Pow(2, m - 5) == 2 * Pow(2, m - 6);
      assert Pow(2, m - 6) == 2 * Pow(2, m - 7) && Pow(2, m - 7) == 2 * Pow(2, m - 8);
    }
  }

  lemma PowNone()
    ensures Pow(2, 0) == 1
  {
  }

  lemma Twice(n: nat)
    ensures Pow(2, n + 1) == 2 * Pow(2, n)
  {
  }

  lemma {:induction false} PowSum(n: nat, m: nat)
    ensures Pow(2, n + m) == Pow(2, n) * Pow(2, m)
  {
    hide Pow;
    if n == 0 {
      PowNone();
    } else {
      PowSum(n - 1, m);
      Twice(n - 1);
      Twice(n - 1 + m);
      Arith.MulAssoc(2, Pow(2, n - 1), Pow(2, m));
    }
  }

  lemma {:induction false} LeadingZeros(a: Id, i: nat)
    requires i <= |a| && forall j :: 0 <= j < i ==> a[j] == 0
    ensures Value(a) == Value(a[i..])
  {
    if i > 0 {
      assert a[1..][i - 1..] == a[i..];
      LeadingZeros(a[1..], i - 1);
    } else {
      assert a[0..] == a;
    }
  }

  /** A number whose first byte that is not zero lies between 2^b and 2^(b+1). */
  lemma FirstByteBounds(a: Id, i: nat, b: nat)
    requires i < |a| && b < 8 && (forall j :: 0 <= j < i ==> a[j] == 0)
    requires Pow(2, b) <= a[i] as int < Pow(2, b + 1)
    ensures Pow(2, 8 * (|a| - 1 - i) + b) <= Value(a) < Pow(2, 8 * (|a| - 1 - i) + b + 1)
  {
    hide Value, Pow;
    LeadingZeros(a, i);
    var m := |a| - 1 - i;
    var d, p := ValueHead(a[i..]);
    ValueBound(a[i..][1..]);
    PowDouble(m);
    PowSum(b, 8 * m);
    PowSum(b + 1, 8 * m);
    Scale(Pow(2, b), d, Pow(2, b + 1), p, Value(a[i..][1..]));
    assert b + 8 * m == 8 * m + b && b + 1 + 8 * m == 8 * m + b + 1;
  }

  lemma Scale(lo: nat, d: int, hi: nat, p: nat, x: nat)
    requires lo <= d < hi && x < p
    ensures lo * p <= d * p + x < hi * p
  {
    var u, v := d - lo, hi - d - 1;
    Grow(lo, u, p);
    Grow(d + 1, v, p);
    assert (d + 1) * p == d * p + p;
  }

  lemma Grow(lo: int, more: nat, p: nat)
    ensures lo * p <= (lo + more) * p
  {
    assert (lo + more) * p == lo * p + more * p;
  }

  // ---------------------------------------------------------------- identifiers in place

  class KadId {
    const data: array<bv8>

    constructor (n: nat)
      ensures data.Length == n && fresh(data) && Value(data[..]) == 0 && forall i :: 0 <= i < n ==> data[i] == 0
    {
      data := new bv8[n](_ => 0);
      new;
      Zeros(data[..]);
    }

    static lemma {:induction false} Zeros(a: Id)
      requires forall i :: 0 <= i < |a| ==> a[i] == 0
      ensures Value(a) == 0
    {
      LeadingZeros(a, |a|);
    }

    method IsZero() returns (zero: bool)
      ensures zero <==> Value(data[..]) == 0
    {
      var i := 0;
      while i < data.Length
        invariant 0 <= i <= data.Length && forall j :: 0 <= j < i ==> data[j] == 0
      {
        if data[i] != 0 {
          NonZero(data[..], i);
          return false;
        }
        i := i + 1;
      }
      Zeros(data[..]);
      zero := true;
    }

    static lemma NonZero(a: Id, i: nat)
      requires i < |a| && a[i] != 0 && forall j :: 0 <= j < i ==> a[j] == 0
      ensures Value(a) > 0
    {
      hide Value, Pow;
      LeadingZeros(a, i);
      var d, p := ValueHead(a[i..]);
      Product(d, p);
    }

    static lemma Product(d: int, p: nat)
      requires d > 0 && p > 0
      ensures d * p > 0
    {
    }

    // -------------------------------------------------------------- sums and differences

    /** From byte `k` on, `c` and the carry are `a` plus `sign` times `b`. */
    static ghost predicate Carried(c: Id, a: Id, b: Id, sign: int, k: nat, carry: int) {
      k <= |a| == |b| == |c| && carry * Pow(256, |c| - k) + Value(c[k..]) == Value(a[k..]) + sign * Value(b[k..])
    }

    /** One byte of the sum: `x` is its low byte, `next` is left above it, rounded down. */
    static ghost predicate ByteSum(x: bv8, d: bv8, e: bv8, sign: int, carry: int, next: int) {
      var t := carry + d as int + sign * e as int;
      x as int == t % 256 && next == t / 256
    }

    static lemma CarryStart(a: Id, b: Id, sign: int)
      requires |a| == |b|
      ensures Carried(a, a, b, sign, |a|, 0)
    {
      assert a[|a|..] == [] && b[|b|..] == [];
    }

    static lemma CarryStep(c: Id, a: Id, b: Id, sign: int, k: nat, carry: int, x: bv8, next: int)
      requires k < |a| && Carried(c, a, b, sign, k + 1, carry) && ByteSum(x, a[k], b[k], sign, carry, next)
      ensures Carried(c[k := x], a, b, sign, k, next)
    {
      var c' := c[k := x];
      assert c'[k..][1..] == c[k + 1..] && a[k..][1..] == a[k + 1..] && b[k..][1..] == b[k + 1..];
      assert Pow(256, |a| - k) == 256 * Pow(256, |a| - k - 1);
      hide Value, Pow;
      var d, p := ValueHead(a[k..]);
      var e, q := ValueHead(b[k..]);
      var f, r := ValueHead(c'[k..]);
      CarryArith(d, e, sign, carry, carry + d + sign * e, p, Value(b[k + 1..]));
    }

    static lemma CarryArith(d: int, e: int, sign: int, carry: int, t: int, p: nat, v: int)
      requires t == carry + d + sign * e
      ensures (t / 256) * (256 * p) + (t % 256) * p == carry * p + d * p + (sign * (e * p + v) - sign * v)
    {
      assert t == t / 256 * 256 + t % 256;
      assert sign * (e * p + v) == sign * e * p + sign * v;
    }

    static lemma Total(c: Id, a: Id, b: Id, sign: int, carry: int)
      requires Carried(c, a, b, sign, 0, carry)
      ensures (Value(a) + sign * Value(b)) % Pow(256, |a|) == Value(c)
    {
      hide Value, Pow;
      assert c[0..] == c && a[0..] == a && b[0..] == b;
      ValueBound(c);
      Remainder(Pow(256, |c|), carry, Value(c));
    }

    static lemma Remainder(m: nat, carry: int, x: nat)
      requires x < m
      ensures (carry * m + x) % m == x
    {
      assert carry * m == m * carry;
      Arith.DivModUnique(m, carry, x);
    }

    static function NextByte(x: bv8): (y: bv8)
      requires x != 255
      ensures y as int == x as int + 1
    {
      x + 1
    }

    /** The byte of value `t`. */
    static function LowByte(t: int): (x: bv8)
      requires 0 <= t < 256
      ensures x as int == t
    {
      if t == 0 then 0 else NextByte(LowByte(t - 1))
    }

    static lemma CarryBound(x: bv8, d: bv8, e: bv8, sign: int, carry: int, next: int)
      requires ByteSum(x, d, e, sign, carry, next)
      ensures sign == 1 && 0 <= carry <= 1 ==> 0 <= next <= 1
      ensures sign == -1 && -1 <= carry <= 0 ==> -1 <= next <= 0
    {
      IntCarry(d as int, e as int, sign, carry, next);
    }

    static lemma IntCarry(d: int, e: int, sign: int, carry: int, next: int)
      requires 0 <= d < 256 && 0 <= e < 256 && next == (carry + d + sign * e) / 256
      ensures sign == 1 && 0 <= carry <= 1 ==> 0 <= next <= 1
      ensures sign == -1 && -1 <= carry <= 0 ==> -1 <= next <= 0
    {
    }

    /** The low byte and the carry of a sum or difference of two bytes. */
    static method Digits(d: bv8, e: bv8, sign: int, carry: int) returns (low: bv8, next: int)
      ensures ByteSum(low, d, e, sign, carry, next)
    {
      hide LowByte;
      var sum := carry + d as int + sign * e as int;
      next := sum / 256;
      low := LowByte(sum % 256);
    }

    /** Adds byte `i` of `u` and the carry to byte `i`; returns the next carry. */
    method AddByte(u: KadId, i: nat, carry: int) returns (ghost x: bv8, next: int)
      requires i < data.Length == u.data.Length
      modifies data
      ensures ByteSum(x, old(data[i]), old(u.data[i]), 1, carry, next) && data[..] == old(data[..])[i := x]
    {
      hide ByteSum;
      var low;
      low, next := Digits(data[i], u.data[i], 1, carry);
      x := low;
      data[i] := low;
    }

    /** Subtracts byte `i` of `u` from byte `i`, with a borrow of 0 or -1; returns the next borrow. */
    method SubByte(u: KadId, i: nat, carry: int) returns (ghost x: bv8, next: int)
      requires i < data.Length == u.data.Length
      modifies data
      ensures ByteSum(x, old(data[i]), old(u.data[i]), -1, carry, next) && data[..] == old(data[..])[i := x]
    {
      hide ByteSum;
      var low;
      low, next := Digits(data[i], u.data[i], -1, carry);
      x := low;
      data[i] := low;
    }

    lemma AddNothing(a: Id, b: Id)
      requires |a| == |b| && Value(b) == 0
      ensures (Value(a) + Value(b)) % Pow(256, |a|) == (Value(a) - Value(b)) % Pow(256, |a|) == Value(a)
    {
      ValueBound(a);
      Arith.ModSmall(Value(a), Pow(256, |a|));
    }

    /** Adds `u`, modulo 256 to the number of bytes; `u` may be this very identifier. */
    method Add(u: KadId)
      requires u.data.Length == data.Length
      modifies data
      ensures Value(data[..]) == (old(Value(data[..])) + old(Value(u.data[..]))) % Pow(256, data.Length)
    {
      hide Value, Pow, Carried, ByteSum;
      ghost var a, b := data[..], u.data[..];
      CarryStart(a, b, 1);
      var zero := u.IsZero();
      if zero {
        AddNothing(a, b);
        return;
      }
      var sum := 0;
      var i := data.Length - 1;
      while i >= 0
        invariant -1 <= i < data.Length && 0 <= sum <= 1
        invariant |a| == |b| == data.Length
        invariant forall j :: 0 <= j <= i ==> data[j] == a[j] && u.data[j] == b[j]
        invariant Carried(data[..], a, b, 1, i + 1, sum)
      {
        ghost var c, carry := data[..], sum;
        ghost var x;
        x, sum := AddByte(u, i, sum);
        CarryBound(x, a[i], b[i], 1, carry, sum);
        CarryStep(c, a, b, 1, i, carry, x, sum);
        i := i - 1;
      }
      Total(data[..], a, b, 1, sum);
    }

    /** Subtracts `u`, modulo 256 to the number of bytes. */
    method Sub(u: KadId)
      requires u.data.Length == data.Length
      modifies data
      ensures Value(data[..]) == (old(Value(data[..])) - old(Value(u.data[..]))) % Pow(256, data.Length)
    {
      hide Value, Pow, Carried, ByteSum;
      ghost var a, b := data[..], u.data[..];
      CarryStart(a, b, -1);
      var zero := u.IsZero();
      if zero {
        AddNothing(a, b);
        return;
      }
      var sum := 0;
      var i := data.Length - 1;
      while i >= 0
        invariant -1 <= i < data.Length && -1 <= sum <= 0
        invariant |a| == |b| == data.Length
        invariant forall j :: 0 <= j <= i ==> data[j] == a[j] && u.data[j] == b[j]
        invariant Carried(data[..], a, b, -1, i + 1, sum)
      {
        ghost var c, carry := data[..], sum;
        ghost var x;
        x, sum := SubByte(u, i, sum);
        CarryBound(x, a[i], b[i], -1, carry, sum);
        CarryStep(c, a, b, -1, i, carry, x, sum);
        i := i - 1;
      }
      Total(data[..], a, b, -1, sum);
    }

    // -------------------------------------------------------------- bits in place

    /** `x` with bit `k` set or cleared. */
    static function Masked(x: bv8, k: nat, val: bool): (z: bv8)
      requires k < 8
      ensures forall j: nat :: j < 8 ==> BitOf(z, j) == if j == k then val else BitOf(x, j)
    {
      var y := x | (1 << (7 - k));
      if val then y else y ^ (1 << (7 - k))
    }

    static lemma SetInId(a: Id, c: Id, bit: nat, val: bool)
      requires bit < 8 * |a| && c == a[bit / 8 := Masked(a[bit / 8], bit % 8, val)]
      ensures forall k: nat :: k < 8 * |a| ==> Bit(c, k) == if k == bit then val else Bit(a, k)
    {
      hide BitOf, Masked;
      forall k: nat | k < 8 * |a| ensures Bit(c, k) == if k == bit then val else Bit(a, k) {
        DivMod(k / 8, k % 8);
        DivMod(bit / 8, bit % 8);
        assert Bit(c, k) == BitOf(c[k / 8], k % 8);
      }
    }

    /** Sets bit `bit` to `val` and leaves every other bit alone. */
    method SetBit(bit: nat, val: bool)
      requires bit < 8 * data.Length
      modifies data
      ensures |data[..]| == |old(data[..])|
      ensures forall k: nat :: k < 8 * data.Length ==>
                Bit(data[..], k) == if k == bit then val else old(Bit(data[..], k))
    {
      hide BitOf, Bit, Masked;
      var i := bit / 8;
      var shift := 7 - bit % 8;
      ghost var a := data[..];
      Mark(i, shift, val);
      SetInId(a, data[..], bit, val);
    }

    /** Sets or clears the bit of byte `i` that is `shift` places from the lowest. */
    method Mark(i: nat, shift: nat, val: bool)
      requires i < data.Length && shift < 8
      modifies data
      ensures data[..] == old(data[..])[i := Masked(old(data[i]), 7 - shift, val)]
    {
      hide BitOf;
      data[i] := data[i] | (1 << shift);
      if !val {
        data[i] := data[i] ^ (1 << shift);
      }
    }

    /** XORs `u` into this identifier. */
    method XorWith(u: KadId)
      requires u.data.Length == data.Length
      modifies data
      ensures data[..] == old(Xor(data[..], u.data[..]))
    {
      ghost var a, b := data[..], u.data[..];
      var i := 0;
      while i < data.Length
        invariant 0 <= i <= data.Length
        invariant forall j :: 0 <= j < i ==> data[j] == a[j] ^ b[j]
        invariant forall j :: i <= j < data.Length ==> data[j] == a[j] && u.data[j] == b[j]
      {
        data[i] := data[i] ^ u.data[i];
        i := i + 1;
      }
    }

    // -------------------------------------------------------------- the distance exponent

    /** The position of the highest bit of `t`, plus one. */
    static method TopBit(t: bv8) returns (b: nat)
      requires t != 0
      ensures b < 8 && Pow(2, b) <= t as int < Pow(2, b + 1)
    {
      var k := 7;
      while k >= 0 && t < (1 << k)
        invariant -1 <= k <= 7 && (t as int) < Pow(2, k + 1)
      {
        k := k - 1;
      }
      b := k;
    }

    /**
      The exponent of the distance: the number `r` with 2^(r-1) <= distance < 2^r,
      and 0 for the identifier itself.
     */
    method DistanceTo(id: KadId) returns (r: nat)
      requires id.data.Length == data.Length
      ensures r == 0 <==> data[..] == id.data[..]
      ensures r > 0 ==> Pow(2, r - 1) <= Value(Xor(data[..], id.data[..])) < Pow(2, r)
    {
      hide Value, Pow;
      ghost var d := Xor(data[..], id.data[..]);
      var i := 0;
      while i < data.Length
        invariant 0 <= i <= data.Length
        invariant forall j :: 0 <= j < i ==> data[j] == id.data[j] && d[j] == 0
      {
        var t := data[i] ^ id.data[i];
        if t != 0 {
          // the first byte that differs; find the exact bit
          var bit := (data.Length - 1 - i) * 8;
          var b := TopBit(t);
          FirstByteBounds(d, i, b);
          return bit + b + 1;
        }
        i := i + 1;
      }
      r := 0;
    }
  }
}
