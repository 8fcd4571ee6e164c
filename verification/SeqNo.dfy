/**
  The 31-bit sequence numbers of the transport and their wrap-around
  arithmetic.  An unbounded number `n` travels as `Wrap(n)`; the lemmas say for
  which distances the wrapped operations agree with plain integer arithmetic.
 */
module SeqNo {

  const MAX_SEQ_NO: int := 0x7FFF_FFFF
  const SEQ_NO_TH: int := 0x3FFF_FFFF
  const MODULUS: int := 0x8000_0000

  function Abs(x: int): int {
    if x < 0 then -x else x
  }

  function SeqCmp(a: int, b: int): int {
    if Abs(a - b) < SEQ_NO_TH then a - b else b - a
  }

  function SeqLen(a: int, b: int): int {
    if a <= b then b - a + 1 else b - a + MAX_SEQ_NO + 2
  }

  function SeqOff(a: int, b: int): int {
    if Abs(a - b) < SEQ_NO_TH then b - a
    else if a < b then b - a - MAX_SEQ_NO - 1
    else b - a + MAX_SEQ_NO + 1
  }

  function IncSeq(a: int): int {
    if a == MAX_SEQ_NO then 0 else a + 1
  }

  function DecSeq(a: int): int {
    if a == 0 then MAX_SEQ_NO else a - 1
  }

  /** The number on the wire for the unbounded number `n`. */
  function Wrap(n: int): (w: int)
    ensures 0 <= w <= MAX_SEQ_NO
  {
    n % MODULUS
  }

  /**
    `w` stands for `n` in a field that is initialised to "one before the
    initial sequence number": with an initial number 0 that field holds -1.
   */
  predicate Stands(w: int, n: int) {
    w == Wrap(n) || (n == -1 && w == -1)
  }

  lemma WrapDiff(x: int, y: int) returns (k: int)
    requires Abs(y - x) < MODULUS
    ensures -1 <= k <= 1
    ensures Wrap(y) - Wrap(x) == y - x + k * MODULUS
  {
    k := x / MODULUS - y / MODULUS;
  }

  /** Comparison has the sign of the true difference, inside the half window. */
  lemma CmpSign(x: int, y: int)
    requires Abs(x - y) < SEQ_NO_TH
    ensures SeqCmp(Wrap(x), Wrap(y)) < 0 <==> x < y
    ensures SeqCmp(Wrap(x), Wrap(y)) == 0 <==> x == y
    ensures SeqCmp(Wrap(x), Wrap(y)) > 0 <==> x > y
  {
    var k := WrapDiff(x, y);
  }

  /** The wrapped comparison takes `x` to be later than `y`. */
  predicate Ahead(x: int, y: int) {
    SeqCmp(Wrap(x), Wrap(y)) > 0
  }

  /**
    Whatever the distance: a number less than a turn later is taken to be later
    if it is inside the half window.  Beyond it is not, but for three distances,
    where it is if the circle is closed in between.
   */
  lemma AheadIff(x: int, y: int)
    requires 0 <= x - y < MODULUS
    ensures Ahead(x, y) <==>
            0 < x - y < SEQ_NO_TH || (SEQ_NO_TH <= x - y <= SEQ_NO_TH + 2 && Wrap(x) < Wrap(y))
  {
    var k := WrapDiff(x, y);
  }

  /** The same when one side is a "one before the start" field. */
  lemma CmpSignStands(x: int, w: int, y: int)
    requires Abs(x - y) < SEQ_NO_TH && 0 <= x && -1 <= y && Stands(w, y)
    ensures SeqCmp(Wrap(x), w) < 0 <==> x < y
    ensures SeqCmp(Wrap(x), w) > 0 <==> x > y
    ensures SeqCmp(w, Wrap(x)) < 0 <==> y < x
    ensures SeqCmp(w, Wrap(x)) > 0 <==> y > x
    ensures SeqCmp(Wrap(x), w) == 0 <==> x == y
  {
    var k := WrapDiff(x, y);
  }

  lemma OffExact(x: int, y: int)
    requires Abs(y - x) < SEQ_NO_TH
    ensures SeqOff(Wrap(x), Wrap(y)) == y - x
  {
    var k := WrapDiff(x, y);
  }

  /**
    The half window is exactly right: an offset is recovered at every position
    of the number circle if and only if it is smaller than the threshold.
   */
  lemma OffExactIffInWindow(d: int)
    ensures (forall x: int :: SeqOff(Wrap(x), Wrap(x + d)) == d) <==> Abs(d) < SEQ_NO_TH
  {
    if Abs(d) < SEQ_NO_TH {
      forall x: int ensures SeqOff(Wrap(x), Wrap(x + d)) == d { OffExact(x, x + d); }
    } else {
      // a witness: start at 0 or at the maximum, so that no wrap happens
      var x := if d > 0 then 0 else MAX_SEQ_NO;
      assert SeqOff(Wrap(x), Wrap(x + d)) != d;
    }
  }

  lemma LenExact(x: int, y: int)
    requires x <= y < x + MODULUS
    ensures SeqLen(Wrap(x), Wrap(y)) == y - x + 1
  {
    var k := WrapDiff(x, y);
  }

  /** A length fits a signed 32-bit result except for one full turn of the circle. */
  lemma LenFitsInt32(a: int, b: int)
    requires 0 <= a <= MAX_SEQ_NO && 0 <= b <= MAX_SEQ_NO
    ensures 1 <= SeqLen(a, b)
    ensures SeqLen(a, b) <= 0x7FFF_FFFF <==> !(a == b + 1 || (a == 0 && b == MAX_SEQ_NO))
  {
  }

  /** Both exceptions are one more than the largest signed 32-bit number. */
  lemma LenCanOverflow()
    ensures SeqLen(1, 0) == SeqLen(0, MAX_SEQ_NO) == 0x7FFF_FFFF + 1
  {
  }

  lemma IncExact(n: int)
    ensures IncSeq(Wrap(n)) == Wrap(n + 1)
    ensures n >= -1 ==> forall w :: Stands(w, n) ==> IncSeq(w) == Wrap(n + 1)
  {
    assert Wrap(n + 1) == (Wrap(n) + 1) % MODULUS;
  }

  lemma DecExact(n: int)
    ensures DecSeq(Wrap(n)) == Wrap(n - 1)
  {
    assert Wrap(n - 1) == (Wrap(n) - 1) % MODULUS;
  }

  /** Equal wrapped numbers are equal numbers, when less than a full turn apart. */
  lemma WrapInjective(x: int, y: int)
    requires Abs(x - y) < MODULUS
    ensures Wrap(x) == Wrap(y) <==> x == y
  {
    var k := WrapDiff(x, y);
  }
}
