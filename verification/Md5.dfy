/**
  Feeding a message to MD5 piece by piece (RFC 1321).  The compression
  function is a parameter; what matters is which blocks it is given.
 */
module Md5 {
  import opened Arith
  import opened Streams

  const WORD: int := 0x1_0000_0000

  /** The chaining value after all whole blocks of `m`. */
  function Chain<A>(f: (A, seq<Byte>) -> A, a: A, m: seq<Byte>): A
    decreases |m|
  {
    if |m| < 64 then a else Chain(f, f(a, m[..64]), m[64..])
  }

  /** What is left of `m` after its whole blocks. */
  function Tail(m: seq<Byte>): (t: seq<Byte>)
    ensures |t| < 64 && |t| == |m| % 64
    decreases |m|
  {
    if |m| < 64 then m else Tail(m[64..])
  }

  /** The message with its padding: one bit, zeros up to 56 modulo 64, the length in 64 bits (sections 3.1 and 3.2 of
      RFC 1321). */
  function Padded(m: seq<Byte>): seq<Byte> {
    m + [0x80] + Zeros((55 - |m|) % 64) + LengthBytes(8 * |m|)
  }

  function Zeros(n: nat): (z: seq<Byte>)
    ensures |z| == n
  {
    seq(n, _ => 0)
  }

  /** The low 64 bits of a number, least significant byte first. */
  function LengthBytes(n: nat): (b: seq<Byte>)
    ensures |b| == 8
  {
    seq(8, i requires 0 <= i < 8 => (n / Power(i)) % 256)
  }

  function Power(i: nat): (p: nat)
    ensures p > 0
  {
    if i == 0 then 1 else 256 * Power(i - 1)
  }

  /** The padding is as short as possible and ends at a block boundary. */
  lemma PaddingFits(m: seq<Byte>)
    ensures |Padded(m)| % 64 == 0 && |m| + 9 <= |Padded(m)| < |m| + 9 + 64
  {
    var k := (55 - |m|) % 64;
    assert (|m| + 1 + k) % 64 == 56;
  }

  /** The number that bytes write, least significant first. */
  function LittleEndian(b: seq<Byte>): (n: nat) {
    if b == [] then 0 else b[0] + 256 * LittleEndian(b[1..])
  }

  function Digits(n: nat, k: nat): (b: seq<Byte>)
    ensures |b| == k
  {
    if k == 0 then [] else [n % 256] + Digits(n / 256, k - 1)
  }

  /** A number with its digits `r`, `t` and the rest `s`. */
  lemma TwoDigits(n: nat, a: nat, b: nat, q: nat, r: nat, s: nat, t: nat)
    requires n == a * q + r && q == b * s + t && r < a && t < b
    ensures a * b > 0 && n / (a * b) == s && n % (a * b) == r + a * t
  {
    Composed(n, a, b, q, r, s, t);
    DivModUnique(a * b, s, a * t + r);
  }

  lemma Divided(n: nat, a: nat)
    requires a > 0
    ensures n == a * (n / a) + n % a && n % a < a
  {
  }

  /** Dividing twice is dividing by the product. */
  lemma DivTwice(n: nat, a: nat, b: nat)
    requires a > 0 && b > 0
    ensures a * b > 0
    ensures (n / a) / b == n / (a * b)
    ensures n % (a * b) == n % a + a * ((n / a) % b)
  {
    Divided(n, a);
    Divided(n / a, b);
    TwoDigits(n, a, b, n / a, n % a, (n / a) / b, (n / a) % b);
  }

  lemma Composed(n: nat, a: nat, b: nat, q: nat, r: nat, s: nat, t: nat)
    requires n == a * q + r && q == b * s + t && r < a && t < b
    ensures n == (a * b) * s + (a * t + r) && 0 <= a * t + r < a * b
  {
    MulAssoc(a, b, s);
    assert a * q == a * (b * s) + a * t;
    Below(a, b, t, r);
  }

  lemma Below(a: nat, b: nat, t: nat, r: nat)
    requires r < a && t < b
    ensures 0 <= a * t + r < a * b
  {
    var e := b - 1 - t;
    NonNegative(a, e);
    NonNegative(a, t);
    assert b == e + 1 + t;
    assert a * b == a * e + a + a * t;
  }

  lemma {:induction false} DigitAt(n: nat, k: nat, i: nat)
    requires i < k
    ensures Digits(n, k)[i] == (n / Power(i)) % 256
    decreases k
  {
    if i > 0 {
      DigitAt(n / 256, k - 1, i - 1);
      DivTwice(n, 256, Power(i - 1));
    }
  }

  lemma {:induction false} DigitsWrite(n: nat, k: nat)
    ensures LittleEndian(Digits(n, k)) == n % Power(k)
  {
    if k > 0 {
      var b := Digits(n, k);
      assert b[1..] == Digits(n / 256, k - 1);
      DigitsWrite(n / 256, k - 1);
      DivTwice(n, 256, Power(k - 1));
    }
  }

  lemma LengthWritten(n: nat)
    ensures LittleEndian(LengthBytes(n)) == n % (WORD * WORD)
  {
    var b := LengthBytes(n);
    forall i | 0 <= i < 8 ensures b[i] == Digits(n, 8)[i] { DigitAt(n, 8, i); }
    assert b == Digits(n, 8);
    DigitsWrite(n, 8);
    assert Power(8) == WORD * WORD by { PowerEight(); }
  }

  lemma PowerEight()
    ensures Power(8) == WORD * WORD
  {
    assert Power(2) == 256 * Power(1) == 256 * 256;
    assert Power(4) == 256 * Power(3) == 256 * (256 * Power(2));
    assert Power(6) == 256 * Power(5) == 256 * (256 * Power(4));
    assert Power(8) == 256 * Power(7) == 256 * (256 * Power(6));
  }

  /**
    The padded message is the message, a byte with the top bit alone, zeros,
    and the number of bits modulo 2^64 in eight bytes, least significant first.
   */
  lemma PaddingIs(m: seq<Byte>)
    ensures var q := Padded(m); var n := |q|;
            && n >= |m| + 9 && n % 64 == 0
            && q[..|m|] == m && q[|m|] == 128
            && (forall k :: |m| < k < n - 8 ==> q[k] == 0)
            && LittleEndian(q[n - 8..]) == (8 * |m|) % 0x1_0000_0000_0000_0000
  {
    PaddingFits(m);
    var q, z, b := Padded(m), Zeros((55 - |m|) % 64), LengthBytes(8 * |m|);
    assert q == m + ([0x80] + z) + b;
    assert q[|q| - 8..] == b;
    LengthWritten(8 * |m|);
  }

  // ---------------------------------------------------------------- continuing a message

  /** Going on with `data` needs only the chaining value and the tail. */
  lemma {:induction false} Continues<A>(f: (A, seq<Byte>) -> A, a: A, m: seq<Byte>, data: seq<Byte>)
    ensures Chain(f, a, m + data) == Chain(f, Chain(f, a, m), Tail(m) + data)
    ensures Tail(m + data) == Tail(Tail(m) + data)
    decreases |m|
  {
    if |m| >= 64 {
      Continues(f, f(a, m[..64]), m[64..], data);
      assert (m + data)[..64] == m[..64] && (m + data)[64..] == m[64..] + data;
    }
  }

  // ---------------------------------------------------------------- the state

  class State<A> {
    const f: (A, seq<Byte>) -> A
    const init: A
    var count0: int
    var count1: int
    var abcd: A
    const buf: array<Byte>

    /** All bytes fed so far. */
    ghost var msg: seq<Byte>

    ghost predicate Counts()
      reads this`count0, this`count1, this`msg
    {
      0 <= count0 < WORD && 0 <= count1 < WORD && count1 * WORD + count0 == (8 * |msg|) % (WORD * WORD)
    }

    ghost predicate Valid()
      reads this, buf
    {
      && Counts()
      && buf.Length == 64
      && abcd == Chain(f, init, msg)
      && buf[..|msg| % 64] == Tail(msg)
    }

    constructor (f: (A, seq<Byte>) -> A, init: A)
      ensures Valid() && msg == [] && this.f == f && this.init == init && fresh(buf)
    {
      this.f, this.init, abcd := f, init, init;
      count0, count1, msg := 0, 0, [];
      buf := new Byte[64](_ => 0);
    }

    /** Adds `n` bytes to the bit count kept in two words. */
    method AddLength(n: int, ghost total: nat)
      requires 0 < n < 0x8000_0000 && 0 <= count0 < WORD && 0 <= count1 < WORD
      requires count1 * WORD + count0 == (8 * total) % (WORD * WORD)
      modifies this`count0, this`count1
      ensures 0 <= count0 < WORD && 0 <= count1 < WORD
      ensures count1 * WORD + count0 == (8 * (total + n)) % (WORD * WORD)
    {
      var nbits := (n * 8) % WORD;
      ghost var c0, c1 := count0, count1;
      count1 := (count1 + n / 0x2000_0000) % WORD;
      count0 := (count0 + nbits) % WORD;
      if count0 < nbits {
        count1 := (count1 + 1) % WORD;
      }
      Carry(c0, c1, n, total, count0, count1);
    }

    static lemma Carry(c0: int, c1: int, n: int, total: nat, d0: int, d1: int)
      requires 0 < n < 0x8000_0000 && 0 <= c0 < WORD && 0 <= c1 < WORD
      requires c1 * WORD + c0 == (8 * total) % (WORD * WORD)
      requires d0 == (c0 + (n * 8) % WORD) % WORD
      requires var e := (c1 + n / 0x2000_0000) % WORD; d1 == if d0 < (n * 8) % WORD then (e + 1) % WORD else e
      ensures d1 * WORD + d0 == (8 * (total + n)) % (WORD * WORD)
    {
      var hi, lo := n / 0x2000_0000, (n * 8) % WORD;
      assert n * 8 == hi * WORD + lo;
      var carry := if c0 + lo >= WORD then 1 else 0;
      assert d0 == c0 + lo - carry * WORD;
      assert d0 < lo <==> carry == 1;
      var over := if c1 + hi + carry >= WORD then 1 else 0;
      assert d1 == c1 + hi + carry - over * WORD;
      Reduce(8 * total, c1 * WORD + c0, n * 8, over, d1 * WORD + d0);
    }

    static lemma Reduce(x: nat, r: int, y: int, over: int, z: int)
      requires r == x % (WORD * WORD) && 0 <= z < WORD * WORD && r + y == z + over * (WORD * WORD)
      ensures z == (x + y) % (WORD * WORD)
    {
      var m := WORD * WORD;
      assert x == m * (x / m) + r;
      assert x + y == m * (x / m + over) + z;
      DivModUnique(m, x / m + over, z);
    }

    lemma Offset()
      requires Counts()
      ensures (count0 / 8) % 64 == |msg| % 64
    {
      var n := |msg|;
      LowWord(8 * n, count0, count1);
    }

    static lemma LowWord(x: nat, c0: int, c1: int)
      requires 0 <= c0 < WORD && c1 * WORD + c0 == x % (WORD * WORD) && x % 8 == 0
      ensures (c0 / 8) % 64 == (x / 8) % 64
    {
      var q := x / (WORD * WORD);
      assert x == (WORD * WORD) * q + x % (WORD * WORD);
      LowPart(x, WORD * q + c1, c0);
    }

    static lemma LowPart(x: nat, y: int, c0: int)
      requires x == WORD * y + c0 && x % 8 == 0
      ensures (c0 / 8) % 64 == (x / 8) % 64
    {
      assert c0 / 8 == x / 8 - 64 * (0x80_0000 * y);
    }

    /** Copies `len` bytes of `data`, from position `from` on, into the buffer at `at`. */
    method CopyIn(at: int, data: seq<Byte>, from: int, len: int)
      requires buf.Length == 64 && 0 <= at && 0 <= len && at + len <= 64 && 0 <= from && from + len <= |data|
      modifies buf
      ensures buf[..] == old(buf[..at]) + data[from..from + len] + old(buf[at + len..])
    {
      var i := 0;
      while i < len
        invariant 0 <= i <= len
        invariant forall k :: 0 <= k < at || at + i <= k < 64 ==> buf[k] == old(buf[k])
        invariant forall k :: at <= k < at + i ==> buf[k] == data[from + k - at]
      {
        buf[at + i] := data[from + i];
        i := i + 1;
      }
    }

    /** Feeds `data`. */
    method Append(data: seq<Byte>)
      requires Valid() && |data| < 0x8000_0000
      modifies this`count0, this`count1, this`abcd, this`msg, buf
      ensures Valid() && msg == old(msg) + data
    {
      hide Chain, Tail;
      var n := |data|;
      Offset();
      var offset := (count0 / 8) % 64;
      if n <= 0 {
        assert msg + data == msg;
        return;
      }
      ghost var a0, t := abcd, Tail(msg);
      Continues(f, init, msg, data);
      AddCount(n);
      msg := msg + data;
      if offset == 0 {
        assert t == [] && t + data == data;
        Blocks(data, 0);
        return;
      }
      var copy := if offset + n > 64 then 64 - offset else n;
      CopyIn(offset, data, 0, copy);
      assert buf[..offset + copy] == t + data[..copy];
      if offset + copy < 64 {
        assert data[..copy] == data;
        ShortTail(t + data, a0);
        return;
      }
      assert buf[..] == t + data[..copy];
      abcd := f(abcd, buf[..]);
      WholeBlock(a0, t, data, copy);
      Blocks(data, copy);
    }

    /** The count for the bytes about to be added. */
    method AddCount(n: int)
      requires Counts() && 0 < n < 0x8000_0000
      modifies this`count0, this`count1
      ensures 0 <= count0 < WORD && 0 <= count1 < WORD
      ensures count1 * WORD + count0 == (8 * (|msg| + n)) % (WORD * WORD)
    {
      AddLength(n, |msg|);
    }

    lemma ShortTail(m: seq<Byte>, a: A)
      requires |m| < 64
      ensures Chain(f, a, m) == a && Tail(m) == m
    {
    }

    lemma WholeBlock(a: A, t: seq<Byte>, data: seq<Byte>, copy: int)
      requires 0 <= copy <= |data| && |t| + copy == 64
      ensures Chain(f, a, t + data) == Chain(f, f(a, t + data[..copy]), data[copy..])
      ensures Tail(t + data) == Tail(data[copy..])
    {
      assert (t + data)[..64] == t + data[..copy] && (t + data)[64..] == data[copy..];
    }

    /** Feeds the whole blocks of the data from `start` on, and buffers the rest. */
    method Blocks(data: seq<Byte>, start: int)
      requires buf.Length == 64 && 0 <= start <= |data|
      modifies this`abcd, buf
      ensures abcd == Chain(f, old(abcd), data[start..])
      ensures buf[..|Tail(data[start..])|] == Tail(data[start..])
    {
      var p := start;
      while |data| - p >= 64
        invariant start <= p <= |data|
        invariant Chain(f, abcd, data[p..]) == Chain(f, old(abcd), data[start..])
        invariant Tail(data[p..]) == Tail(data[start..])
      {
        assert data[p..][..64] == data[p..p + 64] && data[p..][64..] == data[p + 64..];
        abcd := f(abcd, data[p..p + 64]);
        p := p + 64;
      }
      if |data| - p > 0 {
        CopyIn(0, data, p, |data| - p);
        assert data[p..p + (|data| - p)] == data[p..];
      }
    }

    /** Byte `i` of the bit count. */
    method CountByte(i: nat) returns (b: Byte)
      requires i < 8 && Counts()
      ensures b == LengthBytes(8 * |msg|)[i]
    {
      var word, at := if i < 4 then count0 else count1, if i < 4 then i else i - 4;
      b := (word / Power(at)) % 256;
      ByteOfCount(8 * |msg|, count0, count1, i);
    }

    static lemma ByteOfCount(x: nat, c0: int, c1: int, i: nat)
      requires i < 8 && 0 <= c0 < WORD && 0 <= c1 < WORD && c1 * WORD + c0 == x % (WORD * WORD)
      ensures (x / Power(i)) % 256 == if i < 4 then (c0 / Power(i)) % 256 else (c1 / Power(i - 4)) % 256
    {
      Powers();
      var q := x / (WORD * WORD);
      assert x == WORD * (WORD * q + c1) + c0;
      if i < 4 { LowByte(x, WORD * q + c1, c0, i); } else { HighByte(x, q, c0, c1, i - 4); }
    }

    static lemma Powers()
      ensures Power(0) == 1 && Power(1) == 256 && Power(2) == 0x1_0000 && Power(3) == 0x100_0000
      ensures Power(4) == WORD && Power(5) == 256 * WORD && Power(6) == 0x1_0000 * WORD && Power(7) == 0x100_0000 * WORD
    {
      assert Power(1) == 256 * Power(0);
      assert Power(2) == 256 * Power(1);
      assert Power(3) == 256 * Power(2);
      assert Power(4) == 256 * Power(3);
      assert Power(5) == 256 * Power(4);
      assert Power(6) == 256 * Power(5);
      assert Power(7) == 256 * Power(6);
    }

    static lemma LowByte(x: nat, y: nat, c0: int, i: nat)
      requires i < 4 && x == WORD * y + c0 && 0 <= c0 < WORD
      ensures (x / Power(i)) % 256 == (c0 / Power(i)) % 256
    {
      Powers();
      match i {
        case 0 => ByteAt(x, y, c0, 1, 0x1_0000_0000);
        case 1 => ByteAt(x, y, c0, 0x100, 0x100_0000);
        case 2 => ByteAt(x, y, c0, 0x1_0000, 0x1_0000);
        case 3 => ByteAt(x, y, c0, 0x100_0000, 0x100);
      }
    }

    /** Dividing by `p`, what lies above the word is a multiple of `r`, and so of 256. */
    static lemma ByteAt(x: nat, y: nat, c0: nat, p: nat, r: nat)
      requires p > 0 && r % 256 == 0 && p * r == WORD && x == WORD * y + c0
      ensures (x / p) % 256 == (c0 / p) % 256
    {
      assert WORD * y == p * (r * y);
      var q, m := c0 / p, c0 % p;
      assert x == p * (r * y + q) + m;
      DivModUnique(p, r * y + q, m);
      assert r * y == 256 * (r / 256 * y);
      DropMultiple(q, r / 256 * y);
    }

    static lemma DropMultiple(q: int, k: int)
      ensures (256 * k + q) % 256 == q % 256
    {
    }

    static lemma HighByte(x: nat, q: nat, c0: int, c1: int, j: nat)
      requires j < 4 && x == WORD * (WORD * q + c1) + c0 && 0 <= c0 < WORD && 0 <= c1 < WORD
      ensures (x / Power(j + 4)) % 256 == (c1 / Power(j)) % 256
    {
      Powers();
      var y := WORD * q + c1;
      assert x / WORD == y;
      match j {
        case 0 => LowByte(y, q, c1, 0);
        case 1 => LowByte(y, q, c1, 1); assert x / (256 * WORD) == y / 256;
        case 2 => LowByte(y, q, c1, 2); assert x / (0x1_0000 * WORD) == y / 0x1_0000;
        case 3 => LowByte(y, q, c1, 3); assert x / (0x100_0000 * WORD) == y / 0x100_0000;
      }
    }

    lemma PadLength()
      requires Counts()
      ensures (55 - count0 / 8) % 64 == (55 - |msg|) % 64
    {
      Offset();
      SameRest(count0 / 8, |msg|);
    }

    static lemma SameRest(x: int, y: int)
      requires x % 64 == y % 64
      ensures (55 - x) % 64 == (55 - y) % 64
    {
    }

    /** Pads the message and returns the chaining value of all its blocks. */
    method Finish() returns (digest: A)
      requires Valid()
      modifies this`count0, this`count1, this`abcd, this`msg, buf
      ensures Valid() && msg == Padded(old(msg))
      ensures digest == Chain(f, init, Padded(old(msg)))
    {
      hide Chain, Tail, Counts, LengthBytes;
      // save the length before padding
      var data: seq<Byte> := [];
      var i := 0;
      while i < 8
        invariant 0 <= i <= 8 && data == LengthBytes(8 * |msg|)[..i]
        modifies {}
      {
        var b := CountByte(i);
        data := data + [b];
        i := i + 1;
      }
      PadLength();
      var pad: seq<Byte> := [0x80] + seq(63, _ => 0);
      var k := (55 - count0 / 8) % 64;
      ghost var m := msg;
      assert pad[..k + 1] == [0x80] + Zeros(k);
      Append(pad[..k + 1]);
      Append(data);
      assert data == LengthBytes(8 * |m|);
      assert msg == Padded(m);
      digest := abcd;
    }
  }

  function Concat(chunks: seq<seq<Byte>>): seq<Byte> {
    if chunks == [] then [] else Concat(chunks[..|chunks| - 1]) + chunks[|chunks| - 1]
  }

  /** However a message is cut into pieces, the digest is that of its padded whole. */
  method DigestOf<A>(f: (A, seq<Byte>) -> A, init: A, chunks: seq<seq<Byte>>) returns (digest: A)
    requires forall k :: 0 <= k < |chunks| ==> |chunks[k]| < 0x8000_0000
    ensures digest == Chain(f, init, Padded(Concat(chunks)))
  {
    hide Chain, Tail, Padded;
    var s := new State(f, init);
    var i := 0;
    while i < |chunks|
      invariant 0 <= i <= |chunks| && fresh(s) && fresh(s.buf) && s.Valid()
      invariant s.f == f && s.init == init && s.msg == Concat(chunks[..i])
    {
      assert chunks[..i + 1][..i] == chunks[..i];
      s.Append(chunks[i]);
      i := i + 1;
    }
    assert chunks[..|chunks|] == chunks;
    digest := s.Finish();
  }
}
