/** Byte streams cut into packet payloads. */
module Streams {
  import opened Arith

  type Byte = x: int | 0 <= x < 256
  type Payload = seq<Byte>

  function Flatten(ps: seq<Payload>): seq<Byte> {
    if ps == [] then [] else ps[0] + Flatten(ps[1..])
  }

  lemma {:induction false} FlattenConcat(a: seq<Payload>, b: seq<Payload>)
    ensures Flatten(a + b) == Flatten(a) + Flatten(b)
  {
    if a == [] {
      assert a + b == b;
    } else {
      FlattenConcat(a[1..], b);
      assert (a + b)[0] == a[0] && (a + b)[1..] == a[1..] + b;
      assert Flatten(a + b) == a[0] + Flatten(a[1..] + b);
      assert a[0] + (Flatten(a[1..]) + Flatten(b)) == a[0] + Flatten(a[1..]) + Flatten(b);
    }
  }

  /** The blocks `data` is cut into: all of `mss` bytes but the last. */
  function Chunks(data: seq<Byte>, mss: int): (ps: seq<Payload>)
    requires mss > 0
    decreases |data|
  {
    if data == [] then []
    else if |data| <= mss then [data]
    else [data[..mss]] + Chunks(data[mss..], mss)
  }

  /** Cutting loses nothing, and no block is empty or too long. */
  lemma {:induction false} ChunksFlatten(data: seq<Byte>, mss: int)
    requires mss > 0
    ensures Flatten(Chunks(data, mss)) == data
    ensures forall p :: p in Chunks(data, mss) ==> 0 < |p| <= mss
    decreases |data|
  {
    if data == [] {
    } else if |data| <= mss {
      assert [data][1..] == [];
      assert data + [] == data;
    } else {
      ChunksFlatten(data[mss..], mss);
      var cs := Chunks(data, mss);
      assert cs[0] == data[..mss] && cs[1..] == Chunks(data[mss..], mss);
      assert data[..mss] + data[mss..] == data;
    }
  }

  /** The number of blocks is the length divided by the block size, rounded up. */
  lemma {:induction false} ChunksCount(data: seq<Byte>, mss: int)
    requires mss > 0
    ensures |Chunks(data, mss)| == |data| / mss + (if |data| % mss != 0 then 1 else 0)
    decreases |data|
  {
    if data == [] {
    } else if |data| <= mss {
      if |data| < mss { ModSmall(|data|, mss); } else { DivModUnique(mss, 1, 0); }
    } else {
      ChunksCount(data[mss..], mss);
      DivStep(|data|, mss);
    }
  }

  /** Block `i` of the cut starts at byte `i * mss`. */
  lemma {:induction false} ChunkAt(data: seq<Byte>, mss: int, i: int)
    requires mss > 0 && 0 <= i < |Chunks(data, mss)|
    ensures 0 <= i * mss < |data|
    ensures var n := if |data| - i * mss > mss then mss else |data| - i * mss;
            n > 0 && Chunks(data, mss)[i] == data[i * mss..i * mss + n]
    decreases |data|
  {
    if i == 0 {
      if |data| <= mss { assert data[0..|data|] == data; }
    } else {
      ChunkAt(data[mss..], mss, i - 1);
      assert (i - 1) * mss == i * mss - mss;
    }
  }
}
