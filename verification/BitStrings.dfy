/**
 The bit strings behind the packet codec: a word as its n bits, most significant first, and a
 byte buffer as the stream of its bits.
 */
module BitStrings {
  import opened Words
  import opened Bitwise

  /** The n low bits of `v`, most significant first. */
  function ToBits(v: nat, n: nat): (bits: seq<bool>)
    ensures |bits| == n
  {
    seq(n, j requires 0 <= j < n => Bit(v, n - 1 - j))
  }

  /** The number a bit string spells, most significant first. */
  function FromBits(bits: seq<bool>): (v: nat)
    ensures v < Pow2(|bits|)
  {
    if bits == [] then 0 else 2 * FromBits(bits[..|bits| - 1]) + B2N(bits[|bits| - 1])
  }

  /** Bit `p` of a buffer: bytes in order, each from its most significant bit. */
  predicate StreamBit(buffer: seq<u8>, p: nat)
    requires p / 8 < |buffer|
  {
    Bit(buffer[p / 8], 7 - p % 8)
  }

  function Stream(buffer: seq<u8>): (bits: seq<bool>)
    ensures |bits| == 8 * |buffer|
  {
    seq(8 * |buffer|, p requires 0 <= p < 8 * |buffer| => StreamBit(buffer, p))
  }

  lemma {:induction false} BitOfFromBits(bits: seq<bool>, j: nat)
    requires j < |bits|
    ensures Bit(FromBits(bits), |bits| - 1 - j) == bits[j]
  {
    if j < |bits| - 1 {
      BitOfFromBits(bits[..|bits| - 1], j);
    }
  }

  /** A word within n bits is determined by them. */
  lemma FromBitsUnique(v: nat, bits: seq<bool>)
    requires v < Pow2(|bits|)
    requires forall j :: 0 <= j < |bits| ==> Bit(v, |bits| - 1 - j) == bits[j]
    ensures v == FromBits(bits)
  {
    hide Bit, FromBits;
    forall k | 0 <= k < |bits|
      ensures Bit(v, k) == Bit(FromBits(bits), k)
    {
      BitOfFromBits(bits, |bits| - 1 - k);
      assert Bit(v, |bits| - 1 - (|bits| - 1 - k)) == bits[|bits| - 1 - k];
    }
    BitExt(v, FromBits(bits), |bits|);
  }

  /** Writing a value in n bits and reading them back gives the value modulo 2^n. */
  lemma FromToBits(v: nat, n: nat)
    ensures FromBits(ToBits(v, n)) == v % Pow2(n)
  {
    hide Bit, FromBits;
    forall j | 0 <= j < n
      ensures Bit(v % Pow2(n), n - 1 - j) == ToBits(v, n)[j]
    {
      BitTrunc(v, n, n - 1 - j);
    }
    FromBitsUnique(v % Pow2(n), ToBits(v, n));
  }

  lemma ToFromBits(bits: seq<bool>)
    ensures ToBits(FromBits(bits), |bits|) == bits
  {
    hide Bit, FromBits;
    forall j | 0 <= j < |bits|
      ensures ToBits(FromBits(bits), |bits|)[j] == bits[j]
    {
      BitOfFromBits(bits, j);
    }
  }

  function BytesToBits(bytes: seq<u8>): (bits: seq<bool>)
    ensures |bits| == 8 * |bytes|
  {
    if bytes == [] then [] else ToBits(bytes[0], 8) + BytesToBits(bytes[1..])
  }

  lemma {:induction false} BytesToBitsAppend(a: seq<u8>, b: seq<u8>)
    ensures BytesToBits(a + b) == BytesToBits(a) + BytesToBits(b)
  {
    if a == [] {
      assert a + b == b;
    } else {
      assert (a + b)[1..] == a[1..] + b;
      BytesToBitsAppend(a[1..], b);
    }
  }

  lemma {:induction false} BytesToBitsAt(bytes: seq<u8>, p: nat)
    requires p < 8 * |bytes|
    ensures BytesToBits(bytes)[p] == StreamBit(bytes, p)
  {
    if p >= 8 {
      BytesToBitsAt(bytes[1..], p - 8);
    }
  }

  /** What a write of `bits` at `off` does to the stream: those bits, and no others. */
  ghost predicate Overwrites(before: seq<bool>, after: seq<bool>, off: nat, bits: seq<bool>) {
    && |after| == |before| && off + |bits| <= |before|
    && after[..off] == before[..off]
    && after[off..off + |bits|] == bits
    && after[off + |bits|..] == before[off + |bits|..]
  }

  lemma OverwritesAt(before: seq<bool>, after: seq<bool>, off: nat, bits: seq<bool>)
    requires |after| == |before| && off + |bits| <= |before|
    requires forall p :: 0 <= p < |after| ==>
               after[p] == if off <= p < off + |bits| then bits[p - off] else before[p]
    ensures Overwrites(before, after, off, bits)
  {
  }

  lemma OverwritesCompose(a: seq<bool>, b: seq<bool>, c: seq<bool>, off: nat, x: seq<bool>, y: seq<bool>)
    requires Overwrites(a, b, off, x) && Overwrites(b, c, off + |x|, y)
    ensures Overwrites(a, c, off, x + y)
  {
    forall p | 0 <= p < |c|
      ensures c[p] == if off <= p < off + |x + y| then (x + y)[p - off] else a[p]
    {
      if p < off {
        assert c[..off + |x|][p] == b[..off + |x|][p] && b[..off][p] == a[..off][p];
      } else if p < off + |x| {
        assert c[..off + |x|][p] == b[..off + |x|][p];
        assert b[off..off + |x|][p - off] == x[p - off];
      } else if p < off + |x| + |y| {
        assert c[off + |x|..off + |x| + |y|][p - off - |x|] == y[p - off - |x|];
      } else {
        assert c[off + |x| + |y|..][p - off - |x| - |y|] == b[off + |x| + |y|..][p - off - |x| - |y|];
        assert b[off + |x|..][p - off - |x|] == a[off + |x|..][p - off - |x|];
      }
    }
    OverwritesAt(a, c, off, x + y);
  }
}
