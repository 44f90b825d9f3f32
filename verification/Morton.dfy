/**
 Z-order codes: three 21-bit coordinates interleaved bit by bit through a spread table. The
 encoder and the decoder invert each other, and codes respect the product order of points.
 */
module Morton {
  import opened Words
  import opened Bitwise

  const COORDINATE_BIAS := 1_048_576
  const MAX_COORDINATE := 2_097_151

  // ----- Spreading -----

  /** Every bit k of x moved to bit 3k. */
  function Spread(x: nat): nat {
    if x == 0 then 0 else x % 2 + 8 * Spread(x / 2)
  }

  lemma {:induction false} SpreadBit(x: nat, k: nat)
    ensures Bit(Spread(x), k) <==> k % 3 == 0 && Bit(x, k / 3)
  {
    if x == 0 {
      BitZero(k);
      BitZero(k / 3);
    } else if k < 3 {
      assert Spread(x) / 2 == 4 * Spread(x / 2) && Spread(x) / 2 / 2 == 2 * Spread(x / 2);
      if k == 2 { assert Bit(Spread(x), 2) == Bit(Spread(x) / 2 / 2, 0); }
    } else {
      var s := Spread(x);
      assert s / 2 / 2 / 2 == Spread(x / 2);
      assert Bit(s, k) == Bit(s / 2, k - 1) == Bit(s / 2 / 2, k - 2) == Bit(s / 2 / 2 / 2, k - 3);
      SpreadBit(x / 2, k - 3);
      assert (k - 3) / 3 == k / 3 - 1;
    }
  }

  lemma SpreadHalf(x: nat)
    ensures Spread(x) == x % 2 + 8 * Spread(x / 2)
  {
  }

  lemma ShlByNone(hi: nat)
    ensures Shl(hi, 0) == hi
  {
  }

  lemma ShlHalf(lo: nat, n: nat, hi: nat)
    requires n > 0
    ensures (lo + Shl(hi, n)) / 2 == lo / 2 + Shl(hi, n - 1) && (lo + Shl(hi, n)) % 2 == lo % 2
  {
  }

  lemma {:induction false} SpreadBound(x: nat, n: nat)
    requires x < Pow2(n)
    ensures Spread(x) < Pow2(3 * n)
  {
    if n == 0 {
      NoOnes();
    } else {
      OneMoreBit(n - 1);
      SpreadHalf(x);
      hide *;
      SpreadBound(x / 2, n - 1);
      ThreeMoreBits(3 * (n - 1));
      assert 3 * (n - 1) + 3 == 3 * n;
    }
  }

  /** Spreading keeps the order of numbers, strictly. */
  lemma {:induction false} SpreadIncreases(x: nat, y: nat)
    requires x < y
    ensures Spread(x) < Spread(y)
  {
    if x / 2 < y / 2 {
      SpreadIncreases(x / 2, y / 2);
    }
  }

  lemma SpreadMonotone(x: nat, y: nat)
    requires x <= y
    ensures Spread(x) <= Spread(y) && (x < y ==> Spread(x) < Spread(y))
  {
    if x < y { SpreadIncreases(x, y); }
  }

  lemma ShlThrice(s: nat, m: nat)
    ensures Shl(s, m + 3) == 8 * Shl(s, m)
  {
    assert Shl(s, m + 2) == 2 * Shl(s, m + 1);
  }

  /** Two adjacent fields spread separately. */
  lemma {:induction false} SpreadFields(lo: nat, n: nat, hi: nat)
    requires lo < Pow2(n)
    ensures Spread(lo + Shl(hi, n)) == Spread(lo) + Shl(Spread(hi), 3 * n)
    decreases n
  {
    hide *;
    if n == 0 {
      NoOnes();
      ShlByNone(hi);
      ShlByNone(Spread(hi));
    } else {
      OneMoreBit(n - 1);
      ShlHalf(lo, n, hi);
      SpreadFields(lo / 2, n - 1, hi);
      SpreadHalf(lo);
      SpreadHalf(lo + Shl(hi, n));
      ShlThrice(Spread(hi), 3 * (n - 1));
      assert 3 * (n - 1) + 3 == 3 * n;
    }
  }

  lemma SpreadTop(i: nat, b: nat)
    ensures Spread(i % Pow2(b + 1)) == Spread(i % Pow2(b)) + (if Bit(i, b) then Pow2(3 * b) else 0)
  {
    hide Spread;
    var lo, rest := i % Pow2(b), i / Pow2(b);
    var p := Pow2(b);
    Pow2Add(b, 1);
    Pow2Small();
    TwoLevelDiv(i, p, 2);
    ShrIsDiv(i, b);
    BitShr(i, b, 0);
    SpreadFields(lo, b, rest % 2);
    ShlIsMul(rest % 2, b);
    ShlIsMul(Spread(rest % 2), 3 * b);
    SpreadUnits();
  }

  lemma SpreadUnits()
    ensures Spread(0) == 0 && Spread(1) == 1
  {
  }

  const SPREAD_TABLE: seq<u32> := SpreadTable()

  function SpreadTable(): (t: seq<u32>)
    ensures |t| == 256 && forall i :: 0 <= i < 256 ==> t[i] == Spread(i) < 0x100_0000
  {
    assert forall i: nat :: i < 256 ==> Spread(i) < 0x100_0000 by {
      forall i: nat | i < 256
        ensures Spread(i) < 0x100_0000
      {
        ByteSpreads(i);
      }
    }
    seq(256, i requires 0 <= i < 256 => Spread(i))
  }

  lemma ByteSpreads(i: nat)
    requires i < 256
    ensures Spread(i) < Pow2(24) == 0x100_0000
  {
    Pow2Small();
    Pow2Values();
    Pow2Add(16, 8);
    SpreadBound(i, 8);
  }

  /** The compile-time table, filled bit by bit. */
  method MakeSpreadTable() returns (table: array<u32>)
    ensures table[..] == SPREAD_TABLE
  {
    hide Spread, SpreadTable, SpreadLow, Bit, Or, Shl, And;
    table := new u32[256];
    var i: nat := 0;
    while i < 256
      invariant i <= 256
      invariant forall j :: 0 <= j < i ==> table[j] == Spread(j)
    {
      var val: u32 := 0;
      var bit: nat := 0;
      SpreadOfNone(i);
      while bit < 8
        invariant bit <= 8 && val == SpreadLow(i, bit)
        invariant forall j :: 0 <= j < i ==> table[j] == Spread(j)
      {
        SpreadLowStep(i, bit);
        if And(i, Shl(1, bit)) != 0 {
          val := Or(val, Shl(1, bit * 3));
        }
        bit := bit + 1;
      }
      SpreadOfAll(i);
      table[i] := val;
      i := i + 1;
    }
  }

  /** The spread of the b low bits of a byte. */
  function SpreadLow(i: nat, b: nat): (s: nat)
    requires b <= 8
    ensures s < 0x100_0000
  {
    SpreadOfLow(i, b);
    Spread(i % Pow2(b))
  }

  lemma SpreadOfLow(i: nat, b: nat)
    requires b <= 8
    ensures Spread(i % Pow2(b)) < Pow2(3 * b) <= 0x100_0000
  {
    hide Spread;
    SpreadBound(i % Pow2(b), b);
    Pow2Mono(3 * b, 24);
    ByteSpreads(0);
  }

  lemma SpreadOfNone(i: nat)
    ensures SpreadLow(i, 0) == 0
  {
    assert i % 1 == 0;
  }

  lemma SpreadOfAll(i: nat)
    requires i < 256
    ensures SpreadLow(i, 8) == Spread(i)
  {
    hide Spread;
    Pow2Small();
  }

  /** What one round of the inner loop must do. */
  lemma SpreadLowStep(i: nat, b: nat)
    requires b < 8
    ensures SpreadLow(i, b + 1)
            == if And(i, Shl(1, b)) != 0 then Or(SpreadLow(i, b), Shl(1, b * 3)) else SpreadLow(i, b)
  {
    hide Spread, Or, Shl, And, Bit, Pow2;
    SpreadTop(i, b);
    SingleBitTest(i, b);
    SpreadOfLow(i, b);
    OrDisjoint(SpreadLow(i, b), 1, 3 * b);
    ShlIsMul(1, 3 * b);
  }

  /** The 21 low bits of x spread through three table look-ups. */
  function SpreadBits21(x: u32): (s: u64)
    ensures s == Spread(x % 0x20_0000) < Pow2(63)
  {
    hide *;
    ThreeLookups(x);
    TableIsSpread();
    var clamped := Low(x, 21);
    var b0, b1, b2 := Low(clamped, 8), Low(High(clamped, 8), 8), Low(High(clamped, 16), 5);
    Join(Join(SPREAD_TABLE[b0], 24, SPREAD_TABLE[b1]), 48, SPREAD_TABLE[b2])
  }

  lemma TableIsSpread()
    ensures |SPREAD_TABLE| == 256 && forall i :: 0 <= i < 256 ==> SPREAD_TABLE[i] == Spread(i)
  {
    hide Spread;
  }

  lemma ThreeLookups(x: u32)
    ensures var c := Low(x, 21);
            var b0, b1, b2 := Low(c, 8), Low(High(c, 8), 8), Low(High(c, 16), 5);
            && b0 < 256 && b1 < 256 && b2 < 256
            && Spread(b0) < Pow2(24)
            && Join(Spread(b0), 24, Spread(b1)) < Pow2(48)
            && Join(Join(Spread(b0), 24, Spread(b1)), 48, Spread(b2)) == Spread(c) < Pow2(63) < 0x1_0000_0000_0000_0000
            && c == x % 0x20_0000
  {
    hide Spread, Low, High, Join;
    Pow2Small();
    Pow21();
    hide Pow2;
    var c := Low(x, 21);
    var b0, b1, b2 := Low(c, 8), Low(High(c, 8), 8), Low(High(c, 16), 5);
    var m := Join(b0, 8, b1);
    ByteSpreads(b0);
    ByteSpreads(b1);
    FieldsTogether(c, 8, 8);
    FieldsTogether(c, 16, 5);
    LowWhole(c, 21);
    assert m == Low(c, 16) && Join(m, 16, b2) == c;
    SpreadFields(b0, 8, b1);
    SpreadFields(m, 16, b2);
    ShlIsMul(b1, 8);
    ShlIsMul(Spread(b1), 24);
    ShlIsMul(b2, 16);
    ShlIsMul(Spread(b2), 48);
    SpreadBound(m, 16);
    SpreadBound(c, 21);
  }

  lemma Pow21()
    ensures Pow2(16) == 0x1_0000 && Pow2(21) == 0x20_0000 && Pow2(63) < 0x1_0000_0000_0000_0000
  {
    Pow2Values();
    Pow2Small();
    Pow2Add(16, 5);
    assert Pow2(64) == 2 * Pow2(63);
  }

  // ----- Compacting -----

  /** The first n bits of a word standing three apart, moved together. */
  function CompactGroups(w: nat, n: nat): (c: nat)
    ensures c < Pow2(n)
  {
    if n == 0 then 0
    else
      var low := CompactGroups(w, n - 1);
      GroupFits(low, n - 1, Low(High(w, 3 * (n - 1)), 1));
      Join(low, n - 1, Low(High(w, 3 * (n - 1)), 1))
  }

  lemma GroupFits(low: nat, n: nat, b: nat)
    requires low < Pow2(n) && b < 2
    ensures Join(low, n, b) < Pow2(n + 1)
  {
    hide Pow2, Join;
    Pow2Small();
    FieldsApart(low, n, b, 1);
  }

  lemma {:induction false} CompactBit(w: nat, n: nat, k: nat)
    ensures Bit(CompactGroups(w, n), k) <==> k < n && Bit(w, 3 * k)
  {
    if n == 0 {
      BitZero(k);
    } else {
      CompactBit(w, n - 1, k);
      var low, b := CompactGroups(w, n - 1), Low(High(w, 3 * (n - 1)), 1);
      hide Bit, CompactGroups, Low, High, Join;
      JoinBit(low, n - 1, b, k);
      LowHighBit(w, 3 * (n - 1), 1, if k < n - 1 then 0 else k - (n - 1));
      assert CompactGroups(w, n) == Join(low, n - 1, b) by { CompactStep(w, n); }
    }
  }

  lemma CompactStep(w: nat, n: nat)
    requires n > 0
    ensures CompactGroups(w, n) == Join(CompactGroups(w, n - 1), n - 1, Low(High(w, 3 * (n - 1)), 1))
  {
  }

  lemma JoinBit(lo: nat, n: nat, hi: nat, k: nat)
    requires lo < Pow2(n)
    ensures Bit(Join(lo, n, hi), k) == if k < n then Bit(lo, k) else Bit(hi, k - n)
  {
    hide Bit, Shl, Or;
    BitOr(lo, Shl(hi, n), k);
    BitShl(hi, n, k);
    if k >= n { BitBound(lo, n, k); }
  }

  lemma LowHighBit(w: nat, n: nat, m: nat, k: nat)
    ensures Bit(Low(High(w, n), m), k) <==> k < m && Bit(w, n + k)
  {
    hide Bit, Shr, And;
    BitTrunc(High(w, n), m, k);
    BitShr(w, n, k);
  }

  function CompactSpread24(w: u32): (c: u8)
  {
    Pow2Small();
    CompactGroups(w, 8)
  }

  /** `(w >> n) as u32`. */
  function Word32(w: nat, n: nat): (r: u32)
  {
    hide High;
    Pow2Values();
    Low(High(w, n), 32)
  }

  function CompactBits21(w: u64): (c: u32)
  {
    hide CompactSpread24, Word32, Join, Pow2;
    var c0, c1, c2 := CompactSpread24(Word32(w, 0)), CompactSpread24(Word32(w, 24)), CompactSpread24(Word32(w, 48));
    ThreeBytes(c0, c1, c2);
    Join(Join(c0, 8, c1), 16, c2)
  }

  lemma ThreeBytes(a: u8, b: u8, c: u8)
    ensures a < Pow2(8) && Join(a, 8, b) < Pow2(16)
    ensures Join(Join(a, 8, b), 16, c) < Pow2(24) < 0x1_0000_0000
  {
    hide Join, Pow2;
    Pow2Small();
    FieldsApart(a, 8, b, 8);
    FieldsApart(Join(a, 8, b), 16, c, 8);
    ByteSpreads(0);
  }

  lemma ByteBit(w: u64, n: nat, k: nat)
    ensures Bit(CompactSpread24(Word32(w, n)), k) <==> k < 8 && Bit(w, n + 3 * k)
  {
    hide Bit, Low, High;
    CompactBit(Word32(w, n), 8, k);
    if k < 8 { LowHighBit(w, n, 32, 3 * k); }
  }

  lemma ThreeBytesBit(a: u8, b: u8, c: u8, k: nat)
    ensures a < Pow2(8) && Join(a, 8, b) < Pow2(16)
    ensures Bit(Join(Join(a, 8, b), 16, c), k)
            == if k < 8 then Bit(a, k) else if k < 16 then Bit(b, k - 8) else Bit(c, k - 16)
  {
    hide Bit, Join, Pow2;
    ThreeBytes(a, b, c);
    JoinBit(Join(a, 8, b), 16, c, k);
    JoinBit(a, 8, b, k);
  }

  lemma CompactBits21Bit(w: u64, k: nat)
    ensures Bit(CompactBits21(w), k) <==> k < 24 && Bit(w, 3 * k)
  {
    hide Bit, CompactSpread24, Word32, Join, Pow2;
    ThreeBytesBit(CompactSpread24(Word32(w, 0)), CompactSpread24(Word32(w, 24)), CompactSpread24(Word32(w, 48)), k);
    if k < 8 {
      ByteBit(w, 0, k);
    } else if k < 16 {
      ByteBit(w, 24, k - 8);
    } else {
      ByteBit(w, 48, k - 16);
    }
  }

  // ----- Codes -----

  function Encode(x: u32, y: u32, z: u32): (code: u64)
    ensures code < Pow2(63)
    ensures code == Spread(x % 0x20_0000) + 2 * Spread(y % 0x20_0000) + 4 * Spread(z % 0x20_0000)
  {
    hide SpreadBits21, Spread, Or, Shl, Pow2;
    InterleaveSum(x % 0x20_0000, y % 0x20_0000, z % 0x20_0000);
    Or(Or(SpreadBits21(x), Shl(SpreadBits21(y), 1)), Shl(SpreadBits21(z), 2))
  }

  /** The bit of an interleaving at each position. */
  /** Which coordinate bit k of an interleaved word belongs to. */
  lemma ThirdOf(k: nat)
    ensures k >= 1 ==> ((k - 1) % 3 == 0 <==> k % 3 == 1) && (k % 3 == 1 ==> (k - 1) / 3 == k / 3)
    ensures k >= 2 ==> ((k - 2) % 3 == 0 <==> k % 3 == 2) && (k % 3 == 2 ==> (k - 2) / 3 == k / 3)
    ensures k == 0 ==> k % 3 == 0
    ensures k == 1 ==> k % 3 == 1
  {
  }

  lemma InterleaveBit(x: nat, y: nat, z: nat, k: nat)
    ensures Bit(Or(Or(Spread(x), Shl(Spread(y), 1)), Shl(Spread(z), 2)), k)
            <==> Bit(if k % 3 == 0 then x else if k % 3 == 1 then y else z, k / 3)
  {
    hide *;
    ThirdOf(k);
    BitOr(Or(Spread(x), Shl(Spread(y), 1)), Shl(Spread(z), 2), k);
    BitOr(Spread(x), Shl(Spread(y), 1), k);
    BitShl(Spread(y), 1, k);
    BitShl(Spread(z), 2, k);
    SpreadBit(x, k);
    if k >= 1 { SpreadBit(y, k - 1); }
    if k >= 2 { SpreadBit(z, k - 2); }
  }

  lemma {:induction false} OrIsSum(a: nat, b: nat)
    requires forall k :: 0 <= k ==> !(Bit(a, k) && Bit(b, k))
    ensures Or(a, b) == a + b
    decreases a + b
  {
    if !(a == 0 && b == 0) {
      assert !(Bit(a, 0) && Bit(b, 0));
      forall k | 0 <= k
        ensures !(Bit(a / 2, k) && Bit(b / 2, k))
      {
        assert !(Bit(a, k + 1) && Bit(b, k + 1));
      }
      OrIsSum(a / 2, b / 2);
    }
  }

  /** The three spread coordinates share no bit. */
  lemma SharesNoBit(x: nat, y: nat, z: nat, k: nat)
    ensures var a, b, c := Spread(x), Shl(Spread(y), 1), Shl(Spread(z), 2);
            !(Bit(a, k) && Bit(b, k)) && !(Bit(Or(a, b), k) && Bit(c, k))
  {
    hide Spread, Or, Shl, Bit;
    BitOr(Spread(x), Shl(Spread(y), 1), k);
    BitShl(Spread(y), 1, k);
    BitShl(Spread(z), 2, k);
    SpreadBit(x, k);
    if k >= 1 { SpreadBit(y, k - 1); }
    if k >= 2 { SpreadBit(z, k - 2); }
  }

  lemma InterleaveSum(x: nat, y: nat, z: nat)
    requires x < 0x20_0000 && y < 0x20_0000 && z < 0x20_0000
    ensures Spread(x) + 2 * Spread(y) + 4 * Spread(z) < Pow2(63) < 0x1_0000_0000_0000_0000
    ensures Or(Or(Spread(x), Shl(Spread(y), 1)), Shl(Spread(z), 2)) == Spread(x) + 2 * Spread(y) + 4 * Spread(z)
  {
    Pow2Small();
    hide Spread, Or, Shl, Bit, Pow2;
    var a, b, c := Spread(x), Shl(Spread(y), 1), Shl(Spread(z), 2);
    ShlIsMul(Spread(y), 1);
    ShlIsMul(Spread(z), 2);
    forall k: nat
      ensures !(Bit(a, k) && Bit(b, k)) && !(Bit(Or(a, b), k) && Bit(c, k))
    {
      SharesNoBit(x, y, z, k);
    }
    OrIsSum(a, b);
    OrIsSum(Or(a, b), c);
    LargestCode(x, y, z);
  }

  lemma LargestCode(x: nat, y: nat, z: nat)
    requires x < 0x20_0000 && y < 0x20_0000 && z < 0x20_0000
    ensures Spread(x) + 2 * Spread(y) + 4 * Spread(z) < Pow2(63) < 0x1_0000_0000_0000_0000
  {
    hide *;
    Pow21();
    BelowOnes(x);
    BelowOnes(y);
    BelowOnes(z);
  }

  lemma BelowOnes(x: nat)
    requires x < 0x20_0000
    ensures 7 * Spread(x) <= Pow2(63) - 1
  {
    hide *;
    Pow21();
    AllOnes(21);
    SpreadMonotone(x, Pow2(21) - 1);
  }

  lemma {:induction false} AllOnes(n: nat)
    ensures 7 * Spread(Pow2(n) - 1) == Pow2(3 * n) - 1
  {
    hide *;
    if n == 0 {
      NoOnes();
    } else {
      AllOnes(n - 1);
      ThreeMoreBits(3 * (n - 1));
      OnesOnTop(Pow2(n - 1));
      OneMoreBit(n - 1);
      assert 3 * (n - 1) + 3 == 3 * n;
    }
  }

  lemma NoOnes()
    ensures Pow2(0) == 1 && Spread(0) == 0
  {
  }

  lemma OneMoreBit(m: nat)
    ensures Pow2(m + 1) == 2 * Pow2(m) && Pow2(m) >= 1
  {
  }

  lemma ThreeMoreBits(m: nat)
    ensures Pow2(m + 3) == 8 * Pow2(m)
  {
    Pow2Add(m, 3);
    Pow2Small();
  }

  lemma OnesOnTop(p: nat)
    requires p > 0
    ensures Spread(2 * p - 1) == 1 + 8 * Spread(p - 1)
  {
    assert (2 * p - 1) / 2 == p - 1 && (2 * p - 1) % 2 == 1;
  }

  function Decode(code: u64): (u32, u32, u32) {
    ShiftShrinks(code);
    (CompactBits21(code), CompactBits21(Shr(code, 1)), CompactBits21(Shr(code, 2)))
  }

  lemma ShiftShrinks(code: u64)
    ensures Shr(code, 1) <= code && Shr(code, 2) <= code
  {
    assert Shr(code, 1) == Shr(code / 2, 0) && Shr(code, 2) == Shr(code / 2, 1) == Shr(code / 2 / 2, 0);
  }

  lemma EncodeBit(x: u32, y: u32, z: u32, k: nat)
    ensures Bit(Encode(x, y, z), k) <==> k < 63 && Bit(if k % 3 == 0 then x else if k % 3 == 1 then y else z, k / 3)
  {
    hide Bit, Spread, Or, Shl;
    InterleaveBit(x % 0x20_0000, y % 0x20_0000, z % 0x20_0000, k);
    Pow21();
    hide Pow2;
    BitTrunc(if k % 3 == 0 then x else if k % 3 == 1 then y else z, 21, k / 3);
  }

  lemma DecodeBit(code: u64, k: nat)
    ensures Bit(Decode(code).0, k) <==> k < 24 && Bit(code, 3 * k)
    ensures Bit(Decode(code).1, k) <==> k < 24 && Bit(code, 3 * k + 1)
    ensures Bit(Decode(code).2, k) <==> k < 24 && Bit(code, 3 * k + 2)
  {
    hide Bit, CompactBits21, Shr;
    ShiftShrinks(code);
    CompactBits21Bit(code, k);
    CompactBits21Bit(Shr(code, 1), k);
    CompactBits21Bit(Shr(code, 2), k);
    BitShr(code, 1, 3 * k);
    BitShr(code, 2, 3 * k);
  }

  lemma SameCoordinate(d: u32, x: u32)
    requires forall k :: 0 <= k < 32 ==> (Bit(d, k) <==> k < 21 && Bit(x, k))
    ensures d == x % 0x20_0000
  {
    hide Bit;
    Pow21();
    Pow2Values();
    hide Pow2;
    forall k | 0 <= k < 32
      ensures Bit(d, k) == Bit(x % 0x20_0000, k)
    {
      BitTrunc(x, 21, k);
    }
    BitExt(d, x % 0x20_0000, 32);
  }

  /** Bit k of each decoded coordinate is bit k of the one encoded, up to bit 20. */
  lemma DecodeEncodeBit(x: u32, y: u32, z: u32, k: nat)
    ensures var d := Decode(Encode(x, y, z));
            && (Bit(d.0, k) <==> k < 21 && Bit(x, k))
            && (Bit(d.1, k) <==> k < 21 && Bit(y, k))
            && (Bit(d.2, k) <==> k < 21 && Bit(z, k))
  {
    hide *;
    DecodeBit(Encode(x, y, z), k);
    EncodeBit(x, y, z, 3 * k);
    EncodeBit(x, y, z, 3 * k + 1);
    EncodeBit(x, y, z, 3 * k + 2);
  }

  /** Decoding a code gives back the 21 low bits of every coordinate. */
  lemma DecodeEncode(x: u32, y: u32, z: u32)
    ensures Decode(Encode(x, y, z)) == (x % 0x20_0000, y % 0x20_0000, z % 0x20_0000)
  {
    hide *;
    var d := Decode(Encode(x, y, z));
    forall k | 0 <= k < 32
      ensures Bit(d.0, k) <==> k < 21 && Bit(x, k)
      ensures Bit(d.1, k) <==> k < 21 && Bit(y, k)
      ensures Bit(d.2, k) <==> k < 21 && Bit(z, k)
    {
      DecodeEncodeBit(x, y, z, k);
    }
    SameCoordinate(d.0, x);
    SameCoordinate(d.1, y);
    SameCoordinate(d.2, z);
  }

  /** Encoding a decoded code drops bit 63 only: codes below 2^63 are exactly the ones kept. */
  lemma EncodeDecode(code: u64)
    ensures var (x, y, z) := Decode(code); Encode(x, y, z) == code % Pow2(63)
    ensures var (x, y, z) := Decode(code); Encode(x, y, z) == code <==> code < Pow2(63)
  {
    hide Bit, Encode, Decode, Pow2;
    var (x, y, z) := Decode(code);
    forall k | 0 <= k < 63
      ensures Bit(Encode(x, y, z), k) == Bit(code % Pow2(63), k)
    {
      EncodeBit(x, y, z, k);
      DecodeBit(code, k / 3);
      BitTrunc(code, 63, k);
    }
    BitExt(Encode(x, y, z), code % Pow2(63), 63);
    if code < Pow2(63) { ModUnique(code, Pow2(63), 0, code); }
  }

  // ----- Order -----

  /** A point below another in every coordinate has the smaller code, strictly unless they are equal. */
  lemma EncodeMonotone(x: u32, y: u32, z: u32, x': u32, y': u32, z': u32)
    requires x <= x' <= MAX_COORDINATE && y <= y' <= MAX_COORDINATE && z <= z' <= MAX_COORDINATE
    ensures Encode(x, y, z) <= Encode(x', y', z')
    ensures Encode(x, y, z) == Encode(x', y', z') ==> (x, y, z) == (x', y', z')
  {
    assert MAX_COORDINATE == 0x1F_FFFF;
    hide *;
    EncodeSmall(x, y, z);
    EncodeSmall(x', y', z');
    SpreadMonotone(x, x');
    SpreadMonotone(y, y');
    SpreadMonotone(z, z');
  }

  // ----- Signed coordinates -----

  type i32 = x: int | -0x8000_0000 <= x < 0x8000_0000

  /** Biased with a saturating addition, then clamped to 21 bits. */
  function Biased(v: i32): (b: u32)
    ensures b <= MAX_COORDINATE
  {
    Clamp(Clamp(v + COORDINATE_BIAS, -0x8000_0000, 0x7FFF_FFFF), 0, MAX_COORDINATE)
  }

  function EncodeSigned(x: i32, y: i32, z: i32): u64 { Encode(Biased(x), Biased(y), Biased(z)) }

  function DecodeSigned(code: u64): (i32, i32, i32) {
    var (x, y, z) := Decode(code);
    DecodedSmall(code);
    (x - COORDINATE_BIAS, y - COORDINATE_BIAS, z - COORDINATE_BIAS)
  }

  lemma DecodedSmall(code: u64)
    ensures Decode(code).0 < 0x100_0000 && Decode(code).1 < 0x100_0000 && Decode(code).2 < 0x100_0000
  {
    hide Bit;
    CompactSmall(code);
    ShiftShrinks(code);
    CompactSmall(Shr(code, 1));
    CompactSmall(Shr(code, 2));
  }

  lemma CompactSmall(w: u64)
    ensures CompactBits21(w) < 0x100_0000
  {
    hide CompactSpread24, Word32, Join;
    ThreeBytes(CompactSpread24(Word32(w, 0)), CompactSpread24(Word32(w, 24)), CompactSpread24(Word32(w, 48)));
    ByteSpreads(0);
  }

  predicate InSpan(v: i32) { -COORDINATE_BIAS <= v < COORDINATE_BIAS }

  lemma BiasedBack(v: i32)
    ensures Biased(v) % 0x20_0000 == Biased(v)
    ensures Biased(v) as int - COORDINATE_BIAS == v <==> InSpan(v)
  {
  }

  /** Signed points round-trip exactly when every coordinate is within the 21-bit span. */
  lemma SignedRoundTrip(x: i32, y: i32, z: i32)
    ensures DecodeSigned(EncodeSigned(x, y, z)) == (x, y, z) <==> InSpan(x) && InSpan(y) && InSpan(z)
  {
    hide Encode, Decode, Biased, InSpan;
    BiasedBack(x);
    BiasedBack(y);
    BiasedBack(z);
    DecodeEncode(Biased(x), Biased(y), Biased(z));
  }

  datatype Point = Point(x: i32, y: i32, z: i32)

  predicate InBox(p: Point, lo: Point, hi: Point) {
    lo.x <= p.x <= hi.x && lo.y <= p.y <= hi.y && lo.z <= p.z <= hi.z
  }

  function Code(p: Point): u64 { EncodeSigned(p.x, p.y, p.z) }

  /** Every point of a box, out-of-span ones included, has its code between those of the corners. */
  lemma BoxWithinInterval(p: Point, lo: Point, hi: Point)
    requires InBox(p, lo, hi)
    ensures Code(lo) <= Code(p) <= Code(hi)
  {
    hide Encode;
    EncodeMonotone(Biased(lo.x), Biased(lo.y), Biased(lo.z), Biased(p.x), Biased(p.y), Biased(p.z));
    EncodeMonotone(Biased(p.x), Biased(p.y), Biased(p.z), Biased(hi.x), Biased(hi.y), Biased(hi.z));
  }

  /**
   The interval is a filter only. For a row of points from the origin it holds a code of a
   point outside the row as soon as the row has three points, and never before.
   */
  lemma IntervalHoldsMore(last: u32)
    requires last <= MAX_COORDINATE
    ensures (exists x: u32, y: u32, z: u32 ::
               && x <= MAX_COORDINATE && y <= MAX_COORDINATE && z <= MAX_COORDINATE
               && !(x <= last && y == 0 && z == 0)
               && Encode(0, 0, 0) <= Encode(x, y, z) <= Encode(last, 0, 0)) <==> last >= 2
  {
    assert MAX_COORDINATE == 0x1F_FFFF;
    hide *;
    SpreadsOfSmall();
    EncodeSmall(0, 0, 0);
    EncodeSmall(1, 1, 1);
    EncodeSmall(last, 0, 0);
    if last >= 2 {
      SpreadMonotone(2, last);
    } else {
      forall x: u32, y: u32, z: u32 | x <= MAX_COORDINATE && y <= MAX_COORDINATE && z <= MAX_COORDINATE
                                      && Encode(x, y, z) <= Encode(last, 0, 0)
        ensures x <= last && y == 0 && z == 0
      {
        ShortRow(last, x, y, z);
      }
    }
  }

  lemma EncodeSmall(x: u32, y: u32, z: u32)
    requires x < 0x20_0000 && y < 0x20_0000 && z < 0x20_0000
    ensures Encode(x, y, z) == Spread(x) + 2 * Spread(y) + 4 * Spread(z)
  {
    hide *;
    Within21Bits(x);
    Within21Bits(y);
    Within21Bits(z);
  }

  lemma Within21Bits(x: u32)
    requires x < 0x20_0000
    ensures x % 0x20_0000 == x
  {
  }

  lemma ShortRow(last: u32, x: u32, y: u32, z: u32)
    requires last < 2 && x < 0x20_0000 && y < 0x20_0000 && z < 0x20_0000
    requires Encode(x, y, z) <= Encode(last, 0, 0)
    ensures x <= last && y == 0 && z == 0
  {
    hide *;
    SpreadsOfSmall();
    EncodeSmall(x, y, z);
    EncodeSmall(last, 0, 0);
    if y > 0 { SpreadMonotone(1, y); }
    if z > 0 { SpreadMonotone(1, z); }
    if x > last { SpreadMonotone(last, x); }
  }

  lemma SpreadsOfSmall()
    ensures Spread(0) == 0 && Spread(1) == 1 && Spread(2) == 8
  {
    assert Spread(2) == 8 * Spread(1);
  }

  /** Points of the span have the same code only if they are the same point. */
  lemma CodesDistinct(p: Point, q: Point)
    requires InSpan(p.x) && InSpan(p.y) && InSpan(p.z) && InSpan(q.x) && InSpan(q.y) && InSpan(q.z)
    ensures Code(p) == Code(q) ==> p == q
  {
    hide EncodeSigned, DecodeSigned;
    SignedRoundTrip(p.x, p.y, p.z);
    SignedRoundTrip(q.x, q.y, q.z);
  }
}
