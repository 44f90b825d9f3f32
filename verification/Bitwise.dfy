/**
 Bitwise operations on unbounded naturals, each defined one binary digit at a time, and
 the lemmas that say what every operation does to bit `k`. A word of width n is a natural
 below Pow2(n); a shift that drops high bits is written `Shl(w, d) % Pow2(n)`.
 */
module Bitwise {

  function Pow2(n: nat): (p: nat)
    ensures p > 0
  {
    if n == 0 then 1 else 2 * Pow2(n - 1)
  }

  /** Bit `k` of `w`, bit 0 being the least significant. */
  predicate Bit(w: nat, k: nat) {
    if k == 0 then w % 2 == 1 else Bit(w / 2, k - 1)
  }

  function B2N(b: bool): nat { if b then 1 else 0 }

  function Or(a: nat, b: nat): nat
    decreases a + b
  {
    if a == 0 && b == 0 then 0
    else B2N(a % 2 == 1 || b % 2 == 1) + 2 * Or(a / 2, b / 2)
  }

  function And(a: nat, b: nat): nat
    decreases a + b
  {
    if a == 0 && b == 0 then 0
    else B2N(a % 2 == 1 && b % 2 == 1) + 2 * And(a / 2, b / 2)
  }

  function Shl(w: nat, n: nat): nat {
    if n == 0 then w else 2 * Shl(w, n - 1)
  }

  function Shr(w: nat, n: nat): nat {
    if n == 0 then w else Shr(w / 2, n - 1)
  }

  /** The complement of `w` within a word of `n` bits. */
  function Not(w: nat, n: nat): nat
    requires w < Pow2(n)
  {
    Pow2(n) - 1 - w
  }

  lemma {:induction false} BitZero(k: nat)
    ensures !Bit(0, k)
  {
    if k > 0 { BitZero(k - 1); }
  }

  lemma {:induction false} BitOr(a: nat, b: nat, k: nat)
    ensures Bit(Or(a, b), k) == (Bit(a, k) || Bit(b, k))
  {
    if a == 0 && b == 0 {
      BitZero(k);
    } else if k > 0 {
      BitOr(a / 2, b / 2, k - 1);
    }
  }

  lemma {:induction false} BitAnd(a: nat, b: nat, k: nat)
    ensures Bit(And(a, b), k) == (Bit(a, k) && Bit(b, k))
  {
    if a == 0 && b == 0 {
      BitZero(k);
    } else if k > 0 {
      BitAnd(a / 2, b / 2, k - 1);
    }
  }

  lemma {:induction false} BitShl(w: nat, n: nat, k: nat)
    ensures Bit(Shl(w, n), k) == (k >= n && Bit(w, k - n))
  {
    if n > 0 && k > 0 {
      BitShl(w, n - 1, k - 1);
    }
  }

  lemma {:induction false} BitShr(w: nat, n: nat, k: nat)
    ensures Bit(Shr(w, n), k) == Bit(w, n + k)
  {
    if n > 0 {
      BitShr(w / 2, n - 1, k);
    }
  }

  lemma {:induction false} HalfOfTrunc(w: nat, n: nat)
    requires n > 0
    ensures (w % Pow2(n)) / 2 == (w / 2) % Pow2(n - 1)
    ensures (w % Pow2(n)) % 2 == w % 2
  {
    var p := Pow2(n - 1);
    var q, r := w / Pow2(n), w % Pow2(n);
    assert w == 2 * (p * q) + r;
    assert w / 2 == p * q + r / 2;
    assert 0 <= r / 2 < p;
    ModUnique(w / 2, p, q, r / 2);
  }

  lemma MulNonNegative(p: nat, d: nat)
    ensures p * d >= 0
  {
  }

  lemma MulThree(p: int, a: int, d: int)
    ensures p * (a + 1 + d) == p * a + p + p * d
  {
  }

  lemma MulStep(p: int, a: int, b: int)
    requires 0 <= p && a < b
    ensures p * a + p <= p * b
  {
    var d := b - a - 1;
    MulNonNegative(p, d);
    MulThree(p, a, d);
    assert a + 1 + d == b;
  }

  /** Quotient and remainder are unique. */
  lemma {:induction false} ModUnique(w: int, p: int, q: int, r: int)
    requires 0 <= r < p && w == p * q + r
    ensures w % p == r && w / p == q
  {
    var q', r' := w / p, w % p;
    assert w == p * q' + r' && 0 <= r' < p;
    if q < q' {
      MulStep(p, q, q');
    } else if q' < q {
      MulStep(p, q', q);
    }
  }

  lemma {:induction false} BitTrunc(w: nat, n: nat, k: nat)
    ensures Bit(w % Pow2(n), k) == (k < n && Bit(w, k))
  {
    if n == 0 {
      BitZero(k);
    } else {
      HalfOfTrunc(w, n);
      if k > 0 { BitTrunc(w / 2, n - 1, k - 1); }
    }
  }

  /** A word below Pow2(n) has no bit set from n up. */
  lemma {:induction false} BitBound(w: nat, n: nat, k: nat)
    requires w < Pow2(n) && k >= n
    ensures !Bit(w, k)
  {
    if n == 0 {
      BitZero(k);
    } else {
      BitBound(w / 2, n - 1, k - 1);
    }
  }

  lemma {:induction false} BitPow2(m: nat, k: nat)
    ensures Bit(Pow2(m), k) == (k == m)
  {
    if m == 0 {
      if k > 0 { BitZero(k - 1); }
    } else if k > 0 {
      BitPow2(m - 1, k - 1);
    }
  }

  lemma {:induction false} BitNot(w: nat, n: nat, k: nat)
    requires w < Pow2(n) && k < n
    ensures Bit(Not(w, n), k) == !Bit(w, k)
  {
    assert Not(w, n) / 2 == Not(w / 2, n - 1);
    if k > 0 { BitNot(w / 2, n - 1, k - 1); }
  }

  lemma {:induction false} OrBound(a: nat, b: nat, n: nat)
    requires a < Pow2(n) && b < Pow2(n)
    ensures Or(a, b) < Pow2(n)
    decreases n
  {
    if n > 0 { OrBound(a / 2, b / 2, n - 1); }
  }

  lemma {:induction false} AndBound(a: nat, b: nat)
    ensures And(a, b) <= a && And(a, b) <= b
    decreases a + b
  {
    if !(a == 0 && b == 0) { AndBound(a / 2, b / 2); }
  }

  /** Two words that agree on every bit are equal. */
  lemma {:induction false} BitExt(a: nat, b: nat, n: nat)
    requires a < Pow2(n) && b < Pow2(n)
    requires forall k :: 0 <= k < n ==> Bit(a, k) == Bit(b, k)
    ensures a == b
  {
    if n > 0 {
      assert Bit(a, 0) == Bit(b, 0);
      forall k | 0 <= k < n - 1
        ensures Bit(a / 2, k) == Bit(b / 2, k)
      {
        assert Bit(a, k + 1) == Bit(b, k + 1);
      }
      BitExt(a / 2, b / 2, n - 1);
    }
  }

  lemma {:induction false} ShlIsMul(w: nat, n: nat)
    ensures Shl(w, n) == w * Pow2(n)
  {
    if n > 0 { ShlIsMul(w, n - 1); }
  }

  lemma HalfThenDiv(w: nat, p: nat)
    requires p > 0
    ensures (w / 2) / p == w / (2 * p)
  {
    var q, r := (w / 2) / p, (w / 2) % p;
    var m := p * q;
    assert w / 2 == m + r;
    assert (2 * p) * q == 2 * m;
    ModUnique(w, 2 * p, q, 2 * r + w % 2);
  }

  lemma {:induction false} ShrIsDiv(w: nat, n: nat)
    ensures Shr(w, n) == w / Pow2(n)
  {
    if n > 0 {
      ShrIsDiv(w / 2, n - 1);
      HalfThenDiv(w, Pow2(n - 1));
    }
  }

  /** Or of fields that share no bit is their sum. */
  lemma {:induction false} OrDisjoint(a: nat, b: nat, n: nat)
    requires a < Pow2(n)
    ensures Or(a, Shl(b, n)) == a + Shl(b, n)
    decreases n
  {
    if n == 0 {
      OrZero(b);
    } else {
      assert Shl(b, n) / 2 == Shl(b, n - 1);
      OrDisjoint(a / 2, b, n - 1);
    }
  }

  lemma {:induction false} OrZero(b: nat)
    ensures Or(0, b) == b
  {
    if b > 0 { OrZero(b / 2); }
  }

  lemma {:induction false} OrComm(a: nat, b: nat)
    ensures Or(a, b) == Or(b, a)
    decreases a + b
  {
    if !(a == 0 && b == 0) { OrComm(a / 2, b / 2); }
  }

  /** Masking with n low ones keeps the n low bits. */
  lemma {:induction false} AndMask(w: nat, n: nat)
    ensures And(w, Pow2(n) - 1) == w % Pow2(n)
    decreases n, w
  {
    if n == 0 {
      AndBound(w, 0);
    } else {
      HalfOfTrunc(w, n);
      assert (Pow2(n) - 1) / 2 == Pow2(n - 1) - 1;
      AndMask(w / 2, n - 1);
    }
  }

  lemma {:induction false} Pow2Add(m: nat, n: nat)
    ensures Pow2(m + n) == Pow2(m) * Pow2(n)
  {
    hide *;
    if m == 0 {
      Pow2Steps(0);
    } else {
      Pow2Add(m - 1, n);
      Pow2Steps(m - 1);
      Pow2Steps(m - 1 + n);
      DoubleFactor(Pow2(m - 1), Pow2(n));
    }
  }

  lemma Pow2Steps(m: nat)
    ensures Pow2(m + 1) == 2 * Pow2(m) && Pow2(0) == 1
  {
  }

  lemma DoubleFactor(a: int, b: int)
    ensures 2 * (a * b) == (2 * a) * b
  {
  }

  lemma {:induction false} Pow2Mono(m: nat, n: nat)
    requires m <= n
    ensures Pow2(m) <= Pow2(n)
  {
    if m < n { Pow2Mono(m, n - 1); }
  }

  /** The source's test `(w & (1 << d)) != 0` reads bit d. */
  lemma SingleBitTest(w: nat, d: nat)
    ensures And(w, Shl(1, d)) != 0 <==> Bit(w, d)
  {
    var a := And(w, Shl(1, d));
    ShlIsMul(1, d);
    forall k
      ensures Bit(a, k) <==> k == d && Bit(w, k)
      ensures !Bit(0, k)
    {
      BitAnd(w, Pow2(d), k);
      BitPow2(d, k);
      BitZero(k);
    }
    if !Bit(w, d) {
      AndBound(w, Pow2(d));
      BitExt(a, 0, d + 1);
    }
  }

  lemma Pow2Small()
    ensures Pow2(1) == 2 && Pow2(2) == 4 && Pow2(3) == 8 && Pow2(4) == 16
    ensures Pow2(5) == 32 && Pow2(6) == 64 && Pow2(7) == 128 && Pow2(8) == 256
  {
    assert Pow2(4) == 16;
  }

  lemma Pow2Values()
    ensures Pow2(8) == 256
    ensures Pow2(16) == 0x1_0000 && Pow2(32) == 0x1_0000_0000
    ensures Pow2(64) == 0x1_0000_0000_0000_0000
  {
    Pow2Small();
    Pow2Add(8, 8);
    assert Pow2(16) == 256 * 256;
    Pow2Add(16, 16);
    assert Pow2(32) == 0x1_0000 * 0x1_0000;
    Pow2Add(32, 32);
  }

  // ----- Bit fields -----

  /** `w & (2^n - 1)`: the n low bits. */
  function Low(w: nat, n: nat): (r: nat)
    ensures r == w % Pow2(n)
  {
    AndMask(w, n);
    And(w, Pow2(n) - 1)
  }

  /** `w >> n`: what is above the n low bits. */
  function High(w: nat, n: nat): (r: nat)
    ensures r == w / Pow2(n)
  {
    ShrIsDiv(w, n);
    Shr(w, n)
  }

  /** `lo | (hi << n)` for a field `lo` of n bits. */
  function Join(lo: nat, n: nat, hi: nat): (r: nat)
    requires lo < Pow2(n)
    ensures r == lo + hi * Pow2(n)
  {
    OrDisjoint(lo, hi, n);
    ShlIsMul(hi, n);
    Or(lo, Shl(hi, n))
  }

  /** A joined word comes apart into its fields. */
  lemma FieldsApart(lo: nat, n: nat, hi: nat, m: nat)
    requires lo < Pow2(n) && hi < Pow2(m)
    ensures var w := Join(lo, n, hi); Low(w, n) == lo && High(w, n) == hi && w < Pow2(n + m)
  {
    hide Pow2, Low, High, Join;
    var p := Pow2(n);
    assert hi * p == p * hi;
    ModUnique(lo + hi * p, p, hi, lo);
    Pow2Add(n, m);
    MulStep(p, hi, Pow2(m));
  }

  lemma TwoLevelDiv(w: nat, p: nat, q: nat)
    requires p > 0 && q > 0
    ensures p * q > 0 && w % (p * q) == w % p + ((w / p) % q) * p
  {
    var a, u := w % p, w / p;
    var b, c := u % q, u / q;
    var t := q * c;
    assert w == p * u + a && u == t + b;
    assert p * u == p * t + p * b;
    assert p * t == (p * q) * c;
    MulStep(p, b, q);
    assert p * b == b * p;
    ModUnique(w, p * q, c, a + b * p);
  }

  /** Two adjacent fields of a word, joined again, are the low part of the word. */
  lemma FieldsTogether(w: nat, n: nat, m: nat)
    ensures Low(w, n) < Pow2(n) && Low(High(w, n), m) < Pow2(m)
    ensures Join(Low(w, n), n, Low(High(w, n), m)) == Low(w, n + m)
  {
    hide Pow2, Low, High, Join;
    Pow2Add(n, m);
    TwoLevelDiv(w, Pow2(n), Pow2(m));
  }

  /** A word that fits in n bits is its own low part. */
  lemma LowWhole(w: nat, n: nat)
    requires w < Pow2(n)
    ensures Low(w, n) == w
  {
    hide Pow2, Low;
    ModUnique(w, Pow2(n), 0, w);
  }
}
