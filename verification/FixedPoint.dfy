/**
 32.32 fixed-point arithmetic on raw 64-bit integers: saturating operations, the digit-by-digit
 square root with its exact-floor guarantee, and vector magnitude.
 */
module FixedPoint {
  import opened Words
  import opened Bitwise

  const SCALE := 0x1_0000_0000

  function Saturate(x: int): i64 { Clamp(x, I64_MIN, I64_MAX) }

  function SaturatingAdd(a: i64, b: i64): i64 { Saturate(a + b) }

  function SaturatingSub(a: i64, b: i64): i64 { Saturate(a - b) }

  /** The 128-bit product shifted right by 32, rounding down. */
  function SaturatingMul(a: i64, b: i64): i64 { Saturate((a * b) / SCALE) }

  /** The 128-bit quotient, rounding toward zero; division by zero saturates by sign. */
  function SaturatingDiv(a: i64, b: i64): i64 {
    if b == 0 then (if a >= 0 then I64_MAX else I64_MIN)
    else Saturate(TruncDiv(a * SCALE, b))
  }

  /** `q` is the quotient x / b cut toward zero. */
  predicate CutQuotient(q: int, x: int, b: int) {
    && Abs(q * b) <= Abs(x) < Abs(q * b) + Abs(b)
    && (x >= 0 ==> q * b >= 0) && (x <= 0 ==> q * b <= 0)
  }

  /** The raw value that an operation with exact result x leaves. */
  predicate Saturates(x: int, r: i64) {
    if x > I64_MAX then r == I64_MAX else if x < I64_MIN then r == I64_MIN else r == x
  }

  /** Division cuts toward zero and saturates; by zero it gives the extreme of the dividend's sign. */
  lemma DividesTowardZero(a: i64, b: i64, q: int)
    requires b != 0 ==> CutQuotient(q, a * 0x1_0000_0000, b)
    ensures if b == 0 then SaturatingDiv(a, b) == (if a >= 0 then I64_MAX else I64_MIN)
            else Saturates(q, SaturatingDiv(a, b))
  {
    if b != 0 { CutIsTruncDiv(q, a * SCALE, b); }
    hide CutQuotient, TruncDiv;
  }

  lemma CutIsTruncDiv(q: int, x: int, b: int)
    requires b != 0 && CutQuotient(q, x, b)
    ensures q == TruncDiv(x, b)
  {
    hide CutQuotient, TruncDiv;
    CutMeans(q, x, b);
    AbsProduct(q, b);
    QuotientIs(x, b, Abs(q));
  }

  lemma QuotientIs(x: int, b: int, size: int)
    requires b != 0 && size >= 0 && size * Abs(b) <= Abs(x) < size * Abs(b) + Abs(b)
    ensures TruncDiv(x, b) == if (x >= 0) == (b > 0) then size else -size
  {
    var m: int, n: int := Abs(b), Abs(x);
    assert m * size == size * m;
    ModUnique(n, m, size, n - size * m);
  }

  lemma CutMeans(q: int, x: int, b: int)
    requires b != 0 && CutQuotient(q, x, b)
    ensures Abs(q * b) <= Abs(x) < Abs(q * b) + Abs(b)
    ensures q == if (x >= 0) == (b > 0) then Abs(q) else -Abs(q)
  {
    SignOfProduct(q, b);
  }

  lemma SignOfProduct(q: int, b: int)
    ensures b > 0 && q > 0 ==> q * b > 0
    ensures b > 0 && q < 0 ==> q * b < 0
    ensures b < 0 && q > 0 ==> q * b < 0
    ensures b < 0 && q < 0 ==> q * b > 0
  {
    if q > 0 && b < 0 {
      MulStep(-b, 0, q);
      assert q * b == -(-b * q);
    } else if q > 0 && b > 0 {
      MulStep(b, 0, q);
    } else if q < 0 && b < 0 {
      MulStep(-b, 0, -q);
      assert q * b == -b * -q;
    } else if q < 0 && b > 0 {
      MulStep(b, 0, -q);
      assert q * b == -(b * -q);
    }
  }

  lemma AbsProduct(a: int, b: int)
    ensures Abs(a * b) == Abs(a) * Abs(b)
  {
    if a < 0 && b < 0 {
      assert a * b == -a * -b;
      MulNonNegative(-a, -b);
    } else if a < 0 {
      assert a * b == -(-a * b);
      MulNonNegative(-a, b);
    } else if b < 0 {
      assert a * b == -(a * -b);
      MulNonNegative(a, -b);
    } else {
      MulNonNegative(a, b);
    }
  }

  /** Multiplication rounds down, toward minus infinity, and saturates. */
  lemma MultipliesDown(a: i64, b: i64, p: int)
    requires p * 0x1_0000_0000 <= a * b < (p + 1) * 0x1_0000_0000
    ensures Saturates(p, SaturatingMul(a, b))
  {
    assert a * b / SCALE == p;
  }

  function FromI32(v: int): i64
    requires -0x8000_0000 <= v < 0x8000_0000
  {
    v * SCALE
  }

  // ----- Square root -----

  /** `r` is the floor of the square root of `val`. */
  ghost predicate IsFloorRoot(r: int, val: int) {
    0 <= r && r * r <= val < (r + 1) * (r + 1)
  }

  lemma SquareMono(a: int, b: int)
    requires 0 <= a <= b
    ensures a * a <= b * b
  {
    var n := b - a;
    assert b * b == a * a + 2 * (n * a) + n * n;
    assert n * a >= 0;
  }

  /** The floor root is unique and monotone. */
  lemma RootMonotone(r: int, v: int, r': int, v': int)
    requires IsFloorRoot(r, v) && IsFloorRoot(r', v') && v <= v'
    ensures r <= r'
  {
    if r' < r { SquareMono(r' + 1, r); }
  }

  /** The index of the highest set bit, 127 minus the source's leading_zeros. */
  function HighestBit(v: nat): (n: nat)
    requires v > 0
    ensures Pow2(n) <= v < Pow2(n + 1)
  {
    if v == 1 then 0 else 1 + HighestBit(v / 2)
  }

  /** The state of the digit loop: s is the root so far, a multiple of the weight p still open. */
  ghost predicate Partial(root: int, remainder: int, s: int, p: int, val: int) {
    && s >= 0 && p > 0 && remainder >= 0
    && root == s * p
    && s * s + remainder == val < (s + p) * (s + p)
  }

  function Sq(x: int): int { x * x }

  /** One round at weight p = 2h: the root either gains h or not. */
  lemma DigitRound(root: int, remainder: int, s: int, h: int, val: int)
    requires h > 0 && Partial(root, remainder, s, 2 * h, val)
    ensures root >= 0 && Sq(h) > 0
    ensures remainder >= root + Sq(h) ==> Partial(root / 2 + Sq(h), remainder - (root + Sq(h)), s + h, h, val)
    ensures remainder < root + Sq(h) ==> Partial(root / 2, remainder, s, h, val)
  {
    var m := s * h;
    assert root == s * (2 * h) == 2 * m;
    assert (s + h) * (s + h) == s * s + 2 * m + h * h;
    assert (s + h) * h == m + h * h;
    assert (s + h) + h == s + 2 * h;
    assert m >= 0 && h * h > 0;
  }

  lemma QuarterOfSquare(j: nat)
    ensures Sq(Pow2(j)) / 4 == if j == 0 then 0 else Sq(Pow2(j - 1))
  {
    if j > 0 {
      var q := Pow2(j - 1);
      assert Pow2(j) * Pow2(j) == 4 * (q * q);
    }
  }

  /** The seed: the largest power of four not above the operand. */
  lemma SeedBit(val: nat, k: nat)
    requires val > 0 && k == HighestBit(val) / 2
    ensures Pow2(2 * k) == Sq(Pow2(k))
    ensures Partial(0, val, 0, 2 * Pow2(k), val)
  {
    Pow2Add(k, k);
    Pow2Add(k + 1, k + 1);
    Pow2Mono(HighestBit(val) + 1, 2 * k + 2);
  }

  lemma DigitsDone(root: int, remainder: int, s: int, val: int)
    requires Partial(root, remainder, s, 1, val)
    ensures IsFloorRoot(root, val)
  {
  }

  /** The bitmask loop: the exact floor of the square root of a 128-bit operand. */
  method IntegerRoot(val: nat) returns (root: nat)
    requires val > 0
    ensures IsFloorRoot(root, val)
  {
    hide Partial, Sq, Pow2, IsFloorRoot;
    var shift := HighestBit(val) / 2 * 2;
    ghost var j: nat := HighestBit(val) / 2;
    SeedBit(val, j);
    root := 0;
    var bit: int := Pow2(shift);
    var remainder: int := val;
    ghost var s: int, p: int, more := 0, 2 * Pow2(j), true;
    while bit != 0
      invariant Partial(root, remainder, s, p, val)
      invariant more ==> p == 2 * Pow2(j) && bit == Sq(Pow2(j))
      invariant !more ==> p == 1 && bit == 0
      decreases if more then j + 1 else 0
    {
      ghost var h := Pow2(j);
      DigitRound(root, remainder, s, h, val);
      QuarterOfSquare(j);
      WeightHalves(j);
      var sum := root + bit;
      if remainder >= sum {
        remainder := remainder - sum;
        root := root / 2 + bit;
        s := s + h;
      } else {
        root := root / 2;
      }
      bit := bit / 4;
      p := h;
      if j > 0 { j := j - 1; } else { more := false; }
    }
    if more { SquarePositive(Pow2(j)); }
    DigitsDone(root, remainder, s, val);
  }

  lemma WeightHalves(j: nat)
    ensures Pow2(j) == if j == 0 then 1 else 2 * Pow2(j - 1)
  {
  }

  lemma SquarePositive(h: int)
    requires h > 0
    ensures Sq(h) > 0
  {
  }

  /** A root of at most 2^63 * 2^32 is far below the saturation value. */
  lemma RootIsSmall(r: int, x: i64)
    requires x > 0 && 0 <= r && r * r <= x * SCALE
    ensures r < 0x1_0000_0000_0000 <= I64_MAX
  {
    if r >= 0x1_0000_0000_0000 { SquareMono(0x1_0000_0000_0000, r); }
  }

  /** Exact floor: the clamp at the end never acts. */
  method Sqrt(x: i64) returns (r: i64)
    ensures x <= 0 ==> r == 0
    ensures x > 0 ==> IsFloorRoot(r, x * SCALE)
  {
    if x <= 0 {
      return 0;
    }
    var root := IntegerRoot(x * SCALE);
    RootIsSmall(root, x);
    r := Min(root, I64_MAX);
  }

  // ----- Magnitude -----

  datatype Vec3 = Vec3(x: i64, y: i64, z: i64)

  function Dot(a: Vec3, b: Vec3): i64 {
    SaturatingAdd(SaturatingAdd(SaturatingMul(a.x, b.x), SaturatingMul(a.y, b.y)), SaturatingMul(a.z, b.z))
  }

  /** The square of the true length, in raw units. */
  function TrueSquare(v: Vec3): nat {
    SquareNonNegative(v.x);
    SquareNonNegative(v.y);
    SquareNonNegative(v.z);
    v.x * v.x + v.y * v.y + v.z * v.z
  }

  lemma SquareNonNegative(a: int)
    ensures a * a >= 0
  {
    if a < 0 { assert a * a == (-a) * (-a); }
  }

  lemma DotBound(v: Vec3)
    ensures 0 <= Dot(v, v) && Dot(v, v) * SCALE <= TrueSquare(v)
    ensures Dot(v, v) == Min(v.x * v.x / SCALE + v.y * v.y / SCALE + v.z * v.z / SCALE, I64_MAX)
    ensures v.x * v.x / SCALE + v.y * v.y / SCALE + v.z * v.z / SCALE <= I64_MAX ==>
              TrueSquare(v) < (Dot(v, v) + 3) * SCALE
  {
    SquareNonNegative(v.x);
    SquareNonNegative(v.y);
    SquareNonNegative(v.z);
    var a, b, c := v.x * v.x, v.y * v.y, v.z * v.z;
    assert SaturatingMul(v.x, v.x) == Min(a / SCALE, I64_MAX);
    assert SaturatingMul(v.y, v.y) == Min(b / SCALE, I64_MAX);
    assert SaturatingMul(v.z, v.z) == Min(c / SCALE, I64_MAX);
  }

  /**
   The magnitude is the exact floor root of the sum of the rounded squares, cut off at the largest
   raw value. It never exceeds the true length; when the squares fit it falls short by less
   than one unit of the root plus the three roundings of the products.
   */
  method Magnitude(v: Vec3) returns (r: i64)
    ensures 0 <= r && r * r <= TrueSquare(v)
    ensures IsFloorRoot(r, Min(v.x * v.x / SCALE + v.y * v.y / SCALE + v.z * v.z / SCALE, I64_MAX) * SCALE)
    ensures v.x * v.x / SCALE + v.y * v.y / SCALE + v.z * v.z / SCALE <= I64_MAX ==>
              TrueSquare(v) < (r + 1) * (r + 1) + 3 * SCALE
  {
    DotBound(v);
    r := Sqrt(Dot(v, v));
  }
}
