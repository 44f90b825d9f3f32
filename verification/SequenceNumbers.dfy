/**
 16-bit wrapping sequence numbers and the unbounded numbers behind them. `Wire(i)` is what
 travels for the i-th packet; `Lift(near, s)` recovers the unbounded number of `s` from any
 reference that is less than 2^15 away.
 */
module SequenceNumbers {
  import opened Words

  const WINDOW := 0x8000

  function Wire(i: int): u16 { i % 0x1_0000 }

  function WrappingAdd(a: u16, b: u16): u16 { (a + b) % 0x1_0000 }

  function WrappingSub(a: u16, b: u16): u16 { (a - b) % 0x1_0000 }

  /** Reinterprets a 16-bit word as two's complement. */
  function AsI16(d: u16): int { if d < 0x8000 then d else d - 0x1_0000 }

  predicate IsNewer(a: u16, b: u16) { AsI16(WrappingSub(a, b)) > 0 }

  function Lift(near: int, s: u16): int { near + AsI16(WrappingSub(s, Wire(near))) }

  lemma WireSub(i: int, j: int)
    ensures WrappingSub(Wire(i), Wire(j)) == Wire(i - j)
  {
    var a, b := i / 0x1_0000, j / 0x1_0000;
    assert Wire(i) - Wire(j) == i - j - 0x1_0000 * (a - b);
  }

  lemma WireNext(i: int)
    ensures WrappingAdd(Wire(i), 1) == Wire(i + 1)
  {
  }

  /** Circular comparison agrees with the order of the unbounded numbers within 2^15. */
  lemma IsNewerIsGreater(i: int, j: int)
    requires Abs(i - j) < WINDOW
    ensures IsNewer(Wire(i), Wire(j)) <==> i > j
    ensures Wire(i) == Wire(j) <==> i == j
    ensures i >= j ==> WrappingSub(Wire(i), Wire(j)) == i - j
  {
    WireSub(i, j);
  }

  lemma LiftWire(near: int, i: int)
    requires -WINDOW <= i - near < WINDOW
    ensures Lift(near, Wire(i)) == i
  {
    WireSub(i, near);
  }

  lemma WireOf(q: int, r: u16)
    ensures Wire(0x1_0000 * q + r) == r
  {
  }

  lemma WireLift(near: int, s: u16)
    ensures Wire(Lift(near, s)) == s
    ensures -WINDOW <= Lift(near, s) - near < WINDOW
  {
    var w := Wire(near);
    var d, a, k := WrappingSub(s, w), near / 0x1_0000, (s - w) / 0x1_0000;
    assert near + d == 0x1_0000 * (a - k) + s;
    WireOf(a - k, s);
    WireOf(a - k - 1, s);
    hide Wire, WrappingSub;
  }
}
