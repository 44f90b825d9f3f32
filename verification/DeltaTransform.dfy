/**
 Adaptive delta coding of transforms against a shared baseline. The encoder's tiers round and
 clamp; the result is that a sender and a receiver that both advance their baseline by the
 transmitted delta never drift apart, and stay within fixed bounds of the true position.
 */
module DeltaTransform {
  import opened Words
  import opened Bitwise
  import opened Quantization

  const TIER1_HORIZONTAL_STEP := 16
  const TIER1_VERTICAL_STEP := 2
  const TIER1_YAW_STEP := 4
  const TIER2_HORIZONTAL_STEP := 8
  const TIER2_VERTICAL_STEP := 2

  datatype Delta =
    | Stationary
    | Small(dx: i8, dz: i8, dy: i8, dyaw: i8)
    | Medium(dx: i8, dz: i8, dy: i8, yaw: u8)
    | Full(coord: CellCoord, yaw: u8, flags: u8)

  function AsI8(b: int): i8 { if b % 256 < 128 then b % 256 else b % 256 - 256 }

  /** Rounds to the nearest step, halves away from zero, with truncating division. */
  function RoundToStep(diff: int, step: int): int
    requires step > 0
  {
    TruncDiv(diff + (step / 2) * Signum(diff), step)
  }

  function Compute(base: CellCoord, baseYaw: u8, target: CellCoord, targetYaw: u8, flags: u8): Delta {
    if And(flags, FLAG_CELL_ANCHOR) != 0 then Full(target, targetYaw, flags)
    else
      var diffX, diffY, diffZ := target.x - base.x, target.y - base.y, target.z - base.z;
      var diffYaw := AsI8(targetYaw - baseYaw);
      if Abs(diffX) < TIER1_HORIZONTAL_STEP && Abs(diffZ) < TIER1_HORIZONTAL_STEP
         && Abs(diffY) < TIER1_VERTICAL_STEP && diffYaw == 0 then Stationary
      else
        var sx, sz := RoundToStep(diffX, TIER1_HORIZONTAL_STEP), RoundToStep(diffZ, TIER1_HORIZONTAL_STEP);
        var sy, syaw := RoundToStep(diffY, TIER1_VERTICAL_STEP), RoundToStep(diffYaw, TIER1_YAW_STEP);
        if -8 <= sx <= 7 && -8 <= sz <= 7 && -4 <= sy <= 3 && -4 <= syaw <= 3 then Small(sx, sz, sy, syaw)
        else
          var mx, mz := RoundToStep(diffX, TIER2_HORIZONTAL_STEP), RoundToStep(diffZ, TIER2_HORIZONTAL_STEP);
          var my := RoundToStep(diffY, TIER2_VERTICAL_STEP);
          if -128 <= mx <= 127 && -128 <= mz <= 127 && -32 <= my <= 31 then Medium(mx, mz, my, targetYaw)
          else Full(target, targetYaw, flags)
  }

  function Moved(base: CellCoord, dx: int, dy: int, dz: int): CellCoord {
    NewCoord(Clamp(base.x + dx, 0, 0xFFFF), Clamp(base.y + dy, 0, 4095), Clamp(base.z + dz, 0, 0xFFFF))
  }

  function Apply(d: Delta, base: CellCoord, baseYaw: u8): (CellCoord, u8, u8) {
    match d
    case Stationary => (base, baseYaw, 0)
    case Small(dx, dz, dy, dyaw) =>
      (Moved(base, dx * TIER1_HORIZONTAL_STEP, dy * TIER1_VERTICAL_STEP, dz * TIER1_HORIZONTAL_STEP),
       (baseYaw + dyaw * TIER1_YAW_STEP) % 256, 0)
    case Medium(dx, dz, dy, yaw) =>
      (Moved(base, dx * TIER2_HORIZONTAL_STEP, dy * TIER2_VERTICAL_STEP, dz * TIER2_HORIZONTAL_STEP), yaw, 0)
    case Full(coord, yaw, flags) => (coord, yaw, flags)
  }

  // ----- Byte form -----

  /** `(v + bias) as u16 & mask`: a signed step as an unsigned field of 3, 4 or 6 bits. */
  function Biased(v: i8, bias: nat, n: nat): (f: nat)
    requires n == 3 || n == 4 || n == 6
    ensures f == (v + bias) % (if n == 3 then 8 else if n == 4 then 16 else 64)
  {
    hide And, Or;
    Pow2Small();
    CutTwice(v + bias, 8, 8192);
    CutTwice(v + bias, 16, 4096);
    CutTwice(v + bias, 64, 1024);
    Low((v + bias) % 0x1_0000, n)
  }

  /** Cutting to 16 bits first does not disturb a shorter cut to m = 8, 16 or 64. */
  lemma CutTwice(x: int, m: nat, times: nat)
    requires m > 0 && m * times == 0x1_0000
    ensures (x % 0x1_0000) % m == x % m
  {
    var q, r: int := x / 0x1_0000, (x % 0x1_0000) % m;
    var p: int := (x % 0x1_0000) / m;
    assert x == m * times * q + m * p + r;
    assert m * times * q + m * p == m * (times * q + p);
    ModUnique(x, m, times * q + p, r);
  }

  /** The four fields of a small delta as the wire carries them. */
  function SmallWire(dx: i8, dz: i8, dy: i8, dyaw: i8): (f: (nat, nat, nat, nat))
    ensures f.0 < 16 && f.1 < 16 && f.2 < 8 && f.3 < 8
  {
    (Biased(dx, 8, 4), Biased(dz, 8, 4), Biased(dy, 4, 3), Biased(dyaw, 4, 3))
  }

  /** The little-endian word of a small delta: tag, dx, dz, dy and dyaw from the low bits up. */
  function SmallWord(dx: i8, dz: i8, dy: i8, dyaw: i8): (w: u16)
  {
    var (a, b, c, d) := SmallWire(dx, dz, dy, dyaw);
    SmallFields(a, b, c, d);
    Join(Join(Join(Join(1, 2, a), 6, b), 10, c), 13, d)
  }

  lemma Pow2Wide()
    ensures Pow2(10) == 1024 && Pow2(13) == 8192
  {
    Pow2Small();
    Pow2Add(8, 2);
    Pow2Add(8, 5);
  }

  function Packed(d: Delta): (b: seq<u8>)
    ensures |b| == match d {
              case Stationary => 1 case Small(_, _, _, _) => 2 case Medium(_, _, _, _) => 4 case Full(_, _, _) => 8 }
  {
    Pow2Small();
    match d
    case Stationary => [0]
    case Small(dx, dz, dy, dyaw) =>
      var w := SmallWord(dx, dz, dy, dyaw);
      [Low(w, 8), Low(High(w, 8), 8)]
    case Medium(dx, dz, dy, yaw) =>
      [Join(2, 2, Biased(dy, 32, 6)), dx % 256, dz % 256, yaw]
    case Full(coord, yaw, flags) =>
      [Join(3, 2, Low(flags, 4))] + PackTactical(coord, yaw, flags)
  }

  function UnpackedSmall(w: nat): Delta {
    Pow2Small();
    Small(Low(High(w, 2), 4) - 8, Low(High(w, 6), 4) - 8, Low(High(w, 10), 3) - 4, Low(High(w, 13), 3) - 4)
  }

  function UnpackedMedium(b0: u8, b1: u8, b2: u8, b3: u8): Delta {
    Pow2Small();
    Medium(AsI8(b1), AsI8(b2), Low(High(b0, 2), 6) - 32, b3)
  }

  function UnpackedFull(b: seq<u8>): Delta
    requires |b| == 7
  {
    var (coord, yaw, flags) := UnpackTactical(b);
    Full(coord, yaw, flags)
  }

  function Unpacked(s: seq<u8>): Option<(Delta, nat)> {
    Pow2Small();
    if s == [] then None
    else
      var tag := Low(s[0], 2);
      if tag == 0 then Some((Stationary, 1))
      else if tag == 1 then
        if |s| < 2 then None else Some((UnpackedSmall(Join(s[0], 8, s[1])), 2))
      else if tag == 2 then
        if |s| < 4 then None else Some((UnpackedMedium(s[0], s[1], s[2], s[3]), 4))
      else
        if |s| < 8 then None else Some((UnpackedFull(s[1..8]), 8))
  }

  /** The deltas that survive the wire unchanged. */
  predicate InRange(d: Delta) {
    match d
    case Stationary => true
    case Small(dx, dz, dy, dyaw) => -8 <= dx <= 7 && -8 <= dz <= 7 && -4 <= dy <= 3 && -4 <= dyaw <= 3
    case Medium(_, _, dy, _) => -32 <= dy <= 31
    case Full(coord, _, flags) => IsValid(coord) && flags < 16
  }

  function Sent(d: Delta): Delta {
    match d
    case Stationary => d
    case Small(dx, dz, dy, dyaw) => Small((dx + 8) % 16 - 8, (dz + 8) % 16 - 8, (dy + 4) % 8 - 4, (dyaw + 4) % 8 - 4)
    case Medium(dx, dz, dy, yaw) => Medium(dx, dz, (dy + 32) % 64 - 32, yaw)
    case Full(coord, yaw, flags) => Full(coord.(y := coord.y % 0x1000), yaw, flags % 16)
  }

  /** The field of m bits at bit n of a word laid out as below, field, above. */
  lemma FieldAt(w: nat, n: nat, m: nat, below: nat, field: nat, above: nat)
    requires below < Pow2(n) && field < Pow2(m)
    requires w == Pow2(n) * (Pow2(m) * above + field) + below
    ensures Low(High(w, n), m) == field
  {
    hide Pow2, Low, High;
    ModUnique(w, Pow2(n), Pow2(m) * above + field, below);
    ModUnique(Pow2(m) * above + field, Pow2(m), above, field);
  }

  lemma SmallFields(a: nat, b: nat, c: nat, d: nat)
    requires a < 16 && b < 16 && c < 8 && d < 8
    ensures Pow2(2) == 4 && Pow2(6) == 64 && Pow2(10) == 1024 && Pow2(13) == 8192
    ensures Join(1, 2, a) < 64 && Join(Join(1, 2, a), 6, b) < 1024
    ensures Join(Join(Join(1, 2, a), 6, b), 10, c) < 8192
    ensures var w := Join(Join(Join(Join(1, 2, a), 6, b), 10, c), 13, d);
            && w < 0x1_0000 && Low(w, 2) == 1
            && Low(High(w, 2), 4) == a && Low(High(w, 6), 4) == b
            && Low(High(w, 10), 3) == c && Low(High(w, 13), 3) == d
  {
    Pow2Small();
    Pow2Wide();
    hide Pow2, Low, High, Join;
    assert Join(1, 2, a) == 1 + 4 * a;
    assert Join(Join(1, 2, a), 6, b) == 1 + 4 * a + 64 * b;
    assert Join(Join(Join(1, 2, a), 6, b), 10, c) == 1 + 4 * a + 64 * b + 1024 * c;
    var w := 1 + 4 * a + 64 * b + 1024 * c + 8192 * d;
    assert Join(Join(Join(Join(1, 2, a), 6, b), 10, c), 13, d) == w;
    FieldAt(w, 2, 4, 1, a, b + 16 * c + 128 * d);
    FieldAt(w, 6, 4, 1 + 4 * a, b, c + 8 * d);
    FieldAt(w, 10, 3, 1 + 4 * a + 64 * b, c, d);
    FieldAt(w, 13, 3, 1 + 4 * a + 64 * b + 1024 * c, d, 0);
    ModUnique(w, 4, a + 16 * b + 256 * c + 2048 * d, 1);
  }

  lemma SmallWordFields(dx: i8, dz: i8, dy: i8, dyaw: i8)
    ensures var w := SmallWord(dx, dz, dy, dyaw);
            Low(w, 2) == 1 && UnpackedSmall(w) == Sent(Small(dx, dz, dy, dyaw))
  {
    hide *;
    var (a, b, c, d) := SmallWire(dx, dz, dy, dyaw);
    SmallWireIs(dx, dz, dy, dyaw);
    SmallWordIs(dx, dz, dy, dyaw);
    SmallFields(a, b, c, d);
    UnpackedSmallIs(SmallWord(dx, dz, dy, dyaw), a, b, c, d);
    SentSmallIs(dx, dz, dy, dyaw);
  }

  lemma SmallWireIs(dx: i8, dz: i8, dy: i8, dyaw: i8)
    ensures SmallWire(dx, dz, dy, dyaw) == ((dx + 8) % 16, (dz + 8) % 16, (dy + 4) % 8, (dyaw + 4) % 8)
  {
    hide Biased;
  }

  lemma SmallWordIs(dx: i8, dz: i8, dy: i8, dyaw: i8)
    ensures var (a, b, c, d) := SmallWire(dx, dz, dy, dyaw);
            && Join(1, 2, a) < Pow2(6) && Join(Join(1, 2, a), 6, b) < Pow2(10) && 1 < Pow2(2)
            && Join(Join(Join(1, 2, a), 6, b), 10, c) < Pow2(13)
            && SmallWord(dx, dz, dy, dyaw) == Join(Join(Join(Join(1, 2, a), 6, b), 10, c), 13, d)
  {
    var (a, b, c, d) := SmallWire(dx, dz, dy, dyaw);
    hide SmallWire, Join, Low, High, Pow2;
    SmallFields(a, b, c, d);
  }

  lemma UnpackedSmallIs(w: nat, a: nat, b: nat, c: nat, d: nat)
    requires Low(High(w, 2), 4) == a < 16 && Low(High(w, 6), 4) == b < 16
    requires Low(High(w, 10), 3) == c < 8 && Low(High(w, 13), 3) == d < 8
    ensures UnpackedSmall(w) == Small(a as int - 8, b as int - 8, c as int - 4, d as int - 4)
  {
    hide Low, High;
  }

  lemma SentSmallIs(dx: i8, dz: i8, dy: i8, dyaw: i8)
    ensures Sent(Small(dx, dz, dy, dyaw))
            == Small((dx + 8) % 16 - 8, (dz + 8) % 16 - 8, (dy + 4) % 8 - 4, (dyaw + 4) % 8 - 4)
  {
  }

  lemma SmallRoundTrip(dx: i8, dz: i8, dy: i8, dyaw: i8, rest: seq<u8>)
    ensures Unpacked(Packed(Small(dx, dz, dy, dyaw)) + rest) == Some((Sent(Small(dx, dz, dy, dyaw)), 2))
  {
    hide Pow2, Low, High, Join, SmallWord, UnpackedSmall, Sent;
    Pow2Small();
    Pow2Values();
    var w := SmallWord(dx, dz, dy, dyaw);
    SmallWordFields(dx, dz, dy, dyaw);
    FieldsTogether(w, 8, 8);
    LowWhole(w, 16);
    TagOfLowByte(w);
    var s := Packed(Small(dx, dz, dy, dyaw)) + rest;
    assert s[0] == Low(w, 8) && s[1] == Low(High(w, 8), 8) && |s| >= 2;
  }

  lemma TagOfLowByte(w: nat)
    ensures Low(Low(w, 8), 2) == Low(w, 2)
  {
    Pow2Small();
    hide Pow2, Low;
    TwoLevelDiv(w, 4, 64);
    ModUnique(w % 256, 4, (w / 4) % 64, w % 4);
  }

  lemma MediumBytes(dx: i8, dz: i8, dy: i8, yaw: u8)
    ensures Biased(dy, 32, 6) < 64 && Pow2(2) == 4
    ensures var b0 := Join(2, 2, Biased(dy, 32, 6));
            && b0 < 256 && Low(b0, 2) == 2
            && UnpackedMedium(b0, dx % 256, dz % 256, yaw) == Sent(Medium(dx, dz, dy, yaw))
  {
    Pow2Small();
    hide Pow2, Low, High, Join, Biased;
    FieldsApart(2, 2, Biased(dy, 32, 6), 6);
    LowWhole(Biased(dy, 32, 6), 6);
  }

  lemma MediumRoundTrip(dx: i8, dz: i8, dy: i8, yaw: u8, rest: seq<u8>)
    ensures Unpacked(Packed(Medium(dx, dz, dy, yaw)) + rest) == Some((Sent(Medium(dx, dz, dy, yaw)), 4))
  {
    hide Pow2, Low, High, Join, UnpackedMedium, Sent, Biased;
    MediumBytes(dx, dz, dy, yaw);
    var s := Packed(Medium(dx, dz, dy, yaw)) + rest;
    assert s[0] == Join(2, 2, Biased(dy, 32, 6)) && |s| >= 4;
    assert s[1] == dx % 256 && s[2] == dz % 256 && s[3] == yaw;
  }

  lemma FullRoundTrip(coord: CellCoord, yaw: u8, flags: u8, rest: seq<u8>)
    ensures Unpacked(Packed(Full(coord, yaw, flags)) + rest) == Some((Sent(Full(coord, yaw, flags)), 8))
  {
    Pow2Small();
    hide Pow2, Low, High, Join, PackTactical, UnpackTactical;
    FieldsApart(3, 2, Low(flags, 4), 4);
    TacticalRoundTrip(coord, yaw, flags);
    var s := Packed(Full(coord, yaw, flags)) + rest;
    assert s[0] == Join(3, 2, Low(flags, 4));
    assert s[1..8] == PackTactical(coord, yaw, flags);
  }

  /** Unpacking a packed delta, whatever follows it, gives the sent form and its length. */
  lemma PackRoundTrip(d: Delta, rest: seq<u8>)
    ensures Unpacked(Packed(d) + rest) == Some((Sent(d), |Packed(d)|))
  {
    match d {
      case Stationary => Pow2Small(); assert (Packed(d) + rest)[0] == 0; LowWhole(0, 2);
      case Small(dx, dz, dy, dyaw) => SmallRoundTrip(dx, dz, dy, dyaw, rest);
      case Medium(dx, dz, dy, yaw) => MediumRoundTrip(dx, dz, dy, yaw, rest);
      case Full(coord, yaw, flags) => FullRoundTrip(coord, yaw, flags, rest);
    }
  }

  lemma SentExactlyInRange(d: Delta)
    ensures Sent(d) == d <==> InRange(d)
  {
  }

  /** Writes the packed bytes at the front of `out`, or nothing when they do not fit. */
  method PackToSlice(d: Delta, out: array<u8>) returns (n: Option<nat>)
    modifies out
    ensures n == if out.Length < |Packed(d)| then None else Some(|Packed(d)|)
    ensures n.None? ==> out[..] == old(out[..])
    ensures n.Some? ==> out[..n.value] == Packed(d) && out[n.value..] == old(out[n.value..])
  {
    var bytes := Packed(d);
    if out.Length < |bytes| {
      return None;
    }
    forall i | 0 <= i < |bytes| { out[i] := bytes[i]; }
    assert out[..|bytes|] == bytes;
    n := Some(|bytes|);
  }

  // ----- Closed-loop coding -----

  function CircularDistance(a: u8, b: u8): nat { Abs(AsI8(a - b)) }

  /** How far a reconstruction may be from the target, tier by tier. */
  predicate Close(d: Delta, got: CellCoord, gotYaw: u8, target: CellCoord, targetYaw: u8) {
    var h := match d {
      case Stationary => 15 case Small(_, _, _, _) => 8 case Medium(_, _, _, _) => 4 case Full(_, _, _) => 0 };
    var v := if d.Full? then 0 else 1;
    var y := if d.Small? then 2 else 0;
    && Abs(got.x - target.x) <= h && Abs(got.z - target.z) <= h
    && Abs(got.y - target.y) <= v && CircularDistance(gotYaw, targetYaw) <= y
  }

  /** Rounding leaves at most half a step. */
  lemma RoundError(diff: int, step: int)
    requires step == 16 || step == 8 || step == 4 || step == 2
    ensures Abs(RoundToStep(diff, step) * step - diff) <= step / 2
  {
  }

  lemma YawError(baseYaw: u8, targetYaw: u8)
    ensures var syaw := RoundToStep(AsI8(targetYaw - baseYaw), TIER1_YAW_STEP);
            CircularDistance((baseYaw + syaw * TIER1_YAW_STEP) % 256, targetYaw) <= 2
  {
    var diff := AsI8(targetYaw - baseYaw);
    RoundError(diff, 4);
    var turn := RoundToStep(diff, TIER1_YAW_STEP) * TIER1_YAW_STEP;
    var got := (baseYaw + turn) % 256;
    hide RoundToStep, AsI8;
    var k := AsI8Shift(targetYaw - baseYaw);
    var m := (baseYaw + turn) / 256;
    assert got - targetYaw == (turn - diff) - 256 * (k + m);
    AsI8OfShift(turn - diff, -(k + m));
  }

  lemma AsI8Shift(x: int) returns (k: int)
    ensures AsI8(x) == x - 256 * k
  {
    k := if x % 256 < 128 then x / 256 else x / 256 + 1;
  }

  lemma AsI8OfShift(e: int, m: int)
    requires -128 <= e < 128
    ensures AsI8(e + 256 * m) == e
  {
  }

  /** Clamping into the cell never takes a coordinate further from a target inside it. */
  lemma ClampCloser(a: int, target: int, most: int, error: int)
    requires 0 <= target <= most && Abs(a - target) <= error
    ensures Abs(Clamp(a, 0, most) - target) <= error
  {
  }

  lemma MovedClose(base: CellCoord, dx: int, dy: int, dz: int, target: CellCoord, h: int, v: int)
    requires IsValid(target)
    requires Abs(base.x + dx - target.x) <= h && Abs(base.z + dz - target.z) <= h && Abs(base.y + dy - target.y) <= v
    ensures var got := Moved(base, dx, dy, dz);
            && IsValid(got) && Abs(got.x - target.x) <= h && Abs(got.z - target.z) <= h && Abs(got.y - target.y) <= v
  {
    ClampCloser(base.x + dx, target.x, 0xFFFF, h);
    ClampCloser(base.z + dz, target.z, 0xFFFF, h);
    ClampCloser(base.y + dy, target.y, 4095, v);
  }

  /** Moving by the rounded steps lands within half a step on every axis. */
  lemma RoundedMoveClose(base: CellCoord, target: CellCoord, step: int)
    requires IsValid(target) && (step == 16 || step == 8)
    ensures var dx, dy, dz := RoundToStep(target.x - base.x, step), RoundToStep(target.y - base.y, 2),
                              RoundToStep(target.z - base.z, step);
            var got := Moved(base, dx * step, dy * 2, dz * step);
            && IsValid(got) && Abs(got.x - target.x) <= step / 2 && Abs(got.z - target.z) <= step / 2
            && Abs(got.y - target.y) <= 1
  {
    hide RoundToStep, Moved;
    RoundError(target.x - base.x, step);
    RoundError(target.z - base.z, step);
    RoundError(target.y - base.y, 2);
    MovedClose(base, RoundToStep(target.x - base.x, step) * step, RoundToStep(target.y - base.y, 2) * 2,
               RoundToStep(target.z - base.z, step) * step, target, step / 2, 1);
  }

  /** Applying the computed delta lands within the tier's bounds of the target. */
  lemma ComputeApplyClose(base: CellCoord, baseYaw: u8, target: CellCoord, targetYaw: u8, flags: u8)
    requires IsValid(base) && IsValid(target)
    ensures var d := Compute(base, baseYaw, target, targetYaw, flags);
            var (got, gotYaw, _) := Apply(d, base, baseYaw);
            Close(d, got, gotYaw, target, targetYaw) && IsValid(got)
    ensures var d := Compute(base, baseYaw, target, targetYaw, flags);
            InRange(d) || d == Full(target, targetYaw, flags)
  {
    hide And, RoundToStep, Moved;
    RoundedMoveClose(base, target, 16);
    RoundedMoveClose(base, target, 8);
    YawError(baseYaw, targetYaw);
    YawZero(baseYaw, targetYaw);
  }

  lemma YawZero(a: u8, b: u8)
    ensures AsI8(b - a) == 0 ==> CircularDistance(a, b) == 0
    ensures CircularDistance(b, b) == 0
  {
  }

  // ----- Which tier a move gets -----

  /** `n` steps come nearest to `diff`; of two equally near, the one further from zero. */
  predicate Nearest(n: int, diff: int, step: int) {
    && 2 * Abs(n * step - diff) <= step
    && (2 * Abs(n * step - diff) == step ==> Abs(n * step) > Abs(diff))
  }

  /** Multiples of the step within half a step of `a` >= 0 are the rounded-up quotient, or one below it on a tie. */
  lemma NearestUpwards(n: int, a: int, half: int, q: int)
    requires a >= 0 && half > 0 && q >= 0 && 2 * half * q <= a + half < 2 * half * q + 2 * half
    ensures Nearest(n, a, 2 * half) <==> n == q
  {
    var step := 2 * half;
    assert n * step == step * n && q * step == step * q;
    if n < q {
      MulStep(step, n, q);
      if n >= 0 { MulStep(step, -1, n); }
      if n < q - 1 { MulStep(step, n, q - 1); }
    } else if n > q {
      MulStep(step, q, n);
    }
  }

  lemma RoundsAsQuotient(diff: int, half: int)
    requires half == 8 || half == 4 || half == 2 || half == 1
    ensures var q := (Abs(diff) + half) / (2 * half);
            && q >= 0 && 2 * half * q <= Abs(diff) + half < 2 * half * q + 2 * half
            && RoundToStep(diff, 2 * half) == (if diff < 0 then -q else q)
  {
    var step, towards := 2 * half, half * Signum(diff);
    DividedEvenly(Abs(diff) + half, step);
    assert step / 2 == half;
    if diff == 0 {
      assert towards == 0;
      SmallQuotient(half, step);
      SmallQuotient(0, step);
    } else {
      assert Abs(diff + towards) == Abs(diff) + half;
    }
  }

  lemma DividedEvenly(a: int, m: int)
    requires a >= 0 && m > 0
    ensures a / m >= 0 && m * (a / m) <= a < m * (a / m) + m
  {
    assert a == m * (a / m) + a % m;
    if a / m < 0 { MulStep(m, a / m, 0); }
  }

  lemma SmallQuotient(a: int, m: int)
    requires 0 <= a < m
    ensures a / m == 0
  {
  }

  lemma NearestNegated(n: int, diff: int, step: int)
    ensures Nearest(n, diff, step) <==> Nearest(-n, -diff, step)
  {
    assert (-n) * step == -(n * step);
  }

  lemma RoundsToNearest(diff: int, step: int, n: int)
    requires step == 16 || step == 8 || step == 4 || step == 2
    ensures Nearest(n, diff, step) <==> n == RoundToStep(diff, step)
  {
    hide Nearest, RoundToStep;
    var half := step / 2;
    var q := (Abs(diff) + half) / (2 * half);
    RoundsAsQuotient(diff, half);
    NearestNegated(n, diff, step);
    NearestUpwards(if diff < 0 then -n else n, Abs(diff), half, q);
  }

  /** The turn in steps of the heading, the shorter way round. */
  predicate ShortTurn(turn: int, fromYaw: u8, toYaw: u8) {
    -128 <= turn < 128 && (fromYaw + turn - toYaw) % 256 == 0
  }

  lemma ShortTurnIs(turn: int, fromYaw: u8, toYaw: u8)
    ensures ShortTurn(turn, fromYaw, toYaw) <==> turn == AsI8(toYaw - fromYaw)
  {
    var d := AsI8(toYaw - fromYaw);
    var k := AsI8Shift(toYaw - fromYaw);
    assert fromYaw + d - toYaw == 256 * -k;
    assert (fromYaw + d - toYaw) % 256 == 0;
    if ShortTurn(turn, fromYaw, toYaw) {
      var m := (fromYaw + turn - toYaw) / 256;
      assert turn == toYaw - fromYaw + 256 * m;
    }
  }

  /** The anchor flag is bit 3. */
  lemma AnchorFlag(flags: u8)
    ensures And(flags, FLAG_CELL_ANCHOR) != 0 <==> Bit(flags, 3)
  {
    Pow2Small();
    ShlIsMul(1, 3);
    SingleBitTest(flags, 3);
  }

  /** A move too small to send. */
  predicate Still(x: int, y: int, z: int, turn: int) {
    Abs(x) < 16 && Abs(z) < 16 && Abs(y) < 2 && turn == 0
  }

  /** A move within a small delta. */
  predicate FitsSmall(x: int, y: int, z: int, turn: int) {
    -136 < x < 120 && -136 < z < 120 && -9 < y < 7 && -18 < turn < 14
  }

  /** A move within a medium delta. */
  predicate FitsMedium(x: int, y: int, z: int) {
    -1028 < x < 1020 && -1028 < z < 1020 && -65 < y < 63
  }

  /** Each interval holds exactly the moves whose rounded steps fit the fields. */
  lemma FitsExactly(x: int, y: int, z: int, turn: int)
    ensures FitsSmall(x, y, z, turn) <==>
              && -8 <= RoundToStep(x, 16) <= 7 && -8 <= RoundToStep(z, 16) <= 7
              && -4 <= RoundToStep(y, 2) <= 3 && -4 <= RoundToStep(turn, 4) <= 3
    ensures FitsMedium(x, y, z) <==>
              && -128 <= RoundToStep(x, 8) <= 127 && -128 <= RoundToStep(z, 8) <= 127
              && -32 <= RoundToStep(y, 2) <= 31
  {
  }

  /**
   The cheapest tier that holds the move is the one sent, and its fields are the nearest steps:
   one byte for a move inside the dead band, two while the steps of the small tier reach, four
   while those of the medium tier do, and eight beyond that or with the anchor flag.
   */
  lemma CheapestTier(base: CellCoord, baseYaw: u8, target: CellCoord, targetYaw: u8, flags: u8, turn: int)
    requires ShortTurn(turn, baseYaw, targetYaw)
    ensures var x, y, z := target.x - base.x, target.y - base.y, target.z - base.z;
            match Compute(base, baseYaw, target, targetYaw, flags) {
              case Stationary => !Bit(flags, 3) && Still(x, y, z, turn)
              case Small(dx, dz, dy, dyaw) =>
                && !Bit(flags, 3) && !Still(x, y, z, turn) && FitsSmall(x, y, z, turn)
                && Nearest(dx, x, 16) && Nearest(dz, z, 16) && Nearest(dy, y, 2) && Nearest(dyaw, turn, 4)
              case Medium(dx, dz, dy, yaw) =>
                && !Bit(flags, 3) && !Still(x, y, z, turn) && !FitsSmall(x, y, z, turn) && FitsMedium(x, y, z)
                && Nearest(dx, x, 8) && Nearest(dz, z, 8) && Nearest(dy, y, 2) && yaw == targetYaw
              case Full(coord, yaw, f) =>
                && (Bit(flags, 3)
                    || (!Still(x, y, z, turn) && !FitsSmall(x, y, z, turn) && !FitsMedium(x, y, z)))
                && coord == target && yaw == targetYaw && f == flags
            }
  {
    var x, y, z := target.x - base.x, target.y - base.y, target.z - base.z;
    AnchorFlag(flags);
    ShortTurnIs(turn, baseYaw, targetYaw);
    FitsExactly(x, y, z, turn);
    forall n: int, diff: int, step: int | step == 16 || step == 8 || step == 4 || step == 2
      ensures Nearest(n, diff, step) <==> n == RoundToStep(diff, step)
    {
      RoundsToNearest(diff, step, n);
    }
    hide And, Bit, RoundToStep, AsI8, Nearest, FitsSmall, FitsMedium;
  }

  /** The number `at`, or the end of 0..most it lies beyond. */
  predicate HeldWithin(got: int, at: int, most: int) {
    if at < 0 then got == 0 else if at > most then got == most else got == at
  }

  /** Applying a delta moves each coordinate by its steps, held within the cell, and turns the heading modulo 256. */
  lemma AppliesExactly(d: Delta, base: CellCoord, baseYaw: u8)
    ensures var (got, gotYaw, flags) := Apply(d, base, baseYaw);
            match d {
              case Stationary => got == base && gotYaw == baseYaw && flags == 0
              case Small(dx, dz, dy, dyaw) =>
                && HeldWithin(got.x, base.x + 16 * dx, 65535) && HeldWithin(got.z, base.z + 16 * dz, 65535)
                && HeldWithin(got.y, base.y + 2 * dy, 4095) && (baseYaw + 4 * dyaw - gotYaw) % 256 == 0 && flags == 0
              case Medium(dx, dz, dy, yaw) =>
                && HeldWithin(got.x, base.x + 8 * dx, 65535) && HeldWithin(got.z, base.z + 8 * dz, 65535)
                && HeldWithin(got.y, base.y + 2 * dy, 4095) && gotYaw == yaw && flags == 0
              case Full(coord, yaw, f) => got == coord && gotYaw == yaw && flags == f
            }
  {
    if d.Small? {
      var turned := baseYaw + d.dyaw * 4;
      assert turned - turned % 256 == 256 * (turned / 256);
    }
  }

  datatype Update = Update(coord: CellCoord, yaw: u8, flags: u8)

  datatype Baseline = Baseline(coord: CellCoord, yaw: u8)

  /** The sender encodes against its baseline and advances it by what it encoded. */
  function SenderStep(b: Baseline, u: Update): (Baseline, seq<u8>) {
    var d := Compute(b.coord, b.yaw, u.coord, u.yaw, u.flags);
    var (coord, yaw, _) := Apply(d, b.coord, b.yaw);
    (Baseline(coord, yaw), Packed(d))
  }

  /** The receiver decodes the bytes and advances its own baseline. */
  function ReceiverStep(b: Baseline, bytes: seq<u8>): Baseline {
    match Unpacked(bytes)
    case None => b
    case Some((d, _)) => var (coord, yaw, _) := Apply(d, b.coord, b.yaw); Baseline(coord, yaw)
  }

  /** Both baselines after a run of updates, each sent to the receiver. */
  function ClosedLoop(start: Baseline, updates: seq<Update>): (Baseline, Baseline) {
    if updates == [] then (start, start)
    else
      var n := |updates| - 1;
      var (sender, receiver) := ClosedLoop(start, updates[..n]);
      var (sender', bytes) := SenderStep(sender, updates[n]);
      (sender', ReceiverStep(receiver, bytes))
  }

  lemma OneUpdate(b: Baseline, u: Update)
    requires IsValid(b.coord) && IsValid(u.coord)
    ensures var (b', bytes) := SenderStep(b, u);
            && ReceiverStep(b, bytes) == b' && IsValid(b'.coord)
            && Abs(b'.coord.x - u.coord.x) <= 15 && Abs(b'.coord.z - u.coord.z) <= 15
            && Abs(b'.coord.y - u.coord.y) <= 1 && CircularDistance(b'.yaw, u.yaw) <= 2
  {
    var d := Compute(b.coord, b.yaw, u.coord, u.yaw, u.flags);
    ComputeApplyClose(b.coord, b.yaw, u.coord, u.yaw, u.flags);
    hide Compute, Apply, Packed, Unpacked, CircularDistance, InRange;
    PackRoundTrip(d, []);
    assert Packed(d) + [] == Packed(d);
    SentAppliesAlike(d, b);
  }

  /** Masking on the wire may drop flag bits, but never moves the baseline. */
  lemma SentAppliesAlike(d: Delta, b: Baseline)
    requires (d.Full? && IsValid(d.coord)) || InRange(d)
    ensures Apply(Sent(d), b.coord, b.yaw).0 == Apply(d, b.coord, b.yaw).0
    ensures Apply(Sent(d), b.coord, b.yaw).1 == Apply(d, b.coord, b.yaw).1
  {
    if InRange(d) { SentExactlyInRange(d); }
    hide Moved;
  }

  /**
   Closed-loop coding does not drift: after any run of updates the two baselines are equal and
   within 15 horizontal units, 1 vertical unit and 2 yaw steps of the last target.
   */
  lemma {:induction false} NoDrift(start: Baseline, updates: seq<Update>)
    requires IsValid(start.coord) && forall u :: u in updates ==> IsValid(u.coord)
    ensures var (sender, receiver) := ClosedLoop(start, updates);
            && sender == receiver && IsValid(sender.coord)
            && (updates != [] ==>
                  var u := updates[|updates| - 1];
                  && Abs(sender.coord.x - u.coord.x) <= 15 && Abs(sender.coord.z - u.coord.z) <= 15
                  && Abs(sender.coord.y - u.coord.y) <= 1 && CircularDistance(sender.yaw, u.yaw) <= 2)
  {
    hide SenderStep, ReceiverStep, IsValid, CircularDistance;
    if updates != [] {
      var n := |updates| - 1;
      NoDrift(start, updates[..n]);
      assert updates[n] in updates;
      OneUpdate(ClosedLoop(start, updates[..n]).0, updates[n]);
      LoopStep(start, updates);
      hide ClosedLoop;
    }
  }

  lemma LoopStep(start: Baseline, updates: seq<Update>)
    requires updates != []
    ensures var n := |updates| - 1; var (sender, receiver) := ClosedLoop(start, updates[..n]);
            var (sender', bytes) := SenderStep(sender, updates[n]);
            ClosedLoop(start, updates) == (sender', ReceiverStep(receiver, bytes))
  {
    hide SenderStep, ReceiverStep;
  }
}
