/**
 Cell-relative quantisation: fixed-point positions to 16- and 12-bit cell offsets and back,
 locally and over the whole 64-bit world, and the 7-, 5- and 3-byte transform packers.
 */
module Quantization {
  import opened Words
  import opened Bitwise
  import opened FixedPoint

  const MAX_HORIZONTAL := 0xFFFF
  const MAX_VERTICAL := 0x0FFF
  const CELL_HORIZONTAL: i64 := 64 * SCALE
  const CELL_VERTICAL: i64 := 32 * SCALE
  const FLAG_CELL_ANCHOR: u8 := 8

  datatype CellCoord = CellCoord(x: u16, y: u16, z: u16)

  /** `QuantizedCellCoord::new` clamps the elevation. */
  function NewCoord(x: u16, y: u16, z: u16): CellCoord { CellCoord(x, Min(y, MAX_VERTICAL), z) }

  predicate IsValid(c: CellCoord) { c.y <= MAX_VERTICAL }

  // ----- Quantising one axis -----

  /** `(clamped >> shift) * max >> 32`, capped at `max`: shift 6 and 5 are cells of 64 and 32 metres. */
  function QuantizeAxis(local: i64, cell: i64, shift: nat, max: nat): (q: nat)
    requires cell >= 0
    ensures q <= max
  {
    var clamped := Clamp(local, 0, cell);
    var scaled := High(clamped, shift);
    Min(High(scaled * max, 32), max)
  }

  /** `from_i32(q) / from_i32(max) * cell` in saturating fixed point. */
  function DequantizeAxis(q: nat, max: nat, cell: i64): i64
    requires q <= max < 0x1_0000 && max > 0
  {
    SaturatingMul(SaturatingDiv(FromI32(q), FromI32(max)), cell)
  }

  function Quantize(x: i64, y: i64, z: i64): CellCoord {
    CellCoord(QuantizeAxis(x, CELL_HORIZONTAL, 6, MAX_HORIZONTAL),
              QuantizeAxis(y, CELL_VERTICAL, 5, MAX_VERTICAL),
              QuantizeAxis(z, CELL_HORIZONTAL, 6, MAX_HORIZONTAL))
  }

  function Dequantize(c: CellCoord): Vec3 {
    Vec3(DequantizeAxis(c.x, MAX_HORIZONTAL, CELL_HORIZONTAL),
         DequantizeAxis(ElevationOf(c), MAX_VERTICAL, CELL_VERTICAL),
         DequantizeAxis(c.z, MAX_HORIZONTAL, CELL_HORIZONTAL))
  }

  /** `y & 0x0FFF`. */
  function ElevationOf(c: CellCoord): (y: nat)
    ensures y == c.y % 0x1000 && y <= MAX_VERTICAL
  {
    assert Pow2(12) == 0x1000 by { Pow2Small(); Pow2Add(8, 4); }
    Low(c.y, 12)
  }

  /** The fraction q / max in 32 fractional bits, rounded down. */
  function Fraction(q: nat, max: nat): nat
    requires max > 0
  {
    q * SCALE / max
  }

  lemma DequantizeAxisIs(q: nat, max: nat, metres: nat)
    requires q <= max < 0x1_0000 && max > 0 && (metres == 64 || metres == 32)
    ensures DequantizeAxis(q, max, metres * SCALE) == metres * Fraction(q, max)
    ensures Fraction(q, max) <= SCALE
  {
    var a, b := q * SCALE, max * SCALE;
    var f := Fraction(q, max);
    DivBound(a, max, SCALE);
    CancelScale(a, max);
    assert SaturatingDiv(FromI32(q), FromI32(max)) == f;
    assert f * (metres * SCALE) == (metres * f) * SCALE;
  }

  lemma DivBound(a: nat, k: nat, most: nat)
    requires k > 0 && a <= most * k
    ensures a / k <= most
  {
    assert most * k == k * most;
    if a / k > most { MulStep(k, most, a / k); }
  }

  lemma CancelScale(a: nat, k: nat)
    requires k > 0
    ensures (a * SCALE) / (k * SCALE) == a / k
  {
    var q, r := a / k, a % k;
    assert a == k * q + r;
    assert a * SCALE == (k * SCALE) * q + r * SCALE;
    ModUnique(a * SCALE, k * SCALE, q, r * SCALE);
  }

  /** An elevation above 12 bits is read modulo 4096. */
  lemma ElevationIsMasked(c: CellCoord)
    ensures Dequantize(c) == Dequantize(c.(y := c.y % 4096))
  {
    assert c.y % 4096 % 4096 == c.y % 4096;
    hide DequantizeAxis;
  }

  /** The two kinds of axis: 64 metres in 65535 steps and 32 metres in 4095 steps. */
  predicate IsAxis(metres: nat, shift: nat, max: nat) {
    (metres == 64 && shift == 6 && max == MAX_HORIZONTAL) || (metres == 32 && shift == 5 && max == MAX_VERTICAL)
  }

  /** A position outside the cell takes the nearer end of its axis, exactly from the far face on. */
  lemma OutsideTheCell(local: i64, metres: nat, shift: nat, max: nat)
    requires IsAxis(metres, shift, max)
    ensures local <= 0 ==> QuantizeAxis(local, metres * SCALE, shift, max) == 0
    ensures local >= metres * SCALE <==> QuantizeAxis(local, metres * SCALE, shift, max) == max
  {
    hide QuantizeAxis;
    if 0 <= local < metres * SCALE { QuantizeAxisIs(local, metres, shift, max); }
    if local < 0 { ClampedAway(local, metres, shift, max); }
    if local >= metres * SCALE { ClampedAway(local, metres, shift, max); }
    if local == 0 { assert 0 / metres * max / SCALE == 0; }
  }

  lemma ClampedAway(local: i64, metres: nat, shift: nat, max: nat)
    requires IsAxis(metres, shift, max)
    ensures local < 0 ==> QuantizeAxis(local, metres * SCALE, shift, max) == 0
    ensures local >= metres * SCALE ==> QuantizeAxis(local, metres * SCALE, shift, max) == max
  {
    Pow2Small();
    Pow2Values();
    hide Pow2, High;
  }

  /** What quantising does to a position inside the cell, in exact terms. */
  lemma QuantizeAxisIs(local: i64, metres: nat, shift: nat, max: nat)
    requires IsAxis(metres, shift, max)
    requires 0 <= local < metres * SCALE
    ensures QuantizeAxis(local, metres * SCALE, shift, max) == (local / metres) * max / SCALE < max
  {
    if metres == 64 { QuantizeHorizontal(local); } else { QuantizeVertical(local); }
  }

  lemma QuantizeHorizontal(local: i64)
    requires 0 <= local < 64 * SCALE
    ensures QuantizeAxis(local, 64 * SCALE, 6, MAX_HORIZONTAL) == (local / 64) * MAX_HORIZONTAL / SCALE < MAX_HORIZONTAL
  {
    Pow2Small();
    Pow2Values();
    hide Pow2;
  }

  lemma QuantizeVertical(local: i64)
    requires 0 <= local < 32 * SCALE
    ensures QuantizeAxis(local, 32 * SCALE, 5, MAX_VERTICAL) == (local / 32) * MAX_VERTICAL / SCALE < MAX_VERTICAL
  {
    Pow2Small();
    Pow2Values();
    hide Pow2;
  }

  /** The error on one axis: never above the position, and less than a step plus two roundings. */
  lemma AxisError(local: i64, metres: nat, shift: nat, max: nat)
    requires IsAxis(metres, shift, max)
    requires 0 <= local < metres * SCALE
    ensures var back := DequantizeAxis(QuantizeAxis(local, metres * SCALE, shift, max), max, metres * SCALE);
            && 0 <= back <= local
            && (local - back) * max < metres * SCALE + 2 * metres * max
  {
    if metres == 64 { HorizontalAxisError(local); } else { VerticalAxisError(local); }
  }

  lemma HorizontalAxisError(local: i64)
    requires 0 <= local < 64 * SCALE
    ensures var back := DequantizeAxis(QuantizeAxis(local, 64 * SCALE, 6, MAX_HORIZONTAL), MAX_HORIZONTAL, 64 * SCALE);
            && 0 <= back <= local
            && (local - back) * MAX_HORIZONTAL < 64 * SCALE + 128 * MAX_HORIZONTAL
  {
    QuantizeAxisIs(local, 64, 6, MAX_HORIZONTAL);
    var q := QuantizeAxis(local, 64 * SCALE, 6, MAX_HORIZONTAL);
    DequantizeAxisIs(q, MAX_HORIZONTAL, 64);
    hide QuantizeAxis, DequantizeAxis;
    HorizontalError(local, local / 64, q, Fraction(q, MAX_HORIZONTAL));
  }

  lemma VerticalAxisError(local: i64)
    requires 0 <= local < 32 * SCALE
    ensures var back := DequantizeAxis(QuantizeAxis(local, 32 * SCALE, 5, MAX_VERTICAL), MAX_VERTICAL, 32 * SCALE);
            && 0 <= back <= local
            && (local - back) * MAX_VERTICAL < 32 * SCALE + 64 * MAX_VERTICAL
  {
    QuantizeAxisIs(local, 32, 5, MAX_VERTICAL);
    var q := QuantizeAxis(local, 32 * SCALE, 5, MAX_VERTICAL);
    DequantizeAxisIs(q, MAX_VERTICAL, 32);
    hide QuantizeAxis, DequantizeAxis;
    VerticalError(local, local / 32, q, Fraction(q, MAX_VERTICAL));
  }

  lemma HorizontalError(local: int, u: int, q: int, f: int)
    requires 64 * u <= local < 64 * u + 64 && 0 <= u
    requires q == u * MAX_HORIZONTAL / SCALE && f == q * SCALE / MAX_HORIZONTAL
    ensures 0 <= 64 * f <= local
    ensures (local - 64 * f) * MAX_HORIZONTAL < 64 * SCALE + 128 * MAX_HORIZONTAL
  {
  }

  lemma VerticalError(local: int, u: int, q: int, f: int)
    requires 32 * u <= local < 32 * u + 32 && 0 <= u
    requires q == u * MAX_VERTICAL / SCALE && f == q * SCALE / MAX_VERTICAL
    ensures 0 <= 32 * f <= local
    ensures (local - 32 * f) * MAX_VERTICAL < 32 * SCALE + 64 * MAX_VERTICAL
  {
  }

  /** Requantising a dequantised offset lowers it by exactly one step, except at the two ends. */
  lemma AxisRequantized(q: nat, metres: nat, shift: nat, max: nat)
    requires IsAxis(metres, shift, max)
    requires q <= max
    ensures QuantizeAxis(DequantizeAxis(q, max, metres * SCALE), metres * SCALE, shift, max)
            == if q == 0 || q == max then q else q - 1
  {
    DequantizeAxisIs(q, max, metres);
    var f := Fraction(q, max);
    assert (metres * f) / metres == f;
    Pow2Small();
    Pow2Values();
    EndsAreExact(q, max);
  }

  /** q * 2^32 is a multiple of the step count only at the ends of the range. */
  lemma EndsAreExact(q: nat, max: nat)
    requires (max == MAX_HORIZONTAL || max == MAX_VERTICAL) && q <= max
    ensures Fraction(q, max) * max / SCALE == if q == 0 || q == max then q else q - 1
  {
    var n := q * SCALE;
    var f, t := n / max, n % max;
    assert f * max == n - t;
    LessThanAStep(q, t);
    if max == MAX_HORIZONTAL { HorizontalRemainder(q); } else { VerticalRemainder(q); }
  }

  lemma LessThanAStep(q: nat, t: nat)
    requires t < SCALE
    ensures (q * SCALE - t) / SCALE == if t == 0 then q else q - 1
  {
  }

  /** 2^32 is one more than a multiple of 65535. */
  lemma HorizontalRemainder(q: nat)
    requires q <= MAX_HORIZONTAL
    ensures (q * SCALE) % MAX_HORIZONTAL == 0 <==> q == 0 || q == MAX_HORIZONTAL
  {
    assert q * SCALE == MAX_HORIZONTAL * (q * 65537) + q;
    if q < MAX_HORIZONTAL {
      ModUnique(q * SCALE, MAX_HORIZONTAL, q * 65537, q);
    } else {
      ModUnique(q * SCALE, MAX_HORIZONTAL, q * 65537 + 1, 0);
    }
  }

  /** 2^32 is 256 more than a multiple of 4095. */
  lemma VerticalRemainder(q: nat)
    requires q <= MAX_VERTICAL
    ensures (q * SCALE) % MAX_VERTICAL == 0 <==> q == 0 || q == MAX_VERTICAL
  {
    var k, r := (256 * q) / MAX_VERTICAL, (256 * q) % MAX_VERTICAL;
    assert q * SCALE == MAX_VERTICAL * (q * 1048832 + k) + r;
    ModUnique(q * SCALE, MAX_VERTICAL, q * 1048832 + k, r);
    NoFactor(q);
  }

  /** 256 has no factor in common with 4095. */
  lemma NoFactor(q: nat)
    requires 0 <= q <= MAX_VERTICAL
    ensures (256 * q) % MAX_VERTICAL == 0 <==> q == 0 || q == MAX_VERTICAL
  {
    if (256 * q) % MAX_VERTICAL == 0 {
      var k := (256 * q) / MAX_VERTICAL;
      assert 16 * (256 * q) == 4096 * q == MAX_VERTICAL * q + q;
      assert MAX_VERTICAL * (16 * k - q) == q;
    }
  }

  // ----- The whole world -----

  datatype GlobalCoord = GlobalCoord(cellX: int, cellY: int, cellZ: int, offset: CellCoord)

  function QuantizeFromGlobal(pos: Vec3): GlobalCoord {
    CellsFit(pos);
    var cellX, cellY, cellZ := pos.x / CELL_HORIZONTAL, pos.y / CELL_VERTICAL, pos.z / CELL_HORIZONTAL;
    GlobalCoord(cellX, cellY, cellZ,
                Quantize(SaturatingSub(pos.x, FromI32(cellX * 64)),
                         SaturatingSub(pos.y, FromI32(cellY * 32)),
                         SaturatingSub(pos.z, FromI32(cellZ * 64))))
  }

  /** Cell indices fit an i32 on the whole 64-bit domain, and so do their sizes in metres. */
  lemma CellsFit(pos: Vec3)
    ensures -0x200_0000 <= pos.x / CELL_HORIZONTAL < 0x200_0000
    ensures -0x400_0000 <= pos.y / CELL_VERTICAL < 0x400_0000
    ensures -0x200_0000 <= pos.z / CELL_HORIZONTAL < 0x200_0000
  {
  }

  predicate CellsInRange(g: GlobalCoord) {
    -0x200_0000 <= g.cellX < 0x200_0000 && -0x400_0000 <= g.cellY < 0x400_0000 && -0x200_0000 <= g.cellZ < 0x200_0000
  }

  function DequantizeToGlobal(g: GlobalCoord): Vec3
    requires CellsInRange(g)
  {
    var local := Dequantize(g.offset);
    Vec3(SaturatingAdd(FromI32(g.cellX * 64), local.x),
         SaturatingAdd(FromI32(g.cellY * 32), local.y),
         SaturatingAdd(FromI32(g.cellZ * 64), local.z))
  }

  /** The offset of one coordinate within its cell needs no saturation. */
  lemma LocalOffset(p: i64, metres: nat)
    requires metres == 64 || metres == 32
    ensures var cell := p / (metres * SCALE);
            && 0 <= p - cell * metres * SCALE < metres * SCALE
            && (-0x8000_0000 <= cell * metres < 0x8000_0000)
            && SaturatingSub(p, FromI32(cell * metres)) == p - cell * metres * SCALE
  {
  }

  /** `back` is at or below `p` by less than a resolution step plus two roundings of `metres`. */
  ghost predicate CloseBelow(p: int, back: int, metres: nat, max: nat) {
    0 <= (p - back) * max < metres * SCALE + 2 * metres * max
  }

  lemma GlobalAxisError(p: i64, metres: nat, shift: nat, max: nat)
    requires IsAxis(metres, shift, max)
    ensures var size := metres * SCALE; var cell := p / size;
            && -0x8000_0000 <= cell * metres < 0x8000_0000
            && var q := QuantizeAxis(SaturatingSub(p, FromI32(cell * metres)), size, shift, max);
               var back := SaturatingAdd(FromI32(cell * metres), DequantizeAxis(q, max, size));
               CloseBelow(p, back, metres, max)
  {
    hide QuantizeAxis, DequantizeAxis;
    LocalOffset(p, metres);
    AxisError(p - p / (metres * SCALE) * metres * SCALE, metres, shift, max);
  }

  /**
   On every 64-bit position no cell arithmetic overflows or saturates, and the reconstructed
   position is at or below the original by less than one resolution step plus 128 raw units
   horizontally and 64 vertically.
   */
  lemma GlobalError(pos: Vec3)
    ensures var g := QuantizeFromGlobal(pos);
            && CellsInRange(g) && IsValid(g.offset)
            && var back := DequantizeToGlobal(g);
               && CloseBelow(pos.x, back.x, 64, MAX_HORIZONTAL)
               && CloseBelow(pos.y, back.y, 32, MAX_VERTICAL)
               && CloseBelow(pos.z, back.z, 64, MAX_HORIZONTAL)
  {
    hide QuantizeAxis, DequantizeAxis, SaturatingSub, SaturatingAdd, FromI32, CloseBelow, ElevationOf;
    CellsFit(pos);
    GlobalAxisError(pos.x, 64, 6, MAX_HORIZONTAL);
    GlobalAxisError(pos.y, 32, 5, MAX_VERTICAL);
    GlobalAxisError(pos.z, 64, 6, MAX_HORIZONTAL);
  }

  /** One step down, unless already at an end. */
  function StepDown(q: nat, max: nat): nat { if q == 0 || q == max then q else q - 1 }

  /** A quantised position that is sent, rebuilt and quantised again keeps its cell and drops by one step. */
  lemma GlobalRequantized(pos: Vec3)
    ensures var g := QuantizeFromGlobal(pos);
            && CellsInRange(g)
            && QuantizeFromGlobal(DequantizeToGlobal(g)) ==
               g.(offset := CellCoord(StepDown(g.offset.x, MAX_HORIZONTAL), StepDown(g.offset.y, MAX_VERTICAL),
                                      StepDown(g.offset.z, MAX_HORIZONTAL)))
  {
    hide QuantizeAxis, DequantizeAxis, SaturatingSub, SaturatingAdd, FromI32, StepDown, ElevationOf;
    CellsFit(pos);
    AxisRoundTrip(pos.x, 64, 6, MAX_HORIZONTAL);
    AxisRoundTrip(pos.y, 32, 5, MAX_VERTICAL);
    AxisRoundTrip(pos.z, 64, 6, MAX_HORIZONTAL);
  }

  lemma AxisRoundTrip(p: i64, metres: nat, shift: nat, max: nat)
    requires IsAxis(metres, shift, max)
    ensures var size := metres * SCALE; var cell := p / size;
            && -0x8000_0000 <= cell * metres < 0x8000_0000
            && var q := QuantizeAxis(SaturatingSub(p, FromI32(cell * metres)), size, shift, max);
               var back := SaturatingAdd(FromI32(cell * metres), DequantizeAxis(q, max, size));
               && back / size == cell
               && QuantizeAxis(SaturatingSub(back, FromI32(cell * metres)), size, shift, max) == StepDown(q, max)
  {
    hide QuantizeAxis, DequantizeAxis;
    LocalOffset(p, metres);
    var size := metres * SCALE;
    var cell := p / size;
    var local := p - cell * metres * SCALE;
    AxisError(local, metres, shift, max);
    var q := QuantizeAxis(local, size, shift, max);
    AxisRequantized(q, metres, shift, max);
    var back := SaturatingAdd(FromI32(cell * metres), DequantizeAxis(q, max, size));
    var off := DequantizeAxis(q, max, size);
    assert cell * metres * SCALE == size * cell;
    ModUnique(back, size, cell, off);
  }

  // ----- Packers -----

  type Bytes = seq<u8>

  /** 7 bytes: x, z, elevation, yaw and four flag bits. */
  function PackTactical(c: CellCoord, yaw: u8, flags: u8): (b: Bytes)
    ensures |b| == 7
  {
    Pow2Small();
    var y := ElevationOf(c);
    [Low(c.x, 8), Low(High(c.x, 8), 8), Low(c.z, 8), Low(High(c.z, 8), 8), Low(y, 8),
     Join(Low(High(y, 8), 4), 4, Low(yaw, 4)),
     Join(Low(High(yaw, 4), 4), 4, Low(flags, 4))]
  }

  function UnpackTactical(b: Bytes): (CellCoord, u8, u8)
    requires |b| == 7
  {
    Pow2Small();
    (CellCoord(Join(b[0], 8, b[1]), Join(b[4], 8, Low(b[5], 4)), Join(b[2], 8, b[3])),
     Join(Low(High(b[5], 4), 4), 4, Low(b[6], 4)),
     Low(High(b[6], 4), 4))
  }

  lemma TacticalRoundTrip(c: CellCoord, yaw: u8, flags: u8)
    ensures UnpackTactical(PackTactical(c, yaw, flags)) == (c.(y := c.y % 0x1000), yaw, flags % 16)
  {
    Pow2Small();
    Pow2Values();
    Pow2Twelve();
    var y := ElevationOf(c);
    assert Low(flags, 4) == flags % 16;
    hide Low, High, Join, ElevationOf, Pow2;
    FieldsTogether(c.x, 8, 8);
    FieldsTogether(c.z, 8, 8);
    FieldsTogether(y, 8, 4);
    FieldsTogether(yaw, 4, 4);
    LowWhole(c.x, 16);
    LowWhole(c.z, 16);
    LowWhole(y, 12);
    LowWhole(yaw, 8);
    FieldsApart(Low(High(y, 8), 4), 4, Low(yaw, 4), 4);
    FieldsApart(Low(High(yaw, 4), 4), 4, Low(flags, 4), 4);
    LowWhole(Low(yaw, 4), 4);
    LowWhole(Low(flags, 4), 4);
  }

  lemma Pow2Twelve()
    ensures Pow2(12) == 0x1000
  {
    Pow2Small();
    Pow2Add(8, 4);
  }

  /** Every 7-byte buffer is the packing of what it unpacks to. */
  lemma TacticalIsOnto(b: Bytes)
    requires |b| == 7
    ensures var (c, yaw, flags) := UnpackTactical(b);
            PackTactical(c, yaw, flags) == b && IsValid(c) && flags < 16
  {
    hide Low, High, Join, ElevationOf, Pow2;
    Pow2Small();
    Pow2Twelve();
    FieldsApart(b[0], 8, b[1], 8);
    FieldsApart(b[2], 8, b[3], 8);
    FieldsApart(b[4], 8, Low(b[5], 4), 4);
    ByteHalves(b[5]);
    ByteHalves(b[6]);
    FieldsApart(Low(High(b[5], 4), 4), 4, Low(b[6], 4), 4);
    LowWhole(b[1], 8);
    LowWhole(b[3], 8);
    var (c, yaw, flags) := UnpackTactical(b);
    assert c.y < 0x1000;
    assert ElevationOf(c) == c.y;
    var p := PackTactical(c, yaw, flags);
    assert p[0] == b[0] && p[1] == b[1] && p[2] == b[2] && p[3] == b[3];
    assert p[4] == b[4] && p[5] == b[5] && p[6] == b[6];
  }

  /** A byte is its two nibbles. */
  lemma ByteHalves(b: u8)
    ensures Low(b, 4) < Pow2(4) && Low(High(b, 4), 4) < Pow2(4)
    ensures Join(Low(b, 4), 4, Low(High(b, 4), 4)) == b
    ensures Low(Low(b, 4), 4) == Low(b, 4) && Low(Low(High(b, 4), 4), 4) == Low(High(b, 4), 4)
  {
    Pow2Small();
    FieldsTogether(b, 4, 4);
    LowWhole(b, 8);
    LowWhole(Low(b, 4), 4);
    LowWhole(Low(High(b, 4), 4), 4);
  }

  datatype MidfieldCoord = MidfieldCoord(x: u16, y: u8, z: u16)

  /** 5 bytes: 10-bit x and z, 8-bit elevation, 6-bit yaw and four flag bits. */
  function PackMidfield(c: MidfieldCoord, yaw: u8, flags: u8): (b: Bytes)
    ensures |b| == 5
  {
    Pow2Small();
    Pow2Ten();
    var x, z, w := Low(c.x, 10), Low(c.z, 10), Low(yaw, 6);
    [Low(x, 8),
     Join(Low(High(x, 8), 2), 2, Low(z, 6)),
     Join(Low(High(z, 6), 4), 4, Low(c.y, 4)),
     Join(Low(High(c.y, 4), 4), 4, Low(w, 4)),
     Join(Low(High(w, 4), 2), 2, Low(flags, 4))]
  }

  lemma Pow2Ten()
    ensures Pow2(10) == 1024
  {
    Pow2Small();
    Pow2Add(8, 2);
  }

  function UnpackMidfield(b: Bytes): (MidfieldCoord, u8, u8)
    requires |b| == 5
  {
    Pow2Small();
    (MidfieldCoord(Join(b[0], 8, Low(b[1], 2)),
                   Join(Low(High(b[2], 4), 4), 4, Low(b[3], 4)),
                   Join(Low(High(b[1], 2), 6), 6, Low(b[2], 4))),
     Join(Low(High(b[3], 4), 4), 4, Low(b[4], 2)),
     Low(High(b[4], 2), 4))
  }

  lemma MidfieldRoundTrip(c: MidfieldCoord, yaw: u8, flags: u8)
    ensures UnpackMidfield(PackMidfield(c, yaw, flags))
            == (MidfieldCoord(c.x % 1024, c.y, c.z % 1024), yaw % 64, flags % 16)
  {
    Pow2Small();
    Pow2Ten();
    var x, z, w, f := Low(c.x, 10), Low(c.z, 10), Low(yaw, 6), Low(flags, 4);
    assert x == c.x % 1024 && z == c.z % 1024 && w == yaw % 64 && f == flags % 16;
    hide Low, High, Join, Pow2;
    FieldsTogether(x, 8, 2);
    FieldsTogether(z, 6, 4);
    FieldsTogether(c.y, 4, 4);
    FieldsTogether(w, 4, 2);
    LowWhole(x, 10);
    LowWhole(z, 10);
    LowWhole(c.y, 8);
    LowWhole(w, 6);
    FieldsApart(Low(High(x, 8), 2), 2, Low(z, 6), 6);
    FieldsApart(Low(High(z, 6), 4), 4, Low(c.y, 4), 4);
    FieldsApart(Low(High(c.y, 4), 4), 4, Low(w, 4), 4);
    FieldsApart(Low(High(w, 4), 2), 2, f, 4);
    LowWhole(Low(z, 6), 6);
    LowWhole(Low(c.y, 4), 4);
    LowWhole(Low(w, 4), 4);
    LowWhole(f, 4);
  }

  /** A 5-byte buffer repacks to itself, except that the upper two bits of the last byte are cleared. */
  lemma MidfieldIsOnto(b: Bytes)
    requires |b| == 5
    ensures var (c, yaw, flags) := UnpackMidfield(b);
            PackMidfield(c, yaw, flags) == [b[0], b[1], b[2], b[3], b[4] % 64] && c.x < 1024 && c.z < 1024
  {
    Pow2Small();
    Pow2Ten();
    var (c, yaw, flags) := UnpackMidfield(b);
    var xTop, zLow, zTop, yLow := Low(b[1], 2), Low(High(b[1], 2), 6), Low(b[2], 4), Low(High(b[2], 4), 4);
    var yTop, wLow, wTop, f := Low(b[3], 4), Low(High(b[3], 4), 4), Low(b[4], 2), Low(High(b[4], 2), 4);
    assert Low(b[4], 6) == b[4] % 64;
    hide Low, High, Join, Pow2;
    FieldsTogether(b[1], 2, 6);
    LowWhole(b[1], 8);
    ByteHalves(b[2]);
    ByteHalves(b[3]);
    FieldsTogether(b[4], 2, 4);
    FieldsApart(b[0], 8, xTop, 2);
    FieldsApart(zLow, 6, zTop, 4);
    FieldsApart(yLow, 4, yTop, 4);
    FieldsApart(wLow, 4, wTop, 2);
    LowWhole(Join(b[0], 8, xTop), 10);
    LowWhole(Join(zLow, 6, zTop), 10);
    LowWhole(Join(wLow, 4, wTop), 6);
    LowWhole(xTop, 2);
    LowWhole(wTop, 2);
    LowWhole(f, 4);
  }

  datatype HorizonCoord = HorizonCoord(x: u8, y: u8, z: u8)

  /** 3 bytes: 6-bit x and z, 5-bit elevation, 4-bit heading and three flag bits. */
  function PackHorizon(c: HorizonCoord, heading: u8, flags: u8): (b: Bytes)
    ensures |b| == 3
  {
    Pow2Small();
    var x, z, y, h, f := Low(c.x, 6), Low(c.z, 6), Low(c.y, 5), Low(heading, 4), Low(flags, 3);
    [Join(x, 6, Low(z, 2)),
     Join(Low(High(z, 2), 4), 4, Low(y, 4)),
     Join(Join(Low(High(y, 4), 1), 1, h), 5, f)]
  }

  function UnpackHorizon(b: Bytes): (HorizonCoord, u8, u8)
    requires |b| == 3
  {
    Pow2Small();
    (HorizonCoord(Low(b[0], 6),
                  Join(Low(High(b[1], 4), 4), 4, Low(b[2], 1)),
                  Join(Low(High(b[0], 6), 2), 2, Low(b[1], 4))),
     Low(High(b[2], 1), 4),
     Low(High(b[2], 5), 3))
  }

  lemma HorizonRoundTrip(c: HorizonCoord, heading: u8, flags: u8)
    ensures UnpackHorizon(PackHorizon(c, heading, flags))
            == (HorizonCoord(c.x % 64, c.y % 32, c.z % 64), heading % 16, flags % 8)
  {
    Pow2Small();
    var x, z, y, h, f := Low(c.x, 6), Low(c.z, 6), Low(c.y, 5), Low(heading, 4), Low(flags, 3);
    assert x == c.x % 64 && z == c.z % 64 && y == c.y % 32 && h == heading % 16 && f == flags % 8;
    hide Low, High, Join, Pow2;
    FieldsTogether(z, 2, 4);
    FieldsTogether(y, 4, 1);
    LowWhole(z, 6);
    LowWhole(y, 5);
    FieldsApart(x, 6, Low(z, 2), 2);
    FieldsApart(Low(High(z, 2), 4), 4, Low(y, 4), 4);
    HorizonLastByte(Low(High(y, 4), 1), h, f);
    LowWhole(Low(z, 2), 2);
    LowWhole(Low(y, 4), 4);
  }

  /** The last byte holds three fields: one elevation bit, the heading and the flags. */
  lemma HorizonLastByte(top: nat, h: nat, f: nat)
    requires top < 2 && h < 16 && f < 8
    ensures Pow2(1) == 2 && Pow2(5) == 32
    ensures Join(top, 1, h) < 32
    ensures var b := Join(Join(top, 1, h), 5, f);
            && b < 256 && Low(b, 1) == top && Low(High(b, 1), 4) == h && Low(High(b, 5), 3) == f
  {
    hide *;
    Pow2Small();
    assert Join(top, 1, h) == top + 2 * h;
    assert Join(Join(top, 1, h), 5, f) == top + 2 * h + 32 * f;
    PartsOfByte(top, h, f);
  }

  lemma PartsOfByte(top: nat, h: nat, f: nat)
    requires top < 2 && h < 16 && f < 8
    ensures var b := top + 2 * h + 32 * f;
            b < 256 && b % 2 == top && (b / 2) % 16 == h && (b / 32) % 8 == f
  {
  }

  /** Every 3-byte buffer is the packing of what it unpacks to. */
  lemma HorizonIsOnto(b: Bytes)
    requires |b| == 3
    ensures var (c, heading, flags) := UnpackHorizon(b); PackHorizon(c, heading, flags) == b
  {
    Pow2Small();
    var x, zLow, zHigh := Low(b[0], 6), Low(High(b[0], 6), 2), Low(b[1], 4);
    var yLow, yTop := Low(High(b[1], 4), 4), Low(b[2], 1);
    var h, f := Low(High(b[2], 1), 4), Low(High(b[2], 5), 3);
    HorizonByteTogether(b[2]);
    hide Low, High, Join, Pow2;
    FieldsTogether(b[0], 6, 2);
    LowWhole(b[0], 8);
    ByteHalves(b[1]);
    FieldsApart(zLow, 2, zHigh, 4);
    FieldsApart(yLow, 4, yTop, 1);
    LowWhole(x, 6);
    LowWhole(Join(zLow, 2, zHigh), 6);
    LowWhole(Join(yLow, 4, yTop), 5);
    LowWhole(zHigh, 4);
    LowWhole(yTop, 1);
    LowWhole(h, 4);
    LowWhole(f, 3);
  }

  lemma HorizonByteTogether(b: u8)
    ensures Pow2(1) == 2 && Pow2(5) == 32
    ensures Low(b, 1) < 2 && Low(High(b, 1), 4) < 16 && Low(High(b, 5), 3) < 8
    ensures Join(Low(b, 1), 1, Low(High(b, 1), 4)) < 32
    ensures Join(Join(Low(b, 1), 1, Low(High(b, 1), 4)), 5, Low(High(b, 5), 3)) == b
  {
    hide *;
    Pow2Small();
    assert Low(High(b, 1), 4) == (b / 2) % 16;
    assert Low(High(b, 5), 3) == (b / 32) % 8;
    ByteParts(b);
  }

  lemma ByteParts(b: u8)
    ensures b == b % 2 + 2 * ((b / 2) % 16) + 32 * ((b / 32) % 8)
  {
  }
}
