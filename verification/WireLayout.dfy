/**
 The exact wire formats. A codec that permutes two fields in its encoder and its decoder alike
 still round-trips; what rules that out is the number its bytes or bits spell, given here
 field by field at the documented position of each.
 */
module WireLayout {
  import opened Words
  import opened Bitwise
  import opened BitStrings
  import opened BitStream
  import opened Quantization
  import opened DeltaTransform
  import opened WireCodec

  // ----- Packed transforms, low bytes first -----

  function FromLittleEndian(bytes: seq<u8>): nat {
    if bytes == [] then 0 else bytes[0] + 256 * FromLittleEndian(bytes[1..])
  }

  lemma LittleEndianCons(b: u8, rest: seq<u8>)
    ensures FromLittleEndian([b] + rest) == b as int + 256 * FromLittleEndian(rest)
  {
    assert ([b] + rest)[1..] == rest;
  }

  lemma LittleEndian2(a: u8, b: u8)
    ensures FromLittleEndian([a, b]) == a as int + 256 * b
  {
    assert [a, b] == [a] + [b] && [b] + [] == [b];
    LittleEndianCons(a, [b]);
    LittleEndianCons(b, []);
  }

  lemma LittleEndian3(a: u8, b: u8, c: u8)
    ensures FromLittleEndian([a, b, c]) == a as int + 256 * b + 65536 * c
  {
    hide FromLittleEndian;
    assert [a, b, c] == [a] + [b, c];
    LittleEndianCons(a, [b, c]);
    LittleEndian2(b, c);
  }

  lemma LittleEndian5(a: u8, b: u8, c: u8, d: u8, e: u8)
    ensures FromLittleEndian([a, b, c, d, e]) == a as int + 256 * (b as int + 256 * (c as int + 256 * d + 65536 * e))
  {
    hide FromLittleEndian;
    assert [a, b, c, d, e] == [a] + [b, c, d, e];
    LittleEndianCons(a, [b, c, d, e]);
    assert [b, c, d, e] == [b] + [c, d, e];
    LittleEndianCons(b, [c, d, e]);
    LittleEndian3(c, d, e);
  }

  lemma LittleEndian7(a: u8, b: u8, c: u8, d: u8, e: u8, f: u8, g: u8)
    ensures FromLittleEndian([a, b, c, d, e, f, g])
            == a as int + 256 * (b as int + 256 * (c as int
               + 256 * (d as int + 256 * (e as int + 256 * f + 65536 * g))))
  {
    hide FromLittleEndian;
    assert [a, b, c, d, e, f, g] == [a] + [b, c, d, e, f, g];
    LittleEndianCons(a, [b, c, d, e, f, g]);
    assert [b, c, d, e, f, g] == [b] + [c, d, e, f, g];
    LittleEndianCons(b, [c, d, e, f, g]);
    LittleEndian5(c, d, e, f, g);
  }

  /** A number below m * n in two parts. */
  lemma Parts(w: nat, m: nat, n: nat)
    requires m > 0 && w < m * n
    ensures w == w % m + m * ((w / m) % n) && 0 <= w % m < m && 0 <= (w / m) % n < n
  {
    assert w == m * (w / m) + w % m;
    if w / m >= n { MulStep(m, n - 1, w / m); }
    ModUnique(w / m, n, 0, w / m);
  }

  lemma TacticalBytes(c: CellCoord, yaw: u8, flags: u8)
    ensures var y := c.y % 4096;
            PackTactical(c, yaw, flags)
            == [c.x % 256, (c.x / 256) % 256, c.z % 256, (c.z / 256) % 256, y % 256,
                (y / 256) % 16 + yaw % 16 * 16, (yaw / 16) % 16 + flags % 16 * 16]
  {
    Pow2Small();
    hide Low, High, Join, Pow2, ElevationOf;
  }

  /** Bits 0-15 x, 16-31 z, 32-43 elevation, 44-51 yaw and 52-55 flags. */
  lemma TacticalLayout(c: CellCoord, yaw: u8, flags: u8)
    ensures |PackTactical(c, yaw, flags)| == 7
    ensures FromLittleEndian(PackTactical(c, yaw, flags))
            == c.x as int + 0x1_0000 * c.z + 0x1_0000_0000 * (c.y % 4096)
               + 0x1000_0000_0000 * yaw + 0x10_0000_0000_0000 * (flags % 16)
  {
    hide *;
    var y := c.y % 4096;
    TacticalBytes(c, yaw, flags);
    Parts(c.x, 256, 256);
    Parts(c.z, 256, 256);
    Parts(y, 256, 16);
    Parts(yaw, 16, 16);
    LittleEndian7(c.x % 256, (c.x / 256) % 256, c.z % 256, (c.z / 256) % 256, y % 256,
                  (y / 256) % 16 + yaw % 16 * 16, (yaw / 16) % 16 + flags % 16 * 16);
  }

  lemma MidfieldBytes(c: MidfieldCoord, yaw: u8, flags: u8)
    ensures var x, z, w := c.x % 1024, c.z % 1024, yaw % 64;
            PackMidfield(c, yaw, flags)
            == [x % 256, (x / 256) % 4 + z % 64 * 4, (z / 64) % 16 + c.y % 16 * 16,
                (c.y / 16) % 16 + w % 16 * 16, (w / 16) % 4 + flags % 16 * 4]
  {
    Pow2Small();
    Pow2Ten();
    hide Low, High, Join, Pow2;
  }

  /** Bits 0-9 x, 10-19 z, 20-27 elevation, 28-33 yaw and 34-37 flags. */
  lemma MidfieldLayout(c: MidfieldCoord, yaw: u8, flags: u8)
    ensures |PackMidfield(c, yaw, flags)| == 5
    ensures FromLittleEndian(PackMidfield(c, yaw, flags))
            == c.x % 1024 + 0x400 * (c.z % 1024) + 0x10_0000 * c.y
               + 0x1000_0000 * (yaw % 64) + 0x4_0000_0000 * (flags % 16)
  {
    hide *;
    var x, z, w := c.x % 1024, c.z % 1024, yaw % 64;
    MidfieldBytes(c, yaw, flags);
    Parts(x, 256, 4);
    Parts(z, 64, 16);
    Parts(c.y, 16, 16);
    Parts(w, 16, 4);
    LittleEndian5(x % 256, (x / 256) % 4 + z % 64 * 4, (z / 64) % 16 + c.y % 16 * 16,
                  (c.y / 16) % 16 + w % 16 * 16, (w / 16) % 4 + flags % 16 * 4);
  }

  lemma HorizonBytes(c: HorizonCoord, heading: u8, flags: u8)
    ensures var z, y := c.z % 64, c.y % 32;
            PackHorizon(c, heading, flags)
            == [c.x % 64 + z % 4 * 64, (z / 4) % 16 + y % 16 * 16,
                (y / 16) % 2 + heading % 16 * 2 + flags % 8 * 32]
  {
    Pow2Small();
    hide Low, High, Join, Pow2;
  }

  /** Bits 0-5 x, 6-11 z, 12-16 elevation, 17-20 heading and 21-23 flags. */
  lemma HorizonLayout(c: HorizonCoord, heading: u8, flags: u8)
    ensures |PackHorizon(c, heading, flags)| == 3
    ensures FromLittleEndian(PackHorizon(c, heading, flags))
            == c.x % 64 + 0x40 * (c.z % 64) + 0x1000 * (c.y % 32) + 0x2_0000 * (heading % 16) + 0x20_0000 * (flags % 8)
  {
    hide *;
    var z, y := c.z % 64, c.y % 32;
    HorizonBytes(c, heading, flags);
    Parts(z, 4, 16);
    Parts(y, 16, 2);
    LittleEndian3(c.x % 64 + z % 4 * 64, (z / 4) % 16 + y % 16 * 16,
                  (y / 16) % 2 + heading % 16 * 2 + flags % 8 * 32);
  }

  // ----- Packed deltas -----

  /**
   The tag in bits 0-1; a small delta's dx, dz, dy and dyaw in bits 2-5, 6-9, 10-12 and 13-15;
   a medium delta's dy in bits 2-7 and dx, dz and yaw in the next three bytes; a full one's
   flags in bits 2-5 and the tactical form in the next seven bytes.
   */
  lemma PackedLayout(d: Delta)
    ensures FromLittleEndian(Packed(d)) == match d {
              case Stationary => 0
              case Small(dx, dz, dy, dyaw) =>
                1 + 4 * ((dx + 8) % 16) + 64 * ((dz + 8) % 16) + 1024 * ((dy + 4) % 8) + 8192 * ((dyaw + 4) % 8)
              case Medium(dx, dz, dy, yaw) =>
                2 + 4 * ((dy + 32) % 64) + 0x100 * (dx % 256) + 0x1_0000 * (dz % 256) + 0x100_0000 * yaw
              case Full(coord, yaw, flags) =>
                3 + 4 * (flags % 16) + 256 * FromLittleEndian(PackTactical(coord, yaw, flags)) }
  {
    PackedBytes(d);
    hide *;
    match d {
      case Stationary =>
        LittleEndianCons(0, []);
        assert [0] + [] == [0] && FromLittleEndian([]) == 0 by { NoBytes(); }
      case Small(dx, dz, dy, dyaw) =>
        WordInBytes(1 + 4 * ((dx + 8) % 16) + 64 * ((dz + 8) % 16) + 1024 * ((dy + 4) % 8) + 8192 * ((dyaw + 4) % 8));
      case Medium(dx, dz, dy, yaw) => FourInBytes((dy + 32) % 64, dx % 256, dz % 256, yaw);
      case Full(coord, yaw, flags) =>
        LittleEndianCons(3 + 4 * (flags % 16), PackTactical(coord, yaw, flags));
    }
  }

  lemma WordInBytes(w: nat)
    requires w < 65536
    ensures FromLittleEndian([w % 256, (w / 256) % 256]) == w
  {
    hide *;
    Parts(w, 256, 256);
    LittleEndian2(w % 256, (w / 256) % 256);
  }

  lemma FourInBytes(y: nat, x: u8, z: u8, yaw: u8)
    requires y < 64
    ensures FromLittleEndian([2 + 4 * y] + [x, z, yaw]) == 2 + 4 * y + 0x100 * x + 0x1_0000 * z + 0x100_0000 * yaw
  {
    hide *;
    LittleEndianCons(2 + 4 * y, [x, z, yaw]);
    LittleEndian3(x, z, yaw);
  }

  lemma NoBytes()
    ensures FromLittleEndian([]) == 0
  {
  }

  lemma PackedBytes(d: Delta)
    ensures Packed(d) == match d {
              case Stationary => [0]
              case Small(dx, dz, dy, dyaw) =>
                var w := 1 + 4 * ((dx + 8) % 16) + 64 * ((dz + 8) % 16)
                         + 1024 * ((dy + 4) % 8) + 8192 * ((dyaw + 4) % 8);
                [w % 256, (w / 256) % 256]
              case Medium(dx, dz, dy, yaw) => [2 + 4 * ((dy + 32) % 64)] + [dx % 256, dz % 256, yaw]
              case Full(coord, yaw, flags) => [3 + 4 * (flags % 16)] + PackTactical(coord, yaw, flags) }
  {
    Pow2Small();
    hide Low, High, Join, Pow2, SmallWord, Biased, PackTactical;
    if d.Small? { WordLayout(d.dx, d.dz, d.dy, d.dyaw); }
  }

  lemma WordLayout(dx: i8, dz: i8, dy: i8, dyaw: i8)
    ensures SmallWord(dx, dz, dy, dyaw)
            == 1 + 4 * ((dx + 8) % 16) + 64 * ((dz + 8) % 16) + 1024 * ((dy + 4) % 8) + 8192 * ((dyaw + 4) % 8)
  {
    Pow2Small();
    Pow2Wide();
    hide *;
    SmallWireIs(dx, dz, dy, dyaw);
    SmallWordIs(dx, dz, dy, dyaw);
  }

  function PackedSize(tag: nat): nat { if tag == 0 then 1 else if tag == 1 then 2 else if tag == 2 then 4 else 8 }

  lemma SmallUnpacks(a: u8, b: u8)
    requires a % 4 == 1
    ensures var d := UnpackedSmall(a + 256 * b); d.Small? && Packed(d) == [a, b] && InRange(d)
  {
    var w: nat := a + 256 * b;
    SmallValues(w);
    hide *;
    SmallBack(w);
    ModUnique(w, 256, b, a);
    SmallPacks((w / 4) % 16, (w / 64) % 16, (w / 1024) % 8, (w / 8192) % 8, a, b);
  }

  lemma SmallPacks(x: nat, z: nat, y: nat, turn: nat, a: u8, b: u8)
    requires x < 16 && z < 16 && y < 8 && turn < 8
    requires a as int + 256 * b == 1 + 4 * x + 64 * z + 1024 * y + 8192 * turn
    ensures var d := Small(x as int - 8, z as int - 8, y as int - 4, turn as int - 4);
            Packed(d) == [a, b] && InRange(d)
  {
    hide *;
    var d := Small(x as int - 8, z as int - 8, y as int - 4, turn as int - 4);
    SmallInRange(d);
    PackedBytes(d);
    var w: nat := 1 + 4 * x + 64 * z + 1024 * y + 8192 * turn;
    ModUnique(w, 256, b, a);
    ModUnique(b, 256, 0, b);
  }

  lemma SmallInRange(d: Delta)
    requires d.Small? && -8 <= d.dx <= 7 && -8 <= d.dz <= 7 && -4 <= d.dy <= 3 && -4 <= d.dyaw <= 3
    ensures InRange(d)
    ensures (d.dx + 8) % 16 == d.dx + 8 && (d.dz + 8) % 16 == d.dz + 8
    ensures (d.dy + 4) % 8 == d.dy + 4 && (d.dyaw + 4) % 8 == d.dyaw + 4
  {
  }

  lemma SmallValues(w: nat)
    ensures UnpackedSmall(w) == Small((w / 4) % 16 as int - 8, (w / 64) % 16 as int - 8,
                                      (w / 1024) % 8 as int - 4, (w / 8192) % 8 as int - 4)
  {
    Pow2Small();
    Pow2Wide();
    hide Low, High, Pow2;
  }

  lemma SmallBack(w: nat)
    requires w < 65536
    ensures w == w % 4 + 4 * ((w / 4) % 16) + 64 * ((w / 64) % 16) + 1024 * ((w / 1024) % 8) + 8192 * ((w / 8192) % 8)
    ensures w % 4 == (w % 256) % 4
  {
    DivDiv(w, 4, 16);
    DivDiv(w, 64, 16);
    DivDiv(w, 1024, 8);
    Parts(w, 4, 16384);
    Parts(w / 4, 16, 1024);
    Parts(w / 64, 16, 64);
    Parts(w / 1024, 8, 8);
    TwoLevelDiv(w, 4, 64);
  }

  /** `d` is a delta of the tier that the first byte names, and the bytes it was read from are its packed form. */
  ghost predicate ReadFrom(s: seq<u8>, d: Delta, n: nat)
    requires s != []
  {
    && InRange(d) && DeltaTag(d) == s[0] % 4
    && n == PackedSize(s[0] % 4) == |Packed(d)| <= |s|
    && (d.Small? || d.Medium? ==> Packed(d) == s[..n])
    && (d.Full? ==> PackTactical(d.coord, d.yaw, d.flags) == s[1..8])
  }

  /**
   Unpacking any bytes. It fails exactly when there are fewer than the first byte's tag asks for,
   and otherwise gives a delta of that tier whose packed form the bytes are, but for the upper six
   bits of the first byte of a stationary or full delta, which are not read.
   */
  lemma UnpackExactly(s: seq<u8>)
    ensures if s == [] || |s| < PackedSize(s[0] % 4) then Unpacked(s) == None
            else Unpacked(s).Some? && ReadFrom(s, Unpacked(s).value.0, Unpacked(s).value.1)
  {
    UnpackedIs(s);
    if s != [] && |s| >= PackedSize(s[0] % 4) {
      hide Unpacked;
      var tag := s[0] % 4;
      if tag == 0 {
        assert ReadFrom(s, Stationary, 1);
      } else if tag == 1 {
        SmallRead(s);
      } else if tag == 2 {
        MediumRead(s);
      } else {
        FullRead(s);
      }
    }
  }

  lemma SmallRead(s: seq<u8>)
    requires |s| >= 2 && s[0] % 4 == 1
    ensures ReadFrom(s, UnpackedSmall(s[0] as int + 256 * (s[1] as int)), 2)
  {
    SmallUnpacks(s[0], s[1]);
    hide Packed, UnpackedSmall, InRange;
    assert s[..2] == [s[0], s[1]];
  }

  lemma MediumRead(s: seq<u8>)
    requires |s| >= 4 && s[0] % 4 == 2
    ensures ReadFrom(s, UnpackedMedium(s[0], s[1], s[2], s[3]), 4)
  {
    MediumUnpacks(s[0], s[1], s[2], s[3]);
    hide Packed, UnpackedMedium, InRange;
    assert s[..4] == [s[0], s[1], s[2], s[3]];
  }

  lemma FullRead(s: seq<u8>)
    requires |s| >= 8 && s[0] % 4 == 3
    ensures ReadFrom(s, UnpackedFull(s[1..8]), 8)
  {
    FullUnpacks(s[1..8]);
    hide Packed, UnpackedFull, InRange, PackTactical;
  }

  lemma UnpackedIs(s: seq<u8>)
    ensures Unpacked(s) ==
            if s == [] then None
            else if s[0] % 4 == 0 then Some((Stationary, 1))
            else if s[0] % 4 == 1 then
              if |s| < 2 then None else Some((UnpackedSmall(s[0] as int + 256 * (s[1] as int)), 2))
            else if s[0] % 4 == 2 then
              if |s| < 4 then None else Some((UnpackedMedium(s[0], s[1], s[2], s[3]), 4))
            else if |s| < 8 then None else Some((UnpackedFull(s[1..8]), 8))
  {
    Pow2Small();
    hide Low, Join, Pow2, UnpackedSmall, UnpackedMedium, UnpackedFull;
  }

  lemma MediumUnpacks(a: u8, b: u8, c: u8, e: u8)
    requires a % 4 == 2
    ensures var d := UnpackedMedium(a, b, c, e); d.Medium? && Packed(d) == [a, b, c, e] && InRange(d)
  {
    MediumValues(a, b, c, e);
    var d := UnpackedMedium(a, b, c, e);
    PackedBytes(d);
    hide Packed, UnpackedMedium;
    Parts(a, 4, 64);
  }

  lemma MediumValues(a: u8, b: u8, c: u8, e: u8)
    ensures UnpackedMedium(a, b, c, e) == Medium(AsI8(b), AsI8(c), (a / 4) % 64 as int - 32, e)
    ensures AsI8(b) % 256 == b && AsI8(c) % 256 == c
  {
    Pow2Small();
    hide Low, High, Pow2;
  }

  lemma FullUnpacks(b: seq<u8>)
    requires |b| == 7
    ensures var d := UnpackedFull(b);
            && d.Full? && InRange(d) && PackTactical(d.coord, d.yaw, d.flags) == b && |Packed(d)| == 8
  {
    TacticalIsOnto(b);
    hide PackTactical, UnpackTactical;
  }

  // ----- Bit-stream encodings, high bits first -----

  lemma FieldThen(v: nat, n: nat, rest: seq<bool>)
    requires v < Pow2(n)
    ensures FromBits(ToBits(v, n) + rest) == v * Pow2(|rest|) + FromBits(rest)
  {
    hide Pow2, FromBits, ToBits;
    FromBitsAppend(ToBits(v, n), rest);
    FromToBits(v, n);
    ModUnique(v, Pow2(n), 0, v);
  }

  lemma LastField(v: nat, n: nat)
    requires v < Pow2(n)
    ensures FromBits(ToBits(v, n)) == v
  {
    hide Pow2, FromBits, ToBits;
    FromToBits(v, n);
    ModUnique(v, Pow2(n), 0, v);
  }

  lemma FourLayout(w: nat, a: nat, x: nat, b: nat, y: nat, c: nat, z: nat, d: nat)
    requires w < Pow2(a) && x < Pow2(b) && y < Pow2(c) && z < Pow2(d)
    ensures FromBits(Four(w, a, x, b, y, c, z, d)) == w * Pow2(b + c + d) + x * Pow2(c + d) + y * Pow2(d) + z
  {
    hide Pow2, FromBits, ToBits;
    FieldThen(w, a, ToBits(x, b) + (ToBits(y, c) + ToBits(z, d)));
    FieldThen(x, b, ToBits(y, c) + ToBits(z, d));
    FieldThen(y, c, ToBits(z, d));
    LastField(z, d);
  }

  lemma Pow2Layout()
    ensures Pow2(14) == 0x4000 && Pow2(24) == 0x100_0000 && Pow2(30) == 0x4000_0000 && Pow2(10) == 0x400
    ensures Pow2(16) == 0x1_0000
  {
    Pow2Small();
    Pow2Values();
    Pow2Add(6, 8);
    Pow2Add(8, 16);
    Pow2Add(16, 14);
    Pow2Add(8, 2);
  }

  /** On the bit stream: two tag bits, then the biased fields of each tier, the elevation of a medium delta first. */
  lemma DeltaBits(d: Delta)
    ensures FromBits(EncodeDelta(d)) == match d {
              case Stationary => 0
              case Small(dx, dz, dy, dyaw) =>
                0x4000 + 0x400 * ((dx + 8) % 16) + 0x40 * ((dz + 8) % 16) + 8 * ((dy + 4) % 8) + (dyaw + 4) % 8
              case Medium(dx, dz, dy, yaw) =>
                0x8000_0000 + 0x100_0000 * ((dy + 32) % 64) + 0x1_0000 * (dx % 256) + 0x100 * (dz % 256) + yaw
              case Full(coord, yaw, flags) =>
                0x300_0000_0000_0000 + FromBigEndian(PackTactical(coord, yaw, flags)) }
    ensures |EncodeDelta(d)| == match d {
              case Stationary => 2 case Small(_, _, _, _) => 16 case Medium(_, _, _, _) => 32 case Full(_, _, _) => 58 }
  {
    Pow2Small();
    Pow2Layout();
    hide Pow2, FromBits, ToBits, BytesToBits, Biased, PackTactical;
    FieldThen(DeltaTag(d), 2, DeltaFields(d));
    match d {
      case Stationary => assert FromBits([]) == 0 by { FromNoBits([]); }
      case Small(dx, dz, dy, dyaw) =>
        SmallWireIs(dx, dz, dy, dyaw);
        hide SmallWire;
        FourLayout((dx + 8) % 16, 4, (dz + 8) % 16, 4, (dy + 4) % 8, 3, (dyaw + 4) % 8, 3);
      case Medium(dx, dz, dy, yaw) => FourLayout((dy + 32) % 64, 6, dx % 256, 8, dz % 256, 8, yaw, 8);
      case Full(coord, yaw, flags) =>
        BigEndianIsBits(PackTactical(coord, yaw, flags));
        Pow2Add(32, 24);
        Pow2Values();
    }
  }

  /** Two tag bits, 0 to 3 from the finest tier to rest, and the tier's 7, 5, 3 or no bytes in order. */
  lemma TransformBits(t: Transform)
    ensures var (tag, payload) := match t {
              case Tactical(c, yaw, flags) => (0, PackTactical(c, yaw, flags))
              case Midfield(c, yaw, flags) => (1, PackMidfield(c, yaw, flags))
              case Horizon(c, heading, flags) => (2, PackHorizon(c, heading, flags))
              case AtRest => (3, []) };
            && |EncodeTransform(t)| == 2 + 8 * |payload|
            && FromBits(EncodeTransform(t)) == tag * Pow2(8 * |payload|) + FromBigEndian(payload)
  {
    Pow2Small();
    hide Pow2, FromBits, ToBits, BytesToBits, PackTactical, PackMidfield, PackHorizon;
    FieldThen(Tag(t), 2, BytesToBits(PayloadBytes(t)));
    BigEndianIsBits(PayloadBytes(t));
  }

  // ----- Varints -----

  /** How many bytes a varint takes: as many as its groups of seven bits, at least one. */
  lemma {:induction false} VarintLength(v: nat)
    ensures var n := |VarintBytes(v)|; n > 0 && v < Pow2(7 * n) && (n > 1 ==> v >= Pow2(7 * (n - 1)))
  {
    hide *;
    VarintUnfold(v);
    assert Pow2(0) == 1 by { NoBits(); }
    if v >= 128 {
      var n := |VarintBytes(v / 128)|;
      VarintLength(v / 128);
      Pow2Add(7, 7 * n);
      Pow2Add(7, 7 * (n - 1));
      GroupBounds(v, Pow2(7 * n), Pow2(7 * (n - 1)));
    }
  }

  lemma NoBits()
    ensures Pow2(0) == 1
  {
  }

  lemma GroupBounds(v: nat, above: nat, below: nat)
    ensures v / 128 < above ==> v < 128 * above
    ensures v / 128 >= below ==> v >= 128 * below
  {
  }

  /** Byte i holds bits 7i to 7i + 6 and, in its top bit, whether a byte follows. */
  lemma {:induction false} VarintLayout(v: nat, i: nat)
    requires i < |VarintBytes(v)|
    ensures VarintBytes(v)[i] == (v / Pow2(7 * i)) % 128 + (if i + 1 < |VarintBytes(v)| then 128 else 0)
  {
    hide *;
    VarintUnfold(v);
    assert Pow2(0) == 1 by { NoBits(); }
    if i > 0 {
      VarintLayout(v / 128, i - 1);
      Pow2Add(7, 7 * (i - 1));
      DivDiv(v, 128, Pow2(7 * (i - 1)));
      assert VarintBytes(v)[i] == VarintBytes(v / 128)[i - 1];
    }
  }

  lemma DivDiv(v: nat, a: nat, b: nat)
    requires a > 0 && b > 0
    ensures a * b > 0 && v / a / b == v / (a * b)
  {
    var u, q := v / a, v / a / b;
    assert v == a * u + v % a && u == b * q + u % b;
    assert a * u == a * (b * q) + a * (u % b);
    assert a * (b * q) == (a * b) * q;
    MulStep(a, u % b, b);
    ModUnique(v, a * b, q, a * (u % b) + v % a);
  }

  lemma VarintUnfold(v: nat)
    ensures Pow2(7) == 128
    ensures var b := VarintBytes(v);
            if v < 128 then b == [v] else b == [128 + v % 128] + VarintBytes(v / 128) && |VarintBytes(v / 128)| > 0
  {
    Pow2Small();
    hide *;
    VarintBytesAre(v);
    GroupOf(v);
    assert Join(v % 128, 7, 1) == 128 + v % 128;
  }

  lemma VarintBytesAre(v: nat)
    ensures Pow2(7) == 128
    ensures VarintBytes(v) == if High(v, 7) == 0 then [Low(v, 7)] else [Join(Low(v, 7), 7, 1)] + VarintBytes(High(v, 7))
    ensures High(v, 7) == v / 128 && Low(v, 7) == v % 128
  {
    Pow2Small();
    hide Pow2, Low, High, Join;
  }

  lemma GroupOf(v: nat)
    ensures v < 128 <==> v / 128 == 0
    ensures v < 128 ==> v % 128 == v
  {
  }

  // ----- Batches -----

  lemma EntriesCons(entries: seq<Entry>)
    ensures EncodeEntries([]) == []
    ensures entries != [] ==> EncodeEntries(entries) == EncodeEntry(entries[0]) + EncodeEntries(entries[1..])
  {
    hide EncodeEntry;
  }

  lemma {:induction false} EntriesAppend(a: seq<Entry>, b: seq<Entry>)
    ensures EncodeEntries(a + b) == EncodeEntries(a) + EncodeEntries(b)
  {
    hide *;
    if a == [] {
      EntriesCons([]);
      assert a + b == b;
      assert [] + EncodeEntries(b) == EncodeEntries(b);
    } else {
      EntriesAppend(a[1..], b);
      EntriesCons(a);
      EntriesCons(a + b);
      assert (a + b)[0] == a[0] && (a + b)[1..] == a[1..] + b;
      Associative(EncodeEntry(a[0]), EncodeEntries(a[1..]), EncodeEntries(b));
    }
  }

  lemma Associative<T>(a: seq<T>, b: seq<T>, c: seq<T>)
    ensures a + (b + c) == a + b + c
  {
  }

  /** The count, then the entries in order, each its identifier and its transform. */
  lemma BatchLayout(entries: seq<Entry>, i: nat)
    requires i < |entries|
    ensures var e := entries[i];
            EncodeBatch(entries)
            == BytesToBits(VarintBytes(|entries|)) + EncodeEntries(entries[..i])
               + BytesToBits(VarintBytes(e.entityId)) + EncodeTransform(e.transform) + EncodeEntries(entries[i + 1..])
    ensures EncodeEntries([]) == []
  {
    hide BytesToBits, VarintBytes, EncodeTransform, EncodeEntries;
    assert entries == entries[..i] + entries[i..];
    EntriesAppend(entries[..i], entries[i..]);
    EntriesCons(entries[i..]);
    assert entries[i..][0] == entries[i] && entries[i..][1..] == entries[i + 1..];
    Regroup(BytesToBits(VarintBytes(|entries|)), EncodeEntries(entries[..i]),
            BytesToBits(VarintBytes(entries[i].entityId)), EncodeTransform(entries[i].transform),
            EncodeEntries(entries[i + 1..]));
  }

  lemma Regroup<T>(a: seq<T>, b: seq<T>, c: seq<T>, d: seq<T>, e: seq<T>)
    ensures a + (b + ((c + d) + e)) == a + b + c + d + e
  {
  }
}
