/**
 The formats carried by the bit stream, as encoders to bit strings and decoders from a
 position of a bit string: fixed-width fields, LEB128 varints, delta transforms and
 multi-resolution replication batches. Every decoder inverts its encoder wherever the
 encoding stands and consumes exactly its bits.
 */
module WireCodec {
  import opened Words
  import opened Bitwise
  import opened BitStrings
  import opened BitStream
  import opened Quantization
  import opened DeltaTransform

  /** The outcome of decoding: a value or an error, and the cursor after it. */
  datatype Decoded<+T> = Good(value: T, next: nat) | Bad(error: BitstreamError, next: nat)

  /** The bit string `x` stands at position `off` of `bits`. */
  ghost predicate HasAt(bits: seq<bool>, off: nat, x: seq<bool>) {
    off + |x| <= |bits| && bits[off..off + |x|] == x
  }

  lemma HasAtSplit(bits: seq<bool>, off: nat, x: seq<bool>, y: seq<bool>)
    ensures HasAt(bits, off, x + y) <==> HasAt(bits, off, x) && HasAt(bits, off + |x|, y)
  {
    if HasAt(bits, off, x + y) {
      assert bits[off..off + |x|] == bits[off..off + |x + y|][..|x|];
      assert bits[off + |x|..off + |x| + |y|] == bits[off..off + |x + y|][|x|..];
    }
    if HasAt(bits, off, x) && HasAt(bits, off + |x|, y) {
      assert bits[off..off + |x + y|] == bits[off..off + |x|] + bits[off + |x|..off + |x| + |y|];
    }
  }

  lemma HasAtSlice(bits: seq<bool>, off: nat, x: seq<bool>, n: nat)
    requires HasAt(bits, off, x) && n == |x|
    ensures off + n <= |bits| && bits[off..off + n] == x
  {
  }

  // ----- Fixed-width fields -----

  /** `read_bits`: n bits as an unsigned number. */
  function DecodeBits(bits: seq<bool>, off: nat, n: nat): (d: Decoded<nat>)
    requires off <= |bits|
    ensures off <= d.next <= |bits|
    ensures d.Good? ==> n <= 64 && d.value < Pow2(n)
  {
    if n > 64 then Bad(InvalidBitWidth(n), off)
    else if n > |bits| - off then Bad(UnexpectedEof(n, |bits| - off), off)
    else Good(FromBits(bits[off..off + n]), off + n)
  }

  lemma FieldRoundTrip(bits: seq<bool>, off: nat, v: nat, n: nat)
    requires n <= 64 && HasAt(bits, off, ToBits(v, n))
    ensures DecodeBits(bits, off, n) == Good(v % Pow2(n), off + n)
  {
    hide FromBits, Pow2, ToBits, HasAt;
    HasAtSlice(bits, off, ToBits(v, n), n);
    FromToBits(v, n);
  }

  lemma FieldExact(bits: seq<bool>, off: nat, v: nat, n: nat)
    requires n <= 64 && v < Pow2(n) && HasAt(bits, off, ToBits(v, n))
    ensures off <= |bits| && DecodeBits(bits, off, n) == Good(v, off + n)
  {
    hide HasAt, DecodeBits, Pow2, ToBits;
    HasAtSlice(bits, off, ToBits(v, n), n);
    FieldRoundTrip(bits, off, v, n);
    LowWhole(v, n);
  }

  /** A list of (value, width) writes, one after the other. */
  function EncodeFields(fields: seq<(u64, nat)>): seq<bool> {
    if fields == [] then [] else ToBits(fields[0].0, fields[0].1) + EncodeFields(fields[1..])
  }

  function DecodeFields(bits: seq<bool>, off: nat, widths: seq<nat>): Decoded<seq<nat>>
    requires off <= |bits|
    decreases |widths|
  {
    if widths == [] then Good([], off)
    else
      match DecodeBits(bits, off, widths[0]) {
        case Bad(e, next) => Bad(e, next)
        case Good(v, next) =>
          match DecodeFields(bits, next, widths[1..]) {
            case Bad(e, last) => Bad(e, last)
            case Good(vs, last) => Good([v] + vs, last)
          }
      }
  }

  function Widths(fields: seq<(u64, nat)>): (w: seq<nat>)
    ensures |w| == |fields| && forall i :: 0 <= i < |w| ==> w[i] == fields[i].1
  {
    seq(|fields|, i requires 0 <= i < |fields| => fields[i].1)
  }

  /** Each value reduced to its width. */
  function Reduced(fields: seq<(u64, nat)>): (v: seq<nat>)
    ensures |v| == |fields|
  {
    seq(|fields|, i requires 0 <= i < |fields| => fields[i].0 % Pow2(fields[i].1))
  }

  /** Any list of writes, at any alignment, reads back as each value modulo 2^width. */
  lemma {:induction false} FieldsRoundTrip(bits: seq<bool>, off: nat, fields: seq<(u64, nat)>)
    requires forall i :: 0 <= i < |fields| ==> fields[i].1 <= 64
    requires HasAt(bits, off, EncodeFields(fields))
    ensures DecodeFields(bits, off, Widths(fields)) == Good(Reduced(fields), off + |EncodeFields(fields)|)
    decreases |fields|
  {
    hide HasAt, ToBits, DecodeBits, Pow2;
    HasAtBounds(bits, off, EncodeFields(fields));
    if fields == [] {
      assert Reduced(fields) == [];
    } else {
      var x, y := ToBits(fields[0].0, fields[0].1), EncodeFields(fields[1..]);
      HasAtSplit(bits, off, x, y);
      FieldRoundTrip(bits, off, fields[0].0, fields[0].1);
      FieldsRoundTrip(bits, off + |x|, fields[1..]);
      assert Widths(fields)[1..] == Widths(fields[1..]);
      assert Reduced(fields) == [Reduced(fields)[0]] + Reduced(fields[1..]);
    }
  }

  lemma HasAtBounds(bits: seq<bool>, off: nat, x: seq<bool>)
    requires HasAt(bits, off, x)
    ensures off + |x| <= |bits|
  {
  }

  // ----- Bytes -----

  function BitsToBytes(bits: seq<bool>): (bytes: seq<u8>)
    requires |bits| % 8 == 0
    ensures 8 * |bytes| == |bits|
  {
    Pow2Small();
    if bits == [] then [] else [FromBits(bits[..8])] + BitsToBytes(bits[8..])
  }

  lemma {:induction false} BytesRoundTrip(bytes: seq<u8>)
    ensures BitsToBytes(BytesToBits(bytes)) == bytes
  {
    if bytes != [] {
      var bits := BytesToBits(bytes);
      assert bits[..8] == ToBits(bytes[0], 8) && bits[8..] == BytesToBits(bytes[1..]);
      FromToBits(bytes[0], 8);
      Pow2Small();
      BytesRoundTrip(bytes[1..]);
    }
  }

  function DecodeBytes(bits: seq<bool>, off: nat, count: nat): (d: Decoded<seq<u8>>)
    requires off <= |bits|
    ensures off <= d.next <= |bits|
    ensures d.Good? ==> |d.value| == count
  {
    if 8 * count > |bits| - off then Bad(UnexpectedEof(8 * count, |bits| - off), off)
    else Good(BitsToBytes(bits[off..off + 8 * count]), off + 8 * count)
  }

  lemma DecodeBytesSlice(bits: seq<bool>, off: nat, bytes: seq<u8>, n: nat)
    requires n == |bytes| && off + 8 * n <= |bits| && bits[off..off + 8 * n] == BytesToBits(bytes)
    ensures DecodeBytes(bits, off, n) == Good(bytes, off + 8 * n)
  {
    hide BytesToBits, BitsToBytes;
    BytesRoundTrip(bytes);
  }

  /** Bytes whose bits stand at `off` are read back from there. */
  lemma DecodeBytesAt(bits: seq<bool>, off: nat, bytes: seq<u8>, x: seq<bool>, n: nat)
    requires n == |bytes| && x == BytesToBits(bytes) && HasAt(bits, off, x)
    ensures off <= |bits| && DecodeBytes(bits, off, n) == Good(bytes, off + |x|)
  {
    hide BytesToBits, BitsToBytes, HasAt, DecodeBytes;
    HasAtSlice(bits, off, x, 8 * n);
    DecodeBytesSlice(bits, off, bytes, n);
  }

  // ----- Varints -----

  /** Unsigned LEB128: seven bits a byte, low bits first, the top bit saying more follow. */
  function VarintBytes(v: nat): (bytes: seq<u8>)
    ensures |bytes| > 0
  {
    Pow2Small();
    var low, rest := Low(v, 7), High(v, 7);
    if rest == 0 then [low] else [Join(low, 7, 1)] + VarintBytes(rest)
  }

  lemma VarintValueBound(acc: nat, i: nat, val: nat)
    requires i < 10 && acc < Pow2(7 * i) && val < 128 && (i == 9 ==> val < 2)
    ensures Join(acc, 7 * i, val) < Pow2(if i == 9 then 64 else 7 * (i + 1)) <= 0x1_0000_0000_0000_0000
  {
    hide Pow2, Join;
    Pow2Small();
    Pow2Values();
    assert val * Pow2(7 * i) == Pow2(7 * i) * val;
    if i == 9 {
      Pow2Add(7 * i, 1);
      MulStep(Pow2(7 * i), val, 2);
    } else {
      Pow2Add(7 * i, 7);
      MulStep(Pow2(7 * i), val, 128);
      Pow2Mono(7 * (i + 1), 64);
    }
  }

  /** The decoding loop after `i` bytes with `acc` collected: at most ten bytes, at most 64 bits. */
  function DecodeVarint(bits: seq<bool>, off: nat, i: nat, acc: nat): (d: Decoded<u64>)
    requires off <= |bits| && i <= 10
    requires acc < Pow2(if i == 10 then 64 else 7 * i)
    ensures off <= d.next <= |bits|
    decreases 10 - i
  {
    if i == 10 then Bad(InvalidVarint, off)
    else
      Pow2Small();
      match DecodeBits(bits, off, 8) {
        case Bad(e, next) => Bad(e, next)
        case Good(byte, next) =>
          var val := Low(byte, 7);
          if i == 9 && High(val, 1) != 0 then Bad(InvalidVarint, next)
          else
            VarintValueBound(acc, i, val);
            var acc' := Join(acc, 7 * i, val);
            if High(byte, 7) == 0 then Good(acc', next)
            else DecodeVarint(bits, next, i + 1, acc')
      }
  }

  function DecodeVarint0(bits: seq<bool>, off: nat): (d: Decoded<u64>)
    requires off <= |bits|
    ensures off <= d.next <= |bits|
  {
    DecodeVarint(bits, off, 0, 0)
  }

  lemma VarintStep(acc: nat, i: nat, v: nat)
    requires acc < Pow2(7 * i)
    ensures Join(acc, 7 * i, Low(v, 7)) + High(v, 7) * Pow2(7 * (i + 1)) == acc + v * Pow2(7 * i)
  {
    hide Pow2, Low, High, Join;
    Pow2Small();
    Pow2Add(7 * i, 7);
    var p, a, b := Pow2(7 * i), Low(v, 7), High(v, 7);
    assert v == 128 * b + a;
    assert v * p == 128 * (b * p) + a * p;
    assert b * (p * 128) == 128 * (b * p);
  }

  lemma VarintShrinks(v: nat, i: nat)
    requires i < 10 && v < Pow2(64 - 7 * i)
    ensures i < 9 ==> High(v, 7) < Pow2(64 - 7 * (i + 1))
    ensures i == 9 ==> v < 2 && High(v, 7) == 0 && Low(v, 7) == v && High(v, 1) == 0
  {
    hide Pow2, Low, High;
    Pow2Small();
    if i < 9 {
      Pow2Add(7, 64 - 7 * (i + 1));
      assert v < 128 * Pow2(64 - 7 * (i + 1));
    }
  }

  /** One round of the decoding loop. */
  lemma VarintRound(bits: seq<bool>, off: nat, i: nat, acc: nat)
    requires off <= |bits| && i < 10 && acc < Pow2(7 * i)
    ensures match DecodeBits(bits, off, 8)
            case Bad(e, n) => DecodeVarint(bits, off, i, acc) == Bad(e, n)
            case Good(byte, n) =>
              var val := Low(byte, 7);
              if i == 9 && High(val, 1) != 0 then DecodeVarint(bits, off, i, acc) == Bad(InvalidVarint, n)
              else
                val < 128 && Join(acc, 7 * i, val) < Pow2(if i == 9 then 64 else 7 * (i + 1)) <= 0x1_0000_0000_0000_0000
                && DecodeVarint(bits, off, i, acc) == if High(byte, 7) == 0 then Good(Join(acc, 7 * i, val), n)
                                                      else DecodeVarint(bits, n, i + 1, Join(acc, 7 * i, val))
  {
    hide Low, High, Join, DecodeBits, Pow2;
    Pow2Small();
    match DecodeBits(bits, off, 8) {
      case Bad(_, _) =>
      case Good(byte, n) =>
        if !(i == 9 && High(Low(byte, 7), 1) != 0) {
          TenthByte(Low(byte, 7));
          VarintValueBound(acc, i, Low(byte, 7));
        }
    }
  }

  lemma TenthByte(val: nat)
    ensures High(val, 1) == 0 <==> val < 2
  {
    Pow2Small();
  }

  /** The first byte of a varint, as the decoder takes it apart. */
  lemma VarintHead(v: nat)
    ensures var byte := VarintBytes(v)[0] as nat;
            Low(byte, 7) == Low(v, 7) && (High(byte, 7) == 0 <==> High(v, 7) == 0)
    ensures VarintBytes(v)[1..] == if High(v, 7) == 0 then [] else VarintBytes(High(v, 7))
  {
    hide Pow2, Low, High, Join;
    Pow2Small();
    LowWhole(Low(v, 7), 7);
    FieldsApart(Low(v, 7), 7, 1, 1);
  }

  lemma {:induction false} VarintRoundTripFrom(bits: seq<bool>, off: nat, v: nat, i: nat, acc: nat)
    requires i < 10 && acc < Pow2(7 * i) && v < Pow2(64 - 7 * i)
    requires HasAt(bits, off, BytesToBits(VarintBytes(v)))
    ensures DecodeVarint(bits, off, i, acc) == Good(acc + v * Pow2(7 * i), off + 8 * |VarintBytes(v)|)
    ensures |VarintBytes(v)| <= 10 - i
    decreases 10 - i
  {
    hide Pow2, Low, High, Join, DecodeVarint, DecodeBits, HasAt, BytesToBits, VarintBytes;
    HasAtBounds(bits, off, BytesToBits(VarintBytes(v)));
    VarintHead(v);
    VarintShrinks(v, i);
    FirstByte(bits, off, VarintBytes(v));
    VarintRound(bits, off, i, acc);
    VarintStep(acc, i, v);
    if High(v, 7) != 0 {
      VarintRoundTripFrom(bits, off + 8, High(v, 7), i + 1, Join(acc, 7 * i, Low(v, 7)));
    }
  }

  lemma FirstByte(bits: seq<bool>, off: nat, bytes: seq<u8>)
    requires bytes != [] && HasAt(bits, off, BytesToBits(bytes))
    ensures DecodeBits(bits, off, 8) == Good(bytes[0] as nat, off + 8)
    ensures HasAt(bits, off + 8, BytesToBits(bytes[1..]))
  {
    BytesUnfold(bytes);
    hide *;
    Pow2Small();
    HasAtSplit(bits, off, ToBits(bytes[0], 8), BytesToBits(bytes[1..]));
    FieldExact(bits, off, bytes[0], 8);
  }

  lemma BytesUnfold(bytes: seq<u8>)
    requires bytes != []
    ensures BytesToBits(bytes) == ToBits(bytes[0], 8) + BytesToBits(bytes[1..]) && |ToBits(bytes[0], 8)| == 8
  {
    hide ToBits;
  }

  lemma VarintStart(v: u64)
    ensures 0 < Pow2(7 * 0) && v < Pow2(64 - 7 * 0) && 0 + v * Pow2(7 * 0) == v
  {
    Pow2Values();
    assert Pow2(7 * 0) == 1;
  }

  /** Every 64-bit value round-trips in at most ten bytes. */
  lemma VarintRoundTrip(bits: seq<bool>, off: nat, v: u64, x: seq<bool>)
    requires x == BytesToBits(VarintBytes(v)) && HasAt(bits, off, x)
    ensures off <= |bits| && DecodeVarint0(bits, off) == Good(v, off + |x|)
    ensures |VarintBytes(v)| <= 10
  {
    hide Pow2, DecodeVarint, VarintBytes, BytesToBits, HasAt;
    HasAtBounds(bits, off, x);
    VarintStart(v);
    VarintRoundTripFrom(bits, off, v, 0, 0);
  }

  /** The byte whose bits start at `p`. */
  function ByteAt(bits: seq<bool>, p: nat): (b: u8)
    requires p + 8 <= |bits|
  {
    Pow2Small();
    FromBits(bits[p..p + 8])
  }

  /** The number that n groups of seven bits spell from `off`, low groups first. */
  function Groups(bits: seq<bool>, off: nat, n: nat): nat
    requires off + 8 * n <= |bits|
    decreases n
  {
    if n == 0 then 0 else ByteAt(bits, off) % 128 + 128 * Groups(bits, off + 8, n - 1)
  }

  /** The first n bytes from `off` all say that another follows. */
  ghost predicate AllFollowed(bits: seq<bool>, off: nat, n: nat)
    requires off + 8 * n <= |bits|
  {
    forall j: nat :: j < n ==> ByteAt(bits, off + 8 * j) >= 128
  }

  /** What decoding a varint of which i bytes are already read comes to, on any bits. */
  ghost predicate VarintOutcome(bits: seq<bool>, off: nat, i: nat, acc: nat, d: Decoded<u64>) {
    && off <= d.next <= |bits| && (d.next - off) % 8 == 0
    && var n := (d.next - off) / 8;
       match d {
         case Good(v, _) =>
           && 1 <= n && i + n <= 10
           && AllFollowed(bits, off, n - 1)
           && ByteAt(bits, d.next - 8) < (if i + n == 10 then 2 else 128)
           && v == acc + Pow2(7 * i) * Groups(bits, off, n)
         case Bad(UnexpectedEof(requested, remaining), _) =>
           requested == 8 && remaining == |bits| - d.next < 8 && i + n < 10 && AllFollowed(bits, off, n)
         case Bad(InvalidVarint, _) =>
           1 <= n && i + n == 10 && AllFollowed(bits, off, n - 1) && ByteAt(bits, d.next - 8) >= 2
         case Bad(_, _) => false
       }
  }

  lemma VarintByte(bits: seq<bool>, off: nat)
    requires off <= |bits|
    ensures Pow2(7) == 128
    ensures match DecodeBits(bits, off, 8)
            case Bad(e, n) => |bits| - off < 8 && e == UnexpectedEof(8, |bits| - off) && n == off
            case Good(b, n) => off + 8 <= |bits| && n == off + 8 && b == ByteAt(bits, off) && b < 256
  {
    Pow2Small();
    hide FromBits, Pow2;
  }

  lemma TopBits(b: nat)
    ensures b < 256 ==> (High(b, 7) == 0 <==> b < 128) && Low(b, 7) == b % 128
  {
    Pow2Small();
    hide Pow2, High, Low;
  }

  /** The byte at the head of the rest of a varint, put before it. */
  lemma OneMoreByte(bits: seq<bool>, off: nat, n: nat)
    requires off + 8 + 8 * n <= |bits| && ByteAt(bits, off) >= 128 && AllFollowed(bits, off + 8, n)
    ensures AllFollowed(bits, off, n + 1)
  {
    hide ByteAt;
    forall j: nat | j < n + 1
      ensures ByteAt(bits, off + 8 * j) >= 128
    {
      if j > 0 { assert off + 8 * j == off + 8 + 8 * (j - 1); }
    }
  }

  lemma GroupsStep(bits: seq<bool>, off: nat, i: nat, acc: nat, n: nat)
    requires off + 8 + 8 * n <= |bits|
    ensures acc + (ByteAt(bits, off) % 128) * Pow2(7 * i) + Pow2(7 * (i + 1)) * Groups(bits, off + 8, n)
            == acc + Pow2(7 * i) * Groups(bits, off, n + 1)
  {
    hide ByteAt, Pow2;
    Pow2Add(7 * i, 7);
    Pow2Small();
    var p, b, g := Pow2(7 * i), ByteAt(bits, off) % 128, Groups(bits, off + 8, n);
    hide Groups;
    assert Groups(bits, off, n + 1) == b + 128 * g by { GroupsUnfold(bits, off, n + 1); }
    assert p * (b + 128 * g) == b * p + (p * 128) * g;
  }

  lemma GroupsUnfold(bits: seq<bool>, off: nat, n: nat)
    requires off + 8 * n <= |bits|
    ensures Groups(bits, off, n)
            == if n == 0 then 0 else ByteAt(bits, off) % 128 + 128 * Groups(bits, off + 8, n - 1)
  {
    hide ByteAt;
  }

  /** One more byte before the outcome of the rest. */
  lemma OutcomeExtends(bits: seq<bool>, off: nat, i: nat, acc: nat, d: Decoded<u64>)
    requires off + 8 <= |bits| && ByteAt(bits, off) >= 128
    requires VarintOutcome(bits, off + 8, i + 1, acc + (ByteAt(bits, off) % 128) * Pow2(7 * i), d)
    ensures VarintOutcome(bits, off, i, acc, d)
  {
    hide ByteAt, Pow2, AllFollowed, Groups;
    var n := (d.next - (off + 8)) / 8;
    assert (d.next - off) / 8 == n + 1;
    match d {
      case Good(_, _) =>
        OneMoreByte(bits, off, n - 1);
        GroupsStep(bits, off, i, acc, n);
      case Bad(UnexpectedEof(_, _), _) => OneMoreByte(bits, off, n);
      case Bad(InvalidVarint, _) => OneMoreByte(bits, off, n - 1);
      case _ =>
    }
  }

  lemma OutcomeEnds(bits: seq<bool>, off: nat, i: nat, acc: nat, d: Decoded<u64>)
    requires off <= |bits| && i < 10
    requires || (|bits| - off < 8 && d == Bad(UnexpectedEof(8, |bits| - off), off))
             || (off + 8 <= |bits| && i == 9 && ByteAt(bits, off) >= 2 && d == Bad(InvalidVarint, off + 8))
             || (off + 8 <= |bits| && ByteAt(bits, off) < (if i == 9 then 2 else 128)
                 && d == Good(acc + ByteAt(bits, off) % 128 * Pow2(7 * i), off + 8))
    ensures VarintOutcome(bits, off, i, acc, d)
  {
    hide ByteAt, Pow2, Groups;
    if d.Good? {
      assert Groups(bits, off, 1) == ByteAt(bits, off) % 128 by {
        GroupsUnfold(bits, off, 1);
        GroupsUnfold(bits, off + 8, 0);
      }
    }
  }

  lemma {:induction false} VarintComesTo(bits: seq<bool>, off: nat, i: nat, acc: nat)
    requires off <= |bits| && i < 10 && acc < Pow2(7 * i)
    ensures VarintOutcome(bits, off, i, acc, DecodeVarint(bits, off, i, acc))
    decreases 10 - i
  {
    hide *;
    VarintRound(bits, off, i, acc);
    VarintByte(bits, off);
    var d := DecodeVarint(bits, off, i, acc);
    if off + 8 > |bits| {
      OutcomeEnds(bits, off, i, acc, d);
    } else {
      var b := ByteAt(bits, off);
      TopBits(b);
      TenthByte(b % 128);
      var next := acc + b % 128 * Pow2(7 * i);
      if b < (if i == 9 then 2 else 128) || i == 9 {
        if i == 9 && b % 128 < 2 { NoEleventhByte(bits, off + 8, next); }
        OutcomeEnds(bits, off, i, acc, d);
      } else {
        VarintComesTo(bits, off + 8, i + 1, next);
        OutcomeExtends(bits, off, i, acc, d);
      }
    }
  }

  lemma NoEleventhByte(bits: seq<bool>, off: nat, acc: nat)
    requires off <= |bits| && acc < Pow2(64)
    ensures DecodeVarint(bits, off, 10, acc) == Bad(InvalidVarint, off)
  {
    hide Pow2;
  }

  /**
   Decoding a varint from any bits. It ends at the first byte below 128, whose value and the seven
   bits of each byte before it make the number; ten bytes without one, or a tenth byte above 1, are
   invalid with all ten read; a stream that ends first leaves the cursor where it ended.
   */
  lemma VarintExactly(bits: seq<bool>, off: nat)
    requires off <= |bits|
    ensures VarintOutcome(bits, off, 0, 0, DecodeVarint0(bits, off))
  {
    assert Pow2(0) == 1;
    VarintComesTo(bits, off, 0, 0);
  }

  // ----- Delta transforms -----

  /** Four consecutive fields: w in a bits, x in b, y in c and z in d. */
  function Four(w: nat, a: nat, x: nat, b: nat, y: nat, c: nat, z: nat, d: nat): (bits: seq<bool>)
    ensures |bits| == a + b + c + d
  {
    ToBits(w, a) + (ToBits(x, b) + (ToBits(y, c) + ToBits(z, d)))
  }

  function DeltaTag(d: Delta): nat {
    match d case Stationary => 0 case Small(_, _, _, _) => 1 case Medium(_, _, _, _) => 2 case Full(_, _, _) => 3
  }

  /** The bits after the tag. */
  function DeltaFields(d: Delta): seq<bool> {
    match d
    case Stationary => []
    case Small(dx, dz, dy, dyaw) =>
      var (a, b, c, e) := SmallWire(dx, dz, dy, dyaw);
      Four(a, 4, b, 4, c, 3, e, 3)
    case Medium(dx, dz, dy, yaw) => Four(Biased(dy, 32, 6), 6, dx % 256, 8, dz % 256, 8, yaw, 8)
    case Full(coord, yaw, flags) => BytesToBits(PackTactical(coord, yaw, flags))
  }

  function EncodeDelta(d: Delta): seq<bool> { ToBits(DeltaTag(d), 2) + DeltaFields(d) }

  function DecodeFour(bits: seq<bool>, off: nat, a: nat, b: nat, c: nat, d: nat)
    : (r: Decoded<(nat, nat, nat, nat)>)
    requires off <= |bits| && a <= 64 && b <= 64 && c <= 64 && d <= 64
    ensures off <= r.next <= |bits|
    ensures r.Good? ==> r.value.0 < Pow2(a) && r.value.1 < Pow2(b) && r.value.2 < Pow2(c) && r.value.3 < Pow2(d)
  {
    match DecodeBits(bits, off, a) {
      case Bad(e, n) => Bad(e, n)
      case Good(w, n1) =>
        match DecodeBits(bits, n1, b) {
          case Bad(e, n) => Bad(e, n)
          case Good(x, n2) =>
            match DecodeBits(bits, n2, c) {
              case Bad(e, n) => Bad(e, n)
              case Good(y, n3) =>
                match DecodeBits(bits, n3, d) {
                  case Bad(e, n) => Bad(e, n)
                  case Good(z, n4) => Good((w, x, y, z), n4)
                }
            }
        }
    }
  }

  function DecodeDelta(bits: seq<bool>, off: nat): (r: Decoded<Delta>)
    requires off <= |bits|
    ensures off <= r.next <= |bits|
  {
    Pow2Small();
    match DecodeBits(bits, off, 2) {
      case Bad(e, n) => Bad(e, n)
      case Good(tag, n) =>
        if tag == 0 then Good(Stationary, n)
        else if tag == 1 then
          match DecodeFour(bits, n, 4, 4, 3, 3) {
            case Bad(e, m) => Bad(e, m)
            case Good((x, z, y, w), m) => Good(Small(x - 8, z - 8, y - 4, w - 4), m)
          }
        else if tag == 2 then
          match DecodeFour(bits, n, 6, 8, 8, 8) {
            case Bad(e, m) => Bad(e, m)
            case Good((y, x, z, w), m) => Good(Medium(AsI8(x), AsI8(z), y - 32, w), m)
          }
        else
          match DecodeBytes(bits, n, 7) {
            case Bad(e, m) => Bad(e, m)
            case Good(b, m) => Good(UnpackedFull(b), m)
          }
    }
  }

  lemma FourSplit(bits: seq<bool>, off: nat, w: nat, a: nat, x: nat, b: nat, y: nat, c: nat, z: nat, d: nat)
    requires HasAt(bits, off, Four(w, a, x, b, y, c, z, d))
    ensures HasAt(bits, off, ToBits(w, a)) && HasAt(bits, off + a, ToBits(x, b))
    ensures HasAt(bits, off + a + b, ToBits(y, c)) && HasAt(bits, off + a + b + c, ToBits(z, d))
  {
    hide HasAt, ToBits;
    HasAtSplit(bits, off, ToBits(w, a), ToBits(x, b) + (ToBits(y, c) + ToBits(z, d)));
    HasAtSplit(bits, off + a, ToBits(x, b), ToBits(y, c) + ToBits(z, d));
    HasAtSplit(bits, off + a + b, ToBits(y, c), ToBits(z, d));
  }

  lemma FourRoundTrip(bits: seq<bool>, off: nat, w: nat, a: nat, x: nat, b: nat, y: nat, c: nat, z: nat, d: nat)
    requires a <= 64 && b <= 64 && c <= 64 && d <= 64
    requires w < Pow2(a) && x < Pow2(b) && y < Pow2(c) && z < Pow2(d)
    requires HasAt(bits, off, Four(w, a, x, b, y, c, z, d))
    ensures off <= |bits|
    ensures DecodeFour(bits, off, a, b, c, d) == Good((w, x, y, z), off + a + b + c + d)
  {
    hide *;
    FourSplit(bits, off, w, a, x, b, y, c, z, d);
    FieldExact(bits, off, w, a);
    FieldExact(bits, off + a, x, b);
    FieldExact(bits, off + a + b, y, c);
    FieldExact(bits, off + a + b + c, z, d);
    FourDecodes(bits, off, a, b, c, d, w, x, y, z);
  }

  lemma FourDecodes(bits: seq<bool>, off: nat, a: nat, b: nat, c: nat, d: nat, w: nat, x: nat, y: nat, z: nat)
    requires off + a + b + c + d <= |bits| && a <= 64 && b <= 64 && c <= 64 && d <= 64
    requires DecodeBits(bits, off, a) == Good(w, off + a)
    requires DecodeBits(bits, off + a, b) == Good(x, off + a + b)
    requires DecodeBits(bits, off + a + b, c) == Good(y, off + a + b + c)
    requires DecodeBits(bits, off + a + b + c, d) == Good(z, off + a + b + c + d)
    ensures DecodeFour(bits, off, a, b, c, d) == Good((w, x, y, z), off + a + b + c + d)
  {
    hide DecodeBits;
  }

  /** A two-bit tag and then four fields. */
  lemma TagThenFour(bits: seq<bool>, off: nat, tag: nat, x: seq<bool>,
                    f0: nat, a: nat, f1: nat, b: nat, f2: nat, c: nat, f3: nat, d: nat)
    requires tag < 4 && a <= 64 && b <= 64 && c <= 64 && d <= 64
    requires f0 < Pow2(a) && f1 < Pow2(b) && f2 < Pow2(c) && f3 < Pow2(d)
    requires x == Four(f0, a, f1, b, f2, c, f3, d) && HasAt(bits, off, ToBits(tag, 2) + x)
    ensures off + 2 <= |bits| && DecodeBits(bits, off, 2) == Good(tag, off + 2)
    ensures DecodeFour(bits, off + 2, a, b, c, d) == Good((f0, f1, f2, f3), off + 2 + a + b + c + d)
  {
    hide Pow2, HasAt, DecodeBits, DecodeFour, ToBits, Four;
    HasAtSplit(bits, off, ToBits(tag, 2), x);
    HasAtBounds(bits, off + 2, x);
    Pow2Small();
    FieldExact(bits, off, tag, 2);
    FourRoundTrip(bits, off + 2, f0, a, f1, b, f2, c, f3, d);
  }

  lemma DecodeSmall(bits: seq<bool>, off: nat, a: nat, b: nat, c: nat, e: nat, m: nat)
    requires a < 16 && b < 16 && c < 8 && e < 8
    requires off + 2 <= |bits| && DecodeBits(bits, off, 2) == Good(1, off + 2)
    requires DecodeFour(bits, off + 2, 4, 4, 3, 3) == Good((a, b, c, e), m)
    ensures DecodeDelta(bits, off) == Good(Small(a as int - 8, b as int - 8, c as int - 4, e as int - 4), m)
  {
    hide DecodeBits, DecodeFour;
  }

  lemma SmallDelta(bits: seq<bool>, off: nat, dx: i8, dz: i8, dy: i8, dyaw: i8)
    requires HasAt(bits, off, EncodeDelta(Small(dx, dz, dy, dyaw)))
    ensures off <= |bits| && DecodeDelta(bits, off) == Good(Sent(Small(dx, dz, dy, dyaw)), off + 16)
  {
    Pow2Small();
    hide Pow2, HasAt, Biased, DecodeBits, DecodeFour, DecodeDelta, ToBits, Four;
    var (a, b, c, e) := SmallWire(dx, dz, dy, dyaw);
    TagThenFour(bits, off, 1, Four(a, 4, b, 4, c, 3, e, 3), a, 4, b, 4, c, 3, e, 3);
    DecodeSmall(bits, off, a, b, c, e, off + 16);
  }

  lemma MediumDelta(bits: seq<bool>, off: nat, dx: i8, dz: i8, dy: i8, yaw: u8)
    requires HasAt(bits, off, EncodeDelta(Medium(dx, dz, dy, yaw)))
    ensures off <= |bits| && DecodeDelta(bits, off) == Good(Sent(Medium(dx, dz, dy, yaw)), off + 32)
  {
    hide *;
    var a, b, c := MediumWire(dx, dz, dy, yaw);
    TagThenFour(bits, off, 2, Four(a, 6, b, 8, c, 8, yaw, 8), a, 6, b, 8, c, 8, yaw, 8);
    DecodeMedium(bits, off, a, b, c, yaw, off + 32);
  }

  /** The fields of a medium delta on the wire, and what they keep. */
  lemma MediumWire(dx: i8, dz: i8, dy: i8, yaw: u8) returns (a: nat, b: nat, c: nat)
    ensures && a < 64 && b < 256 && c < 256 && Pow2(6) == 64 && Pow2(8) == 256
            && EncodeDelta(Medium(dx, dz, dy, yaw)) == ToBits(2, 2) + Four(a, 6, b, 8, c, 8, yaw, 8)
            && Sent(Medium(dx, dz, dy, yaw)) == Medium(AsI8(b), AsI8(c), a as int - 32, yaw)
  {
    Pow2Small();
    a, b, c := Biased(dy, 32, 6), dx % 256, dz % 256;
    hide Pow2, ToBits, Four, AsI8;
    AsI8Back(dx);
    AsI8Back(dz);
  }

  /** A byte read as two's complement is the value it was cast from. */
  lemma AsI8Back(d: i8)
    ensures AsI8(d % 256) == d
  {
  }

  lemma DecodeMedium(bits: seq<bool>, off: nat, a: nat, b: nat, c: nat, e: nat, m: nat)
    requires a < 64 && b < 256 && c < 256 && e < 256
    requires off + 2 <= |bits| && DecodeBits(bits, off, 2) == Good(2, off + 2)
    requires DecodeFour(bits, off + 2, 6, 8, 8, 8) == Good((a, b, c, e), m)
    ensures DecodeDelta(bits, off) == Good(Medium(AsI8(b), AsI8(c), a as int - 32, e), m)
  {
    hide DecodeBits, DecodeFour;
  }

  lemma FullDelta(bits: seq<bool>, off: nat, coord: CellCoord, yaw: u8, flags: u8)
    requires HasAt(bits, off, EncodeDelta(Full(coord, yaw, flags)))
    ensures off <= |bits| && DecodeDelta(bits, off) == Good(Sent(Full(coord, yaw, flags)), off + 58)
  {
    Pow2Small();
    hide Pow2, HasAt, DecodeBits, DecodeBytes, ToBits, BytesToBits, PackTactical, UnpackTactical;
    var b := PackTactical(coord, yaw, flags);
    var x := BytesToBits(b);
    HasAtSplit(bits, off, ToBits(3, 2), x);
    FieldExact(bits, off, 3, 2);
    DecodeBytesAt(bits, off + 2, b, x, 7);
    TacticalRoundTrip(coord, yaw, flags);
  }

  /** Decoding an encoded delta gives its sent form (the delta itself when in range). */
  lemma DeltaRoundTrip(bits: seq<bool>, off: nat, d: Delta)
    requires HasAt(bits, off, EncodeDelta(d))
    ensures off <= |bits| && DecodeDelta(bits, off) == Good(Sent(d), off + |EncodeDelta(d)|)
  {
    hide DecodeDelta, Sent;
    match d {
      case Stationary => StationaryDelta(bits, off);
      case Small(dx, dz, dy, dyaw) => SmallDelta(bits, off, dx, dz, dy, dyaw);
      case Medium(dx, dz, dy, yaw) => MediumDelta(bits, off, dx, dz, dy, yaw);
      case Full(coord, yaw, flags) => FullDelta(bits, off, coord, yaw, flags);
    }
  }

  lemma StationaryDelta(bits: seq<bool>, off: nat)
    requires HasAt(bits, off, EncodeDelta(Stationary))
    ensures off <= |bits| && DecodeDelta(bits, off) == Good(Sent(Stationary), off + 2)
  {
    HasAtBounds(bits, off, EncodeDelta(Stationary));
    Pow2Small();
    hide Pow2, HasAt, DecodeBits, ToBits;
    assert ToBits(0, 2) + [] == ToBits(0, 2);
    FieldExact(bits, off, 0, 2);
  }

  /** The bits of a delta, by its tag. */
  function DeltaSize(tag: nat): nat { if tag == 0 then 2 else if tag == 1 then 16 else if tag == 2 then 32 else 58 }

  /** A stream too short for a field is reported there: what the field asked for and what was left. */
  ghost predicate EndedAtField<T>(bits: seq<bool>, d: Decoded<T>) {
    d.Bad? && d.error.UnexpectedEof? && d.error.remainingBits == |bits| - d.next < d.error.requestedBits
  }

  lemma FourOutcome(bits: seq<bool>, off: nat, a: nat, b: nat, c: nat, d: nat)
    requires off <= |bits| && a <= 64 && b <= 64 && c <= 64 && d <= 64
    ensures var r := DecodeFour(bits, off, a, b, c, d);
            if off + a + b + c + d <= |bits| then r.Good? && r.next == off + a + b + c + d else EndedAtField(bits, r)
  {
    hide FromBits, Pow2;
  }

  /** Any bits decode to a delta of the tier they name exactly when there are enough of them. */
  lemma DeltaExactly(bits: seq<bool>, off: nat)
    requires off <= |bits|
    ensures var d := DecodeDelta(bits, off);
            if off + 2 > |bits| then d == Bad(UnexpectedEof(2, |bits| - off), off)
            else
              var tag := FromBits(bits[off..off + 2]);
              if off + DeltaSize(tag) <= |bits|
              then d.Good? && d.next == off + DeltaSize(tag) && DeltaTag(d.value) == tag
              else EndedAtField(bits, d) && d.next >= off + 2
  {
    Pow2Small();
    if off + 2 <= |bits| {
      FourOutcome(bits, off + 2, 4, 4, 3, 3);
      FourOutcome(bits, off + 2, 6, 8, 8, 8);
    }
    hide FromBits, Pow2, DecodeFour, BitsToBytes, UnpackedFull;
  }

  // ----- Multi-resolution transforms and batches -----

  datatype Transform =
    | Tactical(coord: CellCoord, yaw: u8, flags: u8)
    | Midfield(mid: MidfieldCoord, yaw6: u8, flags: u8)
    | Horizon(far: HorizonCoord, heading: u8, flags: u8)
    | AtRest

  function Tag(t: Transform): nat {
    match t case Tactical(_, _, _) => 0 case Midfield(_, _, _) => 1 case Horizon(_, _, _) => 2 case AtRest => 3
  }

  function PayloadBytes(t: Transform): seq<u8> {
    match t
    case Tactical(c, yaw, flags) => PackTactical(c, yaw, flags)
    case Midfield(c, yaw, flags) => PackMidfield(c, yaw, flags)
    case Horizon(c, heading, flags) => PackHorizon(c, heading, flags)
    case AtRest => []
  }

  function EncodeTransform(t: Transform): seq<bool> { ToBits(Tag(t), 2) + BytesToBits(PayloadBytes(t)) }

  /** How many payload bytes follow each tag. */
  function PayloadSize(tag: nat): nat { if tag == 0 then 7 else if tag == 1 then 5 else if tag == 2 then 3 else 0 }

  function FromPayload(tag: nat, b: seq<u8>): Transform
    requires tag < 4 && |b| == PayloadSize(tag)
  {
    if tag == 0 then var (c, yaw, flags) := UnpackTactical(b); Tactical(c, yaw, flags)
    else if tag == 1 then var (c, yaw, flags) := UnpackMidfield(b); Midfield(c, yaw, flags)
    else if tag == 2 then var (c, heading, flags) := UnpackHorizon(b); Horizon(c, heading, flags)
    else AtRest
  }

  function DecodeTransform(bits: seq<bool>, off: nat): (r: Decoded<Transform>)
    requires off <= |bits|
    ensures off <= r.next <= |bits|
  {
    Pow2Small();
    match DecodeBits(bits, off, 2) {
      case Bad(e, n) => Bad(e, n)
      case Good(tag, n) =>
        match DecodeBytes(bits, n, PayloadSize(tag)) {
          case Bad(e, m) => Bad(e, m)
          case Good(b, m) => Good(FromPayload(tag, b), m)
        }
    }
  }

  /** Any bits decode to a transform of the tier they name exactly when there are enough of them. */
  lemma TransformExactly(bits: seq<bool>, off: nat)
    requires off <= |bits|
    ensures var d := DecodeTransform(bits, off);
            if off + 2 > |bits| then d == Bad(UnexpectedEof(2, |bits| - off), off)
            else
              var tag := FromBits(bits[off..off + 2]);
              var size := 8 * (if tag == 0 then 7 else if tag == 1 then 5 else if tag == 2 then 3 else 0);
              if off + 2 + size <= |bits|
              then d.Good? && d.next == off + 2 + size && Tag(d.value) == tag
              else d == Bad(UnexpectedEof(size, |bits| - off - 2), off + 2)
  {
    Pow2Small();
    hide FromBits, Pow2, BitsToBytes, UnpackTactical, UnpackMidfield, UnpackHorizon;
  }

  /** What each tier keeps of its fields. */
  function SentTransform(t: Transform): Transform {
    match t
    case Tactical(c, yaw, flags) => Tactical(c.(y := c.y % 0x1000), yaw, flags % 16)
    case Midfield(c, yaw, flags) => Midfield(MidfieldCoord(c.x % 1024, c.y, c.z % 1024), yaw % 64, flags % 16)
    case Horizon(c, heading, flags) => Horizon(HorizonCoord(c.x % 64, c.y % 32, c.z % 64), heading % 16, flags % 8)
    case AtRest => AtRest
  }

  predicate TransformInRange(t: Transform) {
    match t
    case Tactical(c, _, flags) => IsValid(c) && flags < 16
    case Midfield(c, yaw, flags) => c.x < 1024 && c.z < 1024 && yaw < 64 && flags < 16
    case Horizon(c, heading, flags) => c.x < 64 && c.y < 32 && c.z < 64 && heading < 16 && flags < 8
    case AtRest => true
  }

  lemma SentTransformExactlyInRange(t: Transform)
    ensures SentTransform(t) == t <==> TransformInRange(t)
  {
  }

  lemma PayloadRoundTrip(t: Transform)
    ensures |PayloadBytes(t)| == PayloadSize(Tag(t))
    ensures FromPayload(Tag(t), PayloadBytes(t)) == SentTransform(t)
  {
    hide PackTactical, UnpackTactical, PackMidfield, UnpackMidfield, PackHorizon, UnpackHorizon;
    match t {
      case Tactical(c, yaw, flags) => TacticalRoundTrip(c, yaw, flags);
      case Midfield(c, yaw, flags) => MidfieldRoundTrip(c, yaw, flags);
      case Horizon(c, heading, flags) => HorizonRoundTrip(c, heading, flags);
      case AtRest =>
    }
  }

  lemma TransformRoundTrip(bits: seq<bool>, off: nat, t: Transform)
    requires HasAt(bits, off, EncodeTransform(t))
    ensures off <= |bits| && DecodeTransform(bits, off) == Good(SentTransform(t), off + |EncodeTransform(t)|)
  {
    PayloadRoundTrip(t);
    hide Pow2, HasAt, DecodeBits, DecodeBytes, BytesToBits, ToBits, PayloadBytes, FromPayload, SentTransform;
    Pow2Small();
    var x := BytesToBits(PayloadBytes(t));
    HasAtSplit(bits, off, ToBits(Tag(t), 2), x);
    FieldExact(bits, off, Tag(t), 2);
    DecodeBytesAt(bits, off + 2, PayloadBytes(t), x, PayloadSize(Tag(t)));
  }

  datatype Entry = Entry(entityId: u32, transform: Transform)

  function EncodeEntry(e: Entry): seq<bool> {
    BytesToBits(VarintBytes(e.entityId)) + EncodeTransform(e.transform)
  }

  function EncodeEntries(entries: seq<Entry>): seq<bool> {
    if entries == [] then [] else EncodeEntry(entries[0]) + EncodeEntries(entries[1..])
  }

  function EncodeBatch(entries: seq<Entry>): seq<bool> {
    BytesToBits(VarintBytes(|entries|)) + EncodeEntries(entries)
  }

  function DecodeEntry(bits: seq<bool>, off: nat): (r: Decoded<Entry>)
    requires off <= |bits|
    ensures off <= r.next <= |bits|
  {
    match DecodeVarint0(bits, off) {
      case Bad(e, n) => Bad(e, n)
      case Good(id, n) =>
        match DecodeTransform(bits, n) {
          case Bad(e, m) => Bad(e, m)
          case Good(t, m) => Good(Entry(id % 0x1_0000_0000, t), m)
        }
    }
  }

  function DecodeEntries(bits: seq<bool>, off: nat, count: nat): (r: Decoded<seq<Entry>>)
    requires off <= |bits|
    ensures off <= r.next <= |bits|
    decreases count
  {
    if count == 0 then Good([], off)
    else
      match DecodeEntry(bits, off) {
        case Bad(e, n) => Bad(e, n)
        case Good(first, n) =>
          match DecodeEntries(bits, n, count - 1) {
            case Bad(e, m) => Bad(e, m)
            case Good(rest, m) => Good([first] + rest, m)
          }
      }
  }

  function DecodeBatch(bits: seq<bool>, off: nat): (r: Decoded<seq<Entry>>)
    requires off <= |bits|
    ensures off <= r.next <= |bits|
  {
    match DecodeVarint0(bits, off) {
      case Bad(e, n) => Bad(e, n)
      case Good(count, n) => DecodeEntries(bits, n, count)
    }
  }

  function SentEntries(entries: seq<Entry>): (s: seq<Entry>)
    ensures |s| == |entries|
  {
    seq(|entries|, i requires 0 <= i < |entries| => entries[i].(transform := SentTransform(entries[i].transform)))
  }

  lemma EntryRoundTrip(bits: seq<bool>, off: nat, e: Entry, x: seq<bool>)
    requires x == EncodeEntry(e) && HasAt(bits, off, x)
    ensures off <= |bits|
    ensures DecodeEntry(bits, off) == Good(e.(transform := SentTransform(e.transform)), off + |x|)
  {
    hide HasAt, DecodeTransform, DecodeVarint0, EncodeTransform, VarintBytes, BytesToBits, SentTransform;
    var id, t := BytesToBits(VarintBytes(e.entityId)), EncodeTransform(e.transform);
    HasAtSplit(bits, off, id, t);
    VarintRoundTrip(bits, off, e.entityId, id);
    TransformRoundTrip(bits, off + |id|, e.transform);
  }

  lemma SentCons(entries: seq<Entry>)
    ensures SentEntries(entries) ==
            if entries == [] then []
            else [entries[0].(transform := SentTransform(entries[0].transform))] + SentEntries(entries[1..])
  {
    hide SentTransform;
  }

  lemma DecodeEntriesCons(bits: seq<bool>, off: nat, count: nat, first: Entry, n: nat, rest: seq<Entry>, m: nat)
    requires off <= |bits| && n <= |bits| && count > 0
    requires DecodeEntry(bits, off) == Good(first, n) && DecodeEntries(bits, n, count - 1) == Good(rest, m)
    ensures DecodeEntries(bits, off, count) == Good([first] + rest, m)
  {
    hide DecodeEntry;
  }

  lemma EncodeEntriesCons(entries: seq<Entry>)
    ensures EncodeEntries(entries) ==
            if entries == [] then [] else EncodeEntry(entries[0]) + EncodeEntries(entries[1..])
  {
  }

  lemma {:induction false} EntriesRoundTrip(bits: seq<bool>, off: nat, entries: seq<Entry>, x: seq<bool>)
    requires x == EncodeEntries(entries) && HasAt(bits, off, x)
    ensures off <= |bits| && DecodeEntries(bits, off, |entries|) == Good(SentEntries(entries), off + |x|)
    decreases |entries|
  {
    hide HasAt, EncodeEntry, EncodeEntries, DecodeEntry, DecodeEntries, SentEntries, SentTransform;
    HasAtBounds(bits, off, x);
    SentCons(entries);
    EncodeEntriesCons(entries);
    if entries == [] {
      NoEntries(bits, off);
    } else {
      var first, rest := EncodeEntry(entries[0]), EncodeEntries(entries[1..]);
      HasAtSplit(bits, off, first, rest);
      EntryRoundTrip(bits, off, entries[0], first);
      EntriesRoundTrip(bits, off + |first|, entries[1..], rest);
      DecodeEntriesCons(bits, off, |entries|, entries[0].(transform := SentTransform(entries[0].transform)),
                        off + |first|, SentEntries(entries[1..]), off + |first| + |rest|);
    }
  }

  lemma NoEntries(bits: seq<bool>, off: nat)
    requires off <= |bits|
    ensures DecodeEntries(bits, off, 0) == Good([], off)
  {
  }

  /** The batch reader inverts the batch writer and consumes exactly the bits written. */
  lemma BatchRoundTrip(bits: seq<bool>, off: nat, entries: seq<Entry>)
    requires |entries| <= U64_MAX && HasAt(bits, off, EncodeBatch(entries))
    ensures off <= |bits|
    ensures DecodeBatch(bits, off) == Good(SentEntries(entries), off + |EncodeBatch(entries)|)
    ensures SentEntries(entries) == entries <==> forall e :: e in entries ==> TransformInRange(e.transform)
  {
    hide HasAt, DecodeVarint0, DecodeEntries, EncodeEntries, VarintBytes, BytesToBits, SentEntries, TransformInRange;
    var count, rest := BytesToBits(VarintBytes(|entries|)), EncodeEntries(entries);
    HasAtSplit(bits, off, count, rest);
    VarintRoundTrip(bits, off, |entries|, count);
    EntriesRoundTrip(bits, off + |count|, entries, rest);
    BatchExactlyInRange(entries);
  }

  lemma BatchExactlyInRange(entries: seq<Entry>)
    ensures SentEntries(entries) == entries <==> forall e :: e in entries ==> TransformInRange(e.transform)
  {
    forall i | 0 <= i < |entries|
      ensures SentEntries(entries)[i] == entries[i] <==> TransformInRange(entries[i].transform)
    {
      SentTransformExactlyInRange(entries[i].transform);
    }
    hide SentTransform, TransformInRange;
  }
}
