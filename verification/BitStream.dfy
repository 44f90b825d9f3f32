/**
 The bounded bit writer and reader. Both work on bytes with a bit cursor; the contracts say
 what they do to the stream of bits: a write puts exactly its bits at the cursor and disturbs
 no other, whether it takes a byte-aligned fast path or the chunked loop.
 */
module BitStream {
  import opened Words
  import opened Bitwise
  import opened BitStrings

  datatype BitstreamError =
    | BufferOverflow(requiredBits: nat, availableBits: nat)
    | UnexpectedEof(requestedBits: nat, remainingBits: nat)
    | InvalidBitWidth(width: nat)
    | InvalidVarint

  function LowOnes(n: nat): nat { Pow2(n) - 1 }

  lemma LowOnesBits(n: nat, k: nat)
    ensures Bit(LowOnes(n), k) <==> k < n
  {
    if k < n { BitZero(k); BitNot(0, n, k); } else { BitBound(LowOnes(n), n, k); }
  }

  function FieldMask(take: nat, shift: nat): u8
    requires take + shift <= 8
  {
    Pow2Small();
    Shl(LowOnes(take), shift) % Pow2(8)
  }

  lemma FieldMaskBits(take: nat, shift: nat, k: nat)
    requires take + shift <= 8 && k < 8
    ensures Bit(FieldMask(take, shift), k) <==> shift <= k < shift + take
  {
    BitTrunc(Shl(LowOnes(take), shift), 8, k);
    BitShl(LowOnes(take), shift, k);
    if k >= shift { LowOnesBits(take, k - shift); }
  }

  /** One step of the chunked write: `take` bits of `value` from bit shiftSrc, put at shiftDst of `b`. */
  function MergedByte(b: u8, value: nat, take: nat, shiftSrc: nat, shiftDst: nat): u8
    requires take + shiftDst <= 8
  {
    Pow2Small();
    var mask := FieldMask(take, shiftDst);
    var chunk := And(Shr(value, shiftSrc) % Pow2(8), LowOnes(take));
    AndBound(b, Not(mask, 8));
    OrBound(And(b, Not(mask, 8)), Shl(chunk, shiftDst) % Pow2(8), 8);
    Or(And(b, Not(mask, 8)), Shl(chunk, shiftDst) % Pow2(8))
  }

  lemma MergedByteBits(b: u8, value: nat, take: nat, shiftSrc: nat, shiftDst: nat, k: nat)
    requires take + shiftDst <= 8 && k < 8
    ensures Bit(MergedByte(b, value, take, shiftSrc, shiftDst), k)
            <==> if shiftDst <= k < shiftDst + take then Bit(value, shiftSrc + (k - shiftDst)) else Bit(b, k)
  {
    hide Bit, Shl, Shr, And, Or;
    Pow2Small();
    var mask := FieldMask(take, shiftDst);
    var low := Shr(value, shiftSrc) % Pow2(8);
    var chunk := And(low, LowOnes(take));
    BitOr(And(b, Not(mask, 8)), Shl(chunk, shiftDst) % Pow2(8), k);
    BitAnd(b, Not(mask, 8), k);
    BitNot(mask, 8, k);
    FieldMaskBits(take, shiftDst, k);
    BitTrunc(Shl(chunk, shiftDst), 8, k);
    BitShl(chunk, shiftDst, k);
    if k >= shiftDst {
      var j := k - shiftDst;
      BitAnd(low, LowOnes(take), j);
      LowOnesBits(take, j);
      BitTrunc(Shr(value, shiftSrc), 8, j);
      BitShr(value, shiftSrc, j);
    }
  }

  /** One step of the chunked read: `take` bits of `b` from bit `shift`. */
  function FieldOf(b: u8, take: nat, shift: nat): nat
    requires take + shift <= 8
  {
    Shr(And(b, FieldMask(take, shift)), shift)
  }

  lemma FieldOfBits(b: u8, take: nat, shift: nat, k: nat)
    requires take + shift <= 8
    ensures Bit(FieldOf(b, take, shift), k) <==> k < take && Bit(b, shift + k)
  {
    hide Bit, Shl, Shr, And, Or;
    BitShr(And(b, FieldMask(take, shift)), shift, k);
    BitAnd(b, FieldMask(take, shift), shift + k);
    if shift + k < 8 {
      FieldMaskBits(take, shift, shift + k);
    } else {
      Pow2Small();
      BitBound(b, 8, shift + k);
    }
  }

  /** Byte i of the `count` bytes of a word, most significant first. */
  function BigEndianByte(value: nat, count: nat, i: nat): u8
    requires i < count
  {
    Pow2Small();
    Shr(value, 8 * (count - 1 - i)) % Pow2(8)
  }

  lemma BigEndianBits(value: nat, count: nat, i: nat, k: nat)
    requires i < count && k < 8
    ensures Bit(BigEndianByte(value, count, i), k) == Bit(value, 8 * (count - 1 - i) + k)
  {
    hide Bit, Shr;
    BitTrunc(Shr(value, 8 * (count - 1 - i)), 8, k);
    BitShr(value, 8 * (count - 1 - i), k);
  }

  lemma MaskedByte(b: u8, mask: u8)
    ensures Pow2(8) == 256 && Or(b, mask) < 256 && And(b, Not(mask, 8)) <= b
  {
    Pow2Small();
    OrBound(b, mask, 8);
    AndBound(b, Not(mask, 8));
  }

  /** Setting or clearing the bit at `at` through its mask changes no other bit. */
  lemma MaskedBit(b: u8, at: nat, k: nat)
    requires at < 8 && k < 8
    ensures Pow2(8) == 256
    ensures Bit(Or(b, FieldMask(1, at)), k) == (k == at || Bit(b, k))
    ensures Bit(And(b, Not(FieldMask(1, at), 8)), k) == (k != at && Bit(b, k))
  {
    Pow2Small();
    hide Bit, Or, And;
    var mask := FieldMask(1, at);
    BitOr(b, mask, k);
    BitAnd(b, Not(mask, 8), k);
    BitNot(mask, 8, k);
    FieldMaskBits(1, at, k);
  }

  /** A byte that differs from the old one in one bit overwrites that bit of the stream. */
  lemma BitInStream(bytes: seq<u8>, off: nat, b: u8, value: bool)
    requires off / 8 < |bytes|
    requires forall k :: 0 <= k < 8 ==> Bit(b, k) == if k == 7 - off % 8 then value else Bit(bytes[off / 8], k)
    ensures Overwrites(Stream(bytes), Stream(bytes[off / 8 := b]), off, [value])
  {
    hide Bit;
    OverwritesAt(Stream(bytes), Stream(bytes[off / 8 := b]), off, [value]);
  }

  /** One merged byte, bit by bit: `take` bits of the n-bit value take their places in the stream. */
  lemma MergedBitAt(bytes: seq<u8>, off: nat, value: nat, n: nat, take: nat, shiftSrc: nat, p: nat)
    requires off / 8 < |bytes| && off % 8 + take <= 8 && shiftSrc + take <= n && p < 8 * |bytes|
    ensures var merged := MergedByte(bytes[off / 8], value, take, shiftSrc, 8 - off % 8 - take);
            Stream(bytes[off / 8 := merged])[p]
            == if off <= p < off + take then ToBits(value, n)[n - shiftSrc - take + (p - off)] else Stream(bytes)[p]
  {
    hide Bit, MergedByte;
    if p / 8 == off / 8 {
      MergedByteBits(bytes[off / 8], value, take, shiftSrc, 8 - off % 8 - take, 7 - p % 8);
    }
  }

  /** One merged byte overwrites its own slice of the value's bits. */
  lemma MergedInStream(bytes: seq<u8>, off: nat, value: nat, n: nat, take: nat, shiftSrc: nat)
    requires off / 8 < |bytes| && off % 8 + take <= 8 && shiftSrc + take <= n
    ensures var merged := MergedByte(bytes[off / 8], value, take, shiftSrc, 8 - off % 8 - take);
            Overwrites(Stream(bytes), Stream(bytes[off / 8 := merged]), off,
                       ToBits(value, n)[n - shiftSrc - take..n - shiftSrc])
  {
    hide *;
    var merged := MergedByte(bytes[off / 8], value, take, shiftSrc, 8 - off % 8 - take);
    var before, after := Stream(bytes), Stream(bytes[off / 8 := merged]);
    var bits := ToBits(value, n)[n - shiftSrc - take..n - shiftSrc];
    forall p | 0 <= p < |after|
      ensures after[p] == if off <= p < off + take then bits[p - off] else before[p]
    {
      MergedBitAt(bytes, off, value, n, take, shiftSrc, p);
    }
    OverwritesAt(before, after, off, bits);
  }

  /** A further chunk of the same bits behind those already written. */
  lemma NextChunkWritten(a: seq<bool>, b: seq<bool>, c: seq<bool>, off: nat, x: seq<bool>, i: nat, j: nat)
    requires i <= j <= |x|
    requires Overwrites(a, b, off, x[..i]) && Overwrites(b, c, off + i, x[i..j])
    ensures Overwrites(a, c, off, x[..j])
  {
    hide Overwrites;
    OverwritesCompose(a, b, c, off, x[..i], x[i..j]);
    assert x[..i] + x[i..j] == x[..j];
  }

  /** Truncating a value to n bits leaves its n bits alone. */
  lemma TruncatedBits(value: nat, n: nat)
    ensures ToBits(value % Pow2(n), n) == ToBits(value, n)
  {
    hide Bit, Pow2;
    forall j | 0 <= j < n
      ensures ToBits(value % Pow2(n), n)[j] == ToBits(value, n)[j]
    {
      BitTrunc(value, n, n - 1 - j);
    }
  }

  /** `after` is `before` with `bytes` copied over it from index `start` on. */
  ghost predicate Copied(before: seq<u8>, after: seq<u8>, start: nat, bytes: seq<u8>) {
    && |after| == |before| && start + |bytes| <= |before|
    && forall i :: 0 <= i < |before| ==>
         after[i] == if start <= i < start + |bytes| then bytes[i - start] else before[i]
  }

  lemma CopiedBit(before: seq<u8>, after: seq<u8>, start: nat, bytes: seq<u8>, p: nat)
    requires Copied(before, after, start, bytes) && p < 8 * |before|
    ensures Stream(after)[p] ==
            if 8 * start <= p < 8 * start + 8 * |bytes| then BytesToBits(bytes)[p - 8 * start] else Stream(before)[p]
  {
    hide Bit, BytesToBits;
    if 8 * start <= p < 8 * start + 8 * |bytes| {
      BytesToBitsAt(bytes, p - 8 * start);
      assert (p - 8 * start) / 8 == p / 8 - start && (p - 8 * start) % 8 == p % 8;
    }
  }

  /** Copied bytes overwrite the stream with their bits. */
  lemma BytesInStream(before: seq<u8>, after: seq<u8>, start: nat, bytes: seq<u8>)
    requires Copied(before, after, start, bytes)
    ensures Overwrites(Stream(before), Stream(after), 8 * start, BytesToBits(bytes))
  {
    hide Stream, Overwrites, BytesToBits;
    forall p | 0 <= p < 8 * |before|
      ensures Stream(after)[p] ==
              if 8 * start <= p < 8 * start + 8 * |bytes| then BytesToBits(bytes)[p - 8 * start] else Stream(before)[p]
    {
      CopiedBit(before, after, start, bytes, p);
    }
    OverwritesAt(Stream(before), Stream(after), 8 * start, BytesToBits(bytes));
  }

  class BitWriter {
    const buffer: array<u8>
    var bitOffset: nat

    ghost predicate Valid()
      reads this
    {
      bitOffset <= 8 * buffer.Length
    }

    /** All the bits of the buffer. */
    function Bits(): (bits: seq<bool>)
      reads buffer
      ensures |bits| == 8 * buffer.Length
    {
      Stream(buffer[..])
    }

    function RemainingBits(): (n: nat)
      reads this
      requires Valid()
    {
      8 * buffer.Length - bitOffset
    }

    /** Clears the buffer. */
    constructor (target: array<u8>)
      modifies target
      ensures Valid() && buffer == target && bitOffset == 0
      ensures forall p :: 0 <= p < 8 * target.Length ==> !Bits()[p]
    {
      buffer, bitOffset := target, 0;
      new;
      forall i | 0 <= i < target.Length { target[i] := 0; }
      forall p | 0 <= p < 8 * target.Length
        ensures !Bits()[p]
      {
        BitZero(7 - p % 8);
      }
    }

    constructor FromExisting(target: array<u8>, offset: nat)
      requires offset <= 8 * target.Length
      ensures Valid() && buffer == target && bitOffset == offset
    {
      buffer, bitOffset := target, offset;
    }

    method WriteBit(value: bool) returns (r: Result<(), BitstreamError>)
      requires Valid()
      modifies this`bitOffset, buffer
      ensures Valid()
      ensures r == if old(RemainingBits()) == 0 then Err(BufferOverflow(1, 0)) else Ok(())
      ensures r.Err? ==> bitOffset == old(bitOffset) && Bits() == old(Bits())
      ensures r.Ok? ==> bitOffset == old(bitOffset) + 1
                        && Overwrites(old(Bits()), Bits(), old(bitOffset), [value])
    {
      var byteIdx, bitIdx := bitOffset / 8, bitOffset % 8;
      if byteIdx >= buffer.Length {
        return Err(BufferOverflow(1, 0));
      }
      ghost var before, bytes := Bits(), buffer[..];
      var mask := FieldMask(1, 7 - bitIdx);
      MaskedByte(buffer[byteIdx], mask);
      if value {
        buffer[byteIdx] := Or(buffer[byteIdx], mask);
      } else {
        buffer[byteIdx] := And(buffer[byteIdx], Not(mask, 8));
      }
      forall k | 0 <= k < 8
        ensures Bit(buffer[byteIdx], k) == if k == 7 - bitIdx then value else Bit(bytes[byteIdx], k)
      {
        MaskedBit(bytes[byteIdx], 7 - bitIdx, k);
      }
      hide *;
      assert buffer[..] == bytes[byteIdx := buffer[byteIdx]];
      BitInStream(bytes, bitOffset, buffer[byteIdx], value);
      bitOffset := bitOffset + 1;
      r := Ok(());
    }

    /** The aligned fast path: whole bytes, most significant first. */
    method WriteAligned(value: nat, count: nat)
      requires Valid() && bitOffset % 8 == 0 && bitOffset + 8 * count <= 8 * buffer.Length
      modifies this`bitOffset, buffer
      ensures Valid() && bitOffset == old(bitOffset) + 8 * count
      ensures Overwrites(old(Bits()), Bits(), old(bitOffset), ToBits(value, 8 * count))
    {
      hide Bit, BigEndianByte;
      ghost var before := Bits();
      var start := bitOffset / 8;
      forall i | 0 <= i < count { buffer[start + i] := BigEndianByte(value, count, i); }
      forall p | bitOffset <= p < bitOffset + 8 * count
        ensures Bits()[p] == ToBits(value, 8 * count)[p - bitOffset]
      {
        var i := p / 8 - start;
        assert buffer[..][p / 8] == BigEndianByte(value, count, i);
        BigEndianBits(value, count, i, 7 - p % 8);
        assert 8 * (count - 1 - i) + (7 - p % 8) == 8 * count - 1 - (p - bitOffset);
      }
      forall p | 0 <= p < |before| && !(bitOffset <= p < bitOffset + 8 * count)
        ensures Bits()[p] == before[p]
      {
        assert buffer[..][p / 8] == old(buffer[..])[p / 8];
      }
      OverwritesAt(before, Bits(), bitOffset, ToBits(value, 8 * count));
      bitOffset := bitOffset + 8 * count;
    }

    /** The chunked loop: up to eight bits at a time, at any alignment. */
    method WriteChunked(value: nat, numBits: nat)
      requires Valid() && bitOffset + numBits <= 8 * buffer.Length
      modifies this`bitOffset, buffer
      ensures Valid() && bitOffset == old(bitOffset) + numBits
      ensures Overwrites(old(Bits()), Bits(), old(bitOffset), ToBits(value, numBits))
    {
      hide Stream, Overwrites, ToBits, MergedByte, Pow2;
      ghost var before, off := Bits(), bitOffset;
      var remBits := numBits;
      var curVal := value % Pow2(numBits);
      ghost var x := ToBits(curVal, numBits);
      NothingWritten(before, off);
      assert x[..0] == [];
      while remBits > 0
        invariant 0 <= remBits <= numBits && bitOffset == off + numBits - remBits
        invariant Overwrites(before, Bits(), off, x[..numBits - remBits])
      {
        var byteIdx, bitIdx := bitOffset / 8, bitOffset % 8;
        var avail := 8 - bitIdx;
        var take := Min(remBits, avail);
        var shiftSrc, shiftDst := remBits - take, avail - take;
        ghost var bytes, done := buffer[..], numBits - remBits;
        buffer[byteIdx] := MergedByte(buffer[byteIdx], curVal, take, shiftSrc, shiftDst);
        assert buffer[..] == bytes[byteIdx := buffer[byteIdx]];
        MergedInStream(bytes, bitOffset, curVal, numBits, take, shiftSrc);
        NextChunkWritten(before, Stream(bytes), Bits(), off, x, done, done + take);
        bitOffset := bitOffset + take;
        remBits := remBits - take;
      }
      TruncatedBits(value, numBits);
      assert x[..numBits] == x;
    }

    /** Writes the low `numBits` bits of `value`, most significant first. */
    method WriteBits(value: u64, numBits: nat) returns (r: Result<(), BitstreamError>)
      requires Valid()
      modifies this`bitOffset, buffer
      ensures Valid()
      ensures r == if numBits > 64 then Err(InvalidBitWidth(numBits))
                   else if numBits > old(RemainingBits()) then Err(BufferOverflow(numBits, old(RemainingBits())))
                   else Ok(())
      ensures r.Err? ==> bitOffset == old(bitOffset) && Bits() == old(Bits())
      ensures r.Ok? ==> bitOffset == old(bitOffset) + numBits
                        && Overwrites(old(Bits()), Bits(), old(bitOffset), ToBits(value, numBits))
    {
      if numBits == 0 {
        return Ok(());
      }
      if numBits > 64 {
        return Err(InvalidBitWidth(numBits));
      }
      var remaining := RemainingBits();
      if numBits > remaining {
        return Err(BufferOverflow(numBits, remaining));
      }
      if bitOffset % 8 == 0 && (numBits == 8 || numBits == 16 || numBits == 32 || numBits == 64) {
        WriteAligned(value, numBits / 8);
        return Ok(());
      }
      WriteChunked(value, numBits);
      r := Ok(());
    }

    method WriteU8(value: u8) returns (r: Result<(), BitstreamError>)
      requires Valid()
      modifies this`bitOffset, buffer
      ensures Valid()
      ensures r == if 8 > old(RemainingBits()) then Err(BufferOverflow(8, old(RemainingBits()))) else Ok(())
      ensures r.Err? ==> bitOffset == old(bitOffset) && Bits() == old(Bits())
      ensures r.Ok? ==> bitOffset == old(bitOffset) + 8
                        && Overwrites(old(Bits()), Bits(), old(bitOffset), ToBits(value, 8))
    {
      if bitOffset % 8 == 0 && bitOffset / 8 < buffer.Length {
        WriteAligned(value, 1);
        return Ok(());
      }
      r := WriteBits(value, 8);
    }

    method WriteBytes(bytes: seq<u8>) returns (r: Result<(), BitstreamError>)
      requires Valid()
      modifies this`bitOffset, buffer
      ensures Valid()
      ensures r == if 8 * |bytes| > old(RemainingBits())
                   then Err(BufferOverflow(8 * |bytes|, old(RemainingBits()))) else Ok(())
      ensures r.Err? ==> bitOffset == old(bitOffset) && Bits() == old(Bits())
      ensures r.Ok? ==> bitOffset == old(bitOffset) + 8 * |bytes|
                        && Overwrites(old(Bits()), Bits(), old(bitOffset), BytesToBits(bytes))
    {
      var bitsNeeded := 8 * |bytes|;
      if bitsNeeded > RemainingBits() {
        return Err(BufferOverflow(bitsNeeded, RemainingBits()));
      }
      if bitOffset % 8 == 0 {
        CopyAligned(bytes);
        return Ok(());
      }
      WriteByteByByte(bytes);
      r := Ok(());
    }

    /** The unaligned path: one `write_u8` after the other, each of which fits. */
    method WriteByteByByte(bytes: seq<u8>)
      requires Valid() && bitOffset + 8 * |bytes| <= 8 * buffer.Length
      modifies this`bitOffset, buffer
      ensures Valid() && bitOffset == old(bitOffset) + 8 * |bytes|
      ensures Overwrites(old(Bits()), Bits(), old(bitOffset), BytesToBits(bytes))
    {
      hide Bit, Stream, Overwrites, BytesToBits, ToBits;
      ghost var before, off := Bits(), bitOffset;
      assert bytes[..0] == [];
      NothingWritten(before, off);
      for i := 0 to |bytes|
        invariant Valid() && bitOffset == off + 8 * i
        invariant Overwrites(before, Bits(), off, BytesToBits(bytes[..i]))
      {
        ghost var middle := Bits();
        var one := WriteU8(bytes[i]);
        NextByteWritten(before, middle, Bits(), off, bytes, i);
      }
      assert bytes[..|bytes|] == bytes;
    }

    method CopyAligned(bytes: seq<u8>)
      requires Valid() && bitOffset % 8 == 0 && bitOffset + 8 * |bytes| <= 8 * buffer.Length
      modifies this`bitOffset, buffer
      ensures Valid() && bitOffset == old(bitOffset) + 8 * |bytes|
      ensures Overwrites(old(Bits()), Bits(), old(bitOffset), BytesToBits(bytes))
    {
      hide Stream, Overwrites, BytesToBits;
      ghost var was := buffer[..];
      var start := bitOffset / 8;
      forall i | 0 <= i < |bytes| { buffer[start + i] := bytes[i]; }
      BytesInStream(was, buffer[..], start, bytes);
      bitOffset := bitOffset + 8 * |bytes|;
    }

    /** Pads with zero bits to the next byte boundary, which always fits. */
    method FlushByteAlignment() returns (r: Result<(), BitstreamError>)
      requires Valid()
      modifies this`bitOffset, buffer
      ensures Valid() && r.Ok? && bitOffset % 8 == 0 && old(bitOffset) <= bitOffset < old(bitOffset) + 8
      ensures Overwrites(old(Bits()), Bits(), old(bitOffset), ToBits(0, bitOffset - old(bitOffset)))
    {
      hide Stream, ToBits, Overwrites;
      var rem := bitOffset % 8;
      if rem != 0 {
        r := WriteBits(0, 8 - rem);
      } else {
        NoBitsWritten(Bits(), bitOffset);
        r := Ok(());
      }
    }
  }

  /** The reader never changes its buffer, so it keeps the bytes as a value. */
  class BitReader {
    const buffer: seq<u8>
    var bitOffset: nat

    ghost predicate Valid()
      reads this
    {
      bitOffset <= 8 * |buffer|
    }

    function Bits(): (bits: seq<bool>)
      ensures |bits| == 8 * |buffer|
    {
      Stream(buffer)
    }

    function RemainingBits(): (n: nat)
      reads this
      requires Valid()
    {
      8 * |buffer| - bitOffset
    }

    constructor (source: seq<u8>)
      ensures Valid() && buffer == source && bitOffset == 0
    {
      buffer, bitOffset := source, 0;
    }

    method ReadBit() returns (r: Result<bool, BitstreamError>)
      requires Valid()
      modifies this
      ensures Valid()
      ensures if old(RemainingBits()) == 0 then r == Err(UnexpectedEof(1, 0)) && bitOffset == old(bitOffset)
              else r == Ok(Bits()[old(bitOffset)]) && bitOffset == old(bitOffset) + 1
    {
      var byteIdx, bitIdx := bitOffset / 8, bitOffset % 8;
      if byteIdx >= |buffer| {
        return Err(UnexpectedEof(1, 0));
      }
      var mask := Shl(1, 7 - bitIdx);
      SingleBitTest(buffer[byteIdx], 7 - bitIdx);
      var isSet := And(buffer[byteIdx], mask) != 0;
      bitOffset := bitOffset + 1;
      r := Ok(isSet);
    }

    /** The aligned fast path: whole bytes, most significant first. */
    method ReadAligned(count: nat) returns (value: nat)
      requires bitOffset % 8 == 0 && bitOffset + 8 * count <= 8 * |buffer|
      modifies this
      ensures bitOffset == old(bitOffset) + 8 * count <= |Bits()|
      ensures value == FromBits(Bits()[old(bitOffset)..bitOffset])
    {
      var start := bitOffset / 8;
      value := FromBigEndian(buffer[start..start + count]);
      BigEndianIsStream(buffer, start, count);
      bitOffset := bitOffset + 8 * count;
    }

    /** The chunked loop: up to eight bits at a time, at any alignment. */
    method ReadChunked(numBits: nat) returns (value: nat)
      requires bitOffset + numBits <= 8 * |buffer|
      modifies this
      ensures bitOffset == old(bitOffset) + numBits <= |Bits()|
      ensures value == FromBits(Bits()[old(bitOffset)..bitOffset])
    {
      hide Bit, FieldOf, FromBits, Or, Shl, Stream, FieldBits;
      ghost var off := bitOffset;
      value := 0;
      var remBits := numBits;
      FromNoBits(Bits()[off..off]);
      while remBits > 0
        invariant 0 <= remBits <= numBits && bitOffset == off + numBits - remBits
        invariant value == FromBits(Bits()[off..bitOffset])
      {
        var byteIdx, bitIdx := bitOffset / 8, bitOffset % 8;
        var avail := 8 - bitIdx;
        var take := Min(remBits, avail);
        var shift := avail - take;
        var chunk := FieldOf(buffer[byteIdx], take, shift);
        AppendField(Bits()[off..bitOffset], buffer[byteIdx], take, shift);
        FieldInStream(buffer, off, bitOffset, take);
        value := Or(Shl(value, take), chunk);
        bitOffset := bitOffset + take;
        remBits := remBits - take;
      }
    }

    /** Reads `numBits` bits as an unsigned number. */
    method ReadBits(numBits: nat) returns (r: Result<u64, BitstreamError>)
      requires Valid()
      modifies this
      ensures Valid()
      ensures r.Err? ==> bitOffset == old(bitOffset)
                         && r.error == if numBits > 64 then InvalidBitWidth(numBits)
                                       else UnexpectedEof(numBits, old(RemainingBits()))
      ensures r.Ok? <==> numBits <= 64 && numBits <= old(RemainingBits())
      ensures r.Ok? ==> bitOffset == old(bitOffset) + numBits
                        && r.value == FromBits(Bits()[old(bitOffset)..bitOffset])
    {
      hide FromBits, Bit, Stream, Pow2;
      if numBits == 0 {
        FromNoBits(Bits()[bitOffset..bitOffset]);
        return Ok(0);
      }
      if numBits > 64 {
        return Err(InvalidBitWidth(numBits));
      }
      var remaining := RemainingBits();
      if numBits > remaining {
        return Err(UnexpectedEof(numBits, remaining));
      }
      var value: nat;
      if bitOffset % 8 == 0 && (numBits == 8 || numBits == 16 || numBits == 32 || numBits == 64) {
        value := ReadAligned(numBits / 8);
      } else {
        value := ReadChunked(numBits);
      }
      Pow2Mono(numBits, 64);
      Pow2Values();
      r := Ok(value);
    }

    method ReadU8() returns (r: Result<u8, BitstreamError>)
      requires Valid()
      modifies this
      ensures Valid()
      ensures r.Err? ==> bitOffset == old(bitOffset) && r.error == UnexpectedEof(8, old(RemainingBits()))
      ensures r.Ok? <==> 8 <= old(RemainingBits())
      ensures r.Ok? ==> bitOffset == old(bitOffset) + 8
                        && r.value == FromBits(Bits()[old(bitOffset)..bitOffset])
    {
      hide FromBits, Bit;
      Pow2Small();
      if bitOffset % 8 == 0 && bitOffset / 8 < |buffer| {
        var value := ReadAligned(1);
        return Ok(value);
      }
      var bits := ReadBits(8);
      r := if bits.Ok? then Ok(bits.value) else Err(bits.error);
    }

    /** Reads whole bytes: the ones whose bits come next. */
    method ReadBytes(count: nat) returns (r: Result<seq<u8>, BitstreamError>)
      requires Valid()
      modifies this
      ensures Valid()
      ensures r.Err? ==> bitOffset == old(bitOffset) && r.error == UnexpectedEof(8 * count, old(RemainingBits()))
      ensures r.Ok? <==> 8 * count <= old(RemainingBits())
      ensures r.Ok? ==> |r.value| == count && bitOffset == old(bitOffset) + 8 * count
                        && BytesToBits(r.value) == Bits()[old(bitOffset)..bitOffset]
    {
      hide FromBits, Bit, BytesToBits, Stream;
      var bitsNeeded := 8 * count;
      if bitsNeeded > RemainingBits() {
        return Err(UnexpectedEof(bitsNeeded, RemainingBits()));
      }
      if bitOffset % 8 == 0 {
        var start := bitOffset / 8;
        var bytes := buffer[start..start + count];
        SliceBits(buffer, start, count);
        bitOffset := bitOffset + bitsNeeded;
        return Ok(bytes);
      }
      var out: seq<u8> := [];
      for i := 0 to count
        invariant Valid() && |out| == i && bitOffset == old(bitOffset) + 8 * i
        invariant BytesToBits(out) == Bits()[old(bitOffset)..bitOffset]
      {
        ghost var here := bitOffset;
        var b := ReadU8();
        AppendByte(out, b.value, Bits()[here..bitOffset]);
        out := out + [b.value];
        assert Bits()[old(bitOffset)..here] + Bits()[here..bitOffset] == Bits()[old(bitOffset)..bitOffset];
      }
      r := Ok(out);
    }

    method AlignToByte()
      requires Valid()
      modifies this
      ensures Valid() && bitOffset % 8 == 0 && old(bitOffset) <= bitOffset < old(bitOffset) + 8
    {
      var rem := bitOffset % 8;
      if rem != 0 {
        bitOffset := bitOffset + (8 - rem);
      }
    }
  }

  lemma NoBitsWritten(bits: seq<bool>, off: nat)
    requires off <= |bits|
    ensures Overwrites(bits, bits, off, ToBits(0, 0))
  {
    OverwritesAt(bits, bits, off, ToBits(0, 0));
  }

  lemma NothingWritten(bits: seq<bool>, off: nat)
    requires off <= |bits|
    ensures Overwrites(bits, bits, off, BytesToBits([]))
  {
    OverwritesAt(bits, bits, off, []);
  }

  lemma NextByteWritten(a: seq<bool>, b: seq<bool>, c: seq<bool>, off: nat, bytes: seq<u8>, i: nat)
    requires i < |bytes|
    requires Overwrites(a, b, off, BytesToBits(bytes[..i])) && Overwrites(b, c, off + 8 * i, ToBits(bytes[i], 8))
    ensures Overwrites(a, c, off, BytesToBits(bytes[..i + 1]))
  {
    hide *;
    OverwritesCompose(a, b, c, off, BytesToBits(bytes[..i]), ToBits(bytes[i], 8));
    BytesToBitsSnoc(bytes[..i], bytes[i]);
    assert bytes[..i + 1] == bytes[..i] + [bytes[i]];
  }

  lemma BytesToBitsSnoc(bytes: seq<u8>, b: u8)
    ensures BytesToBits(bytes + [b]) == BytesToBits(bytes) + ToBits(b, 8)
  {
    BytesToBitsAppend(bytes, [b]);
    assert BytesToBits([b]) == ToBits(b, 8);
  }

  lemma FromNoBits(bits: seq<bool>)
    requires bits == []
    ensures FromBits(bits) == 0
  {
  }

  lemma AppendByte(bytes: seq<u8>, b: u8, bits: seq<bool>)
    requires |bits| == 8 && b == FromBits(bits)
    ensures BytesToBits(bytes + [b]) == BytesToBits(bytes) + bits
  {
    hide *;
    BytesToBitsSnoc(bytes, b);
    ToFromBits(bits);
  }

  /** The field's bits as they stand in the stream. */
  function FieldBits(b: u8, take: nat, shift: nat): (bits: seq<bool>)
    requires take + shift <= 8
    ensures |bits| == take
  {
    seq(take, j requires 0 <= j < take => Bit(b, shift + take - 1 - j))
  }

  lemma SameByte(here: nat, j: nat)
    requires here % 8 + j < 8
    ensures (here + j) / 8 == here / 8 && (here + j) % 8 == here % 8 + j
  {
  }

  lemma FieldBitAt(buffer: seq<u8>, here: nat, take: nat, j: nat)
    requires here < 8 * |buffer| && here % 8 + take <= 8 && j < take
    ensures here + j < 8 * |buffer|
    ensures Stream(buffer)[here + j] == FieldBits(buffer[here / 8], take, 8 - here % 8 - take)[j]
  {
    hide Bit;
    SameByte(here, j);
  }

  lemma SliceJoins<T>(s: seq<T>, i: nat, j: nat, k: nat)
    requires i <= j <= k <= |s|
    ensures s[i..k] == s[i..j] + s[j..k]
  {
  }

  /** The field read next stands behind the bits read so far. */
  lemma FieldInStream(buffer: seq<u8>, off: nat, here: nat, take: nat)
    requires off <= here < 8 * |buffer| && here % 8 + take <= 8
    ensures here / 8 < |buffer| && here + take <= 8 * |buffer|
    ensures Stream(buffer)[off..here + take]
            == Stream(buffer)[off..here] + FieldBits(buffer[here / 8], take, 8 - here % 8 - take)
  {
    hide *;
    var s, next := Stream(buffer), Stream(buffer)[here..here + take];
    var field := FieldBits(buffer[here / 8], take, 8 - here % 8 - take);
    forall j | 0 <= j < take
      ensures next[j] == field[j]
    {
      FieldBitAt(buffer, here, take, j);
      assert next[j] == s[here + j];
    }
    assert next == field;
    SliceJoins(s, off, here, here + take);
  }

  lemma FieldIsItsBits(b: u8, take: nat, shift: nat)
    requires take + shift <= 8
    ensures FieldOf(b, take, shift) == FromBits(FieldBits(b, take, shift))
  {
    hide Bit, FieldOf, FromBits;
    FieldBound(b, take, shift);
    forall j | 0 <= j < take
      ensures Bit(FieldOf(b, take, shift), take - 1 - j) == FieldBits(b, take, shift)[j]
    {
      FieldOfBits(b, take, shift, take - 1 - j);
    }
    FromBitsUnique(FieldOf(b, take, shift), FieldBits(b, take, shift));
  }

  /** One round of the chunked read appends the field's bits to the number read so far. */
  lemma AppendField(bits: seq<bool>, b: u8, take: nat, shift: nat)
    requires take + shift <= 8
    ensures Or(Shl(FromBits(bits), take), FieldOf(b, take, shift)) == FromBits(bits + FieldBits(b, take, shift))
  {
    hide Bit, FieldOf, FromBits, Or, Shl;
    FieldIsItsBits(b, take, shift);
    FieldBound(b, take, shift);
    OrComm(Shl(FromBits(bits), take), FieldOf(b, take, shift));
    OrDisjoint(FieldOf(b, take, shift), FromBits(bits), take);
    ShlIsMul(FromBits(bits), take);
    FromBitsAppend(bits, FieldBits(b, take, shift));
  }

  lemma FieldBound(b: u8, take: nat, shift: nat)
    requires take + shift <= 8
    ensures FieldOf(b, take, shift) < Pow2(take)
  {
    hide Bit, FieldOf;
    var f := FieldOf(b, take, shift);
    FieldSmall(b, take, shift);
    Pow2Mono(take, 8);
    forall k | 0 <= k < 8
      ensures Bit(f, k) == Bit(f % Pow2(take), k)
    {
      FieldOfBits(b, take, shift, k);
      BitTrunc(f, take, k);
    }
    BitExt(f, f % Pow2(take), 8);
  }

  lemma FieldSmall(b: u8, take: nat, shift: nat)
    requires take + shift <= 8
    ensures FieldOf(b, take, shift) < Pow2(8)
  {
    hide And, Shr, FieldMask;
    AndBound(b, FieldMask(take, shift));
    ShrShrinks(And(b, FieldMask(take, shift)), shift);
    Pow2Small();
  }

  lemma {:induction false} ShrShrinks(w: nat, n: nat)
    ensures Shr(w, n) <= w
  {
    if n > 0 { ShrShrinks(w / 2, n - 1); }
  }

  lemma SliceBitAt(buffer: seq<u8>, start: nat, count: nat, p: nat)
    requires start + count <= |buffer| && p < 8 * count
    ensures BytesToBits(buffer[start..start + count])[p] == Stream(buffer)[8 * start + p]
  {
    hide Bit, BytesToBits;
    BytesToBitsAt(buffer[start..start + count], p);
    assert (8 * start + p) / 8 == start + p / 8 && (8 * start + p) % 8 == p % 8;
  }

  /** A slice of whole bytes is a slice of the stream. */
  lemma SliceBits(buffer: seq<u8>, start: nat, count: nat)
    requires start + count <= |buffer|
    ensures BytesToBits(buffer[start..start + count]) == Stream(buffer)[8 * start..8 * (start + count)]
  {
    hide *;
    var bits, s := BytesToBits(buffer[start..start + count]), Stream(buffer);
    var slice := s[8 * start..8 * (start + count)];
    forall p | 0 <= p < 8 * count
      ensures bits[p] == slice[p]
    {
      SliceBitAt(buffer, start, count, p);
      assert slice[p] == s[8 * start + p];
    }
    assert bits == slice;
  }

  lemma MulDouble(x: nat, n: nat)
    ensures x * Pow2(n + 1) == 2 * (x * Pow2(n))
  {
    var p := Pow2(n);
    assert Pow2(n + 1) == 2 * p;
  }

  lemma {:induction false} FromBitsAppend(a: seq<bool>, b: seq<bool>)
    ensures FromBits(a + b) == FromBits(a) * Pow2(|b|) + FromBits(b)
  {
    hide Pow2;
    if b == [] {
      assert a + b == a;
      assert Pow2(0) == 1 by { Pow2Zero(); }
    } else {
      var n := |b| - 1;
      assert (a + b)[..|a + b| - 1] == a + b[..n];
      FromBitsAppend(a, b[..n]);
      MulDouble(FromBits(a), n);
    }
  }

  lemma Pow2Zero()
    ensures Pow2(0) == 1
  {
  }

  /** One more byte on either side of the equation. */
  lemma BigEndianStep(bytes: seq<u8>, b: u8, v: nat)
    requires v == FromBits(BytesToBits(bytes))
    ensures FromBits(BytesToBits(bytes + [b])) == 256 * v + b
  {
    hide *;
    BytesToBitsSnoc(bytes, b);
    FromBitsAppend(BytesToBits(bytes), ToBits(b, 8));
    FromToBits(b, 8);
    Pow2Small();
  }

  /** The big-endian fast path reads the same number as the bits spell. */
  lemma {:induction false} BigEndianIsBits(bytes: seq<u8>)
    ensures FromBigEndian(bytes) == FromBits(BytesToBits(bytes))
  {
    if bytes == [] {
      FromNoBits(BytesToBits(bytes));
    } else {
      hide FromBits, BytesToBits;
      var n := |bytes| - 1;
      BigEndianIsBits(bytes[..n]);
      assert bytes == bytes[..n] + [bytes[n]];
      BigEndianStep(bytes[..n], bytes[n], FromBigEndian(bytes[..n]));
    }
  }

  lemma BigEndianIsStream(buffer: seq<u8>, start: nat, count: nat)
    requires start + count <= |buffer|
    ensures FromBigEndian(buffer[start..start + count]) == FromBits(Stream(buffer)[8 * start..8 * start + 8 * count])
  {
    BigEndianIsBits(buffer[start..start + count]);
    SliceBits(buffer, start, count);
  }
}
