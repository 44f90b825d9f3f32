/**
 SHA-256 and HMAC-SHA256. The specification follows FIPS 180-4: padding (section 5.1.1), the
 message schedule and the compression of one block (section 6.2.2), folded over the blocks.
 Two different buffering paths, whole chunks with a padded tail and one byte at a time, are
 proved to compute it, and the keyed hash to be the one of section 2 of RFC 2104.
 */
module Sha256 {
  import opened Words

  type word = bv32

  // ----- The compression function, FIPS 180-4 sections 4.1.2 and 6.2.2 -----

  const H_INIT: seq<word> := [
    0x6a09e667, 0xbb67ae85, 0x3c6ef372, 0xa54ff53a, 0x510e527f, 0x9b05688c, 0x1f83d9ab, 0x5be0cd19]

  const K: seq<word> :=
    [0x428a2f98, 0x71374491, 0xb5c0fbcf, 0xe9b5dba5, 0x3956c25b, 0x59f111f1, 0x923f82a4, 0xab1c5ed5] +
    [0xd807aa98, 0x12835b01, 0x243185be, 0x550c7dc3, 0x72be5d74, 0x80deb1fe, 0x9bdc06a7, 0xc19bf174] +
    [0xe49b69c1, 0xefbe4786, 0x0fc19dc6, 0x240ca1cc, 0x2de92c6f, 0x4a7484aa, 0x5cb0a9dc, 0x76f988da] +
    [0x983e5152, 0xa831c66d, 0xb00327c8, 0xbf597fc7, 0xc6e00bf3, 0xd5a79147, 0x06ca6351, 0x14292967] +
    [0x27b70a85, 0x2e1b2138, 0x4d2c6dfc, 0x53380d13, 0x650a7354, 0x766a0abb, 0x81c2c92e, 0x92722c85] +
    [0xa2bfe8a1, 0xa81a664b, 0xc24b8b70, 0xc76c51a3, 0xd192e819, 0xd6990624, 0xf40e3585, 0x106aa070] +
    [0x19a4c116, 0x1e376c08, 0x2748774c, 0x34b0bcb5, 0x391c0cb3, 0x4ed8aa4a, 0x5b9cca4f, 0x682e6ff3] +
    [0x748f82ee, 0x78a5636f, 0x84c87814, 0x8cc70208, 0x90befffa, 0xa4506ceb, 0xbef9a3f7, 0xc67178f2]

  function RotateRight(x: word, n: word): word
    requires 0 < n < 32
  {
    (x >> n) | (x << (32 - n))
  }

  function Ch(x: word, y: word, z: word): word { (x & y) ^ (!x & z) }

  function Maj(x: word, y: word, z: word): word { (x & y) ^ (x & z) ^ (y & z) }

  function Sigma0(x: word): word { RotateRight(x, 2) ^ RotateRight(x, 13) ^ RotateRight(x, 22) }

  function Sigma1(x: word): word { RotateRight(x, 6) ^ RotateRight(x, 11) ^ RotateRight(x, 25) }

  function Gamma0(x: word): word { RotateRight(x, 7) ^ RotateRight(x, 18) ^ (x >> 3) }

  function Gamma1(x: word): word { RotateRight(x, 17) ^ RotateRight(x, 19) ^ (x >> 10) }

  /** `wrapping_add`. */
  function Add(x: word, y: word): word { x + y }

  /** Four bytes as a big-endian word. */
  function WordOf(b0: u8, b1: u8, b2: u8, b3: u8): word {
    ((b0 as word) << 24) | ((b1 as word) << 16) | ((b2 as word) << 8) | (b3 as word)
  }

  function ScheduleStep(t2: word, t7: word, t15: word, t16: word): word {
    Add(Add(Add(Gamma1(t2), t7), Gamma0(t15)), t16)
  }

  /** Word t of the message schedule of a block. */
  function Schedule(block: seq<u8>, t: nat): word
    requires |block| == 64 && t < 64
  {
    if t < 16 then WordOf(block[4 * t], block[4 * t + 1], block[4 * t + 2], block[4 * t + 3])
    else ScheduleStep(Schedule(block, t - 2), Schedule(block, t - 7), Schedule(block, t - 15), Schedule(block, t - 16))
  }

  function RoundConstant(t: nat): word
    requires t < 64
  {
    assert |K| == 64;
    K[t]
  }

  datatype Vars = Vars(a: word, b: word, c: word, d: word, e: word, f: word, g: word, h: word)

  function Round(v: Vars, k: word, w: word): Vars {
    var t1 := Add(Add(Add(Add(v.h, Sigma1(v.e)), Ch(v.e, v.f, v.g)), k), w);
    var t2 := Add(Sigma0(v.a), Maj(v.a, v.b, v.c));
    Vars(Add(t1, t2), v.a, v.b, v.c, Add(v.d, t1), v.e, v.f, v.g)
  }

  /** The working variables after n rounds. */
  function Rounds(v: Vars, block: seq<u8>, n: nat): Vars
    requires |block| == 64 && n <= 64
  {
    if n == 0 then v else Round(Rounds(v, block, n - 1), RoundConstant(n - 1), Schedule(block, n - 1))
  }

  function Compress(s: seq<word>, block: seq<u8>): (r: seq<word>)
    requires |s| == 8 && |block| == 64
    ensures |r| == 8
  {
    Added(s, Rounds(Vars(s[0], s[1], s[2], s[3], s[4], s[5], s[6], s[7]), block, 64))
  }

  function Added(s: seq<word>, v: Vars): (r: seq<word>)
    requires |s| == 8
    ensures |r| == 8
  {
    [Add(s[0], v.a), Add(s[1], v.b), Add(s[2], v.c), Add(s[3], v.d),
     Add(s[4], v.e), Add(s[5], v.f), Add(s[6], v.g), Add(s[7], v.h)]
  }

  /** Compression block after block. */
  function Fold(s: seq<word>, bytes: seq<u8>): (r: seq<word>)
    requires |s| == 8 && |bytes| % 64 == 0
    ensures |r| == 8
    decreases |bytes|
  {
    if bytes == [] then s else Fold(Compress(s, bytes[..64]), bytes[64..])
  }

  lemma {:induction false} FoldBlock(s: seq<word>, bytes: seq<u8>, block: seq<u8>)
    requires |s| == 8 && |bytes| % 64 == 0 && |block| == 64
    ensures Fold(s, bytes + block) == Compress(Fold(s, bytes), block)
    decreases |bytes|
  {
    hide Compress;
    if bytes == [] {
      assert (bytes + block)[..64] == block && (bytes + block)[64..] == [];
    } else {
      assert (bytes + block)[..64] == bytes[..64] && (bytes + block)[64..] == bytes[64..] + block;
      FoldBlock(Compress(s, bytes[..64]), bytes[64..], block);
    }
  }

  // ----- Padding, FIPS 180-4 section 5.1.1 -----

  function Zeros(n: nat): (z: seq<u8>)
    ensures |z| == n
  {
    seq(n, _ => 0)
  }

  /** The `count` low bytes of n, most significant first. */
  function BigEndian(n: nat, count: nat): (b: seq<u8>)
    ensures |b| == count
  {
    if count == 0 then [] else BigEndian(n / 256, count - 1) + [n % 256]
  }

  /** A message of n bytes, its marker and z zeros leave just the room for the length. */
  predicate Fills(n: nat, z: nat) { (n + 1 + z) % 64 == 56 }

  lemma BlocksVanish(q: nat, x: nat)
    ensures (64 * q + x) % 64 == x % 64
  {
  }

  lemma FillsRemainder(n: nat, z: nat)
    ensures Fills(n, z) <==> (n % 64 + 1 + z) % 64 == 56
  {
    BlocksVanish(n / 64, n % 64 + 1 + z);
  }

  lemma LeastFill(r: nat, z: nat)
    requires r < 64 && z < 64
    ensures (r + 1 + z) % 64 == 56 <==> z == (119 - r) % 64
  {
  }

  lemma LeastZeros(n: nat)
    ensures var z := (119 - n % 64) % 64;
            0 <= z < 64 && forall y: nat :: y <= z ==> (Fills(n, y) <==> y == z)
  {
    hide Fills;
    var z := (119 - n % 64) % 64;
    forall y: nat | y <= z
      ensures Fills(n, y) <==> y == z
    {
      FillsRemainder(n, y);
      LeastFill(n % 64, y);
    }
  }

  /** The least number of zero bytes that does. */
  function ZeroCount(n: nat): (z: nat)
    ensures z < 64 && Fills(n, z)
    ensures forall y: nat :: y < z ==> !Fills(n, y)
  {
    LeastZeros(n);
    (119 - n % 64) % 64
  }

  function LengthBytes(n: nat): (b: seq<u8>)
    ensures |b| == 8
  {
    BigEndian((8 * n) % 0x1_0000_0000_0000_0000, 8)
  }

  lemma FilledUp(n: nat, z: nat)
    requires Fills(n, z)
    ensures (n + (1 + z + 8)) % 64 == 0
  {
  }

  function Suffix(n: nat): (s: seq<u8>)
    ensures |s| == 1 + ZeroCount(n) + 8 && (n + |s|) % 64 == 0
  {
    hide LengthBytes, ZeroCount, Fills;
    FilledUp(n, ZeroCount(n));
    [0x80] + Zeros(ZeroCount(n)) + LengthBytes(n)
  }

  function Padded(m: seq<u8>): (p: seq<u8>)
    ensures |p| % 64 == 0
  {
    m + Suffix(|m|)
  }

  /** A word as four bytes, most significant first. */
  function WordBytes(w: word): (b: seq<u8>)
    ensures |b| == 4
  {
    [((w >> 24) & 0xFF) as int, ((w >> 16) & 0xFF) as int, ((w >> 8) & 0xFF) as int, (w & 0xFF) as int]
  }

  function Digest(s: seq<word>): (d: seq<u8>)
    ensures |d| == 4 * |s|
  {
    if s == [] then [] else Digest(s[..|s| - 1]) + WordBytes(s[|s| - 1])
  }

  function Hash(m: seq<u8>): (d: seq<u8>)
    ensures |d| == 32
  {
    Digest(Fold(H_INIT, Padded(m)))
  }

  // ----- The block step in place -----

  lemma RoundsNext(v: Vars, block: seq<u8>, n: nat)
    requires |block| == 64 && n < 64
    ensures Rounds(v, block, 0) == v
    ensures Rounds(v, block, n + 1) == Round(Rounds(v, block, n), RoundConstant(n), Schedule(block, n))
  {
    hide Round, Schedule, RoundConstant;
  }

  lemma ScheduleNext(block: seq<u8>, t: nat)
    requires |block| == 64 && 16 <= t < 64
    ensures Schedule(block, t) == ScheduleStep(Schedule(block, t - 2), Schedule(block, t - 7),
                                               Schedule(block, t - 15), Schedule(block, t - 16))
  {
    hide ScheduleStep, WordOf;
  }

  lemma ScheduleFirst(block: seq<u8>, t: nat)
    requires |block| == 64 && t < 16
    ensures Schedule(block, t) == WordOf(block[4 * t], block[4 * t + 1], block[4 * t + 2], block[4 * t + 3])
  {
    hide WordOf;
  }

  /** Fills the schedule array for a block. */
  method Expand(w: array<word>, block: seq<u8>)
    requires w.Length == 64 && |block| == 64
    modifies w
    ensures forall t :: 0 <= t < 64 ==> w[t] == Schedule(block, t)
  {
    hide Schedule, WordOf, Gamma0, Gamma1, Add;
    for t := 0 to 16
      invariant forall j :: 0 <= j < t ==> w[j] == Schedule(block, j)
    {
      ScheduleFirst(block, t);
      var idx := t * 4;
      w[t] := WordOf(block[idx], block[idx + 1], block[idx + 2], block[idx + 3]);
    }
    for t := 16 to 64
      invariant forall j :: 0 <= j < t ==> w[j] == Schedule(block, j)
    {
      ScheduleNext(block, t);
      w[t] := Add(Add(Add(Gamma1(w[t - 2]), w[t - 7]), Gamma0(w[t - 15])), w[t - 16]);
    }
  }

  /** The 64 rounds over the working variables. */
  method RunRounds(v0: Vars, w: array<word>, block: seq<u8>) returns (v: Vars)
    requires w.Length == 64 && |block| == 64 && forall t :: 0 <= t < 64 ==> w[t] == Schedule(block, t)
    ensures v == Rounds(v0, block, 64)
  {
    hide Schedule, Sigma0, Sigma1, Ch, Maj, Rounds, RoundConstant, Add;
    var a, b, c, d, e, f, g, h := v0.a, v0.b, v0.c, v0.d, v0.e, v0.f, v0.g, v0.h;
    RoundsNext(v0, block, 0);
    for t := 0 to 64
      invariant Vars(a, b, c, d, e, f, g, h) == Rounds(v0, block, t)
    {
      RoundsNext(v0, block, t);
      var t1 := Add(Add(Add(Add(h, Sigma1(e)), Ch(e, f, g)), RoundConstant(t)), w[t]);
      var t2 := Add(Sigma0(a), Maj(a, b, c));
      h := g;
      g := f;
      f := e;
      e := Add(d, t1);
      d := c;
      c := b;
      b := a;
      a := Add(t1, t2);
    }
    v := Vars(a, b, c, d, e, f, g, h);
  }

  lemma CompressIs(s: seq<word>, block: seq<u8>)
    requires |s| == 8 && |block| == 64
    ensures Compress(s, block) == Added(s, Rounds(Vars(s[0], s[1], s[2], s[3], s[4], s[5], s[6], s[7]), block, 64))
  {
  }

  /** Assigns all eight elements. */
  method Store(state: array<word>, s: seq<word>)
    requires state.Length == 8 == |s|
    modifies state
    ensures state[..] == s
  {
    state[0], state[1], state[2], state[3] := s[0], s[1], s[2], s[3];
    state[4], state[5], state[6], state[7] := s[4], s[5], s[6], s[7];
  }

  method ProcessBlock(state: array<word>, w: array<word>, block: seq<u8>)
    requires state.Length == 8 && w.Length == 64 && state != w && |block| == 64
    modifies state, w
    ensures state[..] == Compress(old(state[..]), block)
  {
    hide *;
    CompressIs(state[..], block);
    Expand(w, block);
    var v := RunRounds(Vars(state[0], state[1], state[2], state[3], state[4], state[5], state[6], state[7]), w, block);
    Store(state, Added(state[..], v));
  }

  // ----- Whole chunks, then a padded tail -----

  method Initial() returns (state: array<word>, w: array<word>)
    ensures fresh(state) && fresh(w) && state != w
    ensures state.Length == 8 && w.Length == 64 && state[..] == H_INIT
  {
    state := new word[8](i requires 0 <= i < 8 => H_INIT[i]);
    w := new word[64];
    assert state[..] == H_INIT;
  }

  method Output(state: array<word>) returns (out: seq<u8>)
    requires state.Length == 8
    ensures out == Digest(state[..]) && |out| == 32
  {
    hide WordBytes;
    out := [];
    for i := 0 to 8
      invariant out == Digest(state[..i])
    {
      assert state[..i + 1][..i] == state[..i];
      out := out + WordBytes(state[i]);
    }
    assert state[..8] == state[..];
  }

  method Sha256(data: seq<u8>) returns (out: seq<u8>)
    ensures out == Hash(data)
  {
    hide *;
    HashIs(data);
    var state, w := Initial();
    var totalLen := |data|;
    var offset := 0;
    FoldNone(H_INIT);
    while offset + 64 <= totalLen
      invariant 0 <= offset <= totalLen && offset % 64 == 0
      invariant state[..] == Fold(H_INIT, data[..offset])
    {
      FoldBlock(H_INIT, data[..offset], data[offset..offset + 64]);
      assert data[..offset] + data[offset..offset + 64] == data[..offset + 64];
      ProcessBlock(state, w, data[offset..offset + 64]);
      offset := offset + 64;
    }
    var tail := BuildTail(data, offset);
    FoldBlock(H_INIT, data[..offset], tail[..64]);
    ProcessBlock(state, w, tail[..64]);
    if |tail| > 64 {
      FoldBlock(H_INIT, data[..offset] + tail[..64], tail[64..128]);
      ProcessBlock(state, w, tail[64..128]);
      assert (data[..offset] + tail[..64]) + tail[64..128] == data[..offset] + tail;
    } else {
      assert tail[..64] == tail;
    }
    out := Output(state);
  }

  /** The last one or two blocks: the rest of the message, the marker, zeros and the length. */
  method BuildTail(data: seq<u8>, offset: nat) returns (blocks: seq<u8>)
    requires offset <= |data| < offset + 64 && offset % 64 == 0
    ensures |blocks| == 64 || |blocks| == 128
    ensures data[..offset] + blocks == Padded(data)
  {
    hide LengthBytes, Padded;
    var remainder := |data| - offset;
    var tail := new u8[128](_ => 0);
    forall i | 0 <= i < remainder { tail[i] := data[offset + i]; }
    tail[remainder] := 0x80;
    var bitBytes := LengthBytes(|data|);
    var end := if remainder < 56 then 64 else 128;
    forall i | 0 <= i < 8 { tail[end - 8 + i] := bitBytes[i]; }
    blocks := tail[..end];
    assert forall i :: 0 <= i < remainder ==> blocks[i] == tail[i] == data[offset + i];
    assert forall i :: 0 <= i < 8 ==> blocks[end - 8 + i] == tail[end - 8 + i] == bitBytes[i];
    assert blocks[..remainder] == data[offset..];
    assert blocks[end - 8..] == bitBytes;
    assert blocks[remainder] == 0x80 && forall i :: remainder < i < end - 8 ==> blocks[i] == 0;
    TailIsPadding(data, offset, blocks);
  }

  lemma HashIs(m: seq<u8>)
    ensures |H_INIT| == 8 && Hash(m) == Digest(Fold(H_INIT, Padded(m)))
  {
  }

  lemma FoldNone(s: seq<word>)
    requires |s| == 8
    ensures Fold(s, []) == s
  {
  }

  /** The tail buffer holds the end of the message, the marker, zeros and the length. */
  lemma TailIsPadding(data: seq<u8>, offset: nat, tail: seq<u8>)
    requires offset <= |data| < offset + 64 && offset % 64 == 0
    requires var rem := |data| - offset;
             && |tail| == (if rem < 56 then 64 else 128)
             && tail[..rem] == data[offset..] && tail[rem] == 0x80
             && (forall i :: rem < i < |tail| - 8 ==> tail[i] == 0)
             && tail[|tail| - 8..] == LengthBytes(|data|)
    ensures data[..offset] + tail == Padded(data)
  {
    hide LengthBytes;
    var rem: nat, z := |data| - offset, ZeroCount(|data|);
    ZerosInTail(offset, rem);
    assert tail[rem..|tail| - 8] == [0x80] + Zeros(z);
    assert tail == (tail[..rem] + tail[rem..|tail| - 8]) + tail[|tail| - 8..];
    assert data == data[..offset] + data[offset..];
  }

  lemma ZerosInTail(offset: nat, rem: nat)
    requires rem < 64 && offset % 64 == 0
    ensures ZeroCount(offset + rem) == if rem < 56 then 55 - rem else 119 - rem
  {
    hide Fills;
    WholeBlocks(offset, rem);
    ZerosBehind(rem);
  }

  lemma WholeBlocks(offset: nat, rem: nat)
    requires rem < 64 && offset % 64 == 0
    ensures (offset + rem) % 64 == rem
  {
  }

  lemma ZerosBehind(rem: nat)
    requires rem < 64
    ensures (119 - rem) % 64 == if rem < 56 then 55 - rem else 119 - rem
  {
  }

  // ----- One byte at a time -----

  /** The state and the buffer hold the bytes taken in so far: whole blocks folded, the rest waiting. */
  ghost predicate Absorbed(state: seq<word>, buf: seq<u8>, bufLen: nat, taken: seq<u8>) {
    && |buf| == 64 && bufLen <= 64 && bufLen <= |taken| && (|taken| - bufLen) % 64 == 0
    && state == Fold(H_INIT, taken[..|taken| - bufLen])
    && buf[..bufLen] == taken[|taken| - bufLen..]
  }

  lemma AbsorbedNone(buf: seq<u8>)
    requires |buf| == 64
    ensures Absorbed(H_INIT, buf, 0, [])
  {
  }

  lemma AbsorbedMore(state: seq<word>, buf: seq<u8>, bufLen: nat, taken: seq<u8>, byte: u8)
    requires Absorbed(state, buf, bufLen, taken) && bufLen < 64
    ensures Absorbed(state, buf[bufLen := byte], bufLen + 1, taken + [byte])
  {
    hide Fold;
    var n: nat := |taken| - bufLen;
    assert (taken + [byte])[..n] == taken[..n];
    assert (taken + [byte])[n..] == taken[n..] + [byte];
    assert buf[bufLen := byte][..bufLen + 1] == buf[..bufLen] + [byte];
  }

  lemma AbsorbedBlock(state: seq<word>, buf: seq<u8>, taken: seq<u8>)
    requires Absorbed(state, buf, 64, taken)
    ensures |state| == 8 && Absorbed(Compress(state, buf), buf, 0, taken)
  {
    hide Fold, Compress;
    var n: nat := |taken| - 64;
    FoldBlock(H_INIT, taken[..n], buf);
    assert taken == taken[..n] + buf;
    assert taken[..|taken|] == taken;
    SixtyFourMore(n);
  }

  lemma SixtyFourMore(n: nat)
    requires n % 64 == 0
    ensures (n + 64) % 64 == 0
  {
  }

  /** The three working arrays are different ones. */
  predicate Separate(buf: array<u8>, state: array<word>, w: array<word>) {
    && buf.Length == 64 && state.Length == 8 && w.Length == 64 && state != w
    && (buf as object) != (state as object) && (buf as object) != (w as object)
  }

  method ProcessByte(byte: u8, buf: array<u8>, bufLen: nat, state: array<word>, w: array<word>,
                      ghost taken: seq<u8>)
    returns (newLen: nat)
    requires Separate(buf, state, w)
    requires bufLen < 64 && Absorbed(state[..], buf[..], bufLen, taken)
    modifies buf, state, w
    ensures newLen == (bufLen + 1) % 64
    ensures Absorbed(state[..], buf[..], newLen, taken + [byte])
  {
    hide Absorbed, Compress;
    AbsorbedMore(state[..], buf[..], bufLen, taken, byte);
    ghost var before := buf[..];
    buf[bufLen] := byte;
    assert buf[..] == before[bufLen := byte];
    newLen := bufLen + 1;
    if newLen == 64 {
      AbsorbedBlock(state[..], buf[..], taken + [byte]);
      ProcessBlock(state, w, buf[..]);
      newLen := 0;
    }
  }

  /** Takes in the bytes of a message one after the other. */
  method ProcessBytes(bytes: seq<u8>, buf: array<u8>, bufLen: nat, state: array<word>, w: array<word>,
                      ghost taken: seq<u8>)
    returns (newLen: nat)
    requires Separate(buf, state, w)
    requires bufLen < 64 && Absorbed(state[..], buf[..], bufLen, taken)
    modifies buf, state, w
    ensures newLen < 64 && Absorbed(state[..], buf[..], newLen, taken + bytes)
  {
    hide Absorbed, Compress;
    newLen := bufLen;
    assert taken + bytes[..0] == taken;
    for i := 0 to |bytes|
      invariant newLen < 64 && Absorbed(state[..], buf[..], newLen, taken + bytes[..i])
    {
      newLen := ProcessByte(bytes[i], buf, newLen, state, w, taken + bytes[..i]);
      assert (taken + bytes[..i]) + [bytes[i]] == taken + bytes[..i + 1];
    }
    assert bytes[..|bytes|] == bytes;
  }

  /** Fills the buffer with zeros up to `to`. */
  method FillZeros(buf: array<u8>, bufLen: nat, to: nat, ghost state: seq<word>, ghost taken: seq<u8>)
    requires buf.Length == 64 && bufLen <= to <= 64 && Absorbed(state, buf[..], bufLen, taken)
    modifies buf
    ensures Absorbed(state, buf[..], to, taken + Zeros(to - bufLen))
  {
    hide Absorbed;
    var n := bufLen;
    assert taken + Zeros(0) == taken;
    while n < to
      invariant bufLen <= n <= to && Absorbed(state, buf[..], n, taken + Zeros(n - bufLen))
    {
      AbsorbedMore(state, buf[..], n, taken + Zeros(n - bufLen), 0);
      ghost var before := buf[..];
      buf[n] := 0;
      assert buf[..] == before[n := 0];
      assert (taken + Zeros(n - bufLen)) + [0] == taken + Zeros(n + 1 - bufLen);
      n := n + 1;
    }
  }

  lemma FillsUnique(n: nat, z: nat)
    requires z < 64 && Fills(n, z)
    ensures z == ZeroCount(n)
  {
    hide ZeroCount;
    SameRemainder(n + 1 + z, n + 1 + ZeroCount(n));
  }

  lemma SameRemainder(a: nat, b: nat)
    requires a % 64 == b % 64 && a < b + 64 && b < a + 64
    ensures a == b
  {
    var p: int, q: int := a / 64, b / 64;
    assert a == 64 * p + a % 64 && b == 64 * q + b % 64;
  }

  lemma ZerosAppend(m: seq<u8>, i: nat, j: nat)
    ensures (m + Zeros(i)) + Zeros(j) == m + Zeros(i + j)
  {
  }

  /** With 56 bytes waiting after the marker and the zeros, the length completes the padding. */
  lemma LengthCompletes(state: seq<word>, buf: seq<u8>, m: seq<u8>, z: nat, block: seq<u8>)
    requires z < 64 && Absorbed(state, buf, 56, (m + [0x80]) + Zeros(z))
    requires block == buf[..56] + LengthBytes(|m|)
    ensures |state| == 8 && |block| == 64 && Compress(state, block) == Fold(H_INIT, Padded(m))
  {
    hide Fold, Compress, LengthBytes, ZeroCount, Zeros;
    var taken := (m + [0x80]) + Zeros(z);
    var n: nat := |taken| - 56;
    FillsAt(|m|, z);
    FillsUnique(|m|, z);
    FoldBlock(H_INIT, taken[..n], block);
    assert taken == taken[..n] + buf[..56];
    assert taken[..n] + block == taken + LengthBytes(|m|);
    assert taken + LengthBytes(|m|) == m + Suffix(|m|);
  }

  lemma FillsAt(n: nat, z: nat)
    requires (n + 1 + z - 56) % 64 == 0
    ensures Fills(n, z)
  {
  }

  method Sha256Concat(a: seq<u8>, b: seq<u8>) returns (out: seq<u8>)
    ensures out == Hash(a + b)
  {
    hide Absorbed, Compress, Fold, LengthBytes, Digest, Zeros, ZeroCount, Padded;
    var bitBytes := LengthBytes(|a| + |b|);
    var state, w := Initial();
    var buf := new u8[64](_ => 0);
    AbsorbedNone(buf[..]);
    var bufLen := ProcessBytes(a, buf, 0, state, w, []);
    assert [] + a == a;
    bufLen := ProcessBytes(b, buf, bufLen, state, w, a);
    ghost var m := a + b;
    bufLen := ProcessByte(0x80, buf, bufLen, state, w, m);
    ghost var marked, zeros: nat := m + [0x80], 0;
    NoZeros(marked);
    if bufLen > 56 {
      FillZeros(buf, bufLen, 64, state[..], marked);
      zeros := 64 - bufLen;
      AbsorbedBlock(state[..], buf[..], marked + Zeros(zeros));
      ProcessBlock(state, w, buf[..]);
      bufLen := 0;
    }
    FillZeros(buf, bufLen, 56, state[..], marked + Zeros(zeros));
    ghost var z: nat := zeros + (56 - bufLen);
    ZerosAppend(marked, zeros, 56 - bufLen);
    assert Absorbed(state[..], buf[..], 56, (m + [0x80]) + Zeros(z));
    ghost var before, folded := buf[..], state[..];
    forall i | 0 <= i < 8 { buf[56 + i] := bitBytes[i]; }
    assert buf[..] == before[..56] + bitBytes && state[..] == folded;
    LengthCompletes(folded, before, m, z, buf[..]);
    ProcessBlock(state, w, buf[..]);
    out := Output(state);
  }

  lemma NoZeros(m: seq<u8>)
    ensures m + Zeros(0) == m
  {
  }

  // ----- HMAC, RFC 2104 section 2 -----

  function XorByte(b: u8, mask: bv8): u8 { ((b as bv8) ^ mask) as int }

  function XorAll(bytes: seq<u8>, mask: bv8): (r: seq<u8>)
    ensures |r| == |bytes|
  {
    seq(|bytes|, i requires 0 <= i < |bytes| => XorByte(bytes[i], mask))
  }

  /** The key brought to one block: hashed first if it is longer, then padded with zeros. */
  function BlockKey(key: seq<u8>): (k: seq<u8>)
    ensures |k| == 64
  {
    var short := if |key| > 64 then Hash(key) else key;
    short + Zeros(64 - |short|)
  }

  /** H((K ^ opad) || H((K ^ ipad) || text)). */
  function Hmac(key: seq<u8>, text: seq<u8>): seq<u8> {
    Hash(XorAll(BlockKey(key), 0x5C) + Hash(XorAll(BlockKey(key), 0x36) + text))
  }

  /** The key, or its hash when it is longer than a block, byte by byte, and zeros behind it. */
  lemma BlockKeyAt(key: seq<u8>, i: nat)
    requires i < 64
    ensures BlockKey(key)[i] == if |key| > 64 then (if i < 32 then Hash(key)[i] else 0)
                                else if i < |key| then key[i] else 0
  {
    hide Hash;
  }

  /** The keyed hash written out: the key masked with 0x36 before the text, and with 0x5c before that hash. */
  lemma HmacIs(key: seq<u8>, text: seq<u8>, k: seq<u8>, inner: seq<u8>, outer: seq<u8>)
    requires |k| == 64 && |inner| == 64 && |outer| == 64
    requires forall i :: 0 <= i < 64 ==>
               k[i] == if |key| > 64 then (if i < 32 then Hash(key)[i] else 0) else if i < |key| then key[i] else 0
    requires forall i :: 0 <= i < 64 ==> inner[i] == ((k[i] as bv8) ^ 0x36) as int
    requires forall i :: 0 <= i < 64 ==> outer[i] == ((k[i] as bv8) ^ 0x5c) as int
    ensures Hmac(key, text) == Hash(outer + Hash(inner + text))
  {
    hide Hash, BlockKey;
    forall i | 0 <= i < 64
      ensures BlockKey(key)[i] == k[i]
    {
      BlockKeyAt(key, i);
    }
    assert BlockKey(key) == k;
    assert inner == XorAll(k, 0x36);
    assert outer == XorAll(k, 0x5c);
  }

  /** The key, or its hash, at the front of a block of zeros. */
  method PadKey(key: seq<u8>) returns (kPad: array<u8>)
    ensures fresh(kPad) && kPad[..] == BlockKey(key)
  {
    hide Hash;
    kPad := new u8[64](_ => 0);
    if |key| > 64 {
      var hashedKey := Sha256(key);
      forall i | 0 <= i < 32 { kPad[i] := hashedKey[i]; }
    } else {
      forall i | 0 <= i < |key| { kPad[i] := key[i]; }
    }
  }

  /** A buffer of the masked key followed by the text. */
  method MaskedKeyThen(kPad: array<u8>, mask: bv8, text: seq<u8>, room: nat) returns (buffer: array<u8>)
    requires kPad.Length == 64 && |text| <= room
    ensures buffer.Length == 64 + room && buffer[..64 + |text|] == XorAll(kPad[..], mask) + text
  {
    hide XorByte;
    buffer := new u8[64 + room](_ => 0);
    for i := 0 to 64
      invariant forall j :: 0 <= j < i ==> buffer[j] == XorByte(kPad[j], mask)
    {
      buffer[i] := XorByte(kPad[i], mask);
    }
    forall i | 0 <= i < |text| { buffer[64 + i] := text[i]; }
    assert buffer[..64] == XorAll(kPad[..], mask);
    assert buffer[64..64 + |text|] == text;
    assert buffer[..64 + |text|] == buffer[..64] + buffer[64..64 + |text|];
  }

  method HmacSha256(key: seq<u8>, data: seq<u8>) returns (out: seq<u8>)
    ensures out == Hmac(key, data)
  {
    hide Hash, XorAll, BlockKey;
    var kPad := PadKey(key);
    var innerHash: seq<u8>;
    if |data| <= 1024 {
      var innerBuffer := MaskedKeyThen(kPad, 0x36, data, 1024);
      innerHash := Sha256(innerBuffer[..64 + |data|]);
    } else {
      var innerPrefix := MaskedKeyThen(kPad, 0x36, [], 0);
      assert innerPrefix[..64] == innerPrefix[..];
      assert XorAll(kPad[..], 0x36) + [] == XorAll(kPad[..], 0x36);
      innerHash := Sha256Concat(innerPrefix[..], data);
    }
    var outerBuffer := MaskedKeyThen(kPad, 0x5C, innerHash, 32);
    assert outerBuffer[..96] == outerBuffer[..];
    out := Sha256(outerBuffer[..]);
  }

  // ----- The padding says what was padded -----

  function Power256(n: nat): nat { if n == 0 then 1 else 256 * Power256(n - 1) }

  lemma {:induction false} BigEndianBack(n: nat, count: nat)
    requires n < Power256(count)
    ensures FromBigEndian(BigEndian(n, count)) == n
  {
    if count > 0 {
      BigEndianBack(n / 256, count - 1);
      assert BigEndian(n, count)[..count - 1] == BigEndian(n / 256, count - 1);
    }
  }

  /** Two messages short of 2^61 bytes with the same padded form are the same message. */
  lemma PaddingIsInjective(m: seq<u8>, n: seq<u8>)
    requires |m| < 0x2000_0000_0000_0000 && |n| < 0x2000_0000_0000_0000
    requires Padded(m) == Padded(n)
    ensures m == n
  {
    hide BigEndian, ZeroCount;
    LengthBytesBack(|m|);
    LengthBytesBack(|n|);
    var p := Padded(m);
    assert p[|p| - 8..] == LengthBytes(|m|);
    assert p[|p| - 8..] == LengthBytes(|n|);
    assert m == p[..|m|] && n == p[..|n|];
  }

  lemma EightBytes()
    ensures Power256(8) == 0x1_0000_0000_0000_0000
  {
    assert Power256(2) == 0x1_0000;
    assert Power256(4) == 0x1_0000_0000;
    assert Power256(6) == 0x1_0000_0000_0000;
  }

  lemma LengthBytesBack(n: nat)
    requires n < 0x2000_0000_0000_0000
    ensures FromBigEndian(LengthBytes(n)) == 8 * n
  {
    hide BigEndian, FromBigEndian, Power256;
    EightBytes();
    BigEndianBack(8 * n, 8);
  }
}
