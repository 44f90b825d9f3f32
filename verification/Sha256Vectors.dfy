/**
 What pins the SHA-256 specification to FIPS 180-4 itself: its constants are the first 32
 fractional bits of roots of the first primes (sections 4.2.2 and 5.3.3), and the one-block
 example "abc" has the digest the standard publishes.
 */
module Sha256Vectors {
  import opened Words
  import opened Sha256

  // ----- The constants -----

  const PRIMES: seq<nat> :=
    [2, 3, 5, 7, 11, 13, 17, 19] +
    [23, 29, 31, 37, 41, 43, 47, 53] +
    [59, 61, 67, 71, 73, 79, 83, 89] +
    [97, 101, 103, 107, 109, 113, 127, 131] +
    [137, 139, 149, 151, 157, 163, 167, 173] +
    [179, 181, 191, 193, 197, 199, 211, 223] +
    [227, 229, 233, 239, 241, 251, 257, 263] +
    [269, 271, 277, 281, 283, 293, 307, 311]

  function Cubed(n: nat): nat { n * n * n }

  function Squared(n: nat): nat { n * n }

  /** `k` is the first 32 fractional bits of the cube root of p, below 7. */
  ghost predicate CubeRootBits(p: nat, k: nat) {
    k < 0x1_0000_0000 && exists whole: nat :: whole < 7 && CubeRootIs(p, whole, k)
  }

  predicate CubeRootIs(p: nat, whole: nat, k: nat) {
    Cubed(whole * 0x1_0000_0000 + k) <= p * 0x1_00000000_00000000_00000000 < Cubed(whole * 0x1_0000_0000 + k + 1)
  }

  /** `k` is the first 32 fractional bits of the square root of p, below 5. */
  ghost predicate SquareRootBits(p: nat, k: nat) {
    k < 0x1_0000_0000 && exists whole: nat :: whole < 5 && SquareRootIs(p, whole, k)
  }

  predicate SquareRootIs(p: nat, whole: nat, k: nat) {
    Squared(whole * 0x1_0000_0000 + k) <= p * 0x1_00000000_00000000 < Squared(whole * 0x1_0000_0000 + k + 1)
  }

  lemma Root(t: nat, p: nat, whole: nat, k: word)
    requires |PRIMES| == 64 && t < 64 && PRIMES[t] == p && RoundConstant(t) == k
    requires whole < 7 && CubeRootIs(p, whole, k as int)
    ensures CubeRootBits(PRIMES[t], RoundConstant(t) as int)
  {
    hide CubeRootIs, RoundConstant;
  }

  lemma Constants0()
    ensures RoundConstant(0) == 0x428a2f98 && RoundConstant(1) == 0x71374491
    ensures RoundConstant(2) == 0xb5c0fbcf && RoundConstant(3) == 0xe9b5dba5
    ensures RoundConstant(4) == 0x3956c25b && RoundConstant(5) == 0x59f111f1
    ensures RoundConstant(6) == 0x923f82a4 && RoundConstant(7) == 0xab1c5ed5
  {
  }

  lemma Row0()
    ensures |PRIMES| == 64
    ensures forall t :: 0 <= t < 8 ==> CubeRootBits(PRIMES[t], RoundConstant(t) as int)
  {
    hide RoundConstant, CubeRootBits;
    Constants0();
    assert |PRIMES| == 64 && PRIMES[0..8] == [2, 3, 5, 7, 11, 13, 17, 19];
    Root(0, 2, 1, 0x428a2f98);
    Root(1, 3, 1, 0x71374491);
    Root(2, 5, 1, 0xb5c0fbcf);
    Root(3, 7, 1, 0xe9b5dba5);
    Root(4, 11, 2, 0x3956c25b);
    Root(5, 13, 2, 0x59f111f1);
    Root(6, 17, 2, 0x923f82a4);
    Root(7, 19, 2, 0xab1c5ed5);
  }

  lemma Constants1()
    ensures RoundConstant(8) == 0xd807aa98 && RoundConstant(9) == 0x12835b01
    ensures RoundConstant(10) == 0x243185be && RoundConstant(11) == 0x550c7dc3
    ensures RoundConstant(12) == 0x72be5d74 && RoundConstant(13) == 0x80deb1fe
    ensures RoundConstant(14) == 0x9bdc06a7 && RoundConstant(15) == 0xc19bf174
  {
  }

  lemma Row1()
    ensures |PRIMES| == 64
    ensures forall t :: 8 <= t < 16 ==> CubeRootBits(PRIMES[t], RoundConstant(t) as int)
  {
    hide RoundConstant, CubeRootBits;
    Constants1();
    assert |PRIMES| == 64 && PRIMES[8..16] == [23, 29, 31, 37, 41, 43, 47, 53];
    Root(8, 23, 2, 0xd807aa98);
    Root(9, 29, 3, 0x12835b01);
    Root(10, 31, 3, 0x243185be);
    Root(11, 37, 3, 0x550c7dc3);
    Root(12, 41, 3, 0x72be5d74);
    Root(13, 43, 3, 0x80deb1fe);
    Root(14, 47, 3, 0x9bdc06a7);
    Root(15, 53, 3, 0xc19bf174);
  }

  lemma Constants2()
    ensures RoundConstant(16) == 0xe49b69c1 && RoundConstant(17) == 0xefbe4786
    ensures RoundConstant(18) == 0x0fc19dc6 && RoundConstant(19) == 0x240ca1cc
    ensures RoundConstant(20) == 0x2de92c6f && RoundConstant(21) == 0x4a7484aa
    ensures RoundConstant(22) == 0x5cb0a9dc && RoundConstant(23) == 0x76f988da
  {
  }

  lemma Row2()
    ensures |PRIMES| == 64
    ensures forall t :: 16 <= t < 24 ==> CubeRootBits(PRIMES[t], RoundConstant(t) as int)
  {
    hide RoundConstant, CubeRootBits;
    Constants2();
    assert |PRIMES| == 64 && PRIMES[16..24] == [59, 61, 67, 71, 73, 79, 83, 89];
    Root(16, 59, 3, 0xe49b69c1);
    Root(17, 61, 3, 0xefbe4786);
    Root(18, 67, 4, 0x0fc19dc6);
    Root(19, 71, 4, 0x240ca1cc);
    Root(20, 73, 4, 0x2de92c6f);
    Root(21, 79, 4, 0x4a7484aa);
    Root(22, 83, 4, 0x5cb0a9dc);
    Root(23, 89, 4, 0x76f988da);
  }

  lemma Constants3()
    ensures RoundConstant(24) == 0x983e5152 && RoundConstant(25) == 0xa831c66d
    ensures RoundConstant(26) == 0xb00327c8 && RoundConstant(27) == 0xbf597fc7
    ensures RoundConstant(28) == 0xc6e00bf3 && RoundConstant(29) == 0xd5a79147
    ensures RoundConstant(30) == 0x06ca6351 && RoundConstant(31) == 0x14292967
  {
  }

  lemma Row3()
    ensures |PRIMES| == 64
    ensures forall t :: 24 <= t < 32 ==> CubeRootBits(PRIMES[t], RoundConstant(t) as int)
  {
    hide RoundConstant, CubeRootBits;
    Constants3();
    assert |PRIMES| == 64 && PRIMES[24..32] == [97, 101, 103, 107, 109, 113, 127, 131];
    Root(24, 97, 4, 0x983e5152);
    Root(25, 101, 4, 0xa831c66d);
    Root(26, 103, 4, 0xb00327c8);
    Root(27, 107, 4, 0xbf597fc7);
    Root(28, 109, 4, 0xc6e00bf3);
    Root(29, 113, 4, 0xd5a79147);
    Root(30, 127, 5, 0x06ca6351);
    Root(31, 131, 5, 0x14292967);
  }

  lemma Constants4()
    ensures RoundConstant(32) == 0x27b70a85 && RoundConstant(33) == 0x2e1b2138
    ensures RoundConstant(34) == 0x4d2c6dfc && RoundConstant(35) == 0x53380d13
    ensures RoundConstant(36) == 0x650a7354 && RoundConstant(37) == 0x766a0abb
    ensures RoundConstant(38) == 0x81c2c92e && RoundConstant(39) == 0x92722c85
  {
  }

  lemma Row4()
    ensures |PRIMES| == 64
    ensures forall t :: 32 <= t < 40 ==> CubeRootBits(PRIMES[t], RoundConstant(t) as int)
  {
    hide RoundConstant, CubeRootBits;
    Constants4();
    assert |PRIMES| == 64 && PRIMES[32..40] == [137, 139, 149, 151, 157, 163, 167, 173];
    Root(32, 137, 5, 0x27b70a85);
    Root(33, 139, 5, 0x2e1b2138);
    Root(34, 149, 5, 0x4d2c6dfc);
    Root(35, 151, 5, 0x53380d13);
    Root(36, 157, 5, 0x650a7354);
    Root(37, 163, 5, 0x766a0abb);
    Root(38, 167, 5, 0x81c2c92e);
    Root(39, 173, 5, 0x92722c85);
  }

  lemma Constants5()
    ensures RoundConstant(40) == 0xa2bfe8a1 && RoundConstant(41) == 0xa81a664b
    ensures RoundConstant(42) == 0xc24b8b70 && RoundConstant(43) == 0xc76c51a3
    ensures RoundConstant(44) == 0xd192e819 && RoundConstant(45) == 0xd6990624
    ensures RoundConstant(46) == 0xf40e3585 && RoundConstant(47) == 0x106aa070
  {
  }

  lemma Row5()
    ensures |PRIMES| == 64
    ensures forall t :: 40 <= t < 48 ==> CubeRootBits(PRIMES[t], RoundConstant(t) as int)
  {
    hide RoundConstant, CubeRootBits;
    Constants5();
    assert |PRIMES| == 64 && PRIMES[40..48] == [179, 181, 191, 193, 197, 199, 211, 223];
    Root(40, 179, 5, 0xa2bfe8a1);
    Root(41, 181, 5, 0xa81a664b);
    Root(42, 191, 5, 0xc24b8b70);
    Root(43, 193, 5, 0xc76c51a3);
    Root(44, 197, 5, 0xd192e819);
    Root(45, 199, 5, 0xd6990624);
    Root(46, 211, 5, 0xf40e3585);
    Root(47, 223, 6, 0x106aa070);
  }

  lemma Constants6()
    ensures RoundConstant(48) == 0x19a4c116 && RoundConstant(49) == 0x1e376c08
    ensures RoundConstant(50) == 0x2748774c && RoundConstant(51) == 0x34b0bcb5
    ensures RoundConstant(52) == 0x391c0cb3 && RoundConstant(53) == 0x4ed8aa4a
    ensures RoundConstant(54) == 0x5b9cca4f && RoundConstant(55) == 0x682e6ff3
  {
  }

  lemma Row6()
    ensures |PRIMES| == 64
    ensures forall t :: 48 <= t < 56 ==> CubeRootBits(PRIMES[t], RoundConstant(t) as int)
  {
    hide RoundConstant, CubeRootBits;
    Constants6();
    assert |PRIMES| == 64 && PRIMES[48..56] == [227, 229, 233, 239, 241, 251, 257, 263];
    Root(48, 227, 6, 0x19a4c116);
    Root(49, 229, 6, 0x1e376c08);
    Root(50, 233, 6, 0x2748774c);
    Root(51, 239, 6, 0x34b0bcb5);
    Root(52, 241, 6, 0x391c0cb3);
    Root(53, 251, 6, 0x4ed8aa4a);
    Root(54, 257, 6, 0x5b9cca4f);
    Root(55, 263, 6, 0x682e6ff3);
  }

  lemma Constants7()
    ensures RoundConstant(56) == 0x748f82ee && RoundConstant(57) == 0x78a5636f
    ensures RoundConstant(58) == 0x84c87814 && RoundConstant(59) == 0x8cc70208
    ensures RoundConstant(60) == 0x90befffa && RoundConstant(61) == 0xa4506ceb
    ensures RoundConstant(62) == 0xbef9a3f7 && RoundConstant(63) == 0xc67178f2
  {
  }

  lemma Row7()
    ensures |PRIMES| == 64
    ensures forall t :: 56 <= t < 64 ==> CubeRootBits(PRIMES[t], RoundConstant(t) as int)
  {
    hide RoundConstant, CubeRootBits;
    Constants7();
    assert |PRIMES| == 64 && PRIMES[56..64] == [269, 271, 277, 281, 283, 293, 307, 311];
    Root(56, 269, 6, 0x748f82ee);
    Root(57, 271, 6, 0x78a5636f);
    Root(58, 277, 6, 0x84c87814);
    Root(59, 281, 6, 0x8cc70208);
    Root(60, 283, 6, 0x90befffa);
    Root(61, 293, 6, 0xa4506ceb);
    Root(62, 307, 6, 0xbef9a3f7);
    Root(63, 311, 6, 0xc67178f2);
  }

  /** Each round constant is the fraction of the cube root of its prime, to 32 bits. */
  lemma RoundConstantsAreRoots(t: nat)
    requires t < 64
    ensures |PRIMES| == 64 && CubeRootBits(PRIMES[t], RoundConstant(t) as int)
  {
    hide *;
    Row0();
    Row1();
    Row2();
    Row3();
    Row4();
    Row5();
    Row6();
    Row7();
  }

  /** Each initial hash value is the fraction of the square root of its prime, to 32 bits. */
  lemma InitialValuesAreRoots(t: nat)
    requires t < 8
    ensures |PRIMES| == 64 && |H_INIT| == 8 && SquareRootBits(PRIMES[t], H_INIT[t] as int)
  {
    assert SquareRootIs(2, 1, 0x6a09e667);
    assert SquareRootIs(3, 1, 0xbb67ae85);
    assert SquareRootIs(5, 2, 0x3c6ef372);
    assert SquareRootIs(7, 2, 0xa54ff53a);
    assert SquareRootIs(11, 3, 0x510e527f);
    assert SquareRootIs(13, 3, 0x9b05688c);
    assert SquareRootIs(17, 4, 0x1f83d9ab);
    assert SquareRootIs(19, 4, 0x5be0cd19);
  }

  // ----- The example "abc" -----

  const ABC: seq<u8> := [0x61, 0x62, 0x63]

  const ABC_BLOCK: seq<u8> := ABC + [0x80] + Zeros(52) + [0, 0, 0, 0, 0, 0, 0, 24]

  lemma AbcLength()
    ensures LengthBytes(3) == [0, 0, 0, 0, 0, 0, 0, 24]
  {
  }

  lemma AbcPadded()
    ensures |ABC_BLOCK| == 64 && Padded(ABC) == ABC_BLOCK
  {
    AbcLength();
    hide LengthBytes;
    assert ZeroCount(3) == 52;
    assert ABC_BLOCK == ABC + ([0x80] + Zeros(52) + [0, 0, 0, 0, 0, 0, 0, 24]);
  }

  lemma ByteAsWord(b: u8, x: word)
    requires x as int == b
    ensures b as word == x
  {
  }

  /** The block's words are those of "abc", its marker and its length. */
  ghost predicate OfAbc(b: seq<u8>) {
    && |b| == 64 && Schedule(b, 0) == 0x61626380 && Schedule(b, 15) == 0x18
    && forall t: nat :: 1 <= t < 15 ==> Schedule(b, t) == 0
  }

  lemma AbcWords()
    ensures OfAbc(ABC_BLOCK)
  {
    AbcPadded();
    var b := ABC_BLOCK;
    hide Schedule;
    ByteAsWord(0, 0);
    ByteAsWord(0x61, 0x61);
    ByteAsWord(0x62, 0x62);
    ByteAsWord(0x63, 0x63);
    ByteAsWord(0x80, 0x80);
    ByteAsWord(24, 24);
    forall t: nat | t < 16
      ensures Schedule(b, t) == WordOf(b[4 * t], b[4 * t + 1], b[4 * t + 2], b[4 * t + 3])
    {
      ScheduleFirst(b, t);
    }
  }

  /** A later word of the schedule, from the four it depends on. */
  lemma Word(b: seq<u8>, t: nat, t2: word, t7: word, t15: word, t16: word, x: word)
    requires |b| == 64 && 16 <= t < 64 && ScheduleStep(t2, t7, t15, t16) == x
    requires Schedule(b, t - 2) == t2 && Schedule(b, t - 7) == t7
    requires Schedule(b, t - 15) == t15 && Schedule(b, t - 16) == t16
    ensures Schedule(b, t) == x
  {
    hide *;
    ScheduleNext(b, t);
  }

  lemma AbcSchedule1(b: seq<u8>)
    requires OfAbc(b)
    ensures |b| == 64
    ensures Schedule(b, 16) == 0x61626380 && Schedule(b, 17) == 0x000f0000 && Schedule(b, 18) == 0x7da86405
    ensures Schedule(b, 19) == 0x600003c6 && Schedule(b, 20) == 0x3e9d7b78 && Schedule(b, 21) == 0x0183fc00
    ensures Schedule(b, 22) == 0x12dcbfdb && Schedule(b, 23) == 0xe2e2c38e
  {
    hide Schedule;
    Word(b, 16, 0x00000000, 0x00000000, 0x00000000, 0x61626380, 0x61626380);
    Word(b, 17, 0x00000018, 0x00000000, 0x00000000, 0x00000000, 0x000f0000);
    Word(b, 18, 0x61626380, 0x00000000, 0x00000000, 0x00000000, 0x7da86405);
    Word(b, 19, 0x000f0000, 0x00000000, 0x00000000, 0x00000000, 0x600003c6);
    Word(b, 20, 0x7da86405, 0x00000000, 0x00000000, 0x00000000, 0x3e9d7b78);
    Word(b, 21, 0x600003c6, 0x00000000, 0x00000000, 0x00000000, 0x0183fc00);
    Word(b, 22, 0x3e9d7b78, 0x00000018, 0x00000000, 0x00000000, 0x12dcbfdb);
    Word(b, 23, 0x0183fc00, 0x61626380, 0x00000000, 0x00000000, 0xe2e2c38e);
  }

  lemma AbcSchedule2(b: seq<u8>)
    requires OfAbc(b)
    ensures |b| == 64
    ensures Schedule(b, 24) == 0xc8215c1a && Schedule(b, 25) == 0xb73679a2 && Schedule(b, 26) == 0xe5bc3909
    ensures Schedule(b, 27) == 0x32663c5b && Schedule(b, 28) == 0x9d209d67 && Schedule(b, 29) == 0xec8726cb
    ensures Schedule(b, 30) == 0x702138a4 && Schedule(b, 31) == 0xd3b7973b
  {
    AbcSchedule1(b);
    hide Schedule;
    Word(b, 24, 0x12dcbfdb, 0x000f0000, 0x00000000, 0x00000000, 0xc8215c1a);
    Word(b, 25, 0xe2e2c38e, 0x7da86405, 0x00000000, 0x00000000, 0xb73679a2);
    Word(b, 26, 0xc8215c1a, 0x600003c6, 0x00000000, 0x00000000, 0xe5bc3909);
    Word(b, 27, 0xb73679a2, 0x3e9d7b78, 0x00000000, 0x00000000, 0x32663c5b);
    Word(b, 28, 0xe5bc3909, 0x0183fc00, 0x00000000, 0x00000000, 0x9d209d67);
    Word(b, 29, 0x32663c5b, 0x12dcbfdb, 0x00000000, 0x00000000, 0xec8726cb);
    Word(b, 30, 0x9d209d67, 0xe2e2c38e, 0x00000018, 0x00000000, 0x702138a4);
    Word(b, 31, 0xec8726cb, 0xc8215c1a, 0x61626380, 0x00000018, 0xd3b7973b);
  }

  lemma AbcSchedule3(b: seq<u8>)
    requires OfAbc(b)
    ensures |b| == 64
    ensures Schedule(b, 32) == 0x93f5997f && Schedule(b, 33) == 0x3b68ba73 && Schedule(b, 34) == 0xaff4ffc1
    ensures Schedule(b, 35) == 0xf10a5c62 && Schedule(b, 36) == 0x0a8b3996 && Schedule(b, 37) == 0x72af830a
    ensures Schedule(b, 38) == 0x9409e33e && Schedule(b, 39) == 0x24641522
  {
    AbcSchedule1(b);
    AbcSchedule2(b);
    hide Schedule, OfAbc;
    Word(b, 32, 0x702138a4, 0xb73679a2, 0x000f0000, 0x61626380, 0x93f5997f);
    Word(b, 33, 0xd3b7973b, 0xe5bc3909, 0x7da86405, 0x000f0000, 0x3b68ba73);
    Word(b, 34, 0x93f5997f, 0x32663c5b, 0x600003c6, 0x7da86405, 0xaff4ffc1);
    Word(b, 35, 0x3b68ba73, 0x9d209d67, 0x3e9d7b78, 0x600003c6, 0xf10a5c62);
    Word(b, 36, 0xaff4ffc1, 0xec8726cb, 0x0183fc00, 0x3e9d7b78, 0x0a8b3996);
    Word(b, 37, 0xf10a5c62, 0x702138a4, 0x12dcbfdb, 0x0183fc00, 0x72af830a);
    Word(b, 38, 0x0a8b3996, 0xd3b7973b, 0xe2e2c38e, 0x12dcbfdb, 0x9409e33e);
    Word(b, 39, 0x72af830a, 0x93f5997f, 0xc8215c1a, 0xe2e2c38e, 0x24641522);
  }

  lemma AbcSchedule4(b: seq<u8>)
    requires OfAbc(b)
    ensures |b| == 64
    ensures Schedule(b, 40) == 0x9f47bf94 && Schedule(b, 41) == 0xf0a64f5a && Schedule(b, 42) == 0x3e246a79
    ensures Schedule(b, 43) == 0x27333ba3 && Schedule(b, 44) == 0x0c4763f2 && Schedule(b, 45) == 0x840abf27
    ensures Schedule(b, 46) == 0x7a290d5d && Schedule(b, 47) == 0x065c43da
  {
    AbcSchedule2(b);
    AbcSchedule3(b);
    hide Schedule, OfAbc;
    Word(b, 40, 0x9409e33e, 0x3b68ba73, 0xb73679a2, 0xc8215c1a, 0x9f47bf94);
    Word(b, 41, 0x24641522, 0xaff4ffc1, 0xe5bc3909, 0xb73679a2, 0xf0a64f5a);
    Word(b, 42, 0x9f47bf94, 0xf10a5c62, 0x32663c5b, 0xe5bc3909, 0x3e246a79);
    Word(b, 43, 0xf0a64f5a, 0x0a8b3996, 0x9d209d67, 0x32663c5b, 0x27333ba3);
    Word(b, 44, 0x3e246a79, 0x72af830a, 0xec8726cb, 0x9d209d67, 0x0c4763f2);
    Word(b, 45, 0x27333ba3, 0x9409e33e, 0x702138a4, 0xec8726cb, 0x840abf27);
    Word(b, 46, 0x0c4763f2, 0x24641522, 0xd3b7973b, 0x702138a4, 0x7a290d5d);
    Word(b, 47, 0x840abf27, 0x9f47bf94, 0x93f5997f, 0xd3b7973b, 0x065c43da);
  }

  lemma AbcSchedule5(b: seq<u8>)
    requires OfAbc(b)
    ensures |b| == 64
    ensures Schedule(b, 48) == 0xfb3e89cb && Schedule(b, 49) == 0xcc7617db && Schedule(b, 50) == 0xb9e66c34
    ensures Schedule(b, 51) == 0xa9993667 && Schedule(b, 52) == 0x84badedd && Schedule(b, 53) == 0xc21462bc
    ensures Schedule(b, 54) == 0x1487472c && Schedule(b, 55) == 0xb20f7a99
  {
    AbcSchedule3(b);
    AbcSchedule4(b);
    hide Schedule, OfAbc;
    Word(b, 48, 0x7a290d5d, 0xf0a64f5a, 0x3b68ba73, 0x93f5997f, 0xfb3e89cb);
    Word(b, 49, 0x065c43da, 0x3e246a79, 0xaff4ffc1, 0x3b68ba73, 0xcc7617db);
    Word(b, 50, 0xfb3e89cb, 0x27333ba3, 0xf10a5c62, 0xaff4ffc1, 0xb9e66c34);
    Word(b, 51, 0xcc7617db, 0x0c4763f2, 0x0a8b3996, 0xf10a5c62, 0xa9993667);
    Word(b, 52, 0xb9e66c34, 0x840abf27, 0x72af830a, 0x0a8b3996, 0x84badedd);
    Word(b, 53, 0xa9993667, 0x7a290d5d, 0x9409e33e, 0x72af830a, 0xc21462bc);
    Word(b, 54, 0x84badedd, 0x065c43da, 0x24641522, 0x9409e33e, 0x1487472c);
    Word(b, 55, 0xc21462bc, 0xfb3e89cb, 0x9f47bf94, 0x24641522, 0xb20f7a99);
  }

  lemma AbcSchedule6(b: seq<u8>)
    requires OfAbc(b)
    ensures |b| == 64
    ensures Schedule(b, 56) == 0xef57b9cd && Schedule(b, 57) == 0xebe6b238 && Schedule(b, 58) == 0x9fe3095e
    ensures Schedule(b, 59) == 0x78bc8d4b && Schedule(b, 60) == 0xa43fcf15 && Schedule(b, 61) == 0x668b2ff8
    ensures Schedule(b, 62) == 0xeeaba2cc && Schedule(b, 63) == 0x12b1edeb
  {
    AbcSchedule4(b);
    AbcSchedule5(b);
    hide Schedule, OfAbc;
    Word(b, 56, 0x1487472c, 0xcc7617db, 0xf0a64f5a, 0x9f47bf94, 0xef57b9cd);
    Word(b, 57, 0xb20f7a99, 0xb9e66c34, 0x3e246a79, 0xf0a64f5a, 0xebe6b238);
    Word(b, 58, 0xef57b9cd, 0xa9993667, 0x27333ba3, 0x3e246a79, 0x9fe3095e);
    Word(b, 59, 0xebe6b238, 0x84badedd, 0x0c4763f2, 0x27333ba3, 0x78bc8d4b);
    Word(b, 60, 0x9fe3095e, 0xc21462bc, 0x840abf27, 0x0c4763f2, 0xa43fcf15);
    Word(b, 61, 0x78bc8d4b, 0x1487472c, 0x7a290d5d, 0x840abf27, 0x668b2ff8);
    Word(b, 62, 0xa43fcf15, 0xb20f7a99, 0x065c43da, 0x7a290d5d, 0xeeaba2cc);
    Word(b, 63, 0x668b2ff8, 0xef57b9cd, 0xfb3e89cb, 0x065c43da, 0x12b1edeb);
  }

  /** One round of the compression, giving the two working variables that are new. */
  lemma Turn(b: seq<u8>, n: nat, k: word, w: word, v: Vars, a: word, e: word) returns (after: Vars)
    requires |b| == 64 && n < 64 && Rounds(INITIAL, b, n) == v
    requires RoundConstant(n) == k && Schedule(b, n) == w
    requires Round(v, k, w) == Vars(a, v.a, v.b, v.c, e, v.e, v.f, v.g)
    ensures after == Vars(a, v.a, v.b, v.c, e, v.e, v.f, v.g) && Rounds(INITIAL, b, n + 1) == after
  {
    hide *;
    RoundsNext(INITIAL, b, n);
    after := Round(v, k, w);
  }

  const INITIAL := Vars(0x6a09e667, 0xbb67ae85, 0x3c6ef372, 0xa54ff53a, 0x510e527f, 0x9b05688c, 0x1f83d9ab, 0x5be0cd19)

  lemma AbcRounds8(b: seq<u8>)
    requires OfAbc(b)
    ensures |b| == 64
    ensures Rounds(INITIAL, b, 8)
            == Vars(0x85a07b5f, 0xe5030380, 0x2b4209f5, 0x04409a6a, 0x0c657a79, 0x9b27a401, 0x714260ad, 0x43ada245)
  {
    Constants0();
    RoundsNext(INITIAL, b, 0);
    hide Schedule, Rounds, RoundConstant;
    var v := Vars(0x6a09e667, 0xbb67ae85, 0x3c6ef372, 0xa54ff53a, 0x510e527f, 0x9b05688c, 0x1f83d9ab, 0x5be0cd19);
    v := Turn(b, 0, 0x428a2f98, 0x61626380, v, 0x5d6aebcd, 0xfa2a4622);
    v := Turn(b, 1, 0x71374491, 0x00000000, v, 0x5a6ad9ad, 0x78ce7989);
    v := Turn(b, 2, 0xb5c0fbcf, 0x00000000, v, 0xc8c347a7, 0xf92939eb);
    v := Turn(b, 3, 0xe9b5dba5, 0x00000000, v, 0xd550f666, 0x24e00850);
    v := Turn(b, 4, 0x3956c25b, 0x00000000, v, 0x04409a6a, 0x43ada245);
    v := Turn(b, 5, 0x59f111f1, 0x00000000, v, 0x2b4209f5, 0x714260ad);
    v := Turn(b, 6, 0x923f82a4, 0x00000000, v, 0xe5030380, 0x9b27a401);
    v := Turn(b, 7, 0xab1c5ed5, 0x00000000, v, 0x85a07b5f, 0x0c657a79);
  }

  lemma AbcRounds16(b: seq<u8>)
    requires OfAbc(b)
    ensures |b| == 64
    ensures Rounds(INITIAL, b, 16)
            == Vars(0xb0fa238e, 0xc0645fde, 0xd932eb16, 0x87912990, 0x07590dcd, 0x0b92f20c, 0x745a48de, 0x1e578218)
  {
    Constants1();
    AbcRounds8(b);
    hide Schedule, Rounds, RoundConstant;
    var v := Vars(0x85a07b5f, 0xe5030380, 0x2b4209f5, 0x04409a6a, 0x0c657a79, 0x9b27a401, 0x714260ad, 0x43ada245);
    v := Turn(b, 8, 0xd807aa98, 0x00000000, v, 0x8e04ecb9, 0x32ca2d8c);
    v := Turn(b, 9, 0x12835b01, 0x00000000, v, 0x8c87346b, 0x1cc92596);
    v := Turn(b, 10, 0x243185be, 0x00000000, v, 0x4798a3f4, 0x436b23e8);
    v := Turn(b, 11, 0x550c7dc3, 0x00000000, v, 0xf71fc5a9, 0x816fd6e9);
    v := Turn(b, 12, 0x72be5d74, 0x00000000, v, 0x87912990, 0x1e578218);
    v := Turn(b, 13, 0x80deb1fe, 0x00000000, v, 0xd932eb16, 0x745a48de);
    v := Turn(b, 14, 0x9bdc06a7, 0x00000000, v, 0xc0645fde, 0x0b92f20c);
    v := Turn(b, 15, 0xc19bf174, 0x00000018, v, 0xb0fa238e, 0x07590dcd);
  }

  lemma AbcRounds24(b: seq<u8>)
    requires OfAbc(b)
    ensures |b| == 64
    ensures Rounds(INITIAL, b, 24)
            == Vars(0xc5d53d8d, 0xa7a3623f, 0xc2606d6d, 0x9dc68b63, 0xaa47c347, 0x49f5114a, 0xe1257970, 0x8ada8930)
  {
    AbcSchedule1(b);
    Constants2();
    AbcRounds16(b);
    hide Schedule, Rounds, RoundConstant, OfAbc;
    var v := Vars(0xb0fa238e, 0xc0645fde, 0xd932eb16, 0x87912990, 0x07590dcd, 0x0b92f20c, 0x745a48de, 0x1e578218);
    v := Turn(b, 16, 0xe49b69c1, 0x61626380, v, 0x21da9a9b, 0x8034229c);
    v := Turn(b, 17, 0xefbe4786, 0x000f0000, v, 0xc2fbd9d1, 0x846ee454);
    v := Turn(b, 18, 0x0fc19dc6, 0x7da86405, v, 0xfe777bbf, 0xcc899961);
    v := Turn(b, 19, 0x240ca1cc, 0x600003c6, v, 0xe1f20c33, 0xb0638179);
    v := Turn(b, 20, 0x2de92c6f, 0x3e9d7b78, v, 0x9dc68b63, 0x8ada8930);
    v := Turn(b, 21, 0x4a7484aa, 0x0183fc00, v, 0xc2606d6d, 0xe1257970);
    v := Turn(b, 22, 0x5cb0a9dc, 0x12dcbfdb, v, 0xa7a3623f, 0x49f5114a);
    v := Turn(b, 23, 0x76f988da, 0xe2e2c38e, v, 0xc5d53d8d, 0xaa47c347);
  }

  lemma AbcRounds32(b: seq<u8>)
    requires OfAbc(b)
    ensures |b| == 64
    ensures Rounds(INITIAL, b, 32)
            == Vars(0x73b33bf5, 0xea992a22, 0xa0060b30, 0x363482c9, 0xba591112, 0x0109ab3a, 0xade79437, 0x6112a3b7)
  {
    AbcSchedule2(b);
    Constants3();
    AbcRounds24(b);
    hide Schedule, Rounds, RoundConstant, OfAbc;
    var v := Vars(0xc5d53d8d, 0xa7a3623f, 0xc2606d6d, 0x9dc68b63, 0xaa47c347, 0x49f5114a, 0xe1257970, 0x8ada8930);
    v := Turn(b, 24, 0x983e5152, 0xc8215c1a, v, 0x1c2c2838, 0x2823ef91);
    v := Turn(b, 25, 0xa831c66d, 0xb73679a2, v, 0xcde8037d, 0x14383d8e);
    v := Turn(b, 26, 0xb00327c8, 0xe5bc3909, v, 0xb62ec4bc, 0xc74c6516);
    v := Turn(b, 27, 0xbf597fc7, 0x32663c5b, v, 0x77d37528, 0xedffbff8);
    v := Turn(b, 28, 0xc6e00bf3, 0x9d209d67, v, 0x363482c9, 0x6112a3b7);
    v := Turn(b, 29, 0xd5a79147, 0xec8726cb, v, 0xa0060b30, 0xade79437);
    v := Turn(b, 30, 0x06ca6351, 0x702138a4, v, 0xea992a22, 0x0109ab3a);
    v := Turn(b, 31, 0x14292967, 0xd3b7973b, v, 0x73b33bf5, 0xba591112);
  }

  lemma AbcRounds40(b: seq<u8>)
    requires OfAbc(b)
    ensures |b| == 64
    ensures Rounds(INITIAL, b, 40)
            == Vars(0x79ea687a, 0x6dc57a8a, 0x34df1604, 0x41a65cb1, 0x1efbc0a0, 0xf0781bc8, 0xa507a53d, 0x0772a26b)
  {
    AbcSchedule3(b);
    Constants4();
    AbcRounds32(b);
    hide Schedule, Rounds, RoundConstant, OfAbc;
    var v := Vars(0x73b33bf5, 0xea992a22, 0xa0060b30, 0x363482c9, 0xba591112, 0x0109ab3a, 0xade79437, 0x6112a3b7);
    v := Turn(b, 32, 0x27b70a85, 0x93f5997f, v, 0x98e12507, 0x9cd9f5f6);
    v := Turn(b, 33, 0x2e1b2138, 0x3b68ba73, v, 0xfe604df5, 0x59249dd3);
    v := Turn(b, 34, 0x4d2c6dfc, 0xaff4ffc1, v, 0xa9a7738c, 0x085f3833);
    v := Turn(b, 35, 0x53380d13, 0xf10a5c62, v, 0x65a0cfe4, 0xf4b002d6);
    v := Turn(b, 36, 0x650a7354, 0x0a8b3996, v, 0x41a65cb1, 0x0772a26b);
    v := Turn(b, 37, 0x766a0abb, 0x72af830a, v, 0x34df1604, 0xa507a53d);
    v := Turn(b, 38, 0x81c2c92e, 0x9409e33e, v, 0x6dc57a8a, 0xf0781bc8);
    v := Turn(b, 39, 0x92722c85, 0x24641522, v, 0x79ea687a, 0x1efbc0a0);
  }

  lemma AbcRounds48(b: seq<u8>)
    requires OfAbc(b)
    ensures |b| == 64
    ensures Rounds(INITIAL, b, 48)
            == Vars(0x4172328d, 0xa14c14b0, 0x72ab4b91, 0x26628815, 0xfecf0bc6, 0xd57b94a9, 0xb7755da1, 0xa80f11f0)
  {
    AbcSchedule4(b);
    Constants5();
    AbcRounds40(b);
    hide Schedule, Rounds, RoundConstant, OfAbc;
    var v := Vars(0x79ea687a, 0x6dc57a8a, 0x34df1604, 0x41a65cb1, 0x1efbc0a0, 0xf0781bc8, 0xa507a53d, 0x0772a26b);
    v := Turn(b, 40, 0xa2bfe8a1, 0x9f47bf94, v, 0xd6670766, 0x26352d63);
    v := Turn(b, 41, 0xa81a664b, 0xf0a64f5a, v, 0xdf46652f, 0x838b2711);
    v := Turn(b, 42, 0xc24b8b70, 0x3e246a79, v, 0x17aa0dfe, 0xdecd4715);
    v := Turn(b, 43, 0xc76c51a3, 0x27333ba3, v, 0x9d4baf93, 0xfda24c2e);
    v := Turn(b, 44, 0xd192e819, 0x0c4763f2, v, 0x26628815, 0xa80f11f0);
    v := Turn(b, 45, 0xd6990624, 0x840abf27, v, 0x72ab4b91, 0xb7755da1);
    v := Turn(b, 46, 0xf40e3585, 0x7a290d5d, v, 0xa14c14b0, 0xd57b94a9);
    v := Turn(b, 47, 0x106aa070, 0x065c43da, v, 0x4172328d, 0xfecf0bc6);
  }

  lemma AbcRounds56(b: seq<u8>)
    requires OfAbc(b)
    ensures |b| == 64
    ensures Rounds(INITIAL, b, 56)
            == Vars(0x38cc9913, 0x3ec45cdb, 0xf5702fdb, 0x101fd28f, 0x54cb266b, 0xe50e1b4f, 0x9f4787c3, 0x529e7d00)
  {
    AbcSchedule5(b);
    Constants6();
    AbcRounds48(b);
    hide Schedule, Rounds, RoundConstant, OfAbc;
    var v := Vars(0x4172328d, 0xa14c14b0, 0x72ab4b91, 0x26628815, 0xfecf0bc6, 0xd57b94a9, 0xb7755da1, 0xa80f11f0);
    v := Turn(b, 48, 0x19a4c116, 0xfb3e89cb, v, 0x05757ceb, 0xbd714038);
    v := Turn(b, 49, 0x1e376c08, 0xcc7617db, v, 0xf11bfaa8, 0x6e5c390c);
    v := Turn(b, 50, 0x2748774c, 0xb9e66c34, v, 0x7a0508a1, 0x52f1ccf7);
    v := Turn(b, 51, 0x34b0bcb5, 0xa9993667, v, 0x886e7a22, 0x49231c1e);
    v := Turn(b, 52, 0x391c0cb3, 0x84badedd, v, 0x101fd28f, 0x529e7d00);
    v := Turn(b, 53, 0x4ed8aa4a, 0xc21462bc, v, 0xf5702fdb, 0x9f4787c3);
    v := Turn(b, 54, 0x5b9cca4f, 0x1487472c, v, 0x3ec45cdb, 0xe50e1b4f);
    v := Turn(b, 55, 0x682e6ff3, 0xb20f7a99, v, 0x38cc9913, 0x54cb266b);
  }

  lemma AbcRounds64(b: seq<u8>)
    requires OfAbc(b)
    ensures |b| == 64
    ensures Rounds(INITIAL, b, 64)
            == Vars(0x506e3058, 0xd39a2165, 0x04d24d6c, 0xb85e2ce9, 0x5ef50f24, 0xfb121210, 0x948d25b6, 0x961f4894)
  {
    AbcSchedule6(b);
    Constants7();
    AbcRounds56(b);
    hide Schedule, Rounds, RoundConstant, OfAbc;
    var v := Vars(0x38cc9913, 0x3ec45cdb, 0xf5702fdb, 0x101fd28f, 0x54cb266b, 0xe50e1b4f, 0x9f4787c3, 0x529e7d00);
    v := Turn(b, 56, 0x748f82ee, 0xef57b9cd, v, 0xfcd1887b, 0x9b5e906c);
    v := Turn(b, 57, 0x78a5636f, 0xebe6b238, v, 0xc062d46f, 0x7e44008e);
    v := Turn(b, 58, 0x84c87814, 0x9fe3095e, v, 0xffb70472, 0x6d83bfc6);
    v := Turn(b, 59, 0x8cc70208, 0x78bc8d4b, v, 0xb6ae8fff, 0xb21bad3d);
    v := Turn(b, 60, 0x90befffa, 0xa43fcf15, v, 0xb85e2ce9, 0x961f4894);
    v := Turn(b, 61, 0xa4506ceb, 0x668b2ff8, v, 0x04d24d6c, 0x948d25b6);
    v := Turn(b, 62, 0xbef9a3f7, 0xeeaba2cc, v, 0xd39a2165, 0xfb121210);
    v := Turn(b, 63, 0xc67178f2, 0x12b1edeb, v, 0x506e3058, 0x5ef50f24);
  }

  const ABC_STATE: seq<word> := [
    0xba7816bf, 0x8f01cfea, 0x414140de, 0x5dae2223, 0xb00361a3, 0x96177a9c, 0xb410ff61, 0xf20015ad]

  const ABC_DIGEST: seq<u8> :=
    [0xba, 0x78, 0x16, 0xbf, 0x8f, 0x01, 0xcf, 0xea, 0x41, 0x41, 0x40, 0xde, 0x5d, 0xae, 0x22, 0x23] +
    [0xb0, 0x03, 0x61, 0xa3, 0x96, 0x17, 0x7a, 0x9c, 0xb4, 0x10, 0xff, 0x61, 0xf2, 0x00, 0x15, 0xad]

  /** FIPS 180-4's own example: the digest of "abc" begins ba7816bf. */
  lemma AbcDigest(message: seq<u8>)
    requires |message| == 3 && message[0] == 0x61 && message[1] == 0x62 && message[2] == 0x63
    ensures Hash(message) == ABC_DIGEST
  {
    assert message == ABC;
    AbcPadded();
    AbcWords();
    AbcRounds64(ABC_BLOCK);
    hide Rounds, Padded, OfAbc;
    assert Compress(H_INIT, ABC_BLOCK) == ABC_STATE;
    hide Compress;
    assert ABC_BLOCK[..64] == ABC_BLOCK && ABC_BLOCK[64..] == [];
    assert Fold(H_INIT, ABC_BLOCK) == ABC_STATE;
    StateDigest();
    hide *;
    HashIs(message);
  }

  lemma DigestSnoc(s: seq<word>, w: word)
    ensures Digest(s + [w]) == Digest(s) + WordBytes(w)
  {
    hide WordBytes;
    assert (s + [w])[..|s|] == s;
  }

  lemma NoDigest()
    ensures Digest([]) == []
  {
  }

  lemma DigestOfFour(s: seq<word>, a: word, b: word, c: word, d: word)
    ensures Digest(s + [a, b, c, d]) == Digest(s) + (WordBytes(a) + WordBytes(b) + WordBytes(c) + WordBytes(d))
  {
    hide WordBytes, Digest;
    assert s + [a, b, c, d] == (((s + [a]) + [b]) + [c]) + [d];
    DigestSnoc(((s + [a]) + [b]) + [c], d);
    DigestSnoc((s + [a]) + [b], c);
    DigestSnoc(s + [a], b);
    DigestSnoc(s, a);
  }

  lemma AbcWordBytes()
    ensures WordBytes(0xba7816bf) == [0xba, 0x78, 0x16, 0xbf]
    ensures WordBytes(0x8f01cfea) == [0x8f, 0x01, 0xcf, 0xea]
    ensures WordBytes(0x414140de) == [0x41, 0x41, 0x40, 0xde]
    ensures WordBytes(0x5dae2223) == [0x5d, 0xae, 0x22, 0x23]
    ensures WordBytes(0xb00361a3) == [0xb0, 0x03, 0x61, 0xa3]
    ensures WordBytes(0x96177a9c) == [0x96, 0x17, 0x7a, 0x9c]
    ensures WordBytes(0xb410ff61) == [0xb4, 0x10, 0xff, 0x61]
    ensures WordBytes(0xf20015ad) == [0xf2, 0x00, 0x15, 0xad]
  {
  }

  lemma StateDigest()
    ensures Digest(ABC_STATE) == ABC_DIGEST
  {
    AbcWordBytes();
    hide WordBytes, Digest;
    var none: seq<word> := [];
    var first: seq<word> := [0xba7816bf, 0x8f01cfea, 0x414140de, 0x5dae2223];
    NoDigest();
    DigestOfFour(none, 0xba7816bf, 0x8f01cfea, 0x414140de, 0x5dae2223);
    DigestOfFour(first, 0xb00361a3, 0x96177a9c, 0xb410ff61, 0xf20015ad);
    assert none + first == first;
    assert ABC_STATE == first + [0xb00361a3, 0x96177a9c, 0xb410ff61, 0xf20015ad];
  }
}
