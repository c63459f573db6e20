/**
 * FNV-1a hash steps: each byte is xor-ed into the hash, which is then
 * multiplied by the FNV prime modulo 2^32 or 2^64. Multi-byte values are
 * hashed in memory order on a little-endian target.
 */
module Fnv {

  const FNV_32_PRIME: bv32 := 0x0100_0193
  const FNV_64_PRIME: bv64 := 0x0000_0100_0000_01b3
  /** The FNV-1a offset bases. */
  const FNV1_32A_INIT: bv32 := 0x811c_9dc5
  const FNV1A_64_INIT: bv64 := 0xcbf2_9ce4_8422_2325

  // --- memory representation of integers (little-endian)

  /** The four bytes of a 32-bit value in memory order, least significant first. */
  function BytesLE32(x: bv32): (bs: seq<bv8>)
    ensures |bs| == 4
  {
    [(x & 0xff) as bv8, ((x >> 8) & 0xff) as bv8, ((x >> 16) & 0xff) as bv8, ((x >> 24) & 0xff) as bv8]
  }

  /** The eight bytes of a 64-bit value in memory order: the low word's bytes, then the high word's. */
  function BytesLE64(x: bv64): (bs: seq<bv8>)
    ensures |bs| == 8
    ensures bs == BytesLE32((x & 0xffff_ffff) as bv32) + BytesLE32((x >> 32) as bv32)
  {
    [(x & 0xff) as bv8, ((x >> 8) & 0xff) as bv8, ((x >> 16) & 0xff) as bv8, ((x >> 24) & 0xff) as bv8,
     ((x >> 32) & 0xff) as bv8, ((x >> 40) & 0xff) as bv8, ((x >> 48) & 0xff) as bv8, ((x >> 56) & 0xff) as bv8]
  }

  /** A C `int` (32-bit two's complement) as the bit pattern it is stored as. */
  function IntBits(i: int): bv32
    requires -0x8000_0000 <= i < 0x8000_0000
  {
    if i >= 0 then i as bv32 else -((-i) as bv32)
  }

  // --- byte-wise folding, for any step function

  /**
   * Applies a per-byte step to each byte of bs in order, starting from h:
   * the bytes before the last, then one step for the last byte.
   */
  function FoldSteps<H>(step: (bv8, H) -> H, bs: seq<bv8>, h: H): H
    decreases |bs|
  {
    if bs == [] then h else step(bs[|bs| - 1], FoldSteps(step, bs[..|bs| - 1], h))
  }

  /** Folding over a concatenation is folding the second part from the result of the first. */
  lemma {:induction false} FoldStepsAppend<H>(step: (bv8, H) -> H, a: seq<bv8>, b: seq<bv8>, h: H)
    ensures FoldSteps(step, a + b, h) == FoldSteps(step, b, FoldSteps(step, a, h))
    decreases |b|
  {
    if b == [] {
      assert a + b == a;
    } else {
      var c := b[..|b| - 1];
      assert a + b == (a + c) + [b[|b| - 1]];
      assert (a + c + [b[|b| - 1]])[..|a + c|] == a + c;
      FoldStepsAppend(step, a, c, h);
    }
  }

  /** The fold over four bytes is four steps over b[0], b[1], b[2], b[3] in that order. */
  lemma FoldStepsFour<H>(step: (bv8, H) -> H, b: seq<bv8>, h: H)
    requires |b| == 4
    ensures FoldSteps(step, b, h) == step(b[3], step(b[2], step(b[1], step(b[0], h))))
  {
    assert b[..1][..0] == [] && b[..2][..1] == b[..1] && b[..3][..2] == b[..2] && b[..4] == b;
    assert FoldSteps(step, b[..1], h) == step(b[0], FoldSteps(step, b[..0], h));
    assert FoldSteps(step, b[..2], h) == step(b[1], FoldSteps(step, b[..1], h));
    assert FoldSteps(step, b[..3], h) == step(b[2], FoldSteps(step, b[..2], h));
    assert FoldSteps(step, b[..4], h) == step(b[3], FoldSteps(step, b[..3], h));
  }

  /** The fold over eight bytes is eight steps over b[0] .. b[7] in that order. */
  lemma FoldStepsEight<H>(step: (bv8, H) -> H, b: seq<bv8>, h: H)
    requires |b| == 8
    ensures FoldSteps(step, b, h) == step(b[7], step(b[6], step(b[5], step(b[4], step(b[3], step(b[2], step(b[1], step(b[0], h))))))))
  {
    assert b[..1][..0] == [] && b[..2][..1] == b[..1] && b[..3][..2] == b[..2] && b[..4][..3] == b[..3];
    assert b[..5][..4] == b[..4] && b[..6][..5] == b[..5] && b[..7][..6] == b[..6] && b[..8] == b;
    assert FoldSteps(step, b[..1], h) == step(b[0], FoldSteps(step, b[..0], h));
    assert FoldSteps(step, b[..2], h) == step(b[1], FoldSteps(step, b[..1], h));
    assert FoldSteps(step, b[..3], h) == step(b[2], FoldSteps(step, b[..2], h));
    assert FoldSteps(step, b[..4], h) == step(b[3], FoldSteps(step, b[..3], h));
    assert FoldSteps(step, b[..5], h) == step(b[4], FoldSteps(step, b[..4], h));
    assert FoldSteps(step, b[..6], h) == step(b[5], FoldSteps(step, b[..5], h));
    assert FoldSteps(step, b[..7], h) == step(b[6], FoldSteps(step, b[..6], h));
    assert FoldSteps(step, b[..8], h) == step(b[7], FoldSteps(step, b[..7], h));
  }

  // --- 32-bit

  /** `fnv_32a_byte1(byte, h)`: one FNV-1a step, wrapping at 2^32. */
  function Fnv32aByte1(b: bv8, h: bv32): bv32
  {
    ((b as bv32) ^ h) * FNV_32_PRIME
  }

  /** FNV-1a (32-bit) over a byte sequence from hash h: the reference the fixed-width functions are proved against. */
  function Fnv32aFold(bs: seq<bv8>, h: bv32): bv32
  {
    FoldSteps(Fnv32aByte1, bs, h)
  }

  /** Hashing a concatenation is hashing the second part from the hash of the first. */
  lemma Fnv32aFoldAppend(a: seq<bv8>, b: seq<bv8>, h: bv32)
    ensures Fnv32aFold(a + b, h) == Fnv32aFold(b, Fnv32aFold(a, h))
  {
    FoldStepsAppend(Fnv32aByte1, a, b, h);
  }

  /** `fnv_32a_byte4(b, h)`: four steps over b[0], b[1], b[2], b[3] in that order. */
  function Fnv32aByte4(b: seq<bv8>, h: bv32): (r: bv32)
    requires |b| == 4
    ensures r == Fnv32aFold(b, h)
  {
    var h0 := Fnv32aByte1(b[0], h);
    var h1 := Fnv32aByte1(b[1], h0);
    var h2 := Fnv32aByte1(b[2], h1);
    FoldStepsFour(Fnv32aByte1, b, h);
    Fnv32aByte1(b[3], h2)
  }

  /** `fnv_32a_byte8(b, h)`: eight steps over b[0] .. b[7] in that order. */
  function Fnv32aByte8(b: seq<bv8>, h: bv32): (r: bv32)
    requires |b| == 8
    ensures r == Fnv32aFold(b, h)
  {
    var h0 := Fnv32aByte1(b[0], h);
    var h1 := Fnv32aByte1(b[1], h0);
    var h2 := Fnv32aByte1(b[2], h1);
    var h3 := Fnv32aByte1(b[3], h2);
    var h4 := Fnv32aByte1(b[4], h3);
    var h5 := Fnv32aByte1(b[5], h4);
    var h6 := Fnv32aByte1(b[6], h5);
    FoldStepsEight(Fnv32aByte1, b, h);
    Fnv32aByte1(b[7], h6)
  }

  /** `fnv_32a_int(i, h)`: the int's four bytes in memory order. */
  function Fnv32aInt(i: int, h: bv32): (r: bv32)
    requires -0x8000_0000 <= i < 0x8000_0000
    ensures r == Fnv32aFold(BytesLE32(IntBits(i)), h)
  {
    Fnv32aByte4(BytesLE32(IntBits(i)), h)
  }

  /** `fnv_32a_uint32_t(i, h)`: the value's four bytes in memory order. */
  function Fnv32aUint32(i: bv32, h: bv32): (r: bv32)
    ensures r == Fnv32aFold(BytesLE32(i), h)
  {
    Fnv32aByte4(BytesLE32(i), h)
  }

  /** `fnv_32a_uint64_t(i, h)`: the value's eight bytes in memory order. */
  function Fnv32aUint64(i: bv64, h: bv32): (r: bv32)
    ensures r == Fnv32aFold(BytesLE64(i), h)
  {
    Fnv32aByte8(BytesLE64(i), h)
  }

  /** Hashing a 64-bit value is hashing its low 32-bit half, then its high half. */
  lemma Fnv32aUint64Halves(i: bv64, h: bv32)
    ensures Fnv32aUint64(i, h) == Fnv32aUint32((i >> 32) as bv32, Fnv32aUint32((i & 0xffff_ffff) as bv32, h))
  {
    Fnv32aFoldAppend(BytesLE32((i & 0xffff_ffff) as bv32), BytesLE32((i >> 32) as bv32), h);
  }

  // --- 64-bit

  /** `fnv_64a_byte1(byte, h)`: one FNV-1a step, wrapping at 2^64. */
  function Fnv64aByte1(b: bv8, h: bv64): bv64
  {
    ((b as bv64) ^ h) * FNV_64_PRIME
  }

  /** FNV-1a (64-bit) over a byte sequence from hash h: the reference the fixed-width functions are proved against. */
  function Fnv64aFold(bs: seq<bv8>, h: bv64): bv64
  {
    FoldSteps(Fnv64aByte1, bs, h)
  }

  /** Hashing a concatenation is hashing the second part from the hash of the first. */
  lemma Fnv64aFoldAppend(a: seq<bv8>, b: seq<bv8>, h: bv64)
    ensures Fnv64aFold(a + b, h) == Fnv64aFold(b, Fnv64aFold(a, h))
  {
    FoldStepsAppend(Fnv64aByte1, a, b, h);
  }

  /** `fnv_64a_byte4(b, h)`: four steps over b[0], b[1], b[2], b[3] in that order. */
  function Fnv64aByte4(b: seq<bv8>, h: bv64): (r: bv64)
    requires |b| == 4
    ensures r == Fnv64aFold(b, h)
  {
    var h0 := Fnv64aByte1(b[0], h);
    var h1 := Fnv64aByte1(b[1], h0);
    var h2 := Fnv64aByte1(b[2], h1);
    FoldStepsFour(Fnv64aByte1, b, h);
    Fnv64aByte1(b[3], h2)
  }

  /** `fnv_64a_byte8(b, h)`: eight steps over b[0] .. b[7] in that order. */
  function Fnv64aByte8(b: seq<bv8>, h: bv64): (r: bv64)
    requires |b| == 8
    ensures r == Fnv64aFold(b, h)
  {
    var h0 := Fnv64aByte1(b[0], h);
    var h1 := Fnv64aByte1(b[1], h0);
    var h2 := Fnv64aByte1(b[2], h1);
    var h3 := Fnv64aByte1(b[3], h2);
    var h4 := Fnv64aByte1(b[4], h3);
    var h5 := Fnv64aByte1(b[5], h4);
    var h6 := Fnv64aByte1(b[6], h5);
    FoldStepsEight(Fnv64aByte1, b, h);
    Fnv64aByte1(b[7], h6)
  }

  /** `fnv_64a_int(i, h)`: the int's four bytes in memory order. */
  function Fnv64aInt(i: int, h: bv64): (r: bv64)
    requires -0x8000_0000 <= i < 0x8000_0000
    ensures r == Fnv64aFold(BytesLE32(IntBits(i)), h)
  {
    Fnv64aByte4(BytesLE32(IntBits(i)), h)
  }

  /** `fnv_64a_uint32_t(i, h)`: the value's four bytes in memory order. */
  function Fnv64aUint32(i: bv32, h: bv64): (r: bv64)
    ensures r == Fnv64aFold(BytesLE32(i), h)
  {
    Fnv64aByte4(BytesLE32(i), h)
  }

  /** `fnv_64a_uint64_t(i, h)`: the value's eight bytes in memory order. */
  function Fnv64aUint64(i: bv64, h: bv64): (r: bv64)
    ensures r == Fnv64aFold(BytesLE64(i), h)
  {
    Fnv64aByte8(BytesLE64(i), h)
  }

  /** Hashing a 64-bit value is hashing its low 32-bit half, then its high half. */
  lemma Fnv64aUint64Halves(i: bv64, h: bv64)
    ensures Fnv64aUint64(i, h) == Fnv64aUint32((i >> 32) as bv32, Fnv64aUint32((i & 0xffff_ffff) as bv32, h))
  {
    Fnv64aFoldAppend(BytesLE32((i & 0xffff_ffff) as bv32), BytesLE32((i >> 32) as bv32), h);
  }

  // --- known answers

  /** One byte from the offset basis. */
  lemma KnownAnswersByte1()
    ensures Fnv32aByte1(42, FNV1_32A_INIT) == 0x2f0c_9f3d
    ensures Fnv64aByte1(42, FNV1A_64_INIT) == 0xaf63_a74c_8601_927d
  {
  }

  /** 12345678 = 0x00BC614E is hashed as the bytes 4E 61 BC 00. */
  lemma KnownAnswersUint32()
    ensures BytesLE32(12345678) == [0x4e, 0x61, 0xbc, 0x00]
    ensures Fnv32aUint32(12345678, FNV1_32A_INIT) == 0x2f55_268c
    ensures Fnv32aUint32(0x1122_3344, FNV1_32A_INIT) == 0xce42_11d5
    ensures Fnv32aUint32(0xFFFF_FFFF, FNV1_32A_INIT) == 0xe316_0fb1
    ensures Fnv32aUint32(0, FNV1_32A_INIT) == 0x4b95_f515
  {
  }

  /** 12345678 and 0x11223344 hashed with the 64-bit FNV-1a. */
  lemma KnownAnswersUint32Wide()
    ensures Fnv64aUint32(12345678, FNV1A_64_INIT) == 0xefe9_cdc6_905a_3c8c
    ensures Fnv64aUint32(0x1122_3344, FNV1A_64_INIT) == 0x3c1b_2474_11d7_b2b5
  {
    assert BytesLE32(12345678) == [0x4e, 0x61, 0xbc, 0x00];
    assert Fnv64aByte1(0x4e, FNV1A_64_INIT) == 0xaf64_034c_8602_2ed1;
    assert Fnv64aByte1(0x61, 0xaf64_034c_8602_2ed1) == 0x0920_4b07_b5b5_5510;
    assert Fnv64aByte1(0xbc, 0x0920_4b07_b5b5_5510) == 0x3735_2a19_c320_9344;
    assert Fnv64aByte1(0x00, 0x3735_2a19_c320_9344) == 0xefe9_cdc6_905a_3c8c;
    assert BytesLE32(0x1122_3344) == [0x44, 0x33, 0x22, 0x11];
    assert Fnv64aByte1(0x44, FNV1A_64_INIT) == 0xaf63_f94c_8602_1dd3;
    assert Fnv64aByte1(0x33, 0xaf63_f94c_8602_1dd3) == 0x08fe_7d07_b598_c3a0;
    assert Fnv64aByte1(0x22, 0x08fe_7d07_b598_c3a0) == 0xe131_f619_9294_35e6;
    assert Fnv64aByte1(0x11, 0xe131_f619_9294_35e6) == 0x3c1b_2474_11d7_b2b5;
  }

  /** All-ones and zero hashed with the 64-bit FNV-1a. */
  lemma KnownAnswersUint32WideEdges()
    ensures Fnv64aUint32(0xFFFF_FFFF, FNV1A_64_INIT) == 0x994f_7665_3e2a_3951
    ensures Fnv64aUint32(0, FNV1A_64_INIT) == 0x4d25_767f_9dce_13f5
  {
    assert BytesLE32(0xFFFF_FFFF) == [0xff, 0xff, 0xff, 0xff];
    assert Fnv64aByte1(0xff, FNV1A_64_INIT) == 0xaf64_724c_8602_eb6e;
    assert Fnv64aByte1(0xff, 0xaf64_724c_8602_eb6e) == 0x0a99_c907_b6f6_4763;
    assert Fnv64aByte1(0xff, 0x0a99_c907_b6f6_4763) == 0xf998_341b_e47b_ae14;
    assert Fnv64aByte1(0xff, 0xf998_341b_e47b_ae14) == 0x994f_7665_3e2a_3951;
    assert BytesLE32(0) == [0x00, 0x00, 0x00, 0x00];
    assert Fnv64aByte1(0x00, FNV1A_64_INIT) == 0xaf63_bd4c_8601_b7df;
    assert Fnv64aByte1(0x00, 0xaf63_bd4c_8601_b7df) == 0x0832_8807_b4eb_6fed;
    assert Fnv64aByte1(0x00, 0x0832_8807_b4eb_6fed) == 0xd94d_1218_6c0f_2fb7;
    assert Fnv64aByte1(0x00, 0xd94d_1218_6c0f_2fb7) == 0x4d25_767f_9dce_13f5;
  }

  /** 0x1122334455667788 is hashed as the bytes 88 77 66 55 44 33 22 11. */
  lemma KnownAnswersUint64()
    ensures BytesLE64(0x1122_3344_5566_7788) == [0x88, 0x77, 0x66, 0x55, 0x44, 0x33, 0x22, 0x11]
    ensures Fnv32aUint64(0x1122_3344_5566_7788, FNV1_32A_INIT) == 0xf24b_8e95
    ensures Fnv64aUint64(0x1122_3344_5566_7788, FNV1A_64_INIT) == 0x82f9_5055_5efe_bd75
  {
  }

  /** -127 is stored as 0xFFFFFF81 and hashed as the bytes 81 FF FF FF. */
  lemma KnownAnswersInt()
    ensures IntBits(-127) == 0xFFFF_FF81
    ensures Fnv32aInt(-127, FNV1_32A_INIT) == 0x5046_0f07
    ensures Fnv64aInt(-127, FNV1A_64_INIT) == 0xaabb_74a0_b07d_0de7
  {
    KnownAnswersIntBits();
    assert Fnv32aInt(-127, FNV1_32A_INIT) == Fnv32aUint32(IntBits(-127), FNV1_32A_INIT);
    assert Fnv64aInt(-127, FNV1A_64_INIT) == Fnv64aUint32(IntBits(-127), FNV1A_64_INIT);
  }

  /** The 32- and 64-bit hashes of the bit pattern of -127. */
  lemma KnownAnswersIntBits()
    ensures Fnv32aUint32(0xFFFF_FF81, FNV1_32A_INIT) == 0x5046_0f07
    ensures Fnv64aUint32(0xFFFF_FF81, FNV1A_64_INIT) == 0xaabb_74a0_b07d_0de7
  {
    assert BytesLE32(0xFFFF_FF81) == [0x81, 0xff, 0xff, 0xff];
  }
}
