/**
 The check values of CRC-16/CCITT-FALSE and CRC-32/MPEG-2, which are those of the nine digits from
 1 to 9.  They fix the polynomials and the initial values that are configured unless overridden,
 and the order of the bits.
 */
module CheckValues {
  import opened Gf2
  import opened Checksum

  /** The digits in ASCII. */
  const DIGITS: seq<bv8> := [0x31, 0x32, 0x33, 0x34, 0x35, 0x36, 0x37, 0x38, 0x39]

  lemma EmptyIs(g: Poly, r: Poly)
    requires |r| == |g| > 0
    ensures r == Run(g, r, MessageBits([]))
  {
    EmptyMessage(g, r);
  }

  // ---------------------------------------------------------------- CRC-16

  /** One division step of the register. */
  predicate IsStep16(x: bv16, y: bv16) {
    y == if x & 0x8000 != 0 then (x << 1) ^ CRC16_POLYNOM else x << 1
  }

  lemma StepIs16(g: Poly, r: Poly, x: bv16, y: bv16, n: nat)
    requires g == Bits16(CRC16_POLYNOM) && |r| == |g| && Idle(g, r, n) == Bits16(x) && IsStep16(x, y)
    ensures Idle(g, r, n + 1) == Bits16(y)
  {
    hide Bits16, Step, Idle;
    IdleOneMore(g, r, n);
    if x & 0x8000 != 0 {
      StepWithOne16(x, CRC16_POLYNOM);
    } else {
      StepWithZero16(x, CRC16_POLYNOM);
    }
  }

  /** One byte more: it is added above, and then come eight steps. */
  lemma ByteIs16(data: seq<bv8>, b: bv8, crc: bv16, x0: bv16, x1: bv16, x2: bv16, x3: bv16, x4: bv16,
                x5: bv16, x6: bv16, x7: bv16, x8: bv16)
    requires IsCrc16(CRC16_POLYNOM, CRC16_INITIAL, data, crc) && x0 == crc ^ ((b as bv16) << 8)
    requires IsStep16(x0, x1) && IsStep16(x1, x2) && IsStep16(x2, x3) && IsStep16(x3, x4)
    requires IsStep16(x4, x5) && IsStep16(x5, x6) && IsStep16(x6, x7) && IsStep16(x7, x8)
    ensures IsCrc16(CRC16_POLYNOM, CRC16_INITIAL, data + [b], x8)
  {
    hide Bits16, MessageBits, ByteBits, Run, Idle, IsStep16;
    var g, start, r := Bits16(CRC16_POLYNOM), Bits16(CRC16_INITIAL), Bits16(x0);
    ByteAdded16(crc, b, g);
    MessageBitsConcat(data, [b]);
    BitsOfOne(b);
    RunConcat(g, start, MessageBits(data), ByteBits(b));
    IdleStart(g, r);
    StepIs16(g, r, x0, x1, 0);
    StepIs16(g, r, x1, x2, 1);
    StepIs16(g, r, x2, x3, 2);
    StepIs16(g, r, x3, x4, 3);
    StepIs16(g, r, x4, x5, 4);
    StepIs16(g, r, x5, x6, 5);
    StepIs16(g, r, x6, x7, 6);
    StepIs16(g, r, x7, x8, 7);
  }

  lemma Digit1Of16()
    ensures IsCrc16(CRC16_POLYNOM, CRC16_INITIAL, DIGITS[..1], 0xC782)
  {
    EmptyIs(Bits16(CRC16_POLYNOM), Bits16(CRC16_INITIAL));
    hide IsCrc16;
    ByteIs16([], 0x31, 0xFFFF,
            0xCEFF, 0x8DDF, 0x0B9F, 0x173E, 0x2E7C,
            0x5CF8, 0xB9F0, 0x63C1, 0xC782);
    assert DIGITS[..1] == [] + [0x31];
  }

  lemma Digit2Of16()
    ensures IsCrc16(CRC16_POLYNOM, CRC16_INITIAL, DIGITS[..2], 0x3DBA)
  {
    Digit1Of16();
    hide IsCrc16;
    ByteIs16(DIGITS[..1], 0x32, 0xC782,
            0xF582, 0xFB25, 0xE66B, 0xDCF7, 0xA9CF,
            0x43BF, 0x877E, 0x1EDD, 0x3DBA);
    assert DIGITS[..2] == DIGITS[..1] + [0x32];
  }

  lemma Digit3Of16()
    ensures IsCrc16(CRC16_POLYNOM, CRC16_INITIAL, DIGITS[..3], 0x5BCE)
  {
    Digit2Of16();
    hide IsCrc16;
    ByteIs16(DIGITS[..2], 0x33, 0x3DBA,
            0x0EBA, 0x1D74, 0x3AE8, 0x75D0, 0xEBA0,
            0xC761, 0x9EE3, 0x2DE7, 0x5BCE);
    assert DIGITS[..3] == DIGITS[..2] + [0x33];
  }

  lemma Digit4Of16()
    ensures IsCrc16(CRC16_POLYNOM, CRC16_INITIAL, DIGITS[..4], 0x5349)
  {
    Digit3Of16();
    hide IsCrc16;
    ByteIs16(DIGITS[..3], 0x34, 0x5BCE,
            0x6FCE, 0xDF9C, 0xAF19, 0x4E13, 0x9C26,
            0x286D, 0x50DA, 0xA1B4, 0x5349);
    assert DIGITS[..4] == DIGITS[..3] + [0x34];
  }

  lemma Digit5Of16()
    ensures IsCrc16(CRC16_POLYNOM, CRC16_INITIAL, DIGITS[..5], 0x4560)
  {
    Digit4Of16();
    hide IsCrc16;
    ByteIs16(DIGITS[..4], 0x35, 0x5349,
            0x6649, 0xCC92, 0x8905, 0x022B, 0x0456,
            0x08AC, 0x1158, 0x22B0, 0x4560);
    assert DIGITS[..5] == DIGITS[..4] + [0x35];
  }

  lemma Digit6Of16()
    ensures IsCrc16(CRC16_POLYNOM, CRC16_INITIAL, DIGITS[..6], 0x2EF4)
  {
    Digit5Of16();
    hide IsCrc16;
    ByteIs16(DIGITS[..5], 0x36, 0x4560,
            0x7360, 0xE6C0, 0xDDA1, 0xAB63, 0x46E7,
            0x8DCE, 0x0BBD, 0x177A, 0x2EF4);
    assert DIGITS[..6] == DIGITS[..5] + [0x36];
  }

  lemma Digit7Of16()
    ensures IsCrc16(CRC16_POLYNOM, CRC16_INITIAL, DIGITS[..7], 0x7718)
  {
    Digit6Of16();
    hide IsCrc16;
    ByteIs16(DIGITS[..6], 0x37, 0x2EF4,
            0x19F4, 0x33E8, 0x67D0, 0xCFA0, 0x8F61,
            0x0EE3, 0x1DC6, 0x3B8C, 0x7718);
    assert DIGITS[..7] == DIGITS[..6] + [0x37];
  }

  lemma Digit8Of16()
    ensures IsCrc16(CRC16_POLYNOM, CRC16_INITIAL, DIGITS[..8], 0xA12B)
  {
    Digit7Of16();
    hide IsCrc16;
    ByteIs16(DIGITS[..7], 0x38, 0x7718,
            0x4F18, 0x9E30, 0x2C41, 0x5882, 0xB104,
            0x7229, 0xE452, 0xD885, 0xA12B);
    assert DIGITS[..8] == DIGITS[..7] + [0x38];
  }

  lemma Digit9Of16()
    ensures IsCrc16(CRC16_POLYNOM, CRC16_INITIAL, DIGITS[..9], 0x29B1)
  {
    Digit8Of16();
    hide IsCrc16;
    ByteIs16(DIGITS[..8], 0x39, 0xA12B,
            0x982B, 0x2077, 0x40EE, 0x81DC, 0x1399,
            0x2732, 0x4E64, 0x9CC8, 0x29B1);
    assert DIGITS[..9] == DIGITS[..8] + [0x39];
  }

  /** Of all words exactly this one is the value of the nine digits. */
  lemma CheckValue16(crc: bv16)
    ensures IsCrc16(CRC16_POLYNOM, CRC16_INITIAL, DIGITS, crc) <==> crc == 0x29B1
  {
    Digit9Of16();
    assert DIGITS[..9] == DIGITS;
    hide IsCrc16;
    Crc16Unique(CRC16_POLYNOM, CRC16_INITIAL, DIGITS, 0x29B1, crc);
  }

  // ---------------------------------------------------------------- CRC-32

  /** One division step of the register. */
  predicate IsStep32(x: bv32, y: bv32) {
    y == if x & 0x8000_0000 != 0 then (x << 1) ^ CRC32_POLYNOM else x << 1
  }

  lemma StepIs32(g: Poly, r: Poly, x: bv32, y: bv32, n: nat)
    requires g == Bits32(CRC32_POLYNOM) && |r| == |g| && Idle(g, r, n) == Bits32(x) && IsStep32(x, y)
    ensures Idle(g, r, n + 1) == Bits32(y)
  {
    hide Bits32, Step, Idle;
    IdleOneMore(g, r, n);
    if x & 0x8000_0000 != 0 {
      StepWithOne32(x, CRC32_POLYNOM);
    } else {
      StepWithZero32(x, CRC32_POLYNOM);
    }
  }

  /** One byte more: it is added above, and then come eight steps. */
  lemma ByteIs32(data: seq<bv8>, b: bv8, crc: bv32, x0: bv32, x1: bv32, x2: bv32, x3: bv32, x4: bv32,
                x5: bv32, x6: bv32, x7: bv32, x8: bv32)
    requires IsCrc32(CRC32_POLYNOM, CRC32_INITIAL, data, crc) && x0 == crc ^ ((b as bv32) << 24)
    requires IsStep32(x0, x1) && IsStep32(x1, x2) && IsStep32(x2, x3) && IsStep32(x3, x4)
    requires IsStep32(x4, x5) && IsStep32(x5, x6) && IsStep32(x6, x7) && IsStep32(x7, x8)
    ensures IsCrc32(CRC32_POLYNOM, CRC32_INITIAL, data + [b], x8)
  {
    hide Bits32, MessageBits, ByteBits, Run, Idle, IsStep32;
    var g, start, r := Bits32(CRC32_POLYNOM), Bits32(CRC32_INITIAL), Bits32(x0);
    ByteAdded32(crc, b, g);
    MessageBitsConcat(data, [b]);
    BitsOfOne(b);
    RunConcat(g, start, MessageBits(data), ByteBits(b));
    IdleStart(g, r);
    StepIs32(g, r, x0, x1, 0);
    StepIs32(g, r, x1, x2, 1);
    StepIs32(g, r, x2, x3, 2);
    StepIs32(g, r, x3, x4, 3);
    StepIs32(g, r, x4, x5, 4);
    StepIs32(g, r, x5, x6, 5);
    StepIs32(g, r, x6, x7, 6);
    StepIs32(g, r, x7, x8, 7);
  }

  lemma Digit1Of32()
    ensures IsCrc32(CRC32_POLYNOM, CRC32_INITIAL, DIGITS[..1], 0x9EFB_CF93)
  {
    EmptyIs(Bits32(CRC32_POLYNOM), Bits32(CRC32_INITIAL));
    hide IsCrc32;
    ByteIs32([], 0x31, 0xFFFF_FFFF,
            0xCEFF_FFFF, 0x993E_E249, 0x36BC_D925, 0x6D79_B24A, 0xDAF3_6494,
            0xB127_D49F, 0x668E_B489, 0xCD1D_6912, 0x9EFB_CF93);
    assert DIGITS[..1] == [] + [0x31];
  }

  lemma Digit2Of32()
    ensures IsCrc32(CRC32_POLYNOM, CRC32_INITIAL, DIGITS[..2], 0x3FEC_5E6A)
  {
    Digit1Of32();
    hide IsCrc32;
    ByteIs32(DIGITS[..1], 0x32, 0x9EFB_CF93,
            0xACFB_CF93, 0x5D36_8291, 0xBA6D_0522, 0x701B_17F3, 0xE036_2FE6,
            0xC4AD_427B, 0x8D9B_9941, 0x1FF6_2F35, 0x3FEC_5E6A);
    assert DIGITS[..2] == DIGITS[..1] + [0x32];
  }

  lemma Digit3Of32()
    ensures IsCrc32(CRC32_POLYNOM, CRC32_INITIAL, DIGITS[..3], 0xD952_F164)
  {
    Digit2Of32();
    hide IsCrc32;
    ByteIs32(DIGITS[..2], 0x33, 0x3FEC_5E6A,
            0x0CEC_5E6A, 0x19D8_BCD4, 0x33B1_79A8, 0x6762_F350, 0xCEC5_E6A0,
            0x994A_D0F7, 0x3654_BC59, 0x6CA9_78B2, 0xD952_F164);
    assert DIGITS[..3] == DIGITS[..2] + [0x33];
  }

  lemma Digit4Of32()
    ensures IsCrc32(CRC32_POLYNOM, CRC32_INITIAL, DIGITS[..4], 0xA695_C4AA)
  {
    Digit3Of32();
    hide IsCrc32;
    ByteIs32(DIGITS[..3], 0x34, 0xD952_F164,
            0xED52_F164, 0xDE64_FF7F, 0xB808_E349, 0x74D0_DB25, 0xE9A1_B64A,
            0xD782_7123, 0xABC5_FFF1, 0x534A_E255, 0xA695_C4AA);
    assert DIGITS[..4] == DIGITS[..3] + [0x34];
  }

  lemma Digit5Of32()
    ensures IsCrc32(CRC32_POLYNOM, CRC32_INITIAL, DIGITS[..5], 0xBD9A_B747)
  {
    Digit4Of32();
    hide IsCrc32;
    ByteIs32(DIGITS[..4], 0x35, 0xA695_C4AA,
            0x9395_C4AA, 0x23EA_94E3, 0x47D5_29C6, 0x8FAA_538C, 0x1B95_BAAF,
            0x372B_755E, 0x6E56_EABC, 0xDCAD_D578, 0xBD9A_B747);
    assert DIGITS[..5] == DIGITS[..4] + [0x35];
  }

  lemma Digit6Of32()
    ensures IsCrc32(CRC32_POLYNOM, CRC32_INITIAL, DIGITS[..6], 0xD8F0_6C8F)
  {
    Digit5Of32();
    hide IsCrc32;
    ByteIs32(DIGITS[..5], 0x36, 0xBD9A_B747,
            0x8B9A_B747, 0x13F4_7339, 0x27E8_E672, 0x4FD1_CCE4, 0x9FA3_99C8,
            0x3B86_2E27, 0x770C_5C4E, 0xEE18_B89C, 0xD8F0_6C8F);
    assert DIGITS[..6] == DIGITS[..5] + [0x36];
  }

  lemma Digit7Of32()
    ensures IsCrc32(CRC32_POLYNOM, CRC32_INITIAL, DIGITS[..7], 0x0D8A_14C4)
  {
    Digit6Of32();
    hide IsCrc32;
    ByteIs32(DIGITS[..6], 0x37, 0xD8F0_6C8F,
            0xEFF0_6C8F, 0xDB21_C4A9, 0xB282_94E5, 0x61C4_347D, 0xC388_68FA,
            0x83D1_CC43, 0x0362_8531, 0x06C5_0A62, 0x0D8A_14C4);
    assert DIGITS[..7] == DIGITS[..6] + [0x37];
  }

  lemma Digit8Of32()
    ensures IsCrc32(CRC32_POLYNOM, CRC32_INITIAL, DIGITS[..8], 0x49E3_C2FB)
  {
    Digit7Of32();
    hide IsCrc32;
    ByteIs32(DIGITS[..7], 0x38, 0x0D8A_14C4,
            0x358A_14C4, 0x6B14_2988, 0xD628_5310, 0xA891_BB97, 0x55E2_6A99,
            0xABC4_D532, 0x5348_B7D3, 0xA691_6FA6, 0x49E3_C2FB);
    assert DIGITS[..8] == DIGITS[..7] + [0x38];
  }

  lemma Digit9Of32()
    ensures IsCrc32(CRC32_POLYNOM, CRC32_INITIAL, DIGITS[..9], 0x0376_E6E7)
  {
    Digit8Of32();
    hide IsCrc32;
    ByteIs32(DIGITS[..8], 0x39, 0x49E3_C2FB,
            0x70E3_C2FB, 0xE1C7_85F6, 0xC74E_165B, 0x8A5D_3101, 0x107B_7FB5,
            0x20F6_FF6A, 0x41ED_FED4, 0x83DB_FDA8, 0x0376_E6E7);
    assert DIGITS[..9] == DIGITS[..8] + [0x39];
  }

  /** Of all words exactly this one is the value of the nine digits. */
  lemma CheckValue32(crc: bv32)
    ensures IsCrc32(CRC32_POLYNOM, CRC32_INITIAL, DIGITS, crc) <==> crc == 0x0376_E6E7
  {
    Digit9Of32();
    assert DIGITS[..9] == DIGITS;
    hide IsCrc32;
    Crc32Unique(CRC32_POLYNOM, CRC32_INITIAL, DIGITS, 0x0376_E6E7, crc);
  }
}
