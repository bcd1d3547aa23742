/**
 The cyclic redundancy checks (source/tbx_checksum.c).  The loops work on registers of machine
 bits; their contracts say which polynomial remainder the result is.
 */
module Checksum {
  import opened Gf2

  // ---------------------------------------------------------------- bits of words

  predicate TopBit(x: bv32) {
    x & 0x8000_0000 != 0
  }

  function Shifted(x: bv32, n: nat): bv32
    decreases n
  {
    if n == 0 then x else Shifted(x << 1, n - 1)
  }

  /** The n highest bits of a word, the highest one first. */
  function Top(x: bv32, n: nat): (r: Poly)
    ensures |r| == n
    decreases n
  {
    if n == 0 then [] else [TopBit(x)] + Top(x << 1, n - 1)
  }

  /** The sum of two words, bit by bit. */
  function Plus(x: bv32, y: bv32): bv32 {
    x ^ y
  }

  lemma PlusIs(x: bv32, y: bv32)
    ensures Plus(x, y) == x ^ y
  {
  }

  lemma ShiftOfXor(x: bv32, y: bv32)
    ensures (x ^ y) << 1 == (x << 1) ^ (y << 1)
  {
  }

  lemma ShiftOfPlus(x: bv32, y: bv32)
    ensures Plus(x, y) << 1 == Plus(x << 1, y << 1)
  {
    hide Plus;
    PlusIs(x, y);
    PlusIs(x << 1, y << 1);
    ShiftOfXor(x, y);
  }

  lemma TopBitOfPlus(x: bv32, y: bv32)
    ensures TopBit(Plus(x, y)) == (TopBit(x) != TopBit(y))
  {
    assert (x ^ y) & 0x8000_0000 == (x & 0x8000_0000) ^ (y & 0x8000_0000);
  }

  lemma {:induction false} TopOfPlus(x: bv32, y: bv32, n: nat)
    ensures Top(Plus(x, y), n) == Sum(Top(x, n), Top(y, n))
    decreases n
  {
    hide Plus, TopBit;
    if n > 0 {
      TopOfPlus(x << 1, y << 1, n - 1);
      TopOfPlusStep(x, y, n);
    }
  }

  lemma TopOfPlusStep(x: bv32, y: bv32, n: nat)
    requires n > 0
    requires Top(Plus(x << 1, y << 1), n - 1) == Sum(Top(x << 1, n - 1), Top(y << 1, n - 1))
    ensures Top(Plus(x, y), n) == Sum(Top(x, n), Top(y, n))
  {
    hide Plus, TopBit, Top;
    TopBitOfPlus(x, y);
    ShiftOfPlus(x, y);
    TopUnfolds(x, n);
    TopUnfolds(y, n);
    TopUnfolds(Plus(x, y), n);
    SumPrepended(TopBit(x), TopBit(y), Top(x << 1, n - 1), Top(y << 1, n - 1));
  }

  lemma TopUnfolds(x: bv32, n: nat)
    requires n > 0
    ensures Top(x, n) == [TopBit(x)] + Top(x << 1, n - 1)
  {
  }

  lemma SumPrepended(a: bool, b: bool, s: Poly, t: Poly)
    requires |s| == |t|
    ensures Sum([a] + s, [b] + t) == [a != b] + Sum(s, t)
  {
  }

  lemma {:induction false} TopSplit(x: bv32, m: nat, n: nat)
    ensures Top(x, m + n) == Top(x, m) + Top(Shifted(x, m), n)
    decreases m
  {
    hide TopBit;
    if m > 0 {
      TopSplit(x << 1, m - 1, n);
      assert Top(x, m + n) == [TopBit(x)] + Top(x << 1, m - 1 + n);
    }
  }

  lemma {:induction false} TopOfZero(n: nat)
    ensures Top(0, n) == Zeros(n)
  {
    if n > 0 {
      TopOfZero(n - 1);
      assert 0 as bv32 << 1 == 0;
      assert Top(0, n) == [false] + Top(0, n - 1);
    }
  }

  lemma ShiftedByEight(x: bv32)
    ensures Shifted(x, 8) == x << 8
  {
    assert Shifted(x, 2) == x << 2;
    assert forall y: bv32 :: Shifted(y, 2) == (y << 1) << 1;
    assert Shifted(x, 4) == Shifted(x << 2, 2);
    assert Shifted(x, 6) == Shifted(x << 2, 4);
    assert Shifted(x, 8) == Shifted(x << 2, 6);
  }

  /** If only zeros are shifted out and nothing is left, there was nothing. */
  lemma {:induction false} OnlyZeros(x: bv32, n: nat)
    requires Top(x, n) == Zeros(n) && Shifted(x, n) == 0
    ensures x == 0
    decreases n
  {
    if n > 0 {
      assert Top(x << 1, n - 1) == Top(x, n)[1..] == Zeros(n - 1);
      OnlyZeros(x << 1, n - 1);
      assert !TopBit(x) by { assert Top(x, n)[0] == TopBit(x); }
      NothingLost(x);
    }
  }

  lemma NothingLost(x: bv32)
    requires !TopBit(x) && x << 1 == 0
    ensures x == 0
  {
  }

  // ---------------------------------------------------------------- messages

  /** A byte in the highest place of a word. */
  function Byte(b: bv8): bv32 {
    (b as bv32) << 24
  }

  function ByteBits(b: bv8): (r: Poly)
    ensures |r| == 8
  {
    Top(Byte(b), 8)
  }

  /** The bits of a message, the highest bit of every byte first. */
  function MessageBits(data: seq<bv8>): (r: Poly)
    ensures |r| == 8 * |data|
  {
    if data == [] then [] else ByteBits(data[0]) + MessageBits(data[1..])
  }

  lemma {:induction false} MessageBitsConcat(a: seq<bv8>, b: seq<bv8>)
    ensures MessageBits(a + b) == MessageBits(a) + MessageBits(b)
  {
    hide ByteBits;
    if a == [] {
      assert a + b == b;
    } else {
      assert (a + b)[1..] == a[1..] + b;
      MessageBitsConcat(a[1..], b);
    }
  }

  lemma BitsOfOne(b: bv8)
    ensures MessageBits([b]) == ByteBits(b)
  {
    hide ByteBits;
    assert MessageBits([b][1..]) == [];
  }

  lemma ByteShiftedOut(b: bv8)
    ensures Shifted(Byte(b), 8) == 0
  {
    ShiftedByEight(Byte(b));
  }

  lemma ByteBitsInjective(a: bv8, b: bv8)
    requires ByteBits(a) == ByteBits(b)
    ensures a == b
  {
    TopOfPlus(Byte(a), Byte(b), 8);
    ByteOfPlus(a, b);
    hide Byte, Top;
    assert Top(Byte(a ^ b), 8) == Zeros(8);
    ByteShiftedOut(a ^ b);
    OnlyZeros(Byte(a ^ b), 8);
    ByteNotZero(a, b);
  }

  lemma ByteOfPlus(a: bv8, b: bv8)
    ensures Byte(a ^ b) == Plus(Byte(a), Byte(b))
  {
  }

  lemma ByteNotZero(a: bv8, b: bv8)
    requires Byte(a ^ b) == 0
    ensures a == b
  {
  }

  /** Different messages have different bits. */
  lemma {:induction false} MessageBitsInjective(a: seq<bv8>, b: seq<bv8>)
    requires MessageBits(a) == MessageBits(b)
    ensures a == b
  {
    hide ByteBits;
    assert |a| == |b|;
    if a != [] {
      assert MessageBits(a)[..8] == ByteBits(a[0]) && MessageBits(b)[..8] == ByteBits(b[0]);
      assert MessageBits(a)[8..] == MessageBits(a[1..]) && MessageBits(b)[8..] == MessageBits(b[1..]);
      ByteBitsInjective(a[0], b[0]);
      MessageBitsInjective(a[1..], b[1..]);
      assert a == [a[0]] + a[1..] && b == [b[0]] + b[1..];
    }
  }

  // ---------------------------------------------------------------- the register in a word

  /** The w highest bits of the word are the register; nothing lies below them. */
  predicate Holds(x: bv32, w: nat) {
    Shifted(x, w) == 0
  }

  /** One step of the register if its highest bit is set. */
  lemma StepWithOne(g: bv32, x: bv32, w: nat)
    requires w > 0 && Holds(x, w) && TopBit(x)
    ensures Top(Plus(x << 1, g), w) == Step(Top(g, w), Top(x, w), false)
  {
    hide TopBit, Top, Shifted, Step;
    TopOfShift(x, w);
    StepFromShifted(g, x, x << 1, w);
  }

  lemma StepFromShifted(g: bv32, x: bv32, y: bv32, w: nat)
    requires w > 0 && Top(x, w)[0] && Top(y, w) == Top(x, w)[1..] + [false]
    ensures Top(Plus(y, g), w) == Step(Top(g, w), Top(x, w), false)
  {
    hide Top;
    TopOfPlus(y, g, w);
    StepAddsPolynom(Top(g, w), Top(x, w), Top(y, w), Top(Plus(y, g), w));
    hide Step, Sum;
  }

  lemma StepAddsPolynom(g: Poly, r: Poly, shifted: Poly, sum: Poly)
    requires |r| == |g| == |shifted| > 0 && r[0]
    requires shifted == r[1..] + [false] && sum == Sum(shifted, g)
    ensures sum == Step(g, r, false)
  {
  }

  /** One step of the register if its highest bit is not set. */
  lemma StepWithZero(g: bv32, x: bv32, w: nat)
    requires w > 0 && Holds(x, w) && !TopBit(x)
    ensures Top(x << 1, w) == Step(Top(g, w), Top(x, w), false)
  {
    hide TopBit, Top, Shifted, Step;
    IdleStep(Top(g, w), Top(x, w));
    TopOfShift(x, w);
    SumWithZeros(Top(x << 1, w));
  }

  lemma SumWithZeros(a: Poly)
    ensures Sum(a, Zeros(|a|)) == a
  {
  }

  lemma IdleStep(g: Poly, r: Poly)
    requires |r| == |g| > 0
    ensures Step(g, r, false) == Sum(r[1..] + [false], Times(r[0], g))
  {
  }

  lemma TopOfShift(x: bv32, w: nat)
    requires w > 0 && Holds(x, w)
    ensures Top(x << 1, w) == Top(x, w)[1..] + [false] && Top(x, w)[0] == TopBit(x)
  {
    TopSplit(x, w, 1);
    TopOfZero(1);
    hide TopBit;
    assert Top(x, w + 1) == Top(x, w) + [false];
    assert Top(x, w + 1) == [TopBit(x)] + Top(x << 1, w);
    assert Top(x << 1, w) == Top(x, w + 1)[1..];
  }

  lemma {:induction false} HoldsPlus(x: bv32, y: bv32, n: nat)
    requires Holds(x, n) && Holds(y, n)
    ensures Holds(Plus(x, y), n)
    decreases n
  {
    if n > 0 {
      HoldsPlus(x << 1, y << 1, n - 1);
      ShiftOfPlus(x, y);
      hide Plus;
    }
  }

  lemma {:induction false} ShiftedZero(n: nat)
    ensures Shifted(0, n) == 0
  {
    if n > 0 {
      ShiftedZero(n - 1);
      assert 0 as bv32 << 1 == 0;
    }
  }

  /** The bits of a byte and then zeros. */
  lemma TopOfByte(b: bv8, w: nat)
    requires w >= 8
    ensures Top(Byte(b), w) == ByteBits(b) + Zeros(w - 8) && Holds(Byte(b), w)
  {
    hide Byte;
    ByteShiftedOut(b);
    TopSplit(Byte(b), 8, w - 8);
    TopOfZero(w - 8);
    ShiftedSplit(Byte(b), 8, w - 8);
    ShiftedZero(w - 8);
  }

  lemma {:induction false} ShiftedSplit(x: bv32, m: nat, n: nat)
    ensures Shifted(x, m + n) == Shifted(Shifted(x, m), n)
    decreases m
  {
    if m > 0 {
      ShiftedSplit(x << 1, m - 1, n);
    }
  }

  /** Adding a byte and eight steps take in the bits of the byte one after the other. */
  lemma ByteTakenIn(g: Poly, x: bv32, b: bv8, w: nat)
    requires |g| == w >= 8 && Holds(x, w)
    ensures Idle(g, Top(Plus(x, Byte(b)), w), 8) == Run(g, Top(x, w), ByteBits(b))
    ensures Holds(Plus(x, Byte(b)), w)
  {
    hide Top, ByteBits, Byte, Idle, Run;
    TopOfPlus(x, Byte(b), w);
    TopOfByte(b, w);
    RunAddsAtOnce(g, Top(x, w), ByteBits(b));
    HoldsPlus(x, Byte(b), w);
  }

  lemma IdleOneMore(g: Poly, r: Poly, n: nat)
    requires |r| == |g| > 0
    ensures Idle(g, r, n + 1) == Step(g, Idle(g, r, n), false)
    decreases n
  {
    hide Step;
    if n > 0 {
      IdleOneMore(g, Step(g, r, false), n - 1);
    }
  }

  lemma NextByte(g: Poly, r: Poly, data: seq<bv8>, i: nat)
    requires |r| == |g| > 0 && i < |data|
    ensures Run(g, r, MessageBits(data[..i + 1]))
            == Run(g, Run(g, r, MessageBits(data[..i])), ByteBits(data[i]))
  {
    hide ByteBits, Run;
    assert data[..i + 1] == data[..i] + [data[i]];
    MessageBitsConcat(data[..i], [data[i]]);
    BitsOfOne(data[i]);
    RunConcat(g, r, MessageBits(data[..i]), ByteBits(data[i]));
  }

  // ---------------------------------------------------------------- CRC-16

  /** TBX_CONF_CHECKSUM_CRC16_POLYNOM and ..._INITIAL, unless they are overridden. */
  const CRC16_POLYNOM: bv16 := 0x1021
  const CRC16_INITIAL: bv16 := 0xFFFF

  /** A 16-bit register in the upper half of a word. */
  function Wide(x: bv16): bv32 {
    (x as bv32) << 16
  }

  function Bits16(x: bv16): (r: Poly)
    ensures |r| == 16
  {
    Top(Wide(x), 16)
  }

  lemma WideHolds(x: bv16)
    ensures Holds(Wide(x), 16)
  {
    ShiftedSplit(Wide(x), 8, 8);
    ShiftedByEight(Wide(x));
    ShiftedByEight(Wide(x) << 8);
  }

  lemma WideAdd(x: bv16, b: bv8)
    ensures Wide(x ^ ((b as bv16) << 8)) == Plus(Wide(x), Byte(b))
  {
  }

  lemma WideShift(x: bv16)
    ensures Wide(x << 1) == Wide(x) << 1
  {
  }

  lemma WideShiftAdd(x: bv16, polynom: bv16)
    ensures Wide((x << 1) ^ polynom) == Plus(Wide(x) << 1, Wide(polynom))
  {
  }

  lemma WideTopBit(x: bv16)
    ensures TopBit(Wide(x)) == (x & 0x8000 != 0)
  {
  }

  /** The register after a message is the given one. */
  ghost predicate IsCrc16(polynom: bv16, initial: bv16, data: seq<bv8>, crc: bv16) {
    Bits16(crc) == Run(Bits16(polynom), Bits16(initial), MessageBits(data))
  }

  /** The remainder of the division, or 0 without a message; for any polynomial and initial value. */
  method Crc16Calculate(data: array?<bv8>, len: nat, polynom: bv16, initial: bv16)
      returns (result: bv16)
    requires data != null ==> len <= data.Length
    ensures data == null || len == 0 ==> result == 0
    ensures data != null && len > 0 ==> IsCrc16(polynom, initial, data[..len], result)
  {
    hide Bits16, MessageBits, Run, Idle, Step;
    result := 0;
    if data != null && len > 0 {
      result := initial;
      ghost var g, start := Bits16(polynom), Bits16(initial);
      EmptyMessage(g, start);
      assert data[..len][..0] == [];
      for byteIdx := 0 to len
        invariant Bits16(result) == Run(g, start, MessageBits(data[..len][..byteIdx]))
      {
        NextByte(g, start, data[..len], byteIdx);
        result := AddByte16(result, data[byteIdx], g);
        ghost var added := Bits16(result);
        IdleStart(g, added);
        for bitIdx := 0 to 8
          invariant Bits16(result) == Idle(g, added, bitIdx)
        {
          IdleOneMore(g, added, bitIdx);
          result := ShiftOnce16(result, polynom);
        }
      }
      assert data[..len][..len] == data[..len];
    }
  }

  lemma ByteAdded16(x: bv16, b: bv8, g: Poly)
    requires |g| == 16
    ensures Idle(g, Bits16(x ^ ((b as bv16) << 8)), 8) == Run(g, Bits16(x), ByteBits(b))
  {
    hide Top, Holds, Idle, Run, Byte, ByteBits, Wide;
    WideHolds(x);
    WideAdd(x, b);
    ByteTakenIn(g, Wide(x), b, 16);
  }

  /** Adds a byte to the upper half, where eight steps take it in. */
  method AddByte16(x: bv16, b: bv8, ghost g: Poly) returns (r: bv16)
    requires |g| == 16
    ensures Idle(g, Bits16(r), 8) == Run(g, Bits16(x), ByteBits(b))
  {
    hide Bits16, Idle, Run, ByteBits;
    ByteAdded16(x, b, g);
    r := x ^ ((b as bv16) << 8);
  }

  lemma StepWithOne16(x: bv16, polynom: bv16)
    requires x & 0x8000 != 0
    ensures Bits16((x << 1) ^ polynom) == Step(Bits16(polynom), Bits16(x), false)
  {
    hide Top, Holds, Step, TopBit, Wide;
    WideHolds(x);
    WideTopBit(x);
    StepWithOne(Wide(polynom), Wide(x), 16);
    WideShiftAdd(x, polynom);
  }

  lemma StepWithZero16(x: bv16, polynom: bv16)
    requires x & 0x8000 == 0
    ensures Bits16(x << 1) == Step(Bits16(polynom), Bits16(x), false)
  {
    hide Top, Holds, Step, TopBit, Wide;
    WideHolds(x);
    WideTopBit(x);
    StepWithZero(Wide(polynom), Wide(x), 16);
    WideShift(x);
  }

  /** The body of the loop over the bits. */
  method ShiftOnce16(x: bv16, polynom: bv16) returns (r: bv16)
    ensures Bits16(r) == Step(Bits16(polynom), Bits16(x), false)
  {
    hide Bits16, Step;
    if x & 0x8000 != 0 {
      StepWithOne16(x, polynom);
      r := (x << 1) ^ polynom;
    } else {
      StepWithZero16(x, polynom);
      r := x << 1;
    }
  }

  // ---------------------------------------------------------------- CRC-32

  /** TBX_CONF_CHECKSUM_CRC32_POLYNOM and ..._INITIAL, unless they are overridden. */
  const CRC32_POLYNOM: bv32 := 0x04C1_1DB7
  const CRC32_INITIAL: bv32 := 0xFFFF_FFFF

  function Bits32(x: bv32): (r: Poly)
    ensures |r| == 32
  {
    Top(x, 32)
  }

  lemma AllShiftedOut(x: bv32)
    ensures Holds(x, 32)
  {
    var y := (x << 8) << 8;
    ShiftedBy16(x);
    ShiftedBy16(y);
    assert (y << 8) << 8 == 0;
    hide Shifted;
    ShiftedTo(x, 16, y, 16, 0);
  }

  /** The register after a message is the given one. */
  ghost predicate IsCrc32(polynom: bv32, initial: bv32, data: seq<bv8>, crc: bv32) {
    Bits32(crc) == Run(Bits32(polynom), Bits32(initial), MessageBits(data))
  }

  /** The remainder of the division, or 0 without a message; for any polynomial and initial value. */
  method Crc32Calculate(data: array?<bv8>, len: nat, polynom: bv32, initial: bv32)
      returns (result: bv32)
    requires data != null ==> len <= data.Length
    ensures data == null || len == 0 ==> result == 0
    ensures data != null && len > 0 ==> IsCrc32(polynom, initial, data[..len], result)
  {
    hide Bits32, MessageBits, Run, Idle, Step;
    result := 0;
    if data != null && len > 0 {
      result := initial;
      ghost var g, start := Bits32(polynom), Bits32(initial);
      EmptyMessage(g, start);
      assert data[..len][..0] == [];
      for byteIdx := 0 to len
        invariant Bits32(result) == Run(g, start, MessageBits(data[..len][..byteIdx]))
      {
        NextByte(g, start, data[..len], byteIdx);
        result := AddByte32(result, data[byteIdx], g);
        ghost var added := Bits32(result);
        IdleStart(g, added);
        for bitIdx := 0 to 8
          invariant Bits32(result) == Idle(g, added, bitIdx)
        {
          IdleOneMore(g, added, bitIdx);
          result := ShiftOnce32(result, polynom);
        }
      }
      assert data[..len][..len] == data[..len];
    }
  }

  lemma ByteAdded32(x: bv32, b: bv8, g: Poly)
    requires |g| == 32
    ensures Idle(g, Bits32(x ^ ((b as bv32) << 24)), 8) == Run(g, Bits32(x), ByteBits(b))
  {
    hide Top, Holds, Idle, Run, ByteBits;
    AllShiftedOut(x);
    ByteTakenIn(g, x, b, 32);
  }

  /** Adds a byte at the top, where eight steps take it in. */
  method AddByte32(x: bv32, b: bv8, ghost g: Poly) returns (r: bv32)
    requires |g| == 32
    ensures Idle(g, Bits32(r), 8) == Run(g, Bits32(x), ByteBits(b))
  {
    hide Bits32, Idle, Run, ByteBits;
    ByteAdded32(x, b, g);
    r := x ^ ((b as bv32) << 24);
  }

  lemma StepWithOne32(x: bv32, polynom: bv32)
    requires x & 0x8000_0000 != 0
    ensures Bits32((x << 1) ^ polynom) == Step(Bits32(polynom), Bits32(x), false)
  {
    hide Top, Holds, Step;
    AllShiftedOut(x);
    StepWithOne(polynom, x, 32);
  }

  lemma StepWithZero32(x: bv32, polynom: bv32)
    requires x & 0x8000_0000 == 0
    ensures Bits32(x << 1) == Step(Bits32(polynom), Bits32(x), false)
  {
    hide Top, Holds, Step;
    AllShiftedOut(x);
    StepWithZero(polynom, x, 32);
  }

  /** The body of the loop over the bits. */
  method ShiftOnce32(x: bv32, polynom: bv32) returns (r: bv32)
    ensures Bits32(r) == Step(Bits32(polynom), Bits32(x), false)
  {
    hide Bits32, Step;
    if x & 0x8000_0000 != 0 {
      StepWithOne32(x, polynom);
      r := (x << 1) ^ polynom;
    } else {
      StepWithZero32(x, polynom);
      r := x << 1;
    }
  }

  lemma EmptyMessage(g: Poly, r: Poly)
    requires |r| == |g| > 0
    ensures Run(g, r, MessageBits([])) == r
  {
  }

  lemma IdleStart(g: Poly, r: Poly)
    requires |r| == |g| > 0
    ensures Idle(g, r, 0) == r
  {
  }

  // ---------------------------------------------------------------- what the checks promise

  /** The lowest coefficient of the divisor is the lowest bit of the configured polynomial. */
  lemma OddPolynom32(g: bv32)
    requires g & 1 != 0
    ensures Bits32(g)[31]
  {
    ShiftedBy31(g);
    LowestBitAtTop(g);
    hide Shifted, TopBit, Top;
    BitBelow(g, 31);
  }

  /** The bit below the n highest ones. */
  lemma BitBelow(x: bv32, n: nat)
    ensures Top(x, n + 1)[n] == TopBit(Shifted(x, n))
  {
    TopSplit(x, n, 1);
    hide TopBit, Shifted;
    assert Top(Shifted(x, n), 1)[0] == TopBit(Shifted(x, n));
    assert Top(x, n + 1)[n] == Top(Shifted(x, n), 1)[0];
  }

  lemma ShiftedTo(x: bv32, m: nat, y: bv32, n: nat, z: bv32)
    requires Shifted(x, m) == y && Shifted(y, n) == z
    ensures Shifted(x, m + n) == z
  {
    ShiftedSplit(x, m, n);
  }

  lemma ShiftedBy15(x: bv32)
    ensures Shifted(x, 15) == (x << 8) << 7
  {
    hide Shifted;
    var y := x << 8;
    ShiftedByEight(x);
    ShiftedBySeven(y);
    ShiftedTo(x, 8, y, 7, y << 7);
  }

  lemma ShiftedBy16(x: bv32)
    ensures Shifted(x, 16) == (x << 8) << 8
  {
    hide Shifted;
    var y := x << 8;
    ShiftedByEight(x);
    ShiftedByEight(y);
    ShiftedTo(x, 8, y, 8, y << 8);
  }

  lemma ShiftedBy31(x: bv32)
    ensures Shifted(x, 31) == (((x << 8) << 8) << 8) << 7
  {
    hide Shifted;
    var y := (x << 8) << 8;
    ShiftedBy16(x);
    ShiftedBy15(y);
    ShiftedTo(x, 16, y, 15, (y << 8) << 7);
  }

  lemma ShiftedBySeven(x: bv32)
    ensures Shifted(x, 7) == x << 7
  {
    ShiftedSplit(x, 7, 1);
    assert Shifted(x, 2) == x << 2;
    assert forall y: bv32 :: Shifted(y, 2) == (y << 1) << 1;
    assert Shifted(x, 4) == Shifted(x << 2, 2);
    assert Shifted(x, 6) == Shifted(x << 2, 4);
    ShiftedSplit(x, 6, 1);
    assert Shifted(x << 6, 1) == (x << 6) << 1;
  }

  lemma LowestBitAtTop(g: bv32)
    requires g & 1 != 0
    ensures TopBit((((g << 8) << 8) << 8) << 7)
  {
  }

  lemma OddPolynom16(g: bv16)
    requires g & 1 != 0
    ensures Bits16(g)[15]
  {
    ShiftedBy15(Wide(g));
    LowestWideBitAtTop(g);
    hide Shifted, TopBit, Top, Wide;
    BitBelow(Wide(g), 15);
  }

  lemma LowestWideBitAtTop(g: bv16)
    requires g & 1 != 0
    ensures TopBit((Wide(g) << 8) << 7)
  {
  }

  /**
   Both messages have the same length and differ, but only within the given window of bits,
   counted from the highest bit of the first byte.
   */
  ghost predicate DifferWithin(a: seq<bv8>, b: seq<bv8>, lo: nat, hi: nat) {
    && |a| == |b| && a != b && lo <= hi <= 8 * |a|
    && MessageBits(a)[..lo] == MessageBits(b)[..lo] && MessageBits(a)[hi..] == MessageBits(b)[hi..]
  }

  /** With any odd polynomial every burst of at most 16 bits changes the value. */
  lemma Crc16DetectsBursts(polynom: bv16, initial: bv16, a: seq<bv8>, b: seq<bv8>, lo: nat, hi: nat,
                           crcA: bv16, crcB: bv16)
    requires polynom & 1 != 0 && DifferWithin(a, b, lo, hi) && hi - lo <= 16
    requires IsCrc16(polynom, initial, a, crcA) && IsCrc16(polynom, initial, b, crcB)
    ensures crcA != crcB
  {
    hide Bits16, MessageBits, Run;
    OddPolynom16(polynom);
    DifferentBits(a, b);
    BurstDetected(Bits16(polynom), Bits16(initial), MessageBits(a), MessageBits(b), lo, hi);
  }

  lemma DifferentBits(a: seq<bv8>, b: seq<bv8>)
    requires a != b
    ensures MessageBits(a) != MessageBits(b)
  {
    if MessageBits(a) == MessageBits(b) {
      MessageBitsInjective(a, b);
    }
  }

  /** With any odd polynomial every burst of at most 32 bits changes the value. */
  lemma Crc32DetectsBursts(polynom: bv32, initial: bv32, a: seq<bv8>, b: seq<bv8>, lo: nat, hi: nat,
                           crcA: bv32, crcB: bv32)
    requires polynom & 1 != 0 && DifferWithin(a, b, lo, hi) && hi - lo <= 32
    requires IsCrc32(polynom, initial, a, crcA) && IsCrc32(polynom, initial, b, crcB)
    ensures crcA != crcB
  {
    hide Bits32, MessageBits, Run;
    OddPolynom32(polynom);
    DifferentBits(a, b);
    BurstDetected(Bits32(polynom), Bits32(initial), MessageBits(a), MessageBits(b), lo, hi);
  }

  /** With the configured polynomials and initial values, unless these are overridden, too. */
  lemma DefaultsDetectBursts(a: seq<bv8>, b: seq<bv8>, lo: nat, hi: nat, crcA: bv16, crcB: bv16,
                             longA: bv32, longB: bv32)
    requires DifferWithin(a, b, lo, hi)
    requires IsCrc16(CRC16_POLYNOM, CRC16_INITIAL, a, crcA) && IsCrc16(CRC16_POLYNOM, CRC16_INITIAL, b, crcB)
    requires IsCrc32(CRC32_POLYNOM, CRC32_INITIAL, a, longA) && IsCrc32(CRC32_POLYNOM, CRC32_INITIAL, b, longB)
    ensures hi - lo <= 16 ==> crcA != crcB
    ensures hi - lo <= 32 ==> longA != longB
  {
    hide IsCrc16, IsCrc32, DifferWithin;
    if hi - lo <= 16 {
      Crc16DetectsBursts(CRC16_POLYNOM, CRC16_INITIAL, a, b, lo, hi, crcA, crcB);
    }
    if hi - lo <= 32 {
      Crc32DetectsBursts(CRC32_POLYNOM, CRC32_INITIAL, a, b, lo, hi, longA, longB);
    }
  }

  /** Different registers have different bits. */
  lemma Bits32Injective(x: bv32, y: bv32)
    requires Bits32(x) == Bits32(y)
    ensures x == y
  {
    AllShiftedOut(x);
    AllShiftedOut(y);
    hide Holds;
    TopInjective(x, y, 32);
  }

  lemma Bits16Injective(x: bv16, y: bv16)
    requires Bits16(x) == Bits16(y)
    ensures x == y
  {
    WideHolds(x);
    WideHolds(y);
    hide Holds, Wide;
    TopInjective(Wide(x), Wide(y), 16);
    WideInjective(x, y);
  }

  lemma TopInjective(x: bv32, y: bv32, n: nat)
    requires Top(x, n) == Top(y, n) && Holds(x, n) && Holds(y, n)
    ensures x == y
  {
    hide Plus, Top, Holds;
    TopOfPlus(x, y, n);
    SameCancels(Top(x, n));
    HoldsPlus(x, y, n);
    NothingHeld(Plus(x, y), n);
    PlusZero(x, y);
  }

  lemma NothingHeld(x: bv32, n: nat)
    requires Top(x, n) == Zeros(n) && Holds(x, n)
    ensures x == 0
  {
    OnlyZeros(x, n);
  }

  lemma SameCancels(a: Poly)
    ensures Sum(a, a) == Zeros(|a|)
  {
  }

  lemma PlusZero(x: bv32, y: bv32)
    requires Plus(x, y) == 0
    ensures x == y
  {
  }

  lemma WideInjective(x: bv16, y: bv16)
    requires Wide(x) == Wide(y)
    ensures x == y
  {
  }

  /** A message has one value only. */
  lemma Crc16Unique(polynom: bv16, initial: bv16, data: seq<bv8>, crc: bv16, other: bv16)
    requires IsCrc16(polynom, initial, data, crc)
    ensures IsCrc16(polynom, initial, data, other) <==> other == crc
  {
    hide Bits16, MessageBits, Run;
    if Bits16(other) == Bits16(crc) {
      Bits16Injective(other, crc);
    }
  }

  lemma Crc32Unique(polynom: bv32, initial: bv32, data: seq<bv8>, crc: bv32, other: bv32)
    requires IsCrc32(polynom, initial, data, crc)
    ensures IsCrc32(polynom, initial, data, other) <==> other == crc
  {
    hide Bits32, MessageBits, Run;
    if Bits32(other) == Bits32(crc) {
      Bits32Injective(other, crc);
    }
  }

  /**
   The value of a message, and no other, is the remainder of initial x^(8n) + message x^16 divided
   by x^16 + polynom.
   */
  lemma Crc16IsTheRemainder(polynom: bv16, initial: bv16, data: seq<bv8>, crc: bv16, other: bv16)
    requires IsCrc16(polynom, initial, data, crc)
    ensures IsRemainder(Dividend(Bits16(initial), MessageBits(data)), Bits16(polynom), Bits16(other))
            <==> other == crc
  {
    hide Bits16, MessageBits, Run, IsRemainder, Dividend;
    RunIsTheRemainder(Bits16(polynom), Bits16(initial), MessageBits(data), Bits16(other));
    Crc16Unique(polynom, initial, data, crc, other);
  }

  /**
   The value of a message, and no other, is the remainder of initial x^(8n) + message x^32 divided
   by x^32 + polynom.
   */
  lemma Crc32IsTheRemainder(polynom: bv32, initial: bv32, data: seq<bv8>, crc: bv32, other: bv32)
    requires IsCrc32(polynom, initial, data, crc)
    ensures IsRemainder(Dividend(Bits32(initial), MessageBits(data)), Bits32(polynom), Bits32(other))
            <==> other == crc
  {
    hide Bits32, MessageBits, Run, IsRemainder, Dividend;
    RunIsTheRemainder(Bits32(polynom), Bits32(initial), MessageBits(data), Bits32(other));
    Crc32Unique(polynom, initial, data, crc, other);
  }

  /** The value of a message in two parts: the second part starts from the value of the first one. */
  lemma Crc16Concat(polynom: bv16, initial: bv16, a: seq<bv8>, b: seq<bv8>, crcA: bv16, crc: bv16)
    requires IsCrc16(polynom, initial, a, crcA)
    ensures IsCrc16(polynom, initial, a + b, crc) <==> IsCrc16(polynom, crcA, b, crc)
  {
    hide Bits16, MessageBits, Run;
    MessageBitsConcat(a, b);
    RunConcat(Bits16(polynom), Bits16(initial), MessageBits(a), MessageBits(b));
  }

  lemma Crc32Concat(polynom: bv32, initial: bv32, a: seq<bv8>, b: seq<bv8>, crcA: bv32, crc: bv32)
    requires IsCrc32(polynom, initial, a, crcA)
    ensures IsCrc32(polynom, initial, a + b, crc) <==> IsCrc32(polynom, crcA, b, crc)
  {
    hide Bits32, MessageBits, Run;
    MessageBitsConcat(a, b);
    RunConcat(Bits32(polynom), Bits32(initial), MessageBits(a), MessageBits(b));
  }

  /** The bytes of a value, the most significant one first. */
  function Bytes16(x: bv16): (r: seq<bv8>)
    ensures |r| == 2
  {
    [((x >> 8) & 0xff) as bv8, (x & 0xff) as bv8]
  }

  function Bytes32(x: bv32): (r: seq<bv8>)
    ensures |r| == 4
  {
    [((x >> 24) & 0xff) as bv8, ((x >> 16) & 0xff) as bv8, ((x >> 8) & 0xff) as bv8, (x & 0xff) as bv8]
  }

  /** The highest byte of a word, and then the others. */
  lemma TopByte(x: bv32, n: nat)
    ensures Top(x, 8 + n) == ByteBits(High(x)) + Top(Up(x), n)
  {
    TopSplit(x, 8, n);
    ShiftedByEight(x);
    hide Top, Byte, Shifted, High;
    TopIsHigh(x);
  }

  lemma TopIsHigh(x: bv32)
    ensures Top(x, 8) == ByteBits(High(x))
  {
    hide Top, Byte;
    HighAndLow(x, High(x), x & 0xff_ffff);
    TopOfByteAndRest(High(x), x & 0xff_ffff, x);
  }

  /** The highest byte of a word, and the word moved up by a byte. */
  function High(x: bv32): bv8 {
    ((x >> 24) & 0xff) as bv8
  }

  function Up(x: bv32): bv32 {
    x << 8
  }

  lemma HighAndLow(x: bv32, b: bv8, y: bv32)
    requires b == ((x >> 24) & 0xff) as bv8 && y == x & 0xff_ffff
    ensures Plus(Byte(b), y) == x && y & 0xff00_0000 == 0
  {
    assert y & 0xff00_0000 == 0;
  }

  lemma TopOfByteAndRest(b: bv8, y: bv32, x: bv32)
    requires y & 0xff00_0000 == 0 && Plus(Byte(b), y) == x
    ensures Top(x, 8) == ByteBits(b)
  {
    hide Plus;
    TopOfPlus(Byte(b), y, 8);
    LowBits(y);
    hide Top, Byte;
    SumWithZeros(Top(Byte(b), 8));
  }

  lemma LowBits(x: bv32)
    requires x & 0xff00_0000 == 0
    ensures Top(x, 8) == Zeros(8)
  {
    assert !TopBit(x) && !TopBit(x << 1) && !TopBit(x << 2) && !TopBit(x << 3);
    assert !TopBit(x << 4) && !TopBit(x << 5) && !TopBit(x << 6) && !TopBit(x << 7);
    hide TopBit;
    assert Top(x << 7, 1) == [false] + Top((x << 7) << 1, 0);
    assert Top(x << 6, 2) == [false] + Top(x << 7, 1);
    assert Top(x << 5, 3) == [false] + Top(x << 6, 2);
    assert Top(x << 4, 4) == [false] + Top(x << 5, 3);
    assert Top(x << 3, 5) == [false] + Top(x << 4, 4);
    assert Top(x << 2, 6) == [false] + Top(x << 3, 5);
    assert Top(x << 1, 7) == [false] + Top(x << 2, 6);
    assert Top(x, 8) == [false] + Top(x << 1, 7);
  }

  lemma BitsOfTwo(b0: bv8, b1: bv8)
    ensures MessageBits([b0, b1]) == ByteBits(b0) + ByteBits(b1)
  {
    hide ByteBits;
    BitsOfOne(b0);
    BitsOfOne(b1);
    assert [b0, b1] == [b0] + [b1];
    MessageBitsConcat([b0], [b1]);
  }

  lemma BytesBits16(x: bv16)
    ensures MessageBits(Bytes16(x)) == Bits16(x)
  {
    BytesOfWide(x);
    hide ByteBits, MessageBits, Top, Wide, High, Up;
    BitsOfTwo(High(Wide(x)), High(Up(Wide(x))));
    TopByte(Wide(x), 8);
    TopByte(Up(Wide(x)), 0);
    TopEmpty(Up(Up(Wide(x))));
  }

  lemma TopEmpty(x: bv32)
    ensures Top(x, 0) == []
  {
  }

  lemma BytesOfWide(x: bv16)
    ensures Bytes16(x) == [High(Wide(x)), High(Up(Wide(x)))]
  {
    assert ((Wide(x) >> 24) & 0xff) as bv8 == ((x >> 8) & 0xff) as bv8;
    assert (((Wide(x) << 8) >> 24) & 0xff) as bv8 == (x & 0xff) as bv8;
  }

  lemma BytesBits32(x: bv32)
    ensures MessageBits(Bytes32(x)) == Bits32(x)
  {
    var x1 := Up(x);
    var x2 := Up(x1);
    var x3 := Up(x2);
    BytesOfShifts(x);
    hide ByteBits, MessageBits, Top, High, Up;
    TopByte(x, 24);
    TopByte(x1, 16);
    TopByte(x2, 8);
    TopByte(x3, 0);
    TopEmpty(Up(x3));
    BitsOfFour(High(x), High(x1), High(x2), High(x3));
  }

  lemma BitsOfFour(b0: bv8, b1: bv8, b2: bv8, b3: bv8)
    ensures MessageBits([b0, b1, b2, b3])
            == ByteBits(b0) + (ByteBits(b1) + (ByteBits(b2) + (ByteBits(b3) + [])))
  {
    hide ByteBits, MessageBits;
    BitsOfTwo(b0, b1);
    BitsOfTwo(b2, b3);
    MessageBitsConcat([b0, b1], [b2, b3]);
    assert [b0, b1, b2, b3] == [b0, b1] + [b2, b3];
  }

  lemma BytesOfShifts(x: bv32)
    ensures Bytes32(x) == [High(x), High(Up(x)), High(Up(Up(x))), High(Up(Up(Up(x))))]
  {
    assert (((x << 8) >> 24) & 0xff) as bv8 == ((x >> 16) & 0xff) as bv8;
    assert ((((x << 8) << 8) >> 24) & 0xff) as bv8 == ((x >> 8) & 0xff) as bv8;
    assert (((((x << 8) << 8) << 8) >> 24) & 0xff) as bv8 == (x & 0xff) as bv8;
  }

  /**
   With any odd polynomial, a message with two more bytes has the value 0 exactly if these are
   the value of the message, most significant byte first.
   */
  lemma Crc16Residue(polynom: bv16, initial: bv16, data: seq<bv8>, crc: bv16, tail: seq<bv8>,
                     residue: bv16)
    requires polynom & 1 != 0 && |tail| == 2 && IsCrc16(polynom, initial, data, crc)
    requires IsCrc16(polynom, initial, data + tail, residue)
    ensures residue == 0 <==> tail == Bytes16(crc)
  {
    Crc16Unique(polynom, initial, data + tail, residue, 0);
    ZeroBits16();
    hide Bits16, MessageBits, Run, Bytes16;
    OddPolynom16(polynom);
    MessageBitsConcat(data, tail);
    BytesBits16(crc);
    ZeroResidue(Bits16(polynom), Bits16(initial), MessageBits(data), MessageBits(tail));
    if tail != Bytes16(crc) {
      DifferentBits(tail, Bytes16(crc));
    }
  }

  lemma ZeroBits32()
    ensures Bits32(0) == Zeros(32)
  {
    TopOfZero(32);
  }

  lemma ZeroBits16()
    ensures Bits16(0) == Zeros(16)
  {
    TopOfZero(16);
    assert Wide(0) == 0;
  }

  /**
   The zero-register check of Annex A of ISO/IEC 13818-1: a message with four more bytes has the
   value 0 exactly if these are the value of the message, most significant byte first.
   */
  lemma Crc32Residue(polynom: bv32, initial: bv32, data: seq<bv8>, crc: bv32, tail: seq<bv8>,
                     residue: bv32)
    requires polynom & 1 != 0 && |tail| == 4 && IsCrc32(polynom, initial, data, crc)
    requires IsCrc32(polynom, initial, data + tail, residue)
    ensures residue == 0 <==> tail == Bytes32(crc)
  {
    Crc32Unique(polynom, initial, data + tail, residue, 0);
    ZeroBits32();
    hide Bits32, MessageBits, Run, Bytes32;
    OddPolynom32(polynom);
    MessageBitsConcat(data, tail);
    BytesBits32(crc);
    ZeroResidue(Bits32(polynom), Bits32(initial), MessageBits(data), MessageBits(tail));
    if tail != Bytes32(crc) {
      DifferentBits(tail, Bytes32(crc));
    }
  }

  // ---------------------------------------------------------------- errors in an odd number of bits

  /** Both messages have the same length and differ in an odd number of bits. */
  predicate DifferOddly(a: seq<bv8>, b: seq<bv8>) {
    |a| == |b| && Odd(Sum(MessageBits(a), MessageBits(b)))
  }

  function One(b: bool): nat {
    if b then 1 else 0
  }

  lemma OnesStep(x: bv32, y: bv32, n: nat)
    requires y == x << 1
    ensures Ones(Top(x, n + 1)) == One(TopBit(x)) + Ones(Top(y, n))
  {
    TopUnfolds(x, n + 1);
    hide TopBit, Top;
    assert ([TopBit(x)] + Top(y, n))[1..] == Top(y, n);
  }

  /** The ones among the next four bits, and the others. */
  lemma FourOnes(x: bv32, x1: bv32, x2: bv32, x3: bv32, x4: bv32, n: nat)
    requires x1 == x << 1 && x2 == x1 << 1 && x3 == x2 << 1 && x4 == x3 << 1
    ensures Ones(Top(x, n + 4))
            == One(TopBit(x)) + One(TopBit(x1)) + One(TopBit(x2)) + One(TopBit(x3)) + Ones(Top(x4, n))
  {
    hide TopBit, Top, Ones, One;
    OnesStep(x, x1, n + 3);
    OnesStep(x1, x2, n + 2);
    OnesStep(x2, x3, n + 1);
    OnesStep(x3, x4, n);
  }

  lemma OnesOfDefault16()
    ensures Ones(Bits16(CRC16_POLYNOM)) == 3
  {
    hide Top, Ones;
    assert Wide(CRC16_POLYNOM) == 0x1021_0000;
    FourOnes(0x1021_0000, 0x2042_0000, 0x4084_0000, 0x8108_0000, 0x0210_0000, 12);
    FourOnes(0x0210_0000, 0x0420_0000, 0x0840_0000, 0x1080_0000, 0x2100_0000, 8);
    FourOnes(0x2100_0000, 0x4200_0000, 0x8400_0000, 0x0800_0000, 0x1000_0000, 4);
    FourOnes(0x1000_0000, 0x2000_0000, 0x4000_0000, 0x8000_0000, 0x0000_0000, 0);
    NoTopOnes();
  }

  lemma NoTopOnes()
    ensures Ones(Top(0, 0)) == 0
  {
  }

  lemma OnesOfDefault32()
    ensures Ones(Bits32(CRC32_POLYNOM)) == 14
  {
    hide Top, Ones;
    FourOnes(0x04C1_1DB7, 0x0982_3B6E, 0x1304_76DC, 0x2608_EDB8, 0x4C11_DB70, 28);
    FourOnes(0x4C11_DB70, 0x9823_B6E0, 0x3047_6DC0, 0x608E_DB80, 0xC11D_B700, 24);
    FourOnes(0xC11D_B700, 0x823B_6E00, 0x0476_DC00, 0x08ED_B800, 0x11DB_7000, 20);
    FourOnes(0x11DB_7000, 0x23B6_E000, 0x476D_C000, 0x8EDB_8000, 0x1DB7_0000, 16);
    FourOnes(0x1DB7_0000, 0x3B6E_0000, 0x76DC_0000, 0xEDB8_0000, 0xDB70_0000, 12);
    FourOnes(0xDB70_0000, 0xB6E0_0000, 0x6DC0_0000, 0xDB80_0000, 0xB700_0000, 8);
    FourOnes(0xB700_0000, 0x6E00_0000, 0xDC00_0000, 0xB800_0000, 0x7000_0000, 4);
    FourOnes(0x7000_0000, 0xE000_0000, 0xC000_0000, 0x8000_0000, 0x0000_0000, 0);
    NoTopOnes();
  }

  /** With an odd number of ones in the polynomial, the highest one left out, every odd error is seen. */
  lemma Crc16DetectsOddErrors(polynom: bv16, initial: bv16, a: seq<bv8>, b: seq<bv8>, crcA: bv16, crcB: bv16)
    requires Odd(Bits16(polynom)) && DifferOddly(a, b)
    requires IsCrc16(polynom, initial, a, crcA) && IsCrc16(polynom, initial, b, crcB)
    ensures crcA != crcB
  {
    hide Bits16, MessageBits, Run, Odd, Sum;
    DetectsOddErrorsIff(Bits16(polynom));
  }

  lemma Crc32DetectsOddErrors(polynom: bv32, initial: bv32, a: seq<bv8>, b: seq<bv8>, crcA: bv32, crcB: bv32)
    requires Odd(Bits32(polynom)) && DifferOddly(a, b)
    requires IsCrc32(polynom, initial, a, crcA) && IsCrc32(polynom, initial, b, crcB)
    ensures crcA != crcB
  {
    hide Bits32, MessageBits, Run, Odd, Sum;
    DetectsOddErrorsIff(Bits32(polynom));
  }

  lemma NextIsZero(x: bv32, y: bv32, n: nat)
    requires y == x << 1 && !TopBit(x)
    ensures Top(x, n + 1) == [false] + Top(y, n)
  {
    TopUnfolds(x, n + 1);
    hide TopBit, Top;
  }

  lemma TopOfByteOne()
    ensures Top(0x0100_0000, 8) == Zeros(7) + [true]
  {
    TopUnfolds(0x8000_0000, 1);
    TopEmpty(0);
    hide Top;
    NextIsZero(0x0100_0000, 0x0200_0000, 7);
    NextIsZero(0x0200_0000, 0x0400_0000, 6);
    NextIsZero(0x0400_0000, 0x0800_0000, 5);
    NextIsZero(0x0800_0000, 0x1000_0000, 4);
    NextIsZero(0x1000_0000, 0x2000_0000, 3);
    NextIsZero(0x2000_0000, 0x4000_0000, 2);
    NextIsZero(0x4000_0000, 0x8000_0000, 1);
  }

  lemma BitsOfByteOne()
    ensures MessageBits([1]) == Zeros(7) + [true]
  {
    TopOfByteOne();
    assert Byte(1) == 0x0100_0000;
    hide Top;
    assert MessageBits([1]) == ByteBits(1) + MessageBits([]);
  }

  lemma {:induction false} ZeroBytes(data: seq<bv8>)
    requires forall i | 0 <= i < |data| :: data[i] == 0
    ensures MessageBits(data) == Zeros(8 * |data|)
  {
    if data != [] {
      ZeroBytes(data[1..]);
      TopOfZero(8);
      assert Byte(0) == 0;
      hide Top;
      assert MessageBits(data) == Zeros(8) + Zeros(8 * (|data| - 1));
    }
  }

  lemma ZerosSplit(m: nat, n: nat)
    ensures Zeros(m + n) == Zeros(m) + Zeros(n)
  {
  }

  lemma ConcatAssociates(a: Poly, b: Poly, c: Poly)
    ensures a + (b + c) == a + b + c
  {
  }

  lemma OneInFront(tail: seq<bv8>)
    ensures MessageBits([1] + tail) == Zeros(7) + ([true] + MessageBits(tail))
  {
    hide MessageBits, Zeros;
    MessageBitsConcat([1], tail);
    BitsOfByteOne();
    ConcatAssociates(Zeros(7), [true], MessageBits(tail));
  }

  lemma ZerosInFront(zeros: seq<bv8>)
    requires zeros != [] && forall i | 0 <= i < |zeros| :: zeros[i] == 0
    ensures MessageBits(zeros) == Zeros(7) + Zeros(8 * (|zeros| - 1) + 1)
  {
    hide MessageBits, Zeros;
    ZeroBytes(zeros);
    ZerosSplit(7, 8 * (|zeros| - 1) + 1);
  }

  lemma DivisorBehindZeros(g: Poly, r: Poly, n: nat)
    requires |r| == |g| > 0
    ensures Run(g, r, Zeros(n) + ([true] + g)) == Run(g, r, Zeros(n) + Zeros(|g| + 1))
    ensures Odd(Sum(Zeros(n) + Zeros(|g| + 1), Zeros(n) + ([true] + g))) <==> !Odd(g)
  {
    RunConcat(g, r, Zeros(n), [true] + g);
    RunConcat(g, r, Zeros(n), Zeros(|g| + 1));
    DivisorMissed(g, Run(g, r, Zeros(n)));
    hide Run;
    assert Sum(Zeros(n) + Zeros(|g| + 1), Zeros(n) + ([true] + g)) == Zeros(n) + ([true] + g);
    OddConcat(Zeros(n), [true] + g);
    OddConcat([true], g);
    OddOne(true);
    NoOnes(n);
  }

  /**
   These two messages have the same value, whatever the initial value is, and they differ in an odd
   number of bits exactly if the number of ones is even.
   */
  lemma Crc16MissesDivisor(polynom: bv16, initial: bv16, crc: bv16)
    ensures var a, b := [0, 0, 0], [1] + Bytes16(polynom);
      && (DifferOddly(a, b) <==> !Odd(Bits16(polynom)))
      && (IsCrc16(polynom, initial, a, crc) <==> IsCrc16(polynom, initial, b, crc))
  {
    hide Bits16, MessageBits, Bytes16, Run, Sum, Zeros, Odd;
    BytesBits16(polynom);
    OneInFront(Bytes16(polynom));
    ZerosInFront([0, 0, 0]);
    DivisorBehindZeros(Bits16(polynom), Bits16(initial), 7);
  }

  lemma Crc32MissesDivisor(polynom: bv32, initial: bv32, crc: bv32)
    ensures var a, b := [0, 0, 0, 0, 0], [1] + Bytes32(polynom);
      && (DifferOddly(a, b) <==> !Odd(Bits32(polynom)))
      && (IsCrc32(polynom, initial, a, crc) <==> IsCrc32(polynom, initial, b, crc))
  {
    hide Bits32, MessageBits, Bytes32, Run, Sum, Zeros, Odd;
    BytesBits32(polynom);
    OneInFront(Bytes32(polynom));
    ZerosInFront([0, 0, 0, 0, 0]);
    DivisorBehindZeros(Bits32(polynom), Bits32(initial), 7);
  }

  /** Of the configured polynomials the first one sees every odd error and the second one does not. */
  lemma DefaultsAndOddErrors(a: seq<bv8>, b: seq<bv8>, crcA: bv16, crcB: bv16, long: bv32)
    requires DifferOddly(a, b)
    requires IsCrc16(CRC16_POLYNOM, CRC16_INITIAL, a, crcA) && IsCrc16(CRC16_POLYNOM, CRC16_INITIAL, b, crcB)
    ensures crcA != crcB
    ensures var c, d := [0, 0, 0, 0, 0], [1, 0x04, 0xC1, 0x1D, 0xB7];
      && DifferOddly(c, d)
      && (IsCrc32(CRC32_POLYNOM, CRC32_INITIAL, c, long) <==> IsCrc32(CRC32_POLYNOM, CRC32_INITIAL, d, long))
  {
    hide DifferOddly, IsCrc16, IsCrc32, Bits16, Bits32, Ones;
    OnesOfDefault16();
    Crc16DetectsOddErrors(CRC16_POLYNOM, CRC16_INITIAL, a, b, crcA, crcB);
    OnesOfDefault32();
    Crc32MissesDivisor(CRC32_POLYNOM, CRC32_INITIAL, long);
    assert Bytes32(CRC32_POLYNOM) == [0x04, 0xC1, 0x1D, 0xB7];
    assert [1] + Bytes32(CRC32_POLYNOM) == [1, 0x04, 0xC1, 0x1D, 0xB7];
  }
}
