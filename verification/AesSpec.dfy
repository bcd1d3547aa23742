/**
 AES-256 as FIPS 197 defines it: the cipher of section 5.1, the key expansion of section 5.2
 and the inverse cipher of section 5.3, for a key of eight words and fourteen rounds.
 */
module AesSpec {
  import opened AesField

  /** Four bytes: a word of the key schedule or a column of the state. */
  datatype Word = Word(b0: bv8, b1: bv8, b2: bv8, b3: bv8)

  /** The state: byte r of column c is row r and column c. */
  datatype State = State(c0: Word, c1: Word, c2: Word, c3: Word)

  /** Eight successive words of the key schedule. */
  datatype Window = Window(w0: Word, w1: Word, w2: Word, w3: Word,
                           w4: Word, w5: Word, w6: Word, w7: Word)

  function Xor(a: Word, b: Word): Word {
    Word(Add(a.b0, b.b0), Add(a.b1, b.b1), Add(a.b2, b.b2), Add(a.b3, b.b3))
  }

  lemma XorTwice(a: Word, b: Word)
    ensures Xor(Xor(a, b), b) == a
  {
    hide Add;
    AddTwice(a.b0, b.b0);
    AddTwice(a.b1, b.b1);
    AddTwice(a.b2, b.b2);
    AddTwice(a.b3, b.b3);
  }

  // ---------------------------------------------------------------- transformations

  function SubWord(w: Word): Word {
    Word(SBox(w.b0), SBox(w.b1), SBox(w.b2), SBox(w.b3))
  }

  function InvSubWord(w: Word): Word {
    Word(InvSBox(w.b0), InvSBox(w.b1), InvSBox(w.b2), InvSBox(w.b3))
  }

  function SubBytes(s: State): State {
    State(SubWord(s.c0), SubWord(s.c1), SubWord(s.c2), SubWord(s.c3))
  }

  function InvSubBytes(s: State): State {
    State(InvSubWord(s.c0), InvSubWord(s.c1), InvSubWord(s.c2), InvSubWord(s.c3))
  }

  /** Row r moves left by r columns. */
  function ShiftRows(s: State): State {
    State(Word(s.c0.b0, s.c1.b1, s.c2.b2, s.c3.b3), Word(s.c1.b0, s.c2.b1, s.c3.b2, s.c0.b3),
          Word(s.c2.b0, s.c3.b1, s.c0.b2, s.c1.b3), Word(s.c3.b0, s.c0.b1, s.c1.b2, s.c2.b3))
  }

  /** Row r moves right by r columns. */
  function InvShiftRows(s: State): State {
    State(Word(s.c0.b0, s.c3.b1, s.c2.b2, s.c1.b3), Word(s.c1.b0, s.c0.b1, s.c3.b2, s.c2.b3),
          Word(s.c2.b0, s.c1.b1, s.c0.b2, s.c3.b3), Word(s.c3.b0, s.c2.b1, s.c1.b2, s.c0.b3))
  }

  function Column(s: State, c: nat): Word {
    match c % 4 case 0 => s.c0 case 1 => s.c1 case 2 => s.c2 case _ => s.c3
  }

  function Row(w: Word, r: nat): bv8 {
    match r % 4 case 0 => w.b0 case 1 => w.b1 case 2 => w.b2 case _ => w.b3
  }

  /** The shifts as section 5.1.2 and 5.3.1 state them. */
  lemma ShiftRowsMeans(s: State, r: nat, c: nat)
    requires r < 4 && c < 4
    ensures Row(Column(ShiftRows(s), c), r) == Row(Column(s, (c + r) % 4), r)
    ensures Row(Column(InvShiftRows(s), (c + r) % 4), r) == Row(Column(s, c), r)
  {
    if c == 0 {} else if c == 1 {} else if c == 2 {} else {}
  }

  /** The matrix product of section 5.1.3; every row is the first one, rotated. */
  function MixColumn(w: Word): Word {
    Word(MixRow(w.b0, w.b1, w.b2, w.b3), MixRow(w.b1, w.b2, w.b3, w.b0),
         MixRow(w.b2, w.b3, w.b0, w.b1), MixRow(w.b3, w.b0, w.b1, w.b2))
  }

  function MixRow(a: bv8, b: bv8, c: bv8, d: bv8): bv8 {
    Sum4(Mul(a, 0x02), Mul(b, 0x03), c, d)
  }

  /** The matrix product of section 5.3.3. */
  function InvMixColumn(w: Word): Word {
    Word(InvMixRow(w.b0, w.b1, w.b2, w.b3), InvMixRow(w.b1, w.b2, w.b3, w.b0),
         InvMixRow(w.b2, w.b3, w.b0, w.b1), InvMixRow(w.b3, w.b0, w.b1, w.b2))
  }

  function InvMixRow(a: bv8, b: bv8, c: bv8, d: bv8): bv8 {
    Sum4(Mul(a, 0x0e), Mul(b, 0x0b), Mul(c, 0x0d), Mul(d, 0x09))
  }

  function MixColumns(s: State): State {
    State(MixColumn(s.c0), MixColumn(s.c1), MixColumn(s.c2), MixColumn(s.c3))
  }

  function InvMixColumns(s: State): State {
    State(InvMixColumn(s.c0), InvMixColumn(s.c1), InvMixColumn(s.c2), InvMixColumn(s.c3))
  }

  function AddRoundKey(s: State, k: State): State {
    State(Xor(s.c0, k.c0), Xor(s.c1, k.c1), Xor(s.c2, k.c2), Xor(s.c3, k.c3))
  }

  // ---------------------------------------------------------------- key schedule

  /** x^n in the field. */
  function PowerOfX(n: nat): bv8 {
    if n == 0 then 1 else XTime(PowerOfX(n - 1))
  }

  function RotWord(w: Word): Word {
    Word(w.b1, w.b2, w.b3, w.b0)
  }

  /** The rotation of section 5.2: every byte takes the place of the one before. */
  lemma RotWordMeans(w: Word, r: nat)
    requires r < 4
    ensures Row(RotWord(w), r) == Row(w, (r + 1) % 4)
  {
  }

  function Rcon(j: nat): Word
    requires j > 0
  {
    Word(PowerOfX(j - 1), 0, 0, 0)
  }

  function KeyWord(key: Window, i: nat): Word
    requires i < 8
  {
    match i
    case 0 => key.w0 case 1 => key.w1 case 2 => key.w2 case 3 => key.w3
    case 4 => key.w4 case 5 => key.w5 case 6 => key.w6 case _ => key.w7
  }

  /** The words w[i] of section 5.2. */
  function ScheduleWord(key: Window, i: nat): Word {
    if i < 8 then KeyWord(key, i)
    else
      var temp := ScheduleWord(key, i - 1);
      Xor(ScheduleWord(key, i - 8),
          if i % 8 == 0 then Xor(SubWord(RotWord(temp)), Rcon(i / 8))
          else if i % 8 == 4 then SubWord(temp)
          else temp)
  }

  function RoundKey(key: Window, round: nat): State {
    State(ScheduleWord(key, 4 * round), ScheduleWord(key, 4 * round + 1),
          ScheduleWord(key, 4 * round + 2), ScheduleWord(key, 4 * round + 3))
  }

  /** The words w[8j] up to w[8j + 7]. */
  function WindowAt(key: Window, j: nat): Window {
    Window(ScheduleWord(key, 8 * j), ScheduleWord(key, 8 * j + 1),
           ScheduleWord(key, 8 * j + 2), ScheduleWord(key, 8 * j + 3),
           ScheduleWord(key, 8 * j + 4), ScheduleWord(key, 8 * j + 5),
           ScheduleWord(key, 8 * j + 6), ScheduleWord(key, 8 * j + 7))
  }

  function LowerHalf(w: Window): State {
    State(w.w0, w.w1, w.w2, w.w3)
  }

  function UpperHalf(w: Window): State {
    State(w.w4, w.w5, w.w6, w.w7)
  }

  /** A window holds the round keys of two rounds. */
  lemma WindowRoundKeys(key: Window, j: nat)
    ensures LowerHalf(WindowAt(key, j)) == RoundKey(key, 2 * j)
    ensures UpperHalf(WindowAt(key, j)) == RoundKey(key, 2 * j + 1)
  {
    assert 4 * (2 * j) == 8 * j && 4 * (2 * j + 1) == 8 * j + 4;
  }

  // ---------------------------------------------------------------- cipher

  /** The state after the given number of rounds, each with MixColumns. */
  function Rounds(key: Window, input: State, n: nat): State {
    if n == 0 then AddRoundKey(input, RoundKey(key, 0))
    else AddRoundKey(MixColumns(ShiftRows(SubBytes(Rounds(key, input, n - 1)))), RoundKey(key, n))
  }

  function Cipher(key: Window, input: State): State {
    AddRoundKey(ShiftRows(SubBytes(Rounds(key, input, 13))), RoundKey(key, 14))
  }

  /** The state of the inverse cipher after the rounds 14 down to n. */
  function InvRounds(key: Window, input: State, n: nat): State
    requires 0 < n <= 14
    decreases 14 - n
  {
    if n == 14 then AddRoundKey(input, RoundKey(key, 14))
    else
      InvMixColumns(
        AddRoundKey(InvSubBytes(InvShiftRows(InvRounds(key, input, n + 1))), RoundKey(key, n)))
  }

  function InvCipher(key: Window, input: State): State {
    AddRoundKey(InvSubBytes(InvShiftRows(InvRounds(key, input, 1))), RoundKey(key, 0))
  }

  // ---------------------------------------------------------------- inverses

  lemma SubBytesInverse(s: State)
    ensures InvSubBytes(SubBytes(s)) == s && SubBytes(InvSubBytes(s)) == s
  {
    hide SBox, InvSBox;
    SubWordInverse(s.c0);
    SubWordInverse(s.c1);
    SubWordInverse(s.c2);
    SubWordInverse(s.c3);
    hide SubWord, InvSubWord;
  }

  lemma SubWordInverse(w: Word)
    ensures InvSubWord(SubWord(w)) == w && SubWord(InvSubWord(w)) == w
  {
    hide SBox, InvSBox;
    SBoxInverse(w.b0); SBoxInverse(w.b1); SBoxInverse(w.b2); SBoxInverse(w.b3);
    InvSBoxInverse(w.b0); InvSBoxInverse(w.b1); InvSBoxInverse(w.b2); InvSBoxInverse(w.b3);
  }

  lemma ShiftRowsInverse(s: State)
    ensures InvShiftRows(ShiftRows(s)) == s && ShiftRows(InvShiftRows(s)) == s
  {
  }

  lemma AddRoundKeyTwice(s: State, k: State)
    ensures AddRoundKey(AddRoundKey(s, k), k) == s
  {
    XorTwice(s.c0, k.c0);
    XorTwice(s.c1, k.c1);
    XorTwice(s.c2, k.c2);
    XorTwice(s.c3, k.c3);
    hide Xor;
  }

  // How much one byte of a column contributes to the first byte of the product of both matrices:
  // every product is a sum of doublings of the byte, and these cancel.

  lemma Product0209(a: bv8, x1: bv8, x2: bv8, x3: bv8, x4: bv8)
    requires x1 == XTime(a) && x2 == XTime(x1) && x3 == XTime(x2) && x4 == XTime(x3)
    ensures Mul(Mul(a, 0x02), 0x09) == Add(x4, x1)
  {
    hide Add, Mul, XTime;
    Mul02(a);
    Mul09(x1);
  }

  lemma Product020b(a: bv8, x1: bv8, x2: bv8, x3: bv8, x4: bv8)
    requires x1 == XTime(a) && x2 == XTime(x1) && x3 == XTime(x2) && x4 == XTime(x3)
    ensures Mul(Mul(a, 0x02), 0x0b) == Add(Add(x4, x2), x1)
  {
    hide Add, Mul, XTime;
    Mul02(a);
    Mul0b(x1);
  }

  lemma Product020d(a: bv8, x1: bv8, x2: bv8, x3: bv8, x4: bv8)
    requires x1 == XTime(a) && x2 == XTime(x1) && x3 == XTime(x2) && x4 == XTime(x3)
    ensures Mul(Mul(a, 0x02), 0x0d) == Add(Add(x4, x3), x1)
  {
    hide Add, Mul, XTime;
    Mul02(a);
    Mul0d(x1);
  }

  lemma Product020e(a: bv8, x1: bv8, x2: bv8, x3: bv8, x4: bv8)
    requires x1 == XTime(a) && x2 == XTime(x1) && x3 == XTime(x2) && x4 == XTime(x3)
    ensures Mul(Mul(a, 0x02), 0x0e) == Add(Add(x4, x3), x2)
  {
    hide Add, Mul, XTime;
    Mul02(a);
    Mul0e(x1);
  }

  lemma Product0309(a: bv8, x1: bv8, x2: bv8, x3: bv8, x4: bv8)
    requires x1 == XTime(a) && x2 == XTime(x1) && x3 == XTime(x2) && x4 == XTime(x3)
    ensures Mul(Mul(a, 0x03), 0x09) == Add(Add(x4, x3), Add(x1, a))
  {
    hide Add, Mul, XTime;
    Mul03(a);
    Mul09(Add(x1, a));
    XTimeLinear(x1, a);
    XTimeLinear(x2, x1);
    XTimeLinear(x3, x2);
  }

  lemma Product030b(a: bv8, x1: bv8, x2: bv8, x3: bv8, x4: bv8)
    requires x1 == XTime(a) && x2 == XTime(x1) && x3 == XTime(x2) && x4 == XTime(x3)
    ensures Mul(Mul(a, 0x03), 0x0b) == Add(Add(Add(x4, x3), Add(x2, x1)), Add(x1, a))
  {
    hide Add, Mul, XTime;
    Mul03(a);
    Mul0b(Add(x1, a));
    XTimeLinear(x1, a);
    XTimeLinear(x2, x1);
    XTimeLinear(x3, x2);
  }

  lemma Product030d(a: bv8, x1: bv8, x2: bv8, x3: bv8, x4: bv8)
    requires x1 == XTime(a) && x2 == XTime(x1) && x3 == XTime(x2) && x4 == XTime(x3)
    ensures Mul(Mul(a, 0x03), 0x0d) == Add(Add(Add(x4, x3), Add(x3, x2)), Add(x1, a))
  {
    hide Add, Mul, XTime;
    Mul03(a);
    Mul0d(Add(x1, a));
    XTimeLinear(x1, a);
    XTimeLinear(x2, x1);
    XTimeLinear(x3, x2);
  }

  lemma Product030e(a: bv8, x1: bv8, x2: bv8, x3: bv8, x4: bv8)
    requires x1 == XTime(a) && x2 == XTime(x1) && x3 == XTime(x2) && x4 == XTime(x3)
    ensures Mul(Mul(a, 0x03), 0x0e) == Add(Add(Add(x4, x3), Add(x3, x2)), Add(x2, x1))
  {
    hide Add, Mul, XTime;
    Mul03(a);
    Mul0e(Add(x1, a));
    XTimeLinear(x1, a);
    XTimeLinear(x2, x1);
    XTimeLinear(x3, x2);
  }

  lemma Product0902(a: bv8, x1: bv8, x2: bv8, x3: bv8, x4: bv8)
    requires x1 == XTime(a) && x2 == XTime(x1) && x3 == XTime(x2) && x4 == XTime(x3)
    ensures Mul(Mul(a, 0x09), 0x02) == Add(x4, x1)
  {
    hide Add, Mul, XTime;
    Mul09(a);
    Mul02(Add(x3, a));
    XTimeLinear(x3, a);
  }

  lemma Product0903(a: bv8, x1: bv8, x2: bv8, x3: bv8, x4: bv8)
    requires x1 == XTime(a) && x2 == XTime(x1) && x3 == XTime(x2) && x4 == XTime(x3)
    ensures Mul(Mul(a, 0x09), 0x03) == Add(Add(x4, x1), Add(x3, a))
  {
    hide Add, Mul, XTime;
    Mul09(a);
    Mul03(Add(x3, a));
    XTimeLinear(x3, a);
  }

  lemma Product0b02(a: bv8, x1: bv8, x2: bv8, x3: bv8, x4: bv8)
    requires x1 == XTime(a) && x2 == XTime(x1) && x3 == XTime(x2) && x4 == XTime(x3)
    ensures Mul(Mul(a, 0x0b), 0x02) == Add(Add(x4, x2), x1)
  {
    hide Add, Mul, XTime;
    Mul0b(a);
    Mul02(Add(Add(x3, x1), a));
    XTimeLinear(x3, x1);
    XTimeLinear(Add(x3, x1), a);
  }

  lemma Product0b03(a: bv8, x1: bv8, x2: bv8, x3: bv8, x4: bv8)
    requires x1 == XTime(a) && x2 == XTime(x1) && x3 == XTime(x2) && x4 == XTime(x3)
    ensures Mul(Mul(a, 0x0b), 0x03) == Add(Add(Add(x4, x2), x1), Add(Add(x3, x1), a))
  {
    hide Add, Mul, XTime;
    Mul0b(a);
    Mul03(Add(Add(x3, x1), a));
    XTimeLinear(x3, x1);
    XTimeLinear(Add(x3, x1), a);
  }

  lemma Product0d02(a: bv8, x1: bv8, x2: bv8, x3: bv8, x4: bv8)
    requires x1 == XTime(a) && x2 == XTime(x1) && x3 == XTime(x2) && x4 == XTime(x3)
    ensures Mul(Mul(a, 0x0d), 0x02) == Add(Add(x4, x3), x1)
  {
    hide Add, Mul, XTime;
    Mul0d(a);
    Mul02(Add(Add(x3, x2), a));
    XTimeLinear(x3, x2);
    XTimeLinear(Add(x3, x2), a);
  }

  lemma Product0d03(a: bv8, x1: bv8, x2: bv8, x3: bv8, x4: bv8)
    requires x1 == XTime(a) && x2 == XTime(x1) && x3 == XTime(x2) && x4 == XTime(x3)
    ensures Mul(Mul(a, 0x0d), 0x03) == Add(Add(Add(x4, x3), x1), Add(Add(x3, x2), a))
  {
    hide Add, Mul, XTime;
    Mul0d(a);
    Mul03(Add(Add(x3, x2), a));
    XTimeLinear(x3, x2);
    XTimeLinear(Add(x3, x2), a);
  }

  lemma Product0e02(a: bv8, x1: bv8, x2: bv8, x3: bv8, x4: bv8)
    requires x1 == XTime(a) && x2 == XTime(x1) && x3 == XTime(x2) && x4 == XTime(x3)
    ensures Mul(Mul(a, 0x0e), 0x02) == Add(Add(x4, x3), x2)
  {
    hide Add, Mul, XTime;
    Mul0e(a);
    Mul02(Add(Add(x3, x2), x1));
    XTimeLinear(x3, x2);
    XTimeLinear(Add(x3, x2), x1);
  }

  lemma Product0e03(a: bv8, x1: bv8, x2: bv8, x3: bv8, x4: bv8)
    requires x1 == XTime(a) && x2 == XTime(x1) && x3 == XTime(x2) && x4 == XTime(x3)
    ensures Mul(Mul(a, 0x0e), 0x03) == Add(Add(Add(x4, x3), x2), Add(Add(x3, x2), x1))
  {
    hide Add, Mul, XTime;
    Mul0e(a);
    Mul03(Add(Add(x3, x2), x1));
    XTimeLinear(x3, x2);
    XTimeLinear(Add(x3, x2), x1);
  }

  lemma ForthCancelsA(a: bv8, x1: bv8, x2: bv8, x3: bv8, x4: bv8)
    ensures Sum4(Add(Add(x4, x3), x2),
                 Add(Add(x3, x1), a),
                 Add(Add(x3, x2), a),
                 Add(Add(x4, x3), Add(x1, a))) == a
  {
    assert (((x4 ^ x3) ^ x2) ^ ((x3 ^ x1) ^ a)) ^ (((x3 ^ x2) ^ a) ^ ((x4 ^ x3) ^ (x1 ^ a))) == a;
  }

  lemma ForthA(a: bv8)
    ensures Sum4(Mul(Mul(a, 0x02), 0x0e), Mul(a, 0x0b), Mul(a, 0x0d), Mul(Mul(a, 0x03), 0x09)) == a
  {
    hide Add, Sum4, Mul, XTime;
    var x1 := XTime(a);
    var x2 := XTime(x1);
    var x3 := XTime(x2);
    var x4 := XTime(x3);
    Product020e(a, x1, x2, x3, x4);
    Mul0b(a);
    Mul0d(a);
    Product0309(a, x1, x2, x3, x4);
    ForthCancelsA(a, x1, x2, x3, x4);
  }

  lemma ForthCancelsB(a: bv8, x1: bv8, x2: bv8, x3: bv8, x4: bv8)
    ensures Sum4(Add(Add(Add(x4, x3), Add(x3, x2)), Add(x2, x1)),
                 Add(Add(x4, x2), x1),
                 Add(Add(x3, x2), a),
                 Add(x3, a)) == 0
  {
    assert ((((x4 ^ x3) ^ (x3 ^ x2)) ^ (x2 ^ x1)) ^ ((x4 ^ x2) ^ x1)) ^ (((x3 ^ x2) ^ a) ^ (x3 ^ a)) == 0;
  }

  lemma ForthB(a: bv8)
    ensures Sum4(Mul(Mul(a, 0x03), 0x0e), Mul(Mul(a, 0x02), 0x0b), Mul(a, 0x0d), Mul(a, 0x09)) == 0
  {
    hide Add, Sum4, Mul, XTime;
    var x1 := XTime(a);
    var x2 := XTime(x1);
    var x3 := XTime(x2);
    var x4 := XTime(x3);
    Product030e(a, x1, x2, x3, x4);
    Product020b(a, x1, x2, x3, x4);
    Mul0d(a);
    Mul09(a);
    ForthCancelsB(a, x1, x2, x3, x4);
  }

  lemma ForthCancelsC(a: bv8, x1: bv8, x2: bv8, x3: bv8, x4: bv8)
    ensures Sum4(Add(Add(x3, x2), x1),
                 Add(Add(Add(x4, x3), Add(x2, x1)), Add(x1, a)),
                 Add(Add(x4, x3), x1),
                 Add(x3, a)) == 0
  {
    assert (((x3 ^ x2) ^ x1) ^ (((x4 ^ x3) ^ (x2 ^ x1)) ^ (x1 ^ a))) ^ (((x4 ^ x3) ^ x1) ^ (x3 ^ a)) == 0;
  }

  lemma ForthC(a: bv8)
    ensures Sum4(Mul(a, 0x0e), Mul(Mul(a, 0x03), 0x0b), Mul(Mul(a, 0x02), 0x0d), Mul(a, 0x09)) == 0
  {
    hide Add, Sum4, Mul, XTime;
    var x1 := XTime(a);
    var x2 := XTime(x1);
    var x3 := XTime(x2);
    var x4 := XTime(x3);
    Mul0e(a);
    Product030b(a, x1, x2, x3, x4);
    Product020d(a, x1, x2, x3, x4);
    Mul09(a);
    ForthCancelsC(a, x1, x2, x3, x4);
  }

  lemma ForthCancelsD(a: bv8, x1: bv8, x2: bv8, x3: bv8, x4: bv8)
    ensures Sum4(Add(Add(x3, x2), x1),
                 Add(Add(x3, x1), a),
                 Add(Add(Add(x4, x3), Add(x3, x2)), Add(x1, a)),
                 Add(x4, x1)) == 0
  {
    assert (((x3 ^ x2) ^ x1) ^ ((x3 ^ x1) ^ a)) ^ ((((x4 ^ x3) ^ (x3 ^ x2)) ^ (x1 ^ a)) ^ (x4 ^ x1)) == 0;
  }

  lemma ForthD(a: bv8)
    ensures Sum4(Mul(a, 0x0e), Mul(a, 0x0b), Mul(Mul(a, 0x03), 0x0d), Mul(Mul(a, 0x02), 0x09)) == 0
  {
    hide Add, Sum4, Mul, XTime;
    var x1 := XTime(a);
    var x2 := XTime(x1);
    var x3 := XTime(x2);
    var x4 := XTime(x3);
    Mul0e(a);
    Mul0b(a);
    Product030d(a, x1, x2, x3, x4);
    Product0209(a, x1, x2, x3, x4);
    ForthCancelsD(a, x1, x2, x3, x4);
  }

  lemma BackCancelsA(a: bv8, x1: bv8, x2: bv8, x3: bv8, x4: bv8)
    ensures Sum4(Add(Add(x4, x3), x2),
                 Add(Add(x4, x1), Add(x3, a)),
                 Add(Add(x3, x2), a),
                 Add(Add(x3, x1), a)) == a
  {
    assert (((x4 ^ x3) ^ x2) ^ ((x4 ^ x1) ^ (x3 ^ a))) ^ (((x3 ^ x2) ^ a) ^ ((x3 ^ x1) ^ a)) == a;
  }

  lemma BackA(a: bv8)
    ensures Sum4(Mul(Mul(a, 0x0e), 0x02), Mul(Mul(a, 0x09), 0x03), Mul(a, 0x0d), Mul(a, 0x0b)) == a
  {
    hide Add, Sum4, Mul, XTime;
    var x1 := XTime(a);
    var x2 := XTime(x1);
    var x3 := XTime(x2);
    var x4 := XTime(x3);
    Product0e02(a, x1, x2, x3, x4);
    Product0903(a, x1, x2, x3, x4);
    Mul0d(a);
    Mul0b(a);
    BackCancelsA(a, x1, x2, x3, x4);
  }

  lemma BackCancelsB(a: bv8, x1: bv8, x2: bv8, x3: bv8, x4: bv8)
    ensures Sum4(Add(Add(x4, x2), x1),
                 Add(Add(Add(x4, x3), x2), Add(Add(x3, x2), x1)),
                 Add(x3, a),
                 Add(Add(x3, x2), a)) == 0
  {
    assert (((x4 ^ x2) ^ x1) ^ (((x4 ^ x3) ^ x2) ^ ((x3 ^ x2) ^ x1))) ^ ((x3 ^ a) ^ ((x3 ^ x2) ^ a)) == 0;
  }

  lemma BackB(a: bv8)
    ensures Sum4(Mul(Mul(a, 0x0b), 0x02), Mul(Mul(a, 0x0e), 0x03), Mul(a, 0x09), Mul(a, 0x0d)) == 0
  {
    hide Add, Sum4, Mul, XTime;
    var x1 := XTime(a);
    var x2 := XTime(x1);
    var x3 := XTime(x2);
    var x4 := XTime(x3);
    Product0b02(a, x1, x2, x3, x4);
    Product0e03(a, x1, x2, x3, x4);
    Mul09(a);
    Mul0d(a);
    BackCancelsB(a, x1, x2, x3, x4);
  }

  lemma BackCancelsC1(a: bv8, x1: bv8, x2: bv8, x3: bv8, x4: bv8)
    ensures Add(Add(Add(x4, x3), x1), Add(Add(Add(x4, x2), x1), Add(Add(x3, x1), a))) == Add(Add(x2, x1), a)
  {
    assert ((x4 ^ x3) ^ x1) ^ (((x4 ^ x2) ^ x1) ^ ((x3 ^ x1) ^ a)) == (x2 ^ x1) ^ a;
  }

  lemma BackCancelsC2(a: bv8, x1: bv8, x2: bv8, x3: bv8)
    ensures Add(Add(Add(x3, x2), x1), Add(x3, a)) == Add(Add(x2, x1), a)
  {
    hide Add;
    AddAssociates(x3, x2, x1);
    AddPairs(x3, Add(x2, x1), x3, a);
    SelfCancels(x3);
    ZeroAdded(Add(Add(x2, x1), a));
  }

  lemma SelfCancels(a: bv8)
    ensures Add(a, a) == 0
  {
  }

  lemma ZeroAdded(a: bv8)
    ensures Add(0, a) == a
  {
  }

  lemma BackCancelsC(a: bv8, x1: bv8, x2: bv8, x3: bv8, x4: bv8)
    ensures Sum4(Add(Add(x4, x3), x1),
                 Add(Add(Add(x4, x2), x1), Add(Add(x3, x1), a)),
                 Add(Add(x3, x2), x1),
                 Add(x3, a)) == 0
  {
    hide Add;
    BackCancelsC1(a, x1, x2, x3, x4);
    BackCancelsC2(a, x1, x2, x3);
    SelfCancels(Add(Add(x2, x1), a));
  }

  lemma BackC(a: bv8)
    ensures Sum4(Mul(Mul(a, 0x0d), 0x02), Mul(Mul(a, 0x0b), 0x03), Mul(a, 0x0e), Mul(a, 0x09)) == 0
  {
    hide Add, Sum4, Mul, XTime;
    var x1 := XTime(a);
    var x2 := XTime(x1);
    var x3 := XTime(x2);
    var x4 := XTime(x3);
    Product0d02(a, x1, x2, x3, x4);
    Product0b03(a, x1, x2, x3, x4);
    Mul0e(a);
    Mul09(a);
    BackCancelsC(a, x1, x2, x3, x4);
  }

  lemma BackCancelsD(a: bv8, x1: bv8, x2: bv8, x3: bv8, x4: bv8)
    ensures Sum4(Add(x4, x1),
                 Add(Add(Add(x4, x3), x1), Add(Add(x3, x2), a)),
                 Add(Add(x3, x1), a),
                 Add(Add(x3, x2), x1)) == 0
  {
    assert ((x4 ^ x1) ^ (((x4 ^ x3) ^ x1) ^ ((x3 ^ x2) ^ a))) ^ (((x3 ^ x1) ^ a) ^ ((x3 ^ x2) ^ x1)) == 0;
  }

  lemma BackD(a: bv8)
    ensures Sum4(Mul(Mul(a, 0x09), 0x02), Mul(Mul(a, 0x0d), 0x03), Mul(a, 0x0b), Mul(a, 0x0e)) == 0
  {
    hide Add, Sum4, Mul, XTime;
    var x1 := XTime(a);
    var x2 := XTime(x1);
    var x3 := XTime(x2);
    var x4 := XTime(x3);
    Product0902(a, x1, x2, x3, x4);
    Product0d03(a, x1, x2, x3, x4);
    Mul0b(a);
    Mul0e(a);
    BackCancelsD(a, x1, x2, x3, x4);
  }

  /** The inverse matrix undoes the matrix, in the first row. */
  lemma MixRowForth(a: bv8, b: bv8, c: bv8, d: bv8)
    ensures InvMixRow(MixRow(a, b, c, d), MixRow(b, c, d, a), MixRow(c, d, a, b), MixRow(d, a, b, c)) == a
  {
    hide Mul, Sum4;
    Sum0e(Mul(a, 0x02), Mul(b, 0x03), c, d);
    Sum0b(Mul(b, 0x02), Mul(c, 0x03), d, a);
    Sum0d(Mul(c, 0x02), Mul(d, 0x03), a, b);
    Sum09(Mul(d, 0x02), Mul(a, 0x03), b, c);
    SumRotated(Mul(a, 0x0b), Mul(Mul(b, 0x02), 0x0b), Mul(Mul(c, 0x03), 0x0b), Mul(d, 0x0b));
    SumRotated(Mul(a, 0x0d), Mul(b, 0x0d), Mul(Mul(c, 0x02), 0x0d), Mul(Mul(d, 0x03), 0x0d));
    SumRotated(Mul(b, 0x0d), Mul(Mul(c, 0x02), 0x0d), Mul(Mul(d, 0x03), 0x0d), Mul(a, 0x0d));
    SumRotated(Mul(Mul(d, 0x02), 0x09), Mul(Mul(a, 0x03), 0x09), Mul(b, 0x09), Mul(c, 0x09));
    AddTransposed(Mul(Mul(a, 0x02), 0x0e), Mul(a, 0x0b), Mul(a, 0x0d), Mul(Mul(a, 0x03), 0x09),
                  Mul(Mul(b, 0x03), 0x0e), Mul(Mul(b, 0x02), 0x0b), Mul(b, 0x0d), Mul(b, 0x09),
                  Mul(c, 0x0e), Mul(Mul(c, 0x03), 0x0b), Mul(Mul(c, 0x02), 0x0d), Mul(c, 0x09),
                  Mul(d, 0x0e), Mul(d, 0x0b), Mul(Mul(d, 0x03), 0x0d), Mul(Mul(d, 0x02), 0x09));
    ForthA(a);
    ForthB(b);
    ForthC(c);
    ForthD(d);
    SumOfOne(a);
  }

  /** The matrix undoes the inverse matrix, in the first row. */
  lemma MixRowBack(a: bv8, b: bv8, c: bv8, d: bv8)
    ensures MixRow(InvMixRow(a, b, c, d), InvMixRow(b, c, d, a), InvMixRow(c, d, a, b), InvMixRow(d, a, b, c))
            == a
  {
    hide Mul, Sum4;
    Sum02(Mul(a, 0x0e), Mul(b, 0x0b), Mul(c, 0x0d), Mul(d, 0x09));
    Sum03(Mul(b, 0x0e), Mul(c, 0x0b), Mul(d, 0x0d), Mul(a, 0x09));
    SumRotated(Mul(Mul(a, 0x09), 0x03), Mul(Mul(b, 0x0e), 0x03), Mul(Mul(c, 0x0b), 0x03), Mul(Mul(d, 0x0d), 0x03));
    SumRotated(Mul(a, 0x0d), Mul(b, 0x09), Mul(c, 0x0e), Mul(d, 0x0b));
    SumRotated(Mul(b, 0x09), Mul(c, 0x0e), Mul(d, 0x0b), Mul(a, 0x0d));
    SumRotated(Mul(d, 0x0e), Mul(a, 0x0b), Mul(b, 0x0d), Mul(c, 0x09));
    AddTransposed(Mul(Mul(a, 0x0e), 0x02), Mul(Mul(a, 0x09), 0x03), Mul(a, 0x0d), Mul(a, 0x0b),
                  Mul(Mul(b, 0x0b), 0x02), Mul(Mul(b, 0x0e), 0x03), Mul(b, 0x09), Mul(b, 0x0d),
                  Mul(Mul(c, 0x0d), 0x02), Mul(Mul(c, 0x0b), 0x03), Mul(c, 0x0e), Mul(c, 0x09),
                  Mul(Mul(d, 0x09), 0x02), Mul(Mul(d, 0x0d), 0x03), Mul(d, 0x0b), Mul(d, 0x0e));
    BackA(a);
    BackB(b);
    BackC(c);
    BackD(d);
    SumOfOne(a);
  }

  lemma MixColumnInverse(w: Word)
    ensures InvMixColumn(MixColumn(w)) == w && MixColumn(InvMixColumn(w)) == w
  {
    hide MixRow, InvMixRow;
    MixRowForth(w.b0, w.b1, w.b2, w.b3);
    MixRowForth(w.b1, w.b2, w.b3, w.b0);
    MixRowForth(w.b2, w.b3, w.b0, w.b1);
    MixRowForth(w.b3, w.b0, w.b1, w.b2);
    MixRowBack(w.b0, w.b1, w.b2, w.b3);
    MixRowBack(w.b1, w.b2, w.b3, w.b0);
    MixRowBack(w.b2, w.b3, w.b0, w.b1);
    MixRowBack(w.b3, w.b0, w.b1, w.b2);
  }

  lemma MixColumnsInverse(s: State)
    ensures InvMixColumns(MixColumns(s)) == s && MixColumns(InvMixColumns(s)) == s
  {
    MixColumnInverse(s.c0);
    MixColumnInverse(s.c1);
    MixColumnInverse(s.c2);
    MixColumnInverse(s.c3);
    hide MixColumn, InvMixColumn;
  }

  /** Deciphering goes through the states of the enciphering backwards. */
  lemma {:induction false} DecipherRetraces(key: Window, input: State, n: nat)
    requires 0 < n <= 14
    ensures InvSubBytes(InvShiftRows(InvRounds(key, Cipher(key, input), n)))
            == Rounds(key, input, n - 1)
    decreases 14 - n
  {
    hide SubBytes, InvSubBytes, ShiftRows, InvShiftRows, AddRoundKey, MixColumns, InvMixColumns, RoundKey;
    var before := Rounds(key, input, n - 1);
    var mixed := ShiftRows(SubBytes(before));
    SubBytesInverse(before);
    ShiftRowsInverse(SubBytes(before));
    if n == 14 {
      AddRoundKeyTwice(mixed, RoundKey(key, 14));
    } else {
      DecipherRetraces(key, input, n + 1);
      AddRoundKeyTwice(MixColumns(mixed), RoundKey(key, n));
      MixColumnsInverse(mixed);
    }
  }

  /** For every key and every block, the inverse cipher undoes the cipher. */
  lemma InvCipherUndoesCipher(key: Window, input: State)
    ensures InvCipher(key, Cipher(key, input)) == input
  {
    hide SubBytes, InvSubBytes, ShiftRows, InvShiftRows, AddRoundKey, RoundKey, Cipher, InvRounds;
    DecipherRetraces(key, input, 1);
    AddRoundKeyTwice(input, RoundKey(key, 0));
  }

  /** Enciphering goes through the states of the deciphering backwards. */
  lemma {:induction false} EncipherRetraces(key: Window, input: State, n: nat)
    requires n < 14
    ensures Rounds(key, InvCipher(key, input), n)
            == InvSubBytes(InvShiftRows(InvRounds(key, input, n + 1)))
  {
    hide SubBytes, InvSubBytes, ShiftRows, InvShiftRows, AddRoundKey, MixColumns, InvMixColumns, RoundKey;
    var mixed := InvRounds(key, input, n + 1);
    if n == 0 {
      AddRoundKeyTwice(InvSubBytes(InvShiftRows(mixed)), RoundKey(key, 0));
    } else {
      EncipherRetraces(key, input, n - 1);
      var after := InvSubBytes(InvShiftRows(mixed));
      SubBytesInverse(InvShiftRows(InvRounds(key, input, n)));
      ShiftRowsInverse(InvRounds(key, input, n));
      MixColumnsInverse(AddRoundKey(after, RoundKey(key, n)));
      AddRoundKeyTwice(after, RoundKey(key, n));
    }
  }

  /** For every key and every block, the cipher undoes the inverse cipher. */
  lemma CipherUndoesInvCipher(key: Window, input: State)
    ensures Cipher(key, InvCipher(key, input)) == input
  {
    hide SubBytes, InvSubBytes, ShiftRows, InvShiftRows, AddRoundKey, RoundKey, InvCipher;
    EncipherRetraces(key, input, 13);
    var keyed := AddRoundKey(input, RoundKey(key, 14));
    SubBytesInverse(InvShiftRows(keyed));
    ShiftRowsInverse(keyed);
    AddRoundKeyTwice(input, RoundKey(key, 14));
  }
}
