/**
 The example vector of appendix C.3 of FIPS 197: one key, one block and its cipher.  It fixes what
 no law of the cipher does: the rotation, the round constants and the number of words of the key
 schedule, the matrix, the number of rounds and where the bytes of a block and of a key belong.
 */
module AesVector {
  import opened AesField
  import opened AesSpec
  import opened Aes
  import opened Crypto

  // ---------------------------------------------------------------- the key schedule

  // WINDOW_j holds the words w[8j] to w[8j + 7]; of the last one only four are used.
  const WINDOW_0 :=
    Window(Word(0x00, 0x01, 0x02, 0x03), Word(0x04, 0x05, 0x06, 0x07),
           Word(0x08, 0x09, 0x0a, 0x0b), Word(0x0c, 0x0d, 0x0e, 0x0f),
           Word(0x10, 0x11, 0x12, 0x13), Word(0x14, 0x15, 0x16, 0x17),
           Word(0x18, 0x19, 0x1a, 0x1b), Word(0x1c, 0x1d, 0x1e, 0x1f))

  const WINDOW_1 :=
    Window(Word(0xa5, 0x73, 0xc2, 0x9f), Word(0xa1, 0x76, 0xc4, 0x98),
           Word(0xa9, 0x7f, 0xce, 0x93), Word(0xa5, 0x72, 0xc0, 0x9c),
           Word(0x16, 0x51, 0xa8, 0xcd), Word(0x02, 0x44, 0xbe, 0xda),
           Word(0x1a, 0x5d, 0xa4, 0xc1), Word(0x06, 0x40, 0xba, 0xde))

  const WINDOW_2 :=
    Window(Word(0xae, 0x87, 0xdf, 0xf0), Word(0x0f, 0xf1, 0x1b, 0x68),
           Word(0xa6, 0x8e, 0xd5, 0xfb), Word(0x03, 0xfc, 0x15, 0x67),
           Word(0x6d, 0xe1, 0xf1, 0x48), Word(0x6f, 0xa5, 0x4f, 0x92),
           Word(0x75, 0xf8, 0xeb, 0x53), Word(0x73, 0xb8, 0x51, 0x8d))

  const WINDOW_3 :=
    Window(Word(0xc6, 0x56, 0x82, 0x7f), Word(0xc9, 0xa7, 0x99, 0x17),
           Word(0x6f, 0x29, 0x4c, 0xec), Word(0x6c, 0xd5, 0x59, 0x8b),
           Word(0x3d, 0xe2, 0x3a, 0x75), Word(0x52, 0x47, 0x75, 0xe7),
           Word(0x27, 0xbf, 0x9e, 0xb4), Word(0x54, 0x07, 0xcf, 0x39))

  const WINDOW_4 :=
    Window(Word(0x0b, 0xdc, 0x90, 0x5f), Word(0xc2, 0x7b, 0x09, 0x48),
           Word(0xad, 0x52, 0x45, 0xa4), Word(0xc1, 0x87, 0x1c, 0x2f),
           Word(0x45, 0xf5, 0xa6, 0x60), Word(0x17, 0xb2, 0xd3, 0x87),
           Word(0x30, 0x0d, 0x4d, 0x33), Word(0x64, 0x0a, 0x82, 0x0a))

  const WINDOW_5 :=
    Window(Word(0x7c, 0xcf, 0xf7, 0x1c), Word(0xbe, 0xb4, 0xfe, 0x54),
           Word(0x13, 0xe6, 0xbb, 0xf0), Word(0xd2, 0x61, 0xa7, 0xdf),
           Word(0xf0, 0x1a, 0xfa, 0xfe), Word(0xe7, 0xa8, 0x29, 0x79),
           Word(0xd7, 0xa5, 0x64, 0x4a), Word(0xb3, 0xaf, 0xe6, 0x40))

  const WINDOW_6 :=
    Window(Word(0x25, 0x41, 0xfe, 0x71), Word(0x9b, 0xf5, 0x00, 0x25),
           Word(0x88, 0x13, 0xbb, 0xd5), Word(0x5a, 0x72, 0x1c, 0x0a),
           Word(0x4e, 0x5a, 0x66, 0x99), Word(0xa9, 0xf2, 0x4f, 0xe0),
           Word(0x7e, 0x57, 0x2b, 0xaa), Word(0xcd, 0xf8, 0xcd, 0xea))

  const WINDOW_7 :=
    Window(Word(0x24, 0xfc, 0x79, 0xcc), Word(0xbf, 0x09, 0x79, 0xe9),
           Word(0x37, 0x1a, 0xc2, 0x3c), Word(0x6d, 0x68, 0xde, 0x36),
           Word(0x72, 0x1f, 0x7b, 0x9c), Word(0xdb, 0xed, 0x34, 0x7c),
           Word(0xa5, 0xba, 0x1f, 0xd6), Word(0x68, 0x42, 0xd2, 0x3c))

  lemma NextWindowIs(j: nat, w: Window, rc: bv8, next: Window)
    requires WindowAt(WINDOW_0, j) == w && PowerOfX(j) == rc && NextWindow(w, rc) == next
    ensures WindowAt(WINDOW_0, j + 1) == next && PowerOfX(j + 1) == XTime(rc)
  {
    WindowAdvances(WINDOW_0, j);
    hide WindowAt, NextWindow, XTime;
  }

  lemma Step0()
    ensures NextWindow(WINDOW_0, 0x01) == WINDOW_1
  {
  }

  lemma Step1()
    ensures NextWindow(WINDOW_1, 0x02) == WINDOW_2
  {
  }

  lemma Step2()
    ensures NextWindow(WINDOW_2, 0x04) == WINDOW_3
  {
  }

  lemma Step3()
    ensures NextWindow(WINDOW_3, 0x08) == WINDOW_4
  {
  }

  lemma Step4()
    ensures NextWindow(WINDOW_4, 0x10) == WINDOW_5
  {
  }

  lemma Step5()
    ensures NextWindow(WINDOW_5, 0x20) == WINDOW_6
  {
  }

  lemma Step6()
    ensures NextWindow(WINDOW_6, 0x40) == WINDOW_7
  {
  }

  lemma Doublings()
    ensures XTime(0x01) == 0x02 && XTime(0x02) == 0x04 && XTime(0x04) == 0x08
    ensures XTime(0x08) == 0x10 && XTime(0x10) == 0x20 && XTime(0x20) == 0x40
  {
  }

  lemma Window0()
    ensures WindowAt(WINDOW_0, 0) == WINDOW_0 && PowerOfX(0) == 0x01
  {
    FirstWindow(WINDOW_0);
    hide WindowAt;
  }

  lemma Window1()
    ensures WindowAt(WINDOW_0, 1) == WINDOW_1 && PowerOfX(1) == 0x02
  {
    hide WindowAt, NextWindow, XTime, PowerOfX;
    Window0();
    Step0();
    Doublings();
    NextWindowIs(0, WINDOW_0, 0x01, WINDOW_1);
  }

  lemma Window2()
    ensures WindowAt(WINDOW_0, 2) == WINDOW_2 && PowerOfX(2) == 0x04
  {
    hide WindowAt, NextWindow, XTime, PowerOfX;
    Window1();
    Step1();
    Doublings();
    NextWindowIs(1, WINDOW_1, 0x02, WINDOW_2);
  }

  lemma Window3()
    ensures WindowAt(WINDOW_0, 3) == WINDOW_3 && PowerOfX(3) == 0x08
  {
    hide WindowAt, NextWindow, XTime, PowerOfX;
    Window2();
    Step2();
    Doublings();
    NextWindowIs(2, WINDOW_2, 0x04, WINDOW_3);
  }

  lemma Window4()
    ensures WindowAt(WINDOW_0, 4) == WINDOW_4 && PowerOfX(4) == 0x10
  {
    hide WindowAt, NextWindow, XTime, PowerOfX;
    Window3();
    Step3();
    Doublings();
    NextWindowIs(3, WINDOW_3, 0x08, WINDOW_4);
  }

  lemma Window5()
    ensures WindowAt(WINDOW_0, 5) == WINDOW_5 && PowerOfX(5) == 0x20
  {
    hide WindowAt, NextWindow, XTime, PowerOfX;
    Window4();
    Step4();
    Doublings();
    NextWindowIs(4, WINDOW_4, 0x10, WINDOW_5);
  }

  lemma Window6()
    ensures WindowAt(WINDOW_0, 6) == WINDOW_6 && PowerOfX(6) == 0x40
  {
    hide WindowAt, NextWindow, XTime, PowerOfX;
    Window5();
    Step5();
    Doublings();
    NextWindowIs(5, WINDOW_5, 0x20, WINDOW_6);
  }

  lemma Window7()
    ensures WindowAt(WINDOW_0, 7) == WINDOW_7
  {
    hide WindowAt, NextWindow, XTime, PowerOfX;
    Window6();
    Step6();
    Doublings();
    NextWindowIs(6, WINDOW_6, 0x40, WINDOW_7);
  }

  // ---------------------------------------------------------------- the rounds

  const BLOCK :=
    State(Word(0x00, 0x11, 0x22, 0x33), Word(0x44, 0x55, 0x66, 0x77),
          Word(0x88, 0x99, 0xaa, 0xbb), Word(0xcc, 0xdd, 0xee, 0xff))

  const STATE_0 :=
    State(Word(0x00, 0x10, 0x20, 0x30), Word(0x40, 0x50, 0x60, 0x70),
          Word(0x80, 0x90, 0xa0, 0xb0), Word(0xc0, 0xd0, 0xe0, 0xf0))

  const STATE_1 :=
    State(Word(0x4f, 0x63, 0x76, 0x06), Word(0x43, 0xe0, 0xaa, 0x85),
          Word(0xef, 0xa7, 0x21, 0x32), Word(0x01, 0xa4, 0xe7, 0x05))

  const STATE_2 :=
    State(Word(0x18, 0x59, 0xfb, 0xc2), Word(0x8a, 0x1c, 0x00, 0xa0),
          Word(0x78, 0xed, 0x8a, 0xad), Word(0xc4, 0x2f, 0x61, 0x09))

  const STATE_3 :=
    State(Word(0x97, 0x5c, 0x66, 0xc1), Word(0xcb, 0x9f, 0x3f, 0xa8),
          Word(0xa9, 0x3a, 0x28, 0xdf), Word(0x8e, 0xe1, 0x0f, 0x63))

  const STATE_4 :=
    State(Word(0x1c, 0x05, 0xf2, 0x71), Word(0xa4, 0x17, 0xe0, 0x4f),
          Word(0xf9, 0x21, 0xc5, 0xc1), Word(0x04, 0x70, 0x15, 0x54))

  const STATE_5 :=
    State(Word(0xc3, 0x57, 0xaa, 0xe1), Word(0x1b, 0x45, 0xb7, 0xb0),
          Word(0xa2, 0xc7, 0xbd, 0x28), Word(0xa8, 0xdc, 0x99, 0xfa))

  const STATE_6 :=
    State(Word(0x7f, 0x07, 0x41, 0x43), Word(0xcb, 0x4e, 0x24, 0x3e),
          Word(0xc1, 0x0c, 0x81, 0x5d), Word(0x83, 0x75, 0xd5, 0x4c))

  const STATE_7 :=
    State(Word(0xd6, 0x53, 0xa4, 0x69), Word(0x6c, 0xa0, 0xbc, 0x0f),
          Word(0x5a, 0xca, 0xab, 0x5d), Word(0xb9, 0x6c, 0x5e, 0x7d))

  const STATE_8 :=
    State(Word(0x5a, 0xa8, 0x58, 0x39), Word(0x5f, 0xd2, 0x8d, 0x7d),
          Word(0x05, 0xe1, 0xa3, 0x88), Word(0x68, 0xf3, 0xb9, 0xc5))

  const STATE_9 :=
    State(Word(0x4a, 0x82, 0x48, 0x51), Word(0xc5, 0x7e, 0x7e, 0x47),
          Word(0x64, 0x3d, 0xe5, 0x0c), Word(0x2a, 0xf3, 0xe8, 0xc9))

  const STATE_10 :=
    State(Word(0xc1, 0x49, 0x07, 0xf6), Word(0xca, 0x3b, 0x3a, 0xa0),
          Word(0x70, 0xe9, 0xaa, 0x31), Word(0x3b, 0x52, 0xb5, 0xec))

  const STATE_11 :=
    State(Word(0x5f, 0x9c, 0x6a, 0xbf), Word(0xba, 0xc6, 0x34, 0xaa),
          Word(0x50, 0x40, 0x9f, 0xa7), Word(0x66, 0x67, 0x76, 0x53))

  const STATE_12 :=
    State(Word(0x51, 0x66, 0x04, 0x95), Word(0x43, 0x53, 0x95, 0x03),
          Word(0x14, 0xfb, 0x86, 0xe4), Word(0x01, 0x92, 0x25, 0x21))

  const STATE_13 :=
    State(Word(0x62, 0x7b, 0xce, 0xb9), Word(0x99, 0x9d, 0x5a, 0xaa),
          Word(0xc9, 0x45, 0xec, 0xf4), Word(0x23, 0xf5, 0x6d, 0xa5))

  const CIPHER :=
    State(Word(0x8e, 0xa2, 0xb7, 0xca), Word(0x51, 0x67, 0x45, 0xbf),
          Word(0xea, 0xfc, 0x49, 0x90), Word(0x4b, 0x49, 0x60, 0x89))

  lemma Round0()
    ensures AddRoundKey(BLOCK, LowerHalf(WINDOW_0)) == STATE_0
  {
  }

  lemma Round1()
    ensures AddRoundKey(MixColumns(ShiftRows(SubBytes(STATE_0))), UpperHalf(WINDOW_0)) == STATE_1
  {
  }

  lemma Round2()
    ensures AddRoundKey(MixColumns(ShiftRows(SubBytes(STATE_1))), LowerHalf(WINDOW_1)) == STATE_2
  {
  }

  lemma Round3()
    ensures AddRoundKey(MixColumns(ShiftRows(SubBytes(STATE_2))), UpperHalf(WINDOW_1)) == STATE_3
  {
  }

  lemma Round4()
    ensures AddRoundKey(MixColumns(ShiftRows(SubBytes(STATE_3))), LowerHalf(WINDOW_2)) == STATE_4
  {
  }

  lemma Round5()
    ensures AddRoundKey(MixColumns(ShiftRows(SubBytes(STATE_4))), UpperHalf(WINDOW_2)) == STATE_5
  {
  }

  lemma Round6()
    ensures AddRoundKey(MixColumns(ShiftRows(SubBytes(STATE_5))), LowerHalf(WINDOW_3)) == STATE_6
  {
  }

  lemma Round7()
    ensures AddRoundKey(MixColumns(ShiftRows(SubBytes(STATE_6))), UpperHalf(WINDOW_3)) == STATE_7
  {
  }

  lemma Round8()
    ensures AddRoundKey(MixColumns(ShiftRows(SubBytes(STATE_7))), LowerHalf(WINDOW_4)) == STATE_8
  {
  }

  lemma Round9()
    ensures AddRoundKey(MixColumns(ShiftRows(SubBytes(STATE_8))), UpperHalf(WINDOW_4)) == STATE_9
  {
  }

  lemma Round10()
    ensures AddRoundKey(MixColumns(ShiftRows(SubBytes(STATE_9))), LowerHalf(WINDOW_5)) == STATE_10
  {
  }

  lemma Round11()
    ensures AddRoundKey(MixColumns(ShiftRows(SubBytes(STATE_10))), UpperHalf(WINDOW_5)) == STATE_11
  {
  }

  lemma Round12()
    ensures AddRoundKey(MixColumns(ShiftRows(SubBytes(STATE_11))), LowerHalf(WINDOW_6)) == STATE_12
  {
  }

  lemma Round13()
    ensures AddRoundKey(MixColumns(ShiftRows(SubBytes(STATE_12))), UpperHalf(WINDOW_6)) == STATE_13
  {
  }

  lemma Round14()
    ensures AddRoundKey(ShiftRows(SubBytes(STATE_13)), LowerHalf(WINDOW_7)) == CIPHER
  {
  }

  lemma RoundIs(n: nat, before: State, k: State, after: State)
    requires Rounds(WINDOW_0, BLOCK, n) == before && RoundKey(WINDOW_0, n + 1) == k
    requires AddRoundKey(MixColumns(ShiftRows(SubBytes(before))), k) == after
    ensures Rounds(WINDOW_0, BLOCK, n + 1) == after
  {
    hide SubBytes, ShiftRows, MixColumns, AddRoundKey, RoundKey;
  }

  lemma RoundKeysOf(j: nat, w: Window)
    requires WindowAt(WINDOW_0, j) == w
    ensures RoundKey(WINDOW_0, 2 * j) == LowerHalf(w) && RoundKey(WINDOW_0, 2 * j + 1) == UpperHalf(w)
  {
    WindowRoundKeys(WINDOW_0, j);
    hide WindowAt, RoundKey;
  }

  lemma FirstState()
    ensures Rounds(WINDOW_0, BLOCK, 0) == STATE_0
  {
    Window0();
    hide WindowAt, RoundKey, AddRoundKey;
    RoundKeysOf(0, WINDOW_0);
    Round0();
  }

  lemma FirstHalf()
    ensures Rounds(WINDOW_0, BLOCK, 7) == STATE_7
  {
    hide WindowAt, Rounds, RoundKey, AddRoundKey, MixColumns, ShiftRows, SubBytes, LowerHalf, UpperHalf;
    FirstState();
    Window0();
    Window1();
    Window2();
    Window3();
    RoundKeysOf(0, WINDOW_0);
    RoundKeysOf(1, WINDOW_1);
    RoundKeysOf(2, WINDOW_2);
    RoundKeysOf(3, WINDOW_3);
    Round1();
    RoundIs(0, STATE_0, UpperHalf(WINDOW_0), STATE_1);
    Round2();
    RoundIs(1, STATE_1, LowerHalf(WINDOW_1), STATE_2);
    Round3();
    RoundIs(2, STATE_2, UpperHalf(WINDOW_1), STATE_3);
    Round4();
    RoundIs(3, STATE_3, LowerHalf(WINDOW_2), STATE_4);
    Round5();
    RoundIs(4, STATE_4, UpperHalf(WINDOW_2), STATE_5);
    Round6();
    RoundIs(5, STATE_5, LowerHalf(WINDOW_3), STATE_6);
    Round7();
    RoundIs(6, STATE_6, UpperHalf(WINDOW_3), STATE_7);
  }

  lemma SecondHalf()
    ensures Rounds(WINDOW_0, BLOCK, 13) == STATE_13
  {
    hide WindowAt, Rounds, RoundKey, AddRoundKey, MixColumns, ShiftRows, SubBytes, LowerHalf, UpperHalf;
    FirstHalf();
    Window4();
    Window5();
    Window6();
    RoundKeysOf(4, WINDOW_4);
    RoundKeysOf(5, WINDOW_5);
    RoundKeysOf(6, WINDOW_6);
    Round8();
    RoundIs(7, STATE_7, LowerHalf(WINDOW_4), STATE_8);
    Round9();
    RoundIs(8, STATE_8, UpperHalf(WINDOW_4), STATE_9);
    Round10();
    RoundIs(9, STATE_9, LowerHalf(WINDOW_5), STATE_10);
    Round11();
    RoundIs(10, STATE_10, UpperHalf(WINDOW_5), STATE_11);
    Round12();
    RoundIs(11, STATE_11, LowerHalf(WINDOW_6), STATE_12);
    Round13();
    RoundIs(12, STATE_12, UpperHalf(WINDOW_6), STATE_13);
  }

  lemma CipherIs()
    ensures Cipher(WINDOW_0, BLOCK) == CIPHER
  {
    hide WindowAt, Rounds, RoundKey, AddRoundKey, ShiftRows, SubBytes, LowerHalf;
    SecondHalf();
    Window7();
    RoundKeysOf(7, WINDOW_7);
    Round14();
  }

  // ---------------------------------------------------------------- bytes

  const KEY_BYTES: seq<bv8> := [
    0x00, 0x01, 0x02, 0x03, 0x04, 0x05, 0x06, 0x07, 0x08, 0x09, 0x0a, 0x0b, 0x0c, 0x0d, 0x0e, 0x0f,
    0x10, 0x11, 0x12, 0x13, 0x14, 0x15, 0x16, 0x17, 0x18, 0x19, 0x1a, 0x1b, 0x1c, 0x1d, 0x1e, 0x1f]

  const BLOCK_BYTES: seq<bv8> := [
    0x00, 0x11, 0x22, 0x33, 0x44, 0x55, 0x66, 0x77, 0x88, 0x99, 0xaa, 0xbb, 0xcc, 0xdd, 0xee, 0xff]

  const CIPHER_BYTES: seq<bv8> := [
    0x8e, 0xa2, 0xb7, 0xca, 0x51, 0x67, 0x45, 0xbf, 0xea, 0xfc, 0x49, 0x90, 0x4b, 0x49, 0x60, 0x89]

  lemma BytesAre()
    ensures KeyIn(KEY_BYTES) == WINDOW_0 && BlockIn(BLOCK_BYTES, 0) == BLOCK
    ensures BlockBytes(CIPHER) == CIPHER_BYTES
  {
  }

  /** The example of appendix C.3, enciphered and deciphered. */
  lemma ExampleVector()
    ensures Encrypted(KeyIn(KEY_BYTES), BLOCK_BYTES) == CIPHER_BYTES
    ensures Decrypted(KeyIn(KEY_BYTES), CIPHER_BYTES) == BLOCK_BYTES
  {
    BytesAre();
    CipherIs();
    hide KeyIn, BlockIn, BlockBytes, Cipher, InvCipher;
    OneBlock(Enciphering(WINDOW_0), BLOCK_BYTES);
    DecryptUndoesEncrypt(WINDOW_0, BLOCK_BYTES);
  }
}
