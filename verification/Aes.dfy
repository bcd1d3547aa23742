/**
 AES-256 with a key schedule that is computed on the fly (source/tbx_aes256.c).  Encryption
 rolls a window of 32 key bytes forward; decryption rolls it backward, from a window that is
 computed when the key is set.
 */
module Aes {
  import opened AesField
  import opened AesSpec

  // ---------------------------------------------------------------- factored column products

  lemma MixTerms(a: bv8, b: bv8, c: bv8, d: bv8, p: bv8, q: bv8)
    ensures Add(Add(a, Sum4(a, b, c, d)), Add(p, q)) == Sum4(p, Add(q, b), c, d)
  {
    assert (a ^ ((a ^ b) ^ (c ^ d))) ^ (p ^ q) == (p ^ (q ^ b)) ^ (c ^ d);
  }

  /** A mixed byte from the sum of all four bytes and one doubling. */
  lemma MixFactored(a: bv8, b: bv8, c: bv8, d: bv8)
    ensures Add(Add(a, Sum4(a, b, c, d)), XTime(Add(a, b))) == MixRow(a, b, c, d)
  {
    hide Add, Sum4, Mul, XTime;
    Mul02(a);
    Mul03(b);
    XTimeLinear(a, b);
    MixTerms(a, b, c, d, XTime(a), XTime(b));
  }

  lemma XTimeSum(a: bv8, b: bv8, c: bv8, d: bv8)
    ensures XTime(Sum4(a, b, c, d)) == Sum4(XTime(a), XTime(b), XTime(c), XTime(d))
  {
    hide Add, XTime;
    XTimeLinear(a, b);
    XTimeLinear(c, d);
    XTimeLinear(Add(a, b), Add(c, d));
  }

  lemma XTimeThree(z: bv8, a: bv8, c: bv8)
    ensures XTime(Add(Add(z, a), c)) == Add(Add(XTime(z), XTime(a)), XTime(c))
  {
    hide Add, XTime;
    XTimeLinear(Add(z, a), c);
    XTimeLinear(z, a);
  }

  lemma AddZero(a: bv8)
    ensures Add(a, 0) == a
  {
  }

  lemma CancelFirst(a: bv8, b: bv8, c: bv8, d: bv8, y: bv8)
    ensures Add(a, Add(Sum4(a, b, c, d), y)) == Add(y, Sum4(0, b, c, d))
  {
    assert a ^ (((a ^ b) ^ (c ^ d)) ^ y) == y ^ ((0 ^ b) ^ (c ^ d));
  }

  lemma Collect(t: bv8, a: bv8, b: bv8, c: bv8)
    ensures Add(Add(Add(t, a), c), b) == Add(t, Sum4(a, b, c, 0))
  {
    assert ((t ^ a) ^ c) ^ b == t ^ ((a ^ b) ^ (c ^ 0));
  }

  lemma InvMixFew(a: bv8, b: bv8, c: bv8, d: bv8, a1: bv8, b1: bv8, a2: bv8, c2: bv8, t: bv8)
    ensures Add(Add(a, Add(Sum4(a, b, c, d), Add(Add(t, a2), c2))), Add(a1, b1))
            == Add(Add(t, Sum4(a2, b1, c2, 0)), Sum4(a1, b, c, d))
  {
    hide Add, Sum4;
    var y := Add(Add(t, a2), c2);
    CancelFirst(a, b, c, d, y);
    Collect(t, a2, b1, c2);
    AddCommutes(a1, b1);
    AddPairs(y, Sum4(0, b, c, d), b1, a1);
    SumOfOne(a1);
    AddSums(0, b, c, d, a1, 0, 0, 0);
    AddCommutes(0, a1);
    AddZero(a1);
    AddZero(b);
    AddZero(c);
    AddZero(d);
  }

  lemma InvMixTerms(a: bv8, b: bv8, c: bv8, d: bv8, a1: bv8, b1: bv8, a2: bv8, c2: bv8,
                    a3: bv8, b3: bv8, c3: bv8, d3: bv8)
    ensures Add(Add(a, Add(Sum4(a, b, c, d), Add(Add(Sum4(a3, b3, c3, d3), a2), c2))), Add(a1, b1))
            == Sum4(Add(Add(a3, a2), a1), Add(Add(b3, b1), b), Add(Add(c3, c2), c), Add(d3, d))
  {
    hide Add, Sum4;
    InvMixFew(a, b, c, d, a1, b1, a2, c2, Sum4(a3, b3, c3, d3));
    AddSums(a3, b3, c3, d3, a2, b1, c2, 0);
    AddZero(d3);
    AddSums(Add(a3, a2), Add(b3, b1), Add(c3, c2), d3, a1, b, c, d);
  }

  /** An unmixed byte from the sum of all four bytes and repeated doubling. */
  lemma InvMixFactored(a: bv8, b: bv8, c: bv8, d: bv8)
    ensures var e := Sum4(a, b, c, d);
      Add(Add(a, Add(e, XTime(XTime(Add(Add(XTime(e), a), c))))), XTime(Add(a, b)))
      == InvMixRow(a, b, c, d)
  {
    hide Add, Sum4, Mul, XTime;
    var e := Sum4(a, b, c, d);
    var a1, b1, c1, d1 := XTime(a), XTime(b), XTime(c), XTime(d);
    var a2, b2, c2, d2 := XTime(a1), XTime(b1), XTime(c1), XTime(d1);
    XTimeThree(XTime(e), a, c);
    XTimeThree(XTime(XTime(e)), a1, c1);
    XTimeSum(a, b, c, d);
    XTimeSum(a1, b1, c1, d1);
    XTimeSum(a2, b2, c2, d2);
    XTimeLinear(a, b);
    InvMixTerms(a, b, c, d, a1, b1, a2, c2, XTime(a2), XTime(b2), XTime(c2), XTime(d2));
    Mul0e(a);
    Mul0b(b);
    Mul0d(c);
    Mul09(d);
  }

  // ---------------------------------------------------------------- windows of the key schedule

  /** The window eight words further on, computed from the one before. */
  function NextWindow(w: Window, rc: bv8): Window {
    var w0 := Xor(w.w0, Xor(SubWord(RotWord(w.w7)), Word(rc, 0, 0, 0)));
    var w1 := Xor(w.w1, w0);
    var w2 := Xor(w.w2, w1);
    var w3 := Xor(w.w3, w2);
    var w4 := Xor(w.w4, SubWord(w3));
    var w5 := Xor(w.w5, w4);
    var w6 := Xor(w.w6, w5);
    Window(w0, w1, w2, w3, w4, w5, w6, Xor(w.w7, w6))
  }

  /** The window eight words back. */
  function PreviousWindow(w: Window, rc: bv8): Window {
    var w7 := Xor(w.w7, w.w6);
    Window(Xor(w.w0, Xor(SubWord(RotWord(w7)), Word(rc, 0, 0, 0))),
           Xor(w.w1, w.w0), Xor(w.w2, w.w1), Xor(w.w3, w.w2),
           Xor(w.w4, SubWord(w.w3)), Xor(w.w5, w.w4), Xor(w.w6, w.w5), w7)
  }

  /** For every window and every round constant the two expansion steps are inverse to each other. */
  lemma PreviousUndoesNext(w: Window, rc: bv8)
    ensures PreviousWindow(NextWindow(w, rc), rc) == w
    ensures NextWindow(PreviousWindow(w, rc), rc) == w
  {
    hide Xor, SubWord, RotWord;
    forall a, b
      ensures Xor(Xor(a, b), b) == a
    {
      XorTwice(a, b);
    }
  }

  /** Expanding the window that starts at word 8j gives the one that starts at word 8(j + 1). */
  lemma WindowAdvances(key: Window, j: nat)
    ensures NextWindow(WindowAt(key, j), PowerOfX(j)) == WindowAt(key, j + 1)
  {
    hide Xor, SubWord, RotWord, PowerOfX, ScheduleWord;
    ScheduleStep(key, j, 0);
    ScheduleStep(key, j, 1);
    ScheduleStep(key, j, 2);
    ScheduleStep(key, j, 3);
    ScheduleStep(key, j, 4);
    ScheduleStep(key, j, 5);
    ScheduleStep(key, j, 6);
    ScheduleStep(key, j, 7);
  }

  lemma ScheduleStep(key: Window, j: nat, i: nat)
    requires i < 8
    ensures var n := 8 * (j + 1) + i;
      ScheduleWord(key, n) ==
        Xor(ScheduleWord(key, 8 * j + i),
            if i == 0 then Xor(SubWord(RotWord(ScheduleWord(key, 8 * j + 7))), Word(PowerOfX(j), 0, 0, 0))
            else if i == 4 then SubWord(ScheduleWord(key, n - 1))
            else ScheduleWord(key, n - 1))
  {
    hide Xor, SubWord, RotWord, PowerOfX;
    var n := 8 * (j + 1) + i;
    assert n % 8 == i && n / 8 == j + 1;
  }

  lemma WindowRetreats(key: Window, j: nat)
    ensures PreviousWindow(WindowAt(key, j + 1), PowerOfX(j)) == WindowAt(key, j)
  {
    hide NextWindow, PreviousWindow, WindowAt;
    WindowAdvances(key, j);
    PreviousUndoesNext(WindowAt(key, j), PowerOfX(j));
  }

  lemma FirstWindow(key: Window)
    ensures WindowAt(key, 0) == key
  {
  }

  lemma SevenDoublings()
    ensures PowerOfX(7) == 0x80
  {
    assert PowerOfX(2) == 4;
    assert PowerOfX(4) == 16;
    assert PowerOfX(6) == 64;
  }

  // ---------------------------------------------------------------- bytes in arrays

  function WordAt(a: array<bv8>, i: nat): Word
    requires i + 4 <= a.Length
    reads a
  {
    Word(a[i], a[i + 1], a[i + 2], a[i + 3])
  }

  /** The block of 16 bytes at an offset, column by column. */
  function Block(a: array<bv8>, off: nat): State
    requires off + 16 <= a.Length
    reads a
  {
    State(WordAt(a, off), WordAt(a, off + 4), WordAt(a, off + 8), WordAt(a, off + 12))
  }

  function WindowOf(k: array<bv8>): Window
    requires k.Length >= 32
    reads k
  {
    Window(WordAt(k, 0), WordAt(k, 4), WordAt(k, 8), WordAt(k, 12),
           WordAt(k, 16), WordAt(k, 20), WordAt(k, 24), WordAt(k, 28))
  }

  /** A key inside an array of bytes. */
  function KeyAt(a: array<bv8>, off: nat): Window
    requires off + 32 <= a.Length
    reads a
  {
    Window(WordAt(a, off), WordAt(a, off + 4), WordAt(a, off + 8), WordAt(a, off + 12),
           WordAt(a, off + 16), WordAt(a, off + 20), WordAt(a, off + 24), WordAt(a, off + 28))
  }

  /** Nothing outside of the n bytes at the offset has changed. */
  twostate predicate OnlyAt(a: array<bv8>, off: nat, n: nat)
    reads a
  {
    forall i | 0 <= i < a.Length && !(off <= i < off + n) :: a[i] == old(a[i])
  }

  // ---------------------------------------------------------------- round steps

  method ApplySubBytes(buf: array<bv8>, off: nat)
    requires off + 16 <= buf.Length
    modifies buf
    ensures Block(buf, off) == SubBytes(old(Block(buf, off))) && OnlyAt(buf, off, 16)
  {
    hide SBox;
    var i := 16;
    while i > 0
      invariant 0 <= i <= 16 && OnlyAt(buf, off + i, 16 - i)
      invariant forall j | off + i <= j < off + 16 :: buf[j] == SBox(old(buf[j]))
    {
      i := i - 1;
      buf[off + i] := SBox(buf[off + i]);
    }
  }

  method ApplySubBytesInv(buf: array<bv8>, off: nat)
    requires off + 16 <= buf.Length
    modifies buf
    ensures Block(buf, off) == InvSubBytes(old(Block(buf, off))) && OnlyAt(buf, off, 16)
  {
    hide InvSBox;
    var i := 16;
    while i > 0
      invariant 0 <= i <= 16 && OnlyAt(buf, off + i, 16 - i)
      invariant forall j | off + i <= j < off + 16 :: buf[j] == InvSBox(old(buf[j]))
    {
      i := i - 1;
      buf[off + i] := InvSBox(buf[off + i]);
    }
  }

  method ApplyRoundKey(buf: array<bv8>, off: nat, key: array<bv8>, keyOff: nat)
    requires off + 16 <= buf.Length && keyOff + 16 <= key.Length && buf != key
    modifies buf
    ensures Block(buf, off) == AddRoundKey(old(Block(buf, off)), Block(key, keyOff))
    ensures OnlyAt(buf, off, 16)
  {
    hide Add;
    var i := 16;
    while i > 0
      invariant 0 <= i <= 16 && OnlyAt(buf, off + i, 16 - i)
      invariant forall j | off + i <= j < off + 16 :: buf[j] == Add(old(buf[j]), key[keyOff + (j - off)])
    {
      i := i - 1;
      buf[off + i] := Add(buf[off + i], key[keyOff + i]);
    }
  }

  lemma SameWindow(a: array<bv8>, b: array<bv8>)
    requires a.Length == b.Length == 32 && forall i | 0 <= i < 32 :: a[i] == b[i]
    ensures WindowOf(a) == WindowOf(b)
  {
  }

  /** Adds the first half of the key and copies both halves. */
  method ApplyRoundKeyCopy(buf: array<bv8>, off: nat, key: array<bv8>, copy: array<bv8>)
    requires off + 16 <= buf.Length && key.Length == copy.Length == 32
    requires buf != key && buf != copy && key != copy
    modifies buf, copy
    ensures Block(buf, off) == AddRoundKey(old(Block(buf, off)), Block(key, 0))
    ensures OnlyAt(buf, off, 16) && WindowOf(copy) == WindowOf(key)
  {
    hide Add, WindowOf;
    var i := 16;
    while i > 0
      invariant 0 <= i <= 16 && OnlyAt(buf, off + i, 16 - i)
      invariant forall k {:trigger key[k]} | i <= k < 16 :: buf[off + k] == Add(old(buf[off + k]), key[k])
      invariant forall k | i <= k < 16 || 16 + i <= k < 32 :: copy[k] == key[k]
    {
      i := i - 1;
      copy[i] := key[i];
      buf[off + i] := Add(buf[off + i], copy[i]);
      copy[16 + i] := key[16 + i];
    }
    SameWindow(copy, key);
  }

  /** Every one of four bytes takes the value of the next one, and the last that of the first. */
  method Cycle(buf: array<bv8>, i0: nat, i1: nat, i2: nat, i3: nat)
    requires i0 < buf.Length && i1 < buf.Length && i2 < buf.Length && i3 < buf.Length
    requires i0 != i1 && i0 != i2 && i0 != i3 && i1 != i2 && i1 != i3 && i2 != i3
    modifies buf
    ensures buf[i0] == old(buf[i1]) && buf[i1] == old(buf[i2])
    ensures buf[i2] == old(buf[i3]) && buf[i3] == old(buf[i0])
    ensures forall i | 0 <= i < buf.Length && i != i0 && i != i1 && i != i2 && i != i3 ::
              buf[i] == old(buf[i])
  {
    var first := buf[i0];
    buf[i0] := buf[i1];
    buf[i1] := buf[i2];
    buf[i2] := buf[i3];
    buf[i3] := first;
  }

  method Swap(buf: array<bv8>, i: nat, j: nat)
    requires i < buf.Length && j < buf.Length
    modifies buf
    ensures buf[i] == old(buf[j]) && buf[j] == old(buf[i])
    ensures forall k | 0 <= k < buf.Length && k != i && k != j :: buf[k] == old(buf[k])
  {
    var first := buf[i];
    buf[i] := buf[j];
    buf[j] := first;
  }

  method ApplyShiftRows(buf: array<bv8>, off: nat)
    requires off + 16 <= buf.Length
    modifies buf
    ensures Block(buf, off) == ShiftRows(old(Block(buf, off))) && OnlyAt(buf, off, 16)
  {
    Cycle(buf, off + 1, off + 5, off + 9, off + 13);
    Swap(buf, off + 10, off + 2);
    Cycle(buf, off + 3, off + 15, off + 11, off + 7);
    Swap(buf, off + 14, off + 6);
  }

  method ApplyShiftRowsInv(buf: array<bv8>, off: nat)
    requires off + 16 <= buf.Length
    modifies buf
    ensures Block(buf, off) == InvShiftRows(old(Block(buf, off))) && OnlyAt(buf, off, 16)
  {
    Cycle(buf, off + 1, off + 13, off + 9, off + 5);
    Swap(buf, off + 2, off + 10);
    Cycle(buf, off + 3, off + 7, off + 11, off + 15);
    Swap(buf, off + 6, off + 14);
  }

  /** One column of the mixing loop. */
  method MixOneColumn(buf: array<bv8>, i: nat)
    requires i + 4 <= buf.Length
    modifies buf
    ensures WordAt(buf, i) == MixColumn(old(WordAt(buf, i))) && OnlyAt(buf, i, 4)
  {
    hide Add, Sum4, XTime, MixRow;
    var a, b, c, d := buf[i], buf[i + 1], buf[i + 2], buf[i + 3];
    var e := Sum4(a, b, c, d);
    MixedByte(a, b, c, d);
    MixedByte(b, c, d, a);
    MixedByte(c, d, a, b);
    MixedByte(d, a, b, c);
    SumRotations(a, b, c, d);
    buf[i] := Add(buf[i], Add(e, XTime(Add(a, b))));
    buf[i + 1] := Add(buf[i + 1], Add(e, XTime(Add(b, c))));
    buf[i + 2] := Add(buf[i + 2], Add(e, XTime(Add(c, d))));
    buf[i + 3] := Add(buf[i + 3], Add(e, XTime(Add(d, a))));
  }

  lemma SumRotations(a: bv8, b: bv8, c: bv8, d: bv8)
    ensures Sum4(b, c, d, a) == Sum4(a, b, c, d)
    ensures Sum4(c, d, a, b) == Sum4(a, b, c, d)
    ensures Sum4(d, a, b, c) == Sum4(a, b, c, d)
  {
    hide Sum4;
    SumRotated(a, b, c, d);
    SumRotated(b, c, d, a);
    SumRotated(c, d, a, b);
  }

  lemma MixedByte(a: bv8, b: bv8, c: bv8, d: bv8)
    ensures Add(a, Add(Sum4(a, b, c, d), XTime(Add(a, b)))) == MixRow(a, b, c, d)
  {
    hide Add, Sum4, XTime, MixRow;
    MixFactored(a, b, c, d);
    AddAssociates(a, Sum4(a, b, c, d), XTime(Add(a, b)));
  }

  method ApplyMixColumns(buf: array<bv8>, off: nat)
    requires off + 16 <= buf.Length
    modifies buf
    ensures Block(buf, off) == MixColumns(old(Block(buf, off))) && OnlyAt(buf, off, 16)
  {
    hide MixColumn;
    var i := 0;
    while i < 16
      invariant i == 0 || i == 4 || i == 8 || i == 12 || i == 16
      invariant OnlyAt(buf, off, i)
      invariant i >= 4 ==> WordAt(buf, off) == MixColumn(old(WordAt(buf, off)))
      invariant i >= 8 ==> WordAt(buf, off + 4) == MixColumn(old(WordAt(buf, off + 4)))
      invariant i >= 12 ==> WordAt(buf, off + 8) == MixColumn(old(WordAt(buf, off + 8)))
      invariant i >= 16 ==> WordAt(buf, off + 12) == MixColumn(old(WordAt(buf, off + 12)))
    {
      MixOneColumn(buf, off + i);
      i := i + 4;
    }
  }

  /** One column of the loop that undoes the mixing. */
  method UnmixOneColumn(buf: array<bv8>, i: nat)
    requires i + 4 <= buf.Length
    modifies buf
    ensures WordAt(buf, i) == InvMixColumn(old(WordAt(buf, i))) && OnlyAt(buf, i, 4)
  {
    hide Add, Sum4, XTime, InvMixRow;
    var a, b, c, d := buf[i], buf[i + 1], buf[i + 2], buf[i + 3];
    var e := Sum4(a, b, c, d);
    var z := XTime(e);
    var x := Add(e, XTime(XTime(Add(Add(z, a), c))));
    var y := Add(e, XTime(XTime(Add(Add(z, b), d))));
    UnmixedByte(a, b, c, d);
    UnmixedByte(b, c, d, a);
    UnmixedByte(c, d, a, b);
    UnmixedByte(d, a, b, c);
    SumRotations(a, b, c, d);
    AddSwapped(z, a, c);
    AddSwapped(z, b, d);
    buf[i] := Add(buf[i], Add(x, XTime(Add(a, b))));
    buf[i + 1] := Add(buf[i + 1], Add(y, XTime(Add(b, c))));
    buf[i + 2] := Add(buf[i + 2], Add(x, XTime(Add(c, d))));
    buf[i + 3] := Add(buf[i + 3], Add(y, XTime(Add(d, a))));
  }

  lemma AddSwapped(z: bv8, a: bv8, c: bv8)
    ensures Add(Add(z, a), c) == Add(Add(z, c), a)
  {
    hide Add;
    AddAssociates(z, a, c);
    AddAssociates(z, c, a);
    AddCommutes(a, c);
  }

  lemma UnmixedByte(a: bv8, b: bv8, c: bv8, d: bv8)
    ensures var e := Sum4(a, b, c, d);
      Add(a, Add(Add(e, XTime(XTime(Add(Add(XTime(e), a), c)))), XTime(Add(a, b))))
      == InvMixRow(a, b, c, d)
  {
    hide Add, Sum4, XTime, InvMixRow;
    InvMixFactored(a, b, c, d);
    var e := Sum4(a, b, c, d);
    AddAssociates(a, Add(e, XTime(XTime(Add(Add(XTime(e), a), c)))), XTime(Add(a, b)));
  }

  method ApplyMixColumnsInv(buf: array<bv8>, off: nat)
    requires off + 16 <= buf.Length
    modifies buf
    ensures Block(buf, off) == InvMixColumns(old(Block(buf, off))) && OnlyAt(buf, off, 16)
  {
    hide InvMixColumn;
    var i := 0;
    while i < 16
      invariant i == 0 || i == 4 || i == 8 || i == 12 || i == 16
      invariant OnlyAt(buf, off, i)
      invariant i >= 4 ==> WordAt(buf, off) == InvMixColumn(old(WordAt(buf, off)))
      invariant i >= 8 ==> WordAt(buf, off + 4) == InvMixColumn(old(WordAt(buf, off + 4)))
      invariant i >= 12 ==> WordAt(buf, off + 8) == InvMixColumn(old(WordAt(buf, off + 8)))
      invariant i >= 16 ==> WordAt(buf, off + 12) == InvMixColumn(old(WordAt(buf, off + 12)))
    {
      UnmixOneColumn(buf, off + i);
      i := i + 4;
    }
  }

  // ---------------------------------------------------------------- key expansion

  /** Adds the word before to a word of the window. */
  method AddWordBefore(k: array<bv8>, i: nat)
    requires 4 <= i && i + 4 <= k.Length
    modifies k
    ensures WordAt(k, i) == Xor(old(WordAt(k, i)), old(WordAt(k, i - 4))) && OnlyAt(k, i, 4)
  {
    hide Add;
    k[i] := Add(k[i], k[i - 4]);
    k[i + 1] := Add(k[i + 1], k[i - 3]);
    k[i + 2] := Add(k[i + 2], k[i - 2]);
    k[i + 3] := Add(k[i + 3], k[i - 1]);
  }

  /** Adds the rotated and substituted last word and the round constant to the first word. */
  method AddRotatedWord(k: array<bv8>, rc: bv8)
    requires k.Length == 32
    modifies k
    ensures WordAt(k, 0)
            == Xor(old(WordAt(k, 0)), Xor(SubWord(RotWord(WordAt(k, 28))), Word(rc, 0, 0, 0)))
    ensures OnlyAt(k, 0, 4)
  {
    hide Add, SBox;
    AddZero(SBox(k[30]));
    AddZero(SBox(k[31]));
    AddZero(SBox(k[28]));
    k[0] := Add(k[0], Add(SBox(k[29]), rc));
    k[1] := Add(k[1], SBox(k[30]));
    k[2] := Add(k[2], SBox(k[31]));
    k[3] := Add(k[3], SBox(k[28]));
  }

  /** Adds the substituted fourth word to the fifth. */
  method AddSubstitutedWord(k: array<bv8>)
    requires k.Length == 32
    modifies k
    ensures WordAt(k, 16) == Xor(old(WordAt(k, 16)), SubWord(WordAt(k, 12))) && OnlyAt(k, 16, 4)
  {
    hide Add, SBox;
    k[16] := Add(k[16], SBox(k[12]));
    k[17] := Add(k[17], SBox(k[13]));
    k[18] := Add(k[18], SBox(k[14]));
    k[19] := Add(k[19], SBox(k[15]));
  }

  /** Rolls the window forward; returns the round constant of the next step. */
  method ExpandEncKey(k: array<bv8>, rc: bv8) returns (next: bv8)
    requires k.Length == 32
    modifies k
    ensures WindowOf(k) == NextWindow(old(WindowOf(k)), rc) && next == XTime(rc)
  {
    hide Xor, SubWord, RotWord, XTime;
    ghost var was := WindowOf(k);
    ghost var w := NextWindow(was, rc);
    AddRotatedWord(k, rc);
    next := XTime(rc);
    var i := 4;
    while i < 16
      invariant i == 4 || i == 8 || i == 12 || i == 16
      invariant WordAt(k, 0) == w.w0
      invariant WordAt(k, 4) == if i > 4 then w.w1 else was.w1
      invariant WordAt(k, 8) == if i > 8 then w.w2 else was.w2
      invariant WordAt(k, 12) == if i > 12 then w.w3 else was.w3
      invariant WordAt(k, 16) == was.w4 && WordAt(k, 20) == was.w5
      invariant WordAt(k, 24) == was.w6 && WordAt(k, 28) == was.w7
    {
      AddWordBefore(k, i);
      i := i + 4;
    }
    AddSubstitutedWord(k);
    i := 20;
    while i < 32
      invariant i == 20 || i == 24 || i == 28 || i == 32
      invariant WordAt(k, 0) == w.w0 && WordAt(k, 4) == w.w1
      invariant WordAt(k, 8) == w.w2 && WordAt(k, 12) == w.w3 && WordAt(k, 16) == w.w4
      invariant WordAt(k, 20) == if i > 20 then w.w5 else was.w5
      invariant WordAt(k, 24) == if i > 24 then w.w6 else was.w6
      invariant WordAt(k, 28) == if i > 28 then w.w7 else was.w7
    {
      AddWordBefore(k, i);
      i := i + 4;
    }
  }

  /** Rolls the window backward; takes and returns the round constant that was used last. */
  method ExpandDecKey(k: array<bv8>, rc: bv8) returns (previous: bv8)
    requires k.Length == 32
    modifies k
    ensures previous == XTimeInv(rc) && WindowOf(k) == PreviousWindow(old(WindowOf(k)), previous)
  {
    hide Xor, SubWord, RotWord;
    ghost var was := WindowOf(k);
    ghost var w := PreviousWindow(was, XTimeInv(rc));
    var i := 28;
    while i > 16
      invariant i == 28 || i == 24 || i == 20 || i == 16
      invariant WordAt(k, 0) == was.w0 && WordAt(k, 4) == was.w1
      invariant WordAt(k, 8) == was.w2 && WordAt(k, 12) == was.w3 && WordAt(k, 16) == was.w4
      invariant WordAt(k, 20) == if i < 20 then w.w5 else was.w5
      invariant WordAt(k, 24) == if i < 24 then w.w6 else was.w6
      invariant WordAt(k, 28) == if i < 28 then w.w7 else was.w7
    {
      AddWordBefore(k, i);
      i := i - 4;
    }
    AddSubstitutedWord(k);
    i := 12;
    while i > 0
      invariant i == 12 || i == 8 || i == 4 || i == 0
      invariant WordAt(k, 0) == was.w0
      invariant WordAt(k, 4) == if i < 4 then w.w1 else was.w1
      invariant WordAt(k, 8) == if i < 8 then w.w2 else was.w2
      invariant WordAt(k, 12) == if i < 12 then w.w3 else was.w3
      invariant WordAt(k, 16) == w.w4 && WordAt(k, 20) == w.w5
      invariant WordAt(k, 24) == w.w6 && WordAt(k, 28) == w.w7
    {
      AddWordBefore(k, i);
      i := i - 4;
    }
    previous := XTimeInv(rc);
    AddRotatedWord(k, previous);
  }

  // ---------------------------------------------------------------- context

  class Context {
    const key: array<bv8>
    const encKey: array<bv8>
    const decKey: array<bv8>

    ghost const Repr: set<object> := {key, encKey, decKey}

    ghost predicate Valid() {
      && key.Length == encKey.Length == decKey.Length == 32
      && key != encKey && key != decKey && encKey != decKey
    }

    constructor ()
      ensures Valid() && fresh(Repr)
    {
      key, encKey, decKey := new bv8[32], new bv8[32], new bv8[32];
    }

    /** The context is set up for a key: its own window, and the one after seven steps. */
    ghost predicate KeyedWith(k: Window)
      requires Valid()
      reads encKey, decKey
    {
      WindowOf(encKey) == k && WindowOf(decKey) == WindowAt(k, 7)
    }

    method Init(k: array<bv8>, off: nat)
      requires Valid() && off + 32 <= k.Length && k !in Repr
      modifies encKey, decKey
      ensures KeyedWith(KeyAt(k, off))
    {
      hide NextWindow, WindowAt, XTime;
      var rcon: bv8 := 1;
      for i := 0 to 32
        invariant forall j | 0 <= j < i :: decKey[j] == k[off + j] && encKey[j] == k[off + j]
      {
        decKey[i] := k[off + i];
        encKey[i] := k[off + i];
      }
      FirstWindow(KeyAt(k, off));
      var i := 7;
      while i > 0
        invariant 0 <= i <= 7 && rcon == PowerOfX(7 - i)
        invariant WindowOf(encKey) == KeyAt(k, off) && WindowOf(decKey) == WindowAt(KeyAt(k, off), 7 - i)
      {
        WindowAdvances(KeyAt(k, off), 7 - i);
        rcon := ExpandEncKey(decKey, rcon);
        i := i - 1;
      }
    }

    method Done()
      requires Valid()
      modifies Repr
      ensures forall i | 0 <= i < 32 :: key[i] == encKey[i] == decKey[i] == 0
    {
      for i := 0 to 32
        invariant forall j | 0 <= j < i :: key[j] == encKey[j] == decKey[j] == 0
      {
        key[i] := 0;
        encKey[i] := 0;
        decKey[i] := 0;
      }
    }

    /** The window is j steps after the key, and the round constant that of the next step. */
    ghost predicate Rolled(k: Window, j: nat, rcon: bv8)
      requires Valid()
      reads key
    {
      WindowOf(key) == WindowAt(k, j) && rcon == PowerOfX(j)
    }

    /** Adds the key of an enciphering round, rolling the window on before every other one. */
    method AddForwardKey(buf: array<bv8>, off: nat, ghost k: Window, i: nat, rcon: bv8)
        returns (next: bv8)
      requires Valid() && off + 16 <= buf.Length && buf !in Repr
      requires i > 0 && Rolled(k, (i - 1) / 2, rcon)
      modifies buf, key
      ensures Rolled(k, i / 2, next)
      ensures Block(buf, off) == AddRoundKey(old(Block(buf, off)), RoundKey(k, i))
      ensures OnlyAt(buf, off, 16)
    {
      hide AddRoundKey, NextWindow, WindowAt, RoundKey, XTime;
      next := rcon;
      WindowRoundKeys(k, i / 2);
      if i % 2 == 1 {
        ApplyRoundKey(buf, off, key, 16);
      } else {
        WindowAdvances(k, i / 2 - 1);
        next := ExpandEncKey(key, rcon);
        ApplyRoundKey(buf, off, key, 0);
      }
    }

    /** Enciphers one block in place. */
    method EncryptEcb(buf: array<bv8>, off: nat, ghost k: Window)
      requires Valid() && KeyedWith(k) && off + 16 <= buf.Length && buf !in Repr
      modifies buf, key
      ensures Block(buf, off) == Cipher(k, old(Block(buf, off))) && OnlyAt(buf, off, 16)
      ensures KeyedWith(k)
    {
      hide SubBytes, ShiftRows, MixColumns, AddRoundKey, NextWindow, WindowAt, RoundKey, XTime, Block, WindowOf;
      ghost var input := Block(buf, off);
      var rcon: bv8 := 1;
      ApplyRoundKeyCopy(buf, off, encKey, key);
      FirstWindow(k);
      FirstRoundKey(encKey, k, 0);
      var i := 1;
      while i < 14
        invariant 1 <= i <= 14 && OnlyAt(buf, off, 16)
        invariant Block(buf, off) == Rounds(k, input, i - 1)
        invariant Rolled(k, (i - 1) / 2, rcon)
      {
        ApplySubBytes(buf, off);
        ApplyShiftRows(buf, off);
        ApplyMixColumns(buf, off);
        rcon := AddForwardKey(buf, off, k, i, rcon);
        i := i + 1;
      }
      ApplySubBytes(buf, off);
      ApplyShiftRows(buf, off);
      WindowAdvances(k, 6);
      rcon := ExpandEncKey(key, rcon);
      FirstRoundKey(key, k, 7);
      ApplyRoundKey(buf, off, key, 0);
    }

    /** Adds the key of a deciphering round, rolling the window back before every other one. */
    method AddBackwardKey(buf: array<bv8>, off: nat, ghost k: Window, i: nat, rcon: bv8)
        returns (next: bv8)
      requires Valid() && off + 16 <= buf.Length && buf !in Repr
      requires Rolled(k, (i + 1) / 2, rcon)
      modifies buf, key
      ensures Rolled(k, i / 2, next)
      ensures Block(buf, off) == AddRoundKey(old(Block(buf, off)), RoundKey(k, i))
      ensures OnlyAt(buf, off, 16)
    {
      hide AddRoundKey, PreviousWindow, WindowAt, RoundKey, XTime, XTimeInv;
      next := rcon;
      WindowRoundKeys(k, i / 2);
      if i % 2 == 1 {
        WindowRetreats(k, i / 2);
        XTimeInverse(PowerOfX(i / 2));
        next := ExpandDecKey(key, rcon);
        ApplyRoundKey(buf, off, key, 16);
      } else {
        ApplyRoundKey(buf, off, key, 0);
      }
    }

    /** Deciphers one block in place. */
    method DecryptEcb(buf: array<bv8>, off: nat, ghost k: Window)
      requires Valid() && KeyedWith(k) && off + 16 <= buf.Length && buf !in Repr
      modifies buf, key
      ensures Block(buf, off) == InvCipher(k, old(Block(buf, off))) && OnlyAt(buf, off, 16)
      ensures KeyedWith(k)
    {
      hide InvSubBytes, InvShiftRows, InvMixColumns, AddRoundKey, WindowAt, RoundKey, XTime, Block, WindowOf;
      ghost var input := Block(buf, off);
      var rcon: bv8 := 0x80;
      SevenDoublings();
      ApplyRoundKeyCopy(buf, off, decKey, key);
      FirstRoundKey(decKey, k, 7);
      ApplyShiftRowsInv(buf, off);
      ApplySubBytesInv(buf, off);
      var i := 13;
      while i > 0
        invariant 0 <= i <= 13 && OnlyAt(buf, off, 16)
        invariant Block(buf, off) == InvSubBytes(InvShiftRows(InvRounds(k, input, i + 1)))
        invariant Rolled(k, (i + 1) / 2, rcon)
      {
        rcon := AddBackwardKey(buf, off, k, i, rcon);
        ApplyMixColumnsInv(buf, off);
        ApplyShiftRowsInv(buf, off);
        ApplySubBytesInv(buf, off);
        i := i - 1;
      }
      FirstRoundKey(key, k, 0);
      ApplyRoundKey(buf, off, key, 0);
    }
  }

  /** The first half of the j-th window is the key of round 2j. */
  lemma FirstRoundKey(a: array<bv8>, k: Window, j: nat)
    requires a.Length >= 32 && WindowOf(a) == WindowAt(k, j)
    ensures Block(a, 0) == RoundKey(k, 2 * j)
  {
    hide WindowAt, RoundKey;
    WindowRoundKeys(k, j);
  }
}
