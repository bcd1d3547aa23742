/**
 The random number generator: two linear feedback shift registers of 32 and 31 bits
 (source/tbx_random.c).
 */
module Random {
  import Gf2
  import Checksum

  const LFSR32_POLYMASK: bv32 := 0xB4BC_D35C
  const LFSR31_POLYMASK: bv32 := 0x7A5B_C2E3

  // ---------------------------------------------------------------- one register

  function Shifted(x: bv32, polymask: bv32): bv32 {
    if x & 1 == 1 then (x >> 1) ^ polymask else x >> 1
  }

  /** What a register was before a shift: the mask's highest bit records the feedback. */
  function Unshifted(x: bv32, polymask: bv32, top: bv32): bv32 {
    if x & top != 0 then ((x ^ polymask) << 1) | 1 else x << 1
  }

  lemma OddShiftUndone(x: bv32, polymask: bv32)
    requires x & 1 == 1
    ensures (((x >> 1) ^ polymask ^ polymask) << 1) | 1 == x
  {
    assert (x >> 1) ^ polymask ^ polymask == x >> 1;
    assert ((x >> 1) << 1) | 1 == x;
  }

  lemma EvenShiftUndone(x: bv32)
    requires x & 1 == 0
    ensures (x >> 1) << 1 == x
  {
  }

  lemma OddBackShifted(y: bv32)
    requires y & 0x8000_0000 == 0
    ensures ((y << 1) | 1) >> 1 == y && ((y << 1) | 1) & 1 == 1
  {
    assert ((y << 1) | 1) >> 1 == y;
    assert ((y << 1) | 1) & 1 == 1;
  }

  lemma EvenBackShifted(y: bv32)
    requires y & 0x8000_0000 == 0
    ensures (y << 1) >> 1 == y && (y << 1) & 1 == 0
  {
    assert (y << 1) >> 1 == y;
    assert (y << 1) & 1 == 0;
  }

  /** The shift of the 32-bit register is a bijection. */
  lemma Shift32Undone(x: bv32)
    ensures Unshifted(Shifted(x, LFSR32_POLYMASK), LFSR32_POLYMASK, 0x8000_0000) == x
  {
    if x & 1 == 1 {
      OddShiftUndone(x, LFSR32_POLYMASK);
      assert ((x >> 1) ^ LFSR32_POLYMASK) & 0x8000_0000 != 0;
    } else {
      assert x & 1 == 0;
      EvenShiftUndone(x);
      assert (x >> 1) & 0x8000_0000 == 0;
    }
  }

  lemma OddShift(x: bv32, y: bv32, polymask: bv32)
    requires x & 1 == 1 && x >> 1 == y
    ensures Shifted(x, polymask) == y ^ polymask
  {
  }

  lemma EvenShift(x: bv32, y: bv32, polymask: bv32)
    requires x & 1 == 0 && x >> 1 == y
    ensures Shifted(x, polymask) == y
  {
  }

  /** A register with the feedback recorded in its top bit is what comes from shifting its origin. */
  lemma OddOrigin(x: bv32, y: bv32, z: bv32, polymask: bv32)
    requires y == x ^ polymask && y & 0x8000_0000 == 0 && z == (y << 1) | 1
    ensures Shifted(z, polymask) == x
  {
    OddBackShifted(y);
    OddShift(z, y, polymask);
    AddedBack(x, y, polymask);
    hide Shifted;
  }

  lemma AddedBack(x: bv32, y: bv32, polymask: bv32)
    requires y == x ^ polymask
    ensures y ^ polymask == x
  {
  }

  lemma EvenOrigin(x: bv32, polymask: bv32)
    requires x & 0x8000_0000 == 0
    ensures Shifted(x << 1, polymask) == x
  {
    hide Shifted;
    EvenBackShifted(x);
    EvenShift(x << 1, x, polymask);
  }

  lemma OntoWithFeedback(x: bv32, y: bv32, z: bv32, polymask: bv32, top: bv32)
    requires x & top != 0 && y == x ^ polymask && y & 0x8000_0000 == 0 && z == (y << 1) | 1
    ensures Unshifted(x, polymask, top) == z && Shifted(z, polymask) == x
  {
    hide Shifted;
    OddOrigin(x, y, z, polymask);
  }

  lemma OntoWithout(x: bv32, z: bv32, polymask: bv32, top: bv32)
    requires x & top == 0 && x & 0x8000_0000 == 0 && z == x << 1
    ensures Unshifted(x, polymask, top) == z && Shifted(z, polymask) == x
  {
    hide Shifted;
    EvenOrigin(x, polymask);
  }

  lemma Shift32Onto(x: bv32)
    ensures Shifted(Unshifted(x, LFSR32_POLYMASK, 0x8000_0000), LFSR32_POLYMASK) == x
  {
    hide Shifted, Unshifted;
    if x & 0x8000_0000 != 0 {
      var y := x ^ LFSR32_POLYMASK;
      TopCancels32(x);
      OntoWithFeedback(x, y, (y << 1) | 1, LFSR32_POLYMASK, 0x8000_0000);
    } else {
      OntoWithout(x, x << 1, LFSR32_POLYMASK, 0x8000_0000);
    }
  }

  lemma TopCancels32(x: bv32)
    requires x & 0x8000_0000 != 0
    ensures (x ^ LFSR32_POLYMASK) & 0x8000_0000 == 0
  {
  }

  /** The shift of the other register maps every number to one of 31 bits ... */
  lemma Shift31Fits(x: bv32)
    ensures Shifted(x, LFSR31_POLYMASK) & 0x8000_0000 == 0
  {
  }

  /** ... and is a bijection on these. */
  lemma Shift31Undone(x: bv32)
    requires x & 0x8000_0000 == 0
    ensures Unshifted(Shifted(x, LFSR31_POLYMASK), LFSR31_POLYMASK, 0x4000_0000) == x
  {
    if x & 1 == 1 {
      OddShiftUndone(x, LFSR31_POLYMASK);
      assert ((x >> 1) ^ LFSR31_POLYMASK) & 0x4000_0000 != 0;
    } else {
      assert x & 1 == 0;
      EvenShiftUndone(x);
      assert (x >> 1) & 0x4000_0000 == 0;
    }
  }

  lemma Shift31Onto(x: bv32)
    requires x & 0x8000_0000 == 0
    ensures Shifted(Unshifted(x, LFSR31_POLYMASK, 0x4000_0000), LFSR31_POLYMASK) == x
    ensures Unshifted(x, LFSR31_POLYMASK, 0x4000_0000) & 0x8000_0000 == 0
  {
    hide Shifted, Unshifted;
    if x & 0x4000_0000 != 0 {
      var y := x ^ LFSR31_POLYMASK;
      TopCancels31(x);
      OntoWithFeedback(x, y, (y << 1) | 1, LFSR31_POLYMASK, 0x4000_0000);
      OddOriginFits(x);
    } else {
      OntoWithout(x, x << 1, LFSR31_POLYMASK, 0x4000_0000);
      EvenOriginFits(x);
    }
  }

  lemma TopCancels31(x: bv32)
    requires x & 0x8000_0000 == 0
    ensures (x ^ LFSR31_POLYMASK) & 0x8000_0000 == 0
  {
  }

  lemma OddOriginFits(x: bv32)
    requires x & 0x4000_0000 != 0
    ensures (((x ^ LFSR31_POLYMASK) << 1) | 1) & 0x8000_0000 == 0
  {
  }

  lemma EvenOriginFits(x: bv32)
    requires x & 0x4000_0000 == 0
    ensures (x << 1) & 0x8000_0000 == 0
  {
  }

  /** Zero comes from zero only. */
  lemma Shift32Zero(x: bv32)
    ensures Shifted(x, LFSR32_POLYMASK) == 0 <==> x == 0
  {
  }

  /** In the other register it also comes from one number that does not fit into 31 bits. */
  lemma Shift31Zero(x: bv32)
    ensures Shifted(x, LFSR31_POLYMASK) == 0 <==> x == 0 || x == 0xF4B7_85C7
  {
  }

  // ---------------------------------------------------------------- the generator

  datatype Generator = Generator(r32: bv32, r31: bv32)

  /** The step of one 16-bit number: the 32-bit register is shifted twice, the other one once. */
  function Next(g: Generator): Generator {
    Generator(Shifted(Shifted(g.r32, LFSR32_POLYMASK), LFSR32_POLYMASK), Shifted(g.r31, LFSR31_POLYMASK))
  }

  /** The state after n steps. */
  function Iterate(g: Generator, n: nat): Generator {
    if n == 0 then g else Next(Iterate(g, n - 1))
  }

  predicate Fits(g: Generator) {
    g.r31 & 0x8000_0000 == 0
  }

  lemma {:induction false} IterateFits(g: Generator, n: nat)
    requires n > 0
    ensures Fits(Iterate(g, n))
  {
    Shift31Fits(Iterate(g, n - 1).r31);
  }

  lemma NextInjective(g: Generator, h: Generator)
    requires Fits(g) && Fits(h) && Next(g) == Next(h)
    ensures g == h
  {
    hide Shifted, Unshifted;
    Shift32Undone(g.r32);
    Shift32Undone(h.r32);
    Shift32Undone(Shifted(g.r32, LFSR32_POLYMASK));
    Shift32Undone(Shifted(h.r32, LFSR32_POLYMASK));
    Shift31Undone(g.r31);
    Shift31Undone(h.r31);
  }

  // ---------------------------------------------------------------- zero

  lemma {:induction false} ZeroComesFromSeed32(g: Generator, n: nat)
    ensures Iterate(g, n).r32 == 0 <==> g.r32 == 0
  {
    hide Shifted;
    if n > 0 {
      var p := Iterate(g, n - 1);
      ZeroComesFromSeed32(g, n - 1);
      Shift32Zero(p.r32);
      Shift32Zero(Shifted(p.r32, LFSR32_POLYMASK));
    }
  }

  lemma {:induction false} ZeroComesFromSeed31(g: Generator, n: nat)
    requires n > 0
    ensures Iterate(g, n).r31 == 0 <==> g.r31 == 0 || g.r31 == 0xF4B7_85C7
  {
    hide Shifted;
    var p := Iterate(g, n - 1);
    Shift31Zero(p.r31);
    if n > 1 {
      ZeroComesFromSeed31(g, n - 1);
      IterateFits(g, n - 1);
      TooLarge(p.r31);
    }
  }

  lemma TooLarge(x: bv32)
    requires x & 0x8000_0000 == 0
    ensures x != 0xF4B7_85C7
  {
  }

  /**
   The first register stays non-zero exactly if its seed is.  The second one does exactly if its
   seed is neither zero nor the one larger number that shifts to zero.
   */
  lemma NeverZeroIff(g: Generator)
    ensures (forall n: nat :: Iterate(g, n).r32 != 0) <==> g.r32 != 0
    ensures (forall n: nat :: Iterate(g, n).r31 != 0) <==> g.r31 != 0 && g.r31 != 0xF4B7_85C7
  {
    NeverZero32Iff(g);
    NeverZero31Iff(g);
    hide Iterate;
  }

  lemma NeverZero32Iff(g: Generator)
    ensures (forall n: nat :: Iterate(g, n).r32 != 0) <==> g.r32 != 0
  {
    assert Iterate(g, 0) == g;
    hide Iterate;
    if g.r32 != 0 {
      forall n: nat
        ensures Iterate(g, n).r32 != 0
      {
        ZeroComesFromSeed32(g, n);
      }
    }
  }

  lemma NeverZero31Iff(g: Generator)
    ensures (forall n: nat :: Iterate(g, n).r31 != 0) <==> g.r31 != 0 && g.r31 != 0xF4B7_85C7
  {
    assert Iterate(g, 0) == g;
    hide Iterate;
    ZeroComesFromSeed31(g, 1);
    if g.r31 != 0 && g.r31 != 0xF4B7_85C7 {
      forall n: nat
        ensures Iterate(g, n).r31 != 0
      {
        if n > 0 { ZeroComesFromSeed31(g, n); }
      }
    }
  }

  // ---------------------------------------------------------------- periodicity

  function Power(n: nat): nat {
    if n == 0 then 1 else 2 * Power(n - 1)
  }

  /** The number that the bits make, the first bit being the lowest. */
  function Value(bits: Gf2.Poly): (v: nat)
    ensures v < Power(|bits|)
  {
    if bits == [] then 0 else (if bits[0] then 1 else 0) + 2 * Value(bits[1..])
  }

  lemma {:induction false} ValueInjective(a: Gf2.Poly, b: Gf2.Poly)
    requires |a| == |b| && Value(a) == Value(b)
    ensures a == b
  {
    if a != [] {
      assert a[0] == b[0];
      ValueInjective(a[1..], b[1..]);
      assert a == [a[0]] + a[1..] && b == [b[0]] + b[1..];
    }
  }

  /** A number for every state. */
  function Code(g: Generator): (c: nat)
    ensures c < Power(64)
  {
    Value(Checksum.Bits32(g.r32) + Checksum.Bits32(g.r31))
  }

  lemma CodeInjective(g: Generator, h: Generator)
    requires Code(g) == Code(h)
    ensures g == h
  {
    hide Checksum.Bits32, Value;
    var a, b := Checksum.Bits32(g.r32) + Checksum.Bits32(g.r31), Checksum.Bits32(h.r32) + Checksum.Bits32(h.r31);
    ValueInjective(a, b);
    assert a[..32] == Checksum.Bits32(g.r32) && b[..32] == Checksum.Bits32(h.r32);
    assert a[32..] == Checksum.Bits32(g.r31) && b[32..] == Checksum.Bits32(h.r31);
    Checksum.Bits32Injective(g.r32, h.r32);
    Checksum.Bits32Injective(g.r31, h.r31);
  }

  /** More than n numbers below n cannot all be different. */
  lemma {:induction false} Pigeonhole(xs: seq<nat>, n: nat) returns (i: nat, j: nat)
    requires |xs| > n && forall k | 0 <= k < |xs| :: xs[k] < n
    ensures i < j < |xs| && xs[i] == xs[j]
    decreases n
  {
    if k, l :| 0 <= k < l < |xs| && xs[k] == xs[l] == n - 1 {
      i, j := k, l;
    } else if k :| 0 <= k < |xs| && xs[k] == n - 1 {
      var rest := xs[..k] + xs[k + 1..];
      assert forall l | 0 <= l < |rest| :: rest[l] == xs[if l < k then l else l + 1];
      i, j := Pigeonhole(rest, n - 1);
      i, j := if i < k then i else i + 1, if j < k then j else j + 1;
    } else {
      assert n > 0 by { assert xs[0] < n; }
      i, j := Pigeonhole(xs, n - 1);
    }
  }

  lemma {:induction false} BackToStart(g: Generator, i: nat, p: nat)
    requires Fits(g) && Iterate(g, i) == Iterate(g, i + p)
    ensures Iterate(g, p) == g
  {
    hide Next, Fits;
    if i > 0 {
      FitsAlways(g, i - 1);
      FitsAlways(g, i + p - 1);
      NextInjective(Iterate(g, i - 1), Iterate(g, i + p - 1));
      BackToStart(g, i - 1, p);
    }
  }

  lemma FitsAlways(g: Generator, n: nat)
    requires Fits(g)
    ensures Fits(Iterate(g, n))
  {
    if n > 0 { IterateFits(g, n); }
  }

  /**
   The generator comes back to the state it started from, after at most 2^64 steps, exactly if
   the second register starts with a number of 31 bits.
   */
  lemma PurelyPeriodicIff(g: Generator)
    ensures (exists p :: 0 < p <= Power(64) && Iterate(g, p) == g) <==> Fits(g)
  {
    if Fits(g) {
      var p := SomePeriod(g);
      assert Iterate(g, p) == g;
    } else {
      forall p: nat | p > 0
        ensures Iterate(g, p) != g
      {
        IterateFits(g, p);
      }
    }
    hide Iterate, Power, Fits;
  }

  lemma SomePeriod(g: Generator) returns (p: nat)
    requires Fits(g)
    ensures 0 < p <= Power(64) && Iterate(g, p) == g
  {
    hide Power, Fits, Next, Code;
    var xs := seq(Power(64) + 1, (i: nat) => Code(Iterate(g, i)));
    var i, j := Pigeonhole(xs, Power(64));
    p := j - i;
    CodeInjective(Iterate(g, i), Iterate(g, j));
    BackToStart(g, i, p);
  }

  // ---------------------------------------------------------------- the functions

  const DEFAULT_SEED32: bv32 := 0xA_BCDE
  const DEFAULT_SEED31: bv32 := 0x2345_6789

  /** The application's seed handler, as the values that its two calls return. */
  datatype Handler = NoHandler | Handler(first: bv32, second: bv32)

  /** Zero seeds are replaced; numbers that do not fit into 31 bits are not. */
  function SeededBy(handler: Handler): Generator {
    match handler
    case NoHandler => Generator(DEFAULT_SEED32, DEFAULT_SEED31)
    case Handler(first, second) =>
      Generator(if first == 0 then DEFAULT_SEED32 else first, if second == 0 then DEFAULT_SEED31 else second)
  }

  function LowHalf(x: bv32): bv16 {
    (x & 0xFFFF) as bv16
  }

  function Number16(g: Generator): bv16 {
    LowHalf(Checksum.Plus(g.r32, g.r31))
  }

  lemma NumberIs(a: bv32, b: bv32)
    ensures Number16(Generator(a, b)) == ((a ^ b) & 0xFFFF) as bv16
  {
  }

  /** Both registers count, with their low halves: adding to one of them adds its low half. */
  lemma NumberAddsBoth(a: bv32, b: bv32, d: bv32)
    ensures Number16(Generator(a, b ^ d)) == Number16(Generator(a, b)) ^ LowHalf(d)
    ensures Number16(Generator(a ^ d, b)) == Number16(Generator(a, b)) ^ LowHalf(d)
    ensures Number16(Generator(0, 0)) == 0
  {
    NumberAdds31(a, b, d);
    NumberAdds32(a, b, d);
    NumberOfZero();
    Checksum.PlusIs(b, d);
    Checksum.PlusIs(a, d);
    hide Number16, LowHalf, Checksum.Plus;
  }

  lemma NumberAdds31(a: bv32, b: bv32, d: bv32)
    ensures Number16(Generator(a, Checksum.Plus(b, d))) == Number16(Generator(a, b)) ^ LowHalf(d)
  {
    hide LowHalf, Checksum.Plus;
    LowHalfAdds(Checksum.Plus(a, b), d);
    PlusRegroups(a, b, d);
  }

  lemma NumberAdds32(a: bv32, b: bv32, d: bv32)
    ensures Number16(Generator(Checksum.Plus(a, d), b)) == Number16(Generator(a, b)) ^ LowHalf(d)
  {
    hide LowHalf, Checksum.Plus;
    LowHalfAdds(Checksum.Plus(a, b), d);
    PlusRegroups(a, b, d);
  }

  lemma NumberOfZero()
    ensures Number16(Generator(0, 0)) == 0
  {
  }

  lemma PlusRegroups(a: bv32, b: bv32, d: bv32)
    ensures Checksum.Plus(a, Checksum.Plus(b, d)) == Checksum.Plus(Checksum.Plus(a, b), d)
    ensures Checksum.Plus(Checksum.Plus(a, d), b) == Checksum.Plus(Checksum.Plus(a, b), d)
  {
  }

  lemma LowHalfAdds(x: bv32, d: bv32)
    ensures LowHalf(Checksum.Plus(x, d)) == LowHalf(x) ^ LowHalf(d)
  {
  }

  /** Seeds that are not zero are used as they are; for zero there is the default. */
  lemma SeedsAreUsed(first: bv32, second: bv32)
    requires first != 0 && second != 0
    ensures SeededBy(Handler(first, second)) == Generator(first, second)
    ensures SeededBy(Handler(first, 0)) == Generator(first, SeededBy(NoHandler).r31)
    ensures SeededBy(Handler(0, second)) == Generator(SeededBy(NoHandler).r32, second)
    ensures SeededBy(Handler(0, 0)) == SeededBy(NoHandler)
  {
  }

  /** A 32-bit number out of two of 16 bits, the first one above. */
  function Combined(high: bv16, low: bv16): bv32 {
    ((high as bv32) << 16) | (low as bv32)
  }

  lemma CombinedIs(high: bv16, low: bv16)
    ensures Combined(high, low) == ((high as bv32) << 16) | (low as bv32)
  {
  }

  lemma TwoShifts32(x: bv32, y: bv32, z: bv32, s: bv32, t: bv32)
    requires Shifted(x, LFSR32_POLYMASK) == y && Shifted(y, LFSR32_POLYMASK) == z
    requires Shifted(s, LFSR31_POLYMASK) == t
    ensures Next(Generator(x, s)) == Generator(z, t)
  {
    hide Shifted;
  }

  /** Where the generator is after its first number, without a handler, and what that number is. */
  lemma FirstNumber()
    ensures var g := SeededBy(NoHandler);
      && Iterate(g, 2) == Generator(0xC3CD_25E8, 0x4FA7_7A70)
      && Combined(Number16(Iterate(g, 1)), Number16(Iterate(g, 2))) == 0x0D4C_5F98
  {
    var g := SeededBy(NoHandler);
    TwoShifts32(0x000A_BCDE, 0x0005_5E6F, 0xB4BE_7C6B, 0x2345_6789, 0x6BF9_7127);
    TwoShifts32(0xB4BE_7C6B, 0xEEE3_ED69, 0xC3CD_25E8, 0x6BF9_7127, 0x4FA7_7A70);
    assert Iterate(g, 0) == g;
    assert Iterate(g, 1) == Next(g);
  }

  /**
   Whatever the handler returns, the first register never gets stuck at zero.  The second one
   does for one single seed, and the numbers repeat from the first one on unless the second
   seed has its highest bit set.
   */
  lemma WhatSeedsAchieve(handler: Handler)
    ensures forall n: nat :: Iterate(SeededBy(handler), n).r32 != 0
    ensures (forall n: nat :: Iterate(SeededBy(handler), n).r31 != 0)
            <==> !(handler.Handler? && handler.second == 0xF4B7_85C7)
    ensures (exists p :: 0 < p <= Power(64) && Iterate(SeededBy(handler), p) == SeededBy(handler))
            <==> !(handler.Handler? && handler.second & 0x8000_0000 != 0)
  {
    hide Iterate, Power;
    NeverZeroIff(SeededBy(handler));
    PurelyPeriodicIff(SeededBy(handler));
  }

  /** The storage of a register, that the shift gets a pointer to. */
  class Register {
    var value: bv32

    constructor ()
      ensures value == 0
    {
      value := 0;
    }
  }

  method ShiftLFSR(lfsr: Register?, polymask: bv32) returns (result: bv32)
    modifies lfsr
    ensures lfsr == null ==> result == 0
    ensures lfsr != null ==> lfsr.value == Shifted(old(lfsr.value), polymask) && result == lfsr.value
  {
    result := 0;
    if lfsr != null {
      var feedback := lfsr.value & 1;
      lfsr.value := lfsr.value >> 1;
      if feedback == 1 {
        lfsr.value := lfsr.value ^ polymask;
      }
      result := lfsr.value;
    }
  }

  class RandomNumbers {
    const lfsr32: Register
    const lfsr31: Register
    var seedInitHandler: Handler
    var seeded: bool

    ghost predicate Valid() {
      lfsr32 != lfsr31
    }

    ghost function State(): Generator
      reads lfsr32, lfsr31
    {
      Generator(lfsr32.value, lfsr31.value)
    }

    constructor ()
      ensures Valid() && fresh(lfsr32) && fresh(lfsr31) && !seeded && seedInitHandler.NoHandler?
    {
      lfsr32 := new Register();
      lfsr31 := new Register();
      seedInitHandler, seeded := NoHandler, false;
    }

    method SetSeedInitHandler(handler: Handler)
      modifies this`seedInitHandler
      ensures seedInitHandler == if handler.Handler? then handler else old(seedInitHandler)
    {
      if handler.Handler? {
        seedInitHandler := handler;
      }
    }

    method InitLFSRs()
      requires Valid()
      modifies lfsr32, lfsr31
      ensures State() == SeededBy(seedInitHandler)
    {
      var seedLFSR32, seedLFSR31 := DEFAULT_SEED32, DEFAULT_SEED31;
      if seedInitHandler.Handler? {
        seedLFSR32, seedLFSR31 := seedInitHandler.first, seedInitHandler.second;
      }
      if seedLFSR32 == 0 {
        seedLFSR32 := DEFAULT_SEED32;
      }
      if seedLFSR31 == 0 {
        seedLFSR31 := DEFAULT_SEED31;
      }
      lfsr32.value := seedLFSR32;
      lfsr31.value := seedLFSR31;
    }

    method Number16BitGet() returns (result: bv16)
      requires Valid()
      modifies lfsr32, lfsr31
      ensures State() == Next(old(State())) && result == Number16(State())
    {
      hide Shifted, Number16;
      var first := ShiftLFSR(lfsr32, LFSR32_POLYMASK);
      var secondShift := ShiftLFSR(lfsr32, LFSR32_POLYMASK);
      var firstShift := ShiftLFSR(lfsr31, LFSR31_POLYMASK);
      result := ((secondShift ^ firstShift) & 0xFFFF) as bv16;
      NumberIs(secondShift, firstShift);
    }

    /** The next two 16-bit numbers of the sequence that starts at the seeds. */
    method NumberGet() returns (result: bv32)
      requires Valid()
      modifies this`seeded, lfsr32, lfsr31
      ensures seeded
      ensures var g := if old(seeded) then old(State()) else SeededBy(seedInitHandler);
        && State() == Iterate(g, 2)
        && result == Combined(Number16(Iterate(g, 1)), Number16(Iterate(g, 2)))
    {
      hide Next, Number16, SeededBy, Combined;
      if !seeded {
        InitLFSRs();
        seeded := true;
      }
      ghost var g := State();
      assert Iterate(g, 0) == g;
      assert Iterate(g, 1) == Next(g);
      var high := Number16BitGet();
      var low := Number16BitGet();
      result := (high as bv32) << 16;
      result := result | (low as bv32);
      CombinedIs(high, low);
    }
  }
}
