/**
 Polynomials over GF(2), written with the coefficient of the highest power first, and cyclic
 redundancy checks as remainders of their division.
 */
module Gf2 {

  type Poly = seq<bool>

  function Zeros(n: nat): (r: Poly)
    ensures |r| == n && forall i | 0 <= i < n :: !r[i]
  {
    seq(n, i => false)
  }

  /** The sum of two polynomials of the same length. */
  function Sum(a: Poly, b: Poly): (r: Poly)
    requires |a| == |b|
    ensures |r| == |a| && forall i | 0 <= i < |r| :: r[i] == (a[i] != b[i])
  {
    seq(|a|, i requires 0 <= i < |a| => a[i] != b[i])
  }

  /** A polynomial times a coefficient. */
  function Times(c: bool, a: Poly): (r: Poly)
    ensures |r| == |a| && forall i | 0 <= i < |r| :: r[i] == (c && a[i])
  {
    if c then a else Zeros(|a|)
  }

  /** The product of a polynomial with one that has n coefficients and highest coefficient 1. */
  function Product(q: Poly, g: Poly): (r: Poly)
    ensures |r| == |q| + |g|
  {
    if q == [] then Zeros(|g|)
    else Sum(Times(q[0], [true] + g + Zeros(|q| - 1)), [false] + Product(q[1..], g))
  }

  /**
   Dividing d by the polynomial with the coefficients 1, g gives the quotient q and the
   remainder r, of lower degree than the divisor.
   */
  predicate IsDivision(d: Poly, g: Poly, q: Poly, r: Poly) {
    && |d| == |q| + |g| && |r| == |g|
    && d == Sum(Product(q, g), Zeros(|q|) + r)
  }

  ghost predicate IsRemainder(d: Poly, g: Poly, r: Poly) {
    exists q :: IsDivision(d, g, q, r)
  }

  /** Quotient and remainder of a division are unique. */
  lemma {:induction false} DivisionIsUnique(d: Poly, g: Poly, q: Poly, r: Poly, q': Poly, r': Poly)
    requires IsDivision(d, g, q, r) && IsDivision(d, g, q', r')
    ensures q == q' && r == r'
    decreases |q|
  {
    DivisionHead(d, g, q, r);
    DivisionHead(d, g, q', r');
    if q == [] {
      assert r == d == r';
    } else {
      var rest := Sum(d, Times(d[0], [true] + g + Zeros(|q| - 1)))[1..];
      DivisionIsUnique(rest, g, q[1..], r, q'[1..], r');
      assert q == [q[0]] + q[1..] && q' == [q'[0]] + q'[1..];
    }
  }

  /** The highest coefficient of the quotient is that of the dividend; the rest is divided on. */
  lemma DivisionHead(d: Poly, g: Poly, q: Poly, r: Poly)
    requires IsDivision(d, g, q, r)
    ensures q == [] ==> r == d
    ensures q != [] ==>
      && q[0] == d[0]
      && IsDivision(Sum(d, Times(d[0], [true] + g + Zeros(|q| - 1)))[1..], g, q[1..], r)
  {
    if q != [] {
      var top, low := Times(q[0], [true] + g + Zeros(|q| - 1)), Product(q[1..], g);
      assert Product(q, g) == Sum(top, [false] + low);
      ZerosPrepended(|q| - 1, r);
      hide Product, IsDivision, Times, Sum, Zeros;
      SumPrepended(top, low, Zeros(|q| - 1) + r);
      DivisionRest(d, g, q[0], low, Zeros(|q| - 1) + r, top);
      DivisionBy(Sum(d, top)[1..], g, q[1..], r);
    }
  }

  lemma DivisionBy(d: Poly, g: Poly, q: Poly, r: Poly)
    requires |d| == |q| + |g| && |r| == |g| && d == Sum(Product(q, g), Zeros(|q|) + r)
    ensures IsDivision(d, g, q, r)
  {
  }

  lemma DivisionRest(d: Poly, g: Poly, c: bool, a: Poly, b: Poly, top: Poly)
    requires |top| == |d| == |a| + 1 == |b| + 1 >= |g| + 1
    requires top == Times(c, [true] + g + Zeros(|d| - |g| - 1))
    requires d == Sum(top, [false] + Sum(a, b))
    ensures c == d[0] && Sum(d, top)[1..] == Sum(a, b)
  {
  }

  lemma ZerosPrepended(n: nat, r: Poly)
    ensures Zeros(n + 1) + r == [false] + (Zeros(n) + r)
  {
  }

  lemma SumPrepended(top: Poly, a: Poly, b: Poly)
    requires |top| == |a| + 1 == |b| + 1
    ensures Sum(top, [false] + Sum(a, b)) == Sum(Sum(top, [false] + a), [false] + b)
  {
  }

  // ---------------------------------------------------------------- the shift register

  /** One bit of a message goes into the register. */
  function Step(g: Poly, r: Poly, bit: bool): (r': Poly)
    requires |r| == |g| > 0
    ensures |r'| == |g|
  {
    Sum(r[1..] + [false], Times(r[0] != bit, g))
  }

  /** The register after all bits of a message. */
  function Run(g: Poly, r: Poly, bits: Poly): (r': Poly)
    requires |r| == |g| > 0
    ensures |r'| == |g|
    decreases |bits|
  {
    if bits == [] then r else Run(g, Step(g, r, bits[0]), bits[1..])
  }

  /** A message may be processed in parts: the second one starts where the first one ended. */
  lemma {:induction false} RunConcat(g: Poly, r: Poly, a: Poly, b: Poly)
    requires |r| == |g| > 0
    ensures Run(g, r, a + b) == Run(g, Run(g, r, a), b)
    decreases |a|
  {
    if a == [] {
      assert a + b == b;
    } else {
      assert (a + b)[1..] == a[1..] + b;
      RunConcat(g, Step(g, r, a[0]), a[1..], b);
    }
  }

  /** What is divided: the initial value and the message, both in front. */
  function Dividend(r: Poly, bits: Poly): (d: Poly)
    ensures |d| == |r| + |bits|
  {
    Sum(r + Zeros(|bits|), bits + Zeros(|r|))
  }

  /**
   The register after a message is the remainder of the division of
   r x^n + bits x^w by the polynomial with the coefficients 1, g.
   */
  lemma {:induction false} RunIsRemainder(g: Poly, r: Poly, bits: Poly) returns (q: Poly)
    requires |r| == |g| > 0
    ensures IsDivision(Dividend(r, bits), g, q, Run(g, r, bits))
    decreases |bits|
  {
    if bits == [] {
      q := [];
      NothingToDivide(g, r);
    } else {
      var next := Step(g, r, bits[0]);
      var q1 := RunIsRemainder(g, next, bits[1..]);
      q := [r[0] != bits[0]] + q1;
      assert Run(g, r, bits) == Run(g, next, bits[1..]);
      DividendStep(g, r, bits);
      DivisionExtended(Dividend(next, bits[1..]), g, q1, Run(g, r, bits), r[0] != bits[0],
                       Dividend(r, bits));
      hide IsDivision, Dividend, Step, Run;
    }
  }

  lemma NothingToDivide(g: Poly, r: Poly)
    requires |r| == |g|
    ensures IsDivision(Dividend(r, []), g, [], r)
  {
  }

  /** The converse of DivisionHead. */
  lemma DivisionExtended(d: Poly, g: Poly, q: Poly, r: Poly, c: bool, d': Poly)
    requires IsDivision(d, g, q, r) && |d'| == |d| + 1
    requires d' == Sum(Times(c, [true] + g + Zeros(|q|)), [false] + d)
    ensures IsDivision(d', g, [c] + q, r)
  {
    var top, low := Times(c, [true] + g + Zeros(|q|)), Product(q, g);
    ProductPrepended(c, q, g);
    ZerosPrepended(|q|, r);
    SumPrepended(top, low, Zeros(|q|) + r);
    hide Product, Times, Sum, Zeros;
  }

  lemma ProductPrepended(c: bool, q: Poly, g: Poly)
    ensures Product([c] + q, g) == Sum(Times(c, [true] + g + Zeros(|q|)), [false] + Product(q, g))
  {
    assert ([c] + q)[1..] == q;
  }

  lemma DividendStep(g: Poly, r: Poly, bits: Poly)
    requires |r| == |g| > 0 && bits != []
    ensures var c, n := r[0] != bits[0], |bits| - 1;
      Dividend(r, bits)
      == Sum(Times(c, [true] + g + Zeros(n)), [false] + Dividend(Step(g, r, bits[0]), bits[1..]))
  {
    var c, n := r[0] != bits[0], |bits| - 1;
    var d, e := Dividend(r, bits), Dividend(Step(g, r, bits[0]), bits[1..]);
    var top := Times(c, [true] + g + Zeros(n));
    forall i | 0 <= i < |d|
      ensures d[i] == (top[i] != ([false] + e)[i])
    {
      DividendCoefficient(g, r, bits, i);
    }
    hide Dividend, Step;
  }

  lemma DividendCoefficient(g: Poly, r: Poly, bits: Poly, i: nat)
    requires |r| == |g| > 0 && bits != [] && i < |r| + |bits|
    ensures var c, n := r[0] != bits[0], |bits| - 1;
      Dividend(r, bits)[i]
      == (Times(c, [true] + g + Zeros(n))[i] != ([false] + Dividend(Step(g, r, bits[0]), bits[1..]))[i])
  {
    var c, n := r[0] != bits[0], |bits| - 1;
    var d, next := Dividend(r, bits), Step(g, r, bits[0]);
    var e := Dividend(next, bits[1..]);
    if i > 0 {
      var j := i - 1;
      assert e[j] == ((next + Zeros(n))[j] != (bits[1..] + Zeros(|g|))[j]);
      assert (bits + Zeros(|g|))[i] == (bits[1..] + Zeros(|g|))[j];
      if j < |g| - 1 {
        assert next[j] == (r[i] != (c && g[j]));
      }
    }
  }

  /** Exactly the register after the message is a remainder of that division. */
  lemma RunIsTheRemainder(g: Poly, r: Poly, bits: Poly, rest: Poly)
    requires |r| == |g| > 0
    ensures rest == Run(g, r, bits) <==> IsRemainder(Dividend(r, bits), g, rest)
  {
    var q := RunIsRemainder(g, r, bits);
    hide IsDivision, Dividend, Run;
    forall q' | IsDivision(Dividend(r, bits), g, q', rest)
      ensures rest == Run(g, r, bits)
    {
      DivisionIsUnique(Dividend(r, bits), g, q, Run(g, r, bits), q', rest);
    }
  }

  // ---------------------------------------------------------------- linearity

  /** Processing the same bit, the register depends linearly on what it was. */
  lemma StepLinear(g: Poly, r: Poly, s: Poly, a: bool, b: bool)
    requires |r| == |s| == |g| > 0
    ensures Step(g, Sum(r, s), a != b) == Sum(Step(g, r, a), Step(g, s, b))
  {
  }

  /** With an odd divisor, one that does not divide by x, no two registers become the same. */
  lemma StepInjective(g: Poly, r: Poly, s: Poly, bit: bool)
    requires |r| == |s| == |g| > 0 && g[|g| - 1] && r != s
    ensures Step(g, r, bit) != Step(g, s, bit)
  {
    var r', s' := Step(g, r, bit), Step(g, s, bit);
    if r' == s' {
      assert r'[|g| - 1] == (r[0] != bit) && s'[|g| - 1] == (s[0] != bit);
      forall i | 0 <= i < |r|
        ensures r[i] == s[i]
      {
        if i > 0 {
          assert r'[i - 1] == s'[i - 1];
        }
      }
    }
  }

  lemma {:induction false} RunInjective(g: Poly, r: Poly, s: Poly, bits: Poly)
    requires |r| == |s| == |g| > 0 && g[|g| - 1] && r != s
    ensures Run(g, r, bits) != Run(g, s, bits)
    decreases |bits|
  {
    if bits != [] {
      StepInjective(g, r, s, bits[0]);
      RunInjective(g, Step(g, r, bits[0]), Step(g, s, bits[0]), bits[1..]);
    }
  }

  /** The register after n zero bits. */
  function Idle(g: Poly, r: Poly, n: nat): (r': Poly)
    requires |r| == |g| > 0
    ensures |r'| == |g|
    decreases n
  {
    if n == 0 then r else Idle(g, Step(g, r, false), n - 1)
  }

  lemma IdleIsRun(g: Poly, r: Poly, n: nat)
    requires |r| == |g| > 0
    ensures Idle(g, r, n) == Run(g, r, Zeros(n))
    decreases n
  {
    if n == 0 {
      assert Zeros(n) == [];
    } else {
      assert Zeros(n)[1..] == Zeros(n - 1);
      IdleIsRun(g, Step(g, r, false), n - 1);
    }
  }

  /**
   Up to as many bits as the register has may be added to it all at once, before the steps
   instead of one by one during them.
   */
  lemma {:induction false} RunAddsAtOnce(g: Poly, r: Poly, bits: Poly)
    requires |r| == |g| > 0 && |bits| <= |g|
    ensures Run(g, r, bits) == Idle(g, Sum(r, bits + Zeros(|g| - |bits|)), |bits|)
    decreases |bits|
  {
    if bits == [] {
      assert Sum(r, bits + Zeros(|g|)) == r;
    } else {
      var padded := Sum(r, bits + Zeros(|g| - |bits|));
      var next := Step(g, r, bits[0]);
      assert Step(g, padded, false) == Sum(next, bits[1..] + Zeros(|g| - |bits| + 1));
      RunAddsAtOnce(g, next, bits[1..]);
    }
  }

  // ---------------------------------------------------------------- what the remainder detects

  lemma SumsDiffer(r: Poly, a: Poly, b: Poly)
    requires |a| == |b| <= |r| && a != b
    ensures Sum(r, a + Zeros(|r| - |a|)) != Sum(r, b + Zeros(|r| - |a|))
  {
    var ra, rb := Sum(r, a + Zeros(|r| - |a|)), Sum(r, b + Zeros(|r| - |a|));
    var i :| 0 <= i < |a| && a[i] != b[i];
    assert ra[i] != rb[i];
  }

  /** Two different bursts no longer than the register lead to different registers. */
  lemma BurstChanges(g: Poly, r: Poly, a: Poly, b: Poly)
    requires |r| == |g| > 0 && g[|g| - 1]
    requires |a| == |b| <= |g| && a != b
    ensures Run(g, r, a) != Run(g, r, b)
  {
    var n := |a|;
    var ra, rb := Sum(r, a + Zeros(|g| - n)), Sum(r, b + Zeros(|g| - n));
    RunAddsAtOnce(g, r, a);
    RunAddsAtOnce(g, r, b);
    IdleIsRun(g, ra, n);
    IdleIsRun(g, rb, n);
    SumsDiffer(r, a, b);
    RunInjective(g, ra, rb, Zeros(n));
  }

  /**
   Two messages of the same length that differ, but only within a window of as many bits as
   the register has, have different remainders.
   */
  lemma BurstDetected(g: Poly, r: Poly, a: Poly, b: Poly, lo: nat, hi: nat)
    requires |r| == |g| > 0 && g[|g| - 1]
    requires |a| == |b| && lo <= hi <= |a| && hi - lo <= |g|
    requires a[..lo] == b[..lo] && a[hi..] == b[hi..] && a != b
    ensures Run(g, r, a) != Run(g, r, b)
  {
    var start := Run(g, r, a[..lo]);
    var ma, mb := a[lo..hi], b[lo..hi];
    assert a == a[..lo] + ma + a[hi..] && b == b[..lo] + mb + b[hi..];
    assert ma != mb;
    BurstChanges(g, start, ma, mb);
    RunConcat(g, r, a[..lo] + ma, a[hi..]);
    RunConcat(g, r, a[..lo], ma);
    RunConcat(g, r, b[..lo] + mb, b[hi..]);
    RunConcat(g, r, b[..lo], mb);
    RunInjective(g, Run(g, start, ma), Run(g, start, mb), a[hi..]);
  }

  /** A register that takes in itself becomes zero. */
  lemma RunOfItself(g: Poly, r: Poly)
    requires |r| == |g| > 0
    ensures Run(g, r, r) == Zeros(|g|)
  {
    RunAddsAtOnce(g, r, r);
    assert Sum(r, r + Zeros(0)) == Zeros(|g|);
    IdleZero(g, |g|);
  }

  lemma {:induction false} IdleZero(g: Poly, n: nat)
    requires |g| > 0
    ensures Idle(g, Zeros(|g|), n) == Zeros(|g|)
  {
    if n > 0 {
      assert Step(g, Zeros(|g|), false) == Zeros(|g|);
      IdleZero(g, n - 1);
    }
  }

  /** A message with w more bits has the remainder zero exactly if these are its own remainder. */
  lemma ZeroResidue(g: Poly, r: Poly, bits: Poly, tail: Poly)
    requires |r| == |g| == |tail| > 0 && g[|g| - 1]
    ensures Run(g, r, bits + tail) == Zeros(|g|) <==> tail == Run(g, r, bits)
  {
    var crc := Run(g, r, bits);
    RunConcat(g, r, bits, tail);
    RunOfItself(g, crc);
    if tail != crc {
      BurstChanges(g, crc, tail, crc);
    }
  }

  // ---------------------------------------------------------------- errors in an odd number of bits

  function Ones(a: Poly): nat {
    if a == [] then 0 else (if a[0] then 1 else 0) + Ones(a[1..])
  }

  predicate Odd(a: Poly) {
    Ones(a) % 2 == 1
  }

  lemma {:induction false} OddSum(a: Poly, b: Poly)
    requires |a| == |b|
    ensures Odd(Sum(a, b)) <==> Odd(a) != Odd(b)
  {
    if a != [] {
      assert Sum(a, b)[1..] == Sum(a[1..], b[1..]);
      OddSum(a[1..], b[1..]);
    }
  }

  lemma {:induction false} OddConcat(a: Poly, b: Poly)
    ensures Odd(a + b) <==> Odd(a) != Odd(b)
  {
    if a == [] {
      assert a + b == b;
    } else {
      assert (a + b)[1..] == a[1..] + b;
      OddConcat(a[1..], b);
    }
  }

  lemma {:induction false} NoOnes(n: nat)
    ensures Ones(Zeros(n)) == 0
  {
    if n > 0 {
      assert Zeros(n)[1..] == Zeros(n - 1);
      NoOnes(n - 1);
    }
  }

  lemma OddOne(c: bool)
    ensures Odd([c]) <==> c
  {
    assert Ones([c][1..]) == 0;
  }

  lemma OddStep(g: Poly, r: Poly, bit: bool)
    requires |r| == |g| > 0 && Odd(g)
    ensures Odd(Step(g, r, bit)) <==> Odd(r) != bit
  {
    var c := r[0] != bit;
    OddConcat(r[1..], [false]);
    OddConcat([r[0]], r[1..]);
    OddOne(false);
    OddOne(r[0]);
    assert r == [r[0]] + r[1..];
    NoOnes(|g|);
    OddSum(r[1..] + [false], Times(c, g));
    hide Ones, Odd;
  }

  lemma {:induction false} OddRun(g: Poly, r: Poly, bits: Poly)
    requires |r| == |g| > 0 && Odd(g)
    ensures Odd(Run(g, r, bits)) <==> Odd(r) != Odd(bits)
    decreases |bits|
  {
    if bits != [] {
      OddStep(g, r, bits[0]);
      OddRun(g, Step(g, r, bits[0]), bits[1..]);
      OddConcat([bits[0]], bits[1..]);
      OddOne(bits[0]);
      assert bits == [bits[0]] + bits[1..];
      hide Step, Odd;
    }
  }

  /** Messages that differ in an odd number of bits never end in the same register. */
  ghost predicate DetectsOddErrors(g: Poly)
    requires |g| > 0
  {
    forall r, a, b | |r| == |g| && |a| == |b| && Odd(Sum(a, b)) :: Run(g, r, a) != Run(g, r, b)
  }

  lemma {:induction false} RunLinear(g: Poly, r: Poly, s: Poly, a: Poly, b: Poly)
    requires |r| == |s| == |g| > 0 && |a| == |b|
    ensures Run(g, Sum(r, s), Sum(a, b)) == Sum(Run(g, r, a), Run(g, s, b))
    decreases |a|
  {
    if a != [] {
      StepLinear(g, r, s, a[0], b[0]);
      RunLinear(g, Step(g, r, a[0]), Step(g, s, b[0]), a[1..], b[1..]);
      assert Sum(a, b)[1..] == Sum(a[1..], b[1..]);
      hide Step;
    }
  }

  lemma SumWithZeros(a: Poly)
    ensures Sum(a, Zeros(|a|)) == a && Sum(Zeros(|a|), a) == a
  {
  }

  lemma DivisorLeavesZero(g: Poly)
    requires |g| > 0
    ensures Run(g, Zeros(|g|), [true] + g) == Zeros(|g|)
  {
    assert Step(g, Zeros(|g|), true) == g;
    assert ([true] + g)[1..] == g;
    RunOfItself(g, g);
  }

  /** Adding the whole divisor to a message of zeros does not change the register. */
  lemma DivisorMissed(g: Poly, r: Poly)
    requires |r| == |g| > 0
    ensures Run(g, r, [true] + g) == Run(g, r, Zeros(|g| + 1))
  {
    var none := Zeros(|g| + 1);
    DivisorLeavesZero(g);
    RunLinear(g, r, Zeros(|g|), none, [true] + g);
    SumWithZeros(r);
    SumWithZeros([true] + g);
    SumWithZeros(Run(g, r, none));
    hide Run, Sum, Zeros;
  }

  /**
   Every error in an odd number of bits changes the register exactly if the divisor, with its
   highest coefficient, has an even number of ones.
   */
  lemma DetectsOddErrorsIff(g: Poly)
    requires |g| > 0
    ensures DetectsOddErrors(g) <==> Odd(g)
  {
    if Odd(g) {
      forall r, a, b | |r| == |g| && |a| == |b| && Odd(Sum(a, b))
        ensures Run(g, r, a) != Run(g, r, b)
      {
        OddSum(a, b);
        OddRun(g, r, a);
        OddRun(g, r, b);
      }
    } else {
      var none := Zeros(|g| + 1);
      DivisorMissed(g, Zeros(|g|));
      OddConcat([true], g);
      OddOne(true);
      assert Sum(none, [true] + g) == [true] + g;
    }
  }
}
