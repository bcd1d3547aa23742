/**
 Bytes as elements of the field GF(2^8) and the two substitution tables, as in sections 4.2
 and 5.1.1 of FIPS 197 (rj_sbox, rj_sbox_inv and rj_xtime of source/tbx_aes256.c).
 */
module AesField {

  // ---------------------------------------------------------------- multiplication

  /** Multiplication by x. */
  function XTime(b: bv8): bv8 {
    var y := b << 1;
    if b & 0x80 != 0 then y ^ 0x1b else y
  }

  /** Multiplication: the sum of a times x^i over the bits i that are set in b. */
  function Mul(a: bv8, b: bv8): bv8 {
    var a1 := XTime(a);
    var a2 := XTime(a1);
    var a3 := XTime(a2);
    var a4 := XTime(a3);
    var a5 := XTime(a4);
    var a6 := XTime(a5);
    var a7 := XTime(a6);
    (if b & 0x01 != 0 then a else 0) ^ (if b & 0x02 != 0 then a1 else 0) ^
    (if b & 0x04 != 0 then a2 else 0) ^ (if b & 0x08 != 0 then a3 else 0) ^
    (if b & 0x10 != 0 then a4 else 0) ^ (if b & 0x20 != 0 then a5 else 0) ^
    (if b & 0x40 != 0 then a6 else 0) ^ (if b & 0x80 != 0 then a7 else 0)
  }

  /** The inverse of multiplication by x, as the decryption computes round constants. */
  function XTimeInv(b: bv8): bv8 {
    var mask: bv8 := if b & 1 > 0 then 0x8d else 0;
    (b >> 1) ^ mask
  }

  lemma XTimeInverse(b: bv8)
    ensures XTimeInv(XTime(b)) == b && XTime(XTimeInv(b)) == b
  {
  }

  // ---------------------------------------------------------------- addition

  /** Addition of field elements: the exclusive or of the two bytes. */
  function Add(a: bv8, b: bv8): bv8 {
    a ^ b
  }

  function Sum4(a: bv8, b: bv8, c: bv8, d: bv8): bv8 {
    Add(Add(a, b), Add(c, d))
  }

  lemma AddTwice(a: bv8, b: bv8)
    ensures Add(Add(a, b), b) == a
  {
  }

  lemma AddCommutes(a: bv8, b: bv8)
    ensures Add(a, b) == Add(b, a)
  {
  }

  lemma AddAssociates(a: bv8, b: bv8, c: bv8)
    ensures Add(Add(a, b), c) == Add(a, Add(b, c))
  {
    assert (a ^ b) ^ c == a ^ (b ^ c);
  }

  lemma AddPairs(a: bv8, b: bv8, c: bv8, d: bv8)
    ensures Add(Add(a, b), Add(c, d)) == Add(Add(a, c), Add(b, d))
  {
    hide Add;
    AddAssociates(a, b, Add(c, d));
    AddAssociates(b, c, d);
    AddCommutes(b, c);
    AddAssociates(c, b, d);
    AddAssociates(a, c, Add(b, d));
  }

  lemma AddTriples(a: bv8, b: bv8, c: bv8, a': bv8, b': bv8, c': bv8)
    ensures Add(Add(Add(a, a'), Add(b, b')), Add(c, c')) == Add(Add(Add(a, b), c), Add(Add(a', b'), c'))
  {
    hide Add;
    AddPairs(a, a', b, b');
    AddPairs(Add(a, b), Add(a', b'), c, c');
  }

  lemma AddSums(a: bv8, b: bv8, c: bv8, d: bv8, a': bv8, b': bv8, c': bv8, d': bv8)
    ensures Add(Sum4(a, b, c, d), Sum4(a', b', c', d'))
            == Sum4(Add(a, a'), Add(b, b'), Add(c, c'), Add(d, d'))
  {
    hide Add;
    AddPairs(Add(a, b), Add(c, d), Add(a', b'), Add(c', d'));
    AddPairs(a, b, a', b');
    AddPairs(c, d, c', d');
  }

  /** Sixteen summands, row by row or column by column. */
  lemma AddTransposed(a0: bv8, a1: bv8, a2: bv8, a3: bv8, b0: bv8, b1: bv8, b2: bv8, b3: bv8,
                      c0: bv8, c1: bv8, c2: bv8, c3: bv8, d0: bv8, d1: bv8, d2: bv8, d3: bv8)
    ensures Sum4(Sum4(a0, b0, c0, d0), Sum4(a1, b1, c1, d1), Sum4(a2, b2, c2, d2), Sum4(a3, b3, c3, d3))
            == Sum4(Sum4(a0, a1, a2, a3), Sum4(b0, b1, b2, b3), Sum4(c0, c1, c2, c3), Sum4(d0, d1, d2, d3))
  {
    hide Add;
    AddSums(a0, b0, c0, d0, a1, b1, c1, d1);
    AddSums(a2, b2, c2, d2, a3, b3, c3, d3);
    AddSums(Add(a0, a1), Add(b0, b1), Add(c0, c1), Add(d0, d1),
            Add(a2, a3), Add(b2, b3), Add(c2, c3), Add(d2, d3));
  }

  lemma SumRotated(a: bv8, b: bv8, c: bv8, d: bv8)
    ensures Sum4(b, c, d, a) == Sum4(a, b, c, d)
  {
    hide Add;
    AddCommutes(d, a);
    AddPairs(b, c, a, d);
    AddCommutes(b, a);
  }

  lemma SumOfOne(a: bv8)
    ensures Sum4(a, 0, 0, 0) == a
  {
  }

  // ---------------------------------------------------------------- linearity

  lemma XTimeLinear(a: bv8, b: bv8)
    ensures XTime(Add(a, b)) == Add(XTime(a), XTime(b))
  {
    assert (a ^ b) << 1 == (a << 1) ^ (b << 1);
    assert (a ^ b) & 0x80 == (a & 0x80) ^ (b & 0x80);
    if a & 0x80 == 0 {
      assert (a ^ b) & 0x80 == b & 0x80;
    } else {
      assert (a ^ b) & 0x80 != 0 <==> b & 0x80 == 0;
    }
  }

  // The products that the column transformations need.

  lemma Mul02(a: bv8)
    ensures Mul(a, 0x02) == XTime(a)
  {
    hide XTime;
  }

  lemma Mul03(a: bv8)
    ensures Mul(a, 0x03) == Add(XTime(a), a)
  {
    hide XTime;
  }

  lemma Mul09(a: bv8)
    ensures Mul(a, 0x09) == Add(XTime(XTime(XTime(a))), a)
  {
    hide XTime;
  }

  lemma Mul0b(a: bv8)
    ensures Mul(a, 0x0b) == Add(Add(XTime(XTime(XTime(a))), XTime(a)), a)
  {
    hide XTime;
  }

  lemma Mul0d(a: bv8)
    ensures Mul(a, 0x0d) == Add(Add(XTime(XTime(XTime(a))), XTime(XTime(a))), a)
  {
    hide XTime;
  }

  lemma Mul0e(a: bv8)
    ensures Mul(a, 0x0e) == Add(Add(XTime(XTime(XTime(a))), XTime(XTime(a))), XTime(a))
  {
    hide XTime;
  }

  lemma Linear02(a: bv8, b: bv8)
    ensures Mul(Add(a, b), 0x02) == Add(Mul(a, 0x02), Mul(b, 0x02))
  {
    hide Add, Mul, XTime;
    Mul02(a);
    Mul02(b);
    Mul02(Add(a, b));
    XTimeLinear(a, b);
  }

  lemma Linear03(a: bv8, b: bv8)
    ensures Mul(Add(a, b), 0x03) == Add(Mul(a, 0x03), Mul(b, 0x03))
  {
    hide Add, Mul, XTime;
    Mul03(a);
    Mul03(b);
    Mul03(Add(a, b));
    XTimeLinear(a, b);
    AddPairs(XTime(a), XTime(b), a, b);
  }

  lemma Linear09(a: bv8, b: bv8)
    ensures Mul(Add(a, b), 0x09) == Add(Mul(a, 0x09), Mul(b, 0x09))
  {
    hide Add, Mul, XTime;
    Mul09(a);
    Mul09(b);
    Mul09(Add(a, b));
    XTimeLinear(a, b);
    XTimeLinear(XTime(a), XTime(b));
    XTimeLinear(XTime(XTime(a)), XTime(XTime(b)));
    AddPairs(XTime(XTime(XTime(a))), XTime(XTime(XTime(b))), a, b);
  }

  lemma Linear0b(a: bv8, b: bv8)
    ensures Mul(Add(a, b), 0x0b) == Add(Mul(a, 0x0b), Mul(b, 0x0b))
  {
    hide Add, Mul, XTime;
    Mul0b(a);
    Mul0b(b);
    Mul0b(Add(a, b));
    XTimeLinear(a, b);
    XTimeLinear(XTime(a), XTime(b));
    XTimeLinear(XTime(XTime(a)), XTime(XTime(b)));
    AddTriples(XTime(XTime(XTime(a))), XTime(a), a,
               XTime(XTime(XTime(b))), XTime(b), b);
  }

  lemma Linear0d(a: bv8, b: bv8)
    ensures Mul(Add(a, b), 0x0d) == Add(Mul(a, 0x0d), Mul(b, 0x0d))
  {
    hide Add, Mul, XTime;
    Mul0d(a);
    Mul0d(b);
    Mul0d(Add(a, b));
    XTimeLinear(a, b);
    XTimeLinear(XTime(a), XTime(b));
    XTimeLinear(XTime(XTime(a)), XTime(XTime(b)));
    AddTriples(XTime(XTime(XTime(a))), XTime(XTime(a)), a,
               XTime(XTime(XTime(b))), XTime(XTime(b)), b);
  }

  lemma Linear0e(a: bv8, b: bv8)
    ensures Mul(Add(a, b), 0x0e) == Add(Mul(a, 0x0e), Mul(b, 0x0e))
  {
    hide Add, Mul, XTime;
    Mul0e(a);
    Mul0e(b);
    Mul0e(Add(a, b));
    XTimeLinear(a, b);
    XTimeLinear(XTime(a), XTime(b));
    XTimeLinear(XTime(XTime(a)), XTime(XTime(b)));
    AddTriples(XTime(XTime(XTime(a))), XTime(XTime(a)), XTime(a),
               XTime(XTime(XTime(b))), XTime(XTime(b)), XTime(b));
  }

  lemma Sum02(a: bv8, b: bv8, c: bv8, d: bv8)
    ensures Mul(Sum4(a, b, c, d), 0x02) == Sum4(Mul(a, 0x02), Mul(b, 0x02), Mul(c, 0x02), Mul(d, 0x02))
  {
    hide Add, Mul;
    Linear02(a, b);
    Linear02(c, d);
    Linear02(Add(a, b), Add(c, d));
  }

  lemma Sum03(a: bv8, b: bv8, c: bv8, d: bv8)
    ensures Mul(Sum4(a, b, c, d), 0x03) == Sum4(Mul(a, 0x03), Mul(b, 0x03), Mul(c, 0x03), Mul(d, 0x03))
  {
    hide Add, Mul;
    Linear03(a, b);
    Linear03(c, d);
    Linear03(Add(a, b), Add(c, d));
  }

  lemma Sum09(a: bv8, b: bv8, c: bv8, d: bv8)
    ensures Mul(Sum4(a, b, c, d), 0x09) == Sum4(Mul(a, 0x09), Mul(b, 0x09), Mul(c, 0x09), Mul(d, 0x09))
  {
    hide Add, Mul;
    Linear09(a, b);
    Linear09(c, d);
    Linear09(Add(a, b), Add(c, d));
  }

  lemma Sum0b(a: bv8, b: bv8, c: bv8, d: bv8)
    ensures Mul(Sum4(a, b, c, d), 0x0b) == Sum4(Mul(a, 0x0b), Mul(b, 0x0b), Mul(c, 0x0b), Mul(d, 0x0b))
  {
    hide Add, Mul;
    Linear0b(a, b);
    Linear0b(c, d);
    Linear0b(Add(a, b), Add(c, d));
  }

  lemma Sum0d(a: bv8, b: bv8, c: bv8, d: bv8)
    ensures Mul(Sum4(a, b, c, d), 0x0d) == Sum4(Mul(a, 0x0d), Mul(b, 0x0d), Mul(c, 0x0d), Mul(d, 0x0d))
  {
    hide Add, Mul;
    Linear0d(a, b);
    Linear0d(c, d);
    Linear0d(Add(a, b), Add(c, d));
  }

  lemma Sum0e(a: bv8, b: bv8, c: bv8, d: bv8)
    ensures Mul(Sum4(a, b, c, d), 0x0e) == Sum4(Mul(a, 0x0e), Mul(b, 0x0e), Mul(c, 0x0e), Mul(d, 0x0e))
  {
    hide Add, Mul;
    Linear0e(a, b);
    Linear0e(c, d);
    Linear0e(Add(a, b), Add(c, d));
  }

  // ---------------------------------------------------------------- substitution

  /** One of the eight bytes of a table row. */
  function Entry(row: bv64, i: bv8): bv8 {
    ((row >> (56 - 8 * ((i & 7) as bv64))) & 0xff) as bv8
  }

  /** The substitution table, eight entries a row. */
  function SBox(x: bv8): bv8 {
    var row: bv64 :=
      if x & 0x80 == 0 then (
        if x & 0x40 == 0 then (
          if x & 0x20 == 0 then (
            if x & 0x10 == 0
            then (if x & 0x08 == 0 then 0x637c777bf26b6fc5 else 0x3001672bfed7ab76)
            else (if x & 0x08 == 0 then 0xca82c97dfa5947f0 else 0xadd4a2af9ca472c0)
          ) else (
            if x & 0x10 == 0
            then (if x & 0x08 == 0 then 0xb7fd9326363ff7cc else 0x34a5e5f171d83115)
            else (if x & 0x08 == 0 then 0x04c723c31896059a else 0x071280e2eb27b275)
          )
        ) else (
          if x & 0x20 == 0 then (
            if x & 0x10 == 0
            then (if x & 0x08 == 0 then 0x09832c1a1b6e5aa0 else 0x523bd6b329e32f84)
            else (if x & 0x08 == 0 then 0x53d100ed20fcb15b else 0x6acbbe394a4c58cf)
          ) else (
            if x & 0x10 == 0
            then (if x & 0x08 == 0 then 0xd0efaafb434d3385 else 0x45f9027f503c9fa8)
            else (if x & 0x08 == 0 then 0x51a3408f929d38f5 else 0xbcb6da2110fff3d2)
          )
        )
      ) else (
        if x & 0x40 == 0 then (
          if x & 0x20 == 0 then (
            if x & 0x10 == 0
            then (if x & 0x08 == 0 then 0xcd0c13ec5f974417 else 0xc4a77e3d645d1973)
            else (if x & 0x08 == 0 then 0x60814fdc222a9088 else 0x46eeb814de5e0bdb)
          ) else (
            if x & 0x10 == 0
            then (if x & 0x08 == 0 then 0xe0323a0a4906245c else 0xc2d3ac629195e479)
            else (if x & 0x08 == 0 then 0xe7c8376d8dd54ea9 else 0x6c56f4ea657aae08)
          )
        ) else (
          if x & 0x20 == 0 then (
            if x & 0x10 == 0
            then (if x & 0x08 == 0 then 0xba78252e1ca6b4c6 else 0xe8dd741f4bbd8b8a)
            else (if x & 0x08 == 0 then 0x703eb5664803f60e else 0x613557b986c11d9e)
          ) else (
            if x & 0x10 == 0
            then (if x & 0x08 == 0 then 0xe1f8981169d98e94 else 0x9b1e87e9ce5528df)
            else (if x & 0x08 == 0 then 0x8ca1890dbfe64268 else 0x41992d0fb054bb16)
          )
        )
      );
    Entry(row, x)
  }

  /** The table of the inverse substitution. */
  function InvSBox(x: bv8): bv8 {
    var row: bv64 :=
      if x & 0x80 == 0 then (
        if x & 0x40 == 0 then (
          if x & 0x20 == 0 then (
            if x & 0x10 == 0
            then (if x & 0x08 == 0 then 0x52096ad53036a538 else 0xbf40a39e81f3d7fb)
            else (if x & 0x08 == 0 then 0x7ce339829b2fff87 else 0x348e4344c4dee9cb)
          ) else (
            if x & 0x10 == 0
            then (if x & 0x08 == 0 then 0x547b9432a6c2233d else 0xee4c950b42fac34e)
            else (if x & 0x08 == 0 then 0x082ea16628d924b2 else 0x765ba2496d8bd125)
          )
        ) else (
          if x & 0x20 == 0 then (
            if x & 0x10 == 0
            then (if x & 0x08 == 0 then 0x72f8f66486689816 else 0xd4a45ccc5d65b692)
            else (if x & 0x08 == 0 then 0x6c704850fdedb9da else 0x5e154657a78d9d84)
          ) else (
            if x & 0x10 == 0
            then (if x & 0x08 == 0 then 0x90d8ab008cbcd30a else 0xf7e45805b8b34506)
            else (if x & 0x08 == 0 then 0xd02c1e8fca3f0f02 else 0xc1afbd0301138a6b)
          )
        )
      ) else (
        if x & 0x40 == 0 then (
          if x & 0x20 == 0 then (
            if x & 0x10 == 0
            then (if x & 0x08 == 0 then 0x3a9111414f67dcea else 0x97f2cfcef0b4e673)
            else (if x & 0x08 == 0 then 0x96ac7422e7ad3585 else 0xe2f937e81c75df6e)
          ) else (
            if x & 0x10 == 0
            then (if x & 0x08 == 0 then 0x47f11a711d29c589 else 0x6fb7620eaa18be1b)
            else (if x & 0x08 == 0 then 0xfc563e4bc6d27920 else 0x9adbc0fe78cd5af4)
          )
        ) else (
          if x & 0x20 == 0 then (
            if x & 0x10 == 0
            then (if x & 0x08 == 0 then 0x1fdda8338807c731 else 0xb11210592780ec5f)
            else (if x & 0x08 == 0 then 0x60517fa919b54a0d else 0x2de57a9f93c99cef)
          ) else (
            if x & 0x10 == 0
            then (if x & 0x08 == 0 then 0xa0e03b4dae2af5b0 else 0xc8ebbb3c83539961)
            else (if x & 0x08 == 0 then 0x172b047eba77d626 else 0xe169146355210c7d)
          )
        )
      );
    Entry(row, x)
  }

  lemma SBoxInverse(x: bv8)
    ensures InvSBox(SBox(x)) == x
  {
  }

  lemma InvSBoxInverse(x: bv8)
    ensures SBox(InvSBox(x)) == x
  {
  }

  /** The affine transformation of the bits of a byte, and its inverse. */
  function Affine(b: bv8): bv8 {
    b ^ b.RotateLeft(1) ^ b.RotateLeft(2) ^ b.RotateLeft(3) ^ b.RotateLeft(4) ^ 0x63
  }

  function AffineInv(b: bv8): bv8 {
    b.RotateLeft(1) ^ b.RotateLeft(3) ^ b.RotateLeft(6) ^ 0x05
  }

  lemma AffineInverse(b: bv8)
    ensures AffineInv(Affine(b)) == b && Affine(AffineInv(b)) == b
  {
  }

  /** The table is the affine transformation of the multiplicative inverse, with 0 for that of 0. */
  lemma SBoxIsAffineOfInverse(x: bv8)
    ensures exists y :: SBox(x) == Affine(y) && if x == 0 then y == 0 else Mul(x, y) == 1
  {
    var y := AffineInv(SBox(x));
    AffineInverse(SBox(x));
    if x != 0 {
      SBoxInvertsField(x);
    }
  }

  lemma SBoxInvertsField(x: bv8)
    requires x != 0
    ensures Mul(x, AffineInv(SBox(x))) == 1
  {
    var y := AffineInv(SBox(x));
    if x >> 5 == 0 { assert Mul(x, y) == 1; }
    else if x >> 5 == 1 { assert Mul(x, y) == 1; }
    else if x >> 5 == 2 { assert Mul(x, y) == 1; }
    else if x >> 5 == 3 { assert Mul(x, y) == 1; }
    else if x >> 5 == 4 { assert Mul(x, y) == 1; }
    else if x >> 5 == 5 { assert Mul(x, y) == 1; }
    else if x >> 5 == 6 { assert Mul(x, y) == 1; }
    else if x >> 5 == 7 { assert Mul(x, y) == 1; }
  }
}
