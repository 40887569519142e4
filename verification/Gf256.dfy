/**
 Arithmetic in GF(2^8) with the AES reduction polynomial x^8 + x^4 + x^3 + x + 1
 (section 4.2 of FIPS 197) and the column transforms built on it.
 */
module Gf256 {

  /** Addition in the field. */
  function Add(a: bv8, b: bv8): bv8 {
    a ^ b
  }

  /** Multiplication by x, section 4.2.1. */
  function XTime(b: bv8): bv8 {
    Add(Shift(b), Carry(b))
  }

  function Shift(b: bv8): bv8 { b << 1 }

  /** The reduction that the bit shifted out calls for. */
  function Carry(b: bv8): bv8 { if b & 0x80 != 0 then 0x1b else 0 }

  /** The same with the high bit spread over a mask, a form suited to symbolic products. */
  function MaskedXTime(b: bv8): bv8 {
    (b << 1) ^ ((0 - (b >> 7)) & 0x1b)
  }

  /** The product of section 4.2: the sum of the a * x^i whose bit i is set in b. */
  function Mul(a: bv8, b: bv8): bv8 {
    var a1 := MaskedXTime(a);
    var a2 := MaskedXTime(a1);
    var a3 := MaskedXTime(a2);
    var a4 := MaskedXTime(a3);
    var a5 := MaskedXTime(a4);
    var a6 := MaskedXTime(a5);
    var a7 := MaskedXTime(a6);
    (a & (0 - (b & 1))) ^ (a1 & (0 - ((b >> 1) & 1))) ^
    (a2 & (0 - ((b >> 2) & 1))) ^ (a3 & (0 - ((b >> 3) & 1))) ^
    (a4 & (0 - ((b >> 4) & 1))) ^ (a5 & (0 - ((b >> 5) & 1))) ^
    (a6 & (0 - ((b >> 6) & 1))) ^ (a7 & (0 - ((b >> 7) & 1)))
  }

  lemma PowersAreProducts(b: bv8)
    ensures XTime(b) == MaskedXTime(b)
    ensures Times2(b) == Mul(b, 2) && Times4(b) == Mul(b, 4) && Times8(b) == Mul(b, 8)
  {
    assert XTime(b) == MaskedXTime(b);
    assert XTime(XTime(b)) == MaskedXTime(MaskedXTime(b));
    assert XTime(XTime(XTime(b))) == MaskedXTime(MaskedXTime(MaskedXTime(b)));
  }

  /** The multiples used by the cipher are products in the field. */
  lemma MultiplesAreProducts(b: bv8)
    ensures Times2(b) == Mul(b, 2) && Times3(b) == Mul(b, 3) && Times9(b) == Mul(b, 9)
    ensures Times11(b) == Mul(b, 11) && Times13(b) == Mul(b, 13) && Times14(b) == Mul(b, 14)
  {
    PowersAreProducts(b);
  }

  function Times2(b: bv8): bv8 { XTime(b) }
  function Times4(b: bv8): bv8 { Times2(Times2(b)) }
  function Times8(b: bv8): bv8 { Times2(Times4(b)) }
  function Times3(b: bv8): bv8 { Add(Times2(b), b) }
  function Times9(b: bv8): bv8 { Add(Times8(b), b) }
  function Times11(b: bv8): bv8 { Add(Times8(b), Times3(b)) }
  function Times13(b: bv8): bv8 { Add(Times9(b), Times4(b)) }
  function Times14(b: bv8): bv8 { Add(Add(Times8(b), Times4(b)), Times2(b)) }

  lemma AddCommutes(a: bv8, b: bv8)
    ensures Add(a, b) == Add(b, a)
  {
  }

  lemma AddAssociates(a: bv8, b: bv8, c: bv8)
    ensures Add(Add(a, b), c) == Add(a, Add(b, c))
  {
  }

  lemma Regroup(a: bv8, b: bv8, c: bv8, d: bv8)
    ensures Add(Add(a, b), Add(c, d)) == Add(Add(a, c), Add(b, d))
  {
    AddAssociates(a, b, Add(c, d));
    AddAssociates(b, c, d);
    AddCommutes(b, c);
    AddAssociates(c, b, d);
    AddAssociates(a, c, Add(b, d));
  }

  lemma ShiftDistributes(a: bv8, b: bv8)
    ensures Shift(Add(a, b)) == Add(Shift(a), Shift(b))
  {
  }

  lemma CarryDistributes(a: bv8, b: bv8)
    ensures Carry(Add(a, b)) == Add(Carry(a), Carry(b))
  {
  }

  lemma Times2Distributes(a: bv8, b: bv8)
    ensures Times2(Add(a, b)) == Add(Times2(a), Times2(b))
  {
    ShiftDistributes(a, b);
    CarryDistributes(a, b);
    Regroup(Shift(a), Shift(b), Carry(a), Carry(b));
  }

  lemma HighMultiplesDistribute(a: bv8, b: bv8)
    ensures Times4(Add(a, b)) == Add(Times4(a), Times4(b))
    ensures Times8(Add(a, b)) == Add(Times8(a), Times8(b))
  {
    Times2Distributes(a, b);
    Times2Distributes(Times2(a), Times2(b));
    Times2Distributes(Times4(a), Times4(b));
  }

  lemma MixMultiplesDistribute(a: bv8, b: bv8)
    ensures Times2(Add(a, b)) == Add(Times2(a), Times2(b))
    ensures Times3(Add(a, b)) == Add(Times3(a), Times3(b))
  {
    Times2Distributes(a, b);
    Regroup(Times2(a), Times2(b), a, b);
  }

  lemma Times9Distributes(a: bv8, b: bv8)
    ensures Times9(Add(a, b)) == Add(Times9(a), Times9(b))
  {
    HighMultiplesDistribute(a, b);
    Regroup(Times8(a), Times8(b), a, b);
  }

  lemma Times11Distributes(a: bv8, b: bv8)
    ensures Times11(Add(a, b)) == Add(Times11(a), Times11(b))
  {
    HighMultiplesDistribute(a, b);
    MixMultiplesDistribute(a, b);
    Regroup(Times8(a), Times8(b), Times3(a), Times3(b));
  }

  lemma Times13Distributes(a: bv8, b: bv8)
    ensures Times13(Add(a, b)) == Add(Times13(a), Times13(b))
  {
    HighMultiplesDistribute(a, b);
    Times9Distributes(a, b);
    Regroup(Times9(a), Times9(b), Times4(a), Times4(b));
  }

  lemma Times14Distributes(a: bv8, b: bv8)
    ensures Times14(Add(a, b)) == Add(Times14(a), Times14(b))
  {
    HighMultiplesDistribute(a, b);
    Times2Distributes(a, b);
    Regroup(Times8(a), Times8(b), Times4(a), Times4(b));
    Regroup(Add(Times8(a), Times4(a)), Add(Times8(b), Times4(b)), Times2(a), Times2(b));
  }

  /** A word of the cipher seen as four bytes, least significant first. */
  datatype Column = Column(b0: bv8, b1: bv8, b2: bv8, b3: bv8)

  function AddColumn(c: Column, d: Column): Column {
    Column(Add(c.b0, d.b0), Add(c.b1, d.b1), Add(c.b2, d.b2), Add(c.b3, d.b3))
  }

  function MixByte(a: bv8, b: bv8, c: bv8, d: bv8): bv8 {
    Add(Add(Times2(a), Times3(b)), Add(c, d))
  }

  function InvMixByte(a: bv8, b: bv8, c: bv8, d: bv8): bv8 {
    Add(Add(Times14(a), Times11(b)), Add(Times13(c), Times9(d)))
  }

  /** One column of MixColumns (section 5.1.3). */
  function MixColumn(c: Column): Column {
    Column(MixByte(c.b0, c.b1, c.b2, c.b3), MixByte(c.b1, c.b2, c.b3, c.b0),
           MixByte(c.b2, c.b3, c.b0, c.b1), MixByte(c.b3, c.b0, c.b1, c.b2))
  }

  /** One column of InvMixColumns (section 5.3.3). */
  function InvMixColumn(c: Column): Column {
    Column(InvMixByte(c.b0, c.b1, c.b2, c.b3), InvMixByte(c.b1, c.b2, c.b3, c.b0),
           InvMixByte(c.b2, c.b3, c.b0, c.b1), InvMixByte(c.b3, c.b0, c.b1, c.b2))
  }

  /** The rows of the matrices of sections 5.1.3 and 5.3.3, as products and sums in the field. */
  lemma MixColumnIsProduct(c: Column)
    ensures MixColumn(c) ==
            Column(Add(Add(Mul(c.b0, 2), Mul(c.b1, 3)), Add(c.b2, c.b3)),
                   Add(Add(Mul(c.b1, 2), Mul(c.b2, 3)), Add(c.b3, c.b0)),
                   Add(Add(Mul(c.b2, 2), Mul(c.b3, 3)), Add(c.b0, c.b1)),
                   Add(Add(Mul(c.b3, 2), Mul(c.b0, 3)), Add(c.b1, c.b2)))
    ensures InvMixColumn(c) ==
            Column(Add(Add(Mul(c.b0, 14), Mul(c.b1, 11)), Add(Mul(c.b2, 13), Mul(c.b3, 9))),
                   Add(Add(Mul(c.b1, 14), Mul(c.b2, 11)), Add(Mul(c.b3, 13), Mul(c.b0, 9))),
                   Add(Add(Mul(c.b2, 14), Mul(c.b3, 11)), Add(Mul(c.b0, 13), Mul(c.b1, 9))),
                   Add(Add(Mul(c.b3, 14), Mul(c.b0, 11)), Add(Mul(c.b1, 13), Mul(c.b2, 9))))
  {
    hide Add, Times2, Times3, Times9, Times11, Times13, Times14, Mul;
    MultiplesAreProducts(c.b0);
    MultiplesAreProducts(c.b1);
    MultiplesAreProducts(c.b2);
    MultiplesAreProducts(c.b3);
  }

  lemma RegroupColumns(a: bv8, b: bv8, c: bv8, d: bv8, e: bv8, f: bv8, g: bv8, h: bv8)
    ensures Add(Add(Add(a, e), Add(b, f)), Add(Add(c, g), Add(d, h)))
         == Add(Add(Add(a, b), Add(c, d)), Add(Add(e, f), Add(g, h)))
  {
    Regroup(a, e, b, f);
    Regroup(c, g, d, h);
    Regroup(Add(a, b), Add(e, f), Add(c, d), Add(g, h));
  }

  lemma MixByteDistributes(a: bv8, b: bv8, c: bv8, d: bv8, e: bv8, f: bv8, g: bv8, h: bv8)
    ensures MixByte(Add(a, e), Add(b, f), Add(c, g), Add(d, h)) == Add(MixByte(a, b, c, d), MixByte(e, f, g, h))
  {
    MixMultiplesDistribute(a, e);
    MixMultiplesDistribute(b, f);
    RegroupColumns(Times2(a), Times3(b), c, d, Times2(e), Times3(f), g, h);
  }

  lemma InvMixByteDistributes(a: bv8, b: bv8, c: bv8, d: bv8, e: bv8, f: bv8, g: bv8, h: bv8)
    ensures InvMixByte(Add(a, e), Add(b, f), Add(c, g), Add(d, h)) ==
            Add(InvMixByte(a, b, c, d), InvMixByte(e, f, g, h))
  {
    Times14Distributes(a, e);
    Times11Distributes(b, f);
    Times13Distributes(c, g);
    Times9Distributes(d, h);
    RegroupColumns(Times14(a), Times11(b), Times13(c), Times9(d), Times14(e), Times11(f), Times13(g), Times9(h));
  }

  lemma MixDistributes(c: Column, d: Column)
    ensures MixColumn(AddColumn(c, d)) == AddColumn(MixColumn(c), MixColumn(d))
  {
    MixByteDistributes(c.b0, c.b1, c.b2, c.b3, d.b0, d.b1, d.b2, d.b3);
    MixByteDistributes(c.b1, c.b2, c.b3, c.b0, d.b1, d.b2, d.b3, d.b0);
    MixByteDistributes(c.b2, c.b3, c.b0, c.b1, d.b2, d.b3, d.b0, d.b1);
    MixByteDistributes(c.b3, c.b0, c.b1, c.b2, d.b3, d.b0, d.b1, d.b2);
  }

  /** InvMixColumns is linear: the fact behind the equivalent inverse cipher (section 5.3.5). */
  lemma InvMixDistributes(c: Column, d: Column)
    ensures InvMixColumn(AddColumn(c, d)) == AddColumn(InvMixColumn(c), InvMixColumn(d))
  {
    InvMixByteDistributes(c.b0, c.b1, c.b2, c.b3, d.b0, d.b1, d.b2, d.b3);
    InvMixByteDistributes(c.b1, c.b2, c.b3, c.b0, d.b1, d.b2, d.b3, d.b0);
    InvMixByteDistributes(c.b2, c.b3, c.b0, c.b1, d.b2, d.b3, d.b0, d.b1);
    InvMixByteDistributes(c.b3, c.b0, c.b1, c.b2, d.b3, d.b0, d.b1, d.b2);
  }

  // The circulant matrices of the two transforms are inverse, coefficient by coefficient.

  lemma DiagonalCancels(a: bv8)
    ensures InvMixByte(Times2(a), a, a, Times3(a)) == a
  {
  }

  lemma FirstOffDiagonalCancels(a: bv8)
    ensures InvMixByte(a, a, Times3(a), Times2(a)) == 0
  {
  }

  lemma SecondOffDiagonalCancels(a: bv8)
    ensures InvMixByte(a, Times3(a), Times2(a), a) == 0
  {
  }

  lemma ThirdOffDiagonalCancels(a: bv8)
    ensures InvMixByte(Times3(a), Times2(a), a, a) == 0
  {
  }

  lemma MultiplesOfZero()
    ensures Times2(0) == 0 && Times3(0) == 0
  {
  }

  lemma InvMixMixOneByte(a: bv8)
    ensures InvMixColumn(MixColumn(Column(a, 0, 0, 0))) == Column(a, 0, 0, 0)
    ensures InvMixColumn(MixColumn(Column(0, a, 0, 0))) == Column(0, a, 0, 0)
    ensures InvMixColumn(MixColumn(Column(0, 0, a, 0))) == Column(0, 0, a, 0)
    ensures InvMixColumn(MixColumn(Column(0, 0, 0, a))) == Column(0, 0, 0, a)
  {
    MultiplesOfZero();
    DiagonalCancels(a);
    FirstOffDiagonalCancels(a);
    SecondOffDiagonalCancels(a);
    ThirdOffDiagonalCancels(a);
  }

  /** InvMixColumns undoes MixColumns. */
  lemma InvMixMix(c: Column)
    ensures InvMixColumn(MixColumn(c)) == c
  {
    var c0, c1, c2, c3 := Column(c.b0, 0, 0, 0), Column(0, c.b1, 0, 0), Column(0, 0, c.b2, 0), Column(0, 0, 0, c.b3);
    var c01, c23 := AddColumn(c0, c1), AddColumn(c2, c3);
    assert c == AddColumn(c01, c23);
    MixDistributes(c01, c23);
    MixDistributes(c0, c1);
    MixDistributes(c2, c3);
    InvMixDistributes(MixColumn(c01), MixColumn(c23));
    InvMixDistributes(MixColumn(c0), MixColumn(c1));
    InvMixDistributes(MixColumn(c2), MixColumn(c3));
    InvMixMixOneByte(c.b0);
    InvMixMixOneByte(c.b1);
    InvMixMixOneByte(c.b2);
    InvMixMixOneByte(c.b3);
  }
}
