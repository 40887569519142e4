/**
 The 32-bit form of the cipher: the tables FT0..FT3 and RT0..RT3, the round macros and the last
 rounds of ej_aes.c, and the proof that each computes the round of FIPS 197 it stands for.
 Words hold four bytes, the first in the low-order position, as the target's loads leave them.
 */
module AesWords {
  import opened Gf256
  import opened SBox
  import opened Fips197

  function Pack(c: Column): bv32 {
    (c.b0 as bv32) ^ ((c.b1 as bv32) << 8) ^ ((c.b2 as bv32) << 16) ^ ((c.b3 as bv32) << 24)
  }

  function Byte0(w: bv32): bv8 { (w & 0xFF) as bv8 }
  function Byte1(w: bv32): bv8 { ((w >> 8) & 0xFF) as bv8 }
  function Byte2(w: bv32): bv8 { ((w >> 16) & 0xFF) as bv8 }
  function Byte3(w: bv32): bv8 { ((w >> 24) & 0xFF) as bv8 }

  function Unpack(w: bv32): Column {
    Column(Byte0(w), Byte1(w), Byte2(w), Byte3(w))
  }

  function Xor(v: bv32, w: bv32): bv32 {
    v ^ w
  }

  lemma UnpackPack(c: Column)
    ensures Unpack(Pack(c)) == c
  {
  }

  lemma UnpackXor(v: bv32, w: bv32)
    ensures Unpack(Xor(v, w)) == AddColumn(Unpack(v), Unpack(w))
  {
  }

  // Tables. An entry's bytes, from V(a,b,c,d), are a (high) to d (low); the numbered tables rotate them.

  function Rotated(c: Column): Column {
    Column(c.b3, c.b0, c.b1, c.b2)
  }

  function ForwardEntry(s: bv8): Column {
    Column(Times2(s), s, s, Times3(s))
  }

  function ReverseEntry(s: bv8): Column {
    Column(Times14(s), Times9(s), Times13(s), Times11(s))
  }

  function FT0(b: bv8): bv32 { Pack(ForwardEntry(FSb(b))) }
  function FT1(b: bv8): bv32 { Pack(Rotated(ForwardEntry(FSb(b)))) }
  function FT2(b: bv8): bv32 { Pack(Rotated(Rotated(ForwardEntry(FSb(b))))) }
  function FT3(b: bv8): bv32 { Pack(Rotated(Rotated(Rotated(ForwardEntry(FSb(b)))))) }

  function RT0(b: bv8): bv32 { Pack(ReverseEntry(RSb(b))) }
  function RT1(b: bv8): bv32 { Pack(Rotated(ReverseEntry(RSb(b)))) }
  function RT2(b: bv8): bv32 { Pack(Rotated(Rotated(ReverseEntry(RSb(b))))) }
  function RT3(b: bv8): bv32 { Pack(Rotated(Rotated(Rotated(ReverseEntry(RSb(b)))))) }

  /** Four words: a block, or the key of a round. */
  datatype Quad = Quad(w0: bv32, w1: bv32, w2: bv32, w3: bv32)

  function StateOf(q: Quad): State {
    State(Unpack(q.w0), Unpack(q.w1), Unpack(q.w2), Unpack(q.w3))
  }

  function QuadOf(s: State): Quad {
    Quad(Pack(s.c0), Pack(s.c1), Pack(s.c2), Pack(s.c3))
  }

  lemma StateOfQuadOf(s: State)
    ensures StateOf(QuadOf(s)) == s
  {
    UnpackPack(s.c0);
    UnpackPack(s.c1);
    UnpackPack(s.c2);
    UnpackPack(s.c3);
  }

  // The macros AES_FROUND and AES_RROUND, and the rounds written out after them, word by word

  function ForwardWord(k: bv32, y0: bv32, y1: bv32, y2: bv32, y3: bv32): bv32 {
    Xor(Xor(Xor(Xor(k, FT0(Byte0(y0))), FT1(Byte1(y1))), FT2(Byte2(y2))), FT3(Byte3(y3)))
  }

  function ReverseWord(k: bv32, y0: bv32, y1: bv32, y2: bv32, y3: bv32): bv32 {
    Xor(Xor(Xor(Xor(k, RT0(Byte0(y0))), RT1(Byte1(y1))), RT2(Byte2(y2))), RT3(Byte3(y3)))
  }

  function LastForwardWord(k: bv32, y0: bv32, y1: bv32, y2: bv32, y3: bv32): bv32 {
    Xor(k, Pack(Column(FSb(Byte0(y0)), FSb(Byte1(y1)), FSb(Byte2(y2)), FSb(Byte3(y3)))))
  }

  function LastReverseWord(k: bv32, y0: bv32, y1: bv32, y2: bv32, y3: bv32): bv32 {
    Xor(k, Pack(Column(RSb(Byte0(y0)), RSb(Byte1(y1)), RSb(Byte2(y2)), RSb(Byte3(y3)))))
  }

  function ForwardRound(k: Quad, y: Quad): Quad {
    Quad(ForwardWord(k.w0, y.w0, y.w1, y.w2, y.w3), ForwardWord(k.w1, y.w1, y.w2, y.w3, y.w0),
         ForwardWord(k.w2, y.w2, y.w3, y.w0, y.w1), ForwardWord(k.w3, y.w3, y.w0, y.w1, y.w2))
  }

  function ReverseRound(k: Quad, y: Quad): Quad {
    Quad(ReverseWord(k.w0, y.w0, y.w3, y.w2, y.w1), ReverseWord(k.w1, y.w1, y.w0, y.w3, y.w2),
         ReverseWord(k.w2, y.w2, y.w1, y.w0, y.w3), ReverseWord(k.w3, y.w3, y.w2, y.w1, y.w0))
  }

  function LastForwardRound(k: Quad, y: Quad): Quad {
    Quad(LastForwardWord(k.w0, y.w0, y.w1, y.w2, y.w3), LastForwardWord(k.w1, y.w1, y.w2, y.w3, y.w0),
         LastForwardWord(k.w2, y.w2, y.w3, y.w0, y.w1), LastForwardWord(k.w3, y.w3, y.w0, y.w1, y.w2))
  }

  function LastReverseRound(k: Quad, y: Quad): Quad {
    Quad(LastReverseWord(k.w0, y.w0, y.w3, y.w2, y.w1), LastReverseWord(k.w1, y.w1, y.w0, y.w3, y.w2),
         LastReverseWord(k.w2, y.w2, y.w1, y.w0, y.w3), LastReverseWord(k.w3, y.w3, y.w2, y.w1, y.w0))
  }

  // Sums of bytes, columns and words

  lemma SumOfFive(k: bv8, a: bv8, b: bv8, c: bv8, d: bv8)
    ensures Add(Add(Add(Add(k, a), b), c), d) == Add(Add(Add(a, b), Add(c, d)), k)
  {
    AddAssociates(k, a, b);
    AddAssociates(k, Add(a, b), c);
    AddAssociates(k, Add(Add(a, b), c), d);
    AddAssociates(Add(a, b), c, d);
    AddCommutes(k, Add(Add(a, b), Add(c, d)));
  }

  lemma SumRotates(a: bv8, b: bv8, c: bv8, d: bv8)
    ensures Add(Add(a, b), Add(c, d)) == Add(Add(b, c), Add(d, a))
  {
    AddCommutes(a, b);
    AddCommutes(c, d);
    Regroup(b, a, d, c);
    AddCommutes(a, c);
    Regroup(b, d, c, a);
  }

  /** The words of four rotated table entries add up to one column of a (inverse) MixColumns. */
  lemma EntriesSum(k: bv32, e0: Column, e1: Column, e2: Column, e3: Column)
    ensures var w := Xor(Xor(Xor(Xor(k, Pack(e0)), Pack(Rotated(e1))), Pack(Rotated(Rotated(e2)))),
                         Pack(Rotated(Rotated(Rotated(e3)))));
            Unpack(w) == AddColumn(Column(Add(Add(e0.b0, e1.b3), Add(e2.b2, e3.b1)),
                                          Add(Add(e1.b0, e2.b3), Add(e3.b2, e0.b1)),
                                          Add(Add(e2.b0, e3.b3), Add(e0.b2, e1.b1)),
                                          Add(Add(e3.b0, e0.b3), Add(e1.b2, e2.b1))), Unpack(k))
  {
    hide Pack, Unpack, Xor, Add;
    var w1 := Xor(k, Pack(e0));
    var w2 := Xor(w1, Pack(Rotated(e1)));
    var w3 := Xor(w2, Pack(Rotated(Rotated(e2))));
    UnpackXor(k, Pack(e0));
    UnpackXor(w1, Pack(Rotated(e1)));
    UnpackXor(w2, Pack(Rotated(Rotated(e2))));
    UnpackXor(w3, Pack(Rotated(Rotated(Rotated(e3)))));
    UnpackPack(e0);
    UnpackPack(Rotated(e1));
    UnpackPack(Rotated(Rotated(e2)));
    UnpackPack(Rotated(Rotated(Rotated(e3))));
    var c := Unpack(k);
    SumOfFive(c.b0, e0.b0, e1.b3, e2.b2, e3.b1);
    SumOfFive(c.b1, e0.b1, e1.b0, e2.b3, e3.b2);
    SumOfFive(c.b2, e0.b2, e1.b1, e2.b0, e3.b3);
    SumOfFive(c.b3, e0.b3, e1.b2, e2.b1, e3.b0);
    SumRotates(e0.b1, e1.b0, e2.b3, e3.b2);
    SumRotates(e0.b2, e1.b1, e2.b0, e3.b3);
    SumRotates(e1.b1, e2.b0, e3.b3, e0.b2);
    SumRotates(e3.b0, e0.b3, e1.b2, e2.b1);
  }

  lemma ForwardWordIsColumn(k: bv32, y0: bv32, y1: bv32, y2: bv32, y3: bv32)
    ensures Unpack(ForwardWord(k, y0, y1, y2, y3))
         == AddColumn(MixColumn(SubColumn(Column(Byte0(y0), Byte1(y1), Byte2(y2), Byte3(y3)))), Unpack(k))
  {
    hide Pack, Unpack, Xor, FSb, Times2, Add, Byte0, Byte1, Byte2, Byte3;
    EntriesSum(k, ForwardEntry(FSb(Byte0(y0))), ForwardEntry(FSb(Byte1(y1))),
               ForwardEntry(FSb(Byte2(y2))), ForwardEntry(FSb(Byte3(y3))));
  }

  lemma ReverseWordIsColumn(k: bv32, y0: bv32, y1: bv32, y2: bv32, y3: bv32)
    ensures Unpack(ReverseWord(k, y0, y1, y2, y3))
         == AddColumn(InvMixColumn(InvSubColumn(Column(Byte0(y0), Byte1(y1), Byte2(y2), Byte3(y3)))), Unpack(k))
  {
    hide Pack, Unpack, Xor, RSb, Times14, Times11, Times13, Times9, Add, Byte0, Byte1, Byte2, Byte3;
    EntriesSum(k, ReverseEntry(RSb(Byte0(y0))), ReverseEntry(RSb(Byte1(y1))),
               ReverseEntry(RSb(Byte2(y2))), ReverseEntry(RSb(Byte3(y3))));
  }

  lemma LastForwardWordIsColumn(k: bv32, y0: bv32, y1: bv32, y2: bv32, y3: bv32)
    ensures Unpack(LastForwardWord(k, y0, y1, y2, y3))
         == AddColumn(SubColumn(Column(Byte0(y0), Byte1(y1), Byte2(y2), Byte3(y3))), Unpack(k))
  {
    hide Pack, Unpack, Xor, FSb, Add, Byte0, Byte1, Byte2, Byte3;
    var c := Column(FSb(Byte0(y0)), FSb(Byte1(y1)), FSb(Byte2(y2)), FSb(Byte3(y3)));
    UnpackXor(k, Pack(c));
    UnpackPack(c);
    AddColumnCommutes(Unpack(k), c);
  }

  lemma LastReverseWordIsColumn(k: bv32, y0: bv32, y1: bv32, y2: bv32, y3: bv32)
    ensures Unpack(LastReverseWord(k, y0, y1, y2, y3))
         == AddColumn(InvSubColumn(Column(Byte0(y0), Byte1(y1), Byte2(y2), Byte3(y3))), Unpack(k))
  {
    hide Pack, Unpack, Xor, RSb, Add, Byte0, Byte1, Byte2, Byte3;
    var c := Column(RSb(Byte0(y0)), RSb(Byte1(y1)), RSb(Byte2(y2)), RSb(Byte3(y3)));
    UnpackXor(k, Pack(c));
    UnpackPack(c);
    AddColumnCommutes(Unpack(k), c);
  }

  lemma AddColumnCommutes(c: Column, d: Column)
    ensures AddColumn(c, d) == AddColumn(d, c)
  {
  }

  // The table form refines the rounds of FIPS 197

  /** AES_FROUND is a round of section 5.1. */
  lemma ForwardRoundIsRound(k: Quad, y: Quad)
    ensures StateOf(ForwardRound(k, y)) == Round(StateOf(y), StateOf(k))
  {
    hide ForwardWord, MixColumn, SubColumn, AddColumn, Byte0, Byte1, Byte2, Byte3;
    ForwardWordIsColumn(k.w0, y.w0, y.w1, y.w2, y.w3);
    ForwardWordIsColumn(k.w1, y.w1, y.w2, y.w3, y.w0);
    ForwardWordIsColumn(k.w2, y.w2, y.w3, y.w0, y.w1);
    ForwardWordIsColumn(k.w3, y.w3, y.w0, y.w1, y.w2);
    ShiftThenSub(StateOf(y));
  }

  lemma LastForwardRoundIsFinalRound(k: Quad, y: Quad)
    ensures StateOf(LastForwardRound(k, y)) == FinalRound(StateOf(y), StateOf(k))
  {
    hide LastForwardWord, SubColumn, AddColumn, Byte0, Byte1, Byte2, Byte3;
    LastForwardWordIsColumn(k.w0, y.w0, y.w1, y.w2, y.w3);
    LastForwardWordIsColumn(k.w1, y.w1, y.w2, y.w3, y.w0);
    LastForwardWordIsColumn(k.w2, y.w2, y.w3, y.w0, y.w1);
    LastForwardWordIsColumn(k.w3, y.w3, y.w0, y.w1, y.w2);
    ShiftThenSub(StateOf(y));
  }

  /** AES_RROUND is a round of the equivalent inverse cipher, section 5.3.5. */
  lemma ReverseRoundIsEqInvRound(k: Quad, y: Quad)
    ensures StateOf(ReverseRound(k, y)) == EqInvRound(StateOf(y), StateOf(k))
  {
    hide ReverseWord, InvMixColumn, InvSubColumn, AddColumn, Byte0, Byte1, Byte2, Byte3;
    ReverseWordIsColumn(k.w0, y.w0, y.w3, y.w2, y.w1);
    ReverseWordIsColumn(k.w1, y.w1, y.w0, y.w3, y.w2);
    ReverseWordIsColumn(k.w2, y.w2, y.w1, y.w0, y.w3);
    ReverseWordIsColumn(k.w3, y.w3, y.w2, y.w1, y.w0);
    ShiftThenSub(StateOf(y));
  }

  lemma LastReverseRoundIsFinalRound(k: Quad, y: Quad)
    ensures StateOf(LastReverseRound(k, y)) == EqInvFinalRound(StateOf(y), StateOf(k))
  {
    hide LastReverseWord, InvSubColumn, AddColumn, Byte0, Byte1, Byte2, Byte3;
    LastReverseWordIsColumn(k.w0, y.w0, y.w3, y.w2, y.w1);
    LastReverseWordIsColumn(k.w1, y.w1, y.w0, y.w3, y.w2);
    LastReverseWordIsColumn(k.w2, y.w2, y.w1, y.w0, y.w3);
    LastReverseWordIsColumn(k.w3, y.w3, y.w2, y.w1, y.w0);
    ShiftThenSub(StateOf(y));
  }

  function XorQuad(p: Quad, q: Quad): Quad {
    Quad(Xor(p.w0, q.w0), Xor(p.w1, q.w1), Xor(p.w2, q.w2), Xor(p.w3, q.w3))
  }

  lemma XorQuadIsAddRoundKey(p: Quad, q: Quad)
    ensures StateOf(XorQuad(p, q)) == AddRoundKey(StateOf(p), StateOf(q))
  {
    hide Unpack, Xor, AddColumn;
    UnpackXor(p.w0, q.w0);
    UnpackXor(p.w1, q.w1);
    UnpackXor(p.w2, q.w2);
    UnpackXor(p.w3, q.w3);
  }

  /** RT over FSb, as aes_setkey_dec applies it to a key word, is InvMixColumns of the word. */
  function InverseKeyWord(w: bv32): bv32 {
    Xor(Xor(Xor(RT0(FSb(Byte0(w))), RT1(FSb(Byte1(w)))), RT2(FSb(Byte2(w)))), RT3(FSb(Byte3(w))))
  }

  lemma XorFromZero(w: bv32)
    ensures Xor(0, w) == w
  {
  }

  lemma AddZeroColumn(c: Column)
    ensures AddColumn(c, Unpack(0)) == c
  {
  }

  lemma InverseKeyWordIsInvMix(w: bv32)
    ensures Unpack(InverseKeyWord(w)) == InvMixColumn(Unpack(w))
  {
    hide Pack, Xor, FSb, RSb, Times14, Times11, Times13, Times9, Add, AddColumn, Byte0, Byte1, Byte2, Byte3;
    ReverseOfForward(Byte0(w));
    ReverseOfForward(Byte1(w));
    ReverseOfForward(Byte2(w));
    ReverseOfForward(Byte3(w));
    EntriesSum(0, ReverseEntry(Byte0(w)), ReverseEntry(Byte1(w)), ReverseEntry(Byte2(w)), ReverseEntry(Byte3(w)));
    XorFromZero(RT0(FSb(Byte0(w))));
    AddZeroColumn(InvMixColumn(Unpack(w)));
  }

  /** The word SubWord(RotWord(w)), as the key expansion computes it, section 5.2. */
  function SubRotWord(w: bv32): bv32 {
    Pack(Column(FSb(Byte1(w)), FSb(Byte2(w)), FSb(Byte3(w)), FSb(Byte0(w))))
  }

  function SubWord(w: bv32): bv32 {
    Pack(Column(FSb(Byte0(w)), FSb(Byte1(w)), FSb(Byte2(w)), FSb(Byte3(w))))
  }

  lemma UnpackSubRotWord(w: bv32)
    ensures Unpack(SubRotWord(w)) == SubColumn(RotWord(Unpack(w)))
    ensures Unpack(SubWord(w)) == SubColumn(Unpack(w))
  {
    hide Pack, FSb, Byte0, Byte1, Byte2, Byte3;
    UnpackPack(Column(FSb(Byte1(w)), FSb(Byte2(w)), FSb(Byte3(w)), FSb(Byte0(w))));
    UnpackPack(Column(FSb(Byte0(w)), FSb(Byte1(w)), FSb(Byte2(w)), FSb(Byte3(w))));
  }
}
