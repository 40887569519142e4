/**
 The block cipher as FIPS 197 defines it, on states of four columns of four bytes:
 the cipher (section 5.1), the key expansion (5.2), the inverse cipher (5.3) and the
 equivalent inverse cipher (5.3.5), with the proof that the last two undo the first.
 */
module Fips197 {
  import opened Gf256
  import opened SBox

  datatype State = State(c0: Column, c1: Column, c2: Column, c3: Column)

  // Transformations of the state

  function SubColumn(c: Column): Column {
    Column(FSb(c.b0), FSb(c.b1), FSb(c.b2), FSb(c.b3))
  }

  function InvSubColumn(c: Column): Column {
    Column(RSb(c.b0), RSb(c.b1), RSb(c.b2), RSb(c.b3))
  }

  function SubBytes(s: State): State {
    State(SubColumn(s.c0), SubColumn(s.c1), SubColumn(s.c2), SubColumn(s.c3))
  }

  function InvSubBytes(s: State): State {
    State(InvSubColumn(s.c0), InvSubColumn(s.c1), InvSubColumn(s.c2), InvSubColumn(s.c3))
  }

  /** Row r moves r columns to the left. */
  function ShiftRows(s: State): State {
    State(Column(s.c0.b0, s.c1.b1, s.c2.b2, s.c3.b3),
          Column(s.c1.b0, s.c2.b1, s.c3.b2, s.c0.b3),
          Column(s.c2.b0, s.c3.b1, s.c0.b2, s.c1.b3),
          Column(s.c3.b0, s.c0.b1, s.c1.b2, s.c2.b3))
  }

  /** Row r moves r columns to the right. */
  function InvShiftRows(s: State): State {
    State(Column(s.c0.b0, s.c3.b1, s.c2.b2, s.c1.b3),
          Column(s.c1.b0, s.c0.b1, s.c3.b2, s.c2.b3),
          Column(s.c2.b0, s.c1.b1, s.c0.b2, s.c3.b3),
          Column(s.c3.b0, s.c2.b1, s.c1.b2, s.c0.b3))
  }

  function MixColumns(s: State): State {
    State(MixColumn(s.c0), MixColumn(s.c1), MixColumn(s.c2), MixColumn(s.c3))
  }

  function InvMixColumns(s: State): State {
    State(InvMixColumn(s.c0), InvMixColumn(s.c1), InvMixColumn(s.c2), InvMixColumn(s.c3))
  }

  function AddRoundKey(s: State, k: State): State {
    State(AddColumn(s.c0, k.c0), AddColumn(s.c1, k.c1), AddColumn(s.c2, k.c2), AddColumn(s.c3, k.c3))
  }

  // Key expansion

  function RotWord(c: Column): Column {
    Column(c.b1, c.b2, c.b3, c.b0)
  }

  /** x^(i-1), the varying byte of the round constant. */
  function Rcon(i: nat): bv8
  {
    if i <= 1 then 1 else XTime(Rcon(i - 1))
  }

  /** The word that enters the sum for w[i], section 5.2. */
  function Temp(previous: Column, nk: nat, i: nat): Column
    requires nk > 0
  {
    if i % nk == 0 then AddColumn(SubColumn(RotWord(previous)), Column(Rcon(i / nk), 0, 0, 0))
    else if nk > 6 && i % nk == 4 then SubColumn(previous)
    else previous
  }

  /** The word w[i] of the key schedule of a key of |key| words. */
  function KeyWord(key: seq<Column>, i: nat): Column
    requires |key| > 0
    decreases i
  {
    if i < |key| then key[i]
    else AddColumn(KeyWord(key, i - |key|), Temp(KeyWord(key, i - 1), |key|, i))
  }

  /** The key of round r. */
  function RoundKey(key: seq<Column>, r: nat): State
    requires |key| > 0
  {
    State(KeyWord(key, 4 * r), KeyWord(key, 4 * r + 1), KeyWord(key, 4 * r + 2), KeyWord(key, 4 * r + 3))
  }

  // Ciphers. A schedule is a function from rounds to round keys.

  type Schedule = nat -> State

  /** The state after r rounds, the keys of which are keys(1), ..., keys(r). */
  function Iterate(round: (State, State) -> State, s: State, keys: Schedule, r: nat): State {
    if r == 0 then s else round(Iterate(round, s, keys, r - 1), keys(r))
  }

  /** The schedule from the last round to the first. */
  function Reversed(keys: Schedule, nr: nat): Schedule {
    (r: nat) => keys(if r <= nr then nr - r else 0)
  }

  function Round(s: State, k: State): State {
    AddRoundKey(MixColumns(ShiftRows(SubBytes(s))), k)
  }

  function FinalRound(s: State, k: State): State {
    AddRoundKey(ShiftRows(SubBytes(s)), k)
  }

  function Cipher(s: State, keys: Schedule, nr: nat): State
    requires nr > 0
  {
    FinalRound(Iterate(Round, AddRoundKey(s, keys(0)), keys, nr - 1), keys(nr))
  }

  /** The first half of a round of the inverse cipher. */
  function Unshift(s: State): State {
    InvSubBytes(InvShiftRows(s))
  }

  function InvRound(s: State, k: State): State {
    InvMixColumns(AddRoundKey(Unshift(s), k))
  }

  function InvCipher(s: State, keys: Schedule, nr: nat): State
    requires nr > 0
  {
    AddRoundKey(Unshift(Iterate(InvRound, AddRoundKey(s, keys(nr)), Reversed(keys, nr), nr - 1)), keys(0))
  }

  function EqInvRound(s: State, k: State): State {
    AddRoundKey(InvMixColumns(InvShiftRows(InvSubBytes(s))), k)
  }

  function EqInvFinalRound(s: State, k: State): State {
    AddRoundKey(InvShiftRows(InvSubBytes(s)), k)
  }

  function EqInvCipher(s: State, keys: Schedule, nr: nat): State
    requires nr > 0
  {
    EqInvFinalRound(Iterate(EqInvRound, AddRoundKey(s, keys(0)), keys, nr - 1), keys(nr))
  }

  /** The schedule of section 5.3.5, in the order of use: reversed, inner keys through InvMixColumns. */
  function InverseSchedule(keys: Schedule, nr: nat): Schedule {
    (r: nat) => if r == 0 then keys(nr) else if r < nr then InvMixColumns(keys(nr - r)) else keys(0)
  }

  // Each transformation is undone by its inverse

  lemma SubColumnUndone(c: Column)
    ensures InvSubColumn(SubColumn(c)) == c
  {
    ReverseOfForward(c.b0);
    ReverseOfForward(c.b1);
    ReverseOfForward(c.b2);
    ReverseOfForward(c.b3);
  }

  lemma SubBytesUndone(s: State)
    ensures InvSubBytes(SubBytes(s)) == s
  {
    SubColumnUndone(s.c0);
    SubColumnUndone(s.c1);
    SubColumnUndone(s.c2);
    SubColumnUndone(s.c3);
  }

  lemma MixColumnsUndone(s: State)
    ensures InvMixColumns(MixColumns(s)) == s
  {
    InvMixMix(s.c0);
    InvMixMix(s.c1);
    InvMixMix(s.c2);
    InvMixMix(s.c3);
  }

  lemma AddColumnUndone(c: Column, k: Column)
    ensures AddColumn(AddColumn(c, k), k) == c
  {
  }

  lemma AddRoundKeyUndone(s: State, k: State)
    ensures AddRoundKey(AddRoundKey(s, k), k) == s
  {
    AddColumnUndone(s.c0, k.c0);
    AddColumnUndone(s.c1, k.c1);
    AddColumnUndone(s.c2, k.c2);
    AddColumnUndone(s.c3, k.c3);
  }

  lemma InvMixColumnsDistributes(s: State, k: State)
    ensures InvMixColumns(AddRoundKey(s, k)) == AddRoundKey(InvMixColumns(s), InvMixColumns(k))
  {
    InvMixDistributes(s.c0, k.c0);
    InvMixDistributes(s.c1, k.c1);
    InvMixDistributes(s.c2, k.c2);
    InvMixDistributes(s.c3, k.c3);
  }

  lemma ShiftRowsUndone(s: State)
    ensures InvShiftRows(ShiftRows(s)) == s
  {
  }

  /** Substituting bytes and moving them commute. */
  lemma ShiftThenSub(s: State)
    ensures ShiftRows(SubBytes(s)) == SubBytes(ShiftRows(s))
    ensures InvShiftRows(InvSubBytes(s)) == Unshift(s)
  {
  }

  lemma SubShiftUndone(s: State)
    ensures Unshift(ShiftRows(SubBytes(s))) == s
  {
    ShiftRowsUndone(SubBytes(s));
    SubBytesUndone(s);
  }

  lemma FinalRoundUndone(s: State, k: State)
    ensures Unshift(AddRoundKey(FinalRound(s, k), k)) == s
  {
    AddRoundKeyUndone(ShiftRows(SubBytes(s)), k);
    SubShiftUndone(s);
  }

  lemma RoundUndone(s: State, p: State, k: State)
    requires Unshift(p) == Round(s, k)
    ensures Unshift(InvRound(p, k)) == s
  {
    var shifted := ShiftRows(SubBytes(s));
    AddRoundKeyUndone(MixColumns(shifted), k);
    MixColumnsUndone(shifted);
    SubShiftUndone(s);
  }

  // The inverse cipher undoes the cipher

  ghost predicate Undoes(round: (State, State) -> State, undo: (State, State) -> State, view: State -> State) {
    forall t, p, k :: view(p) == round(t, k) ==> view(undo(p, k)) == t
  }

  lemma InvRoundUndoesRound()
    ensures Undoes(Round, InvRound, Unshift)
  {
    forall t, p, k | Unshift(p) == Round(t, k)
      ensures Unshift(InvRound(p, k)) == t
    {
      RoundUndone(t, p, k);
    }
  }

  /** Rounds that undo rounds, up to a view of the state, retrace an iteration step by step. */
  lemma {:induction false} Retrace(round: (State, State) -> State, undo: (State, State) -> State, view: State -> State,
                                   s: State, last: State, keys: Schedule, nr: nat, r: nat)
    requires Undoes(round, undo, view)
    requires r < nr && view(last) == Iterate(round, s, keys, nr - 1)
    ensures view(Iterate(undo, last, Reversed(keys, nr), r)) == Iterate(round, s, keys, nr - 1 - r)
  {
    if r > 0 {
      Retrace(round, undo, view, s, last, keys, nr, r - 1);
    }
  }

  /** For every block and every schedule, whatever its keys: section 5.3 undoes section 5.1. */
  lemma InvCipherUndoesCipher(s: State, keys: Schedule, nr: nat)
    requires nr > 0
    ensures InvCipher(Cipher(s, keys, nr), keys, nr) == s
  {
    hide AddRoundKey, Round, FinalRound, Unshift, InvRound;
    var first := AddRoundKey(s, keys(0));
    var middle := Iterate(Round, first, keys, nr - 1);
    FinalRoundUndone(middle, keys(nr));
    InvRoundUndoesRound();
    Retrace(Round, InvRound, Unshift, first, AddRoundKey(FinalRound(middle, keys(nr)), keys(nr)), keys, nr, nr - 1);
    AddRoundKeyUndone(s, keys(0));
  }

  // The equivalent inverse cipher

  ghost predicate Agree(round: (State, State) -> State, keys: Schedule, round': (State, State) -> State,
                        keys': Schedule, r: nat) {
    forall t: State, i: nat | 0 < i <= r :: round(t, keys(i)) == round'(t, keys'(i))
  }

  lemma {:induction false} IterateAgrees(round: (State, State) -> State, round': (State, State) -> State, s: State,
                                         keys: Schedule, keys': Schedule, r: nat)
    requires Agree(round, keys, round', keys', r)
    ensures Iterate(round, s, keys, r) == Iterate(round', s, keys', r)
  {
    if r > 0 {
      IterateAgrees(round, round', s, keys, keys', r - 1);
    }
  }

  lemma EqInvRoundIsInvRound(s: State, k: State)
    ensures EqInvRound(s, InvMixColumns(k)) == InvRound(s, k)
  {
    ShiftThenSub(s);
    InvMixColumnsDistributes(Unshift(s), k);
  }

  lemma EqInvFinalRoundIsFinal(s: State, k: State)
    ensures EqInvFinalRound(s, k) == AddRoundKey(Unshift(s), k)
  {
  }

  lemma EqInvRoundsAgree(keys: Schedule, nr: nat)
    requires nr > 0
    ensures Agree(EqInvRound, InverseSchedule(keys, nr), InvRound, Reversed(keys, nr), nr - 1)
  {
    forall t: State, i: nat | 0 < i <= nr - 1
      ensures EqInvRound(t, InverseSchedule(keys, nr)(i)) == InvRound(t, Reversed(keys, nr)(i))
    {
      EqInvRoundIsInvRound(t, keys(nr - i));
    }
  }

  /** Section 5.3.5: with the transformed schedule the equivalent inverse cipher is the inverse cipher. */
  lemma EqInvCipherIsInvCipher(s: State, keys: Schedule, nr: nat)
    requires nr > 0
    ensures EqInvCipher(s, InverseSchedule(keys, nr), nr) == InvCipher(s, keys, nr)
  {
    hide AddRoundKey, Unshift, EqInvRound, EqInvFinalRound, InvRound;
    var first := AddRoundKey(s, keys(nr));
    EqInvRoundsAgree(keys, nr);
    IterateAgrees(EqInvRound, InvRound, first, InverseSchedule(keys, nr), Reversed(keys, nr), nr - 1);
    EqInvFinalRoundIsFinal(Iterate(InvRound, first, Reversed(keys, nr), nr - 1), keys(0));
  }
}
