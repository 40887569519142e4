/**
 The AES context of ej_aes.c: key expansion into the context's buffer of words, the transformed
 schedule for decryption, the table-driven cipher on one block, and padded ECB over a buffer.
 */
module Aes {
  import opened Gf256
  import opened SBox
  import opened Fips197
  import opened AesWords

  const AES_ENCRYPT := 1
  const AES_DECRYPT := 0
  const BUF_WORDS := 68

  // Keys

  /** Any key size other than 192 and 256 falls to the 128-bit default. */
  function KeyBits(keysize: int): nat {
    if keysize == 192 then 192 else if keysize == 256 then 256 else 128
  }

  function NumRounds(keysize: int): nat {
    if keysize == 192 then 12 else if keysize == 256 then 14 else 10
  }

  /** Figure 4 of the standard: six rounds more than the key has words. */
  lemma RoundsOfKey(keysize: int)
    ensures NumRounds(keysize) == KeyBits(keysize) / 32 + 6
    ensures KeyBits(keysize) == if keysize in {192, 256} then keysize else 128
  {
  }

  function LoadColumn(bytes: seq<bv8>, i: nat): Column
    requires i + 4 <= |bytes|
  {
    Column(bytes[i], bytes[i + 1], bytes[i + 2], bytes[i + 3])
  }

  function KeyColumns(key: seq<bv8>): (r: seq<Column>)
    ensures |r| == |key| / 4
  {
    seq(|key| / 4, i requires 0 <= i < |key| / 4 => LoadColumn(key, 4 * i))
  }

  /** The schedule of section 5.2 for the bytes of a key that the source reads. */
  function KeySchedule(key: seq<bv8>, keysize: int): Schedule
    requires |key| >= KeyBits(keysize) / 8
  {
    var columns := KeyColumns(key[..KeyBits(keysize) / 8]);
    (r: nat) => RoundKey(columns, r)
  }

  function QuadAt(words: seq<bv32>, i: nat): Quad
    requires i + 4 <= |words|
  {
    Quad(words[i], words[i + 1], words[i + 2], words[i + 3])
  }

  /** The first 4 * (nr + 1) words are the round keys of the schedule. */
  ghost predicate Holds(words: seq<bv32>, keys: Schedule, nr: nat) {
    HoldsBelow(words, keys, nr + 1)
  }

  ghost predicate HoldsBelow(words: seq<bv32>, keys: Schedule, n: nat) {
    && 4 * n <= |words|
    && forall r: nat | r < n :: StateOf(QuadAt(words, 4 * r)) == keys(r)
  }

  lemma ExtendHolds(words: seq<bv32>, words': seq<bv32>, keys: Schedule, n: nat)
    requires HoldsBelow(words, keys, n) && 4 * n + 4 <= |words| == |words'| && words'[..4 * n] == words[..4 * n]
    requires StateOf(QuadAt(words', 4 * n)) == keys(n)
    ensures HoldsBelow(words', keys, n + 1)
  {
    hide StateOf;
    forall r: nat | r < n
      ensures QuadAt(words', 4 * r) == QuadAt(words, 4 * r)
    {
      assert forall j | 0 <= j < 4 * n :: words'[j] == words'[..4 * n][j] == words[..4 * n][j] == words[j];
    }
  }

  function RCON(i: nat): bv32
    requires i < 10
  {
    [0x01, 0x02, 0x04, 0x08, 0x10, 0x20, 0x40, 0x80, 0x1B, 0x36][i]
  }

  /** The table of round constants holds the powers of x that section 5.2 asks for. */
  lemma RconTable(i: nat)
    requires i < 10
    ensures Unpack(RCON(i)) == Column(Rcon(i + 1), 0, 0, 0)
  {
    assert Rcon(3) == 4 && Rcon(5) == 0x10 && Rcon(7) == 0x40 && Rcon(9) == 0x1B && Rcon(10) == 0x36;
  }

  /** They are 1 and its doublings in the field, each the first byte of its word. */
  lemma RconDoubles(i: nat)
    requires i < 9
    ensures Unpack(RCON(0)) == Column(1, 0, 0, 0)
    ensures Unpack(RCON(i + 1)) == Column(Mul(Unpack(RCON(i)).b0, 2), 0, 0, 0)
  {
    hide Rcon, RCON, Unpack, Mul;
    RconTable(0);
    RconTable(i);
    RconTable(i + 1);
    NextRcon(i + 1);
    PowersAreProducts(Rcon(i + 1));
  }

  lemma NextRcon(i: nat)
    requires i > 0
    ensures Rcon(1) == 1 && Rcon(i + 1) == XTime(Rcon(i))
  {
  }

  lemma SumWithConstant(k: Column, r: Column, s: Column)
    ensures AddColumn(AddColumn(k, r), s) == AddColumn(k, AddColumn(s, r))
  {
    hide Add;
    AddAssociates(k.b0, r.b0, s.b0);
    AddAssociates(k.b1, r.b1, s.b1);
    AddAssociates(k.b2, r.b2, s.b2);
    AddAssociates(k.b3, r.b3, s.b3);
    AddColumnCommutes(r, s);
  }

  // The three kinds of words of the expansion

  lemma FirstWord(key: seq<Column>, n: nat, k: bv32, previous: bv32, i: nat)
    requires |key| > 0 && i < 10 && n == |key| * (i + 1)
    requires n % |key| == 0 && n / |key| == i + 1
    requires Unpack(k) == KeyWord(key, n - |key|) && Unpack(previous) == KeyWord(key, n - 1)
    ensures Unpack(Xor(Xor(k, RCON(i)), SubRotWord(previous))) == KeyWord(key, n)
  {
    hide Unpack, Xor, SubRotWord, SubColumn, AddColumn, Rcon, RCON;
    UnpackXor(k, RCON(i));
    UnpackXor(Xor(k, RCON(i)), SubRotWord(previous));
    RconTable(i);
    UnpackSubRotWord(previous);
    SumWithConstant(Unpack(k), Column(Rcon(i + 1), 0, 0, 0), SubColumn(RotWord(Unpack(previous))));
  }

  lemma PlainWord(key: seq<Column>, n: nat, k: bv32, previous: bv32)
    requires 0 < |key| <= n && n % |key| != 0 && (|key| > 6 ==> n % |key| != 4)
    requires Unpack(k) == KeyWord(key, n - |key|) && Unpack(previous) == KeyWord(key, n - 1)
    ensures Unpack(Xor(k, previous)) == KeyWord(key, n)
  {
    hide Unpack, Xor, AddColumn;
    UnpackXor(k, previous);
  }

  lemma MiddleWord(key: seq<Column>, n: nat, k: bv32, previous: bv32)
    requires 6 < |key| <= n && n % |key| == 4
    requires Unpack(k) == KeyWord(key, n - |key|) && Unpack(previous) == KeyWord(key, n - 1)
    ensures Unpack(Xor(k, SubWord(previous))) == KeyWord(key, n)
  {
    hide Unpack, Xor, SubWord, SubColumn, AddColumn;
    UnpackXor(k, SubWord(previous));
    UnpackSubRotWord(previous);
  }

  /** The first n words are those of the expanded key. */
  ghost predicate Expanded(words: seq<bv32>, key: seq<Column>, n: nat) {
    |key| > 0 && n <= |words| && forall j: nat | j < n :: Unpack(words[j]) == KeyWord(key, j)
  }

  lemma ExpandedHolds(words: seq<bv32>, key: seq<bv8>, keysize: int, n: nat)
    requires |key| >= KeyBits(keysize) / 8 && n >= 4 * NumRounds(keysize) + 4
    requires Expanded(words, KeyColumns(key[..KeyBits(keysize) / 8]), n)
    ensures Holds(words, KeySchedule(key, keysize), NumRounds(keysize))
  {
  }

  /** What one block becomes in the given mode. */
  function CryptState(mode: int, s: State, keys: Schedule, nr: nat): State
    requires nr > 0
  {
    if mode == AES_DECRYPT then EqInvCipher(s, keys, nr) else Cipher(s, keys, nr)
  }

  lemma CipherFromFirst(s: State, keys: Schedule, nr: nat)
    requires nr > 0
    ensures var first := AddRoundKey(s, keys(0));
            && Cipher(s, keys, nr) == FinalRound(Iterate(Round, first, keys, nr - 1), keys(nr))
            && EqInvCipher(s, keys, nr) == EqInvFinalRound(Iterate(EqInvRound, first, keys, nr - 1), keys(nr))
  {
  }

  lemma RoundKeyHeld(words: seq<bv32>, keys: Schedule, nr: nat, r: nat)
    requires Holds(words, keys, nr) && r <= nr
    ensures 4 * nr + 4 <= |words| && StateOf(QuadAt(words, 4 * r)) == keys(r)
  {
  }

  lemma NoRounds(round: (State, State) -> State, s: State, keys: Schedule)
    ensures Iterate(round, s, keys, 0) == s
  {
  }

  lemma NothingHeld(words: seq<bv32>, keys: Schedule)
    ensures HoldsBelow(words, keys, 0)
  {
  }

  lemma HoldsAll(words: seq<bv32>, keys: Schedule, nr: nat)
    requires HoldsBelow(words, keys, nr + 1)
    ensures Holds(words, keys, nr)
  {
  }

  lemma InverseQuadIsInvMix(q: Quad, inverted: Quad)
    requires inverted == Quad(InverseKeyWord(q.w0), InverseKeyWord(q.w1), InverseKeyWord(q.w2), InverseKeyWord(q.w3))
    ensures StateOf(inverted) == InvMixColumns(StateOf(q))
  {
    hide Unpack, InverseKeyWord, InvMixColumn;
    InverseKeyWordIsInvMix(q.w0);
    InverseKeyWordIsInvMix(q.w1);
    InverseKeyWordIsInvMix(q.w2);
    InverseKeyWordIsInvMix(q.w3);
  }

  lemma ForwardStep(words: seq<bv32>, keys: Schedule, nr: nat, first: State, x: Quad, r: nat)
    requires Holds(words, keys, nr) && r < nr && StateOf(x) == Iterate(Round, first, keys, r)
    ensures 4 * nr + 4 <= |words|
    ensures StateOf(ForwardRound(QuadAt(words, 4 * r + 4), x)) == Iterate(Round, first, keys, r + 1)
  {
    hide Holds, StateOf, Round, ForwardRound;
    RoundKeyHeld(words, keys, nr, r + 1);
    ForwardRoundIsRound(QuadAt(words, 4 * (r + 1)), x);
  }

  lemma ReverseStep(words: seq<bv32>, keys: Schedule, nr: nat, first: State, x: Quad, r: nat)
    requires Holds(words, keys, nr) && r < nr && StateOf(x) == Iterate(EqInvRound, first, keys, r)
    ensures 4 * nr + 4 <= |words|
    ensures StateOf(ReverseRound(QuadAt(words, 4 * r + 4), x)) == Iterate(EqInvRound, first, keys, r + 1)
  {
    hide Holds, StateOf, EqInvRound, ReverseRound;
    RoundKeyHeld(words, keys, nr, r + 1);
    ReverseRoundIsEqInvRound(QuadAt(words, 4 * (r + 1)), x);
  }

  class AesContext {
    var nr: nat
    const buf: array<bv32>

    constructor ()
      ensures buf.Length == BUF_WORDS && fresh(buf)
    {
      nr := 0;
      buf := new bv32[BUF_WORDS];
    }

    // The assignments of the expansion loops, one word each

    method StoreFirst(n: nat, nk: nat, i: nat, ghost key: seq<Column>)
      requires 0 < nk == |key| <= n < buf.Length && i < 10 && n == nk * (i + 1) && n % nk == 0 && n / nk == i + 1
      requires Expanded(buf[..], key, n)
      modifies buf
      ensures Expanded(buf[..], key, n + 1)
    {
      hide Unpack, Xor, SubRotWord, KeyWord, RCON;
      FirstWord(key, n, buf[n - nk], buf[n - 1], i);
      buf[n] := Xor(Xor(buf[n - nk], RCON(i)), SubRotWord(buf[n - 1]));
    }

    method StorePlain(n: nat, nk: nat, ghost key: seq<Column>)
      requires 0 < nk == |key| <= n < buf.Length && n % nk != 0 && (nk > 6 ==> n % nk != 4)
      requires Expanded(buf[..], key, n)
      modifies buf
      ensures Expanded(buf[..], key, n + 1)
    {
      hide Unpack, Xor, KeyWord;
      PlainWord(key, n, buf[n - nk], buf[n - 1]);
      buf[n] := Xor(buf[n - nk], buf[n - 1]);
    }

    method StoreMiddle(n: nat, nk: nat, ghost key: seq<Column>)
      requires 6 < nk == |key| <= n < buf.Length && n % nk == 4
      requires Expanded(buf[..], key, n)
      modifies buf
      ensures Expanded(buf[..], key, n + 1)
    {
      hide Unpack, Xor, SubWord, KeyWord;
      MiddleWord(key, n, buf[n - nk], buf[n - 1]);
      buf[n] := Xor(buf[n - nk], SubWord(buf[n - 1]));
    }

    method Expand128(ghost key: seq<Column>)
      requires buf.Length == BUF_WORDS && |key| == 4 && Expanded(buf[..], key, 4)
      modifies buf
      ensures Expanded(buf[..], key, 44)
    {
      hide Expanded;
      for i := 0 to 10
        invariant Expanded(buf[..], key, 4 * i + 4)
      {
        var rk := 4 * i + 4;
        StoreFirst(rk, 4, i, key);
        StorePlain(rk + 1, 4, key);
        StorePlain(rk + 2, 4, key);
        StorePlain(rk + 3, 4, key);
      }
    }

    method Expand192(ghost key: seq<Column>)
      requires buf.Length == BUF_WORDS && |key| == 6 && Expanded(buf[..], key, 6)
      modifies buf
      ensures Expanded(buf[..], key, 54)
    {
      hide Expanded;
      for i := 0 to 8
        invariant Expanded(buf[..], key, 6 * i + 6)
      {
        var rk := 6 * i + 6;
        StoreFirst(rk, 6, i, key);
        StorePlain(rk + 1, 6, key);
        StorePlain(rk + 2, 6, key);
        StorePlain(rk + 3, 6, key);
        StorePlain(rk + 4, 6, key);
        StorePlain(rk + 5, 6, key);
      }
    }

    method Expand256(ghost key: seq<Column>)
      requires buf.Length == BUF_WORDS && |key| == 8 && Expanded(buf[..], key, 8)
      modifies buf
      ensures Expanded(buf[..], key, 64)
    {
      hide Expanded;
      for i := 0 to 7
        invariant Expanded(buf[..], key, 8 * i + 8)
      {
        var rk := 8 * i + 8;
        StoreFirst(rk, 8, i, key);
        StorePlain(rk + 1, 8, key);
        StorePlain(rk + 2, 8, key);
        StorePlain(rk + 3, 8, key);
        StoreMiddle(rk + 4, 8, key);
        StorePlain(rk + 5, 8, key);
        StorePlain(rk + 6, 8, key);
        StorePlain(rk + 7, 8, key);
      }
    }


    /** aes_setkey_enc: the buffer holds the key schedule of section 5.2. */
    method SetkeyEnc(key: seq<bv8>, keysize: int)
      requires buf.Length == BUF_WORDS && |key| >= KeyBits(keysize) / 8
      modifies this, buf
      ensures nr == NumRounds(keysize)
      ensures Holds(buf[..], KeySchedule(key, keysize), nr)
    {
      hide Unpack, Pack, KeyWord, Expanded;
      nr := NumRounds(keysize);
      var nk := KeyBits(keysize) / 32;
      ghost var columns := KeyColumns(key[..KeyBits(keysize) / 8]);
      LoadKey(key, nk, columns);
      match nr {
        case 10 =>
          Expand128(columns);
          ExpandedHolds(buf[..], key, keysize, 44);
        case 12 =>
          Expand192(columns);
          ExpandedHolds(buf[..], key, keysize, 54);
        case 14 =>
          Expand256(columns);
          ExpandedHolds(buf[..], key, keysize, 64);
      }
    }

    /** memcpy( RK, key, keysize >> 3 ) */
    method LoadKey(key: seq<bv8>, nk: nat, ghost columns: seq<Column>)
      requires buf.Length == BUF_WORDS && 0 < nk <= 8 && |key| >= 4 * nk && columns == KeyColumns(key[..4 * nk])
      modifies buf
      ensures Expanded(buf[..], columns, nk)
    {
      hide Unpack, Pack;
      for j := 0 to nk
        invariant Expanded(buf[..], columns, j)
      {
        var c := LoadColumn(key, 4 * j);
        UnpackPack(c);
        assert columns[j] == c;
        buf[j] := Pack(c);
      }
    }

    /** aes_setkey_dec: the buffer holds the transformed schedule of section 5.3.5. */
    method SetkeyDec(key: seq<bv8>, keysize: int)
      requires buf.Length == BUF_WORDS && |key| >= KeyBits(keysize) / 8
      modifies this, buf
      ensures nr == NumRounds(keysize)
      ensures Holds(buf[..], InverseSchedule(KeySchedule(key, keysize), nr), nr)
    {
      hide Holds, HoldsBelow, StateOf, KeySchedule, InvMixColumns;
      var cty := new AesContext();
      cty.SetkeyEnc(key, keysize);
      nr := cty.nr;
      ghost var keys := KeySchedule(key, keysize);
      ghost var dual := InverseSchedule(keys, nr);
      NothingHeld(buf[..], dual);
      var rk, sk := 0, 4 * nr;
      RoundKeyHeld(cty.buf[..], keys, nr, nr);
      CopyKey(cty, rk, sk, dual);
      rk := rk + 4;
      sk := sk - 4;
      var i := nr - 1;
      while i > 0
        invariant 0 <= i < nr && nr == cty.nr == NumRounds(keysize)
        invariant rk == 4 * (nr - i) && sk == 4 * i
        invariant Holds(cty.buf[..], keys, nr)
        invariant HoldsBelow(buf[..], dual, nr - i)
      {
        RoundKeyHeld(cty.buf[..], keys, nr, i);
        assert dual(nr - i) == InvMixColumns(keys(i));
        InvertKey(cty, rk, sk, dual);
        rk := rk + 4;
        sk := sk - 4;
        i := i - 1;
      }
      RoundKeyHeld(cty.buf[..], keys, nr, 0);
      CopyKey(cty, rk, sk, dual);
      HoldsAll(buf[..], dual, nr);
    }

    /** memcpy( RK, SK, sizeof( unsigned int ) << 2 ) */
    method CopyKey(from: AesContext, rk: nat, sk: nat, ghost dual: Schedule)
      requires rk % 4 == 0 && rk + 4 <= buf.Length && sk + 4 <= from.buf.Length && from.buf != buf
      requires HoldsBelow(buf[..], dual, rk / 4) && StateOf(QuadAt(from.buf[..], sk)) == dual(rk / 4)
      modifies buf
      ensures HoldsBelow(buf[..], dual, rk / 4 + 1)
    {
      hide HoldsBelow, StateOf;
      ghost var words := buf[..];
      for j := 0 to 4
        invariant forall k | rk <= k < rk + j :: buf[k] == from.buf[sk + (k - rk)]
        invariant buf[..rk] == words[..rk]
      {
        buf[rk + j] := from.buf[sk + j];
      }
      assert QuadAt(buf[..], rk) == QuadAt(from.buf[..], sk);
      ExtendHolds(words, buf[..], dual, rk / 4);
    }

    /** One round key through the tables RT over FSb: the inner loop of aes_setkey_dec. */
    method InvertKey(from: AesContext, rk: nat, sk: nat, ghost dual: Schedule)
      requires rk % 4 == 0 && rk + 4 <= buf.Length && sk + 4 <= from.buf.Length && from.buf != buf
      requires HoldsBelow(buf[..], dual, rk / 4) && InvMixColumns(StateOf(QuadAt(from.buf[..], sk))) == dual(rk / 4)
      modifies buf
      ensures HoldsBelow(buf[..], dual, rk / 4 + 1)
    {
      hide HoldsBelow, StateOf, InverseKeyWord, InvMixColumns;
      ghost var words := buf[..];
      for j := 0 to 4
        invariant forall k | rk <= k < rk + j :: buf[k] == InverseKeyWord(from.buf[sk + (k - rk)])
        invariant buf[..rk] == words[..rk]
      {
        buf[rk + j] := InverseKeyWord(from.buf[sk + j]);
      }
      InverseQuadIsInvMix(QuadAt(from.buf[..], sk), QuadAt(buf[..], rk));
      ExtendHolds(words, buf[..], dual, rk / 4);
    }

    /**
     aes_crypt_ecb_update on the words of one block: the table form, two rounds per turn of the loop,
     computes the cipher of section 5.1 or the equivalent inverse cipher of section 5.3.5.
     */
    method CryptWords(mode: int, input: Quad, ghost keys: Schedule) returns (X: Quad)
      requires Holds(buf[..], keys, nr) && nr >= 2 && nr % 2 == 0
      ensures StateOf(X) == CryptState(mode, StateOf(input), keys, nr)
    {
      hide Holds, StateOf, XorQuad, AddRoundKey, Cipher, EqInvCipher, Round, FinalRound, EqInvRound, EqInvFinalRound;
      RoundKeyHeld(buf[..], keys, nr, 0);
      XorQuadIsAddRoundKey(input, QuadAt(buf[..], 0));
      X := XorQuad(input, QuadAt(buf[..], 0));
      if mode == AES_DECRYPT {
        X := ReverseRounds(X, keys);
      } else {
        X := ForwardRounds(X, keys);
      }
      CipherFromFirst(StateOf(input), keys, nr);
    }

    method ForwardRounds(input: Quad, ghost keys: Schedule) returns (X: Quad)
      requires Holds(buf[..], keys, nr) && nr >= 2 && nr % 2 == 0
      ensures StateOf(X) == FinalRound(Iterate(Round, StateOf(input), keys, nr - 1), keys(nr))
    {
      hide *;
      X := input;
      NoRounds(Round, StateOf(input), keys);
      var rk := 4;
      var i := nr / 2 - 1;
      ghost var r := 0;
      while i > 0
        invariant 0 <= i < nr / 2 && r == nr - 2 - 2 * i && rk == 4 * r + 4
        invariant StateOf(X) == Iterate(Round, StateOf(input), keys, r)
      {
        ForwardStep(buf[..], keys, nr, StateOf(input), X, r);
        var Y := ForwardRound(QuadAt(buf[..], rk), X);
        ForwardStep(buf[..], keys, nr, StateOf(input), Y, r + 1);
        X := ForwardRound(QuadAt(buf[..], rk + 4), Y);
        rk, r := rk + 8, r + 2;
        i := i - 1;
      }
      ForwardStep(buf[..], keys, nr, StateOf(input), X, r);
      var Y := ForwardRound(QuadAt(buf[..], rk), X);
      RoundKeyHeld(buf[..], keys, nr, nr);
      LastForwardRoundIsFinalRound(QuadAt(buf[..], rk + 4), Y);
      X := LastForwardRound(QuadAt(buf[..], rk + 4), Y);
    }

    method ReverseRounds(input: Quad, ghost keys: Schedule) returns (X: Quad)
      requires Holds(buf[..], keys, nr) && nr >= 2 && nr % 2 == 0
      ensures StateOf(X) == EqInvFinalRound(Iterate(EqInvRound, StateOf(input), keys, nr - 1), keys(nr))
    {
      hide *;
      X := input;
      NoRounds(EqInvRound, StateOf(input), keys);
      var rk := 4;
      var i := nr / 2 - 1;
      ghost var r := 0;
      while i > 0
        invariant 0 <= i < nr / 2 && r == nr - 2 - 2 * i && rk == 4 * r + 4
        invariant StateOf(X) == Iterate(EqInvRound, StateOf(input), keys, r)
      {
        ReverseStep(buf[..], keys, nr, StateOf(input), X, r);
        var Y := ReverseRound(QuadAt(buf[..], rk), X);
        ReverseStep(buf[..], keys, nr, StateOf(input), Y, r + 1);
        X := ReverseRound(QuadAt(buf[..], rk + 4), Y);
        rk, r := rk + 8, r + 2;
        i := i - 1;
      }
      ReverseStep(buf[..], keys, nr, StateOf(input), X, r);
      var Y := ReverseRound(QuadAt(buf[..], rk), X);
      RoundKeyHeld(buf[..], keys, nr, nr);
      LastReverseRoundIsFinalRound(QuadAt(buf[..], rk + 4), Y);
      X := LastReverseRound(QuadAt(buf[..], rk + 4), Y);
    }
  }
}
