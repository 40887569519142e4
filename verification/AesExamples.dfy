/**
 The worked examples of FIPS 197: the encryption of appendix C.1 with its round keys and states, and the first words of
 the longer key expansions of appendices A.2 and A.3.
 */
module AesExamples {
  import opened Gf256
  import opened SBox
  import opened Fips197
  import opened Aes
  import opened Ecb

  /** A word as the standard prints it, with the first byte in front. */
  function Hex(w: bv32): Column {
    Column((w >> 24) as bv8, ((w >> 16) & 0xFF) as bv8, ((w >> 8) & 0xFF) as bv8, (w & 0xFF) as bv8)
  }

  function HexState(w0: bv32, w1: bv32, w2: bv32, w3: bv32): State {
    State(Hex(w0), Hex(w1), Hex(w2), Hex(w3))
  }

  // Appendix C.1: a key of 128 bits

  const PLAIN: seq<bv8> := [0x00, 0x11, 0x22, 0x33, 0x44, 0x55, 0x66, 0x77,
                            0x88, 0x99, 0xaa, 0xbb, 0xcc, 0xdd, 0xee, 0xff]
  const KEY: seq<bv8> := [0x00, 0x01, 0x02, 0x03, 0x04, 0x05, 0x06, 0x07,
                          0x08, 0x09, 0x0a, 0x0b, 0x0c, 0x0d, 0x0e, 0x0f]
  const CIPHERTEXT: seq<bv8> := [0x69, 0xc4, 0xe0, 0xd8, 0x6a, 0x7b, 0x04, 0x30,
                                 0xd8, 0xcd, 0xb7, 0x80, 0x70, 0xb4, 0xc5, 0x5a]

  /** The round key printed as k_sch of round r. */
  function ExampleKey(r: nat): State {
    match r
    case 0 => HexState(0x00010203, 0x04050607, 0x08090a0b, 0x0c0d0e0f)
    case 1 => HexState(0xd6aa74fd, 0xd2af72fa, 0xdaa678f1, 0xd6ab76fe)
    case 2 => HexState(0xb692cf0b, 0x643dbdf1, 0xbe9bc500, 0x6830b3fe)
    case 3 => HexState(0xb6ff744e, 0xd2c2c9bf, 0x6c590cbf, 0x0469bf41)
    case 4 => HexState(0x47f7f7bc, 0x95353e03, 0xf96c32bc, 0xfd058dfd)
    case 5 => HexState(0x3caaa3e8, 0xa99f9deb, 0x50f3af57, 0xadf622aa)
    case 6 => HexState(0x5e390f7d, 0xf7a69296, 0xa7553dc1, 0x0aa31f6b)
    case 7 => HexState(0x14f9701a, 0xe35fe28c, 0x440adf4d, 0x4ea9c026)
    case 8 => HexState(0x47438735, 0xa41c65b9, 0xe016baf4, 0xaebf7ad2)
    case 9 => HexState(0x549932d1, 0xf0855768, 0x1093ed9c, 0xbe2c974e)
    case _ => HexState(0x13111d7f, 0xe3944a17, 0xf307a78b, 0x4d2b30c5)
  }

  /** The state that round r ends with, and for r = 0 the one that the first round starts with. */
  function ExampleState(r: nat): State {
    match r
    case 0 => HexState(0x00102030, 0x40506070, 0x8090a0b0, 0xc0d0e0f0)
    case 1 => HexState(0x89d810e8, 0x855ace68, 0x2d1843d8, 0xcb128fe4)
    case 2 => HexState(0x4915598f, 0x55e5d7a0, 0xdaca94fa, 0x1f0a63f7)
    case 3 => HexState(0xfa636a28, 0x25b339c9, 0x40668a31, 0x57244d17)
    case 4 => HexState(0x24724023, 0x6966b3fa, 0x6ed27532, 0x88425b6c)
    case 5 => HexState(0xc81677bc, 0x9b7ac93b, 0x25027992, 0xb0261996)
    case 6 => HexState(0xc62fe109, 0xf75eedc3, 0xcc79395d, 0x84f9cf5d)
    case 7 => HexState(0xd1876c0f, 0x79c4300a, 0xb45594ad, 0xd66ff41f)
    case 8 => HexState(0xfde3bad2, 0x05e5d0d7, 0x3547964e, 0xf1fe37f1)
    case 9 => HexState(0xbd6e7c3d, 0xf2b5779e, 0x0b61216e, 0x8b10b689)
    case _ => HexState(0x69c4e0d8, 0x6a7b0430, 0xd8cdb780, 0x70b4c55a)
  }

  /** The next round key of a key of four words, from the last one. */
  function NextKey(k: State, rcon: bv8): State {
    var c0 := AddColumn(k.c0, AddColumn(SubColumn(RotWord(k.c3)), Column(rcon, 0, 0, 0)));
    var c1 := AddColumn(k.c1, c0);
    var c2 := AddColumn(k.c2, c1);
    State(c0, c1, c2, AddColumn(k.c3, c2))
  }

  lemma NextRoundKey(key: seq<Column>, r: nat)
    requires |key| == 4
    ensures RoundKey(key, r + 1) == NextKey(RoundKey(key, r), Rcon(r + 1))
  {
    hide AddColumn, SubColumn, RotWord, Rcon;
    var i := 4 * r + 4;
    assert i % 4 == 0 && i / 4 == r + 1 && (i + 1) % 4 != 0 && (i + 2) % 4 != 0 && (i + 3) % 4 != 0;
  }

  lemma KeyStep(r: nat)
    requires r < 10
    ensures NextKey(ExampleKey(r), Rcon(r + 1)) == ExampleKey(r + 1)
  {
    hide Rcon;
    RconTable(r);
    match r {
      case 0 =>
      case 1 =>
      case 2 =>
      case 3 =>
      case 4 =>
      case 5 =>
      case 6 =>
      case 7 =>
      case 8 =>
      case _ =>
    }
  }


  lemma {:induction false} RoundKeysMatch(key: seq<Column>, r: nat)
    requires r <= 10 && |key| == 4 && State(key[0], key[1], key[2], key[3]) == ExampleKey(0)
    ensures RoundKey(key, r) == ExampleKey(r)
  {
    hide ExampleKey, NextKey, Rcon;
    if r > 0 {
      RoundKeysMatch(key, r - 1);
      NextRoundKey(key, r - 1);
      KeyStep(r - 1);
    }
  }

  lemma EarlyRound(r: nat)
    requires 1 <= r <= 3
    ensures Round(ExampleState(r - 1), ExampleKey(r)) == ExampleState(r)
  {
    match r {
      case 1 =>
      case 2 =>
      case _ =>
    }
  }

  lemma MiddleRound(r: nat)
    requires 4 <= r <= 6
    ensures Round(ExampleState(r - 1), ExampleKey(r)) == ExampleState(r)
  {
    match r {
      case 4 =>
      case 5 =>
      case _ =>
    }
  }

  lemma LateRound(r: nat)
    requires 7 <= r <= 9
    ensures Round(ExampleState(r - 1), ExampleKey(r)) == ExampleState(r)
  {
    match r {
      case 7 =>
      case 8 =>
      case _ =>
    }
  }

  lemma LastRound(r: nat)
    requires r == 10
    ensures FinalRound(ExampleState(r - 1), ExampleKey(r)) == ExampleState(r)
  {
  }

  lemma {:induction false} StatesMatch(keys: Schedule, r: nat)
    requires r <= 9 && forall i: nat | i <= 10 :: keys(i) == ExampleKey(i)
    ensures Iterate(Round, ExampleState(0), keys, r) == ExampleState(r)
  {
    hide ExampleKey, ExampleState, Round;
    if r > 0 {
      StatesMatch(keys, r - 1);
      if r <= 3 {
        EarlyRound(r);
      } else if r <= 6 {
        MiddleRound(r);
      } else {
        LateRound(r);
      }
    }
  }

  /** The bytes in columns: the key is that of round 0, and with it added the plain text is the first state. */
  lemma FirstState(key: seq<Column>)
    requires key == KeyColumns(KEY[..16])
    ensures |key| == 4 && State(key[0], key[1], key[2], key[3]) == ExampleKey(0)
    ensures AddRoundKey(StateAt(PLAIN, 0), ExampleKey(0)) == ExampleState(0)
  {
    assert KEY[..16] == KEY;
  }

  lemma LastState()
    ensures StateBytes(ExampleState(10)) == CIPHERTEXT
  {
  }

  lemma CipherMatches(s: State, keys: Schedule, nr: nat)
    requires nr == 10 && forall i: nat | i <= nr :: keys(i) == ExampleKey(i)
    requires AddRoundKey(s, ExampleKey(0)) == ExampleState(0)
    ensures CryptState(AES_ENCRYPT, s, keys, nr) == ExampleState(nr)
  {
    hide ExampleKey, ExampleState, Round, FinalRound, AddRoundKey;
    StatesMatch(keys, nr - 1);
    LastRound(nr);
  }

  /** The example's plain text under its key becomes its cipher text, and the cipher text becomes the plain text. */
  lemma EncryptionExample(keys: Schedule)
    requires keys == KeySchedule(KEY, 128)
    ensures CryptBlock(AES_ENCRYPT, PLAIN, keys, 10) == CIPHERTEXT
    ensures CryptBlock(AES_DECRYPT, CIPHERTEXT, InverseSchedule(keys, 10), 10) == PLAIN
  {
    hide ExampleKey, ExampleState, AddRoundKey, CryptState, StateBytes, StateAt, InverseSchedule, RoundKey;
    var columns := KeyColumns(KEY[..16]);
    FirstState(columns);
    forall r: nat | r <= 10
      ensures keys(r) == ExampleKey(r)
    {
      RoundKeysMatch(columns, r);
    }
    CipherMatches(StateAt(PLAIN, 0), keys, 10);
    LastState();
    BlockRoundTrip(PLAIN, keys, 10);
  }

  // Appendices A.2 and A.3: keys of 192 and 256 bits

  lemma Expansion192()
    ensures var key := [Hex(0x8e73b0f7), Hex(0xda0e6452), Hex(0xc810f32b), Hex(0x809079e5),
                       Hex(0x62f8ead2), Hex(0x522c6b7b)];
            KeyWord(key, 6) == Hex(0xfe0c91f7)
  {
  }

  lemma Expansion256()
    ensures var key := [Hex(0x603deb10), Hex(0x15ca71be), Hex(0x2b73aef0), Hex(0x857d7781),
                       Hex(0x1f352c07), Hex(0x3b6108d7), Hex(0x2d9810a3), Hex(0x0914dff4)];
            KeyWord(key, 8) == Hex(0x9ba35411) && KeyWord(key, 12) == Hex(0xa8b09c1a)
  {
    var key := [Hex(0x603deb10), Hex(0x15ca71be), Hex(0x2b73aef0), Hex(0x857d7781),
               Hex(0x1f352c07), Hex(0x3b6108d7), Hex(0x2d9810a3), Hex(0x0914dff4)];
    assert KeyWord(key, 9) == Hex(0x8e6925af);
    assert KeyWord(key, 10) == Hex(0xa51a8b5f);
    assert KeyWord(key, 11) == Hex(0x2067fcde);
  }
}
