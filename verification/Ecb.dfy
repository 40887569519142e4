/**
 Padded ECB over byte buffers, and the two entry points EJ_Aes_Encrypt and EJ_Aes_Decrypt
 with the module's fixed key.
 */
module Ecb {
  import opened Gf256
  import opened Fips197
  import opened AesWords
  import opened Aes
  import opened Bytes

  // One block

  function StateAt(bytes: seq<bv8>, i: nat): State
    requires i + 16 <= |bytes|
  {
    State(LoadColumn(bytes, i), LoadColumn(bytes, i + 4), LoadColumn(bytes, i + 8), LoadColumn(bytes, i + 12))
  }

  function ColumnBytes(c: Column): seq<bv8> {
    [c.b0, c.b1, c.b2, c.b3]
  }

  function StateBytes(s: State): (r: seq<bv8>)
    ensures |r| == 16
  {
    ColumnBytes(s.c0) + ColumnBytes(s.c1) + ColumnBytes(s.c2) + ColumnBytes(s.c3)
  }

  function CryptBlock(mode: int, block: seq<bv8>, keys: Schedule, nr: nat): (r: seq<bv8>)
    requires |block| == 16 && nr > 0
    ensures |r| == 16
  {
    StateBytes(CryptState(mode, StateAt(block, 0), keys, nr))
  }

  lemma StateOfBytes(s: State)
    ensures StateAt(StateBytes(s), 0) == s
  {
  }

  lemma BytesOfState(block: seq<bv8>)
    requires |block| == 16
    ensures StateBytes(StateAt(block, 0)) == block
  {
  }

  function Cell(s: State, r: nat, c: nat): bv8 {
    var column := if c == 0 then s.c0 else if c == 1 then s.c1 else if c == 2 then s.c2 else s.c3;
    if r == 0 then column.b0 else if r == 1 then column.b1 else if r == 2 then column.b2 else column.b3
  }

  lemma CellByte(s: State, r: nat, c: nat)
    requires r < 4 && c < 4
    ensures StateBytes(s)[r + 4 * c] == Cell(s, r, c)
  {
    assert StateBytes(s)[4 * c..4 * c + 4][r] == StateBytes(s)[r + 4 * c];
  }

  lemma ShiftRowsCell(s: State, r: nat, c: nat)
    requires r < 4 && c < 4
    ensures Cell(ShiftRows(s), r, c) == Cell(s, r, (c + r) % 4)
    ensures Cell(InvShiftRows(s), r, (c + r) % 4) == Cell(s, r, c)
  {
  }

  /** Byte r + 4c of a block is row r of column c (section 3.4), and ShiftRows moves row r by r columns to the left. */
  lemma ByteOrder(block: seq<bv8>, r: nat, c: nat)
    requires |block| == 16 && r < 4 && c < 4
    ensures StateAt(block, 0) ==
            State(Column(block[0], block[1], block[2], block[3]), Column(block[4], block[5], block[6], block[7]),
                  Column(block[8], block[9], block[10], block[11]), Column(block[12], block[13], block[14], block[15]))
    ensures StateBytes(ShiftRows(StateAt(block, 0)))[r + 4 * c] == block[r + 4 * ((c + r) % 4)]
    ensures StateBytes(InvShiftRows(StateAt(block, 0)))[r + 4 * ((c + r) % 4)] == block[r + 4 * c]
  {
    hide StateBytes, ShiftRows, InvShiftRows, Cell;
    var s := StateAt(block, 0);
    var moved := (c + r) % 4;
    BytesOfState(block);
    CellByte(s, r, c);
    CellByte(s, r, moved);
    CellByte(ShiftRows(s), r, c);
    CellByte(InvShiftRows(s), r, moved);
    ShiftRowsCell(s, r, c);
  }

  /** Decryption under the transformed schedule returns the block that encryption was given. */
  lemma BlockRoundTrip(block: seq<bv8>, keys: Schedule, nr: nat)
    requires |block| == 16 && nr > 0
    ensures CryptBlock(AES_DECRYPT, CryptBlock(AES_ENCRYPT, block, keys, nr), InverseSchedule(keys, nr), nr) == block
  {
    hide Cipher, EqInvCipher, InvCipher, StateBytes, StateAt, InverseSchedule;
    var s := StateAt(block, 0);
    var c := Cipher(s, keys, nr);
    StateOfBytes(c);
    EqInvCipherIsInvCipher(c, keys, nr);
    InvCipherUndoesCipher(s, keys, nr);
    BytesOfState(block);
  }

  // Whole buffers

  function CryptBlocks(mode: int, data: seq<bv8>, keys: Schedule, nr: nat): (r: seq<bv8>)
    requires |data| % 16 == 0 && nr > 0
    ensures |r| == |data|
  {
    if data == [] then [] else
      CryptBlocks(mode, data[..|data| - 16], keys, nr) + CryptBlock(mode, data[|data| - 16..], keys, nr)
  }

  lemma {:induction false} BlocksRoundTrip(data: seq<bv8>, keys: Schedule, nr: nat)
    requires |data| % 16 == 0 && nr > 0
    ensures CryptBlocks(AES_DECRYPT, CryptBlocks(AES_ENCRYPT, data, keys, nr), InverseSchedule(keys, nr), nr) == data
  {
    hide CryptBlock, InverseSchedule;
    if data != [] {
      var front, last := data[..|data| - 16], data[|data| - 16..];
      BlocksRoundTrip(front, keys, nr);
      BlockRoundTrip(last, keys, nr);
      var cipher := CryptBlocks(AES_ENCRYPT, data, keys, nr);
      assert cipher[..|cipher| - 16] == CryptBlocks(AES_ENCRYPT, front, keys, nr);
      assert cipher[|cipher| - 16..] == CryptBlock(AES_ENCRYPT, last, keys, nr);
    }
  }

  // Padding, section 6.3 of RFC 5652 with 16-byte blocks

  function PadLength(n: nat): (r: nat)
    ensures 1 <= r <= 16 && (n + r) % 16 == 0
  {
    16 - n % 16
  }

  function Pad(data: seq<bv8>): (r: seq<bv8>)
    ensures |r| % 16 == 0 && |r| == |data| + PadLength(|data|)
  {
    data + seq(PadLength(|data|), _ => PadLength(|data|) as bv8)
  }

  /** What remains of a buffer of slen bytes: dlen = slen - output[slen - 1], here when that is not negative. */
  function Unpad(data: seq<bv8>): seq<bv8>
    requires |data| > 0 && data[|data| - 1] as int <= |data|
  {
    data[..|data| - data[|data| - 1] as int]
  }

  lemma UnpadPad(data: seq<bv8>)
    ensures var p := Pad(data); |p| > 0 && p[|p| - 1] as int == PadLength(|data|) <= |p| && Unpad(p) == data
  {
    var n := PadLength(|data|);
    assert (n as bv8) as int == n;
  }

  /** Padded ECB: unpadding the decryption of the encryption of the padding gives the data, for every length. */
  lemma EcbRoundTrip(data: seq<bv8>, keys: Schedule, nr: nat)
    requires nr > 0
    ensures var cipher := CryptBlocks(AES_ENCRYPT, Pad(data), keys, nr);
            var plain := CryptBlocks(AES_DECRYPT, cipher, InverseSchedule(keys, nr), nr);
            plain == Pad(data) && |plain| > 0 && plain[|plain| - 1] as int <= |plain| && Unpad(plain) == data
  {
    hide InverseSchedule, Unpad;
    BlocksRoundTrip(Pad(data), keys, nr);
    UnpadPad(data);
  }

  // The methods

  /** aes_crypt_ecb_update( ctx, mode, input + inOff, output + outOff ) */
  method CryptEcbUpdate(ctx: AesContext, mode: int, input: array<bv8>, inOff: nat, output: array<bv8>, outOff: nat,
                        ghost keys: Schedule)
    requires Holds(ctx.buf[..], keys, ctx.nr) && ctx.nr >= 2 && ctx.nr % 2 == 0
    requires inOff + 16 <= input.Length && outOff + 16 <= output.Length
    modifies output
    ensures output[outOff..outOff + 16] == CryptBlock(mode, old(input[inOff..inOff + 16]), keys, ctx.nr)
    ensures output[..outOff] == old(output[..outOff]) && output[outOff + 16..] == old(output[outOff + 16..])
  {
    hide Holds, Pack, Unpack, CryptState;
    ghost var block := input[inOff..inOff + 16];
    var q := QuadOf(StateAt(input[..], inOff));
    assert StateAt(input[..], inOff) == StateAt(block, 0);
    StateOfQuadOf(StateAt(block, 0));
    var X := ctx.CryptWords(mode, q, keys);
    var bytes := StateBytes(StateOf(X));
    for k := 0 to 16
      invariant output[outOff..outOff + k] == bytes[..k]
      invariant output[..outOff] == old(output[..outOff]) && output[outOff + 16..] == old(output[outOff + 16..])
    {
      output[outOff + k] := bytes[k];
    }
  }

  lemma CryptBlocksAppend(mode: int, front: seq<bv8>, block: seq<bv8>, keys: Schedule, nr: nat)
    requires |front| % 16 == 0 && |block| == 16 && nr > 0
    ensures CryptBlocks(mode, front + block, keys, nr) ==
            CryptBlocks(mode, front, keys, nr) + CryptBlock(mode, block, keys, nr)
  {
  }

  /** The loop over whole blocks that both modes share. */
  method CryptWholeBlocks(ctx: AesContext, mode: int, input: array<bv8>, n: nat, output: array<bv8>,
                          ghost keys: Schedule)
    requires Holds(ctx.buf[..], keys, ctx.nr) && ctx.nr >= 2 && ctx.nr % 2 == 0
    requires 16 * n <= input.Length && 16 * n <= output.Length && input != output
    modifies output
    ensures output[..16 * n] == CryptBlocks(mode, input[..16 * n], keys, ctx.nr)
  {
    hide Holds, CryptBlock, CryptBlocks;
    NoBlocks(mode, keys, ctx.nr);
    for i := 0 to n
      invariant output[..16 * i] == CryptBlocks(mode, input[..16 * i], keys, ctx.nr)
    {
      CryptEcbUpdate(ctx, mode, input, 16 * i, output, 16 * i, keys);
      CryptBlocksAppend(mode, input[..16 * i], input[16 * i..16 * i + 16], keys, ctx.nr);
      assert input[..16 * (i + 1)] == input[..16 * i] + input[16 * i..16 * i + 16];
      assert output[..16 * (i + 1)] == output[..16 * i] + output[16 * i..16 * i + 16];
    }
  }

  lemma NoBlocks(mode: int, keys: Schedule, nr: nat)
    requires nr > 0
    ensures CryptBlocks(mode, [], keys, nr) == []
  {
  }

  /** aes_crypt_ecb in encrypt mode: the output is the encryption of the padded input. */
  method EcbEncrypt(ctx: AesContext, input: array<bv8>, slen: nat, ghost keys: Schedule)
    returns (output: array<bv8>, dlen: nat)
    requires Holds(ctx.buf[..], keys, ctx.nr) && ctx.nr >= 2 && ctx.nr % 2 == 0
    requires slen <= input.Length
    ensures fresh(output) && dlen == output.Length
    ensures output[..] == CryptBlocks(AES_ENCRYPT, Pad(input[..slen]), keys, ctx.nr)
  {
    hide Holds, CryptBlock, CryptBlocks, Pad;
    dlen := slen + PadLength(slen);
    output := new bv8[dlen];
    var whole := slen / 16;
    var buff := LastBlock(input, slen);
    CryptWholeBlocks(ctx, AES_ENCRYPT, input, whole, output, keys);
    CryptEcbUpdate(ctx, AES_ENCRYPT, buff, 0, output, 16 * whole, keys);
    CryptBlocksAppend(AES_ENCRYPT, input[..16 * whole], buff[0..16], keys, ctx.nr);
    assert output[..] == output[..16 * whole] + output[16 * whole..16 * whole + 16];
  }

  /** The 16 bytes after the whole blocks: memset( buff, n, 16 ), then the tail of the input over them. */
  method LastBlock(input: array<bv8>, slen: nat) returns (buff: array<bv8>)
    requires slen <= input.Length
    ensures fresh(buff) && buff.Length == 16
    ensures Pad(input[..slen]) == input[..16 * (slen / 16)] + buff[0..16]
  {
    hide Pad;
    var n := PadLength(slen);
    var whole, tail := slen / 16, slen % 16;
    var pad := n as bv8;
    ghost var tailBytes := input[16 * whole..slen];
    buff := new bv8[16](_ => pad);
    for k := 0 to tail
      invariant forall j | 0 <= j < 16 :: buff[j] == if j < k then tailBytes[j] else pad
    {
      buff[k] := input[16 * whole + k];
    }
    assert buff[0..16] == tailBytes + seq(n, _ => pad);
    PadSplits(input[..slen]);
    assert input[..slen][..16 * whole] == input[..16 * whole] && input[..slen][16 * whole..] == tailBytes;
  }

  lemma PadSplits(data: seq<bv8>)
    ensures var whole, n := 16 * (|data| / 16), PadLength(|data|);
            Pad(data) == data[..whole] + (data[whole..] + seq(n, _ => n as bv8))
  {
  }

  /**
   aes_crypt_ecb in decrypt mode: the last byte of the output says how many bytes to drop. Bytes after the last whole
   block are allocated and not written, so of a length that is no multiple of 16 the last byte is any.
   */
  method EcbDecrypt(ctx: AesContext, input: array<bv8>, slen: nat, ghost keys: Schedule)
    returns (output: array<bv8>, dlen: int)
    requires Holds(ctx.buf[..], keys, ctx.nr) && ctx.nr >= 2 && ctx.nr % 2 == 0
    requires 0 < slen <= input.Length
    ensures fresh(output) && output.Length == slen
    ensures var n := 16 * (slen / 16); output[..n] == CryptBlocks(AES_DECRYPT, input[..n], keys, ctx.nr)
    ensures slen % 16 == 0 ==> output[..] == CryptBlocks(AES_DECRYPT, input[..slen], keys, ctx.nr)
    ensures dlen == slen - output[slen - 1] as int
  {
    hide Holds, CryptBlock, CryptBlocks;
    output := new bv8[slen];
    var whole := slen / 16;
    CryptWholeBlocks(ctx, AES_DECRYPT, input, whole, output, keys);
    if slen % 16 == 0 {
      assert input[..16 * whole] == input[..slen] && output[..16 * whole] == output[..];
    }
    dlen := slen - output[slen - 1] as int;
  }

  // EJ_Aes_Encrypt and EJ_Aes_Decrypt

  const KEK: seq<bv8> := [0x97, 0xC4, 0x4A, 0xEF, 0xAA, 0x34, 0x02, 0x5A,
                          0x4E, 0x41, 0x11, 0xE8, 0x44, 0x4A, 0x9F, 0xBB]

  /** The size passed is sizeof(KEK) in bytes, not bits, so the 128-bit default applies. */
  const KEK_SIZE := 16

  function KekSchedule(): Schedule {
    KeySchedule(KEK, KEK_SIZE)
  }

  /** The bytes that EJ_Aes_Encrypt writes. */
  function AesEncrypted(plain: seq<bv8>): (r: seq<bv8>)
    ensures |r| == |plain| + PadLength(|plain|)
  {
    CryptBlocks(AES_ENCRYPT, Pad(plain), KekSchedule(), 10)
  }

  /** The decrypted buffer, still padded. */
  function AesDecrypted(cipher: seq<bv8>): (r: seq<bv8>)
    requires |cipher| % 16 == 0
    ensures |r| == |cipher|
  {
    CryptBlocks(AES_DECRYPT, cipher, InverseSchedule(KekSchedule(), 10), 10)
  }

  /** The caller's text is whole blocks and its last decrypted byte is a possible padding length. */
  predicate WellPadded(cipher: seq<bv8>) {
    |cipher| > 0 && |cipher| % 16 == 0 &&
    AesDecrypted(cipher)[|cipher| - 1] as int <= |cipher|
  }

  lemma AesRoundTrip(plain: seq<bv8>)
    ensures WellPadded(AesEncrypted(plain)) && Unpad(AesDecrypted(AesEncrypted(plain))) == plain
  {
    hide KekSchedule, CryptBlocks, InverseSchedule, Unpad, Pad;
    EcbRoundTrip(plain, KekSchedule(), 10);
  }

  method EJ_Aes_Encrypt(pPlainTxt: array<bv8>, textLen: nat, pCipTxt: array<bv8>) returns (slen: nat)
    requires textLen <= pPlainTxt.Length && textLen + PadLength(textLen) <= pCipTxt.Length
    modifies pCipTxt
    ensures slen == textLen + PadLength(textLen)
    ensures pCipTxt[..] == AesEncrypted(old(pPlainTxt[..textLen])) + old(pCipTxt[slen..])
  {
    hide CryptBlocks, KeySchedule, Holds;
    var ctx := new AesContext();
    ctx.SetkeyEnc(KEK, KEK_SIZE);
    var result, dlen := EcbEncrypt(ctx, pPlainTxt, textLen, KekSchedule());
    slen := dlen;
    CopyIn(pCipTxt, 0, result[..slen]);
  }

  method EJ_Aes_Decrypt(pCipTxt: array<bv8>, cipTxtLen: nat, pPlainTxt: array<bv8>) returns (ret: nat)
    requires cipTxtLen <= pCipTxt.Length && WellPadded(pCipTxt[..cipTxtLen])
    requires |Unpad(AesDecrypted(pCipTxt[..cipTxtLen]))| <= pPlainTxt.Length
    modifies pPlainTxt
    ensures var plain := Unpad(AesDecrypted(old(pCipTxt[..cipTxtLen])));
            && pPlainTxt[..] == plain + old(pPlainTxt[|plain|..])
            && ret == if |plain| < 20 then 0 else |plain|
  {
    hide CryptBlocks, KeySchedule, Holds, InverseSchedule;
    var ctx := new AesContext();
    ctx.SetkeyDec(KEK, KEK_SIZE);
    var result, slen := EcbDecrypt(ctx, pCipTxt, cipTxtLen, InverseSchedule(KekSchedule(), 10));
    CopyIn(pPlainTxt, 0, result[..slen]);
    ret := if slen < 20 then 0 else slen;
  }
}
