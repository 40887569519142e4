/**
 The two packet readers of MQTTPacket.c: MQTTPacket_read, whose source blocks until it has what was asked for, and
 MQTTPacket_readnb, which is called again and again while its source answers in pieces.
 */
module MqttReader {
  import opened Bytes
  import opened MqttPacket

  const MAX_NO_OF_REMAINING_LENGTH_BYTES := 4

  // The blocking reader

  /**
   What MQTTPacket_decode makes of the stream, also when it ends early or runs too long: the value and the bytes
   taken.
   */
  function TakeLength(s: seq<byte>, limit: nat): (r: (nat, nat))
    ensures r.1 <= |s| && r.1 <= limit
    ensures r.0 < Pow128(r.1)
  {
    if limit == 0 || s == [] then (0, 0)
    else if s[0] < 128 then (s[0], 1)
    else var (value, taken) := TakeLength(s[1..], limit - 1); (s[0] - 128 + 128 * value, 1 + taken)
  }

  lemma {:induction false} TakeLengthDecodes(s: seq<byte>, limit: nat)
    requires DecodeLen(s, limit).Decoded? && DecodeLen(s, limit).complete
    ensures TakeLength(s, limit) == (DecodeLen(s, limit).value, DecodeLen(s, limit).len)
  {
    if s[0] >= 128 {
      TakeLengthDecodes(s[1..], limit - 1);
    }
  }

  /** Return code, buffer and what is left of the stream. */
  datatype ReadResult = ReadResult(rc: int, buf: seq<byte>, stream: seq<byte>)

  /** The buffer has room for the header byte and the length, which is put back before it is compared with buflen. */
  predicate RoomForHeader(stream: seq<byte>, buf: seq<byte>) {
    buf != [] && (stream != [] ==> 1 + |EncodeLen(TakeLength(stream[1..], 4).0)| <= |buf|)
  }

  /** Five bytes are room for every stream. */
  lemma FiveBytesAreRoom(stream: seq<byte>, buf: seq<byte>)
    requires |buf| >= 5
    ensures RoomForHeader(stream, buf)
  {
    hide TakeLength;
    if stream != [] {
      SmallLength(stream[1..]);
    }
  }

  /** MQTTPacket_read */
  function BlockingRead(stream: seq<byte>, buf: seq<byte>, buflen: nat): (r: ReadResult)
    requires RoomForHeader(stream, buf)
    ensures |r.buf| == |buf|
  {
    if stream == [] then ReadResult(-1, buf, stream)
    else
      var (rem, taken) := TakeLength(stream[1..], 4);
      var rest := stream[1 + taken..];
      var headed := Patch(buf[0 := stream[0]], 1, EncodeLen(rem));
      var len := 1 + |EncodeLen(rem)|;
      if rem + len > buflen then ReadResult(-1, headed, rest)
      else
        var k := Min(rem, |rest|);
        var filled := Patch(headed, len, rest[..k]);
        ReadResult(if k == rem then TypeOf(filled[0]) else -1, filled, rest[k..])
  }

  /** A transport whose getfn waits: it delivers less than asked only at the end of the stream. */
  class BlockingTransport {
    var stream: seq<byte>

    method GetChar() returns (rc: int, c: byte)
      modifies this
      ensures if old(stream) == [] then rc == 0 && stream == [] else rc == 1 && [c] + stream == old(stream)
    {
      rc, c := 0, 0;
      if stream != [] {
        rc, c := 1, stream[0];
        stream := stream[1..];
      }
    }

    method Get(buf: array<byte>, at: nat, wanted: nat) returns (rc: nat)
      requires at + wanted <= buf.Length
      modifies this, buf
      ensures rc == Min(wanted, |old(stream)|)
      ensures buf[..] == Patch(old(buf[..]), at, old(stream)[..rc]) && stream == old(stream)[rc..]
    {
      rc := Min(wanted, |stream|);
      CopyIn(buf, at, stream[..rc]);
      stream := stream[rc..];
    }

    /** MQTTPacket_decode over getfn */
    method Decode() returns (value: nat)
      modifies this
      ensures value == TakeLength(old(stream), 4).0 && stream == old(stream)[TakeLength(old(stream), 4).1..]
    {
      hide TakeLength;
      var multiplier: nat, len: nat := 1, 0;
      value := 0;
      ghost var was := stream;
      ghost var taken := 0;
      while true
        invariant len == taken <= 4 && taken <= |was| && stream == was[taken..]
        invariant TakeLength(was, 4) == (value + multiplier * TakeLength(stream, 4 - len).0,
                                         taken + TakeLength(stream, 4 - len).1)
        decreases 4 - len
      {
        len := len + 1;
        if len > MAX_NO_OF_REMAINING_LENGTH_BYTES {
          NoLengthLeft(stream);
          return;
        }
        TakeLengthStep(stream, 5 - len, multiplier);
        ghost var s := stream;
        var rc, c := GetChar();
        if rc != 1 {
          return;
        }
        assert stream == s[1..] && c == s[0];
        taken := taken + 1;
        value := value + c % 128 * multiplier;
        multiplier := multiplier * 128;
        if c < 128 {
          return;
        }
      }
    }

    /** MQTTPacket_read */
    method Read(buf: array<byte>, buflen: nat) returns (rc: int)
      requires RoomForHeader(stream, buf[..]) && buflen <= buf.Length
      modifies this, buf
      ensures ReadResult(rc, buf[..], stream) == BlockingRead(old(stream), old(buf[..]), buflen)
    {
      hide Patch, EncodeLen, TakeLength;
      rc := -1;
      ghost var was, before := stream, buf[..];
      var n := Get(buf, 0, 1);
      PatchNothing(before, 0);
      if n != 1 {
        assert was[..0] == [];
        return;
      }
      assert was[..1] == [was[0]];
      PatchOne(before, 0, was[0]);
      var rem := Decode();
      ghost var taken := TakeLength(was[1..], 4).1;
      assert was[1..][taken..] == was[1 + taken..];
      var len := PutLength(buf, rem);
      if rem + len > buflen {
        return;
      }
      n := Get(buf, len, rem);
      if n != rem {
        return;
      }
      rc := TypeOf(buf[0]);
    }
  }

  lemma NoLengthLeft(s: seq<byte>)
    ensures TakeLength(s, 0) == (0, 0)
  {
  }

  lemma {:induction false} Pow128Mono(j: nat, k: nat)
    requires j <= k
    ensures 1 <= Pow128(j) <= Pow128(k)
  {
    if k > 0 {
      Pow128Mono(if j < k then j else j - 1, k - 1);
    }
  }

  /** A value of at most four length bytes is written back in at most four. */
  lemma SmallValue(rem: nat, k: nat)
    requires rem < Pow128(k) && k <= 4
    ensures rem <= MAX_REMAINING && |EncodeLen(rem)| <= 4
  {
    Pow128Mono(k, 4);
    assert Pow128(4) == 128 * (128 * (128 * 128)) by {
      assert Pow128(2) == 128 * 128;
    }
    EncodedSize(rem);
  }

  lemma SmallLength(s: seq<byte>)
    ensures |EncodeLen(TakeLength(s, 4).0)| <= 4
  {
    hide TakeLength;
    SmallValue(TakeLength(s, 4).0, TakeLength(s, 4).1);
  }

  lemma PatchOne(buf: seq<byte>, at: nat, c: byte)
    requires at < |buf|
    ensures Patch(buf, at, [c]) == buf[at := c]
  {
  }

  lemma TakeLengthStep(s: seq<byte>, limit: nat, multiplier: nat)
    requires limit > 0
    ensures var (value, taken) := TakeLength(s, limit);
            if s == [] then value == 0 && taken == 0
            else if s[0] < 128 then taken == 1 && multiplier * value == s[0] % 128 * multiplier
            else var (v, t) := TakeLength(s[1..], limit - 1);
                 taken == 1 + t && multiplier * value == s[0] % 128 * multiplier + multiplier * 128 * v
  {
    if s != [] && s[0] >= 128 {
      var v := TakeLength(s[1..], limit - 1).0;
      assert s[0] % 128 == s[0] - 128;
      assert multiplier * (s[0] - 128 + 128 * v) == multiplier * (s[0] - 128) + multiplier * 128 * v;
    }
  }

  /** MQTTPacket_encode(buf + 1, rem): the length put back behind the header byte. */
  method PutLength(buf: array<byte>, rem: nat) returns (len: nat)
    requires 1 + |EncodeLen(rem)| <= buf.Length
    modifies buf
    ensures len == 1 + |EncodeLen(rem)| && buf[..] == Patch(old(buf[..]), 1, EncodeLen(rem))
  {
    hide EncodeLen;
    ghost var before := buf[..];
    assert Wrote(before, buf[..], [buf[0]]);
    var n := Encode(buf, 1, rem, before, [buf[0]]);
    len := 1 + n;
    assert buf[..] == before[..1] + EncodeLen(rem) + before[1 + n..];
  }

  // The non-blocking reader

  /** One answer of getfn: at most n of the bytes asked for, where none means call again, or an error. */
  datatype Reply = Upto(n: nat) | Failed

  /**
   MQTTTransport with the buffer, the bytes still to come and the answers still to come; without answers nothing is
   ready.
   */
  datatype Reader = Reader(state: nat, len: nat, remLen: nat, multiplier: nat, buf: seq<byte>, stream: seq<byte>,
                           pace: seq<Reply>)

  /** The bytes that the next answer delivers if n are asked for, or -1. */
  function Delivers(stream: seq<byte>, pace: seq<Reply>, n: nat): (r: int)
    ensures -1 <= r <= n && r <= |stream|
  {
    if pace == [] then 0
    else match pace[0]
      case Failed => -1
      case Upto(m) => Min(Min(m, n), |stream|)
  }

  function Answered(t: Reader): Reader {
    if t.pace == [] then t else t.(pace := t.pace[1..])
  }

  /** getfn(sck, buf + at, n) */
  function Get(t: Reader, at: nat, n: nat): (r: (Reader, int))
    ensures -1 <= r.1 <= n && |r.0.buf| == |t.buf| && r.0.remLen == t.remLen
    ensures |r.0.pace| <= |t.pace| && (t.pace != [] ==> |r.0.pace| < |t.pace|)
  {
    var k := Delivers(t.stream, t.pace, n);
    if k <= 0 then (Answered(t), k)
    else (Answered(t).(buf := Patch(t.buf, at, t.stream[..k]), stream := t.stream[k..]), k)
  }

  /** (c & 127) * multiplier */
  function Digit(c: byte, multiplier: nat): nat {
    c % 128 * multiplier
  }

  /** The loop of MQTTPacket_decodenb. */
  function DecodeNbLoop(t: Reader): (r: (Reader, int))
    ensures |r.0.pace| <= |t.pace| && (r.1 == 0 && t.pace != [] ==> |r.0.pace| < |t.pace|)
    ensures r.1 >= -1 && |r.0.buf| == |t.buf|
    ensures t.len >= 4 ==> r == (t.(len := t.len + 1), -1)
    decreases 5 - t.len
  {
    var u := t.(len := t.len + 1);
    if t.len >= MAX_NO_OF_REMAINING_LENGTH_BYTES then (u, -1)
    else
      var k := Delivers(u.stream, u.pace, 1);
      if k <= 0 then (Answered(u), k)
      else
        var c := u.stream[0];
        var v := Answered(u).(stream := u.stream[1..], remLen := u.remLen + Digit(c, u.multiplier),
                              multiplier := u.multiplier * 128);
        if c >= 128 then DecodeNbLoop(v) else (v, v.len)
  }

  /** MQTTPacket_decodenb */
  function LengthCall(t: Reader): (r: (Reader, int))
    ensures |r.0.pace| <= |t.pace| && (r.1 == 0 && t.pace != [] ==> |r.0.pace| < |t.pace|)
    ensures r.1 >= -1 && |r.0.buf| == |t.buf|
  {
    DecodeNbLoop(if t.len == 0 then t.(multiplier := 1, remLen := 0) else t)
  }

  /** MQTTPacket_readnb from case 2 on. */
  function FromBody(t: Reader): (r: (Reader, int))
    requires t.buf != []
    ensures |r.0.buf| == |t.buf|
    ensures |r.0.pace| <= |t.pace| && (r.1 == 0 && t.pace != [] ==> |r.0.pace| < |t.pace|)
  {
    var (u, k) := Get(t, t.len, t.remLen);
    if k == -1 then (u.(state := 0), -1)
    else if k == 0 then (u, 0)
    else
      var v := u.(remLen := u.remLen - k, len := u.len + k);
      if v.remLen > 0 then (v, 0)
      else (v.(state := 0), TypeOf(v.buf[0]) as int)
  }

  /** MQTTPacket_readnb from case 1 on. */
  function FromLength(t: Reader, buflen: nat): (r: (Reader, int))
    requires t.buf != []
    ensures |r.0.buf| == |t.buf|
    ensures |r.0.pace| <= |t.pace| && (r.1 == 0 && t.pace != [] ==> |r.0.pace| < |t.pace|)
  {
    var (u, k) := LengthCall(t);
    if k == -1 then (u.(state := 0), -1)
    else if k == 0 then (u, 0)
    else
      var v := u.(len := 1 + |EncodeLen(u.remLen)|, buf := Patch(u.buf, 1, EncodeLen(u.remLen)));
      if v.remLen + v.len > buflen then (v.(state := 0), -1) else FromBody(v.(state := 2))
  }

  /** One call of MQTTPacket_readnb: the transport after it and the return code. */
  function Call(t: Reader, buflen: nat): (r: (Reader, int))
    requires t.buf != []
    ensures |r.0.buf| == |t.buf|
    ensures |r.0.pace| <= |t.pace| && (r.1 == 0 && t.pace != [] ==> |r.0.pace| < |t.pace|)
  {
    if t.state == 2 then FromBody(t)
    else if t.state == 1 then FromLength(t, buflen)
    else
      var (u, k) := Get(t.(state := 0), 0, 1);
      if k <= 0 then (u, k) else FromLength(u.(len := 0, state := 1), buflen)
  }

  /** Calls until one returns other than "call again", or the answers are used up. */
  function Poll(t: Reader, buflen: nat): (r: (Reader, int))
    requires t.buf != []
    ensures |r.0.buf| == |t.buf|
    decreases |t.pace|
  {
    var (u, rc) := Call(t, buflen);
    if rc == 0 && u.pace != [] then Poll(u, buflen) else (u, rc)
  }

  lemma NoBytes()
    ensures Pow128(0) == 1
  {
  }

  lemma OneMoreDigit(remLen: nat, multiplier: nat, c: byte)
    requires remLen < multiplier
    ensures remLen + Digit(c, multiplier) < multiplier * 128
  {
    MulGrows(c % 128, 127, multiplier);
  }

  lemma MulGrows(a: int, b: int, m: int)
    requires 0 <= a <= b && 0 <= m
    ensures 0 <= a * m <= b * m
  {
  }

  lemma OneMorePower(multiplier: nat, len: nat)
    requires multiplier <= Pow128(len)
    ensures multiplier * 128 <= Pow128(len + 1)
  {
  }

  /** One pass through the loop of MQTTPacket_decodenb. */
  lemma LoopPass(t: Reader)
    requires t.len < 4
    ensures var k := Delivers(t.stream, t.pace, 1);
            var u := Answered(t).(len := t.len + 1);
            DecodeNbLoop(t) ==
            if k <= 0 then (u, k)
            else
              var c := t.stream[0];
              var v := u.(stream := t.stream[1..], remLen := t.remLen + Digit(c, t.multiplier),
                          multiplier := t.multiplier * 128);
              if c >= 128 then DecodeNbLoop(v) else (v, v.len)
  {
    hide Delivers, Digit;
  }

  class MQTTTransport {
    var state: nat
    var len: nat
    var remLen: nat
    var multiplier: nat
    // what sck stands for
    var stream: seq<byte>
    var pace: seq<Reply>

    function State(buf: array<byte>): Reader
      reads this, buf
    {
      Reader(state, len, remLen, multiplier, buf[..], stream, pace)
    }

    /** The rest of a packet fits the buffer, and a length read in part is as small as its bytes make it. */
    ghost predicate Valid(buf: array<byte>)
      reads this
    {
      && buf.Length >= 5
      && (state == 2 ==> len + remLen <= buf.Length)
      && (state == 1 && len > 0 ==> remLen < multiplier <= Pow128(len))
    }

    method GetFn(buf: array<byte>, at: nat, n: nat) returns (rc: int)
      requires at + n <= buf.Length
      modifies this`stream, this`pace, buf
      ensures (State(buf), rc) == Get(old(State(buf)), at, n)
    {
      hide Patch;
      if pace == [] {
        return 0;
      }
      var reply := pace[0];
      pace := pace[1..];
      if reply.Failed? {
        return -1;
      }
      rc := Min(Min(reply.n, n), |stream|);
      if rc > 0 {
        CopyIn(buf, at, stream[..rc]);
        stream := stream[rc..];
      }
    }

    method GetChar() returns (rc: int, c: byte)
      modifies this`stream, this`pace
      ensures rc == Delivers(old(stream), old(pace), 1)
      ensures pace == if old(pace) == [] then [] else old(pace)[1..]
      ensures if rc <= 0 then stream == old(stream) else c == old(stream)[0] && stream == old(stream)[1..]
    {
      c := 0;
      if pace == [] {
        return 0, c;
      }
      var reply := pace[0];
      pace := pace[1..];
      if reply.Failed? {
        return -1, c;
      }
      rc := Min(Min(reply.n, 1), |stream|);
      if rc > 0 {
        c := stream[0];
        stream := stream[1..];
      }
    }

    /** MQTTPacket_decodenb */
    method DecodeNb(buf: array<byte>) returns (rc: int)
      requires len > 0 ==> remLen < multiplier <= Pow128(len)
      modifies this`len, this`remLen, this`multiplier, this`stream, this`pace
      ensures (State(buf), rc) == LengthCall(old(State(buf)))
      ensures rc >= 0 ==> 0 < len <= 4 && remLen < multiplier <= Pow128(len)
    {
      hide Pow128, Delivers, DecodeNbLoop, Digit;
      ghost var goal := LengthCall(State(buf));
      NoBytes();
      if len == 0 {
        multiplier := 1;
        remLen := 0;
      }
      while true
        invariant DecodeNbLoop(State(buf)) == goal
        invariant remLen < multiplier <= Pow128(len)
        decreases 5 - len
      {
        ghost var t := State(buf);
        len := len + 1;
        if len > MAX_NO_OF_REMAINING_LENGTH_BYTES {
          return -1;
        }
        LoopPass(t);
        OneMorePower(t.multiplier, t.len);
        var frc, c := GetChar();
        if frc == -1 {
          return -1;
        }
        if frc == 0 {
          return 0;
        }
        OneMoreDigit(t.remLen, t.multiplier, c);
        remLen := remLen + Digit(c, multiplier);
        multiplier := multiplier * 128;
        if c < 128 {
          break;
        }
      }
      rc := len;
    }

    /** MQTTPacket_readnb from case 2 on. */
    method ReadBody(buf: array<byte>) returns (rc: int)
      requires Valid(buf) && state == 2
      modifies this, buf
      ensures Valid(buf) && (State(buf), rc) == FromBody(old(State(buf)))
    {
      hide Get, Pow128, TypeOf;
      var frc := GetFn(buf, len, remLen);
      if frc == -1 {
        state := 0;
        return -1;
      }
      if frc == 0 {
        return 0;
      }
      remLen := remLen - frc;
      len := len + frc;
      if remLen != 0 {
        return 0;
      }
      rc := TypeOf(buf[0]);
      state := 0;
    }

    /** MQTTPacket_readnb from case 1 on. */
    method ReadLength(buf: array<byte>, buflen: nat) returns (rc: int)
      requires Valid(buf) && state == 1 && buflen <= buf.Length
      modifies this, buf
      ensures Valid(buf) && (State(buf), rc) == FromLength(old(State(buf)), buflen)
    {
      hide LengthCall, EncodeLen, Pow128, Patch, FromBody;
      var frc := DecodeNb(buf);
      if frc == -1 {
        state := 0;
        return -1;
      }
      if frc == 0 {
        return 0;
      }
      SmallValue(remLen, len);
      len := PutLength(buf, remLen);
      if remLen + len > buflen {
        state := 0;
        return -1;
      }
      state := state + 1;
      rc := ReadBody(buf);
    }

    /** MQTTPacket_readnb */
    method ReadNb(buf: array<byte>, buflen: nat) returns (rc: int)
      requires Valid(buf) && buflen <= buf.Length
      modifies this, buf
      ensures Valid(buf) && (State(buf), rc) == Call(old(State(buf)), buflen)
    {
      hide Get, Pow128, FromLength, FromBody;
      if state == 2 {
        rc := ReadBody(buf);
      } else if state == 1 {
        rc := ReadLength(buf, buflen);
      } else {
        state := 0;
        var frc := GetFn(buf, 0, 1);
        if frc == -1 {
          return -1;
        }
        if frc == 0 {
          return 0;
        }
        len := 0;
        state := state + 1;
        rc := ReadLength(buf, buflen);
      }
    }
  }

  // Refinement

  predicate Faultless(pace: seq<Reply>) {
    forall i :: 0 <= i < |pace| ==> pace[i].Upto?
  }

  predicate IsReady(r: Reply) {
    r.Upto? && r.n > 0
  }

  /** The answers that bring something. */
  function Ready(pace: seq<Reply>): nat {
    if pace == [] then 0 else (if IsReady(pace[0]) then 1 else 0) + Ready(pace[1..])
  }

  /** The answers that bring nothing before the n-th that brings something. */
  function Idle(pace: seq<Reply>, n: nat): nat {
    if pace == [] || n == 0 then 0
    else if IsReady(pace[0]) then Idle(pace[1..], n - 1)
    else 1 + Idle(pace[1..], n)
  }

  function AfterFirstReady(pace: seq<Reply>): seq<Reply> {
    if pace == [] then [] else if IsReady(pace[0]) then pace[1..] else AfterFirstReady(pace[1..])
  }

  /** The first answer and what it leaves. */
  lemma FirstReply(pace: seq<Reply>)
    requires Faultless(pace) && pace != []
    ensures pace[0].Upto? && Faultless(pace[1..])
    ensures Ready(pace) == (if pace[0].n > 0 then 1 else 0) + Ready(pace[1..])
  {
  }

  lemma PatchTwice(buf: seq<byte>, at: nat, bytes: seq<byte>, k: nat)
    requires at + |bytes| <= |buf| && k <= |bytes|
    ensures Patch(Patch(buf, at, bytes[..k]), at + k, bytes[k..]) == Patch(buf, at, bytes)
  {
  }

  /** A poll whose call returns "call again" goes on from where the call left off. */
  lemma PollAgain(t: Reader, u: Reader, buflen: nat)
    requires t.buf != [] && Call(t, buflen) == (u, 0)
    ensures Poll(t, buflen) == if u.pace == [] then (u, 0) else Poll(u, buflen)
  {
  }

  lemma PollEnds(t: Reader, u: Reader, rc: int, buflen: nat)
    requires t.buf != [] && Call(t, buflen) == (u, rc) && rc != 0
    ensures Poll(t, buflen) == (u, rc)
  {
  }

  lemma SameCall(t: Reader, u: Reader, buflen: nat)
    requires t.buf != [] && u.buf != [] && Call(t, buflen) == Call(u, buflen)
    ensures Poll(t, buflen) == Poll(u, buflen)
  {
  }

  /** Between t and u the stream gave fewer than n bytes, and fewer answers than n brought any. */
  predicate Waiting(t: Reader, u: Reader, n: nat) {
    |t.stream| - |u.stream| < n && Ready(t.pace) < n
  }

  /** In the body, chunks add up to the remaining length, and the poll ends with the packet type when they have. */
  lemma {:induction false} BodyPhase(t: Reader, buflen: nat)
    requires t.state == 2 && Faultless(t.pace) && 0 < t.remLen <= |t.stream|
    requires 0 < t.len && t.len + t.remLen <= |t.buf| && TypeOf(t.buf[0]) > 0
    ensures var (u, rc) := Poll(t, buflen);
            || (rc == 0 && Waiting(t, u, t.remLen))
            || (rc == TypeOf(t.buf[0]) && u.buf == Patch(t.buf, t.len, t.stream[..t.remLen]) &&
                u.stream == t.stream[t.remLen..])
    decreases |t.pace|
  {
    hide TypeOf, Patch, Poll;
    var (u, rc) := Call(t, buflen);
    if t.pace == [] {
      PollAgain(t, t, buflen);
      return;
    }
    FirstReply(t.pace);
    var k := Min(t.pace[0].n, t.remLen);
    if k == 0 {
      PollAgain(t, u, buflen);
      if u.pace != [] {
        BodyPhase(u, buflen);
      }
    } else if k == t.remLen {
      PatchKeepsFirst(t.buf, t.len, t.stream[..k]);
      PollEnds(t, u, rc, buflen);
    } else {
      PollAgain(t, u, buflen);
      PatchKeepsFirst(t.buf, t.len, t.stream[..k]);
      PatchTwice(t.buf, t.len, t.stream[..t.remLen], k);
      assert t.stream[..t.remLen][..k] == t.stream[..k] && t.stream[..t.remLen][k..] == u.stream[..u.remLen];
      assert t.stream[t.remLen..] == u.stream[u.remLen..];
      if u.pace != [] {
        BodyPhase(u, buflen);
      }
    }
  }

  lemma PatchKeepsFirst(buf: seq<byte>, at: nat, bytes: seq<byte>)
    requires 0 < at && buf != []
    ensures Patch(buf, at, bytes)[0] == buf[0]
  {
  }

  /** Asked for no bytes, getfn brings none, and the poll never ends. */
  lemma {:induction false} EmptyBodyPhase(t: Reader, buflen: nat)
    requires t.state == 2 && Faultless(t.pace) && t.remLen == 0 && t.buf != []
    ensures Poll(t, buflen).1 == 0
    decreases |t.pace|
  {
    if t.pace != [] {
      FirstReply(t.pace);
      EmptyBodyPhase(Answered(t), buflen);
    }
  }

  /** What a stream's length bytes, of at most limit, add up to when v is read and m is the next weight. */
  function Total(v: nat, m: nat, s: seq<byte>, limit: nat): nat
    requires DecodeLen(s, limit).Decoded?
  {
    v + m * DecodeLen(s, limit).value
  }

  /**
   How a poll ends whose length phase stays within the limit: with the packet in the buffer, or waiting for more
   answers.
   */
  predicate Completes(t: Reader, buflen: nat, rem: nat, lengthBytes: nat)
    requires t.buf != [] && lengthBytes + rem <= |t.stream|
  {
    var (u, rc) := Poll(t, buflen);
    if rem == 0 then rc == 0
    else
      || (rc == 0 && Waiting(t, u, lengthBytes + rem))
      || (rc == TypeOf(t.buf[0]) && u.stream == t.stream[lengthBytes + rem..] &&
          u.buf == Patch(Patch(t.buf, 1, EncodeLen(rem)), 1 + |EncodeLen(rem)|,
                         t.stream[lengthBytes..lengthBytes + rem]))
  }

  /** The multiplier and value at the start of a call in the length phase. */
  function Weight(t: Reader): nat {
    if t.len == 0 then 1 else t.multiplier
  }

  function Value(t: Reader): nat {
    if t.len == 0 then 0 else t.remLen
  }

  /** The transport after the last length byte, in the middle of a call. */
  function LastByte(t: Reader, rem: nat): Reader
    requires t.pace != [] && t.stream != []
  {
    t.(state := 2, len := 1 + |EncodeLen(rem)|, remLen := rem, multiplier := Weight(t) * 128,
       buf := Patch(t.buf, 1, EncodeLen(rem)), stream := t.stream[1..], pace := t.pace[1..])
  }

  lemma AtLastByte(t: Reader, buflen: nat, rem: nat)
    requires t.state == 1 && t.len < 4 && t.pace != [] && IsReady(t.pace[0]) && t.stream != [] &&
             t.stream[0] < 128 && t.buf != []
    requires rem == Value(t) + Digit(t.stream[0], Weight(t)) && 1 + |EncodeLen(rem)| + rem <= buflen
    ensures Poll(t, buflen) == Poll(LastByte(t, rem), buflen)
  {
    hide DecodeNbLoop, FromBody, Poll, EncodeLen, Patch, Digit;
    LoopPass(if t.len == 0 then t.(multiplier := 1, remLen := 0) else t);
    assert Call(t, buflen) == Call(LastByte(t, rem), buflen);
    SameCall(t, LastByte(t, rem), buflen);
  }

  /** The step from the last length byte into the body. */
  lemma IntoBody(t: Reader, buflen: nat, rem: nat)
    requires t.state == 1 && t.len < 4 && Faultless(t.pace) && t.pace != [] && IsReady(t.pace[0]) && t.stream != []
    requires t.stream[0] < 128 && rem == Value(t) + Digit(t.stream[0], Weight(t))
    requires 1 + |EncodeLen(rem)| + rem <= buflen <= |t.buf| && 1 + rem <= |t.stream| && TypeOf(t.buf[0]) > 0
    ensures Completes(t, buflen, rem, 1)
  {
    hide TypeOf, Patch, Poll, EncodeLen, Digit, Value, Weight, Ready;
    AtLastByte(t, buflen, rem);
    FirstReply(t.pace);
    var body := LastByte(t, rem);
    PatchKeepsFirst(t.buf, 1, EncodeLen(rem));
    if rem == 0 {
      EmptyBodyPhase(body, buflen);
    } else {
      BodyPhase(body, buflen);
      assert body.stream[..rem] == t.stream[1..1 + rem] && body.stream[rem..] == t.stream[1 + rem..];
    }
  }

  /** The transport after a length byte that is not the last, in the middle of a call. */
  function NextByte(t: Reader): Reader
    requires t.pace != [] && t.stream != []
  {
    t.(len := t.len + 1, remLen := Value(t) + Digit(t.stream[0], Weight(t)), multiplier := Weight(t) * 128,
       stream := t.stream[1..], pace := t.pace[1..])
  }

  /** The transport after an answer that brought no length byte. */
  function NoByte(t: Reader): Reader {
    Answered(t).(len := t.len + 1, remLen := Value(t), multiplier := Weight(t))
  }

  lemma AtNextByte(t: Reader, buflen: nat)
    requires t.state == 1 && t.len < 4 && t.pace != [] && IsReady(t.pace[0]) && t.stream != [] &&
             t.stream[0] >= 128 && t.buf != []
    ensures Poll(t, buflen) == Poll(NextByte(t), buflen)
  {
    hide DecodeNbLoop, FromBody, Poll, Digit;
    LoopPass(if t.len == 0 then t.(multiplier := 1, remLen := 0) else t);
    assert Call(t, buflen) == Call(NextByte(t), buflen);
    SameCall(t, NextByte(t), buflen);
  }

  lemma AtNoByte(t: Reader, buflen: nat)
    requires t.state == 1 && t.len < 4 && t.buf != [] && (t.pace == [] || t.pace[0] == Upto(0))
    ensures Poll(t, buflen) == if NoByte(t).pace == [] then (NoByte(t), 0) else Poll(NoByte(t), buflen)
  {
    hide DecodeNbLoop, FromBody, Poll, Digit;
    LoopPass(if t.len == 0 then t.(multiplier := 1, remLen := 0) else t);
    PollAgain(t, NoByte(t), buflen);
  }

  lemma AtLimit(t: Reader, buflen: nat)
    requires t.state == 1 && t.len == 4 && t.buf != []
    ensures Poll(t, buflen).1 == -1
  {
  }

  lemma CompletesFromNextByte(t: Reader, buflen: nat, rem: nat, n: nat)
    requires Faultless(t.pace) && t.pace != [] && IsReady(t.pace[0]) && t.buf != [] && 0 < n && n + rem <= |t.stream|
    requires Poll(t, buflen) == Poll(NextByte(t), buflen) && Completes(NextByte(t), buflen, rem, n - 1)
    ensures Completes(t, buflen, rem, n)
  {
    hide TypeOf, Patch, Poll, EncodeLen;
    var w := NextByte(t);
    FirstReply(t.pace);
    assert w.stream[n - 1 + rem..] == t.stream[n + rem..] && w.stream[n - 1..n - 1 + rem] == t.stream[n..n + rem];
  }

  lemma IdleStep(pace: seq<Reply>, n: nat)
    requires pace != [] && n > 0
    ensures Idle(pace, n) == if IsReady(pace[0]) then Idle(pace[1..], n - 1) else 1 + Idle(pace[1..], n)
  {
  }

  /**
   In the length phase every call for a byte counts, also one that brings nothing. Within the limit the poll completes;
   beyond it, and given enough answers, it fails.
   */
  lemma {:induction false} LengthPhase(t: Reader, buflen: nat, limit: nat)
    requires t.state == 1 && t.len <= 4 && Faultless(t.pace)
    requires DecodeLen(t.stream, limit).Decoded? && DecodeLen(t.stream, limit).complete
    requires var rem := Total(Value(t), Weight(t), t.stream, limit);
             1 + |EncodeLen(rem)| + rem <= buflen <= |t.buf| && DecodeLen(t.stream, limit).len + rem <= |t.stream|
    requires TypeOf(t.buf[0]) > 0
    ensures var n, rem := DecodeLen(t.stream, limit).len, Total(Value(t), Weight(t), t.stream, limit);
            if t.len + n + Idle(t.pace, n) <= 4 then Completes(t, buflen, rem, n)
            else var (u, rc) := Poll(t, buflen); rc == -1 || (rc == 0 && Waiting(t, u, n))
    decreases |t.pace|
  {
    hide TypeOf, Patch, Poll, EncodeLen, Idle;
    var n, rem := DecodeLen(t.stream, limit).len, Total(Value(t), Weight(t), t.stream, limit);
    if t.len == 4 {
      AtLimit(t, buflen);
    } else if t.pace == [] {
      AtNoByte(t, buflen);
    } else {
      FirstReply(t.pace);
      IdleStep(t.pace, n);
      if t.pace[0].n == 0 {
        AtNoByte(t, buflen);
        if NoByte(t).pace != [] {
          LengthPhase(NoByte(t), buflen, limit);
        }
      } else if t.stream[0] < 128 {
        IdleStep(t.pace, 1);
        assert Idle(t.pace[1..], 0) == 0 by {
          NoneIdle(t.pace[1..]);
        }
        LastDigit(t.stream, limit, Weight(t));
        IntoBody(t, buflen, rem);
      } else {
        AtNextByte(t, buflen);
        TotalStep(Value(t), Weight(t), t.stream, limit);
        LengthPhase(NextByte(t), buflen, limit - 1);
        if t.len + n + Idle(t.pace, n) <= 4 {
          CompletesFromNextByte(t, buflen, rem, n);
        }
      }
    }
  }

  lemma LastDigit(s: seq<byte>, limit: nat, multiplier: nat)
    requires DecodeLen(s, limit).Decoded? && limit > 0 && s != [] && s[0] < 128
    ensures multiplier * DecodeLen(s, limit).value == Digit(s[0], multiplier)
  {
  }

  lemma NoneIdle(pace: seq<Reply>)
    ensures Idle(pace, 0) == 0
  {
  }

  lemma TotalStep(v: nat, m: nat, s: seq<byte>, limit: nat)
    requires DecodeLen(s, limit).Decoded? && limit > 0 && s != [] && s[0] >= 128
    ensures DecodeLen(s[1..], limit - 1).Decoded?
    ensures Total(v, m, s, limit) == Total(v + Digit(s[0], m), m * 128, s[1..], limit - 1)
  {
    var value := DecodeLen(s[1..], limit - 1).value;
    assert s[0] % 128 == s[0] - 128;
    assert m * (s[0] - 128 + 128 * value) == m * (s[0] - 128) + m * 128 * value;
  }

  /** A packet at the start of a stream: header byte, complete length, and as many bytes as it says. */
  predicate PacketAhead(stream: seq<byte>, buflen: nat) {
    && stream != [] && TypeOf(stream[0]) > 0 && Holds(stream) && DecodeLen(stream[1..], 4).complete
    && 1 + |EncodeLen(DecodeLen(stream[1..], 4).value)| + DecodeLen(stream[1..], 4).value <= buflen
  }

  /** Length bytes and idle answers after the header byte, counted together. */
  function LengthCalls(stream: seq<byte>, pace: seq<Reply>): nat
    requires stream != [] && DecodeLen(stream[1..], 4).Decoded?
  {
    var n := DecodeLen(stream[1..], 4).len;
    n + Idle(AfterFirstReady(pace), n)
  }

  /** The blocking reader on a whole packet. */
  lemma BlockingReadsPacket(stream: seq<byte>, buf: seq<byte>, buflen: nat)
    requires 5 <= |buf| && buflen <= |buf| && PacketAhead(stream, buflen)
    ensures RoomForHeader(stream, buf)
    ensures var n, rem := DecodeLen(stream[1..], 4).len, DecodeLen(stream[1..], 4).value;
            BlockingRead(stream, buf, buflen) ==
            ReadResult(TypeOf(stream[0]),
                       Patch(Patch(buf[0 := stream[0]], 1, EncodeLen(rem)), 1 + |EncodeLen(rem)|,
                             stream[1 + n..1 + n + rem]),
                       stream[1 + n + rem..])
  {
    hide TypeOf, Patch, EncodeLen, DecodeLen, TakeLength;
    FiveBytesAreRoom(stream, buf);
    TakeLengthDecodes(stream[1..], 4);
    var n, rem := DecodeLen(stream[1..], 4).len, DecodeLen(stream[1..], 4).value;
    var rest, headed := stream[1 + n..], Patch(buf[0 := stream[0]], 1, EncodeLen(rem));
    assert rest[..rem] == stream[1 + n..1 + n + rem] && rest[rem..] == stream[1 + n + rem..];
    PatchKeepsFirst(buf[0 := stream[0]], 1, EncodeLen(rem));
    PatchKeepsFirst(headed, 1 + |EncodeLen(rem)|, rest[..rem]);
  }

  /** A packet that was written is read: its type, its bytes at the start of the buffer, and what follows is left. */
  lemma WrittenPacketIsRead(header: byte, body: seq<byte>, rest: seq<byte>, buf: seq<byte>, buflen: nat)
    requires header >= 16 && |body| <= MAX_REMAINING
    requires 5 <= |buf| && |Packet(header, body)| <= buflen <= |buf|
    ensures var stream := Packet(header, body) + rest;
            && RoomForHeader(stream, buf)
            && var r := BlockingRead(stream, buf, buflen);
            && r.rc == header / 16 && r.stream == rest
            && r.buf == Packet(header, body) + buf[|Packet(header, body)|..]
  {
    hide Patch, EncodeLen, DecodeLen, TakeLength, BlockingRead;
    var stream := Packet(header, body) + rest;
    PacketReads(header, body, rest);
    BlockingReadsPacket(stream, buf, buflen);
    var n := |EncodeLen(|body|)|;
    assert stream[1 + n..1 + n + |body|] == body && stream[1 + n + |body|..] == rest;
    PacketPatched(header, EncodeLen(|body|), body, buf);
  }

  lemma PacketPatched(header: byte, length: seq<byte>, body: seq<byte>, buf: seq<byte>)
    requires 1 + |length| + |body| <= |buf|
    ensures Patch(Patch(buf[0 := header], 1, length), 1 + |length|, body) ==
            [header] + length + body + buf[1 + |length| + |body|..]
  {
  }

  // What a call leaves behind

  /** A call that reports a packet or an error leaves the transport ready for the next header byte. */
  lemma EndedCallResets(t: Reader, buflen: nat)
    requires t.buf != []
    ensures Call(t, buflen).1 != 0 ==> Call(t, buflen).0.state == 0
  {
    hide Delivers, DecodeNbLoop, EncodeLen, Patch, TypeOf;
  }

  lemma {:induction false} LengthKeepsFaultless(t: Reader)
    requires Faultless(t.pace)
    ensures Faultless(DecodeNbLoop(t).0.pace)
    decreases 5 - t.len
  {
    hide Digit;
    if t.len < 4 {
      var k := Delivers(t.stream, t.pace, 1);
      if k > 0 && t.stream[0] >= 128 {
        LengthKeepsFaultless(Answered(t).(len := t.len + 1, stream := t.stream[1..],
                                          remLen := t.remLen + Digit(t.stream[0], t.multiplier),
                                          multiplier := t.multiplier * 128));
      }
    }
  }

  lemma CallKeepsFaultless(t: Reader, buflen: nat)
    requires t.buf != [] && Faultless(t.pace)
    ensures Faultless(Call(t, buflen).0.pace)
  {
    hide Delivers, DecodeNbLoop, EncodeLen, Patch, TypeOf;
    forall u: Reader | Faultless(u.pace)
      ensures Faultless(DecodeNbLoop(u).0.pace)
    {
      LengthKeepsFaultless(u);
    }
  }

  /** The same of a poll, which takes answers from the front only. */
  lemma {:induction false} PollLeaves(t: Reader, buflen: nat)
    requires t.buf != [] && Faultless(t.pace)
    ensures var (u, rc) := Poll(t, buflen); Faultless(u.pace) && (rc != 0 ==> u.state == 0)
    decreases |t.pace|
  {
    hide Call;
    var (u, rc) := Call(t, buflen);
    EndedCallResets(t, buflen);
    CallKeepsFaultless(t, buflen);
    if rc == 0 && u.pace != [] {
      PollLeaves(u, buflen);
    }
  }

  /** What a poll from the header byte on comes to; it waits only while bytes are missing. */
  predicate Refines(t: Reader, buflen: nat)
    requires 5 <= |t.buf| && buflen <= |t.buf| && PacketAhead(t.stream, buflen)
  {
    var length := DecodeLen(t.stream[1..], 4);
    var (u, rc) := Poll(t, buflen);
    FiveBytesAreRoom(t.stream, t.buf);
    if LengthCalls(t.stream, t.pace) > 4 then rc == -1 || (rc == 0 && Waiting(t, u, 1 + length.len))
    else if length.value == 0 then rc == 0
    else
      || (rc == 0 && Waiting(t, u, 1 + length.len + length.value))
      || (rc == TypeOf(t.stream[0]) && ReadResult(rc, u.buf, u.stream) == BlockingRead(t.stream, t.buf, buflen) &&
          u.state == 0)
  }

  lemma AfterHeader(t: Reader, buflen: nat)
    requires t.state == 0 && Faultless(t.pace) && 5 <= |t.buf| && buflen <= |t.buf| && PacketAhead(t.stream, buflen)
    requires t.pace != [] && IsReady(t.pace[0])
    ensures Refines(t, buflen)
  {
    hide TypeOf, Patch, Poll, EncodeLen, DecodeLen, FromLength, Idle, BlockingRead;
    var stream := t.stream;
    var n, rem := DecodeLen(stream[1..], 4).len, DecodeLen(stream[1..], 4).value;
    FirstReply(t.pace);
    var headed := t.buf[0 := stream[0]];
    PatchOne(t.buf, 0, stream[0]);
    assert stream[..1] == [stream[0]];
    var w := t.(state := 1, len := 0, buf := headed, stream := stream[1..], pace := t.pace[1..]);
    assert Call(t, buflen) == FromLength(w, buflen) == Call(w, buflen);
    SameCall(t, w, buflen);
    BlockingReadsPacket(stream, t.buf, buflen);
    assert AfterFirstReady(t.pace) == w.pace;
    assert w.stream[n..n + rem] == stream[1 + n..1 + n + rem] && w.stream[n + rem..] == stream[1 + n + rem..];
    LengthPhase(w, buflen, 4);
    PollLeaves(t, buflen);
  }

  /**
   On a stream without errors, polling the non-blocking reader gives what the blocking reader gives, for every
   chunking of the packet: the same type, the same buffer, the same rest of the stream. It waits only while bytes of
   the packet are missing. The exceptions are exact: a packet without a body is never reported, and a length phase of
   more than four calls is reported as an error.
   */
  lemma {:induction false} NonBlockingRefinesBlocking(t: Reader, buflen: nat)
    requires t.state == 0 && Faultless(t.pace) && 5 <= |t.buf| && buflen <= |t.buf| && PacketAhead(t.stream, buflen)
    ensures Refines(t, buflen)
    decreases |t.pace|
  {
    hide Patch, Poll, FromLength, DecodeLen, BlockingRead, Idle;
    if t.pace != [] && IsReady(t.pace[0]) {
      AfterHeader(t, buflen);
      return;
    }
    var u := Answered(t);
    assert Call(t, buflen) == (u, 0);
    PollAgain(t, u, buflen);
    if t.pace != [] {
      FirstReply(t.pace);
    }
    if u.pace != [] {
      NonBlockingRefinesBlocking(u, buflen);
    }
  }

  // Packets one after the other

  datatype Report = Report(rc: int, buf: seq<byte>)

  /** Polls for up to n packets on one transport; they stop at the first that reports none. */
  function PollMany(t: Reader, buflen: nat, n: nat): (Reader, seq<Report>)
    requires t.buf != []
    decreases n
  {
    if n == 0 then (t, [])
    else
      var (u, rc) := Poll(t, buflen);
      if rc <= 0 then (u, [])
      else
        var (v, more) := PollMany(u, buflen, n - 1);
        (v, [Report(rc, u.buf)] + more)
  }

  /** Blocking reads of up to n packets from one stream. */
  function ReadMany(stream: seq<byte>, buf: seq<byte>, buflen: nat, n: nat): (seq<byte>, seq<Report>)
    requires |buf| >= 5
    decreases n
  {
    if n == 0 then (stream, [])
    else
      FiveBytesAreRoom(stream, buf);
      var r := BlockingRead(stream, buf, buflen);
      if r.rc <= 0 then (r.stream, [])
      else
        var (rest, more) := ReadMany(r.stream, r.buf, buflen, n - 1);
        (rest, [Report(r.rc, r.buf)] + more)
  }

  function PacketSize(stream: seq<byte>): (r: nat)
    requires Holds(stream)
    ensures r <= |stream|
  {
    1 + DecodeLen(stream[1..], 4).len + DecodeLen(stream[1..], 4).value
  }

  /** n packets with a body, one after the other. */
  predicate PacketsAhead(stream: seq<byte>, buflen: nat, n: nat) {
    n > 0 ==>
      && PacketAhead(stream, buflen) && DecodeLen(stream[1..], 4).value > 0
      && PacketsAhead(stream[PacketSize(stream)..], buflen, n - 1)
  }

  /** The length phase of each of them takes at most four calls. */
  predicate InTime(t: Reader, buflen: nat, n: nat)
    requires t.buf != [] && PacketsAhead(t.stream, buflen, n)
    decreases n
  {
    n > 0 ==>
      && LengthCalls(t.stream, t.pace) <= 4
      && var (u, rc) := Poll(t, buflen);
         rc > 0 && u.stream == t.stream[PacketSize(t.stream)..] ==> InTime(u, buflen, n - 1)
  }

  /**
   A whole stream of packets: polled one after the other on the same transport they are reported with the types and
   buffers of blocking reads, in order; a report is missing only while bytes of the n packets are.
   */
  lemma {:induction false} PollingReadsStream(t: Reader, buflen: nat, n: nat)
    requires t.state == 0 && Faultless(t.pace) && 5 <= |t.buf| && buflen <= |t.buf|
    requires PacketsAhead(t.stream, buflen, n) && InTime(t, buflen, n)
    ensures var (u, reports) := PollMany(t, buflen, n);
            var (rest, expected) := ReadMany(t.stream, t.buf, buflen, n);
            && |expected| == n && reports <= expected
            && if |reports| == n then u.stream == rest && u.state == 0 else |u.stream| > |rest|
    decreases n
  {
    hide Poll, BlockingRead, DecodeLen, EncodeLen, TypeOf, Holds, LengthCalls, Patch, RoomForHeader;
    if n > 0 {
      FiveBytesAreRoom(t.stream, t.buf);
      NonBlockingRefinesBlocking(t, buflen);
      BlockingReadsPacket(t.stream, t.buf, buflen);
      PollLeaves(t, buflen);
      var (u, rc) := Poll(t, buflen);
      var r := BlockingRead(t.stream, t.buf, buflen);
      assert r.stream == t.stream[PacketSize(t.stream)..];
      if rc > 0 {
        PollingReadsStream(u, buflen, n - 1);
      } else {
        ReadingTakesBytes(r.stream, r.buf, buflen, n - 1);
      }
    }
  }

  /** Blocking reads find all n packets, and never give bytes back. */
  lemma {:induction false} ReadingTakesBytes(stream: seq<byte>, buf: seq<byte>, buflen: nat, n: nat)
    requires 5 <= |buf| && buflen <= |buf| && PacketsAhead(stream, buflen, n)
    ensures var (rest, expected) := ReadMany(stream, buf, buflen, n); |expected| == n && |rest| <= |stream|
    decreases n
  {
    hide BlockingRead, DecodeLen, EncodeLen, TypeOf, Holds, Patch, RoomForHeader;
    if n > 0 {
      FiveBytesAreRoom(stream, buf);
      BlockingReadsPacket(stream, buf, buflen);
      var r := BlockingRead(stream, buf, buflen);
      assert r.stream == stream[PacketSize(stream)..];
      ReadingTakesBytes(r.stream, r.buf, buflen, n - 1);
    }
  }

  const SLOW := [Upto(1), Upto(0), Upto(0), Upto(0), Upto(0), Upto(1), Upto(1)]

  lemma SlowPace()
    ensures AfterFirstReady(SLOW) == SLOW[1..] && Idle(SLOW[1..], 1) == 4 && Ready(SLOW) == 3
  {
    assert IsReady(SLOW[0]) && SLOW[5..] == [Upto(1), Upto(1)] && [Upto(1), Upto(1)][1..] == [Upto(1)];
    Suffix(1);
    Suffix(2);
    Suffix(3);
    Suffix(4);
    assert Ready(SLOW[5..]) == 2 && Idle(SLOW[5..], 1) == 0;
  }

  lemma Suffix(i: nat)
    requires 0 < i < 5
    ensures Idle(SLOW[i..], 1) == 1 + Idle(SLOW[i + 1..], 1) && Ready(SLOW[i..]) == Ready(SLOW[i + 1..])
  {
  }

  /**
   Four idle answers after the header byte of a one-byte PUBLISH: the same bytes, read by one reader and refused by
   the other.
   */
  lemma SlowLengthFails(buf: seq<byte>)
    requires |buf| == 5
    ensures var stream := [0x30, 0x01, 0x41];
            RoomForHeader(stream, buf) &&
            BlockingRead(stream, buf, 5).rc == PUBLISH && Poll(Reader(0, 0, 0, 0, buf, stream, SLOW), 5).1 == -1
  {
    var stream: seq<byte> := [0x30, 0x01, 0x41];
    assert stream[1..][0] == 1 && EncodeLen(1) == [1] && DecodeLen(stream[1..], 4) == Decoded(1, 1, true) &&
           TypeOf(0x30) == 3;
    hide Poll, BlockingRead, Idle, Ready, AfterFirstReady, EncodeLen, DecodeLen, TypeOf;
    SlowPace();
    NonBlockingRefinesBlocking(Reader(0, 0, 0, 0, buf, stream, SLOW), 5);
    BlockingReadsPacket(stream, buf, 5);
  }

  /** The answer to a ping has no body: the blocking reader reports it, the polled one never does. */
  lemma PingrespIsNeverReported(t: Reader, buflen: nat)
    requires t.state == 0 && Faultless(t.pace) && 5 <= buflen <= |t.buf| && t.stream == [0xD0, 0x00]
    ensures RoomForHeader(t.stream, t.buf) && BlockingRead(t.stream, t.buf, buflen).rc == PINGRESP
    ensures Poll(t, buflen).1 in {0, -1}
  {
    assert t.stream[1..][0] == 0 && EncodeLen(0) == [0] && DecodeLen(t.stream[1..], 4) == Decoded(0, 1, true);
    assert TypeOf(0xD0) == PINGRESP;
    hide Poll, BlockingRead, EncodeLen, DecodeLen, TypeOf, RoomForHeader;
    NonBlockingRefinesBlocking(t, buflen);
    BlockingReadsPacket(t.stream, t.buf, buflen);
  }
}
