/**
 Primitives of MQTTPacket.c: the variable-length remaining length, the estimate of a packet's size,
 and reading and writing of bytes, integers and strings through a moving pointer.
 */
module MqttPacket {
  import opened Bytes

  const MQTTPACKET_BUFFER_TOO_SHORT := -2

  const CONNECT := 1
  const PUBLISH := 3
  const PUBACK := 4
  const PUBREC := 5
  const PUBREL := 6
  const SUBSCRIBE := 8
  const SUBACK := 9
  const PINGREQ := 12
  const PINGRESP := 13

  // The remaining length, section 2.2.3 of MQTT 3.1.1

  const MAX_REMAINING := 268435455

  function EncodeLen(n: nat): (r: seq<byte>)
    ensures |r| > 0
  {
    if n < 128 then [n] else [n % 128 + 128] + EncodeLen(n / 128)
  }

  /** value and len are what MQTTPacket_decode returns; complete says that the last byte read ended the number. */
  datatype Decoded = OutOfData | Decoded(value: nat, len: nat, complete: bool)

  /** The number at the start of s, of at most limit bytes; a further byte counts as read but is not. */
  function DecodeLen(s: seq<byte>, limit: nat): (r: Decoded)
    ensures r.Decoded? ==> r.len > 0 && (r.complete ==> r.len <= |s|)
  {
    if limit == 0 then Decoded(0, 1, false)
    else if s == [] then OutOfData
    else if s[0] < 128 then Decoded(s[0], 1, true)
    else match DecodeLen(s[1..], limit - 1)
      case OutOfData => OutOfData
      case Decoded(v, l, complete) => Decoded(s[0] - 128 + 128 * v, l + 1, complete)
  }

  function Pow128(k: nat): nat {
    if k == 0 then 1 else 128 * Pow128(k - 1)
  }

  lemma {:induction false} Pow128Grows(k: nat)
    ensures Pow128(k + 1) >= 128
  {
    if k > 0 {
      Pow128Grows(k - 1);
    }
  }

  lemma {:induction false} DecodeEncode(n: nat, rest: seq<byte>, limit: nat)
    requires limit > 0
    ensures n < Pow128(limit) ==> DecodeLen(EncodeLen(n) + rest, limit) == Decoded(n, |EncodeLen(n)|, true)
    ensures n >= Pow128(limit) ==>
              DecodeLen(EncodeLen(n) + rest, limit).Decoded? && !DecodeLen(EncodeLen(n) + rest, limit).complete
    decreases n
  {
    var s := EncodeLen(n) + rest;
    Pow128Grows(limit - 1);
    if n < 128 {
      assert s[0] == n;
    } else {
      assert s[1..] == EncodeLen(n / 128) + rest && s[0] == n % 128 + 128;
      if limit > 1 {
        DecodeEncode(n / 128, rest, limit - 1);
      } else {
        assert Pow128(1) == 128 * Pow128(0);
        assert DecodeLen(s[1..], 0) == Decoded(0, 1, false);
      }
    }
  }

  /** Decoding inverts encoding exactly on the range of the four-byte form. */
  lemma DecodeInvertsEncode(n: nat, rest: seq<byte>)
    ensures DecodeLen(EncodeLen(n) + rest, 4) == Decoded(n, |EncodeLen(n)|, true) <==> n <= MAX_REMAINING
  {
    DecodeEncode(n, rest, 4);
    assert Pow128(4) == 128 * (128 * (128 * 128)) by {
      assert Pow128(2) == 128 * 128;
    }
  }

  /** MQTTPacket_len */
  function PacketLen(rem: nat): nat {
    var n := rem + 1;
    if n < 128 then n + 1 else if n < 16384 then n + 2 else if n < 2097151 then n + 3 else n + 4
  }

  /** The bytes of a packet: header byte, remaining length, and what it counts. */
  function EmittedLen(rem: nat): nat {
    1 + |EncodeLen(rem)| + rem
  }

  lemma EncodedSize(n: nat)
    ensures n <= MAX_REMAINING ==>
              |EncodeLen(n)| == if n < 128 then 1 else if n < 16384 then 2 else if n < 2097152 then 3 else 4
    ensures n > MAX_REMAINING ==> |EncodeLen(n)| >= 5
  {
  }

  /** The estimate is enough exactly on the range of the four-byte form, and there one too many at four lengths only. */
  lemma EstimateExact(rem: nat)
    ensures PacketLen(rem) >= EmittedLen(rem) <==> rem <= MAX_REMAINING
    ensures rem <= MAX_REMAINING ==>
              PacketLen(rem) - EmittedLen(rem) == if rem in {127, 16383, 2097150, 2097151} then 1 else 0
  {
    EncodedSize(rem);
  }

  // Strings

  /** MQTTString: a C string, or a counted string; data is the counted form's pointer with what it points at. */
  datatype MQTTString = MQTTString(cstring: Option<seq<byte>>, data: Option<seq<byte>>)

  function LenOf(m: MQTTString): nat {
    if m.data.Some? then |m.data.value| else 0
  }

  /** MQTTstrlen prefers the C string. */
  function Strlen(m: MQTTString): nat {
    if m.cstring.Some? then |m.cstring.value| else LenOf(m)
  }

  /** writeMQTTString prefers the counted string. */
  function Text(m: MQTTString): seq<byte> {
    if LenOf(m) > 0 then m.data.value else if m.cstring.Some? then m.cstring.value else []
  }

  /** The pointer test by which optional strings are recognised. */
  predicate Present(m: MQTTString) {
    m.cstring.Some? || m.data.Some?
  }

  /** MQTTstrlen counts the text that writeMQTTString writes. */
  predicate Counted(m: MQTTString) {
    Strlen(m) == |Text(m)|
  }

  /** It does so unless both forms are set, the counted one is not empty, and their lengths differ. */
  lemma CountedExactly(m: MQTTString)
    ensures Counted(m) <==> m.cstring.None? || LenOf(m) == 0 || |m.cstring.value| == LenOf(m)
  {
  }

  /** The length counts the text, and two bytes hold it. */
  predicate StringOk(m: MQTTString) {
    Counted(m) && |Text(m)| <= 65535
  }

  function IntBytes(n: nat): (r: seq<byte>)
    ensures |r| == 2
  {
    [n / 256 % 256, n % 256]
  }

  function StringBytes(m: MQTTString): (r: seq<byte>)
    ensures |r| == 2 + |Text(m)|
  {
    IntBytes(|Text(m)|) + Text(m)
  }

  // Writing. The pointer starts at the beginning of a buffer; the written bytes so far are a prefix of it.

  /** The buffer is as it was before, except that the written bytes stand at its start. */
  predicate Wrote(before: seq<byte>, after: seq<byte>, written: seq<byte>) {
    |after| == |before| && |written| <= |before| && after == written + before[|written|..]
  }

  lemma WroteNothing(before: seq<byte>)
    ensures Wrote(before, before, [])
  {
  }

  lemma WroteOneMore(before: seq<byte>, after: seq<byte>, written: seq<byte>, c: byte)
    requires Wrote(before, after, written) && |written| < |before|
    ensures Wrote(before, after[|written| := c], written + [c])
  {
  }

  lemma WroteMore(before: seq<byte>, after: seq<byte>, written: seq<byte>, bytes: seq<byte>)
    requires Wrote(before, after, written) && |written| + |bytes| <= |before|
    ensures Wrote(before, Patch(after, |written|, bytes), written + bytes)
  {
    assert after[..|written|] == written;
    assert after[|written| + |bytes|..] == before[|written| + |bytes|..];
  }

  method WriteChar(buf: array<byte>, ptr: nat, c: byte, ghost before: seq<byte>, ghost written: seq<byte>)
    returns (ptr': nat)
    requires Wrote(before, buf[..], written) && ptr == |written| < buf.Length
    modifies buf
    ensures ptr' == ptr + 1 && Wrote(before, buf[..], written + [c])
  {
    WroteOneMore(before, buf[..], written, c);
    ghost var now := buf[..];
    buf[ptr] := c;
    assert buf[..] == now[ptr := c];
    ptr' := ptr + 1;
  }

  method WriteBytes(buf: array<byte>, ptr: nat, bytes: seq<byte>, ghost before: seq<byte>, ghost written: seq<byte>)
    returns (ptr': nat)
    requires Wrote(before, buf[..], written) && ptr == |written| && ptr + |bytes| <= buf.Length
    modifies buf
    ensures ptr' == ptr + |bytes| && Wrote(before, buf[..], written + bytes)
  {
    WroteMore(before, buf[..], written, bytes);
    CopyIn(buf, ptr, bytes);
    ptr' := ptr + |bytes|;
  }

  method WriteInt(buf: array<byte>, ptr: nat, anInt: nat, ghost before: seq<byte>, ghost written: seq<byte>)
    returns (ptr': nat)
    requires Wrote(before, buf[..], written) && ptr == |written| && ptr + 2 <= buf.Length
    modifies buf
    ensures ptr' == ptr + 2 && Wrote(before, buf[..], written + IntBytes(anInt))
  {
    hide Wrote;
    var high: byte, low: byte := anInt / 256 % 256, anInt % 256;
    ptr' := WriteChar(buf, ptr, high, before, written);
    ptr' := WriteChar(buf, ptr', low, before, written + [high]);
    assert written + [high] + [low] == written + IntBytes(anInt);
  }

  method WriteMQTTString(buf: array<byte>, ptr: nat, m: MQTTString, ghost before: seq<byte>, ghost written: seq<byte>)
    returns (ptr': nat)
    requires Wrote(before, buf[..], written) && ptr == |written| && ptr + 2 + |Text(m)| <= buf.Length
    modifies buf
    ensures ptr' == ptr + 2 + |Text(m)| && Wrote(before, buf[..], written + StringBytes(m))
  {
    hide Wrote, IntBytes;
    var text := if LenOf(m) > 0 then m.data.value else if m.cstring.Some? then m.cstring.value else [];
    ptr' := WriteInt(buf, ptr, |text|, before, written);
    ptr' := WriteBytes(buf, ptr', text, before, written + IntBytes(|text|));
    assert written + IntBytes(|text|) + text == written + StringBytes(m);
  }

  /** MQTTPacket_encode */
  method Encode(buf: array<byte>, ptr: nat, length: nat, ghost before: seq<byte>, ghost written: seq<byte>)
    returns (rc: nat)
    requires Wrote(before, buf[..], written) && ptr == |written| && ptr + |EncodeLen(length)| <= buf.Length
    modifies buf
    ensures rc == |EncodeLen(length)| && Wrote(before, buf[..], written + EncodeLen(length))
  {
    hide Wrote;
    var n := length;
    rc := 0;
    ghost var done: seq<byte> := [];
    assert written + done == written;
    while true
      invariant rc == |done| && done + EncodeLen(n) == EncodeLen(length)
      invariant Wrote(before, buf[..], written + done)
      decreases n
    {
      var d: byte := n % 128;
      n := n / 128;
      if n > 0 {
        d := d + 128;
      }
      var _ := WriteChar(buf, ptr + rc, d, before, written + done);
      assert written + done + [d] == written + (done + [d]);
      done := done + [d];
      rc := rc + 1;
      if n == 0 {
        break;
      }
    }
  }

  /** Header byte and remaining length, as every serializer starts. */
  method StartPacket(buf: array<byte>, header: byte, rem: nat) returns (ptr: nat)
    requires 1 + |EncodeLen(rem)| <= buf.Length
    modifies buf
    ensures ptr == 1 + |EncodeLen(rem)| && Wrote(old(buf[..]), buf[..], [header] + EncodeLen(rem))
  {
    hide EncodeLen;
    ghost var before := buf[..];
    WroteNothing(before);
    ptr := WriteChar(buf, 0, header, before, []);
    var n := Encode(buf, ptr, rem, before, [header]);
    ptr := ptr + n;
  }

  /** MQTTPacket_decodeBuf: the byte source is a buffer, which never fails but may be read past its end. */
  method DecodeBuf(buf: array<byte>, ptr: nat) returns (len: nat, value: nat)
    requires ptr <= buf.Length && DecodeLen(buf[ptr..], 4).Decoded?
    ensures DecodeLen(buf[ptr..], 4).value == value && DecodeLen(buf[ptr..], 4).len == len
  {
    hide DecodeLen;
    value := 0;
    len := 0;
    var multiplier := 1;
    while true
      invariant len <= 4 && ptr + len <= buf.Length && multiplier == Pow128(len)
      invariant DecodeLen(buf[ptr + len..], 4 - len).Decoded?
      invariant var d := DecodeLen(buf[ptr + len..], 4 - len); var all := DecodeLen(buf[ptr..], 4);
                all.value == value + multiplier * d.value && all.len == len + d.len
      decreases 4 - len
    {
      len := len + 1;
      if len > 4 {
        NoMoreBytes(buf[ptr + 4..]);
        break;
      }
      ghost var s := buf[ptr + len - 1..];
      DecodeStep(s, 5 - len, multiplier);
      var c := buf[ptr + len - 1];
      assert s[0] == c && s[1..] == buf[ptr + len..];
      value := value + c % 128 * multiplier;
      multiplier := multiplier * 128;
      if c < 128 {
        break;
      }
    }
  }

  lemma NoMoreBytes(s: seq<byte>)
    ensures DecodeLen(s, 0) == Decoded(0, 1, false)
  {
  }

  lemma DecodeStep(s: seq<byte>, limit: nat, multiplier: nat)
    requires limit > 0 && DecodeLen(s, limit).Decoded?
    ensures s != []
    ensures var d, c := DecodeLen(s, limit), s[0];
            if c < 128 then d.len == 1 && multiplier * d.value == c % 128 * multiplier
            else
              var t := DecodeLen(s[1..], limit - 1);
              && t.Decoded? && d.len == t.len + 1
              && multiplier * d.value == c % 128 * multiplier + multiplier * 128 * t.value
  {
    var c := s[0];
    if c >= 128 {
      var t := DecodeLen(s[1..], limit - 1);
      assert c % 128 == c - 128;
      assert multiplier * (c - 128 + 128 * t.value) == multiplier * (c - 128) + multiplier * 128 * t.value;
    }
  }

  // Reading

  function IntAt(s: seq<byte>, i: nat): nat
    requires i + 2 <= |s|
  {
    256 * s[i] as int + s[i + 1] as int
  }

  lemma IntReads(n: nat)
    requires n < 65536
    ensures IntAt(IntBytes(n), 0) == n
  {
  }

  /** readMQTTLenString: the text and the position after it, if both lie before end. */
  function StringAt(s: seq<byte>, cur: nat, end: nat): (r: Option<(seq<byte>, nat)>)
    requires end <= |s|
    ensures r.Some? ==> cur + 2 <= r.value.1 == cur + 2 + |r.value.0| <= end
  {
    if end - cur > 1 && cur + 2 + IntAt(s, cur) <= end
    then Some((s[cur + 2..cur + 2 + IntAt(s, cur)], cur + 2 + IntAt(s, cur)))
    else None
  }

  lemma StringReads(s: seq<byte>, cur: nat, end: nat, m: MQTTString)
    requires StringOk(m) && cur <= end <= |s| && cur + |StringBytes(m)| <= end
    requires s[cur..cur + |StringBytes(m)|] == StringBytes(m)
    ensures StringAt(s, cur, end) == Some((Text(m), cur + |StringBytes(m)|))
  {
    var n := |Text(m)|;
    var t := s[cur..cur + 2 + n];
    IntReads(n);
    assert s[cur] == t[0] && s[cur + 1] == t[1];
    assert s[cur + 2..cur + 2 + n] == t[2..];
  }

  // The header byte

  /** type : 4, dup : 1, qos : 2, retain : 1, as the bit fields cut their values. */
  function HeaderByte(packetType: nat, dup: nat, qos: nat, retain: nat): byte {
    packetType % 16 * 16 + dup % 2 * 8 + qos % 4 * 2 + retain % 2
  }

  function TypeOf(b: byte): nat { b / 16 }
  function DupOf(b: byte): nat { b / 8 % 2 }
  function QosOf(b: byte): nat { b / 2 % 4 }
  function RetainOf(b: byte): nat { b % 2 }

  lemma HeaderReads(packetType: nat, dup: nat, qos: nat, retain: nat)
    requires packetType < 16 && dup < 2 && qos < 4 && retain < 2
    ensures var b := HeaderByte(packetType, dup, qos, retain);
            TypeOf(b) == packetType && DupOf(b) == dup && QosOf(b) == qos && RetainOf(b) == retain
  {
    var low := qos * 2 + retain;
    var b: int := HeaderByte(packetType, dup, qos, retain);
    assert b == 16 * packetType + (8 * dup + low) && b / 16 == packetType;
    assert b == 8 * (2 * packetType + dup) + low && b / 8 == 2 * packetType + dup;
    assert b / 2 == 4 * (2 * packetType + dup) + qos;
  }

  /** The buffer holds the header byte and everything that the remaining length announces. */
  predicate Holds(s: seq<byte>) {
    s != [] && DecodeLen(s[1..], 4).Decoded? &&
    1 + DecodeLen(s[1..], 4).len + DecodeLen(s[1..], 4).value <= |s|
  }

  /** A whole packet. */
  function Packet(header: byte, body: seq<byte>): seq<byte> {
    [header] + EncodeLen(|body|) + body
  }

  lemma PacketReads(header: byte, body: seq<byte>, rest: seq<byte>)
    requires |body| <= MAX_REMAINING
    ensures var s := Packet(header, body) + rest;
            && Holds(s) && s[0] == header
            && DecodeLen(s[1..], 4) == Decoded(|body|, |EncodeLen(|body|)|, true)
            && s[1 + |EncodeLen(|body|)|..][..|body|] == body
            && |s| == EmittedLen(|body|) + |rest|
  {
    DecodeInvertsEncode(|body|, body + rest);
    var s := Packet(header, body) + rest;
    assert s[1..] == EncodeLen(|body|) + (body + rest);
  }
}
