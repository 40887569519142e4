/** PUBLISH (section 3.3 of MQTT 3.1.1) and the acknowledgement packets, written and read. */
module MqttPublish {
  import opened Bytes
  import opened MqttPacket

  function PublishLength(qos: nat, topic: MQTTString, payloadLen: nat): nat {
    2 + Strlen(topic) + payloadLen + if qos > 0 then 2 else 0
  }

  /** Variable header and payload. */
  function PublishBody(qos: nat, packetId: nat, topic: MQTTString, payload: seq<byte>): seq<byte> {
    StringBytes(topic) + (if qos > 0 then IntBytes(packetId) else []) + payload
  }

  function PublishBytes(dup: nat, qos: nat, retained: nat, packetId: nat, topic: MQTTString,
                        payload: seq<byte>): seq<byte> {
    Packet(HeaderByte(PUBLISH, dup, qos, retained), PublishBody(qos, packetId, topic, payload))
  }

  /** What is written for any topic: the remaining length is the estimate. */
  function PublishWritten(dup: nat, qos: nat, retained: nat, packetId: nat, topic: MQTTString,
                          payload: seq<byte>): seq<byte> {
    [HeaderByte(PUBLISH, dup, qos, retained)] + EncodeLen(PublishLength(qos, topic, |payload|)) +
    PublishBody(qos, packetId, topic, payload)
  }

  /** The length function counts the body exactly if MQTTstrlen counts the topic. */
  lemma PublishLengthIsBody(qos: nat, packetId: nat, topic: MQTTString, payload: seq<byte>)
    ensures PublishLength(qos, topic, |payload|) == |PublishBody(qos, packetId, topic, payload)| <==> Counted(topic)
    ensures |PublishBody(qos, packetId, topic, payload)| ==
            PublishLength(qos, topic, |payload|) + |Text(topic)| - Strlen(topic)
  {
  }

  /** Then what passes the check is the packet, and it fits buflen. */
  lemma PublishFits(buflen: nat, dup: nat, qos: nat, retained: nat, packetId: nat, topic: MQTTString,
                    payload: seq<byte>)
    requires Counted(topic) && PublishLength(qos, topic, |payload|) <= MAX_REMAINING
    requires PacketLen(PublishLength(qos, topic, |payload|)) <= buflen
    ensures var written := PublishWritten(dup, qos, retained, packetId, topic, payload);
            written == PublishBytes(dup, qos, retained, packetId, topic, payload) && |written| <= buflen
  {
    hide EncodeLen, IntBytes, HeaderByte, Text, PacketLen, Strlen;
    PublishLengthIsBody(qos, packetId, topic, payload);
    EstimateExact(PublishLength(qos, topic, |payload|));
  }

  /**
   MQTTSerialize_publish, for every topic; buf is the memory from the pointer on, which must hold what is written. With
   a counted topic that is the packet, never past buflen.
   */
  method SerializePublish(buf: array<byte>, buflen: nat, dup: nat, qos: nat, retained: nat, packetId: nat,
                          topic: MQTTString, payload: seq<byte>)
    returns (rc: int)
    requires PacketLen(PublishLength(qos, topic, |payload|)) <= buflen ==>
               |PublishWritten(dup, qos, retained, packetId, topic, payload)| <= buf.Length
    modifies buf
    ensures if PacketLen(PublishLength(qos, topic, |payload|)) > buflen
            then rc == MQTTPACKET_BUFFER_TOO_SHORT && buf[..] == old(buf[..])
            else var written := PublishWritten(dup, qos, retained, packetId, topic, payload);
                 rc == |written| && Wrote(old(buf[..]), buf[..], written)
    ensures Counted(topic) && PublishLength(qos, topic, |payload|) <= MAX_REMAINING && rc >= 0 ==>
              rc == |PublishBytes(dup, qos, retained, packetId, topic, payload)| <= buflen &&
              Wrote(old(buf[..]), buf[..], PublishBytes(dup, qos, retained, packetId, topic, payload))
  {
    hide EncodeLen, IntBytes, HeaderByte, Wrote, Text, PacketLen, Strlen;
    ghost var before := buf[..];
    var rem := PublishLength(qos, topic, |payload|);
    if PacketLen(rem) > buflen {
      return MQTTPACKET_BUFFER_TOO_SHORT;
    }
    var header := HeaderByte(PUBLISH, dup, qos, retained);
    var ptr := StartPacket(buf, header, rem);
    ghost var written := [header] + EncodeLen(rem);
    ptr := WriteMQTTString(buf, ptr, topic, before, written);
    written := written + StringBytes(topic);
    if qos > 0 {
      ptr := WriteInt(buf, ptr, packetId, before, written);
      written := written + IntBytes(packetId);
    }
    ptr := WriteBytes(buf, ptr, payload, before, written);
    assert written + payload == PublishWritten(dup, qos, retained, packetId, topic, payload);
    rc := ptr;
    if Counted(topic) && rem <= MAX_REMAINING {
      PublishFits(buflen, dup, qos, retained, packetId, topic, payload);
    }
  }

  /** What MQTTDeserialize_publish hands back; a packet id only for qos above 0. A negative length has no payload. */
  datatype Publish = Publish(dup: nat, qos: nat, retained: nat, packetId: Option<nat>, topic: seq<byte>,
                             payloadlen: int, payload: seq<byte>)

  datatype Parsed<T> = Parsed(rc: int, value: Option<T>)

  function BodyStart(s: seq<byte>): nat
    requires Holds(s)
  {
    1 + DecodeLen(s[1..], 4).len
  }

  function BodyEnd(s: seq<byte>): (r: nat)
    requires Holds(s)
    ensures BodyStart(s) <= r <= |s|
  {
    BodyStart(s) + DecodeLen(s[1..], 4).value
  }

  /** The buffer holds the packet, and the two bytes that are read as packet id, which may lie after it. */
  predicate PublishReadable(s: seq<byte>) {
    Holds(s) && (QosOf(s[0]) > 0 ==>
      var topic := StringAt(s, BodyStart(s), BodyEnd(s)); topic.Some? ==> topic.value.1 + 2 <= |s|)
  }

  /**
   What MQTTDeserialize_publish returns. The return code doubles as the number of length bytes, so a topic
   that does not fit is reported by that number, which for a one-byte length reads as success.
   */
  function ParsePublish(s: seq<byte>): Parsed<Publish>
    requires PublishReadable(s)
  {
    if TypeOf(s[0]) != PUBLISH then Parsed(0, None)
    else match StringAt(s, BodyStart(s), BodyEnd(s))
      case None => Parsed(DecodeLen(s[1..], 4).len, None)
      case Some((topic, cur)) =>
        var qos := QosOf(s[0]);
        var payloadAt := if qos > 0 then cur + 2 else cur;
        var payload := if payloadAt <= BodyEnd(s) then s[payloadAt..BodyEnd(s)] else [];
        Parsed(1, Some(Publish(DupOf(s[0]), qos, RetainOf(s[0]), if qos > 0 then Some(IntAt(s, cur)) else None, topic,
                               BodyEnd(s) - payloadAt, payload)))
  }

  method DeserializePublish(buf: array<byte>) returns (r: Parsed<Publish>)
    requires PublishReadable(buf[..])
    ensures r == ParsePublish(buf[..])
  {
    hide DecodeLen, StringAt, IntAt, TypeOf, DupOf, QosOf, RetainOf;
    ghost var s := buf[..];
    var cur := 0;
    var header := buf[cur];
    cur := cur + 1;
    if TypeOf(header) != PUBLISH {
      return Parsed(0, None);
    }
    assert buf[1..] == s[1..];
    var rc, mylen := DecodeBuf(buf, cur);
    cur := cur + rc;
    var end := cur + mylen;
    var topic := StringAt(buf[..], cur, end);
    if topic.None? || end - topic.value.1 < 0 {
      return Parsed(rc, None);
    }
    cur := topic.value.1;
    var packetId: Option<nat> := None;
    if QosOf(header) > 0 {
      packetId := Some(IntAt(buf[..], cur));
      cur := cur + 2;
    }
    var payloadlen: int := end - cur;
    var payload := if cur <= end then buf[cur..end] else [];
    assert cur <= end ==> payload == s[cur..end];
    r := Parsed(1, Some(Publish(DupOf(header), QosOf(header), RetainOf(header), packetId, topic.value.0, payloadlen,
                                payload)));
  }

  /** A negative payload length comes out, with success, exactly when less than a packet id follows the topic. */
  lemma NegativePayload(s: seq<byte>)
    requires PublishReadable(s) && ParsePublish(s).value.Some?
    ensures ParsePublish(s).rc == 1
    ensures ParsePublish(s).value.value.payloadlen < 0 <==>
              QosOf(s[0]) > 0 && BodyEnd(s) < StringAt(s, BodyStart(s), BodyEnd(s)).value.1 + 2
  {
  }

  /** A topic and nothing else, at qos 1: the packet id comes from behind the packet, the payload length is -2. */
  lemma NegativePayloadWitness()
    ensures var s: seq<byte> := [0x32, 0x02, 0x00, 0x00, 0x12, 0x34];
            && PublishReadable(s)
            && ParsePublish(s) == Parsed(1, Some(Publish(0, 1, 0, Some(0x1234), [], -2, [])))
  {
    var s: seq<byte> := [0x32, 0x02, 0x00, 0x00, 0x12, 0x34];
    assert s[1..][0] == 2 && DecodeLen(s[1..], 4) == Decoded(2, 1, true);
  }

  /** Parsing the written packet, whatever follows it in the buffer, returns what was written. */
  lemma PublishRoundTrip(dup: nat, qos: nat, retained: nat, packetId: nat, topic: MQTTString, payload: seq<byte>,
                         rest: seq<byte>)
    requires dup < 2 && qos < 3 && retained < 2 && packetId < 65536 && StringOk(topic)
    requires |PublishBody(qos, packetId, topic, payload)| <= MAX_REMAINING
    ensures var s := PublishBytes(dup, qos, retained, packetId, topic, payload) + rest;
            && PublishReadable(s)
            && ParsePublish(s) ==
               Parsed(1, Some(Publish(dup, qos, retained, if qos > 0 then Some(packetId) else None, Text(topic),
                                      |payload|, payload)))
  {
    hide EncodeLen, DecodeLen, HeaderByte, TypeOf, DupOf, QosOf, RetainOf, StringAt, StringBytes, IntBytes, IntAt,
         Packet, Text;
    var body := PublishBody(qos, packetId, topic, payload);
    var header := HeaderByte(PUBLISH, dup, qos, retained);
    var s := PublishBytes(dup, qos, retained, packetId, topic, payload) + rest;
    PacketReads(header, body, rest);
    HeaderReads(PUBLISH, dup, qos, retained);
    var start, end := BodyStart(s), BodyEnd(s);
    var id := if qos > 0 then IntBytes(packetId) else [];
    assert s[start..end] == s[start..][..|body|] == body;
    BodyParts(s, start, end, StringBytes(topic), id, payload);
    StringReads(s, start, end, topic);
    if qos > 0 {
      IdReads(s, start + |StringBytes(topic)|, packetId);
    }
  }

  lemma BodyParts(s: seq<byte>, start: nat, end: nat, topic: seq<byte>, id: seq<byte>, payload: seq<byte>)
    requires start <= end <= |s| && s[start..end] == topic + id + payload
    ensures end - start == |topic| + |id| + |payload|
    ensures s[start..start + |topic|] == topic && s[start + |topic| + |id|..end] == payload
    ensures s[start + |topic|..start + |topic| + |id|] == id
  {
    var body := s[start..end];
    var i, j := |topic|, |topic| + |id|;
    assert body[..i] == topic && body[i..j] == id && body[j..] == payload;
    PartOfPart(s, start, |body|, 0, i);
    PartOfPart(s, start, |body|, i, j);
    PartOfPart(s, start, |body|, j, |body|);
  }

  lemma IdReads(s: seq<byte>, cur: nat, packetId: nat)
    requires cur + 2 <= |s| && packetId < 65536 && s[cur..cur + 2] == IntBytes(packetId)
    ensures IntAt(s, cur) == packetId
  {
    hide IntBytes;
    assert s[cur] == s[cur..cur + 2][0] && s[cur + 1] == s[cur..cur + 2][1];
    IntReads(packetId);
  }

  /** A topic that does not fit the remaining length passes as success exactly when that length took one byte. */
  lemma MisreadTopic(s: seq<byte>)
    requires PublishReadable(s) && TypeOf(s[0]) == PUBLISH && ParsePublish(s).value.None?
    ensures ParsePublish(s).rc == 1 <==> s[1] < 128
  {
  }

  /** Three bytes: a remaining length of one cannot hold the length of a topic, yet the code is that of success. */
  lemma MisreadTopicWitness()
    ensures var s: seq<byte> := [0x30, 0x01, 0x00]; PublishReadable(s) && ParsePublish(s) == Parsed(1, None)
  {
    var s: seq<byte> := [0x30, 0x01, 0x00];
    assert s[1..][0] == 1 && DecodeLen(s[1..], 4) == Decoded(1, 1, true);
  }

  // Acknowledgements: PUBACK, PUBREC, PUBREL, PUBCOMP

  function AckBytes(packetType: nat, dup: nat, packetId: nat): (r: seq<byte>)
    ensures |r| == 4
  {
    assert EncodeLen(2) == [2];
    Packet(HeaderByte(packetType, dup, if packetType == PUBREL then 1 else 0, 0), IntBytes(packetId))
  }

  method SerializeAck(buf: array<byte>, buflen: nat, packetType: nat, dup: nat, packetId: nat) returns (rc: int)
    requires buflen <= buf.Length
    modifies buf
    ensures if buflen < 4 then rc == MQTTPACKET_BUFFER_TOO_SHORT && buf[..] == old(buf[..])
            else rc == 4 && Wrote(old(buf[..]), buf[..], AckBytes(packetType, dup, packetId))
  {
    hide IntBytes, HeaderByte, Wrote;
    if buflen < 4 {
      return MQTTPACKET_BUFFER_TOO_SHORT;
    }
    ghost var before := buf[..];
    var header := HeaderByte(packetType, dup, if packetType == PUBREL then 1 else 0, 0);
    var ptr := StartPacket(buf, header, 2);
    rc := WriteInt(buf, ptr, packetId, before, [header] + EncodeLen(2));
  }

  /** The four bytes of PUBACK, PUBREC and PUBREL, as sections 3.4 to 3.6 of MQTT 3.1.1 lay them out. */
  lemma AckLayout(packetId: nat)
    ensures AckBytes(4, 0, packetId) == [0x40, 0x02, packetId / 256 % 256, packetId % 256]
    ensures AckBytes(5, 0, packetId) == [0x50, 0x02, packetId / 256 % 256, packetId % 256]
    ensures AckBytes(6, 0, packetId) == [0x62, 0x02, packetId / 256 % 256, packetId % 256]
  {
    hide AckBytes;
    AckParts(4, packetId);
    AckParts(5, packetId);
    AckParts(6, packetId);
  }

  lemma AckParts(packetType: nat, packetId: nat)
    ensures AckBytes(packetType, 0, packetId) ==
            [HeaderByte(packetType, 0, if packetType == 6 then 1 else 0, 0), 0x02] + IntBytes(packetId)
  {
    hide HeaderByte, IntBytes;
    assert EncodeLen(2) == [2];
  }

  /** A packet of nothing but its fixed header. */
  function ZeroBytes(packetType: nat): (r: seq<byte>)
    ensures |r| == 2
  {
    assert EncodeLen(0) == [0];
    Packet(HeaderByte(packetType, 0, 0, 0), [])
  }

  lemma PingreqLayout()
    ensures ZeroBytes(12) == [0xC0, 0x00]
  {
    assert EncodeLen(0) == [0];
  }

  /** MQTTSerialize_zero */
  method SerializeZero(buf: array<byte>, buflen: nat, packetType: nat) returns (rc: int)
    requires buflen <= buf.Length
    modifies buf
    ensures if buflen < 2 then rc == MQTTPACKET_BUFFER_TOO_SHORT && buf[..] == old(buf[..])
            else rc == 2 && Wrote(old(buf[..]), buf[..], ZeroBytes(packetType))
  {
    hide HeaderByte;
    if buflen < 2 {
      return MQTTPACKET_BUFFER_TOO_SHORT;
    }
    assert EncodeLen(0) == [0];
    rc := StartPacket(buf, HeaderByte(packetType, 0, 0, 0), 0);
  }

  datatype Ack = Ack(packetType: nat, dup: nat, packetId: nat)

  function ParseAck(s: seq<byte>): Parsed<Ack>
    requires Holds(s)
  {
    if BodyEnd(s) - BodyStart(s) < 2 then Parsed(DecodeLen(s[1..], 4).len, None)
    else Parsed(1, Some(Ack(TypeOf(s[0]), DupOf(s[0]), IntAt(s, BodyStart(s)))))
  }

  method DeserializeAck(buf: array<byte>) returns (r: Parsed<Ack>)
    requires Holds(buf[..])
    ensures r == ParseAck(buf[..])
  {
    hide DecodeLen;
    assert buf[1..] == buf[..][1..];
    var rc, mylen := DecodeBuf(buf, 1);
    var cur := 1 + rc;
    if mylen < 2 {
      return Parsed(rc, None);
    }
    r := Parsed(1, Some(Ack(TypeOf(buf[0]), DupOf(buf[0]), IntAt(buf[..], cur))));
  }

  lemma AckRoundTrip(packetType: nat, dup: nat, packetId: nat, rest: seq<byte>)
    requires packetType < 16 && dup < 2 && packetId < 65536
    ensures var s := AckBytes(packetType, dup, packetId) + rest;
            Holds(s) && ParseAck(s) == Parsed(1, Some(Ack(packetType, dup, packetId)))
  {
    hide EncodeLen, DecodeLen, HeaderByte, TypeOf, DupOf, QosOf, RetainOf;
    var qos := if packetType == PUBREL then 1 else 0;
    PacketReads(HeaderByte(packetType, dup, qos, 0), IntBytes(packetId), rest);
    HeaderReads(packetType, dup, qos, 0);
    IntReads(packetId);
    var s := AckBytes(packetType, dup, packetId) + rest;
    assert s[BodyStart(s)..BodyEnd(s)] == IntBytes(packetId);
    assert s[BodyStart(s)] == IntBytes(packetId)[0] && s[BodyStart(s) + 1] == IntBytes(packetId)[1];
  }
}
