/**
 Packets as MQTT 3.1.1 prints them: the table of remaining lengths, the examples of its section 3, and the packet types
 that each parser takes.
 */
module MqttExamples {
  import opened Bytes
  import opened MqttPacket
  import opened MqttPublish
  import opened MqttSubscribe
  import opened MqttConnect

  /** Table 2.4: the smallest and the largest number of each size. */
  lemma RemainingLengths()
    ensures EncodeLen(0) == [0x00] && EncodeLen(127) == [0x7F]
    ensures EncodeLen(128) == [0x80, 0x01] && EncodeLen(16383) == [0xFF, 0x7F]
    ensures EncodeLen(16384) == [0x80, 0x80, 0x01] && EncodeLen(2097151) == [0xFF, 0xFF, 0x7F]
    ensures EncodeLen(2097152) == [0x80, 0x80, 0x80, 0x01] && EncodeLen(268435455) == [0xFF, 0xFF, 0xFF, 0x7F]
  {
  }

  /** A counted string. */
  function Counting(text: seq<byte>): MQTTString {
    MQTTString(None, Some(text))
  }

  lemma ShortPacket(header: byte, body: seq<byte>)
    requires |body| < 128
    ensures Packet(header, body) == [header, |body|] + body
  {
  }

  lemma ShortString(text: seq<byte>)
    requires 0 < |text| < 256
    ensures StringBytes(Counting(text)) == [0x00, |text|] + text
  {
  }

  /** Section 3.3.2.3: topic a/b and packet id 10, here with two bytes of payload, and without QoS. */
  lemma PublishExample(topic: seq<byte>, packetId: nat, x: byte, y: byte)
    requires topic == [0x61, 0x2F, 0x62] && packetId == 10
    ensures PublishBytes(1, 1, 0, packetId, Counting(topic), [x, y]) ==
            [0x3A, 0x09, 0x00, 0x03, 0x61, 0x2F, 0x62, 0x00, 0x0A, x, y]
    ensures PublishBytes(0, 0, 1, packetId, Counting(topic), [x, y]) ==
            [0x31, 0x07, 0x00, 0x03, 0x61, 0x2F, 0x62, x, y]
  {
    hide Packet, StringBytes;
    ShortString(topic);
    var text := StringBytes(Counting(topic));
    assert text == [0x00, 0x03, 0x61, 0x2F, 0x62];
    assert PublishBody(1, packetId, Counting(topic), [x, y]) == text + [0x00, 0x0A, x, y];
    assert PublishBody(0, packetId, Counting(topic), [x, y]) == text + [x, y];
    ShortPacket(0x3A, text + [0x00, 0x0A, x, y]);
    ShortPacket(0x31, text + [x, y]);
  }

  /** Sections 3.8.2 and 3.8.3: a/b with QoS 1 and c/d with QoS 2 under packet id 10. */
  lemma SubscribeExample(a: seq<byte>, c: seq<byte>, packetId: nat)
    requires a == [0x61, 0x2F, 0x62] && c == [0x63, 0x2F, 0x64] && packetId == 10
    ensures SubscribeBytes(0, packetId, [Counting(a), Counting(c)], [1, 2]) ==
            [0x82, 0x0E, 0x00, 0x0A] + ([0x00, 0x03, 0x61, 0x2F, 0x62, 0x01] + [0x00, 0x03, 0x63, 0x2F, 0x64, 0x02])
  {
    hide Packet, StringBytes, FilterBytes;
    var filters: seq<MQTTString>, qoss: seq<byte> := [Counting(a), Counting(c)], [1, 2];
    ShortString(a);
    ShortString(c);
    NoFilterBytes();
    assert filters[..0] == [] && qoss[..0] == [] && filters[..2] == filters && qoss[..2] == qoss;
    FilterBytesPrefix(filters, qoss, 0);
    FilterBytesPrefix(filters, qoss, 1);
    var first, second := StringBytes(Counting(a)) + [1], StringBytes(Counting(c)) + [2];
    assert first == [0x00, 0x03, 0x61, 0x2F, 0x62, 0x01] && second == [0x00, 0x03, 0x63, 0x2F, 0x64, 0x02];
    assert FilterBytes(filters, qoss) == first + second;
    assert SubscribeBody(packetId, filters, qoss) == [0x00, 0x0A] + (first + second);
    assert HeaderByte(SUBSCRIBE, 0, 1, 0) == 0x82;
    ShortPacket(0x82, SubscribeBody(packetId, filters, qoss));
    assert [0x82, 0x0E] + ([0x00, 0x0A] + (first + second)) == [0x82, 0x0E, 0x00, 0x0A] + (first + second);
  }

  /** Section 3.9.3: any three return codes. */
  lemma SubackExample(packetId: nat, granted: seq<byte>)
    requires packetId == 10 && |granted| == 3
    ensures SubackBytes(packetId, granted) == [0x90, 0x05, 0x00, 0x0A] + granted
  {
    hide Packet;
    var body := IntBytes(packetId) + granted;
    assert body == [0x00, 0x0A] + granted;
    ShortPacket(HeaderByte(SUBACK, 0, 0, 0), body);
    assert [0x90, 0x05] + body == [0x90, 0x05, 0x00, 0x0A] + granted;
  }

  lemma NameBytes(o: ConnectData)
    requires o.version == 4
    ensures StringBytes(Name(o)) == [0x00, 0x04, 0x4D, 0x51, 0x54, 0x54]
  {
  }

  /** Section 3.1.2: a will of QoS 1, name and password, a clean session and ten seconds to keep alive. */
  lemma ConnectExample(o: ConnectData, c: byte, w: byte, m: byte, u: byte, p: byte)
    requires o.version == 4 && o.keepAlive == 10 && o.cleansession == 1 && o.willFlag
    requires o.will == Will(Counting([w]), Counting([m]), 0, 1)
    requires o.clientID == Counting([c]) && o.username == Counting([u]) && o.password == Counting([p])
    ensures ConnectBytes(o) ==
            [0x10, 0x19, 0x00, 0x04, 0x4D, 0x51, 0x54, 0x54, 0x04, 0xCE, 0x00, 0x0A,
             0x00, 0x01, c, 0x00, 0x01, w, 0x00, 0x01, m, 0x00, 0x01, u, 0x00, 0x01, p]
  {
    hide Packet, StringBytes, Text;
    ShortString([w]);
    ShortString([m]);
    ShortString([u]);
    ShortString([p]);
    ShortString([c]);
    NameBytes(o);
    assert Fixed(o) == [0x04, 0xCE, 0x00, 0x0A];
    assert WillBytes(o) + Credentials(o) == [0x00, 0x01, w, 0x00, 0x01, m, 0x00, 0x01, u, 0x00, 0x01, p];
    ShortPacket(0x10, ConnectBody(o));
  }

  /** Each parser takes packets of its own type only, as the first four bits say (section 2.2.1). */
  lemma OwnTypeOnly(s: seq<byte>, maxcount: nat)
    requires PublishReadable(s) && SubscribeReadable(s)
    ensures ParsePublish(s).value.Some? ==> s[0] / 16 == 3
    ensures ParseSubscribe(s).value.Some? ==> s[0] / 16 == 8
    ensures ParseSuback(s, maxcount).value.Some? ==> s[0] / 16 == 9
  {
    hide DecodeLen, StringAt, FiltersAt, IntAt, DupOf, QosOf, RetainOf;
  }

  /**
   CONNECT is taken only with level 3 and the name MQIsdp or with level 4 and the name MQTT, where a shorter name passes
   if it is the beginning of that, and a longer one if it begins with it.
   */
  lemma ConnectNamesProtocol(s: seq<byte>, len: nat)
    requires ConnectReadable(s, len) && ParseConnect(s, len).Some?
    ensures s[0] / 16 == 1
    ensures var start := 1 + DecodeLen(s[1..], 4).len;
            && StringAt(s, start, len).Some?
            && var (name, cur) := StringAt(s, start, len).value;
            || (s[cur] == 3 && (name <= [0x4D, 0x51, 0x49, 0x73, 0x64, 0x70] ||
                                [0x4D, 0x51, 0x49, 0x73, 0x64, 0x70] <= name))
            || (s[cur] == 4 && (name <= [0x4D, 0x51, 0x54, 0x54] || [0x4D, 0x51, 0x54, 0x54] <= name))
  {
    hide DecodeLen, StringAt, IntAt, PayloadAt, CheckVersion;
    var (name, cur) := StringAt(s, ConnectStart(s), len).value;
    VersionNames(name, s[cur]);
  }

  lemma VersionNames(name: seq<byte>, version: byte)
    ensures CheckVersion(name, version) <==>
              || (version == 3 && (name <= [0x4D, 0x51, 0x49, 0x73, 0x64, 0x70] ||
                                   [0x4D, 0x51, 0x49, 0x73, 0x64, 0x70] <= name))
              || (version == 4 && (name <= [0x4D, 0x51, 0x54, 0x54] || [0x4D, 0x51, 0x54, 0x54] <= name))
  {
    PrefixEitherWay(name, MQISDP);
    PrefixEitherWay(name, MQTT);
  }

  lemma PrefixEitherWay(a: seq<byte>, b: seq<byte>)
    ensures a[..Min(|b|, |a|)] == b[..Min(|b|, |a|)] <==> a <= b || b <= a
  {
    if |a| <= |b| {
      assert a[..|a|] == a;
    } else {
      assert b[..|b|] == b;
    }
  }
}
