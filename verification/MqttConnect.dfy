/** CONNECT (section 3.1 of MQTT 3.1.1 and its 3.1 form), written and read. */
module MqttConnect {
  import opened Bytes
  import opened MqttPacket
  import opened MqttPublish

  datatype Will = Will(topicName: MQTTString, message: MQTTString, retained: byte, qos: byte)

  /** MQTTPacket_connectData */
  datatype ConnectData = ConnectData(version: byte, clientID: MQTTString, keepAlive: nat, cleansession: byte,
                                     willFlag: bool,
                                     will: Will, username: MQTTString, password: MQTTString)

  const MQTT: seq<byte> := [0x4D, 0x51, 0x54, 0x54]
  const MQISDP: seq<byte> := [0x4D, 0x51, 0x49, 0x73, 0x64, 0x70]

  /** The protocol name as writeCString takes it. */
  function Name(o: ConnectData): (r: MQTTString)
    ensures StringOk(r) && |Text(r)| == if o.version == 4 then 4 else 6
  {
    MQTTString(Some(if o.version == 4 then MQTT else MQISDP), None)
  }

  function Level(o: ConnectData): byte {
    if o.version == 4 then 4 else 3
  }

  function Bit(b: bool): (r: nat)
    ensures r < 2
  {
    if b then 1 else 0
  }

  /** The flags byte from its fields, lowest first. */
  function FlagByte(clean: nat, willFlag: nat, qos: nat, retain: nat, password: nat, username: nat): byte
    requires clean < 2 && willFlag < 2 && qos < 4 && retain < 2 && password < 2 && username < 2
  {
    clean * 2 + willFlag * 4 + qos * 8 + retain * 32 + password * 64 + username * 128
  }

  /** The flags as the bit fields cut their values. */
  function Flags(o: ConnectData): byte {
    FlagByte(o.cleansession % 2, Bit(o.willFlag), if o.willFlag then o.will.qos % 4 else 0,
             if o.willFlag then o.will.retained % 2 else 0,
             Bit(Present(o.password)), Bit(Present(o.username)))
  }

  function OptionalLength(m: MQTTString): nat {
    if Present(m) then Strlen(m) + 2 else 0
  }

  /** MQTTSerialize_connectLength */
  function ConnectLength(o: ConnectData): nat {
    (if o.version == 3 then 12 else if o.version == 4 then 10 else 0) + Strlen(o.clientID) + 2 +
    (if o.willFlag then Strlen(o.will.topicName) + 2 + Strlen(o.will.message) + 2 else 0) +
    OptionalLength(o.username) + OptionalLength(o.password)
  }

  function WillBytes(o: ConnectData): seq<byte> {
    if o.willFlag then StringBytes(o.will.topicName) + StringBytes(o.will.message) else []
  }

  function OptionalBytes(m: MQTTString): seq<byte> {
    if Present(m) then StringBytes(m) else []
  }

  /** Protocol level, flags and keep-alive. */
  function Fixed(o: ConnectData): (r: seq<byte>)
    ensures |r| == 4
  {
    [Level(o)] + [Flags(o)] + IntBytes(o.keepAlive)
  }

  function Credentials(o: ConnectData): seq<byte> {
    OptionalBytes(o.username) + OptionalBytes(o.password)
  }

  function ConnectBody(o: ConnectData): seq<byte> {
    StringBytes(Name(o)) + (Fixed(o) + (StringBytes(o.clientID) + (WillBytes(o) + Credentials(o))))
  }

  function ConnectBytes(o: ConnectData): seq<byte> {
    Packet(HeaderByte(CONNECT, 0, 0, 0), ConnectBody(o))
  }

  /** What is written for any options: the remaining length is the estimate. */
  function ConnectWritten(o: ConnectData): seq<byte> {
    [HeaderByte(CONNECT, 0, 0, 0)] + EncodeLen(ConnectLength(o)) + ConnectBody(o)
  }

  /** The bytes of a string that MQTTstrlen does not count. */
  function Uncounted(m: MQTTString): int {
    |Text(m)| - Strlen(m)
  }

  function UncountedStrings(o: ConnectData): int {
    Uncounted(o.clientID) + (if o.willFlag then Uncounted(o.will.topicName) + Uncounted(o.will.message) else 0) +
    (if Present(o.username) then Uncounted(o.username) else 0) +
    (if Present(o.password) then Uncounted(o.password) else 0)
  }

  /** All strings that are written are counted. */
  predicate StringsCounted(o: ConnectData) {
    && Counted(o.clientID) && (o.willFlag ==> Counted(o.will.topicName) && Counted(o.will.message))
    && (Present(o.username) ==> Counted(o.username)) && (Present(o.password) ==> Counted(o.password))
  }

  predicate ConnectOk(o: ConnectData) {
    && o.version in {3, 4} && o.keepAlive < 65536
    && StringOk(o.clientID) && StringOk(o.will.topicName) && StringOk(o.will.message)
    && StringOk(o.username) && StringOk(o.password)
  }

  lemma OptionalLengthIsBytes(m: MQTTString)
    ensures |OptionalBytes(m)| == OptionalLength(m) + if Present(m) then Uncounted(m) else 0
  {
  }

  /** What the length function leaves out: what the strings do not count, and name and level of an unknown version. */
  lemma ConnectBodyLength(o: ConnectData)
    ensures |ConnectBody(o)| == ConnectLength(o) + UncountedStrings(o) + if o.version in {3, 4} then 0 else 12
  {
    hide Text, Strlen, StringBytes, IntBytes, Flags, OptionalLength, OptionalBytes, Name, Fixed;
    OptionalLengthIsBytes(o.username);
    OptionalLengthIsBytes(o.password);
    assert |Credentials(o)| == |OptionalBytes(o.username)| + |OptionalBytes(o.password)|;
  }

  /** With counted strings the length function counts the bytes after the fixed header exactly for versions 3 and 4. */
  lemma ConnectLengthIsBody(o: ConnectData)
    requires StringsCounted(o)
    ensures ConnectLength(o) == |ConnectBody(o)| <==> o.version in {3, 4}
  {
    hide ConnectLength, ConnectBody, Text, Strlen;
    ConnectBodyLength(o);
  }

  /** Options that can be read back are never too long for four length bytes. */
  lemma ConnectIsShort(o: ConnectData)
    requires ConnectOk(o)
    ensures StringsCounted(o) && ConnectLength(o) == |ConnectBody(o)| <= MAX_REMAINING
  {
    hide Text, Strlen, ConnectBody;
    ConnectLengthIsBody(o);
  }

  /** For versions 3 and 4 with counted strings, what passes the check is the packet, and it fits buflen. */
  lemma ConnectFits(buflen: nat, o: ConnectData)
    requires o.version in {3, 4} && StringsCounted(o)
    requires ConnectLength(o) <= MAX_REMAINING && PacketLen(ConnectLength(o)) <= buflen
    ensures ConnectWritten(o) == ConnectBytes(o) && |ConnectWritten(o)| <= buflen
  {
    hide EncodeLen, HeaderByte, PacketLen, ConnectLength, ConnectBody, StringsCounted;
    ConnectLengthIsBody(o);
    EstimateExact(ConnectLength(o));
  }

  method WriteProtocol(buf: array<byte>, ptr: nat, o: ConnectData, ghost before: seq<byte>, ghost written: seq<byte>)
    returns (ptr': nat)
    requires Wrote(before, buf[..], written) && ptr == |written|
    requires ptr + |StringBytes(Name(o)) + Fixed(o)| <= buf.Length
    modifies buf
    ensures ptr' == ptr + |StringBytes(Name(o)) + Fixed(o)|
    ensures Wrote(before, buf[..], written + StringBytes(Name(o)) + Fixed(o))
  {
    hide Wrote, Flags, IntBytes, StringBytes, Text;
    ghost var w := written + StringBytes(Name(o));
    if o.version == 4 {
      ptr' := WriteMQTTString(buf, ptr, MQTTString(Some(MQTT), None), before, written);
      ptr' := WriteChar(buf, ptr', 4, before, w);
    } else {
      ptr' := WriteMQTTString(buf, ptr, MQTTString(Some(MQISDP), None), before, written);
      ptr' := WriteChar(buf, ptr', 3, before, w);
    }
    ptr' := WriteChar(buf, ptr', Flags(o), before, w + [Level(o)]);
    ptr' := WriteInt(buf, ptr', o.keepAlive, before, w + [Level(o)] + [Flags(o)]);
    assert w + [Level(o)] + [Flags(o)] + IntBytes(o.keepAlive) == w + Fixed(o);
  }

  method WriteWill(buf: array<byte>, ptr: nat, o: ConnectData, ghost before: seq<byte>, ghost written: seq<byte>)
    returns (ptr': nat)
    requires Wrote(before, buf[..], written) && ptr == |written| && ptr + |WillBytes(o)| <= buf.Length
    modifies buf
    ensures ptr' == ptr + |WillBytes(o)| && Wrote(before, buf[..], written + WillBytes(o))
  {
    hide Wrote, StringBytes, Text;
    ptr' := ptr;
    if o.willFlag {
      ptr' := WriteMQTTString(buf, ptr, o.will.topicName, before, written);
      ptr' := WriteMQTTString(buf, ptr', o.will.message, before, written + StringBytes(o.will.topicName));
      assert written + StringBytes(o.will.topicName) + StringBytes(o.will.message) == written + WillBytes(o);
    } else {
      assert written + WillBytes(o) == written;
    }
  }

  method WriteOptional(buf: array<byte>, ptr: nat, m: MQTTString, ghost before: seq<byte>, ghost written: seq<byte>)
    returns (ptr': nat)
    requires Wrote(before, buf[..], written) && ptr == |written| && ptr + |OptionalBytes(m)| <= buf.Length
    modifies buf
    ensures ptr' == ptr + |OptionalBytes(m)| && Wrote(before, buf[..], written + OptionalBytes(m))
  {
    hide Wrote, StringBytes, Text;
    ptr' := ptr;
    if Present(m) {
      ptr' := WriteMQTTString(buf, ptr, m, before, written);
    } else {
      assert written + OptionalBytes(m) == written;
    }
  }

  lemma Regroup(a: seq<byte>, b: seq<byte>, c: seq<byte>, d: seq<byte>, e: seq<byte>, f: seq<byte>, g: seq<byte>)
    ensures a + b + c + d + e + f + g == a + (b + (c + (d + (e + (f + g)))))
  {
  }

  /**
   MQTTSerialize_connect, for any version and strings; buf is the memory from the pointer on, which must hold what is
   written. For versions 3 and 4 with counted strings that is the packet, never past buflen.
   */
  method SerializeConnect(buf: array<byte>, buflen: nat, o: ConnectData) returns (rc: int)
    requires PacketLen(ConnectLength(o)) <= buflen ==> |ConnectWritten(o)| <= buf.Length
    modifies buf
    ensures if PacketLen(ConnectLength(o)) > buflen then rc == MQTTPACKET_BUFFER_TOO_SHORT && buf[..] == old(buf[..])
            else rc == |ConnectWritten(o)| && Wrote(old(buf[..]), buf[..], ConnectWritten(o))
    ensures o.version in {3, 4} && StringsCounted(o) && ConnectLength(o) <= MAX_REMAINING && rc >= 0 ==>
              rc == |ConnectBytes(o)| <= buflen && Wrote(old(buf[..]), buf[..], ConnectBytes(o))
  {
    hide EncodeLen, HeaderByte, Wrote, Text, StringBytes, Name, Fixed, WillBytes, OptionalBytes, StringsCounted,
         ConnectLength, PacketLen;
    ghost var before := buf[..];
    var len := ConnectLength(o);
    if PacketLen(len) > buflen {
      return MQTTPACKET_BUFFER_TOO_SHORT;
    }
    ghost var header := HeaderByte(CONNECT, 0, 0, 0);
    var ptr := StartPacket(buf, HeaderByte(CONNECT, 0, 0, 0), len);
    ghost var start := [header] + EncodeLen(len);
    ghost var written := start;
    ptr := WriteProtocol(buf, ptr, o, before, written);
    written := written + StringBytes(Name(o)) + Fixed(o);
    ptr := WriteMQTTString(buf, ptr, o.clientID, before, written);
    written := written + StringBytes(o.clientID);
    ptr := WriteWill(buf, ptr, o, before, written);
    written := written + WillBytes(o);
    ptr := WriteOptional(buf, ptr, o.username, before, written);
    written := written + OptionalBytes(o.username);
    ptr := WriteOptional(buf, ptr, o.password, before, written);
    written := written + OptionalBytes(o.password);
    Regroup(start, StringBytes(Name(o)), Fixed(o), StringBytes(o.clientID), WillBytes(o), OptionalBytes(o.username),
            OptionalBytes(o.password));
    assert written == ConnectWritten(o);
    rc := ptr;
    if o.version in {3, 4} && StringsCounted(o) && len <= MAX_REMAINING {
      ConnectFits(buflen, o);
    }
  }

  // Reading

  predicate CheckVersion(protocol: seq<byte>, version: byte) {
    || (version == 3 && protocol[..Min(6, |protocol|)] == MQISDP[..Min(6, |protocol|)])
    || (version == 4 && protocol[..Min(4, |protocol|)] == MQTT[..Min(4, |protocol|)])
  }

  function CleanOf(f: byte): byte { f / 2 % 2 }
  function WillOf(f: byte): bool { f / 4 % 2 == 1 }
  function WillQosOf(f: byte): byte { f / 8 % 4 }
  function WillRetainOf(f: byte): byte { f / 32 % 2 }
  function PasswordOf(f: byte): bool { f / 64 % 2 == 1 }
  function UsernameOf(f: byte): bool { f / 128 == 1 }

  datatype WillRead = WillRead(qos: byte, retained: byte, topicName: seq<byte>, message: seq<byte>)

  /** What MQTTDeserialize_connect fills in. */
  datatype Connect = Connect(cleansession: byte, keepAlive: nat, clientID: seq<byte>, will: Option<WillRead>,
                             username: Option<seq<byte>>, password: Option<seq<byte>>)

  /** s is the memory from the pointer on; it holds the bytes that are read without a test against len. */
  predicate ConnectReadable(s: seq<byte>, len: nat) {
    len <= |s| && s != [] && (TypeOf(s[0]) == CONNECT ==>
      DecodeLen(s[1..], 4).Decoded? && ConnectStart(s) <= |s| &&
      match StringAt(s, ConnectStart(s), len)
      case None => true
      case Some((protocol, cur)) => cur < |s| && (CheckVersion(protocol, s[cur]) ==> cur + 4 <= |s|))
  }

  function ConnectStart(s: seq<byte>): nat
    requires s != [] && DecodeLen(s[1..], 4).Decoded?
  {
    1 + DecodeLen(s[1..], 4).len
  }

  /** Two strings, one after the other. */
  function PairAt(s: seq<byte>, cur: nat, end: nat): (r: Option<(seq<byte>, seq<byte>, nat)>)
    requires end <= |s|
  {
    match StringAt(s, cur, end)
    case None => None
    case Some((a, next)) =>
      match StringAt(s, next, end)
      case None => None
      case Some((b, last)) => Some((a, b, last))
  }

  /** A user name or password: three bytes at least. */
  function CredentialAt(s: seq<byte>, cur: nat, end: nat): (r: Option<(seq<byte>, nat)>)
    requires end <= |s|
  {
    if end - cur < 3 then None else StringAt(s, cur, end)
  }

  /** User name and password as the flags f announce them; None if they are not there. */
  function CredentialsAt(s: seq<byte>, cur: nat, end: nat, f: byte): Option<(Option<seq<byte>>, Option<seq<byte>>)>
    requires end <= |s|
  {
    if !UsernameOf(f) then if PasswordOf(f) then None else Some((None, None))
    else match CredentialAt(s, cur, end)
      case None => None
      case Some((username, next)) =>
        if !PasswordOf(f) then Some((Some(username), None))
        else match CredentialAt(s, next, end)
          case None => None
          case Some((password, _)) => Some((Some(username), Some(password)))
  }

  /** The packet from the client identifier on. */
  function PayloadAt(s: seq<byte>, cur: nat, end: nat, f: byte, keepAlive: nat): Option<Connect>
    requires end <= |s|
  {
    match StringAt(s, cur, end)
    case None => None
    case Some((clientID, next)) =>
      if WillOf(f) then
        match PairAt(s, next, end)
        case None => None
        case Some((topicName, message, last)) =>
          var will := WillRead(WillQosOf(f), WillRetainOf(f), topicName, message);
          WithCredentials(CleanOf(f), keepAlive, clientID, Some(will), CredentialsAt(s, last, end, f))
      else WithCredentials(CleanOf(f), keepAlive, clientID, None, CredentialsAt(s, next, end, f))
  }

  function WithCredentials(clean: byte, keepAlive: nat, clientID: seq<byte>, will: Option<WillRead>,
                           credentials: Option<(Option<seq<byte>>, Option<seq<byte>>)>): Option<Connect> {
    match credentials
    case None => None
    case Some((username, password)) => Some(Connect(clean, keepAlive, clientID, will, username, password))
  }

  /** The values MQTTDeserialize_connect returns with return code 1; None is return code 0. */
  function ParseConnect(s: seq<byte>, len: nat): Option<Connect>
    requires ConnectReadable(s, len)
  {
    if TypeOf(s[0]) != CONNECT then None
    else match StringAt(s, ConnectStart(s), len)
      case None => None
      case Some((protocol, cur)) =>
        if CheckVersion(protocol, s[cur]) then PayloadAt(s, cur + 4, len, s[cur + 1], IntAt(s, cur + 2)) else None
  }

  /** MQTTDeserialize_connect; len is the length of the packet in buf. */
  method DeserializeConnect(buf: array<byte>, len: nat) returns (rc: int, data: Option<Connect>)
    requires ConnectReadable(buf[..], len)
    ensures data == ParseConnect(buf[..], len) && rc == if data.Some? then 1 else 0
  {
    hide DecodeLen, StringAt, CheckVersion;
    ghost var s := buf[..];
    assert buf[1..] == s[1..];
    rc, data := 0, None;
    if TypeOf(buf[0]) != CONNECT {
      return;
    }
    var end := len;
    var n, _ := DecodeBuf(buf, 1);
    var cur := 1 + n;
    var protocol := StringAt(buf[..], cur, end);
    if protocol.None? || end - protocol.value.1 < 0 {
      return;
    }
    cur := protocol.value.1;
    var version := buf[cur];
    if CheckVersion(protocol.value.0, version) {
      var flags := buf[cur + 1];
      var keepAlive := IntAt(buf[..], cur + 2);
      var clientID := StringAt(buf[..], cur + 4, end);
      if clientID.None? {
        return;
      }
      cur := clientID.value.1;
      var will, username, password := None, None, None;
      if WillOf(flags) {
        var topicName := StringAt(buf[..], cur, end);
        if topicName.None? {
          return;
        }
        var message := StringAt(buf[..], topicName.value.1, end);
        if message.None? {
          return;
        }
        cur := message.value.1;
        will := Some(WillRead(WillQosOf(flags), WillRetainOf(flags), topicName.value.0, message.value.0));
      }
      if UsernameOf(flags) {
        if end - cur < 3 {
          return;
        }
        var name := StringAt(buf[..], cur, end);
        if name.None? {
          return;
        }
        cur := name.value.1;
        username := Some(name.value.0);
        if PasswordOf(flags) {
          if end - cur < 3 {
            return;
          }
          var word := StringAt(buf[..], cur, end);
          if word.None? {
            return;
          }
          password := Some(word.value.0);
        }
      } else if PasswordOf(flags) {
        return;
      }
      rc, data := 1, Some(Connect(CleanOf(flags), keepAlive, clientID.value.0, will, username, password));
    }
  }

  // Round trip

  /** A string at the head of what is left to read. */
  lemma StringNext(s: seq<byte>, cur: nat, end: nat, m: MQTTString, more: seq<byte>)
    requires StringOk(m) && cur <= end <= |s| && s[cur..end] == StringBytes(m) + more
    ensures var next := cur + |StringBytes(m)|;
            next <= end && StringAt(s, cur, end) == Some((Text(m), next)) && s[next..end] == more
  {
    hide StringAt, StringBytes;
    var next := cur + |StringBytes(m)|;
    assert |s[cur..end]| == end - cur;
    assert s[cur..next] == s[cur..end][..|StringBytes(m)|] == StringBytes(m);
    assert s[next..end] == s[cur..end][|StringBytes(m)|..] == more;
    StringReads(s, cur, end, m);
  }

  predicate FlagsFit(o: ConnectData) {
    o.cleansession < 2 && o.will.qos < 4 && o.will.retained < 2
  }

  lemma FlagsRead(o: ConnectData)
    requires FlagsFit(o)
    ensures var f := Flags(o);
            && CleanOf(f) == o.cleansession && WillOf(f) == o.willFlag
            && (o.willFlag ==> WillQosOf(f) == o.will.qos && WillRetainOf(f) == o.will.retained)
            && PasswordOf(f) == Present(o.password) && UsernameOf(f) == Present(o.username)
  {
    hide Present, FlagByte, CleanOf, WillOf, WillQosOf, WillRetainOf, PasswordOf, UsernameOf;
    Digits(o.cleansession % 2, Bit(o.willFlag), if o.willFlag then o.will.qos % 4 else 0,
           if o.willFlag then o.will.retained % 2 else 0, Bit(Present(o.password)), Bit(Present(o.username)));
  }

  lemma Digits(c: nat, w: nat, q: nat, r: nat, p: nat, u: nat)
    requires c < 2 && w < 2 && q < 4 && r < 2 && p < 2 && u < 2
    ensures var f := FlagByte(c, w, q, r, p, u);
            && CleanOf(f) == c && WillOf(f) == (w == 1) && WillQosOf(f) == q && WillRetainOf(f) == r
            && PasswordOf(f) == (p == 1) && UsernameOf(f) == (u == 1)
  {
    PlacesRead(c, w, q, r, p, u);
  }

  lemma PlacesRead(c: int, w: int, q: int, r: int, p: int, u: int)
    requires 0 <= c < 2 && 0 <= w < 2 && 0 <= q < 4 && 0 <= r < 2 && 0 <= p < 2 && 0 <= u < 2
    ensures var f := c * 2 + w * 4 + q * 8 + r * 32 + p * 64 + u * 128;
            f / 2 % 2 == c && f / 4 % 2 == w && f / 8 % 4 == q && f / 32 % 2 == r && f / 64 % 2 == p && f / 128 == u
  {
    var f := c * 2 + w * 4 + q * 8 + r * 32 + p * 64 + u * 128;
    var f64 := p + 2 * u;
    var f32 := r + 2 * f64;
    var f8 := q + 4 * f32;
    var f4 := w + 2 * f8;
    var f2 := c + 2 * f4;
    assert f == 2 * f2 && f / 2 == f2;
    assert f / 4 == f4;
    assert f / 8 == f8;
    assert f / 32 == f32;
    assert f / 64 == f64;
  }

  /** When user name and password can be read back: none is empty where it ends the packet, no password stands alone. */
  predicate CredentialsKept(o: ConnectData) {
    && (Present(o.password) ==> Present(o.username) && |Text(o.password)| > 0)
    && (Present(o.username) && !Present(o.password) ==> |Text(o.username)| > 0)
  }

  function Given(m: MQTTString): Option<seq<byte>> {
    if Present(m) then Some(Text(m)) else None
  }

  lemma CredentialsRead(s: seq<byte>, cur: nat, end: nat, o: ConnectData)
    requires ConnectOk(o) && FlagsFit(o) && cur <= end <= |s| && s[cur..end] == Credentials(o)
    ensures CredentialsAt(s, cur, end, Flags(o)) ==
            if CredentialsKept(o) then Some((Given(o.username), Given(o.password))) else None
  {
    hide StringAt, StringBytes, Text, Present, Flags, UsernameOf, PasswordOf, StringOk;
    FlagsRead(o);
    var f := Flags(o);
    assert |s[cur..end]| == end - cur;
    if Present(o.username) {
      StringNext(s, cur, end, o.username, OptionalBytes(o.password));
      if Present(o.password) {
        var next := cur + |StringBytes(o.username)|;
        assert s[next..end] == StringBytes(o.password) + [];
        StringNext(s, next, end, o.password, []);
      }
    }
  }

  lemma PayloadRead(s: seq<byte>, cur: nat, end: nat, o: ConnectData)
    requires ConnectOk(o) && FlagsFit(o) && cur <= end <= |s|
    requires s[cur..end] == StringBytes(o.clientID) + (WillBytes(o) + Credentials(o))
    ensures PayloadAt(s, cur, end, Flags(o), o.keepAlive) == if CredentialsKept(o) then Some(Fields(o)) else None
  {
    hide StringAt, StringBytes, Text, Present, Flags, CleanOf, WillOf, WillQosOf, WillRetainOf, CredentialsAt,
         Credentials, CredentialsKept, StringOk, FlagsFit, Given;
    FlagsRead(o);
    StringNext(s, cur, end, o.clientID, WillBytes(o) + Credentials(o));
    var next := cur + |StringBytes(o.clientID)|;
    if o.willFlag {
      var topic, message := StringBytes(o.will.topicName), StringBytes(o.will.message);
      assert s[next..end] == topic + (message + Credentials(o));
      StringNext(s, next, end, o.will.topicName, message + Credentials(o));
      StringNext(s, next + |topic|, end, o.will.message, Credentials(o));
      CredentialsRead(s, next + |topic| + |message|, end, o);
    } else {
      assert s[next..end] == Credentials(o);
      CredentialsRead(s, next, end, o);
    }
  }

  /** The fields of o that the packet carries. */
  function Fields(o: ConnectData): Connect {
    Connect(o.cleansession, o.keepAlive, Text(o.clientID),
            if o.willFlag
            then Some(WillRead(o.will.qos, o.will.retained, Text(o.will.topicName), Text(o.will.message))) else None,
            Given(o.username), Given(o.password))
  }

  lemma NameIsKnown(o: ConnectData)
    requires o.version in {3, 4}
    ensures CheckVersion(Text(Name(o)), Level(o))
  {
  }

  lemma FixedReads(s: seq<byte>, cur: nat, end: nat, o: ConnectData, more: seq<byte>)
    requires cur <= end <= |s| && s[cur..end] == Fixed(o) + more && o.keepAlive < 65536
    ensures cur + 4 <= end && s[cur] == Level(o) && s[cur + 1] == Flags(o) && IntAt(s, cur + 2) == o.keepAlive
    ensures s[cur + 4..end] == more
  {
    hide Level, Flags;
    var t := s[cur..end];
    assert |t| == end - cur;
    assert s[cur] == t[0] && s[cur + 1] == t[1] && s[cur + 2] == t[2] && s[cur + 3] == t[3];
    assert t[2] == IntBytes(o.keepAlive)[0] && t[3] == IntBytes(o.keepAlive)[1];
    IntReads(o.keepAlive);
    assert s[cur + 4..end] == t[4..] == more;
  }

  /**
   Parsing the written packet, whatever follows it in the buffer, returns every field exactly when the credentials can
   be kept; otherwise it fails.
   */
  lemma ConnectRoundTrip(o: ConnectData, rest: seq<byte>)
    requires ConnectOk(o) && FlagsFit(o)
    ensures var s, len := ConnectBytes(o) + rest, |ConnectBytes(o)|;
            ConnectReadable(s, len) && ParseConnect(s, len) == if CredentialsKept(o) then Some(Fields(o)) else None
  {
    hide EncodeLen, DecodeLen, HeaderByte, StringAt, StringBytes, Text, Name, Level, Flags, Fixed, WillBytes,
         Credentials, FlagsFit, CredentialsKept, Fields, CheckVersion, TypeOf, PayloadAt, IntAt, ConnectLength,
         StringOk, StringsCounted;
    ConnectIsShort(o);
    var s, end, header := ConnectBytes(o) + rest, |ConnectBytes(o)|, HeaderByte(CONNECT, 0, 0, 0);
    PacketReads(header, ConnectBody(o), rest);
    HeaderReads(CONNECT, 0, 0, 0);
    var start := ConnectStart(s);
    var payload := StringBytes(o.clientID) + (WillBytes(o) + Credentials(o));
    assert s[start..end] == s[start..][..|ConnectBody(o)|] == StringBytes(Name(o)) + (Fixed(o) + payload);
    StringNext(s, start, end, Name(o), Fixed(o) + payload);
    var cur := start + |StringBytes(Name(o))|;
    FixedReads(s, cur, end, o, payload);
    NameIsKnown(o);
    PayloadRead(s, cur + 4, end, o);
  }
}
