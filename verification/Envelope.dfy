/**
 The cloud packet of ej_user_mqtt.c and ej_packet.c: a UART packet wrapped into a cloud packet, encrypted, signed and
 published, and the way back. Numbers on this path are bytes as bit vectors, as the cipher has them.
 */
module Envelope {
  import opened Bytes
  import opened UartFrame
  import Ecb
  import MqttPacket
  import MqttPublish
  import NolockList

  /** What the hardware computes: any function of the bytes. */
  type Hash = seq<bv8> -> seq<bv8>

  /** EJ_hash_md5 fills sixteen bytes. */
  function Digest(md5: Hash, s: seq<bv8>): (r: seq<bv8>)
    ensures |r| == 16
  {
    (md5(s) + seq(16, _ => 0))[..16]
  }

  /** ethersignStr, the 36 characters that are signed along and never sent */
  const ETHERSIGN: seq<bv8> := [0x71, 0x48, 0x55, 0x6E, 0x41, 0x30, 0x78, 0x42, 0x25, 0x60, 0x5B, 0x61,
                                0x23, 0x7D, 0x2C, 0x48, 0x5A, 0x4C, 0x6B, 0x4B, 0x2E, 0x6A, 0x51, 0x7C,
                                0x3B, 0x36, 0x71, 0x78, 0x7A, 0x62, 0x35, 0x4E, 0x6F, 0x4A, 0x64, 0x5A]

  /** wifi2CloudPacket */
  datatype CloudPacket = CloudPacket(head: seq<bv8>, version: bv8, crypt: bv8, dataLen: seq<bv8>, dataType: seq<bv8>,
                                     dataID: seq<bv8>, timeStamp: seq<bv8>, deviceID: seq<bv8>, data: seq<bv8>,
                                     signature: seq<bv8>)

  /** The fields have the sizes of the struct. */
  predicate Sized(p: CloudPacket) {
    |p.head| == 2 && |p.dataLen| == 4 && |p.dataType| == 2 && |p.dataID| == 4 && |p.timeStamp| == 8 && |p.deviceID| == 6
  }

  /** The low length byte, the only one that is used. */
  function LowLength(p: CloudPacket): nat
    requires Sized(p)
  {
    OfBits(p.dataLen[0])
  }

  function CloudHeader(p: CloudPacket): (r: seq<bv8>)
    requires Sized(p)
    ensures |r| == 8
  {
    p.head + [p.version, p.crypt] + p.dataLen
  }

  function CloudFields(p: CloudPacket): (r: seq<bv8>)
    requires Sized(p)
    ensures |r| == 20
  {
    p.dataType + p.dataID + p.timeStamp + p.deviceID
  }

  /** The low length byte counts the 44 bytes around the data, and as much data is there. */
  predicate Publishable(p: CloudPacket) {
    Sized(p) && 44 <= LowLength(p) <= |p.data| + 44
  }

  /** What is encrypted. */
  function PlainText(p: CloudPacket): (r: seq<bv8>)
    requires Publishable(p)
    ensures |r| == LowLength(p) - 24
  {
    CloudFields(p) + p.data[..LowLength(p) - 44]
  }

  /** Header and cipher text, which the signature follows. */
  function Signed(p: CloudPacket): seq<bv8>
    requires Publishable(p)
  {
    CloudHeader(p) + Ecb.AesEncrypted(PlainText(p))
  }

  function Signature(p: CloudPacket, md5: Hash): (r: seq<bv8>)
    requires Publishable(p)
    ensures |r| == 16
  {
    Digest(md5, Signed(p) + ETHERSIGN)
  }

  /** The published payload. */
  function Payload(p: CloudPacket, md5: Hash): seq<bv8>
    requires Publishable(p)
  {
    Signed(p) + Signature(p, md5)
  }

  /** The first half of EJ_user_pub_Wifi2CloudPacket: fields and data into one buffer, encrypted into cipher. */
  method EncryptFields(p: CloudPacket, cipher: array<bv8>) returns (cipherSize: nat)
    requires Publishable(p) && cipher.Length == 256
    modifies cipher
    ensures cipherSize <= 256 && cipher[..cipherSize] == Ecb.AesEncrypted(PlainText(p))
  {
    hide CloudFields, Ecb.AesEncrypted;
    var n := LowLength(p);
    var buf := new bv8[n - 24];
    CopyIn(buf, 0, CloudFields(p));
    CopyIn(buf, 20, p.data[..n - 44]);
    assert buf[..] == PlainText(p) && buf[..n - 24] == buf[..];
    cipherSize := Ecb.EJ_Aes_Encrypt(buf, n - 24, cipher);
  }

  /** The signature goes over the sign string that it covers. */
  method Sign(payload: array<bv8>, n: nat, md5: Hash)
    requires payload.Length == n + |ETHERSIGN|
    modifies payload
    ensures payload[..n + 16] == old(payload[..n]) + Digest(md5, old(payload[..]))
  {
    hide ETHERSIGN, Digest;
    assert |ETHERSIGN| == 36 by {
      SignStringLength();
    }
    var tk := Digest(md5, payload[..]);
    CopyIn(payload, n, tk);
  }

  lemma SignStringLength()
    ensures |ETHERSIGN| == 36
  {
  }

  /** Header, cipher text and sign string in a buffer of their own. */
  method Assemble(header: seq<bv8>, cipherText: seq<bv8>) returns (payload: array<bv8>)
    ensures fresh(payload) && payload[..] == header + cipherText + ETHERSIGN
  {
    hide ETHERSIGN, Patch;
    var n, m := |header|, |header| + |cipherText|;
    payload := new bv8[m + |ETHERSIGN|];
    CopyIn(payload, 0, header);
    assert payload[..n] == header;
    CopyIn(payload, n, cipherText);
    assert payload[..m] == header + cipherText;
    CopyIn(payload, m, ETHERSIGN);
    assert payload[..] == payload[..m + |ETHERSIGN|];
  }

  /** EJ_user_pub_Wifi2CloudPacket; cipher is the module's buffer. */
  method PublishCloudPacket(p: CloudPacket, cipher: array<bv8>, md5: Hash)
    returns (payload: array<bv8>, payloadlen: nat)
    requires Publishable(p) && cipher.Length == 256
    modifies cipher
    ensures fresh(payload) && payloadlen <= payload.Length && payload[..payloadlen] == Payload(p, md5)
  {
    hide CloudHeader, Ecb.AesEncrypted, PlainText, ETHERSIGN, Digest, Ecb.PadLength;
    var cipherSize := EncryptFields(p, cipher);
    payload := Assemble(CloudHeader(p), cipher[..cipherSize]);
    ghost var signed := Signed(p);
    assert payload[..] == signed + ETHERSIGN;
    assert payload[..8 + cipherSize] == payload[..][..8 + cipherSize] == signed;
    payloadlen := 8 + cipherSize + 16;
    SignStringLength();
    Sign(payload, 8 + cipherSize, md5);
    assert payload[..payloadlen] == signed + Signature(p, md5);
  }

  // The way back

  function CipherText(payload: seq<bv8>): seq<bv8>
    requires |payload| >= 24
  {
    payload[8..|payload| - 16]
  }

  /** What the cipher text decrypts to, without its padding. */
  function Plain(payload: seq<bv8>): seq<bv8>
    requires |payload| >= 24 && Ecb.WellPadded(CipherText(payload))
  {
    Ecb.Unpad(Ecb.AesDecrypted(CipherText(payload)))
  }

  /** The payload is long enough, its cipher text decrypts into the buffer, its low length byte counts 44 at least. */
  predicate Openable(payload: seq<bv8>) {
    && |payload| >= 24 && Ecb.WellPadded(CipherText(payload)) && OfBits(payload[4]) >= 44
    && |Plain(payload)| <= 256
  }

  /** The buffer after decryption: cleared, then filled from the start. */
  function Text(payload: seq<bv8>): (r: seq<bv8>)
    requires Openable(payload)
    ensures |r| == 256
  {
    Plain(payload) + seq(256 - |Plain(payload)|, _ => 0)
  }

  /** What EJ_messageArrived makes of a payload; fewer than twenty decrypted bytes are dropped. */
  function Opened(payload: seq<bv8>): (r: Option<CloudPacket>)
    requires Openable(payload)
    ensures r.Some? ==> |r.value.dataType| == 2
  {
    if |Plain(payload)| < 20 then None
    else
      var text := Text(payload);
      Some(CloudPacket(payload[0..2], payload[2], payload[3], payload[4..8], text[0..2], text[2..6], text[6..14],
                       text[14..20], text[20..OfBits(payload[4]) - 24], payload[|payload| - 16..]))
  }

  /** Packets of type 20 00 are for the device, all others for the module. */
  predicate ForDevice(p: CloudPacket) {
    p.dataType == [0x20, 0x00]
  }

  /** memset(text, 0, 256) */
  method Clear(text: array<bv8>)
    modifies text
    ensures text[..] == seq(text.Length, _ => 0)
  {
    for i := 0 to text.Length
      invariant forall k :: 0 <= k < i ==> text[k] == 0
    {
      text[i] := 0;
    }
  }

  /** The first half of EJ_messageArrived: the packet from the payload, by way of the module's buffer text. */
  method OpenPayload(payload: array<bv8>, text: array<bv8>) returns (p: Option<CloudPacket>)
    requires payload != text && text.Length == 256 && Openable(payload[..])
    modifies text
    ensures p == Opened(old(payload[..]))
  {
    hide Ecb.WellPadded, Ecb.AesDecrypted, Ecb.Unpad, Patch, OfBits;
    ghost var s := payload[..];
    var n := payload.Length;
    Clear(text);
    var data := new bv8[n - 24];
    CopyIn(data, 0, payload[8..n - 16]);
    assert data[..n - 24] == data[..] == CipherText(s);
    var ret := Ecb.EJ_Aes_Decrypt(data, n - 24, text);
    assert text[..] == Plain(s) + seq(256, _ => 0)[|Plain(s)|..] == Text(s);
    if ret == 0 {
      return None;
    }
    p := Some(CloudPacket(payload[0..2], payload[2], payload[3], payload[4..8], text[0..2], text[2..6], text[6..14],
                          text[14..20], text[20..OfBits(payload[4]) - 24], payload[n - 16..]));
  }

  /** The two lists that take what arrives, and their slots. */
  datatype Lists = Lists(device: seq<CloudPacket>, deviceSlots: nat, wifi: seq<CloudPacket>, wifiSlots: nat)

  /** The lists after a payload; a full list drops the packet. */
  function Arrived(payload: seq<bv8>, lists: Lists): Lists
    requires Openable(payload)
  {
    match Opened(payload)
    case None => lists
    case Some(p) =>
      if ForDevice(p) then
        if |lists.device| < lists.deviceSlots - 1 then lists.(device := lists.device + [p]) else lists
      else if |lists.wifi| < lists.wifiSlots - 1 then lists.(wifi := lists.wifi + [p])
      else lists
  }

  ghost function Held(cloud2device: NolockList.List<CloudPacket>, cloud2wifi: NolockList.List<CloudPacket>): Lists
    requires cloud2device.Valid() && cloud2wifi.Valid()
    reads cloud2device, cloud2device.data, cloud2wifi, cloud2wifi.data
  {
    Lists(cloud2device.Contents(), cloud2device.length, cloud2wifi.Contents(), cloud2wifi.length)
  }

  /** EJ_messageArrived */
  method MessageArrived(payload: array<bv8>, text: array<bv8>, cloud2device: NolockList.List<CloudPacket>,
                        cloud2wifi: NolockList.List<CloudPacket>)
    requires payload != text && text.Length == 256 && Openable(payload[..])
    requires cloud2device.data as object != text && cloud2wifi.data as object != text
    requires cloud2device != cloud2wifi && cloud2device.data != cloud2wifi.data
    requires cloud2device.Valid() && cloud2wifi.Valid()
    modifies text, cloud2device, cloud2device.data, cloud2wifi, cloud2wifi.data
    ensures cloud2device.Valid() && cloud2wifi.Valid()
    ensures Held(cloud2device, cloud2wifi) == Arrived(old(payload[..]), old(Held(cloud2device, cloud2wifi)))
  {
    hide Openable, Opened;
    ghost var lists := Held(cloud2device, cloud2wifi);
    var p := OpenPayload(payload, text);
    assert Held(cloud2device, cloud2wifi) == lists;
    if p.Some? {
      if ForDevice(p.value) {
        var _ := cloud2device.Push(p.value);
      } else {
        var _ := cloud2wifi.Push(p.value);
      }
    }
  }

  // What is on the wire

  /** Every byte of the payload outside the cipher text by its place, and every byte of the decrypted text. */
  lemma PayloadLayout(p: CloudPacket, md5: Hash)
    requires Publishable(p)
    ensures var s := Payload(p, md5);
            && |s| >= 40 && s[0] == p.head[0] && s[1] == p.head[1] && s[2] == p.version && s[3] == p.crypt
            && s[4..8] == p.dataLen
            && s[|s| - 16..] == Digest(md5, s[..|s| - 16] + ETHERSIGN)
            && Openable(s)
            && var text := Plain(s);
               && |text| == LowLength(p) - 24
               && text[0..2] == p.dataType && text[2..6] == p.dataID && text[6..14] == p.timeStamp
               && text[14..20] == p.deviceID && text[20..] == p.data[..LowLength(p) - 44]
  {
    hide Ecb.WellPadded, Ecb.AesDecrypted, Ecb.AesEncrypted, Ecb.Unpad, Ecb.PadLength, Digest, ETHERSIGN, OfBits,
         CloudHeader, PlainText;
    var s, plain := Payload(p, md5), PlainText(p);
    PayloadOpens(p, md5);
    Ecb.AesRoundTrip(plain);
    assert CipherText(s) == Ecb.AesEncrypted(plain);
    assert s[0..8] == CloudHeader(p);
    HeaderFields(s, p);
    assert s[0] == s[0..2][0] && s[1] == s[0..2][1];
    assert s[..|s| - 16] == Signed(p);
    PlainFields(p);
  }

  lemma PlainFields(p: CloudPacket)
    requires Publishable(p)
    ensures var text := PlainText(p);
            && text[0..2] == p.dataType && text[2..6] == p.dataID && text[6..14] == p.timeStamp
            && text[14..20] == p.deviceID && text[20..] == p.data[..LowLength(p) - 44]
  {
  }

  /** A published packet goes to the end of the device list exactly if its type is 20 00, else of the other list. */
  lemma PublishedIsRouted(p: CloudPacket, md5: Hash, lists: Lists)
    requires Publishable(p)
    ensures Openable(Payload(p, md5))
    ensures var q := p.(data := p.data[..LowLength(p) - 44], signature := Signature(p, md5));
            Arrived(Payload(p, md5), lists) ==
            if p.dataType[0] == 0x20 && p.dataType[1] == 0x00 then
              if |lists.device| < lists.deviceSlots - 1 then lists.(device := lists.device + [q]) else lists
            else
              if |lists.wifi| < lists.wifiSlots - 1 then lists.(wifi := lists.wifi + [q]) else lists
  {
    hide Payload, Openable, Opened, Signature, LowLength;
    PayloadOpens(p, md5);
  }

  /** What was published arrives: every field, the signature, and as much data as the low length byte counts. */
  lemma PayloadOpens(p: CloudPacket, md5: Hash)
    requires Publishable(p)
    ensures Openable(Payload(p, md5))
    ensures Opened(Payload(p, md5)) == Some(p.(data := p.data[..LowLength(p) - 44], signature := Signature(p, md5)))
  {
    hide Ecb.WellPadded, Ecb.AesDecrypted, Ecb.AesEncrypted, Ecb.Unpad, Ecb.PadLength, Digest, PlainText,
         CloudHeader, OfBits;
    var s, plain := Payload(p, md5), PlainText(p);
    Ecb.AesRoundTrip(plain);
    assert CipherText(s) == Ecb.AesEncrypted(plain);
    assert s[0..8] == CloudHeader(p);
    HeaderFields(s, p);
    assert Text(s)[..LowLength(p) - 24] == plain;
    TextFields(Text(s), p);
    assert s[|s| - 16..] == Signature(p, md5);
  }

  lemma HeaderFields(s: seq<bv8>, p: CloudPacket)
    requires Sized(p) && |s| >= 8 && s[0..8] == CloudHeader(p)
    ensures s[0..2] == p.head && s[2] == p.version && s[3] == p.crypt && s[4..8] == p.dataLen && s[4] == p.dataLen[0]
  {
  }

  lemma TextFields(text: seq<bv8>, p: CloudPacket)
    requires Publishable(p) && |text| == 256 && text[..LowLength(p) - 24] == PlainText(p)
    ensures text[0..2] == p.dataType && text[2..6] == p.dataID
    ensures text[6..14] == p.timeStamp && text[14..20] == p.deviceID
    ensures text[20..LowLength(p) - 24] == p.data[..LowLength(p) - 44]
  {
    var plain := PlainText(p);
    assert text[0..2] == plain[0..2] && text[2..6] == plain[2..6] && text[6..14] == plain[6..14] &&
           text[14..20] == plain[14..20];
    assert text[20..LowLength(p) - 24] == plain[20..];
  }

  // UART packets inside cloud packets

  function Bits(s: seq<byte>): (r: seq<bv8>)
    ensures |r| == |s|
  {
    seq(|s|, i requires 0 <= i < |s| => ToBits(s[i]))
  }

  function Octets(s: seq<bv8>): (r: seq<byte>)
    ensures |r| == |s|
  {
    seq(|s|, i requires 0 <= i < |s| => OfBits(s[i]))
  }

  lemma OctetsOfBits(s: seq<byte>)
    ensures Octets(Bits(s)) == s
  {
  }

  function UartLength(u: Packet): nat {
    u.dataLen0 as int + 256 * u.dataLen1 as int
  }

  /** The data is there that the length announces. */
  predicate Whole(u: Packet) {
    9 <= UartLength(u) == |u.data| + 9
  }

  function LittleEndian(n: nat): (r: seq<bv8>)
    ensures |r| == 4 && OfBits(r[0]) == n % 256
  {
    [ToBits(n % 256), ToBits(n / 256 % 256), ToBits(n / 65536 % 256), ToBits(n / 16777216 % 256)]
  }

  /**
   convertUart2WifiPacketToWifi2CloudPacket: header, data and checksum of the UART packet become data; the data id
   stays.
   */
  function ToCloud(u: Packet, c: CloudPacket, timeStamp: seq<bv8>, deviceID: seq<bv8>): CloudPacket {
    c.(head := [0x5A, 0x5A], version := 0x04, crypt := 0x11, dataLen := LittleEndian(44 + (UartLength(u) + 1)),
       dataType := [if u.dataType == 0x20 then 0x20 else 0x21, 0x00], timeStamp := timeStamp, deviceID := deviceID,
       data := Bits(Header(u) + u.data + [u.crc]))
  }

  lemma BitsOfSum(a: seq<byte>, b: seq<byte>, c: byte)
    ensures Bits(a + b + [c]) == Bits(a) + Bits(b) + [ToBits(c)]
  {
    hide ToBits;
  }

  method ConvertUart2Cloud(u: Packet, c: CloudPacket, timeStamp: seq<bv8>, deviceID: seq<bv8>) returns (c': CloudPacket)
    requires Whole(u)
    ensures c' == ToCloud(u, c, timeStamp, deviceID)
  {
    hide Header, OfBits, ToBits, Bits, Patch;
    var dataType: bv8 := if u.dataType == 0x20 then 0x20 else 0x21;
    var length := UartLength(u);
    var data := new bv8[length + 1];
    CopyIn(data, 0, Bits(Header(u)));
    CopyIn(data, 9, Bits(u.data));
    assert data[..length] == Bits(Header(u)) + Bits(u.data);
    data[length] := ToBits(u.crc);
    BitsOfSum(Header(u), u.data, u.crc);
    assert data[..] == data[..length] + [ToBits(u.crc)];
    var datalen := 44 + (length + 1);
    c' := c.(head := [0x5A, 0x5A], version := 0x04, crypt := 0x11, dataLen := LittleEndian(datalen),
             dataType := [dataType, 0x00], timeStamp := timeStamp, deviceID := deviceID, data := data[..]);
  }

  /** The data holds a UART header and as much as that announces. */
  predicate HoldsUart(data: seq<bv8>) {
    |data| >= 9 && OfBits(data[3]) as int + 256 * OfBits(data[4]) as int <= |data|
  }

  /** convertWifi2CloudPacketToUart2WifiPacket: the checksum is not copied. */
  function FromCloud(data: seq<bv8>, u: Packet): Packet
    requires HoldsUart(data)
  {
    var h := Octets(data[..9]);
    var length := h[3] as int + 256 * h[4] as int;
    u.(head := h[0], version := h[1], crypt := h[2], dataLen0 := h[3], dataLen1 := h[4], dataType := h[5],
       dataTypeCrc0 := h[6], dataTypeCrc1 := h[7], dataID := h[8],
       data := if length > 9 then Octets(data[9..length]) else [])
  }

  /** u is the packet structure that the caller allocated. */
  method ConvertCloud2Uart(data: array<bv8>, u: Packet) returns (u': Packet)
    requires HoldsUart(data[..])
    ensures u' == FromCloud(data[..], u)
  {
    hide OfBits;
    ghost var s := data[..];
    assert s[..9] == data[..9];
    var h := Octets(data[..9]);
    u' := u.(head := h[0], version := h[1], crypt := h[2], dataLen0 := h[3], dataLen1 := h[4], dataType := h[5],
             dataTypeCrc0 := h[6], dataTypeCrc1 := h[7], dataID := h[8], data := []);
    var length: int := UartLength(u');
    if length - 9 > 0 {
      assert h[3] == OfBits(s[3]) && h[4] == OfBits(s[4]);
      u' := u'.(data := Octets(data[9..length]));
      assert s[9..length] == data[9..length];
    }
  }

  lemma UartComesBack(u: Packet, u0: Packet)
    requires Whole(u)
    ensures var data := Bits(Header(u) + u.data + [u.crc]); HoldsUart(data) && FromCloud(data, u0) == u.(crc := u0.crc)
  {
    hide OfBits, ToBits;
    var bytes, data := Header(u) + u.data + [u.crc], Bits(Header(u) + u.data + [u.crc]);
    assert data[..9] == Bits(bytes[..9]) && bytes[..9] == Header(u);
    OctetsOfBits(Header(u));
    if UartLength(u) > 9 {
      assert data[9..UartLength(u)] == Bits(u.data);
      OctetsOfBits(u.data);
    }
  }

  /**
   From UART packet to UART packet, through cloud packet, cipher and signature: header and data come back for every
   whole packet of length at most 210, and for no other, because only the low length byte is used.
   */
  lemma UartRoundTrip(u: Packet, c: CloudPacket, timeStamp: seq<bv8>, deviceID: seq<bv8>, md5: Hash, u0: Packet)
    requires Whole(u) && Sized(c) && |timeStamp| == 8 && |deviceID| == 6
    ensures var p := ToCloud(u, c, timeStamp, deviceID);
            && Sized(p)
            && (Publishable(p) ==> Openable(Payload(p, md5)) && Opened(Payload(p, md5)).Some?)
            && (Publishable(p) && Opened(Payload(p, md5)).value.data == p.data <==> UartLength(u) <= 210)
            && (UartLength(u) <= 210 ==>
                  HoldsUart(Opened(Payload(p, md5)).value.data) &&
                  FromCloud(Opened(Payload(p, md5)).value.data, u0) == u.(crc := u0.crc))
  {
    hide Header, LittleEndian, HoldsUart, FromCloud, Payload, Openable, Opened, OfBits, ToBits, Bits, Signature;
    var p := ToCloud(u, c, timeStamp, deviceID);
    assert |p.data| == UartLength(u) + 1;
    if Publishable(p) {
      PayloadOpens(p, md5);
      assert p.data[..|p.data|] == p.data;
    }
    UartComesBack(u, u0);
  }

  lemma LittleEndianValue(n: nat)
    requires n < 0x1_0000_0000
    ensures var b := LittleEndian(n);
            OfBits(b[0]) + 256 * OfBits(b[1]) + 65536 * OfBits(b[2]) + 16777216 * OfBits(b[3]) == n
  {
    hide OfBits, ToBits;
    BaseDigits(n);
  }

  lemma BaseDigits(n: nat)
    ensures n % 256 + 256 * (n / 256 % 256) + 65536 * (n / 65536 % 256) + 16777216 * (n / 16777216) == n
  {
    var a := n / 256;
    var b := a / 256;
    var c := b / 256;
    assert n == 256 * a + n % 256 && a == 256 * b + a % 256 && b == 256 * c + b % 256;
    assert n / 65536 == b && n / 16777216 == c;
  }

  /** A converted UART packet: head 5A 5A, version 4, crypt 11, type 20 00 or 21 00, and its length and 45 more. */
  lemma UartAsCloud(u: Packet, c: CloudPacket, timeStamp: seq<bv8>, deviceID: seq<bv8>)
    requires Whole(u) && UartLength(u) + 45 < 0x1_0000_0000
    ensures var p := ToCloud(u, c, timeStamp, deviceID);
            && p.head == [0x5A, 0x5A] && p.version == 0x04 && p.crypt == 0x11
            && p.dataType == [if u.dataType == 0x20 then 0x20 else 0x21, 0x00]
            && |p.dataLen| == 4
            && OfBits(p.dataLen[0]) + 256 * OfBits(p.dataLen[1]) + 65536 * OfBits(p.dataLen[2]) +
               16777216 * OfBits(p.dataLen[3]) == UartLength(u) + 45
            && p.dataID == c.dataID && p.timeStamp == timeStamp && p.deviceID == deviceID
  {
    hide OfBits, LittleEndian, Bits, Header;
    LittleEndianValue(UartLength(u) + 45);
  }

  /** Converted, published and arrived, a UART packet goes to the device list exactly if its data type is 20. */
  lemma UartIsRouted(u: Packet, c: CloudPacket, timeStamp: seq<bv8>, deviceID: seq<bv8>, md5: Hash, lists: Lists)
    requires Whole(u) && Sized(c) && |timeStamp| == 8 && |deviceID| == 6
    requires Publishable(ToCloud(u, c, timeStamp, deviceID))
    requires |lists.device| < lists.deviceSlots - 1 && |lists.wifi| < lists.wifiSlots - 1
    ensures var p := ToCloud(u, c, timeStamp, deviceID);
            Openable(Payload(p, md5)) &&
            var q := p.(data := p.data[..LowLength(p) - 44], signature := Signature(p, md5));
            Arrived(Payload(p, md5), lists) ==
            if u.dataType == 0x20 then lists.(device := lists.device + [q]) else lists.(wifi := lists.wifi + [q])
    ensures UartLength(u) <= 210 ==>
              var p := ToCloud(u, c, timeStamp, deviceID); p.data[..LowLength(p) - 44] == p.data
  {
    hide Payload, Openable, Arrived, Header, Bits, Signature;
    var p := ToCloud(u, c, timeStamp, deviceID);
    assert |p.data| == UartLength(u) + 1 && LowLength(p) == (UartLength(u) + 45) % 256;
    PublishedIsRouted(p, md5, lists);
  }

  // The payload inside an MQTT PUBLISH

  lemma BitsOfOctets(s: seq<bv8>)
    ensures Bits(Octets(s)) == s
  {
    hide ToBits, OfBits;
    forall i | 0 <= i < |s|
      ensures Bits(Octets(s))[i] == s[i]
    {
      SameBits(s[i]);
    }
  }

  /** The whole way: a cloud packet sealed, published over MQTT with any topic and qos, parsed and opened again. */
  lemma PacketCrossesMqtt(p: CloudPacket, md5: Hash, dup: nat, qos: nat, retained: nat, packetId: nat,
                          topic: MqttPacket.MQTTString, rest: seq<byte>)
    requires Publishable(p) && dup < 2 && qos < 3 && retained < 2 && packetId < 65536 && MqttPacket.StringOk(topic)
    ensures var s := MqttPublish.PublishBytes(dup, qos, retained, packetId, topic, Octets(Payload(p, md5))) + rest;
            && MqttPublish.PublishReadable(s) && MqttPublish.ParsePublish(s).value.Some?
            && var payload := Bits(MqttPublish.ParsePublish(s).value.value.payload);
               Openable(payload) &&
               Opened(payload) == Some(p.(data := p.data[..LowLength(p) - 44], signature := Signature(p, md5)))
  {
    hide Openable, Opened, Bits, Octets, OfBits, Signature, PlainText, CloudHeader, MqttPublish.PublishBytes,
         MqttPublish.PublishReadable,
         MqttPublish.ParsePublish, MqttPacket.StringBytes, MqttPacket.IntBytes, MqttPacket.Text, Ecb.AesEncrypted;
    var payload := Payload(p, md5);
    assert |payload| <= 300;
    MqttPublish.PublishRoundTrip(dup, qos, retained, packetId, topic, Octets(payload), rest);
    BitsOfOctets(payload);
    PayloadOpens(p, md5);
  }

  /**
   The UART packet of the device, converted, sealed, published over MQTT with any topic and qos, parsed, opened and
   converted back: header and data return for every whole packet of length at most 210.
   */
  lemma UartCrossesMqtt(u: Packet, c: CloudPacket, timeStamp: seq<bv8>, deviceID: seq<bv8>, md5: Hash, u0: Packet,
                        dup: nat, qos: nat, retained: nat, packetId: nat, topic: MqttPacket.MQTTString, rest: seq<byte>)
    requires Whole(u) && UartLength(u) <= 210 && Sized(c) && |timeStamp| == 8 && |deviceID| == 6
    requires dup < 2 && qos < 3 && retained < 2 && packetId < 65536 && MqttPacket.StringOk(topic)
    ensures var p := ToCloud(u, c, timeStamp, deviceID);
            Publishable(p) &&
            var s := MqttPublish.PublishBytes(dup, qos, retained, packetId, topic, Octets(Payload(p, md5))) + rest;
            && MqttPublish.PublishReadable(s) && MqttPublish.ParsePublish(s).value.Some?
            && var payload := Bits(MqttPublish.ParsePublish(s).value.value.payload);
               && Openable(payload) && Opened(payload).Some? && HoldsUart(Opened(payload).value.data)
               && FromCloud(Opened(payload).value.data, u0) == u.(crc := u0.crc)
  {
    hide Whole, ToCloud, Payload, Openable, Opened, HoldsUart, FromCloud, Bits, Octets, MqttPublish.PublishBytes,
         MqttPublish.PublishReadable, MqttPublish.ParsePublish, MqttPacket.StringOk, Publishable, LowLength, Signature;
    var p := ToCloud(u, c, timeStamp, deviceID);
    UartRoundTrip(u, c, timeStamp, deviceID, md5, u0);
    PacketCrossesMqtt(p, md5, dup, qos, retained, packetId, topic, rest);
    PayloadOpens(p, md5);
  }
}
