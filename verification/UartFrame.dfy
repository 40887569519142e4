/**
 Frames on the UART line: the checksum and the writer of ej_packet.c and ej_user_uart.c, and the
 resumable receive machine that turns whatever the line delivers back into packets.
 */
module UartFrame {
  import opened Bytes

  const FRAME_HEAD: byte := 0xAA
  const FIXED_LENGTH := 9
  const RECEIVE_BUFFER := 100

  const ACK_BITS: bv8 := 0x02
  const QOS_BITS: bv8 := 0x04
  const DATA_WITH_XOR_CRYPT: bv8 := 0x10

  /** uart2WifiPacket; a NULL data pointer is empty data. */
  datatype Packet = Packet(head: byte, version: byte, crypt: byte, dataLen0: byte, dataLen1: byte, dataType: byte,
                           dataTypeCrc0: byte, dataTypeCrc1: byte, dataID: byte, data: seq<byte>, crc: byte)

  // The checksum

  /** The two's complement of the sum. */
  function Crc(data: seq<byte>): byte {
    (256 - Sum(data) % 256) % 256
  }

  /** The checksum is the one byte that brings the sum to zero. */
  lemma CrcCancelsSum(data: seq<byte>, c: byte)
    ensures (Sum(data) + c) % 256 == 0 <==> c == Crc(data)
  {
    ComplementCancels(Sum(data), c);
  }

  method MakeCrc(data: array<byte>, offset: nat, length: byte) returns (crc: byte)
    requires offset + length <= data.Length
    ensures crc == Crc(data[offset..offset + length])
  {
    var crc32: nat := 0;
    for i := 0 to length
      invariant crc32 == Sum(data[offset..offset + i])
    {
      assert data[offset..offset + i + 1][..i] == data[offset..offset + i];
      crc32 := crc32 + data[offset + i];
    }
    var low: byte := crc32 % 256;
    var complement: byte := 255 - low;
    crc := (complement + 1) % 256;
  }

  // The writer

  /** What the writer is given: data of the length that the low length byte announces. */
  predicate Writable(p: Packet) {
    p.dataLen0 >= FIXED_LENGTH && |p.data| == p.dataLen0 - FIXED_LENGTH
  }

  function Header(p: Packet): (r: seq<byte>)
    ensures |r| == FIXED_LENGTH
  {
    [p.head, p.version, p.crypt, p.dataLen0, p.dataLen1, p.dataType, p.dataTypeCrc0, p.dataTypeCrc1, p.dataID]
  }

  /** The bytes after the head that the checksum covers. */
  function Covered(p: Packet): seq<byte> {
    Header(p)[1..] + p.data
  }

  function Frame(p: Packet): seq<byte> {
    [p.head] + Covered(p) + [Crc(Covered(p))]
  }

  /** The packet as sent: a device that wants QoS everywhere gets the flag set in the packet itself. */
  function Published(p: Packet, deviceQos: byte): Packet {
    if deviceQos == 1 then p.(crypt := SetBit(p.crypt, QOS_BITS)) else p
  }

  /** EJ_PublishUart2WifiPacket; the buffer is what is handed to the line. */
  method Publish(p: Packet, deviceQos: byte) returns (p': Packet, buf: array<byte>)
    requires Writable(p)
    ensures p' == Published(p, deviceQos)
    ensures fresh(buf) && buf[..] == Frame(p')
  {
    hide Crc, Header, Frame, Covered;
    p' := p;
    if deviceQos == 1 {
      p' := p'.(crypt := SetBit(p'.crypt, QOS_BITS));
    }
    buf := new byte[p'.dataLen0 + 1];
    CopyIn(buf, 0, Header(p'));
    CopyIn(buf, FIXED_LENGTH, p'.data);
    CoveredIn(p', buf[..]);
    assert buf[..][1..p'.dataLen0] == buf[1..p'.dataLen0];
    var crc := MakeCrc(buf, 1, p'.dataLen0 - 1);
    buf[p'.dataLen0] := crc;
    CoveredIn(p', buf[..]);
  }

  lemma CoveredIn(p: Packet, bytes: seq<byte>)
    requires Writable(p) && |bytes| == p.dataLen0 + 1
    requires bytes[0..FIXED_LENGTH] == Header(p) && bytes[FIXED_LENGTH..p.dataLen0] == p.data
    ensures bytes[1..p.dataLen0] == Covered(p)
    ensures bytes[p.dataLen0] == Crc(Covered(p)) ==> bytes == Frame(p)
  {
  }

  // Acknowledgements

  /** MakeUart2WifiResponsePacket */
  function Response(p: Packet): Packet {
    p.(dataLen0 := 9, dataLen1 := 0, crypt := OfBits(ACK_BITS | DATA_WITH_XOR_CRYPT), data := [],
       dataTypeCrc0 := XorNine(p.dataType), dataTypeCrc1 := p.dataType)
  }

  /** b ^ 9: the low byte of (b << 8 | b) ^ 9. */
  function XorNine(b: byte): byte {
    OfBits(ToBits(b) ^ 9)
  }

  /** AckPacketCompare */
  predicate Acknowledges(ack: Packet, p: Packet) {
    p.dataType == ack.dataType && p.dataID == ack.dataID
  }

  lemma TypeChecksum(dataType: bv8)
    ensures var crc: bv16 := (((dataType as bv16) << 8) | (dataType as bv16)) ^ 9;
            (crc & 0xff) as bv8 == dataType ^ 9 && ((crc & 0xff00) >> 8) as bv8 == dataType
  {
  }

  /**
   An acknowledgement has the ACK bit and not the QoS bit, no data, the type and id of the packet, and the type checksum
   of its type and length: the type in both bytes, exclusive-or 9.
   */
  lemma ResponseBits(p: Packet)
    ensures var r := Response(p);
            && ToBits(r.crypt) & 0x02 != 0 && ToBits(r.crypt) & 0x04 == 0 && ToBits(r.crypt) & 0x10 != 0
            && r.head == p.head && r.version == p.version && r.dataType == p.dataType && r.dataID == p.dataID
            && r.dataLen0 == 9 && r.dataLen1 == 0 && r.data == []
            && r.dataTypeCrc1 == p.dataType && ToBits(r.dataTypeCrc0) == ToBits(p.dataType) ^ 9
  {
    hide ToBits, OfBits;
    SameBits(ACK_BITS | DATA_WITH_XOR_CRYPT);
    SameBits(ToBits(p.dataType) ^ 9);
  }

  /** Where the receive thread puts a packet. */
  datatype Destination = AckList | Device2CloudQueue | FirmwareOtaAckList | Device2WifiList

  /** The list a packet is put on, and the acknowledgement that is queued for it. */
  function Dispatch(p: Packet, hasDeviceId: bool): (Destination, Option<Packet>) {
    if HasBit(p.crypt, ACK_BITS) then (AckList, None)
    else
      (if (hasDeviceId && p.dataType in {0x20, 0x21}) || p.dataType == 0x15 then Device2CloudQueue
       else if p.dataType == 0x63 then FirmwareOtaAckList
       else Device2WifiList,
       if HasBit(p.crypt, QOS_BITS) then Some(Response(p)) else None)
  }

  // The receive machine

  datatype Rx =
    | AwaitHead
    | AwaitLength(lengthBytes: seq<byte>)
    | AwaitContent(header: seq<byte>, content: seq<byte>)

  /** dataLen of the four bytes after the head. */
  function DataLen(lengthBytes: seq<byte>): nat
    requires |lengthBytes| == 4
  {
    lengthBytes[2] as int + 256 * lengthBytes[3] as int
  }

  /** The lengths that the receive buffer is made for. */
  predicate LegalLength(dataLen: nat) {
    FIXED_LENGTH <= dataLen <= RECEIVE_BUFFER
  }

  /** Consistent states: what has been read so far, of the lengths asked for. */
  predicate RxOk(rx: Rx) {
    match rx
    case AwaitHead => true
    case AwaitLength(bytes) => |bytes| < 4
    case AwaitContent(header, content) =>
      |header| == 4 && LegalLength(DataLen(header)) && |content| < DataLen(header) - 4
  }

  type Crypt = seq<byte> -> seq<byte>

  /** The packet made of a complete message, if its checksum is right. */
  function Parse(message: seq<byte>, xor: Crypt): Option<Packet>
    requires |message| >= FIXED_LENGTH
  {
    var last := |message| - 1;
    if Crc(message[..last]) != message[last] then None
    else
      var data := message[8..last];
      var crypt := message[1];
      Some(Packet(FRAME_HEAD, message[0], crypt, message[2], message[3], message[4], message[5], message[6], message[7],
                  if data != [] && HasBit(crypt, DATA_WITH_XOR_CRYPT) then xor(data) else data, message[last]))
  }

  /** One byte from the line. A length byte must complete a legal length. */
  function Feed(rx: Rx, b: byte, xor: Crypt): (Rx, Option<Packet>)
    requires RxOk(rx)
  {
    match rx
    case AwaitHead => (if b == FRAME_HEAD then AwaitLength([]) else AwaitHead, None)
    case AwaitLength(bytes) =>
      if |bytes| == 3 then (AwaitContent(bytes + [b], []), None) else (AwaitLength(bytes + [b]), None)
    case AwaitContent(header, content) =>
      if |content| + 1 == DataLen(header) - 4 then (AwaitHead, Parse(header + content + [b], xor))
      else (AwaitContent(header, content + [b]), None)
  }

  datatype Fed = Fed(rx: Rx, packets: seq<Packet>) | BadLength

  /** All bytes, one at a time, with the packets they complete. */
  function FeedAll(rx: Rx, bytes: seq<byte>, xor: Crypt): Fed
    requires RxOk(rx)
  {
    if bytes == [] then Fed(rx, [])
    else match FeedAll(rx, bytes[..|bytes| - 1], xor)
      case BadLength => BadLength
      case Fed(rx1, packets) =>
        if !RxOk(rx1) then BadLength else
        var (rx2, p) := Feed(rx1, bytes[|bytes| - 1], xor);
        if RxOk(rx2) then Fed(rx2, if p.Some? then packets + [p.value] else packets) else BadLength
  }

  /** The receive thread's variables; the head byte is FRAME_HEAD whenever a frame is under way. */
  datatype Status = MsgHead | MsgLength | MsgContent

  class Receiver {
    var receiveStatus: Status
    var len: nat
    var dataLen: nat
    var messageContentLength: byte
    const receiveData: array<byte>

    constructor ()
      ensures Valid() && fresh(receiveData) && Abs() == AwaitHead
    {
      receiveStatus, len, dataLen, messageContentLength := MsgHead, 0, 0, 0;
      receiveData := new byte[RECEIVE_BUFFER];
    }

    ghost predicate Valid()
      reads this, receiveData
    {
      && receiveData.Length == RECEIVE_BUFFER
      && (receiveStatus == MsgLength ==> len < 4)
      && (receiveStatus == MsgContent ==>
            && LegalLength(dataLen) && dataLen == DataLen(receiveData[..4])
            && messageContentLength == dataLen - 4 && len < messageContentLength)
    }

    ghost function Abs(): (rx: Rx)
      requires Valid()
      reads this, receiveData
      ensures RxOk(rx)
    {
      match receiveStatus
      case MsgHead => AwaitHead
      case MsgLength => AwaitLength(receiveData[..len])
      case MsgContent => AwaitContent(receiveData[..4], receiveData[4..4 + len])
    }

    /** How many bytes the next read asks the line for. */
    function Requested(): nat
      requires Valid()
      reads this, receiveData
    {
      match receiveStatus
      case MsgHead => 1
      case MsgLength => 4 - len
      case MsgContent => messageContentLength - len
    }

    /**
     One turn of the loop of EJ_UartReceiveThread, in which the line answers with any number of bytes
     up to the number asked for: the same as feeding those bytes one at a time.
     */
    method Poll(chunk: seq<byte>, xor: Crypt) returns (p: Option<Packet>)
      requires Valid() && |chunk| <= Requested() && FeedAll(Abs(), chunk, xor).Fed?
      modifies this, receiveData
      ensures Valid()
      ensures FeedAll(old(Abs()), chunk, xor) == Fed(Abs(), if p.Some? then [p.value] else [])
    {
      p := None;
      match receiveStatus
      case MsgHead => PollHead(chunk, xor);
      case MsgLength => PollLength(chunk, xor);
      case MsgContent => p := PollContent(chunk, xor);
    }

    method PollHead(chunk: seq<byte>, ghost xor: Crypt)
      requires Valid() && receiveStatus == MsgHead && |chunk| <= Requested()
      modifies this
      ensures Valid() && FeedAll(old(Abs()), chunk, xor) == Fed(Abs(), [])
    {
      hide FeedAll;
      FeedShort(Abs(), chunk, xor);
      if |chunk| == 1 && chunk[0] == FRAME_HEAD {
        receiveStatus := MsgLength;
        len := 0;
      }
    }

    method PollLength(chunk: seq<byte>, ghost xor: Crypt)
      requires Valid() && receiveStatus == MsgLength && |chunk| <= Requested() && FeedAll(Abs(), chunk, xor).Fed?
      modifies this, receiveData
      ensures Valid() && FeedAll(old(Abs()), chunk, xor) == Fed(Abs(), [])
    {
      hide FeedAll;
      ghost var got := receiveData[..len];
      LengthFeed(got, chunk, xor);
      CopyIn(receiveData, len, chunk);
      len := len + |chunk|;
      assert receiveData[..len] == got + chunk;
      if len == 4 {
        dataLen := DataLen(receiveData[..4]);
        messageContentLength := (5 + (dataLen - 9)) % 256;
        len := 0;
        receiveStatus := MsgContent;
      }
    }

    method PollContent(chunk: seq<byte>, xor: Crypt) returns (p: Option<Packet>)
      requires Valid() && receiveStatus == MsgContent && |chunk| <= Requested()
      modifies this, receiveData
      ensures Valid() && FeedAll(old(Abs()), chunk, xor) == Fed(Abs(), if p.Some? then [p.value] else [])
    {
      hide FeedAll, Parse;
      p := None;
      ghost var header, got := receiveData[..4], receiveData[4..4 + len];
      ContentFeed(header, got, chunk, xor);
      CopyIn(receiveData, 4 + len, chunk);
      len := len + |chunk|;
      assert receiveData[..4] == header && receiveData[4..4 + len] == got + chunk;
      if len == messageContentLength {
        assert receiveData[..dataLen] == header + (got + chunk);
        p := Complete(xor);
        receiveStatus := MsgHead;
        len := 0;
      }
    }

    /** What the loop does with a complete message. */
    method Complete(xor: Crypt) returns (p: Option<Packet>)
      requires receiveData.Length == RECEIVE_BUFFER && LegalLength(dataLen)
      ensures p == Parse(receiveData[..dataLen], xor)
    {
      var crc := MakeCrc(receiveData, 0, dataLen - 1);
      assert receiveData[..dataLen][..dataLen - 1] == receiveData[0..dataLen - 1];
      p := None;
      if crc == receiveData[dataLen - 1] {
        var data := receiveData[8..dataLen - 1];
        assert receiveData[..dataLen][8..dataLen - 1] == data;
        var crypt := receiveData[1];
        if dataLen > 9 && HasBit(crypt, DATA_WITH_XOR_CRYPT) {
          data := xor(data);
        }
        p := Some(Packet(FRAME_HEAD, receiveData[0], crypt, receiveData[2], receiveData[3], receiveData[4],
                         receiveData[5], receiveData[6], receiveData[7], data, crc));
      }
    }
  }

  // Feeding several bytes

  lemma FeedShort(rx: Rx, bytes: seq<byte>, xor: Crypt)
    requires RxOk(rx) && |bytes| <= 1
    ensures FeedAll(rx, bytes, xor) ==
            if bytes == [] then Fed(rx, [])
            else var (rx', p) := Feed(rx, bytes[0], xor);
                 if RxOk(rx') then Fed(rx', if p.Some? then [p.value] else []) else BadLength
  {
  }

  lemma {:induction false} LengthFeed(got: seq<byte>, bytes: seq<byte>, xor: Crypt)
    requires |got| < 4 && |got| + |bytes| <= 4
    ensures FeedAll(AwaitLength(got), bytes, xor) ==
            if |got| + |bytes| < 4 then Fed(AwaitLength(got + bytes), [])
            else if LegalLength(DataLen(got + bytes)) then Fed(AwaitContent(got + bytes, []), []) else BadLength
  {
    if bytes == [] {
      assert got + bytes == got;
    } else {
      var front := bytes[..|bytes| - 1];
      LengthFeed(got, front, xor);
      assert got + bytes == got + front + [bytes[|bytes| - 1]];
    }
  }

  lemma {:induction false} ContentFeed(header: seq<byte>, got: seq<byte>, bytes: seq<byte>, xor: Crypt)
    requires RxOk(AwaitContent(header, got)) && |got| + |bytes| <= DataLen(header) - 4
    ensures FeedAll(AwaitContent(header, got), bytes, xor) ==
            if |got| + |bytes| < DataLen(header) - 4 then Fed(AwaitContent(header, got + bytes), [])
            else var p := Parse(header + (got + bytes), xor); Fed(AwaitHead, if p.Some? then [p.value] else [])
  {
    if bytes == [] {
      assert got + bytes == got;
    } else {
      var front := bytes[..|bytes| - 1];
      ContentFeed(header, got, front, xor);
      assert got + bytes == got + front + [bytes[|bytes| - 1]];
      assert header + (got + front) + [bytes[|bytes| - 1]] == header + (got + bytes);
    }
  }

  /** Feeding is compositional, so only the bytes matter, not how the line cuts them into reads. */
  lemma {:induction false} FeedAllAppend(rx: Rx, a: seq<byte>, b: seq<byte>, xor: Crypt)
    requires RxOk(rx) && FeedAll(rx, a, xor).Fed? && RxOk(FeedAll(rx, a, xor).rx)
    ensures FeedAll(rx, a + b, xor) ==
            match FeedAll(FeedAll(rx, a, xor).rx, b, xor)
            case BadLength => BadLength
            case Fed(rx', packets) => Fed(rx', FeedAll(rx, a, xor).packets + packets)
  {
    hide Feed, RxOk;
    if b == [] {
      assert a + b == a;
    } else {
      var front := b[..|b| - 1];
      FeedAllAppend(rx, a, front, xor);
      assert (a + b)[..|a + b| - 1] == a + front;
    }
  }

  /** The reads one after the other, each fed whole. */
  function FeedChunks(rx: Rx, chunks: seq<seq<byte>>, xor: Crypt): Fed
    requires RxOk(rx)
  {
    if chunks == [] then Fed(rx, [])
    else match FeedChunks(rx, chunks[..|chunks| - 1], xor)
      case BadLength => BadLength
      case Fed(rx1, packets) =>
        if !RxOk(rx1) then BadLength
        else match FeedAll(rx1, chunks[|chunks| - 1], xor)
          case BadLength => BadLength
          case Fed(rx2, more) => Fed(rx2, packets + more)
  }

  function Flatten(chunks: seq<seq<byte>>): seq<byte> {
    if chunks == [] then [] else Flatten(chunks[..|chunks| - 1]) + chunks[|chunks| - 1]
  }

  /** Any cutting of a stream into reads gives what the stream gives, if the stream's lengths are legal. */
  lemma {:induction false} ChunkingIsIrrelevant(rx: Rx, chunks: seq<seq<byte>>, xor: Crypt)
    requires RxOk(rx) && FeedAll(rx, Flatten(chunks), xor).Fed?
    ensures FeedChunks(rx, chunks, xor) == FeedAll(rx, Flatten(chunks), xor)
  {
    hide FeedAll;
    if chunks == [] {
      FeedNothing(rx, xor);
    } else {
      var front := chunks[..|chunks| - 1];
      PrefixFed(rx, Flatten(front), chunks[|chunks| - 1], xor);
      ChunkingIsIrrelevant(rx, front, xor);
      FeedAllAppend(rx, Flatten(front), chunks[|chunks| - 1], xor);
    }
  }

  lemma FeedNothing(rx: Rx, xor: Crypt)
    requires RxOk(rx)
    ensures FeedAll(rx, [], xor) == Fed(rx, [])
  {
  }

  lemma {:induction false} PrefixFed(rx: Rx, a: seq<byte>, b: seq<byte>, xor: Crypt)
    requires RxOk(rx) && FeedAll(rx, a + b, xor).Fed?
    ensures FeedAll(rx, a, xor).Fed? && RxOk(FeedAll(rx, a, xor).rx)
  {
    if b == [] {
      assert a + b == a;
      FedIsOk(rx, a, xor);
    } else {
      assert (a + b)[..|a + b| - 1] == a + b[..|b| - 1];
      PrefixFed(rx, a, b[..|b| - 1], xor);
    }
  }

  lemma FedIsOk(rx: Rx, a: seq<byte>, xor: Crypt)
    requires RxOk(rx) && FeedAll(rx, a, xor).Fed?
    ensures RxOk(FeedAll(rx, a, xor).rx)
  {
  }

  // Frames in, packets out

  /** What the receiver can take: the head byte, and a length that fits its buffer. */
  predicate Sendable(p: Packet) {
    p.head == FRAME_HEAD && p.dataLen1 == 0 && LegalLength(p.dataLen0) && Writable(p)
  }

  /** The packet as the receiver delivers it: data through xor if so flagged, and the checksum filled in. */
  function Received(p: Packet, xor: Crypt): Packet {
    p.(data := if p.data != [] && HasBit(p.crypt, DATA_WITH_XOR_CRYPT) then xor(p.data) else p.data,
       crc := Crc(Covered(p)))
  }

  lemma FeedMessage(message: seq<byte>, xor: Crypt)
    requires |message| >= 4 && |message| == DataLen(message[..4]) && LegalLength(|message|)
    ensures FeedAll(AwaitHead, [FRAME_HEAD] + message, xor) ==
            var p := Parse(message, xor); Fed(AwaitHead, if p.Some? then [p.value] else [])
  {
    hide FeedAll, Parse;
    var header, content := message[..4], message[4..];
    FeedShort(AwaitHead, [FRAME_HEAD], xor);
    LengthFeed([], header, xor);
    ContentFeed(header, [], content, xor);
    assert [] + header == header && [] + content == content;
    FeedAllAppend(AwaitHead, [FRAME_HEAD], header, xor);
    FeedAllAppend(AwaitHead, [FRAME_HEAD] + header, content, xor);
    assert [FRAME_HEAD] + header + content == [FRAME_HEAD] + message;
    assert header + content == message;
  }

  lemma ParseOfFrame(p: Packet, xor: Crypt)
    requires Sendable(p)
    ensures var message := Covered(p) + [Crc(Covered(p))];
            && |message| == p.dataLen0 && DataLen(message[..4]) == p.dataLen0
            && Parse(message, xor) == Some(Received(p, xor))
  {
  }

  lemma FrameYieldsPacket(p: Packet, xor: Crypt)
    requires Sendable(p)
    ensures FeedAll(AwaitHead, Frame(p), xor) == Fed(AwaitHead, [Received(p, xor)])
  {
    hide Parse, Received, Crc;
    ParseOfFrame(p, xor);
    FeedMessage(Covered(p) + [Crc(Covered(p))], xor);
    assert Frame(p) == [FRAME_HEAD] + (Covered(p) + [Crc(Covered(p))]);
  }

  lemma {:induction false} NoiseIsSkipped(noise: seq<byte>, xor: Crypt)
    requires FRAME_HEAD !in noise
    ensures FeedAll(AwaitHead, noise, xor) == Fed(AwaitHead, [])
  {
    if noise != [] {
      NoiseIsSkipped(noise[..|noise| - 1], xor);
    }
  }

  /** Frames, each after some bytes that are not a head. */
  datatype Item = Item(noise: seq<byte>, packet: Packet)

  predicate ItemOk(item: Item) {
    FRAME_HEAD !in item.noise && Sendable(item.packet)
  }

  function Line(items: seq<Item>): seq<byte> {
    if items == [] then []
    else var last := items[|items| - 1]; Line(items[..|items| - 1]) + last.noise + Frame(last.packet)
  }

  function Delivered(items: seq<Item>, xor: Crypt): seq<Packet> {
    seq(|items|, i requires 0 <= i < |items| => Received(items[i].packet, xor))
  }

  lemma {:induction false} LineYieldsPackets(items: seq<Item>, xor: Crypt)
    requires forall item | item in items :: ItemOk(item)
    ensures FeedAll(AwaitHead, Line(items), xor) == Fed(AwaitHead, Delivered(items, xor))
  {
    hide FeedAll, Frame, Received, Sendable;
    if items == [] {
      FeedNothing(AwaitHead, xor);
    } else {
      var front, last := items[..|items| - 1], items[|items| - 1];
      assert ItemOk(last);
      LineYieldsPackets(front, xor);
      NoiseIsSkipped(last.noise, xor);
      FrameYieldsPacket(last.packet, xor);
      FeedAllAppend(AwaitHead, Line(front), last.noise, xor);
      FeedAllAppend(AwaitHead, Line(front) + last.noise, Frame(last.packet), xor);
      assert Delivered(items, xor) == Delivered(front, xor) + [] + [Received(last.packet, xor)];
    }
  }

  /**
   The receiver inverts the writer under any chunking: frames separated by bytes other than the head, however the
   line cuts them into reads, come out as exactly those packets in order.
   */
  lemma ReceiverInvertsWriter(items: seq<Item>, trailing: seq<byte>, chunks: seq<seq<byte>>, xor: Crypt)
    requires forall item | item in items :: ItemOk(item)
    requires FRAME_HEAD !in trailing
    requires Flatten(chunks) == Line(items) + trailing
    ensures FeedChunks(AwaitHead, chunks, xor) == Fed(AwaitHead, Delivered(items, xor))
  {
    hide FeedAll, FeedChunks, ItemOk;
    LineYieldsPackets(items, xor);
    NoiseIsSkipped(trailing, xor);
    FeedAllAppend(AwaitHead, Line(items), trailing, xor);
    assert Delivered(items, xor) + [] == Delivered(items, xor);
    ChunkingIsIrrelevant(AwaitHead, chunks, xor);
  }

  lemma CrcSeesOneByte(data: seq<byte>, i: nat, b: byte)
    requires i < |data| && b != data[i]
    ensures Crc(data[i := b]) != Crc(data)
  {
    SumOfUpdate(data, i, b);
    ComplementsDiffer(Sum(data), Sum(data[i := b]));
  }

  /** One wrong byte outside the head and the length, and the frame is dropped; the machine awaits the next head. */
  lemma CorruptFrameIsDropped(p: Packet, i: nat, b: byte, xor: Crypt)
    requires Sendable(p)
    requires 1 <= i <= p.dataLen0 && i != 3 && i != 4 && b != Frame(p)[i]
    ensures FeedAll(AwaitHead, Frame(p)[i := b], xor) == Fed(AwaitHead, [])
  {
    hide FeedAll, Crc;
    var covered := Covered(p);
    var message := (covered + [Crc(covered)])[i - 1 := b];
    var last := |message| - 1;
    assert Frame(p)[i := b] == [FRAME_HEAD] + message;
    assert message[..4][2] == p.dataLen0 && message[..4][3] == 0;
    FeedMessage(message, xor);
    if i - 1 == last {
      assert message[..last] == covered;
    } else {
      assert message[..last] == covered[i - 1 := b];
      CrcSeesOneByte(covered, i - 1, b);
    }
  }

  // The bytes of a frame

  /** Every field of a packet at its place in the frame, and bytes that add up to zero after the head. */
  lemma FrameLayout(p: Packet)
    requires Writable(p)
    ensures var f := Frame(p);
            var n := p.dataLen0;
            && |f| == n + 1
            && f[..9] == [p.head, p.version, p.crypt, n, p.dataLen1, p.dataType, p.dataTypeCrc0, p.dataTypeCrc1,
                          p.dataID]
            && f[9..n] == p.data && Sum(f[1..]) % 256 == 0
  {
    hide Crc;
    var f := Frame(p);
    CrcCancelsSum(Covered(p), Crc(Covered(p)));
    assert f[1..] == Covered(p) + [Crc(Covered(p))];
    assert f[1..][..|f| - 2] == Covered(p);
  }

  /**
   The other way round: the bytes of a legal length after a head make the packet with these bytes in its fields if and
   only if they add up to zero; the data is put through xor if bit 4 of crypt is set.
   */
  lemma FrameIsTaken(f: seq<byte>, xor: Crypt)
    requires 10 <= |f| <= 101 && f[0] == 0xAA && f[3] as int + 256 * f[4] as int == |f| - 1
    ensures var n := |f| - 1;
            FeedAll(AwaitHead, f, xor) == Fed(AwaitHead,
              if Sum(f[1..]) % 256 != 0 then []
              else [Packet(0xAA, f[1], f[2], f[3], f[4], f[5], f[6], f[7], f[8],
                           if n > 9 && ToBits(f[2]) & 0x10 != 0 then xor(f[9..n]) else f[9..n], f[n])])
  {
    hide FeedAll, Crc, Sum, ToBits;
    var message := f[1..];
    var last := |message| - 1;
    assert [FRAME_HEAD] + message == f;
    assert message[..4] == [f[1], f[2], f[3], f[4]];
    FeedMessage(message, xor);
    SumLast(message);
    CrcCancelsSum(message[..last], message[last]);
    assert message[8..last] == f[9..|f| - 1];
  }

  lemma SumLast(s: seq<byte>)
    requires s != []
    ensures Sum(s) == Sum(s[..|s| - 1]) + s[|s| - 1]
  {
  }

  /** A packet that asks for an acknowledgement gets one, a packet without the bit none, and an acknowledgement none. */
  lemma AnsweredByTheBits(p: Packet, hasDeviceId: bool)
    ensures Dispatch(p, hasDeviceId).1.Some? <==> ToBits(p.crypt) & 0x04 != 0 && ToBits(p.crypt) & 0x02 == 0
    ensures Dispatch(p, hasDeviceId).0 == AckList <==> ToBits(p.crypt) & 0x02 != 0
  {
    hide ToBits;
  }

  /**
   An acknowledgement on the line is taken as one by the receiver at the other end: for the packet with that type and
   id, and without an answer of its own.
   */
  lemma AcknowledgementArrives(p: Packet, xor: Crypt, hasDeviceId: bool)
    requires p.head == 0xAA
    ensures var fed := FeedAll(AwaitHead, Frame(Response(p)), xor);
            && fed.Fed? && |fed.packets| == 1
            && Dispatch(fed.packets[0], hasDeviceId) == (AckList, None)
            && fed.packets[0].dataType == p.dataType && fed.packets[0].dataID == p.dataID
  {
    hide ToBits, Response, FeedAll, Frame;
    ResponseBits(p);
    FrameYieldsPacket(Response(p), xor);
  }
}
