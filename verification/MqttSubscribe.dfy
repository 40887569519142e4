/** SUBSCRIBE and SUBACK (sections 3.8 and 3.9 of MQTT 3.1.1), written and read. */
module MqttSubscribe {
  import opened Bytes
  import opened MqttPacket
  import opened MqttPublish

  // SUBSCRIBE

  function SubscribeLength(filters: seq<MQTTString>): nat {
    if filters == [] then 2 else SubscribeLength(filters[..|filters| - 1]) + 2 + Strlen(filters[|filters| - 1]) + 1
  }

  /** The filters with their requested QoS, in order. */
  function FilterBytes(filters: seq<MQTTString>, qoss: seq<byte>): seq<byte>
    requires |filters| == |qoss|
  {
    if filters == [] then [] else
      var last := |filters| - 1;
      FilterBytes(filters[..last], qoss[..last]) + (StringBytes(filters[last]) + [qoss[last]])
  }

  function SubscribeBody(packetId: nat, filters: seq<MQTTString>, qoss: seq<byte>): seq<byte>
    requires |filters| == |qoss|
  {
    IntBytes(packetId) + FilterBytes(filters, qoss)
  }

  function SubscribeBytes(dup: nat, packetId: nat, filters: seq<MQTTString>, qoss: seq<byte>): seq<byte>
    requires |filters| == |qoss|
  {
    Packet(HeaderByte(SUBSCRIBE, dup, 1, 0), SubscribeBody(packetId, filters, qoss))
  }

  /** What is written for any filters: the remaining length is the estimate. */
  function SubscribeWritten(dup: nat, packetId: nat, filters: seq<MQTTString>, qoss: seq<byte>): seq<byte>
    requires |filters| == |qoss|
  {
    [HeaderByte(SUBSCRIBE, dup, 1, 0)] + EncodeLen(SubscribeLength(filters)) + SubscribeBody(packetId, filters, qoss)
  }

  /** How many bytes of the filters the estimate does not count. */
  function Uncounted(filters: seq<MQTTString>): int {
    if filters == [] then 0
    else Uncounted(filters[..|filters| - 1]) + |Text(filters[|filters| - 1])| - Strlen(filters[|filters| - 1])
  }

  lemma {:induction false} CountedLeavesNone(filters: seq<MQTTString>)
    requires forall f | f in filters :: Counted(f)
    ensures Uncounted(filters) == 0
  {
    if filters != [] {
      CountedLeavesNone(filters[..|filters| - 1]);
      assert Counted(filters[|filters| - 1]);
    }
  }

  /** The length function counts the body up to what MQTTstrlen does not count. */
  lemma {:induction false} SubscribeLengthIsBody(packetId: nat, filters: seq<MQTTString>, qoss: seq<byte>)
    requires |filters| == |qoss|
    ensures |SubscribeBody(packetId, filters, qoss)| == SubscribeLength(filters) + Uncounted(filters)
    ensures (forall f | f in filters :: Counted(f)) ==>
              |SubscribeBody(packetId, filters, qoss)| == SubscribeLength(filters)
  {
    if filters != [] {
      SubscribeLengthIsBody(packetId, filters[..|filters| - 1], qoss[..|qoss| - 1]);
    }
    if forall f | f in filters :: Counted(f) {
      CountedLeavesNone(filters);
    }
  }

  /** With counted filters what passes the check is the packet, and it fits buflen. */
  lemma SubscribeFits(buflen: nat, dup: nat, packetId: nat, filters: seq<MQTTString>, qoss: seq<byte>)
    requires |filters| == |qoss| && (forall f | f in filters :: Counted(f))
    requires SubscribeLength(filters) <= MAX_REMAINING && PacketLen(SubscribeLength(filters)) <= buflen
    ensures var written := SubscribeWritten(dup, packetId, filters, qoss);
            written == SubscribeBytes(dup, packetId, filters, qoss) && |written| <= buflen
  {
    hide EncodeLen, IntBytes, HeaderByte, PacketLen, FilterBytes, SubscribeLength, Counted;
    SubscribeLengthIsBody(packetId, filters, qoss);
    EstimateExact(SubscribeLength(filters));
  }

  /** MQTTSerialize_subscribeLength */
  method SerializeSubscribeLength(filters: seq<MQTTString>) returns (len: nat)
    ensures len == SubscribeLength(filters)
  {
    len := 2;
    for i := 0 to |filters|
      invariant len == SubscribeLength(filters[..i])
    {
      assert filters[..i + 1][..i] == filters[..i];
      len := len + 2 + Strlen(filters[i]) + 1;
    }
    assert filters[..|filters|] == filters;
  }

  lemma FilterBytesPrefix(filters: seq<MQTTString>, qoss: seq<byte>, i: nat)
    requires |filters| == |qoss| && i < |filters|
    ensures FilterBytes(filters[..i + 1], qoss[..i + 1]) ==
            FilterBytes(filters[..i], qoss[..i]) + (StringBytes(filters[i]) + [qoss[i]])
  {
    assert filters[..i + 1][..i] == filters[..i] && qoss[..i + 1][..i] == qoss[..i];
  }

  lemma {:induction false} FilterBytesFit(filters: seq<MQTTString>, qoss: seq<byte>, i: nat)
    requires |filters| == |qoss| && i <= |filters|
    ensures |FilterBytes(filters[..i], qoss[..i])| <= |FilterBytes(filters, qoss)|
    decreases |filters| - i
  {
    if i == |filters| {
      assert filters[..i] == filters && qoss[..i] == qoss;
    } else {
      FilterBytesPrefix(filters, qoss, i);
      FilterBytesFit(filters, qoss, i + 1);
    }
  }

  /**
   MQTTSerialize_subscribe, for any filters; buf is the memory from the pointer on, which must hold what is written.
   With counted filters that is the packet, never past buflen.
   */
  method SerializeSubscribe(buf: array<byte>, buflen: nat, dup: nat, packetId: nat, filters: seq<MQTTString>,
                            qoss: seq<byte>)
    returns (rc: int)
    requires |filters| == |qoss|
    requires PacketLen(SubscribeLength(filters)) <= buflen ==>
               |SubscribeWritten(dup, packetId, filters, qoss)| <= buf.Length
    modifies buf
    ensures if PacketLen(SubscribeLength(filters)) > buflen
            then rc == MQTTPACKET_BUFFER_TOO_SHORT && buf[..] == old(buf[..])
            else var written := SubscribeWritten(dup, packetId, filters, qoss);
                 rc == |written| && Wrote(old(buf[..]), buf[..], written)
    ensures (forall f | f in filters :: Counted(f)) && SubscribeLength(filters) <= MAX_REMAINING && rc >= 0 ==>
              rc == |SubscribeBytes(dup, packetId, filters, qoss)| <= buflen &&
              Wrote(old(buf[..]), buf[..], SubscribeBytes(dup, packetId, filters, qoss))
  {
    hide EncodeLen, IntBytes, HeaderByte, Wrote, Text, FilterBytes, SubscribeLength, StringBytes, PacketLen, Counted;
    ghost var before := buf[..];
    var rem := SerializeSubscribeLength(filters);
    if PacketLen(rem) > buflen {
      return MQTTPACKET_BUFFER_TOO_SHORT;
    }
    var header := HeaderByte(SUBSCRIBE, dup, 1, 0);
    var ptr := StartPacket(buf, header, rem);
    ghost var start := [header] + EncodeLen(rem);
    ptr := WriteInt(buf, ptr, packetId, before, start);
    start := start + IntBytes(packetId);
    NoFilterBytes();
    ghost var written := start;
    for i := 0 to |filters|
      invariant ptr == |written| && written == start + FilterBytes(filters[..i], qoss[..i])
      invariant Wrote(before, buf[..], written)
    {
      FilterBytesPrefix(filters, qoss, i);
      FilterBytesFit(filters, qoss, i + 1);
      ptr := WriteMQTTString(buf, ptr, filters[i], before, written);
      ptr := WriteChar(buf, ptr, qoss[i], before, written + StringBytes(filters[i]));
      written := written + StringBytes(filters[i]) + [qoss[i]];
    }
    assert filters[..|filters|] == filters && qoss[..|qoss|] == qoss;
    assert written == SubscribeWritten(dup, packetId, filters, qoss);
    rc := ptr;
    if (forall f | f in filters :: Counted(f)) && rem <= MAX_REMAINING {
      SubscribeFits(buflen, dup, packetId, filters, qoss);
    }
  }

  lemma NoFilterBytes()
    ensures FilterBytes([], []) == []
  {
  }

  /** Filters and requested QoS read from cur to end; None when one does not fit. */
  datatype Filters = Broken | Filters(topics: seq<seq<byte>>, qoss: seq<byte>)

  function FiltersAt(s: seq<byte>, cur: nat, end: nat): (r: Filters)
    requires end <= |s|
    ensures r.Filters? ==> |r.topics| == |r.qoss|
    decreases end - cur
  {
    if cur >= end then Filters([], [])
    else match StringAt(s, cur, end)
      case None => Broken
      case Some((topic, next)) =>
        if next >= end then Broken
        else match FiltersAt(s, next + 1, end)
          case Broken => Broken
          case Filters(topics, qoss) => Filters([topic] + topics, [s[next]] + qoss)
  }

  datatype Subscribe = Subscribe(dup: nat, packetId: nat, topics: seq<seq<byte>>, qoss: seq<byte>)

  /** The passes of the loop, each of which touches the next element of topicFilters, also when it fails. */
  function Passes(s: seq<byte>, cur: nat, end: nat): nat
    requires end <= |s|
    decreases end - cur
  {
    if cur >= end then 0
    else match StringAt(s, cur, end)
      case None => 1
      case Some((_, next)) => if next >= end then 1 else 1 + Passes(s, next + 1, end)
  }

  /** A list that is read completely takes one pass for each filter. */
  lemma {:induction false} PassesCountFilters(s: seq<byte>, cur: nat, end: nat)
    requires end <= |s| && FiltersAt(s, cur, end).Filters?
    ensures Passes(s, cur, end) == |FiltersAt(s, cur, end).topics|
    decreases end - cur
  {
    hide StringAt;
    if cur < end {
      PassesCountFilters(s, StringAt(s, cur, end).value.1 + 1, end);
    }
  }

  /** The buffer holds the packet, and the two bytes that are read as packet id, which may lie after it. */
  predicate SubscribeReadable(s: seq<byte>) {
    Holds(s) && BodyStart(s) + 2 <= |s|
  }

  /** As for PUBLISH, a filter that does not fit is reported by the number of length bytes. */
  function ParseSubscribe(s: seq<byte>): Parsed<Subscribe>
    requires SubscribeReadable(s)
  {
    if TypeOf(s[0]) != SUBSCRIBE then Parsed(-1, None)
    else match FiltersAt(s, BodyStart(s) + 2, BodyEnd(s))
      case Broken => Parsed(DecodeLen(s[1..], 4).len, None)
      case Filters(topics, qoss) => Parsed(1, Some(Subscribe(DupOf(s[0]), IntAt(s, BodyStart(s)), topics, qoss)))
  }

  /** Filters read before and after. */
  function Joined(topics: seq<seq<byte>>, qoss: seq<byte>, more: Filters): Filters
    requires |topics| == |qoss|
  {
    match more
    case Broken => Broken
    case Filters(moreTopics, moreQoss) => Filters(topics + moreTopics, qoss + moreQoss)
  }

  lemma NextFilter(s: seq<byte>, cur: nat, end: nat, topics: seq<seq<byte>>, qoss: seq<byte>)
    requires cur < end <= |s| && |topics| == |qoss|
    ensures match StringAt(s, cur, end)
            case None => FiltersAt(s, cur, end) == Broken
            case Some((topic, next)) =>
              if next >= end then FiltersAt(s, cur, end) == Broken
              else Joined(topics, qoss, FiltersAt(s, cur, end)) ==
                   Joined(topics + [topic], qoss + [s[next]], FiltersAt(s, next + 1, end))
  {
  }

  lemma NoMoreFilters(s: seq<byte>, cur: nat, end: nat, topics: seq<seq<byte>>, qoss: seq<byte>)
    requires end <= |s| && end <= cur && |topics| == |qoss|
    ensures Joined(topics, qoss, FiltersAt(s, cur, end)) == Filters(topics, qoss)
  {
  }

  lemma JoinedToNothing(more: Filters)
    ensures Joined([], [], more) == more
  {
  }

  /**
   MQTTDeserialize_subscribe. The arrays are the memory behind the caller's pointers: the loop never compares its count
   with maxcount, so they must hold an element for every pass.
   */
  method DeserializeSubscribe(buf: array<byte>, topicFilters: array<seq<byte>>, requestedQoSs: array<byte>)
    returns (r: Parsed<Subscribe>)
    requires SubscribeReadable(buf[..]) && requestedQoSs != buf
    requires TypeOf(buf[0]) == SUBSCRIBE ==>
               var passes := Passes(buf[..], BodyStart(buf[..]) + 2, BodyEnd(buf[..]));
               passes <= topicFilters.Length && passes <= requestedQoSs.Length
    modifies topicFilters, requestedQoSs
    ensures r == ParseSubscribe(old(buf[..]))
    ensures r.value.Some? ==>
              var n := |r.value.value.topics|;
              && n <= topicFilters.Length && topicFilters[..n] == r.value.value.topics
              && n <= requestedQoSs.Length && requestedQoSs[..n] == r.value.value.qoss
  {
    hide DecodeLen, StringAt, FiltersAt, Joined;
    ghost var s := buf[..];
    if TypeOf(buf[0]) != SUBSCRIBE {
      return Parsed(-1, None);
    }
    assert buf[1..] == s[1..];
    var dup := DupOf(buf[0]);
    var rc, mylen := DecodeBuf(buf, 1);
    var cur := 1 + rc;
    var end := cur + mylen;
    var packetId := IntAt(buf[..], cur);
    cur := cur + 2;
    ghost var start, all, passes := cur, FiltersAt(s, cur, end), Passes(s, cur, end);
    var count: nat := 0;
    JoinedToNothing(all);
    while cur < end
      invariant start <= cur && count + Passes(s, cur, end) == passes
      invariant buf[..] == s
      invariant Joined(topicFilters[..count], requestedQoSs[..count], FiltersAt(s, cur, end)) == all
      decreases end - cur
    {
      ghost var topics, qoss := topicFilters[..count], requestedQoSs[..count];
      NextFilter(s, cur, end, topics, qoss);
      var topic := StringAt(buf[..], cur, end);
      if topic.None? {
        NothingToBroken(topics, qoss);
        return Parsed(rc, None);
      }
      topicFilters[count] := topic.value.0;
      cur := topic.value.1;
      if cur >= end {
        NothingToBroken(topics, qoss);
        return Parsed(rc, None);
      }
      requestedQoSs[count] := buf[cur];
      count := count + 1;
      cur := cur + 1;
      assert topicFilters[..count] == topics + [topic.value.0] && requestedQoSs[..count] == qoss + [s[cur - 1]];
    }
    NoMoreFilters(s, cur, end, topicFilters[..count], requestedQoSs[..count]);
    r := Parsed(1, Some(Subscribe(dup, packetId, topicFilters[..count], requestedQoSs[..count])));
  }

  lemma NothingToBroken(topics: seq<seq<byte>>, qoss: seq<byte>)
    requires |topics| == |qoss|
    ensures Joined(topics, qoss, Broken) == Broken
  {
  }

  function Texts(filters: seq<MQTTString>): seq<seq<byte>> {
    seq(|filters|, i requires 0 <= i < |filters| => Text(filters[i]))
  }

  /** The bytes of the filters from the first on. */
  lemma {:induction false} FilterBytesFirst(filters: seq<MQTTString>, qoss: seq<byte>)
    requires |filters| == |qoss| > 0
    ensures FilterBytes(filters, qoss) == StringBytes(filters[0]) + [qoss[0]] + FilterBytes(filters[1..], qoss[1..])
  {
    hide StringBytes;
    var last := |filters| - 1;
    if last == 0 {
      NoFilterBytes();
      assert filters[..0] == filters[1..] == [] && qoss[..0] == qoss[1..] == [];
    } else {
      FilterBytesFirst(filters[..last], qoss[..last]);
      assert filters[..last][1..] == filters[1..][..last - 1] && qoss[..last][1..] == qoss[1..][..last - 1];
    }
  }

  lemma {:induction false} FiltersRead(s: seq<byte>, cur: nat, end: nat, filters: seq<MQTTString>, qoss: seq<byte>)
    requires |filters| == |qoss| && (forall f | f in filters :: StringOk(f))
    requires cur <= end <= |s| && s[cur..end] == FilterBytes(filters, qoss)
    ensures FiltersAt(s, cur, end) == Filters(Texts(filters), qoss)
    decreases |filters|
  {
    hide StringAt, StringBytes, FilterBytes, Text;
    if filters == [] {
      NoFilterBytes();
    } else {
      FilterBytesFirst(filters, qoss);
      var n := |StringBytes(filters[0])|;
      var t := s[cur..end];
      assert s[cur..cur + n] == t[..n] && s[cur + n] == t[n] && s[cur + n + 1..end] == t[n + 1..];
      StringReads(s, cur, end, filters[0]);
      FiltersRead(s, cur + n + 1, end, filters[1..], qoss[1..]);
      assert Texts(filters) == [Text(filters[0])] + Texts(filters[1..]);
    }
  }

  /** For filter lists of any length. */
  lemma SubscribeRoundTrip(dup: nat, packetId: nat, filters: seq<MQTTString>, qoss: seq<byte>, rest: seq<byte>)
    requires dup < 2 && packetId < 65536 && |filters| == |qoss| && forall f | f in filters :: StringOk(f)
    requires |SubscribeBody(packetId, filters, qoss)| <= MAX_REMAINING
    ensures var s := SubscribeBytes(dup, packetId, filters, qoss) + rest;
            SubscribeReadable(s) && ParseSubscribe(s) == Parsed(1, Some(Subscribe(dup, packetId, Texts(filters), qoss)))
  {
    hide EncodeLen, DecodeLen, HeaderByte, TypeOf, DupOf, QosOf, RetainOf, FilterBytes, FiltersAt, IntBytes, Packet;
    var body := SubscribeBody(packetId, filters, qoss);
    var s := SubscribeBytes(dup, packetId, filters, qoss) + rest;
    PacketReads(HeaderByte(SUBSCRIBE, dup, 1, 0), body, rest);
    HeaderReads(SUBSCRIBE, dup, 1, 0);
    IntReads(packetId);
    var start, end := BodyStart(s), BodyEnd(s);
    assert s[start..end] == body;
    assert s[start] == body[0] == IntBytes(packetId)[0] && s[start + 1] == body[1] == IntBytes(packetId)[1];
    assert s[start + 2..end] == body[2..] == FilterBytes(filters, qoss);
    FiltersRead(s, start + 2, end, filters, qoss);
  }

  /** The arrays are overrun by exactly the packets with more filters than maxcount. */
  lemma SubscribeOverruns(dup: nat, packetId: nat, filters: seq<MQTTString>, qoss: seq<byte>, rest: seq<byte>,
                          maxcount: nat)
    requires dup < 2 && packetId < 65536 && |filters| == |qoss| && forall f | f in filters :: StringOk(f)
    requires |SubscribeBody(packetId, filters, qoss)| <= MAX_REMAINING
    ensures var s := SubscribeBytes(dup, packetId, filters, qoss) + rest;
            && SubscribeReadable(s)
            && (Passes(s, BodyStart(s) + 2, BodyEnd(s)) > maxcount <==> |filters| > maxcount)
  {
    hide DecodeLen, StringBytes, FilterBytes, IntBytes, Packet, StringOk, Passes, StringAt, TypeOf, DupOf;
    var s := SubscribeBytes(dup, packetId, filters, qoss) + rest;
    SubscribeRoundTrip(dup, packetId, filters, qoss, rest);
    PassesCountFilters(s, BodyStart(s) + 2, BodyEnd(s));
  }

  // SUBACK

  function SubackBytes(packetId: nat, granted: seq<byte>): seq<byte> {
    Packet(HeaderByte(SUBACK, 0, 0, 0), IntBytes(packetId) + granted)
  }

  /**
   MQTTSerialize_suback. Its check leaves the fixed header out, so buf, the memory from the pointer on, must hold the
   packet; it goes past buflen exactly when buflen lies between what is checked and what is written.
   */
  method SerializeSuback(buf: array<byte>, buflen: nat, packetId: nat, granted: seq<byte>) returns (rc: int)
    requires buflen >= 2 + |granted| ==> EmittedLen(2 + |granted|) <= buf.Length
    modifies buf
    ensures if buflen < 2 + |granted| then rc == MQTTPACKET_BUFFER_TOO_SHORT && buf[..] == old(buf[..])
            else rc == |SubackBytes(packetId, granted)| && Wrote(old(buf[..]), buf[..], SubackBytes(packetId, granted))
    ensures rc > buflen <==> 2 + |granted| <= buflen < EmittedLen(2 + |granted|)
  {
    hide EncodeLen, IntBytes, HeaderByte, Wrote;
    if buflen < 2 + |granted| {
      return MQTTPACKET_BUFFER_TOO_SHORT;
    }
    ghost var before := buf[..];
    var header := HeaderByte(SUBACK, 0, 0, 0);
    var ptr := StartPacket(buf, header, 2 + |granted|);
    ghost var written := [header] + EncodeLen(2 + |granted|);
    ptr := WriteInt(buf, ptr, packetId, before, written);
    written := written + IntBytes(packetId);
    assert written + granted[..0] == written;
    for i := 0 to |granted|
      invariant ptr == |written| + i && Wrote(before, buf[..], written + granted[..i])
    {
      ptr := WriteChar(buf, ptr, granted[i], before, written + granted[..i]);
      assert written + granted[..i] + [granted[i]] == written + granted[..i + 1];
    }
    assert granted[..|granted|] == granted && written + granted == SubackBytes(packetId, granted);
    rc := ptr;
  }

  datatype Suback = Suback(packetId: nat, granted: seq<byte>)

  /** A list longer than maxcount + 1 is refused; the element after the last is written before that shows. */
  function ParseSuback(s: seq<byte>, maxcount: nat): Parsed<Suback>
    requires Holds(s)
  {
    if TypeOf(s[0]) != SUBACK then Parsed(0, None)
    else if BodyEnd(s) - BodyStart(s) < 2 then Parsed(DecodeLen(s[1..], 4).len, None)
    else
      var granted := s[BodyStart(s) + 2..BodyEnd(s)];
      if |granted| > maxcount + 1 then Parsed(-1, None) else Parsed(1, Some(Suback(IntAt(s, BodyStart(s)), granted)))
  }

  /** The elements that the loop writes: one more than maxcount says, if the packet brings that many. */
  function GrantedWritten(s: seq<byte>, maxcount: nat): nat
    requires Holds(s)
  {
    if TypeOf(s[0]) != SUBACK || BodyEnd(s) - BodyStart(s) < 2 then 0
    else Min(BodyEnd(s) - BodyStart(s) - 2, maxcount + 1)
  }

  /** MQTTDeserialize_suback; grantedQoSs is the memory behind the caller's pointer. */
  method DeserializeSuback(buf: array<byte>, maxcount: nat, grantedQoSs: array<byte>) returns (r: Parsed<Suback>)
    requires Holds(buf[..]) && grantedQoSs != buf
    requires GrantedWritten(buf[..], maxcount) <= grantedQoSs.Length
    modifies grantedQoSs
    ensures r == ParseSuback(buf[..], maxcount)
    ensures var n := GrantedWritten(buf[..], maxcount);
            n > 0 ==> grantedQoSs[..n] == buf[BodyStart(buf[..]) + 2..BodyStart(buf[..]) + 2 + n]
    ensures r.value.Some? ==> var g := r.value.value.granted; |g| <= grantedQoSs.Length && grantedQoSs[..|g|] == g
  {
    hide DecodeLen;
    ghost var s := buf[..];
    if TypeOf(buf[0]) != SUBACK {
      return Parsed(0, None);
    }
    assert buf[1..] == s[1..];
    var rc, mylen := DecodeBuf(buf, 1);
    var cur := 1 + rc;
    var end := cur + mylen;
    if end - cur < 2 {
      return Parsed(rc, None);
    }
    var packetId := IntAt(buf[..], cur);
    cur := cur + 2;
    ghost var from := cur;
    var count: nat := 0;
    while cur < end
      invariant from <= cur <= end && count == cur - from && count <= maxcount + 1
      invariant count <= grantedQoSs.Length && grantedQoSs[..count] == s[from..cur]
    {
      if count > maxcount {
        return Parsed(-1, None);
      }
      grantedQoSs[count] := buf[cur];
      count := count + 1;
      cur := cur + 1;
    }
    r := Parsed(1, Some(Suback(packetId, grantedQoSs[..count])));
  }

  /** The list comes back exactly when it is no longer than maxcount + 1. */
  lemma SubackRoundTrip(packetId: nat, granted: seq<byte>, maxcount: nat, rest: seq<byte>)
    requires packetId < 65536 && |granted| + 2 <= MAX_REMAINING
    ensures var s := SubackBytes(packetId, granted) + rest;
            && Holds(s)
            && (ParseSuback(s, maxcount) == Parsed(1, Some(Suback(packetId, granted))) <==> |granted| <= maxcount + 1)
  {
    hide EncodeLen, DecodeLen, HeaderByte, TypeOf, DupOf, QosOf, RetainOf, IntBytes, Packet;
    var body := IntBytes(packetId) + granted;
    var s := SubackBytes(packetId, granted) + rest;
    PacketReads(HeaderByte(SUBACK, 0, 0, 0), body, rest);
    HeaderReads(SUBACK, 0, 0, 0);
    IntReads(packetId);
    var start, end := BodyStart(s), BodyEnd(s);
    assert s[start..end] == body;
    assert s[start] == body[0] == IntBytes(packetId)[0] && s[start + 1] == body[1] == IntBytes(packetId)[1];
    assert s[start + 2..end] == body[2..] == granted;
  }

  /** The caller's array of maxcount elements is overrun exactly by longer lists, refused or not. */
  lemma GrantedOverruns(s: seq<byte>, maxcount: nat)
    requires Holds(s) && TypeOf(s[0]) == SUBACK && BodyEnd(s) - BodyStart(s) >= 2
    ensures GrantedWritten(s, maxcount) > maxcount <==> BodyEnd(s) - BodyStart(s) - 2 > maxcount
  {
  }
}
