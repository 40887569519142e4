/**
 The wifi2device channel of EJ_UartSendThread: one slot, a timer, and acknowledgements matched by
 data type and data id. First the turn of the loop, then every run of the channel against a lossy
 line and a peer that answers each QoS frame as MakeUart2WifiResponsePacket does.
 */
module StopAndWait {
  import opened Bytes
  import opened UartFrame

  /** The static variables of the channel: pWifi2UartPacket and its state machine. */
  datatype Sender = Sender(slot: Option<Packet>, waitForAck: bool)

  /** What a turn does besides changing the sender. */
  datatype Turn = Turn(sender: Sender, popped: bool, published: Option<Packet>)

  predicate WantsAck(p: Packet, deviceQos: byte) {
    (HasBit(p.crypt, QOS_BITS) && deviceQos != 0) || deviceQos == 1
  }

  /**
   One turn of the loop. ack is the acknowledgement popped at the top of the loop, waiting the head of
   wifi2deviceList. The flag set before a resend, 1 << DUP_BITS, is lost in a byte, so a resend is the same packet.
   */
  function SenderTurn(s: Sender, ack: Option<Packet>, waiting: Option<Packet>, timerRunning: bool,
                      deviceQos: byte): Turn {
    if !s.waitForAck then
      var popped := s.slot.None? && waiting.Some?;
      var slot := if s.slot.None? then waiting else s.slot;
      if slot.None? then Turn(Sender(None, false), false, None)
      else
        var p := Published(slot.value, deviceQos);
        Turn(if WantsAck(p, deviceQos) then Sender(Some(p), true) else Sender(None, false), popped, Some(p))
    else if s.slot.None? || !WantsAck(s.slot.value, deviceQos) then Turn(s, false, None)
    else
      var p := s.slot.value.(crypt := SetBit(s.slot.value.crypt, QOS_BITS));
      if !timerRunning then Turn(Sender(Some(p), false), false, None)
      else if ack.Some? && Acknowledges(ack.value, p) then Turn(Sender(None, false), false, None)
      else Turn(Sender(Some(p), true), false, None)
  }

  class SendChannel {
    var slot: Option<Packet>
    var waitForAck: bool

    constructor ()
      ensures Abs() == Sender(None, false)
    {
      slot := None;
      waitForAck := false;
    }

    function Abs(): Sender
      reads this
    {
      Sender(slot, waitForAck)
    }

    /** The switch on wifi2deviceRxTxStateMachine. In the waiting state the slot is never empty. */
    method Loop(ack: Option<Packet>, waiting: Option<Packet>, timerRunning: bool, deviceQos: byte)
      returns (popped: bool, frame: array?<byte>, ghost published: Option<Packet>)
      requires waitForAck ==> slot.Some?
      requires slot.Some? ==> Writable(slot.value)
      requires waiting.Some? ==> Writable(waiting.value)
      modifies this
      ensures Turn(Abs(), popped, published) == SenderTurn(old(Abs()), ack, waiting, timerRunning, deviceQos)
      ensures waitForAck ==> slot.Some?
      ensures if published.Some? then frame != null && frame[..] == Frame(published.value) else frame == null
    {
      hide Frame, Published;
      popped, frame, published := false, null, None;
      if !waitForAck {
        if slot.None? {
          slot := waiting;
          popped := waiting.Some?;
        }
        if slot.Some? {
          var p, buf := Publish(slot.value, deviceQos);
          slot, frame, published := Some(p), buf, Some(p);
          if WantsAck(p, deviceQos) {
            waitForAck := true;
          } else {
            slot := None;
          }
        }
      } else {
        if WantsAck(slot.value, deviceQos) {
          slot := Some(slot.value.(crypt := SetBit(slot.value.crypt, QOS_BITS)));
          if timerRunning {
            if ack.Some? && Acknowledges(ack.value, slot.value) {
              slot := None;
              waitForAck := false;
            }
          } else {
            waitForAck := false;
          }
        }
      }
    }
  }

  // The whole link, carrying packets that want an acknowledgement

  /**
   qos: the device's QoS; queued: all packets ever put on the list; next: how many were popped; line and acks: what is
   under way.
   */
  datatype Link = Link(qos: byte, queued: seq<Packet>, next: nat, sender: Sender, line: seq<Packet>, acks: seq<Packet>,
                       delivered: seq<Packet>)

  datatype Action =
    | Enqueue(p: Packet)
    | Loop(timerRunning: bool)           // with the acknowledgement at the head of the list, if there is one
    | LoopWith(foreign: Packet, running: bool) // with an acknowledgement for another channel
    | Restart                            // the assignment to this channel's state by the cloud2device branch
    | LoseFrame(i: nat)
    | LoseAck(i: nat)
    | Deliver

  function Init(qos: byte): Link {
    Link(qos, [], 0, Sender(None, false), [], [], [])
  }

  function Turned(l: Link, ack: Option<Packet>, timerRunning: bool): Link {
    var waiting := if l.next < |l.queued| then Some(l.queued[l.next]) else None;
    var t := SenderTurn(l.sender, ack, waiting, timerRunning, l.qos);
    l.(sender := t.sender, next := if t.popped then l.next + 1 else l.next,
       line := if t.published.Some? then l.line + [t.published.value] else l.line)
  }

  function Without<T>(s: seq<T>, i: nat): seq<T>
    requires i < |s|
  {
    s[..i] + s[i + 1..]
  }

  predicate SameKey(p: Packet, q: Packet) {
    p.dataType == q.dataType && p.dataID == q.dataID
  }

  /**
   Enqueue assumes that successive packets differ in (dataType, dataID), and that the packet wants an acknowledgement:
   with the device's QoS at 1 every packet does, at any other value but 0 every packet with the QoS flag.
   */
  predicate Enabled(l: Link, a: Action) {
    match a
    case Enqueue(p) =>
      WantsAck(Published(p, l.qos), l.qos) && (l.queued == [] || !SameKey(l.queued[|l.queued| - 1], p))
    case LoopWith(foreign, _) => l.sender.slot.Some? ==> !Acknowledges(foreign, l.sender.slot.value)
    case LoseFrame(i) => i < |l.line|
    case LoseAck(i) => i < |l.acks|
    case Deliver => l.line != []
    case _ => true
  }

  function Step(l: Link, a: Action): Link
    requires Enabled(l, a)
  {
    match a
    case Enqueue(p) => l.(queued := l.queued + [p])
    case Loop(timerRunning) =>
      if l.acks == [] then Turned(l, None, timerRunning)
      else Turned(l.(acks := l.acks[1..]), Some(l.acks[0]), timerRunning)
    case LoopWith(foreign, timerRunning) => Turned(l, Some(foreign), timerRunning)
    case Restart => l.(sender := l.sender.(waitForAck := false))
    case LoseFrame(i) => l.(line := Without(l.line, i))
    case LoseAck(i) => l.(acks := Without(l.acks, i))
    case Deliver =>
      var p := l.line[0];
      l.(line := l.line[1..], delivered := l.delivered + [p],
         acks := if HasBit(p.crypt, QOS_BITS) then l.acks + [Response(p)] else l.acks)
  }

  /** A stream with adjacent repeats removed. */
  function Distinct(s: seq<Packet>): seq<Packet> {
    if s == [] then []
    else
      var d, p := Distinct(s[..|s| - 1]), s[|s| - 1];
      if d != [] && d[|d| - 1] == p then d else d + [p]
  }

  /** The packets as they go out. */
  function Outgoing(queued: seq<Packet>, qos: byte): seq<Packet> {
    seq(|queued|, i requires 0 <= i < |queued| => Published(queued[i], qos))
  }

  // The invariant

  /** First some copies of the older packet, then some of the newer. */
  ghost predicate Phased(s: seq<Packet>, older: Packet, newer: Packet) {
    && (forall i | 0 <= i < |s| :: s[i] == older || s[i] == newer)
    && (forall i, j | 0 <= i < j < |s| && s[i] == newer :: s[j] == newer)
  }

  ghost predicate Only(s: seq<Packet>, p: Packet) {
    forall i | 0 <= i < |s| :: s[i] == p
  }

  ghost predicate KeysDiffer(queued: seq<Packet>) {
    forall i | 0 < i < |queued| :: !SameKey(queued[i - 1], queued[i])
  }

  ghost predicate AllWanted(queued: seq<Packet>, qos: byte) {
    forall i | 0 <= i < |queued| :: WantsAck(Published(queued[i], qos), qos)
  }

  /** The current packet has reached the peer. */
  ghost predicate Arrived(l: Link, out: seq<Packet>)
    requires 0 < l.next <= |out|
  {
    var current := out[l.next - 1];
    && Distinct(l.delivered) == out[..l.next]
    && Only(l.line, current)
    && if l.sender.slot.Some? && l.next > 1 then Phased(l.acks, Response(out[l.next - 2]), Response(current))
       else Only(l.acks, Response(current))
  }

  /** The current packet has not reached the peer yet: every acknowledgement under way is for the one before. */
  ghost predicate OnItsWay(l: Link, out: seq<Packet>)
    requires 0 < l.next <= |out|
  {
    var current := out[l.next - 1];
    && l.sender.slot.Some?
    && Distinct(l.delivered) == out[..l.next - 1]
    && if l.next > 1 then Phased(l.line, out[l.next - 2], current) && Only(l.acks, Response(out[l.next - 2]))
       else Only(l.line, current) && l.acks == []
  }

  ghost predicate Inv(l: Link) {
    var out := Outgoing(l.queued, l.qos);
    && KeysDiffer(l.queued) && AllWanted(l.queued, l.qos)
    && l.next <= |l.queued|
    && (l.sender.waitForAck ==> l.sender.slot.Some?)
    && (l.sender.slot.Some? ==> l.next > 0 && Published(l.sender.slot.value, l.qos) == out[l.next - 1])
    && if l.next == 0 then l.line == [] && l.acks == [] && l.delivered == []
       else Arrived(l, out) || OnItsWay(l, out)
  }

  // Losing, taking and adding keep the phases

  lemma PhasedWithout(s: seq<Packet>, i: nat, older: Packet, newer: Packet)
    requires i < |s| && Phased(s, older, newer)
    ensures Phased(Without(s, i), older, newer)
  {
  }

  lemma OnlyWithout(s: seq<Packet>, i: nat, p: Packet)
    requires i < |s| && Only(s, p)
    ensures Only(Without(s, i), p)
  {
  }

  lemma PhasedTail(s: seq<Packet>, older: Packet, newer: Packet)
    requires s != [] && Phased(s, older, newer)
    ensures Phased(s[1..], older, newer)
    ensures s[0] == newer ==> Only(s, newer)
  {
  }

  lemma OnlyTail(s: seq<Packet>, p: Packet)
    requires s != [] && Only(s, p)
    ensures Only(s[1..], p)
  {
  }

  lemma PhasedAppend(s: seq<Packet>, older: Packet, newer: Packet)
    requires Phased(s, older, newer)
    ensures Phased(s + [newer], older, newer)
  {
  }

  lemma OnlyIsPhased(s: seq<Packet>, older: Packet, newer: Packet)
    requires Only(s, older) && older != newer
    ensures Phased(s, older, newer)
  {
  }

  // Packets as they go out

  lemma QosBit(b: byte)
    ensures HasBit(SetBit(b, QOS_BITS), QOS_BITS) && SetBit(SetBit(b, QOS_BITS), QOS_BITS) == SetBit(b, QOS_BITS)
    ensures HasBit(b, QOS_BITS) ==> SetBit(b, QOS_BITS) == b
  {
    hide ToBits, SetBit;
    SetBitSets(b, QOS_BITS);
    SetBitSets(SetBit(b, QOS_BITS), QOS_BITS);
    OneBit(ToBits(b));
  }

  lemma OneBit(v: bv8)
    ensures v & QOS_BITS != 0 ==> v & QOS_BITS == QOS_BITS
    ensures (v | QOS_BITS) & QOS_BITS == QOS_BITS && QOS_BITS != 0
  {
  }

  /** A packet that wants an acknowledgement, and the same packet as it goes out. */
  lemma PublishedFacts(p: Packet, qos: byte)
    requires WantsAck(Published(p, qos), qos)
    ensures var q := Published(p, qos);
            && SameKey(p, q) && HasBit(q.crypt, QOS_BITS) && Published(q, qos) == q
            && q.(crypt := SetBit(q.crypt, QOS_BITS)) == q && p.(crypt := SetBit(p.crypt, QOS_BITS)) == q
            && WantsAck(p, qos)
  {
    hide HasBit, SetBit;
    QosBit(p.crypt);
  }

  /** Successive packets, and their acknowledgements, cannot be taken for each other. */
  lemma SuccessiveDiffer(queued: seq<Packet>, qos: byte, i: nat)
    requires KeysDiffer(queued) && AllWanted(queued, qos) && 0 < i < |queued|
    ensures var out := Outgoing(queued, qos);
            && out[i - 1] != out[i] && Response(out[i - 1]) != Response(out[i])
            && !Acknowledges(Response(out[i - 1]), out[i]) && Acknowledges(Response(out[i]), out[i])
  {
    hide HasBit, SetBit;
    PublishedFacts(queued[i - 1], qos);
    PublishedFacts(queued[i], qos);
  }

  lemma DistinctAppend(s: seq<Packet>, p: Packet)
    ensures Distinct(s + [p]) ==
            if Distinct(s) != [] && Distinct(s)[|Distinct(s)| - 1] == p then Distinct(s) else Distinct(s) + [p]
  {
    assert (s + [p])[..|s|] == s;
  }

  // Every step keeps the invariant

  lemma LossKeepsInv(l: Link, a: Action)
    requires Inv(l) && Enabled(l, a) && (a.LoseFrame? || a.LoseAck?)
    ensures Inv(Step(l, a))
  {
    hide Without, Distinct, Response, Phased, Only;
    if l.next > 0 {
      var out := Outgoing(l.queued, l.qos);
      var current := out[l.next - 1];
      if a.LoseFrame? {
        if Arrived(l, out) || l.next == 1 {
          OnlyWithout(l.line, a.i, current);
        } else {
          PhasedWithout(l.line, a.i, out[l.next - 2], current);
        }
      } else if Arrived(l, out) {
        if l.sender.slot.Some? && l.next > 1 {
          PhasedWithout(l.acks, a.i, Response(out[l.next - 2]), Response(current));
        } else {
          OnlyWithout(l.acks, a.i, Response(current));
        }
      } else {
        OnlyWithout(l.acks, a.i, Response(out[l.next - 2]));
      }
    }
  }

  lemma EnqueueKeepsInv(l: Link, p: Packet)
    requires Inv(l) && Enabled(l, Enqueue(p))
    ensures Inv(Step(l, Enqueue(p)))
  {
    hide Distinct, Response, Phased, Only;
    var l' := Step(l, Enqueue(p));
    var out, out' := Outgoing(l.queued, l.qos), Outgoing(l'.queued, l.qos);
    assert forall i | 0 <= i < |out| :: out'[i] == out[i];
    assert forall n: nat | n <= |out| :: out'[..n] == out[..n];
  }

  lemma DeliverKeepsArrived(l: Link)
    requires Inv(l) && l.line != [] && l.next > 0 && Arrived(l, Outgoing(l.queued, l.qos))
    ensures Arrived(Step(l, Deliver), Outgoing(l.queued, l.qos))
  {
    hide Distinct, Response, SetBit;
    var out := Outgoing(l.queued, l.qos);
    var current := out[l.next - 1];
    DistinctAppend(l.delivered, current);
    PublishedFacts(l.queued[l.next - 1], l.qos);
    if l.sender.slot.Some? && l.next > 1 {
      PhasedAppend(l.acks, Response(out[l.next - 2]), Response(current));
    }
  }

  lemma DeliverFirst(l: Link)
    requires Inv(l) && l.line != [] && l.next == 1 && OnItsWay(l, Outgoing(l.queued, l.qos))
    ensures Arrived(Step(l, Deliver), Outgoing(l.queued, l.qos))
  {
    hide Distinct, Response, SetBit;
    var out := Outgoing(l.queued, l.qos);
    DistinctAppend(l.delivered, out[0]);
    PublishedFacts(l.queued[0], l.qos);
    assert out[..0] + [out[0]] == out[..1];
  }

  lemma DeliverCurrent(l: Link)
    requires Inv(l) && l.line != [] && l.next > 1 && OnItsWay(l, Outgoing(l.queued, l.qos))
    requires l.line[0] == Outgoing(l.queued, l.qos)[l.next - 1]
    ensures Arrived(Step(l, Deliver), Outgoing(l.queued, l.qos))
  {
    hide Distinct, Response, Published, Phased, Only;
    var out := Outgoing(l.queued, l.qos);
    var older, current := out[l.next - 2], out[l.next - 1];
    DistinctAppend(l.delivered, current);
    PublishedFacts(l.queued[l.next - 1], l.qos);
    SuccessiveDiffer(l.queued, l.qos, l.next - 1);
    PhasedTail(l.line, older, current);
    OnlyTail(l.line, current);
    OnlyIsPhased(l.acks, Response(older), Response(current));
    PhasedAppend(l.acks, Response(older), Response(current));
    assert out[..l.next - 1] + [current] == out[..l.next];
  }

  lemma DeliverOlder(l: Link)
    requires Inv(l) && l.line != [] && l.next > 1 && OnItsWay(l, Outgoing(l.queued, l.qos))
    requires l.line[0] != Outgoing(l.queued, l.qos)[l.next - 1]
    ensures OnItsWay(Step(l, Deliver), Outgoing(l.queued, l.qos))
  {
    hide Distinct, Response, Published;
    var out := Outgoing(l.queued, l.qos);
    var older, current := out[l.next - 2], out[l.next - 1];
    assert l.line[0] == older;
    DistinctAppend(l.delivered, older);
    PublishedFacts(l.queued[l.next - 2], l.qos);
    PhasedTail(l.line, older, current);
  }

  lemma DeliverKeepsInv(l: Link)
    requires Inv(l) && Enabled(l, Deliver)
    ensures Inv(Step(l, Deliver))
  {
    hide Distinct, Response, Published, Arrived, OnItsWay;
    if Arrived(l, Outgoing(l.queued, l.qos)) {
      DeliverKeepsArrived(l);
    } else if l.next == 1 {
      DeliverFirst(l);
    } else if l.line[0] == Outgoing(l.queued, l.qos)[l.next - 1] {
      DeliverCurrent(l);
    } else {
      DeliverOlder(l);
    }
  }

  /** Taking the acknowledgement at the head of the list keeps the invariant, and shows what a match means. */
  lemma TakeAckKeepsInv(l: Link)
    requires Inv(l) && l.acks != []
    ensures Inv(l.(acks := l.acks[1..]))
    ensures l.sender.slot.Some? && Acknowledges(l.acks[0], Published(l.sender.slot.value, l.qos)) ==>
              var out := Outgoing(l.queued, l.qos); Arrived(l, out) && Only(l.acks[1..], Response(out[l.next - 1]))
  {
    hide Distinct, Response, Published;
    assert l.acks[1..] == Without(l.acks, 0);
    LossKeepsInv(l, LoseAck(0));
    var out := Outgoing(l.queued, l.qos);
    if l.next > 1 {
      SuccessiveDiffer(l.queued, l.qos, l.next - 1);
      if Arrived(l, out) && l.sender.slot.Some? {
        PhasedTail(l.acks, Response(out[l.next - 2]), Response(out[l.next - 1]));
      }
    }
  }

  /** The acknowledgement of a turn, if it matches the slot, is for a packet that arrived, and leaves no older one. */
  ghost predicate MatchesRightly(l: Link, ack: Option<Packet>)
    requires Inv(l)
  {
    l.sender.slot.Some? && ack.Some? && Acknowledges(ack.value, Published(l.sender.slot.value, l.qos)) ==>
      var out := Outgoing(l.queued, l.qos); Arrived(l, out) && Only(l.acks, Response(out[l.next - 1]))
  }

  lemma TurnWithSlot(l: Link, ack: Option<Packet>, timerRunning: bool)
    requires Inv(l) && MatchesRightly(l, ack) && l.sender.slot.Some? && l.sender.waitForAck
    ensures Inv(Turned(l, ack, timerRunning))
  {
    hide Distinct, Response, Phased, Only;
    PublishedFacts(l.sender.slot.value, l.qos);
  }

  lemma TurnResends(l: Link, ack: Option<Packet>, timerRunning: bool)
    requires Inv(l) && l.sender.slot.Some? && !l.sender.waitForAck
    ensures Inv(Turned(l, ack, timerRunning))
  {
    hide Distinct, Response, Phased, Only;
    var out := Outgoing(l.queued, l.qos);
    PublishedFacts(l.sender.slot.value, l.qos);
    if Arrived(l, out) || l.next == 1 {
      OnlyAppend(l.line, out[l.next - 1]);
    } else {
      PhasedAppend(l.line, out[l.next - 2], out[l.next - 1]);
    }
  }

  lemma OnlyAppend(s: seq<Packet>, p: Packet)
    requires Only(s, p)
    ensures Only(s + [p], p)
  {
  }

  lemma TurnPops(l: Link, ack: Option<Packet>, timerRunning: bool)
    requires Inv(l) && l.sender.slot.None?
    ensures Inv(Turned(l, ack, timerRunning))
  {
    hide Response, Phased;
    var out := Outgoing(l.queued, l.qos);
    var l' := Turned(l, ack, timerRunning);
    if l.next < |l.queued| {
      PublishedFacts(l.queued[l.next], l.qos);
      if l.next > 0 {
        SuccessiveDiffer(l.queued, l.qos, l.next);
        OnlyIsPhased(l.line, out[l.next - 1], out[l.next]);
        PhasedAppend(l.line, out[l.next - 1], out[l.next]);
      }
      assert OnItsWay(l', out);
    }
  }

  lemma TurnKeepsInv(l: Link, ack: Option<Packet>, timerRunning: bool)
    requires Inv(l) && MatchesRightly(l, ack)
    ensures Inv(Turned(l, ack, timerRunning))
  {
    hide Turned, Arrived, OnItsWay;
    if l.sender.slot.None? {
      TurnPops(l, ack, timerRunning);
    } else if l.sender.waitForAck {
      TurnWithSlot(l, ack, timerRunning);
    } else {
      TurnResends(l, ack, timerRunning);
    }
  }

  lemma StepKeepsInv(l: Link, a: Action)
    requires Inv(l) && Enabled(l, a)
    ensures Inv(Step(l, a))
  {
    hide Inv, Turned, Arrived, Published, Only, Response;
    match a
    case Enqueue(p) => EnqueueKeepsInv(l, p);
    case Loop(timerRunning) =>
      if l.acks == [] {
        TurnKeepsInv(l, None, timerRunning);
      } else {
        TakeAckKeepsInv(l);
        var taken := l.(acks := l.acks[1..]);
        ArrivedWithTail(l);
        TurnKeepsInv(taken, Some(l.acks[0]), timerRunning);
      }
    case LoopWith(foreign, timerRunning) =>
      ForeignDoesNotMatch(l, foreign);
      TurnKeepsInv(l, Some(foreign), timerRunning);
    case Restart => RestartKeepsInv(l);
    case LoseFrame(_) => LossKeepsInv(l, a);
    case LoseAck(_) => LossKeepsInv(l, a);
    case Deliver => DeliverKeepsInv(l);
  }

  lemma ArrivedWithTail(l: Link)
    requires Inv(l) && l.acks != [] && Inv(l.(acks := l.acks[1..]))
    ensures 0 < l.next <= |l.queued|
    ensures var out := Outgoing(l.queued, l.qos);
            Arrived(l, out) && Only(l.acks[1..], Response(out[l.next - 1])) ==> Arrived(l.(acks := l.acks[1..]), out)
  {
  }

  lemma ForeignDoesNotMatch(l: Link, foreign: Packet)
    requires l.sender.slot.Some? ==> !Acknowledges(foreign, l.sender.slot.value)
    ensures l.sender.slot.Some? ==> !Acknowledges(foreign, Published(l.sender.slot.value, l.qos))
  {
  }

  lemma RestartKeepsInv(l: Link)
    requires Inv(l)
    ensures Inv(Step(l, Restart))
  {
    hide Distinct, Response, Published, Phased, Only;
  }

  // Whole runs

  ghost predicate Run(links: seq<Link>, actions: seq<Action>) {
    && |links| == |actions| + 1
    && links != [] && links[0] == Init(links[0].qos)
    && forall i | 0 <= i < |actions| :: Enabled(links[i], actions[i]) && links[i + 1] == Step(links[i], actions[i])
  }

  lemma {:induction false} RunKeepsInv(links: seq<Link>, actions: seq<Action>, k: nat)
    requires Run(links, actions) && k < |links|
    ensures Inv(links[k])
  {
    hide Step, Enabled, Arrived, OnItsWay;
    if k > 0 {
      RunKeepsInv(links, actions, k - 1);
      StepKeepsInv(links[k - 1], actions[k - 1]);
    }
  }

  /** How many packets have left the sender's slot. */
  function Completed(l: Link): nat
    requires l.sender.slot.Some? ==> l.next > 0
  {
    if l.sender.slot.Some? then l.next - 1 else l.next
  }

  /**
   Safety of every run: the peer's stream, adjacent repeats removed, is a prefix of what was queued,
   and it contains every packet that has left the slot.
   */
  lemma StreamIsSafe(links: seq<Link>, actions: seq<Action>, k: nat)
    requires Run(links, actions) && k < |links|
    ensures var l := links[k];
            && Distinct(l.delivered) <= Outgoing(l.queued, l.qos)
            && (l.sender.slot.Some? ==> l.next > 0)
            && Completed(l) <= |Distinct(l.delivered)| <= l.next <= |l.queued|
            && Outgoing(l.queued, l.qos)[..Completed(l)] <= Distinct(l.delivered)
  {
    RunKeepsInv(links, actions, k);
    hide Phased, Only, Response, Published;
    assert links[k].next == 0 ==> Distinct(links[k].delivered) == [];
  }

  lemma {:induction false} DistinctDelivered(s: seq<Packet>, p: Packet)
    requires p in Distinct(s)
    ensures p in s
  {
    if s != [] && p != s[|s| - 1] {
      DistinctDelivered(s[..|s| - 1], p);
    }
  }

  /** A packet leaves the slot only after the peer has received it. */
  lemma LeavesOnlyWhenReceived(links: seq<Link>, actions: seq<Action>, k: nat)
    requires Run(links, actions) && k + 1 < |links|
    requires links[k].sender.slot.Some? && links[k + 1].sender.slot.None?
    ensures Published(links[k].sender.slot.value, links[k].qos) in links[k].delivered
  {
    StreamIsSafe(links, actions, k + 1);
    RunKeepsInv(links, actions, k);
    StepKeepsSlotPacket(links[k], actions[k]);
    var l, l' := links[k], links[k + 1];
    var p := Published(l.sender.slot.value, l.qos);
    assert Outgoing(l'.queued, l.qos)[..l.next][l.next - 1] == p;
    DistinctDelivered(l'.delivered, p);
  }

  lemma StepKeepsSlotPacket(l: Link, a: Action)
    requires Inv(l) && Enabled(l, a) && l.sender.slot.Some? && Step(l, a).sender.slot.None?
    ensures Step(l, a).next == l.next && Step(l, a).queued == l.queued && Step(l, a).delivered == l.delivered
  {
    PublishedFacts(l.sender.slot.value, l.qos);
  }

  // Progress

  /** The link at rest: nothing under way, the slot empty. */
  predicate AtRest(l: Link) {
    l.sender == Sender(None, false) && l.line == [] && l.acks == []
  }

  /** The packets that wait on the list want an acknowledgement, as every queued packet of a run does. */
  predicate NextWanted(l: Link)
    requires l.next < |l.queued|
  {
    WantsAck(Published(l.queued[l.next], l.qos), l.qos)
  }

  /** Without losses a turn, a delivery and a turn before the timer ends bring exactly the next packet across. */
  lemma RoundCompletes(l: Link, timerRunning: bool)
    requires AtRest(l) && l.next < |l.queued| && NextWanted(l)
    ensures Enabled(l, Loop(timerRunning)) && Enabled(Step(l, Loop(timerRunning)), Deliver)
    ensures var l' := Step(Step(Step(l, Loop(timerRunning)), Deliver), Loop(true));
            l' == l.(next := l.next + 1, delivered := l.delivered + [Published(l.queued[l.next], l.qos)])
  {
    hide HasBit, SetBit, Published;
    PublishedFacts(l.queued[l.next], l.qos);
  }

  /** When the timer ends without an acknowledgement, the same frame goes out again and the wait starts over. */
  lemma ExpiryResends(l: Link, timerRunning: bool)
    requires Inv(l) && l.sender.waitForAck && l.acks == []
    ensures var l' := Step(Step(l, Loop(false)), Loop(timerRunning));
            && l.next > 0
            && l'.line == l.line + [Outgoing(l.queued, l.qos)[l.next - 1]]
            && l'.sender == Sender(Some(Outgoing(l.queued, l.qos)[l.next - 1]), true)
            && l'.next == l.next && l'.delivered == l.delivered
  {
    hide HasBit, SetBit, Published;
    PublishedFacts(l.sender.slot.value, l.qos);
  }

  /**
   From every state of every run: if all that is under way is lost and the timer ends, a resend, its delivery and a turn
   before the timer ends complete the packet in the slot and bring the link to rest.
   */
  lemma ResendCompletes(l: Link, timerRunning: bool)
    requires Inv(l) && l.sender.slot.Some?
    ensures l.next > 0
    ensures var lost := l.(line := [], acks := []);
            var expired := Step(lost, Loop(false));
            var sent := if l.sender.waitForAck then Step(expired, Loop(timerRunning)) else expired;
            Enabled(sent, Deliver) &&
            var l' := Step(Step(sent, Deliver), Loop(true));
            l' == lost.(sender := Sender(None, false),
                        delivered := l.delivered + [Outgoing(l.queued, l.qos)[l.next - 1]])
  {
    hide HasBit, SetBit, Published, Arrived, OnItsWay;
    PublishedFacts(l.sender.slot.value, l.qos);
  }

  /** How the link runs when nothing is lost and every acknowledgement is in time. */
  function Rounds(l: Link, n: nat): Link
    requires AtRest(l) && l.next + n <= |l.queued| && AllWanted(l.queued, l.qos)
    ensures var r := Rounds(l, n);
            AtRest(r) && r.qos == l.qos && r.queued == l.queued && r.next == l.next + n
  {
    if n == 0 then l
    else
      var before := Rounds(l, n - 1);
      RoundCompletes(before, true);
      Step(Step(Step(before, Loop(true)), Deliver), Loop(true))
  }

  /** So a link that loses nothing and answers in time delivers the whole queue, each packet once and in order. */
  lemma {:induction false} PromptRoundsDeliverAll(l: Link, n: nat)
    requires AtRest(l) && l.next + n <= |l.queued| && AllWanted(l.queued, l.qos)
    ensures Rounds(l, n).delivered == l.delivered + Outgoing(l.queued, l.qos)[l.next..l.next + n]
  {
    hide Step, Published, Enabled, WantsAck;
    if n > 0 {
      PromptRoundsDeliverAll(l, n - 1);
      var before := Rounds(l, n - 1);
      RoundCompletes(before, true);
      var out := Outgoing(l.queued, l.qos);
      assert out[l.next..l.next + n] == out[l.next..l.next + n - 1] + [out[l.next + n - 1]];
    }
  }

  /**
   And in every run, whatever was lost, repeated or late: once the list is empty and so is the slot, the peer's stream
   without adjacent repeats is the whole queue.
   */
  lemma DrainedMeansDelivered(links: seq<Link>, actions: seq<Action>, k: nat)
    requires Run(links, actions) && k < |links|
    requires links[k].next == |links[k].queued| && links[k].sender.slot.None?
    ensures Distinct(links[k].delivered) == Outgoing(links[k].queued, links[k].qos)
  {
    hide Run, Distinct, Outgoing;
    StreamIsSafe(links, actions, k);
    OutgoingLength(links[k].queued, links[k].qos);
  }

  lemma OutgoingLength(queued: seq<Packet>, qos: byte)
    ensures |Outgoing(queued, qos)| == |queued|
  {
  }

  // The lan2device channel

  /** One turn of the lan2device channel; waiting is the head of its list, converted to a UART packet. */
  function LanTurn(s: Sender, ack: Option<Packet>, waiting: Option<Packet>, timerRunning: bool, deviceQos: byte): Turn {
    if !s.waitForAck then
      var popped := s.slot.None? && waiting.Some?;
      var slot := if s.slot.None? then waiting else s.slot;
      if slot.None? then Turn(Sender(None, false), false, None)
      else
        var p := Published(slot.value, deviceQos);
        if WantsAck(p, deviceQos) then Turn(Sender(Some(p.(crypt := SetBit(p.crypt, QOS_BITS))), true), popped, Some(p))
        else Turn(Sender(None, false), popped, Some(p))
    else if s.slot.None? || !WantsAck(s.slot.value, deviceQos) then Turn(s, false, None)
    else if !timerRunning then Turn(Sender(s.slot, false), false, None)
    else if ack.Some? && Acknowledges(ack.value, s.slot.value) then Turn(Sender(None, false), false, None)
    else Turn(s, false, None)
  }

  /** The packet that waits for its acknowledgement carries the flag. */
  predicate SlotFlagged(s: Sender) {
    s.waitForAck && s.slot.Some? ==> HasBit(s.slot.value.crypt, QOS_BITS)
  }

  /** The lan2device channel is the wifi2device channel, turn by turn, for every device QoS. */
  lemma LanTurnIsSenderTurn(s: Sender, ack: Option<Packet>, waiting: Option<Packet>, timerRunning: bool,
                            deviceQos: byte)
    requires SlotFlagged(s)
    ensures LanTurn(s, ack, waiting, timerRunning, deviceQos) == SenderTurn(s, ack, waiting, timerRunning, deviceQos)
    ensures SlotFlagged(LanTurn(s, ack, waiting, timerRunning, deviceQos).sender)
  {
    hide HasBit, SetBit;
    if s.slot.Some? {
      QosBit(s.slot.value.crypt);
    } else if waiting.Some? {
      QosBit(waiting.value.crypt);
    }
  }

  // Which packets are waited for

  /**
   A packet taken by an idle channel is waited for if and only if the device's QoS is 1, or is not 0 and bit 2 of the
   packet's own crypt is set; otherwise it is gone at once, so with device QoS 0 no packet ever is. It goes out as it
   is, but for bit 2 of crypt with device QoS 1. Both channels do the same.
   */
  lemma WaitsByTheBit(p: Packet, ack: Option<Packet>, timerRunning: bool, deviceQos: byte)
    ensures var t := SenderTurn(Sender(None, false), ack, Some(p), timerRunning, deviceQos);
            && t.popped && t.published.Some?
            && t == LanTurn(Sender(None, false), ack, Some(p), timerRunning, deviceQos)
            && t.sender.waitForAck == (deviceQos == 1 || (deviceQos != 0 && ToBits(p.crypt) & 0x04 != 0))
            && t.sender.slot == (if t.sender.waitForAck then t.published else None)
            && t.published.value == p.(crypt := t.published.value.crypt)
            && ToBits(t.published.value.crypt) == (if deviceQos == 1 then ToBits(p.crypt) | 0x04 else ToBits(p.crypt))
  {
    hide ToBits, SetBit;
    LanTurnIsSenderTurn(Sender(None, false), ack, Some(p), timerRunning, deviceQos);
    SetBitSets(p.crypt, QOS_BITS);
    OneBit(ToBits(p.crypt));
  }

  /** The wait of a packet ends with an acknowledgement exactly if that has its type and its id and the timer runs. */
  lemma AckEndsTheWait(p: Packet, ack: Option<Packet>, waiting: Option<Packet>, timerRunning: bool, deviceQos: byte)
    requires deviceQos == 1 || (deviceQos != 0 && ToBits(p.crypt) & 0x04 != 0)
    ensures var t := SenderTurn(Sender(Some(p), true), ack, waiting, timerRunning, deviceQos);
            && !t.popped && t.published.None?
            && (t.sender == Sender(None, false) <==>
                  timerRunning && ack.Some? && ack.value.dataType == p.dataType && ack.value.dataID == p.dataID)
            && (t.sender.slot.Some? ==> t.sender.waitForAck == timerRunning &&
                                        t.sender.slot.value == p.(crypt := SetBit(p.crypt, 0x04)))
  {
    hide ToBits, SetBit;
  }

  // What goes out, for packets of every kind

  /** A frame that went out: the packet, and its place in the queue. */
  datatype Sending = Sending(at: int, packet: Packet)

  /** The sender with all packets ever queued, the number popped, and the frames that went out. */
  datatype Source = Source(queued: seq<Packet>, next: nat, sender: Sender, sent: seq<Sending>)

  /** What can happen to it; a turn comes with any acknowledgement at all. */
  datatype Event = Arrive(p: Packet) | Turns(ack: Option<Packet>, timerRunning: bool) | Interferes

  function Source0(): Source {
    Source([], 0, Sender(None, false), [])
  }

  function After(s: Source, e: Event, qos: byte): Source {
    match e
    case Arrive(p) => s.(queued := s.queued + [p])
    case Turns(ack, timerRunning) =>
      var waiting := if s.next < |s.queued| then Some(s.queued[s.next]) else None;
      var t := SenderTurn(s.sender, ack, waiting, timerRunning, qos);
      var next := if t.popped then s.next + 1 else s.next;
      s.(sender := t.sender, next := next,
         sent := if t.published.Some? then s.sent + [Sending(next - 1, t.published.value)] else s.sent)
    case Interferes => s.(sender := s.sender.(waitForAck := false))
  }

  function SourceRun(events: seq<Event>, qos: byte): Source {
    if events == [] then Source0()
    else After(SourceRun(events[..|events| - 1], qos), events[|events| - 1], qos)
  }

  /** The packet of the queue as it must go out. */
  function Due(p: Packet, qos: byte): Packet {
    if qos == 1 then p.(crypt := SetBit(p.crypt, 0x04)) else p
  }

  predicate Repeatable(p: Packet, qos: byte) {
    qos == 1 || (qos != 0 && ToBits(p.crypt) & 0x04 != 0)
  }

  /**
   The frames that went out are the packets of the queue, from the first to the last that was popped, none skipped and
   none out of order; only those that are waited for go out more than once, one after the other.
   */
  ghost predicate InOrder(queued: seq<Packet>, next: nat, sent: seq<Sending>, qos: byte) {
    && next <= |queued|
    && (next == 0 <==> sent == [])
    && (sent != [] ==> sent[0].at == 0 && sent[|sent| - 1].at == next - 1)
    && (forall i | 0 <= i < |sent| ::
          0 <= sent[i].at < next && sent[i].packet == Due(queued[sent[i].at], qos))
    && (forall i | 0 < i < |sent| ::
          || sent[i].at == sent[i - 1].at + 1
          || (sent[i].at == sent[i - 1].at && Repeatable(queued[sent[i].at], qos)))
  }

  /** And the slot holds the last packet that was popped, if that is waited for. */
  ghost predicate SourceInv(s: Source, qos: byte) {
    && InOrder(s.queued, s.next, s.sent, qos)
    && (s.sender.waitForAck ==> s.sender.slot.Some?)
    && (s.sender.slot.Some? ==>
          && s.next > 0 && Repeatable(s.queued[s.next - 1], qos)
          && s.sender.slot.value == Due(s.queued[s.next - 1], qos))
  }

  lemma DueFacts(p: Packet, qos: byte)
    ensures Published(p, qos) == Due(p, qos) && Published(Due(p, qos), qos) == Due(p, qos)
    ensures WantsAck(Due(p, qos), qos) <==> Repeatable(p, qos)
    ensures Repeatable(p, qos) ==> Due(p, qos).(crypt := SetBit(Due(p, qos).crypt, QOS_BITS)) == Due(p, qos)
  {
    hide ToBits, SetBit;
    QosBit(p.crypt);
  }

  lemma InOrderBound(queued: seq<Packet>, next: nat, sent: seq<Sending>, qos: byte)
    requires InOrder(queued, next, sent, qos)
    ensures next <= |queued|
  {
  }

  /** A frame goes out: the last packet that was popped again, or the next one for the first time. */
  lemma SendKeepsOrder(queued: seq<Packet>, next: nat, sent: seq<Sending>, qos: byte, at: nat)
    requires InOrder(queued, next, sent, qos) && at < |queued|
    requires at == next || (at == next - 1 && Repeatable(queued[at], qos))
    ensures InOrder(queued, at + 1, sent + [Sending(at, Due(queued[at], qos))], qos)
  {
    hide Due, Repeatable;
  }

  lemma TurnKeepsOrder(s: Source, ack: Option<Packet>, timerRunning: bool, qos: byte)
    requires SourceInv(s, qos)
    ensures SourceInv(After(s, Turns(ack, timerRunning), qos), qos)
  {
    hide InOrder, Due, Repeatable, Published, WantsAck, SetBit, Acknowledges;
    InOrderBound(s.queued, s.next, s.sent, qos);
    if s.next > 0 {
      DueFacts(s.queued[s.next - 1], qos);
      if s.sender.slot.Some? {
        SendKeepsOrder(s.queued, s.next, s.sent, qos, s.next - 1);
      }
    }
    if s.next < |s.queued| {
      DueFacts(s.queued[s.next], qos);
      SendKeepsOrder(s.queued, s.next, s.sent, qos, s.next);
    }
  }

  lemma AfterKeepsInv(s: Source, e: Event, qos: byte)
    requires SourceInv(s, qos)
    ensures SourceInv(After(s, e, qos), qos)
  {
    hide Due, Repeatable, SenderTurn;
    if e.Turns? {
      TurnKeepsOrder(s, e.ack, e.timerRunning, qos);
    }
  }

  /** Over every run of the sender, for every device QoS, all packets and all acknowledgements. */
  lemma {:induction false} SendsInOrder(events: seq<Event>, qos: byte)
    ensures SourceInv(SourceRun(events, qos), qos)
  {
    hide After;
    if events != [] {
      SendsInOrder(events[..|events| - 1], qos);
      AfterKeepsInv(SourceRun(events[..|events| - 1], qos), events[|events| - 1], qos);
    }
  }

  /**
   With device QoS 0, in every run: the channel never waits, the slot is empty, and what went out is the queue up to the
   last packet that was popped, each packet once, unchanged and in order.
   */
  lemma WithoutQosEachOnce(events: seq<Event>)
    ensures var s := SourceRun(events, 0);
            && s.sender == Sender(None, false)
            && s.next <= |s.queued| && |s.sent| == s.next
            && forall i | 0 <= i < s.next :: s.sent[i] == Sending(i, s.queued[i])
  {
    hide SourceRun, Published, WantsAck;
    SendsInOrder(events, 0);
    var s := SourceRun(events, 0);
    for i := 0 to |s.sent|
      invariant forall j | 0 <= j < i :: s.sent[j].at == j
    {
      assert i > 0 ==> s.sent[i].at == s.sent[i - 1].at + 1;
    }
  }
}
