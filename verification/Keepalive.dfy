/** The ping machine of MQTTClient.c: sendPacket, keepalive and cycle over a clock that does not wrap. */
module Keepalive {
  import opened Bytes
  import opened MqttPacket
  import opened MqttPublish

  const CONNECTION_LOST := -3
  const FAILURE := -1
  const MQTT_SUCCESS := 0

  /**
   The clock, how far it moves before each reading to come, and what the writes to come return; a missing write is
   an error.
   */
  datatype World = World(now: nat, ticks: seq<nat>, writes: seq<int>)

  function Tick(w: World): (r: World)
    ensures r.now >= w.now && r.writes == w.writes
  {
    if w.ticks == [] then w else w.(now := w.now + w.ticks[0], ticks := w.ticks[1..])
  }

  /**
   What happened: ping_outstanding became 1, after a ping that was sent or not; a PINGRESP came in; the connection
   was given up.
   */
  datatype Event = Pinged(sent: bool, at: nat) | Ponged | Lost(at: nat)

  /**
   The ping fields of a client, with its timers as end times; what has happened so far, when the ping timer was started
   last, and the packets whose writes added up.
   */
  datatype Keep = Keep(outstanding: bool, pingTimer: nat, pingrespTimer: nat, interval: nat, timeout: nat, bufSize: nat,
                       world: World, history: seq<Event>, restarted: Option<nat>, sent: seq<seq<byte>>)

  /** The loop of sendPacket: the sum of what the writes returned. */
  function SendLoop(w: World, sent: nat, length: nat, end: nat): (World, nat)
    decreases |w.writes|
  {
    if sent >= length then (w, sent)
    else
      var v := Tick(w);
      if end <= v.now || v.writes == [] then (v, sent)
      else
        var rc, u := v.writes[0], v.(writes := v.writes[1..]);
        if rc < 0 then (u, sent) else SendLoop(u, sent + rc, length, end)
  }

  /** sendPacket restarts the ping timer when the writes add up to the length exactly. */
  function Send(k: Keep, packet: seq<byte>, end: nat): (r: (Keep, int))
    ensures r.0.outstanding == k.outstanding && r.0.history == k.history && r.0.pingrespTimer == k.pingrespTimer
    ensures r.0.timeout == k.timeout && r.0.interval == k.interval && r.1 in {MQTT_SUCCESS, FAILURE}
    ensures r.0.sent == if r.1 == MQTT_SUCCESS then k.sent + [packet] else k.sent
  {
    var (w, sent) := SendLoop(k.world, 0, |packet|, end);
    if sent == |packet| then
      var v := Tick(w);
      (k.(world := v, pingTimer := v.now + k.interval * 1000, restarted := Some(v.now), sent := k.sent + [packet]),
       MQTT_SUCCESS)
    else (k.(world := w), FAILURE)
  }

  /** keepalive; its return code is not used. */
  function KeepAliveState(k: Keep): (r: Keep)
    ensures r.timeout == k.timeout
  {
    if k.interval == 0 then k
    else
      var k1 := k.(world := Tick(k.world));
      if k1.world.now < k1.pingTimer || k1.outstanding then k1
      else
        var k2 := k1.(world := Tick(k1.world));
        var (k3, rc) := if k2.bufSize < 2 then (k2, FAILURE) else Send(k2, ZeroBytes(PINGREQ), k2.world.now + 1000);
        if rc == MQTT_SUCCESS then
          var w := Tick(k3.world);
          k3.(world := w, pingrespTimer := w.now + k3.timeout, outstanding := true,
              history := k3.history + [Pinged(true, w.now)])
        else k3.(outstanding := true, history := k3.history + [Pinged(false, k3.world.now)])
  }

  /**
   What one cycle reads: a packet type as an unsigned short, whether the packet parses, the qos of a PUBLISH, and the
   packet id.
   */
  datatype Input = Input(packetType: nat, parsed: bool, qos: nat, packetId: nat)

  /** Before keepalive: the packet is handled; exit says that the cycle ends here, with rc. */
  datatype Handled = Handled(k: Keep, exit: bool, rc: int)

  function Acknowledge(k: Keep, packetType: nat, packetId: nat, end: nat): Handled {
    if k.bufSize < 4 then Handled(k, true, FAILURE)
    else
      var (u, rc) := Send(k, AckBytes(packetType, 0, packetId), end);
      Handled(u, rc == FAILURE, rc)
  }

  function HandlePacket(k: Keep, input: Input, end: nat): (r: Handled)
    ensures r.k.timeout == k.timeout && r.k.pingrespTimer == k.pingrespTimer && r.rc in {MQTT_SUCCESS, FAILURE}
    ensures if input.packetType == PINGRESP then !r.exit && !r.k.outstanding && r.k.history == k.history + [Ponged]
            else r.k.outstanding == k.outstanding && r.k.history == k.history
  {
    if input.packetType == PUBLISH then
      if !input.parsed then Handled(k, true, MQTT_SUCCESS)
      else if input.qos == 0 then Handled(k, false, MQTT_SUCCESS)
      else if input.qos > 2 then Handled(k, true, FAILURE)
      else if k.bufSize < 4 then Handled(k, true, FAILURE)
      else
        var u := k.(world := Tick(k.world));
        Acknowledge(u, if input.qos == 1 then PUBACK else PUBREC, input.packetId, u.world.now + 20)
    else if input.packetType == PUBREC then
      if !input.parsed then Handled(k, true, FAILURE) else Acknowledge(k, PUBREL, input.packetId, end)
    else if input.packetType == PINGRESP then
      Handled(k.(outstanding := false, history := k.history + [Ponged]), false, MQTT_SUCCESS)
    else Handled(k, false, MQTT_SUCCESS)
  }

  /** After keepalive: a ping that stays unanswered for too long ends the connection. */
  function CheckPong(k: Keep): (Keep, int) {
    if k.outstanding then
      var u := k.(world := Tick(k.world));
      if u.pingrespTimer <= u.world.now
      then (u.(outstanding := false, history := u.history + [Lost(u.world.now)]), CONNECTION_LOST)
      else (u, MQTT_SUCCESS)
    else (k, MQTT_SUCCESS)
  }

  /** cycle */
  function CycleState(k: Keep, input: Input, end: nat): (Keep, int) {
    var h := HandlePacket(k, input, end);
    var (u, rc) := if h.exit then (h.k, h.rc) else CheckPong(KeepAliveState(h.k));
    (u, if rc == MQTT_SUCCESS then input.packetType else rc)
  }

  class Client {
    const buf: array<byte>
    var keepAliveInterval: nat
    var command_timeout_ms: nat
    var ping_outstanding: bool
    var ping_timer: nat
    var pingresp_timer: nat
    var world: World
    ghost var history: seq<Event>
    ghost var restarted: Option<nat>
    ghost var sent: seq<seq<byte>>

    /** MQTTClient; the interval is set by MQTTConnect. */
    constructor (buf: array<byte>, command_timeout_ms: nat, interval: nat, world: World)
      ensures State() == Keep(false, 0, 0, interval, command_timeout_ms, buf.Length, world, [], None, [])
    {
      this.buf := buf;
      this.keepAliveInterval := interval;
      this.command_timeout_ms := command_timeout_ms;
      this.ping_outstanding := false;
      this.ping_timer := 0;
      this.pingresp_timer := 0;
      this.world := world;
      this.history := [];
      this.restarted := None;
      this.sent := [];
    }

    ghost function State(): Keep
      reads this
    {
      Keep(ping_outstanding, ping_timer, pingresp_timer, keepAliveInterval, command_timeout_ms, buf.Length, world,
           history, restarted, sent)
    }

    method Now() returns (now: nat)
      modifies this`world
      ensures world == Tick(old(world)) && now == world.now
    {
      world := Tick(world);
      now := world.now;
    }

    method Write() returns (rc: int)
      modifies this`world
      ensures if old(world).writes == [] then rc == FAILURE && world == old(world)
              else rc == old(world).writes[0] && world == old(world).(writes := old(world).writes[1..])
    {
      rc := FAILURE;
      if world.writes != [] {
        rc := world.writes[0];
        world := world.(writes := world.writes[1..]);
      }
    }

    method SendPacket(length: nat, timer: nat) returns (rc: int)
      requires length <= buf.Length
      modifies this`world, this`ping_timer, this`restarted, this`sent
      ensures (State(), rc) == Send(old(State()), buf[..length], timer)
    {
      rc := FAILURE;
      var done: nat := 0;
      ghost var goal := SendLoop(world, 0, length, timer);
      while done < length
        invariant SendLoop(world, done, length, timer) == goal
        invariant ping_timer == old(ping_timer) && restarted == old(restarted) && sent == old(sent)
        decreases |world.writes|, length - done
      {
        var now := Now();
        if timer <= now {
          break;
        }
        rc := Write();
        if rc < 0 {
          break;
        }
        done := done + rc;
      }
      assert (world, done) == goal;
      if done == length {
        var now := Now();
        ping_timer := now + keepAliveInterval * 1000;
        restarted := Some(now);
        sent := sent + [buf[..length]];
        rc := MQTT_SUCCESS;
      } else {
        rc := FAILURE;
      }
    }

    method KeepAlive()
      modifies this, buf
      ensures State() == KeepAliveState(old(State()))
    {
      hide Send, Tick, ZeroBytes;
      if keepAliveInterval == 0 {
        return;
      }
      var now := Now();
      if ping_timer <= now {
        if !ping_outstanding {
          var rc := FAILURE;
          now := Now();
          var timer := now + 1000;
          var len := SerializeZero(buf, buf.Length, PINGREQ);
          if len > 0 {
            PrefixWritten(buf[..], ZeroBytes(PINGREQ));
            rc := SendPacket(len, timer);
          }
          if rc == MQTT_SUCCESS {
            now := Now();
            pingresp_timer := now + command_timeout_ms;
            history := history + [Pinged(true, now)];
          } else {
            history := history + [Pinged(false, world.now)];
          }
        }
        ping_outstanding := true;
      }
    }

    /** The packet as it was read is the input; timer is the end time of the timer that cycle was given. */
    method Cycle(input: Input, timer: nat) returns (rc: int)
      modifies this, buf
      ensures (State(), rc) == CycleState(old(State()), input, timer)
    {
      hide Send, Tick, KeepAliveState, AckBytes;
      rc := MQTT_SUCCESS;
      var exit := false;
      if input.packetType == PUBLISH {
        if !input.parsed {
          exit := true;
        } else if input.qos != 0 {
          var len := 0;
          if input.qos == 1 {
            len := SerializeAck(buf, buf.Length, PUBACK, 0, input.packetId);
          } else if input.qos == 2 {
            len := SerializeAck(buf, buf.Length, PUBREC, 0, input.packetId);
          }
          if len <= 0 {
            rc := FAILURE;
          } else {
            PrefixWritten(buf[..], AckBytes(if input.qos == 1 then PUBACK else PUBREC, 0, input.packetId));
            var now := Now();
            rc := SendPacket(len, now + 20);
          }
          exit := rc == FAILURE;
        }
      } else if input.packetType == PUBREC {
        if !input.parsed {
          rc := FAILURE;
        } else {
          var len := SerializeAck(buf, buf.Length, PUBREL, 0, input.packetId);
          if len <= 0 {
            rc := FAILURE;
          } else {
            PrefixWritten(buf[..], AckBytes(PUBREL, 0, input.packetId));
            rc := SendPacket(len, timer);
          }
        }
        exit := rc == FAILURE;
      } else if input.packetType == PINGRESP {
        ping_outstanding := false;
        history := history + [Ponged];
      }
      assert Handled(State(), exit, rc) == HandlePacket(old(State()), input, timer);
      if !exit {
        KeepAlive();
        if ping_outstanding {
          var now := Now();
          if pingresp_timer <= now {
            ping_outstanding := false;
            rc := CONNECTION_LOST;
            history := history + [Lost(now)];
          }
        }
      }
      if rc == MQTT_SUCCESS {
        rc := input.packetType;
      }
    }
  }

  lemma PrefixWritten(after: seq<byte>, written: seq<byte>)
    requires exists before :: Wrote(before, after, written)
    ensures |written| <= |after| && after[..|written|] == written
  {
  }

  // What is sent

  function Total(results: seq<int>): int {
    if results == [] then 0 else results[0] + Total(results[1..])
  }

  /** The writes took a packet of that length: none failed, and what they returned adds up. */
  predicate Accepted(results: seq<int>, length: int) {
    (forall rc | rc in results :: rc >= 0) && Total(results) == length
  }

  lemma AcceptedMore(rc: nat, results: seq<int>, length: int)
    ensures Accepted([rc] + results, rc + length) <==> Accepted(results, length)
  {
    assert ([rc] + results)[1..] == results;
    assert forall r | r in results :: r in [rc] + results;
  }

  /** From w on the loop has come to u, with all writes between taken and only the last one failed, if any did. */
  predicate LoopTook(w: World, u: World, added: int) {
    var n := |w.writes| - |u.writes|;
    && 0 <= n && u.writes == w.writes[n..] && w.now <= u.now
    && ((n > 0 && w.writes[n - 1] < 0) || Accepted(w.writes[..n], added))
  }

  lemma LoopTookOneMore(w: World, x: World, u: World, added: int)
    requires w.writes != [] && w.writes[0] >= 0 && x.writes == w.writes[1..] && w.now <= x.now
    requires LoopTook(x, u, added)
    ensures LoopTook(w, u, w.writes[0] + added)
    ensures |x.writes| > |u.writes| ==> x.writes[|x.writes| - |u.writes| - 1] == w.writes[|w.writes| - |u.writes| - 1]
  {
    hide Accepted;
    var n := |w.writes| - |u.writes|;
    assert w.writes[n..] == x.writes[n - 1..];
    if n > 1 && x.writes[n - 2] < 0 {
      assert w.writes[n - 1] < 0;
    } else {
      assert w.writes[..n] == [w.writes[0]] + x.writes[..n - 1];
      AcceptedMore(w.writes[0], x.writes[..n - 1], added);
    }
  }

  /** The loop ends once the length is reached, after a failed write, or when the time is over. */
  lemma {:induction false} LoopTakes(w: World, sent: nat, length: nat, end: nat)
    ensures var (u, done) := SendLoop(w, sent, length, end);
            var n := |w.writes| - |u.writes|;
            && LoopTook(w, u, done - sent) && sent <= done
            && (sent >= length ==> u == w) && (n == 0 ==> done == sent)
            && (n > 0 && w.writes[n - 1] < 0 ==> done < length)
            && (done < length ==> (n > 0 && w.writes[n - 1] < 0) || end <= u.now || u.writes == [])
            && (n > 0 && done >= length ==> u.now < end)
    decreases |w.writes|
  {
    hide Tick, LoopTook;
    var v := Tick(w);
    if sent >= length || end <= v.now || v.writes == [] {
      TookNothing(w, SendLoop(w, sent, length, end).0);
    } else if v.writes[0] < 0 {
      TookFailure(w, v.(writes := v.writes[1..]));
    } else {
      var rc, x := v.writes[0], v.(writes := v.writes[1..]);
      LoopTakes(x, sent + rc, length, end);
      var (u, done) := SendLoop(x, sent + rc, length, end);
      TookSome(x, u, done - sent - rc);
      LoopTookOneMore(w, x, u, done - sent - rc);
    }
  }

  lemma TookNothing(w: World, u: World)
    requires u.writes == w.writes && w.now <= u.now
    ensures LoopTook(w, u, 0)
  {
    NothingAccepted(w.writes[..0]);
  }

  lemma TookFailure(w: World, u: World)
    requires w.writes != [] && w.writes[0] < 0 && u.writes == w.writes[1..] && w.now <= u.now
    ensures LoopTook(w, u, 0)
  {
  }

  lemma TookSome(w: World, u: World, added: int)
    requires LoopTook(w, u, added)
    ensures |u.writes| <= |w.writes|
  {
  }

  lemma TookAll(w: World, u: World, added: int)
    requires LoopTook(w, u, added)
    ensures |u.writes| <= |w.writes| && w.now <= u.now
    ensures var n := |w.writes| - |u.writes|;
            u.writes == w.writes[n..] && ((n > 0 && w.writes[..n][n - 1] < 0) || Accepted(w.writes[..n], added))
  {
    hide Accepted;
  }

  lemma AcceptedIsSum(results: seq<int>, a: int, b: int)
    ensures Accepted(results, a) && Accepted(results, b) ==> a == b
    ensures Accepted(results, b) && results != [] ==> results[|results| - 1] >= 0
  {
    if results != [] {
      assert results[|results| - 1] in results;
    }
  }

  lemma NothingAccepted(results: seq<int>)
    requires results == []
    ensures Accepted(results, 0)
  {
  }

  /**
   A packet is sent if and only if no write that was taken for it failed and they add up to its length. Then the ping
   timer runs for the keep-alive interval from the end of the packet on, and otherwise it stays.
   */
  lemma SendTakes(k: Keep, packet: seq<byte>, end: nat)
    ensures var (u, rc) := Send(k, packet, end);
            var n := |k.world.writes| - |u.world.writes|;
            && 0 <= n && u.world.writes == k.world.writes[n..] && k.world.now <= u.world.now
            && (rc == 0 <==> Accepted(k.world.writes[..n], |packet|))
            && u == if rc == 0
                    then k.(world := u.world, sent := k.sent + [packet], restarted := Some(u.world.now),
                            pingTimer := u.world.now + k.interval * 1000)
                    else k.(world := u.world)
  {
    hide SendLoop, Tick, Accepted, LoopTook;
    LoopTakes(k.world, 0, |packet|, end);
    var (w, done) := SendLoop(k.world, 0, |packet|, end);
    TookAll(k.world, w, done);
    var taken := k.world.writes[..|k.world.writes| - |w.writes|];
    AcceptedIsSum(taken, done, |packet|);
    assert done == |packet| <==> Accepted(taken, |packet|);
  }

  /** If one write would take the whole packet, the packet is sent exactly if the time is not over before it. */
  lemma OneWriteSends(k: Keep, packet: seq<byte>, end: nat)
    requires packet != [] && k.world.writes != [] && k.world.writes[0] == |packet|
    ensures Send(k, packet, end).1 == 0 <==> Tick(k.world).now < end
  {
    hide Tick;
    var v := Tick(k.world);
    if v.now < end {
      assert SendLoop(v.(writes := v.writes[1..]), |packet|, |packet|, end).1 == |packet|;
    }
  }

  /**
   A parsed PUBLISH of qos 1 or 2 is answered with PUBACK or PUBREC, a parsed PUBREC with PUBREL, each with the packet
   id that was read: either all four bytes went out, or the cycle ends with FAILURE and nothing was sent. Nothing else
   is answered, and no write is done for it.
   */
  lemma PacketIsAcknowledged(k: Keep, input: Input, timer: nat)
    ensures var due := input.parsed && ((input.packetType == 3 && 1 <= input.qos <= 2) || input.packetType == 5);
            var h := HandlePacket(k, input, timer);
            var n := |k.world.writes| - |h.k.world.writes|;
            && 0 <= n && (due ==> (h.rc == 0 <==> k.bufSize >= 4 && Accepted(k.world.writes[..n], 4)))
            && (due && h.rc == 0 ==>
                  h.k.sent == k.sent + [[if input.packetType == 5 then 0x62 else if input.qos == 1 then 0x40 else 0x50,
                                         0x02, input.packetId / 256 % 256, input.packetId % 256]])
            && (!due ==> n == 0 && (h.rc == -1 <==> (input.packetType == 3 && input.parsed && input.qos > 2) ||
                                                    (input.packetType == 5 && !input.parsed)))
            && (!due || h.rc == -1 ==> h.k.sent == k.sent && h.k.pingTimer == k.pingTimer)
            && (h.exit <==> h.rc == -1 || (input.packetType == 3 && !input.parsed))
            && h.k.outstanding == (k.outstanding && input.packetType != 13)
  {
    hide Send, Tick, AckBytes, Accepted;
    AckLayout(input.packetId);
    if k.bufSize >= 4 {
      var u := if input.packetType == 5 then k else k.(world := Tick(k.world));
      var end := if input.packetType == 5 then timer else u.world.now + 20;
      var packetType := if input.packetType == 5 then PUBREL else if input.qos == 1 then PUBACK else PUBREC;
      SendTakes(u, AckBytes(packetType, 0, input.packetId), end);
    }
  }

  /**
   An acknowledgement that one write would take is sent exactly if there is time: twenty milliseconds for that of a
   PUBLISH, for that of a PUBREC until the timer of the cycle ends.
   */
  lemma AcknowledgedInTime(k: Keep, input: Input, timer: nat)
    requires k.bufSize >= 4 && k.world.writes != [] && k.world.writes[0] == 4
    requires input.parsed && ((input.packetType == 3 && 1 <= input.qos <= 2) || input.packetType == 5)
    ensures HandlePacket(k, input, timer).rc == 0 <==>
              if input.packetType == 3 then Tick(Tick(k.world)).now < Tick(k.world).now + 20
              else Tick(k.world).now < timer
  {
    hide Send, Tick, AckBytes;
    var u := if input.packetType == 5 then k else k.(world := Tick(k.world));
    var end := if input.packetType == 5 then timer else u.world.now + 20;
    var packetType := if input.packetType == 5 then PUBREL else if input.qos == 1 then PUBACK else PUBREC;
    OneWriteSends(u, AckBytes(packetType, 0, input.packetId), end);
  }

  /** A ping that is due and that one write would take is sent exactly if that happens within a second. */
  lemma PingInTime(k: Keep)
    requires k.interval > 0 && !k.outstanding && k.pingTimer <= Tick(k.world).now
    requires k.bufSize >= 2 && k.world.writes != [] && k.world.writes[0] == 2
    ensures var t := Tick(Tick(k.world));
            PingSent(KeepAliveState(k)) <==> Tick(t).now < t.now + 1000
  {
    hide Send, Tick, ZeroBytes;
    var k2 := k.(world := Tick(Tick(k.world)));
    OneWriteSends(k2, ZeroBytes(PINGREQ), k2.world.now + 1000);
  }

  /**
   keepalive pings exactly when an interval is set, no ping is outstanding and the ping timer has run out; what it sends
   is a PINGREQ if the writes take it, and nothing otherwise.
   */
  lemma PingIsTried(k: Keep)
    ensures var u := KeepAliveState(k);
            var n := |k.world.writes| - |u.world.writes|;
            && 0 <= n
            && if k.interval > 0 && !k.outstanding && k.pingTimer <= Tick(k.world).now
               then && u.outstanding && |u.history| == |k.history| + 1 && u.history[..|k.history|] == k.history
                    && var e := u.history[|k.history|];
                    && e.Pinged? && e.at <= u.world.now
                    && (e.sent <==> k.bufSize >= 2 && Accepted(k.world.writes[..n], 2))
                    && u.sent == (if e.sent then k.sent + [[0xC0, 0x00]] else k.sent)
                    && u.pingrespTimer == if e.sent then e.at + k.timeout else k.pingrespTimer
               else u == k.(world := u.world) && n == 0
  {
    hide Send, Tick, ZeroBytes, Accepted;
    PingreqLayout();
    var k2 := k.(world := Tick(Tick(k.world)));
    SendTakes(k2, ZeroBytes(PINGREQ), k2.world.now + 1000);
  }

  // Runs

  /**
   What a run of the client does, each command under the lock: a cycle, a packet sent by a command, or a new
   keep-alive interval.
   */
  datatype Action =
    | RunCycle(input: Input, timer: nat)
    | SendCommand(packet: seq<byte>, timer: nat)
    | SetInterval(interval: nat)

  function Step(k: Keep, a: Action): Keep {
    match a
    case RunCycle(input, timer) => CycleState(k, input, timer).0
    case SendCommand(packet, timer) => Send(k, packet, timer).0
    case SetInterval(interval) =>
      var w := Tick(k.world);
      k.(interval := interval, world := w, pingTimer := w.now + interval * 1000, restarted := Some(w.now))
  }

  function Run(k: Keep, actions: seq<Action>): Keep {
    if actions == [] then k else Step(Run(k, actions[..|actions| - 1]), actions[|actions| - 1])
  }

  /** A client as MQTTClient leaves it. */
  predicate Fresh(k: Keep) {
    && !k.outstanding && k.pingTimer == 0 && k.pingrespTimer == 0
    && k.history == [] && k.restarted == None && k.sent == []
  }

  /**
   The loss at position i follows the ping at position j: no other ping and no PINGRESP came between, and the ping
   either was not sent or was sent at least the timeout before.
   */
  predicate FollowsPing(history: seq<Event>, timeout: nat, i: nat, j: nat)
    requires j < i < |history| && history[i].Lost?
  {
    && history[j].Pinged?
    && (forall m :: j < m < i ==> !history[m].Pinged? && !history[m].Ponged?)
    && (history[j].sent ==> history[j].at + timeout <= history[i].at)
  }

  predicate Justified(history: seq<Event>, timeout: nat) {
    forall i :: 0 <= i < |history| && history[i].Lost? ==> i > 0 && FollowsPing(history, timeout, i, i - 1)
  }

  /** When the answer to the last ping that was sent is overdue; at once if none was. */
  function Due(history: seq<Event>, timeout: nat): nat {
    if history == [] then 0
    else
      var last := history[|history| - 1];
      if last.Pinged? && last.sent then last.at + timeout else Due(history[..|history| - 1], timeout)
  }

  lemma DueMore(history: seq<Event>, timeout: nat, e: Event)
    ensures Due(history + [e], timeout) == if e.Pinged? && e.sent then e.at + timeout else Due(history, timeout)
  {
    assert (history + [e])[..|history|] == history;
  }

  /** A ping is outstanding exactly while it is the last that happened; the timer is that of the last ping sent. */
  predicate Inv(k: Keep) {
    && Justified(k.history, k.timeout)
    && (k.outstanding <==> k.history != [] && k.history[|k.history| - 1].Pinged?)
    && k.pingrespTimer == Due(k.history, k.timeout)
  }

  lemma JustifiedMore(history: seq<Event>, timeout: nat, e: Event)
    requires Justified(history, timeout)
    requires e.Lost? ==> history != [] && FollowsPing(history + [e], timeout, |history|, |history| - 1)
    ensures Justified(history + [e], timeout)
  {
  }

  lemma KeepAliveKeepsInv(k: Keep)
    requires Inv(k)
    ensures Inv(KeepAliveState(k))
    ensures var h := KeepAliveState(k).history;
            h == k.history || (|h| == |k.history| + 1 && h[|k.history|].Pinged? && h[..|k.history|] == k.history)
  {
    hide Send, Tick, Justified, Due;
    var u := KeepAliveState(k);
    if u.history != k.history {
      DueMore(k.history, k.timeout, u.history[|k.history|]);
      JustifiedMore(k.history, k.timeout, u.history[|k.history|]);
      assert u.history == k.history + [u.history[|k.history|]];
    }
  }

  lemma CheckPongKeepsInv(k: Keep)
    requires Inv(k)
    ensures Inv(CheckPong(k).0) && CheckPong(k).0.timeout == k.timeout
    ensures CheckPong(k).1 in {CONNECTION_LOST, MQTT_SUCCESS}
    ensures var h := CheckPong(k).0.history;
            if CheckPong(k).1 == CONNECTION_LOST then |h| == |k.history| + 1 && h[|k.history|].Lost? else h == k.history
  {
    var (u, rc) := CheckPong(k);
    if rc == CONNECTION_LOST {
      DueMore(k.history, k.timeout, Lost(u.world.now));
      JustifiedMore(k.history, k.timeout, Lost(u.world.now));
    }
  }

  lemma PacketKeepsInv(k: Keep, input: Input, timer: nat)
    requires Inv(k)
    ensures var u := HandlePacket(k, input, timer).k;
            && Inv(u) && u.timeout == k.timeout && Due(u.history, k.timeout) == Due(k.history, k.timeout)
  {
    hide HandlePacket, Justified, Due;
    if input.packetType == PINGRESP {
      DueMore(k.history, k.timeout, Ponged);
      JustifiedMore(k.history, k.timeout, Ponged);
    }
  }

  lemma CycleKeepsInv(k: Keep, input: Input, timer: nat)
    requires Inv(k)
    ensures var (u, rc) := CycleState(k, input, timer);
            && Inv(u) && u.timeout == k.timeout
            && (rc == CONNECTION_LOST <==> |u.history| > |k.history| && u.history[|u.history| - 1].Lost?)
  {
    hide HandlePacket, KeepAliveState, CheckPong, Justified, Due;
    var h := HandlePacket(k, input, timer);
    PacketKeepsInv(k, input, timer);
    if !h.exit {
      KeepAliveKeepsInv(h.k);
      CheckPongKeepsInv(KeepAliveState(h.k));
    }
  }

  lemma StepKeepsInv(k: Keep, a: Action)
    requires Inv(k)
    ensures Inv(Step(k, a)) && Step(k, a).timeout == k.timeout
  {
    hide Send, CycleState, Justified, Tick, Due;
    match a
    case RunCycle(input, timer) => CycleKeepsInv(k, input, timer);
    case _ =>
  }

  /**
   Over every run of a client, whatever the clock and the network do, a connection is given up only for a ping that
   stays unanswered.
   */
  lemma {:induction false} RunKeepsInv(k: Keep, actions: seq<Action>)
    requires Fresh(k)
    ensures Inv(Run(k, actions)) && Run(k, actions).timeout == k.timeout
  {
    hide Step;
    if actions != [] {
      RunKeepsInv(k, actions[..|actions| - 1]);
      StepKeepsInv(Run(k, actions[..|actions| - 1]), actions[|actions| - 1]);
    }
  }

  /**
   Whenever a cycle of a run reports CONNECTION_LOST, the last ping_outstanding was set by a ping that no PINGRESP
   followed, and that ping was not sent at all or was sent at least command_timeout_ms before.
   */
  lemma LostOnlyAfterSilence(k: Keep, actions: seq<Action>, input: Input, timer: nat)
    requires Fresh(k)
    ensures var (u, rc) := CycleState(Run(k, actions), input, timer);
            rc == CONNECTION_LOST ==>
              var last := |u.history| - 1;
              last > 0 && u.history[last].Lost? && FollowsPing(u.history, k.timeout, last, last - 1)
  {
    hide CycleState, HandlePacket, KeepAliveState, Run;
    RunKeepsInv(k, actions);
    CycleKeepsInv(Run(k, actions), input, timer);
  }

  // Acknowledgements and pings over runs

  /** Is it a PUBACK, PUBREC or PUBREL? */
  predicate IsAck(packet: seq<byte>) {
    |packet| == 4 && packet[0] in {0x40, 0x50, 0x62} && packet[1] == 0x02
  }

  predicate IsPing(packet: seq<byte>) {
    packet == [0xC0, 0x00]
  }

  function Acks(sent: seq<seq<byte>>): seq<seq<byte>> {
    if sent == [] then []
    else
      var last := |sent| - 1;
      Acks(sent[..last]) + if IsAck(sent[last]) then [sent[last]] else []
  }

  function Pings(sent: seq<seq<byte>>): nat {
    if sent == [] then 0
    else
      var last := |sent| - 1;
      Pings(sent[..last]) + if IsPing(sent[last]) then 1 else 0
  }

  function PingsSent(history: seq<Event>): nat {
    if history == [] then 0
    else
      var last := |history| - 1;
      PingsSent(history[..last]) + if history[last].Pinged? && history[last].sent then 1 else 0
  }

  lemma SentMore(sent: seq<seq<byte>>, packet: seq<byte>)
    ensures Acks(sent + [packet]) == Acks(sent) + if IsAck(packet) then [packet] else []
    ensures Pings(sent + [packet]) == Pings(sent) + if IsPing(packet) then 1 else 0
  {
    assert (sent + [packet])[..|sent|] == sent;
  }

  lemma HistoryMore(history: seq<Event>, e: Event)
    ensures PingsSent(history + [e]) == PingsSent(history) + if e.Pinged? && e.sent then 1 else 0
  {
    assert (history + [e])[..|history|] == history;
  }

  /** The acknowledgement that the sender of a packet waits for. */
  function AckFor(input: Input): seq<seq<byte>> {
    var id := [input.packetId / 256 % 256, input.packetId % 256];
    if !input.parsed then []
    else if input.packetType == 3 && input.qos == 1 then [[0x40, 0x02] + id]
    else if input.packetType == 3 && input.qos == 2 then [[0x50, 0x02] + id]
    else if input.packetType == 5 then [[0x62, 0x02] + id]
    else []
  }

  /** What a run owes: the acknowledgement of each packet whose cycle does not end with FAILURE, in order. */
  function Owed(k: Keep, actions: seq<Action>): seq<seq<byte>> {
    if actions == [] then []
    else
      var (before, last) := (actions[..|actions| - 1], actions[|actions| - 1]);
      Owed(k, before) +
      if last.RunCycle? && CycleState(Run(k, before), last.input, last.timer).1 != FAILURE then AckFor(last.input)
      else []
  }

  /** Commands send packets of other kinds. */
  predicate OtherPackets(actions: seq<Action>) {
    forall a | a in actions :: a.SendCommand? ==> !IsAck(a.packet) && !IsPing(a.packet)
  }

  lemma PacketSends(k: Keep, input: Input, timer: nat)
    ensures var h := HandlePacket(k, input, timer);
            && Acks(h.k.sent) == Acks(k.sent) + (if h.rc == FAILURE then [] else AckFor(input))
            && Pings(h.k.sent) == Pings(k.sent) && PingsSent(h.k.history) == PingsSent(k.history)
  {
    hide HandlePacket, Acks, Pings, PingsSent, Accepted;
    PacketIsAcknowledged(k, input, timer);
    if AckFor(input) != [] {
      var ack := AckFor(input)[0];
      assert AckFor(input) == [ack];
      SentMore(k.sent, ack);
      assert ack == [ack[0], ack[1], ack[2], ack[3]];
    }
    HistoryMore(k.history, Ponged);
  }

  lemma KeepAliveSends(k: Keep)
    ensures var u := KeepAliveState(k);
            Acks(u.sent) == Acks(k.sent) && Pings(u.sent) - Pings(k.sent) == PingsSent(u.history) - PingsSent(k.history)
  {
    hide KeepAliveState, Acks, Pings, PingsSent, Accepted;
    var u := KeepAliveState(k);
    PingIsTried(k);
    SentMore(k.sent, [0xC0, 0x00]);
    if u.history != k.history {
      assert u.history == k.history + [u.history[|k.history|]];
      HistoryMore(k.history, u.history[|k.history|]);
    }
  }

  lemma CycleSends(k: Keep, input: Input, timer: nat)
    ensures var (u, rc) := CycleState(k, input, timer);
            && Acks(u.sent) == Acks(k.sent) + (if rc == FAILURE then [] else AckFor(input))
            && Pings(u.sent) - Pings(k.sent) == PingsSent(u.history) - PingsSent(k.history)
  {
    hide HandlePacket, KeepAliveState, Acks, Pings, PingsSent, AckFor;
    var h := HandlePacket(k, input, timer);
    PacketSends(k, input, timer);
    PacketIsAcknowledged(k, input, timer);
    if !h.exit {
      KeepAliveSends(h.k);
      var c := KeepAliveState(h.k);
      HistoryMore(c.history, Lost(CheckPong(c).0.world.now));
    }
  }

  /**
   Over every run, whatever the clock and the network do, the acknowledgements on the wire are exactly those of the
   packets that were received, each once and in order, but for the cycles that report FAILURE; and the PINGREQ packets
   on the wire are as many as the pings that count as sent.
   */
  lemma {:induction false} RunSends(k: Keep, actions: seq<Action>)
    requires Fresh(k) && OtherPackets(actions)
    ensures Acks(Run(k, actions).sent) == Owed(k, actions)
    ensures Pings(Run(k, actions).sent) == PingsSent(Run(k, actions).history)
  {
    hide Send, CycleState, Tick, AckFor, IsAck, IsPing;
    if actions != [] {
      var before, last := actions[..|actions| - 1], actions[|actions| - 1];
      var t := Run(k, before);
      RunSends(k, before);
      match last
      case RunCycle(input, timer) => CycleSends(t, input, timer);
      case SendCommand(packet, timer) => SentMore(t.sent, packet);
      case SetInterval(_) =>
    }
  }

  /** The client when a cycle has handled its packet and done keepalive, before the check. */
  function AtCheck(t: Keep, input: Input, timer: nat): Keep {
    KeepAliveState(HandlePacket(t, input, timer).k)
  }

  /** The ping timer counts from the last packet that was sent or interval that was set, and has run out before. */
  predicate TimerInv(k: Keep) {
    k.pingTimer == match k.restarted case None => 0 case Some(at) => at + k.interval * 1000
  }

  lemma CycleKeepsTimer(k: Keep, input: Input, timer: nat)
    requires TimerInv(k)
    ensures TimerInv(HandlePacket(k, input, timer).k) && TimerInv(CycleState(k, input, timer).0)
  {
    hide Tick, SendLoop, AckBytes, ZeroBytes;
  }

  lemma {:induction false} RunKeepsTimer(k: Keep, actions: seq<Action>)
    requires Fresh(k)
    ensures TimerInv(Run(k, actions))
  {
    hide CycleState, Tick, SendLoop;
    if actions != [] {
      var before, last := actions[..|actions| - 1], actions[|actions| - 1];
      RunKeepsTimer(k, before);
      if last.RunCycle? {
        CycleKeepsTimer(Run(k, before), last.input, last.timer);
      }
    }
  }

  /**
   Pings are due exactly. In every run, a cycle that gets as far as keepalive tries a ping if and only if an interval is
   set, the last event is not a ping, and the interval has passed since the last packet that was sent or SetInterval.
   */
  lemma PingIsDue(k: Keep, actions: seq<Action>, input: Input, timer: nat)
    requires Fresh(k) && !HandlePacket(Run(k, actions), input, timer).exit
    ensures var h := HandlePacket(Run(k, actions), input, timer).k;
            |AtCheck(Run(k, actions), input, timer).history| > |h.history| <==>
              && h.interval > 0 && (h.history == [] || !h.history[|h.history| - 1].Pinged?)
              && (h.restarted.Some? ==> h.restarted.value + h.interval * 1000 <= Tick(h.world).now)
  {
    hide Run, HandlePacket, KeepAliveState, CycleState, Justified, Due;
    var t := Run(k, actions);
    RunKeepsInv(k, actions);
    RunKeepsTimer(k, actions);
    CycleKeepsTimer(t, input, timer);
    PacketKeepsInv(t, input, timer);
    PingIsTried(HandlePacket(t, input, timer).k);
  }

  /** After SetInterval, a cycle that sends no acknowledgement pings exactly when the interval has passed since. */
  lemma IntervalCounts(k: Keep, actions: seq<Action>, interval: nat, input: Input, timer: nat)
    requires Fresh(k) && input.packetType !in {3, 5}
    ensures var t := Run(k, actions);
            var u := Run(k, actions + [SetInterval(interval)]);
            var h := HandlePacket(u, input, timer).k;
            AtCheck(u, input, timer).history != h.history <==>
              && interval > 0 && (h.history == [] || !h.history[|h.history| - 1].Pinged?)
              && Tick(t.world).now + interval * 1000 <= Tick(Tick(t.world)).now
  {
    hide KeepAliveState, CycleState, Justified, Due, Tick, Send;
    var more := actions + [SetInterval(interval)];
    assert more[..|actions|] == actions;
    var u := Run(k, more);
    RunKeepsInv(k, more);
    PacketKeepsInv(u, input, timer);
    PingIsTried(HandlePacket(u, input, timer).k);
  }

  /**
   The loss is exact. In every run, a cycle that gets as far as the check reports it if and only if a ping is then
   outstanding and the clock has reached the time at which the answer to the last ping that was sent is overdue.
   */
  lemma LossIsExact(k: Keep, actions: seq<Action>, input: Input, timer: nat)
    requires Fresh(k) && !HandlePacket(Run(k, actions), input, timer).exit
    ensures var c := AtCheck(Run(k, actions), input, timer);
            var (u, rc) := CycleState(Run(k, actions), input, timer);
            rc == CONNECTION_LOST <==> c.outstanding && Due(c.history, k.timeout) <= u.world.now
  {
    hide Run, HandlePacket, KeepAliveState, Justified, Due;
    RunKeepsInv(k, actions);
    PacketKeepsInv(Run(k, actions), input, timer);
    KeepAliveKeepsInv(HandlePacket(Run(k, actions), input, timer).k);
  }

  /** The last thing that happened is a ping that was sent. */
  predicate PingSent(k: Keep) {
    k.history != [] && k.history[|k.history| - 1].Pinged? && k.history[|k.history| - 1].sent
  }

  /** So no unanswered ping goes unnoticed: the loss is reported exactly when the timeout has passed. */
  lemma SilenceIsReported(k: Keep, actions: seq<Action>, input: Input, timer: nat)
    requires Fresh(k)
    requires var t := Run(k, actions);
             && PingSent(t)
             && input.packetType != PINGRESP && !HandlePacket(t, input, timer).exit
    ensures var t := Run(k, actions);
            var (u, rc) := CycleState(t, input, timer);
            rc == CONNECTION_LOST <==> t.history[|t.history| - 1].at + k.timeout <= u.world.now
  {
    hide Run, Send, Tick, CycleState;
    RunKeepsInv(k, actions);
    LossIsExact(k, actions, input, timer);
  }

  /** The cycle tried a ping, and it was not sent. */
  predicate PingFails(t: Keep, input: Input, timer: nat) {
    var h := HandlePacket(t, input, timer);
    var c := AtCheck(t, input, timer);
    !h.exit && |c.history| == |h.k.history| + 1 && c.history[|h.k.history|].Pinged? && !c.history[|h.k.history|].sent
  }

  /**
   A ping that cannot be sent leaves the timer of the answer as the last ping that was sent had set it: the cycle gives
   the connection up if and only if the time of that ping has run out.
   */
  lemma FailedPingIsExact(k: Keep, actions: seq<Action>, input: Input, timer: nat)
    requires Fresh(k) && PingFails(Run(k, actions), input, timer)
    ensures var t := Run(k, actions);
            var (u, rc) := CycleState(t, input, timer);
            rc == CONNECTION_LOST <==> Due(t.history, k.timeout) <= u.world.now
  {
    hide Run, HandlePacket, KeepAliveState, Justified, Due, CycleState;
    var t := Run(k, actions);
    var h, c := HandlePacket(t, input, timer), AtCheck(t, input, timer);
    RunKeepsInv(k, actions);
    PacketKeepsInv(t, input, timer);
    KeepAliveKeepsInv(h.k);
    LossIsExact(k, actions, input, timer);
    assert c.history == c.history[..|h.k.history|] + [c.history[|h.k.history|]];
    DueMore(h.k.history, k.timeout, c.history[|h.k.history|]);
  }

  /** Hence a ping that cannot be sent when none ever was loses the connection in the same cycle, in every run. */
  lemma FailedPingLosesAtOnce(k: Keep, actions: seq<Action>, input: Input, timer: nat)
    requires Fresh(k) && PingFails(Run(k, actions), input, timer)
    requires forall e | e in Run(k, actions).history :: e.Pinged? ==> !e.sent
    ensures CycleState(Run(k, actions), input, timer).1 == CONNECTION_LOST
  {
    hide Run, HandlePacket, KeepAliveState, CycleState, Due;
    FailedPingIsExact(k, actions, input, timer);
    NeverDue(Run(k, actions).history, k.timeout);
  }

  lemma {:induction false} NeverDue(history: seq<Event>, timeout: nat)
    requires forall e | e in history :: e.Pinged? ==> !e.sent
    ensures Due(history, timeout) == 0
  {
    if history != [] {
      assert history[|history| - 1] in history;
      NeverDue(history[..|history| - 1], timeout);
    }
  }

  /**
   It happens to a connected client: interval and connect packet sent at time 0, nothing for fifteen seconds, and then
   a ping that the network refuses. Three seconds of patience were configured, none are given.
   */
  lemma FailedPingWitness(packet: seq<byte>)
    requires |packet| == 20
    ensures var k := Keep(false, 0, 0, 0, 3000, 256, World(0, [0, 0, 0, 15000], [20]), [], None, []);
            var actions := [SetInterval(15), SendCommand(packet, 3000)];
            var t := Run(k, actions);
            && Fresh(k) && t.pingTimer == 15000 && t.sent == [packet] && PingFails(t, Input(0, true, 0, 0), 16000)
            && CycleState(t, Input(0, true, 0, 0), 16000) ==
               (t.(world := World(15000, [], []), history := [Pinged(false, 15000), Lost(15000)]), CONNECTION_LOST)
  {
    var k := Keep(false, 0, 0, 0, 3000, 256, World(0, [0, 0, 0, 15000], [20]), [], None, []);
    var connect := [SetInterval(15)];
    var actions := [SetInterval(15), SendCommand(packet, 3000)];
    assert actions[..1] == connect && connect[..0] == [];
    var k1 := Keep(false, 15000, 0, 15, 3000, 256, World(0, [0, 0, 15000], [20]), [], Some(0), []);
    assert Run(k, []) == k && Run(k, connect) == k1;
    var ticks: seq<nat>, writes: seq<int> := [0, 0, 15000], [20];
    assert ticks[1..] == [0, 15000] && writes[1..] == [];
    assert SendLoop(k1.world, 0, 20, 3000) == (World(0, [0, 15000], []), 20);
    ticks := [0, 15000];
    assert ticks[1..] == [15000];
    var t := Keep(false, 15000, 0, 15, 3000, 256, World(0, [15000], []), [], Some(0), [packet]);
    assert Run(k, actions) == t;
    ticks := [15000];
    assert ticks[1..] == [] && Tick(t.world) == World(15000, [], []);
    var history: seq<Event> := [];
    assert history + [Pinged(false, 15000)] == [Pinged(false, 15000)];
    assert [Pinged(false, 15000)] + [Lost(15000)] == [Pinged(false, 15000), Lost(15000)];
    assert KeepAliveState(t) ==
           t.(world := World(15000, [], []), outstanding := true, history := [Pinged(false, 15000)]);
  }
}
