/**
 The capture queue of ej_wificonfig.c: six static buffers behind a queue of five entries. The radio's
 handler copies a packet into the current buffer and sends an entry that points at it; the smart-connect
 thread takes entries off and reads the buffer.
 */
module CaptureRing {
  import opened Bytes

  const SMT_RX_QUEUE_SIZE := 5
  const SMTCN_STATIC_BUF_COUNT := SMT_RX_QUEUE_SIZE + 1
  const SMTCN_STATIC_BUF_SIZE := 64

  /** raw_pkt_t, with the bytes copied for it, which the queue itself does not hold. */
  datatype Entry = Entry(buffer: nat, len: nat, copied: seq<byte>)

  /** Where the handler is: between packets, or with some bytes of one copied and the entry not yet sent. */
  datatype Handler = Idle | Copying(payload: seq<byte>, len: nat, done: nat)

  /** inHand: the entry taken last. */
  datatype Ring = Ring(bufs: seq<seq<byte>>, idx: nat, queue: seq<Entry>, handler: Handler, inHand: Option<Entry>)

  datatype Action =
    | Receive(payload: seq<byte>, len: nat)
    | Copy(n: nat)
    | Send(accepted: bool)
    | Dequeue

  function Init(): Ring {
    Ring(seq(SMTCN_STATIC_BUF_COUNT, _ => seq(SMTCN_STATIC_BUF_SIZE, _ => 0)), 0, [], Idle, None)
  }

  predicate Shape(r: Ring) {
    && |r.bufs| == SMTCN_STATIC_BUF_COUNT
    && (forall i | 0 <= i < |r.bufs| :: |r.bufs[i]| == SMTCN_STATIC_BUF_SIZE)
    && r.idx < SMTCN_STATIC_BUF_COUNT
    && (r.handler.Copying? ==> |r.handler.payload| == SMTCN_STATIC_BUF_SIZE && r.handler.done <= SMTCN_STATIC_BUF_SIZE)
  }

  /** A send is accepted only when the queue has room. The handler copies 64 bytes whatever the packet's length. */
  predicate Enabled(r: Ring, a: Action)
    requires Shape(r)
  {
    match a
    case Receive(payload, _) => r.handler.Idle? && |payload| == SMTCN_STATIC_BUF_SIZE
    case Copy(n) => r.handler.Copying? && r.handler.done + n <= SMTCN_STATIC_BUF_SIZE
    case Send(accepted) =>
      r.handler.Copying? && r.handler.done == SMTCN_STATIC_BUF_SIZE && (accepted ==> |r.queue| < SMT_RX_QUEUE_SIZE)
    case Dequeue => r.queue != []
  }

  /** The buffer with bytes from..to of the payload copied over it. */
  function Overwritten(buf: seq<byte>, payload: seq<byte>, from: nat, to: nat): (r: seq<byte>)
    requires from <= to <= |buf| == |payload|
    ensures |r| == |buf|
  {
    buf[..from] + payload[from..to] + buf[to..]
  }

  function Step(r: Ring, a: Action): (r': Ring)
    requires Shape(r) && Enabled(r, a)
    ensures Shape(r')
  {
    match a
    case Receive(payload, len) => r.(handler := Copying(payload, len, 0))
    case Copy(n) =>
      var Copying(payload, len, done) := r.handler;
      r.(bufs := r.bufs[r.idx := Overwritten(r.bufs[r.idx], payload, done, done + n)],
         handler := Copying(payload, len, done + n))
    case Send(accepted) =>
      if accepted then
        r.(queue := r.queue + [Entry(r.idx, r.handler.len, r.handler.payload)],
           idx := (r.idx + 1) % SMTCN_STATIC_BUF_COUNT, handler := Idle)
      else r.(handler := Idle)
    case Dequeue => r.(queue := r.queue[1..], inHand := Some(r.queue[0]))
  }

  /** The buffer that lies n places before the current one. */
  function Back(idx: nat, n: nat): (r: nat)
    requires idx < SMTCN_STATIC_BUF_COUNT && n <= SMTCN_STATIC_BUF_COUNT
    ensures r < SMTCN_STATIC_BUF_COUNT
  {
    (idx + SMTCN_STATIC_BUF_COUNT - n) % SMTCN_STATIC_BUF_COUNT
  }

  /** Queued entries use the buffers just before the current one, in order, and hold what was copied for them. */
  ghost predicate Inv(r: Ring) {
    && Shape(r)
    && |r.queue| <= SMT_RX_QUEUE_SIZE
    && (forall i | 0 <= i < |r.queue| ::
          && r.queue[i].buffer == Back(r.idx, |r.queue| - i)
          && r.bufs[r.queue[i].buffer] == r.queue[i].copied)
    && (r.inHand.Some? ==> r.inHand.value.buffer == Back(r.idx, |r.queue| + 1))
    && (r.handler.Copying? ==> r.bufs[r.idx][..r.handler.done] == r.handler.payload[..r.handler.done])
  }

  lemma BackMoves(idx: nat)
    requires idx < SMTCN_STATIC_BUF_COUNT
    ensures var idx' := (idx + 1) % SMTCN_STATIC_BUF_COUNT;
            && Back(idx', 1) == idx
            && forall n: nat | n < SMTCN_STATIC_BUF_COUNT :: Back(idx', n + 1) == Back(idx, n)
  {
    var idx' := (idx + 1) % SMTCN_STATIC_BUF_COUNT;
    forall n: nat | n < SMTCN_STATIC_BUF_COUNT
      ensures Back(idx', n + 1) == Back(idx, n)
    {
    }
  }

  lemma CopyKeepsInv(r: Ring, n: nat)
    requires Inv(r) && Enabled(r, Copy(n))
    ensures Inv(Step(r, Copy(n)))
  {
    assert forall i | 0 <= i < |r.queue| :: r.queue[i].buffer != r.idx;
  }

  lemma SendKeepsInv(r: Ring, accepted: bool)
    requires Inv(r) && Enabled(r, Send(accepted))
    ensures Inv(Step(r, Send(accepted)))
  {
    hide Overwritten, Back;
    var r' := Step(r, Send(accepted));
    if accepted {
      BackMoves(r.idx);
    }
    assert r.bufs[r.idx] == r.bufs[r.idx][..64] && r.handler.payload == r.handler.payload[..64];
    forall i | 0 <= i < |r'.queue|
      ensures r'.queue[i].buffer == Back(r'.idx, |r'.queue| - i) && r'.bufs[r'.queue[i].buffer] == r'.queue[i].copied
    {
      assert i < |r.queue| ==> r'.queue[i] == r.queue[i];
    }
  }

  lemma DequeueKeepsInv(r: Ring)
    requires Inv(r) && Enabled(r, Dequeue)
    ensures Inv(Step(r, Dequeue))
  {
  }

  lemma StepKeepsInv(r: Ring, a: Action)
    requires Inv(r) && Enabled(r, a)
    ensures Inv(Step(r, a))
  {
    match a
    case Receive(_, _) =>
    case Copy(n) => CopyKeepsInv(r, n);
    case Send(accepted) => SendKeepsInv(r, accepted);
    case Dequeue => DequeueKeepsInv(r);
  }

  ghost predicate Run(rings: seq<Ring>, actions: seq<Action>) {
    && |rings| == |actions| + 1
    && rings[0] == Init()
    && (forall i | 0 <= i < |rings| :: Shape(rings[i]))
    && forall i | 0 <= i < |actions| :: Enabled(rings[i], actions[i]) && rings[i + 1] == Step(rings[i], actions[i])
  }

  lemma {:induction false} RunKeepsInv(rings: seq<Ring>, actions: seq<Action>, k: nat)
    requires Run(rings, actions) && k < |rings|
    ensures Inv(rings[k])
  {
    hide Back, Overwritten;
    if k > 0 {
      RunKeepsInv(rings, actions, k - 1);
      StepKeepsInv(rings[k - 1], actions[k - 1]);
    }
  }

  /** Over every interleaving: what the thread finds at dequeue is what was copied for that entry. */
  lemma DequeuedIsIntact(rings: seq<Ring>, actions: seq<Action>, k: nat)
    requires Run(rings, actions) && k < |actions| && actions[k].Dequeue?
    ensures rings[k + 1].inHand.Some?
    ensures var e := rings[k + 1].inHand.value;
            e == rings[k].queue[0] && e.buffer < SMTCN_STATIC_BUF_COUNT && rings[k + 1].bufs[e.buffer] == e.copied
  {
    RunKeepsInv(rings, actions, k);
  }

  /** A packet as the thread finds it: the bytes of its buffer, and its length. */
  datatype Captured = Captured(bytes: seq<byte>, len: nat)

  /** The packets that the handler was given and the queue took, from what was done alone. */
  function Queued(actions: seq<Action>): seq<Captured> {
    if actions == [] then []
    else
      var before, last := actions[..|actions| - 1], actions[|actions| - 1];
      var given := LastGiven(before);
      Queued(before) + if last == Send(true) && given.Some? then [given.value] else []
  }

  function LastGiven(actions: seq<Action>): Option<Captured> {
    if actions == [] then None
    else
      match actions[|actions| - 1]
      case Receive(payload, len) => Some(Captured(payload, len))
      case _ => LastGiven(actions[..|actions| - 1])
  }

  /** What the thread finds in the buffer of each entry that it takes, and the length that it takes with it. */
  ghost function Found(rings: seq<Ring>, actions: seq<Action>, k: nat): seq<Captured>
    requires Run(rings, actions) && k < |rings|
  {
    if k == 0 then []
    else
      Found(rings, actions, k - 1) +
      if actions[k - 1].Dequeue? then
        DequeuedIsIntact(rings, actions, k - 1);
        var e := rings[k].inHand.value;
        [Captured(rings[k].bufs[e.buffer], e.len)]
      else []
  }

  function Waiting(queue: seq<Entry>): seq<Captured> {
    seq(|queue|, i requires 0 <= i < |queue| => Captured(queue[i].copied, queue[i].len))
  }

  lemma {:induction false} HandlerHoldsGiven(rings: seq<Ring>, actions: seq<Action>, k: nat)
    requires Run(rings, actions) && k < |rings|
    ensures rings[k].handler.Copying? ==>
              LastGiven(actions[..k]) == Some(Captured(rings[k].handler.payload, rings[k].handler.len))
  {
    if k > 0 {
      HandlerHoldsGiven(rings, actions, k - 1);
      assert actions[..k][..k - 1] == actions[..k - 1];
    }
  }

  lemma StepConserves(r: Ring, a: Action)
    requires Shape(r) && Enabled(r, a)
    ensures Waiting(r.queue) + (if a == Send(true) then [Captured(r.handler.payload, r.handler.len)] else []) ==
            (if a.Dequeue? then [Captured(r.queue[0].copied, r.queue[0].len)] else []) + Waiting(Step(r, a).queue)
  {
    hide Overwritten;
  }

  lemma Associates<T>(a: seq<T>, b: seq<T>, c: seq<T>)
    ensures a + (b + c) == a + b + c
  {
  }

  /**
   Over every interleaving of handler and thread: what the thread has found and what still waits is, in order, exactly
   what the queue took, each packet with all its bytes and with the length that the handler was given with it.
   */
  lemma {:induction false} RunConserves(rings: seq<Ring>, actions: seq<Action>, k: nat)
    requires Run(rings, actions) && k < |rings|
    ensures Found(rings, actions, k) + Waiting(rings[k].queue) == Queued(actions[..k])
  {
    if k > 0 {
      hide Step, LastGiven, Waiting, Shape, Inv, Init, Back;
      var r, a := rings[k - 1], actions[k - 1];
      RunConserves(rings, actions, k - 1);
      HandlerHoldsGiven(rings, actions, k - 1);
      StepConserves(r, a);
      assert actions[..k][..k - 1] == actions[..k - 1];
      if a.Dequeue? {
        DequeuedIsIntact(rings, actions, k - 1);
        Associates(Found(rings, actions, k - 1), [Captured(r.queue[0].copied, r.queue[0].len)],
                   Waiting(rings[k].queue));
      }
    }
  }

  ghost predicate InHandIntact(r: Ring)
    requires Shape(r) && (r.inHand.Some? ==> r.inHand.value.buffer < SMTCN_STATIC_BUF_COUNT)
  {
    r.inHand.Some? ==> r.bufs[r.inHand.value.buffer] == r.inHand.value.copied
  }

  /**
   After dequeue the promise is over as soon as the queue fills up again: a copy goes into the buffer of
   the packet in hand exactly when five entries wait.
   */
  lemma CopyHitsPacketInHand(rings: seq<Ring>, actions: seq<Action>, k: nat)
    requires Run(rings, actions) && k < |rings| && rings[k].inHand.Some?
    ensures rings[k].idx == rings[k].inHand.value.buffer <==> |rings[k].queue| == SMT_RX_QUEUE_SIZE
  {
    RunKeepsInv(rings, actions, k);
  }

  /** So the packet in hand survives every step but a copy made while the queue is full. */
  lemma PacketInHandSurvives(rings: seq<Ring>, actions: seq<Action>, k: nat)
    requires Run(rings, actions) && k < |actions|
    requires rings[k].inHand.Some? ==> rings[k].inHand.value.buffer < SMTCN_STATIC_BUF_COUNT
    requires InHandIntact(rings[k]) && !(actions[k].Copy? && |rings[k].queue| == SMT_RX_QUEUE_SIZE)
    ensures rings[k + 1].inHand.Some? ==> rings[k + 1].inHand.value.buffer < SMTCN_STATIC_BUF_COUNT
    ensures InHandIntact(rings[k + 1])
  {
    RunKeepsInv(rings, actions, k);
    if actions[k].Copy? && rings[k].inHand.Some? {
      CopyHitsPacketInHand(rings, actions, k);
    }
  }

  // The promise does end: a run in which the packet in hand is overwritten

  lemma Extend(rings: seq<Ring>, actions: seq<Action>, a: Action) returns (rings': seq<Ring>, actions': seq<Action>)
    requires Run(rings, actions) && Enabled(rings[|rings| - 1], a)
    ensures Run(rings', actions') && |rings'| == |rings| + 1 && rings'[|rings|] == Step(rings[|rings| - 1], a)
  {
    rings', actions' := rings + [Step(rings[|rings| - 1], a)], actions + [a];
  }

  /** The handler's work on one packet that the queue accepts. */
  function Accepted(r: Ring, payload: seq<byte>): Ring
    requires Shape(r) && r.handler.Idle? && |payload| == SMTCN_STATIC_BUF_SIZE
  {
    r.(bufs := r.bufs[r.idx := payload], queue := r.queue + [Entry(r.idx, SMTCN_STATIC_BUF_SIZE, payload)],
       idx := (r.idx + 1) % SMTCN_STATIC_BUF_COUNT)
  }

  lemma ExtendAccepted(rings: seq<Ring>, actions: seq<Action>, payload: seq<byte>)
    returns (rings': seq<Ring>, actions': seq<Action>)
    requires Run(rings, actions) && |payload| == SMTCN_STATIC_BUF_SIZE
    requires var r := rings[|rings| - 1]; r.handler.Idle? && |r.queue| < SMT_RX_QUEUE_SIZE
    ensures Run(rings', actions') && rings'[|rings'| - 1] == Accepted(rings[|rings| - 1], payload)
  {
    var r := rings[|rings| - 1];
    rings', actions' := Extend(rings, actions, Receive(payload, SMTCN_STATIC_BUF_SIZE));
    assert Overwritten(r.bufs[r.idx], payload, 0, SMTCN_STATIC_BUF_SIZE) == payload;
    rings', actions' := Extend(rings', actions', Copy(SMTCN_STATIC_BUF_SIZE));
    rings', actions' := Extend(rings', actions', Send(true));
  }

  lemma {:induction false} FillFromStart(n: nat, payload: seq<byte>) returns (rings: seq<Ring>, actions: seq<Action>)
    requires n <= SMT_RX_QUEUE_SIZE && |payload| == SMTCN_STATIC_BUF_SIZE
    ensures Run(rings, actions)
    ensures var r := rings[|rings| - 1]; |r.queue| == n && r.handler.Idle?
  {
    hide Overwritten;
    if n == 0 {
      rings, actions := [Init()], [];
    } else {
      rings, actions := FillFromStart(n - 1, payload);
      rings, actions := ExtendAccepted(rings, actions, payload);
    }
  }

  /** Fill the queue, take one packet, fill the queue again, and start the next: the packet in hand is gone. */
  lemma PacketInHandCanBeLost() returns (rings: seq<Ring>, actions: seq<Action>)
    ensures Run(rings, actions)
    ensures var r := rings[|rings| - 1];
            r.inHand.Some? && r.inHand.value.buffer < SMTCN_STATIC_BUF_COUNT && !InHandIntact(r)
  {
    hide Overwritten, Back;
    var zeros: seq<byte> := seq(SMTCN_STATIC_BUF_SIZE, _ => 0);
    var ones: seq<byte> := seq(SMTCN_STATIC_BUF_SIZE, _ => 1);
    rings, actions := FillFromStart(SMT_RX_QUEUE_SIZE, zeros);
    rings, actions := Extend(rings, actions, Dequeue);
    RunKeepsInv(rings, actions, |rings| - 1);
    rings, actions := ExtendAccepted(rings, actions, zeros);
    CopyHitsPacketInHand(rings, actions, |rings| - 1);
    RunKeepsInv(rings, actions, |rings| - 1);
    var e := rings[|rings| - 1].inHand.value;
    var other := if e.copied == ones then zeros else ones;
    assert zeros[0] != ones[0];
    rings, actions := Extend(rings, actions, Receive(other, SMTCN_STATIC_BUF_SIZE));
    WholeCopy(rings[|rings| - 1], other);
    rings, actions := Extend(rings, actions, Copy(SMTCN_STATIC_BUF_SIZE));
  }

  lemma WholeCopy(r: Ring, payload: seq<byte>)
    requires Shape(r) && |payload| == SMTCN_STATIC_BUF_SIZE
    ensures Overwritten(r.bufs[r.idx], payload, 0, SMTCN_STATIC_BUF_SIZE) == payload
  {
  }

  // The code

  datatype RawPkt = RawPkt(payload: nat, len: nat)   // payload: the index of the buffer pointed at

  class Capture {
    const smt_rx_buf: array2<byte>
    var smt_rx_buf_idx: nat
    var smt_rx_queue: seq<RawPkt>
    ghost var ring: Ring

    constructor ()
      ensures Valid() && ring == Init() && fresh(smt_rx_buf)
    {
      smt_rx_buf := new byte[SMTCN_STATIC_BUF_COUNT, SMTCN_STATIC_BUF_SIZE]((_, _) => 0);
      smt_rx_buf_idx := 0;
      smt_rx_queue := [];
      ring := Init();
    }

    /** The globals show the ring; only the bytes copied for each entry are history. */
    ghost predicate Valid()
      reads this, smt_rx_buf
    {
      && Inv(ring) && ring.handler.Idle?
      && smt_rx_buf.Length0 == SMTCN_STATIC_BUF_COUNT && smt_rx_buf.Length1 == SMTCN_STATIC_BUF_SIZE
      && (forall i, j | 0 <= i < SMTCN_STATIC_BUF_COUNT && 0 <= j < SMTCN_STATIC_BUF_SIZE ::
            smt_rx_buf[i, j] == ring.bufs[i][j])
      && smt_rx_buf_idx == ring.idx
      && |smt_rx_queue| == |ring.queue|
      && forall i | 0 <= i < |ring.queue| :: smt_rx_queue[i] == RawPkt(ring.queue[i].buffer, ring.queue[i].len)
    }

    /** smt_rx_handler: copy, then send; the buffer is given up only when the queue takes the entry. */
    method RxHandler(payload: seq<byte>, len: nat)
      requires Valid() && |payload| >= SMTCN_STATIC_BUF_SIZE
      modifies this, smt_rx_buf
      ensures Valid()
      ensures var received := Step(old(ring), Receive(payload[..SMTCN_STATIC_BUF_SIZE], len));
              var copied := Step(received, Copy(SMTCN_STATIC_BUF_SIZE));
              ring == Step(copied, Send(|old(ring).queue| < SMT_RX_QUEUE_SIZE))
    {
      hide Back, Overwritten;
      var bytes := payload[..SMTCN_STATIC_BUF_SIZE];
      CopyPayload(bytes);
      WholeCopy(ring, bytes);
      ring := Step(ring, Receive(bytes, len));
      CopyKeepsInv(ring, SMTCN_STATIC_BUF_SIZE);
      ring := Step(ring, Copy(SMTCN_STATIC_BUF_SIZE));
      var accepted := |smt_rx_queue| < SMT_RX_QUEUE_SIZE;
      SendKeepsInv(ring, accepted);
      ring := Step(ring, Send(accepted));
      if accepted {
        smt_rx_queue := smt_rx_queue + [RawPkt(smt_rx_buf_idx, len)];
        smt_rx_buf_idx := (smt_rx_buf_idx + 1) % SMTCN_STATIC_BUF_COUNT;
      }
    }

    /** memcpy( smt_rx_buf[smt_rx_buf_idx], payload, SMTCN_STATIC_BUF_SIZE ) */
    method CopyPayload(bytes: seq<byte>)
      requires |bytes| == SMTCN_STATIC_BUF_SIZE && smt_rx_buf_idx < smt_rx_buf.Length0 &&
               smt_rx_buf.Length1 == SMTCN_STATIC_BUF_SIZE
      modifies smt_rx_buf
      ensures forall i, k | 0 <= i < smt_rx_buf.Length0 && 0 <= k < SMTCN_STATIC_BUF_SIZE ::
                smt_rx_buf[i, k] == if i == smt_rx_buf_idx then bytes[k] else old(smt_rx_buf[i, k])
    {
      for j := 0 to SMTCN_STATIC_BUF_SIZE
        invariant forall i, k | 0 <= i < smt_rx_buf.Length0 && 0 <= k < SMTCN_STATIC_BUF_SIZE ::
            smt_rx_buf[i, k] == if i == smt_rx_buf_idx && k < j then bytes[k] else old(smt_rx_buf[i, k])
      {
        smt_rx_buf[smt_rx_buf_idx, j] := bytes[j];
      }
    }

    /** One turn of the thread's loop: the bytes and the length it finds are those of the entry. */
    method TakePacket() returns (taken: Option<Captured>)
      requires Valid()
      modifies this
      ensures Valid()
      ensures if old(ring).queue == [] then taken == None && ring == old(ring)
              else taken == Some(Waiting(old(ring).queue)[0]) && ring == Step(old(ring), Dequeue)
    {
      hide Back;
      taken := None;
      if |smt_rx_queue| > 0 {
        DequeueKeepsInv(ring);
        var pkt := smt_rx_queue[0];
        assert pkt.payload < SMTCN_STATIC_BUF_COUNT && ring.bufs[pkt.payload] == ring.queue[0].copied by {
          HeadInRange(ring);
        }
        var bytes := seq(SMTCN_STATIC_BUF_SIZE, j requires 0 <= j < SMTCN_STATIC_BUF_SIZE &&
                                                           pkt.payload < smt_rx_buf.Length0 &&
                                                           smt_rx_buf.Length1 == SMTCN_STATIC_BUF_SIZE
                                                  reads smt_rx_buf => smt_rx_buf[pkt.payload, j]);
        assert bytes == ring.bufs[pkt.payload];
        taken := Some(Captured(bytes, pkt.len));
        smt_rx_queue := smt_rx_queue[1..];
        ring := Step(ring, Dequeue);
      }
    }
  }

  lemma HeadInRange(r: Ring)
    requires Inv(r) && r.queue != []
    ensures r.queue[0].buffer < SMTCN_STATIC_BUF_COUNT && r.bufs[r.queue[0].buffer] == r.queue[0].copied
  {
  }
}
