/**
 The lists of nolock-list.c: a ring of slots with a read cursor moved only by the consumer and a
 write cursor moved only by the producer. First the list as an object whose operations run alone;
 then every interleaving of one producer and one consumer, at single reads and writes.
 */
module NolockList {

  /** The cursor after c: it wraps at the last slot. */
  function Next(c: nat, length: nat): (r: nat)
    requires c < length
    ensures r == if c + 1 == length then 0 else c + 1
  {
    (c + 1) % length
  }

  class List<T(0)> {
    var r_cursor: nat
    var w_cursor: nat
    var length: nat
    var data: array<T>

    ghost predicate Valid()
      reads this
    {
      data.Length == length && r_cursor < length && w_cursor < length
    }

    /** The queue the ring stands for, oldest element first. */
    ghost function Contents(): (s: seq<T>)
      requires Valid()
      reads this, data
      ensures |s| < length
    {
      if r_cursor <= w_cursor then data[r_cursor..w_cursor] else data[r_cursor..] + data[..w_cursor]
    }

    /** new_nolock_list; a list of no slots has no valid cursor. */
    constructor (length: nat)
      requires length > 0
      ensures Valid() && fresh(data) && this.length == length && Contents() == []
    {
      this.data := new T[length];
      this.r_cursor := 0;
      this.w_cursor := 0;
      this.length := length;
    }

    /** nolock_list_push refuses exactly when length - 1 elements wait. */
    method Push(x: T) returns (ret: bool)
      requires Valid()
      modifies this`w_cursor, data
      ensures Valid()
      ensures ret == (|old(Contents())| < length - 1)
      ensures Contents() == if ret then old(Contents()) + [x] else old(Contents())
    {
      hide Next;
      ret := false;
      var next := Next(w_cursor, length);
      if next != r_cursor {
        data[w_cursor] := x;
        w_cursor := next;
        ret := true;
      }
    }

    /** nolock_list_pop leaves the caller's variable alone when the list is empty. */
    method Pop(initial: T) returns (ret: bool, x: T)
      requires Valid()
      modifies this`r_cursor
      ensures Valid()
      ensures ret == (old(Contents()) != [])
      ensures if ret then [x] + Contents() == old(Contents()) else x == initial && Contents() == old(Contents())
    {
      hide Next;
      ret, x := false, initial;
      if r_cursor != w_cursor {
        x := data[r_cursor];
        r_cursor := Next(r_cursor, length);
        ret := true;
      }
    }
  }

  // One producer, one consumer, interleaved at every read or write of a cursor or a slot

  /** A slot, as far as the list has written it. */
  datatype Slot<T> = Unwritten | Written(value: T)

  /** Where the producer is in nolock_list_push. */
  datatype Producer<T> =
    | PushIdle
    | WillCheckRoom(x: T, next: nat)
    | WillWriteSlot(x: T, next: nat)
    | WillMoveWrite(x: T, next: nat)

  /** Where the consumer is in nolock_list_pop. */
  datatype Consumer<T> =
    | PopIdle
    | WillReadSlot
    | WillMoveRead(read: Slot<T>)

  datatype State<T> = State(slots: seq<Slot<T>>, r: nat, w: nat, producer: Producer<T>, consumer: Consumer<T>)

  datatype Action<T> = BeginPush(x: T) | CheckRoom | WriteSlot | MoveWrite | CheckItem | ReadSlot | MoveRead

  /** What a step lets the callers see: a call that returned, with its result. */
  datatype Event<T> = Silent | Pushed(x: T) | PushRefused(rejected: T) | Popped(v: Slot<T>) | PopRefused

  datatype Outcome<T> = Disabled | Enabled(state: State<T>, event: Event<T>)

  predicate InRange<T>(s: State<T>) {
    s.r < |s.slots| && s.w < |s.slots|
  }

  function Init<T>(length: nat): State<T>
    requires length > 0
  {
    State(seq(length, _ => Unwritten), 0, 0, PushIdle, PopIdle)
  }

  function Step<T>(s: State<T>, a: Action<T>): Outcome<T>
    requires InRange(s)
  {
    match (a, s.producer, s.consumer)
    case (BeginPush(x), PushIdle, _) =>
      Enabled(s.(producer := WillCheckRoom(x, Next(s.w, |s.slots|))), Silent)
    case (CheckRoom, WillCheckRoom(x, next), _) =>
      if next != s.r then Enabled(s.(producer := WillWriteSlot(x, next)), Silent)
      else Enabled(s.(producer := PushIdle), PushRefused(x))
    case (WriteSlot, WillWriteSlot(x, next), _) =>
      Enabled(s.(slots := s.slots[s.w := Written(x)], producer := WillMoveWrite(x, next)), Silent)
    case (MoveWrite, WillMoveWrite(x, next), _) =>
      Enabled(s.(w := next, producer := PushIdle), Pushed(x))
    case (CheckItem, _, PopIdle) =>
      if s.r != s.w then Enabled(s.(consumer := WillReadSlot), Silent) else Enabled(s, PopRefused)
    case (ReadSlot, _, WillReadSlot) =>
      Enabled(s.(consumer := WillMoveRead(s.slots[s.r])), Silent)
    case (MoveRead, _, WillMoveRead(v)) =>
      Enabled(s.(r := Next(s.r, |s.slots|), consumer := PopIdle), Popped(v))
    case _ => Disabled
  }

  /** The slots from the read cursor up to the write cursor, oldest first. */
  function Waiting<T>(s: State<T>): seq<Slot<T>>
    requires InRange(s)
  {
    if s.r <= s.w then s.slots[s.r..s.w] else s.slots[s.r..] + s.slots[..s.w]
  }

  ghost predicate ProducerInv<T>(s: State<T>)
    requires InRange(s)
  {
    match s.producer
    case PushIdle => true
    case WillCheckRoom(_, next) => next == Next(s.w, |s.slots|)
    case WillWriteSlot(_, next) => next == Next(s.w, |s.slots|) && next != s.r
    case WillMoveWrite(x, next) => next == Next(s.w, |s.slots|) && next != s.r && s.slots[s.w] == Written(x)
  }

  ghost predicate ConsumerInv<T>(s: State<T>)
    requires InRange(s)
  {
    match s.consumer
    case PopIdle => true
    case WillReadSlot => s.r != s.w
    case WillMoveRead(v) => s.r != s.w && s.slots[s.r] == v
  }

  ghost predicate Inv<T>(s: State<T>) {
    && InRange(s)
    && ProducerInv(s)
    && ConsumerInv(s)
    && forall v | v in Waiting(s) :: v.Written?
  }

  // The queue that the list implements

  datatype Replayed<T> = Illegal | Legal(queue: seq<Slot<T>>)

  /** What an event does to a FIFO queue that holds at most capacity elements; a refusal is legal only when due. */
  function FifoStep<T(==)>(q: seq<Slot<T>>, e: Event<T>, capacity: nat): Replayed<T> {
    match e
    case Silent => Legal(q)
    case Pushed(x) => if |q| < capacity then Legal(q + [Written(x)]) else Illegal
    case PushRefused(_) => if |q| == capacity then Legal(q) else Illegal
    case Popped(v) => if v.Written? && q != [] && q[0] == v then Legal(q[1..]) else Illegal
    case PopRefused => if q == [] then Legal(q) else Illegal
  }

  /** The queue after a history of events, if a FIFO queue can have that history. */
  function Replay<T(==)>(events: seq<Event<T>>, capacity: nat): Replayed<T> {
    if events == [] then Legal([])
    else match Replay(events[..|events| - 1], capacity)
      case Illegal => Illegal
      case Legal(q) => FifoStep(q, events[|events| - 1], capacity)
  }

  lemma InitInv<T>(length: nat)
    requires length > 0
    ensures Inv(Init<T>(length)) && Waiting(Init<T>(length)) == []
  {
  }

  /** A slot about to be read has been written, and holds the oldest waiting element. */
  lemma ReadsWritten<T>(s: State<T>)
    requires Inv(s) && !s.consumer.PopIdle?
    ensures s.slots[s.r].Written? && |Waiting(s)| > 0 && Waiting(s)[0] == s.slots[s.r]
  {
  }

  lemma StepKeepsRange<T>(s: State<T>, a: Action<T>)
    requires Inv(s) && Step(s, a).Enabled?
    ensures InRange(Step(s, a).state) && |Step(s, a).state.slots| == |s.slots|
  {
  }

  lemma WaitingFits<T>(s: State<T>)
    requires Inv(s)
    ensures |Waiting(s)| <= |s.slots| - 1
    ensures s.producer.WillCheckRoom? && s.producer.next == s.r ==> |Waiting(s)| == |s.slots| - 1
    ensures s.producer.WillMoveWrite? ==> |Waiting(s)| < |s.slots| - 1
  {
  }

  /** Every step keeps the invariant and is a step of the queue of capacity length - 1. */
  lemma StepRefinesFifo<T>(s: State<T>, a: Action<T>)
    requires Inv(s) && Step(s, a).Enabled?
    ensures var (s', e) := (Step(s, a).state, Step(s, a).event);
            Inv(s') && |s'.slots| == |s.slots| && FifoStep(Waiting(s), e, |s.slots| - 1) == Legal(Waiting(s'))
  {
    hide Next;
    StepKeepsRange(s, a);
    WaitingFits(s);
    var s' := Step(s, a).state;
    match a
    case BeginPush(_) =>
    case CheckRoom =>
    case WriteSlot => assert Waiting(s') == Waiting(s);
    case MoveWrite => assert Waiting(s') == Waiting(s) + [s.slots[s.w]];
    case CheckItem =>
    case ReadSlot =>
    case MoveRead =>
      ReadsWritten(s);
      assert Waiting(s') == Waiting(s)[1..];
  }

  // Whole runs

  /** The state after the actions, with the events they caused, if every action was enabled. */
  datatype Result<T> = Stuck | Reached(state: State<T>, events: seq<Event<T>>)

  function Run<T>(s: State<T>, actions: seq<Action<T>>): Result<T> {
    if actions == [] then Reached(s, [])
    else
      var before := Run(s, actions[..|actions| - 1]);
      if before.Stuck? || !InRange(before.state) then Stuck
      else match Step(before.state, actions[|actions| - 1])
        case Disabled => Stuck
        case Enabled(s', e) => Reached(s', before.events + [e])
  }

  function Accepted<T>(events: seq<Event<T>>): seq<Slot<T>> {
    if events == [] then [] else
      var e := events[|events| - 1];
      Accepted(events[..|events| - 1]) + if e.Pushed? then [Written(e.x)] else []
  }

  function Delivered<T>(events: seq<Event<T>>): seq<Slot<T>> {
    if events == [] then [] else
      var e := events[|events| - 1];
      Delivered(events[..|events| - 1]) + if e.Popped? then [e.v] else []
  }

  /** Over every interleaving: the calls' results are a history of the FIFO queue of capacity length - 1. */
  lemma {:induction false} RunRefinesFifo<T>(length: nat, actions: seq<Action<T>>)
    requires length > 0 && Run(Init<T>(length), actions).Reached?
    ensures var Reached(s, events) := Run(Init<T>(length), actions);
            Inv(s) && |s.slots| == length && Replay(events, length - 1) == Legal(Waiting(s))
  {
    hide Step, FifoStep, Waiting, ProducerInv, ConsumerInv;
    if actions == [] {
      InitInv<T>(length);
    } else {
      var front, last := actions[..|actions| - 1], actions[|actions| - 1];
      RunRefinesFifo(length, front);
      var Reached(t, earlier) := Run(Init<T>(length), front);
      StepRefinesFifo(t, last);
      assert (earlier + [Step(t, last).event])[..|earlier|] == earlier;
    }
  }

  /**
   In every such history what was accepted is what was delivered followed by what waits, in order:
   nothing is lost, duplicated or reordered, and nothing unwritten is delivered.
   */
  lemma {:induction false} FifoConserves<T>(events: seq<Event<T>>, capacity: nat)
    requires Replay(events, capacity).Legal?
    ensures var q := Replay(events, capacity).queue;
            && Accepted(events) == Delivered(events) + q
            && |q| <= capacity
            && forall v | v in Delivered(events) :: v.Written?
  {
    if events != [] {
      FifoConserves(events[..|events| - 1], capacity);
    }
  }
}
