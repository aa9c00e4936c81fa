/** The bounded event bus as a concurrent protocol: every atomic action of publishers, consumer and drops. */
module EventBus {
  import opened Wrappers
  import opened Numbers
  import opened Types

  type ThreadId = nat

  datatype PublishAck = PublishAck(sequence: nat, timestampNs: u64)

  datatype BusError =
    | InvalidCapacity
    | ClockUnavailable
    | SequenceExhausted
    | EnvelopeRejected(error: TypesError)
    | Closed

  /** How far the publisher that holds the lock has come. */
  datatype Pc<P> =
    | Locked
    | Timed(timestampNs: u64)
    | Sealed(env: Envelope<P>)
    | Full(env: Envelope<P>)
    | Blocked(env: Envelope<P>)
    | Sent(env: Envelope<P>)
    | Advanced(env: Envelope<P>)
    | Counted(env: Envelope<P>)

  /** The `publish` call that holds the lock: who made it, with what, and how far it is. */
  datatype Holder<P> = Holder(thread: ThreadId, payload: P, meta: PublishMeta, pc: Pc<P>)

  /** A `publish` call that has returned successfully. */
  datatype Published<P> = Published(thread: ThreadId, payload: P, meta: PublishMeta, ack: PublishAck)

  /**
   * The shared state. `received`, `discarded`, `acks` and `failures` record what has happened and are read by no step.
   */
  datatype Bus<P> = Bus(
    capacity: nat,
    queue: seq<Envelope<P>>,
    nextSequence: nat,
    publishedTotal: nat,
    consumedTotal: nat,
    backpressureTotal: nat,
    holder: Option<Holder<P>>,
    inHand: Option<Envelope<P>>,
    consumerAlive: bool,
    busAlive: bool,
    received: seq<Envelope<P>>,
    discarded: seq<Envelope<P>>,
    acks: seq<Published<P>>,
    failures: seq<(ThreadId, BusError)>)

  datatype BusStats = BusStats(published: nat, consumed: nat, backpressure: nat, depth: nat, capacity: nat)

  /** Both sides there, nobody inside a call, nothing in the channel and nothing counted. */
  predicate IsIdle<P>(b: Bus<P>) {
    && b.consumerAlive && b.busAlive && b.holder.None? && b.inHand.None? && |b.queue| == 0
    && b.nextSequence == b.publishedTotal == b.consumedTotal == b.backpressureTotal == 0
  }

  function New<P>(capacity: nat): (r: Result<Bus<P>, BusError>)
    ensures capacity == 0 <==> r == Err(InvalidCapacity)
    ensures capacity > 0 ==> r.Ok? && r.value.capacity == capacity && IsIdle(r.value)
  {
    if capacity == 0 then Err(InvalidCapacity)
    else Ok(Bus(capacity, [], 0, 0, 0, 0, None, None, true, true, [], [], [], []))
  }

  /** One atomic action. `Acquire` takes the lock; `Proceed` is the lock holder's next action. */
  datatype Action<P> =
    | Acquire(thread: ThreadId, payload: P, meta: PublishMeta)
    | ReadClock(now: Option<u64>)
    | Proceed
    | Pop
    | CountConsumed
    | DropConsumer
    | DropBus
    | ReadStats

  function Release<P>(b: Bus<P>, error: BusError): Bus<P>
    requires b.holder.Some?
  {
    b.(holder := None, failures := b.failures + [(b.holder.value.thread, error)])
  }

  function At<P>(b: Bus<P>, pc: Pc<P>): Bus<P>
    requires b.holder.Some?
  {
    b.(holder := Some(b.holder.value.(pc := pc)))
  }

  function Push<P>(b: Bus<P>, env: Envelope<P>): Bus<P>
    requires b.holder.Some?
  {
    At(b, Sent(env)).(queue := b.queue + [env])
  }

  /** The lock holder's next action; `None` while it is blocked in a send (or still has to read the clock). */
  function ProceedFrom<P>(b: Bus<P>, h: Holder<P>): Option<Bus<P>>
    requires b.holder == Some(h)
  {
    match h.pc
    case Locked => None
    case Timed(ts) =>
      if b.nextSequence >= U64_MAX then Some(Release(b, SequenceExhausted))
      else (match Seal(h.meta, h.payload, b.nextSequence, ts)
            case Err(e) => Some(Release(b, EnvelopeRejected(e)))
            case Ok(env) => Some(At(b, Sealed(env))))
    case Sealed(env) =>
      if !b.consumerAlive then Some(Release(b, Closed))
      else if |b.queue| < b.capacity then Some(Push(b, env))
      else Some(At(b, Full(env)))
    case Full(env) => Some(At(b, Blocked(env)).(backpressureTotal := b.backpressureTotal + 1))
    case Blocked(env) =>
      if !b.consumerAlive then Some(Release(b, Closed))
      else if |b.queue| < b.capacity then Some(Push(b, env))
      else None
    case Sent(env) => Some(At(b, Advanced(env)).(nextSequence := b.nextSequence + 1))
    case Advanced(env) => Some(At(b, Counted(env)).(publishedTotal := b.publishedTotal + 1))
    case Counted(env) => Some(b.(holder := None,
      acks := b.acks + [Published(h.thread, h.payload, h.meta, PublishAck(env.sequence, env.timestampNs))]))
  }

  /** The state after an action, or `None` where the action is not possible. */
  function Apply<P>(b: Bus<P>, a: Action<P>): Option<Bus<P>> {
    match a
    case Acquire(t, payload, meta) =>
      if b.holder == None && b.busAlive then Some(b.(holder := Some(Holder(t, payload, meta, Locked)))) else None
    case ReadClock(now) =>
      if b.holder.Some? && b.holder.value.pc.Locked? then
        if now == None || now.value == 0 then Some(Release(b, ClockUnavailable))
        else Some(At(b, Timed(now.value)))
      else None
    case Proceed => if b.holder.Some? then ProceedFrom(b, b.holder.value) else None
    case Pop =>
      if b.consumerAlive && b.inHand == None && b.queue != [] then
        Some(b.(queue := b.queue[1..], inHand := Some(b.queue[0]), received := b.received + [b.queue[0]]))
      else None
    case CountConsumed =>
      if b.inHand.Some? then Some(b.(inHand := None, consumedTotal := b.consumedTotal + 1)) else None
    case DropConsumer =>
      if b.consumerAlive && b.inHand == None
      then Some(b.(consumerAlive := false, queue := [], discarded := b.discarded + b.queue))
      else None
    case DropBus => if b.busAlive && b.holder == None then Some(b.(busAlive := false)) else None
    case ReadStats => Some(b)
  }

  /** `stats`: five independent reads, none of them of the lock or what it protects. */
  function Stats<P>(b: Bus<P>): BusStats {
    BusStats(b.publishedTotal, b.consumedTotal, b.backpressureTotal, |b.queue|, b.capacity)
  }

  ghost predicate Run<P(!new)>(capacity: nat, bs: seq<Bus<P>>, actions: seq<Action<P>>) {
    && |bs| == |actions| + 1
    && New(capacity) == Ok(bs[0])
    && forall i :: 0 <= i < |actions| ==> Apply(bs[i], actions[i]) == Some(bs[i + 1])
  }

  // ----- the invariant ----------------------------------------------------------------------

  /** Every envelope ever put into the channel, in the order it was put there. */
  function Pushed<P>(b: Bus<P>): seq<Envelope<P>> {
    b.received + b.discarded + b.queue
  }

  predicate Holds<P>(b: Bus<P>, n: nat) {
    b.holder.Some? && match b.holder.value.pc
      case Sent(_) => n == 0
      case Advanced(_) => n == 1
      case Counted(_) => n == 2
      case _ => false
  }

  function One(c: bool): nat {
    if c then 1 else 0
  }

  ghost predicate Inv<P>(b: Bus<P>) {
    var pushed := Pushed(b);
    && 0 < b.capacity && |b.queue| <= b.capacity
    && (if b.consumerAlive then b.discarded == [] else b.queue == [] && b.inHand == None)
    && (forall i :: 0 <= i < |pushed| ==> pushed[i].sequence == i && IsValid(pushed[i]))
    && b.nextSequence <= U64_MAX
    && |pushed| == b.nextSequence + One(Holds(b, 0))
    && |pushed| == b.publishedTotal + One(Holds(b, 0) || Holds(b, 1))
    && |b.received| == b.consumedTotal + One(b.inHand.Some?)
    && (b.inHand.Some? ==> b.received != [] && b.inHand.value == b.received[|b.received| - 1])
    && |b.acks| == b.publishedTotal - One(Holds(b, 2))
    && (forall i :: 0 <= i < |b.acks| ==> i < |pushed| && Matches(b.acks[i], pushed[i]))
    && (b.holder.Some? ==> PcInv(b, b.holder.value, pushed))
  }

  /** The call's acknowledgement and arguments are those of the envelope. */
  predicate Matches<P(==)>(call: Published<P>, env: Envelope<P>) {
    env == Envelope(env.sequence, env.timestampNs, call.meta, call.payload)
    && call.ack == PublishAck(env.sequence, env.timestampNs)
  }

  predicate Carries<P(==)>(h: Holder<P>, env: Envelope<P>) {
    env.payload == h.payload && env.meta == h.meta
  }

  ghost predicate PcInv<P>(b: Bus<P>, h: Holder<P>, pushed: seq<Envelope<P>>) {
    match h.pc
    case Locked => true
    case Timed(_) => true
    case Sealed(env) => env.sequence == b.nextSequence < U64_MAX && IsValid(env) && Carries(h, env)
    case Full(env) => env.sequence == b.nextSequence < U64_MAX && IsValid(env) && Carries(h, env)
    case Blocked(env) => env.sequence == b.nextSequence < U64_MAX && IsValid(env) && Carries(h, env)
    case Sent(env) => b.nextSequence < U64_MAX && |pushed| > 0 && env == pushed[|pushed| - 1] && Carries(h, env)
    case Advanced(env) => |pushed| > 0 && env == pushed[|pushed| - 1] && Carries(h, env)
    case Counted(env) => |pushed| > 0 && env == pushed[|pushed| - 1] && Carries(h, env)
  }

  lemma ConsumerStepKeepsPushed<P>(b: Bus<P>, a: Action<P>, b': Bus<P>)
    requires Inv(b) && Apply(b, a) == Some(b') && !a.Proceed?
    ensures Pushed(b') == Pushed(b)
  {
    hide IsValid;
    match a {
      case Pop =>
        assert b.queue == [b.queue[0]] + b.queue[1..];
        assert b'.received + b'.discarded == b'.received;
        assert b.received + b.discarded == b.received;
      case DropConsumer =>
        assert b.received + b.discarded == b.received;
        assert b'.discarded == b.queue;
      case _ =>
    }
  }

  lemma PushedByProceed<P>(b: Bus<P>, b': Bus<P>)
    requires Apply(b, Proceed) == Some(b')
    ensures if Holds(b', 0)
            then (b.holder.value.pc.Sealed? || b.holder.value.pc.Blocked?)
              && Pushed(b') == Pushed(b) + [b.holder.value.pc.env]
            else Pushed(b') == Pushed(b)
  {
    hide IsValid;
    var pc := b.holder.value.pc;
    if (pc.Sealed? || pc.Blocked?) && b.consumerAlive && |b.queue| < b.capacity {
      assert b.received + b.discarded + (b.queue + [pc.env]) == b.received + b.discarded + b.queue + [pc.env];
    }
  }

  lemma OutsideKeepsInv<P>(b: Bus<P>, a: Action<P>, b': Bus<P>)
    requires Inv(b) && Apply(b, a) == Some(b') && !a.Proceed?
    ensures Inv(b')
  {
    hide IsValid, Pushed;
    ConsumerStepKeepsPushed(b, a, b');
  }

  lemma PushKeepsInv<P>(b: Bus<P>, b': Bus<P>)
    requires Inv(b) && Apply(b, Proceed) == Some(b') && Holds(b', 0)
    ensures Inv(b')
  {
    hide IsValid, Pushed;
    PushedByProceed(b, b');
  }

  /** Giving up before the send leaves nothing behind. */
  lemma ReleaseKeepsInv<P>(b: Bus<P>, error: BusError)
    requires Inv(b) && b.holder.Some? && !Holds(b, 0) && !Holds(b, 1) && !Holds(b, 2)
    ensures Inv(Release(b, error))
  {
    hide IsValid, Matches;
    assert Pushed(Release(b, error)) == Pushed(b);
  }

  lemma BeforePushKeepsInv<P>(b: Bus<P>, b': Bus<P>)
    requires Inv(b) && Apply(b, Proceed) == Some(b') && !Holds(b', 0)
    requires !Holds(b, 0) && !Holds(b, 1) && !Holds(b, 2)
    ensures Inv(b')
  {
    hide Inv, IsValid, Pushed, Matches;
    if b'.holder == None {
      assert b' == Release(b, b'.failures[|b'.failures| - 1].1);
      ReleaseKeepsInv(b, b'.failures[|b'.failures| - 1].1);
    } else {
      SequenceFits(b);
      MoveKeepsInv(b, b'.holder.value.pc, b'.backpressureTotal);
    }
  }

  lemma SequenceFits<P>(b: Bus<P>)
    requires Inv(b)
    ensures b.nextSequence <= U64_MAX && (b.holder.Some? ==> PcInv(b, b.holder.value, Pushed(b)))
  {
    hide IsValid, Pushed, Matches;
  }

  /** Moving on before the send changes nothing but the position and the backpressure count. */
  lemma MoveKeepsInv<P>(b: Bus<P>, pc: Pc<P>, backpressure: nat)
    requires Inv(b) && b.holder.Some? && !Holds(b, 0) && !Holds(b, 1) && !Holds(b, 2)
    requires pc.Sealed? || pc.Full? || pc.Blocked?
    requires pc.env.sequence == b.nextSequence < U64_MAX && IsValid(pc.env) && Carries(b.holder.value, pc.env)
    ensures Inv(At(b, pc).(backpressureTotal := backpressure))
  {
    hide IsValid, Matches;
    assert Pushed(At(b, pc).(backpressureTotal := backpressure)) == Pushed(b);
  }

  lemma AfterPushKeepsInv<P>(b: Bus<P>, b': Bus<P>)
    requires Inv(b) && Apply(b, Proceed) == Some(b')
    requires Holds(b, 0) || Holds(b, 1) || Holds(b, 2)
    ensures Inv(b')
  {
    hide IsValid, Pushed;
    PushedByProceed(b, b');
  }

  /** Every atomic action keeps the invariant. */
  lemma StepKeepsInv<P>(b: Bus<P>, a: Action<P>, b': Bus<P>)
    requires Inv(b) && Apply(b, a) == Some(b')
    ensures Inv(b')
  {
    hide Inv, Apply;
    if !a.Proceed? {
      OutsideKeepsInv(b, a, b');
    } else if Holds(b, 0) || Holds(b, 1) || Holds(b, 2) {
      AfterPushKeepsInv(b, b');
    } else if Holds(b', 0) {
      PushKeepsInv(b, b');
    } else {
      BeforePushKeepsInv(b, b');
    }
  }

  lemma {:induction false} RunKeepsInv<P(!new)>(capacity: nat, bs: seq<Bus<P>>, actions: seq<Action<P>>, n: nat)
    requires Run(capacity, bs, actions) && n <= |actions|
    ensures Inv(bs[n]) && bs[n].capacity == capacity
    decreases n
  {
    hide Inv;
    if n == 0 {
      assert Inv(bs[0]) by { NewIsInv<P>(capacity); }
    } else {
      RunKeepsInv(capacity, bs, actions, n - 1);
      StepKeepsInv(bs[n - 1], actions[n - 1], bs[n]);
      CapacityIsFixed(bs[n - 1], actions[n - 1], bs[n]);
    }
  }

  lemma NewIsInv<P>(capacity: nat)
    requires capacity > 0
    ensures Inv<P>(New(capacity).value)
  {
  }

  lemma CapacityIsFixed<P>(b: Bus<P>, a: Action<P>, b': Bus<P>)
    requires Apply(b, a) == Some(b')
    ensures b'.capacity == b.capacity
  {
  }

  // ----- what it means for the two sides ----------------------------------------------------

  /**
   * At every moment of every run: what has been received and what is queued are the envelopes 0, 1, 2, ...
   * without gap or repetition, none of them carries the reserved last sequence, every acknowledged
   * call's envelope is the one of its sequence with the call's own payload and metadata, and the depth stays
   * within the capacity.
   */
  lemma DeliveryInOrder<P(!new)>(capacity: nat, bs: seq<Bus<P>>, actions: seq<Action<P>>, n: nat)
    requires Run(capacity, bs, actions) && n <= |actions|
    ensures var b := bs[n];
            var all := Pushed(b);
            && |b.queue| <= capacity
            && (b.consumerAlive ==> all == b.received + b.queue)
            && (forall i :: 0 <= i < |all| ==> all[i].sequence == i && i < U64_MAX)
            && (forall i :: 0 <= i < |b.acks| ==> i < |all| && Matches(b.acks[i], all[i]))
            && b.consumedTotal <= b.publishedTotal + 1
  {
    hide Apply, New, IsValid;
    RunKeepsInv(capacity, bs, actions, n);
    var b := bs[n];
    assert b.received + [] == b.received;
    assert |Pushed(b)| <= U64_MAX;
  }

  /** With nobody inside a call the counters, the sequence and the depth agree exactly. */
  lemma QuiescentCounters<P(!new)>(capacity: nat, bs: seq<Bus<P>>, actions: seq<Action<P>>, n: nat)
    requires Run(capacity, bs, actions) && n <= |actions|
    requires bs[n].holder == None && bs[n].inHand == None
    ensures var b := bs[n];
            && b.publishedTotal == b.nextSequence == |b.acks|
            && b.publishedTotal == b.consumedTotal + |b.discarded| + Stats(b).depth
            && (b.consumerAlive ==> b.publishedTotal == b.consumedTotal + Stats(b).depth)
  {
    hide Apply, New, IsValid;
    RunKeepsInv(capacity, bs, actions, n);
  }

  /** At every moment the statistics are what has really happened, but for the two counts still under way. */
  lemma StatsTellHistory<P(!new)>(capacity: nat, bs: seq<Bus<P>>, actions: seq<Action<P>>, n: nat)
    requires Run(capacity, bs, actions) && n <= |actions|
    ensures var b, s := bs[n], Stats(bs[n]);
            && s.capacity == capacity
            && s.published == |b.acks| + One(Holds(b, 2))
            && s.consumed == |b.received| - One(b.inHand.Some?)
            && s.backpressure == Waits(bs, n)
            && s.depth == |Pushed(b)| - |b.received| - |b.discarded|
  {
    hide Apply, New, IsValid;
    RunKeepsInv(capacity, bs, actions, n);
    BackpressureCountsWaits(capacity, bs, actions, n);
  }

  predicate IsBlocked<P>(b: Bus<P>) {
    b.holder.Some? && b.holder.value.pc.Blocked?
  }

  predicate PastSend<P>(b: Bus<P>) {
    Holds(b, 0) || Holds(b, 1) || Holds(b, 2)
  }

  /** How many calls have started to wait for room among the first `n` actions. */
  function Waits<P>(bs: seq<Bus<P>>, n: nat): nat
    requires n < |bs|
  {
    if n == 0 then 0 else Waits(bs, n - 1) + One(IsBlocked(bs[n]) && !IsBlocked(bs[n - 1]))
  }

  lemma StepCountsWaits<P>(b: Bus<P>, a: Action<P>, b': Bus<P>)
    requires Apply(b, a) == Some(b')
    ensures b'.backpressureTotal == b.backpressureTotal + One(IsBlocked(b') && !IsBlocked(b))
  {
    hide Seal;
    if a.Proceed? { ProceedCountsWaits(b, b'); }
  }

  lemma ProceedCountsWaits<P>(b: Bus<P>, b': Bus<P>)
    requires b.holder.Some? && ProceedFrom(b, b.holder.value) == Some(b')
    ensures b'.backpressureTotal == b.backpressureTotal + One(IsBlocked(b') && !IsBlocked(b))
  {
    hide Seal;
  }

  /** In every run the backpressure counter is the number of calls that have had to wait. */
  lemma {:induction false} BackpressureCountsWaits<P(!new)>(capacity: nat, bs: seq<Bus<P>>, actions: seq<Action<P>>,
                                                            n: nat)
    requires Run(capacity, bs, actions) && n <= |actions|
    ensures bs[n].backpressureTotal == Waits(bs, n)
    ensures IsBlocked(bs[n]) ==> Waits(bs, n) > 0
    decreases n
  {
    hide Apply;
    if n > 0 {
      BackpressureCountsWaits(capacity, bs, actions, n - 1);
      StepCountsWaits(bs[n - 1], actions[n - 1], bs[n]);
    }
  }

  /**
   * While a publisher is blocked in its send, nobody else is: statistics can be read and show its wait already
   * counted, and either the send can go on, or the consumer can, whose next pop lets the send go on.
   */
  lemma BlockedPublisherBlocksNobody<P(!new)>(capacity: nat, bs: seq<Bus<P>>, actions: seq<Action<P>>, n: nat)
    requires Run(capacity, bs, actions) && n <= |actions| && IsBlocked(bs[n])
    ensures var b := bs[n];
            && Apply(b, ReadStats) == Some(b) && Stats(b).backpressure == Waits(bs, n) > 0
            && (Apply(b, Proceed).None? ==>
                  if b.inHand.Some? then Apply(b, CountConsumed).Some?
                  else
                    && Apply(b, Pop).Some?
                    && Apply(Apply(b, Pop).value, Proceed).Some?
                    && Holds(Apply(Apply(b, Pop).value, Proceed).value, 0))
  {
    hide New, IsValid;
    RunKeepsInv(capacity, bs, actions, n);
    BackpressureCountsWaits(capacity, bs, actions, n);
  }

  /** A call that has not sent yet has left no trace since it found `b0`, but for its wait if it is waiting. */
  ghost predicate Unsent<P>(b0: Bus<P>, thread: ThreadId, b: Bus<P>) {
    && b.nextSequence == b0.nextSequence && b.publishedTotal == b0.publishedTotal && b.acks == b0.acks
    && b.failures == b0.failures && Pushed(b) == Pushed(b0)
    && b.backpressureTotal == b0.backpressureTotal + One(IsBlocked(b))
    && b.holder.Some? && b.holder.value.thread == thread
  }

  lemma OutsideKeepsUnsent<P>(b0: Bus<P>, thread: ThreadId, b: Bus<P>, a: Action<P>, b': Bus<P>)
    requires Inv(b) && Unsent(b0, thread, b) && Apply(b, a) == Some(b') && b'.holder.Some? && !a.Proceed?
    ensures Unsent(b0, thread, b')
  {
    hide Inv, Pushed;
    ConsumerStepKeepsPushed(b, a, b');
  }

  lemma ProceedKeepsUnsent<P>(b0: Bus<P>, thread: ThreadId, b: Bus<P>, b': Bus<P>)
    requires Unsent(b0, thread, b) && Apply(b, Proceed) == Some(b') && b'.holder.Some? && !PastSend(b')
    ensures Unsent(b0, thread, b')
  {
    hide Pushed, Seal;
    PushedByProceed(b, b');
  }

  lemma PastSendStays<P>(b: Bus<P>, a: Action<P>, b': Bus<P>)
    requires PastSend(b) && Apply(b, a) == Some(b') && b'.holder.Some?
    ensures PastSend(b')
  {
  }

  lemma AcquireIsUnsent<P>(b: Bus<P>, a: Action<P>, b': Bus<P>)
    requires a.Acquire? && Apply(b, a) == Some(b')
    ensures Unsent(b, a.thread, b')
  {
  }

  /** During a call: it has sent, or it has left no trace. */
  lemma {:induction false} CallSoFar<P(!new)>(capacity: nat, bs: seq<Bus<P>>, actions: seq<Action<P>>, i: nat, k: nat)
    requires Run(capacity, bs, actions) && i < k <= |actions| && actions[i].Acquire?
    requires forall m :: i < m <= k ==> bs[m].holder.Some?
    ensures PastSend(bs[k]) || Unsent(bs[i], actions[i].thread, bs[k])
    decreases k
  {
    hide Inv, Apply, Unsent, PastSend;
    if k == i + 1 {
      AcquireIsUnsent(bs[i], actions[i], bs[k]);
    } else {
      CallSoFar(capacity, bs, actions, i, k - 1);
      RunKeepsInv(capacity, bs, actions, k - 1);
      var b, a, b' := bs[k - 1], actions[k - 1], bs[k];
      if PastSend(b) {
        PastSendStays(b, a, b');
      } else if !a.Proceed? {
        OutsideKeepsUnsent(bs[i], actions[i].thread, b, a, b');
      } else if !PastSend(b') {
        ProceedKeepsUnsent(bs[i], actions[i].thread, b, b');
      }
    }
  }

  /** The action that ends a call with an error leaves everything else as it was, and is never one after the send. */
  lemma FailingAction<P>(b: Bus<P>, a: Action<P>, b': Bus<P>)
    requires Inv(b) && Apply(b, a) == Some(b') && |b'.failures| > |b.failures|
    ensures !PastSend(b) && b.holder.Some? && |b'.failures| == |b.failures| + 1
    ensures b' == Release(b, b'.failures[|b.failures|].1) && Pushed(b') == Pushed(b)
  {
    hide Inv;
  }

  /**
   * A whole call that fails, from taking the lock to its error, whatever the consumer does meanwhile: sequence,
   * published envelopes, counter and acks are as it found them, the error is noted under its thread, and the
   * backpressure counter has grown by one exactly if it failed while waiting.
   */
  lemma FailedCallConsumesNothing<P(!new)>(capacity: nat, bs: seq<Bus<P>>, actions: seq<Action<P>>, i: nat, j: nat)
    requires Run(capacity, bs, actions) && i < j < |actions| && actions[i].Acquire?
    requires forall m :: i < m <= j ==> bs[m].holder.Some?
    requires |bs[j + 1].failures| > |bs[j].failures|
    ensures var b, b' := bs[i], bs[j + 1];
            && b'.holder == None && b'.nextSequence == b.nextSequence && b'.publishedTotal == b.publishedTotal
            && b'.acks == b.acks && Pushed(b') == Pushed(b)
            && b'.backpressureTotal == b.backpressureTotal + One(IsBlocked(bs[j]))
            && exists error :: b'.failures == b.failures + [(actions[i].thread, error)]
  {
    hide Inv, Apply, PastSend, Pushed;
    CallSoFar(capacity, bs, actions, i, j);
    RunKeepsInv(capacity, bs, actions, j);
    FailingAction(bs[j], actions[j], bs[j + 1]);
  }

  // ----- progress ---------------------------------------------------------------------------

  function Rank<P>(pc: Pc<P>): nat {
    match pc
    case Locked => 8
    case Timed(_) => 7
    case Sealed(_) => 6
    case Full(_) => 5
    case Blocked(_) => 4
    case Sent(_) => 3
    case Advanced(_) => 2
    case Counted(_) => 1
  }

  /** How far the lock is from being free: the holder's own steps, and for a full queue the consumer's two. */
  function Distance<P>(b: Bus<P>): nat {
    if b.holder == None then 0
    else 4 * Rank(b.holder.value.pc) + (if |b.queue| >= b.capacity then (if b.inHand.Some? then 3 else 2) else 0)
  }

  /** An action that starts no publish and drops nothing. */
  predicate Inside<P>(a: Action<P>) {
    a.ReadClock? || a.Proceed? || a.Pop? || a.CountConsumed?
  }

  lemma SomeActionAdvances<P>(b: Bus<P>, now: u64) returns (a: Action<P>, b': Bus<P>)
    requires Inv(b) && b.holder.Some?
    ensures Inside(a) && Apply(b, a) == Some(b') && Distance(b') < Distance(b)
    ensures b.holder.value.pc.Blocked? && b.consumerAlive && |b.queue| >= b.capacity ==> a.Pop? || a.CountConsumed?
  {
    hide IsValid;
    var pc := b.holder.value.pc;
    if pc.Locked? {
      a := ReadClock(Some(now));
    } else if pc.Blocked? && b.consumerAlive && |b.queue| >= b.capacity {
      a := if b.inHand.Some? then CountConsumed else Pop;
    } else {
      a := Proceed;
    }
    b' := Apply(b, a).value;
  }

  /**
   * No state is a deadlock: a lock holder, blocked or not, can always be carried to its return by its own
   * steps and the consumer's alone, in a bounded number of them.
   */
  lemma {:induction false} LockIsAlwaysReleased<P(!new)>(b: Bus<P>, now: u64)
    returns (bs: seq<Bus<P>>, actions: seq<Action<P>>)
    requires Inv(b)
    ensures |bs| == |actions| + 1 && bs[0] == b && |actions| <= Distance(b)
    ensures forall i :: 0 <= i < |actions| ==> Inside(actions[i]) && Apply(bs[i], actions[i]) == Some(bs[i + 1])
    ensures bs[|actions|].holder == None
    decreases Distance(b)
  {
    hide Inv, Apply, Distance;
    if b.holder == None {
      bs, actions := [b], [];
    } else {
      var a, b' := SomeActionAdvances(b, now);
      StepKeepsInv(b, a, b');
      var bs', actions' := LockIsAlwaysReleased(b', now);
      bs, actions := [b] + bs', [a] + actions';
    }
  }
}
