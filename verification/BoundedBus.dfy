/**
 * `publish`, `recv` and `try_recv` as methods on the shared bus. Every statement is one action of the protocol, and
 * between any two of them the other side may take any actions it likes.
 */
module BoundedBus {
  import opened Wrappers
  import opened Numbers
  import opened Types
  import opened EventBus

  /** What may happen while a publisher holds the lock, and while the consumer waits. */
  predicate OfConsumer<P>(a: Action<P>) {
    a.Pop? || a.CountConsumed? || a.DropConsumer? || a.ReadStats?
  }

  predicate OfPublishers<P>(a: Action<P>) {
    a.Acquire? || a.ReadClock? || a.Proceed? || a.DropBus? || a.ReadStats?
  }

  /** What publishers are responsible for: the channel's history, the sequence and what became of each call. */
  datatype View<P> = View(
    pushed: seq<Envelope<P>>,
    nextSequence: nat,
    publishedTotal: nat,
    acks: seq<Published<P>>,
    failures: seq<(ThreadId, BusError)>)

  function ViewOf<P>(b: Bus<P>): View<P> {
    View(Pushed(b), b.nextSequence, b.publishedTotal, b.acks, b.failures)
  }

  lemma SamePushed<P>(b: Bus<P>, b': Bus<P>)
    requires b.received == b'.received && b.discarded == b'.discarded && b.queue == b'.queue
    ensures Pushed(b) == Pushed(b')
  {
  }

  /** Nothing the lock protects has changed, nor what was pushed. */
  ghost predicate SameForPublisher<P>(b: Bus<P>, b': Bus<P>) {
    && ViewOf(b') == ViewOf(b) && b'.holder == b.holder && b'.backpressureTotal == b.backpressureTotal
    && b'.busAlive == b.busAlive && (b'.consumerAlive ==> b.consumerAlive)
  }

  /** The consumer's side is as it was, and the queue has at most grown. */
  ghost predicate SameForConsumer<P>(b: Bus<P>, b': Bus<P>) {
    && b'.capacity == b.capacity && b'.inHand == b.inHand && b'.consumedTotal == b.consumedTotal
    && b'.consumerAlive == b.consumerAlive && b'.received == b.received && b'.discarded == b.discarded
    && b.queue <= b'.queue && (b'.busAlive ==> b.busAlive)
  }

  lemma ConsumerLeavesPublisher<P>(b: Bus<P>, a: Action<P>, b': Bus<P>)
    requires Inv(b) && OfConsumer(a) && Apply(b, a) == Some(b')
    ensures SameForPublisher(b, b')
  {
    hide Pushed, Inv;
    ConsumerStepKeepsPushed(b, a, b');
  }

  lemma PublishersLeaveConsumer<P>(b: Bus<P>, a: Action<P>, b': Bus<P>)
    requires OfPublishers(a) && Apply(b, a) == Some(b')
    ensures SameForConsumer(b, b')
  {
    hide ProceedFrom;
    if a.Proceed? { ProceedLeavesConsumer(b, b'); }
  }

  lemma ProceedLeavesConsumer<P>(b: Bus<P>, b': Bus<P>)
    requires b.holder.Some? && ProceedFrom(b, b.holder.value) == Some(b')
    ensures SameForConsumer(b, b')
  {
    hide Seal;
    var pc := b.holder.value.pc;
    if pc.Sealed? || pc.Blocked? {
    } else if pc.Timed? {
    } else if pc.Full? {
    } else {
    }
  }

  /** Why a call fails before it sends, if it does. */
  function Refusal(now: Option<u64>, sequence: nat, meta: PublishMeta): (r: Option<BusError>)
    ensures r == Some(ClockUnavailable) <==> now == None || now == Some(0)
    ensures r == Some(SequenceExhausted) <==> r != Some(ClockUnavailable) && sequence == 0xFFFF_FFFF_FFFF_FFFF
    ensures r.Some? && r.value.EnvelopeRejected? ==>
      r.value.error == if meta.eventVersion == 0 then EventVersionZero else ChainIdZero
    ensures r == None ==> meta.eventVersion != 0 && meta.chainContext.chainId != 0
    ensures r.Some? ==> r.value.ClockUnavailable? || r.value.SequenceExhausted? || r.value.EnvelopeRejected?
  {
    if now == None || now.value == 0 then Some(ClockUnavailable)
    else if sequence == U64_MAX then Some(SequenceExhausted)
    else match CheckInvariants(now.value, meta.eventVersion, meta.chainContext.chainId)
      case Some(e) => Some(EnvelopeRejected(e))
      case None => None
  }

  class CrossbeamBoundedBus<P(!new)> {
    const capacity: nat
    var queue: seq<Envelope<P>>
    var nextSequence: nat
    var publishedTotal: nat
    var consumedTotal: nat
    var backpressureTotal: nat
    var holder: Option<Holder<P>>
    var inHand: Option<Envelope<P>>
    var consumerAlive: bool
    var busAlive: bool
    var received: seq<Envelope<P>>
    var discarded: seq<Envelope<P>>
    var acks: seq<Published<P>>
    var failures: seq<(ThreadId, BusError)>

    constructor (capacity: nat)
      requires capacity > 0
      ensures New(capacity) == Ok(Snapshot()) && Inv(Snapshot())
    {
      this.capacity := capacity;
      queue, nextSequence, publishedTotal, consumedTotal, backpressureTotal := [], 0, 0, 0, 0;
      holder, inHand, consumerAlive, busAlive := None, None, true, true;
      received, discarded, acks, failures := [], [], [], [];
      new;
      NewIsInv<P>(capacity);
    }

    function Snapshot(): Bus<P>
      reads this
    {
      Bus(capacity, queue, nextSequence, publishedTotal, consumedTotal, backpressureTotal, holder, inHand,
          consumerAlive, busAlive, received, discarded, acks, failures)
    }

    method Become(b: Bus<P>)
      requires b.capacity == capacity
      modifies this
      ensures Snapshot() == b
    {
      BecomeCounters(b);
      BecomeChannel(b);
      BecomeHistory(b);
    }

    method BecomeCounters(b: Bus<P>)
      modifies this`nextSequence, this`publishedTotal, this`consumedTotal, this`backpressureTotal, this`consumerAlive,
        this`busAlive
      ensures
        && nextSequence == b.nextSequence
        && publishedTotal == b.publishedTotal
        && consumedTotal == b.consumedTotal
        && backpressureTotal == b.backpressureTotal
        && consumerAlive == b.consumerAlive
        && busAlive == b.busAlive
    {
      nextSequence := b.nextSequence;
      publishedTotal := b.publishedTotal;
      consumedTotal := b.consumedTotal;
      backpressureTotal := b.backpressureTotal;
      consumerAlive := b.consumerAlive;
      busAlive := b.busAlive;
    }

    method BecomeChannel(b: Bus<P>)
      modifies this`queue, this`holder, this`inHand
      ensures queue == b.queue && holder == b.holder && inHand == b.inHand
    {
      queue := b.queue;
      holder := b.holder;
      inHand := b.inHand;
    }

    method BecomeHistory(b: Bus<P>)
      modifies this`received, this`discarded, this`acks, this`failures
      ensures received == b.received && discarded == b.discarded && acks == b.acks && failures == b.failures
    {
      received := b.received;
      discarded := b.discarded;
      acks := b.acks;
      failures := b.failures;
    }

    /** Any actions of the consumer's side. */
    method ConsumerActs()
      requires Inv(Snapshot())
      modifies this
      ensures Inv(Snapshot()) && SameForPublisher(old(Snapshot()), Snapshot())
    {
      hide Inv, Apply, Pushed;
      var steps: nat :| steps >= 0;
      for i := 0 to steps
        invariant Inv(Snapshot()) && SameForPublisher(old(Snapshot()), Snapshot())
      {
        var a: Action<P> := *;
        var next := Apply(Snapshot(), a);
        if OfConsumer(a) && next.Some? {
          StepKeepsInv(Snapshot(), a, next.value);
          CapacityIsFixed(Snapshot(), a, next.value);
          ConsumerLeavesPublisher(Snapshot(), a, next.value);
          Become(next.value);
        }
      }
    }

    /** Any actions of any publishers. */
    method PublishersAct()
      requires Inv(Snapshot())
      modifies this
      ensures Inv(Snapshot()) && SameForConsumer(old(Snapshot()), Snapshot())
    {
      hide Inv, Apply;
      var steps: nat :| steps >= 0;
      for i := 0 to steps
        invariant Inv(Snapshot()) && SameForConsumer(old(Snapshot()), Snapshot())
      {
        var a: Action<P> := *;
        var next := Apply(Snapshot(), a);
        if OfPublishers(a) && next.Some? {
          StepKeepsInv(Snapshot(), a, next.value);
          PublishersLeaveConsumer(Snapshot(), a, next.value);
          Become(next.value);
        }
      }
    }

    // ----- publishing -----------------------------------------------------------------------

    /** Leaves the critical section with an error; nothing else changes. */
    method Fail(error: BusError)
      requires holder.Some?
      modifies this`holder, this`failures
      ensures Snapshot() == Release(old(Snapshot()), error)
      ensures ViewOf(Snapshot())
        == ViewOf(old(Snapshot())).(failures := old(failures) + [(old(holder.value.thread), error)])
    {
      hide Pushed;
      failures := failures + [(holder.value.thread, error)];
      holder := None;
      SamePushed(old(Snapshot()), Snapshot());
    }

    /** Everything before the send: the clock is read, the sequence taken, the envelope sealed. */
    method Prepare(now: Option<u64>) returns (r: Result<Envelope<P>, BusError>)
      requires Inv(Snapshot()) && holder.Some? && holder.value.pc.Locked?
      modifies this
      ensures Inv(Snapshot()) && backpressureTotal == old(backpressureTotal) && busAlive == old(busAlive)
      ensures match r
              case Ok(env) =>
                && now.Some?
                && env == Envelope(old(nextSequence), now.value, old(holder.value.meta), old(holder.value.payload))
                && holder == Some(old(holder.value).(pc := Sealed(env)))
                && ViewOf(Snapshot()) == ViewOf(old(Snapshot()))
              case Err(error) =>
                && holder == None
                && ViewOf(Snapshot())
                   == ViewOf(old(Snapshot())).(failures := old(failures) + [(old(holder.value.thread), error)])
      ensures Refusal(now, old(nextSequence), old(holder.value.meta)) == if r.Ok? then None else Some(r.error)
    {
      hide Inv, Pushed, IsValid;
      ghost var b0 := Snapshot();
      if now == None || now.value == 0 {
        Fail(ClockUnavailable);
        StepKeepsInv(b0, ReadClock(now), Snapshot());
        return Err(ClockUnavailable);
      }
      holder := Some(holder.value.(pc := Timed(now.value)));
      SamePushed(b0, Snapshot());
      StepKeepsInv(b0, ReadClock(now), Snapshot());
      ConsumerActs();
      r := SealNext(now.value);
    }

    /** The next sequence number and the envelope that carries it. */
    method SealNext(timestampNs: u64) returns (r: Result<Envelope<P>, BusError>)
      requires Inv(Snapshot()) && holder.Some? && holder.value.pc == Timed(timestampNs) && timestampNs != 0
      modifies this`holder, this`failures
      ensures Inv(Snapshot())
      ensures match r
              case Ok(env) =>
                && env == Envelope(nextSequence, timestampNs, old(holder.value.meta), old(holder.value.payload))
                && holder == Some(old(holder.value).(pc := Sealed(env)))
                && ViewOf(Snapshot()) == ViewOf(old(Snapshot()))
              case Err(error) =>
                && holder == None
                && ViewOf(Snapshot())
                   == ViewOf(old(Snapshot())).(failures := old(failures) + [(old(holder.value.thread), error)])
      ensures Refusal(Some(timestampNs), nextSequence, old(holder.value.meta)) == if r.Ok? then None else Some(r.error)
    {
      hide Inv, Pushed, IsValid;
      ghost var b := Snapshot();
      SequenceInRange(b);
      if nextSequence == U64_MAX {
        Fail(SequenceExhausted);
        StepKeepsInv(b, Proceed, Snapshot());
        return Err(SequenceExhausted);
      }
      var sealed := Seal(holder.value.meta, holder.value.payload, nextSequence, timestampNs);
      if sealed.Err? {
        Fail(EnvelopeRejected(sealed.error));
        StepKeepsInv(b, Proceed, Snapshot());
        return Err(EnvelopeRejected(sealed.error));
      }
      holder := Some(holder.value.(pc := Sealed(sealed.value)));
      SamePushed(b, Snapshot());
      StepKeepsInv(b, Proceed, Snapshot());
      r := Ok(sealed.value);
    }

    /** One attempt to put the envelope into the channel: `Ok(true)` if it went in, `Ok(false)` if there is no room. */
    method Attempt(env: Envelope<P>) returns (r: Result<bool, BusError>)
      requires Inv(Snapshot()) && holder.Some? && holder.value.pc in {Sealed(env), Blocked(env)}
      modifies this`holder, this`failures, this`queue
      ensures Inv(Snapshot())
      ensures r == (if !consumerAlive then Err(Closed) else Ok(old(|queue|) < capacity))
      ensures match r
              case Ok(sent) =>
                if sent then holder == Some(old(holder.value).(pc := Sent(env)))
                             && ViewOf(Snapshot())
                                == ViewOf(old(Snapshot())).(pushed := Pushed(old(Snapshot())) + [env])
                else Snapshot() == old(Snapshot())
              case Err(error) =>
                && holder == None
                && ViewOf(Snapshot())
                   == ViewOf(old(Snapshot())).(failures := old(failures) + [(old(holder.value.thread), error)])
    {
      hide Inv, Pushed, IsValid;
      ghost var b := Snapshot();
      if !consumerAlive {
        Fail(Closed);
        StepKeepsInv(b, Proceed, Snapshot());
        return Err(Closed);
      }
      if |queue| >= capacity {
        return Ok(false);
      }
      queue := queue + [env];
      holder := Some(holder.value.(pc := Sent(env)));
      StepKeepsInv(b, Proceed, Snapshot());
      PushedByProceed(b, Snapshot());
      r := Ok(true);
    }

    /** Counts the backpressure and starts to wait. */
    method StartWaiting(env: Envelope<P>)
      requires Inv(Snapshot()) && holder.Some? && holder.value.pc == Sealed(env) && consumerAlive && |queue| >= capacity
      modifies this`holder, this`backpressureTotal
      ensures Inv(Snapshot()) && backpressureTotal == old(backpressureTotal) + 1
      ensures consumerAlive && |queue| >= capacity
      ensures holder == Some(old(holder.value).(pc := Blocked(env))) && ViewOf(Snapshot()) == ViewOf(old(Snapshot()))
    {
      hide Inv, Pushed, IsValid;
      ghost var b := Snapshot();
      holder := Some(holder.value.(pc := Full(env)));
      SamePushed(b, Snapshot());
      StepKeepsInv(b, Proceed, Snapshot());
      b := Snapshot();
      backpressureTotal := backpressureTotal + 1;
      holder := Some(holder.value.(pc := Blocked(env)));
      SamePushed(b, Snapshot());
      StepKeepsInv(b, Proceed, Snapshot());
    }

    /** `try_send`, and `send` where that finds no room. `None`: still blocked after looking `patience` times. */
    method Send(env: Envelope<P>, patience: nat) returns (r: Option<Result<(), BusError>>, waited: bool)
      requires Inv(Snapshot()) && holder.Some? && holder.value.pc == Sealed(env)
      modifies this
      ensures Inv(Snapshot()) && busAlive == old(busAlive)
      ensures backpressureTotal == old(backpressureTotal) + One(waited) && (r == None ==> waited)
      ensures match r
              case Some(Ok(_)) =>
                && holder == Some(old(holder.value).(pc := Sent(env)))
                && ViewOf(Snapshot()) == ViewOf(old(Snapshot())).(pushed := Pushed(old(Snapshot())) + [env])
              case Some(Err(error)) =>
                && holder == None && error == Closed && !consumerAlive
                && ViewOf(Snapshot())
                   == ViewOf(old(Snapshot())).(failures := old(failures) + [(old(holder.value.thread), error)])
              case None =>
                && holder == Some(old(holder.value).(pc := Blocked(env)))
                && ViewOf(Snapshot()) == ViewOf(old(Snapshot()))
                && consumerAlive && |queue| >= capacity
    {
      hide Inv, Pushed, IsValid;
      waited := false;
      ConsumerActs();
      var sent := Attempt(env);
      if sent.Err? {
        return Some(Err(sent.error)), waited;
      }
      if sent.value {
        return Some(Ok(())), waited;
      }
      StartWaiting(env);
      waited := true;
      for i := 0 to patience
        invariant Inv(Snapshot()) && busAlive == old(busAlive) && backpressureTotal == old(backpressureTotal) + 1
        invariant
          && holder == Some(old(holder.value).(pc := Blocked(env)))
          && ViewOf(Snapshot()) == ViewOf(old(Snapshot()))
        invariant consumerAlive && |queue| >= capacity
      {
        ConsumerActs();
        sent := Attempt(env);
        if sent.Err? {
          return Some(Err(sent.error)), waited;
        }
        if sent.value {
          return Some(Ok(())), waited;
        }
      }
      r := None;
    }

    /** After the send: advance the sequence, count, acknowledge, unlock. */
    method Acknowledge(env: Envelope<P>) returns (ack: PublishAck)
      requires Inv(Snapshot()) && holder.Some? && holder.value.pc == Sent(env)
      modifies this
      ensures
        && Inv(Snapshot())
        && holder == None
        && busAlive == old(busAlive)
        && backpressureTotal == old(backpressureTotal)
      ensures ack == PublishAck(env.sequence, env.timestampNs)
      ensures ViewOf(Snapshot()) == View(
                old(Pushed(Snapshot())), old(nextSequence) + 1, old(publishedTotal) + 1,
                old(acks) +
                  [Published(old(holder.value.thread), old(holder.value.payload), old(holder.value.meta), ack)],
                old(failures))
    {
      hide Inv, Pushed;
      ConsumerActs();
      AdvanceSequence(env);
      ConsumerActs();
      CountPublished(env);
      ConsumerActs();
      ack := Unlock(env);
    }

    method AdvanceSequence(env: Envelope<P>)
      requires Inv(Snapshot()) && holder.Some? && holder.value.pc == Sent(env)
      modifies this`nextSequence, this`holder
      ensures Inv(Snapshot()) && holder == Some(old(holder.value).(pc := Advanced(env)))
      ensures ViewOf(Snapshot()) == ViewOf(old(Snapshot())).(nextSequence := old(nextSequence) + 1)
    {
      hide Inv, Pushed;
      nextSequence := nextSequence + 1;
      holder := Some(holder.value.(pc := Advanced(env)));
      SamePushed(old(Snapshot()), Snapshot());
      StepKeepsInv(old(Snapshot()), Proceed, Snapshot());
    }

    method CountPublished(env: Envelope<P>)
      requires Inv(Snapshot()) && holder.Some? && holder.value.pc == Advanced(env)
      modifies this`publishedTotal, this`holder
      ensures Inv(Snapshot()) && holder == Some(old(holder.value).(pc := Counted(env)))
      ensures ViewOf(Snapshot()) == ViewOf(old(Snapshot())).(publishedTotal := old(publishedTotal) + 1)
    {
      hide Inv, Pushed;
      publishedTotal := publishedTotal + 1;
      holder := Some(holder.value.(pc := Counted(env)));
      SamePushed(old(Snapshot()), Snapshot());
      StepKeepsInv(old(Snapshot()), Proceed, Snapshot());
    }

    method Unlock(env: Envelope<P>) returns (ack: PublishAck)
      requires Inv(Snapshot()) && holder.Some? && holder.value.pc == Counted(env)
      modifies this`acks, this`holder
      ensures Inv(Snapshot()) && holder == None && ack == PublishAck(env.sequence, env.timestampNs)
      ensures ViewOf(Snapshot()) == ViewOf(old(Snapshot())).(
                acks := old(acks) +
                  [Published(old(holder.value.thread), old(holder.value.payload), old(holder.value.meta), ack)])
    {
      hide Inv, Pushed;
      ack := PublishAck(env.sequence, env.timestampNs);
      acks := acks + [Published(holder.value.thread, holder.value.payload, holder.value.meta, ack)];
      holder := None;
      SamePushed(old(Snapshot()), Snapshot());
      StepKeepsInv(old(Snapshot()), Proceed, Snapshot());
    }

    /**
     * The whole call, from the moment it gets the lock. A success adds exactly this call's envelope, numbered by the
     * sequence it found, and advances sequence and counter by one; a failure changes nothing but that it is noted;
     * `None` is a call that is still blocked, and only then the lock is still held.
     */
    method Publish(thread: ThreadId, payload: P, meta: PublishMeta, now: Option<u64>, patience: nat)
      returns (r: Option<Result<PublishAck, BusError>>, waited: bool)
      requires Inv(Snapshot()) && holder == None && busAlive
      modifies this
      ensures Inv(Snapshot()) && (r.None? <==> holder.Some?)
      ensures backpressureTotal == old(backpressureTotal) + One(waited) && (r == None ==> waited)
      ensures var refusal := Refusal(now, old(nextSequence), meta);
              if refusal.Some? then r == Some(Err(refusal.value)) && !waited
              else r.Some? && r.value.Err? ==> r.value.error == EventBus.Closed && !consumerAlive
      ensures match r
              case Some(Ok(ack)) =>
                && ack.sequence == old(nextSequence) && now == Some(ack.timestampNs)
                && ViewOf(Snapshot()) == View(
                     old(Pushed(Snapshot())) + [Envelope(ack.sequence, ack.timestampNs, meta, payload)],
                     old(nextSequence) + 1, old(publishedTotal) + 1,
                     old(acks) + [Published(thread, payload, meta, ack)], old(failures))
              case Some(Err(error)) =>
                ViewOf(Snapshot()) == ViewOf(old(Snapshot())).(failures := old(failures) + [(thread, error)])
              case None =>
                && holder.value.thread == thread && holder.value.pc.Blocked?
                && ViewOf(Snapshot()) == ViewOf(old(Snapshot()))
                && consumerAlive && |queue| >= capacity
    {
      hide Inv, Pushed, IsValid;
      ghost var b := Snapshot();
      holder := Some(Holder(thread, payload, meta, Locked));
      SamePushed(b, Snapshot());
      StepKeepsInv(b, Acquire(thread, payload, meta), Snapshot());
      ConsumerActs();
      waited := false;
      var env := Prepare(now);
      if env.Err? {
        return Some(Err(env.error)), waited;
      }
      var sent;
      sent, waited := Send(env.value, patience);
      if sent.None? {
        return None, waited;
      }
      if sent.value.Err? {
        return Some(Err(sent.value.error)), waited;
      }
      var ack := Acknowledge(env.value);
      r := Some(Ok(ack));
    }

    // ----- consuming ------------------------------------------------------------------------

    /** Takes the head of the queue and counts it, with publishers at work in between. */
    method Take() returns (env: Envelope<P>)
      requires Inv(Snapshot()) && consumerAlive && inHand == None && queue != []
      modifies this
      ensures Inv(Snapshot()) && consumerAlive && inHand == None
      ensures env == old(queue)[0] && env.sequence == old(|received|)
      ensures received == old(received) + [env] && consumedTotal == old(consumedTotal) + 1 && old(queue)[1..] <= queue
    {
      hide Inv, Pushed, IsValid;
      ghost var b := Snapshot();
      HeadIsNext(b);
      env := queue[0];
      inHand, received, queue := Some(env), received + [env], queue[1..];
      StepKeepsInv(b, Pop, Snapshot());
      PublishersAct();
      b := Snapshot();
      consumedTotal := consumedTotal + 1;
      inHand := None;
      StepKeepsInv(b, CountConsumed, Snapshot());
    }

    /** `try_recv`: the next envelope in sequence, or nothing for an empty queue, or closed once the bus is gone. */
    method TryRecv() returns (r: Result<Option<Envelope<P>>, BusError>)
      requires Inv(Snapshot()) && consumerAlive && inHand == None
      modifies this
      ensures Inv(Snapshot()) && consumerAlive && inHand == None
      ensures match r
              case Ok(Some(env)) =>
                env.sequence == old(|received|) && received == old(received) + [env]
                  && consumedTotal == old(consumedTotal) + 1
              case Ok(None) =>
                && received == old(received) && consumedTotal == old(consumedTotal)
                && queue == [] && busAlive
              case Err(error) =>
                && error == EventBus.Closed && received == old(received) && consumedTotal == old(consumedTotal)
                && queue == [] && !busAlive
    {
      hide Inv, Pushed, IsValid;
      PublishersAct();
      if queue != [] {
        var env := Take();
        return Ok(Some(env));
      }
      r := if busAlive then Ok(None) else Err(EventBus.Closed);
    }

    /** `recv`: waits for an envelope or for the bus to be dropped. `None`: still waiting after `patience` looks. */
    method Recv(patience: nat) returns (r: Option<Result<Envelope<P>, BusError>>)
      requires Inv(Snapshot()) && consumerAlive && inHand == None
      modifies this
      ensures Inv(Snapshot()) && consumerAlive && inHand == None
      ensures match r
              case Some(Ok(env)) =>
                env.sequence == old(|received|) && received == old(received) + [env]
                  && consumedTotal == old(consumedTotal) + 1
              case Some(Err(error)) =>
                && error == EventBus.Closed && received == old(received) && consumedTotal == old(consumedTotal)
                && queue == [] && !busAlive
              case None =>
                && received == old(received) && consumedTotal == old(consumedTotal)
                && (patience > 0 ==> queue == [] && busAlive)
    {
      hide Inv, Pushed, IsValid;
      for i := 0 to patience
        invariant Inv(Snapshot()) && consumerAlive && inHand == None
        invariant received == old(received) && consumedTotal == old(consumedTotal)
        invariant i > 0 ==> queue == [] && busAlive
      {
        var next := TryRecv();
        if next.Err? {
          return Some(Err(next.error));
        }
        if next.value.Some? {
          return Some(Ok(next.value.value));
        }
      }
      r := None;
    }
  }

  lemma HeadIsNext<P>(b: Bus<P>)
    requires Inv(b) && b.consumerAlive && b.queue != []
    ensures b.queue[0].sequence == |b.received|
  {
    assert Pushed(b)[|b.received|] == b.queue[0];
  }

  lemma SequenceInRange<P>(b: Bus<P>)
    requires Inv(b)
    ensures b.nextSequence <= U64_MAX
  {
  }
}
