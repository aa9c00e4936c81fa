/** `comparator_driver`: what it journals, broadcasts and submits, whatever fails around it. */
module ComparatorDriver {
  import opened Wrappers
  import opened Numbers
  import opened Types
  import opened RelaySim

  type SignedBundle = nat

  datatype SimulatedEvent = SimulatedEvent(
    outcome: SimulationOutcome,
    fingerprint: LocalStateFingerprint,
    signedBundle: Option<SignedBundle>)

  datatype BundleCandidate = BundleCandidate(
    outcome: SimulationOutcome,
    gasBidWei: u256,
    validityBlockMin: nat,
    validityBlockMax: nat)

  /** The constructor's configuration: its window and bid strategy. */
  datatype Constructor = Constructor(validityBlockWindow: nat, bid: SimulationOutcome -> u256)

  /** `BundleConstructor::construct`: only a successful simulation with a profit and a non-zero bid. */
  function Construct(c: Constructor, o: SimulationOutcome): Option<BundleCandidate>
    requires c.validityBlockWindow > 0
  {
    if !o.status.Success? || o.simulatedProfitWei == 0 || c.bid(o) == 0 then None
    else
      var last := o.opportunityBlockNumber + (c.validityBlockWindow - 1);
      Some(BundleCandidate(o, c.bid(o), o.opportunityBlockNumber, if last > U64_MAX then U64_MAX else last))
  }

  /** What the world answers during one iteration; answers that are not asked for are ignored. */
  datatype Answers = Answers(
    killSwitch: bool,
    relay: Result<RelayOutcome, RelaySimError>,
    nowNs: u64,
    appendOk: bool,
    flushOk: bool)

  datatype Received =
    | Message(envelope: Envelope<SimulatedEvent>, answers: Answers)
    | Lagged(skipped: nat)
    | Closed

  /** Everything the driver does that can be seen from outside, in the order it happens. */
  datatype Effect =
    | RelayAsked(blockHash: nat, stateBlockNumber: nat)
    | Passed(candidate: BundleCandidate)
    | Submitted(bundle: SignedBundle)
    | Appended(envelope: Envelope<MismatchAbort>, ok: bool)
    | Flushed(ok: bool)
    | Broadcast(abort: MismatchAbort)

  // ----- the driver as a fold over what it receives -----------------------------------------

  datatype State = State(sequence: u64, effects: seq<Effect>, stopped: bool)

  const START: State := State(0, [], false)

  function InputsOf(m: SimulatedEvent): Inputs {
    Inputs(m.outcome, LocalBundleShape(0, 0), m.fingerprint)
  }

  /** The envelope an abort is journaled in: context and correlation come from the message it is about. */
  function SealAbort(e: Envelope<SimulatedEvent>, abort: MismatchAbort, sequence: u64, nowNs: u64)
    : Result<Envelope<MismatchAbort>, TypesError>
  {
    Seal(PublishMeta(Relay, e.meta.chainContext, 1, e.meta.correlationId), abort, sequence, nowNs)
  }

  /** What one mismatch leads to, after its envelope was sealed. */
  function Journaled(env: Envelope<MismatchAbort>, a: Answers): seq<Effect> {
    if !a.appendOk then [Appended(env, false)]
    else if !a.flushOk then [Appended(env, true), Flushed(false)]
    else [Appended(env, true), Flushed(true), Broadcast(env.payload)]
  }

  /** Whether the message gets as far as the comparison. */
  predicate Compared(c: Constructor, r: Received)
    requires c.validityBlockWindow > 0
  {
    r.Message? && !r.answers.killSwitch && Construct(c, r.envelope.payload.outcome).Some?
  }

  function Verdict(r: Received): Result<(), MismatchAbort>
    requires r.Message?
  {
    CompareResult(InputsOf(r.envelope.payload), r.answers.relay)
  }

  /** The effects of comparing one message, and the sequence counter after it. */
  function CompareOne(c: Constructor, r: Received, sequence: u64): (seq<Effect>, u64)
    requires c.validityBlockWindow > 0 && Compared(c, r)
  {
    var m := r.envelope.payload;
    var asked := [RelayAsked(r.envelope.meta.chainContext.blockHash, r.envelope.meta.chainContext.blockNumber)];
    match Verdict(r)
    case Ok(_) =>
      var passed := asked + [Passed(Construct(c, m.outcome).value)];
      (if m.signedBundle.Some? then passed + [Submitted(m.signedBundle.value)] else passed, sequence)
    case Err(abort) =>
      match SealAbort(r.envelope, abort, Succ(sequence), r.answers.nowNs)
      case Err(_) => (asked, Succ(sequence))
      case Ok(env) => (asked + Journaled(env, r.answers), Succ(sequence))
  }

  function Receive(c: Constructor, s: State, r: Received): State
    requires c.validityBlockWindow > 0
  {
    if s.stopped then s
    else if !r.Message? then s.(stopped := true)
    else if !Compared(c, r) then s
    else
      var (effects, sequence) := CompareOne(c, r, s.sequence);
      State(sequence, s.effects + effects, false)
  }

  function After(c: Constructor, script: seq<Received>): State
    requires c.validityBlockWindow > 0
  {
    if script == [] then START else Receive(c, After(c, script[..|script| - 1]), script[|script| - 1])
  }

  /** The whole run: inert without a relay, and one last flush once the stream has ended. */
  function Run(c: Constructor, relayConfigured: bool, script: seq<Received>, lastFlushOk: bool): seq<Effect>
    requires c.validityBlockWindow > 0
  {
    if !relayConfigured then []
    else
      var s := After(c, script);
      if s.stopped then s.effects + [Flushed(lastFlushOk)] else s.effects
  }

  method Drive(c: Constructor, relayConfigured: bool, script: seq<Received>, lastFlushOk: bool)
    returns (effects: seq<Effect>)
    requires c.validityBlockWindow > 0
    ensures effects == Run(c, relayConfigured, script, lastFlushOk)
  {
    hide CompareResult, Construct, SealAbort;
    effects := [];
    if !relayConfigured {
      return;
    }
    var sequence: u64 := 0;
    var stopped := false;
    var i := 0;
    while i < |script| && !stopped
      invariant 0 <= i <= |script|
      invariant After(c, script[..i]) == State(sequence, effects, stopped)
    {
      var r := script[i];
      assert script[..i + 1][..i] == script[..i];
      ghost var before := State(sequence, effects, stopped);
      i := i + 1;
      if r.Message? {
        if !r.answers.killSwitch {
          var candidate := Construct(c, r.envelope.payload.outcome);
          if candidate.Some? {
            sequence, effects := CompareMessage(c, r, candidate.value, sequence, effects);
          }
        }
      } else {
        stopped := true;
      }
      assert After(c, script[..i]) == Receive(c, before, r);
    }
    if stopped {
      StopsForGood(c, script, i);
      effects := effects + [Flushed(lastFlushOk)];
    } else {
      assert script[..i] == script;
    }
  }

  /** Steps 2 to 4 of an iteration: ask the relay, compare, and either pass on or journal and then broadcast. */
  method CompareMessage(c: Constructor, r: Received, candidate: BundleCandidate, sequence0: u64, effects0: seq<Effect>)
    returns (sequence: u64, effects: seq<Effect>)
    requires c.validityBlockWindow > 0 && Compared(c, r) && Construct(c, r.envelope.payload.outcome) == Some(candidate)
    ensures (effects, sequence) == (effects0 + CompareOne(c, r, sequence0).0, CompareOne(c, r, sequence0).1)
  {
    hide CompareResult, Construct, Seal;
    var context := r.envelope.meta.chainContext;
    sequence := sequence0;
    effects := effects0 + [RelayAsked(context.blockHash, context.blockNumber)];
    var verdict := CompareResult(InputsOf(r.envelope.payload), r.answers.relay);
    if verdict.Ok? {
      effects := effects + [Passed(candidate)];
      if r.envelope.payload.signedBundle.Some? {
        effects := effects + [Submitted(r.envelope.payload.signedBundle.value)];
      }
      assert effects == effects0 + CompareOne(c, r, sequence0).0;
      return;
    }
    sequence := Succ(sequence);
    var meta := PublishMeta(Relay, context, 1, r.envelope.meta.correlationId);
    var sealed := Seal(meta, verdict.error, sequence, r.answers.nowNs);
    if sealed.Err? {
      return;
    }
    effects := effects + [Appended(sealed.value, r.answers.appendOk)];
    if !r.answers.appendOk {
      assert effects == effects0 + CompareOne(c, r, sequence0).0;
      return;
    }
    effects := effects + [Flushed(r.answers.flushOk)];
    if !r.answers.flushOk {
      assert effects == effects0 + CompareOne(c, r, sequence0).0;
      return;
    }
    effects := effects + [Broadcast(verdict.error)];
    assert effects == effects0 + CompareOne(c, r, sequence0).0;
  }

  lemma {:induction false} StopsForGood(c: Constructor, script: seq<Received>, i: nat)
    requires c.validityBlockWindow > 0 && i <= |script| && After(c, script[..i]).stopped
    ensures After(c, script) == After(c, script[..i])
    decreases |script|
  {
    if i < |script| {
      var init := script[..|script| - 1];
      assert init[..i] == script[..i];
      StopsForGood(c, init, i);
    } else {
      assert script[..i] == script;
    }
  }

  // ----- journal before broadcast -----------------------------------------------------------

  /** The envelopes the journal has taken, and those it has taken and then flushed, in order. */
  function Taken(es: seq<Effect>): seq<Envelope<MismatchAbort>> {
    if es == [] then []
    else
      var last := es[|es| - 1];
      Taken(es[..|es| - 1]) + (if last.Appended? && last.ok then [last.envelope] else [])
  }

  function Durable(es: seq<Effect>): seq<Envelope<MismatchAbort>> {
    if es == [] then []
    else if es[|es| - 1] == Flushed(true) then Taken(es)
    else Durable(es[..|es| - 1])
  }

  function Aborts(es: seq<Effect>): seq<MismatchAbort> {
    if es == [] then []
    else
      var last := es[|es| - 1];
      Aborts(es[..|es| - 1]) + (if last.Broadcast? then [last.abort] else [])
  }

  /** `a` can be read off `b` from left to right. */
  predicate InOrderIn(a: seq<MismatchAbort>, b: seq<Envelope<MismatchAbort>>) {
    if a == [] then true
    else if b == [] then false
    else
      || (b[|b| - 1].payload == a[|a| - 1] && InOrderIn(a[..|a| - 1], b[..|b| - 1]))
      || InOrderIn(a, b[..|b| - 1])
  }

  /** The positions in `b` that `a` is read off. */
  lemma {:induction false} InOrderMeans(a: seq<MismatchAbort>, b: seq<Envelope<MismatchAbort>>) returns (at: seq<nat>)
    requires InOrderIn(a, b)
    ensures |at| == |a|
    ensures forall i :: 0 <= i < |a| ==> at[i] < |b| && b[at[i]].payload == a[i]
    ensures forall i, j :: 0 <= i < j < |at| ==> at[i] < at[j]
    decreases |b|
  {
    if a == [] {
      at := [];
    } else if b[|b| - 1].payload == a[|a| - 1] && InOrderIn(a[..|a| - 1], b[..|b| - 1]) {
      at := InOrderMeans(a[..|a| - 1], b[..|b| - 1]);
      at := at + [|b| - 1];
    } else {
      at := InOrderMeans(a, b[..|b| - 1]);
    }
  }

  lemma {:induction false} InOrderGrows(a: seq<MismatchAbort>, b: seq<Envelope<MismatchAbort>>,
                                        more: seq<Envelope<MismatchAbort>>)
    requires InOrderIn(a, b)
    ensures InOrderIn(a, b + more)
    decreases |more|
  {
    if more == [] {
      assert b + more == b;
    } else if a != [] {
      InOrderGrows(a, b, more[..|more| - 1]);
      assert (b + more)[..|b + more| - 1] == b + more[..|more| - 1];
    }
  }

  lemma InOrderBoth(a: seq<MismatchAbort>, b: seq<Envelope<MismatchAbort>>, env: Envelope<MismatchAbort>)
    requires InOrderIn(a, b)
    ensures InOrderIn(a + [env.payload], b + [env])
  {
    assert (a + [env.payload])[..|a|] == a && (b + [env])[..|b|] == b;
  }

  /** What is durable is always a prefix of what was taken. */
  lemma {:induction false} DurableIsTaken(es: seq<Effect>)
    ensures Durable(es) <= Taken(es)
  {
    if es != [] {
      DurableIsTaken(es[..|es| - 1]);
    }
  }

  /** Broadcast aborts are an in-order selection of those already flushed. */
  ghost predicate JournalFirst(es: seq<Effect>) {
    InOrderIn(Aborts(es), Durable(es))
  }

  lemma OneMoreEffect(es: seq<Effect>, e: Effect)
    ensures (es + [e])[..|es|] == es
    ensures Aborts(es + [e]) == Aborts(es) + (if e.Broadcast? then [e.abort] else [])
    ensures Taken(es + [e]) == Taken(es) + (if e.Appended? && e.ok then [e.envelope] else [])
    ensures Durable(es + [e]) == if e == Flushed(true) then Taken(es) else Durable(es)
  {
    assert (es + [e])[..|es|] == es;
  }

  /** Everything but a broadcast keeps the order. */
  lemma QuietKeepsOrder(es: seq<Effect>, e: Effect)
    requires JournalFirst(es) && !e.Broadcast?
    ensures JournalFirst(es + [e])
  {
    hide Aborts, Durable, Taken;
    OneMoreEffect(es, e);
    DurableIsTaken(es);
    assert Aborts(es) + [] == Aborts(es);
    InOrderGrows(Aborts(es), Durable(es), Taken(es)[|Durable(es)|..]);
    assert Durable(es) + Taken(es)[|Durable(es)|..] == Taken(es);
  }

  /** And so does a broadcast of what was just appended and flushed. */
  lemma JournaledBroadcastKeepsOrder(es: seq<Effect>, env: Envelope<MismatchAbort>)
    requires JournalFirst(es)
    ensures var es1 := es + [Appended(env, true)];
            var es2 := es1 + [Flushed(true)];
            JournalFirst(es1) && JournalFirst(es2) && JournalFirst(es2 + [Broadcast(env.payload)])
  {
    hide Aborts, Durable, Taken, InOrderIn;
    var es1 := es + [Appended(env, true)];
    var es2 := es1 + [Flushed(true)];
    QuietKeepsOrder(es, Appended(env, true));
    QuietKeepsOrder(es1, Flushed(true));
    OneMoreEffect(es, Appended(env, true));
    OneMoreEffect(es1, Flushed(true));
    OneMoreEffect(es2, Broadcast(env.payload));
    DurableIsTaken(es);
    assert Aborts(es) + [] == Aborts(es) && Aborts(es1) + [] == Aborts(es1);
    InOrderGrows(Aborts(es), Durable(es), Taken(es)[|Durable(es)|..]);
    assert Durable(es) + Taken(es)[|Durable(es)|..] == Taken(es);
    InOrderBoth(Aborts(es), Taken(es), env);
    assert Taken(es1) + [] == Taken(es1);
  }

  ghost predicate AlwaysJournalFirst(es: seq<Effect>) {
    forall k :: 0 <= k <= |es| ==> JournalFirst(es[..k])
  }

  lemma AlwaysExtends(es: seq<Effect>, e: Effect)
    requires AlwaysJournalFirst(es) && JournalFirst(es + [e])
    ensures AlwaysJournalFirst(es + [e])
  {
    hide JournalFirst;
    forall k | 0 <= k <= |es + [e]| ensures JournalFirst((es + [e])[..k]) {
      assert (es + [e])[..k] == if k <= |es| then es[..k] else es + [e];
    }
  }

  lemma QuietExtends(es: seq<Effect>, e: Effect)
    requires AlwaysJournalFirst(es) && !e.Broadcast?
    ensures AlwaysJournalFirst(es + [e])
  {
    hide JournalFirst;
    assert es[..|es|] == es;
    QuietKeepsOrder(es, e);
    AlwaysExtends(es, e);
  }

  lemma JournaledExtends(es: seq<Effect>, env: Envelope<MismatchAbort>, a: Answers)
    requires AlwaysJournalFirst(es)
    ensures AlwaysJournalFirst(es + Journaled(env, a))
  {
    hide AlwaysJournalFirst, JournalFirst;
    var es1 := es + [Appended(env, true)];
    var es2 := es1 + [Flushed(true)];
    var es3 := es2 + [Broadcast(env.payload)];
    QuietExtends(es, Appended(env, false));
    QuietExtends(es, Appended(env, true));
    QuietExtends(es1, Flushed(false));
    QuietExtends(es1, Flushed(true));
    assert JournalFirst(es) by { assert es[..|es|] == es; Whole(es); }
    JournaledBroadcastKeepsOrder(es, env);
    AlwaysExtends(es2, Broadcast(env.payload));
    assert es + [Appended(env, true), Flushed(false)] == es1 + [Flushed(false)];
    assert es + [Appended(env, true), Flushed(true), Broadcast(env.payload)] == es3;
  }

  lemma Whole(es: seq<Effect>)
    requires AlwaysJournalFirst(es)
    ensures JournalFirst(es)
  {
    hide JournalFirst;
    assert es[..|es|] == es;
  }

  lemma CompareOneExtends(c: Constructor, r: Received, sequence: u64, es: seq<Effect>)
    requires c.validityBlockWindow > 0 && Compared(c, r) && AlwaysJournalFirst(es)
    ensures AlwaysJournalFirst(es + CompareOne(c, r, sequence).0)
  {
    hide AlwaysJournalFirst, Construct, CompareResult, Journaled, SealAbort;
    var asked := RelayAsked(r.envelope.meta.chainContext.blockHash, r.envelope.meta.chainContext.blockNumber);
    var es1 := es + [asked];
    QuietExtends(es, asked);
    match Verdict(r) {
      case Ok(_) =>
        var passed := Passed(Construct(c, r.envelope.payload.outcome).value);
        QuietExtends(es1, passed);
        assert es1 + [passed] == es + ([asked] + [passed]);
        if r.envelope.payload.signedBundle.Some? {
          var submitted := Submitted(r.envelope.payload.signedBundle.value);
          QuietExtends(es1 + [passed], submitted);
          assert es1 + [passed] + [submitted] == es + ([asked] + [passed] + [submitted]);
        }
      case Err(abort) =>
        var sealed := SealAbort(r.envelope, abort, Succ(sequence), r.answers.nowNs);
        if sealed.Ok? {
          JournaledExtends(es1, sealed.value, r.answers);
          assert es1 + Journaled(sealed.value, r.answers) == es + ([asked] + Journaled(sealed.value, r.answers));
        }
    }
  }

  /**
   * Whatever seal, append and flush failures and kill-switch flips occur: at every moment of every run the
   * broadcast aborts are, in order, among those already flushed.
   */
  lemma {:induction false} JournalBeforeBroadcast(c: Constructor, relayConfigured: bool, script: seq<Received>,
                                                  lastFlushOk: bool, k: nat)
    requires c.validityBlockWindow > 0 && k <= |Run(c, relayConfigured, script, lastFlushOk)|
    ensures var past := Run(c, relayConfigured, script, lastFlushOk)[..k];
            InOrderIn(Aborts(past), Durable(past))
  {
    hide After, InOrderIn, Durable, Aborts;
    var es := Run(c, relayConfigured, script, lastFlushOk);
    if relayConfigured {
      var s := After(c, script);
      EveryMoment(c, script);
      QuietExtends(s.effects, Flushed(lastFlushOk));
      assert JournalFirst(es[..k]);
    } else {
      NothingBroadcast();
      assert es[..k] == [];
    }
  }

  lemma NothingBroadcast()
    ensures JournalFirst([])
  {
  }

  lemma {:induction false} EveryMoment(c: Constructor, script: seq<Received>)
    requires c.validityBlockWindow > 0
    ensures AlwaysJournalFirst(After(c, script).effects)
  {
    hide CompareOne, Compared;
    if script == [] {
      NothingBroadcast();
    } else {
      var init := script[..|script| - 1];
      EveryMoment(c, init);
      var s, r := After(c, init), script[|script| - 1];
      if !s.stopped && r.Message? && Compared(c, r) {
        CompareOneExtends(c, r, s.sequence, s.effects);
      }
    }
  }

  // ----- who is submitted, who is broadcast -------------------------------------------------

  /** The part of a script the driver gets to see. */
  function Seen(script: seq<Received>): seq<Received> {
    if script == [] || !script[0].Message? then [] else [script[0]] + Seen(script[1..])
  }

  lemma {:induction false} SeenAppend(script: seq<Received>, r: Received)
    ensures Seen(script + [r]) == if r.Message? && Seen(script) == script then script + [r] else Seen(script)
  {
    if script == [] {
      assert script + [r] == [r];
    } else {
      SeenAppend(script[1..], r);
      assert (script + [r])[1..] == script[1..] + [r];
      assert script == [script[0]] + script[1..];
    }
  }

  /** Whether a message passed every gate there is before submission. */
  predicate Cleared(c: Constructor, r: Received)
    requires c.validityBlockWindow > 0
  {
    Compared(c, r) && Verdict(r).Ok?
  }

  /** The signed bundles of cleared messages, in order. */
  function ClearedBundles(c: Constructor, rs: seq<Received>): seq<SignedBundle>
    requires c.validityBlockWindow > 0
  {
    if rs == [] then []
    else
      var r := rs[|rs| - 1];
      ClearedBundles(c, rs[..|rs| - 1])
      + (if Cleared(c, r) && r.envelope.payload.signedBundle.Some? then [r.envelope.payload.signedBundle.value] else [])
  }

  /** The aborts of compared messages that were sealed, appended and flushed, in order. */
  function JournaledAborts(c: Constructor, rs: seq<Received>): seq<MismatchAbort>
    requires c.validityBlockWindow > 0
  {
    if rs == [] then []
    else
      var r := rs[|rs| - 1];
      JournaledAborts(c, rs[..|rs| - 1])
      + (if Compared(c, r) && Verdict(r).Err? && Sealable(r) && r.answers.appendOk && r.answers.flushOk
         then [Verdict(r).error] else [])
  }

  /** The seal needs a clock past zero and a chain id. */
  predicate Sealable(r: Received) {
    r.Message? && r.answers.nowNs != 0 && r.envelope.meta.chainContext.chainId != 0
  }

  function Submissions(es: seq<Effect>): seq<SignedBundle> {
    if es == [] then []
    else
      var last := es[|es| - 1];
      Submissions(es[..|es| - 1]) + (if last.Submitted? then [last.bundle] else [])
  }

  lemma {:induction false} SubmissionsConcat(a: seq<Effect>, b: seq<Effect>)
    ensures Submissions(a + b) == Submissions(a) + Submissions(b)
    decreases |b|
  {
    if b == [] {
      assert a + b == a;
    } else {
      SubmissionsConcat(a, b[..|b| - 1]);
      assert (a + b)[..|a + b| - 1] == a + b[..|b| - 1];
    }
  }

  lemma {:induction false} AbortsConcat(a: seq<Effect>, b: seq<Effect>)
    ensures Aborts(a + b) == Aborts(a) + Aborts(b)
    decreases |b|
  {
    if b == [] {
      assert a + b == a;
    } else {
      AbortsConcat(a, b[..|b| - 1]);
      assert (a + b)[..|a + b| - 1] == a + b[..|b| - 1];
    }
  }

  lemma ConcatBoth(a: seq<Effect>, b: seq<Effect>)
    ensures Submissions(a + b) == Submissions(a) + Submissions(b) && Aborts(a + b) == Aborts(a) + Aborts(b)
  {
    SubmissionsConcat(a, b);
    AbortsConcat(a, b);
  }

  lemma SingleEffect(e: Effect)
    ensures Submissions([e]) == (if e.Submitted? then [e.bundle] else [])
    ensures Aborts([e]) == (if e.Broadcast? then [e.abort] else [])
  {
    assert [e][..0] == [];
  }

  lemma JournaledEffects(env: Envelope<MismatchAbort>, a: Answers)
    ensures Submissions(Journaled(env, a)) == []
    ensures Aborts(Journaled(env, a)) == if a.appendOk && a.flushOk then [env.payload] else []
  {
    hide Submissions, Aborts;
    var x, y, z := Appended(env, a.appendOk), Flushed(a.flushOk), Broadcast(env.payload);
    SingleEffect(x);
    SingleEffect(y);
    SingleEffect(z);
    ConcatBoth([x], [y]);
    ConcatBoth([x, y], [z]);
    assert [x] + [y] == [x, y] && [x, y] + [z] == [x, y, z];
  }

  lemma CompareOneEffects(c: Constructor, r: Received, sequence: u64)
    requires c.validityBlockWindow > 0 && Compared(c, r)
    ensures var es := CompareOne(c, r, sequence).0;
            && Submissions(es)
               == (if Verdict(r).Ok? && r.envelope.payload.signedBundle.Some?
                   then [r.envelope.payload.signedBundle.value] else [])
            && Aborts(es)
               == (if Verdict(r).Err? && Sealable(r) && r.answers.appendOk && r.answers.flushOk
                   then [Verdict(r).error] else [])
  {
    hide Submissions, Aborts, Construct, CompareResult, Journaled;
    var asked := RelayAsked(r.envelope.meta.chainContext.blockHash, r.envelope.meta.chainContext.blockNumber);
    SingleEffect(asked);
    match Verdict(r) {
      case Ok(_) =>
        var passed := Passed(Construct(c, r.envelope.payload.outcome).value);
        SingleEffect(passed);
        ConcatBoth([asked], [passed]);
        if r.envelope.payload.signedBundle.Some? {
          var submitted := Submitted(r.envelope.payload.signedBundle.value);
          SingleEffect(submitted);
          ConcatBoth([asked] + [passed], [submitted]);
        }
      case Err(abort) =>
        var sealed := SealAbort(r.envelope, abort, Succ(sequence), r.answers.nowNs);
        if sealed.Ok? {
          JournaledEffects(sealed.value, r.answers);
          ConcatBoth([asked], Journaled(sealed.value, r.answers));
        }
    }
  }

  /**
   * Exactly the signed bundles of cleared messages are submitted, each once and in order: nothing is submitted
   * from an iteration that read the switch active or whose comparison failed. The broadcasts are exactly the
   * aborts whose seal, append and flush all succeeded.
   */
  lemma {:induction false} OnlyClearedAreSubmitted(c: Constructor, script: seq<Received>)
    requires c.validityBlockWindow > 0
    ensures Submissions(After(c, script).effects) == ClearedBundles(c, Seen(script))
    ensures Aborts(After(c, script).effects) == JournaledAborts(c, Seen(script))
    ensures After(c, script).stopped <==> Seen(script) != script
  {
    hide CompareOne, Compared, Submissions, Aborts, Verdict, Sealable;
    if script == [] {
      NoEffects();
    } else {
      var init, r := script[..|script| - 1], script[|script| - 1];
      assert init + [r] == script;
      OnlyClearedAreSubmitted(c, init);
      SeenAppend(init, r);
      SeenIsPrefix(init);
      var s := After(c, init);
      if !s.stopped && r.Message? {
        assert Seen(script) == script && script[..|script| - 1] == init;
        if Compared(c, r) {
          CompareOneEffects(c, r, s.sequence);
          ConcatBoth(s.effects, CompareOne(c, r, s.sequence).0);
        }
      }
    }
  }

  lemma NoEffects()
    ensures Submissions([]) == [] && Aborts([]) == []
  {
  }

  lemma {:induction false} SeenIsPrefix(script: seq<Received>)
    ensures Seen(script) <= script
    ensures forall r :: r in Seen(script) ==> r.Message?
    ensures Seen(script) != script ==> !script[|Seen(script)|].Message?
  {
    if script != [] && script[0].Message? {
      SeenIsPrefix(script[1..]);
    }
  }

  // ----- what an abort carries --------------------------------------------------------------

  /** Every journaled envelope is valid and carries the abort and the context of a message that was compared. */
  ghost predicate FromMessage(c: Constructor, script: seq<Received>, env: Envelope<MismatchAbort>)
    requires c.validityBlockWindow > 0
  {
    exists i :: 0 <= i < |script| && Compared(c, script[i]) && Verdict(script[i]) == Err(env.payload)
                && env.meta.chainContext == script[i].envelope.meta.chainContext
                && env.meta.correlationId == script[i].envelope.meta.correlationId
  }

  lemma {:induction false} AbortsTellTheirStory(c: Constructor, script: seq<Received>, k: nat)
    requires c.validityBlockWindow > 0
    requires k < |After(c, script).effects| && After(c, script).effects[k].Appended?
    ensures var env := After(c, script).effects[k].envelope;
            && IsValid(env) && FromMessage(c, script, env)
            && env.payload.inputs.local.status.Success? && env.payload.inputs.local.simulatedProfitWei > 0
            && (env.payload.category == Unknown <==> env.payload.relay.None?)
    decreases |script|
  {
    hide Construct, CompareOne, Verdict, Validate;
    var init, r := script[..|script| - 1], script[|script| - 1];
    var s := After(c, init);
    var env := After(c, script).effects[k].envelope;
    if k < |s.effects| {
      AbortsTellTheirStory(c, init, k);
      var i :| 0 <= i < |init| && Compared(c, init[i]) && Verdict(init[i]) == Err(env.payload)
               && env.meta.chainContext == init[i].envelope.meta.chainContext
               && env.meta.correlationId == init[i].envelope.meta.correlationId;
      assert script[i] == init[i];
    } else {
      AppendedByThis(c, r, s.sequence, k - |s.effects|);
      VerdictCarries(c, r);
    }
  }

  lemma AppendedByThis(c: Constructor, r: Received, sequence: u64, k: nat)
    requires c.validityBlockWindow > 0 && Compared(c, r)
    requires k < |CompareOne(c, r, sequence).0| && CompareOne(c, r, sequence).0[k].Appended?
    ensures var env := CompareOne(c, r, sequence).0[k].envelope;
            && IsValid(env) && Verdict(r) == Err(env.payload) && env.sequence == Succ(sequence)
            && env.meta.chainContext == r.envelope.meta.chainContext
            && env.meta.correlationId == r.envelope.meta.correlationId
  {
    hide Construct, CompareResult, Validate;
  }

  /** The journaled envelopes carry rising sequence numbers, none above `top`. */
  ghost predicate Rising(es: seq<Effect>, top: int) {
    && (forall k :: 0 <= k < |es| && es[k].Appended? ==> 0 < es[k].envelope.sequence <= top)
    && forall j, k :: 0 <= j < k < |es| && es[j].Appended? && es[k].Appended? ==>
      es[j].envelope.sequence < es[k].envelope.sequence
  }

  /** Until the counter wraps, sequence numbers in the journal strictly rise, with gaps where a seal failed. */
  lemma {:induction false} SequencesRise(c: Constructor, script: seq<Received>)
    requires c.validityBlockWindow > 0 && |script| <= U64_MAX
    ensures After(c, script).sequence <= |script| && Rising(After(c, script).effects, After(c, script).sequence)
  {
    hide CompareOne, Compared;
    if script != [] {
      var init, r := script[..|script| - 1], script[|script| - 1];
      SequencesRise(c, init);
      var s := After(c, init);
      if !s.stopped && r.Message? && Compared(c, r) {
        OneEnvelopeAtMost(c, r, s.sequence);
      }
    }
  }

  lemma OneEnvelopeAtMost(c: Constructor, r: Received, sequence: u64)
    requires c.validityBlockWindow > 0 && Compared(c, r) && sequence < U64_MAX
    ensures var (es, next) := CompareOne(c, r, sequence);
            && sequence <= next <= sequence + 1
            && (forall k :: 0 <= k < |es| && es[k].Appended? ==> es[k].envelope.sequence == next == sequence + 1)
            && forall j, k :: 0 <= j < k < |es| && es[j].Appended? ==> !es[k].Appended?
  {
    hide Construct, CompareResult;
  }

  lemma VerdictCarries(c: Constructor, r: Received)
    requires c.validityBlockWindow > 0 && Compared(c, r) && Verdict(r).Err?
    ensures var abort := Verdict(r).error;
            && abort.inputs == InputsOf(r.envelope.payload)
            && abort.inputs.local.status.Success? && abort.inputs.local.simulatedProfitWei > 0
            && (abort.category == Unknown <==> abort.relay.None?)
  {
    hide FirstDisagreement;
  }
}
