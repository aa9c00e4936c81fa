/** The comparator driver's whole effect, message by message, stated without its own helpers. */
module ComparatorStory {
  import opened Wrappers
  import opened Numbers
  import opened Types
  import opened RelaySim
  import opened ComparatorDriver

  /** The relay is asked about a message that comes with the switch off, a profit, and a strategy willing to bid. */
  predicate Asks(c: Constructor, r: Received) {
    && r.Message? && !r.answers.killSwitch
    && var o := r.envelope.payload.outcome;
    && o.status.Success? && o.simulatedProfitWei > 0 && c.bid(o) > 0
  }

  /** How the local simulation, with nothing expected of the bundle's place, compares with the relay's answer. */
  function Compares(r: Received): Result<(), MismatchAbort>
    requires r.Message?
  {
    var m := r.envelope.payload;
    CompareResult(Inputs(m.outcome, LocalBundleShape(0, 0), m.fingerprint), r.answers.relay)
  }

  function Mismatches(c: Constructor, rs: seq<Received>): nat {
    if rs == [] then 0
    else
      var last := rs[|rs| - 1];
      Mismatches(c, rs[..|rs| - 1]) + (if Asks(c, last) && Compares(last).Err? then 1 else 0)
  }

  function BundleFor(c: Constructor, o: SimulationOutcome): BundleCandidate
    requires c.validityBlockWindow > 0
  {
    var last := o.opportunityBlockNumber + c.validityBlockWindow - 1;
    BundleCandidate(o, c.bid(o), o.opportunityBlockNumber,
                    if last < 0x1_0000_0000_0000_0000 then last else 0xFFFF_FFFF_FFFF_FFFF)
  }

  /** The `n`-th mismatch: sealed with the message's context, journaled, flushed and only then broadcast. */
  function MismatchStory(r: Received, abort: MismatchAbort, n: nat): seq<Effect>
    requires r.Message?
  {
    var context := r.envelope.meta.chainContext;
    var env := Envelope(n % 0x1_0000_0000_0000_0000, r.answers.nowNs,
                        PublishMeta(Relay, context, 1, r.envelope.meta.correlationId), abort);
    if r.answers.nowNs == 0 || context.chainId == 0 then []
    else if !r.answers.appendOk then [Appended(env, false)]
    else if !r.answers.flushOk then [Appended(env, true), Flushed(false)]
    else [Appended(env, true), Flushed(true), Broadcast(abort)]
  }

  /** All that one message leads to when `n` mismatches have come before it. */
  function Story(c: Constructor, r: Received, n: nat): seq<Effect>
    requires c.validityBlockWindow > 0
  {
    if !Asks(c, r) then []
    else
      var m, context := r.envelope.payload, r.envelope.meta.chainContext;
      [RelayAsked(context.blockHash, context.blockNumber)]
      + match Compares(r)
        case Ok(_) =>
          [Passed(BundleFor(c, m.outcome))] + (if m.signedBundle.Some? then [Submitted(m.signedBundle.value)] else [])
        case Err(abort) => MismatchStory(r, abort, n + 1)
  }

  function Stories(c: Constructor, rs: seq<Received>): seq<Effect>
    requires c.validityBlockWindow > 0
  {
    if rs == [] then []
    else
      var init := rs[..|rs| - 1];
      Stories(c, init) + Story(c, rs[|rs| - 1], Mismatches(c, init))
  }

  lemma ComparedMeansAsks(c: Constructor, r: Received)
    requires c.validityBlockWindow > 0
    ensures Compared(c, r) <==> Asks(c, r)
    ensures Compared(c, r) ==>
      Construct(c, r.envelope.payload.outcome) == Some(BundleFor(c, r.envelope.payload.outcome))
    ensures r.Message? ==> Verdict(r) == Compares(r)
  {
    hide CompareResult;
  }

  lemma OneStory(c: Constructor, r: Received, n: nat)
    requires c.validityBlockWindow > 0 && Compared(c, r)
    ensures var (es, next) := CompareOne(c, r, n % 0x1_0000_0000_0000_0000);
            && es == Story(c, r, n)
            && next == (n + if Compares(r).Err? then 1 else 0) % 0x1_0000_0000_0000_0000
  {
    ComparedMeansAsks(c, r);
    assert Succ(n % 0x1_0000_0000_0000_0000) == (n + 1) % 0x1_0000_0000_0000_0000;
    hide Compared, Construct, CompareResult, Asks, BundleFor, Compares;
  }

  /**
   * The driver's state after a run of messages only: their stories, and as many numbers used as there are mismatches.
   */
  ghost predicate Told(c: Constructor, s: State, rs: seq<Received>)
    requires c.validityBlockWindow > 0
  {
    s.effects == Stories(c, rs) && s.sequence == Mismatches(c, rs) % 0x1_0000_0000_0000_0000
  }

  lemma OneMoreTold(c: Constructor, s: State, rs: seq<Received>, r: Received)
    requires c.validityBlockWindow > 0 && Told(c, s, rs) && !s.stopped && r.Message?
    ensures Told(c, Receive(c, s, r), rs + [r]) && !Receive(c, s, r).stopped
  {
    hide CompareOne, Compared, Asks, Story, Compares, Verdict;
    assert (rs + [r])[..|rs|] == rs;
    ComparedMeansAsks(c, r);
    if Compared(c, r) {
      OneStory(c, r, Mismatches(c, rs));
    } else {
      QuietStory(c, r, Mismatches(c, rs));
      assert Stories(c, rs) + [] == Stories(c, rs);
    }
  }

  /** The whole run is the stories of the messages seen, up to the first lag or the close. */
  lemma {:induction false} RunIsItsStories(c: Constructor, script: seq<Received>)
    requires c.validityBlockWindow > 0
    ensures After(c, script).effects == Stories(c, Seen(script))
    ensures After(c, script).sequence == Mismatches(c, Seen(script)) % 0x1_0000_0000_0000_0000
    ensures After(c, script).stopped <==> Seen(script) != script
  {
    hide CompareOne, Compared, Stories, Mismatches;
    if script == [] {
      NothingTold(c);
    } else {
      var init, r := script[..|script| - 1], script[|script| - 1];
      assert init + [r] == script;
      RunIsItsStories(c, init);
      SeenAppend(init, r);
      SeenIsPrefix(init);
      var s := After(c, init);
      if !s.stopped && r.Message? {
        OneMoreTold(c, s, init, r);
      }
    }
  }

  lemma NothingTold(c: Constructor)
    requires c.validityBlockWindow > 0
    ensures Stories(c, []) == [] && Mismatches(c, []) == 0
  {
  }

  lemma QuietStory(c: Constructor, r: Received, n: nat)
    requires c.validityBlockWindow > 0 && !Asks(c, r)
    ensures Story(c, r, n) == []
  {
    hide Asks;
  }

  /** So the driver, run to its end, does exactly that and then flushes once more; without a relay it does nothing. */
  lemma DriverIsItsStories(c: Constructor, relayConfigured: bool, script: seq<Received>, lastFlushOk: bool)
    requires c.validityBlockWindow > 0
    ensures Run(c, relayConfigured, script, lastFlushOk)
         == if !relayConfigured then []
            else Stories(c, Seen(script)) + (if Seen(script) == script then [] else [Flushed(lastFlushOk)])
  {
    hide After, Stories, Seen;
    RunIsItsStories(c, script);
    assert Stories(c, Seen(script)) + [] == Stories(c, Seen(script));
  }
}
