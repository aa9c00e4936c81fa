/** What the opportunity driver sends, given only the pairs it has checked and the clock. */
module OpportunitiesSent {
  import opened Wrappers
  import opened Numbers
  import opened Pools
  import opened Types
  import opened Opportunity
  import opened OpportunityDriver

  /** The opportunities that checking these pairs finds, in order. */
  function Found(ps: seq<(Update, Update)>): seq<OpportunityEvent> {
    if ps == [] then []
    else
      var (a, b) := ps[|ps| - 1];
      var r := Check(a.meta.chainContext, a.payload.pool, a.payload.state, b.payload.pool, b.payload.state);
      Found(ps[..|ps| - 1]) + (if r.Some? then [r.value] else [])
  }

  /** Opportunity number `n`, counted from one, as it is sent. */
  function Numbered(n: nat, event: OpportunityEvent, clock: u64 -> u64): Envelope<OpportunityEvent> {
    var sequence := n % 0x1_0000_0000_0000_0000;
    Envelope(sequence, clock(sequence), PublishMeta(OpportunityEngine, ChainContext(1, 0, 0), 1, 0), event)
  }

  /** All of them numbered, without those whose timestamp is zero. */
  function AllNumbered(events: seq<OpportunityEvent>, clock: u64 -> u64): seq<Envelope<OpportunityEvent>> {
    if events == [] then []
    else
      var last := Numbered(|events|, events[|events| - 1], clock);
      AllNumbered(events[..|events| - 1], clock) + (if last.timestampNs != 0 then [last] else [])
  }

  ghost predicate Tells(o: Output, ps: seq<(Update, Update)>, clock: u64 -> u64) {
    o.sent == AllNumbered(Found(ps), clock) && o.sequence == |Found(ps)| % 0x1_0000_0000_0000_0000
  }

  lemma OneMoreCheck(o: Output, ps: seq<(Update, Update)>, p: (Update, Update), clock: u64 -> u64)
    requires Tells(o, ps, clock)
    ensures Tells(EmitOne(o, p, clock), ps + [p], clock)
  {
    hide Check;
    assert (ps + [p])[..|ps|] == ps;
    var r := CheckPair(p);
    if r.Some? {
      assert (Found(ps) + [r.value])[..|Found(ps)|] == Found(ps);
    } else {
      assert Found(ps + [p]) == Found(ps) + [] == Found(ps);
    }
  }

  lemma {:induction false} MoreChecks(o: Output, ps: seq<(Update, Update)>, more: seq<(Update, Update)>,
                                      clock: u64 -> u64)
    requires Tells(o, ps, clock)
    ensures Tells(Emit(o, more, clock), ps + more, clock)
    decreases |more|
  {
    hide EmitOne, Tells;
    if more == [] {
      assert ps + more == ps;
    } else {
      var init, last := more[..|more| - 1], more[|more| - 1];
      MoreChecks(o, ps, init, clock);
      OneMoreCheck(Emit(o, init, clock), ps + init, last, clock);
      assert ps + init + [last] == ps + more;
    }
  }

  /** For every stream: what was sent is exactly what the checked pairs lead to, numbered in order. */
  lemma {:induction false} SentIsWhatWasFound(us: seq<Update>, clock: u64 -> u64)
    ensures After(us, clock).output.sent == AllNumbered(Found(After(us, clock).checks), clock)
    ensures After(us, clock).output.sequence == |Found(After(us, clock).checks)| % 0x1_0000_0000_0000_0000
  {
    hide Pairs, Emit, Evict, Pushed, Found, AllNumbered;
    if us == [] {
      NothingFound(clock);
    } else {
      var before, u := After(us[..|us| - 1], clock), us[|us| - 1];
      SentIsWhatWasFound(us[..|us| - 1], clock);
      MoreChecks(before.output, before.checks, Pairs(NewGroup(before, u)), clock);
    }
  }

  lemma NothingFound(clock: u64 -> u64)
    ensures Found([]) == [] && AllNumbered([], clock) == []
  {
  }

  lemma {:induction false} NoneMissing(events: seq<OpportunityEvent>, clock: u64 -> u64)
    requires forall n :: clock(n) != 0
    ensures |AllNumbered(events, clock)| == |events|
    ensures forall i :: 0 <= i < |events| ==> AllNumbered(events, clock)[i] == Numbered(i + 1, events[i], clock)
  {
    if events != [] {
      NoneMissing(events[..|events| - 1], clock);
    }
  }

  /** With a clock that is never zero nothing is missing: one envelope per opportunity, numbered from one. */
  lemma EveryOpportunityIsSent(us: seq<Update>, clock: u64 -> u64)
    requires forall n :: clock(n) != 0
    ensures var sent, found := After(us, clock).output.sent, Found(After(us, clock).checks);
            && |sent| == |found|
            && forall i :: 0 <= i < |sent| ==>
                 && sent[i].payload == found[i]
                 && sent[i].sequence == (i + 1) % 0x1_0000_0000_0000_0000
                 && sent[i].timestampNs == clock(sent[i].sequence)
                 && sent[i].meta == PublishMeta(OpportunityEngine, ChainContext(1, 0, 0), 1, 0)
  {
    hide After, Found, AllNumbered;
    SentIsWhatWasFound(us, clock);
    NoneMissing(Found(After(us, clock).checks), clock);
  }
}
