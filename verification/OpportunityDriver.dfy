/** `opportunity_driver`: groups state updates by block, checks every pair of a group, forgets old blocks. */
module OpportunityDriver {
  import opened Wrappers
  import opened Numbers
  import opened Pools
  import opened Types
  import opened Opportunity

  const MAX_BLOCKS: nat := 16
  const KEPT_DISTANCE: nat := 8
  datatype StateUpdateEvent = StateUpdateEvent(blockNumber: u64, blockHash: nat, pool: PoolId, state: PoolState)

  type Update = Envelope<StateUpdateEvent>
  type Groups = map<u64, seq<Update>>

  function BlockOf(u: Update): u64 {
    u.payload.blockNumber
  }

  // ----- sealing ----------------------------------------------------------------------------

  /** `seal_envelope`: chain 1, block 0, zero hash, whatever the payload is about. */
  function SealEnvelope<P>(source: EventSource, payload: P, sequence: u64, nowNs: u64)
    : Result<Envelope<P>, TypesError>
  {
    Seal(PublishMeta(source, ChainContext(1, 0, 0), 1, 0), payload, sequence, nowNs)
  }

  // ----- one update -------------------------------------------------------------------------

  /** The pairs of a group in the order the two nested loops visit them. */
  function Row(a: Update, rest: seq<Update>): seq<(Update, Update)> {
    if rest == [] then [] else [(a, rest[0])] + Row(a, rest[1..])
  }

  function Pairs(g: seq<Update>): seq<(Update, Update)> {
    if g == [] then [] else Row(g[0], g[1..]) + Pairs(g[1..])
  }

  datatype Output = Output(sequence: u64, sent: seq<Envelope<OpportunityEvent>>)

  function CheckPair(p: (Update, Update)): Option<OpportunityEvent> {
    Check(p.0.meta.chainContext, p.0.payload.pool, p.0.payload.state, p.1.payload.pool, p.1.payload.state)
  }

  /** One check, and the envelope it leads to; `clock` gives the time of each seal by its sequence number. */
  function EmitOne(o: Output, p: (Update, Update), clock: u64 -> u64): Output {
    match CheckPair(p)
    case None => o
    case Some(event) =>
      var sequence := Succ(o.sequence);
      match SealEnvelope(OpportunityEngine, event, sequence, clock(sequence))
      case Err(_) => Output(sequence, o.sent)
      case Ok(env) => Output(sequence, o.sent + [env])
  }

  function Emit(o: Output, ps: seq<(Update, Update)>, clock: u64 -> u64): Output {
    if ps == [] then o else EmitOne(Emit(o, ps[..|ps| - 1], clock), ps[|ps| - 1], clock)
  }

  function GroupOf(groups: Groups, b: u64): seq<Update> {
    if b in groups then groups[b] else []
  }

  function Pushed(groups: Groups, u: Update): Groups {
    groups[BlockOf(u) := GroupOf(groups, BlockOf(u)) + [u]]
  }

  ghost predicate IsHighest(high: u64, keys: set<u64>) {
    high in keys && forall k :: k in keys ==> k <= high
  }

  lemma {:induction false} HighestExists(keys: set<u64>)
    requires keys != {}
    ensures exists high :: IsHighest(high, keys)
    decreases keys
  {
    var some: u64 :| some in keys;
    if keys == {some} {
      assert IsHighest(some, keys);
    } else {
      HighestExists(keys - {some});
      var other: u64 :| IsHighest(other, keys - {some});
      var high := if other > some then other else some;
      forall k | k in keys ensures k <= high {
        if k != some { assert k in keys - {some}; }
      }
      assert IsHighest(high, keys);
    }
  }

  function Cutoff(high: u64): u64 {
    if high < KEPT_DISTANCE then 0 else high - KEPT_DISTANCE
  }

  function Retained(groups: Groups, cutoff: u64): Groups {
    map k | k in groups && k >= cutoff :: groups[k]
  }

  /** What eviction leaves. */
  ghost predicate Evicted(groups: Groups, after: Groups) {
    if |groups| > MAX_BLOCKS then exists high :: IsHighest(high, groups.Keys) && after == Retained(groups, Cutoff(high))
    else after == groups
  }

  ghost function Evict(groups: Groups): (after: Groups)
    ensures Evicted(groups, after)
  {
    if |groups| > MAX_BLOCKS then
      assert |groups| == |groups.Keys|;
      HighestExists(groups.Keys);
      var highest: u64 :| IsHighest(highest, groups.Keys);
      Retained(groups, Cutoff(highest))
    else groups
  }

  lemma EvictedIsUnique(groups: Groups, a: Groups, b: Groups)
    requires Evicted(groups, a) && Evicted(groups, b)
    ensures a == b
  {
  }

  datatype State = State(groups: Groups, checks: seq<(Update, Update)>, output: Output)

  const START: State := State(map[], [], Output(0, []))

  ghost function Receive(s: State, u: Update, clock: u64 -> u64): State {
    var pushed := Pushed(s.groups, u);
    var pairs := Pairs(pushed[BlockOf(u)]);
    State(Evict(pushed), s.checks + pairs, Emit(s.output, pairs, clock))
  }

  ghost function After(us: seq<Update>, clock: u64 -> u64): State {
    if us == [] then START else Receive(After(us[..|us| - 1], clock), us[|us| - 1], clock)
  }

  // ----- the driver -------------------------------------------------------------------------

  method Drive(us: seq<Update>, clock: u64 -> u64)
    returns (groups: Groups, checks: seq<(Update, Update)>, output: Output)
    ensures State(groups, checks, output) == After(us, clock)
  {
    hide Pairs, Emit, Evict, Evicted, Retained;
    groups, checks, output := map[], [], Output(0, []);
    for i := 0 to |us|
      invariant State(groups, checks, output) == After(us[..i], clock)
    {
      var u := us[i];
      assert us[..i + 1][..i] == us[..i];
      ghost var before := State(groups, checks, output);
      groups := groups[BlockOf(u) := GroupOf(groups, BlockOf(u)) + [u]];
      var group := groups[BlockOf(u)];
      if |group| >= 2 {
        checks, output := CheckGroup(group, checks, output, clock);
      } else {
        NothingToCheck(group, output, clock);
        assert checks + [] == checks;
      }
      ghost var pushed := groups;
      if |groups| > MAX_BLOCKS {
        var high := Highest(groups.Keys, BlockOf(u));
        groups := Retained(groups, Cutoff(high));
        EvictedBy(pushed, high);
      } else {
        NotEvicted(pushed);
      }
      assert State(groups, checks, output) == Receive(before, u, clock);
    }
    assert us[..|us|] == us;
  }

  lemma EvictedBy(groups: Groups, high: u64)
    requires |groups| > MAX_BLOCKS && IsHighest(high, groups.Keys)
    ensures Evict(groups) == Retained(groups, Cutoff(high))
  {
    EvictedIsUnique(groups, Evict(groups), Retained(groups, Cutoff(high)));
  }

  lemma EvictionHeight(groups: Groups) returns (high: u64)
    requires |groups| > MAX_BLOCKS
    ensures IsHighest(high, groups.Keys) && Evict(groups) == Retained(groups, Cutoff(high))
  {
    assert |groups| == |groups.Keys|;
    HighestExists(groups.Keys);
    high :| IsHighest(high, groups.Keys);
    EvictedBy(groups, high);
  }

  lemma NotEvicted(groups: Groups)
    requires |groups| <= MAX_BLOCKS
    ensures Evict(groups) == groups
  {
  }

  lemma NothingToCheck(g: seq<Update>, o: Output, clock: u64 -> u64)
    requires |g| <= 1
    ensures Pairs(g) == [] && Emit(o, [], clock) == o
  {
  }

  /** The highest key, found by looking at each. */
  method Highest(keys: set<u64>, some: u64) returns (high: u64)
    requires some in keys
    ensures IsHighest(high, keys)
  {
    high := some;
    var left := keys;
    while left != {}
      invariant left <= keys && high in keys
      invariant forall k :: k in keys && k !in left ==> k <= high
      decreases left
    {
      var k :| k in left;
      if k > high {
        high := k;
      }
      left := left - {k};
    }
  }

  /** The two nested loops over one group. */
  method CheckGroup(group: seq<Update>, checks0: seq<(Update, Update)>, output0: Output, clock: u64 -> u64)
    returns (checks: seq<(Update, Update)>, output: Output)
    ensures checks == checks0 + Pairs(group)
    ensures output == Emit(output0, Pairs(group), clock)
  {
    hide CheckPair, Emit;
    var done: seq<(Update, Update)> := [];
    output := output0;
    assert group[0..] == group;
    NothingSent(output0, clock);
    for i := 0 to |group|
      invariant done + Pairs(group[i..]) == Pairs(group)
      invariant output == Emit(output0, done, clock)
    {
      assert group[i..][1..] == group[i + 1..];
      ghost var before, rest := done, Pairs(group[i + 1..]);
      for j := i + 1 to |group|
        invariant done + Row(group[i], group[j..]) == before + Row(group[i], group[i + 1..])
        invariant output == Emit(output0, done, clock)
      {
        var p := (group[i], group[j]);
        RowStep(done, p.0, group[j..]);
        assert group[j..][1..] == group[j + 1..];
        SentOneMore(output0, done, p, clock);
        done := done + [p];
        output := CheckAndSend(output, p, clock);
      }
      assert done + Row(group[i], group[|group|..]) == done;
      assert before + (Row(group[i], group[i + 1..]) + rest) == before + Row(group[i], group[i + 1..]) + rest;
    }
    assert done + Pairs(group[|group|..]) == done;
    checks := checks0 + done;
  }

  lemma RowStep(done: seq<(Update, Update)>, a: Update, rest: seq<Update>)
    requires rest != []
    ensures done + Row(a, rest) == done + [(a, rest[0])] + Row(a, rest[1..])
  {
  }

  lemma NothingSent(o: Output, clock: u64 -> u64)
    ensures Emit(o, [], clock) == o
  {
  }

  lemma SentOneMore(o: Output, ps: seq<(Update, Update)>, p: (Update, Update), clock: u64 -> u64)
    ensures Emit(o, ps + [p], clock) == EmitOne(Emit(o, ps, clock), p, clock)
  {
    assert (ps + [p])[..|ps|] == ps;
  }

  method CheckAndSend(output0: Output, p: (Update, Update), clock: u64 -> u64) returns (output: Output)
    ensures output == EmitOne(output0, p, clock)
  {
    hide CheckPair;
    output := output0;
    var event := CheckPair(p);
    if event.Some? {
      output := output.(sequence := Succ(output.sequence));
      var env := SealEnvelope(OpportunityEngine, event.value, output.sequence, clock(output.sequence));
      if env.Ok? {
        output := output.(sent := output.sent + [env.value]);
      }
    }
  }

  // ----- bounded memory ---------------------------------------------------------------------

  lemma {:induction false} KeysInRange(keys: set<u64>, low: int, high: int)
    requires forall k :: k in keys ==> low <= k <= high
    requires low <= high + 1
    ensures |keys| <= high - low + 1
    decreases high - low
  {
    if low <= high {
      KeysInRange(keys - {high}, low, high - 1);
    }
  }

  /** At most 16 blocks are held after every update; at most 9 after an eviction. */
  lemma {:induction false} AtMostSixteenBlocks(us: seq<Update>, clock: u64 -> u64)
    ensures |After(us, clock).groups| <= MAX_BLOCKS
    ensures us != [] && |Pushed(After(us[..|us| - 1], clock).groups, us[|us| - 1])| > MAX_BLOCKS
            ==> |After(us, clock).groups| <= KEPT_DISTANCE + 1
  {
    hide Pairs, Emit, Pushed;
    if us != [] {
      var pushed := Pushed(After(us[..|us| - 1], clock).groups, us[|us| - 1]);
      if |pushed| > MAX_BLOCKS {
        var high := EvictionHeight(pushed);
        var kept := Retained(pushed, Cutoff(high));
        KeysInRange(kept.Keys, Cutoff(high), high);
        assert |kept| == |kept.Keys|;
      }
    }
  }

  /** A block is dropped exactly when a 17th block arrives and the highest is more than 8 above it. */
  lemma DroppedExactlyWhen(groups: Groups, b: u64)
    requires b in groups
    ensures b !in Evict(groups) <==> |groups| > MAX_BLOCKS && exists high :: high in groups && high > b + KEPT_DISTANCE
    ensures b in Evict(groups) ==> Evict(groups)[b] == groups[b]
  {
    if |groups| > MAX_BLOCKS {
      var high := EvictionHeight(groups);
      if b !in Evict(groups) {
        assert high in groups && high > b + KEPT_DISTANCE;
      }
    }
  }

  // ----- which pairs are checked ------------------------------------------------------------

  function OfBlock(us: seq<Update>, b: u64): seq<Update> {
    if us == [] then []
    else OfBlock(us[..|us| - 1], b) + (if BlockOf(us[|us| - 1]) == b then [us[|us| - 1]] else [])
  }

  lemma OfBlockOneMore(us: seq<Update>, u: Update, b: u64)
    ensures OfBlock(us + [u], b) == OfBlock(us, b) + (if BlockOf(u) == b then [u] else [])
  {
    assert (us + [u])[..|us|] == us;
  }

  /** The point after which the driver has held block `b` without interruption. */
  ghost function HeldSince(us: seq<Update>, clock: u64 -> u64, b: u64): (n: nat)
    ensures n <= |us|
  {
    if us == [] || b !in After(us, clock).groups then |us| else HeldSince(us[..|us| - 1], clock, b)
  }

  /** The group of a block is, at any moment, exactly the updates of that block since it was last held anew. */
  lemma {:induction false} GroupIsRecentHistory(us: seq<Update>, clock: u64 -> u64, b: u64)
    ensures GroupOf(After(us, clock).groups, b) == OfBlock(us[HeldSince(us, clock, b)..], b)
  {
    hide After, OfBlock;
    if us == [] || b !in After(us, clock).groups {
      NothingYet(clock, b);
      assert us[|us|..] == [];
    } else {
      var init, u := us[..|us| - 1], us[|us| - 1];
      GroupIsRecentHistory(init, clock, b);
      GroupAfter(us, clock, b);
      var n := HeldSince(init, clock, b);
      assert us[n..] == init[n..] + [u];
      OfBlockOneMore(init[n..], u, b);
    }
  }

  lemma NothingYet(clock: u64 -> u64, b: u64)
    ensures OfBlock([], b) == [] && b !in After([], clock).groups
  {
  }

  /** A held block's group has grown by the last update if that is of this block, and is otherwise as before. */
  lemma GroupAfter(us: seq<Update>, clock: u64 -> u64, b: u64)
    requires us != [] && b in After(us, clock).groups
    ensures After(us, clock).groups[b]
         == GroupOf(After(us[..|us| - 1], clock).groups, b)
            + (if BlockOf(us[|us| - 1]) == b then [us[|us| - 1]] else [])
  {
    hide Pairs, Emit, Evict, Pushed;
    var before, u := After(us[..|us| - 1], clock).groups, us[|us| - 1];
    KeptAsIs(Pushed(before, u), b);
    PushedGroup(before, u, b);
  }

  lemma PushedGroup(groups: Groups, u: Update, b: u64)
    requires b in Pushed(groups, u)
    ensures Pushed(groups, u)[b] == GroupOf(groups, b) + (if BlockOf(u) == b then [u] else [])
  {
  }

  lemma KeptAsIs(groups: Groups, b: u64)
    requires b in Evict(groups)
    ensures b in groups && Evict(groups)[b] == groups[b]
  {
  }

  ghost predicate NothingFarAbove(us: seq<Update>, b: u64) {
    forall u :: u in us ==> BlockOf(u) <= b + KEPT_DISTANCE
  }

  lemma {:induction false} HeldBlocksArrived(us: seq<Update>, clock: u64 -> u64, k: u64)
    requires k in After(us, clock).groups
    ensures exists u :: u in us && BlockOf(u) == k
  {
    hide Pairs, Emit, Evict;
    if us != [] {
      var init, u := us[..|us| - 1], us[|us| - 1];
      assert u in us;
      KeptAsIs(Pushed(After(init, clock).groups, u), k);
      if k != BlockOf(u) {
        HeldBlocksArrived(init, clock, k);
        var v :| v in init && BlockOf(v) == k;
        assert v in us;
      }
    }
  }

  /** As long as nothing more than 8 blocks above `b` arrives, `b` keeps all its updates. */
  lemma {:induction false} CloseBlocksAreKept(us: seq<Update>, clock: u64 -> u64, b: u64)
    requires NothingFarAbove(us, b)
    ensures GroupOf(After(us, clock).groups, b) == OfBlock(us, b)
  {
    hide Pairs, Emit, Evict;
    if us != [] {
      var init, u := us[..|us| - 1], us[|us| - 1];
      assert init + [u] == us;
      CloseBlocksAreKept(init, clock, b);
      var pushed := Pushed(After(init, clock).groups, u);
      if b in pushed {
        forall k | k in pushed ensures k <= b + KEPT_DISTANCE {
          if k != BlockOf(u) { HeldBlocksArrived(init, clock, k); }
        }
        DroppedExactlyWhen(pushed, b);
      } else if b in Evict(pushed) {
        KeptAsIs(pushed, b);
      }
    }
  }

  lemma {:induction false} RowHas(a: Update, rest: seq<Update>, j: nat)
    requires j < |rest|
    ensures (a, rest[j]) in Row(a, rest)
  {
    if j > 0 { RowHas(a, rest[1..], j - 1); }
  }

  lemma {:induction false} PairsHas(g: seq<Update>, i: nat, j: nat)
    requires i < j < |g|
    ensures (g[i], g[j]) in Pairs(g)
  {
    hide Row;
    if i == 0 {
      RowHas(g[0], g[1..], j - 1);
    } else {
      PairsHas(g[1..], i - 1, j - 1);
    }
  }

  /** How many pairs of `n` updates have one of the first `i` as the earlier one. */
  function RowStart(n: nat, i: nat): nat
    requires i < n
    decreases i
  {
    if i == 0 then 0 else n - 1 + RowStart(n - 1, i - 1)
  }

  /** The pairs come in the order of their earlier and then of their later member. */
  lemma {:induction false} PairsInOrder(g: seq<Update>, i: nat, j: nat)
    requires i < j < |g|
    ensures var k := RowStart(|g|, i) + (j - i - 1);
            k < |Pairs(g)| && Pairs(g)[k] == (g[i], g[j])
    decreases i
  {
    hide Row;
    RowLength(g[0], g[1..]);
    if i == 0 {
      RowAt(g[0], g[1..], j - 1);
    } else {
      PairsInOrder(g[1..], i - 1, j - 1);
    }
  }

  lemma {:induction false} RowAt(a: Update, rest: seq<Update>, j: nat)
    requires j < |rest|
    ensures j < |Row(a, rest)| && Row(a, rest)[j] == (a, rest[j])
  {
    if j > 0 { RowAt(a, rest[1..], j - 1); }
  }

  lemma {:induction false} PairsOnlyHas(g: seq<Update>, p: (Update, Update)) returns (i: nat, j: nat)
    requires p in Pairs(g)
    ensures i < j < |g| && p == (g[i], g[j])
  {
    hide Row;
    if p in Row(g[0], g[1..]) {
      var k := RowOnlyHas(g[0], g[1..], p);
      i, j := 0, k + 1;
    } else {
      i, j := PairsOnlyHas(g[1..], p);
      i, j := i + 1, j + 1;
    }
  }

  lemma {:induction false} RowOnlyHas(a: Update, rest: seq<Update>, p: (Update, Update)) returns (k: nat)
    requires p in Row(a, rest)
    ensures k < |rest| && p == (a, rest[k])
  {
    if p == (a, rest[0]) {
      k := 0;
    } else {
      k := RowOnlyHas(a, rest[1..], p);
      k := k + 1;
    }
  }

  lemma {:induction false} OfBlockHas(us: seq<Update>, b: u64, i: nat)
    requires i < |us| && BlockOf(us[i]) == b
    ensures us[i] in OfBlock(us, b)
  {
    if i < |us| - 1 {
      OfBlockHas(us[..|us| - 1], b, i);
    }
  }

  /** The checks that the last update caused. */
  ghost function NewChecks(us: seq<Update>, clock: u64 -> u64): seq<(Update, Update)>
    requires us != []
  {
    Pairs(Pushed(After(us[..|us| - 1], clock).groups, us[|us| - 1])[BlockOf(us[|us| - 1])])
  }

  /** Two updates of block `b` are checked, the earlier first, if no block above `b + 8` arrived by the second. */
  lemma CloseUpdatesAreChecked(us: seq<Update>, clock: u64 -> u64, i: nat, j: nat)
    requires i < j < |us| && BlockOf(us[i]) == BlockOf(us[j])
    requires NothingFarAbove(us[..j + 1], BlockOf(us[j]))
    ensures (us[i], us[j]) in NewChecks(us[..j + 1], clock)
    ensures After(us[..j + 1], clock).checks == After(us[..j], clock).checks + NewChecks(us[..j + 1], clock)
  {
    hide Pairs, Emit, Evict;
    var b := BlockOf(us[j]);
    assert us[..j + 1][..j] == us[..j];
    assert forall u :: u in us[..j] ==> u in us[..j + 1];
    CloseBlocksAreKept(us[..j], clock, b);
    var held := OfBlock(us[..j], b);
    assert us[..j][i] == us[i];
    OfBlockHas(us[..j], b, i);
    var k :| 0 <= k < |held| && held[k] == us[i];
    PairsHas(held + [us[j]], k, |held|);
  }

  ghost predicate Filed(groups: Groups) {
    forall b, u :: b in groups && u in groups[b] ==> BlockOf(u) == b
  }

  lemma {:induction false} GroupsAreFiled(us: seq<Update>, clock: u64 -> u64)
    ensures Filed(After(us, clock).groups)
  {
    hide Pairs, Emit, Evict;
    if us != [] {
      GroupsAreFiled(us[..|us| - 1], clock);
      forall b | b in After(us, clock).groups ensures forall u :: u in After(us, clock).groups[b] ==> BlockOf(u) == b {
        KeptAsIs(Pushed(After(us[..|us| - 1], clock).groups, us[|us| - 1]), b);
      }
    }
  }

  /** Only updates of one block are ever checked against each other. */
  lemma {:induction false} OnlySameBlockIsChecked(us: seq<Update>, clock: u64 -> u64, p: (Update, Update))
    requires p in After(us, clock).checks
    ensures BlockOf(p.0) == BlockOf(p.1)
  {
    hide Pairs, Emit, Evict;
    if us != [] {
      var before := After(us[..|us| - 1], clock);
      if p in before.checks {
        OnlySameBlockIsChecked(us[..|us| - 1], clock, p);
      } else {
        GroupsAreFiled(us[..|us| - 1], clock);
        var i, j := PairsOnlyHas(NewGroup(before, us[|us| - 1]), p);
      }
    }
  }

  function NewGroup(s: State, u: Update): seq<Update> {
    Pushed(s.groups, u)[BlockOf(u)]
  }

  // ----- how often --------------------------------------------------------------------------

  /** How many of the checks concern block `b`. */
  function ChecksOf(checks: seq<(Update, Update)>, b: u64): nat {
    if checks == [] then 0
    else ChecksOf(checks[..|checks| - 1], b) + (if BlockOf(checks[|checks| - 1].0) == b then 1 else 0)
  }

  lemma {:induction false} ChecksOfConcat(x: seq<(Update, Update)>, y: seq<(Update, Update)>, b: u64)
    ensures ChecksOf(x + y, b) == ChecksOf(x, b) + ChecksOf(y, b)
    decreases |y|
  {
    if y == [] {
      assert x + y == x;
    } else {
      ChecksOfConcat(x, y[..|y| - 1], b);
      assert (x + y)[..|x + y| - 1] == x + y[..|y| - 1];
    }
  }

  lemma {:induction false} ChecksOfAll(x: seq<(Update, Update)>, b: u64, c: u64)
    requires forall p :: p in x ==> BlockOf(p.0) == c
    ensures ChecksOf(x, b) == if b == c then |x| else 0
  {
    if x != [] {
      assert x[|x| - 1] in x;
      ChecksOfAll(x[..|x| - 1], b, c);
    }
  }

  lemma {:induction false} RowLength(a: Update, rest: seq<Update>)
    ensures |Row(a, rest)| == |rest|
  {
    if rest != [] { RowLength(a, rest[1..]); }
  }

  lemma {:induction false} PairsLength(g: seq<Update>)
    ensures 2 * |Pairs(g)| == |g| * (|g| - 1)
  {
    hide Row;
    if g != [] {
      RowLength(g[0], g[1..]);
      PairsLength(g[1..]);
    }
  }

  lemma CubicStep(n: int)
    ensures n * (n + 1) * (n - 1) + 3 * ((n + 1) * n) == (n + 1) * (n + 2) * n
  {
    assert n * (n + 1) * (n - 1) == (n * (n + 1)) * (n - 1);
    assert (n + 1) * (n + 2) * n == (n * (n + 1)) * (n + 2);
    assert (n * (n + 1)) * (n + 2) == (n * (n + 1)) * (n - 1) + (n * (n + 1)) * 3;
  }

  /**
   * The `n` updates of a block that is still close cause exactly n(n+1)(n-1)/6 checks: each new update
   * re-checks all pairs of its group, not only those it is part of.
   */
  lemma {:induction false} ChecksAreCubic(us: seq<Update>, clock: u64 -> u64, b: u64)
    requires NothingFarAbove(us, b)
    ensures var n := |OfBlock(us, b)|;
            6 * ChecksOf(After(us, clock).checks, b) == n * (n + 1) * (n - 1)
  {
    hide Pairs, Emit, Evict, Pushed, NothingFarAbove;
    if us != [] {
      var init, u := us[..|us| - 1], us[|us| - 1];
      PrefixStaysClose(us, b);
      ChecksAreCubic(init, clock, b);
      var before := After(init, clock);
      var g := NewGroup(before, u);
      NewGroupIsFiled(init, clock, u);
      forall p | p in Pairs(g) ensures BlockOf(p.0) == BlockOf(u) {
        var i, j := PairsOnlyHas(g, p);
        assert g[i] in g;
      }
      ChecksOfConcat(before.checks, Pairs(g), b);
      ChecksOfAll(Pairs(g), b, BlockOf(u));
      if BlockOf(u) == b {
        CloseBlocksAreKept(init, clock, b);
        NewGroupLength(before, u);
        PairsLength(g);
        CubicStep(|OfBlock(init, b)|);
      }
    }
  }

  lemma PrefixStaysClose(us: seq<Update>, b: u64)
    requires us != [] && NothingFarAbove(us, b)
    ensures NothingFarAbove(us[..|us| - 1], b)
  {
  }

  lemma NewGroupIsFiled(init: seq<Update>, clock: u64 -> u64, u: Update)
    ensures forall v :: v in NewGroup(After(init, clock), u) ==> BlockOf(v) == BlockOf(u)
  {
    hide After;
    GroupsAreFiled(init, clock);
  }

  lemma NewGroupLength(s: State, u: Update)
    ensures |NewGroup(s, u)| == |GroupOf(s.groups, BlockOf(u))| + 1
  {
  }

  // ----- what is sent -----------------------------------------------------------------------

  /** Whether an update was stamped by `seal_envelope`, as the state driver's are. */
  predicate Stamped(u: Update) {
    u.meta.chainContext == ChainContext(1, 0, 0)
  }

  lemma StateDriverStamps(event: StateUpdateEvent, sequence: u64, nowNs: u64)
    requires SealEnvelope(StateEngine, event, sequence, nowNs).Ok?
    ensures Stamped(SealEnvelope(StateEngine, event, sequence, nowNs).value)
  {
  }

  lemma CheckPairCarriesContext(p: (Update, Update))
    requires CheckPair(p).Some?
    ensures CheckPair(p).value.blockHash == p.0.meta.chainContext.blockHash
    ensures CheckPair(p).value.blockNumber == p.0.meta.chainContext.blockNumber
  {
    hide PoolPriceQ64;
  }

  lemma {:induction false} EmitCarriesContext(o: Output, ps: seq<(Update, Update)>, clock: u64 -> u64)
    requires forall p :: p in ps ==> Stamped(p.0)
    requires forall e :: e in o.sent ==> e.payload.blockHash == 0 && e.payload.blockNumber == 0 && IsValid(e)
    ensures forall e :: e in Emit(o, ps, clock).sent ==>
      e.payload.blockHash == 0 && e.payload.blockNumber == 0 && IsValid(e)
  {
    hide CheckPair;
    if ps != [] {
      var last := ps[|ps| - 1];
      assert last in ps;
      EmitCarriesContext(o, ps[..|ps| - 1], clock);
      if CheckPair(last).Some? { CheckPairCarriesContext(last); }
    }
  }

  /**
   * Behind the state driver every opportunity is stamped block 0 with the zero hash, whatever block its two
   * updates are about, so a prefetch for it can only fail once it misses the cache.
   */
  lemma {:induction false} OpportunitiesLoseTheirBlock(us: seq<Update>, clock: u64 -> u64)
    requires forall u :: u in us ==> Stamped(u)
    ensures forall e :: e in After(us, clock).output.sent ==>
      e.payload.blockHash == 0 && e.payload.blockNumber == 0 && IsValid(e)
  {
    hide Pairs, Emit, Evict, Pushed;
    if us != [] {
      var init, u := us[..|us| - 1], us[|us| - 1];
      OpportunitiesLoseTheirBlock(init, clock);
      var g := NewGroup(After(init, clock), u);
      GroupsComeFromStream(us, clock);
      forall p | p in Pairs(g) ensures Stamped(p.0) {
        var i, j := PairsOnlyHas(g, p);
        assert g[i] in us;
      }
      EmitCarriesContext(After(init, clock).output, Pairs(g), clock);
    }
  }

  /** Whether the state driver published this update, for some event, sequence number and clock reading. */
  ghost predicate SealedByStateDriver(u: Update) {
    exists event, sequence: u64, nowNs: u64 :: SealEnvelope(StateEngine, event, sequence, nowNs) == Ok(u)
  }

  /** The updates that the state driver publishes meet that hypothesis. */
  lemma StateDriverLosesBlocks(us: seq<Update>, clock: u64 -> u64)
    requires forall u :: u in us ==> SealedByStateDriver(u)
    ensures forall e :: e in After(us, clock).output.sent ==>
      e.payload.blockHash == 0 && e.payload.blockNumber == 0 && IsValid(e)
  {
    hide SealEnvelope, After, Stamped;
    forall u | u in us ensures Stamped(u) {
      var event, sequence: u64, nowNs: u64 :| SealEnvelope(StateEngine, event, sequence, nowNs) == Ok(u);
      StateDriverStamps(event, sequence, nowNs);
    }
    OpportunitiesLoseTheirBlock(us, clock);
  }

  lemma {:induction false} HeldCameFromStream(us: seq<Update>, clock: u64 -> u64, b: u64)
    requires b in After(us, clock).groups
    ensures forall v :: v in After(us, clock).groups[b] ==> v in us
  {
    hide Pairs, Emit, Evict;
    if us != [] {
      var init, u := us[..|us| - 1], us[|us| - 1];
      KeptAsIs(Pushed(After(init, clock).groups, u), b);
      if b in After(init, clock).groups {
        HeldCameFromStream(init, clock, b);
      }
    }
  }

  lemma GroupsComeFromStream(us: seq<Update>, clock: u64 -> u64)
    requires us != []
    ensures forall v :: v in NewGroup(After(us[..|us| - 1], clock), us[|us| - 1]) ==> v in us
  {
    hide After;
    var init := us[..|us| - 1];
    var b := BlockOf(us[|us| - 1]);
    if b in After(init, clock).groups {
      HeldCameFromStream(init, clock, b);
    }
  }
}
