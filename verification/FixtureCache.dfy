/** The simulator's fixture cache: what is loaded, when, and what the EVM may run on. */
module FixtureCache {
  import opened Wrappers
  import opened Numbers
  import opened Pools
  import opened Lru
  import opened Ordered
  import opened SlotLayouts
  import opened StateFetcher
  import opened UniV3Resolution

  datatype FixtureSet = FixtureSet(
    blockHash: BlockHash,
    source: FetchedPoolState,
    sink: FetchedPoolState,
    weth: FetchedAccount,
    usdcProxy: FetchedAccount,
    usdcImpl: FetchedAccount,
    v2Factory: FetchedAccount)

  /** Addresses and block only: neither the amount nor the pool kinds are part of the key. */
  datatype FixtureKey = FixtureKey(blockHash: BlockHash, sourcePool: Address, sinkPool: Address)

  datatype Opportunity = Opportunity(blockNumber: nat, blockHash: BlockHash, sourcePool: PoolId, sinkPool: PoolId)

  datatype SimulationError =
    | NoFixtures | BlockHashMismatch | SourceMismatch | SinkMismatch
    | FixtureBlockHashes | NoUsdcImplementation | Fetch(error: FetchError)

  function KeyOf(f: FixtureSet): FixtureKey {
    FixtureKey(f.blockHash, f.source.pool.address, f.sink.pool.address)
  }

  function KeyFor(o: Opportunity): FixtureKey {
    FixtureKey(o.blockHash, o.sourcePool.address, o.sinkPool.address)
  }

  // ----- the state and its atomic sections --------------------------------------------------

  datatype SimulatorState = SimulatorState(
    active: Option<FixtureSet>,
    cache: seq<(FixtureKey, FixtureSet)>,
    capacity: nat,
    window: nat,
    lastBlockSeen: Option<nat>)

  function Store(s: SimulatorState, f: FixtureSet): SimulatorState {
    s.(cache := Put(s.capacity, s.cache, KeyOf(f), f), active := Some(f))
  }

  /** Retention: the whole cache goes when the block number advances by the window or more. */
  function Retain(s: SimulatorState, block: nat): SimulatorState {
    var advanced := s.lastBlockSeen.Some? && block > s.lastBlockSeen.value && block - s.lastBlockSeen.value >= s.window;
    var seen := if s.lastBlockSeen.Some? && s.lastBlockSeen.value > block then s.lastBlockSeen.value else block;
    s.(cache := if advanced then [] else s.cache, lastBlockSeen := Some(seen))
  }

  /** The first critical section of a prefetch; the flag says whether it was a hit. */
  function LookUp(s: SimulatorState, o: Opportunity): (SimulatorState, bool) {
    var r := Retain(s, o.blockNumber);
    match Lookup(r.cache, KeyFor(o))
    case None => (r, false)
    case Some(f) =>
      var matches := r.active.Some? && KeyOf(r.active.value) == KeyFor(o);
      (r.(cache := Touch(r.cache, KeyFor(o)), active := if matches then r.active else Some(f)), true)
  }

  /** The second one, with the fixture fetched in between. */
  function Install(s: SimulatorState, o: Opportunity, f: FixtureSet): SimulatorState {
    s.(cache := Put(s.capacity, s.cache, KeyFor(o), f), active := Some(f))
  }

  /** Whether the EVM may run for `o`, and on what. */
  function Guard(s: SimulatorState, o: Opportunity): Result<FixtureSet, SimulationError> {
    match s.active
    case None => Err(NoFixtures)
    case Some(f) =>
      if f.blockHash != o.blockHash then Err(BlockHashMismatch)
      else if f.source.pool != o.sourcePool then Err(SourceMismatch)
      else if f.sink.pool != o.sinkPool then Err(SinkMismatch)
      else Ok(f)
  }

  /** `f` is what fetching for `o` produces. */
  predicate BuiltFor(f: FixtureSet, o: Opportunity) {
    f.blockHash == o.blockHash && f.source.pool == o.sourcePool && f.sink.pool == o.sinkPool
  }

  /**
   * Any atomic section of any call of any thread; a fixture is inserted only after it was fetched for its opportunity.
   */
  datatype Event =
    | Loaded(fixture: FixtureSet)
    | LookedUp(o: Opportunity)
    | Inserted(o: Opportunity, fixture: FixtureSet)

  ghost predicate Possible(e: Event) {
    e.Inserted? ==> BuiltFor(e.fixture, e.o)
  }

  function Step(s: SimulatorState, e: Event): SimulatorState {
    match e
    case Loaded(f) => Store(s, f)
    case LookedUp(o) => LookUp(s, o).0
    case Inserted(o, f) => Install(s, o, f)
  }

  function Steps(s: SimulatorState, es: seq<Event>): SimulatorState {
    if es == [] then s else Step(Steps(s, es[..|es| - 1]), es[|es| - 1])
  }

  // ----- invariants over every interleaving -------------------------------------------------

  /** Every cached fixture sits under its own key, within the capacity. */
  ghost predicate Keyed(s: SimulatorState) {
    && s.capacity > 0 && |s.cache| <= s.capacity && UniqueKeys(s.cache)
    && forall e :: e in s.cache ==> e.0 == KeyOf(e.1)
  }

  lemma StepKeepsKeyed(s: SimulatorState, e: Event)
    requires Keyed(s) && Possible(e)
    ensures Keyed(Step(s, e))
  {
    hide Put, Touch, Lookup;
    match e {
      case Loaded(f) => PutKeepsShape(s.capacity, s.cache, KeyOf(f), f);
      case Inserted(o, f) => PutKeepsShape(s.capacity, s.cache, KeyFor(o), f);
      case LookedUp(o) => TouchKeepsShape(Retain(s, o.blockNumber).cache, KeyFor(o));
    }
  }

  lemma {:induction false} StepsKeepKeyed(s: SimulatorState, es: seq<Event>)
    requires Keyed(s) && forall e :: e in es ==> Possible(e)
    ensures Keyed(Steps(s, es))
  {
    hide Step, Keyed;
    if es != [] {
      StepsKeepKeyed(s, es[..|es| - 1]);
      StepKeepsKeyed(Steps(s, es[..|es| - 1]), es[|es| - 1]);
    }
  }

  /** A hit always leaves a fixture of the opportunity's own block and addresses active. */
  lemma HitMatchesKey(s: SimulatorState, o: Opportunity)
    requires Keyed(s) && LookUp(s, o).1
    ensures var s' := LookUp(s, o).0;
            && s'.active.Some? && KeyOf(s'.active.value) == KeyFor(o)
            && s'.active.value.blockHash == o.blockHash
  {
  }

  /** The block number has advanced by the freshness window or more since the highest one seen. */
  predicate Advanced(s: SimulatorState, block: nat) {
    match s.lastBlockSeen
    case None => false
    case Some(last) => block > last && block >= last + s.window
  }

  /**
   * Exactly what a lookup does: a hit is a cached key in a cache that is not evicted as a whole. It makes the key the
   * most recent one, and its fixture active unless the active one has that key; a miss leaves the active one alone.
   */
  lemma LookUpIsExact(s: SimulatorState, o: Opportunity)
    ensures var (s', hit) := LookUp(s, o);
            && (hit <==> HasKey(s.cache, KeyFor(o)) && !Advanced(s, o.blockNumber))
            && (Advanced(s, o.blockNumber) ==> s'.cache == [])
            && (!hit && !Advanced(s, o.blockNumber) ==> s'.cache == s.cache)
            && (!hit ==> s'.active == s.active)
            && (hit ==> s'.cache != [] && s'.cache[0].0 == KeyFor(o) && s'.cache == Touch(s.cache, KeyFor(o)))
            && (hit ==> s'.active == if s.active.Some? && KeyOf(s.active.value) == KeyFor(o) then s.active
                                     else Some(s'.cache[0].1))
            && s'.lastBlockSeen == (if s.lastBlockSeen.Some? && s.lastBlockSeen.value > o.blockNumber
                                    then s.lastBlockSeen else Some(o.blockNumber))
  {
    hide Without;
  }

  /** Without a fixture, and for each part of one that does not match, in this order, there is an error of its own. */
  lemma GuardErrors(s: SimulatorState, o: Opportunity)
    ensures Guard(s, o) == Err(NoFixtures) <==> s.active == None
    ensures Guard(s, o) == Err(BlockHashMismatch) <==> s.active.Some? && s.active.value.blockHash != o.blockHash
    ensures Guard(s, o) == Err(SourceMismatch) <==>
      && s.active.Some? && s.active.value.blockHash == o.blockHash && s.active.value.source.pool != o.sourcePool
    ensures Guard(s, o) == Err(SinkMismatch) <==>
      && s.active.Some? && s.active.value.blockHash == o.blockHash
      && s.active.value.source.pool == o.sourcePool && s.active.value.sink.pool != o.sinkPool
  {
  }

  /** Some thread loaded this fixture or fetched it. */
  ghost predicate FromHistory(es: seq<Event>, f: FixtureSet) {
    exists e :: e in es && !e.LookedUp? && e.fixture == f
  }

  ghost predicate OnlyFromHistory(es: seq<Event>, s: SimulatorState) {
    (s.active.Some? ==> FromHistory(es, s.active.value)) && forall e :: e in s.cache ==> FromHistory(es, e.1)
  }

  lemma StepKeepsHistory(es: seq<Event>, s: SimulatorState, e: Event)
    requires Keyed(s) && OnlyFromHistory(es, s)
    ensures OnlyFromHistory(es + [e], Step(s, e))
  {
    hide Put, Touch, FromHistory;
    forall f | FromHistory(es, f) ensures FromHistory(es + [e], f) {
      HistoryGrows(es, e, f);
    }
    match e {
      case Loaded(f) =>
        JustHappened(es, e);
        PutKeepsShape(s.capacity, s.cache, KeyOf(f), f);
      case Inserted(o, f) =>
        JustHappened(es, e);
        PutKeepsShape(s.capacity, s.cache, KeyFor(o), f);
      case LookedUp(o) => TouchKeepsShape(Retain(s, o.blockNumber).cache, KeyFor(o));
    }
  }

  lemma HistoryGrows(es: seq<Event>, e: Event, f: FixtureSet)
    requires FromHistory(es, f)
    ensures FromHistory(es + [e], f)
  {
    var cause :| cause in es && !cause.LookedUp? && cause.fixture == f;
    assert cause in es + [e];
  }

  lemma JustHappened(es: seq<Event>, e: Event)
    requires !e.LookedUp?
    ensures FromHistory(es + [e], e.fixture)
  {
    assert (es + [e])[|es|] == e;
  }

  lemma {:induction false} StepsKeepHistory(s: SimulatorState, es: seq<Event>)
    requires Keyed(s) && OnlyFromHistory([], s)
    requires forall e :: e in es ==> Possible(e)
    ensures OnlyFromHistory(es, Steps(s, es))
  {
    hide Step, Keyed, OnlyFromHistory;
    if es != [] {
      var init := es[..|es| - 1];
      StepsKeepHistory(s, init);
      StepsKeepKeyed(s, init);
      StepKeepsHistory(init, Steps(s, init), es[|es| - 1]);
      assert init + [es[|es| - 1]] == es;
    }
  }

  /**
   * Over every interleaving of loads and prefetches of any threads, the EVM runs for an opportunity only on a
   * fixture of its block hash and both its pools that some thread loaded or fetched before.
   */
  lemma EvmRunsOnMatchesOnly(capacity: nat, window: nat, history: seq<Event>, o: Opportunity, f: FixtureSet)
    requires capacity > 0 && forall e :: e in history ==> Possible(e)
    requires Guard(Steps(SimulatorState(None, NEW_CACHE, capacity, window, None), history), o) == Ok(f)
    ensures BuiltFor(f, o) && FromHistory(history, f)
  {
    hide Steps, FromHistory;
    StepsKeepHistory(SimulatorState(None, NEW_CACHE, capacity, window, None), history);
  }

  // ----- one sequential driver --------------------------------------------------------------

  /** The state right after a successful prefetch with no other thread in between. */
  function Prefetched(s: SimulatorState, o: Opportunity, fetched: FixtureSet): SimulatorState {
    if LookUp(s, o).1 then LookUp(s, o).0 else Install(LookUp(s, o).0, o, fetched)
  }

  /**
   * A successful prefetch is followed by a fixture-mismatch error exactly when it was a hit and the fixture
   * then active has another kind for one of the two addresses.
   */
  lemma PrefetchThenSimulate(s: SimulatorState, o: Opportunity, fetched: FixtureSet)
    requires Keyed(s) && BuiltFor(fetched, o)
    ensures var s' := Prefetched(s, o, fetched);
            && s'.active.Some?
            && (Guard(s', o).Ok? <==>
                  !LookUp(s, o).1
                  || (s'.active.value.source.pool.kind == o.sourcePool.kind
                      && s'.active.value.sink.pool.kind == o.sinkPool.kind))
  {
    hide Put, Touch, Lookup;
    if LookUp(s, o).1 {
      HitMatchesKey(s, o);
    }
  }

  ghost predicate KindsFixed(kindOf: Address -> PoolKind, f: FixtureSet) {
    f.source.pool.kind == kindOf(f.source.pool.address) && f.sink.pool.kind == kindOf(f.sink.pool.address)
  }

  ghost predicate Kinds(kindOf: Address -> PoolKind, s: SimulatorState) {
    && (s.active.Some? ==> KindsFixed(kindOf, s.active.value))
    && forall e :: e in s.cache ==> KindsFixed(kindOf, e.1)
  }

  ghost predicate EventKinds(kindOf: Address -> PoolKind, e: Event) {
    match e
    case Loaded(f) => KindsFixed(kindOf, f)
    case LookedUp(_) => true
    case Inserted(o, f) => KindsFixed(kindOf, f)
  }

  lemma StepKeepsKinds(kindOf: Address -> PoolKind, s: SimulatorState, e: Event)
    requires Keyed(s) && Possible(e) && Kinds(kindOf, s) && EventKinds(kindOf, e)
    ensures Kinds(kindOf, Step(s, e))
  {
    hide Put, Touch, KindsFixed;
    match e {
      case Loaded(f) => PutKeepsShape(s.capacity, s.cache, KeyOf(f), f);
      case Inserted(o, f) => PutKeepsShape(s.capacity, s.cache, KeyFor(o), f);
      case LookedUp(o) => TouchKeepsShape(Retain(s, o.blockNumber).cache, KeyFor(o));
    }
  }

  lemma {:induction false} StepsKeepKinds(kindOf: Address -> PoolKind, s: SimulatorState, es: seq<Event>)
    requires Keyed(s) && Kinds(kindOf, s)
    requires forall e :: e in es ==> Possible(e) && EventKinds(kindOf, e)
    ensures Keyed(Steps(s, es)) && Kinds(kindOf, Steps(s, es))
  {
    hide Step, Keyed, Kinds, EventKinds;
    if es != [] {
      StepsKeepKinds(kindOf, s, es[..|es| - 1]);
      StepKeepsKeyed(Steps(s, es[..|es| - 1]), es[|es| - 1]);
      StepKeepsKinds(kindOf, Steps(s, es[..|es| - 1]), es[|es| - 1]);
    }
  }

  const NEW_CACHE: seq<(FixtureKey, FixtureSet)> := []

  /**
   * With pool kinds fixed by address, after any history of loads and prefetches a sequential driver's
   * successful prefetch is never followed by a fixture-mismatch error.
   */
  lemma FixedKindsNeverMismatch(kindOf: Address -> PoolKind, capacity: nat, window: nat, history: seq<Event>,
                                o: Opportunity, fetched: FixtureSet)
    requires capacity > 0 && BuiltFor(fetched, o)
    requires forall e :: e in history ==> Possible(e) && EventKinds(kindOf, e)
    requires o.sourcePool.kind == kindOf(o.sourcePool.address) && o.sinkPool.kind == kindOf(o.sinkPool.address)
    ensures var s := Steps(SimulatorState(None, NEW_CACHE, capacity, window, None), history);
            Guard(Prefetched(s, o, fetched), o).Ok?
  {
    hide Steps, Guard, Prefetched;
    var s0 := SimulatorState(None, NEW_CACHE, capacity, window, None);
    StepsKeepKinds(kindOf, s0, history);
    var s := Steps(s0, history);
    PrefetchThenSimulate(s, o, fetched);
    if LookUp(s, o).1 {
      HitMatchesKey(s, o);
      StepKeepsKinds(kindOf, s, LookedUp(o));
      HitIsPrefetched(s, o, fetched);
    }
  }

  lemma HitIsPrefetched(s: SimulatorState, o: Opportunity, fetched: FixtureSet)
    requires LookUp(s, o).1
    ensures Prefetched(s, o, fetched) == LookUp(s, o).0 == Step(s, LookedUp(o))
  {
  }

  /** Without that, it can be: the same address first as a V2 and then as a Sushi pool. */
  lemma KindsMatter(f: FixtureSet, fetched: FixtureSet)
    requires f.source.pool == PoolId(UniswapV2, 1) && f.sink.pool == PoolId(UniswapV3Fee005, 2)
    ensures var o := Opportunity(0, f.blockHash, PoolId(SushiswapV2, 1), PoolId(UniswapV3Fee005, 2));
            var s := Step(SimulatorState(None, NEW_CACHE, 1, 1, None), Loaded(f));
            LookUp(s, o).1 && Guard(Prefetched(s, o, fetched), o) == Err(SourceMismatch)
  {
    var o := Opportunity(0, f.blockHash, PoolId(SushiswapV2, 1), PoolId(UniswapV3Fee005, 2));
    var s := Step(SimulatorState(None, NEW_CACHE, 1, 1, None), Loaded(f));
    PutKeepsShape(1, NEW_CACHE, KeyOf(f), f);
    assert Lookup(Retain(s, 0).cache, KeyFor(o)) == Some(f);
  }

  // ----- the simulator ----------------------------------------------------------------------

  /** `p` is the pool as the chain has it at this block, with the slots its kind calls for. */
  ghost predicate PoolFetched(k: Keccak, chain: Chain, p: FetchedPoolState, pool: PoolId, blockHash: BlockHash) {
    && p.pool == pool && p.blockHash == blockHash && p.poolCode == chain.code((pool.address, blockHash))
    && if pool.kind == UniswapV3Fee005
       then Ideal(k) ==> Complete(k, At(chain, pool.address, blockHash), p.poolStorage)
       else BaseOnly(UniswapV2Layout, At(chain, pool.address, blockHash), p.poolStorage)
  }

  /** `a` is the account as the chain has it at this block, with exactly these slots, ascending. */
  ghost predicate AccountFetched(chain: Chain, a: FetchedAccount, address: Address, blockHash: BlockHash,
                                 slots: seq<u256>) {
    && a.address == address && a.blockHash == blockHash && a.code == chain.code((address, blockHash))
    && Ascending(Slots(a.storage))
    && (forall x :: x in Slots(a.storage) <==> x in slots)
    && (forall e :: e in a.storage ==> e.1 == chain.storage((address, blockHash, e.0)))
  }

  /** What a prefetch is told besides the opportunity: which contracts and slots it needs of the two tokens. */
  datatype Tokens = Tokens(
    weth: Address,
    usdcProxy: Address,
    factory: Address,
    wethSlots: seq<u256>,
    usdcSlots: seq<u256>,
    implementationOf: FetchedAccount -> Option<Address>)

  /** Every part of a fixture fetched for `o` is the one named, as the chain has it at the opportunity's block. */
  ghost predicate FetchedFor(k: Keccak, chain: Chain, f: FixtureSet, o: Opportunity, tokens: Tokens) {
    && f.blockHash == o.blockHash
    && PoolFetched(k, chain, f.source, o.sourcePool, o.blockHash)
    && PoolFetched(k, chain, f.sink, o.sinkPool, o.blockHash)
    && AccountFetched(chain, f.weth, tokens.weth, o.blockHash, tokens.wethSlots)
    && AccountFetched(chain, f.usdcProxy, tokens.usdcProxy, o.blockHash, tokens.usdcSlots)
    && tokens.implementationOf(f.usdcProxy) == Some(f.usdcImpl.address)
    && AccountFetched(chain, f.usdcImpl, f.usdcImpl.address, o.blockHash, [])
    && AccountFetched(chain, f.v2Factory, tokens.factory, o.blockHash, [0])
  }

  /** The proxy as the chain has it at this block names no implementation. */
  ghost predicate NothingBehindProxy(chain: Chain, blockHash: BlockHash, tokens: Tokens) {
    exists proxy: FetchedAccount ::
      AccountFetched(chain, proxy, tokens.usdcProxy, blockHash, tokens.usdcSlots)
      && tokens.implementationOf(proxy) == None
  }

  /** The layout by pool kind. */
  method LayoutDispatch(fetcher: ArchiveStateFetcher, k: Keccak, pool: PoolId, blockHash: BlockHash)
    returns (r: Result<FetchedPoolState, FetchError>)
    requires fetcher.Inv(0, 0)
    modifies fetcher, fetcher.codeCache, fetcher.storageCache
    ensures fetcher.Inv(0, 0)
    ensures r == Err(InvalidBlockHash) <==> blockHash == 0
    ensures r.Ok? ==> PoolFetched(k, fetcher.chain, r.value, pool, blockHash)
    ensures fetcher.failures == old(fetcher.failures) + (if r == Err(Node) then 1 else 0)
    ensures r.Err? && (Ideal(k) || pool.kind != UniswapV3Fee005) ==> r == Err(Node) || r == Err(InvalidBlockHash)
  {
    hide Resolve, Complete, BaseOnly, UniV3Derived, Ideal;
    ghost var passes;
    if pool.kind == UniswapV3Fee005 {
      if Ideal(k) { UniV3Resolves(k, At(fetcher.chain, pool.address, blockHash)); }
      r, passes := fetcher.FetchPool(pool, blockHash, UniswapV3Fee005Layout(k));
    } else {
      OnePassResolves(UniswapV2Layout, At(fetcher.chain, pool.address, blockHash));
      r, passes := fetcher.FetchPool(pool, blockHash, UniswapV2Layout);
    }
  }

  /** Everything one prefetch fetches, in the order it is fetched; the first failure is the answer. */
  method FetchFixture(fetcher: ArchiveStateFetcher, k: Keccak, o: Opportunity, tokens: Tokens)
    returns (r: Result<FixtureSet, SimulationError>)
    requires fetcher.Inv(0, 0)
    modifies fetcher, fetcher.codeCache, fetcher.storageCache
    ensures fetcher.Inv(0, 0)
    ensures r.Ok? ==> BuiltFor(r.value, o) && FetchedFor(k, fetcher.chain, r.value, o, tokens)
    ensures fetcher.failures == old(fetcher.failures) + (if r == Err(Fetch(Node)) then 1 else 0)
    ensures r == Err(NoUsdcImplementation) ==> NothingBehindProxy(fetcher.chain, o.blockHash, tokens)
    ensures r == Err(Fetch(InvalidBlockHash)) <==> o.blockHash == 0
    ensures r.Err? && Ideal(k) ==>
      r.error == NoUsdcImplementation || r.error == Fetch(Node) || r.error == Fetch(InvalidBlockHash)
  {
    hide Ideal, Complete, BaseOnly, At, Ascending, Slots;
    var source := LayoutDispatch(fetcher, k, o.sourcePool, o.blockHash);
    if source.Err? {
      return Err(Fetch(source.error));
    }
    var sink := LayoutDispatch(fetcher, k, o.sinkPool, o.blockHash);
    if sink.Err? {
      return Err(Fetch(sink.error));
    }
    var weth := fetcher.FetchAccount(tokens.weth, tokens.wethSlots, o.blockHash);
    if weth.Err? {
      return Err(Fetch(weth.error));
    }
    var usdcProxy := fetcher.FetchAccount(tokens.usdcProxy, tokens.usdcSlots, o.blockHash);
    if usdcProxy.Err? {
      return Err(Fetch(usdcProxy.error));
    }
    var implementation := tokens.implementationOf(usdcProxy.value);
    if implementation == None {
      assert AccountFetched(fetcher.chain, usdcProxy.value, tokens.usdcProxy, o.blockHash, tokens.usdcSlots);
      return Err(NoUsdcImplementation);
    }
    var usdcImpl := fetcher.FetchAccount(implementation.value, [], o.blockHash);
    if usdcImpl.Err? {
      return Err(Fetch(usdcImpl.error));
    }
    var v2Factory := fetcher.FetchAccount(tokens.factory, [0], o.blockHash);
    if v2Factory.Err? {
      return Err(Fetch(v2Factory.error));
    }
    r := Ok(FixtureSet(o.blockHash, source.value, sink.value, weth.value, usdcProxy.value, usdcImpl.value,
      v2Factory.value));
  }

  class LocalSimulator {
    var active: Option<FixtureSet>
    const cache: LruCache<FixtureKey, FixtureSet>
    const freshnessWindowBlocks: nat
    var lastBlockSeen: Option<nat>

    constructor WithCache(capacity: nat, window: nat)
      requires capacity > 0
      ensures Valid() && fresh(cache)
      ensures Snapshot() == SimulatorState(None, NEW_CACHE, capacity, window, None)
    {
      active := None;
      cache := new LruCache<FixtureKey, FixtureSet>(capacity);
      freshnessWindowBlocks := window;
      lastBlockSeen := None;
    }

    function Snapshot(): SimulatorState
      reads this, cache
    {
      SimulatorState(active, cache.entries, cache.capacity, freshnessWindowBlocks, lastBlockSeen)
    }

    ghost predicate Valid()
      reads this, cache
    {
      cache.Valid() && Keyed(Snapshot())
    }

    /** Loads recorded state, all of one block. */
    method LoadFixture(source: FetchedPoolState, sink: FetchedPoolState, weth: FetchedAccount,
                       usdcProxy: FetchedAccount, usdcImpl: FetchedAccount, v2Factory: FetchedAccount)
      returns (r: Result<(), SimulationError>)
      requires Valid()
      modifies this, cache
      ensures Valid()
      ensures var bh := source.blockHash;
              var f := FixtureSet(bh, source, sink, weth, usdcProxy, usdcImpl, v2Factory);
              if sink.blockHash == weth.blockHash == usdcProxy.blockHash
                 == usdcImpl.blockHash == v2Factory.blockHash == bh
              then r == Ok(()) && Snapshot() == Step(old(Snapshot()), Loaded(f)) && active == Some(f)
                   && cache.entries != [] && cache.entries[0] == (KeyOf(f), f)
              else r == Err(FixtureBlockHashes) && Snapshot() == old(Snapshot())
    {
      hide Put;
      var bh := source.blockHash;
      var hashes := [sink.blockHash, weth.blockHash, usdcProxy.blockHash, usdcImpl.blockHash, v2Factory.blockHash];
      for i := 0 to |hashes|
        invariant forall j :: 0 <= j < i ==> hashes[j] == bh
        invariant Snapshot() == old(Snapshot()) && Valid()
      {
        if hashes[i] != bh {
          return Err(FixtureBlockHashes);
        }
      }
      assert hashes[0] == hashes[1] == hashes[2] == hashes[3] == hashes[4] == bh;
      var f := FixtureSet(bh, source, sink, weth, usdcProxy, usdcImpl, v2Factory);
      StepKeepsKeyed(Snapshot(), Loaded(f));
      StoredIsActive(Snapshot(), f);
      var _ := cache.Insert(KeyOf(f), f);
      active := Some(f);
      r := Ok(());
    }

    /** The first critical section of `prefetch_for`. */
    method CacheLookup(o: Opportunity) returns (hit: bool)
      requires Valid()
      modifies this, cache
      ensures Valid()
      ensures (Snapshot(), hit) == LookUp(old(Snapshot()), o)
    {
      hide Lookup, Touch, Put;
      StepKeepsKeyed(Snapshot(), LookedUp(o));
      if lastBlockSeen.Some? && o.blockNumber > lastBlockSeen.value
         && o.blockNumber - lastBlockSeen.value >= freshnessWindowBlocks {
        cache.Clear();
      }
      lastBlockSeen := Some(
        if lastBlockSeen.Some? && lastBlockSeen.value > o.blockNumber then lastBlockSeen.value else o.blockNumber);
      ghost var before := cache.entries;
      MissTouchesNothing(before, KeyFor(o));
      var cached := cache.Get(KeyFor(o));
      hit := cached.Some?;
      if hit {
        var activeMatches := active.Some? && KeyOf(active.value) == KeyFor(o);
        if !activeMatches {
          active := cached;
        }
      }
    }

    /** The last critical section. */
    method CacheInsert(o: Opportunity, f: FixtureSet)
      requires Valid() && BuiltFor(f, o)
      modifies this, cache
      ensures Valid()
      ensures Snapshot() == Step(old(Snapshot()), Inserted(o, f))
    {
      hide Put;
      StepKeepsKeyed(Snapshot(), Inserted(o, f));
      var _ := cache.Insert(KeyFor(o), f);
      active := Some(f);
    }

    /** Whatever critical sections other threads run meanwhile. */
    method OtherThreads()
      requires Valid()
      modifies this, cache
      ensures Valid()
    {
      var steps: nat :| steps >= 0;
      for i := 0 to steps
        invariant Valid()
      {
        var o: Opportunity := *;
        var f: FixtureSet := *;
        var what: nat := *;
        if what == 0 {
          var _ := CacheLookup(o);
        } else if what == 1 {
          var _ := LoadFixture(f.source, f.sink, f.weth, f.usdcProxy, f.usdcImpl, f.v2Factory);
        } else if BuiltFor(f, o) {
          CacheInsert(o, f);
        }
      }
    }

    /**
     * Lookup, fetch without the lock, insert. On success the fixture active at the last critical section is
     * keyed by this opportunity, and one fetched for it matches it entirely; other threads may run in between.
     */
    method PrefetchFor(fetcher: ArchiveStateFetcher, k: Keccak, o: Opportunity, tokens: Tokens)
      returns (r: Result<(), SimulationError>, hit: bool)
      requires Valid() && fetcher.Inv(0, 0)
      modifies this, cache, fetcher, fetcher.codeCache, fetcher.storageCache
      ensures Valid() && fetcher.Inv(0, 0)
      ensures r == Ok(()) ==> active.Some? && KeyOf(active.value) == KeyFor(o)
      ensures r == Ok(()) && !hit ==>
        && Guard(Snapshot(), o).Ok? && FetchedFor(k, fetcher.chain, active.value, o, tokens)
        && cache.entries != [] && cache.entries[0] == (KeyFor(o), active.value)
      ensures hit ==> r == Ok(()) && (Snapshot(), true) == LookUp(old(Snapshot()), o)
      ensures r == Err(Fetch(InvalidBlockHash)) <==> !hit && o.blockHash == 0
      ensures fetcher.failures == old(fetcher.failures) + (if r == Err(Fetch(Node)) then 1 else 0)
      ensures r == Err(NoUsdcImplementation) ==> NothingBehindProxy(fetcher.chain, o.blockHash, tokens)
      ensures r.Err? && Ideal(k) ==>
        r.error == NoUsdcImplementation || r.error == Fetch(Node) || r.error == Fetch(InvalidBlockHash)
    {
      hide LookUp, Step, Keyed, BuiltFor, Guard, Install, Ideal, FetchedFor;
      hit := CacheLookup(o);
      if hit {
        HitMatchesKey(old(Snapshot()), o);
        return Ok(()), hit;
      }
      OtherThreads();
      var fetched := FetchFixture(fetcher, k, o, tokens);
      if fetched.Err? {
        return Err(fetched.error), hit;
      }
      OtherThreads();
      InsertedIsActive(Snapshot(), o, fetched.value);
      CacheInsert(o, fetched.value);
      r := Ok(());
    }
  }

  lemma InsertedIsActive(s: SimulatorState, o: Opportunity, f: FixtureSet)
    requires BuiltFor(f, o)
    ensures var s' := Step(s, Inserted(o, f));
            && s'.active == Some(f) && KeyOf(f) == KeyFor(o) && Guard(s', o) == Ok(f)
            && (s.capacity > 0 ==> s'.cache != [] && s'.cache[0] == (KeyFor(o), f))
  {
    hide Without;
  }

  lemma StoredIsActive(s: SimulatorState, f: FixtureSet)
    requires s.capacity > 0
    ensures var s' := Step(s, Loaded(f));
            s'.active == Some(f) && s'.cache != [] && s'.cache[0] == (KeyOf(f), f)
  {
    hide Without;
  }

  lemma MissTouchesNothing(s: seq<(FixtureKey, FixtureSet)>, k: FixtureKey)
    ensures Lookup(s, k) == None ==> Touch(s, k) == s
  {
  }
}
