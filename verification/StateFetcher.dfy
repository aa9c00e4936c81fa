/** The archive state fetcher: bounded slot resolution behind two shared LRU caches. */
module StateFetcher {
  import opened Wrappers
  import opened Numbers
  import opened Pools
  import opened Lru
  import opened Ordered
  import opened SlotLayouts

  const DERIVED_SLOTS_MAX_DEPTH: nat := 3

  type BlockHash = nat
  type Code = nat
  type CodeKey = (Address, BlockHash)
  type StorageKey = (Address, BlockHash, u256)

  datatype FetchError = Node | InvalidBlockHash | DerivedSlotsTooDeep(depth: nat)

  datatype FetchedPoolState = FetchedPoolState(
    pool: PoolId,
    blockHash: BlockHash,
    poolCode: Code,
    poolStorage: seq<Entry>)

  datatype FetchedAccount = FetchedAccount(address: Address, blockHash: BlockHash, code: Code, storage: seq<Entry>)

  /** The chain as the archive node answers for it: a fixed value per key. */
  datatype Chain = Chain(code: CodeKey -> Code, storage: StorageKey -> u256)

  /** The storage of one account at one block. */
  function At(chain: Chain, address: Address, blockHash: BlockHash): u256 -> u256 {
    (slot: u256) => chain.storage((address, blockHash, slot))
  }

  function ReadAll(value: u256 -> u256, slots: seq<u256>): (es: seq<Entry>)
    ensures |es| == |slots| && forall i :: 0 <= i < |slots| ==> es[i] == (slots[i], value(slots[i]))
  {
    if slots == [] then [] else [(slots[0], value(slots[0]))] + ReadAll(value, slots[1..])
  }

  /** What one pass still has to fetch: sorted, deduplicated, nothing twice. */
  function Todo(toFetch: seq<u256>, fetched: seq<Entry>): seq<u256> {
    Unfetched(SortDedup(toFetch), fetched)
  }

  /** The uncached resolution of a layout; `None` is the depth error. */
  function Resolve(layout: Layout, value: u256 -> u256, toFetch: seq<u256>, fetched: seq<Entry>, depth: nat)
    : Option<seq<Entry>>
    requires depth < DERIVED_SLOTS_MAX_DEPTH
    decreases DERIVED_SLOTS_MAX_DEPTH - depth
  {
    var todo := Todo(toFetch, fetched);
    if todo == [] then Some(SortBySlot(fetched))
    else
      var fetched' := fetched + ReadAll(value, todo);
      var next := layout.derived(fetched');
      if next == [] then Some(SortBySlot(fetched'))
      else if depth + 1 >= DERIVED_SLOTS_MAX_DEPTH then None
      else Resolve(layout, value, next, fetched', depth + 1)
  }

  function ResolvePool(layout: Layout, value: u256 -> u256): Option<seq<Entry>> {
    Resolve(layout, value, layout.base, [], 0)
  }

  // ----- the fetcher ------------------------------------------------------------------------

  class ArchiveStateFetcher {
    const chain: Chain
    const codeCache: LruCache<CodeKey, Code>
    const storageCache: LruCache<StorageKey, u256>
    /** Whether other threads use the fetcher too. */
    const shared: bool
    var bytecodeHits: nat
    var bytecodeMisses: nat
    var storageHits: nat
    var storageMisses: nat
    /** Calls that have reached the archive node, and misses of other threads that have not yet called. */
    ghost var codeCalls: nat
    ghost var storageCalls: nat
    ghost var othersCodePending: nat
    ghost var othersStoragePending: nat
    /** How many of this thread's calls the node has failed. */
    ghost var failures: nat

    constructor (chain: Chain, codeCapacity: nat, storageCapacity: nat, shared: bool)
      requires codeCapacity > 0 && storageCapacity > 0
      ensures this.chain == chain && this.shared == shared && Inv(0, 0) && fresh(codeCache) && fresh(storageCache)
      ensures bytecodeHits == bytecodeMisses == storageHits == storageMisses == 0
    {
      this.chain, this.shared := chain, shared;
      codeCache := new LruCache<CodeKey, Code>(codeCapacity);
      storageCache := new LruCache<StorageKey, u256>(storageCapacity);
      bytecodeHits, bytecodeMisses, storageHits, storageMisses := 0, 0, 0, 0;
      codeCalls, storageCalls, othersCodePending, othersStoragePending, failures := 0, 0, 0, 0, 0;
    }

    /**
     * What holds between any two atomic actions of any threads: both caches only ever hold what the chain
     * says, and every counted miss is a call made or about to be made, by this thread (`mine`) or another.
     */
    ghost predicate Inv(myCode: nat, myStorage: nat)
      reads this, codeCache, storageCache
    {
      && codeCache.Valid() && storageCache.Valid()
      && (forall e :: e in codeCache.entries ==> e.1 == chain.code(e.0))
      && (forall e :: e in storageCache.entries ==> e.1 == chain.storage(e.0))
      && bytecodeMisses == codeCalls + othersCodePending + myCode
      && storageMisses == storageCalls + othersStoragePending + myStorage
    }

    /**
     * Any finite interleaving of other threads' cache lookups, misses, answered calls and insertions, if there are any.
     */
    method OtherThreads(ghost myCode: nat, ghost myStorage: nat)
      requires Inv(myCode, myStorage)
      modifies this, codeCache, storageCache
      ensures Inv(myCode, myStorage)
      ensures storageCalls >= old(storageCalls) && codeCalls >= old(codeCalls) && failures == old(failures)
      ensures !shared ==> unchanged(this) && unchanged(codeCache) && unchanged(storageCache)
    {
      var steps: nat :| shared || steps == 0;
      for i := 0 to steps
        invariant steps == 0 ==> unchanged(this) && unchanged(codeCache) && unchanged(storageCache)
        invariant Inv(myCode, myStorage)
        invariant storageCalls >= old(storageCalls) && codeCalls >= old(codeCalls) && failures == old(failures)
      {
        var address: Address := *;
        var hash: BlockHash := *;
        var slot: u256 := *;
        var action: nat := *;
        if action == 0 {
          var _ := StorageLookup((address, hash, slot), myCode, myStorage);
        } else if action == 1 {
          var _ := CodeLookup((address, hash), myCode, myStorage);
        } else if action == 2 {
          storageMisses, othersStoragePending := storageMisses + 1, othersStoragePending + 1;
        } else if action == 3 {
          bytecodeMisses, othersCodePending := bytecodeMisses + 1, othersCodePending + 1;
        } else if action == 4 {
          if othersStoragePending > 0 {
            othersStoragePending, storageCalls := othersStoragePending - 1, storageCalls + 1;
          }
        } else if action == 5 {
          if othersCodePending > 0 {
            othersCodePending, codeCalls := othersCodePending - 1, codeCalls + 1;
          }
        } else if action == 6 {
          StorageInsert((address, hash, slot), chain.storage((address, hash, slot)), myCode, myStorage);
        } else {
          CodeInsert((address, hash), chain.code((address, hash)), myCode, myStorage);
        }
      }
    }

    /** One critical section: look a key up and, on a hit, count it. */
    method StorageLookup(key: StorageKey, ghost myCode: nat, ghost myStorage: nat) returns (hit: Option<u256>)
      requires Inv(myCode, myStorage)
      modifies this`storageHits, storageCache
      ensures Inv(myCode, myStorage)
      ensures hit.Some? ==> hit.value == chain.storage(key)
      ensures hit == Lookup(old(storageCache.entries), key)
      ensures hit.Some? ==> storageCache.entries != [] && storageCache.entries[0] == (key, hit.value)
      ensures storageHits == old(storageHits) + (if hit.Some? then 1 else 0)
    {
      TouchKeepsShape(storageCache.entries, key);
      hit := storageCache.Get(key);
      if hit.Some? {
        storageHits := storageHits + 1;
      }
    }

    method CodeLookup(key: CodeKey, ghost myCode: nat, ghost myStorage: nat) returns (hit: Option<Code>)
      requires Inv(myCode, myStorage)
      modifies this`bytecodeHits, codeCache
      ensures Inv(myCode, myStorage)
      ensures hit.Some? ==> hit.value == chain.code(key)
      ensures hit == Lookup(old(codeCache.entries), key)
      ensures hit.Some? ==> codeCache.entries != [] && codeCache.entries[0] == (key, hit.value)
      ensures bytecodeHits == old(bytecodeHits) + (if hit.Some? then 1 else 0)
    {
      TouchKeepsShape(codeCache.entries, key);
      hit := codeCache.Get(key);
      if hit.Some? {
        bytecodeHits := bytecodeHits + 1;
      }
    }

    method StorageInsert(key: StorageKey, value: u256, ghost myCode: nat, ghost myStorage: nat)
      requires Inv(myCode, myStorage) && value == chain.storage(key)
      modifies storageCache
      ensures Inv(myCode, myStorage)
      ensures storageCache.entries != [] && storageCache.entries[0] == (key, value)
    {
      PutKeepsShape(storageCache.capacity, storageCache.entries, key, value);
      var _ := storageCache.Insert(key, value);
    }

    method CodeInsert(key: CodeKey, value: Code, ghost myCode: nat, ghost myStorage: nat)
      requires Inv(myCode, myStorage) && value == chain.code(key)
      modifies codeCache
      ensures Inv(myCode, myStorage)
      ensures codeCache.entries != [] && codeCache.entries[0] == (key, value)
    {
      PutKeepsShape(codeCache.capacity, codeCache.entries, key, value);
      var _ := codeCache.Insert(key, value);
    }

    /** The archive node answers with the chain's value or fails. */
    method CallStorage(key: StorageKey) returns (r: Option<u256>)
      modifies this`storageCalls, this`failures
      ensures storageCalls == old(storageCalls) + 1
      ensures failures == old(failures) + (if r == None then 1 else 0)
      ensures r.Some? ==> r.value == chain.storage(key)
    {
      storageCalls := storageCalls + 1;
      var fails: bool := *;
      if fails {
        failures := failures + 1;
      }
      r := if fails then None else Some(chain.storage(key));
    }

    method CallCode(key: CodeKey) returns (r: Option<Code>)
      modifies this`codeCalls, this`failures
      ensures codeCalls == old(codeCalls) + 1
      ensures failures == old(failures) + (if r == None then 1 else 0)
      ensures r.Some? ==> r.value == chain.code(key)
    {
      codeCalls := codeCalls + 1;
      var fails: bool := *;
      if fails {
        failures := failures + 1;
      }
      r := if fails then None else Some(chain.code(key));
    }

    /**
     * A cached read: whatever other threads do meanwhile, a result is the chain's own value, and is cached as the most
     * recent one. Without other threads a cached key costs no call and counts one hit, and any other costs one call.
     */
    method GetStorageCached(address: Address, slot: u256, blockHash: BlockHash) returns (r: Result<u256, FetchError>)
      requires Inv(0, 0)
      modifies this, codeCache, storageCache
      ensures Inv(0, 0)
      ensures r.Ok? ==> r.value == chain.storage((address, blockHash, slot))
      ensures r.Err? ==> r == Err(Node)
      ensures failures == old(failures) + (if r.Err? then 1 else 0)
      ensures var key := (address, blockHash, slot);
              && (r.Ok? ==> storageCache.entries != [] && storageCache.entries[0] == (key, r.value))
              && (!shared ==>
                    var missed := if Lookup(old(storageCache.entries), key) == None then 1 else 0;
                    && storageCalls == old(storageCalls) + missed && storageMisses == old(storageMisses) + missed
                    && storageHits == old(storageHits) + 1 - missed && codeCalls == old(codeCalls))
    {
      var key := (address, blockHash, slot);
      OtherThreads(0, 0);
      var hit := StorageLookup(key, 0, 0);
      if hit.Some? {
        return Ok(hit.value);
      }
      OtherThreads(0, 0);
      storageMisses := storageMisses + 1;
      OtherThreads(0, 1);
      var answer := CallStorage(key);
      OtherThreads(0, 0);
      if answer == None {
        return Err(Node);
      }
      StorageInsert(key, answer.value, 0, 0);
      r := Ok(answer.value);
    }

    method GetCodeCached(address: Address, blockHash: BlockHash) returns (r: Result<Code, FetchError>)
      requires Inv(0, 0)
      modifies this, codeCache, storageCache
      ensures Inv(0, 0)
      ensures r.Ok? ==> r.value == chain.code((address, blockHash))
      ensures r.Err? ==> r == Err(Node)
      ensures failures == old(failures) + (if r.Err? then 1 else 0)
      ensures var key := (address, blockHash);
              && (r.Ok? ==> codeCache.entries != [] && codeCache.entries[0] == (key, r.value))
              && (!shared ==>
                    var missed := if Lookup(old(codeCache.entries), key) == None then 1 else 0;
                    && codeCalls == old(codeCalls) + missed && bytecodeMisses == old(bytecodeMisses) + missed
                    && bytecodeHits == old(bytecodeHits) + 1 - missed && storageCalls == old(storageCalls))
    {
      var key := (address, blockHash);
      OtherThreads(0, 0);
      var hit := CodeLookup(key, 0, 0);
      if hit.Some? {
        return Ok(hit.value);
      }
      OtherThreads(0, 0);
      bytecodeMisses := bytecodeMisses + 1;
      OtherThreads(1, 0);
      var answer := CallCode(key);
      OtherThreads(0, 0);
      if answer == None {
        return Err(Node);
      }
      CodeInsert(key, answer.value, 0, 0);
      r := Ok(answer.value);
    }

    /** Reads the slots of one pass, in order. */
    method FetchSlots(address: Address, blockHash: BlockHash, slots: seq<u256>)
      returns (r: Result<seq<Entry>, FetchError>)
      requires Inv(0, 0)
      modifies this, codeCache, storageCache
      ensures Inv(0, 0)
      ensures r.Ok? ==> r.value == ReadAll(At(chain, address, blockHash), slots)
      ensures r.Err? ==> r == Err(Node)
      ensures failures == old(failures) + (if r.Err? then 1 else 0)
    {
      var fetched: seq<Entry> := [];
      for i := 0 to |slots|
        invariant Inv(0, 0)
        invariant failures == old(failures)
        invariant |fetched| == i
        invariant forall j :: 0 <= j < i ==> fetched[j] == (slots[j], chain.storage((address, blockHash, slots[j])))
      {
        var value := GetStorageCached(address, slots[i], blockHash);
        if value.Err? {
          return Err(value.error);
        }
        fetched := fetched + [(slots[i], value.value)];
      }
      r := Ok(fetched);
    }

    /**
     * Whatever is cached, evicted or fetched meanwhile, an `Ok` or a depth error is the one the uncached
     * resolution gives; only a failing node call can end it otherwise. No run makes more than three passes.
     */
    method FetchPool(pool: PoolId, blockHash: BlockHash, layout: Layout)
      returns (r: Result<FetchedPoolState, FetchError>, ghost passes: nat)
      requires Inv(0, 0)
      modifies this, codeCache, storageCache
      ensures Inv(0, 0)
      ensures passes <= 3
      ensures failures == old(failures) + (if r == Err(Node) then 1 else 0)
      ensures r == Err(InvalidBlockHash) <==> blockHash == 0
      ensures var value := At(chain, pool.address, blockHash);
              match r
              case Ok(state) =>
                && state.pool == pool && state.blockHash == blockHash
                && state.poolCode == chain.code((pool.address, blockHash))
                && ResolvePool(layout, value) == Some(state.poolStorage)
              case Err(DerivedSlotsTooDeep(depth)) =>
                depth == passes == 3 && ResolvePool(layout, value) == None
              case Err(_) => true
    {
      hide SortDedup, Unfetched, SortBySlot, At, ReadAll;
      passes := 0;
      if blockHash == 0 {
        return Err(InvalidBlockHash), 0;
      }
      var code := GetCodeCached(pool.address, blockHash);
      if code.Err? {
        return Err(code.error), 0;
      }
      ghost var value := At(chain, pool.address, blockHash);
      var allFetched: seq<Entry> := [];
      var toFetch := layout.base;
      var depth := 0;
      while true
        invariant Inv(0, 0)
        invariant failures == old(failures)
        invariant depth == passes < DERIVED_SLOTS_MAX_DEPTH
        invariant ResolvePool(layout, value) == Resolve(layout, value, toFetch, allFetched, depth)
        decreases DERIVED_SLOTS_MAX_DEPTH - depth
      {
        toFetch := SortDedup(toFetch);
        toFetch := Unfetched(toFetch, allFetched);
        if toFetch == [] {
          break;
        }
        passes := passes + 1;
        var batch := FetchSlots(pool.address, blockHash, toFetch);
        if batch.Err? {
          return Err(batch.error), passes;
        }
        allFetched := allFetched + batch.value;
        depth := depth + 1;
        var next := layout.derived(allFetched);
        if next == [] {
          r := Ok(FetchedPoolState(pool, blockHash, code.value, SortBySlot(allFetched)));
          return;
        }
        if depth >= DERIVED_SLOTS_MAX_DEPTH {
          return Err(DerivedSlotsTooDeep(DERIVED_SLOTS_MAX_DEPTH)), passes;
        }
        toFetch := next;
      }
      r := Ok(FetchedPoolState(pool, blockHash, code.value, SortBySlot(allFetched)));
    }

    /** An account's listed slots, each once, in ascending order. */
    method FetchAccount(address: Address, slots: seq<u256>, blockHash: BlockHash)
      returns (r: Result<FetchedAccount, FetchError>)
      requires Inv(0, 0)
      modifies this, codeCache, storageCache
      ensures Inv(0, 0)
      ensures r == Err(InvalidBlockHash) <==> blockHash == 0
      ensures r.Err? ==> r == Err(InvalidBlockHash) || r == Err(Node)
      ensures failures == old(failures) + (if r == Err(Node) then 1 else 0)
      ensures r.Ok? ==>
        && r.value.address == address && r.value.blockHash == blockHash
        && r.value.code == chain.code((address, blockHash))
        && Ascending(Slots(r.value.storage))
        && (forall x :: x in Slots(r.value.storage) <==> x in slots)
        && (forall e :: e in r.value.storage ==> e.1 == chain.storage((address, blockHash, e.0)))
    {
      if blockHash == 0 {
        return Err(InvalidBlockHash);
      }
      var code := GetCodeCached(address, blockHash);
      if code.Err? {
        return Err(code.error);
      }
      var sorted := SortDedup(slots);
      SortDedupAscends(slots);
      var storage := FetchSlots(address, blockHash, sorted);
      if storage.Err? {
        return Err(storage.error);
      }
      assert Slots(storage.value) == sorted;
      r := Ok(FetchedAccount(address, blockHash, code.value, storage.value));
    }
  }
}
