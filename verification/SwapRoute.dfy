/** The simulator's V2 route: reserves out of the packed slot, one swap at the sink, one back at the source. */
module SwapRoute {
  import opened Wrappers
  import opened Arithmetic
  import opened Numbers
  import opened Amm
  import opened Pools
  import opened Types
  import opened Ordered
  import opened SlotLayouts
  import opened UniV3Resolution
  import opened Opportunity

  const V2_RESERVES_SLOT: u256 := 8
  const TWO_TO_112: nat := 0x1_0000_0000_0000_0000_0000_0000_0000

  /** Reserves of token 0 and token 1 out of `timestamp (32 bits) | reserve1 (112) | reserve0 (112)`. */
  function DecodeV2Reserves(storage: seq<Entry>): (r: Option<(nat, nat)>)
    ensures r.Some? ==> r.value.0 < TWO_TO_112 && r.value.1 < TWO_TO_112
    ensures r.Some? <==> V2_RESERVES_SLOT in Slots(storage)
  {
    match Find(storage, V2_RESERVES_SLOT)
    case None => None
    case Some(word) => Some((word % TWO_TO_112, word / TWO_TO_112 % TWO_TO_112))
  }

  /** How the pair contract packs the slot. */
  function Pack(reserve0: nat, reserve1: nat, timestamp: nat): nat {
    reserve0 + TWO_TO_112 * (reserve1 + TWO_TO_112 * timestamp)
  }

  lemma DecodeUndoesPack(storage: seq<Entry>, reserve0: nat, reserve1: nat, timestamp: nat)
    requires reserve0 < TWO_TO_112 && reserve1 < TWO_TO_112 && timestamp < 0x1_0000_0000
    requires
      && Find(storage, V2_RESERVES_SLOT).Some?
      && Find(storage, V2_RESERVES_SLOT).value == Pack(reserve0, reserve1, timestamp)
    ensures DecodeV2Reserves(storage) == Some((reserve0, reserve1))
  {
    var word := Pack(reserve0, reserve1, timestamp);
    assert word / TWO_TO_112 == reserve1 + TWO_TO_112 * timestamp;
  }

  /** A fetched V2 pool always has its reserves, and they are the ones of the chain. */
  lemma FetchedPoolHasReserves(value: u256 -> u256, storage: seq<Entry>)
    requires BaseOnly(UniswapV2Layout, value, storage)
    ensures DecodeV2Reserves(storage)
      == Some((value(V2_RESERVES_SLOT) % TWO_TO_112, value(V2_RESERVES_SLOT) / TWO_TO_112 % TWO_TO_112))
  {
    assert UniswapV2Layout.base[3] == V2_RESERVES_SLOT;
    assert V2_RESERVES_SLOT in UniswapV2Layout.base;
  }

  /** A quote, the typed setup error, or an arithmetic panic. */
  datatype Quote = Quoted(amount: nat) | ReservesMissing | Panics

  function QuoteOf(out: Option<nat>): Quote {
    if out.Some? then Quoted(out.value) else Panics
  }

  function SellWeth(pool: seq<Entry>, wethIn: nat): Quote {
    match DecodeV2Reserves(pool)
    case None => ReservesMissing
    case Some((usdc, weth)) => QuoteOf(GetAmountOut(wethIn, weth, usdc))
  }

  function BuyWeth(pool: seq<Entry>, usdcIn: nat): Quote {
    match DecodeV2Reserves(pool)
    case None => ReservesMissing
    case Some((usdc, weth)) => QuoteOf(GetAmountOut(usdcIn, usdc, weth))
  }

  ghost predicate Funded(pool: seq<Entry>) {
    var r := DecodeV2Reserves(pool);
    r.Some? && r.value.0 > 0 && r.value.1 > 0
  }

  /** The pool as the state engine reports it. */
  function AsPoolState(pool: seq<Entry>, timestamp: nat): PoolState
    requires DecodeV2Reserves(pool).Some?
  {
    var (usdc, weth) := DecodeV2Reserves(pool).value;
    UniV2(usdc, weth, timestamp)
  }

  /** The checked formula fails exactly on a product or a sum of 256 bits or more, or on a divisor of zero. */
  lemma PanicsExactlyWhen(x: nat, reserveIn: nat, reserveOut: nat)
    ensures GetAmountOut(x, reserveIn, reserveOut) == None <==>
      || x * 997 >= U256_LIMIT || (x * 997) * reserveOut >= U256_LIMIT || reserveIn * 1000 >= U256_LIMIT
      || reserveIn * 1000 + x * 997 >= U256_LIMIT || (x == 0 && reserveIn == 0)
  {
  }

  /** An empty input reserve is no panic by itself: anything put in is then quoted the whole output reserve. */
  lemma EmptyReserveIsQuotedAll(x: u112, reserveOut: u112)
    ensures GetAmountOut(x, 0, reserveOut) == if x == 0 then None else Some(reserveOut)
  {
    if x > 0 {
      MulMonotone(x * 997, reserveOut, 997 * TWO_TO_112, TWO_TO_112);
      var fee := x * 997;
      assert (reserveOut + 1) * fee == reserveOut * fee + fee;
      assert fee * reserveOut == reserveOut * fee;
      QuotientIs(fee * reserveOut, fee, reserveOut);
    }
  }

  lemma PanicsOnlyOnNothing(x: u112, reserveIn: u112, reserveOut: u112)
    ensures GetAmountOut(x, reserveIn, reserveOut) == None <==> x == 0 && reserveIn == 0
  {
    if reserveIn > 0 {
      NeverPanics(x, reserveIn, reserveOut);
    } else {
      MulMonotone(x * 997, reserveOut, 997 * TWO_TO_112, TWO_TO_112);
    }
  }

  /**
   * Every way a quote can end, either way round: without slot 8 it is the setup error, a panic needs nothing put into
   * a pool that holds nothing of that token, and anything else is quoted.
   */
  lemma QuoteEndsExactly(pool: seq<Entry>, x: u112)
    ensures SellWeth(pool, x) == ReservesMissing <==> 8 !in Slots(pool)
    ensures BuyWeth(pool, x) == ReservesMissing <==> 8 !in Slots(pool)
    ensures SellWeth(pool, x) == Panics <==> 8 in Slots(pool) && x == 0 && DecodeV2Reserves(pool).value.1 == 0
    ensures BuyWeth(pool, x) == Panics <==> 8 in Slots(pool) && x == 0 && DecodeV2Reserves(pool).value.0 == 0
  {
    hide GetAmountOut;
    if DecodeV2Reserves(pool).Some? {
      var (usdc, weth) := DecodeV2Reserves(pool).value;
      PanicsOnlyOnNothing(x, weth, usdc);
      PanicsOnlyOnNothing(x, usdc, weth);
    }
  }

  /**
   * Swap 1 is quoted for every uint112 input, and swap 2 for whatever uint112 balance the router then holds; each
   * quote is below the reserve it comes out of.
   */
  lemma RouteNeverPanics(sink: seq<Entry>, source: seq<Entry>, wethIn: u112, usdcIn: u112)
    returns (usdc: nat, weth: nat)
    requires Funded(sink) && Funded(source)
    ensures SellWeth(sink, wethIn) == Quoted(usdc) && usdc < DecodeV2Reserves(sink).value.0
    ensures BuyWeth(source, usdcIn) == Quoted(weth) && weth < DecodeV2Reserves(source).value.1
  {
    var (usdc0, weth0) := DecodeV2Reserves(sink).value;
    var (usdc1, weth1) := DecodeV2Reserves(source).value;
    hide GetAmountOut, DecodeV2Reserves;
    NeverPanics(wethIn, weth0, usdc0);
    StaysBelowReserve(wethIn, weth0, usdc0);
    usdc := GetAmountOut(wethIn, weth0, usdc0).value;
    NeverPanics(usdcIn, usdc1, weth1);
    StaysBelowReserve(usdcIn, usdc1, weth1);
    weth := GetAmountOut(usdcIn, usdc1, weth1).value;
  }

  /**
   * From storage to filter. Swap 2 spends the USDC the router holds after swap 1; as long as that is no more than
   * swap 1 was quoted, a route that returns more WETH than went in is reported by the filter, with exactly this
   * source and sink and in either order of its arguments, unless both prices round to the same number, which they
   * do not from a source price of 166 on.
   */
  lemma GainfulRouteIsReported(cc: ChainContext, wethIn: u112, usdcIn: u112, sourceId: PoolId, source: seq<Entry>,
                               sinkId: PoolId, sink: seq<Entry>, t0: nat, t1: nat)
    returns (usdc: nat, weth: nat)
    requires Funded(sink) && Funded(source) && sourceId.address != sinkId.address
    ensures SellWeth(sink, wethIn) == Quoted(usdc) && BuyWeth(source, usdcIn) == Quoted(weth)
    ensures PoolPriceQ64(AsPoolState(source, t0)).Some? && PoolPriceQ64(AsPoolState(sink, t1)).Some?
    ensures var a, b := AsPoolState(source, t0), AsPoolState(sink, t1);
            var r := Check(cc, sourceId, a, sinkId, b);
            usdcIn <= usdc && weth > wethIn ==>
              && r == Check(cc, sinkId, b, sourceId, a)
              && (r.Some? <==> PoolPriceQ64(a) != PoolPriceQ64(b))
              && (PoolPriceQ64(a).value >= 166 ==> r.Some?)
              && (r.Some? ==> r.value.sourcePool == sourceId && r.value.sinkPool == sinkId)
  {
    usdc, weth := RouteNeverPanics(sink, source, wethIn, usdcIn);
    var a, b := AsPoolState(source, t0), AsPoolState(sink, t1);
    V2Price(a);
    V2Price(b);
    assert GetAmountOut(wethIn, b.reserve1, b.reserve0) == Some(usdc);
    assert GetAmountOut(usdcIn, a.reserve0, a.reserve1) == Some(weth);
    NeverPanics(usdc, a.reserve0, a.reserve1);
    hide GetAmountOut, PoolPriceQ64, Check, DecodeV2Reserves, QuoteAlong;
    var hops := RoundTrip(a, b);
    OneMoreHop([], hops[0], wethIn);
    OneMoreHop([hops[0]], hops[1], wethIn);
    assert [] + [hops[0]] == [hops[0]] && [hops[0]] + [hops[1]] == hops;
    if usdcIn <= usdc && weth > wethIn {
      Monotone(usdcIn, usdc, a.reserve0, a.reserve1);
      ProfitablePairIsKept(cc, wethIn, sourceId, a, sinkId, b);
    }
  }
}
