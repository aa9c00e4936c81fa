/** The cross-venue price filter: `OpportunityEngine::check`. */
module Opportunity {
  import opened Wrappers
  import opened Arithmetic
  import opened Numbers
  import opened Amm
  import opened Pools
  import opened Types

  const GAS_ESTIMATE_TWO_HOP_ARB: nat := 350_000
  const OPTIMAL_AMOUNT_IN_WEI: nat := 10_000_000_000_000_000
  const TWO_TO_64: nat := 0x1_0000_0000_0000_0000
  const TWO_TO_128: nat := 0x1_0000_0000_0000_0000_0000_0000_0000_0000

  datatype OpportunityEvent = OpportunityEvent(
    blockNumber: nat,
    blockHash: nat,
    sourcePool: PoolId,
    sinkPool: PoolId,
    optimalAmountInWei: nat,
    expectedProfitWei: nat,
    gasEstimate: nat)

  /** `token1 / token0` times 2^64, rounded down. */
  function PoolPriceQ64(state: PoolState): Option<nat> {
    match state
    case UniV2(reserve0, reserve1, _) =>
      if reserve0 == 0 then None
      else (match CheckedMul(reserve1, TWO_TO_64)
            case None => None
            case Some(shifted) => CheckedDiv(shifted, reserve0))
    case UniV3(sqrtPrice, _, _) =>
      if sqrtPrice == 0 then None
      else (match CheckedMul(sqrtPrice, sqrtPrice)
            case None => None
            case Some(square) => CheckedDiv(square, TWO_TO_128))
  }

  /** The event for buying at `source` and selling at `sink`, when the spread clears both thresholds. */
  function Candidate(cc: ChainContext, source: PoolId, cheap: nat, sink: PoolId, expensive: nat)
    : Option<OpportunityEvent>
    requires cheap > expensive
  {
    var diff := cheap - expensive;
    if diff < cheap / 4096 then None
    else match CheckedMul(OPTIMAL_AMOUNT_IN_WEI, diff)
      case None => None
      case Some(scaled) =>
        if scaled / cheap == 0 then None
        else Some(OpportunityEvent(cc.blockNumber, cc.blockHash, source, sink,
                                   OPTIMAL_AMOUNT_IN_WEI, scaled / cheap, GAS_ESTIMATE_TWO_HOP_ARB))
  }

  function Check(cc: ChainContext, poolA: PoolId, stateA: PoolState, poolB: PoolId, stateB: PoolState)
    : Option<OpportunityEvent>
  {
    if poolA.address == poolB.address then None
    else match (PoolPriceQ64(stateA), PoolPriceQ64(stateB))
      case (Some(a), Some(b)) =>
        if a > b then Candidate(cc, poolA, a, poolB, b)
        else if a < b then Candidate(cc, poolB, b, poolA, a)
        else None
      case _ => None
  }

  lemma CheckIsSymmetric(cc: ChainContext, poolA: PoolId, stateA: PoolState, poolB: PoolId, stateB: PoolState)
    ensures Check(cc, poolA, stateA, poolB, stateB) == Check(cc, poolB, stateB, poolA, stateA)
  {
    hide PoolPriceQ64, Candidate;
  }

  /** Sell WETH (token 1) at `sink`, buy it back at `source`. */
  function RoundTrip(source: PoolState, sink: PoolState): seq<Hop>
    requires source.UniV2? && sink.UniV2?
  {
    [Hop(sink.reserve1, sink.reserve0), Hop(source.reserve0, source.reserve1)]
  }

  /** The round trip returns more WETH than the `x` put in. */
  ghost predicate Profitable(x: nat, source: PoolState, sink: PoolState)
    requires source.UniV2? && sink.UniV2?
  {
    var out := QuoteAlong(RoundTrip(source, sink), x);
    out.Some? && out.value > x
  }

  ghost predicate Uint112(s: PoolState) {
    s.UniV2? && 0 < s.reserve0 < 0x1_0000_0000_0000_0000_0000_0000_0000
      && 0 < s.reserve1 < 0x1_0000_0000_0000_0000_0000_0000_0000
  }

  lemma IgnoreImpact(x: nat, rin: nat, rout: nat, out: nat)
    requires GetAmountOut(x, rin, rout) == Some(out)
    ensures 1000 * (out * rin) <= 997 * (x * rout)
  {
    OutBounds(x, rin, rout);
    hide GetAmountOut;
    assert out * (1000 * rin + 997 * x) == 1000 * (out * rin) + 997 * (out * x);
    assert 997 * x * rout == 997 * (x * rout);
    MulMonotone(0, 0, out, x);
  }

  /** Ignoring price impact only helps: two fees of 0.3% bound what a round trip returns. */
  lemma RoundTripBound(x: nat, u0: nat, w0: nat, u1: nat, w1: nat)
    requires w0 > 0 && u1 > 0
    requires var out := QuoteAlong([Hop(w0, u0), Hop(u1, w1)], x);
             out.Some? && out.value > x
    ensures 1_000_000 * (u1 * w0) < 994_009 * (w1 * u0)
  {
    hide GetAmountOut, QuoteAlong;
    var first, second := Hop(w0, u0), Hop(u1, w1);
    OneMoreHop([], first, x);
    OneMoreHop([first], second, x);
    assert [] + [first] == [first] && [first] + [second] == [first, second];
    var a := GetAmountOut(x, w0, u0).value;
    var b := GetAmountOut(a, u1, w1).value;
    IgnoreImpact(x, w0, u0, a);
    IgnoreImpact(a, u1, w1, b);
    Chain(x, u0, w0, u1, w1, a, b);
  }

  lemma Chain(x: nat, u0: nat, w0: nat, u1: nat, w1: nat, a: nat, b: nat)
    requires b > x && u1 > 0 && w0 > 0
    requires 1000 * (a * w0) <= 997 * (x * u0) && 1000 * (b * u1) <= 997 * (a * w1)
    ensures 1_000_000 * (u1 * w0) < 994_009 * (w1 * u0)
  {
    MulMonotone(1000 * (b * u1), w0, 997 * (a * w1), w0);
    MulMonotone(1000 * (a * w0), w1, 997 * (x * u0), w1);
    assert 1000 * (b * u1) * w0 == 1000 * (b * (u1 * w0));
    assert 997 * (a * w1) * w0 == 997 * (a * w0 * w1);
    assert 1000 * (a * w0) * w1 == 1000 * (a * w0 * w1);
    assert 997 * (x * u0) * w1 == 997 * (x * (w1 * u0));
    assert u1 * w0 > 0;
    DropTheAmounts(x, b, u1 * w0, w1 * u0);
  }

  lemma DropTheAmounts(x: nat, b: nat, p: nat, q: nat)
    requires b > x && p > 0 && 1_000_000 * (b * p) <= 994_009 * (x * q)
    ensures 1_000_000 * p < 994_009 * q
  {
    MulMonotone(1, 1, b, p);
    MulMonotone(x, q, b - 1, q);
    assert (b - 1) * q == b * q - q;
    if q > 0 {
      assert 1_000_000 * (b * p) < 994_009 * (b * q);
      assert (1_000_000 * p) * b == 1_000_000 * (b * p) && (994_009 * q) * b == 994_009 * (b * q);
      CancelLess(1_000_000 * p, 994_009 * q, b);
    }
  }

  lemma V2Price(s: PoolState)
    requires Uint112(s)
    ensures PoolPriceQ64(s).Some?
    ensures var price := PoolPriceQ64(s).value;
            && price * s.reserve0 <= s.reserve1 * TWO_TO_64 < (price + 1) * s.reserve0
            && price < 0x1_0000_0000_0000_0000_0000_0000_0000 * TWO_TO_64
  {
    DivBounds(s.reserve1 * TWO_TO_64, s.reserve0);
    var price := PoolPriceQ64(s).value;
    MulMonotone(price, 1, price, s.reserve0);
  }

  /** The rounded prices of a profitable pair are still at least the two fees apart, up to one unit. */
  lemma PriceGap(x: nat, source: PoolState, sink: PoolState)
    requires Uint112(source) && Uint112(sink) && Profitable(x, source, sink)
    ensures PoolPriceQ64(source).Some? && PoolPriceQ64(sink).Some?
    ensures 1_000_000 * PoolPriceQ64(sink).value < 994_009 * (PoolPriceQ64(source).value + 1)
  {
    hide GetAmountOut, QuoteAlong;
    RoundTripBound(x, sink.reserve0, sink.reserve1, source.reserve0, source.reserve1);
    V2Price(source);
    V2Price(sink);
    GapAfterRounding(PoolPriceQ64(source).value, PoolPriceQ64(sink).value,
                     source.reserve0, source.reserve1, sink.reserve0, sink.reserve1);
  }

  lemma GapAfterRounding(ps: nat, pk: nat, u1: nat, w1: nat, u0: nat, w0: nat)
    requires u0 > 0 && u1 > 0
    requires w1 * TWO_TO_64 < (ps + 1) * u1 && pk * u0 <= w0 * TWO_TO_64
    requires 1_000_000 * (u1 * w0) < 994_009 * (w1 * u0)
    ensures 1_000_000 * pk < 994_009 * (ps + 1)
  {
    MulMonotone(pk * u0, u1, w0 * TWO_TO_64, u1);
    MulMonotone(w1 * TWO_TO_64, u0, (ps + 1) * u1, u0);
    assert pk * u0 * u1 == pk * (u0 * u1) && (ps + 1) * u1 * u0 == (ps + 1) * (u0 * u1);
    assert w0 * TWO_TO_64 * u1 == TWO_TO_64 * (u1 * w0) && w1 * TWO_TO_64 * u0 == TWO_TO_64 * (w1 * u0);
    var d := u0 * u1;
    assert (1_000_000 * pk) * d == 1_000_000 * (pk * d);
    assert (994_009 * (ps + 1)) * d == 994_009 * ((ps + 1) * d);
    CancelLess(1_000_000 * pk, 994_009 * (ps + 1), d);
  }

  /** Two prices that are two fees apart up to rounding and still differ always clear both thresholds. */
  lemma GapClearsThresholds(cc: ChainContext, source: PoolId, ps: nat, sink: PoolId, pk: nat)
    requires 1_000_000 * pk < 994_009 * (ps + 1) && ps != pk
    requires ps < 0x1_0000_0000_0000_0000_0000_0000_0000 * TWO_TO_64
    ensures ps > pk && Candidate(cc, source, ps, sink, pk).Some?
  {
    var diff := ps - pk;
    assert diff > 0;
    assert diff >= ps / 4096;
    assert 1000 * diff >= ps / 1000;
    assert OPTIMAL_AMOUNT_IN_WEI * diff >= ps;
    DivBounds(OPTIMAL_AMOUNT_IN_WEI * diff, ps);
    assert OPTIMAL_AMOUNT_IN_WEI * diff < U256_LIMIT;
  }

  /**
   * The filter never reverses a profitable V2 pair, drops it only when both prices round to the same
   * number, and that cannot happen once the source price is at least 166.
   */
  lemma ProfitablePairIsKept(cc: ChainContext, x: nat, source: PoolId, sourceState: PoolState, sink: PoolId,
                             sinkState: PoolState)
    requires Uint112(sourceState) && Uint112(sinkState) && source.address != sink.address
    requires Profitable(x, sourceState, sinkState)
    ensures PoolPriceQ64(sourceState).Some? && PoolPriceQ64(sinkState).Some?
    ensures var r := Check(cc, source, sourceState, sink, sinkState);
            && r == Check(cc, sink, sinkState, source, sourceState)
            && (r.Some? <==> PoolPriceQ64(sourceState) != PoolPriceQ64(sinkState))
            && (r.Some? ==> r.value.sourcePool == source && r.value.sinkPool == sink)
            && (PoolPriceQ64(sourceState).value >= 166 ==> r.Some?)
  {
    hide PoolPriceQ64, Candidate, Profitable;
    PriceGap(x, sourceState, sinkState);
    V2Price(sourceState);
    CheckIsSymmetric(cc, source, sourceState, sink, sinkState);
    var ps, pk := PoolPriceQ64(sourceState).value, PoolPriceQ64(sinkState).value;
    if ps != pk {
      GapClearsThresholds(cc, source, ps, sink, pk);
      CandidateFields(cc, source, ps, sink, pk);
    }
  }

  lemma CandidateFields(cc: ChainContext, source: PoolId, cheap: nat, sink: PoolId, expensive: nat)
    requires cheap > expensive && Candidate(cc, source, cheap, sink, expensive).Some?
    ensures var e := Candidate(cc, source, cheap, sink, expensive).value;
            && e.sourcePool == source && e.sinkPool == sink
            && e.blockNumber == cc.blockNumber && e.blockHash == cc.blockHash
            && 0 < e.expectedProfitWei <= e.optimalAmountInWei
  {
    var scaled := OPTIMAL_AMOUNT_IN_WEI * (cheap - expensive);
    DivBounds(scaled, cheap);
    MulMonotone(OPTIMAL_AMOUNT_IN_WEI, cheap - expensive, OPTIMAL_AMOUNT_IN_WEI, cheap);
    if scaled / cheap > OPTIMAL_AMOUNT_IN_WEI {
      MulMonotone(OPTIMAL_AMOUNT_IN_WEI + 1, cheap, scaled / cheap, cheap);
    }
  }

  /** A quote is recognised by its two bounds. */
  lemma QuoteIs(x: nat, rin: nat, rout: nat, out: nat)
    requires 997 * x * rout < U256_LIMIT && 0 < 1000 * rin + 997 * x < U256_LIMIT && 997 * x < U256_LIMIT
    requires out * (1000 * rin + 997 * x) <= 997 * x * rout < (out + 1) * (1000 * rin + 997 * x)
    ensures GetAmountOut(x, rin, rout) == Some(out)
  {
    assert (x * 997) * rout == 997 * x * rout;
    QuotientIs(997 * x * rout, 1000 * rin + 997 * x, out);
  }

  lemma PriceIs(s: PoolState, price: nat)
    requires Uint112(s) && price * s.reserve0 <= s.reserve1 * TWO_TO_64 < (price + 1) * s.reserve0
    ensures PoolPriceQ64(s) == Some(price)
  {
    QuotientIs(s.reserve1 * TWO_TO_64, s.reserve0, price);
  }

  /** The bound 166 is tight: at a source price of 165 a profitable pair can be dropped. */
  lemma BoundIsTight(cc: ChainContext) returns (x: nat, source: PoolState, sink: PoolState)
    ensures Uint112(source) && Uint112(sink) && Profitable(x, source, sink)
    ensures PoolPriceQ64(source) == Some(165)
    ensures Check(cc, PoolId(UniswapV2, 1), source, PoolId(SushiswapV2, 2), sink) == None
  {
    hide GetAmountOut, PoolPriceQ64, QuoteAlong, Candidate;
    x := 1_000_000;
    source := UniV2(TWO_TO_64 * 0x100_0000_0000, 166 * 0x100_0000_0000 - 1, 0);
    sink := UniV2(TWO_TO_64 * 0x100_0000_0000, 165 * 0x100_0000_0000, 0);
    QuoteIs(1_000_000, 165 * 0x100_0000_0000, TWO_TO_64 * 0x100_0000_0000, 111463052972227224289946);
    QuoteIs(111463052972227224289946, TWO_TO_64 * 0x100_0000_0000, 166 * 0x100_0000_0000 - 1, 1000033);
    PriceIs(source, 165);
    PriceIs(sink, 165);
    var first, second := Hop(sink.reserve1, sink.reserve0), Hop(source.reserve0, source.reserve1);
    OneMoreHop([], first, x);
    OneMoreHop([first], second, x);
    assert [] + [first] == [first] && [first] + [second] == RoundTrip(source, sink);
  }
}
