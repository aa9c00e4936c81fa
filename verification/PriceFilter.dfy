/** What `check` answers for any two pools, V2 or V3, stated on their reserves and square-root prices. */
module PriceFilter {
  import opened Wrappers
  import opened Arithmetic
  import opened Numbers
  import opened Pools
  import opened Types
  import opened Opportunity

  // ----- one price --------------------------------------------------------------------------

  /** A V2 pool with token 0 in it, or a V3 pool with a price, and no overflow on the way. */
  predicate HasPrice(s: PoolState) {
    match s
    case UniV2(reserve0, reserve1, _) => reserve0 != 0 && reserve1 * 0x1_0000_0000_0000_0000 < U256_LIMIT
    case UniV3(sqrtPrice, _, _) => sqrtPrice != 0 && sqrtPrice * sqrtPrice < U256_LIMIT
  }

  /**
   * Token 0 in units of token 1 costs reserve 1 over reserve 0, or the square of the square-root price over 2^192;
   * `price` is 2^64 times that, rounded down.
   */
  ghost predicate IsPrice(s: PoolState, price: nat) {
    match s
    case UniV2(reserve0, reserve1, _) =>
      price * reserve0 <= reserve1 * 0x1_0000_0000_0000_0000 < (price + 1) * reserve0
    case UniV3(sqrtPrice, _, _) =>
      var unit := 0x1_0000_0000_0000_0000_0000_0000_0000_0000;
      price * unit <= sqrtPrice * sqrtPrice < (price + 1) * unit
  }

  lemma PriceIsExact(s: PoolState)
    ensures PoolPriceQ64(s).Some? <==> HasPrice(s)
    ensures PoolPriceQ64(s).Some? ==> IsPrice(s, PoolPriceQ64(s).value)
  {
    match s {
      case UniV2(reserve0, reserve1, _) =>
        if reserve0 > 0 { DivBounds(reserve1 * TWO_TO_64, reserve0); }
      case UniV3(sqrtPrice, _, _) => DivBounds(sqrtPrice * sqrtPrice, TWO_TO_128);
    }
  }

  // ----- two prices -------------------------------------------------------------------------

  const TWO_TO_192: nat := 0x1_0000_0000_0000_0000_0000_0000_0000_0000_0000_0000_0000_0000

  /** Token 0 costs more at `s` than at `t`, before any rounding. */
  ghost predicate Dearer(s: PoolState, t: PoolState) {
    match (s, t)
    case (UniV2(r0, r1, _), UniV2(q0, q1, _)) => r1 * q0 > q1 * r0
    case (UniV2(r0, r1, _), UniV3(q, _, _)) => r1 * TWO_TO_192 > q * q * r0
    case (UniV3(r, _, _), UniV2(q0, q1, _)) => r * r * q0 > q1 * TWO_TO_192
    case (UniV3(r, _, _), UniV3(q, _, _)) => r > q
  }

  /** Two quotients whose roundings differ differ themselves, and the same way. */
  lemma RoundingKeepsOrder(n: nat, d: nat, m: nat, e: nat, p: nat, q: nat)
    requires d > 0 && e > 0 && p > q
    requires p * d <= n && m < (q + 1) * e
    ensures m * d < n * e
  {
    MulMonotone(q + 1, d * e, p, d * e);
    MulMonotone(p * d, e, n, e);
    assert (q + 1) * e * d == (q + 1) * (d * e) && p * d * e == p * (d * e);
    LessTimes(m, (q + 1) * e, d);
  }

  lemma LessTimes(a: nat, b: nat, d: nat)
    requires a < b && d > 0
    ensures a * d < b * d
  {
    MulMonotone(a + 1, d, b, d);
    assert (a + 1) * d == a * d + d;
  }

  lemma DearerV2(r0: nat, r1: nat, q0: nat, q1: nat, p: nat, q: nat)
    requires r0 > 0 && q0 > 0 && p > q && p * r0 <= r1 * TWO_TO_64 && q1 * TWO_TO_64 < (q + 1) * q0
    ensures r1 * q0 > q1 * r0
  {
    RoundingKeepsOrder(r1 * TWO_TO_64, r0, q1 * TWO_TO_64, q0, p, q);
    assert r1 * TWO_TO_64 * q0 == r1 * q0 * TWO_TO_64 && q1 * TWO_TO_64 * r0 == q1 * r0 * TWO_TO_64;
  }

  lemma DearerV2ThanV3(r0: nat, r1: nat, square: nat, p: nat, q: nat)
    requires r0 > 0 && p > q && p * r0 <= r1 * TWO_TO_64 && square < (q + 1) * TWO_TO_128
    ensures r1 * TWO_TO_192 > square * r0
  {
    RoundingKeepsOrder(r1 * TWO_TO_64, r0, square, TWO_TO_128, p, q);
    assert r1 * TWO_TO_64 * TWO_TO_128 == r1 * TWO_TO_192;
  }

  lemma DearerV3ThanV2(square: nat, q0: nat, q1: nat, p: nat, q: nat)
    requires q0 > 0 && p > q && p * TWO_TO_128 <= square && q1 * TWO_TO_64 < (q + 1) * q0
    ensures square * q0 > q1 * TWO_TO_192
  {
    RoundingKeepsOrder(square, TWO_TO_128, q1 * TWO_TO_64, q0, p, q);
    assert q1 * TWO_TO_64 * TWO_TO_128 == q1 * TWO_TO_192;
  }

  lemma DearerV3(u: nat, v: nat, p: nat, q: nat)
    requires p > q && p * TWO_TO_128 <= u * u && v * v < (q + 1) * TWO_TO_128
    ensures u > v
  {
    MulMonotone(q + 1, TWO_TO_128, p, TWO_TO_128);
    if u <= v { MulMonotone(u, u, v, v); }
  }

  lemma HigherPriceIsDearer(s: PoolState, t: PoolState, p: nat, q: nat)
    requires HasPrice(s) && HasPrice(t) && IsPrice(s, p) && IsPrice(t, q) && p > q
    ensures Dearer(s, t)
  {
    match (s, t) {
      case (UniV2(r0, r1, _), UniV2(q0, q1, _)) => DearerV2(r0, r1, q0, q1, p, q);
      case (UniV2(r0, r1, _), UniV3(v, _, _)) => DearerV2ThanV3(r0, r1, v * v, p, q);
      case (UniV3(u, _, _), UniV2(q0, q1, _)) => DearerV3ThanV2(u * u, q0, q1, p, q);
      case (UniV3(u, _, _), UniV3(v, _, _)) => DearerV3(u, v, p, q);
    }
  }

  // ----- the filter -------------------------------------------------------------------------

  /**
   * A spread is reported exactly if the pools are two and at least a 4096th of the higher price `hi` lies between the
   * two prices, without overflow on the fixed amount in. The test for a profit of zero never decides.
   */
  ghost predicate Reportable(a: PoolId, pa: nat, b: PoolId, pb: nat) {
    var hi, diff := if pa > pb then pa else pb, if pa > pb then pa - pb else pb - pa;
    a.address != b.address && pa != pb && diff >= hi / 4096 && 10_000_000_000_000_000 * diff < U256_LIMIT
  }

  /** An 8192th of the fixed amount in. */
  const LEAST_PROFIT_WEI: nat := 1_220_703_125_000

  /** The answer for any two pools, with the dearer one as the source and the profit rounded down. */
  lemma CheckIsExact(cc: ChainContext, a: PoolId, sa: PoolState, b: PoolId, sb: PoolState)
    ensures var r := Check(cc, a, sa, b, sb);
            && (r.Some? ==> HasPrice(sa) && HasPrice(sb))
            && (PoolPriceQ64(sa).Some? && PoolPriceQ64(sb).Some? ==>
                  (r.Some? <==> Reportable(a, PoolPriceQ64(sa).value, b, PoolPriceQ64(sb).value)))
    ensures var r := Check(cc, a, sa, b, sb);
            r.Some? ==>
              var (pa, pb) := (PoolPriceQ64(sa).value, PoolPriceQ64(sb).value);
              var (hi, lo) := if pa > pb then (pa, pb) else (pb, pa);
              && (r.value.sourcePool, r.value.sinkPool) == (if pa > pb then (a, b) else (b, a))
              && (if pa > pb then Dearer(sa, sb) else Dearer(sb, sa))
              && r.value.blockNumber == cc.blockNumber && r.value.blockHash == cc.blockHash
              && r.value.optimalAmountInWei == 10_000_000_000_000_000 && r.value.gasEstimate == 350_000
              && r.value.expectedProfitWei * hi <= 10_000_000_000_000_000 * (hi - lo)
                 < (r.value.expectedProfitWei + 1) * hi
              && r.value.expectedProfitWei >= LEAST_PROFIT_WEI
  {
    PriceIsExact(sa);
    PriceIsExact(sb);
    hide PoolPriceQ64, IsPrice, HasPrice, Dearer, Candidate;
    if PoolPriceQ64(sa).Some? && PoolPriceQ64(sb).Some? {
      var pa, pb := PoolPriceQ64(sa).value, PoolPriceQ64(sb).value;
      if pa > pb {
        CandidateIsExact(cc, a, pa, b, pb);
        HigherPriceIsDearer(sa, sb, pa, pb);
      } else if pa < pb {
        CandidateIsExact(cc, b, pb, a, pa);
        HigherPriceIsDearer(sb, sa, pb, pa);
      }
    }
  }

  lemma CandidateIsExact(cc: ChainContext, source: PoolId, hi: nat, sink: PoolId, lo: nat)
    requires hi > lo
    ensures var r := Candidate(cc, source, hi, sink, lo);
            && (r.Some? <==> hi - lo >= hi / 4096 && 10_000_000_000_000_000 * (hi - lo) < U256_LIMIT)
            && (r.Some? ==>
                  && r.value.sourcePool == source && r.value.sinkPool == sink
                  && r.value.blockNumber == cc.blockNumber && r.value.blockHash == cc.blockHash
                  && r.value.optimalAmountInWei == 10_000_000_000_000_000 && r.value.gasEstimate == 350_000
                  && r.value.expectedProfitWei * hi <= 10_000_000_000_000_000 * (hi - lo)
                     < (r.value.expectedProfitWei + 1) * hi
                  && r.value.expectedProfitWei >= LEAST_PROFIT_WEI)
  {
    var scaled := 10_000_000_000_000_000 * (hi - lo);
    DivBounds(scaled, hi);
    var profit := scaled / hi;
    if hi - lo >= hi / 4096 && profit < LEAST_PROFIT_WEI {
      assert hi < 8192 * (hi - lo);
      MulMonotone(profit + 1, hi, LEAST_PROFIT_WEI, hi);
      assert false;
    }
  }

  /** The watched case spelled out: a V2 pool against a V3 pool, in either order of the arguments. */
  lemma V2AgainstV3(cc: ChainContext, v2: PoolId, r0: u256, r1: u256, at: nat,
                    v3: PoolId, sqrtPrice: u256, tick: int, liquidity: nat)
    ensures var r := Check(cc, v2, UniV2(r0, r1, at), v3, UniV3(sqrtPrice, tick, liquidity));
            && r == Check(cc, v3, UniV3(sqrtPrice, tick, liquidity), v2, UniV2(r0, r1, at))
            && (r.Some? && r.value.sourcePool == v3 ==> sqrtPrice * sqrtPrice * r0 > r1 * TWO_TO_192)
            && (r.Some? && r.value.sourcePool == v2 ==> r1 * TWO_TO_192 > sqrtPrice * sqrtPrice * r0)
            && (r.Some? ==> r.value.sourcePool == v2 || r.value.sourcePool == v3)
  {
    var a, b := UniV2(r0, r1, at), UniV3(sqrtPrice, tick, liquidity);
    CheckIsSymmetric(cc, v2, a, v3, b);
    CheckIsExact(cc, v2, a, v3, b);
    hide PoolPriceQ64, Candidate, HasPrice;
    if Check(cc, v2, a, v3, b).Some? {
      DifferentPools(cc, v2, a, v3, b);
      assert Dearer(a, b) == (r1 * TWO_TO_192 > sqrtPrice * sqrtPrice * r0);
      assert Dearer(b, a) == (sqrtPrice * sqrtPrice * r0 > r1 * TWO_TO_192);
    }
  }

  lemma DifferentPools(cc: ChainContext, a: PoolId, sa: PoolState, b: PoolId, sb: PoolState)
    requires Check(cc, a, sa, b, sb).Some?
    ensures a != b
  {
    hide PoolPriceQ64, Candidate;
  }
}
