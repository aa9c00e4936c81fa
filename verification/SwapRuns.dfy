/** Whole runs of swaps on one pool. */
module SwapRuns {
  import opened Wrappers
  import opened Arithmetic
  import opened Amm

  /** A swap never lowers the product of the reserves. */
  lemma ProductGrows(x: nat, rin: nat, rout: nat)
    requires rin > 0 && rout > 0 && GetAmountOut(x, rin, rout).Some?
    ensures var out := GetAmountOut(x, rin, rout).value;
            out < rout && (rin + x) * (rout - out) >= rin * rout
  {
    var out := GetAmountOut(x, rin, rout).value;
    StaysBelowReserve(x, rin, rout);
    OutBounds(x, rin, rout);
    assert out * (1000 * rin + 997 * x) == 1000 * (out * rin) + 997 * (x * out);
    assert 997 * x * rout == 997 * (x * rout);
    assert x * (rout - out) == x * rout - x * out;
    MulMonotone(0, 0, x, rout - out);
    assert out * rin <= x * (rout - out);
    assert (rin + x) * (rout - out) == rin * rout - out * rin + x * (rout - out);
  }

  /** Swapping the output straight back on the updated reserves never returns more than was put in. */
  lemma RoundTripNeverGains(x: nat, rin: nat, rout: nat)
    requires rin > 0 && rout > 0 && GetAmountOut(x, rin, rout).Some?
    ensures var out := GetAmountOut(x, rin, rout).value;
            && out < rout
            && (GetAmountOut(out, rout - out, rin + x).Some? ==> GetAmountOut(out, rout - out, rin + x).value <= x)
  {
    ProductGrows(x, rin, rout);
    var out := GetAmountOut(x, rin, rout).value;
    if GetAmountOut(out, rout - out, rin + x).Some? {
      var back := GetAmountOut(out, rout - out, rin + x).value;
      ProductGrows(out, rout - out, rin + x);
      assert (rin + x - back) * rout >= (rout - out) * (rin + x) >= rin * rout;
      CancelLessOrEqual(rin, rin + x - back, rout);
    }
  }

  // ----- whole runs of swaps on one pool ----------------------------------------------------

  datatype Pool = Pool(reserve0: nat, reserve1: nat)

  /** One swap: an amount of token 0 in for token 1 out, or the other way round. */
  datatype Swap = Zero(amount: nat) | One(amount: nat)

  function SwapOnce(p: Pool, s: Swap): Option<Pool> {
    match s
    case Zero(x) =>
      (match GetAmountOut(x, p.reserve0, p.reserve1)
       case Some(out) => if out <= p.reserve1 then Some(Pool(p.reserve0 + x, p.reserve1 - out)) else None
       case None => None)
    case One(x) =>
      (match GetAmountOut(x, p.reserve1, p.reserve0)
       case Some(out) => if out <= p.reserve0 then Some(Pool(p.reserve0 - out, p.reserve1 + x)) else None
       case None => None)
  }

  function SwapAll(p: Pool, swaps: seq<Swap>): Option<Pool>
    decreases |swaps|
  {
    if swaps == [] then Some(p)
    else match SwapOnce(p, swaps[0])
      case None => None
      case Some(q) => SwapAll(q, swaps[1..])
  }

  lemma SwapRaisesProduct(p: Pool, s: Swap)
    requires p.reserve0 > 0 && p.reserve1 > 0 && SwapOnce(p, s).Some?
    ensures var q := SwapOnce(p, s).value;
            q.reserve0 > 0 && q.reserve1 > 0 && q.reserve0 * q.reserve1 >= p.reserve0 * p.reserve1
  {
    hide GetAmountOut;
    match s {
      case Zero(x) => ProductGrows(x, p.reserve0, p.reserve1);
      case One(x) => ProductGrows(x, p.reserve1, p.reserve0);
    }
  }

  lemma {:induction false} ProductNeverFalls(p: Pool, swaps: seq<Swap>)
    requires p.reserve0 > 0 && p.reserve1 > 0 && SwapAll(p, swaps).Some?
    ensures var q := SwapAll(p, swaps).value;
            q.reserve0 > 0 && q.reserve1 > 0 && q.reserve0 * q.reserve1 >= p.reserve0 * p.reserve1
    decreases |swaps|
  {
    hide SwapOnce;
    if swaps != [] {
      SwapRaisesProduct(p, swaps[0]);
      ProductNeverFalls(SwapOnce(p, swaps[0]).value, swaps[1..]);
    }
  }

  lemma SmallerNeedsLarger(a: nat, b: nat, a': nat, b': nat)
    requires a > 0 && b > 0 && a' * b' >= a * b
    ensures a' <= a ==> b' >= b
    ensures a' < a ==> b' > b
  {
    assert a * (b - 1) == a * b - a && (a - 1) * b == a * b - b;
    if a' <= a && b' < b { MulMonotone(a', b', a, b - 1); }
    if a' < a && b' <= b { MulMonotone(a', b', a - 1, b); }
  }

  /** No run of swaps in any directions takes one token out of a pool without leaving more of the other. */
  lemma NoFreeLunch(p: Pool, swaps: seq<Swap>)
    requires p.reserve0 > 0 && p.reserve1 > 0 && SwapAll(p, swaps).Some?
    ensures var q := SwapAll(p, swaps).value;
            && (q.reserve0 <= p.reserve0 ==> q.reserve1 >= p.reserve1)
            && (q.reserve1 <= p.reserve1 ==> q.reserve0 >= p.reserve0)
            && (q.reserve0 < p.reserve0 ==> q.reserve1 > p.reserve1)
            && (q.reserve1 < p.reserve1 ==> q.reserve0 > p.reserve0)
  {
    hide SwapAll;
    ProductNeverFalls(p, swaps);
    var q := SwapAll(p, swaps).value;
    SmallerNeedsLarger(p.reserve0, p.reserve1, q.reserve0, q.reserve1);
    SmallerNeedsLarger(p.reserve1, p.reserve0, q.reserve1, q.reserve0);
  }
}
