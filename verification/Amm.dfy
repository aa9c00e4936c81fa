/** Constant-product swap arithmetic: `uniswap_v2_get_amount_out`. */
module Amm {
  import opened Wrappers
  import opened Arithmetic
  import opened Numbers

  function CheckedMul(a: nat, b: nat): Option<nat> {
    if a * b < U256_LIMIT then Some(a * b) else None
  }

  function CheckedAdd(a: nat, b: nat): Option<nat> {
    if a + b < U256_LIMIT then Some(a + b) else None
  }

  function CheckedDiv(a: nat, b: nat): Option<nat> {
    if b == 0 then None else Some(a / b)
  }

  /** The amount out; `None` stands for a panic (overflow, or division by zero). */
  function GetAmountOut(amountIn: nat, reserveIn: nat, reserveOut: nat): Option<nat> {
    match CheckedMul(amountIn, 997)
    case None => None
    case Some(withFee) =>
      match CheckedMul(withFee, reserveOut)
      case None => None
      case Some(numerator) =>
        match CheckedMul(reserveIn, 1000)
        case None => None
        case Some(scaled) =>
          match CheckedAdd(scaled, withFee)
          case None => None
          case Some(denominator) => CheckedDiv(numerator, denominator)
  }

  datatype Hop = Hop(reserveIn: nat, reserveOut: nat)

  /** What an amount becomes along a route through different pools. */
  function QuoteAlong(hops: seq<Hop>, amountIn: nat): Option<nat> {
    if hops == [] then Some(amountIn)
    else
      var last := hops[|hops| - 1];
      match QuoteAlong(hops[..|hops| - 1], amountIn)
      case None => None
      case Some(x) => GetAmountOut(x, last.reserveIn, last.reserveOut)
  }

  /** The empty route changes nothing, and one more hop is quoted from what the hops before it give. */
  lemma OneMoreHop(hops: seq<Hop>, h: Hop, x: nat)
    ensures QuoteAlong([], x) == Some(x)
    ensures QuoteAlong(hops + [h], x)
         == match QuoteAlong(hops, x) case None => None case Some(y) => GetAmountOut(y, h.reserveIn, h.reserveOut)
  {
    hide GetAmountOut;
    assert (hops + [h])[..|hops|] == hops;
  }

  /**
   * The pool's own acceptance test for a swap (section 3.2.1 of the Uniswap v2 whitepaper), on the balances after it.
   */
  predicate PassesInvariantCheck(amountIn: nat, reserveIn: nat, reserveOut: nat, amountOut: nat) {
    && amountOut <= reserveOut
    && (1000 * (reserveIn + amountIn) - 3 * amountIn) * (1000 * (reserveOut - amountOut))
       >= 1000 * 1000 * (reserveIn * reserveOut)
  }

  /** On uint112 reserves and inputs nothing overflows; a positive reserve keeps the divisor positive. */
  lemma NeverPanics(amountIn: u112, reserveIn: u112, reserveOut: u112)
    requires reserveIn > 0
    ensures GetAmountOut(amountIn, reserveIn, reserveOut).Some?
  {
    MulMonotone(amountIn * 997, reserveOut, 997 * 0x1_0000_0000_0000_0000_0000_0000_0000,
      0x1_0000_0000_0000_0000_0000_0000_0000);
  }

  /** The quotient's two bounds, with the division multiplied out. */
  lemma OutBounds(x: nat, rin: nat, rout: nat)
    requires GetAmountOut(x, rin, rout).Some?
    ensures var out := GetAmountOut(x, rin, rout).value;
            && 1000 * rin + 997 * x > 0
            && out * (1000 * rin + 997 * x) <= 997 * x * rout < (out + 1) * (1000 * rin + 997 * x)
  {
    var n, d := 997 * x * rout, 1000 * rin + 997 * x;
    assert n == (x * 997) * rout && d == rin * 1000 + x * 997;
    DivBounds(n, d);
  }

  lemma StaysBelowReserve(x: nat, rin: nat, rout: nat)
    requires rin > 0 && rout > 0 && GetAmountOut(x, rin, rout).Some?
    ensures GetAmountOut(x, rin, rout).value < rout
  {
    var out, d := GetAmountOut(x, rin, rout).value, 1000 * rin + 997 * x;
    OutBounds(x, rin, rout);
    assert rout * d == 1000 * (rin * rout) + 997 * x * rout;
    assert rin * rout > 0;
    CancelLess(out, rout, d);
  }

  /** An output passes the pool's check exactly when it is at most the computed one. */
  lemma LargestAccepted(x: nat, rin: nat, rout: nat, out: nat)
    requires rin > 0 && GetAmountOut(x, rin, rout).Some?
    ensures PassesInvariantCheck(x, rin, rout, out) <==> out <= GetAmountOut(x, rin, rout).value
  {
    var best, d := GetAmountOut(x, rin, rout).value, 1000 * rin + 997 * x;
    OutBounds(x, rin, rout);
    if out <= best {
      MulMonotone(out, d, best, d);
    } else {
      MulMonotone(best + 1, d, out, d);
    }
    assert out <= best <==> out * d <= 997 * x * rout;
    AcceptanceMultipliedOut(x, rin, rout, out);
  }

  lemma AcceptanceMultipliedOut(x: nat, rin: nat, rout: nat, out: nat)
    requires rin > 0
    ensures PassesInvariantCheck(x, rin, rout, out) <==> out * (1000 * rin + 997 * x) <= 997 * x * rout
  {
    var d := 1000 * rin + 997 * x;
    assert rout * d == 1000 * (rin * rout) + 997 * x * rout;
    if out <= rout {
      assert d * (rout - out) == rout * d - out * d;
      assert d * (1000 * (rout - out)) == 1000 * (d * (rout - out));
      assert 1000 * 1000 * rin * rout == 1000 * (1000 * (rin * rout));
    } else {
      MulMonotone(rout + 1, d, out, d);
      assert (rout + 1) * d == rout * d + d;
    }
  }

  lemma Monotone(x: nat, y: nat, rin: nat, rout: nat)
    requires x <= y && rin > 0
    requires GetAmountOut(x, rin, rout).Some? && GetAmountOut(y, rin, rout).Some?
    ensures GetAmountOut(x, rin, rout).value <= GetAmountOut(y, rin, rout).value
  {
    hide GetAmountOut, PassesInvariantCheck;
    var a := GetAmountOut(x, rin, rout).value;
    OutBounds(x, rin, rout);
    LargestAccepted(x, rin, rout, a);
    AcceptedStaysBelow(x, rin, rout, a);
    StillAccepted(a, x, y, rin, rout);
    AcceptanceMultipliedOut(y, rin, rout, a);
    LargestAccepted(y, rin, rout, a);
  }

  lemma AcceptedStaysBelow(x: nat, rin: nat, rout: nat, out: nat)
    requires PassesInvariantCheck(x, rin, rout, out)
    ensures out <= rout
  {
  }

  lemma StillAccepted(a: nat, x: nat, y: nat, rin: nat, rout: nat)
    requires a <= rout && x <= y && a * (1000 * rin + 997 * x) <= 997 * x * rout
    ensures a * (1000 * rin + 997 * y) <= 997 * y * rout
  {
    MulMonotone(a, 997 * (y - x), rout, 997 * (y - x));
    assert a * (1000 * rin + 997 * y) == a * (1000 * rin + 997 * x) + a * (997 * (y - x));
    assert 997 * y * rout == 997 * x * rout + rout * (997 * (y - x));
  }
}
