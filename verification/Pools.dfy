/** Pool identities and decoded pool states (crates/state). */
module Pools {
  import opened Numbers

  type Address = nat

  datatype PoolKind = UniswapV2 | UniswapV3Fee005 | SushiswapV2

  datatype PoolId = PoolId(kind: PoolKind, address: Address)

  datatype PoolState =
    | UniV2(reserve0: u256, reserve1: u256, blockTimestampLast: nat)
    | UniV3(sqrtPriceX96: u256, tick: int, liquidity: nat)
}
