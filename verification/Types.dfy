/** Shared values of the multi-hop search (src/arbitrage/types.rs). */
module Types {

  /** A 32-byte key. Its byte-wise order is the order of the number it spells. */
  type Pubkey = nat

  datatype DexType = RaydiumAmmV4 | RaydiumCpmm | Orca | MeteoraDlmm | MeteoraCpmm | PumpSwapAmm

  /** One pool, an undirected edge between two mints. */
  datatype PoolEdge = PoolEdge(
    poolAddress: Pubkey, dex: DexType, mintA: Pubkey, mintB: Pubkey,
    liquidityUsd: real, feeBps: nat, updatedAt: nat)

  predicate Joins(e: PoolEdge, a: Pubkey, b: Pubkey) {
    (e.mintA == a && e.mintB == b) || (e.mintA == b && e.mintB == a)
  }

  /** Descending liquidity, the order of every pool list. */
  predicate MoreLiquid(a: PoolEdge, b: PoolEdge) {
    a.liquidityUsd >= b.liquidityUsd
  }
}
