/** What a pool needs for quoting, and what a quote returns (crates/strategy-core/src/dex/mod.rs). */
module Pools {
  import opened Common
  import opened Types
  import opened Arith

  datatype PoolLiveState = PoolLiveState(
    kind: PoolKind,
    reserve0: U256,
    reserve1: U256,
    ampCoeff: U128,
    weight0: U256,
    weight1: U256)

  datatype PoolStateAfter =
    | V2After(reserveIn: U256, reserveOut: U256)
    | StableAfter(balance0: U256, balance1: U256)
    | WeightedAfter(balance0: U256, balance1: U256)

  datatype HopQuote = HopQuote(amountOut: U256, stateAfter: PoolStateAfter)

  /** 10000 minus the fee, floored at zero. */
  function FeeFactor(feeBps: nat): (f: nat)
    ensures f <= 10_000
  {
    if feeBps >= 10_000 then 0 else 10_000 - feeBps
  }

  /** The amount less its fee, in exact arithmetic. */
  function AfterFee(amount: nat, feeBps: nat): nat {
    amount * FeeFactor(feeBps) / 10_000
  }

  /** Fees round against the trader: splitting an amount never leaves more after fees. */
  lemma AfterFeeOfSum(a: nat, b: nat, feeBps: nat)
    ensures AfterFee(a, feeBps) + AfterFee(b, feeBps) <= AfterFee(a + b, feeBps)
    ensures AfterFee(a, feeBps) <= a
  {
    var f := FeeFactor(feeBps);
    MulMono(f, 10_000, a);
    assert (a + b) * f == a * f + b * f;
    assert a * f == f * a;
  }
}
