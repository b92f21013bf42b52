/** Equal-weight Balancer pools (crates/strategy-core/src/dex/balancer.rs, lines 19-46). */
module Balancer {
  import opened Common
  import opened Arith
  import opened Pools

  /** `general` stands for the branch with unequal weights. */
  function Quote(state: PoolLiveState, amountIn: U256, feeBps: nat,
                 general: (PoolLiveState, U256, nat) -> Option<HopQuote>): Option<HopQuote>
  {
    if state.reserve0 == 0 || state.reserve1 == 0 || amountIn == 0 || state.weight1 == 0 then None
    else if state.weight0 == state.weight1 then EqualWeightQuote(state, amountIn, feeBps)
    else general(state, amountIn, feeBps)
  }

  function EqualWeightQuote(state: PoolLiveState, amountIn: U256, feeBps: nat): Option<HopQuote> {
    var (b0, b1) := (state.reserve0, state.reserve1);
    var net := Div(Wrap(Mul(amountIn, FeeFactor(feeBps))), 10_000);
    var num := Wrap(Mul(b1, net));
    var denom := Wrap(b0 + net);
    if denom == 0 then None
    else
      var out := Div(num, denom);
      Some(HopQuote(out, WeightedAfter(Wrap(b0 + net), if out <= b1 then b1 - out else 0)))
  }

  // ----- exact form -----

  /** What a pool with balances (x, y) pays for `net` after-fee units of x. */
  function Pays(x: nat, y: nat, net: nat): nat
    requires x > 0
  {
    Div(Mul(y, net), x + net)
  }

  ghost predicate Fits(state: PoolLiveState, amountIn: U256, feeBps: nat) {
    && Mul(amountIn, FeeFactor(feeBps)) < WORD
    && Mul(state.reserve1, AfterFee(amountIn, feeBps)) < WORD
    && state.reserve0 + AfterFee(amountIn, feeBps) < WORD
  }

  lemma EqualWeightQuoteIsExact(state: PoolLiveState, amountIn: U256, feeBps: nat)
    requires state.reserve0 > 0 && Fits(state, amountIn, feeBps)
    ensures
      var net := AfterFee(amountIn, feeBps);
      var out := Pays(state.reserve0, state.reserve1, net);
      && out <= state.reserve1
      && EqualWeightQuote(state, amountIn, feeBps)
           == Some(HopQuote(out, WeightedAfter(state.reserve0 + net, state.reserve1 - out)))
  {
    PaysKeepsProduct(state.reserve0, state.reserve1, AfterFee(amountIn, feeBps));
  }

  lemma PaysKeepsProduct(x: nat, y: nat, net: nat)
    requires x > 0
    ensures Pays(x, y, net) <= y
    ensures y > 0 ==> Pays(x, y, net) < y
    ensures (x + net) * (y - Pays(x, y, net)) >= x * y
  {
    var out := Pays(x, y, net);
    assert (x + net) * (y - out) == x * y + y * net - out * (x + net);
    assert y * (x + net) == x * y + y * net;
    MulMono(0, x, y);
    if y > 0 {
      MulStrictMono(0, x, y);
    }
    if out > y || (y > 0 && out == y) {
      MulMono(y, out, x + net);
    }
  }

  /** The equal-weight quote in plain arithmetic: what it pays and books, and when it refuses. */
  lemma QuotePaysExactly(state: PoolLiveState, amountIn: U256, feeBps: nat,
                         general: (PoolLiveState, U256, nat) -> Option<HopQuote>, net: nat)
    requires net == amountIn * (10_000 - (if feeBps < 10_000 then feeBps else 10_000)) / 10_000
    requires amountIn * (10_000 - (if feeBps < 10_000 then feeBps else 10_000)) < WORD
    requires state.weight0 == state.weight1 && state.reserve1 * net < WORD && state.reserve0 + net < WORD
    ensures Quote(state, amountIn, feeBps, general).None? <==>
              state.reserve0 == 0 || state.reserve1 == 0 || amountIn == 0 || state.weight1 == 0
    ensures Quote(state, amountIn, feeBps, general).Some? ==>
      var q := Quote(state, amountIn, feeBps, general).value;
      && state.reserve0 + net > 0
      && q.amountOut == state.reserve1 * net / (state.reserve0 + net) <= state.reserve1
      && q.stateAfter.WeightedAfter?
      && q.stateAfter.balance0 == state.reserve0 + net && q.stateAfter.balance1 == state.reserve1 - q.amountOut
  {
    if state.reserve0 > 0 && state.reserve1 > 0 && amountIn > 0 {
      assert AfterFee(amountIn, feeBps) == net;
      EqualWeightQuoteIsExact(state, amountIn, feeBps);
    }
  }

  /** With unequal weights the other branch answers, behind the same screen. */
  lemma UnequalWeightsGoElsewhere(state: PoolLiveState, amountIn: U256, feeBps: nat,
                                  general: (PoolLiveState, U256, nat) -> Option<HopQuote>)
    requires state.weight0 != state.weight1
    ensures Quote(state, amountIn, feeBps, general)
         == if state.reserve0 == 0 || state.reserve1 == 0 || amountIn == 0 || state.weight1 == 0 then None
            else general(state, amountIn, feeBps)
  {
  }

  // ----- chained swaps in either direction -----

  datatype Balances = Balances(b0: nat, b1: nat)

  datatype Swap = Swap(zeroForOne: bool, amountIn: nat)

  /** What the trader holds of each token beyond the start; negative when behind. */
  datatype Position = Position(net0: int, net1: int)

  datatype Book = Book(pool: Balances, trader: Position)

  /** One swap on the balances the previous swap left.  No quote, no trade. */
  function Trade(k: Book, s: Swap, feeBps: nat): Book {
    var Balances(b0, b1) := k.pool;
    if b0 == 0 || b1 == 0 || s.amountIn == 0 then k
    else
      var net := AfterFee(s.amountIn, feeBps);
      if s.zeroForOne then
        var out := Pays(b0, b1, net);
        PaysKeepsProduct(b0, b1, net);
        Book(Balances(b0 + net, b1 - out), Position(k.trader.net0 - s.amountIn, k.trader.net1 + out))
      else
        var out := Pays(b1, b0, net);
        PaysKeepsProduct(b1, b0, net);
        Book(Balances(b0 - out, b1 + net), Position(k.trader.net0 + out, k.trader.net1 - s.amountIn))
  }

  /** One swap in plain arithmetic: the pool takes the after-fee input, the trader gives the whole input,
      and the payment moves between them; an empty side or input trades nothing. */
  lemma TradeMovesExactly(k: Book, s: Swap, feeBps: nat, net: nat)
    requires net == s.amountIn * (10_000 - (if feeBps < 10_000 then feeBps else 10_000)) / 10_000
    ensures
      var (b0, b1, after) := (k.pool.b0, k.pool.b1, Trade(k, s, feeBps));
      if b0 == 0 || b1 == 0 || s.amountIn == 0 then after == k
      else if s.zeroForOne then
        && after.pool.b0 == b0 + net && after.pool.b1 == b1 - b1 * net / (b0 + net)
        && after.trader.net0 == k.trader.net0 - s.amountIn
        && after.trader.net1 == k.trader.net1 + b1 * net / (b0 + net)
      else
        && after.pool.b1 == b1 + net && after.pool.b0 == b0 - b0 * net / (b1 + net)
        && after.trader.net1 == k.trader.net1 - s.amountIn
        && after.trader.net0 == k.trader.net0 + b0 * net / (b1 + net)
  {
    assert AfterFee(s.amountIn, feeBps) == net;
  }

  function Trades(k: Book, swaps: seq<Swap>, feeBps: nat): Book
    decreases |swaps|
  {
    if swaps == [] then k else Trades(Trade(k, swaps[0], feeBps), swaps[1..], feeBps)
  }

  ghost predicate NoLossToPool(before: Book, after: Book) {
    && before.pool.b0 * before.pool.b1 <= after.pool.b0 * after.pool.b1
    && after.trader.net0 + after.pool.b0 <= before.trader.net0 + before.pool.b0
    && after.trader.net1 + after.pool.b1 <= before.trader.net1 + before.pool.b1
  }

  lemma TradeIsNoLoss(k: Book, s: Swap, feeBps: nat)
    ensures NoLossToPool(k, Trade(k, s, feeBps))
  {
    var Balances(b0, b1) := k.pool;
    if b0 > 0 && b1 > 0 {
      var net := AfterFee(s.amountIn, feeBps);
      AfterFeeOfSum(s.amountIn, 0, feeBps);
      if s.zeroForOne {
        PaysKeepsProduct(b0, b1, net);
      } else {
        PaysKeepsProduct(b1, b0, net);
        assert b1 * b0 == b0 * b1;
        assert (b1 + net) * (b0 - Pays(b1, b0, net)) == (b0 - Pays(b1, b0, net)) * (b1 + net);
      }
    }
  }

  /** No chain of swaps in either direction lowers the product of balances. */
  lemma {:induction false} TradesAreNoLoss(k: Book, swaps: seq<Swap>, feeBps: nat)
    ensures NoLossToPool(k, Trades(k, swaps, feeBps))
    decreases |swaps|
  {
    if swaps != [] {
      TradeIsNoLoss(k, swaps[0], feeBps);
      TradesAreNoLoss(Trade(k, swaps[0], feeBps), swaps[1..], feeBps);
    }
  }

  /** No chain of swaps leaves the trader ahead in one token without being behind in the other. */
  lemma NoFreeLunch(pool: Balances, swaps: seq<Swap>, feeBps: nat)
    requires pool.b0 > 0 && pool.b1 > 0
    ensures
      var after := Trades(Book(pool, Position(0, 0)), swaps, feeBps);
      && after.pool.b0 * after.pool.b1 >= pool.b0 * pool.b1
      && (after.trader.net0 > 0 ==> after.trader.net1 < 0)
      && (after.trader.net1 > 0 ==> after.trader.net0 < 0)
  {
    TradesAreNoLoss(Book(pool, Position(0, 0)), swaps, feeBps);
    var after := Trades(Book(pool, Position(0, 0)), swaps, feeBps).pool;
    ProductDecides(after.b0, after.b1, pool.b0, pool.b1);
    assert after.b1 * after.b0 == after.b0 * after.b1 && pool.b1 * pool.b0 == pool.b0 * pool.b1;
    ProductDecides(after.b1, after.b0, pool.b1, pool.b0);
  }

  lemma ProductDecides(a: nat, b: nat, x: nat, y: nat)
    requires a * b >= x * y && x > 0 && y > 0
    ensures a < x ==> b > y
  {
    if a < x && b <= y {
      SmallerProduct(a, b, x, y);
    }
  }

  lemma SmallerProduct(a: nat, b: nat, x: nat, y: nat)
    requires a < x && b <= y && y > 0
    ensures a * b < x * y
  {
    MulMono(b, y, a);
    MulStrictMono(a, x, y);
    assert b * a == a * b && y * a == a * y;
  }

  // ----- the same swaps through the quotes themselves -----

  /** A quoted pool and its trader; every swap is a quote, and the pool takes the balances it books. */
  datatype QuotedBook = QuotedBook(pool: PoolLiveState, trader: Position)

  datatype QuotedSwap = QuotedSwap(zeroForOne: bool, amountIn: U256)

  /** The pool as seen by a swap in the given direction. */
  function Facing(state: PoolLiveState, zeroForOne: bool): PoolLiveState {
    if zeroForOne then state
    else state.(reserve0 := state.reserve1, reserve1 := state.reserve0, weight0 := state.weight1,
                weight1 := state.weight0)
  }

  function QuotedTrade(k: QuotedBook, s: QuotedSwap, feeBps: nat): QuotedBook {
    var before := Facing(k.pool, s.zeroForOne);
    if before.weight0 != before.weight1 then k
    else match Quote(before, s.amountIn, feeBps, (state, amount, fee) => None)
      case None => k
      case Some(q) =>
        var after := before.(reserve0 := q.stateAfter.balance0, reserve1 := q.stateAfter.balance1);
        if s.zeroForOne then
          QuotedBook(after, Position(k.trader.net0 - s.amountIn, k.trader.net1 + q.amountOut))
        else
          QuotedBook(Facing(after, false), Position(k.trader.net0 + q.amountOut, k.trader.net1 - s.amountIn))
  }

  function QuotedTrades(k: QuotedBook, swaps: seq<QuotedSwap>, feeBps: nat): QuotedBook
    decreases |swaps|
  {
    if swaps == [] then k else QuotedTrades(QuotedTrade(k, swaps[0], feeBps), swaps[1..], feeBps)
  }

  /** No quote of the chain overflows. */
  ghost predicate ChainFits(k: QuotedBook, swaps: seq<QuotedSwap>, feeBps: nat)
    decreases |swaps|
  {
    swaps == [] ||
    (Fits(Facing(k.pool, swaps[0].zeroForOne), swaps[0].amountIn, feeBps)
     && ChainFits(QuotedTrade(k, swaps[0], feeBps), swaps[1..], feeBps))
  }

  /** A live equal-weight pool. */
  predicate EqualWeights(state: PoolLiveState) {
    state.reserve0 > 0 && state.reserve1 > 0 && state.weight0 == state.weight1 && state.weight1 > 0
  }

  function Exactly(k: QuotedBook): Book {
    Book(Balances(k.pool.reserve0, k.pool.reserve1), k.trader)
  }

  function ExactSwaps(swaps: seq<QuotedSwap>): (exact: seq<Swap>)
    ensures |exact| == |swaps|
  {
    seq(|swaps|, i requires 0 <= i < |swaps| => Swap(swaps[i].zeroForOne, swaps[i].amountIn))
  }

  /** A quote that fits books exactly the balances of the exact swap, in either direction. */
  lemma QuotedTradeIsTrade(k: QuotedBook, s: QuotedSwap, feeBps: nat)
    requires EqualWeights(k.pool) && Fits(Facing(k.pool, s.zeroForOne), s.amountIn, feeBps)
    ensures Exactly(QuotedTrade(k, s, feeBps)) == Trade(Exactly(k), Swap(s.zeroForOne, s.amountIn), feeBps)
    ensures EqualWeights(QuotedTrade(k, s, feeBps).pool)
  {
    var before := Facing(k.pool, s.zeroForOne);
    EqualWeightQuoteIsExact(before, s.amountIn, feeBps);
    PaysKeepsProduct(before.reserve0, before.reserve1, AfterFee(s.amountIn, feeBps));
  }

  lemma {:induction false} QuotedTradesAreTrades(k: QuotedBook, swaps: seq<QuotedSwap>, feeBps: nat)
    requires EqualWeights(k.pool) && ChainFits(k, swaps, feeBps)
    ensures Exactly(QuotedTrades(k, swaps, feeBps)) == Trades(Exactly(k), ExactSwaps(swaps), feeBps)
    decreases |swaps|
  {
    if swaps != [] {
      QuotedTradeIsTrade(k, swaps[0], feeBps);
      assert ExactSwaps(swaps)[1..] == ExactSwaps(swaps[1..]);
      QuotedTradesAreTrades(QuotedTrade(k, swaps[0], feeBps), swaps[1..], feeBps);
    }
  }

  /** Quotes chained through the balances they book, in 256-bit words, give no free lunch either. */
  lemma QuotesGiveNoFreeLunch(pool: PoolLiveState, swaps: seq<QuotedSwap>, feeBps: nat)
    requires EqualWeights(pool) && ChainFits(QuotedBook(pool, Position(0, 0)), swaps, feeBps)
    ensures
      var after := QuotedTrades(QuotedBook(pool, Position(0, 0)), swaps, feeBps);
      && after.pool.reserve0 * after.pool.reserve1 >= pool.reserve0 * pool.reserve1
      && (after.trader.net0 > 0 ==> after.trader.net1 < 0)
      && (after.trader.net1 > 0 ==> after.trader.net0 < 0)
  {
    QuotedTradesAreTrades(QuotedBook(pool, Position(0, 0)), swaps, feeBps);
    NoFreeLunch(Balances(pool.reserve0, pool.reserve1), ExactSwaps(swaps), feeBps);
  }

  // ----- splitting -----

  function Sum(amounts: seq<nat>): nat {
    if amounts == [] then 0 else amounts[0] + Sum(amounts[1..])
  }

  /** The total paid for a list of inputs in one direction, each on the balances the last one left. */
  function PaidInParts(b: Balances, amounts: seq<nat>, feeBps: nat): nat
    requires b.b0 > 0
    decreases |amounts|
  {
    if amounts == [] then 0
    else
      var net := AfterFee(amounts[0], feeBps);
      var out := Pays(b.b0, b.b1, net);
      PaysKeepsProduct(b.b0, b.b1, net);
      out + PaidInParts(Balances(b.b0 + net, b.b1 - out), amounts[1..], feeBps)
  }

  /** Swapping a sum in one go pays at least as much as swapping it in any parts. */
  lemma SplittingNeverPays(b: Balances, amounts: seq<nat>, feeBps: nat)
    requires b.b0 > 0
    ensures PaidInParts(b, amounts, feeBps) <= Pays(b.b0, b.b1, AfterFee(Sum(amounts), feeBps))
  {
    var s := PartsKeepProduct(b, amounts, feeBps);
    var t, total := AfterFee(Sum(amounts), feeBps), PaidInParts(b, amounts, feeBps);
    LargerInputCovers(b.b0, b.b1, s, t, total);
    FloorReaches(Mul(b.b1, t), b.b0 + t, total);
  }

  /** After all parts the product still holds, with the summed after-fee inputs on one side. */
  lemma {:induction false} PartsKeepProduct(b: Balances, amounts: seq<nat>, feeBps: nat) returns (s: nat)
    requires b.b0 > 0
    ensures s <= AfterFee(Sum(amounts), feeBps)
    ensures PaidInParts(b, amounts, feeBps) <= b.b1
    ensures (b.b0 + s) * (b.b1 - PaidInParts(b, amounts, feeBps)) >= b.b0 * b.b1
    decreases |amounts|
  {
    if amounts == [] {
      s := 0;
    } else {
      var net := AfterFee(amounts[0], feeBps);
      var out := Pays(b.b0, b.b1, net);
      PaysKeepsProduct(b.b0, b.b1, net);
      var next := Balances(b.b0 + net, b.b1 - out);
      var rest := PartsKeepProduct(next, amounts[1..], feeBps);
      AfterFeeOfSum(amounts[0], Sum(amounts[1..]), feeBps);
      s := net + rest;
      var left := b.b1 - PaidInParts(b, amounts, feeBps);
      assert left == next.b1 - PaidInParts(next, amounts[1..], feeBps);
      assert b.b0 + s == next.b0 + rest;
    }
  }

  lemma LargerInputCovers(x: nat, y: nat, s: nat, t: nat, total: nat)
    requires s <= t && total <= y && (x + s) * (y - total) >= x * y
    ensures total * (x + t) <= y * t
  {
    assert (x + s) * (y - total) == x * y + y * s - total * (x + s);
    MulMono(total, y, t - s);
    assert total * (x + t) == total * (x + s) + total * (t - s);
    assert y * t == y * s + y * (t - s);
  }

  function OneWay(amounts: seq<nat>): (swaps: seq<Swap>)
    ensures |swaps| == |amounts|
  {
    seq(|amounts|, i requires 0 <= i < |amounts| => Swap(true, amounts[i]))
  }

  /** Paid in parts is what the trader receives from the chained swaps themselves. */
  lemma {:induction false} PartsAreTrades(k: Book, amounts: seq<nat>, feeBps: nat)
    requires k.pool.b0 > 0 && k.pool.b1 > 0
    ensures Trades(k, OneWay(amounts), feeBps).trader.net1 == k.trader.net1 + PaidInParts(k.pool, amounts, feeBps)
    decreases |amounts|
  {
    if amounts != [] {
      var net := AfterFee(amounts[0], feeBps);
      PaysKeepsProduct(k.pool.b0, k.pool.b1, net);
      assert OneWay(amounts)[1..] == OneWay(amounts[1..]);
      if amounts[0] == 0 {
        assert net == 0 && Pays(k.pool.b0, k.pool.b1, net) == 0;
      }
      PartsAreTrades(Trade(k, Swap(true, amounts[0]), feeBps), amounts[1..], feeBps);
    }
  }
}
