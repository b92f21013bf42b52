/** The chained quote simulator (crates/backtest-engine/src/simulator.rs). */
module Simulator {
  import opened Common
  import opened Types
  import opened Arith
  import opened Pools
  import V2
  import Balancer

  /** Where pool states come from, and how the pool kinds outside this model are priced. */
  datatype Venue = Venue(
    states: (nat, Address) -> Option<PoolLiveState>,
    stable: (PoolLiveState, U256, nat) -> Option<HopQuote>,
    concentrated: (PoolLiveState, U256, nat) -> Option<HopQuote>,
    unequalWeights: (PoolLiveState, U256, nat) -> Option<HopQuote>)

  /** Dispatch on the kind of the pool (dex/mod.rs, lines 39-50). */
  function QuoteHop(venue: Venue, pool: PoolRef, state: PoolLiveState, amountIn: U256): Option<HopQuote> {
    match pool.kind
    case V2 => V2.Quote(state, amountIn, pool.feeBps)
    case V3 => venue.concentrated(state, amountIn, pool.feeBps)
    case Stable => venue.stable(state, amountIn, pool.feeBps)
    case Weighted => Balancer.Quote(state, amountIn, pool.feeBps, venue.unequalWeights)
  }

  datatype Reason = MissingState(pool: Address) | QuoteFailed(pool: Address)

  /** The amount after the priced hops, how many were priced, and why pricing stopped, if it did. */
  datatype Priced = Priced(amount: U256, hops: nat, failure: Option<Reason>)

  function PriceRoute(venue: Venue, chainId: nat, hops: seq<Hop>, amount: U256): Priced
    decreases |hops|
  {
    if hops == [] then Priced(amount, 0, None)
    else
      var pool := hops[0].pool;
      match venue.states(chainId, pool.address)
      case None => Priced(amount, 0, Some(MissingState(pool.address)))
      case Some(state) =>
        match QuoteHop(venue, pool, state, amount)
        case None => Priced(amount, 0, Some(QuoteFailed(pool.address)))
        case Some(q) =>
          var rest := PriceRoute(venue, chainId, hops[1..], q.amountOut);
          rest.(hops := rest.hops + 1)
  }

  /** Pricing two stretches one after the other is pricing their concatenation. */
  lemma {:induction false} PriceRouteComposes(venue: Venue, chainId: nat, p: seq<Hop>, q: seq<Hop>, amount: U256)
    ensures
      var first := PriceRoute(venue, chainId, p, amount);
      PriceRoute(venue, chainId, p + q, amount) ==
        if first.failure.Some? then first
        else
          var second := PriceRoute(venue, chainId, q, first.amount);
          second.(hops := first.hops + second.hops)
    ensures PriceRoute(venue, chainId, p, amount).failure.None? ==> PriceRoute(venue, chainId, p, amount).hops == |p|
    decreases |p|
  {
    if p == [] {
      assert p + q == q;
    } else {
      assert (p + q)[1..] == p[1..] + q;
      var pool := p[0].pool;
      match venue.states(chainId, pool.address) {
        case None =>
        case Some(state) =>
          match QuoteHop(venue, pool, state, amount) {
            case None =>
            case Some(quote) => PriceRouteComposes(venue, chainId, p[1..], q, quote.amountOut);
          }
      }
    }
  }

  datatype CapitalSource = VaultCapital | FlashLoanAave | FlashLoanBalancer | FlashSwapUniswapV2 | FlashSwapUniswapV3

  function Premium(source: CapitalSource, principal: U256): U256 {
    match source
    case FlashLoanAave => Wrap(Div(Wrap(principal * 9), 10_000) + 1)
    case FlashSwapUniswapV2 => Div(Wrap(principal * 30), 10_000)
    case _ => 0
  }

  const GAS_PER_HOP: nat := 65_000

  datatype BalanceDelta = BalanceDelta(token: Address, delta: U256, positive: bool)

  datatype SimulationResult = SimulationResult(
    success: bool,
    chainId: nat,
    blockNumber: nat,
    gasUsed: nat,
    balanceDeltas: seq<BalanceDelta>,
    netProfit: U256,
    failure: Option<Reason>,
    traceUri: Option<string>)

  /** What the code subtracts from the final amount, with wrap-around. */
  function LeftOver(amount: U256, capital: U256, premium: U256): U256 {
    if amount > Wrap(capital + premium) then Wrap(Wrap(amount - capital) - premium) else 0
  }

  function BookedProfit(source: CapitalSource, capital: U256, priced: Priced): U256 {
    if priced.failure.None? then LeftOver(priced.amount, capital, Premium(source, capital)) else 0
  }

  function EntryToken(route: Route): Address {
    if route.hops == [] then "" else route.hops[0].tokenIn
  }

  /** The whole record of a simulated plan. */
  function Simulated(venue: Venue, chainId: nat, route: Route, source: CapitalSource, capital: U256): SimulationResult {
    var priced := PriceRoute(venue, chainId, route.hops, capital);
    var profit := BookedProfit(source, capital, priced);
    SimulationResult(priced.failure.None?, chainId, 0, GAS_PER_HOP * priced.hops,
                     [BalanceDelta(EntryToken(route), profit, profit > 0)], profit, priced.failure, None)
  }

  /** What is owed after a successful route, in exact arithmetic. */
  function Owed(source: CapitalSource, capital: nat): nat {
    capital + match source
              case FlashLoanAave => Div(capital * 9, 10_000) + 1
              case FlashSwapUniswapV2 => Div(capital * 30, 10_000)
              case _ => 0
  }

  /** Nothing in the premium or in the amount owed overflows. */
  ghost predicate OwedFits(source: CapitalSource, capital: nat) {
    && (source.FlashLoanAave? ==> capital * 9 < WORD)
    && (source.FlashSwapUniswapV2? ==> capital * 30 < WORD)
    && Owed(source, capital) < WORD
  }

  /** The booked profit is what is left of the final amount after what is owed, if anything; a failed
      route books none. */
  lemma ProfitIsExact(source: CapitalSource, capital: U256, priced: Priced)
    requires OwedFits(source, capital)
    ensures BookedProfit(source, capital, priced)
         == if priced.failure.None? && priced.amount > Owed(source, capital)
            then priced.amount - Owed(source, capital) else 0
  {
  }

  /** The loop computes the composed quotes. */
  method PriceHops(venue: Venue, chainId: nat, hops: seq<Hop>, capital: U256)
    returns (amountIn: U256, gasTotal: nat, failed: Option<Reason>)
    ensures var priced := PriceRoute(venue, chainId, hops, capital);
      amountIn == priced.amount && gasTotal == GAS_PER_HOP * priced.hops && failed == priced.failure
  {
    amountIn := capital;
    gasTotal := 0;
    failed := None;
    ghost var goal := PriceRoute(venue, chainId, hops, capital);
    for i := 0 to |hops|
      invariant gasTotal == GAS_PER_HOP * i && failed.None?
      invariant Advanced(PriceRoute(venue, chainId, hops[i..], amountIn), i) == goal
    {
      assert hops[i..][1..] == hops[i + 1..];
      var pool := hops[i].pool;
      var state := venue.states(chainId, pool.address);
      if state.None? {
        failed := Some(MissingState(pool.address));
        break;
      }
      var q := QuoteHop(venue, pool, state.value, amountIn);
      if q.None? {
        failed := Some(QuoteFailed(pool.address));
        break;
      }
      amountIn := q.value.amountOut;
      gasTotal := gasTotal + GAS_PER_HOP;
    }
  }

  function Advanced(p: Priced, n: nat): Priced {
    p.(hops := p.hops + n)
  }

  // ----- the simulation, hop by hop -----

  /** What the pool of `hop` answers for `amountIn`, by its kind; none without a state. */
  ghost predicate Answers(venue: Venue, chainId: nat, hop: Hop, amountIn: U256, q: Option<HopQuote>) {
    match venue.states(chainId, hop.pool.address)
    case None => q == None
    case Some(state) =>
      match hop.pool.kind
      case V2 => q == V2.Quote(state, amountIn, hop.pool.feeBps)
      case V3 => q == venue.concentrated(state, amountIn, hop.pool.feeBps)
      case Stable => q == venue.stable(state, amountIn, hop.pool.feeBps)
      case Weighted => q == Balancer.Quote(state, amountIn, hop.pool.feeBps, venue.unequalWeights)
  }

  /** `hop` turns `amountIn` into `amountOut`. */
  ghost predicate Pays(venue: Venue, chainId: nat, hop: Hop, amountIn: U256, amountOut: U256) {
    exists q: HopQuote :: Answers(venue, chainId, hop, amountIn, Some(q)) && q.amountOut == amountOut
  }

  /** The amounts before each hop and after the last, when the first |amounts| - 1 hops are priced one
      after the other. */
  ghost predicate Chained(venue: Venue, chainId: nat, hops: seq<Hop>, capital: U256, amounts: seq<U256>) {
    && 1 <= |amounts| <= |hops| + 1 && amounts[0] == capital
    && forall i :: 0 <= i < |amounts| - 1 ==> Pays(venue, chainId, hops[i], amounts[i], amounts[i + 1])
  }

  /** Why a hop cannot be priced. */
  ghost predicate FailsWith(venue: Venue, chainId: nat, hop: Hop, amountIn: U256, reason: Reason) {
    && Answers(venue, chainId, hop, amountIn, None)
    && reason == (if venue.states(chainId, hop.pool.address).None?
                  then MissingState(hop.pool.address) else QuoteFailed(hop.pool.address))
  }

  /** The priced hops are the longest priceable stretch, and the failure is that of the hop after it. */
  ghost predicate PricedAlong(venue: Venue, chainId: nat, hops: seq<Hop>, capital: U256, amounts: seq<U256>,
                              failure: Option<Reason>)
  {
    && Chained(venue, chainId, hops, capital, amounts)
    && match failure
       case None => |amounts| == |hops| + 1
       case Some(reason) =>
         |amounts| <= |hops| && FailsWith(venue, chainId, hops[|amounts| - 1], amounts[|amounts| - 1], reason)
  }

  lemma {:induction false} PricingIsAlong(venue: Venue, chainId: nat, hops: seq<Hop>, capital: U256)
    returns (amounts: seq<U256>)
    ensures var priced := PriceRoute(venue, chainId, hops, capital);
      && PricedAlong(venue, chainId, hops, capital, amounts, priced.failure)
      && |amounts| == priced.hops + 1 && amounts[priced.hops] == priced.amount
    decreases |hops|
  {
    amounts := [capital];
    if hops != [] {
      var pool := hops[0].pool;
      var state := venue.states(chainId, pool.address);
      if state.None? {
        assert Answers(venue, chainId, hops[0], capital, None);
      } else {
        var q := QuoteHop(venue, pool, state.value, capital);
        assert Answers(venue, chainId, hops[0], capital, q);
        if q.Some? {
          var rest := PricingIsAlong(venue, chainId, hops[1..], q.value.amountOut);
          amounts := [capital] + rest;
          OneMoreHop(venue, chainId, hops, capital, rest,
                     PriceRoute(venue, chainId, hops[1..], q.value.amountOut).failure);
        }
      }
    }
  }

  lemma OneMoreHop(venue: Venue, chainId: nat, hops: seq<Hop>, capital: U256, rest: seq<U256>,
                   failure: Option<Reason>)
    requires hops != [] && rest != [] && Pays(venue, chainId, hops[0], capital, rest[0])
    requires PricedAlong(venue, chainId, hops[1..], rest[0], rest, failure)
    ensures PricedAlong(venue, chainId, hops, capital, [capital] + rest, failure)
  {
    var amounts := [capital] + rest;
    forall i | 0 <= i < |amounts| - 1 ensures Pays(venue, chainId, hops[i], amounts[i], amounts[i + 1]) {
      if i > 0 {
        assert hops[i] == hops[1..][i - 1] && amounts[i] == rest[i - 1] && amounts[i + 1] == rest[i];
      }
    }
  }

  /** The record in plain terms: 65000 gas per priced hop, success when every hop was priced, the reason
      of the first that was not, and one delta with the entry token and the net profit, which is the
      final amount less capital and premium if that is positive, and zero otherwise or on failure. */
  ghost predicate Reports(venue: Venue, chainId: nat, route: Route, source: CapitalSource, capital: U256,
                          amounts: seq<U256>, r: SimulationResult)
  {
    && PricedAlong(venue, chainId, route.hops, capital, amounts, r.failure)
    && r.success == r.failure.None?
    && r.chainId == chainId && r.blockNumber == 0 && r.traceUri == None
    && r.gasUsed == 65_000 * (|amounts| - 1)
    && r.balanceDeltas == [BalanceDelta(if route.hops == [] then "" else route.hops[0].tokenIn, r.netProfit,
                                        r.netProfit > 0)]
    && var premium := if source == FlashLoanAave then capital * 9 / 10_000 + 1
                      else if source == FlashSwapUniswapV2 then capital * 30 / 10_000 else 0;
       ((source == FlashLoanAave ==> capital * 9 < WORD) && (source == FlashSwapUniswapV2 ==> capital * 30 < WORD)
        && capital + premium < WORD ==>
          r.netProfit == if r.success && amounts[|amounts| - 1] > capital + premium
                         then amounts[|amounts| - 1] - capital - premium else 0)
  }

  lemma SimulatedReports(venue: Venue, chainId: nat, route: Route, source: CapitalSource, capital: U256)
    returns (amounts: seq<U256>)
    ensures Reports(venue, chainId, route, source, capital, amounts,
                    Simulated(venue, chainId, route, source, capital))
  {
    amounts := PricingIsAlong(venue, chainId, route.hops, capital);
    if OwedFits(source, capital) {
      ProfitIsExact(source, capital, PriceRoute(venue, chainId, route.hops, capital));
    }
  }

  method Simulate(venue: Venue, chainId: nat, route: Route, source: CapitalSource, capital: U256)
    returns (r: SimulationResult)
    ensures r == Simulated(venue, chainId, route, source, capital)
    ensures exists amounts: seq<U256> :: Reports(venue, chainId, route, source, capital, amounts, r)
  {
    var amountIn, gasTotal, failed := PriceHops(venue, chainId, route.hops, capital);
    var premium := Premium(source, capital);
    var netProfit: U256 := 0;
    if failed.None? {
      netProfit := LeftOver(amountIn, capital, premium);
    }
    var entry := if |route.hops| == 0 then "" else route.hops[0].tokenIn;
    r := SimulationResult(failed.None?, chainId, 0, gasTotal, [BalanceDelta(entry, netProfit, netProfit > 0)],
                          netProfit, failed, None);
    ghost var amounts := SimulatedReports(venue, chainId, route, source, capital);
  }

  // ----- more capital never ends with less -----

  /** No intermediate result overflows on this hop. */
  ghost predicate HopFits(pool: PoolRef, state: PoolLiveState, amount: U256) {
    match pool.kind
    case V2 => V2.QuoteFits(state.reserve0, state.reserve1, amount, V2.FeePer1000(pool.feeBps))
    case Weighted => state.weight0 == state.weight1 && Balancer.Fits(state, amount, pool.feeBps)
    case _ => false
  }

  /** Every priced hop of the route is constant-product or equal-weight and does not overflow. */
  ghost predicate RouteFits(venue: Venue, chainId: nat, hops: seq<Hop>, amount: U256)
    decreases |hops|
  {
    if hops == [] then true
    else
      var pool := hops[0].pool;
      match venue.states(chainId, pool.address)
      case None => true
      case Some(state) =>
        && HopFits(pool, state, amount)
        && match QuoteHop(venue, pool, state, amount)
           case None => true
           case Some(q) => RouteFits(venue, chainId, hops[1..], q.amountOut)
  }

  /** q (b + a f) <= a g, with more input on both sides. */
  lemma MoreInputCovers(base: nat, q: nat, f: nat, g: nat, a: nat, b: nat)
    requires base > 0 && a <= b && q * (base + a * f) <= a * g
    ensures q * (base + b * f) <= b * g
  {
    if a == 0 {
      MulGrows(q, base);
      MulNat(b, g);
    } else {
      var u, v := q * base, q * f;
      assert q * (base + a * f) == u + a * v && q * (base + b * f) == u + b * v;
      ScaledUp(u, v, g, a, b);
    }
  }

  lemma ScaledUp(u: nat, v: nat, g: nat, a: nat, b: nat)
    requires 0 < a <= b && u + a * v <= a * g
    ensures u + b * v <= b * g
  {
    var w := g - v;
    assert a * g - a * v == a * w && b * g - b * v == b * w;
    if w < 0 {
      MulMono(w, -1, a);
    } else {
      MulMono(a, b, w);
    }
  }

  lemma SmallerQuoteFits(rin: nat, rout: nat, f: nat, a: nat, b: nat)
    requires f <= 1000 && a <= b && V2.QuoteFits(rin, rout, b, f)
    ensures V2.QuoteFits(rin, rout, a, f)
  {
    MulMono(a, b, f);
    MulMono(a, b, 1000 - f);
    MulMono(Mul(a, 1000 - f), Mul(b, 1000 - f), rout);
  }

  lemma V2Monotone(rin: nat, rout: nat, f: nat, a: nat, b: nat)
    requires rin > 0 && f <= 1000 && a <= b && V2.QuoteFits(rin, rout, b, f)
    ensures V2.QuoteFits(rin, rout, a, f)
    ensures V2.QuoteOut(rin, rout, a, f) <= V2.QuoteOut(rin, rout, b, f)
  {
    SmallerQuoteFits(rin, rout, f, a, b);
    V2OutMonotone(rin * 1000, rout, f, 1000 - f, a, b);
  }

  lemma V2OutMonotone(base: nat, rout: nat, f: nat, kept: nat, a: nat, b: nat)
    requires base > 0 && a <= b
    ensures Div(Mul(Mul(a, kept), rout), base + Mul(a, f)) <= Div(Mul(Mul(b, kept), rout), base + Mul(b, f))
  {
    var q := Div(Mul(Mul(a, kept), rout), base + Mul(a, f));
    Regrouped(a, kept, rout);
    Regrouped(b, kept, rout);
    MoreInputCovers(base, q, f, Mul(kept, rout), a, b);
    FloorReaches(Mul(Mul(b, kept), rout), base + Mul(b, f), q);
  }

  lemma Regrouped(a: nat, kept: nat, rout: nat)
    ensures Mul(Mul(a, kept), rout) == a * Mul(kept, rout)
  {
  }

  lemma AfterFeeMonotone(feeBps: nat, a: nat, b: nat)
    requires a <= b
    ensures Mul(a, FeeFactor(feeBps)) <= Mul(b, FeeFactor(feeBps))
    ensures AfterFee(a, feeBps) <= AfterFee(b, feeBps)
  {
    MulMono(a, b, FeeFactor(feeBps));
    DivMono(a * FeeFactor(feeBps), b * FeeFactor(feeBps), 10_000);
  }

  lemma PaysMonotone(x: nat, y: nat, s: nat, t: nat)
    requires x > 0 && s <= t
    ensures Mul(y, s) <= Mul(y, t)
    ensures Balancer.Pays(x, y, s) <= Balancer.Pays(x, y, t)
  {
    MulMono(s, t, y);
    assert Mul(y, s) == s * y && Mul(y, t) == t * y;
    MoreInputCovers(x, Balancer.Pays(x, y, s), 1, y, s, t);
    FloorReaches(Mul(y, t), x + t, Balancer.Pays(x, y, s));
  }

  lemma WeightedMonotone(state: PoolLiveState, feeBps: nat, a: U256, b: U256)
    requires state.reserve0 > 0 && a <= b && Balancer.Fits(state, b, feeBps)
    ensures Balancer.Fits(state, a, feeBps)
    ensures Balancer.Pays(state.reserve0, state.reserve1, AfterFee(a, feeBps))
         <= Balancer.Pays(state.reserve0, state.reserve1, AfterFee(b, feeBps))
  {
    AfterFeeMonotone(feeBps, a, b);
    PaysMonotone(state.reserve0, state.reserve1, AfterFee(a, feeBps), AfterFee(b, feeBps));
  }

  lemma HopMonotone(venue: Venue, pool: PoolRef, state: PoolLiveState, a: U256, b: U256)
    requires a <= b && HopFits(pool, state, b)
    ensures QuoteHop(venue, pool, state, a).Some? ==>
              && QuoteHop(venue, pool, state, b).Some?
              && QuoteHop(venue, pool, state, a).value.amountOut <= QuoteHop(venue, pool, state, b).value.amountOut
  {
    if state.reserve0 == 0 || state.reserve1 == 0 || a == 0 {
    } else if pool.kind.V2? {
      V2Monotone(state.reserve0, state.reserve1, V2.FeePer1000(pool.feeBps), a, b);
      V2.QuoteIsExact(state, a, pool.feeBps);
      V2.QuoteIsExact(state, b, pool.feeBps);
    } else {
      WeightedMonotone(state, pool.feeBps, a, b);
      Balancer.EqualWeightQuoteIsExact(state, a, pool.feeBps);
      Balancer.EqualWeightQuoteIsExact(state, b, pool.feeBps);
    }
  }

  /** If a constant-product and equal-weight route succeeds for some capital, it succeeds for any
      larger capital that does not overflow, and ends with no less. */
  lemma {:induction false} SimulationMonotone(venue: Venue, chainId: nat, hops: seq<Hop>, a: U256, b: U256)
    requires a <= b && RouteFits(venue, chainId, hops, b)
    requires PriceRoute(venue, chainId, hops, a).failure.None?
    ensures PriceRoute(venue, chainId, hops, b).failure.None?
    ensures PriceRoute(venue, chainId, hops, a).amount <= PriceRoute(venue, chainId, hops, b).amount
    decreases |hops|
  {
    if hops != [] {
      var pool := hops[0].pool;
      var state := venue.states(chainId, pool.address).value;
      HopMonotone(venue, pool, state, a, b);
      SimulationMonotone(venue, chainId, hops[1..],
                         QuoteHop(venue, pool, state, a).value.amountOut,
                         QuoteHop(venue, pool, state, b).value.amountOut);
    }
  }

  // ----- overflow -----

  lemma WordsLess(k: nat) returns (less: nat)
    requires k > 0
    ensures less == (k - 1) * WORD && k * WORD == less + WORD
  {
    MulNat(k - 1, WORD);
    less := (k - 1) * WORD;
    Distributes(k - 1, 1, WORD);
  }

  lemma {:induction false} WrapManyWords(k: nat, x: nat)
    ensures Wrap(k * WORD + x) == Wrap(x)
  {
    if k > 0 {
      WrapManyWords(k - 1, x);
      var less := WordsLess(k);
      WrapWholeWord(less + x);
    }
  }

  /** The reserves (1, 8) at no fee pay 8 times the input, but an input of 2^250 makes the numerator
      wrap to zero, and nothing is paid. */
  lemma OverflowingQuotePaysNothing(state: PoolLiveState, huge: U256)
    requires state.reserve0 == 1 && state.reserve1 == 8 && 64 * huge == WORD
    ensures V2.Quote(state, huge, 0).Some? && V2.Quote(state, huge, 0).value.amountOut == 0
    ensures V2.Quote(state, 1_000_000, 0).Some? && V2.Quote(state, 1_000_000, 0).value.amountOut == 8_000_000
  {
    WrapManyWords(15, 40 * huge);
    assert huge * 1000 == 15 * WORD + 40 * huge;
    WrapManyWords(5, 0);
    assert (40 * huge) * 8 == 5 * WORD;
  }

  /** Without the overflow condition more capital can end with nothing: one constant-product hop, and
      capital of 10^6 against 2^250. */
  lemma OverflowBreaksMonotonicity(n: nat) returns (venue: Venue, hops: seq<Hop>, huge: U256)
    requires n == 250
    ensures huge == Pow2(n) >= 1_000_000
    ensures PriceRoute(venue, 1, hops, 1_000_000).failure.None? && PriceRoute(venue, 1, hops, huge).failure.None?
    ensures PriceRoute(venue, 1, hops, 1_000_000).amount == 8_000_000 && PriceRoute(venue, 1, hops, huge).amount == 0
  {
    huge := SixtyFourthOfWord(n);
    var state := PoolLiveState(V2, 1, 8, 0, 0, 0);
    var none: (PoolLiveState, U256, nat) -> Option<HopQuote> := (s, a, f) => None;
    venue := Venue((chain, address) => Some(state), none, none, none);
    var pool := PoolRef(1, "pool", V2, "a", "b", 0);
    hops := [Hop(pool, "a", "b", true)];
    OverflowingQuotePaysNothing(state, huge);
    OneHop(venue, hops, 1_000_000);
    OneHop(venue, hops, huge);
  }

  lemma SixtyFourthOfWord(n: nat) returns (huge: U256)
    requires n == 250
    ensures huge == Pow2(n) >= 1_000_000 && 64 * huge == WORD
  {
    WordIsPow2(n + 6);
    assert Pow2(n + 6) == 2 * Pow2(n + 5) && Pow2(n + 5) == 2 * Pow2(n + 4) && Pow2(n + 4) == 2 * Pow2(n + 3);
    assert Pow2(n + 3) == 2 * Pow2(n + 2) && Pow2(n + 2) == 2 * Pow2(n + 1) && Pow2(n + 1) == 2 * Pow2(n);
    huge := Pow2(n);
  }

  lemma OneHop(venue: Venue, hops: seq<Hop>, amount: U256)
    requires |hops| == 1 && hops[0].pool.kind.V2? && hops[0].pool.feeBps == 0
    requires venue.states(1, hops[0].pool.address).Some?
    requires V2.Quote(venue.states(1, hops[0].pool.address).value, amount, 0).Some?
    ensures PriceRoute(venue, 1, hops, amount).failure.None?
    ensures PriceRoute(venue, 1, hops, amount).amount
         == V2.Quote(venue.states(1, hops[0].pool.address).value, amount, 0).value.amountOut
  {
    assert hops[1..] == [];
  }
}
