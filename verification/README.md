# Verified model of the on-chain arbitrage lab

A Dafny model of the parts of the repository that decide money: the cyclic-arbitrage search, the
pool pricing arithmetic, the chained quote simulator, and the share vault with its atomic executor.
`dafny verify dfyconfig.toml` checks the whole project.

| file | what it models |
|---|---|
| `Types.dfy`, `Graph.dfy` | pools, hops, routes; the token graph, its walks and one relaxation run as a function |
| `Relaxation.dfy` | the relaxation loops edge by edge, which that function computes |
| `Walks.dfy`, `Invariants.dfy`, `Completeness.dfy`, `Chains.dfy` | what every relaxation step keeps, what each pass finds, and where predecessor chains lead |
| `SearchTheorems.dfy`, `Rates.dfy` | what a search result says about the market and about its exchange rates |
| `SearchExamples.dfy`, `RingExample.dfy` | two small markets on which the search misleads, and rings too long for it |
| `Ranking.dfy`, `TokenGraph.dfy` | the ranking, and the mutable graph with `find_cycles` in its own loop form |
| `Arith.dfy`, `Pools.dfy`, `V2.dfy`, `Balancer.dfy` | 256-bit words, and the constant-product and equal-weight quotes |
| `Curve.dfy`, `CurveD.dfy`, `CurveY.dfy` | the two guarded integer solvers and the StableSwap quote |
| `CurveQuote.dfy` | the two solvers composed: when the quote solves, falls back, and overpays |
| `Simulator.dfy` | the fold of quotes over a route |
| `Vault.dfy`, `Policy.dfy`, `Executor.dfy` | the contracts as classes, each method tied to a function of the state |
| `VaultCalls.dfy` | what each vault call does to every balance |
| `VaultRuns.dfy`, `ExecutorPolicy.dfy` | price, solvency and policy over every run |

Weights are real numbers; a token absent from `Labels.dist` is at infinity. Rust amounts are words
whose `+`, `-` and `*` wrap modulo 2^256, as the `ruint` operators do; each theorem about exact
arithmetic names the overflow condition it needs. The vault's conversions are those of OpenZeppelin
ERC4626 v5.6.1 with decimals offset 0, in the rounding directions EIP-4626 asks for under "Security
Considerations".

## What the proofs found

- The search reports a profit that may include extra laps through `start`. The reported figure can
  be trusted on every market exactly when `max_hops <= 1`; from two passes on there is a market
  where a losing round trip is reported as a profit that grows with the number of passes.
- For pool addresses without '>' the de-duplication removes a cycle exactly when a kept one uses the same
  pools in the same order; an address with that character could merge cycles over different pools.
- The simple-cycle filter after `reconstruct` never rejects anything: a predecessor chain that
  reaches `start` cannot repeat a token.
- On markets without a negative loop away from `start`, the result is complete for n tokens exactly
  when n <= 17, the length the guard in `reconstruct` can follow: for every larger n there is a ring of n tokens on which a lap
  that gains n - 2 goes unreported. With such a loop, a profitable two-hop cycle can stay unreported for any
  number of passes.
- `compute_d` settles for all non-empty reserves that do not overflow exactly when A is positive.
- The constant term of `newton_y` is right for every pool exactly when the cube of D fits in 256 bits; at
  D = 2^86 the solver finds nothing although its equation has a root between 0 and D. The cube is not all
  that has to fit: the squares of the first two iterates plus the constant term must too. On a pool with
  D <= 4 A x and a fitting 2D + x they do; at x = 1, A = 1, D = 2^84 they do not. Where all fit, `newton_y`
  returns the rounded root of its own equation; one more is possible only on the edge where the constant
  term is one short of the next root.
- The off-chain V2 quote is not the Uniswap formula: it leaves something in the out reserve exactly
  when a(1000 - 2f) < 1000 r, keeps the product for every out reserve exactly when
  a(1000 - 2f) <= f r, and is covered by `get_amount_in` exactly when f <= 500.
- A StableSwap quote in which nothing overflows promises more than the pool holds exactly when the input
  less fee exceeds the out balance and the rounded root of the solved equation is zero or at least that
  balance (off the edge named above): then no solver answer is usable and the fallback pays the input out
  one to one. Reserves of 10 each at A = 10000 quote 100 for an input of 100, and the booked out balance
  wraps round.
- `execute` takes the traded asset from its caller and never compares it with the vault's. An execution keeps
  the share price exactly when the two are equal or the fee on the foreign profit is too small to mint a share;
  an executor holding 1000 of another token can cut what 1000 shares redeem from 1000 to 666.
  Solvency does not depend on this: all claims stay covered and every holder can leave, whatever ran.
- The blacklist covers every token a route touches exactly when each hop's output is among the tokens
  and pools shown to the risk manager; chained routes are of this kind, but chaining is not enforced.

## Where code and comments differ

The model follows the code.

- `graph.rs:66-67` and `graph.rs:89` speak of path length; the loop bounds passes, and relaxation is in
  place. Only the guard at `graph.rs:189` bounds hops. `max_results = 0` still returns one cycle.
- `types.rs:98` describes `zero_for_one` as token1 to token0; `graph.rs:204` sets it when the input is token0.
- `v2.rs:14` puts the after-fee input below the line; `v2.rs:29` puts the fee there. `crates/README.md` calls the V2 math exact.
- `curve.rs:119` and `curve.rs:129` name the StableSwap iteration; the loop solves y^2 + x y = D^3 / (4 A x).
- `simulator.rs:98` says rounded up; one is always added. Pool states are not oriented by hop direction.
- `ArbVault.sol:18-19` and `ArbVault.sol:72` tie redemption to the pause; only deposit and mint check it.
  `ArbVault.sol:29-30` says the fee accrues to all shareholders; it is minted to the fee recipient.
- `RiskManager.sol:10-11` lists loss and per-DEX caps; `checkExecution` enforces neither.

## Model

| member | source | states |
|---|---|---|
| Relaxation.PassesAreTheLoops | crates/strategy-core/src/graph.rs:80-111 | the labels after k passes are those of the three nested loops: start at 0 and the rest unreached, tokens in insertion order, each token's weight read before its edges, each edge lowering its end only if strictly lower |
| Invariants.SoundAtEveryMoment | crates/strategy-core/src/graph.rs:80-111 | at every moment of the relaxation each distance is the weight of a real walk, every predecessor edge is slack, every reached token other than start has a predecessor, and every loop of the predecessor map has negative weight |
| Invariants.LowerKeepsLoops | crates/strategy-core/src/graph.rs:99-104 | one relaxation keeps every predecessor loop negative, including the loops it closes |
| Completeness.PassesBoundWalks | crates/strategy-core/src/graph.rs:90-111 | after k passes no walk of at most k edges from start beats the distances |
| Completeness.QuietPassBoundsAllWalks | crates/strategy-core/src/graph.rs:108-110 | after a pass that changes nothing no walk at all beats the distances |
| Completeness.ClosingTestSeesEveryCycle | crates/strategy-core/src/graph.rs:113-128 | every cycle through start of at most max_hops + 1 edges is bounded below by the closing total at its last token, so a profitable one passes the test |
| RingExample.CompleteExactlyUpToGuard | crates/strategy-core/src/graph.rs:183-192 | on markets of n tokens without a negative loop away from start every profitable cycle within the budget is matched by a report at least as profitable, exactly when n <= 17 |
| RingExample.LongRingIsMissed | crates/strategy-core/src/graph.rs:183-192 | for every n > 17 a ring of n tokens with no negative loop away from start, on which a lap of profit n - 2 is within the budget and nothing is reported |
| Rates.ThresholdMeansProfitRatio | crates/strategy-core/src/graph.rs:49-68 | with weights -ln(rate), a walk weighs less than -ln(ratio) exactly when one unit becomes more than ratio along it |
| SearchTheorems.ProfitableCycleIsReported | crates/strategy-core/src/graph.rs:113-146 | with no negative loop away from start and at most 17 tokens, each profitable cycle within the budget yields a candidate at least as profitable |
| SearchTheorems.TrueProfitBound | crates/strategy-core/src/graph.rs:98-140 | a reported walk weighs at most -log_profit minus the final distance of start; with start never lowered its true profit is at least the reported one and above the threshold |
| SearchTheorems.OnePassIsHonest | crates/strategy-core/src/graph.rs:90-140 | with at most one pass the true profit of every report is at least the reported one |
| SearchExamples.HonestExactlyUpToOnePass | crates/strategy-core/src/graph.rs:66-140 | reports can be trusted on all markets exactly when at most one pass is made |
| SearchExamples.LosingRoundTripIsReported | crates/strategy-core/src/graph.rs:98-140 | for every max_hops of at least 2 a market where a walk of weight +0.5 is reported with profit 2 max_hops - 2.5 |
| SearchExamples.LoopElsewhereHidesCycle | crates/strategy-core/src/graph.rs:183-192 | a market where a cycle of profit 1 is never reported because a heavier loop away from start captures the predecessors |
| SearchTheorems.ArbitrageFreeMarketIsQuiet | crates/strategy-core/src/graph.rs:286-300 | on a market whose simple loops are all non-negative nothing is reported, start stays at 0, and every chain leads back to start |
| SearchTheorems.ReportMeansArbitrage | crates/strategy-core/src/graph.rs:73-165 | a report at a non-negative threshold yields a negative simple loop |
| Chains.ChainExactlyWhen | crates/strategy-core/src/graph.rs:183-192 | the backward walk finds a path within its step limit exactly when it is the predecessor path from start |
| Chains.ReportIsBacked | crates/strategy-core/src/graph.rs:113-146 | a reported route trades hop by hop along a closed walk of the graph through start of 2 to 17 edges, with each edge's own pool, tokens and direction, and its profit exceeds the threshold and is what a walk closed by the last edge gains |
| Chains.ReportedRouteIsSimpleCycle | crates/strategy-core/src/graph.rs:131-141 | every reconstructed route is a connected simple cycle through start of 2 to 17 hops with correct orientation, so the filter never rejects |
| Chains.ChainReachesStart | crates/strategy-core/src/graph.rs:183-192 | with no negative loop away from start every reached token leads back to start in fewer steps than there are tokens |
| SearchTheorems.ResultGuarantees | crates/strategy-core/src/graph.rs:66-72 | the ranked result holds genuine cycles, is empty on an arbitrage-free market at a non-negative threshold, and, if no loop away from start is negative and there are at most 17 tokens, starts with a cycle at least as profitable as every profitable cycle through start within the budget |
| TokenGraph.TokenGraph.FindCycles | crates/strategy-core/src/graph.rs:73-165 | the loops return a ranking of exactly the candidates of the relaxation run: cycles backed by walks of the graph, and for addresses without '>' no two over the same pools and none dropped but for one over its own pools or for a full list; none on an arbitrage-free market at a non-negative threshold, and a best first cycle if no loop away from start is negative and there are at most 17 tokens |
| TokenGraph.TokenGraph.RelaxAll | crates/strategy-core/src/graph.rs:80-111 | the maps hold the labels of all max_hops passes although the loop leaves at the first quiet pass |
| TokenGraph.TokenGraph.RelaxPass | crates/strategy-core/src/graph.rs:91-107 | one pass of the node loop, and the changed flag stays false only if nothing changed |
| TokenGraph.TokenGraph.RelaxEdge | crates/strategy-core/src/graph.rs:99-104 | the two map updates are one relaxation step, and the flag is false only if nothing changed |
| TokenGraph.TokenGraph.RelaxEdges | crates/strategy-core/src/graph.rs:93-105 | the edges of a token are relaxed from the weight read before the loop |
| TokenGraph.TokenGraph.Reconstruct | crates/strategy-core/src/graph.rs:167-223 | the route is the predecessor chain closed by the closing edge, and there is none exactly when start is not reached within 16 steps |
| TokenGraph.TokenGraph.BuildRoute | crates/strategy-core/src/graph.rs:195-222 | the reversed vectors give one oriented hop per edge and the closing hop |
| TokenGraph.TokenGraph.CollectCycles | crates/strategy-core/src/graph.rs:113-147 | exactly the candidates are collected, in whatever order the map is walked |
| TokenGraph.TokenGraph.TryClose | crates/strategy-core/src/graph.rs:123-144 | an edge yields a cycle exactly when it reports one |
| TokenGraph.TokenGraph.AddPool | crates/strategy-core/src/graph.rs:41-57 | the graph gains the pool's two edges, weighing the negated logarithms of the two rates, and its new tokens, and stays well formed |
| Graph.WithPoolAddsItsEdges | crates/strategy-core/src/graph.rs:41-64 | adding a pool adds exactly its two edges and keeps node order |
| Graph.WithPoolAppends | crates/strategy-core/src/graph.rs:41-64 | each direction is appended to its token's list and each new token to the nodes, token0 first, and no other list changes |
| Graph.QuietPassIsFinal | crates/strategy-core/src/graph.rs:108-110 | a pass that changes nothing makes all later passes change nothing |
| Ranking.Rank | crates/strategy-core/src/graph.rs:149-164 | falling profit, at most max(1, max_results) entries, and, for addresses without '>', no two entries over the same pools in the same order, and every dropped candidate matched by an entry over its own pools with no lower profit or by a full list with no lower profit |
| Ranking.SignatureTellsPools | crates/strategy-core/src/graph.rs:154 | for addresses without '>' two routes have the same signature exactly when they use the same pools in the same order |
| Ranking.SeparatorMergesPools | crates/strategy-core/src/graph.rs:154 | two routes over different pools with the same signature, one address containing '>' |
| Ranking.RankingProfitsAreDetermined | crates/strategy-core/src/graph.rs:118-164 | two rankings of the same candidates have the same length and the same profits, whatever the map order |
| Types.Route.IsSimpleCycle | crates/strategy-core/src/types.rs:121-144 | true exactly for routes that return to their entry token and in which no hop but the last ends there or where another such hop ends |
| CurveD.ComputeDConverges | crates/strategy-core/src/dex/curve.rs:70-116 | for non-empty reserves and A >= 1, if no round overflows, the loop leaves through a convergence break |
| CurveD.ComputeDFindsRoot | crates/strategy-core/src/dex/curve.rs:70-116 | the returned D is never missing, at least floor(4AS/(4A+1)), and within two of the positive root of (4A+1)D^2 = 4AS D + 4P |
| CurveD.ModestPoolFits | crates/strategy-core/src/dex/curve.rs:76-90 | no round overflows when 4P and 4AS + 2S fit in a word |
| CurveD.DIsFirstSettledIterate | crates/strategy-core/src/dex/curve.rs:70-116 | if no round overflows, the result is the first iterate from S that moved by at most 1, under D -> (4A S + floor(4P / D)) / (4A + 1) rounded down |
| CurveD.ConvergedIsNearRoot | crates/strategy-core/src/dex/curve.rs:80-110 | the converged value is the map's image of a value within 1 of it |
| CurveD.StepsContract | crates/strategy-core/src/dex/curve.rs:88-91 | each round halves the gap of two values, up to rounding |
| CurveD.ConvergesExactlyWhenAmplified | crates/strategy-core/src/dex/curve.rs:22 | the solver settles on every pool on which no round overflows exactly when A is positive |
| Arith.WrapIsCongruent | crates/strategy-core/src/uint_ext.rs:7-11 | a number and its wrapped value differ by a multiple of the word size |
| Arith.WordIsPow2 | crates/strategy-core/src/uint_ext.rs:8 | the word size is 2^256 |
| Curve.ComputeD | crates/strategy-core/src/dex/curve.rs:70-116 | the guarded loop, with wrap-around, computes the recursive solver |
| CurveY.NewtonYFindsRoot | crates/strategy-core/src/dex/curve.rs:121-162 | when the constant term and the first two rounds fit, the 255 cap never ends the loop, a returned y is the rounded root or one more, nothing is returned only if that is zero or above D, and off the edge the answer is the root exactly when it is in 1..D |
| CurveY.YIsFirstSettledIterate | crates/strategy-core/src/dex/curve.rs:121-162 | without overflow the result is the first iterate from D that moved by at most 1 or is zero, under y -> (y^2 + c) / (2y + x) rounded down with c = floor(D^3 / (4 A x)), if it lies in 1..D |
| CurveY.SolvesFromAnywhere | crates/strategy-core/src/dex/curve.rs:126-154 | from any start, if the first iterate is at most 2^n then n + 2 rounds end at the root or one above |
| CurveY.YStepAboveRoot | crates/strategy-core/src/dex/curve.rs:135-141 | no round falls below the rounded root |
| CurveY.YStepHalvesError | crates/strategy-core/src/dex/curve.rs:135-141 | above the root the error at least halves each round |
| CurveY.RootExists | crates/strategy-core/src/dex/curve.rs:135-141 | the solved equation y^2 + x y = c has exactly one rounded positive root for every x > 0 |
| CurveY.SettlesAtRoot | crates/strategy-core/src/dex/curve.rs:141-153 | the loop settles one above the root only if c + 1 = (r + 1)(r + 1 + x) |
| CurveY.ConstantIsTrueExactlyWhen | crates/strategy-core/src/dex/curve.rs:135 | for given D the constant term is D^3 / (4 A x) for every x and A with a fitting divisor exactly when D^3 < 2^256 |
| CurveY.WrappedCubeLosesRoot | crates/strategy-core/src/dex/curve.rs:121-162 | at D = 2^86 nothing is returned whatever x and A, with the conditions under which the true root is positive and below D |
| CurveY.WrappedCubeExample | crates/strategy-core/src/dex/curve.rs:121-162 | at x = D = 2^86 and A = 100 nothing is returned although the root lies strictly between 0 and D |
| CurveY.BalancedPoolFits | crates/strategy-core/src/dex/curve.rs:135-141 | with D <= 4 A x, a fitting cube, and 2D + x < 2^256 nothing in the iteration overflows |
| CurveY.CubeAloneIsNotEnough | crates/strategy-core/src/dex/curve.rs:135-141 | at x = 1, A = 1, D = 2^84 the cube fits and the iteration overflows |
| Curve.NewtonY | crates/strategy-core/src/dex/curve.rs:121-162 | the guarded loop, with wrap-around, computes the recursive solver |
| Curve.Quote | crates/strategy-core/src/dex/curve.rs:19-53 | the steps compute the quote function: screen, both solvers with wrap-around, the checks on the new balance, and the fallback |
| Curve.QuoteWithinInput | crates/strategy-core/src/dex/curve.rs:38-66 | no quote pays more than the input less its fee, overflow or not |
| Curve.OverpayingIsFallingBack | crates/strategy-core/src/dex/curve.rs:38-66 | a quote above the out balance is a fallback for an after-fee input above it, and only then does the booked balance wrap |
| CurveQuote.SolvedExactlyWhen | crates/strategy-core/src/dex/curve.rs:26-46 | without overflow the new balance is the rounded root of the composed equation or one more, and off the edge the quote is solved exactly when that root is positive, at most D, below the out balance, and no further from it than the input |
| CurveQuote.QuotePaysExactly | crates/strategy-core/src/dex/curve.rs:19-66 | without overflow a solved quote pays floor((reserve1 - r)(10000 - min(fee, 10000)) / 10000) and books (reserve0 + input, r); any other pays floor(input (10000 - min(fee, 10000)) / 10000) and takes that off reserve1 |
| CurveQuote.RefusesExactlyWhen | crates/strategy-core/src/dex/curve.rs:19-24 | there is no quote exactly for an empty side, no input or no amplification |
| CurveQuote.OverpaysExactlyWhen | crates/strategy-core/src/dex/curve.rs:19-66 | the quote exceeds the out balance only if the input less fee does; then always for a root at or above the balance, never for one strictly between 0 and balance - 1, and off the edge exactly for a root that is zero or at least the balance |
| CurveQuote.OverpayingQuote | crates/strategy-core/src/dex/curve.rs:19-66 | reserves (10, 10), A = 10000, input 100, no fee: the quote is 100 |
| V2.QuoteIsExact | crates/strategy-core/src/dex/v2.rs:17-46 | without overflow the quote is the exact quotient, and the booked out reserve wraps only when it is overdrawn |
| V2.QuotePaysExactly | crates/strategy-core/src/dex/v2.rs:17-46 | with f the basis points over 10 rounded up, at most 1000, and no overflow: refused exactly for an empty side or no input, otherwise floor(a(1000 - f) R / (1000 r + a f)) paid and booked |
| V2.FeeIsRoundedUp | crates/strategy-core/src/dex/v2.rs:25 | the fee per 1000 is the basis points over 10, rounded up, at most 1000 |
| V2.KeepsProductExactlyWhen | crates/strategy-core/src/dex/v2.rs:23-37 | the quote keeps the reserve product for every out reserve exactly when a(1000-2f) <= f r |
| V2.QuoteLeavesReserveExactlyWhen | crates/strategy-core/src/dex/v2.rs:26-37 | the quote stays below the out reserve exactly when a(1000-2f) < 1000 r |
| V2.QuoteNeverBelowChain | crates/strategy-core/src/dex/v2.rs:26-33 | for f <= 500 the off-chain quote is at least the on-chain one |
| V2.QuoteNeverBelowAdapter | crates/strategy-core/src/dex/v2.rs:17-37 | at 30 basis points, whenever the adapter formula yields an amount, the quote exists and is at least that amount |
| V2.ExactAmountInSuffices | crates/strategy-core/src/dex/v2.rs:48-62 | the inverse yields at least the requested output on chain, and exceeds any sufficient input by at most one |
| V2.AmountInIsExact | crates/strategy-core/src/dex/v2.rs:49-62 | when numerator, denominator and result fit, `get_amount_in` is the exact inverse, rounded down and raised by one |
| V2.AmountInExactly | crates/strategy-core/src/dex/v2.rs:49-62 | without overflow: refused exactly for an empty in side, an output not below the out side or a full fee, otherwise floor(1000 r out / ((R - out)(1000 - f))) + 1 |
| V2.InverseCoversQuoteExactlyWhen | crates/strategy-core/src/dex/v2.rs:17-62 | the inverse also covers the off-chain quote on every pool exactly when f <= 500 |
| V2.AdapterPaysTheMost | contracts/src/adapters/UniswapV2Adapter.sol:38-45 | an amount exactly on non-empty reserves without overflow, and it is the largest that meets the fee-adjusted product inequality |
| V2.AdapterKeepsAdjustedProduct | contracts/src/adapters/UniswapV2Adapter.sol:38-45 | the adapter pays less than the out reserve and meets the fee-adjusted product inequality |
| Balancer.EqualWeightQuoteIsExact | crates/strategy-core/src/dex/balancer.rs:26-46 | without overflow the quote and balances are exact and the saturating subtraction never saturates |
| Balancer.QuotePaysExactly | crates/strategy-core/src/dex/balancer.rs:19-46 | with net the input less fee and no overflow: refused exactly for an empty side, no input or no weight, otherwise floor(b1 net / (b0 + net)) paid and the balances booked |
| Balancer.TradeMovesExactly | crates/strategy-core/src/dex/balancer.rs:26-46 | what one chained swap moves between trader and pool, in either direction |
| Balancer.NoFreeLunch | crates/strategy-core/src/dex/balancer.rs:26-46 | no chain of swaps in either direction lowers the product or leaves the trader ahead in one token without being behind in the other |
| Balancer.QuotesGiveNoFreeLunch | crates/strategy-core/src/dex/balancer.rs:26-46 | the same for the word-level quotes, each made on the balances the previous one booked, if none overflows |
| Balancer.SplittingNeverPays | crates/strategy-core/src/dex/balancer.rs:26-46 | splitting one input into any parts never pays more than a single swap |
| Balancer.PartsAreTrades | crates/strategy-core/src/dex/balancer.rs:38-45 | the sum paid in parts is what the chained swaps deliver |
| Simulator.PriceRouteComposes | crates/backtest-engine/src/simulator.rs:40-58 | pricing a concatenation is pricing the parts one after the other |
| Simulator.SimulationMonotone | crates/backtest-engine/src/simulator.rs:40-58 | on constant-product and equal-weight routes more capital succeeds whenever less does, with no smaller final amount |
| Simulator.OverflowBreaksMonotonicity | crates/backtest-engine/src/simulator.rs:40-58 | with overflow it fails: one hop that turns 10^6 into 8 * 10^6 turns 2^250 into 0 |
| Simulator.ProfitIsExact | crates/backtest-engine/src/simulator.rs:60-71 | when the premium and the amount owed fit, the profit is the final amount less capital and premium, or zero if that is not positive or the route failed |
| Simulator.PriceHops | crates/backtest-engine/src/simulator.rs:35-58 | the loop computes the composed quotes and 65000 gas per priced hop |
| Simulator.Simulate | crates/backtest-engine/src/simulator.rs:34-91 | there are amounts, each what the next hop's pool of its kind answers for the one before: success exactly when all hops are priced, otherwise the reason of the first that is not; 65000 gas per priced hop; the profit is the final amount less capital and premium if what is owed fits, or zero; one delta with the entry token and that profit |
| Simulator.SimulatedReports | crates/backtest-engine/src/simulator.rs:34-91 | the same of the simulation as a function |
| VaultRuns.PriceNeverFalls | contracts/src/ArbVault.sol:83-157 | over every legal run whose executions trade the vault's asset or bring a fee too small to mint a share, (totalAssets+1)/(totalSupply+1) never falls |
| VaultRuns.NeverLowersExactlyWhenSafe | contracts/src/StrategyExecutor.sol:111-181 | a legal run in which no adapter moves the vault's holding lowers the price at no step exactly when each of its executions trades the vault's asset or brings a fee too small to mint a share |
| VaultRuns.ExecuteKeepsPriceExactlyWhen | contracts/src/StrategyExecutor.sol:158-181 | a successful execution keeps the price exactly when it trades the vault's asset or its fee is too small to mint a share |
| VaultRuns.ForeignAssetLowersPrice | contracts/src/ArbVault.sol:130-150 | an execution in another token that mints 500 unbacked fee shares and cuts what 1000 shares redeem from 1000 to 666 |
| VaultRuns.ExecuteKeepsPrice | contracts/src/StrategyExecutor.sol:178-181 | under either condition an execution does not lower the price, fee shares included, even if adapters pay the vault |
| VaultRuns.AllClaimsAreCovered | contracts/src/ArbVault.sol:182-184 | after any run whatsoever the claims of all holders sum to at most totalAssets |
| VaultRuns.EveryoneCanExit | contracts/src/ArbVault.sol:112-119 | after any run whatsoever all holders can redeem everything in any order, and in the end each but the vault itself has gained at least shares (A + 1) / (S + 1) of the asset, rounded down, and has no shares |
| VaultRuns.StepsMoveExactly | contracts/src/ArbVault.sol:83-119 | what a deposit, mint, withdrawal, redemption or share transfer in a run does to every balance, and that a refused one does nothing |
| VaultRuns.NobodyIsDiluted | contracts/src/ArbVault.sol:83-157 | a holder whose shares have not decreased can redeem no less after any legal run whose executions meet the condition of `PriceNeverFalls` |
| VaultRuns.RoundTripGainsNothing | contracts/src/ArbVault.sol:83-119 | any legal run under the condition of `PriceNeverFalls` that returns to the same supply leaves at least the same assets |
| VaultRuns.DepositThenRedeem | contracts/src/ArbVault.sol:83-119 | redeeming what a deposit minted pays at most the deposit |
| VaultRuns.MintThenWithdraw | contracts/src/ArbVault.sol:93-110 | withdrawing what a mint cost burns at least the shares it minted |
| VaultRuns.InflowRoundingIsTight | contracts/src/ArbVault.sol:83-101 | a deposit mints the most shares and a mint charges the least assets that keep the price |
| VaultRuns.OutflowRoundingIsTight | contracts/src/ArbVault.sol:103-119 | a redemption pays the most assets and a withdrawal burns the least shares that keep the price |
| VaultRuns.WithdrawableIsAffordable | contracts/src/ArbVault.sol:103-110 | a withdrawal within the maximum never costs more shares than the owner has |
| VaultRuns.CallsConserveTokens | contracts/src/ArbVault.sol:83-119 | vault calls only move tokens between accounts |
| VaultRuns.ReportAloneKeepsPriceExactlyWhen | contracts/src/ArbVault.sol:130-150 | booking profit without the transfer keeps the price exactly when the fee is too small to mint a share |
| VaultRuns.ExecuteSettlesEverything | contracts/src/StrategyExecutor.sol:141-181 | success moves the executor's whole end balance of the traded asset, principal plus a profit of at least the floor, to the vault and leaves the executor none; the profit is booked whatever the asset, but totalAssets grows by it only if it is the vault's |
| VaultRuns.FeeSharesAreWorthTheFee | contracts/src/ArbVault.sol:135-150 | fee shares are worth at most the fee, which is at most half the profit |
| VaultRuns.StepKeepsSound | contracts/src/ArbVault.sol:83-172 | every call keeps shares held equal to shares outstanding and the fee within its cap |
| VaultCalls.DepositExactly | contracts/src/ArbVault.sol:83-91 | when a deposit succeeds, and that the caller pays the assets to the vault, the receiver gets floor(assets (S + 1) / (A + 1)) shares and no other balance moves |
| VaultCalls.MintExactly | contracts/src/ArbVault.sol:93-101 | the same for a mint, at ceil(shares (A + 1) / (S + 1)) assets |
| VaultCalls.WithdrawExactly | contracts/src/ArbVault.sol:103-110 | when a withdrawal succeeds, and that the vault pays the receiver the assets, the owner loses ceil(assets (S + 1) / (A + 1)) shares and no other balance moves |
| VaultCalls.RedeemExactly | contracts/src/ArbVault.sol:112-119 | the same for a redemption, at floor(shares (A + 1) / (S + 1)) assets |
| VaultCalls.ReportExactly | contracts/src/ArbVault.sol:130-157 | profit is booked exactly from a listed executor, at or above the floor and present, for a fee of floor(profit feeBps / 10000) and floor(fee (S + 1) / (A + 1)) shares to the fee recipient alone |
| Vault.ArbVault.DepositAssets | contracts/src/ArbVault.sol:83-91 | the whole new state of a deposit, or none of it |
| Vault.ArbVault.MintExact | contracts/src/ArbVault.sol:93-101 | the whole new state of a mint, or none of it |
| Vault.ArbVault.WithdrawAssets | contracts/src/ArbVault.sol:103-110 | the whole new state of a withdrawal, or none of it |
| Vault.ArbVault.RedeemShares | contracts/src/ArbVault.sol:112-119 | the whole new state of a redemption, or none of it |
| Vault.ArbVault.BookProfit | contracts/src/ArbVault.sol:130-157 | the whole new state of a profit report, or none of it |
| Vault.ArbVault.constructor | contracts/src/ArbVault.sol:51-69 | a new vault is empty and sound |
| Vault.ArbVault.ChangePerformanceFee | contracts/src/ArbVault.sol:163-167 | a fee above 50% is refused |
| Vault.ArbVault.ChangeFeeRecipient | contracts/src/ArbVault.sol:169-172 | the zero address is refused |
| Executor.StrategyExecutor.ExecuteRoute | contracts/src/StrategyExecutor.sol:111-198 | it succeeds exactly when every check passes and a trace of amounts and balances, each what the hop's listed adapter answers for the one before, closes with the principal and the profit floor; then the executor's balance of the asset goes to the vault and the profit is booked; failure changes no balance and no vault field |
| Executor.ExecuteExactly | contracts/src/StrategyExecutor.sol:111-181 | the same of the execution as a function |
| Executor.StrategyExecutor.SettleRoute | contracts/src/StrategyExecutor.sol:158-181 | the checks, the hand-over and the report after the walk are one settlement |
| Executor.SettleNamesFirst | contracts/src/StrategyExecutor.sol:158-181 | a walked route that is not settled names the first check that failed |
| Executor.GateOpensExactlyWhen | contracts/src/StrategyExecutor.sol:112-142 | the checks before the walk pass exactly when time, trust, risk rules, allocation and principal do, and otherwise the first that fails is named |
| Executor.WalkIsHandedOn | contracts/src/StrategyExecutor.sol:144-157 | the walk is a trace from the principal in which each hop is handed what the one before answered, up to the end or the first unlisted or reverting adapter |
| Executor.HandedOnIsWalk | contracts/src/StrategyExecutor.sol:144-157 | there is no other such trace |
| Executor.StrategyExecutor.WalkHops | contracts/src/StrategyExecutor.sol:144-157 | the hop loop leaves the last balances of such a trace, or the reason of the first unlisted or reverting adapter |
| Executor.StrategyExecutor.CheckGate | contracts/src/StrategyExecutor.sol:112-142 | the checks made before any token moves, in their order |
| Executor.StrategyExecutor.ExtractRouteTokensAndPools | contracts/src/StrategyExecutor.sol:204-216 | the inputs of all hops and the last output, and all pools |
| ExecutorPolicy.ExecuteObeysPolicy | contracts/src/StrategyExecutor.sol:112-160 | a success ran only listed adapters in time on a trusted vault, within exposure, capital and deployable caps, through no blacklisted pool, and on chained routes through no blacklisted token |
| ExecutorPolicy.BlacklistHoldsExactlyWhenCovered | contracts/src/RiskManager.sol:100-105 | the blacklist keeps every visited token out exactly on routes whose outputs are all shown to it |
| Policy.RiskManager.CheckExecution | contracts/src/RiskManager.sol:82-112 | refuses exactly a forbidden chain, a pause of either scope, capital above a set cap, or a blacklisted token or pool, and names the first of them |
| Policy.StrategyController.Authorize | contracts/src/StrategyController.sol:56-72 | refuses exactly an unlisted executor, a missing or inactive allocation, an amount above a set cap or above a set share of the vault, and names the first of them |

## Left out

- TokenGraph.TokenGraph.AddPool: takes the logarithm as a parameter on real rates; the rounding, NaN and infinity of `f64` are not modelled.
- CurveY.NewtonYFindsRoot: says nothing about first rounds that overflow 256 bits, where the code wraps; of the constant term `ConstantIsTrueExactlyWhen` says when it does.
- Curve.Quote: asks that the divisor of the constant term does not wrap to zero, where the crate panics.
- V2.KeepsProductExactlyWhen: speaks of exact arithmetic; `QuoteIsExact` says when the code computes it.
- Balancer.NoFreeLunch: speaks of exact arithmetic; `QuotesGiveNoFreeLunch` carries it to the quotes themselves.
- Simulator.SimulationMonotone: does not cover routes with StableSwap, Uniswap V3 or unequal-weight pools, whose pricing enters as parameters.
- VaultRuns.PriceNeverFalls: assumes adapters never take the vault's own asset and do not call back into the vault during an execution, that the vault and the executor have different addresses, and that profit is reported through the executor contract; `ReportAloneKeepsPriceExactlyWhen` says what a report from elsewhere does.
- VaultRuns.NeverLowersExactlyWhenSafe: also assumes that adapters do not pay the vault, which could hide a dilution.
- Vault.ArbVault.DepositAssets: token and share allowances appear as one flag; uint256 overflow, which reverts, is not modelled, so the runs here include every run of the contract.
- `PoolRef` fields `dex`, `tick_spacing` and `extra`, which neither the search nor the modelled quotes read.
- Access-control roles on setters, permits, events, gas accounting and the `try/catch` accounting sink.
- Re-entrancy guards, token transfer mechanics and the pair calls of `UniswapV2Adapter.swap`; only its formula is modelled.
- `recordLoss` and the loss fields of the policies, which no modelled check reads.
- `dex/v3.rs`, the unequal-weight branch of `balancer.rs` and all floating-point reporting: no intended accuracy claim holds of what they compute.
- Flash loans, timelock, other adapters, nonce tracking, relays, replay, the TypeScript apps and the database.
