/** The two StableSwap solvers put together: what a quote pays, on the inputs alone
    (crates/strategy-core/src/dex/curve.rs, lines 19-66). */
module CurveQuote {
  import opened Common
  import opened Types
  import opened Arith
  import opened Pools
  import opened Curve
  import D = CurveD
  import Y = CurveY

  function Invariant(state: PoolLiveState): Option<U256> {
    DOf(state.reserve0, state.reserve1, state.ampCoeff)
  }

  /** Nothing in the quote overflows 256 bits: neither solver, nor the in balance, nor the fee. */
  ghost predicate QuoteFits(state: PoolLiveState, amountIn: U256, feeBps: nat) {
    && Screened(state, amountIn)
    && D.PoolFits(state.reserve0, state.reserve1, state.ampCoeff)
    && state.reserve0 + amountIn < WORD
    && amountIn * (10_000 - (if feeBps < 10_000 then feeBps else 10_000)) < WORD
    && (Invariant(state).Some? ==> Y.NewtonFits(state.reserve0 + amountIn, Invariant(state).value, state.ampCoeff))
  }

  /** `r` is the rounded root, after the input, of the equation the second solver solves for the
      invariant the first one found. */
  ghost predicate IsTarget(state: PoolLiveState, amountIn: U256, r: nat) {
    var x := state.reserve0 + amountIn;
    && x > 0 && state.ampCoeff > 0 && Invariant(state).Some?
    && Y.IsRoot(x, Y.TrueConstant(x, Invariant(state).value, state.ampCoeff), r)
  }

  ghost predicate OnEdge(state: PoolLiveState, amountIn: U256, r: nat)
    requires IsTarget(state, amountIn, r)
  {
    var x := state.reserve0 + amountIn;
    Y.OnEdge(x, Y.TrueConstant(x, Invariant(state).value, state.ampCoeff), r)
  }

  /** A quote that fits has exactly one target. */
  lemma TargetExists(state: PoolLiveState, amountIn: U256, feeBps: nat) returns (r: nat)
    requires QuoteFits(state, amountIn, feeBps)
    ensures IsTarget(state, amountIn, r) && forall other: nat :: IsTarget(state, amountIn, other) ==> other == r
  {
    D.ComputeDFindsRoot(state.reserve0, state.reserve1, state.ampCoeff);
    var x := state.reserve0 + amountIn;
    r := Y.RootExists(x, Y.TrueConstant(x, Invariant(state).value, state.ampCoeff));
  }

  /** What the two solvers agree on: the target, or on the edge perhaps one more, and nothing exactly
      when the target fails one of the checks. */
  lemma SolvedExactlyWhen(state: PoolLiveState, amountIn: U256, feeBps: nat, r: nat)
    requires QuoteFits(state, amountIn, feeBps) && IsTarget(state, amountIn, r)
    ensures !Panics(state, amountIn)
    ensures
      var y := NewBalance(state, amountIn);
      var usable := 0 < r <= Invariant(state).value && r < state.reserve1 && state.reserve1 - r <= amountIn;
      && (y.Some? ==> y.value == r || y.value == r + 1)
      && (!OnEdge(state, amountIn, r) ==> y == if usable then Some(r) else None)
      && (r >= state.reserve1 ==> y.None?)
      && (0 < r < Invariant(state).value && r + 1 < state.reserve1 && state.reserve1 - r <= amountIn ==> y.Some?)
  {
    var x: U256 := state.reserve0 + amountIn;
    D.ComputeDFindsRoot(state.reserve0, state.reserve1, state.ampCoeff);
    var d := Invariant(state).value;
    Y.ConstantIsExact(x, d, state.ampCoeff);
    Y.NewtonYFindsRoot(x, d, state.ampCoeff, r);
  }

  /** `q` pays out of the reserve down to `yNew`, less the fee, and books exactly that. */
  ghost predicate PaysDownTo(state: PoolLiveState, amountIn: nat, feeBps: nat, yNew: nat, q: HopQuote) {
    var kept := 10_000 - (if feeBps < 10_000 then feeBps else 10_000);
    && yNew <= state.reserve1
    && q.amountOut == (state.reserve1 - yNew) * kept / 10_000
    && q.stateAfter.StableAfter?
    && q.stateAfter.balance0 == state.reserve0 + amountIn && q.stateAfter.balance1 == yNew
  }

  /** `q` pays the input less the fee, one to one, and takes that off the out balance, which wraps round
      when there is less. */
  ghost predicate PaysOneToOne(state: PoolLiveState, amountIn: nat, feeBps: nat, q: HopQuote) {
    var kept := 10_000 - (if feeBps < 10_000 then feeBps else 10_000);
    && q.amountOut == amountIn * kept / 10_000
    && q.stateAfter.StableAfter?
    && q.stateAfter.balance0 == state.reserve0 + amountIn
    && q.stateAfter.balance1 + q.amountOut
         == (if q.amountOut <= state.reserve1 then state.reserve1 else WORD + state.reserve1)
  }

  /** What a quote pays and books.  Off the edge it pays out of the reserve down to the target when the
      target passes the checks, and one to one when it does not; on the edge it does the one, down to the
      target or one above, or the other. */
  lemma QuotePaysExactly(state: PoolLiveState, amountIn: U256, feeBps: nat, r: nat)
    requires QuoteFits(state, amountIn, feeBps) && IsTarget(state, amountIn, r)
    ensures !Panics(state, amountIn) && QuoteOf(state, amountIn, feeBps).Some?
    ensures
      var q := QuoteOf(state, amountIn, feeBps).value;
      var usable := 0 < r <= Invariant(state).value && r < state.reserve1 && state.reserve1 - r <= amountIn;
      && (!OnEdge(state, amountIn, r) && usable ==> PaysDownTo(state, amountIn, feeBps, r, q))
      && (!OnEdge(state, amountIn, r) && !usable ==> PaysOneToOne(state, amountIn, feeBps, q))
      && (PaysDownTo(state, amountIn, feeBps, r, q) || PaysDownTo(state, amountIn, feeBps, r + 1, q)
          || PaysOneToOne(state, amountIn, feeBps, q))
  {
    SolvedExactlyWhen(state, amountIn, feeBps, r);
    match NewBalance(state, amountIn) {
      case None => FallbackPays(state, amountIn, feeBps);
      case Some(yNew) => SolvedPays(state, amountIn, feeBps, yNew);
    }
  }

  lemma FallbackPays(state: PoolLiveState, amountIn: U256, feeBps: nat)
    requires state.reserve0 + amountIn < WORD
    requires amountIn * (10_000 - (if feeBps < 10_000 then feeBps else 10_000)) < WORD
    ensures PaysOneToOne(state, amountIn, feeBps, FallbackQuote(state, amountIn, feeBps))
  {
    var kept := 10_000 - (if feeBps < 10_000 then feeBps else 10_000);
    var out := amountIn * kept / 10_000;
    assert Wrap(Mul(amountIn, FeeFactor(feeBps))) == amountIn * kept;
    assert FallbackQuote(state, amountIn, feeBps).amountOut == out;
    if out > state.reserve1 {
      WrapBelowZero(state.reserve1 - out);
    }
  }

  lemma SolvedPays(state: PoolLiveState, amountIn: U256, feeBps: nat, yNew: U256)
    requires state.reserve0 + amountIn < WORD
    requires amountIn * (10_000 - (if feeBps < 10_000 then feeBps else 10_000)) < WORD
    requires yNew <= state.reserve1 && state.reserve1 - yNew <= amountIn
    ensures PaysDownTo(state, amountIn, feeBps, yNew, SolvedQuote(state, amountIn, feeBps, yNew))
  {
    var kept := 10_000 - (if feeBps < 10_000 then feeBps else 10_000);
    MulMono(state.reserve1 - yNew, amountIn, kept);
    assert Wrap(Mul(state.reserve1 - yNew, FeeFactor(feeBps))) == (state.reserve1 - yNew) * kept;
  }

  /** A quote is refused exactly for an empty side, no input or no amplification. */
  lemma RefusesExactlyWhen(state: PoolLiveState, amountIn: U256, feeBps: nat)
    requires !Panics(state, amountIn)
    ensures QuoteOf(state, amountIn, feeBps).None? <==>
              state.reserve0 == 0 || state.reserve1 == 0 || amountIn == 0 || state.ampCoeff == 0
  {
  }

  /** The invariant is at most the in balance after an input larger than the out balance. */
  lemma InvariantWithinInput(x: U256, y: U256, a: U128, amountIn: U256)
    requires x > 0 && y > 0 && a > 0 && D.PoolFits(x, y, a) && amountIn > y
    ensures DOf(x, y, a).Some? && 0 < DOf(x, y, a).value <= x + amountIn
  {
    D.ComputeDFindsRoot(x, y, a);
    D.FourProducts(x, y);
    D.InvariantWithinSum(x + y, Mul(x, y), 4 * a, DOf(x, y, a).value);
  }

  /** The target of an input larger than the out balance stays below the invariant. */
  lemma TargetWithinInvariant(state: PoolLiveState, amountIn: U256, feeBps: nat, r: nat)
    requires QuoteFits(state, amountIn, feeBps) && IsTarget(state, amountIn, r) && amountIn > state.reserve1
    ensures r < Invariant(state).value
  {
    var x := state.reserve0 + amountIn;
    InvariantWithinInput(state.reserve0, state.reserve1, state.ampCoeff, amountIn);
    MulGrows(4 * x, state.ampCoeff);
    Y.RootIsInside(x, Invariant(state).value, state.ampCoeff, r);
  }

  /** When a quote promises more than the pool holds.  The fee must leave more than the out balance, and
      then everything turns on the target: at or above the out balance, or zero, the solver's answer is
      unusable and the fallback pays the input out one to one; strictly between, it does not. */
  lemma OverpaysExactlyWhen(state: PoolLiveState, amountIn: U256, feeBps: nat, r: nat)
    requires QuoteFits(state, amountIn, feeBps) && IsTarget(state, amountIn, r)
    ensures !Panics(state, amountIn)
    ensures
      var overpays := QuoteOf(state, amountIn, feeBps).value.amountOut > state.reserve1;
      var exceeds := AfterFee(amountIn, feeBps) > state.reserve1;
      && (overpays ==> exceeds)
      && (exceeds && r >= state.reserve1 ==> overpays)
      && (0 < r && r + 1 < state.reserve1 ==> !overpays)
      && (!OnEdge(state, amountIn, r) ==> (overpays <==> exceeds && (r == 0 || r >= state.reserve1)))
  {
    SolvedExactlyWhen(state, amountIn, feeBps, r);
    OverpayingIsFallingBack(state, amountIn, feeBps);
    if AfterFee(amountIn, feeBps) > state.reserve1 {
      AfterFeeOfSum(amountIn, 0, feeBps);
      TargetWithinInvariant(state, amountIn, feeBps, r);
    }
  }

  /** Such a quote: reserves of 10 each at A = 10000 and an input of 100.  The invariant is 20, the
      constant term 0, and the iterates 20, 2, 0 end at the zero check; the fallback promises 100. */
  lemma OverpayingQuote(state: PoolLiveState)
    requires state.reserve0 == 10 && state.reserve1 == 10 && state.ampCoeff == 10_000
    ensures !Panics(state, 100) && NewBalance(state, 100) == None
    ensures QuoteOf(state, 100, 0).value.amountOut == 100
    ensures QuoteOf(state, 100, 0).value.stateAfter.balance1 == WORD - 90
  {
    InvariantIsTwenty(state.reserve0, state.reserve1, state.ampCoeff);
    var x: U256 := Wrap(state.reserve0 + 100);
    assert x == 110;
    IteratesEndAtZero(x, 20, state.ampCoeff);
    OverpayingIsFallingBack(state, 100, 0);
  }

  lemma InvariantIsTwenty(x: U256, y: U256, a: U128)
    requires x == 10 && y == 10 && a == 10_000
    ensures DOf(x, y, a) == Some(20)
  {
    var s: U256, p: U256 := Wrap(x + y), Wrap(Mul(x, y));
    assert s == 20 && p == 100;
    RoundAtTwenty(s, p, 4 * a);
    SettlesAtOnce(s, p, 4 * a, s, D_ROUNDS);
  }

  lemma RoundAtTwenty(s: U256, p: U256, ann: nat)
    requires s == 20 && p == 100 && ann == 40_000
    ensures DRound(s, p, ann, s) == s
  {
  }

  lemma SettlesAtOnce(s: U256, p: U256, ann: nat, d: U256, rounds: nat)
    requires ann < WORD - 1 && d > 0 && DRound(s, p, ann, d) == d && rounds > 0
    ensures SolveD(s, p, ann, d, rounds) == Converged(d)
  {
  }

  lemma IteratesEndAtZero(x: U256, d: U256, a: U128)
    requires x == 110 && d == 20 && a == 10_000
    ensures YDivisor(x, a) > 0 && YOf(x, d, a) == None
  {
    assert Wrap(4 * x) == 440 && YDivisor(x, a) == 4_400_000;
    assert Wrap(Mul(d, d)) == 400 && YConstant(x, d, a) == 0;
    FallsToZero(x, d, Y_ROUNDS);
  }

  lemma FallsToZero(x: U256, y: U256, rounds: nat)
    requires x == 110 && y == 20 && rounds > 2
    ensures SolveY(x, 0, y, rounds) == Stopped
  {
    var second: U256 := YRound(x, 0, y);
    assert second == 2;
    var third: U256 := YRound(x, 0, second);
    assert third == 0;
    StepsOn(x, 0, y, rounds);
    StepsOn(x, 0, second, rounds - 1);
  }

  lemma StepsOn(x: U256, c: U256, y: U256, rounds: nat)
    requires rounds > 0 && y > 0 && x > 0 && Wrap(Wrap(y * 2) + x) > 0 && Gap(YRound(x, c, y), y) > 1
    ensures SolveY(x, c, y, rounds) == SolveY(x, c, YRound(x, c, y), rounds - 1)
  {
  }
}
