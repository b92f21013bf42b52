/** Constant-product quotes (crates/strategy-core/src/dex/v2.rs) against the on-chain formula
    (contracts/src/adapters/UniswapV2Adapter.sol). */
module V2 {
  import opened Common
  import opened Arith
  import opened Pools

  /** The fee per 1000, rounded up from basis points and capped. */
  function FeePer1000(feeBps: nat): (f: nat)
    ensures f <= 1000
  {
    var f := (feeBps + 9) / 10;
    if f <= 1000 then f else 1000
  }

  function Quote(state: PoolLiveState, amountIn: U256, feeBps: nat): Option<HopQuote> {
    var (reserveIn, reserveOut) := (state.reserve0, state.reserve1);
    if reserveIn == 0 || reserveOut == 0 || amountIn == 0 then None
    else
      var f := FeePer1000(feeBps);
      var amountInWithFee := Wrap(Mul(amountIn, 1000 - f));
      var numerator := Wrap(Mul(amountInWithFee, reserveOut));
      var denominator := Wrap(Wrap(reserveIn * 1000) + Wrap(Mul(amountIn, f)));
      if denominator == 0 then None
      else
        var amountOut := Div(numerator, denominator);
        Some(HopQuote(amountOut, V2After(Wrap(reserveIn + amountIn), Wrap(reserveOut - amountOut))))
  }

  function GetAmountIn(state: PoolLiveState, amountOut: U256, feeBps: nat): Option<U256> {
    var (reserveIn, reserveOut) := (state.reserve0, state.reserve1);
    if reserveIn == 0 || reserveOut == 0 || amountOut >= reserveOut then None
    else
      var f := FeePer1000(feeBps);
      var numerator := Wrap(Wrap(Mul(reserveIn, amountOut)) * 1000);
      var denominator := Wrap(Mul(reserveOut - amountOut, 1000 - f));
      if denominator == 0 then None else Some(Wrap(Div(numerator, denominator) + 1))
  }

  /** The adapter's formula; Solidity reverts on overflow and on empty reserves. */
  function AdapterOut(reserveIn: U256, reserveOut: U256, amountIn: U256): Option<U256> {
    if reserveIn == 0 || reserveOut == 0 then None
    else
      var amountInWithFee := amountIn * 997;
      var numerator := Mul(amountInWithFee, reserveOut);
      var denominator := reserveIn * 1000 + amountInWithFee;
      if amountInWithFee >= WORD || numerator >= WORD || denominator >= WORD then None
      else Some(Div(numerator, denominator))
  }

  // ----- exact forms -----

  /** The off-chain quote without wrap-around: note the fee, not the after-fee input, below the line. */
  function QuoteOut(rin: nat, rout: nat, a: nat, f: nat): nat
    requires rin > 0 && f <= 1000
  {
    Div(Mul(Mul(a, 1000 - f), rout), rin * 1000 + Mul(a, f))
  }

  /** The on-chain formula at a fee of `f` per 1000. */
  function ChainOut(rin: nat, rout: nat, a: nat, f: nat): nat
    requires rin > 0 && f <= 1000
  {
    Div(Mul(Mul(a, 1000 - f), rout), rin * 1000 + Mul(a, 1000 - f))
  }

  ghost predicate QuoteFits(rin: nat, rout: nat, a: nat, f: nat)
    requires f <= 1000
  {
    Mul(Mul(a, 1000 - f), rout) < WORD && rin * 1000 + Mul(a, f) < WORD && rin + a < WORD
  }

  /** The amount is exact as soon as numerator and denominator fit, even if the booked sum wraps. */
  lemma QuoteAmountIsExact(state: PoolLiveState, amountIn: U256, feeBps: nat)
    requires state.reserve0 > 0 && state.reserve1 > 0 && amountIn > 0
    requires Mul(Mul(amountIn, 1000 - FeePer1000(feeBps)), state.reserve1) < WORD
    requires state.reserve0 * 1000 + Mul(amountIn, FeePer1000(feeBps)) < WORD
    ensures
      var q := Quote(state, amountIn, feeBps);
      q.Some? && q.value.amountOut == QuoteOut(state.reserve0, state.reserve1, amountIn, FeePer1000(feeBps))
  {
    MulGrows(Mul(amountIn, 1000 - FeePer1000(feeBps)), state.reserve1);
  }

  lemma QuoteIsExact(state: PoolLiveState, amountIn: U256, feeBps: nat)
    requires state.reserve0 > 0 && state.reserve1 > 0 && amountIn > 0
    requires QuoteFits(state.reserve0, state.reserve1, amountIn, FeePer1000(feeBps))
    ensures
      var q := Quote(state, amountIn, feeBps);
      && q.Some?
      && q.value.amountOut == QuoteOut(state.reserve0, state.reserve1, amountIn, FeePer1000(feeBps))
      && q.value.stateAfter.V2After?
      && q.value.stateAfter.reserveIn == state.reserve0 + amountIn
      && q.value.stateAfter.reserveOut + q.value.amountOut
           == (if q.value.amountOut <= state.reserve1 then state.reserve1 else WORD + state.reserve1)
  {
    var f, rin, rout := FeePer1000(feeBps), state.reserve0, state.reserve1;
    MulGrows(Mul(amountIn, 1000 - f), rout);
    BookedReserve(rout, QuoteOut(rin, rout, amountIn, f));
  }

  lemma BookedReserve(rout: U256, out: U256)
    ensures Wrap(rout - out) + out == if out <= rout then rout else WORD + rout
  {
    if out > rout { WrapBelowZero(rout - out); }
  }

  lemma AdapterIsExact(reserveIn: U256, reserveOut: U256, amountIn: U256)
    requires AdapterOut(reserveIn, reserveOut, amountIn).Some?
    ensures AdapterOut(reserveIn, reserveOut, amountIn) == Some(ChainOut(reserveIn, reserveOut, amountIn, 3))
  {
  }

  // ----- the inverse -----

  /** The on-chain formula yields `out` exactly when the input covers the fee-adjusted price. */
  lemma ChainOutReaches(rin: nat, rout: nat, a: nat, f: nat, out: nat)
    requires rin > 0 && f <= 1000 && out <= rout
    ensures ChainOut(rin, rout, a, f) >= out <==> a * Mul(rout - out, 1000 - f) >= Mul(rin, out) * 1000
  {
    var g := 1000 - f;
    var den := rin * 1000 + a * g;
    MulNat(a, g);
    FloorReaches(a * g * rout, den, out);
    assert out * den == rin * out * 1000 + a * g * out;
    assert a * ((rout - out) * g) == a * g * rout - a * g * out;
  }

  /** `get_amount_in` without wrap-around. */
  function ExactAmountIn(rin: nat, rout: nat, out: nat, f: nat): nat
    requires out < rout && f < 1000
  {
    MulStrictMono(0, rout - out, 1000 - f);
    Div(Mul(rin, out) * 1000, Mul(rout - out, 1000 - f)) + 1
  }

  lemma AmountInIsExact(state: PoolLiveState, amountOut: U256, feeBps: nat)
    requires state.reserve0 > 0 && amountOut < state.reserve1 && FeePer1000(feeBps) < 1000
    requires Mul(state.reserve0, amountOut) * 1000 < WORD
    requires Mul(state.reserve1 - amountOut, 1000 - FeePer1000(feeBps)) < WORD
    requires ExactAmountIn(state.reserve0, state.reserve1, amountOut, FeePer1000(feeBps)) < WORD
    ensures GetAmountIn(state, amountOut, feeBps)
         == Some(ExactAmountIn(state.reserve0, state.reserve1, amountOut, FeePer1000(feeBps)))
  {
    var left, g := state.reserve1 - amountOut, 1000 - FeePer1000(feeBps);
    MulStrictMono(0, left, g);
    assert Wrap(Mul(left, g)) == Mul(left, g) > 0;
    assert Wrap(Mul(state.reserve0, amountOut)) == Mul(state.reserve0, amountOut);
  }

  /** `get_amount_in` asks for enough, and for at most one unit more than any sufficient input. */
  lemma ExactAmountInSuffices(rin: nat, rout: nat, out: nat, f: nat, other: nat)
    requires rin > 0 && out < rout && f < 1000
    ensures ChainOut(rin, rout, ExactAmountIn(rin, rout, out, f), f) >= out
    ensures ChainOut(rin, rout, other, f) >= out ==> ExactAmountIn(rin, rout, out, f) <= other + 1
  {
    var n, d := Mul(rin, out) * 1000, Mul(rout - out, 1000 - f);
    MulStrictMono(0, rout - out, 1000 - f);
    RoundedUp(n, d, other);
    ChainOutReaches(rin, rout, Div(n, d) + 1, f, out);
    ChainOutReaches(rin, rout, other, f, out);
  }

  lemma RoundedUp(n: nat, d: nat, other: nat)
    requires d > 0
    ensures (Div(n, d) + 1) * d >= n
    ensures other * d >= n ==> Div(n, d) <= other
  {
    var q := Div(n, d);
    assert (q + 1) * d == q * d + d;
    if other < q {
      MulMono(other + 1, q, d);
      assert (other + 1) * d == other * d + d;
    }
  }

  // ----- off-chain against on-chain -----

  /** At fees of at most 500 per 1000 the off-chain quote is never below the on-chain formula. */
  lemma QuoteNeverBelowChain(rin: nat, rout: nat, a: nat, f: nat)
    requires rin > 0 && f <= 500
    ensures QuoteOut(rin, rout, a, f) >= ChainOut(rin, rout, a, f)
  {
    var n, q := a * (1000 - f) * rout, ChainOut(rin, rout, a, f);
    MulMono(f, 1000 - f, a);
    MulNat(a, f);
    FloorBounds(n, rin * 1000 + a * (1000 - f));
    MulMono(rin * 1000 + a * f, rin * 1000 + a * (1000 - f), q);
    assert q * (rin * 1000 + a * f) == (rin * 1000 + a * f) * q;
    FloorReaches(n, rin * 1000 + a * f, q);
  }

  /** At the adapter's own fee of 30 basis points, whenever the adapter computes an amount for a positive
      input, the quote is there too and is never below it. */
  lemma QuoteNeverBelowAdapter(state: PoolLiveState, amountIn: U256)
    requires amountIn > 0 && AdapterOut(state.reserve0, state.reserve1, amountIn).Some?
    ensures
      && Quote(state, amountIn, 30).Some?
      && Quote(state, amountIn, 30).value.amountOut >= AdapterOut(state.reserve0, state.reserve1, amountIn).value
  {
    var (rin, rout) := (state.reserve0, state.reserve1);
    AdapterIsExact(rin, rout, amountIn);
    QuoteAmountIsExact(state, amountIn, 30);
    QuoteNeverBelowChain(rin, rout, amountIn, 3);
  }

  /** `get_amount_in` covers the off-chain quote on every pool exactly when the fee is at most 500
      per 1000. */
  ghost predicate InverseCoversQuote(f: nat)
    requires f < 1000
  {
    forall rin: nat, rout: nat, out: nat :: rin > 0 && out < rout ==>
      QuoteOut(rin, rout, ExactAmountIn(rin, rout, out, f), f) >= out
  }

  /** Whatever is put in, the off-chain quote stays below reserve * (1000 - f) / f. */
  lemma QuoteCeiling(rin: nat, rout: nat, a: nat, f: nat)
    requires rin > 0 && rout > 0 && f <= 1000
    ensures QuoteOut(rin, rout, a, f) * f <= (1000 - f) * rout
  {
    var n, den := a * (1000 - f) * rout, rin * 1000 + a * f;
    MulNat(a, f);
    var q := n / den;
    FloorBounds(n, den);
    if q * f > (1000 - f) * rout {
      assert f > 0;
      MulMono((1000 - f) * rout, q * f, a);
      assert (1000 - f) * rout * a == n;
      assert q * f * a == q * (a * f);
      assert q * den == q * (rin * 1000) + q * (a * f);
      assert q > 0;
      MulMono(1, q, rin * 1000);
    }
  }

  lemma InverseCoversQuoteExactlyWhen(f: nat)
    requires f < 1000
    ensures InverseCoversQuote(f) <==> f <= 500
  {
    if f <= 500 {
      forall rin: nat, rout: nat, out: nat | rin > 0 && out < rout
        ensures QuoteOut(rin, rout, ExactAmountIn(rin, rout, out, f), f) >= out
      {
        ExactAmountInSuffices(rin, rout, out, f, 0);
        QuoteNeverBelowChain(rin, rout, ExactAmountIn(rin, rout, out, f), f);
      }
    } else {
      var q := QuoteOut(1, 1000, ExactAmountIn(1, 1000, 999, f), f);
      QuoteCeiling(1, 1000, ExactAmountIn(1, 1000, 999, f), f);
      assert q < 999 by {
        if q >= 999 { MulMono(999, q, f); }
      }
    }
  }

  // ----- what a quote leaves in the pool -----

  /** The off-chain quote leaves something in the out reserve exactly while a(1000 - 2f) < 1000 * rin;
      beyond that the reserve subtraction in `quote` goes to or below zero. */
  lemma QuoteLeavesReserveExactlyWhen(rin: nat, rout: nat, a: nat, f: nat)
    requires rin > 0 && rout > 0 && f <= 1000
    ensures QuoteOut(rin, rout, a, f) < rout <==> a * (1000 - 2 * f) < 1000 * rin
  {
    var n, den := a * (1000 - f), rin * 1000 + a * f;
    MulNat(a, f);
    FloorReaches(n * rout, den, rout);
    assert n - a * f == a * (1000 - 2 * f);
    if n >= den {
      MulMono(den, n, rout);
    } else {
      MulStrictMono(n, den, rout);
    }
    assert den * rout == rout * den;
  }

  /** The adapter always leaves something, and meets the fee-adjusted constant-product inequality of
      section 3.2.1 of the Uniswap v2 Core whitepaper. */
  lemma AdapterKeepsAdjustedProduct(reserveIn: U256, reserveOut: U256, amountIn: U256)
    requires AdapterOut(reserveIn, reserveOut, amountIn).Some?
    ensures
      var out := AdapterOut(reserveIn, reserveOut, amountIn).value;
      && out < reserveOut
      && ((reserveIn + amountIn) * 1000 - 3 * amountIn) * ((reserveOut - out) * 1000)
           >= reserveIn * reserveOut * 1_000_000
  {
    var n := amountIn * 997;
    AdjustedProduct(n, reserveIn * 1000, reserveOut);
    Thousandths(reserveIn, amountIn, reserveOut, reserveOut - Div(Mul(n, reserveOut), reserveIn * 1000 + n));
  }

  lemma Thousandths(rin: nat, a: nat, rout: nat, left: nat)
    requires (rin * 1000 + a * 997) * left >= (rin * 1000) * rout
    ensures ((rin + a) * 1000 - 3 * a) * (left * 1000) >= rin * rout * 1_000_000
  {
    var k := rin * 1000 + a * 997;
    assert k * (left * 1000) == (k * left) * 1000;
    assert (rin * 1000) * rout == (rin * rout) * 1000;
  }

  lemma AdjustedProduct(n: nat, base: nat, rout: nat)
    requires base > 0 && rout > 0
    ensures
      var out := Div(Mul(n, rout), base + n);
      out < rout && (base + n) * (rout - out) >= base * rout
  {
    var den := base + n;
    var out := Div(Mul(n, rout), den);
    assert den * (rout - out) == den * rout - out * den;
    assert den * rout == base * rout + n * rout;
    MulStrictMono(0, base, rout);
    if out >= rout {
      MulMono(rout, out, den);
    }
  }

  /** The quote keeps the product of this pool's reserves from falling. */
  ghost predicate KeepsProduct(rin: nat, rout: nat, a: nat, f: nat)
    requires rin > 0 && f <= 1000
  {
    (rin + a) * (rout - QuoteOut(rin, rout, a, f)) >= rin * rout
  }

  /** The off-chain quote keeps the product, whatever the out reserve, exactly when
      a(1000 - 2f) <= f * rin. */
  lemma KeepsProductExactlyWhen(rin: nat, a: nat, f: nat)
    requires rin > 0 && f <= 1000
    ensures (forall rout: nat :: KeepsProduct(rin, rout, a, f)) <==> a * (1000 - 2 * f) <= f * rin
  {
    var n, den := Mul(a, 1000 - f), rin * 1000 + Mul(a, f);
    assert n * (rin + a) - a * den == a * (a * (1000 - 2 * f) - f * rin);
    if a * (1000 - 2 * f) <= f * rin {
      MulMono(a * (1000 - 2 * f) - f * rin, 0, a);
      forall rout: nat ensures KeepsProduct(rin, rout, a, f) {
        ProductKept(rin, rout, a, f);
      }
    } else {
      var rout := Mul(den, rin + a);
      assert a > 0;
      MulStrictMono(0, a * (1000 - 2 * f) - f * rin, a);
      ProductLost(rin, a, f);
      assert !KeepsProduct(rin, rout, a, f);
    }
  }

  lemma CrossCancel(out: nat, den: nat, n: nat, rout: nat, a: nat, k: nat)
    requires den > 0 && out * den <= n * rout && n * k <= a * den
    ensures out * k <= a * rout
  {
    MulMono(out * den, n * rout, k);
    MulMono(n * k, a * den, rout);
    assert (n * rout) * k == (n * k) * rout;
    assert (out * den) * k == (out * k) * den;
    assert (a * den) * rout == (a * rout) * den;
    if out * k > a * rout {
      MulStrictMono(a * rout, out * k, den);
    }
  }

  lemma ProductKept(rin: nat, rout: nat, a: nat, f: nat)
    requires rin > 0 && f <= 1000
    requires Mul(a, 1000 - f) * (rin + a) <= a * (rin * 1000 + Mul(a, f))
    ensures KeepsProduct(rin, rout, a, f)
  {
    var out := QuoteOut(rin, rout, a, f);
    CrossCancel(out, rin * 1000 + Mul(a, f), Mul(a, 1000 - f), rout, a, rin + a);
    assert (rin + a) * (rout - out) == rin * rout + a * rout - out * (rin + a);
  }

  lemma ExactQuotient(n: nat, k: nat, den: nat)
    requires den > 0
    ensures Div(Mul(n, Mul(den, k)), den) == n * k
  {
    var q := Div(Mul(n, Mul(den, k)), den);
    assert n * (den * k) == (n * k) * den;
    assert (q + 1) * den == q * den + den && (n * k + 1) * den == (n * k) * den + den;
    if q < n * k {
      MulMono(q + 1, n * k, den);
    } else if q > n * k {
      MulMono(n * k + 1, q, den);
    }
  }

  lemma CrossLost(n: nat, den: nat, a: nat, rin: nat)
    requires n * (rin + a) > a * den && rin + a > 0
    ensures
      var rout, out := Mul(den, rin + a), n * (rin + a);
      (rin + a) * (rout - out) < rin * rout
  {
    var k := rin + a;
    var rout, out := Mul(den, k), n * k;
    MulStrictMono(a * den, out, k);
    assert a * rout == (a * den) * k;
    assert k * (rout - out) == k * rout - out * k;
    assert k * rout == rin * rout + a * rout;
  }

  lemma ProductLost(rin: nat, a: nat, f: nat)
    requires rin > 0 && f <= 1000
    requires Mul(a, 1000 - f) * (rin + a) > a * (rin * 1000 + Mul(a, f))
    ensures !KeepsProduct(rin, Mul(rin * 1000 + Mul(a, f), rin + a), a, f)
  {
    var n, den := Mul(a, 1000 - f), rin * 1000 + Mul(a, f);
    ExactQuotient(n, rin + a, den);
    CrossLost(n, den, a, rin);
  }

  // ----- the same in plain arithmetic -----

  /** `f` is the fee per 1000: a tenth of the basis points, rounded up, at most 1000. */
  ghost predicate IsFee(feeBps: nat, f: nat) {
    f <= 1000 && (f < 1000 ==> 10 * f >= feeBps) && (f > 0 ==> 10 * (f - 1) < feeBps)
  }

  lemma FeeIsRoundedUp(feeBps: nat, f: nat)
    ensures IsFee(feeBps, f) <==> f == FeePer1000(feeBps)
  {
  }

  /** What the quote pays and books, and when it refuses, if nothing overflows. */
  lemma QuotePaysExactly(state: PoolLiveState, amountIn: U256, feeBps: nat, f: nat)
    requires IsFee(feeBps, f)
    requires amountIn * (1000 - f) * state.reserve1 < WORD
    requires state.reserve0 * 1000 + amountIn * f < WORD && state.reserve0 + amountIn < WORD
    ensures Quote(state, amountIn, feeBps).None? <==> state.reserve0 == 0 || state.reserve1 == 0 || amountIn == 0
    ensures Quote(state, amountIn, feeBps).Some? ==>
      var q := Quote(state, amountIn, feeBps).value;
      var den := state.reserve0 * 1000 + amountIn * f;
      && den > 0 && q.amountOut == amountIn * (1000 - f) * state.reserve1 / den
      && q.stateAfter.V2After? && q.stateAfter.reserveIn == state.reserve0 + amountIn
      && q.stateAfter.reserveOut + q.amountOut
           == (if q.amountOut <= state.reserve1 then state.reserve1 else WORD + state.reserve1)
  {
    FeeIsRoundedUp(feeBps, f);
    MulNat(amountIn, f);
    if state.reserve0 > 0 && state.reserve1 > 0 && amountIn > 0 {
      assert Mul(Mul(amountIn, 1000 - f), state.reserve1) == amountIn * (1000 - f) * state.reserve1;
      QuoteIsExact(state, amountIn, feeBps);
    }
  }

  /** What `get_amount_in` answers, and when it refuses, if nothing overflows. */
  lemma AmountInExactly(state: PoolLiveState, amountOut: U256, feeBps: nat, f: nat)
    requires IsFee(feeBps, f) && state.reserve0 * amountOut * 1000 < WORD - 1
    requires amountOut < state.reserve1 ==> (state.reserve1 - amountOut) * (1000 - f) < WORD
    ensures GetAmountIn(state, amountOut, feeBps).None? <==>
              state.reserve0 == 0 || amountOut >= state.reserve1 || f == 1000
    ensures GetAmountIn(state, amountOut, feeBps).Some? ==>
      var den := (state.reserve1 - amountOut) * (1000 - f);
      den > 0 && GetAmountIn(state, amountOut, feeBps).value == state.reserve0 * amountOut * 1000 / den + 1
  {
    FeeIsRoundedUp(feeBps, f);
    if state.reserve0 > 0 && amountOut < state.reserve1 {
      if f < 1000 {
        MulStrictMono(0, state.reserve1 - amountOut, 1000 - f);
        assert Mul(state.reserve0, amountOut) * 1000 == state.reserve0 * amountOut * 1000;
        AmountInIsExact(state, amountOut, feeBps);
      } else {
        assert Mul(state.reserve1 - amountOut, 1000 - f) == 0;
      }
    }
  }

  /** The adapter computes an amount exactly on non-empty reserves without overflow, and it is the largest
      that meets the fee-adjusted constant-product inequality. */
  lemma AdapterPaysTheMost(reserveIn: U256, reserveOut: U256, amountIn: U256, out: nat)
    requires out <= reserveOut
    ensures AdapterOut(reserveIn, reserveOut, amountIn).Some? <==>
      && reserveIn > 0 && reserveOut > 0
      && amountIn * 997 < WORD && amountIn * 997 * reserveOut < WORD && reserveIn * 1000 + amountIn * 997 < WORD
    ensures AdapterOut(reserveIn, reserveOut, amountIn).Some? ==>
      (out <= AdapterOut(reserveIn, reserveOut, amountIn).value <==>
         ((reserveIn + amountIn) * 1000 - 3 * amountIn) * ((reserveOut - out) * 1000)
           >= reserveIn * reserveOut * 1_000_000)
  {
    if AdapterOut(reserveIn, reserveOut, amountIn).Some? {
      LargestOut(amountIn * 997, reserveIn * 1000, reserveOut, out);
      InThousandths(reserveIn, amountIn, reserveOut, reserveOut - out);
    }
  }

  lemma LargestOut(n: nat, base: nat, rout: nat, out: nat)
    requires base > 0 && out <= rout
    ensures out <= Div(Mul(n, rout), base + n) <==> (base + n) * (rout - out) >= base * rout
  {
    FloorReaches(Mul(n, rout), base + n, out);
    assert (base + n) * (rout - out) == base * rout + n * rout - out * (base + n);
  }

  lemma InThousandths(rin: nat, a: nat, rout: nat, left: nat)
    ensures (rin * 1000 + a * 997) * left >= (rin * 1000) * rout
       <==> ((rin + a) * 1000 - 3 * a) * (left * 1000) >= rin * rout * 1_000_000
  {
    var k := rin * 1000 + a * 997;
    assert k * (left * 1000) == (k * left) * 1000;
    assert (rin * 1000) * rout == (rin * rout) * 1000;
  }
}
