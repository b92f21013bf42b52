/** The guarded StableSwap solvers (crates/strategy-core/src/dex/curve.rs). */
module Curve {
  import opened Common
  import opened Arith
  import opened Pools

  /** How a guarded iteration ends: at a convergence break, at a zero check, or out of rounds. */
  datatype Exit = Converged(value: U256) | Stopped | Exhausted(value: U256)

  function Gap(a: nat, b: nat): nat {
    if a >= b then a - b else b - a
  }

  /** Each entry follows from the one before by `step`, and every move but the last is by more than 1. */
  ghost predicate Iterated(t: seq<nat>, step: (nat, nat) -> bool) {
    && t != []
    && (forall i :: 0 <= i < |t| - 1 ==> step(t[i], t[i + 1]))
    && (forall i :: 0 <= i < |t| - 2 ==> Gap(t[i], t[i + 1]) > 1)
  }

  lemma IteratedMore(d: nat, rest: seq<nat>, step: (nat, nat) -> bool)
    requires Iterated(rest, step) && step(d, rest[0]) && Gap(d, rest[0]) > 1
    ensures Iterated([d] + rest, step)
  {
    var t := [d] + rest;
    forall i | 0 <= i < |t| - 1 ensures step(t[i], t[i + 1]) {
      if i > 0 { assert t[i] == rest[i - 1] && t[i + 1] == rest[i]; }
    }
    forall i | 0 <= i < |t| - 2 ensures Gap(t[i], t[i + 1]) > 1 {
      if i > 0 { assert t[i] == rest[i - 1] && t[i + 1] == rest[i]; }
    }
  }

  // ----- compute_d -----

  /** One round of the invariant iteration, with wrap-around. */
  function DRound(s: U256, prod: U256, ann: nat, d: U256): U256
    requires d > 0 && ann < WORD - 1
  {
    Div(Wrap(Wrap(Mul(ann, s)) + Div(Wrap(prod * 4), d)), ann + 1)
  }

  function SolveD(s: U256, prod: U256, ann: nat, d: U256, rounds: nat): Exit
    requires ann < WORD - 1
    decreases rounds, d
  {
    if rounds == 0 then Exhausted(d)
    else if d == 0 then Stopped
    else
      var next := DRound(s, prod, ann, d);
      if Gap(next, d) <= 1 then Converged(next) else SolveD(s, prod, ann, next, rounds - 1)
  }

  const D_ROUNDS: nat := 256

  function ResultD(exit: Exit): Option<U256> {
    match exit
    case Stopped => None
    case Converged(d) => if d == 0 then None else Some(d)
    case Exhausted(d) => if d == 0 then None else Some(d)
  }

  /** The invariant of two reserves, as the solver finds it. */
  function DOf(x: U256, y: U256, a: U128): Option<U256> {
    var s := Wrap(x + y);
    if s == 0 then None else ResultD(SolveD(s, Wrap(Mul(x, y)), 4 * a, s, D_ROUNDS))
  }

  method ComputeD(x: U256, y: U256, a: U128) returns (r: Option<U256>)
    ensures r == DOf(x, y, a)
  {
    var s := Wrap(x + y);
    if s == 0 {
      return None;
    }
    r := IterateD(s, Wrap(Mul(x, y)), a * 2 * 2);
  }

  /** The fixed-point loop from the initial guess D = S. */
  method IterateD(s: U256, prod: U256, ann: nat) returns (r: Option<U256>)
    requires ann < WORD - 1
    ensures r == ResultD(SolveD(s, prod, ann, s, D_ROUNDS))
  {
    var d: U256 := s;
    ghost var goal := SolveD(s, prod, ann, s, D_ROUNDS);
    for round := 0 to D_ROUNDS
      invariant SolveD(s, prod, ann, d, D_ROUNDS - round) == goal
    {
      var dPrev := d;
      if d == 0 {
        return None;
      }
      var newD := DRound(s, prod, ann, d);
      if newD == dPrev {
        break;
      }
      if newD > dPrev {
        var delta := newD - dPrev;
        if delta <= 1 {
          d := newD;
          break;
        }
      } else if dPrev > newD {
        var delta := dPrev - newD;
        if delta <= 1 {
          d := newD;
          break;
        }
      }
      d := newD;
    }
    assert goal == Converged(d) || goal == Exhausted(d);
    r := if d == 0 then None else Some(d);
  }

  // ----- newton_y -----

  function YRound(x: U256, c: U256, y: U256): U256
    requires Wrap(Wrap(y * 2) + x) > 0
  {
    Div(Wrap(Wrap(Mul(y, y)) + c), Wrap(Wrap(y * 2) + x))
  }

  function SolveY(x: U256, c: U256, y: U256, rounds: nat): Exit
    decreases rounds, y
  {
    if rounds == 0 then Exhausted(y)
    else if y == 0 || x == 0 || Wrap(Wrap(y * 2) + x) == 0 then Stopped
    else
      var next := YRound(x, c, y);
      if Gap(next, y) <= 1 then Converged(next) else SolveY(x, c, next, rounds - 1)
  }

  const Y_ROUNDS: nat := 255

  function ResultY(exit: Exit, d: U256): Option<U256> {
    match exit
    case Stopped => None
    case Converged(y) => if y == 0 || y > d then None else Some(y)
    case Exhausted(y) => if y == 0 || y > d then None else Some(y)
  }

  /** The divisor of the constant term; the crate's division panics when it wraps to zero. */
  function YDivisor(x: U256, a: U128): U256 {
    Wrap(Mul(Wrap(4 * x), if a == 0 then 1 else a))
  }

  /** The constant term D^3 / (4 A x), with wrap-around. */
  function YConstant(x: U256, d: U256, a: U128): U256
    requires YDivisor(x, a) > 0
  {
    Div(Wrap(Mul(Wrap(Mul(d, d)), d)), YDivisor(x, a))
  }

  /** The out balance that goes with the in balance `x`, as the solver finds it. */
  function YOf(x: U256, d: U256, a: U128): Option<U256>
    requires x > 0 && d > 0 ==> YDivisor(x, a) > 0
  {
    if x == 0 || d == 0 then None else ResultY(SolveY(x, YConstant(x, d, a), d, Y_ROUNDS), d)
  }

  method NewtonY(x: U256, d: U256, a: U128) returns (r: Option<U256>)
    requires x > 0 && d > 0 ==> YDivisor(x, a) > 0
    ensures r == YOf(x, d, a)
  {
    if x == 0 {
      return None;
    }
    var y := IterateY(x, d, a);
    if y.None? || y.value == 0 || y.value > d {
      return None;
    }
    return y;
  }

  /** The value a run ends on; none at a zero check. */
  function LastOf(exit: Exit): Option<U256> {
    match exit
    case Stopped => None
    case Converged(v) => Some(v)
    case Exhausted(v) => Some(v)
  }

  /** The fixed-point loop from the initial guess y = D; nothing at a zero check. */
  method IterateY(x: U256, d: U256, a: U128) returns (r: Option<U256>)
    requires x > 0 && (d > 0 ==> YDivisor(x, a) > 0)
    ensures d == 0 ==> r == None
    ensures d > 0 ==> r == LastOf(SolveY(x, YConstant(x, d, a), d, Y_ROUNDS))
  {
    var y: U256 := d;
    if y == 0 {
      return None;
    }
    var c := YConstant(x, d, a);
    for round := 0 to Y_ROUNDS
      invariant LastOf(SolveY(x, c, y, Y_ROUNDS - round)) == LastOf(SolveY(x, c, d, Y_ROUNDS))
    {
      var yPrev := y;
      if y == 0 || x == 0 {
        return None;
      }
      var denom := Wrap(Wrap(y * 2) + x);
      if denom == 0 {
        return None;
      }
      y := YRound(x, c, y);
      if y == yPrev {
        break;
      }
      var converged := if y > yPrev then y - yPrev <= 1 else yPrev - y <= 1;
      if converged {
        break;
      }
    }
    assert LastOf(SolveY(x, c, d, Y_ROUNDS)) == Some(y);
    return Some(y);
  }

  // ----- quote -----

  /** The near-1:1 linear quote used when a solver gives no usable answer. */
  function FallbackQuote(state: PoolLiveState, amountIn: U256, feeBps: nat): HopQuote {
    var out := Div(Wrap(Mul(amountIn, FeeFactor(feeBps))), 10_000);
    HopQuote(out, StableAfter(Wrap(state.reserve0 + amountIn), Wrap(state.reserve1 - out)))
  }

  /** The quote that moves the out balance to `yNew` and pays the difference, less the fee. */
  function SolvedQuote(state: PoolLiveState, amountIn: U256, feeBps: nat, yNew: U256): HopQuote
    requires yNew <= state.reserve1
  {
    HopQuote(Div(Wrap(Mul(state.reserve1 - yNew, FeeFactor(feeBps))), 10_000),
             StableAfter(Wrap(state.reserve0 + amountIn), yNew))
  }

  /** The screen that `quote` puts before the solvers. */
  predicate Screened(state: PoolLiveState, amountIn: U256) {
    state.reserve0 > 0 && state.reserve1 > 0 && amountIn > 0 && state.ampCoeff > 0
  }

  /** The second solver is reached with a divisor that wraps to zero, where the crate's division panics. */
  predicate Panics(state: PoolLiveState, amountIn: U256) {
    var x := Wrap(state.reserve0 + amountIn);
    && Screened(state, amountIn) && DOf(state.reserve0, state.reserve1, state.ampCoeff).Some?
    && x > 0 && YDivisor(x, state.ampCoeff) == 0
  }

  /** The out balance the two solvers settle on, unless one of them gives up or the result fails the
      checks made on it. */
  function NewBalance(state: PoolLiveState, amountIn: U256): (r: Option<U256>)
    requires Screened(state, amountIn) && !Panics(state, amountIn)
    ensures r.Some? ==> 0 < r.value < state.reserve1 && state.reserve1 - r.value <= amountIn
  {
    match DOf(state.reserve0, state.reserve1, state.ampCoeff)
    case None => None
    case Some(d) =>
      match YOf(Wrap(state.reserve0 + amountIn), d, state.ampCoeff)
      case None => None
      case Some(y) => if y >= state.reserve1 || state.reserve1 - y > amountIn then None else Some(y)
  }

  function QuoteOf(state: PoolLiveState, amountIn: U256, feeBps: nat): Option<HopQuote>
    requires !Panics(state, amountIn)
  {
    if !Screened(state, amountIn) then None
    else match NewBalance(state, amountIn)
      case None => Some(FallbackQuote(state, amountIn, feeBps))
      case Some(yNew) => Some(SolvedQuote(state, amountIn, feeBps, yNew))
  }

  method Quote(state: PoolLiveState, amountIn: U256, feeBps: nat) returns (r: Option<HopQuote>)
    requires !Panics(state, amountIn)
    ensures r == QuoteOf(state, amountIn, feeBps)
  {
    var (x0, y0) := (state.reserve0, state.reserve1);
    if x0 == 0 || y0 == 0 || amountIn == 0 || state.ampCoeff == 0 {
      return None;
    }
    var x := Wrap(x0 + amountIn);
    var d := ComputeD(x0, y0, state.ampCoeff);
    if d.None? {
      return Some(FallbackQuote(state, amountIn, feeBps));
    }
    var yNew := NewtonY(x, d.value, state.ampCoeff);
    if yNew.None? || yNew.value >= y0 {
      return Some(FallbackQuote(state, amountIn, feeBps));
    }
    var dy := y0 - yNew.value;
    if dy > amountIn {
      return Some(FallbackQuote(state, amountIn, feeBps));
    }
    var out := Div(Wrap(Mul(dy, FeeFactor(feeBps))), 10_000);
    return Some(HopQuote(out, StableAfter(x, yNew.value)));
  }

  /** No stable quote pays more than the input less its fee, overflow or not. */
  lemma QuoteWithinInput(state: PoolLiveState, amountIn: U256, feeBps: nat)
    requires !Panics(state, amountIn) && QuoteOf(state, amountIn, feeBps).Some?
    ensures QuoteOf(state, amountIn, feeBps).value.amountOut <= AfterFee(amountIn, feeBps)
  {
    match NewBalance(state, amountIn) {
      case None => WrappedFee(amountIn, amountIn, feeBps);
      case Some(yNew) => WrappedFee(state.reserve1 - yNew, amountIn, feeBps);
    }
  }

  /** A quote promises more than the pool holds exactly when it is a fallback for more, after fees, than
      the out balance; then the booked balance has wrapped round. */
  lemma OverpayingIsFallingBack(state: PoolLiveState, amountIn: U256, feeBps: nat)
    requires Screened(state, amountIn) && !Panics(state, amountIn) && Mul(amountIn, FeeFactor(feeBps)) < WORD
    ensures
      var q := QuoteOf(state, amountIn, feeBps).value;
      && (q.amountOut > state.reserve1 <==>
            NewBalance(state, amountIn).None? && AfterFee(amountIn, feeBps) > state.reserve1)
      && (q.amountOut > state.reserve1 ==> q.stateAfter.balance1 == WORD + state.reserve1 - q.amountOut)
  {
    match NewBalance(state, amountIn) {
      case None =>
        var short := state.reserve1 - FallbackQuote(state, amountIn, feeBps).amountOut;
        if short < 0 {
          WrapBelowZero(short);
        }
      case Some(yNew) =>
        var dy := state.reserve1 - yNew;
        WrappedFee(dy, dy, feeBps);
        AfterFeeOfSum(dy, 0, feeBps);
    }
  }

  lemma WrappedFee(dy: nat, amountIn: nat, feeBps: nat)
    requires dy <= amountIn
    ensures Div(Wrap(Mul(dy, FeeFactor(feeBps))), 10_000) <= AfterFee(amountIn, feeBps)
  {
    var f := FeeFactor(feeBps);
    MulMono(dy, amountIn, f);
    WrapNeverGrows(Mul(dy, f));
    DivMono(Wrap(Mul(dy, f)), amountIn * f, 10_000);
  }
}
