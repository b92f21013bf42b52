/** `compute_d` always leaves through a convergence break. */
module CurveD {
  import opened Common
  import opened Arith
  import opened Curve

  /** The round without wrap-around. */
  function DStep(s: nat, p: nat, ann: nat, d: nat): nat
    requires d > 0
  {
    Div(Mul(ann, s) + Div(4 * p, d), ann + 1)
  }

  /** The lowest value any round can return. */
  function Low(s: nat, ann: nat): nat {
    Div(Mul(ann, s), ann + 1)
  }

  lemma DStepAboveLow(s: nat, p: nat, ann: nat, d: nat)
    requires d > 0
    ensures DStep(s, p, ann, d) >= Low(s, ann)
  {
    DivMono(Mul(ann, s), Mul(ann, s) + Div(4 * p, d), ann + 1);
  }

  /** With A >= 1 the low mark is four fifths of the reserve sum, up to rounding. */
  lemma LowIsHigh(s: nat, ann: nat)
    requires ann >= 4
    ensures 4 * s - 4 <= 5 * Low(s, ann) && Low(s, ann) <= s
    ensures s >= 2 ==> Low(s, ann) > 0 && 2 * Low(s, ann) >= s
  {
    var l := Low(s, ann);
    var u := s - l;
    assert u * (ann + 1) == ann * s + s - l * (ann + 1);
    if u >= 1 {
      MulMono(5, ann + 1, u - 1);
      assert (u - 1) * (ann + 1) == u * (ann + 1) - (ann + 1) && (ann + 1) * (u - 1) == (u - 1) * (ann + 1);
    } else if u < 0 {
      MulMono(u, -1, ann + 1);
    }
  }

  /** For reserve sums of at least 9 the square of the sum is at most twice that of the low mark. */
  lemma SquareBound(s: nat, low: nat)
    requires s >= 9 && 5 * low >= 4 * s - 4
    ensures s * s <= 2 * (low * low)
  {
    var q := s - 1;
    MulMono(4 * q, 5 * low, 4 * q);
    MulMono(4 * q, 5 * low, 5 * low);
    assert (4 * q) * (4 * q) == 16 * (q * q) && (5 * low) * (5 * low) == 25 * (low * low);
    assert (5 * low) * (4 * q) == (4 * q) * (5 * low);
    MulMono(8, q, q);
    assert s * s == q * q + 2 * q + 1;
  }

  lemma FourProducts(x: nat, y: nat)
    ensures 4 * Mul(x, y) <= (x + y) * (x + y)
  {
    var z := x - y;
    assert (x + y) * (x + y) == 4 * (x * y) + z * z;
    if z >= 0 {
      MulNat(z, z);
    } else {
      MulNat(-z, -z);
      assert (-z) * (-z) == z * z;
    }
  }

  lemma TermBelow(fourP: nat, low: nat, d: nat)
    requires 0 < low <= d && fourP <= 2 * (low * low)
    ensures Div(fourP, d) <= 2 * low
  {
    MulMono(low, d, low);
    FloorReaches(fourP, d, 2 * low + 1);
    assert (2 * low + 1) * d == 2 * (d * low) + d;
  }

  lemma LargerDivisor(n: nat, d: nat, e: nat)
    requires 0 < d <= e
    ensures Div(n, e) <= Div(n, d)
  {
    var t := Div(n, e);
    MulMono(d, e, t);
    assert d * t == t * d && e * t == t * e;
    FloorReaches(n, d, t);
  }

  lemma ShiftedProduct(t: int, d: nat, delta: nat)
    requires t <= 2 * (d + delta)
    ensures (t - 2 * delta) * (d + delta) <= t * d
  {
    MulMono(t - 2 * (d + delta), 0, delta);
    assert (t - 2 * delta) * (d + delta) == t * d + (t - 2 * (d + delta)) * delta;
  }

  /** The 4P/d term moves at most twice as far as d does. */
  lemma TermMoves(fourP: nat, low: nat, d: nat, e: nat)
    requires 0 < low <= d <= e && fourP <= 2 * (low * low)
    ensures Div(fourP, e) <= Div(fourP, d) <= Div(fourP, e) + 2 * (e - d)
  {
    LargerDivisor(fourP, d, e);
    TermBelow(fourP, low, d);
    var t := Div(fourP, d);
    ShiftedProduct(t, d, e - d);
    FloorReaches(fourP, e, t - 2 * (e - d));
  }

  /** Dividing by at least 5 brings a move of 2 * delta down to half of delta, rounded up. */
  lemma QuotientMoves(k: nat, t: nat, t': nat, delta: nat, den: nat)
    requires t' <= t <= t' + 2 * delta && den >= 5
    ensures Div(k + t', den) <= Div(k + t, den)
    ensures 2 * (Div(k + t, den) - Div(k + t', den)) <= delta + 1
  {
    DivMono(k + t', k + t, den);
    var m := Div(k + t, den) - Div(k + t', den);
    assert m * den == Div(k + t, den) * den - Div(k + t', den) * den;
    if m > 0 {
      MulMono(5, den, m - 1);
      assert den * (m - 1) == m * den - den;
    }
  }

  /** Each round at least halves the gap between two values, up to rounding. */
  lemma StepsContract(s: nat, p: nat, ann: nat, d: nat, e: nat)
    requires ann >= 4 && s >= 9 && 4 * p <= s * s
    requires d >= Low(s, ann) && e >= Low(s, ann) && d > 0 && e > 0
    ensures 2 * Gap(DStep(s, p, ann, d), DStep(s, p, ann, e)) <= Gap(d, e) + 1
  {
    LowIsHigh(s, ann);
    SquareBound(s, Low(s, ann));
    var lo, hi := if d <= e then d else e, if d <= e then e else d;
    TermMoves(4 * p, Low(s, ann), lo, hi);
    QuotientMoves(Mul(ann, s), Div(4 * p, lo), Div(4 * p, hi), hi - lo, ann + 1);
  }

  // ----- the code's rounds are the exact ones -----

  /** No round of the iteration from `d` overflows 256 bits. */
  ghost predicate RoundsFit(s: nat, p: nat, ann: nat, d: nat, rounds: nat)
    decreases rounds, d
  {
    rounds == 0 || d == 0 ||
    (Mul(ann, s) + Div(4 * p, d) < WORD
     && (Gap(DStep(s, p, ann, d), d) <= 1 || RoundsFit(s, p, ann, DStep(s, p, ann, d), rounds - 1)))
  }

  /** Nothing in `compute_d` overflows on these reserves: not the sum, not 4P, not any round. */
  ghost predicate PoolFits(x: nat, y: nat, a: nat) {
    && x + y < WORD && 4 * Mul(x, y) < WORD
    && RoundsFit(x + y, Mul(x, y), 4 * a, x + y, D_ROUNDS)
  }

  lemma TermFits(s: nat, p: nat, d: nat)
    requires 4 * p <= s * s && s <= 2 * d && d > 0
    ensures Div(4 * p, d) <= 2 * s
  {
    MulMono(s, 2 * d, s);
    FloorReaches(4 * p, d, 2 * s + 1);
    assert (2 * s + 1) * d == (2 * d) * s + d;
  }

  /** Reserves with 4 A S + 2 S below 2^256 fit. */
  lemma ModestPoolFits(x: nat, y: nat, a: nat)
    requires x > 0 && y > 0 && a > 0 && 4 * Mul(x, y) < WORD && Mul(4 * a, x + y) + 2 * (x + y) < WORD
    ensures PoolFits(x, y, a)
  {
    FourProducts(x, y);
    LowIsHigh(x + y, 4 * a);
    ModestRoundsFit(x + y, Mul(x, y), 4 * a, x + y, D_ROUNDS);
  }

  lemma {:induction false} ModestRoundsFit(s: nat, p: nat, ann: nat, d: nat, rounds: nat)
    requires ann >= 4 && s >= 2 && 4 * p <= s * s && d >= Low(s, ann) && Mul(ann, s) + 2 * s < WORD
    ensures RoundsFit(s, p, ann, d, rounds)
    decreases rounds
  {
    if rounds > 0 {
      LowIsHigh(s, ann);
      TermFits(s, p, d);
      DStepAboveLow(s, p, ann, d);
      ModestRoundsFit(s, p, ann, DStep(s, p, ann, d), rounds - 1);
    }
  }

  lemma RoundIsExact(s: U256, p: U256, ann: nat, d: U256)
    requires d > 0 && ann < WORD - 1 && 4 * p < WORD
    requires Mul(ann, s) + Div(4 * p, d) < WORD
    ensures DRound(s, p, ann, d) == DStep(s, p, ann, d)
  {
    assert Wrap(p * 4) == 4 * p && Wrap(Mul(ann, s)) == Mul(ann, s);
    assert Wrap(Mul(ann, s) + Div(4 * p, d)) == Mul(ann, s) + Div(4 * p, d);
  }

  /** The solver without wrap-around. */
  function SolveExactly(s: nat, p: nat, ann: nat, d: nat, rounds: nat): (exit: Option<nat>)
    decreases rounds, d
  {
    if rounds == 0 || d == 0 then None
    else
      var next := DStep(s, p, ann, d);
      if Gap(next, d) <= 1 then Some(next) else SolveExactly(s, p, ann, next, rounds - 1)
  }

  lemma {:induction false} SolveIsExact(s: U256, p: U256, ann: nat, d: U256, rounds: nat)
    requires ann < WORD - 1 && 4 * p < WORD && RoundsFit(s, p, ann, d, rounds)
    ensures SolveD(s, p, ann, d, rounds).Converged? <==> SolveExactly(s, p, ann, d, rounds).Some?
    ensures SolveD(s, p, ann, d, rounds).Converged? ==>
              SolveD(s, p, ann, d, rounds).value == SolveExactly(s, p, ann, d, rounds).value
    decreases rounds
  {
    if rounds > 0 && d > 0 {
      RoundIsExact(s, p, ann, d);
      var next := DRound(s, p, ann, d);
      if Gap(next, d) > 1 {
        SolveIsExact(s, p, ann, next, rounds - 1);
      }
    }
  }

  // ----- convergence -----

  /** From a first gap of at most 2^r, r + 1 rounds are enough. */
  lemma {:induction false} ConvergesWithin(s: nat, p: nat, ann: nat, d: nat, r: nat, rounds: nat)
    requires ann >= 4 && s >= 9 && 4 * p <= s * s && d >= Low(s, ann) && d > 0
    requires Gap(DStep(s, p, ann, d), d) <= Pow2(r) && rounds > r
    ensures SolveExactly(s, p, ann, d, rounds).Some?
    decreases r
  {
    var next := DStep(s, p, ann, d);
    if Gap(next, d) > 1 {
      DStepAboveLow(s, p, ann, d);
      LowIsHigh(s, ann);
      StepsContract(s, p, ann, next, d);
      ConvergesWithin(s, p, ann, next, r - 1, rounds - 1);
    }
  }

  lemma QuotientNear(s: nat, t: nat, ann: nat)
    requires ann >= 4 && 1 <= s && t <= s <= t + 5
    ensures Gap(Div(Mul(ann, s) + t, ann + 1), s) <= 1
  {
    FloorReaches(Mul(ann, s) + t, ann + 1, s + 1);
    assert (s + 1) * (ann + 1) == ann * s + s + ann + 1;
    FloorReaches(Mul(ann, s) + t, ann + 1, s - 1);
    assert (s - 1) * (ann + 1) == ann * s + s - ann - 1;
  }

  /** Small reserve sums settle in the first round. */
  lemma SmallSumSettles(s: nat, p: nat, ann: nat)
    requires ann >= 4 && 2 <= s <= 8 && s - 1 <= p && 4 * p <= s * s
    ensures Gap(DStep(s, p, ann, s), s) <= 1
  {
    FloorReaches(4 * p, s, s + 1);
    assert (s + 1) * s == s * s + s;
    FloorReaches(4 * p, s, s - 5);
    QuotientNear(s, Div(4 * p, s), ann);
  }

  /** Two non-empty reserves and A >= 1, in the terms of the iteration. */
  ghost predicate Setting(s: nat, p: nat, ann: nat) {
    4 <= ann < WORD - 1 && 2 <= s && 4 * s < WORD && s - 1 <= p && 4 * p < WORD && 4 * p <= s * s
  }

  lemma SettingOf(x: U256, y: U256, a: U128)
    requires x > 0 && y > 0 && a > 0 && PoolFits(x, y, a)
    ensures Setting(x + y, Mul(x, y), 4 * a)
  {
    FourProducts(x, y);
    assert (x - 1) * (y - 1) == Mul(x, y) - (x + y) + 1;
    MulNat(x - 1, y - 1);
    FirstRoundFits(x + y, Mul(x, y), 4 * a, D_ROUNDS);
    MulMono(4, 4 * a, x + y);
  }

  lemma FirstRoundFits(s: nat, p: nat, ann: nat, rounds: nat)
    requires s > 0 && rounds > 0 && RoundsFit(s, p, ann, s, rounds)
    ensures Mul(ann, s) < WORD
  {
  }

  /** For two non-empty reserves and A >= 1 the solver always converges: the cap of 256 rounds and
      the zero check are never what ends the loop. */
  lemma ComputeDConverges(x: U256, y: U256, a: U128)
    requires x > 0 && y > 0 && a > 0 && PoolFits(x, y, a)
    ensures SolveD(x + y, Mul(x, y), 4 * a, x + y, D_ROUNDS).Converged?
  {
    SettingOf(x, y, a);
    SettledSolve(x + y, Mul(x, y), 4 * a);
  }

  lemma LargeSumSettles(s: nat, p: nat, ann: nat, n: nat)
    requires ann >= 4 && s >= 9 && 4 * p <= s * s && 4 * s < WORD && n == 256
    ensures SolveExactly(s, p, ann, s, n).Some?
  {
    WordIsPow2(n);
    LowIsHigh(s, ann);
    assert Pow2(n) == 2 * Pow2(n - 1);
    StartingGap(s, p, ann);
    ConvergesWithin(s, p, ann, s, n - 1, n);
  }

  lemma StartingGap(s: nat, p: nat, ann: nat)
    requires ann >= 4 && s >= 2 && 4 * p <= s * s
    ensures Gap(DStep(s, p, ann, s), s) <= s
  {
    FloorReaches(4 * p, s, s + 1);
    Distributes(s, 1, s);
    QuotientAtMost(s, Div(4 * p, s), ann);
  }

  lemma QuotientAtMost(s: nat, t: nat, ann: nat)
    requires t <= s
    ensures Div(Mul(ann, s) + t, ann + 1) <= s
  {
    FloorReaches(Mul(ann, s) + t, ann + 1, s + 1);
    assert (s + 1) * (ann + 1) == ann * s + s + ann + 1;
  }

  lemma SettledSolve(s: U256, p: U256, ann: nat)
    requires Setting(s, p, ann) && RoundsFit(s, p, ann, s, D_ROUNDS)
    ensures SolveD(s, p, ann, s, D_ROUNDS).Converged?
  {
    LowIsHigh(s, ann);
    SolveIsExact(s, p, ann, s, D_ROUNDS);
    if s <= 8 {
      SmallSumSettles(s, p, ann);
    } else {
      LargeSumSettles(s, p, ann, D_ROUNDS);
    }
  }

  // ----- what the converged value is -----

  /** (4A + 1) z^2 - 4A S z - 4P, whose positive root the iteration seeks. */
  function Residual(s: nat, p: nat, ann: nat, z: nat): int {
    Mul(Mul(ann + 1, z), z) - Mul(Mul(ann, s), z) - 4 * p
  }

  /** The converged value is the round's image of a value within 1 of it, and the positive root of
      the residual lies between one below and two above it. */
  lemma {:induction false} ConvergedIsNearRoot(s: nat, p: nat, ann: nat, d: nat, rounds: nat) returns (last: nat)
    requires ann >= 4 && s >= 2 && d >= Low(s, ann) && SolveExactly(s, p, ann, d, rounds).Some?
    ensures
      var v := SolveExactly(s, p, ann, d, rounds).value;
      && last >= Low(s, ann) && last > 0 && v == DStep(s, p, ann, last) && Gap(v, last) <= 1
      && v >= Low(s, ann) && v > 0
      && Residual(s, p, ann, v - 1) <= 0 < Residual(s, p, ann, v + 2)
    decreases rounds
  {
    DStepAboveLow(s, p, ann, d);
    LowIsHigh(s, ann);
    var next := DStep(s, p, ann, d);
    if Gap(next, d) <= 1 {
      last := d;
      RootNotAbove(s, p, ann, d, next);
      RootNotBelow(s, p, ann, d, next);
    } else {
      last := ConvergedIsNearRoot(s, p, ann, next, rounds - 1);
    }
  }

  lemma QuadraticNotAbove(m: nat, k: nat, t: nat, w: nat, fourP: nat)
    requires (w + 1) * m <= k + t && t * w <= fourP
    ensures (m * w) * w <= k * w + fourP
  {
    MulMono((w + 1) * m, k + t, w);
    Distributes(k, t, w);
    Distributes(w, 1, m);
    Distributes(w * m, m, w);
    MulNat(m, w);
  }

  lemma RootNotAbove(s: nat, p: nat, ann: nat, d: nat, v: nat)
    requires d > 0 && v == DStep(s, p, ann, d) && v <= d + 1 && v > 0
    ensures Residual(s, p, ann, v - 1) <= 0
  {
    var t := Div(4 * p, d);
    MulMono(v - 1, d, t);
    QuadraticNotAbove(ann + 1, Mul(ann, s), t, v - 1, 4 * p);
  }

  lemma QuadraticNotBelow(m: nat, k: nat, t: nat, z: nat, fourP: nat)
    requires z > 0 && (z - 1) * m >= k + t + 1 && (t + 1) * z > fourP
    ensures (m * z) * z > k * z + fourP
  {
    MulMono(k + t + 1, (z - 1) * m, z);
    Distributes(k, t + 1, z);
    MulMono(z - 1, z, m);
    MulMono((z - 1) * m, z * m, z);
  }

  lemma RootNotBelow(s: nat, p: nat, ann: nat, d: nat, v: nat)
    requires d > 0 && v == DStep(s, p, ann, d) && d <= v + 1
    ensures Residual(s, p, ann, v + 2) > 0
  {
    var t := Div(4 * p, d);
    Distributes(t, 1, d);
    MulMono(d, v + 2, t + 1);
    Distributes(v, 1, ann + 1);
    QuadraticNotBelow(ann + 1, Mul(ann, s), t, v + 2, 4 * p);
  }

  /** What `compute_d` returns on any screened pool that does not overflow: a value within two of the
      positive root, never `None`. */
  lemma ComputeDFindsRoot(x: U256, y: U256, a: U128)
    requires x > 0 && y > 0 && a > 0 && PoolFits(x, y, a)
    ensures
      var (s, p, ann) := (x + y, Mul(x, y), 4 * a);
      var r := DOf(x, y, a);
      && r.Some? && r.value > 0 && r.value >= Low(s, ann)
      && Residual(s, p, ann, r.value - 1) <= 0 < Residual(s, p, ann, r.value + 2)
  {
    SettingOf(x, y, a);
    SettledRoot(x + y, Mul(x, y), 4 * a);
  }

  lemma SettledRoot(s: U256, p: U256, ann: nat)
    requires Setting(s, p, ann) && RoundsFit(s, p, ann, s, D_ROUNDS)
    ensures
      var r := ResultD(SolveD(s, p, ann, s, D_ROUNDS));
      && r.Some? && r.value > 0 && r.value >= Low(s, ann)
      && Residual(s, p, ann, r.value - 1) <= 0 < Residual(s, p, ann, r.value + 2)
  {
    SettledSolve(s, p, ann);
    LowIsHigh(s, ann);
    SolveIsExact(s, p, ann, s, D_ROUNDS);
    var last := ConvergedIsNearRoot(s, p, ann, s, D_ROUNDS);
  }

  /** One round in plain arithmetic: D becomes (4A S + floor(4P / D)) / (4A + 1), rounded down. */
  ghost function RoundOf(s: nat, p: nat, ann: nat): (nat, nat) -> bool {
    (d, next) => d > 0 && next == (ann * s + 4 * p / d) / (ann + 1)
  }

  lemma {:induction false} SettledIterates(s: nat, p: nat, ann: nat, d: nat, rounds: nat) returns (t: seq<nat>)
    requires SolveExactly(s, p, ann, d, rounds).Some?
    ensures Iterated(t, RoundOf(s, p, ann)) && 2 <= |t| <= rounds + 1 && t[0] == d
    ensures Gap(t[|t| - 2], t[|t| - 1]) <= 1
    ensures SolveExactly(s, p, ann, d, rounds) == Some(t[|t| - 1])
    decreases rounds
  {
    var next := DStep(s, p, ann, d);
    StepIsRound(s, p, ann, d);
    if Gap(next, d) <= 1 {
      t := [d, next];
    } else {
      var rest := SettledIterates(s, p, ann, next, rounds - 1);
      t := [d] + rest;
      IteratedMore(d, rest, RoundOf(s, p, ann));
    }
  }

  lemma StepIsRound(s: nat, p: nat, ann: nat, d: nat)
    requires d > 0
    ensures RoundOf(s, p, ann)(d, DStep(s, p, ann, d))
  {
    assert Mul(ann, s) == ann * s && Div(4 * p, d) == 4 * p / d;
  }

  /** `compute_d` returns the first iterate, starting from the sum S of the reserves, that moved by at
      most 1. */
  lemma DIsFirstSettledIterate(x: U256, y: U256, a: U128) returns (t: seq<nat>)
    requires x > 0 && y > 0 && a > 0 && PoolFits(x, y, a)
    ensures Iterated(t, RoundOf(x + y, x * y, 4 * a)) && 2 <= |t| <= 257 && t[0] == x + y
    ensures Gap(t[|t| - 2], t[|t| - 1]) <= 1
    ensures DOf(x, y, a) == Some(t[|t| - 1])
  {
    SettingOf(x, y, a);
    t := FirstSettled(x + y, Mul(x, y), 4 * a, D_ROUNDS);
    ComputeDFindsRoot(x, y, a);
  }

  lemma ExactlySettled(s: U256, p: U256, ann: nat, rounds: nat)
    requires Setting(s, p, ann) && rounds == D_ROUNDS && RoundsFit(s, p, ann, s, rounds)
    ensures SolveExactly(s, p, ann, s, rounds).Some?
    ensures SolveD(s, p, ann, s, rounds).Converged?
    ensures SolveD(s, p, ann, s, rounds).value == SolveExactly(s, p, ann, s, rounds).value
  {
    SettledSolve(s, p, ann);
    SolveIsExact(s, p, ann, s, rounds);
  }

  lemma FirstSettled(s: U256, p: U256, ann: nat, rounds: nat) returns (t: seq<nat>)
    requires Setting(s, p, ann) && rounds == D_ROUNDS && RoundsFit(s, p, ann, s, rounds)
    ensures Iterated(t, RoundOf(s, p, ann)) && 2 <= |t| <= 257 && t[0] == s
    ensures Gap(t[|t| - 2], t[|t| - 1]) <= 1
    ensures t[|t| - 1] < WORD && SolveD(s, p, ann, s, rounds) == Converged(t[|t| - 1])
  {
    ExactlySettled(s, p, ann, rounds);
    t := SettledIterates(s, p, ann, s, rounds);
  }

  /** The returned invariant is at most one above the sum of the reserves. */
  lemma InvariantWithinSum(s: nat, p: nat, ann: nat, d: nat)
    requires d > 0 && 4 * p <= s * s && Residual(s, p, ann, d - 1) <= 0
    ensures d <= s + 1
  {
    var z := d - 1;
    if z > s {
      assert ((ann + 1) * z) * z == (ann * z) * z + z * z;
      MulMono(s, z, ann);
      assert s * ann == ann * s && z * ann == ann * z;
      MulMono(ann * s, ann * z, z);
      MulStrictMono(s, z, z);
      MulMono(s, z, s);
    }
  }

  // ----- without amplification -----

  lemma ZeroAmpRound(s: U256, p: U256, ann: nat, d: U256)
    requires s == 10 && p == 9 && ann == 0 && (d == 10 || d == 3 || d == 12)
    ensures DStep(s, p, ann, d) == DRound(s, p, ann, d) == if d == 3 then 12 else 3
    ensures Mul(ann, s) + Div(4 * p, d) < WORD
  {
  }

  lemma SolveGoesOn(s: U256, p: U256, ann: nat, d: U256, next: U256, rounds: nat)
    requires ann < WORD - 1 && d > 0 && rounds > 0 && next == DRound(s, p, ann, d) == DStep(s, p, ann, d)
    requires Gap(next, d) > 1 && Mul(ann, s) + Div(4 * p, d) < WORD
    ensures SolveD(s, p, ann, d, rounds) == SolveD(s, p, ann, next, rounds - 1)
    ensures RoundsFit(s, p, ann, next, rounds - 1) ==> RoundsFit(s, p, ann, d, rounds)
  {
  }

  /** With A = 0, which `quote` screens out, the reserves (1, 9) make the loop alternate until the cap. */
  lemma {:induction false} ZeroAmpNeverSettles(s: U256, p: U256, ann: nat, d: U256, rounds: nat)
    requires s == 10 && p == 9 && ann == 0 && (d == 10 || d == 3 || d == 12)
    ensures SolveD(s, p, ann, d, rounds).Exhausted? && RoundsFit(s, p, ann, d, rounds)
    decreases rounds
  {
    if rounds > 0 {
      var next: U256 := if d == 3 then 12 else 3;
      ZeroAmpNeverSettles(s, p, ann, next, rounds - 1);
      ZeroAmpRound(s, p, ann, d);
      SolveGoesOn(s, p, ann, d, next, rounds);
    }
  }

  lemma ZeroAmpPool(x: U256, y: U256, a: U128)
    requires x == 1 && y == 9 && a == 0
    ensures PoolFits(x, y, a) && SolveD(x + y, Mul(x, y), 4 * a, x + y, D_ROUNDS).Exhausted?
  {
    ZeroAmpNeverSettles(x + y, Mul(x, y), 4 * a, x + y, D_ROUNDS);
  }

  ghost predicate AlwaysConverges(a: U128) {
    forall x: U256, y: U256 :: x > 0 && y > 0 && PoolFits(x, y, a) ==>
      SolveD(x + y, Mul(x, y), 4 * a, x + y, D_ROUNDS).Converged?
  }

  /** The zero-amplification guard in `quote` is exactly what makes the solver settle on every pool. */
  lemma ConvergesExactlyWhenAmplified(a: U128)
    ensures AlwaysConverges(a) <==> a > 0
  {
    if a > 0 {
      forall x: U256, y: U256 | x > 0 && y > 0 && PoolFits(x, y, a)
        ensures SolveD(x + y, Mul(x, y), 4 * a, x + y, D_ROUNDS).Converged?
      {
        ComputeDConverges(x, y, a);
      }
    } else {
      ZeroAmpPool(1, 9, a);
    }
  }
}
