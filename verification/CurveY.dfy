/** `newton_y` converges to the integer root of y^2 + x y = c, or one above it. */
module CurveY {
  import opened Common
  import opened Arith
  import opened Curve

  /** `r` is the positive root of y^2 + x y = c, rounded down. */
  ghost predicate IsRoot(x: nat, c: nat, r: nat) {
    Mul(r, r + x) <= c < Mul(r + 1, r + 1 + x)
  }

  /** Every equation with x > 0 has exactly one such root. */
  lemma RootExists(x: nat, c: nat) returns (r: nat)
    requires x > 0
    ensures IsRoot(x, c, r)
    ensures forall other: nat :: IsRoot(x, c, other) ==> other == r
  {
    r := c + 1;
    MulMono(1, r + x, r);
    assert r * (r + x) == (r + x) * r;
    while Mul(r, r + x) > c
      invariant Mul(r + 1, r + 1 + x) > c
      decreases r
    {
      r := r - 1;
    }
    forall other: nat | IsRoot(x, c, other) ensures other == r {
      RootsOrdered(x, c, r, other);
      RootsOrdered(x, c, other, r);
    }
  }

  lemma RootsOrdered(x: nat, c: nat, r: nat, other: nat)
    requires IsRoot(x, c, r) && IsRoot(x, c, other)
    ensures r <= other
  {
    if other + 1 <= r {
      MulBoth(other + 1, r, other + 1 + x, r + x);
    }
  }

  /** The round without wrap-around. */
  function YStep(x: nat, c: nat, y: nat): nat
    requires x > 0
  {
    Div(Mul(y, y) + c, 2 * y + x)
  }

  /** No round falls below the root. */
  lemma YStepAboveRoot(x: nat, c: nat, y: nat, r: nat)
    requires x > 0 && IsRoot(x, c, r)
    ensures YStep(x, c, y) >= r
  {
    TangentBelow(x, y, r);
    FloorReaches(Mul(y, y) + c, 2 * y + x, r);
  }

  lemma TangentBelow(x: nat, y: nat, r: nat)
    ensures r * (2 * y + x) <= y * y + r * (r + x)
  {
    var z := y - r;
    assert z * z == y * y - 2 * (y * r) + r * r;
    assert r * (2 * y + x) == 2 * (y * r) + r * x;
    assert r * (r + x) == r * r + r * x;
    if z >= 0 {
      MulNat(z, z);
    } else {
      MulNat(-z, -z);
      assert (-z) * (-z) == z * z;
    }
  }

  /** Above the root the error at least halves; at the root it stays below two. */
  lemma YStepHalvesError(x: nat, c: nat, y: nat, r: nat)
    requires x > 0 && IsRoot(x, c, r) && y >= r
    ensures y > r ==> 2 * (YStep(x, c, y) - r) <= y - r
    ensures y == r ==> YStep(x, c, y) <= r + 1
  {
    var e, m, y' := y - r, 2 * r + x, YStep(x, c, y);
    YStepAboveRoot(x, c, y, r);
    var e' := y' - r;
    ErrorIdentity(x, c, y, r, y');
    ErrorBound(e, m, e');
  }

  lemma ErrorIdentity(x: nat, c: nat, y: nat, r: nat, y': nat)
    requires c < Mul(r + 1, r + 1 + x) && y' * (2 * y + x) <= y * y + c && y >= r && y' >= r
    ensures (y' - r) * (2 * (y - r) + 2 * r + x) <= (y - r) * (y - r) + 2 * r + x
  {
    Distributes(y' - r, r, 2 * y + x);
    assert (y - r) * (y - r) == y * y - 2 * (y * r) + r * r;
    assert r * (2 * y + x) == 2 * (y * r) + r * x;
    assert (r + 1) * (r + 1 + x) == r * r + r * x + 2 * r + x + 1;
  }

  lemma ErrorBound(e: nat, m: nat, e': nat)
    requires e' * (2 * e + m) <= e * e + m && m > 0
    ensures e > 0 ==> 2 * e' <= e
    ensures e == 0 ==> e' <= 1
  {
    if e > 0 && 2 * e' >= e + 1 {
      MulMono(e + 1, 2 * e', 2 * e + m);
      assert (2 * e') * (2 * e + m) == 2 * (e' * (2 * e + m));
      assert (e + 1) * (2 * e + m) == 2 * (e * e) + e * m + 2 * e + m;
      MulMono(1, e, m);
    }
    if e == 0 && e' >= 2 {
      MulMono(2, e', m);
    }
  }

  // ----- convergence -----

  /** The solver without wrap-around. */
  function SolveExactly(x: nat, c: nat, y: nat, rounds: nat): Exact
    requires x > 0
    decreases rounds, y
  {
    if rounds == 0 then OutOfRounds
    else if y == 0 then AtZero
    else
      var next := YStep(x, c, y);
      if Gap(next, y) <= 1 then Settled(next) else SolveExactly(x, c, next, rounds - 1)
  }

  datatype Exact = Settled(value: nat) | AtZero | OutOfRounds

  /** The loop ends at a convergence break holding the root or one above it; a zero root may also
      end it at the zero check. */
  ghost predicate Solves(exit: Exact, r: nat) {
    match exit
    case Settled(y) => y == r || y == r + 1
    case AtZero => r == 0
    case OutOfRounds => false
  }

  /** From an error of at most 2^k, k + 1 rounds are enough. */
  lemma {:induction false} SolvesWithin(x: nat, c: nat, y: nat, r: nat, k: nat, rounds: nat)
    requires x > 0 && IsRoot(x, c, r) && r <= y && y - r <= Pow2(k) && rounds > k
    ensures Solves(SolveExactly(x, c, y, rounds), r)
    decreases k
  {
    if y > 0 {
      var next := YStep(x, c, y);
      YStepAboveRoot(x, c, y, r);
      YStepHalvesError(x, c, y, r);
      if Gap(next, y) > 1 {
        SolvesWithin(x, c, next, r, k - 1, rounds - 1);
      }
    }
  }

  /** From any start, if the first iterate is at most 2^n then n + 2 rounds are enough. */
  lemma SolvesFromAnywhere(x: nat, c: nat, y: nat, r: nat, n: nat, rounds: nat)
    requires x > 0 && y > 0 && IsRoot(x, c, r) && YStep(x, c, y) <= Pow2(n) && rounds > n + 1
    ensures Solves(SolveExactly(x, c, y, rounds), r)
  {
    YStepAboveRoot(x, c, y, r);
    var next := YStep(x, c, y);
    if Gap(next, y) <= 1 {
      if y >= r { YStepHalvesError(x, c, y, r); }
    } else {
      SolvesWithin(x, c, next, r, n, rounds - 1);
    }
  }

  /** c is one short of (r + 1)(r + 1 + x), where the next integer would be the root. */
  ghost predicate OnEdge(x: nat, c: nat, r: nat) {
    c + 1 == Mul(r + 1, r + 1 + x)
  }

  /** Off that edge the loop cannot settle one above the root. */
  lemma {:induction false} SettlesAtRoot(x: nat, c: nat, y: nat, r: nat, rounds: nat)
    requires x > 0 && IsRoot(x, c, r) && !OnEdge(x, c, r)
    ensures SolveExactly(x, c, y, rounds).Settled? ==> SolveExactly(x, c, y, rounds).value != r + 1
    decreases rounds
  {
    if rounds > 0 && y > 0 {
      var next := YStep(x, c, y);
      YStepAboveRoot(x, c, y, r);
      if Gap(next, y) <= 1 {
        if r <= y <= r + 2 {
          NotOneAbove(x, c, y, r);
          FloorReaches(Mul(y, y) + c, 2 * y + x, r + 1);
        }
      } else {
        SettlesAtRoot(x, c, next, r, rounds - 1);
      }
    }
  }

  /** Off the edge a round from within 2 above the root lands on the root. */
  lemma NotOneAbove(x: nat, c: nat, y: nat, r: nat)
    requires c + 1 < Mul(r + 1, r + 1 + x) && r <= y <= r + 2
    ensures (r + 1) * (2 * y + x) > y * y + c
  {
    assert (r + 1) * (r + 1 + x) == r * r + 2 * r + 1 + r * x + x;
    assert (r + 1) * (2 * r + x) == 2 * (r * r) + r * x + 2 * r + x;
    assert (r + 1) * (2 * (r + 1) + x) == 2 * (r * r) + r * x + 4 * r + x + 2;
    assert (r + 1) * (2 * (r + 2) + x) == 2 * (r * r) + r * x + 6 * r + x + 4;
    assert (r + 1) * (r + 1) == r * r + 2 * r + 1 && (r + 2) * (r + 2) == r * r + 4 * r + 4;
  }

  // ----- the code's rounds are the exact ones -----

  ghost predicate YFits(x: nat, c: nat, y: nat) {
    Mul(y, y) + c < WORD && 2 * y + x < WORD
  }

  lemma YRoundIsExact(x: U256, c: U256, y: U256)
    requires x > 0 && YFits(x, c, y)
    ensures Wrap(Wrap(y * 2) + x) > 0 && YRound(x, c, y) == YStep(x, c, y)
  {
  }

  lemma SmallerFits(x: nat, c: nat, y: nat, z: nat)
    requires YFits(x, c, y) && z <= y
    ensures YFits(x, c, z)
  {
    MulBoth(z, y, z, y);
  }

  ghost predicate SameExit(exit: Exit, exact: Exact) {
    match exact
    case Settled(v) => exit.Converged? && exit.value == v
    case AtZero => exit.Stopped?
    case OutOfRounds => exit.Exhausted?
  }

  /** No round of the run from `y` overflows. */
  ghost predicate AllFit(x: nat, c: nat, y: nat, rounds: nat)
    requires x > 0
    decreases rounds, y
  {
    rounds == 0 || y == 0 ||
    (YFits(x, c, y) && (Gap(YStep(x, c, y), y) <= 1 || AllFit(x, c, YStep(x, c, y), rounds - 1)))
  }

  /** Above the root the iterates fall, so fitting once is fitting for good. */
  lemma {:induction false} FitsAboveRoot(x: nat, c: nat, y: nat, r: nat, rounds: nat)
    requires x > 0 && IsRoot(x, c, r) && r <= y && YFits(x, c, y)
    ensures AllFit(x, c, y, rounds)
    decreases rounds
  {
    if rounds > 0 && y > 0 {
      var next := YStep(x, c, y);
      YStepAboveRoot(x, c, y, r);
      YStepHalvesError(x, c, y, r);
      if Gap(next, y) > 1 {
        SmallerFits(x, c, y, next);
        FitsAboveRoot(x, c, next, r, rounds - 1);
      }
    }
  }

  lemma {:induction false} SolveIsExact(x: U256, c: U256, y: U256, rounds: nat)
    requires x > 0 && AllFit(x, c, y, rounds)
    ensures SameExit(SolveY(x, c, y, rounds), SolveExactly(x, c, y, rounds))
    decreases rounds
  {
    if rounds > 0 && y > 0 {
      YRoundIsExact(x, c, y);
      var next := YRound(x, c, y);
      if Gap(next, y) > 1 {
        SolveIsExact(x, c, next, rounds - 1);
      }
    }
  }

  lemma StartFits(x: nat, c: nat, y: nat, r: nat, rounds: nat)
    requires x > 0 && IsRoot(x, c, r) && YFits(x, c, y) && YFits(x, c, YStep(x, c, y))
    ensures AllFit(x, c, y, rounds)
  {
    if rounds > 0 {
      YStepAboveRoot(x, c, y, r);
      FitsAboveRoot(x, c, YStep(x, c, y), r, rounds - 1);
    }
  }

  lemma SquareRootOfWord(y: nat, n: nat)
    requires Mul(y, y) < WORD && n == 128
    ensures y <= Pow2(n)
  {
    WordIsPow2(n + n);
    Pow2Sum(n, n);
    if y > Pow2(n) {
      MulBoth(Pow2(n), y, Pow2(n), y);
    }
  }

  lemma SolvesInHalfWord(x: nat, c: nat, y: nat, r: nat, n: nat, rounds: nat)
    requires x > 0 && y > 0 && IsRoot(x, c, r) && n == 128 && rounds > n + 1
    requires Mul(YStep(x, c, y), YStep(x, c, y)) < WORD
    ensures Solves(SolveExactly(x, c, y, rounds), r)
  {
    SquareRootOfWord(YStep(x, c, y), n);
    SolvesFromAnywhere(x, c, y, r, n, rounds);
  }

  /** The divisor 4 A x is positive and does not overflow. */
  ghost predicate DivisorFits(x: nat, a: nat) {
    x > 0 && a > 0 && Mul(4 * x, a) < WORD
  }

  lemma DivisorIsExact(x: U256, a: U128)
    requires DivisorFits(x, a)
    ensures YDivisor(x, a) == Mul(4 * x, a) > 0
  {
    MulStrictMono(0, 4 * x, a);
    MulGrows(4 * x, a);
    assert Wrap(4 * x) == 4 * x;
  }

  function Cube(d: nat): nat {
    Mul(Mul(d, d), d)
  }

  /** The constant term D^3 / (4 A x) in exact arithmetic. */
  function TrueConstant(x: nat, d: nat, a: nat): nat
    requires x > 0 && a > 0
  {
    MulStrictMono(0, 4 * x, a);
    Div(Cube(d), Mul(4 * x, a))
  }

  /** Nothing overflows in the constant term or in the first two rounds. */
  ghost predicate NewtonFits(x: nat, d: nat, a: nat)
    requires x > 0 && a > 0
  {
    && Cube(d) < WORD && DivisorFits(x, a)
    && var c := TrueConstant(x, d, a);
       YFits(x, c, d) && YFits(x, c, YStep(x, c, d))
  }

  lemma ConstantIsExact(x: U256, d: U256, a: U128)
    requires DivisorFits(x, a) && Cube(d) < WORD
    ensures YDivisor(x, a) == Mul(4 * x, a) > 0
    ensures YConstant(x, d, a) == TrueConstant(x, d, a)
  {
    DivisorIsExact(x, a);
    if d > 0 {
      MulGrows(Mul(d, d), d);
    }
    assert Wrap(Mul(d, d)) == Mul(d, d);
  }

  /** What `newton_y` returns: the root of y^2 + x y = D^3 / (4 A x) or one more, the latter only on
      the edge, and nothing only when that is zero or above D.  The cap of 255 rounds is never what
      ends the loop. */
  lemma NewtonYFindsRoot(x: U256, d: U256, a: U128, r: nat)
    requires x > 0 && d > 0 && a > 0 && NewtonFits(x, d, a)
    requires YDivisor(x, a) > 0 && IsRoot(x, YConstant(x, d, a), r)
    ensures
      var exit := SolveY(x, YConstant(x, d, a), d, Y_ROUNDS);
      && YConstant(x, d, a) == TrueConstant(x, d, a)
      && !exit.Exhausted?
      && (YOf(x, d, a).Some? ==> YOf(x, d, a).value == r || YOf(x, d, a).value == r + 1)
      && (YOf(x, d, a).None? ==> r == 0 || r + 1 > d)
      && (!OnEdge(x, YConstant(x, d, a), r) ==> YOf(x, d, a) == if 0 < r <= d then Some(r) else None)
  {
    ConstantIsExact(x, d, a);
    var c := YConstant(x, d, a);
    StartFits(x, c, d, r, Y_ROUNDS);
    SolveIsExact(x, c, d, Y_ROUNDS);
    SolvesInHalfWord(x, c, d, r, 128, Y_ROUNDS);
    if !OnEdge(x, c, r) {
      SettlesAtRoot(x, c, d, r, Y_ROUNDS);
    }
  }

  /** One round in plain arithmetic: y becomes (y^2 + c) / (2y + x), rounded down. */
  ghost function RoundOf(x: nat, c: nat): (nat, nat) -> bool
    requires x > 0
  {
    (y, next) => y > 0 && next == (y * y + c) / (2 * y + x)
  }

  /** The run ends at the first iterate that moved by at most 1 or is zero. */
  ghost predicate Ends(t: seq<nat>) {
    t != [] && (t[|t| - 1] == 0 || (|t| >= 2 && Gap(t[|t| - 2], t[|t| - 1]) <= 1))
  }

  lemma {:induction false} EndedIterates(x: nat, c: nat, y: nat, rounds: nat) returns (t: seq<nat>)
    requires x > 0 && !SolveExactly(x, c, y, rounds).OutOfRounds?
    ensures Iterated(t, RoundOf(x, c)) && Ends(t) && t[0] == y && |t| <= rounds + 1
    ensures SolveExactly(x, c, y, rounds).AtZero? ==> t[|t| - 1] == 0
    ensures SolveExactly(x, c, y, rounds).Settled? ==> SolveExactly(x, c, y, rounds).value == t[|t| - 1]
    decreases rounds
  {
    if y == 0 {
      t := [y];
    } else {
      var next := YStep(x, c, y);
      StepIsRound(x, c, y);
      if Gap(next, y) <= 1 {
        t := [y, next];
      } else {
        var rest := EndedIterates(x, c, next, rounds - 1);
        t := [y] + rest;
        IteratedMore(y, rest, RoundOf(x, c));
      }
    }
  }

  lemma StepIsRound(x: nat, c: nat, y: nat)
    requires x > 0 && y > 0
    ensures RoundOf(x, c)(y, YStep(x, c, y))
  {
    assert Mul(y, y) == y * y;
  }

  /** `newton_y` takes the first iterate from D that moved by at most 1 or is zero, with the constant term
      floor(D^3 / (4 A x)), and returns it if it is in 1..D. */
  lemma YIsFirstSettledIterate(x: U256, d: U256, a: U128) returns (t: seq<nat>)
    requires x > 0 && d > 0 && a > 0 && NewtonFits(x, d, a)
    ensures YDivisor(x, a) > 0 && 4 * x * a > 0
    ensures Iterated(t, RoundOf(x, d * d * d / (4 * x * a))) && Ends(t) && t[0] == d && |t| <= 256
    ensures YOf(x, d, a) == if 0 < t[|t| - 1] <= d then Some(t[|t| - 1]) else None
  {
    ConstantIsExact(x, d, a);
    var c := YConstant(x, d, a);
    assert c == d * d * d / (4 * x * a);
    var r := RootExists(x, c);
    StartFits(x, c, d, r, Y_ROUNDS);
    SolveIsExact(x, c, d, Y_ROUNDS);
    SolvesInHalfWord(x, c, d, r, 128, Y_ROUNDS);
    t := EndedIterates(x, c, d, Y_ROUNDS);
  }

  // ----- overflow -----

  /** On every x and A with a fitting divisor the code's constant term is D^3 / (4 A x). */
  ghost predicate ConstantIsTrue(d: U256) {
    forall x: U256, a: U128 :: DivisorFits(x, a) && YDivisor(x, a) > 0 ==>
      YConstant(x, d, a) == TrueConstant(x, d, a)
  }

  /** The constant term is right for every pool exactly when the cube of D fits in 256 bits. */
  lemma ConstantIsTrueExactlyWhen(d: U256)
    ensures ConstantIsTrue(d) <==> Cube(d) < WORD
  {
    if Cube(d) < WORD {
      forall x: U256, a: U128 | DivisorFits(x, a) && YDivisor(x, a) > 0
        ensures YConstant(x, d, a) == TrueConstant(x, d, a)
      {
        ConstantIsExact(x, d, a);
      }
    } else {
      QuarterWord(256, Wrap(Mul(Wrap(Mul(d, d)), d)), Cube(d));
      assert DivisorFits(1, 1);
      DivisorIsExact(1, 1);
    }
  }

  /** A word and a number that is none have different quarters. */
  lemma QuarterWord(n: nat, w: U256, big: nat)
    requires n == 256 && big >= WORD
    ensures Div(w, 4) < Div(big, 4)
  {
    WordIsPow2(n);
    assert Pow2(n) == 2 * Pow2(n - 1) && Pow2(n - 1) == 2 * Pow2(n - 2);
    Quarters(w, big, Pow2(n - 2));
  }

  lemma Quarters(w: nat, big: nat, q: nat)
    requires w < 4 * q <= big
    ensures Div(w, 4) < q <= Div(big, 4)
  {
  }

  /** The cube of D is not all that has to fit, but on a pool with D <= 4 A x it decides: then the
      first iterate stays below D. */
  lemma BalancedPoolFits(x: nat, d: nat, a: nat)
    requires DivisorFits(x, a) && Cube(d) < WORD
    requires d > 0 && d <= Mul(4 * x, a) && 2 * d + x < WORD
    ensures NewtonFits(x, d, a)
  {
    var c := TrueConstant(x, d, a);
    ConstantWithinSquare(d, Mul(4 * x, a));
    SquaresFit(d, c);
    FirstIterateWithin(x, c, d);
    SmallerFits(x, c, d, YStep(x, c, d));
  }

  lemma ConstantWithinSquare(d: nat, divisor: nat)
    requires 0 < d <= divisor
    ensures Div(Cube(d), divisor) <= Mul(d, d)
  {
    FloorReaches(Cube(d), divisor, Mul(d, d) + 1);
    MulMono(d, divisor, Mul(d, d));
    Distributes(Mul(d, d), 1, divisor);
    assert d * Mul(d, d) == Mul(d, d) * d && divisor * Mul(d, d) == Mul(d, d) * divisor;
  }

  lemma SquaresFit(d: nat, c: nat)
    requires d > 0 && c <= Mul(d, d) && Cube(d) < WORD
    ensures Mul(d, d) + c < WORD
  {
    if d >= 2 {
      MulMono(2, d, Mul(d, d));
      assert d * Mul(d, d) == Mul(d, d) * d;
    }
  }

  lemma FirstIterateWithin(x: nat, c: nat, d: nat)
    requires x > 0 && d > 0 && c <= Mul(d, d)
    ensures YStep(x, c, d) <= d
  {
    FloorReaches(Mul(d, d) + c, 2 * d + x, d + 1);
    assert (d + 1) * (2 * d + x) == 2 * (d * d) + d * x + 2 * d + x;
    MulNat(d, x);
  }

  /** At x = 1, A = 1, D = 2^84 the cube fits, but the square of the first iterate does not. */
  lemma CubeAloneIsNotEnough(d: nat, n: nat)
    requires n == 84 && d == Pow2(n)
    ensures Cube(d) < WORD && !NewtonFits(1, d, 1)
  {
    Pow2Sum(n, n);
    Pow2Sum(n + n, n);
    WordIsPow2(3 * n + 4);
    var third := 3 * n;
    assert WORD == 2 * Pow2(third + 3) && Pow2(third + 3) == 2 * Pow2(third + 2);
    assert Pow2(third + 2) == 2 * Pow2(third + 1) && Pow2(third + 1) == 2 * Pow2(third);
    assert Pow2(third) == 2 * Pow2(third - 1) && Pow2(third - 1) == 2 * Pow2(third - 2);
    assert Mul(4 * 1, 1) == 4;
    var c := Div(Cube(d), 4);
    assert c == Pow2(third - 2);
    HugeIterate(d, c, n);
  }

  lemma HugeIterate(d: nat, c: nat, n: nat)
    requires n == 84 && d == Pow2(n) && c == Pow2(3 * n - 2)
    ensures Mul(YStep(1, c, d), YStep(1, c, d)) >= WORD
  {
    var half := n + 44;
    HalfWordTimes(d, c, n, half);
    FloorReaches(Mul(d, d) + c, 2 * d + 1, Pow2(half));
    MulBoth(Pow2(half), YStep(1, c, d), Pow2(half), YStep(1, c, d));
    Pow2Sum(half, half);
    WordIsPow2(half + half);
  }

  lemma HalfWordTimes(d: nat, c: nat, n: nat, half: nat)
    requires n == 84 && half == 128 && d == Pow2(n) && c == Pow2(3 * n - 2)
    ensures Pow2(half) * (2 * d + 1) <= c
  {
    Pow2Sum(half, n + 2);
    Pow2Grows(half + n + 2, 3 * n - 2);
    assert Pow2(n + 2) == 2 * Pow2(n + 1) && Pow2(n + 1) == 2 * d;
    Pow2Grows(0, n);
    MulBoth(Pow2(half), Pow2(half), 2 * d + 1, Pow2(n + 2));
  }

  /** At D = 2^86 the cube wraps to zero, and with it the constant term: `newton_y` finds nothing,
      although the equation it solves may have a root strictly between 0 and D. */
  lemma WrappedCubeLosesRoot(x: U256, d: U256, a: U128, n: nat, r: nat)
    requires n == 86 && d == Pow2(n) && DivisorFits(x, a) && 2 * d + x < WORD
    requires YDivisor(x, a) > 0 && IsRoot(x, TrueConstant(x, d, a), r)
    ensures YOf(x, d, a) == None
    ensures Mul(x + 1, Mul(4 * x, a)) <= Cube(d) ==> r > 0
    ensures d <= Mul(4 * x, a) ==> r < d
  {
    Pow2Grows(0, n);
    RootIsInside(x, d, a, r);
    LosesRoot(x, d, a, n);
  }

  lemma LosesRoot(x: U256, d: U256, a: U128, n: nat)
    requires n == 86 && d == Pow2(n) && x > 0 && 2 * d + x < WORD && YDivisor(x, a) > 0
    ensures YConstant(x, d, a) == 0 && YOf(x, d, a) == None
  {
    WrappedCube(d, n);
    CubeIsFourWords(d, n);
    Pow2Grows(0, n);
    ZeroConstantGivesNothing(x, d);
  }

  lemma RootIsInside(x: nat, d: nat, a: nat, r: nat)
    requires x > 0 && a > 0 && d > 0 && IsRoot(x, TrueConstant(x, d, a), r)
    ensures Mul(x + 1, Mul(4 * x, a)) <= Cube(d) ==> r > 0
    ensures d <= Mul(4 * x, a) ==> r < d
  {
    MulStrictMono(0, 4 * x, a);
    RootBelow(x, d, Mul(4 * x, a), r);
  }

  lemma RootBelow(x: nat, d: nat, divisor: nat, r: nat)
    requires divisor > 0 && d > 0 && x > 0 && IsRoot(x, Div(Cube(d), divisor), r)
    ensures Mul(x + 1, divisor) <= Cube(d) ==> r > 0
    ensures d <= divisor ==> r < d
  {
    FloorReaches(Cube(d), divisor, x + 1);
    if d <= divisor {
      ConstantWithinSquare(d, divisor);
      assert d * (d + 1) == d * d + d;
      if r >= d {
        MulBoth(d, r, d + 1, r + x);
      }
    }
  }

  /** With a zero constant term the iteration falls to zero, which the code takes for no answer. */
  lemma ZeroConstantGivesNothing(x: U256, d: U256)
    requires x > 0 && d > 0 && YFits(x, 0, d)
    ensures ResultY(SolveY(x, 0, d, Y_ROUNDS), d) == None
  {
    assert IsRoot(x, 0, 0) && !OnEdge(x, 0, 0);
    FirstIterateWithin(x, 0, d);
    SmallerFits(x, 0, d, YStep(x, 0, d));
    StartFits(x, 0, d, 0, Y_ROUNDS);
    SolveIsExact(x, 0, d, Y_ROUNDS);
    SolvesInHalfWord(x, 0, d, 0, 128, Y_ROUNDS);
    SettlesAtRoot(x, 0, d, 0, Y_ROUNDS);
  }

  /** Such a pool: x = D = 2^86 and A = 100. */
  lemma WrappedCubeExample(d: U256, n: nat) returns (r: nat)
    requires n == 86 && d == Pow2(n)
    ensures DivisorFits(d, 100) && YDivisor(d, 100) > 0 && YOf(d, d, 100) == None
    ensures IsRoot(d, TrueConstant(d, d, 100), r) && 0 < r < d
  {
    LargeD(d, n);
    DivisorIsExact(d, 100);
    r := RootExists(d, TrueConstant(d, d, 100));
    assert d <= Mul(4 * d, 100);
    ExampleCube(d);
    WrappedCubeLosesRoot(d, d, 100, n, r);
  }

  lemma LargeD(d: nat, n: nat)
    requires n == 86 && d == Pow2(n)
    ensures d >= 1024 && 400 * d < WORD
  {
    Pow2Double(5, 32);
    Pow2Grows(10, n);
    SquareBelowWord(n);
    Pow2Sum(n, n);
    MulMono(400, d, d);
  }

  lemma ExampleCube(d: nat)
    requires d >= 1024
    ensures Mul(d + 1, Mul(4 * d, 100)) <= Cube(d)
  {
    var square := Mul(d, d);
    assert (d + 1) * (400 * d) == 400 * square + 400 * d;
    MulMono(400, d, d);
    MulMono(401, d, square);
    assert d * square == square * d;
  }

  lemma WrappedCube(d: U256, n: nat)
    requires n == 86 && d == Pow2(n)
    ensures Wrap(Mul(Wrap(Mul(d, d)), d)) == 0
  {
    CubeIsFourWords(d, n);
    WrappedProduct(Mul(d, d), d);
  }

  lemma WrappedProduct(square: nat, d: nat)
    requires square < WORD && Mul(square, d) == 4 * WORD
    ensures Wrap(Mul(Wrap(square), d)) == 0
  {
    FourWordsWrapToZero();
  }

  lemma FourWordsWrapToZero()
    ensures Wrap(4 * WORD) == 0
  {
    WrapWholeWord(0);
    WrapWholeWord(WORD);
    WrapWholeWord(2 * WORD);
    WrapWholeWord(3 * WORD);
  }

  lemma CubeIsFourWords(d: nat, n: nat)
    requires n == 86 && d == Pow2(n)
    ensures Mul(d, d) < WORD && Cube(d) == 4 * WORD
  {
    Pow2Sum(n, n);
    Pow2Sum(n + n, n);
    WordIsPow2(3 * n - 2);
    assert Pow2(3 * n) == 2 * Pow2(3 * n - 1) == 4 * Pow2(3 * n - 2);
    SquareBelowWord(n);
  }

  lemma SquareBelowWord(n: nat)
    requires n == 86
    ensures Pow2(n + n) < WORD
  {
    WordIsPow2(3 * n - 2);
    Pow2Grows(n + n, 3 * n - 3);
    assert Pow2(3 * n - 2) == 2 * Pow2(3 * n - 3);
    Pow2Grows(0, n + n);
  }
}
