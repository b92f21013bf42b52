/** 256-bit words and the few facts about products and quotients the pricing proofs rest on. */
module Arith {

  /** One doubling per bit. */
  function Patterns(bits: seq<bool>): (n: nat)
    ensures n > 0
  {
    if bits == [] then 1 else 2 * Patterns(bits[1..])
  }

  function Pow2(n: nat): nat {
    if n == 0 then 1 else 2 * Pow2(n - 1)
  }

  lemma {:induction false} PatternsArePow2(bits: seq<bool>)
    ensures Patterns(bits) == Pow2(|bits|)
  {
    if bits != [] {
      PatternsArePow2(bits[1..]);
    }
  }

  lemma TwiceLater(a: nat, b: nat)
    ensures a * (2 * b) == 2 * (a * b)
  {
  }

  lemma {:induction false} Pow2Sum(m: nat, n: nat)
    ensures Pow2(m + n) == Pow2(m) * Pow2(n)
  {
    if n > 0 {
      Pow2Sum(m, n - 1);
      TwiceLater(Pow2(m), Pow2(n - 1));
    }
  }

  lemma Pow2Double(n: nat, v: nat)
    requires Pow2(n) == v
    ensures Pow2(n + n) == v * v
  {
    Pow2Sum(n, n);
  }

  lemma Pow2At192(n: nat)
    requires n == 192
    ensures Pow2(n) == 0x1_0000000000000000_0000000000000000_0000000000000000
  {
    var k := 4;
    Pow2Double(k, 0x10);
    Pow2Double(k + k, 0x100);
    Pow2Double(4 * k, 0x1_0000);
    Pow2Double(8 * k, 0x1_0000_0000);
    Pow2Double(16 * k, 0x1_0000000000000000);
    Pow2Sum(16 * k, 32 * k);
  }

  lemma {:induction false} Pow2Grows(m: nat, n: nat)
    requires m <= n
    ensures Pow2(m) <= Pow2(n)
  {
    if m < n { Pow2Grows(m, n - 1); }
  }

  lemma PatternsAreMany(bits: seq<bool>)
    requires |bits| >= 192
    ensures Patterns(bits) >= 0x1_0000000000000000_0000000000000000_0000000000000000
  {
    var n := 192;
    PatternsArePow2(bits);
    Pow2At192(n);
    Pow2Grows(n, |bits|);
  }

  type Large = n: nat | n >= 0x1_0000000000000000_0000000000000000_0000000000000000
    witness 0x1_0000000000000000_0000000000000000_0000000000000000

  function WordBits(): (bits: seq<bool>)
    ensures |bits| == 256
  {
    seq(256, i => false)
  }

  /** The number of 256-bit words, 2^256 (`WordIsPow2`).  It is spelled as a count of bit patterns and
      not as a numeral because no proof here needs its digits: as a symbol known only to be large it
      keeps the bounds on products of words linear, which a 78-digit numeral does not. */
  const WORD: Large := (PatternsAreMany(WordBits()); Patterns(WordBits()))

  lemma WordIsPow2(n: nat)
    requires n == 256
    ensures WORD == Pow2(n)
  {
    PatternsArePow2(WordBits());
  }

  type U256 = x: nat | x < WORD
  type U128 = x: nat | x < 0x1_0000000000000000_0000000000000000

  /** Arithmetic on the crate's `Uint` wraps around modulo 2^256. */
  function Wrap(x: int): U256
    decreases if x < 0 then WORD - x else x
  {
    if x < 0 then Wrap(x + WORD)
    else if x < WORD then x
    else Wrap(x - WORD)
  }

  /** A number and its wrapped value differ by a multiple of 2^256. */
  lemma {:induction false} WrapIsCongruent(x: int) returns (k: int)
    ensures x == Wrap(x) + k * WORD
    decreases if x < 0 then WORD - x else x
  {
    if x < 0 {
      var j := WrapIsCongruent(x + WORD);
      k := j - 1;
      Distributes(j, -1, WORD);
    } else if x < WORD {
      k := 0;
    } else {
      var j := WrapIsCongruent(x - WORD);
      k := j + 1;
      Distributes(j, 1, WORD);
    }
  }

  /** A subtraction that goes below zero comes back from the top. */
  lemma WrapBelowZero(x: int)
    requires 0 <= x + WORD < WORD
    ensures Wrap(x) == x + WORD
  {
    assert Wrap(x + WORD) == x + WORD;
  }

  lemma WrapWholeWord(x: nat)
    ensures Wrap(x + WORD) == Wrap(x)
  {
  }

  lemma {:induction false} WrapNeverGrows(x: nat)
    ensures Wrap(x) <= x
  {
    if x >= WORD {
      WrapNeverGrows(x - WORD);
    }
  }

  lemma MulMono(a: int, b: int, k: int)
    requires a <= b && k >= 0
    ensures a * k <= b * k
  {
  }

  lemma MulStrictMono(a: int, b: int, k: int)
    requires a < b && k > 0
    ensures a * k < b * k
  {
  }

  lemma MulBoth(a: nat, b: nat, c: nat, d: nat)
    requires a <= b && c <= d
    ensures a * c <= b * d
  {
    MulMono(a, b, c);
    MulMono(c, d, b);
    assert c * b == b * c && d * b == b * d;
  }

  lemma MulGrows(a: nat, b: nat)
    requires b > 0
    ensures a <= a * b
  {
    MulBoth(a, a, 1, b);
  }

  lemma Distributes(a: int, b: int, k: int)
    ensures (a + b) * k == a * k + b * k
  {
  }

  lemma MulNat(a: nat, b: nat)
    ensures a * b >= 0
  {
  }

  /** Unsigned product and quotient. */
  function Mul(a: nat, b: nat): (p: nat)
    ensures p == a * b
  {
    MulNat(a, b);
    a * b
  }

  function Div(n: nat, d: nat): (q: nat)
    requires d > 0
    ensures q * d <= n < q * d + d && q <= n
    ensures q == n / d
  {
    FloorBounds(n, d);
    DivIsSmall(n, d);
    n / d
  }

  lemma DivIsSmall(n: nat, d: nat)
    requires d > 0
    ensures 0 <= n / d <= n
  {
    FloorBounds(n, d);
    var q := n / d;
    if q < 0 {
      MulMono(q, -1, d);
    } else {
      MulMono(1, d, q);
      assert d * q == q * d;
    }
  }

  lemma FloorBounds(n: int, d: int)
    requires d > 0
    ensures n / d * d <= n < n / d * d + d
  {
  }

  /** A quotient reaches `k` exactly when the dividend reaches `k` divisors. */
  lemma FloorReaches(n: int, d: int, k: int)
    requires d > 0
    ensures n / d >= k <==> n >= k * d
  {
    FloorBounds(n, d);
    var q := n / d;
    if q >= k {
      MulMono(k, q, d);
    } else {
      MulMono(q + 1, k, d);
      assert (q + 1) * d == q * d + d;
    }
  }

  lemma DivMono(a: int, b: int, d: int)
    requires a <= b && d > 0
    ensures a / d <= b / d
  {
    FloorBounds(a, d);
    FloorReaches(b, d, a / d);
  }
}
