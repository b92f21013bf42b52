/** What edge weights say about exchange rates (crates/strategy-core/src/graph.rs, lines 44-71). */
module Rates {
  import opened Graph
  import opened Walks

  function Times(a: real, b: real): real {
    a * b
  }

  /** All that is asked of the logarithm: products become sums, and larger numbers have larger ones. */
  ghost predicate IsLog(ln: real -> real) {
    && (forall a, b {:trigger Times(a, b)} :: a > 0.0 && b > 0.0 ==> ln(Times(a, b)) == ln(a) + ln(b))
    && (forall a, b :: 0.0 < a < b ==> ln(a) < ln(b))
  }

  /** Every edge weighs the negated logarithm of its positive rate. */
  ghost predicate Priced(es: seq<Edge>, rate: Edge -> real, ln: real -> real) {
    forall i :: 0 <= i < |es| ==> rate(es[i]) > 0.0 && es[i].weight == -ln(rate(es[i]))
  }

  /** What one unit becomes along the edges. */
  function Proceeds(es: seq<Edge>, rate: Edge -> real): real {
    if es == [] then 1.0 else Times(Proceeds(es[..|es| - 1], rate), rate(es[|es| - 1]))
  }

  lemma {:induction false} WeightIsLogOfProceeds(es: seq<Edge>, rate: Edge -> real, ln: real -> real)
    requires IsLog(ln) && Priced(es, rate, ln)
    ensures Proceeds(es, rate) > 0.0 && Weight(es) == -ln(Proceeds(es, rate))
  {
    if es == [] {
      assert Times(1.0, 1.0) == 1.0;
    } else {
      var last := |es| - 1;
      WeightIsLogOfProceeds(es[..last], rate, ln);
      PositiveProduct(Proceeds(es[..last], rate), rate(es[last]));
    }
  }

  lemma PositiveProduct(a: real, b: real)
    requires a > 0.0 && b > 0.0
    ensures Times(a, b) > 0.0
  {
  }

  /** A cycle clears the threshold of the closing test exactly when one unit becomes more than the
      profit ratio the threshold stands for. */
  lemma ThresholdMeansProfitRatio(es: seq<Edge>, rate: Edge -> real, ln: real -> real, ratio: real)
    requires IsLog(ln) && Priced(es, rate, ln) && ratio > 0.0
    ensures Weight(es) < -ln(ratio) <==> Proceeds(es, rate) > ratio
  {
    WeightIsLogOfProceeds(es, rate, ln);
  }
}
