/** Weights of walks, and how a negative closed walk contains a negative simple loop. */
module Walks {
  import opened Common
  import opened Graph

  lemma {:induction false} WeightOfConcat(p: seq<Edge>, q: seq<Edge>)
    ensures Weight(p + q) == Weight(p) + Weight(q)
  {
    if q == [] {
      assert p + q == p;
    } else {
      var n := |q| - 1;
      assert (p + q)[..|p + q| - 1] == p + q[..n];
      WeightOfConcat(p, q[..n]);
    }
  }

  lemma WeightOfOne(e: Edge)
    ensures Weight([e]) == e.weight
  {
    assert [e][..0] == [];
  }

  lemma ExtendWalk(g: Market, p: seq<Edge>, a: Address, e: Edge)
    requires IsWalk(g, p, a, e.from) && HasEdge(g, e)
    ensures IsWalk(g, p + [e], a, e.to)
    ensures Weight(p + [e]) == Weight(p) + e.weight
  {
    assert (p + [e])[..|p|] == p;
  }

  lemma SubWalk(g: Market, p: seq<Edge>, a: Address, b: Address, i: nat, j: nat)
    requires IsWalk(g, p, a, b) && i < j <= |p|
    ensures IsWalk(g, p[i..j], p[i].from, p[j - 1].to)
  {
    var q := p[i..j];
    forall k | 0 <= k < |q| - 1 ensures q[k].to == q[k + 1].from {
      assert q[k] == p[i + k] && q[k + 1] == p[i + k + 1];
    }
  }

  lemma JoinWalks(g: Market, p: seq<Edge>, q: seq<Edge>, a: Address, b: Address, c: Address)
    requires IsWalk(g, p, a, b) && IsWalk(g, q, b, c)
    ensures IsWalk(g, p + q, a, c)
    ensures Weight(p + q) == Weight(p) + Weight(q)
  {
    WeightOfConcat(p, q);
  }

  lemma CutParts(g: Market, p: seq<Edge>, a: Address, v: Address, i: nat, j: nat)
    requires IsWalk(g, p, a, a) && i < j < |p| && p[i].to == v == p[j].to
    ensures IsWalk(g, p[..i + 1], a, v)
    ensures IsWalk(g, p[i + 1..j + 1], v, v)
    ensures IsWalk(g, p[j + 1..], v, a)
  {
    SubWalk(g, p, a, a, 0, i + 1);
    assert p[0..i + 1] == p[..i + 1];
    assert p[i].to == p[i + 1].from;
    SubWalk(g, p, a, a, i + 1, j + 1);
    if j + 1 < |p| {
      assert p[j].to == p[j + 1].from;
      SubWalk(g, p, a, a, j + 1, |p|);
      assert p[j + 1..|p|] == p[j + 1..];
    } else {
      assert p[j + 1..] == [];
    }
  }

  lemma WeightOfThree(p: seq<Edge>, i: nat, j: nat)
    requires i < j < |p|
    ensures Weight(p) == Weight(p[i + 1..j + 1]) + Weight(p[..i + 1] + p[j + 1..])
  {
    var head, mid, tail := p[..i + 1], p[i + 1..j + 1], p[j + 1..];
    assert p == (head + mid) + tail;
    WeightOfConcat(head + mid, tail);
    WeightOfConcat(head, mid);
    WeightOfConcat(head, tail);
  }

  /** Cutting the part between two visits of a token out of a closed walk. */
  lemma CutClosedWalk(g: Market, p: seq<Edge>, i: nat, j: nat)
    requires IsClosedWalk(g, p) && i < j < |p| && p[i].to == p[j].to
    ensures IsClosedWalk(g, p[i + 1..j + 1])
    ensures IsClosedWalk(g, p[..i + 1] + p[j + 1..])
    ensures Weight(p) == Weight(p[i + 1..j + 1]) + Weight(p[..i + 1] + p[j + 1..])
  {
    CutParts(g, p, p[0].from, p[i].to, i, j);
    JoinWalks(g, p[..i + 1], p[j + 1..], p[0].from, p[i].to, p[0].from);
    WeightOfThree(p, i, j);
  }

  /** Every negative closed walk contains a negative simple loop made of its own edges. */
  lemma {:induction false} NegativeLoopInside(g: Market, p: seq<Edge>) returns (loop: seq<Edge>)
    requires IsClosedWalk(g, p) && Weight(p) < 0.0
    ensures IsSimpleLoop(g, loop) && Weight(loop) < 0.0
    ensures forall e :: e in loop ==> e in p
    decreases |p|
  {
    if i, j :| 0 <= i < j < |p| && p[i].to == p[j].to {
      CutClosedWalk(g, p, i, j);
      if Weight(p[i + 1..j + 1]) < 0.0 {
        loop := NegativeLoopInside(g, p[i + 1..j + 1]);
      } else {
        loop := NegativeLoopInside(g, p[..i + 1] + p[j + 1..]);
      }
    } else {
      loop := p;
    }
  }
}
