/** The relaxation loops as what they do one edge at a time (graph.rs, lines 80-111). */
module Relaxation {
  import opened Common
  import opened Types
  import opened Graph

  /** Labels after `k` whole passes, `i` tokens of the next pass and `j` edges of the next token. */
  type Moments = (nat, nat, nat) -> Labels

  /** What the loop body does with one edge of a token whose weight was read as `d`. */
  ghost predicate Relaxes(l: Labels, d: real, e: Edge, l': Labels) {
    if e.to in l.dist && l.dist[e.to] <= d + e.weight then l' == l
    else l'.dist == l.dist[e.to := d + e.weight] && l'.pred == l.pred[e.to := e]
  }

  /** The loop over the edges of the `i`-th token, with its weight as it was before the first of them. */
  ghost predicate ScansToken(g: Market, at: Moments, k: nat, i: nat)
    requires ValidMarket(g) && i < |g.nodes|
  {
    var n := g.nodes[i];
    if n in at(k, i, 0).dist then
      && (forall j: nat :: j < |g.adj[n]| ==>
            Relaxes(at(k, i, j), at(k, i, 0).dist[n], g.adj[n][j], at(k, i, j + 1)))
      && at(k, i + 1, 0) == at(k, i, |g.adj[n]|)
    else
      at(k, i + 1, 0) == at(k, i, 0)
  }

  /** The three nested loops: passes over the tokens in insertion order, and over the edges of each. */
  ghost predicate IsRun(g: Market, start: Address, at: Moments)
    requires ValidMarket(g)
  {
    && at(0, 0, 0).dist == map[start := 0.0] && at(0, 0, 0).pred == map[]
    && (forall k: nat, i: nat :: i < |g.nodes| ==> ScansToken(g, at, k, i))
    && (forall k: nat :: at(k + 1, 0, 0) == at(k, |g.nodes|, 0))
  }

  function MomentOf(g: Market, start: Address, k: nat, i: nat, j: nat): Labels {
    if i >= |g.nodes| then ScanNodes(g, Passes(g, Seeded(start), k), g.nodes)
    else
      var n, l := g.nodes[i], ScanNodes(g, Passes(g, Seeded(start), k), g.nodes[..i]);
      if n !in l.dist || n !in g.adj || j > |g.adj[n]| then l else ScanEdges(l, l.dist[n], g.adj[n][..j])
  }

  lemma ScannedToken(g: Market, start: Address, at: Moments, k: nat, i: nat)
    requires ValidMarket(g) && i < |g.nodes|
    requires forall k, i, j :: at(k, i, j) == MomentOf(g, start, k, i, j)
    ensures ScansToken(g, at, k, i)
  {
    var n, l := g.nodes[i], ScanNodes(g, Passes(g, Seeded(start), k), g.nodes[..i]);
    assert at(k, i, 0) == l;
    assert g.nodes[..i + 1][..i] == g.nodes[..i];
    if i + 1 == |g.nodes| {
      assert g.nodes[..i + 1] == g.nodes;
    }
    assert at(k, i + 1, 0) == ScanNode(g, l, n) by {
      NextToken(g, start, k, i);
    }
    if n in l.dist {
      var es := g.adj[n];
      assert es[..|es|] == es;
      forall j: nat | j < |es| ensures Relaxes(at(k, i, j), l.dist[n], es[j], at(k, i, j + 1)) {
        assert es[..j + 1][..j] == es[..j];
      }
    }
  }

  lemma NextToken(g: Market, start: Address, k: nat, i: nat)
    requires ValidMarket(g) && i < |g.nodes|
    ensures MomentOf(g, start, k, i + 1, 0)
         == ScanNode(g, ScanNodes(g, Passes(g, Seeded(start), k), g.nodes[..i]), g.nodes[i])
  {
    assert g.nodes[..i + 1][..i] == g.nodes[..i];
    assert g.nodes[..|g.nodes|] == g.nodes;
    assert MomentOf(g, start, k, i + 1, 0) == ScanNodes(g, Passes(g, Seeded(start), k), g.nodes[..i + 1]);
  }

  /** The labels of `k` passes are those the nested loops reach, edge by edge. */
  lemma PassesAreTheLoops(g: Market, start: Address) returns (at: Moments)
    requires ValidMarket(g)
    ensures IsRun(g, start, at)
    ensures forall k: nat :: Passes(g, Seeded(start), k) == at(k, 0, 0)
  {
    at := (k: nat, i: nat, j: nat) => MomentOf(g, start, k, i, j);
    forall k: nat ensures Passes(g, Seeded(start), k) == at(k, 0, 0) {
      assert g.nodes[..0] == [];
      assert g.nodes == [] ==> ScanNodes(g, Passes(g, Seeded(start), k), g.nodes) == Passes(g, Seeded(start), k);
    }
    forall k: nat, i: nat | i < |g.nodes| ensures ScansToken(g, at, k, i) {
      ScannedToken(g, start, at, k, i);
    }
    forall k: nat ensures at(k + 1, 0, 0) == at(k, |g.nodes|, 0) {
      assert Passes(g, Seeded(start), k + 1) == at(k + 1, 0, 0);
    }
  }
}
