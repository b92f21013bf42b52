/** What the passes find: each pass covers walks one edge longer. */
module Completeness {
  import opened Common
  import opened Graph
  import opened Walks
  import opened Invariants

  /** No walk of at most `k` edges from `start` beats the labels. */
  ghost predicate BoundsWalks(g: Market, start: Address, l: Labels, k: nat) {
    forall es, v :: IsWalk(g, es, start, v) && |es| <= k ==> v in l.dist && l.dist[v] <= Weight(es)
  }

  ghost predicate Offered(l: Labels, d: real, e: Edge) {
    e.to in l.dist && l.dist[e.to] <= d + e.weight
  }

  lemma {:induction false} ScanEdgesOffers(l: Labels, d: real, es: seq<Edge>)
    ensures NoHigher(ScanEdges(l, d, es), l)
    ensures forall e :: e in es ==> Offered(ScanEdges(l, d, es), d, e)
  {
    if es != [] {
      var last := |es| - 1;
      ScanEdgesOffers(l, d, es[..last]);
      forall e | e in es ensures Offered(ScanEdges(l, d, es), d, e) {
        assert e in es[..last] || e == es[last];
      }
    }
  }

  lemma {:induction false} ScanNodesOffers(g: Market, l: Labels, ns: seq<Address>)
    requires ValidMarket(g)
    ensures NoHigher(ScanNodes(g, l, ns), l)
    ensures forall e :: HasEdge(g, e) && e.from in ns && e.from in l.dist
                        ==> Offered(ScanNodes(g, l, ns), l.dist[e.from], e)
  {
    if ns != [] {
      var last := |ns| - 1;
      ScanNodesOffers(g, l, ns[..last]);
      var mid := ScanNodes(g, l, ns[..last]);
      if ns[last] in mid.dist && ns[last] in g.adj {
        ScanEdgesOffers(mid, mid.dist[ns[last]], g.adj[ns[last]]);
      }
    }
  }

  /** After `k` passes every token is at most as far as its lightest walk of at most `k` edges. */
  lemma {:induction false} PassesBoundWalks(g: Market, start: Address, k: nat)
    requires ValidMarket(g)
    ensures BoundsWalks(g, start, Passes(g, Seeded(start), k), k)
  {
    var l' := Passes(g, Seeded(start), k);
    if k > 0 {
      PassesBoundWalks(g, start, k - 1);
      var l := Passes(g, Seeded(start), k - 1);
      ScanNodesOffers(g, l, g.nodes);
      forall es: seq<Edge>, v | IsWalk(g, es, start, v) && |es| <= k
        ensures v in l'.dist && l'.dist[v] <= Weight(es)
      {
        if es == [] {
          assert IsWalk(g, [], start, start);
        } else {
          var n := |es| - 1;
          assert IsWalk(g, es[..n], start, es[n].from);
        }
      }
    }
  }

  /** Once a pass changes nothing, the labels bound every walk whatsoever. */
  lemma QuietPassBoundsAllWalks(g: Market, start: Address, k: nat, any: nat)
    requires ValidMarket(g)
    requires Pass(g, Passes(g, Seeded(start), k)) == Passes(g, Seeded(start), k)
    ensures BoundsWalks(g, start, Passes(g, Seeded(start), k), any)
  {
    QuietPassIsFinal(g, Seeded(start), k, any);
    PassesBoundWalks(g, start, k + any);
  }

  /** Every cycle through `start` within the hop budget is at least as heavy as the total the
      closing test computes at its last token, so a profitable one makes that test succeed. */
  lemma ClosingTestSeesEveryCycle(g: Market, start: Address, maxHops: nat, cycle: seq<Edge>, minLogProfit: real)
    requires ValidMarket(g)
    requires IsWalk(g, cycle, start, start) && 1 <= |cycle| <= maxHops + 1
    ensures
      var l := Passes(g, Seeded(start), maxHops);
      var e := cycle[|cycle| - 1];
      && HasEdge(g, e) && e.to == start && e.from in l.dist
      && l.dist[e.from] + e.weight <= Weight(cycle)
      && (Weight(cycle) < -minLogProfit ==> l.dist[e.from] + e.weight < -minLogProfit)
  {
    PassesBoundWalks(g, start, maxHops);
    var n := |cycle| - 1;
    assert IsWalk(g, cycle[..n], start, cycle[n].from);
  }
}
