/** What every relaxation step keeps. */
module Invariants {
  import opened Common
  import opened Graph
  import opened Walks

  /** `l.dist[e.to]` is at least what `e` offers from the present weight of `e.from`. */
  ghost predicate Slack(l: Labels, e: Edge) {
    e.to in l.dist && e.from in l.dist && l.dist[e.to] >= l.dist[e.from] + e.weight
  }

  ghost predicate StrictlySlack(l: Labels, e: Edge) {
    e.to in l.dist && e.from in l.dist && l.dist[e.to] > l.dist[e.from] + e.weight
  }

  ghost predicate PredOk(g: Market, l: Labels) {
    forall v :: v in l.pred ==> HasEdge(g, l.pred[v]) && l.pred[v].to == v && Slack(l, l.pred[v])
  }

  ghost predicate RootedAt(l: Labels, start: Address, v: Address) {
    v in l.dist ==> v == start || v in l.pred
  }

  ghost predicate Rooted(l: Labels, start: Address) {
    && start in l.dist && l.dist[start] <= 0.0
    && forall v :: RootedAt(l, start, v)
  }

  ghost predicate Walked(g: Market, l: Labels, start: Address) {
    forall v :: v in l.dist ==> HasWalk(g, start, v, l.dist[v])
  }

  /** `p` follows the predecessor map: each of its edges is the one that last lowered its end. */
  ghost predicate FollowsPred(l: Labels, p: seq<Edge>) {
    forall i :: 0 <= i < |p| ==> p[i].to in l.pred && l.pred[p[i].to] == p[i]
  }

  /** Every loop in the predecessor map loses weight on each lap. */
  ghost predicate LoopsNegative(g: Market, l: Labels) {
    forall p :: IsClosedWalk(g, p) && FollowsPred(l, p) ==> Weight(p) < 0.0
  }

  ghost predicate Sound(g: Market, start: Address, l: Labels) {
    && PredOk(g, l)
    && Rooted(l, start)
    && Walked(g, l, start)
    && LoopsNegative(g, l)
  }

  // ----- telescoping -----

  /** Along slack edges the weights telescope; one strict edge makes the bound strict. */
  lemma {:induction false} Telescope(g: Market, l: Labels, p: seq<Edge>, a: Address, b: Address)
    requires IsWalk(g, p, a, b) && a in l.dist
    requires forall i :: 0 <= i < |p| ==> Slack(l, p[i])
    ensures b in l.dist && Weight(p) <= l.dist[b] - l.dist[a]
    ensures (exists i :: 0 <= i < |p| && StrictlySlack(l, p[i]))
            ==> Weight(p) < l.dist[b] - l.dist[a]
  {
    if p != [] {
      var n := |p| - 1;
      assert IsWalk(g, p[..n], a, p[n].from) by {
        if n > 0 { SubWalk(g, p, a, b, 0, n); }
      }
      Telescope(g, l, p[..n], a, p[n].from);
      if i :| 0 <= i < |p| && StrictlySlack(l, p[i]) {
        assert i < n ==> p[..n][i] == p[i];
      }
    }
  }

  // ----- one step -----

  /** The situation of one relaxation: `d` is a weight at which `e.from` was really reached. */
  ghost predicate MayLower(g: Market, start: Address, l: Labels, d: real, e: Edge) {
    HasEdge(g, e) && e.from in l.dist && l.dist[e.from] <= d && HasWalk(g, start, e.from, d)
  }

  lemma LowerKeepsPred(g: Market, start: Address, l: Labels, d: real, e: Edge)
    requires PredOk(g, l) && Rooted(l, start) && MayLower(g, start, l, d, e)
    ensures PredOk(g, Lower(l, d, e)) && Rooted(Lower(l, d, e), start)
  {
    forall v ensures RootedAt(Lower(l, d, e), start, v) {
      assert RootedAt(l, start, v);
    }
  }

  lemma LowerKeepsWalks(g: Market, start: Address, l: Labels, d: real, e: Edge)
    requires Walked(g, l, start) && MayLower(g, start, l, d, e)
    ensures Walked(g, Lower(l, d, e), start)
  {
    var es :| IsWalk(g, es, start, e.from) && Weight(es) == d;
    ExtendWalk(g, es, start, e);
  }

  /** The step that writes `pred[e.to]` leaves every edge out of `e.to` strictly slack, so a loop
      through `e.to` is negative; the other loops were there before. */
  lemma LowerKeepsLoops(g: Market, start: Address, l: Labels, d: real, e: Edge)
    requires PredOk(g, l) && Rooted(l, start) && LoopsNegative(g, l) && MayLower(g, start, l, d, e)
    ensures LoopsNegative(g, Lower(l, d, e))
  {
    var l' := Lower(l, d, e);
    LowerKeepsPred(g, start, l, d, e);
    if l' != l {
      forall p: seq<Edge> | IsClosedWalk(g, p) && FollowsPred(l', p) ensures Weight(p) < 0.0 {
        if i :| 0 <= i < |p| && p[i].to == e.to {
          var next := if i + 1 < |p| then i + 1 else 0;
          assert p[next].from == e.to;
          assert StrictlySlack(l', p[next]);
          Telescope(g, l', p, p[0].from, p[0].from);
        } else {
          assert FollowsPred(l, p);
        }
      }
    }
  }

  lemma LowerKeepsSound(g: Market, start: Address, l: Labels, d: real, e: Edge)
    requires Sound(g, start, l) && MayLower(g, start, l, d, e)
    ensures Sound(g, start, Lower(l, d, e))
  {
    LowerKeepsPred(g, start, l, d, e);
    LowerKeepsWalks(g, start, l, d, e);
    LowerKeepsLoops(g, start, l, d, e);
  }

  // ----- a whole run, at every moment -----

  ghost predicate NoHigher(l': Labels, l: Labels) {
    forall v :: v in l.dist ==> v in l'.dist && l'.dist[v] <= l.dist[v]
  }

  lemma {:induction false} ScanEdgesKeepsSound(g: Market, start: Address, l: Labels, n: Address, d: real, es: seq<Edge>)
    requires Sound(g, start, l) && n in l.dist && l.dist[n] <= d && HasWalk(g, start, n, d)
    requires forall i :: 0 <= i < |es| ==> HasEdge(g, es[i]) && es[i].from == n
    ensures Sound(g, start, ScanEdges(l, d, es))
    ensures n in ScanEdges(l, d, es).dist && ScanEdges(l, d, es).dist[n] <= d
  {
    if es != [] {
      var last := |es| - 1;
      ScanEdgesKeepsSound(g, start, l, n, d, es[..last]);
      var mid := ScanEdges(l, d, es[..last]);
      assert MayLower(g, start, mid, d, es[last]);
      LowerKeepsSound(g, start, mid, d, es[last]);
    }
  }

  lemma {:induction false} ScanNodesKeepsSound(g: Market, start: Address, l: Labels, ns: seq<Address>)
    requires ValidMarket(g) && Sound(g, start, l)
    ensures Sound(g, start, ScanNodes(g, l, ns))
  {
    if ns != [] {
      var last := |ns| - 1;
      var mid := ScanNodes(g, l, ns[..last]);
      ScanNodesKeepsSound(g, start, l, ns[..last]);
      if ns[last] in mid.dist && ns[last] in g.adj {
        ScanEdgesKeepsSound(g, start, mid, ns[last], mid.dist[ns[last]], g.adj[ns[last]]);
      }
    }
  }

  lemma SeededIsSound(g: Market, start: Address)
    ensures Sound(g, start, Seeded(start))
  {
    assert IsWalk(g, [], start, start) && Weight([]) == 0.0;
  }

  /** At every moment of the search - after `k` whole passes, `i` nodes of the next pass and `j`
      edges of the next node - each distance is the weight of a real walk from `start`, every
      predecessor edge is slack, and every loop of the predecessor map is negative. */
  lemma SoundAtEveryMoment(g: Market, start: Address, k: nat, i: nat, j: nat)
    requires ValidMarket(g) && i <= |g.nodes|
    ensures
      var l := ScanNodes(g, Passes(g, Seeded(start), k), g.nodes[..i]);
      && Sound(g, start, l)
      && (i < |g.nodes| && g.nodes[i] in l.dist && j <= |g.adj[g.nodes[i]]| ==>
            Sound(g, start, ScanEdges(l, l.dist[g.nodes[i]], g.adj[g.nodes[i]][..j])))
  {
    SoundAfterPasses(g, start, k);
    var l0 := Passes(g, Seeded(start), k);
    ScanNodesKeepsSound(g, start, l0, g.nodes[..i]);
    var l := ScanNodes(g, l0, g.nodes[..i]);
    if i < |g.nodes| && g.nodes[i] in l.dist && j <= |g.adj[g.nodes[i]]| {
      ScanEdgesKeepsSound(g, start, l, g.nodes[i], l.dist[g.nodes[i]], g.adj[g.nodes[i]][..j]);
    }
  }

  lemma {:induction false} SoundAfterPasses(g: Market, start: Address, k: nat)
    requires ValidMarket(g)
    ensures Sound(g, start, Passes(g, Seeded(start), k))
  {
    if k == 0 {
      SeededIsSound(g, start);
    } else {
      SoundAfterPasses(g, start, k - 1);
      ScanNodesKeepsSound(g, start, Passes(g, Seeded(start), k - 1), g.nodes);
    }
  }
}
