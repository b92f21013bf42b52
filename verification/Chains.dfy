/** Predecessor chains: what `reconstruct` follows back from a token to `start`. */
module Chains {
  import opened Common
  import opened Types
  import opened Graph
  import opened Walks
  import opened Invariants

  lemma {:induction false} ChainIsWalk(g: Market, start: Address, l: Labels, token: Address, fuel: nat)
    requires PredOk(g, l) && Chain(l, start, token, fuel).Some?
    ensures
      var p := Chain(l, start, token, fuel).value;
      && IsWalk(g, p, start, token) && FollowsPred(l, p) && Avoids(p, start)
      && |p| <= fuel && (p == [] <==> token == start)
    decreases fuel
  {
    if token != start {
      var e := l.pred[token];
      ChainIsWalk(g, start, l, e.from, fuel - 1);
      ExtendWalk(g, Chain(l, start, e.from, fuel - 1).value, start, e);
    }
  }

  /** The chain of a token does not depend on how much fuel it was given. */
  lemma {:induction false} ChainIsUnique(l: Labels, start: Address, token: Address, f1: nat, f2: nat)
    requires Chain(l, start, token, f1).Some? && Chain(l, start, token, f2).Some?
    ensures Chain(l, start, token, f1) == Chain(l, start, token, f2)
    decreases f1
  {
    if token != start {
      ChainIsUnique(l, start, l.pred[token].from, f1 - 1, f2 - 1);
    }
  }

  /** `p` leads from `start` to `token` along predecessor edges and does not come back to `start`. */
  ghost predicate IsPredPath(l: Labels, start: Address, token: Address, p: seq<Edge>) {
    && (forall i :: 0 <= i < |p| ==> p[i].to in l.pred && l.pred[p[i].to] == p[i] && p[i].to != start)
    && (forall i :: 0 <= i < |p| - 1 ==> p[i].to == p[i + 1].from)
    && (if p == [] then token == start else p[0].from == start && p[|p| - 1].to == token)
  }

  /** Following predecessors for at most `fuel` steps finds `p` exactly when `p` is such a path of at
      most `fuel` edges. */
  lemma {:induction false} ChainExactlyWhen(l: Labels, start: Address, token: Address, fuel: nat, p: seq<Edge>)
    requires forall v :: v in l.pred ==> l.pred[v].to == v
    ensures Chain(l, start, token, fuel) == Some(p) <==> |p| <= fuel && IsPredPath(l, start, token, p)
    decreases fuel
  {
    if token == start {
    } else if p == [] {
      if fuel > 0 && token in l.pred { ChainExactlyWhen(l, start, l.pred[token].from, fuel - 1, []); }
    } else if fuel > 0 && token in l.pred {
      var e, shorter := l.pred[token], p[..|p| - 1];
      ChainExactlyWhen(l, start, e.from, fuel - 1, shorter);
      if Chain(l, start, token, fuel) == Some(p) {
        assert p[|p| - 1] == e && Chain(l, start, e.from, fuel - 1) == Some(shorter);
      }
      if |p| <= fuel && IsPredPath(l, start, token, p) {
        assert p[|p| - 1] == e && p == shorter + [e];
      }
    }
  }

  /** Each prefix of a chain is itself the chain of the token it ends at. */
  lemma {:induction false} ChainPrefix(l: Labels, start: Address, token: Address, fuel: nat, i: nat)
    requires Chain(l, start, token, fuel).Some?
    requires forall v :: v in l.pred ==> l.pred[v].to == v
    requires i < |Chain(l, start, token, fuel).value|
    ensures
      var p := Chain(l, start, token, fuel).value;
      exists f :: Chain(l, start, p[i].to, f) == Some(p[..i + 1])
    decreases fuel
  {
    var p := Chain(l, start, token, fuel).value;
    var e := l.pred[token];
    var q := Chain(l, start, e.from, fuel - 1).value;
    assert token != start && p == q + [e] && e.to == token;
    if i < |q| {
      ChainPrefix(l, start, e.from, fuel - 1, i);
      var f :| Chain(l, start, q[i].to, f) == Some(q[..i + 1]);
      assert p[i] == q[i] && p[..i + 1] == q[..i + 1];
      assert Chain(l, start, p[i].to, f) == Some(p[..i + 1]);
    } else {
      assert p[i] == e && p[..i + 1] == p;
      assert Chain(l, start, p[i].to, fuel) == Some(p[..i + 1]);
    }
  }

  /** A chain that reaches `start` enters no token twice. */
  lemma ChainHasDistinctTokens(l: Labels, start: Address, token: Address, fuel: nat)
    requires Chain(l, start, token, fuel).Some?
    requires forall v :: v in l.pred ==> l.pred[v].to == v
    ensures
      var p := Chain(l, start, token, fuel).value;
      forall i, j :: 0 <= i < j < |p| ==> p[i].to != p[j].to
  {
    var p := Chain(l, start, token, fuel).value;
    forall i, j | 0 <= i < j < |p| ensures p[i].to != p[j].to {
      if p[i].to == p[j].to {
        ChainPrefix(l, start, token, fuel, i);
        ChainPrefix(l, start, token, fuel, j);
        var f1 :| Chain(l, start, p[i].to, f1) == Some(p[..i + 1]);
        var f2 :| Chain(l, start, p[i].to, f2) == Some(p[..j + 1]);
        ChainIsUnique(l, start, p[i].to, f1, f2);
      }
    }
  }

  /** Every reported route is a genuine simple cycle through `start`: the simple-cycle filter that
      follows `reconstruct` never rejects anything. */
  lemma ReportedRouteIsSimpleCycle(g: Market, l: Labels, start: Address, minLogProfit: real,
                                   c: Cycle, p: seq<Edge>, e: Edge)
    requires ValidMarket(g) && PredOk(g, l) && Reported(g, l, start, minLogProfit, c, p, e)
    ensures c.route.SimpleCycle() && c.route.Connected()
    ensures 2 <= |c.route.hops| <= 17 && c.route.hops[0].tokenIn == start
    ensures IsWalk(g, p + [e], start, start) && c.route == RouteOf(p + [e])
  {
    ChainIsWalk(g, start, l, e.from, MAX_CHAIN);
    ChainHasDistinctTokens(l, start, e.from, MAX_CHAIN);
    ExtendWalk(g, p, start, e);
    var es := p + [e];
    RouteOfWalkIsConnected(g, es, start, start);
    forall i | 0 <= i < |p| ensures c.route.hops[i].tokenOut == p[i].to {
      HopEndsAtEdge(g, es, i);
    }
    DistinctStopsAreDistinct(c.route, p, e, start);
  }

  lemma DistinctStopsAreDistinct(r: Route, p: seq<Edge>, e: Edge, start: Address)
    requires |r.hops| == |p| + 1 && r.hops[0].tokenIn == start
    requires forall i :: 0 <= i < |p| ==> r.hops[i].tokenOut == p[i].to
    requires Avoids(p, start) && forall i, j :: 0 <= i < j < |p| ==> p[i].to != p[j].to
    ensures NoDuplicates(r.Visited())
  {
    var tokens := r.Visited();
    forall i, j | 0 <= i < j < |tokens| ensures tokens[i] != tokens[j] {
      assert tokens[j] == p[j - 1].to;
      if i > 0 { assert tokens[i] == p[i - 1].to; }
    }
  }

  lemma HopEndsAtEdge(g: Market, es: seq<Edge>, i: nat)
    requires ValidMarket(g) && i < |es| && HasEdge(g, es[i])
    ensures RouteOf(es).hops[i].tokenOut == es[i].to
  {
    assert HopOf(es[i]) == RouteOf(es).hops[i];
  }

  lemma RouteOfWalkIsConnected(g: Market, es: seq<Edge>, a: Address, b: Address)
    requires ValidMarket(g) && IsWalk(g, es, a, b) && es != []
    ensures RouteOf(es).Connected()
    ensures RouteOf(es).hops[0].tokenIn == a && RouteOf(es).hops[|es| - 1].tokenOut == b
  {
    forall i | 0 <= i < |es| ensures HopOf(es[i]).tokenOut == es[i].to && Oriented(HopOf(es[i])) {
      assert HasEdge(g, es[i]);
    }
  }

  // ----- what stands behind a report -----

  /** Each hop of the route trades along the edge at its place. */
  ghost predicate TradesAlong(r: Route, es: seq<Edge>) {
    && |r.hops| == |es|
    && forall i :: 0 <= i < |es| ==>
         r.hops[i] == Hop(es[i].pool, es[i].from, es[i].to, es[i].pool.token0 == es[i].from)
  }

  /** `c` trades along a closed walk `p + [e]` through `start` of 2 to 17 edges, and its profit clears the
      threshold and is what some walk to the last token, closed by `e`, gains. */
  ghost predicate BackedBy(g: Market, start: Address, minLogProfit: real, c: Cycle, p: seq<Edge>, e: Edge) {
    && IsWalk(g, p + [e], start, start) && 2 <= |p| + 1 <= 17
    && TradesAlong(c.route, p + [e])
    && c.logProfit > minLogProfit
    && HasWalk(g, start, e.from, -c.logProfit - e.weight)
  }

  ghost predicate Backed(g: Market, start: Address, minLogProfit: real, c: Cycle) {
    exists p, e :: BackedBy(g, start, minLogProfit, c, p, e)
  }

  lemma ReportIsBacked(g: Market, l: Labels, start: Address, minLogProfit: real, c: Cycle, p: seq<Edge>, e: Edge)
    requires ValidMarket(g) && PredOk(g, l) && Walked(g, l, start)
    requires Reported(g, l, start, minLogProfit, c, p, e)
    ensures BackedBy(g, start, minLogProfit, c, p, e)
  {
    ReportedRouteIsSimpleCycle(g, l, start, minLogProfit, c, p, e);
    ChainIsWalk(g, start, l, e.from, MAX_CHAIN);
    forall i | 0 <= i < |p + [e]|
      ensures c.route.hops[i] == Hop((p + [e])[i].pool, (p + [e])[i].from, (p + [e])[i].to,
                                     (p + [e])[i].pool.token0 == (p + [e])[i].from)
    {
      assert HopOf((p + [e])[i]) == c.route.hops[i];
    }
    assert HasWalk(g, start, e.from, l.dist[e.from]);
  }

  // ----- when the chain must reach `start` -----

  /** Either the chain reaches `start` within `k` steps, or there is a predecessor path of `k`
      edges into `token` that never touches `start`. */
  lemma {:induction false} ChainOrLongPath(g: Market, start: Address, l: Labels, token: Address, k: nat)
    returns (path: seq<Edge>, first: Address)
    requires PredOk(g, l) && Rooted(l, start) && token in l.dist
    ensures Chain(l, start, token, k).None? ==>
              && |path| == k && IsWalk(g, path, first, token) && FollowsPred(l, path)
              && first in l.dist && first != start && Avoids(path, start)
    decreases k
  {
    path, first := [], token;
    assert RootedAt(l, start, token);
    if k > 0 && token != start {
      var e := l.pred[token];
      path, first := ChainOrLongPath(g, start, l, e.from, k - 1);
      if Chain(l, start, e.from, k - 1).None? {
        ExtendPredPath(g, start, l, path, first, e);
        path := path + [e];
      }
    }
  }

  lemma ExtendPredPath(g: Market, start: Address, l: Labels, path: seq<Edge>, first: Address, e: Edge)
    requires IsWalk(g, path, first, e.from) && FollowsPred(l, path) && Avoids(path, start)
    requires HasEdge(g, e) && e.to != start && e.to in l.pred && l.pred[e.to] == e
    ensures IsWalk(g, path + [e], first, e.to) && FollowsPred(l, path + [e]) && Avoids(path + [e], start)
  {
    ExtendWalk(g, path, first, e);
  }

  /** No closed walk that avoids `start` gains weight by being walked. */
  ghost predicate NoNegativeLoopAvoiding(g: Market, start: Address) {
    forall c :: IsSimpleLoop(g, c) && Avoids(c, start) ==> Weight(c) >= 0.0
  }

  function Stops(path: seq<Edge>, first: Address): (s: seq<Address>)
    ensures |s| == |path| + 1
  {
    seq(|path| + 1, i requires 0 <= i <= |path| => if i == 0 then first else path[i - 1].to)
  }

  lemma PredPathRepeatsNothing(g: Market, start: Address, l: Labels, path: seq<Edge>, first: Address, token: Address)
    requires LoopsNegative(g, l) && NoNegativeLoopAvoiding(g, start)
    requires IsWalk(g, path, first, token) && FollowsPred(l, path) && Avoids(path, start)
    ensures NoDuplicates(Stops(path, first))
  {
    var stops := Stops(path, first);
    forall i, j | 0 <= i < j < |stops| ensures stops[i] != stops[j] {
      assert stops[j] == path[j - 1].to;
      if stops[i] == stops[j] {
        var c := path[i..j];
        SubWalk(g, path, first, token, i, j);
        assert path[i].from == stops[i];
        assert FollowsPred(l, c) by {
          forall m | 0 <= m < |c| ensures c[m].to in l.pred && l.pred[c[m].to] == c[m] {
            assert c[m] == path[i + m];
          }
        }
        var loop := NegativeLoopInside(g, c);
        forall m | 0 <= m < |loop| ensures loop[m].to != start {
          assert loop[m] in c;
        }
      }
    }
  }

  lemma StopsAreTokens(g: Market, start: Address, l: Labels, path: seq<Edge>, first: Address, token: Address)
    requires ValidMarket(g) && PredOk(g, l) && Rooted(l, start)
    requires IsWalk(g, path, first, token) && Avoids(path, start)
    requires first in l.dist && first != start
    ensures forall i :: 0 <= i < |Stops(path, first)| ==> Stops(path, first)[i] in g.adj.Keys - {start}
  {
    var stops := Stops(path, first);
    assert RootedAt(l, start, first);
    forall i | 0 <= i < |stops| ensures stops[i] in g.adj.Keys - {start} {
      if i > 0 {
        assert HasEdge(g, path[i - 1]);
      } else {
        assert HasEdge(g, l.pred[first]);
      }
    }
  }

  /** When no loop away from `start` is negative, every reached token leads back to `start` in
      fewer steps than there are tokens. */
  lemma ChainReachesStart(g: Market, start: Address, l: Labels, token: Address, fuel: nat)
    requires ValidMarket(g) && start in g.adj && Sound(g, start, l)
    requires NoNegativeLoopAvoiding(g, start)
    requires token in l.dist && |g.nodes| <= fuel + 1
    ensures Chain(l, start, token, fuel).Some?
  {
    if Chain(l, start, token, fuel).None? {
      var path, first := ChainOrLongPath(g, start, l, token, fuel);
      PredPathRepeatsNothing(g, start, l, path, first, token);
      StopsAreTokens(g, start, l, path, first, token);
      NoDuplicatesFits(Stops(path, first), g.adj.Keys - {start});
      NoDuplicatesCounts(g.nodes, g.adj.Keys);
    }
  }
}
