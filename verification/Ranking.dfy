/** Sorting, de-duplicating and truncating the candidate cycles (graph.rs, lines 149-164). */
module Ranking {
  import opened Common
  import opened Types
  import opened Graph

  function Join(parts: seq<string>): string {
    if parts == [] then "" else if |parts| == 1 then parts[0]
    else parts[0] + ">" + Join(parts[1..])
  }

  /** The pool addresses along the route, joined with '>'. */
  function Signature(r: Route): string {
    Join(seq(|r.hops|, i requires 0 <= i < |r.hops| => r.hops[i].pool.address))
  }

  // ----- what the signature tells apart -----

  /** Two routes use the same pools in the same order. */
  ghost predicate SamePools(a: Route, b: Route) {
    |a.hops| == |b.hops| && forall i :: 0 <= i < |a.hops| ==> a.hops[i].pool.address == b.hops[i].pool.address
  }

  /** The route has hops, and no pool address on it contains the separator. */
  ghost predicate Separable(r: Route) {
    r.hops != [] && forall i :: 0 <= i < |r.hops| ==> '>' !in r.hops[i].pool.address
  }

  /** Parts without the separator can be read back from the joined string. */
  lemma {:induction false} JoinIsInjective(a: seq<string>, b: seq<string>)
    requires a != [] && b != [] && Join(a) == Join(b)
    requires (forall i :: 0 <= i < |a| ==> '>' !in a[i]) && (forall i :: 0 <= i < |b| ==> '>' !in b[i])
    ensures a == b
  {
    FirstPartEnds(a);
    FirstPartEnds(b);
    assert |a[0]| == |b[0]|;
    assert Join(a)[..|a[0]|] == a[0] && Join(b)[..|b[0]|] == b[0];
    if |a| > 1 && |b| > 1 {
      assert Join(a)[|a[0]| + 1..] == Join(a[1..]) && Join(b)[|b[0]| + 1..] == Join(b[1..]);
      JoinIsInjective(a[1..], b[1..]);
      assert a == [a[0]] + a[1..] && b == [b[0]] + b[1..];
    }
  }

  /** The first part is followed by the separator or by nothing. */
  lemma FirstPartEnds(a: seq<string>)
    requires a != []
    ensures a[0] <= Join(a) && (if |a| == 1 then Join(a) == a[0] else |Join(a)| > |a[0]| && Join(a)[|a[0]|] == '>')
  {
  }

  /** For addresses without '>', two routes have the same signature exactly when they use the same pools. */
  lemma SignatureTellsPools(a: Route, b: Route)
    requires Separable(a) && Separable(b)
    ensures Signature(a) == Signature(b) <==> SamePools(a, b)
  {
    var x := seq(|a.hops|, i requires 0 <= i < |a.hops| => a.hops[i].pool.address);
    var y := seq(|b.hops|, i requires 0 <= i < |b.hops| => b.hops[i].pool.address);
    if Join(x) == Join(y) {
      JoinIsInjective(x, y);
      forall i | 0 <= i < |a.hops| ensures a.hops[i].pool.address == b.hops[i].pool.address {
        assert x[i] == y[i];
      }
    }
    if SamePools(a, b) {
      assert x == y;
    }
  }

  lemma SignatureJoins(r: Route, parts: seq<string>)
    requires |parts| == |r.hops| && forall i :: 0 <= i < |parts| ==> parts[i] == r.hops[i].pool.address
    ensures Signature(r) == Join(parts)
  {
    assert parts == seq(|r.hops|, i requires 0 <= i < |r.hops| => r.hops[i].pool.address);
  }

  /** An address that contains the separator can make different pools look the same. */
  lemma SeparatorMergesPools(p: PoolRef, token: Address) returns (a: Route, b: Route)
    ensures Signature(a) == Signature(b) && !SamePools(a, b)
  {
    a := Route([Hop(p.(address := "x>y"), token, token, true)]);
    b := Route([Hop(p.(address := "x"), token, token, true), Hop(p.(address := "y"), token, token, true)]);
    SignatureJoins(a, ["x>y"]);
    SignatureJoins(b, ["x", "y"]);
    assert ["x", "y"][1..] == ["y"];
    assert "x" + ">" + "y" == "x>y";
  }

  // ----- order -----

  ghost predicate Descending(cs: seq<Cycle>) {
    forall i, j :: 0 <= i < j < |cs| ==> cs[i].logProfit >= cs[j].logProfit
  }

  function Insert(c: Cycle, cs: seq<Cycle>): seq<Cycle> {
    if cs == [] || c.logProfit >= cs[0].logProfit then [c] + cs else [cs[0]] + Insert(c, cs[1..])
  }

  /** The stable order by falling log profit. */
  function Sorted(cs: seq<Cycle>): seq<Cycle> {
    if cs == [] then [] else Insert(cs[0], Sorted(cs[1..]))
  }

  lemma {:induction false} InsertKeepsOrder(c: Cycle, cs: seq<Cycle>)
    requires Descending(cs)
    ensures Descending(Insert(c, cs)) && |Insert(c, cs)| == |cs| + 1
    ensures Insert(c, cs)[0] == if cs == [] || c.logProfit >= cs[0].logProfit then c else cs[0]
  {
    if cs != [] && c.logProfit < cs[0].logProfit {
      var rest := Insert(c, cs[1..]);
      InsertKeepsOrder(c, cs[1..]);
      assert forall k :: 0 <= k < |rest| ==> rest[0].logProfit >= rest[k].logProfit;
    }
  }

  lemma {:induction false} InsertKeepsElements(c: Cycle, cs: seq<Cycle>)
    ensures multiset(Insert(c, cs)) == multiset(cs) + multiset{c}
  {
    if cs != [] && c.logProfit < cs[0].logProfit {
      InsertKeepsElements(c, cs[1..]);
      assert cs == [cs[0]] + cs[1..];
    }
  }

  lemma {:induction false} SortedIsOrdered(cs: seq<Cycle>)
    ensures Descending(Sorted(cs))
  {
    if cs != [] {
      SortedIsOrdered(cs[1..]);
      InsertKeepsOrder(cs[0], Sorted(cs[1..]));
    }
  }

  lemma {:induction false} SortedKeepsElements(cs: seq<Cycle>)
    ensures multiset(Sorted(cs)) == multiset(cs)
  {
    if cs != [] {
      SortedKeepsElements(cs[1..]);
      InsertKeepsElements(cs[0], Sorted(cs[1..]));
      assert cs == [cs[0]] + cs[1..];
    }
  }

  function Signatures(cs: seq<Cycle>): (sigs: seq<string>)
    ensures |sigs| == |cs| && forall i :: 0 <= i < |cs| ==> sigs[i] == Signature(cs[i].route)
  {
    seq(|cs|, i requires 0 <= i < |cs| => Signature(cs[i].route))
  }

  predicate SameSignature(a: Cycle, b: Cycle) {
    Signature(a.route) == Signature(b.route)
  }

  ghost predicate DistinctSignatures(cs: seq<Cycle>) {
    forall i, j :: 0 <= i < j < |cs| ==> !SameSignature(cs[i], cs[j])
  }

  /** `c` is represented: it, or an equal-signature cycle of no lower profit, is in the list. */
  ghost predicate Represented(c: Cycle, out: seq<Cycle>) {
    exists m :: 0 <= m < |out| && SameSignature(out[m], c) && out[m].logProfit >= c.logProfit
  }

  /** `out` is the ranking of the candidates `cs`. */
  ghost predicate IsRanking(out: seq<Cycle>, cs: seq<Cycle>, limit: nat) {
    && Descending(out)
    && DistinctSignatures(out)
    && |out| <= limit
    && (forall o :: o in out ==> o in cs)
    && (forall c :: c in cs ==>
          || Represented(c, out)
          || (|out| == limit && forall o :: o in out ==> o.logProfit >= c.logProfit))
  }

  /** The first entry of a ranking is a most profitable candidate, and only an empty candidate list
      ranks as empty. */
  lemma RankingHasBest(out: seq<Cycle>, cs: seq<Cycle>, limit: nat, c: Cycle)
    requires IsRanking(out, cs, limit) && limit > 0 && c in cs
    ensures out != [] && out[0].logProfit >= c.logProfit
  {
    if Represented(c, out) {
      var m :| 0 <= m < |out| && SameSignature(out[m], c) && out[m].logProfit >= c.logProfit;
    } else {
      assert out[0] in out;
    }
  }

  /** `out` is what the ranking loop has kept of the first `i` sorted candidates; `source` says
      where each entry came from. */
  ghost predicate RankedSoFar(out: seq<Cycle>, sorted: seq<Cycle>, i: nat, source: seq<nat>) {
    && i <= |sorted|
    && Descending(out)
    && DistinctSignatures(out)
    && |source| == |out|
    && (forall m :: 0 <= m < |out| ==> source[m] < i && sorted[source[m]] == out[m])
    && (forall k :: 0 <= k < i ==> Represented(sorted[k], out))
  }

  lemma AppendKeepsRepresented(c: Cycle, out: seq<Cycle>, more: Cycle)
    requires Represented(c, out)
    ensures Represented(c, out + [more])
  {
    var m :| 0 <= m < |out| && SameSignature(out[m], c) && out[m].logProfit >= c.logProfit;
    assert (out + [more])[m] == out[m];
  }

  lemma KeepNext(out: seq<Cycle>, sorted: seq<Cycle>, i: nat, source: seq<nat>)
    requires i < |sorted| && Descending(sorted) && RankedSoFar(out, sorted, i, source)
    requires forall m :: 0 <= m < |out| ==> !SameSignature(out[m], sorted[i])
    ensures RankedSoFar(out + [sorted[i]], sorted, i + 1, source + [i])
  {
    var c, out' := sorted[i], out + [sorted[i]];
    forall k | 0 <= k < i + 1 ensures Represented(sorted[k], out') {
      if k < i {
        AppendKeepsRepresented(sorted[k], out, c);
      } else {
        assert out'[|out|] == c;
      }
    }
  }

  lemma SkipNext(out: seq<Cycle>, sorted: seq<Cycle>, i: nat, source: seq<nat>, m: nat)
    requires i < |sorted| && Descending(sorted) && RankedSoFar(out, sorted, i, source)
    requires m < |out| && SameSignature(out[m], sorted[i])
    ensures RankedSoFar(out, sorted, i + 1, source)
  {
    assert out[m] == sorted[source[m]];
    assert Represented(sorted[i], out);
  }

  /** A seen signature is skipped, a new one is kept. */
  lemma NextStep(out: seq<Cycle>, sorted: seq<Cycle>, i: nat, source: seq<nat>)
    requires i < |sorted| && Descending(sorted) && RankedSoFar(out, sorted, i, source)
    ensures
      var sig := Signature(sorted[i].route);
      if sig in Signatures(out) then RankedSoFar(out, sorted, i + 1, source)
      else
        && RankedSoFar(out + [sorted[i]], sorted, i + 1, source + [i])
        && Signatures(out + [sorted[i]]) == Signatures(out) + [sig]
  {
    var sig := Signature(sorted[i].route);
    var seen := Signatures(out);
    if sig in seen {
      var k :| 0 <= k < |seen| && seen[k] == sig;
      SkipNext(out, sorted, i, source, k);
    } else {
      forall m | 0 <= m < |out| ensures !SameSignature(out[m], sorted[i]) {
        assert seen[m] in seen;
      }
      KeepNext(out, sorted, i, source);
    }
  }

  lemma SameElements(a: seq<Cycle>, b: seq<Cycle>, c: Cycle)
    requires multiset(a) == multiset(b)
    ensures c in a <==> c in b
  {
    assert c in a <==> c in multiset(a);
    assert c in b <==> c in multiset(b);
  }

  lemma StopRanking(out: seq<Cycle>, cs: seq<Cycle>, sorted: seq<Cycle>, i: nat, source: seq<nat>, limit: nat)
    requires i <= |sorted| && Descending(sorted) && multiset(sorted) == multiset(cs)
    requires RankedSoFar(out, sorted, i, source) && |out| <= limit && (i == |sorted| || |out| == limit)
    ensures IsRanking(out, cs, limit)
  {
    forall o | o in out ensures o in cs {
      SameElements(sorted, cs, o);
    }
    forall c | c in cs
      ensures Represented(c, out) || (|out| == limit && forall o :: o in out ==> o.logProfit >= c.logProfit)
    {
      SameElements(sorted, cs, c);
      var k :| 0 <= k < |sorted| && sorted[k] == c;
    }
  }

  /** A candidate better than everything from place `cut` on has its signature before `cut`. */
  lemma BetterIsEarlier(c: Cycle, b: seq<Cycle>, cs: seq<Cycle>, limit: nat, cut: nat)
    requires IsRanking(b, cs, limit) && c in cs && cut <= |b|
    requires if cut < |b| then c.logProfit > b[cut].logProfit else |b| < limit
    ensures Signature(c.route) in Signatures(b[..cut])
  {
    if cut < |b| { assert b[cut] in b; }
    assert Represented(c, b);
    var m :| 0 <= m < |b| && SameSignature(b[m], c) && b[m].logProfit >= c.logProfit;
    assert Signatures(b[..cut])[m] == Signature(c.route);
  }

  lemma DistinctHead(a: seq<Cycle>, n: nat)
    requires DistinctSignatures(a) && n <= |a|
    ensures NoDuplicates(Signatures(a[..n]))
  {
  }

  lemma HeadIsEarlier(a: seq<Cycle>, b: seq<Cycle>, cs: seq<Cycle>, limit: nat, i: nat, cut: nat, k: nat)
    requires Descending(a) && k <= i < |a| && a[k] in cs
    requires IsRanking(b, cs, limit) && cut <= |b|
    requires if cut < |b| then a[i].logProfit > b[cut].logProfit else |b| < limit
    ensures Signatures(a[..i + 1])[k] in Signatures(b[..cut])
  {
    BetterIsEarlier(a[k], b, cs, limit, cut);
  }

  /** If the first i + 1 entries of `a` are all better than what `b` holds from `cut` on, there are at
      most `cut` of them. */
  lemma BetterHeadIsShort(a: seq<Cycle>, b: seq<Cycle>, cs: seq<Cycle>, limit: nat, i: nat, cut: nat)
    requires Descending(a) && DistinctSignatures(a) && (forall o :: o in a ==> o in cs) && i < |a|
    requires IsRanking(b, cs, limit) && cut <= |b|
    requires if cut < |b| then a[i].logProfit > b[cut].logProfit else |b| < limit
    ensures i + 1 <= cut
  {
    var sigs, earlier := Signatures(a[..i + 1]), Signatures(b[..cut]);
    forall k | 0 <= k < |sigs| ensures sigs[k] in earlier {
      assert a[k] in a;
      HeadIsEarlier(a, b, cs, limit, i, cut, k);
    }
    DistinctHead(a, i + 1);
    NoDuplicatesNoLonger(sigs, earlier);
  }

  lemma HeadBeatsNoTail(a: seq<Cycle>, b: seq<Cycle>, cs: seq<Cycle>, limit: nat, i: nat, cut: nat)
    requires Descending(a) && DistinctSignatures(a) && (forall o :: o in a ==> o in cs) && cut <= i < |a|
    requires IsRanking(b, cs, limit) && cut <= |b|
    ensures if cut < |b| then a[i].logProfit <= b[cut].logProfit else |b| == limit
  {
    if cut < |b| {
      if a[i].logProfit > b[cut].logProfit { BetterHeadIsShort(a, b, cs, limit, i, cut); }
    } else if |b| < limit {
      BetterHeadIsShort(a, b, cs, limit, i, cut);
    }
  }

  /** No ranking of the same candidates has a better entry at any place. */
  lemma NoRankingBeatsAnother(a: seq<Cycle>, b: seq<Cycle>, cs: seq<Cycle>, limit: nat, i: nat)
    requires IsRanking(a, cs, limit) && IsRanking(b, cs, limit) && i < |a|
    ensures i < |b| && b[i].logProfit >= a[i].logProfit
  {
    HeadBeatsNoTail(a, b, cs, limit, i, if i < |b| then i else |b|);
  }

  /** The profits of the result do not depend on the order in which the candidates were found. */
  lemma RankingProfitsAreDetermined(a: seq<Cycle>, b: seq<Cycle>, cs: seq<Cycle>, limit: nat)
    requires IsRanking(a, cs, limit) && IsRanking(b, cs, limit)
    ensures |a| == |b| && forall i :: 0 <= i < |a| ==> a[i].logProfit == b[i].logProfit
  {
    if |a| > |b| { NoRankingBeatsAnother(a, b, cs, limit, |b|); }
    if |b| > |a| { NoRankingBeatsAnother(b, a, cs, limit, |a|); }
    forall i | 0 <= i < |a| ensures a[i].logProfit == b[i].logProfit {
      NoRankingBeatsAnother(a, b, cs, limit, i);
      NoRankingBeatsAnother(b, a, cs, limit, i);
    }
  }

  /** The ranking in terms of pools: no two entries use the same pools in the same order, and a
      candidate is left out only for an entry over its own pools with no lower profit, or for a full
      list of entries with no lower profit. */
  ghost predicate RanksPools(out: seq<Cycle>, cs: seq<Cycle>, limit: nat) {
    && (forall i, j :: 0 <= i < j < |out| ==> !SamePools(out[i].route, out[j].route))
    && (forall c :: c in cs ==>
          || (exists m :: 0 <= m < |out| && SamePools(out[m].route, c.route) && out[m].logProfit >= c.logProfit)
          || (|out| == limit && forall o :: o in out ==> o.logProfit >= c.logProfit))
  }

  lemma SeparableRanksPools(out: seq<Cycle>, cs: seq<Cycle>, limit: nat)
    requires IsRanking(out, cs, limit) && forall c :: c in cs ==> Separable(c.route)
    ensures RanksPools(out, cs, limit)
  {
    forall i, j | 0 <= i < j < |out| ensures !SamePools(out[i].route, out[j].route) {
      assert out[i] in out && out[j] in out;
      SignatureTellsPools(out[i].route, out[j].route);
      assert !SameSignature(out[i], out[j]);
    }
    forall c | c in cs
      ensures (exists m :: 0 <= m < |out| && SamePools(out[m].route, c.route) && out[m].logProfit >= c.logProfit)
           || (|out| == limit && forall o :: o in out ==> o.logProfit >= c.logProfit)
    {
      if Represented(c, out) {
        var m :| 0 <= m < |out| && SameSignature(out[m], c) && out[m].logProfit >= c.logProfit;
        assert out[m] in out;
        SignatureTellsPools(out[m].route, c.route);
      }
    }
  }

  lemma RankingRanksPools(out: seq<Cycle>, cs: seq<Cycle>, limit: nat)
    requires IsRanking(out, cs, limit)
    ensures (forall c :: c in cs ==> Separable(c.route)) ==> RanksPools(out, cs, limit)
  {
    if forall c :: c in cs ==> Separable(c.route) {
      SeparableRanksPools(out, cs, limit);
    }
  }

  method Rank(cs: seq<Cycle>, maxResults: nat) returns (out: seq<Cycle>)
    ensures IsRanking(out, cs, if maxResults == 0 then 1 else maxResults)
    ensures (forall c :: c in cs ==> Separable(c.route)) ==>
              RanksPools(out, cs, if maxResults == 0 then 1 else maxResults)
  {
    var sorted := Sorted(cs);
    SortedIsOrdered(cs);
    SortedKeepsElements(cs);
    ghost var limit := if maxResults == 0 then 1 else maxResults;
    ghost var source: seq<nat> := [];
    var seen: seq<string> := [];
    out := [];
    for i := 0 to |sorted|
      invariant RankedSoFar(out, sorted, i, source) && |out| < limit
      invariant seen == Signatures(out)
    {
      var sig := Signature(sorted[i].route);
      NextStep(out, sorted, i, source);
      if sig in seen {
        continue;
      }
      seen := seen + [sig];
      out := out + [sorted[i]];
      source := source + [i];
      if |out| >= maxResults {
        StopRanking(out, cs, sorted, i + 1, source, limit);
        RankingRanksPools(out, cs, limit);
        return;
      }
    }
    StopRanking(out, cs, sorted, |sorted|, source, limit);
    RankingRanksPools(out, cs, limit);
  }
}
