/** Pools, hops and routes (crates/strategy-core/src/types.rs). */
module Types {
  import opened Common

  datatype PoolKind = V2 | V3 | Stable | Weighted

  datatype PoolRef = PoolRef(
    chainId: nat,
    address: Address,
    kind: PoolKind,
    token0: Address,
    token1: Address,
    feeBps: nat)

  datatype Hop = Hop(pool: PoolRef, tokenIn: Address, tokenOut: Address, zeroForOne: bool)

  datatype Route = Route(hops: seq<Hop>) {

    predicate IsCyclic() {
      hops != [] && hops[0].tokenIn == hops[|hops| - 1].tokenOut
    }

    /** The tokens the route stands on before its closing hop: the entry token, then every
        output but the last. */
    function Visited(): (tokens: seq<Address>)
      requires hops != []
      ensures |tokens| == |hops|
      ensures tokens[0] == hops[0].tokenIn
      ensures forall i :: 1 <= i < |tokens| ==> tokens[i] == hops[i - 1].tokenOut
    {
      seq(|hops|, i requires 0 <= i < |hops| => if i == 0 then hops[0].tokenIn else hops[i - 1].tokenOut)
    }

    /** What the filter is for: the route returns to its entry token and repeats no other token. */
    ghost predicate SimpleCycle() {
      && IsCyclic()
      && NoDuplicates(Visited())
    }

    /** Every hop trades the two tokens of its pool, oriented by `zeroForOne`, and starts from the
        token the previous hop delivered. */
    ghost predicate Connected() {
      && (forall i :: 0 <= i < |hops| ==> Oriented(hops[i]))
      && (forall i :: 0 <= i < |hops| - 1 ==> hops[i].tokenOut == hops[i + 1].tokenIn)
    }

    /** The same in terms of the hops alone: closed, and no hop but the last ends where the route
        began or where another such hop ends. */
    lemma SimpleCycleExactlyWhen()
      ensures SimpleCycle() <==>
        && hops != [] && hops[0].tokenIn == hops[|hops| - 1].tokenOut
        && (forall i :: 0 <= i < |hops| - 1 ==> hops[i].tokenOut != hops[0].tokenIn)
        && (forall i, j :: 0 <= i < j < |hops| - 1 ==> hops[i].tokenOut != hops[j].tokenOut)
    {
      if hops != [] {
        var tokens := Visited();
        forall i | 0 <= i < |hops| - 1 ensures tokens[i + 1] == hops[i].tokenOut {}
        if SimpleCycle() {
          forall i | 0 <= i < |hops| - 1 ensures hops[i].tokenOut != hops[0].tokenIn {
            assert tokens[0] != tokens[i + 1];
          }
          forall i, j | 0 <= i < j < |hops| - 1 ensures hops[i].tokenOut != hops[j].tokenOut {
            assert tokens[i + 1] != tokens[j + 1];
          }
        }
      }
    }

    method IsSimpleCycle() returns (simple: bool)
      ensures simple <==> SimpleCycle()
      ensures simple <==>
        && hops != [] && hops[0].tokenIn == hops[|hops| - 1].tokenOut
        && (forall i :: 0 <= i < |hops| - 1 ==> hops[i].tokenOut != hops[0].tokenIn)
        && (forall i, j :: 0 <= i < j < |hops| - 1 ==> hops[i].tokenOut != hops[j].tokenOut)
    {
      SimpleCycleExactlyWhen();
      if !IsCyclic() || |hops| == 0 {
        return false;
      }
      ghost var tokens := Visited();
      var seen := {hops[0].tokenIn};
      for i := 0 to |hops|
        invariant i < |hops| ==> NoDuplicates(tokens[..i + 1])
        invariant i < |hops| ==> forall t :: t in seen <==> t in tokens[..i + 1]
        invariant i == |hops| ==> NoDuplicates(tokens)
      {
        var closing := i == |hops| - 1;
        if closing {
          if hops[i].tokenOut != hops[0].tokenIn {
            return false;
          }
          assert tokens[..i + 1] == tokens;
        } else {
          assert tokens[..i + 2] == tokens[..i + 1] + [hops[i].tokenOut];
          if hops[i].tokenOut in seen {
            ghost var k :| 0 <= k < i + 1 && tokens[k] == hops[i].tokenOut;
            assert tokens[k] == tokens[i + 1];
            return false;
          }
          seen := seen + {hops[i].tokenOut};
        }
      }
      return true;
    }
  }

  predicate Oriented(h: Hop) {
    if h.zeroForOne
    then h.tokenIn == h.pool.token0 && h.tokenOut == h.pool.token1
    else h.tokenIn == h.pool.token1 && h.tokenOut == h.pool.token0
  }
}
