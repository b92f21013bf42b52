/** What a successful execution has been checked for. */
module ExecutorPolicy {
  import opened Common
  import opened Arith
  import opened Vault
  import opened Policy
  import opened Executor

  lemma {:induction false} WalkUsesListedAdapters(cfg: Config, dex: Dex, route: seq<SwapHop>, principal: nat,
                                                  ledger: Ledger, n: nat)
    requires n <= |route| && WalkRoute(cfg, dex, route, principal, ledger, n).Success?
    ensures forall i :: 0 <= i < n ==> route[i].adapter in cfg.adapters
    decreases n
  {
    if n > 0 {
      WalkUsesListedAdapters(cfg, dex, route, principal, ledger, n - 1);
    }
  }

  /** Every token the route takes or gives is among those, or the pools, shown to the risk manager. */
  predicate Covered(route: seq<SwapHop>) {
    route != [] && forall i :: 0 <= i < |route| ==> route[i].tokenOut in RouteTokens(route) + RoutePools(route)
  }

  lemma ChainedIsCovered(route: seq<SwapHop>)
    requires route != [] && Chained(route)
    ensures Covered(route)
  {
    var tokens := RouteTokens(route);
    forall i | 0 <= i < |route| ensures route[i].tokenOut in tokens + RoutePools(route) {
      assert tokens[i + 1] == route[i].tokenOut;
      assert (tokens + RoutePools(route))[i + 1] == tokens[i + 1];
    }
  }

  lemma PermittedCoveredRouteIsClean(rules: RiskRules, vault: Address, executor: Address, chainId: nat,
                                     route: seq<SwapHop>, capital: nat, token: Address)
    requires Covered(route) && Visits(route, token)
    requires rules.Permits(vault, executor, chainId, RouteTokens(route), RoutePools(route), capital)
    ensures token !in rules.blacklist
  {
    var h :| h in route && (h.tokenIn == token || h.tokenOut == token);
    var i :| 0 <= i < |route| && route[i] == h;
    if h.tokenIn == token {
      assert RouteTokens(route)[i] == token;
    }
  }

  /** Whatever the rules, a permitted execution of this route visits no blacklisted token. */
  ghost predicate BlacklistHolds(route: seq<SwapHop>)
    requires route != []
  {
    forall rules: RiskRules, vault, executor, chainId, capital, token ::
      rules.Permits(vault, executor, chainId, RouteTokens(route), RoutePools(route), capital) && Visits(route, token)
      ==> token !in rules.blacklist
  }

  /** The blacklist keeps every visited token out exactly on covered routes; the contract does not
      check that each hop starts where the last one ended. */
  lemma BlacklistHoldsExactlyWhenCovered(route: seq<SwapHop>)
    requires route != []
    ensures BlacklistHolds(route) <==> Covered(route)
  {
    if Covered(route) {
      forall rules: RiskRules, vault, executor, chainId, capital, token |
        rules.Permits(vault, executor, chainId, RouteTokens(route), RoutePools(route), capital) && Visits(route, token)
        ensures token !in rules.blacklist
      {
        PermittedCoveredRouteIsClean(rules, vault, executor, chainId, route, capital, token);
      }
    } else {
      var i :| 0 <= i < |route| && route[i].tokenOut !in RouteTokens(route) + RoutePools(route);
      var token := route[i].tokenOut;
      var rules := RiskRules({token}, {}, {1}, map[]);
      assert route[i] in route;
      assert forall t :: t in RouteTokens(route) || t in RoutePools(route) ==>
                           t in RouteTokens(route) + RoutePools(route);
      assert rules.Permits("v", "x", 1, RouteTokens(route), RoutePools(route), 0);
      assert Visits(route, token);
      assert token in rules.blacklist;
    }
  }

  /** A successful execution was in time, on a trusted vault that lists the executor, over a closed
      non-empty route of listed adapters, within every rule of the gates that are installed; and a
      chained route visits no blacklisted token anywhere. */
  lemma ExecuteObeysPolicy(cfg: Config, st: VaultState, req: Request, env: Env)
    requires Execute(cfg, st, req, env).Success?
    ensures req.route != [] && req.route[|req.route| - 1].tokenOut == req.asset
    ensures env.timestamp <= req.deadline && st.self in cfg.trustedVaults && cfg.self in st.executors
    ensures forall h :: h in req.route ==> h.adapter in cfg.adapters
    ensures cfg.risk.Some? ==>
              && env.chainId in cfg.risk.value.allowedChains
              && WholeVault(st.self) !in cfg.risk.value.paused
              && VaultExecutor(st.self, cfg.self) !in cfg.risk.value.paused
              && (st.self in cfg.risk.value.policies && cfg.risk.value.policies[st.self].maxTokenExposure > 0 ==>
                    req.principal <= cfg.risk.value.policies[st.self].maxTokenExposure)
              && (forall h :: h in req.route ==>
                    h.pool !in cfg.risk.value.blacklist && h.tokenIn !in cfg.risk.value.blacklist)
              && (Chained(req.route) ==> forall t :: Visits(req.route, t) ==> t !in cfg.risk.value.blacklist)
    ensures cfg.control.Some? ==>
              && cfg.self in cfg.control.value.executors
              && (st.self, req.strategyId) in cfg.control.value.allocations
              && var a := cfg.control.value.allocations[(st.self, req.strategyId)];
              && a.active && (a.maxCapital > 0 ==> req.principal <= a.maxCapital)
              && (a.maxDeployablePct > 0 && Bal(st.ledger, Account(st.assetToken, st.self)) > 0 ==>
                    req.principal * 10_000 <= Bal(st.ledger, Account(st.assetToken, st.self)) * a.maxDeployablePct)
  {
    GateOpensExactlyWhen(cfg, st, req, env);
    WalkUsesListedAdapters(cfg, env.dex, req.route, req.principal, st.ledger, |req.route|);
    if cfg.risk.Some? {
      PermittedRoute(cfg.risk.value, st.self, cfg.self, env.chainId, req.route, req.principal);
    }
  }

  lemma PermittedRoute(rules: RiskRules, vault: Address, executor: Address, chainId: nat, route: seq<SwapHop>,
                       capital: nat)
    requires route != []
    requires rules.Permits(vault, executor, chainId, RouteTokens(route), RoutePools(route), capital)
    ensures forall h :: h in route ==> h.pool !in rules.blacklist && h.tokenIn !in rules.blacklist
    ensures Chained(route) ==> forall t :: Visits(route, t) ==> t !in rules.blacklist
  {
    forall h | h in route ensures h.pool !in rules.blacklist && h.tokenIn !in rules.blacklist {
      var i :| 0 <= i < |route| && route[i] == h;
      assert RoutePools(route)[i] == h.pool && RouteTokens(route)[i] == h.tokenIn;
    }
    if Chained(route) {
      ChainedIsCovered(route);
      forall t | Visits(route, t) ensures t !in rules.blacklist {
        PermittedCoveredRouteIsClean(rules, vault, executor, chainId, route, capital, t);
      }
    }
  }
}
