/** Atomic route execution (contracts/src/StrategyExecutor.sol). */
module Executor {
  import opened Common
  import opened Arith
  import opened Vault
  import opened VaultCalls
  import opened Policy

  datatype SwapHop = SwapHop(adapter: Address, pool: Address, tokenIn: Address, tokenOut: Address, minAmountOut: nat)

  datatype Request = Request(
    asset: Address,
    strategyId: string,
    principal: nat,
    route: seq<SwapHop>,
    minProfitAssets: nat,
    deadline: nat)

  /** What an adapter call does: revert, or answer an amount and leave some token balances. */
  datatype SwapOutcome = SwapReverts | Swapped(amountOut: nat, ledger: Ledger)

  /** The adapters and the venues behind them: step number, hop, amount handed over, balances before. */
  type Dex = (nat, SwapHop, nat, Ledger) -> SwapOutcome

  datatype Env = Env(timestamp: nat, chainId: nat, dex: Dex)

  /** The executor's configuration; an absent risk manager or controller is not consulted. */
  datatype Config = Config(
    self: Address,
    trustedVaults: set<Address>,
    adapters: set<Address>,
    risk: Option<RiskRules>,
    control: Option<ControlRules>)

  datatype ExecError =
    | PastDeadline
    | UntrustedVault
    | RiskRejected
    | ControlRejected
    | PrincipalNotPresent
    | AdapterNotWhitelisted(adapter: Address)
    | AdapterReverted
    | EmptyRoute
    | RouteNotClosed
    | InsufficientProfit
    | ReportRejected(error: VaultError)

  // ----- the route's tokens and pools -----

  function RouteTokens(route: seq<SwapHop>): (tokens: seq<Address>)
    requires route != []
    ensures |tokens| == |route| + 1
  {
    seq(|route| + 1, i requires 0 <= i <= |route| =>
      if i < |route| then route[i].tokenIn else route[|route| - 1].tokenOut)
  }

  function RoutePools(route: seq<SwapHop>): (pools: seq<Address>)
    ensures |pools| == |route|
  {
    seq(|route|, i requires 0 <= i < |route| => route[i].pool)
  }

  /** Every token a hop takes or gives. */
  predicate Visits(route: seq<SwapHop>, token: Address) {
    exists h :: h in route && (h.tokenIn == token || h.tokenOut == token)
  }

  predicate Chained(route: seq<SwapHop>) {
    forall i :: 0 <= i < |route| - 1 ==> route[i].tokenOut == route[i + 1].tokenIn
  }

  // ----- the hop loop as a function -----

  /** The running amount and balances after the first `n` hops. */
  function WalkRoute(cfg: Config, dex: Dex, route: seq<SwapHop>, principal: nat, ledger: Ledger, n: nat)
    : Result<(nat, Ledger), ExecError>
    requires n <= |route|
    decreases n, principal
  {
    if n == 0 then Success((principal, ledger))
    else match WalkRoute(cfg, dex, route, principal, ledger, n - 1)
      case Failure(e) => Failure(e)
      case Success(r) =>
        var hop := route[n - 1];
        if hop.adapter !in cfg.adapters then Failure(AdapterNotWhitelisted(hop.adapter))
        else match dex(n - 1, hop, r.0, r.1)
          case SwapReverts => Failure(AdapterReverted)
          case Swapped(out, after) => Success((out, after))
  }

  /** The running amount and the balances before the first hop and after each hop made. */
  type Trace = seq<(nat, Ledger)>

  /** The `i`-th hop's adapter is listed and, handed what the hops before it left, answers what the next
      entry says. */
  ghost predicate HandsOn(cfg: Config, dex: Dex, route: seq<SwapHop>, trace: Trace, i: nat)
    requires i < |route| && i + 1 < |trace|
  {
    && route[i].adapter in cfg.adapters
    && dex(i, route[i], trace[i].0, trace[i].1) == Swapped(trace[i + 1].0, trace[i + 1].1)
  }

  /** Starting from the principal, each hop is handed what the hop before it answered. */
  ghost predicate HandedOn(cfg: Config, dex: Dex, route: seq<SwapHop>, principal: nat, ledger: Ledger, trace: Trace) {
    && 1 <= |trace| <= |route| + 1 && trace[0] == (principal, ledger)
    && forall i :: 0 <= i < |trace| - 1 ==> HandsOn(cfg, dex, route, trace, i)
  }

  /** The hop after the trace is the first that fails: its adapter is not listed, or reverts. */
  ghost predicate StopsWith(cfg: Config, dex: Dex, route: seq<SwapHop>, trace: Trace, e: ExecError) {
    && 1 <= |trace| <= |route|
    && var k := |trace| - 1;
       if route[k].adapter !in cfg.adapters then e == AdapterNotWhitelisted(route[k].adapter)
       else dex(k, route[k], trace[k].0, trace[k].1) == SwapReverts && e == AdapterReverted
  }

  lemma {:induction false} WalkIsHandedOn(cfg: Config, dex: Dex, route: seq<SwapHop>, principal: nat, ledger: Ledger,
                                          n: nat) returns (trace: Trace)
    requires n <= |route|
    ensures HandedOn(cfg, dex, route, principal, ledger, trace)
    ensures match WalkRoute(cfg, dex, route, principal, ledger, n)
            case Success(r) => |trace| == n + 1 && trace[n] == r
            case Failure(e) => |trace| <= n && StopsWith(cfg, dex, route, trace, e)
    decreases n
  {
    if n == 0 {
      trace := [(principal, ledger)];
    } else {
      trace := WalkIsHandedOn(cfg, dex, route, principal, ledger, n - 1);
      var before := WalkRoute(cfg, dex, route, principal, ledger, n - 1);
      if before.Success? && route[n - 1].adapter in cfg.adapters {
        match dex(n - 1, route[n - 1], trace[n - 1].0, trace[n - 1].1) {
          case SwapReverts =>
          case Swapped(out, after) => trace := HandMore(cfg, dex, route, principal, ledger, trace, (out, after));
        }
      }
    }
  }

  lemma HandMore(cfg: Config, dex: Dex, route: seq<SwapHop>, principal: nat, ledger: Ledger, trace: Trace,
                 next: (nat, Ledger)) returns (longer: Trace)
    requires HandedOn(cfg, dex, route, principal, ledger, trace) && |trace| <= |route|
    requires route[|trace| - 1].adapter in cfg.adapters
    requires dex(|trace| - 1, route[|trace| - 1], trace[|trace| - 1].0, trace[|trace| - 1].1) == Swapped(next.0, next.1)
    ensures longer == trace + [next] && HandedOn(cfg, dex, route, principal, ledger, longer)
  {
    longer := trace + [next];
    forall i | 0 <= i < |longer| - 1 ensures HandsOn(cfg, dex, route, longer, i) {
      if i < |trace| - 1 {
        assert HandsOn(cfg, dex, route, trace, i);
      }
    }
  }

  /** There is only one way to hand the amounts on. */
  lemma {:induction false} HandedOnIsWalk(cfg: Config, dex: Dex, route: seq<SwapHop>, principal: nat, ledger: Ledger,
                                          trace: Trace, n: nat)
    requires HandedOn(cfg, dex, route, principal, ledger, trace) && n < |trace|
    ensures WalkRoute(cfg, dex, route, principal, ledger, n) == Success(trace[n])
    decreases n
  {
    if n > 0 {
      HandedOnIsWalk(cfg, dex, route, principal, ledger, trace, n - 1);
      assert HandsOn(cfg, dex, route, trace, n - 1);
    }
  }

  lemma {:induction false} WalkFailsForGood(cfg: Config, dex: Dex, route: seq<SwapHop>, principal: nat, ledger: Ledger,
                                            n: nat, more: nat)
    requires n + more <= |route| && WalkRoute(cfg, dex, route, principal, ledger, n).Failure?
    ensures WalkRoute(cfg, dex, route, principal, ledger, n + more) == WalkRoute(cfg, dex, route, principal, ledger, n)
  {
    if more > 0 {
      WalkFailsForGood(cfg, dex, route, principal, ledger, n, more - 1);
    }
  }

  /** The checks made before any token moves. */
  function Gate(cfg: Config, st: VaultState, req: Request, env: Env): Option<ExecError> {
    if env.timestamp > req.deadline then Some(PastDeadline)
    else if st.self !in cfg.trustedVaults then Some(UntrustedVault)
    else if cfg.risk.Some? && req.route == [] then Some(EmptyRoute)
    else if cfg.risk.Some? && !cfg.risk.value.Permits(st.self, cfg.self, env.chainId, RouteTokens(req.route),
                                                     RoutePools(req.route), req.principal)
    then Some(RiskRejected)
    else if cfg.control.Some? && !cfg.control.value.Permits(st.self, req.strategyId, cfg.self, req.principal,
                                                           st.TotalAssets())
    then Some(ControlRejected)
    else if Bal(st.ledger, Account(req.asset, cfg.self)) < req.principal then Some(PrincipalNotPresent)
    else None
  }

  /** The checks and transfer made after the walk; answers the profit. */
  function Settle(cfg: Config, st: VaultState, req: Request, walked: Ledger): Result<(VaultState, nat), ExecError>
    requires req.route != []
  {
    var held := Bal(walked, Account(req.asset, cfg.self));
    if req.asset != req.route[|req.route| - 1].tokenOut then Failure(RouteNotClosed)
    else if held < req.principal || held - req.principal < req.minProfitAssets then Failure(InsufficientProfit)
    else
      var paid := st.(ledger := Move(walked, Account(req.asset, cfg.self), Account(req.asset, st.self), held));
      match ReportProfit(paid, cfg.self, held - req.principal, req.minProfitAssets)
      case Failure(e) => Failure(ReportRejected(e))
      case Success(r) => Success((r.0, held - req.principal))
  }

  function Execute(cfg: Config, st: VaultState, req: Request, env: Env): Result<(VaultState, nat), ExecError> {
    var refused := Gate(cfg, st, req, env);
    if refused.Some? then Failure(refused.value)
    else match WalkRoute(cfg, env.dex, req.route, req.principal, st.ledger, |req.route|)
      case Failure(e) => Failure(e)
      case Success(r) => if req.route == [] then Failure(EmptyRoute) else Settle(cfg, st, req, r.1)
  }

  // ----- executions in plain terms -----

  /** The chain is allowed, neither pause scope is on, the principal is within the exposure cap, and no
      input token, no pool and not the final token is blacklisted. */
  ghost predicate RiskAllows(rules: RiskRules, vault: Address, executor: Address, chainId: nat, route: seq<SwapHop>,
                             capital: nat)
    requires route != []
  {
    && chainId in rules.allowedChains
    && VaultExecutor(vault, executor) !in rules.paused && WholeVault(vault) !in rules.paused
    && (vault in rules.policies && rules.policies[vault].maxTokenExposure > 0 ==>
          capital <= rules.policies[vault].maxTokenExposure)
    && (forall i :: 0 <= i < |route| ==> route[i].tokenIn !in rules.blacklist && route[i].pool !in rules.blacklist)
    && route[|route| - 1].tokenOut !in rules.blacklist
  }

  /** The executor is listed, and the strategy has an active allocation whose two caps, where set, hold. */
  ghost predicate ControlAllows(rules: ControlRules, vault: Address, strategy: string, executor: Address, amount: nat,
                                held: nat)
  {
    && executor in rules.executors && (vault, strategy) in rules.allocations
    && var a := rules.allocations[(vault, strategy)];
    && a.active && (a.maxCapital > 0 ==> amount <= a.maxCapital)
    && (a.maxDeployablePct > 0 && held > 0 ==> amount * 10_000 <= held * a.maxDeployablePct)
  }

  /** Everything checked before a token moves: time, trust, the two gates where installed, the principal. */
  ghost predicate MayRun(cfg: Config, st: VaultState, req: Request, env: Env) {
    var held := Bal(st.ledger, Account(st.assetToken, st.self));
    && env.timestamp <= req.deadline && st.self in cfg.trustedVaults
    && (cfg.risk.Some? ==>
          && req.route != []
          && RiskAllows(cfg.risk.value, st.self, cfg.self, env.chainId, req.route, req.principal))
    && (cfg.control.Some? ==>
          ControlAllows(cfg.control.value, st.self, req.strategyId, cfg.self, req.principal, held))
    && Bal(st.ledger, Account(req.asset, cfg.self)) >= req.principal
  }

  /** The route is closed, the executor is left with the principal and `profit`, at least its floor, and
      the vault lists the executor and will hold the profit. */
  ghost predicate Profits(cfg: Config, st: VaultState, req: Request, walked: Ledger, profit: nat) {
    var (from, home) := (Account(req.asset, cfg.self), Account(st.assetToken, st.self));
    && req.route != [] && req.asset == req.route[|req.route| - 1].tokenOut
    && Bal(walked, from) == req.principal + profit && profit >= req.minProfitAssets
    && cfg.self in st.executors
    && Bal(walked, home) + (if req.asset == st.assetToken then req.principal + profit else 0)
         - (if from == home then req.principal + profit else 0) >= profit
  }

  /** The trace runs through the whole route and leaves `profit`. */
  ghost predicate Closes(cfg: Config, st: VaultState, req: Request, env: Env, trace: Trace, profit: nat) {
    && HandedOn(cfg, env.dex, req.route, req.principal, st.ledger, trace) && |trace| == |req.route| + 1
    && Profits(cfg, st, req, trace[|req.route|].1, profit)
  }

  /** The executor's whole balance of the asset has moved to the vault; the profit is booked, the shares
      for the fee of floor(profit feeBps / 10000) are minted, and nothing else has changed. */
  ghost predicate PaysOut(cfg: Config, st: VaultState, req: Request, walked: Ledger, profit: nat, after: VaultState) {
    var minted := Mul(profit * st.feeBps / 10_000, st.supply + 1)
                    / (Bal(after.ledger, Account(st.assetToken, st.self)) + 1);
    && Moves(walked, after.ledger, Account(req.asset, cfg.self), Account(req.asset, st.self), req.principal + profit)
    && after.realized == st.realized + profit && KeepsSettings(st, after)
    && Changes(st.shares, after.shares, st.feeRecipient, minted) && after.supply == st.supply + minted
  }

  lemma RiskRulesPlainly(rules: RiskRules, vault: Address, executor: Address, chainId: nat, route: seq<SwapHop>,
                         capital: nat)
    requires route != []
    ensures rules.Permits(vault, executor, chainId, RouteTokens(route), RoutePools(route), capital)
       <==> RiskAllows(rules, vault, executor, chainId, route, capital)
  {
    var tokens, pools := RouteTokens(route), RoutePools(route);
    forall i | 0 <= i < |route| ensures tokens[i] == route[i].tokenIn && pools[i] == route[i].pool {}
    assert tokens[|route|] == route[|route| - 1].tokenOut;
    assert (forall t :: t in tokens ==> t !in rules.blacklist) ==>
             forall i :: 0 <= i <= |route| ==> tokens[i] !in rules.blacklist;
    assert (forall p :: p in pools ==> p !in rules.blacklist) ==>
             forall i :: 0 <= i < |route| ==> pools[i] !in rules.blacklist;
  }

  /** The gate opens exactly when the execution may run, and otherwise names the first check that fails. */
  lemma GateOpensExactlyWhen(cfg: Config, st: VaultState, req: Request, env: Env)
    ensures Gate(cfg, st, req, env).None? <==> MayRun(cfg, st, req, env)
    ensures Gate(cfg, st, req, env).Some? ==>
      Gate(cfg, st, req, env).value ==
        if env.timestamp > req.deadline then PastDeadline
        else if st.self !in cfg.trustedVaults then UntrustedVault
        else if cfg.risk.Some? && req.route == [] then EmptyRoute
        else if cfg.risk.Some?
                && !RiskAllows(cfg.risk.value, st.self, cfg.self, env.chainId, req.route, req.principal)
        then RiskRejected
        else if cfg.control.Some?
                && !ControlAllows(cfg.control.value, st.self, req.strategyId, cfg.self, req.principal,
                                  Bal(st.ledger, Account(st.assetToken, st.self)))
        then ControlRejected
        else PrincipalNotPresent
  {
    if cfg.risk.Some? && req.route != [] {
      RiskRulesPlainly(cfg.risk.value, st.self, cfg.self, env.chainId, req.route, req.principal);
    }
  }

  lemma SettlesExactlyWhen(cfg: Config, st: VaultState, req: Request, walked: Ledger, profit: nat)
    requires req.route != []
    ensures Settle(cfg, st, req, walked).Success? && Settle(cfg, st, req, walked).value.1 == profit
       <==> Profits(cfg, st, req, walked, profit)
  {
    var held := Bal(walked, Account(req.asset, cfg.self));
    if held >= req.principal {
      var paid := st.(ledger := Move(walked, Account(req.asset, cfg.self), Account(req.asset, st.self), held));
      MoveMoves(walked, Account(req.asset, cfg.self), Account(req.asset, st.self), held);
    }
  }

  lemma SettlingPaysOut(cfg: Config, st: VaultState, req: Request, walked: Ledger)
    requires req.route != [] && Settle(cfg, st, req, walked).Success?
    ensures var (after, profit) := Settle(cfg, st, req, walked).value;
      PaysOut(cfg, st, req, walked, profit, after)
  {
    var held := Bal(walked, Account(req.asset, cfg.self));
    var paid := st.(ledger := Move(walked, Account(req.asset, cfg.self), Account(req.asset, st.self), held));
    MoveMoves(walked, Account(req.asset, cfg.self), Account(req.asset, st.self), held);
    ReportPaysOut(cfg, st, req, walked, paid, held - req.principal);
  }

  lemma ReportPaysOut(cfg: Config, st: VaultState, req: Request, walked: Ledger, paid: VaultState, profit: nat)
    requires paid == st.(ledger := paid.ledger)
    requires Moves(walked, paid.ledger, Account(req.asset, cfg.self), Account(req.asset, st.self),
                   req.principal + profit)
    requires ReportProfit(paid, cfg.self, profit, req.minProfitAssets).Success?
    ensures PaysOut(cfg, st, req, walked, profit, ReportProfit(paid, cfg.self, profit, req.minProfitAssets).value.0)
  {
    ReportExactly(paid, cfg.self, profit, req.minProfitAssets);
  }

  /** A walked route that is not settled names the first check that failed. */
  lemma SettleNamesFirst(cfg: Config, st: VaultState, req: Request, walked: Ledger)
    requires req.route != [] && Settle(cfg, st, req, walked).Failure?
    ensures
      var held := Bal(walked, Account(req.asset, cfg.self));
      Settle(cfg, st, req, walked).error ==
        if req.asset != req.route[|req.route| - 1].tokenOut then RouteNotClosed
        else if held < req.principal + req.minProfitAssets then InsufficientProfit
        else ReportRejected(if cfg.self !in st.executors then Unauthorized else ProfitNotPresent)
  {
  }

  ghost predicate CanClose(cfg: Config, st: VaultState, req: Request, env: Env) {
    exists trace: Trace, profit: nat :: Closes(cfg, st, req, env, trace, profit)
  }

  ghost predicate Delivers(cfg: Config, st: VaultState, req: Request, env: Env, after: VaultState, profit: nat) {
    exists trace: Trace ::
      Closes(cfg, st, req, env, trace, profit) && PaysOut(cfg, st, req, trace[|req.route|].1, profit, after)
  }

  /** An execution succeeds exactly when it may run and there is a trace that closes; then it answers the
      profit and pays out, and nothing else. */
  lemma ExecuteExactly(cfg: Config, st: VaultState, req: Request, env: Env)
    ensures Execute(cfg, st, req, env).Success? <==> MayRun(cfg, st, req, env) && CanClose(cfg, st, req, env)
    ensures Execute(cfg, st, req, env).Success? ==>
              Delivers(cfg, st, req, env, Execute(cfg, st, req, env).value.0, Execute(cfg, st, req, env).value.1)
  {
    GateOpensExactlyWhen(cfg, st, req, env);
    var trace := WalkIsHandedOn(cfg, env.dex, req.route, req.principal, st.ledger, |req.route|);
    if Execute(cfg, st, req, env).Success? {
      SettlesExactlyWhen(cfg, st, req, trace[|req.route|].1, Execute(cfg, st, req, env).value.1);
      SettlingPaysOut(cfg, st, req, trace[|req.route|].1);
      assert Closes(cfg, st, req, env, trace, Execute(cfg, st, req, env).value.1);
    }
    if MayRun(cfg, st, req, env) {
      if other: Trace, profit: nat :| Closes(cfg, st, req, env, other, profit) {
        HandedOnIsWalk(cfg, env.dex, req.route, req.principal, st.ledger, other, |req.route|);
        SettlesExactlyWhen(cfg, st, req, other[|req.route|].1, profit);
      }
    }
  }

  // ----- the contract -----

  class StrategyExecutor {
    const self: Address
    const tokens: Tokens
    var trustedVaults: set<Address>
    var whitelistedAdapters: set<Address>
    var controller: StrategyController?
    var riskManager: RiskManager?

    function Configuration(): Config
      reads this, controller, riskManager
    {
      Config(self, trustedVaults, whitelistedAdapters,
             if riskManager == null then None else Some(riskManager.Rules()),
             if controller == null then None else Some(controller.Rules()))
    }

    constructor (self: Address, tokens: Tokens, controller: StrategyController?, riskManager: RiskManager?)
      ensures this.self == self && this.tokens == tokens
      ensures this.controller == controller && this.riskManager == riskManager
      ensures trustedVaults == {} && whitelistedAdapters == {}
    {
      this.self, this.tokens, this.controller, this.riskManager := self, tokens, controller, riskManager;
      trustedVaults, whitelistedAdapters := {}, {};
    }

    method SetTrustedVault(vault: Address, trusted: bool)
      modifies this
      ensures Configuration() == old(Configuration()).(trustedVaults :=
                if trusted then old(trustedVaults) + {vault} else old(trustedVaults) - {vault})
    {
      trustedVaults := if trusted then trustedVaults + {vault} else trustedVaults - {vault};
    }

    method WhitelistAdapter(adapter: Address, allowed: bool)
      modifies this
      ensures Configuration() == old(Configuration()).(adapters :=
                if allowed then old(whitelistedAdapters) + {adapter} else old(whitelistedAdapters) - {adapter})
    {
      whitelistedAdapters := if allowed then whitelistedAdapters + {adapter} else whitelistedAdapters - {adapter};
    }

    method ExtractRouteTokensAndPools(route: seq<SwapHop>) returns (routeTokens: seq<Address>, routePools: seq<Address>)
      requires route != []
      ensures routeTokens == RouteTokens(route) && routePools == RoutePools(route)
      ensures |routeTokens| == |route| + 1 && routeTokens[|route|] == route[|route| - 1].tokenOut
      ensures |routePools| == |route|
      ensures forall i :: 0 <= i < |route| ==> routeTokens[i] == route[i].tokenIn && routePools[i] == route[i].pool
    {
      routeTokens, routePools := [], [];
      for i := 0 to |route|
        invariant |routeTokens| == |routePools| == i
        invariant forall k :: 0 <= k < i ==> routeTokens[k] == route[k].tokenIn && routePools[k] == route[k].pool
      {
        routeTokens := routeTokens + [route[i].tokenIn];
        routePools := routePools + [route[i].pool];
      }
      routeTokens := routeTokens + [route[|route| - 1].tokenOut];
    }

    method CheckGate(vault: ArbVault, req: Request, env: Env) returns (refused: Option<ExecError>)
      requires vault.tokens == tokens
      ensures refused == Gate(Configuration(), vault.State(), req, env)
      ensures refused.None? <==> MayRun(Configuration(), vault.State(), req, env)
    {
      GateOpensExactlyWhen(Configuration(), vault.State(), req, env);
      if env.timestamp > req.deadline {
        return Some(PastDeadline);
      }
      if vault.self !in trustedVaults {
        return Some(UntrustedVault);
      }
      if riskManager != null {
        if |req.route| == 0 {
          return Some(EmptyRoute);
        }
        var routeTokens, routePools := ExtractRouteTokensAndPools(req.route);
        var failure := riskManager.CheckExecution(vault.self, self, env.chainId, routeTokens, routePools,
                                                  req.principal);
        if failure.Some? {
          return Some(RiskRejected);
        }
      }
      if controller != null {
        var tvl := vault.TotalAssets();
        var failure := controller.Authorize(vault.self, req.strategyId, self, req.principal, tvl);
        if failure.Some? {
          return Some(ControlRejected);
        }
      }
      if Bal(tokens.ledger, Account(req.asset, self)) < req.principal {
        return Some(PrincipalNotPresent);
      }
      return None;
    }

    /** Walk the route hop by hop on the live balances. */
    method WalkHops(req: Request, env: Env) returns (failure: Option<ExecError>)
      modifies tokens
      ensures match WalkRoute(old(Configuration()), env.dex, req.route, req.principal, old(tokens.ledger), |req.route|)
              case Success(r) => failure.None? && tokens.ledger == r.1
              case Failure(e) => failure == Some(e)
      ensures exists trace: Trace ::
        && HandedOn(old(Configuration()), env.dex, req.route, req.principal, old(tokens.ledger), trace)
        && match failure
           case None => |trace| == |req.route| + 1 && tokens.ledger == trace[|req.route|].1
           case Some(e) => StopsWith(old(Configuration()), env.dex, req.route, trace, e)
    {
      ghost var cfg, start := Configuration(), tokens.ledger;
      ghost var trace := WalkIsHandedOn(cfg, env.dex, req.route, req.principal, start, |req.route|);
      var runningAmount := req.principal;
      for i := 0 to |req.route|
        invariant WalkRoute(cfg, env.dex, req.route, req.principal, start, i) == Success((runningAmount, tokens.ledger))
      {
        ghost var rest := |req.route| - i - 1;
        var hop := req.route[i];
        if hop.adapter !in whitelistedAdapters {
          WalkFailsForGood(cfg, env.dex, req.route, req.principal, start, i + 1, rest);
          return Some(AdapterNotWhitelisted(hop.adapter));
        }
        match env.dex(i, hop, runningAmount, tokens.ledger) {
          case SwapReverts =>
            WalkFailsForGood(cfg, env.dex, req.route, req.principal, start, i + 1, rest);
            return Some(AdapterReverted);
          case Swapped(out, after) =>
            tokens.ledger := after;
            runningAmount := out;
        }
      }
      return None;
    }

    /** The checks and the hand-over after the walk; a failure leaves the balances to the caller. */
    method SettleRoute(vault: ArbVault, req: Request, ghost start: VaultState) returns (r: Result<nat, ExecError>)
      requires vault.tokens == tokens && req.route != [] && vault.State() == start.(ledger := tokens.ledger)
      modifies tokens, vault
      ensures match Settle(old(Configuration()), start, req, old(tokens.ledger))
              case Success(s) => r == Success(s.1) && vault.State() == s.0
              case Failure(e) => r == Failure(e) && vault.State() == start.(ledger := tokens.ledger)
    {
      if req.asset != req.route[|req.route| - 1].tokenOut {
        return Failure(RouteNotClosed);
      }
      var balEnd := Bal(tokens.ledger, Account(req.asset, self));
      if balEnd < req.principal {
        return Failure(InsufficientProfit);
      }
      var profit := balEnd - req.principal;
      if profit < req.minProfitAssets {
        return Failure(InsufficientProfit);
      }
      var ok := tokens.Transfer(Account(req.asset, self), Account(req.asset, vault.self), balEnd);
      var report := vault.BookProfit(self, profit, req.minProfitAssets);
      if report.Failure? {
        return Failure(ReportRejected(report.error));
      }
      return Success(profit);
    }

    /** A failed execution restores every balance; a successful one is the function above. */
    method ExecuteRoute(vault: ArbVault, req: Request, env: Env) returns (r: Result<nat, ExecError>)
      requires vault.tokens == tokens
      modifies tokens, vault
      ensures match Execute(old(Configuration()), old(vault.State()), req, env)
              case Success(s) => r == Success(s.1) && vault.State() == s.0
              case Failure(e) => r == Failure(e) && vault.State() == old(vault.State())
      ensures r.Success? <==>
        MayRun(old(Configuration()), old(vault.State()), req, env)
        && CanClose(old(Configuration()), old(vault.State()), req, env)
      ensures r.Success? ==>
        Delivers(old(Configuration()), old(vault.State()), req, env, vault.State(), r.value)
    {
      ghost var start := vault.State();
      ExecuteExactly(Configuration(), start, req, env);
      var refused := CheckGate(vault, req, env);
      if refused.Some? {
        return Failure(refused.value);
      }
      var snapshot := tokens.ledger;
      var failure := WalkHops(req, env);
      if failure.Some? {
        tokens.ledger := snapshot;
        return Failure(failure.value);
      }
      if |req.route| == 0 {
        tokens.ledger := snapshot;
        return Failure(EmptyRoute);
      }
      r := SettleRoute(vault, req, start);
      if r.Failure? {
        tokens.ledger := snapshot;
      }
    }
  }
}
