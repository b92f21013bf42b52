/** The two gates an execution passes (contracts/src/RiskManager.sol, contracts/src/StrategyController.sol). */
module Policy {
  import opened Common
  import opened Arith

  // ----- risk manager -----

  /** Pause scopes; the contract keys them by a hash of these addresses, taken here as injective. */
  datatype Scope = VaultExecutor(vault: Address, executor: Address) | WholeVault(vault: Address)

  datatype RiskPolicy = RiskPolicy(maxLossPerTx: nat, maxLossPerDay: nat, maxTokenExposure: nat, maxDexExposure: nat)

  const NO_POLICY := RiskPolicy(0, 0, 0, 0)

  datatype RiskError =
    | ChainNotAllowed(chainId: nat)
    | ScopePaused(scope: Scope)
    | CapitalExceedsCap
    | Blacklisted(target: Address)

  datatype RiskRules = RiskRules(
    blacklist: set<Address>,
    paused: set<Scope>,
    allowedChains: set<nat>,
    policies: map<Address, RiskPolicy>)
  {
    function PolicyOf(vault: Address): RiskPolicy {
      if vault in policies then policies[vault] else NO_POLICY
    }

    /** Nothing the rules forbid. */
    predicate Permits(vault: Address, executor: Address, chainId: nat, tokens: seq<Address>, pools: seq<Address>,
                      capital: nat)
    {
      && chainId in allowedChains
      && VaultExecutor(vault, executor) !in paused && WholeVault(vault) !in paused
      && (PolicyOf(vault).maxTokenExposure > 0 ==> capital <= PolicyOf(vault).maxTokenExposure)
      && (forall t :: t in tokens ==> t !in blacklist)
      && (forall p :: p in pools ==> p !in blacklist)
    }
  }

  class RiskManager {
    var blacklist: set<Address>
    var paused: set<Scope>
    var allowedChains: set<nat>
    var policies: map<Address, RiskPolicy>

    function Rules(): RiskRules
      reads this
    {
      RiskRules(blacklist, paused, allowedChains, policies)
    }

    constructor ()
      ensures Rules() == RiskRules({}, {}, {}, map[])
    {
      blacklist, paused, allowedChains, policies := {}, {}, {}, map[];
    }

    method SetAllowedChain(chainId: nat, allowed: bool)
      modifies this
      ensures Rules() == old(Rules()).(allowedChains :=
                if allowed then old(allowedChains) + {chainId} else old(allowedChains) - {chainId})
    {
      allowedChains := if allowed then allowedChains + {chainId} else allowedChains - {chainId};
    }

    method SetBlacklist(target: Address, blocked: bool)
      modifies this
      ensures Rules() == old(Rules()).(blacklist :=
                if blocked then old(blacklist) + {target} else old(blacklist) - {target})
    {
      blacklist := if blocked then blacklist + {target} else blacklist - {target};
    }

    method SetPolicy(vault: Address, policy: RiskPolicy)
      modifies this
      ensures Rules() == old(Rules()).(policies := old(policies)[vault := policy])
    {
      policies := policies[vault := policy];
    }

    method PauseScope(scope: Scope, on: bool)
      modifies this
      ensures Rules() == old(Rules()).(paused := if on then old(paused) + {scope} else old(paused) - {scope})
    {
      paused := if on then paused + {scope} else paused - {scope};
    }

    /** Reverts exactly when the settings or the blacklist forbid the execution, and names the first rule
        that is broken, in the order chain, narrow scope, wide scope, cap, tokens, pools. */
    method CheckExecution(vault: Address, executor: Address, chainId: nat, routeTokens: seq<Address>,
                          routePools: seq<Address>, capital: nat) returns (failure: Option<RiskError>)
      ensures failure.None? <==> Rules().Permits(vault, executor, chainId, routeTokens, routePools, capital)
      ensures failure.None? <==>
        && chainId in allowedChains
        && VaultExecutor(vault, executor) !in paused && WholeVault(vault) !in paused
        && (vault in policies && policies[vault].maxTokenExposure > 0 ==> capital <= policies[vault].maxTokenExposure)
        && (forall t :: t in routeTokens ==> t !in blacklist) && (forall p :: p in routePools ==> p !in blacklist)
      ensures chainId !in allowedChains <==> failure == Some(ChainNotAllowed(chainId))
      ensures match failure
              case None => true
              case Some(ChainNotAllowed(c)) => c == chainId
              case Some(ScopePaused(s)) =>
                && chainId in allowedChains && s in paused
                && (s == VaultExecutor(vault, executor) ||
                    (VaultExecutor(vault, executor) !in paused && s == WholeVault(vault)))
              case Some(CapitalExceedsCap) =>
                && chainId in allowedChains
                && VaultExecutor(vault, executor) !in paused && WholeVault(vault) !in paused
                && vault in policies && capital > policies[vault].maxTokenExposure > 0
              case Some(Blacklisted(t)) =>
                && Rules().Permits(vault, executor, chainId, [], [], capital)
                && t in blacklist
                && ((exists i :: 0 <= i < |routeTokens| && routeTokens[i] == t
                                 && forall k :: 0 <= k < i ==> routeTokens[k] !in blacklist)
                    || ((forall u :: u in routeTokens ==> u !in blacklist)
                        && exists i :: 0 <= i < |routePools| && routePools[i] == t
                                       && forall k :: 0 <= k < i ==> routePools[k] !in blacklist))
    {
      if chainId !in allowedChains {
        return Some(ChainNotAllowed(chainId));
      }
      if VaultExecutor(vault, executor) in paused {
        return Some(ScopePaused(VaultExecutor(vault, executor)));
      }
      if WholeVault(vault) in paused {
        return Some(ScopePaused(WholeVault(vault)));
      }
      var p := if vault in policies then policies[vault] else NO_POLICY;
      if p.maxTokenExposure > 0 && capital > p.maxTokenExposure {
        return Some(CapitalExceedsCap);
      }
      for i := 0 to |routeTokens|
        invariant forall k :: 0 <= k < i ==> routeTokens[k] !in blacklist
      {
        if routeTokens[i] in blacklist {
          return Some(Blacklisted(routeTokens[i]));
        }
      }
      for i := 0 to |routePools|
        invariant forall k :: 0 <= k < i ==> routePools[k] !in blacklist
      {
        if routePools[i] in blacklist {
          return Some(Blacklisted(routePools[i]));
        }
      }
      return None;
    }
  }

  // ----- strategy controller -----

  datatype Allocation = Allocation(maxCapital: nat, maxLossPerDay: nat, maxDeployablePct: nat, active: bool)

  const NO_ALLOCATION := Allocation(0, 0, 0, false)

  datatype ControlError = NotWhitelistedExecutor | StrategyInactive | CapitalCapExceeded | DeployablePctExceeded

  datatype ControlRules = ControlRules(executors: set<Address>, allocations: map<(Address, string), Allocation>) {

    function AllocationOf(vault: Address, strategy: string): Allocation {
      if (vault, strategy) in allocations then allocations[(vault, strategy)] else NO_ALLOCATION
    }

    /** The executor is listed, the strategy active, and the draw within its absolute and its
        proportional cap; a cap of zero is no cap, and an empty vault has no proportional one. */
    predicate Permits(vault: Address, strategy: string, executor: Address, amount: nat, tvl: nat) {
      var a := AllocationOf(vault, strategy);
      && executor in executors
      && a.active
      && (a.maxCapital > 0 ==> amount <= a.maxCapital)
      && (a.maxDeployablePct > 0 && tvl > 0 ==> amount * 10_000 <= tvl * a.maxDeployablePct)
    }
  }

  class StrategyController {
    var executors: set<Address>
    var allocations: map<(Address, string), Allocation>

    function Rules(): ControlRules
      reads this
    {
      ControlRules(executors, allocations)
    }

    constructor ()
      ensures Rules() == ControlRules({}, map[])
    {
      executors, allocations := {}, map[];
    }

    method SetExecutor(executor: Address, allowed: bool)
      modifies this
      ensures Rules() == old(Rules()).(executors :=
                if allowed then old(executors) + {executor} else old(executors) - {executor})
    {
      executors := if allowed then executors + {executor} else executors - {executor};
    }

    method SetAllocation(vault: Address, strategy: string, allocation: Allocation)
      modifies this
      ensures Rules() == old(Rules()).(allocations := old(allocations)[(vault, strategy) := allocation])
    {
      allocations := allocations[(vault, strategy) := allocation];
    }

    /** Reverts exactly when the rules forbid the draw, and names the first rule that is broken. */
    method Authorize(vault: Address, strategy: string, executor: Address, amount: nat, tvl: nat)
      returns (failure: Option<ControlError>)
      ensures failure.None? <==> Rules().Permits(vault, strategy, executor, amount, tvl)
      ensures failure ==
        if executor !in executors then Some(NotWhitelistedExecutor)
        else if (vault, strategy) !in allocations || !allocations[(vault, strategy)].active then Some(StrategyInactive)
        else
          var a := allocations[(vault, strategy)];
          if a.maxCapital > 0 && amount > a.maxCapital then Some(CapitalCapExceeded)
          else if a.maxDeployablePct > 0 && tvl > 0 && amount * 10_000 > tvl * a.maxDeployablePct
          then Some(DeployablePctExceeded)
          else None
    {
      if executor !in executors {
        return Some(NotWhitelistedExecutor);
      }
      var a := if (vault, strategy) in allocations then allocations[(vault, strategy)] else NO_ALLOCATION;
      if !a.active {
        return Some(StrategyInactive);
      }
      if a.maxCapital > 0 && amount > a.maxCapital {
        return Some(CapitalCapExceeded);
      }
      if a.maxDeployablePct > 0 && tvl > 0 {
        var maxFromPct := Div(Mul(tvl, a.maxDeployablePct), 10_000);
        if amount > maxFromPct {
          return Some(DeployablePctExceeded);
        }
      }
      return None;
    }
  }
}
