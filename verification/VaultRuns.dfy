/** What every run of the vault keeps. */
module VaultRuns {
  import opened Common
  import opened Arith
  import opened Vault
  import opened VaultCalls
  import opened Policy
  import opened Executor

  datatype Op =
    | OpDeposit(caller: Address, receiver: Address, assets: nat, approved: bool)
    | OpMint(caller: Address, receiver: Address, amount: nat, approved: bool)
    | OpWithdraw(caller: Address, receiver: Address, owner: Address, assets: nat, approved: bool)
    | OpRedeem(caller: Address, receiver: Address, owner: Address, amount: nat, approved: bool)
    | OpTransferShares(from: Address, to: Address, amount: nat)
    | OpOutside(ledger: Ledger)
    | OpPause(on: bool)
    | OpSetFee(newBps: nat)
    | OpSetFeeRecipient(recipient: Address)
    | OpExecute(cfg: Config, req: Request, env: Env)

  /** One call; a reverted one changes nothing.  `OpOutside` is any movement of tokens that does not
      pass through the vault, such as a donation. */
  function Step(st: VaultState, op: Op): VaultState {
    match op
    case OpDeposit(caller, receiver, assets, approved) => After(st, Deposit(st, caller, receiver, assets, approved))
    case OpMint(caller, receiver, amount, approved) => After(st, Mint(st, caller, receiver, amount, approved))
    case OpWithdraw(caller, receiver, owner, assets, approved) =>
      After(st, Withdraw(st, caller, receiver, owner, assets, approved))
    case OpRedeem(caller, receiver, owner, amount, approved) =>
      After(st, Redeem(st, caller, receiver, owner, amount, approved))
    case OpTransferShares(from, to, amount) =>
      if Bal(st.shares, from) < amount then st else st.(shares := Move(st.shares, from, to, amount))
    case OpOutside(ledger) => st.(ledger := ledger)
    case OpPause(on) => st.(paused := on)
    case OpSetFee(newBps) => After(st, SetPerformanceFee(st, newBps))
    case OpSetFeeRecipient(recipient) => After(st, SetFeeRecipient(st, recipient))
    case OpExecute(cfg, req, env) =>
      match Execute(cfg, st, req, env)
      case Success(s) => s.0
      case Failure(_) => st
  }

  /** The contract assumed of adapters: no swap takes from the vault's own holding. */
  ghost predicate NeverTakes(dex: Dex, kept: Account) {
    forall i, hop, amount, ledger ::
      dex(i, hop, amount, ledger).Swapped? ==> Bal(dex(i, hop, amount, ledger).ledger, kept) >= Bal(ledger, kept)
  }

  /** No swap moves the vault's own holding at all. */
  ghost predicate LeavesAlone(dex: Dex, kept: Account) {
    forall i, hop, amount, ledger ::
      dex(i, hop, amount, ledger).Swapped? ==> Bal(dex(i, hop, amount, ledger).ledger, kept) == Bal(ledger, kept)
  }

  /** What the environment guarantees of a call: the vault never calls itself, and nobody else can
      take its tokens.  Executions may trade any asset. */
  ghost predicate Legal(st: VaultState, op: Op) {
    match op
    case OpDeposit(caller, _, _, _) => caller != st.self
    case OpMint(caller, _, _, _) => caller != st.self
    case OpOutside(ledger) => Bal(ledger, st.Home()) >= st.TotalAssets()
    case OpExecute(cfg, _, env) => cfg.self != st.self && NeverTakes(env.dex, st.Home())
    case _ => true
  }

  /** The fee on `profit` is too small to mint a share of the vault as it stands. */
  predicate FeeMintsNothing(st: VaultState, profit: nat) {
    Mul(Fee(st, profit), st.supply + 1) < st.TotalAssets() + 1
  }

  /** An execution trades the vault's own asset, or brings a fee too small to mint a share. */
  predicate PriceSafe(st: VaultState, op: Op) {
    match op
    case OpExecute(cfg, req, env) =>
      req.asset == st.assetToken ||
      (match Execute(cfg, st, req, env)
       case Success(s) => FeeMintsNothing(st, s.1)
       case Failure(_) => true)
    case _ => true
  }

  function Run(st: VaultState, ops: seq<Op>): VaultState
    decreases |ops|
  {
    if ops == [] then st else Run(Step(st, ops[0]), ops[1..])
  }

  ghost predicate LegalRun(st: VaultState, ops: seq<Op>)
    decreases |ops|
  {
    ops == [] || (Legal(st, ops[0]) && LegalRun(Step(st, ops[0]), ops[1..]))
  }

  /** Every call is price safe in the state it meets. */
  predicate SafeRun(st: VaultState, ops: seq<Op>)
    decreases |ops|
  {
    ops == [] || (PriceSafe(st, ops[0]) && SafeRun(Step(st, ops[0]), ops[1..]))
  }

  // ----- price -----

  /** (totalAssets + 1) / (totalSupply + 1) at `s` is at most that at `t`, cross-multiplied. */
  ghost predicate PriceAtMost(s: VaultState, t: VaultState) {
    Mul(s.TotalAssets() + 1, t.supply + 1) <= Mul(t.TotalAssets() + 1, s.supply + 1)
  }

  lemma RatioTransitive(a: nat, s: nat, b: nat, t: nat, c: nat, u: nat)
    requires s > 0 && t > 0 && u > 0
    requires a * t <= b * s && b * u <= c * t
    ensures a * u <= c * s
  {
    MulMono(a * t, b * s, u);
    MulMono(b * u, c * t, s);
    assert (a * t) * u == (a * u) * t;
    assert (b * s) * u == (b * u) * s;
    assert (c * t) * s == (c * s) * t;
    if a * u > c * s {
      MulStrictMono(c * s, a * u, t);
    }
  }

  lemma PriceTransitive(r: VaultState, s: VaultState, t: VaultState)
    requires PriceAtMost(r, s) && PriceAtMost(s, t)
    ensures PriceAtMost(r, t)
  {
    RatioTransitive(r.TotalAssets() + 1, r.supply + 1, s.TotalAssets() + 1, s.supply + 1,
                    t.TotalAssets() + 1, t.supply + 1);
  }

  /** Adding assets and shares in at most the going ratio keeps the ratio from falling. */
  lemma AddingKeepsRatio(a: nat, s: nat, da: nat, ds: nat)
    requires ds * a <= da * s
    ensures a * (s + ds) <= (a + da) * s
  {
    assert a * (s + ds) == a * s + ds * a;
    assert (a + da) * s == a * s + da * s;
  }

  /** Removing assets and shares in at most the going ratio keeps the ratio from falling. */
  lemma RemovingKeepsRatio(a: nat, s: nat, da: nat, ds: nat)
    requires da <= a && ds <= s && da * s <= ds * a
    ensures a * (s - ds) <= (a - da) * s
  {
    assert a * (s - ds) == a * s - ds * a;
    assert (a - da) * s == a * s - da * s;
  }

  lemma MovedIn(m: Ledger, from: Account, to: Account, v: nat)
    requires Bal(m, from) >= v && from != to
    ensures Bal(Move(m, from, to, v), to) == Bal(m, to) + v
    ensures Bal(Move(m, from, to, v), from) == Bal(m, from) - v
  {
  }

  lemma DepositKeepsPrice(st: VaultState, caller: Address, receiver: Address, assets: nat, approved: bool)
    requires caller != st.self
    ensures PriceAtMost(st, After(st, Deposit(st, caller, receiver, assets, approved)))
  {
    if Deposit(st, caller, receiver, assets, approved).Success? {
      MovedIn(st.ledger, Account(st.assetToken, caller), st.Home(), assets);
      AddingKeepsRatio(st.TotalAssets() + 1, st.supply + 1, assets, st.SharesDown(assets));
    }
  }

  lemma MintKeepsPrice(st: VaultState, caller: Address, receiver: Address, amount: nat, approved: bool)
    requires caller != st.self
    ensures PriceAtMost(st, After(st, Mint(st, caller, receiver, amount, approved)))
  {
    if Mint(st, caller, receiver, amount, approved).Success? {
      MovedIn(st.ledger, Account(st.assetToken, caller), st.Home(), st.AssetsUp(amount));
      AddingKeepsRatio(st.TotalAssets() + 1, st.supply + 1, st.AssetsUp(amount), amount);
    }
  }

  /** Paying out in at most the going ratio; a receiver equal to the vault only burns shares. */
  lemma PayOutKeepsPrice(st: VaultState, caller: Address, receiver: Address, owner: Address, assets: nat, amount: nat,
                         approved: bool)
    requires Mul(assets, st.supply + 1) <= Mul(amount, st.TotalAssets() + 1)
    requires PayOut(st, caller, receiver, owner, assets, amount, approved).Success?
    ensures PriceAtMost(st, PayOut(st, caller, receiver, owner, assets, amount, approved).value)
  {
    var a, s := st.TotalAssets() + 1, st.supply + 1;
    var t := PayOut(st, caller, receiver, owner, assets, amount, approved).value;
    RemovingKeepsRatio(a, s, assets, amount);
    if receiver == st.self {
      MulMono(a - assets, a, s);
    } else {
      MovedIn(st.ledger, st.Home(), Account(st.assetToken, receiver), assets);
    }
  }

  lemma WithdrawKeepsPrice(st: VaultState, caller: Address, receiver: Address, owner: Address, assets: nat,
                           approved: bool)
    ensures PriceAtMost(st, After(st, Withdraw(st, caller, receiver, owner, assets, approved)))
  {
    if Withdraw(st, caller, receiver, owner, assets, approved).Success? {
      PayOutKeepsPrice(st, caller, receiver, owner, assets, st.SharesUp(assets), approved);
    }
  }

  lemma RedeemKeepsPrice(st: VaultState, caller: Address, receiver: Address, owner: Address, amount: nat,
                         approved: bool)
    ensures PriceAtMost(st, After(st, Redeem(st, caller, receiver, owner, amount, approved)))
  {
    if Redeem(st, caller, receiver, owner, amount, approved).Success? {
      PayOutKeepsPrice(st, caller, receiver, owner, st.AssetsDown(amount), amount, approved);
    }
  }

  // ----- rounding is as tight as the price allows -----

  /** The books after `assets` came in and `n` shares were minted, or went the other way. */
  ghost predicate InflowKeepsPrice(st: VaultState, assets: nat, n: nat) {
    Mul(st.TotalAssets() + 1, st.supply + 1 + n) <= Mul(st.TotalAssets() + 1 + assets, st.supply + 1)
  }

  ghost predicate OutflowKeepsPrice(st: VaultState, assets: nat, n: nat)
    requires assets <= st.TotalAssets() && n <= st.supply
  {
    Mul(st.TotalAssets() + 1, st.supply + 1 - n) <= Mul(st.TotalAssets() + 1 - assets, st.supply + 1)
  }

  /** A deposit mints the most shares, and a mint charges the least assets, that keep the price. */
  lemma InflowRoundingIsTight(st: VaultState, assets: nat, n: nat)
    ensures InflowKeepsPrice(st, assets, n) <==> n <= st.SharesDown(assets)
    ensures InflowKeepsPrice(st, assets, n) <==> assets >= st.AssetsUp(n)
  {
    var a, s := st.TotalAssets() + 1, st.supply + 1;
    Distributes(s, n, a);
    Distributes(a, assets, s);
    assert a * (s + n) == (s + n) * a && s * a == a * s;
    FloorReaches(Mul(assets, s), a, n);
    CeilCovers(Mul(n, a), s, assets);
  }

  /** A redemption pays the most assets, and a withdrawal burns the least shares, that keep the price. */
  lemma OutflowRoundingIsTight(st: VaultState, assets: nat, n: nat)
    requires assets <= st.TotalAssets() && n <= st.supply
    ensures OutflowKeepsPrice(st, assets, n) <==> assets <= st.AssetsDown(n)
    ensures OutflowKeepsPrice(st, assets, n) <==> n >= st.SharesUp(assets)
  {
    var a, s := st.TotalAssets() + 1, st.supply + 1;
    Distributes(s - n, n, a);
    Distributes(a - assets, assets, s);
    assert a * (s - n) == (s - n) * a && s * a == a * s;
    FloorReaches(Mul(n, a), s, assets);
    CeilCovers(Mul(assets, s), a, n);
  }

  lemma CeilCovers(n: nat, d: nat, k: nat)
    requires d > 0
    ensures CeilDiv(n, d) <= k <==> k * d >= n
  {
    var q := CeilDiv(n, d);
    if q <= k {
      MulMono(q, k, d);
    } else {
      MulMono(k, q - 1, d);
    }
  }

  /** Vault calls only move tokens: the total over all accounts stays the same. */
  lemma CallsConserveTokens(st: VaultState, op: Op)
    requires op.OpDeposit? || op.OpMint? || op.OpWithdraw? || op.OpRedeem?
    ensures Total(Step(st, op).ledger) == Total(st.ledger)
  {
    match op {
      case OpDeposit(caller, _, assets, _) =>
        MovesConserve(st.ledger, Account(st.assetToken, caller), st.Home(), assets);
      case OpMint(caller, _, amount, _) =>
        MovesConserve(st.ledger, Account(st.assetToken, caller), st.Home(), st.AssetsUp(amount));
      case OpWithdraw(_, receiver, _, assets, _) =>
        MovesConserve(st.ledger, st.Home(), Account(st.assetToken, receiver), assets);
      case OpRedeem(_, receiver, _, amount, _) =>
        MovesConserve(st.ledger, st.Home(), Account(st.assetToken, receiver), st.AssetsDown(amount));
    }
  }

  lemma MovesConserve(m: Ledger, from: Account, to: Account, v: nat)
    ensures Bal(m, from) >= v ==> Total(Move(m, from, to, v)) == Total(m)
  {
    if Bal(m, from) >= v { MoveKeepsTotal(m, from, to, v); }
  }

  // ----- executions -----

  lemma {:induction false} WalkNeverTakes(cfg: Config, dex: Dex, route: seq<SwapHop>, principal: nat, ledger: Ledger,
                                          n: nat, kept: Account)
    requires n <= |route| && NeverTakes(dex, kept)
    requires WalkRoute(cfg, dex, route, principal, ledger, n).Success?
    ensures Bal(WalkRoute(cfg, dex, route, principal, ledger, n).value.1, kept) >= Bal(ledger, kept)
    decreases n
  {
    if n > 0 {
      WalkNeverTakes(cfg, dex, route, principal, ledger, n - 1, kept);
    }
  }

  lemma {:induction false} WalkLeavesAlone(cfg: Config, dex: Dex, route: seq<SwapHop>, principal: nat, ledger: Ledger,
                                           n: nat, kept: Account)
    requires n <= |route| && LeavesAlone(dex, kept)
    requires WalkRoute(cfg, dex, route, principal, ledger, n).Success?
    ensures Bal(WalkRoute(cfg, dex, route, principal, ledger, n).value.1, kept) == Bal(ledger, kept)
    decreases n
  {
    if n > 0 {
      WalkLeavesAlone(cfg, dex, route, principal, ledger, n - 1, kept);
    }
  }

  /** Shares minted for the fee on `profit`, at the price after the profit has arrived. */
  function FeeShares(paid: VaultState, profit: nat): nat {
    if Fee(paid, profit) > 0 then paid.SharesDown(Fee(paid, profit)) else 0
  }

  /** The profit is booked, and the fee shares are minted at the price of the final holdings. */
  ghost predicate Booked(st: VaultState, after: VaultState, profit: nat) {
    var minted := FeeShares(st.(ledger := after.ledger), profit);
    && after.self == st.self && after.assetToken == st.assetToken
    && after.realized == st.realized + profit
    && after.supply == st.supply + minted
    && after.shares == (if minted > 0 then Credit(st.shares, st.feeRecipient, minted) else st.shares)
  }

  /** What `after` holds once the executor `self` has sent its whole balance of `asset`, `held` of it,
      from the balances `walked` to the vault. */
  ghost predicate HandedOver(st: VaultState, after: VaultState, self: Address, asset: Address, held: nat,
                             walked: Ledger)
  {
    && Bal(walked, Account(asset, self)) == held
    && Bal(after.ledger, Account(asset, self)) == 0
    && Bal(after.ledger, Account(asset, st.self)) == Bal(walked, Account(asset, st.self)) + held
    && after.TotalAssets() == Bal(walked, st.Home()) + (if asset == st.assetToken then held else 0)
  }

  lemma SettleBooks(cfg: Config, st: VaultState, req: Request, walked: Ledger)
    requires cfg.self != st.self && req.route != [] && Settle(cfg, st, req, walked).Success?
    ensures
      var (after, profit) := Settle(cfg, st, req, walked).value;
      && profit >= req.minProfitAssets
      && Booked(st, after, profit)
      && HandedOver(st, after, cfg.self, req.asset, req.principal + profit, walked)
  {
    MovedIn(walked, Account(req.asset, cfg.self), Account(req.asset, st.self),
            Bal(walked, Account(req.asset, cfg.self)));
  }

  /** What a successful execution does, whatever asset it trades: the executor's whole end balance,
      which covers principal and profit floor, goes to the vault and nothing of that asset stays; only
      when it is the vault's own asset do the holdings behind the shares grow by it; and the profit is
      booked either way. */
  lemma ExecuteSettlesEverything(cfg: Config, st: VaultState, req: Request, env: Env)
    requires cfg.self != st.self && Execute(cfg, st, req, env).Success?
    ensures
      var (after, profit) := Execute(cfg, st, req, env).value;
      var walk := WalkRoute(cfg, env.dex, req.route, req.principal, st.ledger, |req.route|);
      && profit >= req.minProfitAssets
      && Booked(st, after, profit)
      && walk.Success?
      && HandedOver(st, after, cfg.self, req.asset, req.principal + profit, walk.value.1)
      && (NeverTakes(env.dex, st.Home()) ==> Bal(walk.value.1, st.Home()) >= st.TotalAssets())
      && (LeavesAlone(env.dex, st.Home()) ==> Bal(walk.value.1, st.Home()) == st.TotalAssets())
  {
    SettleBooks(cfg, st, req, WalkRoute(cfg, env.dex, req.route, req.principal, st.ledger, |req.route|).value.1);
    if NeverTakes(env.dex, st.Home()) {
      WalkNeverTakes(cfg, env.dex, req.route, req.principal, st.ledger, |req.route|, st.Home());
    }
    if LeavesAlone(env.dex, st.Home()) {
      WalkLeavesAlone(cfg, env.dex, req.route, req.principal, st.ledger, |req.route|, st.Home());
    }
  }

  lemma FeeIsAtMostHalf(st: VaultState, profit: nat)
    requires st.feeBps <= MAX_FEE_BPS
    ensures 2 * Fee(st, profit) <= profit
  {
    MulMono(st.feeBps, 5000, profit);
    assert Mul(profit, st.feeBps) == st.feeBps * profit;
  }

  /** Fee shares are worth at most the fee, which is at most half the profit. */
  lemma FeeSharesAreWorthTheFee(cfg: Config, st: VaultState, req: Request, env: Env)
    requires cfg.self != st.self && Execute(cfg, st, req, env).Success? && st.feeBps <= MAX_FEE_BPS
    ensures
      var (after, profit) := Execute(cfg, st, req, env).value;
      && after.supply >= st.supply
      && after.AssetsDown(after.supply - st.supply) <= Fee(st, profit)
      && 2 * Fee(st, profit) <= profit
  {
    ExecuteSettlesEverything(cfg, st, req, env);
    var (after, profit) := Execute(cfg, st, req, env).value;
    FeeIsAtMostHalf(st, profit);
    BookedFeeShares(st, after, profit);
  }

  lemma BookedFeeShares(st: VaultState, after: VaultState, profit: nat)
    requires Booked(st, after, profit)
    ensures after.AssetsDown(after.supply - st.supply) <= Fee(st, profit)
    ensures Mul(after.supply - st.supply, after.TotalAssets() + 1) <= Mul(Fee(st, profit), st.supply + 1)
  {
    MintedWorth(after.TotalAssets() + 1, st.supply + 1, Fee(st, profit), after.supply - st.supply);
  }

  lemma MintedWorth(a: nat, s: nat, fee: nat, m: nat)
    requires s > 0 && m * a <= fee * s
    ensures Div(Mul(m, a), s + m) <= fee
  {
    FloorReaches(m * a, s + m, fee + 1);
    assert (fee + 1) * (s + m) == fee * s + fee * m + s + m;
    MulNat(fee, m);
  }

  lemma BookedKeepsPrice(st: VaultState, after: VaultState, profit: nat)
    requires Booked(st, after, profit) && st.feeBps <= MAX_FEE_BPS
    requires after.TotalAssets() >= st.TotalAssets() + profit
    ensures PriceAtMost(st, after)
  {
    FeeIsAtMostHalf(st, profit);
    BookedFeeShares(st, after, profit);
    FeeKeepsRatio(st.TotalAssets() + 1, st.supply + 1, after.TotalAssets() - st.TotalAssets(), Fee(st, profit),
                  after.supply - st.supply);
  }

  lemma FeeKeepsRatio(a: nat, s: nat, gain: nat, fee: nat, m: nat)
    requires fee <= gain && m * (a + gain) <= fee * s && s > 0
    ensures a * (s + m) <= (a + gain) * s
  {
    assert m * (a + gain) == m * a + m * gain;
    MulNat(m, gain);
    MulMono(fee, gain, s);
    AddingKeepsRatio(a, s, gain, m);
  }

  /** Booking profit into holdings that did not grow keeps the price exactly when the fee is too small
      to mint a share. */
  lemma BookedWithoutGain(st: VaultState, after: VaultState, profit: nat)
    requires Booked(st, after, profit) && after.TotalAssets() == st.TotalAssets()
    ensures PriceAtMost(st, after) <==> FeeMintsNothing(st, profit)
  {
    var a, s := st.TotalAssets() + 1, st.supply + 1;
    FloorReaches(Mul(Fee(st, profit), s), a, 1);
    MintingAloneLowers(a, s, after.supply - st.supply);
  }

  lemma MintingAloneLowers(a: nat, s: nat, m: nat)
    requires a > 0
    ensures m > 0 ==> Mul(a, s + m) > Mul(a, s)
  {
    if m > 0 {
      MulStrictMono(s, s + m, a);
      assert s * a == a * s && (s + m) * a == a * (s + m);
    }
  }

  lemma BookedIntoNoLess(st: VaultState, after: VaultState, profit: nat)
    requires Booked(st, after, profit) && after.TotalAssets() >= st.TotalAssets() && FeeMintsNothing(st, profit)
    ensures PriceAtMost(st, after)
  {
    FloorReaches(Mul(Fee(st, profit), st.supply + 1), after.TotalAssets() + 1, 1);
    MulMono(st.TotalAssets() + 1, after.TotalAssets() + 1, st.supply + 1);
  }

  /** The whole end balance arrives before fee shares are minted, so in the vault's own asset even the
      fee cannot lower the price. */
  lemma ExecuteKeepsPrice(cfg: Config, st: VaultState, req: Request, env: Env)
    requires Legal(st, OpExecute(cfg, req, env)) && PriceSafe(st, OpExecute(cfg, req, env))
    requires st.feeBps <= MAX_FEE_BPS
    ensures PriceAtMost(st, Step(st, OpExecute(cfg, req, env)))
  {
    if Execute(cfg, st, req, env).Success? {
      ExecuteSettlesEverything(cfg, st, req, env);
      var (after, profit) := Execute(cfg, st, req, env).value;
      if req.asset == st.assetToken {
        BookedKeepsPrice(st, after, profit);
      } else {
        BookedIntoNoLess(st, after, profit);
      }
    }
  }

  /** `execute` never asks that the traded asset is the vault's.  An execution keeps the price exactly
      when it is, or when the fee on the foreign profit is too small to mint a share. */
  lemma ExecuteKeepsPriceExactlyWhen(cfg: Config, st: VaultState, req: Request, env: Env)
    requires cfg.self != st.self && LeavesAlone(env.dex, st.Home()) && st.feeBps <= MAX_FEE_BPS
    requires Execute(cfg, st, req, env).Success?
    ensures PriceAtMost(st, Step(st, OpExecute(cfg, req, env)))
       <==> req.asset == st.assetToken || FeeMintsNothing(st, Execute(cfg, st, req, env).value.1)
  {
    ExecuteSettlesEverything(cfg, st, req, env);
    var (after, profit) := Execute(cfg, st, req, env).value;
    if req.asset == st.assetToken {
      BookedKeepsPrice(st, after, profit);
    } else {
      BookedWithoutGain(st, after, profit);
    }
  }

  // ----- soundness of the share ledger -----

  lemma MintedKeepsTotal(st: VaultState, to: Address, amount: nat)
    requires Total(st.shares) == st.supply
    ensures Total(st.Minted(to, amount).shares) == st.Minted(to, amount).supply
  {
    TotalAfterUpdate(st.shares, to, Bal(st.shares, to) + amount);
  }

  lemma BurnedKeepsTotal(st: VaultState, owner: Address, amount: nat)
    requires Total(st.shares) == st.supply && Bal(st.shares, owner) >= amount
    ensures st.supply >= amount
    ensures Total(st.Burned(owner, amount).shares) == st.Burned(owner, amount).supply
  {
    BalanceWithinTotal(st.shares, owner);
    TotalAfterUpdate(st.shares, owner, Bal(st.shares, owner) - amount);
  }

  lemma MoveKeepsTotal<K>(m: map<K, nat>, from: K, to: K, v: nat)
    requires Bal(m, from) >= v
    ensures Total(Move(m, from, to, v)) == Total(m)
  {
    var mid := Debit(m, from, v);
    TotalAfterUpdate(m, from, Bal(m, from) - v);
    TotalAfterUpdate(mid, to, Bal(mid, to) + v);
  }

  lemma ReportKeepsSound(st: VaultState, caller: Address, profit: nat, minProfit: nat)
    requires st.Sound()
    ensures After(st, ReportProfit(st, caller, profit, minProfit)).Sound()
  {
    var booked := st.(realized := st.realized + profit);
    MintedKeepsTotal(booked, st.feeRecipient, st.SharesDown(Fee(st, profit)));
  }

  lemma TakeInKeepsSound(st: VaultState, caller: Address, receiver: Address, assets: nat, amount: nat, approved: bool)
    requires st.Sound()
    ensures var c := TakeIn(st, caller, receiver, assets, amount, approved); c.Success? ==> c.value.Sound()
  {
    MintedKeepsTotal(st, receiver, amount);
  }

  lemma PayOutKeepsSound(st: VaultState, caller: Address, receiver: Address, owner: Address, assets: nat, amount: nat,
                         approved: bool)
    requires st.Sound()
    ensures var c := PayOut(st, caller, receiver, owner, assets, amount, approved); c.Success? ==> c.value.Sound()
  {
    if Bal(st.shares, owner) >= amount {
      BurnedKeepsTotal(st, owner, amount);
    }
  }

  lemma StepKeepsSound(st: VaultState, op: Op)
    requires st.Sound()
    ensures Step(st, op).Sound()
  {
    match op {
      case OpDeposit(caller, receiver, assets, approved) =>
        TakeInKeepsSound(st, caller, receiver, assets, st.SharesDown(assets), approved);
      case OpMint(caller, receiver, amount, approved) =>
        TakeInKeepsSound(st, caller, receiver, st.AssetsUp(amount), amount, approved);
      case OpWithdraw(caller, receiver, owner, assets, approved) =>
        PayOutKeepsSound(st, caller, receiver, owner, assets, st.SharesUp(assets), approved);
      case OpRedeem(caller, receiver, owner, amount, approved) =>
        PayOutKeepsSound(st, caller, receiver, owner, st.AssetsDown(amount), amount, approved);
      case OpTransferShares(from, to, amount) =>
        if Bal(st.shares, from) >= amount {
          MoveKeepsTotal(st.shares, from, to, amount);
        }
      case OpExecute(cfg, req, env) =>
        ExecuteKeepsSound(cfg, st, req, env);
      case _ =>
    }
  }

  lemma ExecuteKeepsSound(cfg: Config, st: VaultState, req: Request, env: Env)
    requires st.Sound()
    ensures Step(st, OpExecute(cfg, req, env)).Sound()
  {
    var e := Execute(cfg, st, req, env);
    if e.Success? {
      var walked := WalkRoute(cfg, env.dex, req.route, req.principal, st.ledger, |req.route|).value.1;
      var held := Bal(walked, Account(req.asset, cfg.self));
      var paid := st.(ledger := Move(walked, Account(req.asset, cfg.self), Account(req.asset, st.self), held));
      ReportKeepsSound(paid, cfg.self, held - req.principal, req.minProfitAssets);
    }
  }

  // ----- whole runs -----

  lemma StepKeepsPrice(st: VaultState, op: Op)
    requires st.Sound() && Legal(st, op) && PriceSafe(st, op)
    ensures PriceAtMost(st, Step(st, op))
  {
    match op {
      case OpDeposit(caller, receiver, assets, approved) => DepositKeepsPrice(st, caller, receiver, assets, approved);
      case OpMint(caller, receiver, amount, approved) => MintKeepsPrice(st, caller, receiver, amount, approved);
      case OpWithdraw(caller, receiver, owner, assets, approved) =>
        WithdrawKeepsPrice(st, caller, receiver, owner, assets, approved);
      case OpRedeem(caller, receiver, owner, amount, approved) =>
        RedeemKeepsPrice(st, caller, receiver, owner, amount, approved);
      case OpExecute(cfg, req, env) => ExecuteKeepsPrice(cfg, st, req, env);
      case OpOutside(ledger) => MulMono(st.TotalAssets() + 1, Bal(ledger, st.Home()) + 1, st.supply + 1);
      case _ =>
    }
  }

  lemma {:induction false} RunKeepsSound(st: VaultState, ops: seq<Op>)
    requires st.Sound()
    ensures Run(st, ops).Sound()
    decreases |ops|
  {
    if ops != [] {
      StepKeepsSound(st, ops[0]);
      RunKeepsSound(Step(st, ops[0]), ops[1..]);
    }
  }

  /** Over every legal run of price-safe calls the price never falls. */
  lemma {:induction false} PriceNeverFalls(st: VaultState, ops: seq<Op>)
    requires st.Sound() && LegalRun(st, ops) && SafeRun(st, ops)
    ensures PriceAtMost(st, Run(st, ops))
    decreases |ops|
  {
    if ops != [] {
      StepKeepsSound(st, ops[0]);
      StepKeepsPrice(st, ops[0]);
      PriceNeverFalls(Step(st, ops[0]), ops[1..]);
      PriceTransitive(st, Step(st, ops[0]), Run(st, ops));
    }
  }

  /** No call of the run lowers the price. */
  ghost predicate NeverLowers(st: VaultState, ops: seq<Op>)
    decreases |ops|
  {
    ops == [] || (PriceAtMost(st, Step(st, ops[0])) && NeverLowers(Step(st, ops[0]), ops[1..]))
  }

  /** No adapter of the run moves the vault's own holding. */
  ghost predicate Undisturbed(st: VaultState, ops: seq<Op>) {
    forall i :: 0 <= i < |ops| && ops[i].OpExecute? ==> LeavesAlone(ops[i].env.dex, st.Home())
  }

  lemma StepStaysHome(st: VaultState, op: Op)
    ensures Step(st, op).Home() == st.Home()
  {
  }

  /** A legal run never lowers the price exactly when each of its calls is price safe. */
  lemma {:induction false} NeverLowersExactlyWhenSafe(st: VaultState, ops: seq<Op>)
    requires st.Sound() && LegalRun(st, ops) && Undisturbed(st, ops)
    ensures NeverLowers(st, ops) <==> SafeRun(st, ops)
    decreases |ops|
  {
    if ops != [] {
      var op := ops[0];
      StepKeepsSound(st, op);
      StepStaysHome(st, op);
      NeverLowersExactlyWhenSafe(Step(st, op), ops[1..]);
      if PriceSafe(st, op) {
        StepKeepsPrice(st, op);
      } else {
        ExecuteKeepsPriceExactlyWhen(op.cfg, st, op.req, op.env);
      }
    }
  }

  /** Whatever happens in between, coming back to the same supply leaves at least the same assets:
      no round trip through the vault takes out more than it put in. */
  lemma RoundTripGainsNothing(st: VaultState, ops: seq<Op>)
    requires st.Sound() && LegalRun(st, ops) && SafeRun(st, ops) && Run(st, ops).supply == st.supply
    ensures Run(st, ops).TotalAssets() >= st.TotalAssets()
  {
    PriceNeverFalls(st, ops);
    EqualSupply(st, Run(st, ops));
  }

  /** Shares bought by a deposit or a mint pay back at most what they cost, and withdrawing that cost
      burns at least all of them. */
  lemma BuyingBackGainsNothing(st: VaultState, caller: Address, receiver: Address, assets: nat, amount: nat,
                               approved: bool)
    requires caller != st.self && TakeIn(st, caller, receiver, assets, amount, approved).Success?
    requires InflowKeepsPrice(st, assets, amount)
    ensures var mid := TakeIn(st, caller, receiver, assets, amount, approved).value;
      mid.AssetsDown(amount) <= assets && mid.SharesUp(assets) >= amount
  {
    MovedIn(st.ledger, Account(st.assetToken, caller), st.Home(), assets);
    BoughtRatio(st.TotalAssets() + 1, st.supply + 1, assets, amount);
  }

  lemma BoughtRatio(a: nat, s: nat, da: nat, ds: nat)
    requires a > 0 && s > 0 && Mul(a, s + ds) <= Mul(a + da, s)
    ensures Div(Mul(ds, a + da), s + ds) <= da
    ensures CeilDiv(Mul(da, s + ds), a + da) >= ds
  {
    assert a * (s + ds) == a * s + ds * a && (a + da) * s == a * s + da * s;
    assert ds * (a + da) == ds * a + ds * da && da * (s + ds) == da * s + ds * da;
    FloorReaches(Mul(ds, a + da), s + ds, da + 1);
    Distributes(da, 1, s + ds);
    if ds > 0 {
      CeilCovers(Mul(da, s + ds), a + da, ds - 1);
      Distributes(ds - 1, 1, a + da);
    }
  }

  /** A deposit followed by the redemption of what it minted returns at most the deposit. */
  lemma DepositThenRedeem(st: VaultState, caller: Address, receiver: Address, assets: nat, approved: bool,
                          spender: Address, to: Address, allowed: bool)
    requires caller != st.self && Deposit(st, caller, receiver, assets, approved).Success?
    ensures
      var (mid, n) := Deposit(st, caller, receiver, assets, approved).value;
      var back := Redeem(mid, spender, to, receiver, n, allowed);
      back.Success? ==> back.value.1 <= assets
  {
    InflowRoundingIsTight(st, assets, st.SharesDown(assets));
    BuyingBackGainsNothing(st, caller, receiver, assets, st.SharesDown(assets), approved);
  }

  /** Withdrawing what a mint cost burns at least the shares it minted. */
  lemma MintThenWithdraw(st: VaultState, caller: Address, receiver: Address, amount: nat, approved: bool,
                         spender: Address, to: Address, allowed: bool)
    requires caller != st.self && Mint(st, caller, receiver, amount, approved).Success?
    ensures
      var (mid, cost) := Mint(st, caller, receiver, amount, approved).value;
      var back := Withdraw(mid, spender, to, receiver, cost, allowed);
      back.Success? ==> back.value.1 >= amount
  {
    InflowRoundingIsTight(st, st.AssetsUp(amount), amount);
    BuyingBackGainsNothing(st, caller, receiver, st.AssetsUp(amount), amount, approved);
  }

  lemma EqualSupply(s: VaultState, t: VaultState)
    requires PriceAtMost(s, t) && s.supply == t.supply
    ensures s.TotalAssets() <= t.TotalAssets()
  {
    if t.TotalAssets() < s.TotalAssets() {
      MulStrictMono(t.TotalAssets() + 1, s.TotalAssets() + 1, s.supply + 1);
    }
  }

  /** Over every legal run of price-safe calls, a holder whose shares have not decreased can redeem no
      less than before. */
  lemma NobodyIsDiluted(st: VaultState, ops: seq<Op>, holder: Address)
    requires st.Sound() && LegalRun(st, ops) && SafeRun(st, ops)
    requires Bal(Run(st, ops).shares, holder) >= Bal(st.shares, holder)
    ensures Run(st, ops).AssetsDown(Bal(Run(st, ops).shares, holder)) >= st.AssetsDown(Bal(st.shares, holder))
  {
    PriceNeverFalls(st, ops);
    BetterPricePaysMore(st, Run(st, ops), Bal(st.shares, holder), Bal(Run(st, ops).shares, holder));
  }

  lemma BetterPricePaysMore(s: VaultState, t: VaultState, n: nat, m: nat)
    requires PriceAtMost(s, t) && n <= m
    ensures t.AssetsDown(m) >= s.AssetsDown(n)
  {
    BetterRatioPaysMore(s.TotalAssets() + 1, s.supply + 1, t.TotalAssets() + 1, t.supply + 1, n, m);
  }

  lemma BetterRatioPaysMore(a: nat, s: nat, b: nat, t: nat, n: nat, m: nat)
    requires s > 0 && t > 0 && a * t <= b * s && n <= m
    ensures Div(Mul(n, a), s) <= Div(Mul(m, b), t)
  {
    var q := Div(Mul(n, a), s);
    assert a * n == n * a && b * n == n * b;
    if n > 0 {
      RatioTransitive(q, n, a, s, b, t);
    }
    MulMono(n, m, b);
    FloorReaches(Mul(m, b), t, q);
  }

  // ----- solvency -----

  /** What every holder could redeem right now. */
  ghost function Claims(shares: map<Address, nat>, a: nat, s: nat): map<Address, nat>
    requires s > 0
  {
    map h | h in shares :: Div(Mul(shares[h], a), s)
  }

  lemma {:induction false} ClaimsWithinRatio(shares: map<Address, nat>, a: nat, s: nat)
    requires s > 0
    ensures Total(Claims(shares, a, s)) * s <= Total(shares) * a
    decreases |shares|
  {
    if shares == map[] {
      assert Claims(shares, a, s) == map[];
    } else {
      var h :| h in shares;
      ClaimsWithinRatio(shares - {h}, a, s);
      TotalWithout(shares, h);
      TotalWithout(Claims(shares, a, s), h);
      assert Claims(shares, a, s) - {h} == Claims(shares - {h}, a, s);
      Distributes(Div(Mul(shares[h], a), s), Total(Claims(shares - {h}, a, s)), s);
      Distributes(shares[h], Total(shares - {h}), a);
    }
  }

  /** In every reachable state, whatever ran, all claims together are covered by the assets held. */
  lemma AllClaimsAreCovered(st: VaultState, ops: seq<Op>)
    requires st.Sound()
    ensures
      var now := Run(st, ops);
      Total(Claims(now.shares, now.TotalAssets() + 1, now.supply + 1)) <= now.TotalAssets()
  {
    RunKeepsSound(st, ops);
    var now := Run(st, ops);
    ClaimsWithinRatio(now.shares, now.TotalAssets() + 1, now.supply + 1);
    BelowWholePrice(Total(Claims(now.shares, now.TotalAssets() + 1, now.supply + 1)), now.supply,
                    now.TotalAssets() + 1);
  }

  lemma BelowWholePrice(claims: nat, supply: nat, a: nat)
    requires claims * (supply + 1) <= supply * a && a > 0
    ensures claims < a
  {
    assert a * (supply + 1) == supply * a + a;
    if claims >= a {
      MulMono(a, claims, supply + 1);
    }
  }

  /** A full redemption by the holder always goes through and pays the holder's claim. */
  lemma FullRedemptionSucceeds(st: VaultState, holder: Address)
    requires st.Sound() && holder != ZERO_ADDRESS
    ensures
      var n := Bal(st.shares, holder);
      && Redeem(st, holder, holder, holder, n, true).Success?
      && Redeem(st, holder, holder, holder, n, true).value.1 == st.AssetsDown(n)
  {
    var n := Bal(st.shares, holder);
    BalanceWithinTotal(st.shares, holder);
    FloorReaches(Mul(n, st.TotalAssets() + 1), st.supply + 1, st.TotalAssets() + 1);
    MulMono(n, st.supply, st.TotalAssets() + 1);
    Distributes(st.supply, 1, st.TotalAssets() + 1);
    assert (st.supply + 1) * (st.TotalAssets() + 1) == (st.TotalAssets() + 1) * (st.supply + 1);
  }

  /** What may be withdrawn never costs more shares than the owner has. */
  lemma WithdrawableIsAffordable(st: VaultState, owner: Address, assets: nat)
    requires assets <= st.AssetsDown(Bal(st.shares, owner))
    ensures st.SharesUp(assets) <= Bal(st.shares, owner)
  {
    var n, a, s := Bal(st.shares, owner), st.TotalAssets() + 1, st.supply + 1;
    MulMono(assets, st.AssetsDown(n), s);
    var up := st.SharesUp(assets);
    if up > n {
      MulMono(n, up - 1, a);
    }
  }

  /** What the share calls do as steps of a run, from the balances alone: a refused call changes nothing. */
  lemma StepsMoveExactly(st: VaultState, op: Op)
    ensures
      var next, held := Step(st, op), Bal(st.ledger, Account(st.assetToken, st.self));
      match op
      case OpDeposit(caller, receiver, assets, approved) =>
        if !st.paused && approved && Bal(st.ledger, Account(st.assetToken, caller)) >= assets && receiver != "0x0"
        then BuysShares(st, next, caller, receiver, assets, Mul(assets, st.supply + 1) / (held + 1))
        else next == st
      case OpMint(caller, receiver, amount, approved) =>
        next == st ||
        exists cost: nat ::
          && Rounds(cost, amount * (held + 1), st.supply + 1, true)
          && BuysShares(st, next, caller, receiver, cost, amount)
      case OpWithdraw(caller, receiver, owner, assets, approved) =>
        next == st ||
        exists cost: nat ::
          && Rounds(cost, assets * (st.supply + 1), held + 1, true)
          && SellsShares(st, next, owner, receiver, assets, cost)
      case OpRedeem(caller, receiver, owner, amount, approved) =>
        if && amount <= Bal(st.shares, owner) && amount <= st.supply && (caller == owner || approved)
           && Mul(amount, held + 1) / (st.supply + 1) <= held && owner != "0x0" && receiver != "0x0"
        then SellsShares(st, next, owner, receiver, Mul(amount, held + 1) / (st.supply + 1), amount)
        else next == st
      case OpTransferShares(from, to, amount) =>
        if Bal(st.shares, from) >= amount
        then Moves(st.shares, next.shares, from, to, amount) && next == st.(shares := next.shares)
        else next == st
      case _ => true
  {
    match op {
      case OpDeposit(caller, receiver, assets, approved) => DepositExactly(st, caller, receiver, assets, approved);
      case OpMint(caller, receiver, amount, approved) =>
        RoundedUp(Mul(amount, st.TotalAssets() + 1), st.supply + 1, st.AssetsUp(amount));
        MintExactly(st, caller, receiver, amount, approved, st.AssetsUp(amount));
      case OpWithdraw(caller, receiver, owner, assets, approved) =>
        RoundedUp(Mul(assets, st.supply + 1), st.TotalAssets() + 1, st.SharesUp(assets));
        WithdrawExactly(st, caller, receiver, owner, assets, approved, st.SharesUp(assets));
      case OpRedeem(caller, receiver, owner, amount, approved) =>
        RedeemExactly(st, caller, receiver, owner, amount, approved);
      case OpTransferShares(from, to, amount) =>
        if Bal(st.shares, from) >= amount {
          MoveMoves(st.shares, from, to, amount);
        }
      case _ =>
    }
  }

  /** The holders `hs` redeem everything, one after the other. */
  function Exits(shares: map<Address, nat>, hs: seq<Address>): (ops: seq<Op>)
    ensures |ops| == |hs|
  {
    seq(|hs|, i requires 0 <= i < |hs| => OpRedeem(hs[i], hs[i], hs[i], Bal(shares, hs[i]), true))
  }

  /** `h` leaves: its shares are gone, it has been paid its claim, and no other holding but the vault's
      has moved; nobody's claim has fallen. */
  lemma OneExit(st: VaultState, h: Address)
    requires st.Sound() && h != "0x0"
    ensures
      var (n, held) := (Bal(st.shares, h), Bal(st.ledger, Account(st.assetToken, st.self)));
      var next := Step(st, OpRedeem(h, h, h, n, true));
      && next.Sound()
      && SellsShares(st, next, h, h, n * (held + 1) / (st.supply + 1), n)
      && PriceAtMost(st, next)
  {
    var n := Bal(st.shares, h);
    FullRedemptionSucceeds(st, h);
    RedeemExactly(st, h, h, h, n, true);
    StepKeepsSound(st, OpRedeem(h, h, h, n, true));
    RedeemKeepsPrice(st, h, h, h, n, true);
  }

  /** Further exits take no asset from anybody but the vault, and no shares from anybody else. */
  lemma {:induction false} ExitsTakeNothing(st: VaultState, shares: map<Address, nat>, hs: seq<Address>, other: Address)
    requires st.Sound() && NoDuplicates(hs) && other !in hs && other != st.self
    requires forall i :: 0 <= i < |hs| ==> hs[i] != "0x0" && Bal(shares, hs[i]) == Bal(st.shares, hs[i])
    ensures
      var final := Run(st, Exits(shares, hs));
      && Bal(final.ledger, Account(st.assetToken, other)) == Bal(st.ledger, Account(st.assetToken, other))
      && Bal(final.shares, other) == Bal(st.shares, other)
    decreases |hs|
  {
    if hs != [] {
      var ops := Exits(shares, hs);
      assert ops[1..] == Exits(shares, hs[1..]);
      OneExit(st, hs[0]);
      assert forall i :: 0 <= i < |hs[1..]| ==> hs[1..][i] != hs[0];
      ExitsTakeNothing(Step(st, ops[0]), shares, hs[1..], other);
    }
  }

  /** The holders `hs` leave in this order: each has gained at least its claim at the start, and holds no
      share. */
  lemma {:induction false} AllExit(st: VaultState, shares: map<Address, nat>, hs: seq<Address>, h: Address)
    requires st.Sound() && NoDuplicates(hs) && h in hs && h != st.self
    requires forall i :: 0 <= i < |hs| ==> hs[i] != "0x0" && Bal(shares, hs[i]) == Bal(st.shares, hs[i])
    ensures
      var final := Run(st, Exits(shares, hs));
      var account := Account(st.assetToken, h);
      && Bal(final.ledger, account) >= Bal(st.ledger, account) + st.AssetsDown(Bal(st.shares, h))
      && Bal(final.shares, h) == 0
    decreases |hs|
  {
    var ops := Exits(shares, hs);
    assert ops[1..] == Exits(shares, hs[1..]);
    OneExit(st, hs[0]);
    var next := Step(st, ops[0]);
    assert forall i :: 0 <= i < |hs[1..]| ==> hs[1..][i] != hs[0];
    if h == hs[0] {
      assert h !in hs[1..];
      ExitsTakeNothing(next, shares, hs[1..], h);
    } else {
      assert h in hs[1..];
      BetterPricePaysMore(st, next, Bal(st.shares, h), Bal(next.shares, h));
      AllExit(next, shares, hs[1..], h);
    }
  }

  /** After any run all holders can leave in any order: in the end each of them, the vault itself apart,
      has gained at least the assets its shares were worth when the first one left, and has no shares. */
  lemma EveryoneCanExit(st: VaultState, ops: seq<Op>, hs: seq<Address>, i: nat)
    requires st.Sound()
    requires NoDuplicates(hs) && forall k :: 0 <= k < |hs| ==> hs[k] != "0x0"
    requires i < |hs| && hs[i] != Run(st, ops).self
    ensures
      var now := Run(st, ops);
      var final := Run(now, Exits(now.shares, hs));
      var (account, held) := (Account(now.assetToken, hs[i]), Bal(now.ledger, Account(now.assetToken, now.self)));
      && Bal(final.ledger, account)
           >= Bal(now.ledger, account) + Bal(now.shares, hs[i]) * (held + 1) / (now.supply + 1)
      && Bal(final.shares, hs[i]) == 0
  {
    RunKeepsSound(st, ops);
    var now := Run(st, ops);
    AllExit(now, now.shares, hs, hs[i]);
    WorthPlainly(now, Bal(now.shares, hs[i]));
  }

  lemma WorthPlainly(st: VaultState, n: nat)
    ensures st.AssetsDown(n) == n * (Bal(st.ledger, Account(st.assetToken, st.self)) + 1) / (st.supply + 1)
  {
  }

  // ----- profit that is not there -----

  /** Booking profit without the transfer that precedes it keeps the price exactly when the fee is
      too small to mint a share. */
  lemma ReportAloneKeepsPriceExactlyWhen(st: VaultState, caller: Address, profit: nat, minProfit: nat)
    requires ReportProfit(st, caller, profit, minProfit).Success?
    ensures PriceAtMost(st, After(st, ReportProfit(st, caller, profit, minProfit))) <==> FeeMintsNothing(st, profit)
  {
    BookedWithoutGain(st, After(st, ReportProfit(st, caller, profit, minProfit)), profit);
  }

  /** An adapter that moves nothing and answers what it was handed. */
  function Idle(): Dex {
    (i, hop, amount, ledger) => Swapped(amount, ledger)
  }

  /** A vault of 1000 assets and 1000 shares, and an executor that happens to hold 1000 of another
      token: reporting them as profit mints 500 unbacked shares, and what the holder of the 1000
      shares can redeem falls from 1000 to 666. */
  lemma ForeignAssetLowersPrice() returns (cfg: Config, st: VaultState, req: Request, env: Env, holder: Address)
    ensures st.Sound() && cfg.self != st.self && LeavesAlone(env.dex, st.Home()) && req.asset != st.assetToken
    ensures Execute(cfg, st, req, env).Success?
    ensures var after := Step(st, OpExecute(cfg, req, env));
      && !PriceAtMost(st, after)
      && Bal(after.shares, holder) == Bal(st.shares, holder)
      && st.AssetsDown(Bal(st.shares, holder)) == 1000
      && after.AssetsDown(Bal(after.shares, holder)) == 666
  {
    var vault, executor, asset, other, fees := "v", "eeee", "aa", "jjjjj", "ffffff";
    holder := "h";
    DistinctNames(vault, executor, asset, other, fees, holder);
    var shares: map<Address, nat> := map[holder := 1000];
    var ledger: Ledger := map[Account(asset, vault) := 1000, Account(other, executor) := 1000];
    TotalAfterUpdate(map[], holder, 1000);
    assert shares == map[][holder := 1000];
    cfg := Config(executor, {vault}, {"adapter"}, None, None);
    st := VaultState(vault, asset, ledger, shares, 1000, {executor}, 5000, fees, 0, false);
    req := Request(other, "s", 0, [SwapHop("adapter", "pool", asset, other, 0)], 0, 0);
    env := Env(0, 1, Idle());
    var walk := WalkRoute(cfg, env.dex, req.route, 0, ledger, 1);
    assert WalkRoute(cfg, env.dex, req.route, 0, ledger, 0) == Success((0, ledger));
    assert walk == Success((0, ledger));
    var paid := st.(ledger := Move(ledger, Account(other, executor), Account(other, vault), 1000));
    assert Fee(paid, 1000) == 500 && paid.SharesDown(500) == 500;
    assert ReportProfit(paid, executor, 1000, 0).Success?;
  }

  lemma DistinctNames(vault: Address, executor: Address, asset: Address, other: Address, fees: Address,
                      holder: Address)
    requires vault == "v" && executor == "eeee" && asset == "aa" && other == "jjjjj" && fees == "ffffff"
    requires holder == "h"
    ensures vault != executor && asset != other && fees != holder && fees != ZERO_ADDRESS
  {
    assert vault[0] != holder[0] && |fees| != |holder| && fees[0] != ZERO_ADDRESS[0];
  }
}
