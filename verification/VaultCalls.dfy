/** What each vault call does to every balance (contracts/src/ArbVault.sol). */
module VaultCalls {
  import opened Common
  import opened Arith
  import opened Vault

  /** `v` goes from one account to the other, and no other balance moves. */
  ghost predicate Moves<K(!new)>(before: map<K, nat>, after: map<K, nat>, from: K, to: K, v: nat) {
    forall k :: Bal(after, k) == Bal(before, k) + (if k == to then v else 0) - (if k == from then v else 0)
  }

  /** `who` holds `v` more, or less if negative, and nobody else's holding changes. */
  ghost predicate Changes<K(!new)>(before: map<K, nat>, after: map<K, nat>, who: K, v: int) {
    forall k :: Bal(after, k) == Bal(before, k) + (if k == who then v else 0)
  }

  /** The calls that move assets and shares touch nothing but the two ledgers and the supply. */
  ghost predicate KeepsSettings(st: VaultState, after: VaultState) {
    && after.self == st.self && after.assetToken == st.assetToken && after.executors == st.executors
    && after.feeBps == st.feeBps && after.feeRecipient == st.feeRecipient && after.paused == st.paused
  }

  /** The caller hands over `assets` and the receiver gets `amount` shares. */
  ghost predicate BuysShares(st: VaultState, after: VaultState, caller: Address, receiver: Address, assets: nat,
                             amount: nat)
  {
    && Moves(st.ledger, after.ledger, Account(st.assetToken, caller), Account(st.assetToken, st.self), assets)
    && Changes(st.shares, after.shares, receiver, amount) && after.supply == st.supply + amount
    && KeepsSettings(st, after) && after.realized == st.realized
  }

  /** The owner gives up `amount` shares and the receiver gets `assets`. */
  ghost predicate SellsShares(st: VaultState, after: VaultState, owner: Address, receiver: Address, assets: nat,
                              amount: nat)
  {
    && Moves(st.ledger, after.ledger, Account(st.assetToken, st.self), Account(st.assetToken, receiver), assets)
    && Changes(st.shares, after.shares, owner, -(amount as int)) && after.supply == st.supply - amount
    && KeepsSettings(st, after) && after.realized == st.realized
  }

  lemma MoveMoves<K(!new)>(m: map<K, nat>, from: K, to: K, v: nat)
    requires Bal(m, from) >= v
    ensures Moves(m, Move(m, from, to, v), from, to, v)
  {
  }

  /** `q` is n / d rounded up. */
  lemma RoundedUp(n: nat, d: nat, q: nat)
    requires d > 0
    ensures q == CeilDiv(n, d) <==> q * d >= n && (q == 0 || (q - 1) * d < n)
  {
    var c := CeilDiv(n, d);
    if q < c {
      MulMono(q, c - 1, d);
    } else if q > c {
      MulMono(c, q - 1, d);
    }
  }

  /** `n` shares are the most, or with `up` the least, that `assets` are worth: assets (S + 1) / (A + 1). */
  ghost predicate Rounds(n: nat, num: nat, den: nat, up: bool) {
    if up then n * den >= num && (n == 0 || (n - 1) * den < num) else n * den <= num < n * den + den
  }

  lemma RoundedDown(num: nat, den: nat, n: nat)
    requires den > 0
    ensures Rounds(n, num, den, false) <==> n == Div(num, den)
  {
    FloorReaches(num, den, n);
    FloorReaches(num, den, n + 1);
    Distributes(n, 1, den);
  }

  /** deposit: the caller pays `assets` for floor(assets (S + 1) / (A + 1)) shares of the receiver. */
  lemma DepositExactly(st: VaultState, caller: Address, receiver: Address, assets: nat, approved: bool)
    ensures
      var o, held := Deposit(st, caller, receiver, assets, approved), Bal(st.ledger, Account(st.assetToken, st.self));
      && (o.Success? <==>
            && !st.paused && approved
            && Bal(st.ledger, Account(st.assetToken, caller)) >= assets && receiver != "0x0")
      && (o.Success? ==>
            && o.value.1 == assets * (st.supply + 1) / (held + 1)
            && BuysShares(st, o.value.0, caller, receiver, assets, o.value.1))
      && (o.Failure? ==>
            o.error == if st.paused then EnforcedPause else if !approved then NotApproved
                       else if Bal(st.ledger, Account(st.assetToken, caller)) < assets then InsufficientFunds
                       else InvalidAddress)
  {
    if Deposit(st, caller, receiver, assets, approved).Success? {
      MoveMoves(st.ledger, Account(st.assetToken, caller), st.Home(), assets);
    }
  }

  /** mint: the receiver gets `amount` shares for ceil(amount (A + 1) / (S + 1)) assets of the caller. */
  lemma MintExactly(st: VaultState, caller: Address, receiver: Address, amount: nat, approved: bool, cost: nat)
    requires Rounds(cost, amount * (Bal(st.ledger, Account(st.assetToken, st.self)) + 1), st.supply + 1, true)
    ensures
      var o := Mint(st, caller, receiver, amount, approved);
      && (o.Success? <==>
            && !st.paused && approved
            && Bal(st.ledger, Account(st.assetToken, caller)) >= cost && receiver != "0x0")
      && (o.Success? ==> o.value.1 == cost && BuysShares(st, o.value.0, caller, receiver, cost, amount))
      && (o.Failure? ==>
            o.error == if st.paused then EnforcedPause else if !approved then NotApproved
                       else if Bal(st.ledger, Account(st.assetToken, caller)) < cost then InsufficientFunds
                       else InvalidAddress)
  {
    RoundedUp(Mul(amount, st.TotalAssets() + 1), st.supply + 1, cost);
    if Mint(st, caller, receiver, amount, approved).Success? {
      MoveMoves(st.ledger, Account(st.assetToken, caller), st.Home(), cost);
    }
  }

  lemma PayOutSells(st: VaultState, caller: Address, receiver: Address, owner: Address, assets: nat, amount: nat,
                    approved: bool)
    requires PayOut(st, caller, receiver, owner, assets, amount, approved).Success?
    ensures SellsShares(st, PayOut(st, caller, receiver, owner, assets, amount, approved).value, owner, receiver,
                        assets, amount)
  {
    MoveMoves(st.ledger, st.Home(), Account(st.assetToken, receiver), assets);
  }

  /** withdraw: the receiver gets `assets` for ceil(assets (S + 1) / (A + 1)) shares of the owner. */
  lemma WithdrawExactly(st: VaultState, caller: Address, receiver: Address, owner: Address, assets: nat,
                        approved: bool, cost: nat)
    requires Rounds(cost, assets * (st.supply + 1), Bal(st.ledger, Account(st.assetToken, st.self)) + 1, true)
    ensures
      var o, held := Withdraw(st, caller, receiver, owner, assets, approved),
                     Bal(st.ledger, Account(st.assetToken, st.self));
      && (o.Success? <==>
            && assets <= Bal(st.shares, owner) * (held + 1) / (st.supply + 1) && assets <= held
            && (caller == owner || approved) && owner != "0x0" && receiver != "0x0"
            && cost <= Bal(st.shares, owner) && cost <= st.supply)
      && (o.Success? ==> o.value.1 == cost && SellsShares(st, o.value.0, owner, receiver, assets, cost))
  {
    RoundedUp(Mul(assets, st.supply + 1), st.TotalAssets() + 1, cost);
    if PayOut(st, caller, receiver, owner, assets, cost, approved).Success? {
      PayOutSells(st, caller, receiver, owner, assets, cost, approved);
    }
  }

  lemma WithdrawNamesFirst(st: VaultState, caller: Address, receiver: Address, owner: Address, assets: nat,
                           approved: bool)
    requires Withdraw(st, caller, receiver, owner, assets, approved).Failure?
    ensures
      var held := Bal(st.ledger, Account(st.assetToken, st.self));
      Withdraw(st, caller, receiver, owner, assets, approved).error ==
        if assets > Mul(Bal(st.shares, owner), held + 1) / (st.supply + 1) then ExceedsMax
        else if caller != owner && !approved then NotApproved
        else if owner == "0x0" || receiver == "0x0" then InvalidAddress else InsufficientFunds
  {
  }

  /** redeem: the receiver gets floor(amount (A + 1) / (S + 1)) assets for `amount` shares of the owner. */
  lemma RedeemExactly(st: VaultState, caller: Address, receiver: Address, owner: Address, amount: nat, approved: bool)
    ensures
      var o, held := Redeem(st, caller, receiver, owner, amount, approved),
                     Bal(st.ledger, Account(st.assetToken, st.self));
      var worth := amount * (held + 1) / (st.supply + 1);
      && (o.Success? <==>
            && amount <= Bal(st.shares, owner) && amount <= st.supply && worth <= held
            && (caller == owner || approved) && owner != "0x0" && receiver != "0x0")
      && (o.Success? ==> o.value.1 == worth && SellsShares(st, o.value.0, owner, receiver, worth, amount))
      && (o.Failure? ==>
            o.error == if amount > Bal(st.shares, owner) then ExceedsMax
                       else if caller != owner && !approved then NotApproved
                       else if owner == "0x0" || receiver == "0x0" then InvalidAddress else InsufficientFunds)
  {
    if PayOut(st, caller, receiver, owner, st.AssetsDown(amount), amount, approved).Success? {
      PayOutSells(st, caller, receiver, owner, st.AssetsDown(amount), amount, approved);
    }
  }

  /** The profit is added to the books, the fee recipient gets the shares for the fee, and nothing else
      changes. */
  ghost predicate BooksProfit(st: VaultState, after: VaultState, profit: nat, minted: nat) {
    && after.ledger == st.ledger && KeepsSettings(st, after) && after.realized == st.realized + profit
    && Changes(st.shares, after.shares, st.feeRecipient, minted) && after.supply == st.supply + minted
  }

  /** reportProfit: a listed executor books profit that reaches its floor and is present; the fee is
      floor(profit feeBps / 10000), and floor(fee (S + 1) / (A + 1)) shares are minted for it. */
  lemma ReportExactly(st: VaultState, caller: Address, profit: nat, minProfit: nat)
    ensures
      var o, held := ReportProfit(st, caller, profit, minProfit), Bal(st.ledger, Account(st.assetToken, st.self));
      var fee := profit * st.feeBps / 10_000;
      && (o.Success? <==> caller in st.executors && profit >= minProfit && held >= profit)
      && (o.Success? ==>
            && o.value.1 == fee
            && BooksProfit(st, o.value.0, profit, Mul(fee, st.supply + 1) / (held + 1)))
      && (o.Failure? ==>
            o.error == if caller !in st.executors then Unauthorized
                       else if profit < minProfit then ProfitBelowFloor else ProfitNotPresent)
  {
    var fee := Fee(st, profit);
    if fee == 0 {
      assert Mul(fee, st.supply + 1) == 0;
    }
  }
}
