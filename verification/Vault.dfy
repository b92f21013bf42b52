/** The share vault (contracts/src/ArbVault.sol) over the conversions of OpenZeppelin ERC4626
    v5.6.1 with decimals offset 0. */
module Vault {
  import opened Common
  import opened Arith

  const ZERO_ADDRESS: Address := "0x0"
  const MAX_FEE_BPS: nat := 5000

  // ----- balances -----

  /** A holder's balance of a token. */
  datatype Account = Account(token: Address, holder: Address)

  type Ledger = map<Account, nat>

  function Bal<K>(m: map<K, nat>, k: K): nat {
    if k in m then m[k] else 0
  }

  function Credit<K>(m: map<K, nat>, k: K, v: nat): map<K, nat> {
    m[k := Bal(m, k) + v]
  }

  function Debit<K>(m: map<K, nat>, k: K, v: nat): map<K, nat>
    requires Bal(m, k) >= v
  {
    m[k := Bal(m, k) - v]
  }

  function Move<K>(m: map<K, nat>, from: K, to: K, v: nat): map<K, nat>
    requires Bal(m, from) >= v
  {
    Credit(Debit(m, from, v), to, v)
  }

  ghost function Total<K>(m: map<K, nat>): nat
    decreases m.Keys
  {
    if m == map[] then 0 else var k :| k in m; m[k] + Total(m - {k})
  }

  lemma {:induction false} TotalWithout<K>(m: map<K, nat>, k: K)
    requires k in m
    ensures Total(m) == m[k] + Total(m - {k})
    decreases m.Keys
  {
    var first :| first in m && Total(m) == m[first] + Total(m - {first});
    if first != k {
      TotalWithout(m - {first}, k);
      TotalWithout(m - {k}, first);
      assert m - {first} - {k} == m - {k} - {first};
    }
  }

  lemma TotalAfterUpdate<K>(m: map<K, nat>, k: K, v: nat)
    ensures Total(m[k := v]) == Total(m) - Bal(m, k) + v
  {
    var m' := m[k := v];
    TotalWithout(m', k);
    assert m' - {k} == m - {k};
    if k in m {
      TotalWithout(m, k);
    } else {
      assert m - {k} == m;
    }
  }

  lemma BalanceWithinTotal<K>(m: map<K, nat>, k: K)
    ensures Bal(m, k) <= Total(m)
  {
    if k in m { TotalWithout(m, k); }
  }

  // ----- state -----

  datatype VaultState = VaultState(
    self: Address,
    assetToken: Address,
    ledger: Ledger,
    shares: map<Address, nat>,
    supply: nat,
    executors: set<Address>,
    feeBps: nat,
    feeRecipient: Address,
    realized: nat,
    paused: bool)
  {
    function Home(): Account { Account(assetToken, self) }

    function TotalAssets(): nat { Bal(ledger, Home()) }

    /** OpenZeppelin's conversions: one virtual share and one virtual asset unit. */
    function SharesDown(assets: nat): nat { Div(Mul(assets, supply + 1), TotalAssets() + 1) }

    function SharesUp(assets: nat): nat { CeilDiv(Mul(assets, supply + 1), TotalAssets() + 1) }

    function AssetsDown(amount: nat): nat { Div(Mul(amount, TotalAssets() + 1), supply + 1) }

    function AssetsUp(amount: nat): nat { CeilDiv(Mul(amount, TotalAssets() + 1), supply + 1) }

    function Minted(to: Address, amount: nat): VaultState {
      this.(shares := Credit(shares, to, amount), supply := supply + amount)
    }

    function Burned(owner: Address, amount: nat): VaultState
      requires Bal(shares, owner) >= amount && supply >= amount
    {
      this.(shares := Debit(shares, owner, amount), supply := supply - amount)
    }

    function Paid(from: Account, to: Account, amount: nat): VaultState
      requires Bal(ledger, from) >= amount
    {
      this.(ledger := Move(ledger, from, to, amount))
    }

    /** The shares outstanding are exactly the shares held, and the fee respects its cap. */
    ghost predicate Sound() {
      Total(shares) == supply && feeBps <= MAX_FEE_BPS && feeRecipient != ZERO_ADDRESS
    }
  }

  function CeilDiv(n: nat, d: nat): (q: nat)
    requires d > 0
    ensures q * d >= n && (q > 0 ==> (q - 1) * d < n)
  {
    var q := Div(n, d);
    Distributes(q, 1, d);
    if q * d == n then (if q > 0 then Distributes(q - 1, 1, d); q else q) else q + 1
  }

  datatype VaultError =
    | EnforcedPause
    | InsufficientFunds
    | NotApproved
    | InvalidAddress
    | ExceedsMax
    | Unauthorized
    | ProfitBelowFloor
    | ProfitNotPresent
    | FeeTooHigh

  type Change = Result<VaultState, VaultError>
  type Outcome = Result<(VaultState, nat), VaultError>

  function Answering(c: Change, answer: nat): Outcome {
    match c
    case Success(st) => Success((st, answer))
    case Failure(e) => Failure(e)
  }

  // ----- operations as functions of the state -----

  /** Assets in, shares out.  `approved` says whether the caller let the vault pull its asset. */
  function TakeIn(st: VaultState, caller: Address, receiver: Address, assets: nat, amount: nat,
                  approved: bool): Change
  {
    if st.paused then Failure(EnforcedPause)
    else if !approved then Failure(NotApproved)
    else if Bal(st.ledger, Account(st.assetToken, caller)) < assets then Failure(InsufficientFunds)
    else if receiver == ZERO_ADDRESS then Failure(InvalidAddress)
    else Success(st.Paid(Account(st.assetToken, caller), st.Home(), assets).Minted(receiver, amount))
  }

  function Deposit(st: VaultState, caller: Address, receiver: Address, assets: nat, approved: bool): Outcome {
    Answering(TakeIn(st, caller, receiver, assets, st.SharesDown(assets), approved), st.SharesDown(assets))
  }

  function Mint(st: VaultState, caller: Address, receiver: Address, amount: nat, approved: bool): Outcome {
    Answering(TakeIn(st, caller, receiver, st.AssetsUp(amount), amount, approved), st.AssetsUp(amount))
  }

  /** Shares in, assets out.  `approved` says whether the owner let the caller spend its shares. */
  function PayOut(st: VaultState, caller: Address, receiver: Address, owner: Address, assets: nat, amount: nat,
                  approved: bool): Change
  {
    if caller != owner && !approved then Failure(NotApproved)
    else if owner == ZERO_ADDRESS || receiver == ZERO_ADDRESS then Failure(InvalidAddress)
    else if Bal(st.shares, owner) < amount || st.supply < amount then Failure(InsufficientFunds)
    else if st.TotalAssets() < assets then Failure(InsufficientFunds)
    else Success(st.Burned(owner, amount).Paid(st.Home(), Account(st.assetToken, receiver), assets))
  }

  function Withdraw(st: VaultState, caller: Address, receiver: Address, owner: Address, assets: nat,
                    approved: bool): Outcome
  {
    if assets > st.AssetsDown(Bal(st.shares, owner)) then Failure(ExceedsMax)
    else Answering(PayOut(st, caller, receiver, owner, assets, st.SharesUp(assets), approved), st.SharesUp(assets))
  }

  function Redeem(st: VaultState, caller: Address, receiver: Address, owner: Address, amount: nat,
                  approved: bool): Outcome
  {
    if amount > Bal(st.shares, owner) then Failure(ExceedsMax)
    else Answering(PayOut(st, caller, receiver, owner, st.AssetsDown(amount), amount, approved), st.AssetsDown(amount))
  }

  function Fee(st: VaultState, profit: nat): nat {
    Div(Mul(profit, st.feeBps), 10_000)
  }

  /** Bookkeeping and fee shares for profit already in the vault; answers the fee. */
  function ReportProfit(st: VaultState, caller: Address, profit: nat, minProfit: nat): Outcome {
    if caller !in st.executors then Failure(Unauthorized)
    else if profit < minProfit then Failure(ProfitBelowFloor)
    else if st.TotalAssets() < profit then Failure(ProfitNotPresent)
    else
      var fee := Fee(st, profit);
      var amount := st.SharesDown(fee);
      var booked := st.(realized := st.realized + profit);
      Success((if fee > 0 && amount > 0 then booked.Minted(st.feeRecipient, amount) else booked, fee))
  }

  function SetPerformanceFee(st: VaultState, newBps: nat): Outcome {
    if newBps > MAX_FEE_BPS then Failure(FeeTooHigh) else Success((st.(feeBps := newBps), newBps))
  }

  function SetFeeRecipient(st: VaultState, recipient: Address): Outcome {
    if recipient == ZERO_ADDRESS then Failure(InvalidAddress) else Success((st.(feeRecipient := recipient), 0))
  }

  /** A reverted call leaves everything as it was. */
  function After(st: VaultState, o: Outcome): VaultState {
    match o
    case Success(r) => r.0
    case Failure(_) => st
  }

  function Reply(o: Outcome): Result<nat, VaultError> {
    match o
    case Success(r) => Success(r.1)
    case Failure(e) => Failure(e)
  }

  // ----- the contracts -----

  /** Balances of every token, kept by the token contracts. */
  class Tokens {
    var ledger: Ledger

    constructor (initial: Ledger)
      ensures ledger == initial
    {
      ledger := initial;
    }

    method Transfer(from: Account, to: Account, amount: nat) returns (ok: bool)
      modifies this
      ensures ok <==> Bal(old(ledger), from) >= amount
      ensures ledger == if ok then Move(old(ledger), from, to, amount) else old(ledger)
    {
      if Bal(ledger, from) < amount {
        return false;
      }
      ledger := ledger[from := Bal(ledger, from) - amount];
      ledger := ledger[to := Bal(ledger, to) + amount];
      return true;
    }
  }

  class ArbVault {
    const self: Address
    const assetToken: Address
    const tokens: Tokens
    var shares: map<Address, nat>
    var supply: nat
    var executors: set<Address>
    var performanceFeeBps: nat
    var feeRecipient: Address
    var totalRealizedProfit: nat
    var paused: bool

    ghost function State(): VaultState
      reads this, tokens
    {
      VaultState(self, assetToken, tokens.ledger, shares, supply, executors, performanceFeeBps, feeRecipient,
                 totalRealizedProfit, paused)
    }

    /** The constructor's two checks are its preconditions: with them violated it reverts. */
    constructor (self: Address, assetToken: Address, tokens: Tokens, feeBps: nat, recipient: Address)
      requires recipient != ZERO_ADDRESS && feeBps <= MAX_FEE_BPS
      ensures this.self == self && this.assetToken == assetToken && this.tokens == tokens
      ensures State() == VaultState(self, assetToken, tokens.ledger, map[], 0, {}, feeBps, recipient, 0, false)
      ensures State().Sound()
    {
      this.self, this.assetToken, this.tokens := self, assetToken, tokens;
      shares, supply, executors := map[], 0, {};
      performanceFeeBps, feeRecipient, totalRealizedProfit, paused := feeBps, recipient, 0, false;
    }

    method TotalAssets() returns (assets: nat)
      ensures assets == State().TotalAssets()
    {
      assets := Bal(tokens.ledger, Account(assetToken, self));
    }

    method MintShares(to: Address, amount: nat)
      modifies this
      ensures State() == old(State()).Minted(to, amount)
    {
      shares := shares[to := Bal(shares, to) + amount];
      supply := supply + amount;
    }

    /** The shared tail of deposit and mint. */
    method PullAndMint(caller: Address, receiver: Address, assets: nat, amount: nat, approved: bool)
      returns (failure: Option<VaultError>)
      modifies this, tokens
      ensures var c := TakeIn(old(State()), caller, receiver, assets, amount, approved);
        && State() == (if c.Success? then c.value else old(State()))
        && failure == (if c.Success? then None else Some(c.error))
    {
      if paused {
        return Some(EnforcedPause);
      }
      if !approved {
        return Some(NotApproved);
      }
      if Bal(tokens.ledger, Account(assetToken, caller)) < assets {
        return Some(InsufficientFunds);
      }
      if receiver == ZERO_ADDRESS {
        return Some(InvalidAddress);
      }
      var ok := tokens.Transfer(Account(assetToken, caller), Account(assetToken, self), assets);
      MintShares(receiver, amount);
      return None;
    }

    /** The shared tail of withdraw and redeem. */
    method BurnAndPay(caller: Address, receiver: Address, owner: Address, assets: nat, amount: nat, approved: bool)
      returns (failure: Option<VaultError>)
      modifies this, tokens
      ensures var c := PayOut(old(State()), caller, receiver, owner, assets, amount, approved);
        && State() == (if c.Success? then c.value else old(State()))
        && failure == (if c.Success? then None else Some(c.error))
    {
      if caller != owner && !approved {
        return Some(NotApproved);
      }
      if owner == ZERO_ADDRESS || receiver == ZERO_ADDRESS {
        return Some(InvalidAddress);
      }
      if Bal(shares, owner) < amount || supply < amount {
        return Some(InsufficientFunds);
      }
      if Bal(tokens.ledger, Account(assetToken, self)) < assets {
        return Some(InsufficientFunds);
      }
      shares := shares[owner := Bal(shares, owner) - amount];
      supply := supply - amount;
      var ok := tokens.Transfer(Account(assetToken, self), Account(assetToken, receiver), assets);
      return None;
    }

    method PreviewShares(assets: nat, up: bool) returns (amount: nat)
      ensures amount == if up then State().SharesUp(assets) else State().SharesDown(assets)
    {
      var held := TotalAssets();
      amount := if up then CeilDiv(Mul(assets, supply + 1), held + 1) else Div(Mul(assets, supply + 1), held + 1);
    }

    method PreviewAssets(amount: nat, up: bool) returns (assets: nat)
      ensures assets == if up then State().AssetsUp(amount) else State().AssetsDown(amount)
    {
      var held := TotalAssets();
      assets := if up then CeilDiv(Mul(amount, held + 1), supply + 1) else Div(Mul(amount, held + 1), supply + 1);
    }

    method DepositAssets(caller: Address, receiver: Address, assets: nat, approved: bool)
      returns (r: Result<nat, VaultError>)
      modifies this, tokens
      ensures var o := Deposit(old(State()), caller, receiver, assets, approved);
        State() == After(old(State()), o) && r == Reply(o)
    {
      var amount := PreviewShares(assets, false);
      var failure := PullAndMint(caller, receiver, assets, amount, approved);
      r := if failure.None? then Success(amount) else Failure(failure.value);
    }

    method MintExact(caller: Address, receiver: Address, amount: nat, approved: bool)
      returns (r: Result<nat, VaultError>)
      modifies this, tokens
      ensures var o := Mint(old(State()), caller, receiver, amount, approved);
        State() == After(old(State()), o) && r == Reply(o)
    {
      var assets := PreviewAssets(amount, true);
      var failure := PullAndMint(caller, receiver, assets, amount, approved);
      r := if failure.None? then Success(assets) else Failure(failure.value);
    }

    method WithdrawAssets(caller: Address, receiver: Address, owner: Address, assets: nat, approved: bool)
      returns (r: Result<nat, VaultError>)
      modifies this, tokens
      ensures var o := Withdraw(old(State()), caller, receiver, owner, assets, approved);
        State() == After(old(State()), o) && r == Reply(o)
    {
      var most := PreviewAssets(Bal(shares, owner), false);
      if assets > most {
        return Failure(ExceedsMax);
      }
      var amount := PreviewShares(assets, true);
      var failure := BurnAndPay(caller, receiver, owner, assets, amount, approved);
      r := if failure.None? then Success(amount) else Failure(failure.value);
    }

    method RedeemShares(caller: Address, receiver: Address, owner: Address, amount: nat, approved: bool)
      returns (r: Result<nat, VaultError>)
      modifies this, tokens
      ensures var o := Redeem(old(State()), caller, receiver, owner, amount, approved);
        State() == After(old(State()), o) && r == Reply(o)
    {
      if amount > Bal(shares, owner) {
        return Failure(ExceedsMax);
      }
      var assets := PreviewAssets(amount, false);
      var failure := BurnAndPay(caller, receiver, owner, assets, amount, approved);
      r := if failure.None? then Success(assets) else Failure(failure.value);
    }

    method BookProfit(caller: Address, profit: nat, minProfit: nat) returns (r: Result<nat, VaultError>)
      modifies this
      ensures var o := ReportProfit(old(State()), caller, profit, minProfit);
        State() == After(old(State()), o) && r == Reply(o)
    {
      if caller !in executors {
        return Failure(Unauthorized);
      }
      if profit < minProfit {
        return Failure(ProfitBelowFloor);
      }
      var fee := Div(Mul(profit, performanceFeeBps), 10_000);
      var held := TotalAssets();
      if held < profit {
        return Failure(ProfitNotPresent);
      }
      totalRealizedProfit := totalRealizedProfit + profit;
      if fee > 0 {
        var amount := PreviewShares(fee, false);
        if amount > 0 {
          MintShares(feeRecipient, amount);
        }
      }
      return Success(fee);
    }

    method ChangePerformanceFee(newBps: nat) returns (r: Result<nat, VaultError>)
      modifies this
      ensures var o := SetPerformanceFee(old(State()), newBps); State() == After(old(State()), o) && r == Reply(o)
      ensures r == if newBps <= 5000 then Success(newBps) else Failure(FeeTooHigh)
      ensures State() == if newBps <= 5000 then old(State()).(feeBps := newBps) else old(State())
    {
      if newBps > MAX_FEE_BPS {
        return Failure(FeeTooHigh);
      }
      performanceFeeBps := newBps;
      return Success(newBps);
    }

    method ChangeFeeRecipient(recipient: Address) returns (r: Result<nat, VaultError>)
      modifies this
      ensures var o := SetFeeRecipient(old(State()), recipient); State() == After(old(State()), o) && r == Reply(o)
      ensures r == if recipient != "0x0" then Success(0) else Failure(InvalidAddress)
      ensures State() == if recipient != "0x0" then old(State()).(feeRecipient := recipient) else old(State())
    {
      if recipient == ZERO_ADDRESS {
        return Failure(InvalidAddress);
      }
      feeRecipient := recipient;
      return Success(0);
    }

    method SetPaused(on: bool)
      modifies this
      ensures State() == old(State()).(paused := on)
    {
      paused := on;
    }
  }
}
