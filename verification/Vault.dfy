/** The vault as a contract: its calls change its storage step by step, or revert and change
    nothing. */
module Vault {
  import opened Evm
  import opened Storage
  import opened DlpVaults
  import opened Sums
  import opened VaultAccounts
  import opened VaultRuns
  import opened VaultQueue

  class DlpVault {
    const self: Address
    var st: State

    constructor (self: Address, now: nat)
      ensures this.self == self && st == Start(now)
    {
      this.self, st := self, Start(now);
    }

    // ----- inside a call; a revert here is undone by the call

    /** The modifier `updateReward`. */
    method UpdateReward(account: Address) returns (r: Result<()>)
      modifies this
      ensures match Update(old(st), account)
              case Ok(next) => r == Ok(()) && st == next
              case Revert(error) => r == Revert(error)
    {
      var perToken := RewardPerToken(st);
      if perToken.Revert? {
        return Revert(perToken.error);
      }
      var last := LastTime(st);
      st := st.(accrual := st.accrual.(rewardPerTokenStored := perToken.value));
      st := st.(accrual := st.accrual.(updatedAt := last));
      if account != 0 {
        var earned := Earned(st, account);
        if earned.Revert? {
          return Revert(earned.error);
        }
        var rewards, userPaid := st.accrual.rewards, st.accrual.userPaid;
        st := st.(accrual := st.accrual.(rewards := Write(rewards, account, earned.value)));
        st := st.(accrual := st.accrual.(userPaid := Write(userPaid, account, st.accrual.rewardPerTokenStored)));
      }
      r := Ok(());
    }

    method PayStored(account: Address) returns (r: Result<()>)
      modifies this
      ensures match PayReward(old(st), self, account)
              case Ok(next) => r == Ok(()) && st == next
              case Revert(error) => r == Revert(error)
    {
      var reward := Read(st.accrual.rewards, account);
      if reward > 0 {
        st := st.(accrual := st.accrual.(rewards := Write(st.accrual.rewards, account, 0)));
        if st.funds < reward {
          return Revert(InsufficientBalance);
        }
        if account != self {
          st := st.(funds := st.funds - reward);
        }
        st := st.(ledger := st.ledger.(rewardsPaid := st.ledger.rewardsPaid + reward));
      } else {
        assert Write(st.accrual.rewards, account, 0) == st.accrual.rewards;
      }
      r := Ok(());
    }

    method PayUpdated(account: Address) returns (r: Result<()>)
      modifies this
      ensures match DlpVaults.GetReward(old(st), self, account)
              case Ok(next) => r == Ok(()) && st == next
              case Revert(error) => r == Revert(error)
    {
      r := UpdateReward(account);
      if r.Ok? {
        r := PayStored(account);
      }
    }

    /** The shares go, and the tokens leave unless the vault itself is to receive them. */
    method BurnAndPay(owner: Address, receiver: Address, assets: nat) returns (r: Result<()>)
      requires assets <= st.cash
      modifies this
      ensures match Burn(old(st), owner, assets)
              case Ok(burned) => r == Ok(()) && st == PayOut(burned, self, receiver, assets)
              case Revert(error) => r == Revert(error)
    {
      var burned := Burn(st, owner, assets);
      if burned.Revert? {
        return Revert(burned.error);
      }
      st := burned.value;
      if receiver != self {
        st := st.(cash := st.cash - assets);
      }
      r := Ok(());
    }

    /** The head of the queue, when the cash suffices for it. */
    method SettleRequest() returns (r: Result<()>)
      requires st.line.index < |st.line.queue| && st.line.queue[st.line.index].assets <= st.cash
      modifies this
      ensures match SettleHead(old(st), self)
              case Ok(next) => r == Ok(()) && st == next
              case Revert(error) => r == Revert(error)
    {
      var i, item := st.line.index, st.line.queue[st.line.index];
      var paid := Read(st.shares.balances, item.owner) >= item.assets;
      if paid {
        r := BurnAndPay(item.owner, item.receiver, item.assets);
        if r.Revert? {
          return;
        }
      }
      st := st.(line := st.line.(settled := st.line.settled + [Settlement(item, paid)]));
      st := st.(line := st.line.(queue := st.line.queue[i := NO_REQUEST]));
      st := st.(line := st.line.(index := i + 1));
      r := Ok(());
    }

    method SettleRequests(last: nat) returns (r: Result<()>)
      requires last <= |st.line.queue|
      modifies this
      ensures match Settle(old(st), self, last)
              case Ok(next) => r == Ok(()) && st == next
              case Revert(error) => r == Revert(error)
    {
      while st.line.index < last
        invariant last <= |st.line.queue|
        invariant Settle(st, self, last) == Settle(old(st), self, last)
        decreases last - st.line.index
      {
        if st.line.queue[st.line.index].assets > st.cash {
          break;
        }
        r := SettleRequest();
        if r.Revert? {
          return;
        }
      }
      r := Ok(());
    }

    method ServeRequests(limit: nat) returns (r: Result<()>)
      modifies this
      ensures match DlpVaults.ProcessQueue(old(st), self, limit)
              case Ok(next) => r == Ok(()) && st == next
              case Revert(error) => r == Revert(error)
    {
      r := UpdateReward(0);
      if r.Revert? {
        return;
      }
      var last := st.line.index + limit;
      if last >= UINT256_LIMIT {
        return Revert(ArithmeticPanic);
      }
      if limit == 0 || last > |st.line.queue| {
        last := |st.line.queue|;
      }
      r := SettleRequests(last);
    }

    method DepositUpdated(amount: nat, receiver: Address) returns (r: Result<()>)
      modifies this
      ensures match DlpVaults.Deposit(old(st), self, amount, receiver)
              case Ok(next) => r == Ok(()) && st == next
              case Revert(error) => r == Revert(error)
    {
      r := UpdateReward(receiver);
      if r.Ok? {
        r := AcceptDeposit(amount, receiver);
      }
    }

    method AcceptDeposit(amount: nat, receiver: Address) returns (r: Result<()>)
      modifies this
      ensures match AcceptServed(Ok(old(st)), self, amount, receiver)
              case Ok(next) => r == Ok(()) && st == next
              case Revert(error) => r == Revert(error)
    {
      if amount + st.shares.amountStaked >= UINT256_LIMIT {
        return Revert(ArithmeticPanic);
      }
      if amount + st.shares.amountStaked > st.vaultCap {
        return Revert(VaultCapExceeded);
      }
      st := st.(cash := st.cash + amount);
      if st.line.index != |st.line.queue| {
        r := ServeRequests(MAX_QUEUE_PROCESS_LIMIT);
        if r.Revert? {
          return;
        }
      }
      var minted := Mint(st, receiver, amount);
      if minted.Revert? {
        return Revert(minted.error);
      }
      st := minted.value;
      r := Ok(());
    }

    /** `_spendAllowance`. */
    method Spend(owner: Address, spender: Address, amount: nat) returns (r: Result<()>)
      modifies this
      ensures match SpendAllowance(old(st), owner, spender, amount)
              case Ok(next) => r == Ok(()) && st == next
              case Revert(error) => r == Revert(error) && st == old(st)
    {
      var allowed := Allowance(st, owner, spender);
      if allowed != UNLIMITED {
        if allowed < amount {
          return Revert(InsufficientAllowance);
        }
        if owner == 0 || spender == 0 {
          return Revert(AddressZero);
        }
        st := st.(allowances := st.allowances[(owner, spender) := allowed - amount]);
      }
      r := Ok(());
    }

    method WithdrawUpdated(request: Request) returns (r: Result<nat>)
      modifies this
      ensures match DlpVaults.Withdraw(old(st), self, request)
              case Ok(done) => r == Ok(done.1) && st == done.0
              case Revert(error) => r == Revert(error)
    {
      var updated := UpdateReward(request.owner);
      if updated.Revert? {
        return Revert(updated.error);
      }
      if request.receiver == 0 {
        return Revert(AddressZero);
      }
      if request.assets == 0 {
        return Revert(WithdrawZero);
      }
      if Read(st.shares.balances, request.owner) < request.assets {
        return Revert(NotEnoughShares);
      }
      var rewarded := PayUpdated(request.owner);
      if rewarded.Revert? {
        return Revert(rewarded.error);
      }
      if request.caller != request.owner {
        var spent := Spend(request.owner, request.caller, request.assets);
        if spent.Revert? {
          return Revert(spent.error);
        }
      }
      r := PayOrEnqueue(request);
    }

    method PayOrEnqueue(request: Request) returns (r: Result<nat>)
      modifies this
      ensures match PayOrQueue(old(st), self, request)
              case Ok(done) => r == Ok(done.1) && st == done.0
              case Revert(error) => r == Revert(error)
    {
      if request.assets <= st.cash && |st.line.queue| == st.line.index {
        var paid := BurnAndPay(request.owner, request.receiver, request.assets);
        return match paid case Ok(_) => Ok(request.assets) case Revert(error) => Revert(error);
      }
      st := st.(line := st.line.(queue := st.line.queue + [request], queued := st.line.queued + [request]));
      var served := ServeRequests(0);
      if served.Revert? {
        return Revert(served.error);
      }
      r := Ok(0);
    }

    /** `_transfer`. */
    method MoveShares(from: Address, to: Address, amount: nat) returns (r: Result<()>)
      modifies this
      ensures match Move(old(st), from, to, amount)
              case Ok(next) => r == Ok(()) && st == next
              case Revert(error) => r == Revert(error)
    {
      if from == 0 || to == 0 {
        return Revert(AddressZero);
      }
      if Read(st.shares.balances, from) < amount {
        return Revert(InsufficientBalance);
      }
      var debited := Write(st.shares.balances, from, Read(st.shares.balances, from) - amount);
      st := st.(shares := st.shares.(balances := Write(debited, to, Read(debited, to) + amount)));
      r := Ok(());
    }

    method UpdateBoth(from: Address, to: Address) returns (r: Result<()>)
      modifies this
      ensures match SeeBoth(old(st), self, from, to)
              case Ok(next) => r == Ok(()) && st == next
              case Revert(error) => r == Revert(error)
    {
      r := UpdateReward(to);
      if r.Ok? {
        r := PayUpdated(from);
      }
    }

    method TransferUpdated(from: Address, to: Address, amount: nat) returns (r: Result<()>)
      modifies this
      ensures match DlpVaults.Transfer(old(st), self, from, to, amount)
              case Ok(next) => r == Ok(()) && st == next
              case Revert(error) => r == Revert(error)
    {
      r := UpdateBoth(from, to);
      if r.Ok? {
        r := MoveShares(from, to, amount);
      }
    }

    method TransferFromUpdated(caller: Address, from: Address, to: Address, amount: nat) returns (r: Result<()>)
      modifies this
      ensures match DlpVaults.TransferFrom(old(st), self, caller, from, to, amount)
              case Ok(next) => r == Ok(()) && st == next
              case Revert(error) => r == Revert(error)
    {
      r := UpdateBoth(from, to);
      if r.Ok? {
        r := Spend(from, caller, amount);
      }
      if r.Ok? {
        r := MoveShares(from, to, amount);
      }
    }

    method NotifyUpdated(amount: nat) returns (r: Result<()>)
      modifies this
      ensures match DlpVaults.Notify(old(st), amount)
              case Ok(next) => r == Ok(()) && st == next
              case Revert(error) => r == Revert(error)
    {
      r := UpdateReward(0);
      if r.Revert? {
        return;
      }
      var remaining := Remaining(st);
      if remaining >= UINT256_LIMIT || amount + remaining >= UINT256_LIMIT || st.accrual.duration == 0 {
        return Revert(ArithmeticPanic);
      }
      st := st.(accrual := st.accrual.(rewardRate := (amount + remaining) / st.accrual.duration));
      if st.accrual.rewardRate == 0 {
        return Revert(RewardRateZero);
      }
      var scheduled := st.accrual.rewardRate * st.accrual.duration;
      if scheduled >= UINT256_LIMIT {
        return Revert(ArithmeticPanic);
      }
      if scheduled > st.funds {
        return Revert(RewardExceedsBalance);
      }
      r := StartPeriod(amount);
    }

    method StartPeriod(amount: nat) returns (r: Result<()>)
      modifies this
      ensures if old(st).now + old(st).accrual.duration >= UINT256_LIMIT then r == Revert(ArithmeticPanic)
              else r == Ok(()) && st == old(st).(
                     accrual := old(st).accrual.(finishAt := old(st).now + old(st).accrual.duration,
                                                 updatedAt := old(st).now),
                     ledger := old(st).ledger.(notified := old(st).ledger.notified + amount))
    {
      if st.now + st.accrual.duration >= UINT256_LIMIT {
        return Revert(ArithmeticPanic);
      }
      st := st.(accrual := st.accrual.(finishAt := st.now + st.accrual.duration));
      st := st.(accrual := st.accrual.(updatedAt := st.now));
      st := st.(ledger := st.ledger.(notified := st.ledger.notified + amount));
      r := Ok(());
    }

    // ----- the calls

    /** `getReward`. */
    method GetReward(account: Address) returns (r: Result<()>)
      modifies this
      ensures match DlpVaults.GetReward(old(st), self, account)
              case Ok(next) => r == Ok(()) && st == next
              case Revert(error) => r == Revert(error) && st == old(st)
    {
      var before := st;
      r := PayUpdated(account);
      if r.Revert? {
        st := before;
      }
    }

    /** `processWithdrawalQueue`. */
    method ProcessWithdrawalQueue(limit: Uint256) returns (r: Result<()>)
      modifies this
      ensures match DlpVaults.ProcessQueue(old(st), self, limit)
              case Ok(next) => r == Ok(()) && st == next
              case Revert(error) => r == Revert(error) && st == old(st)
    {
      var before := st;
      r := ServeRequests(limit);
      if r.Revert? {
        st := before;
      }
    }

    /** `deposit`: the shares made, one for each token. */
    method Deposit(amount: Uint256, receiver: Address) returns (r: Result<nat>)
      modifies this
      ensures match DlpVaults.Deposit(old(st), self, amount, receiver)
              case Ok(next) => r == Ok(amount) && st == next
              case Revert(error) => r == Revert(error) && st == old(st)
    {
      var before := st;
      var done := DepositUpdated(amount, receiver);
      if done.Revert? {
        st := before;
        return Revert(done.error);
      }
      r := Ok(amount);
    }

    /** `withdraw`: the assets paid at once, or 0. */
    method Withdraw(request: Request) returns (r: Result<nat>)
      modifies this
      ensures match DlpVaults.Withdraw(old(st), self, request)
              case Ok(done) => r == Ok(done.1) && st == done.0
              case Revert(error) => r == Revert(error) && st == old(st)
    {
      var before := st;
      r := WithdrawUpdated(request);
      if r.Revert? {
        st := before;
      }
    }

    /** `transfer`, by the caller `from`. */
    method Transfer(from: Address, to: Address, amount: Uint256) returns (r: Result<()>)
      modifies this
      ensures match DlpVaults.Transfer(old(st), self, from, to, amount)
              case Ok(next) => r == Ok(()) && st == next
              case Revert(error) => r == Revert(error) && st == old(st)
    {
      var before := st;
      r := TransferUpdated(from, to, amount);
      if r.Revert? {
        st := before;
      }
    }

    /** `transferFrom`. */
    method TransferFrom(caller: Address, from: Address, to: Address, amount: Uint256) returns (r: Result<()>)
      modifies this
      ensures match DlpVaults.TransferFrom(old(st), self, caller, from, to, amount)
              case Ok(next) => r == Ok(()) && st == next
              case Revert(error) => r == Revert(error) && st == old(st)
    {
      var before := st;
      r := TransferFromUpdated(caller, from, to, amount);
      if r.Revert? {
        st := before;
      }
    }

    /** `approve`, by the caller `owner`. */
    method Approve(owner: Address, spender: Address, amount: Uint256) returns (r: Result<()>)
      modifies this
      ensures match DlpVaults.Approve(old(st), owner, spender, amount)
              case Ok(next) => r == Ok(()) && st == next
              case Revert(error) => r == Revert(error) && st == old(st)
    {
      if owner == 0 || spender == 0 {
        return Revert(AddressZero);
      }
      st := st.(allowances := st.allowances[(owner, spender) := amount]);
      r := Ok(());
    }

    /** `notifyRewardAmount`. */
    method NotifyRewardAmount(amount: Uint256) returns (r: Result<()>)
      modifies this
      ensures match DlpVaults.Notify(old(st), amount)
              case Ok(next) => r == Ok(()) && st == next
              case Revert(error) => r == Revert(error) && st == old(st)
    {
      var before := st;
      r := NotifyUpdated(amount);
      if r.Revert? {
        st := before;
      }
    }

    /** `setRewardsDuration`. */
    method SetRewardsDuration(duration: Uint256) returns (r: Result<()>)
      modifies this
      ensures match DlpVaults.SetDuration(old(st), duration)
              case Ok(next) => r == Ok(()) && st == next
              case Revert(error) => r == Revert(error) && st == old(st)
    {
      if st.accrual.finishAt >= st.now {
        return Revert(PeriodNotFinished);
      }
      if duration == 0 {
        return Revert(ValueZero);
      }
      st := st.(accrual := st.accrual.(duration := duration));
      r := Ok(());
    }
  }

  /** What happens around the vault, and the cap, which change its storage in one step. */
  method ExecuteAround(vault: DlpVault, a: Action)
    requires IsSetting(a) && !a.Approve? && !a.SetDuration?
    modifies vault
    ensures vault.st == Next(old(vault.st), vault.self, a)
  {
    var next := Around(vault.st, a);
    if next.Ok? {
      vault.st := next.value;
    }
  }

  method Execute(vault: DlpVault, a: Action)
    modifies vault
    ensures vault.st == Next(old(vault.st), vault.self, a)
  {
    var r: Result<()>;
    match a {
      case Deposit(amount, receiver) => var made := vault.Deposit(amount, receiver);
      case Withdraw(request) => var paid := vault.Withdraw(request);
      case ProcessQueue(limit) => r := vault.ProcessWithdrawalQueue(limit);
      case Approve(owner, spender, allowance) => r := vault.Approve(owner, spender, allowance);
      case Transfer(from, to, amount) => r := vault.Transfer(from, to, amount);
      case TransferFrom(caller, from, to, amount) => r := vault.TransferFrom(caller, from, to, amount);
      case GetReward(account) => r := vault.GetReward(account);
      case SetDuration(duration) => r := vault.SetRewardsDuration(duration);
      case Notify(amount) => r := vault.NotifyRewardAmount(amount);
      case _ => ExecuteAround(vault, a);
    }
  }

  /** Every run of a vault from its creation ends as the same run of `Run`; so its shares are the tokens
      staked, its rewards stay within what was notified, and its queue was served in order. */
  method Replay(self: Address, now: nat, actions: seq<Action>) returns (vault: DlpVault)
    ensures fresh(vault) && vault.self == self && vault.st == Run(Start(now), self, actions)
    ensures vault.st.shares.amountStaked == vault.st.shares.totalSupply == Total(vault.st.shares.balances)
    ensures Sum(Answers(vault.st)) + vault.st.ledger.rewardsPaid <= vault.st.ledger.notified
    ensures Fifo(vault.st.line)
  {
    vault := new DlpVault(self, now);
    for i := 0 to |actions|
      invariant fresh(vault) && vault.self == self
      invariant Run(vault.st, self, actions[i..]) == Run(Start(now), self, actions)
    {
      assert actions[i..][0] == actions[i] && actions[i..][1..] == actions[i + 1..];
      Execute(vault, actions[i]);
    }
    RewardsWithinNotified(now, self, actions);
    QueueServedInOrder(now, self, actions, []);
  }
}
