/** The vault of liquidity-provider tokens: shares one to one with the tokens deposited, a
    queue of withdrawals the vault cannot pay yet, and rewards that accrue by the second. */
module DlpVaults {
  import opened Evm
  import opened Storage

  type Address = a: nat | a < UINT160_LIMIT
  type Uint256 = n: nat | n < UINT256_LIMIT

  const SCALE: nat := 1_000_000_000_000_000_000
  const MAX_QUEUE_PROCESS_LIMIT: nat := 30
  const UNLIMITED: nat := UINT256_LIMIT - 1

  datatype Request = Request(caller: Address, owner: Address, receiver: Address, assets: Uint256)

  /** What `delete` leaves. */
  const NO_REQUEST := Request(0, 0, 0, 0)

  /** A request that left the queue: paid, or dropped for want of shares. */
  datatype Settlement = Settlement(request: Request, paid: bool)

  /** What has happened so far, as the events tell it. */
  datatype Ledger = Ledger(notified: nat, rewardsPaid: nat)

  /** The withdrawal queue and the index of its head, beside all requests queued and settled so far. */
  datatype Line = Line(queue: seq<Request>, index: nat, queued: seq<Request>, settled: seq<Settlement>)

  /** The shares, one for each token staked. */
  datatype Shares = Shares(balances: Mapping, totalSupply: nat, amountStaked: nat)

  /** The rewards: what a share earns by the second, and what accounts were last seen with. */
  datatype Accrual = Accrual(
    duration: nat, finishAt: nat, updatedAt: nat, rewardRate: nat, rewardPerTokenStored: nat,
    userPaid: Mapping, rewards: Mapping)

  /** The contract's storage; `now` is the block's time, `cash` and `funds` are the vault tokens
      and the reward tokens the vault holds. */
  datatype State = State(
    now: nat, cash: nat, funds: Uint256, vaultCap: Uint256, allowances: map<(Address, Address), nat>,
    shares: Shares, line: Line, accrual: Accrual, ledger: Ledger)

  function Start(now: nat): State {
    State(now, 0, 0, 0, map[], Shares(map[], 0, 0), Line([], 0, [], []),
          Accrual(0, 0, 0, 0, 0, map[], map[]), Ledger(0, 0))
  }

  // ----- checked arithmetic

  function Checked(n: nat): Result<nat> {
    if n < UINT256_LIMIT then Ok(n) else Revert(ArithmeticPanic)
  }

  function Subtract(a: nat, b: nat): Result<nat> {
    if a < b then Revert(ArithmeticPanic) else Ok(a - b)
  }

  function Divide(a: nat, b: nat): Result<nat> {
    if b == 0 then Revert(ArithmeticPanic) else Ok(a / b)
  }

  // ----- rewards

  function LastTime(st: State): nat {
    if st.accrual.finishAt <= st.now then st.accrual.finishAt else st.now
  }

  function RewardPerToken(st: State): Result<nat> {
    if st.shares.totalSupply == 0 then Ok(st.accrual.rewardPerTokenStored)
    else
      var seconds :- Subtract(LastTime(st), st.accrual.updatedAt);
      var released :- Checked(st.accrual.rewardRate * seconds);
      var scaled :- Checked(released * SCALE);
      Checked(st.accrual.rewardPerTokenStored + scaled / st.shares.totalSupply)
  }

  function Earned(st: State, account: Address): Result<nat> {
    var perToken :- RewardPerToken(st);
    var unseen :- Subtract(perToken, Read(st.accrual.userPaid, account));
    var accrued :- Checked(Read(st.shares.balances, account) * unseen);
    Checked(accrued / SCALE + Read(st.accrual.rewards, account))
  }

  function Accrue(st: State): Result<State> {
    var perToken :- RewardPerToken(st);
    Ok(st.(accrual := st.accrual.(rewardPerTokenStored := perToken, updatedAt := LastTime(st))))
  }

  function See(st: State, account: Address): Result<State> {
    var earned :- Earned(st, account);
    Ok(st.(accrual := st.accrual.(
             rewards := Write(st.accrual.rewards, account, earned),
             userPaid := Write(st.accrual.userPaid, account, st.accrual.rewardPerTokenStored))))
  }

  /** The modifier `updateReward`. */
  function Update(st: State, account: Address): Result<State> {
    var accrued :- Accrue(st);
    if account == 0 then Ok(accrued) else See(accrued, account)
  }

  function PayReward(st: State, self: Address, account: Address): Result<State> {
    var reward := Read(st.accrual.rewards, account);
    if st.funds < reward then Revert(InsufficientBalance)
    else
      Ok(st.(accrual := st.accrual.(rewards := Write(st.accrual.rewards, account, 0)),
             funds := if account == self then st.funds else st.funds - reward,
             ledger := st.ledger.(rewardsPaid := st.ledger.rewardsPaid + reward)))
  }

  function GetReward(st: State, self: Address, account: Address): Result<State> {
    var updated :- Update(st, account);
    PayReward(updated, self, account)
  }

  // ----- shares and the queue

  /** `_mint` beside `amountStaked += amount`. */
  function Mint(st: State, receiver: Address, amount: nat): Result<State> {
    var staked :- Checked(st.shares.amountStaked + amount);
    if receiver == 0 then Revert(AddressZero)
    else
      var supply :- Checked(st.shares.totalSupply + amount);
      var balances := Write(st.shares.balances, receiver, Read(st.shares.balances, receiver) + amount);
      Ok(st.(shares := Shares(balances, supply, staked)))
  }

  /** `_burn`, whose last subtraction is unchecked, beside `amountStaked -= assets`. The zero address
      never holds shares to burn. */
  function Burn(st: State, owner: Address, assets: nat): Result<State> {
    var left :- Subtract(Read(st.shares.balances, owner), assets);
    var staked :- Subtract(st.shares.amountStaked, assets);
    Ok(st.(shares := Shares(Write(st.shares.balances, owner, left),
                            Truncate(st.shares.totalSupply - assets, UINT256_LIMIT), staked)))
  }

  function PayOut(st: State, self: Address, receiver: Address, assets: nat): State
    requires assets <= st.cash
  {
    st.(cash := if receiver == self then st.cash else st.cash - assets)
  }

  /** The head of the queue leaves it. */
  function Pop(st: State, paid: bool): State
    requires st.line.index < |st.line.queue|
  {
    var i := st.line.index;
    var settlement := Settlement(st.line.queue[i], paid);
    st.(line := Line(st.line.queue[i := NO_REQUEST], i + 1, st.line.queued, st.line.settled + [settlement]))
  }

  /** One request at the head that the cash suffices for: paid if its owner still has the shares. */
  function SettleHead(st: State, self: Address): Result<State>
    requires st.line.index < |st.line.queue| && st.line.queue[st.line.index].assets <= st.cash
  {
    var item := st.line.queue[st.line.index];
    if Read(st.shares.balances, item.owner) >= item.assets then
      var burned :- Burn(st, item.owner, item.assets);
      Ok(Pop(PayOut(burned, self, item.receiver, item.assets), true))
    else Ok(Pop(st, false))
  }

  function Settle(st: State, self: Address, last: nat): Result<State>
    requires last <= |st.line.queue|
    decreases last - st.line.index
  {
    if st.line.index >= last || st.line.queue[st.line.index].assets > st.cash then Ok(st)
    else
      var next :- SettleHead(st, self);
      Settle(next, self, last)
  }

  /** One past the last request to settle; no limit is 0. */
  function LastIndex(line: Line, limit: nat): Result<nat> {
    var last :- Checked(line.index + limit);
    Ok(if limit == 0 || last > |line.queue| then |line.queue| else last)
  }

  function ProcessQueue(st: State, self: Address, limit: nat): Result<State> {
    var updated :- Update(st, 0);
    var last :- LastIndex(updated.line, limit);
    Settle(updated, self, last)
  }

  /** A deposit first serves the queue with what it brought. */
  function ServeQueue(st: State, self: Address): Result<State> {
    if st.line.index == |st.line.queue| then Ok(st) else ProcessQueue(st, self, MAX_QUEUE_PROCESS_LIMIT)
  }

  /** A deposit for a receiver whose rewards are up to date; `served` is the queue served with it. */
  function Accept(st: State, served: Result<State>, amount: nat, receiver: Address): Result<State> {
    var staked :- Checked(amount + st.shares.amountStaked);
    if staked > st.vaultCap then Revert(VaultCapExceeded)
    else
      var next :- served;
      Mint(next, receiver, amount)
  }

  /** A deposit once its receiver was brought up to date. */
  function AcceptServed(updated: Result<State>, self: Address, amount: nat, receiver: Address): Result<State> {
    match updated
    case Ok(st) => Accept(st, ServeQueue(st.(cash := st.cash + amount), self), amount, receiver)
    case Revert(error) => Revert(error)
  }

  function Deposit(st: State, self: Address, amount: nat, receiver: Address): Result<State> {
    AcceptServed(Update(st, receiver), self, amount, receiver)
  }

  function Enqueue(st: State, request: Request): State {
    st.(line := st.line.(queue := st.line.queue + [request], queued := st.line.queued + [request]))
  }

  /** A withdrawal the caller may make, of rewards already paid: the new state, and the assets
      paid at once. */
  function PayOrQueue(st: State, self: Address, request: Request): Result<(State, nat)> {
    if request.assets <= st.cash && |st.line.queue| == st.line.index then
      var burned :- Burn(st, request.owner, request.assets);
      Ok((PayOut(burned, self, request.receiver, request.assets), request.assets))
    else
      var processed :- ProcessQueue(Enqueue(st, request), self, 0);
      Ok((processed, 0))
  }

  // ----- allowances

  function Allowance(st: State, owner: Address, spender: Address): nat {
    if (owner, spender) in st.allowances then st.allowances[(owner, spender)] else 0
  }

  function Approve(st: State, owner: Address, spender: Address, amount: nat): Result<State> {
    if owner == 0 || spender == 0 then Revert(AddressZero)
    else Ok(st.(allowances := st.allowances[(owner, spender) := amount]))
  }

  /** `_spendAllowance`: an unlimited allowance stays so. */
  function SpendAllowance(st: State, owner: Address, spender: Address, amount: nat): Result<State> {
    var allowed := Allowance(st, owner, spender);
    if allowed == UNLIMITED then Ok(st)
    else if allowed < amount then Revert(InsufficientAllowance)
    else Approve(st, owner, spender, allowed - amount)
  }

  function Withdraw(st: State, self: Address, request: Request): Result<(State, nat)> {
    var updated :- Update(st, request.owner);
    if request.receiver == 0 then Revert(AddressZero)
    else if request.assets == 0 then Revert(WithdrawZero)
    else if Read(updated.shares.balances, request.owner) < request.assets then Revert(NotEnoughShares)
    else SpendAndPay(GetReward(updated, self, request.owner), self, request)
  }

  /** A withdrawal once its owner was paid the rewards. */
  function SpendAndPay(rewarded: Result<State>, self: Address, request: Request): Result<(State, nat)> {
    match rewarded
    case Ok(st) =>
      var allowed :- SpendForOwner(st, request);
      PayOrQueue(allowed, self, request)
    case Revert(error) => Revert(error)
  }

  /** Another caller than the owner spends an allowance. */
  function SpendForOwner(st: State, request: Request): Result<State> {
    if request.caller == request.owner then Ok(st)
    else SpendAllowance(st, request.owner, request.caller, request.assets)
  }

  function Moved(balances: Mapping, from: Address, to: Address, amount: nat): Mapping
    requires amount <= Read(balances, from)
  {
    var debited := Write(balances, from, Read(balances, from) - amount);
    Write(debited, to, Read(debited, to) + amount)
  }

  /** `_transfer`. */
  function Move(st: State, from: Address, to: Address, amount: nat): Result<State> {
    if from == 0 || to == 0 then Revert(AddressZero)
    else if Read(st.shares.balances, from) < amount then Revert(InsufficientBalance)
    else Ok(st.(shares := st.shares.(balances := Moved(st.shares.balances, from, to, amount))))
  }

  /** Both accounts are brought up to date before any shares move. */
  function SeeBoth(st: State, self: Address, from: Address, to: Address): Result<State> {
    var updated :- Update(st, to);
    GetReward(updated, self, from)
  }

  function Transfer(st: State, self: Address, from: Address, to: Address, amount: nat): Result<State> {
    var rewarded :- SeeBoth(st, self, from, to);
    Move(rewarded, from, to, amount)
  }

  function TransferFrom(st: State, self: Address, caller: Address, from: Address, to: Address, amount: nat)
    : Result<State>
  {
    var rewarded :- SeeBoth(st, self, from, to);
    var allowed :- SpendAllowance(rewarded, from, caller, amount);
    Move(allowed, from, to, amount)
  }

  function SetDuration(st: State, duration: nat): Result<State> {
    if st.accrual.finishAt >= st.now then Revert(PeriodNotFinished)
    else if duration == 0 then Revert(ValueZero)
    else Ok(st.(accrual := st.accrual.(duration := duration)))
  }

  /** The rewards of the running period still to accrue. */
  function Remaining(st: State): nat {
    if st.now >= st.accrual.finishAt then 0 else (st.accrual.finishAt - st.now) * st.accrual.rewardRate
  }

  function Notify(st: State, amount: nat): Result<State> {
    var updated :- Update(st, 0);
    var remaining :- Checked(Remaining(updated));
    var total :- Checked(amount + remaining);
    var rate :- Divide(total, updated.accrual.duration);
    if rate == 0 then Revert(RewardRateZero)
    else
      var scheduled :- Checked(rate * updated.accrual.duration);
      if scheduled > updated.funds then Revert(RewardExceedsBalance)
      else
        var finish :- Checked(updated.now + updated.accrual.duration);
        Ok(updated.(accrual := updated.accrual.(rewardRate := rate, finishAt := finish, updatedAt := updated.now),
                    ledger := updated.ledger.(notified := updated.ledger.notified + amount)))
  }
}
