/** Every run of the vault: shares equal tokens staked, and rewards stay within what was notified;
    when they also stay within what the vault holds. */
module VaultRuns {
  import opened Evm
  import opened Storage
  import opened Sums
  import opened DlpVaults
  import opened VaultAccounts

  /** The calls anyone or the keeper can make, and what happens around the vault: time passes,
      vault tokens are locked, unlocked or sent, reward tokens come in or are taken out. */
  datatype Action =
    | Deposit(amount: Uint256, receiver: Address)
    | Withdraw(request: Request)
    | ProcessQueue(limit: Uint256)
    | Approve(owner: Address, spender: Address, allowance: Uint256)
    | Transfer(from: Address, to: Address, amount: Uint256)
    | TransferFrom(caller: Address, from: Address, to: Address, amount: Uint256)
    | GetReward(account: Address)
    | SetDuration(duration: Uint256)
    | Notify(amount: Uint256)
    | SetCap(cap: Uint256)
    | Advance(seconds: nat)
    | MoveCash(cash: nat)
    | FundsIn(funds: Uint256)
    | FundsOut

  function Apply(st: State, self: Address, a: Action): Result<State> {
    match a
    case Deposit(amount, receiver) => DlpVaults.Deposit(st, self, amount, receiver)
    case Withdraw(request) =>
      var done :- DlpVaults.Withdraw(st, self, request);
      Ok(done.0)
    case ProcessQueue(limit) => DlpVaults.ProcessQueue(st, self, limit)
    case Transfer(from, to, amount) => DlpVaults.Transfer(st, self, from, to, amount)
    case TransferFrom(caller, from, to, amount) => DlpVaults.TransferFrom(st, self, caller, from, to, amount)
    case GetReward(account) => DlpVaults.GetReward(st, self, account)
    case Notify(amount) => DlpVaults.Notify(st, amount)
    case _ => Around(st, a)
  }

  /** Allowances and settings, and what happens around the vault. A token's supply never leaves the
      word. */
  function Around(st: State, a: Action): Result<State> {
    match a
    case Approve(owner, spender, allowance) => DlpVaults.Approve(st, owner, spender, allowance)
    case SetDuration(duration) => DlpVaults.SetDuration(st, duration)
    case SetCap(cap) => Ok(st.(vaultCap := cap))
    case Advance(seconds) => Ok(st.(now := st.now + seconds))
    case MoveCash(cash) => Ok(st.(cash := cash))
    case FundsIn(funds) =>
      var held :- Checked(st.funds + funds);
      Ok(st.(funds := held))
    case FundsOut => Ok(st.(funds := 0))
    case _ => Ok(st)
  }

  /** A reverted action changes nothing. */
  function Next(st: State, self: Address, a: Action): State {
    match Apply(st, self, a)
    case Ok(next) => next
    case Revert(_) => st
  }

  function Run(st: State, self: Address, actions: seq<Action>): State
    decreases |actions|
  {
    if actions == [] then st else Run(Next(st, self, actions[0]), self, actions[1..])
  }

  // ----- rewards against what was notified

  /** What is owed, what will accrue and what was paid stay within what was notified; and no single
      share can have earned more than that. */
  ghost predicate Covered(st: State) {
    && Committed(st) + SCALE * st.ledger.rewardsPaid <= SCALE * st.ledger.notified
    && PerShare(st) <= SCALE * st.ledger.notified
  }

  lemma QuotientFits(total: nat, duration: nat)
    requires duration > 0
    ensures total / duration * duration <= total
  {
  }

  lemma NotifyFields(st: State, amount: nat)
    requires Sound(st) && DlpVaults.Notify(st, amount).Ok?
    ensures st.accrual.duration > 0 && Accrue(st).Ok?
    ensures DlpVaults.Notify(st, amount).value
            == Accrue(st).value.(
                 accrual := Accrue(st).value.accrual.(
                   rewardRate := (amount + Remaining(st)) / st.accrual.duration,
                   finishAt := st.now + st.accrual.duration, updatedAt := st.now),
                 ledger := st.ledger.(notified := st.ledger.notified + amount))
  {
  }

  lemma RemainingScheduled(st: State)
    requires Sound(st) && Accrue(st).Ok?
    ensures Remaining(st) <= Scheduled(Accrue(st).value)
  {
    var updated := Accrue(st).value;
    LessLeft(st.accrual.rewardRate, 0, updated.accrual.finishAt - updated.accrual.updatedAt);
  }

  /** A notification promises what is left of the period before it and the new amount, or less. */
  lemma NotifyCommits(st: State, amount: nat)
    requires Sound(st) && DlpVaults.Notify(st, amount).Ok?
    ensures st.accrual.duration > 0 && Accrue(st).Ok?
    ensures var next := DlpVaults.Notify(st, amount).value;
            && Sound(next)
            && Due(next) == Due(Accrue(st).value)
            && next.accrual.rewardPerTokenStored == Accrue(st).value.accrual.rewardPerTokenStored
            && Scheduled(next) == (amount + Remaining(st)) / st.accrual.duration * st.accrual.duration
            && Remaining(st) <= Scheduled(Accrue(st).value)
            && next.ledger == st.ledger.(notified := st.ledger.notified + amount)
            && next.funds == st.funds
  {
    AccrueKeeps(st);
    NotifyFields(st, amount);
    SameDue(Accrue(st).value, DlpVaults.Notify(st, amount).value);
    RemainingScheduled(st);
  }

  predicate IsSetting(a: Action) {
    a.SetDuration? || a.SetCap? || a.Advance? || a.MoveCash? || a.FundsIn? || a.FundsOut? || a.Approve?
  }

  /** The fields no account depends on. */
  lemma OutsideKeeps(st: State, next: State)
    requires Sound(st) && next.now >= st.now
    requires next == st.(now := next.now, cash := next.cash, funds := next.funds, vaultCap := next.vaultCap,
                         accrual := st.accrual.(duration := next.accrual.duration), allowances := next.allowances)
    ensures Sound(next) && Committed(next) == Committed(st)
  {
    SameDue(st, next);
  }

  lemma AroundFields(st: State, a: Action)
    requires IsSetting(a) && Around(st, a).Ok?
    ensures var next := Around(st, a).value;
            && next.now >= st.now && (!a.FundsOut? ==> next.funds >= st.funds)
            && next == st.(now := next.now, cash := next.cash, funds := next.funds, vaultCap := next.vaultCap,
                           accrual := st.accrual.(duration := next.accrual.duration), allowances := next.allowances)
  {
  }

  lemma SettingFields(st: State, self: Address, a: Action)
    requires IsSetting(a)
    ensures var next := Next(st, self, a);
            && next.now >= st.now && (!a.FundsOut? ==> next.funds >= st.funds)
            && next == st.(now := next.now, cash := next.cash, funds := next.funds, vaultCap := next.vaultCap,
                           accrual := st.accrual.(duration := next.accrual.duration), allowances := next.allowances)
  {
    assert Apply(st, self, a) == Around(st, a);
    if Around(st, a).Ok? {
      AroundFields(st, a);
    }
  }

  /** No promise is made, and rewards leave the vault only as they are paid or taken out. */
  ghost predicate Holds(st: State, a: Action, next: State) {
    && Sound(next)
    && Committed(next) + SCALE * next.ledger.rewardsPaid <= Committed(st) + SCALE * st.ledger.rewardsPaid
    && PerShare(next) <= PerShare(st)
    && next.ledger.notified == st.ledger.notified
    && (!a.FundsOut? ==> next.funds + next.ledger.rewardsPaid >= st.funds + st.ledger.rewardsPaid)
  }

  lemma SettingsKeep(st: State, self: Address, a: Action)
    requires Sound(st) && IsSetting(a)
    ensures Holds(st, a, Next(st, self, a))
  {
    SettingFields(st, self, a);
    OutsideKeeps(st, Next(st, self, a));
  }

  lemma OthersKeep(st: State, self: Address, a: Action)
    requires Sound(st) && !a.Notify? && Apply(st, self, a).Ok?
    ensures Holds(st, a, Apply(st, self, a).value)
  {
    if IsSetting(a) {
      SettingsKeep(st, self, a);
    }
    match a
    case Deposit(amount, receiver) => DepositKeeps(st, self, amount, receiver, Apply(st, self, a).value);
    case Withdraw(request) => WithdrawKeeps(st, self, request);
    case ProcessQueue(limit) => ProcessKeeps(st, self, limit);
    case Transfer(from, to, amount) => TransferKeeps(st, self, from, to, amount);
    case TransferFrom(caller, from, to, amount) => TransferFromKeeps(st, self, caller, from, to, amount);
    case GetReward(account) => GetRewardKeeps(st, self, account);
    case _ =>
  }

  lemma NotifyCovered(st: State, amount: nat)
    requires Sound(st) && Covered(st) && DlpVaults.Notify(st, amount).Ok?
    ensures Sound(DlpVaults.Notify(st, amount).value) && Covered(DlpVaults.Notify(st, amount).value)
  {
    AccrueKeeps(st);
    NotifyCommits(st, amount);
    QuotientFits(amount + Remaining(st), st.accrual.duration);
  }

  lemma StepKeeps(st: State, self: Address, a: Action)
    requires Sound(st) && Covered(st)
    ensures Sound(Next(st, self, a)) && Covered(Next(st, self, a))
  {
    if Apply(st, self, a).Ok? {
      if a.Notify? {
        NotifyCovered(st, a.amount);
      } else {
        OthersKeep(st, self, a);
      }
    }
  }

  lemma {:induction false} RunKeeps(st: State, self: Address, actions: seq<Action>)
    requires Sound(st) && Covered(st)
    ensures Sound(Run(st, self, actions)) && Covered(Run(st, self, actions))
    decreases |actions|
  {
    if actions != [] {
      StepKeeps(st, self, actions[0]);
      RunKeeps(Next(st, self, actions[0]), self, actions[1..]);
    }
  }

  lemma {:induction false} AllZero(s: seq<int>)
    requires forall i :: 0 <= i < |s| ==> s[i] == 0
    ensures Sum(s) == 0
  {
    if s != [] {
      AllZero(s[..|s| - 1]);
    }
  }

  lemma StartSound(now: nat)
    ensures Sound(Start(now)) && Covered(Start(now))
  {
    AllZero(Amounts(Start(now).shares.balances));
    AllZero(Dues(Start(now)));
  }

  /** What `earned` answers for an address. */
  ghost function Answer(st: State, a: Address): nat {
    match Earned(st, a)
    case Ok(n) => n
    case Revert(_) => 0
  }

  ghost function Answers(st: State): (s: seq<int>)
    ensures |s| == UINT160_LIMIT && forall a: Address :: s[a] == Answer(st, a)
  {
    seq(UINT160_LIMIT, a requires 0 <= a < UINT160_LIMIT => Answer(st, a))
  }

  /** The answer is what the account would have stored if it were seen now, rounded down. */
  lemma AnswerWithinDue(st: State, a: Address)
    requires Sound(st) && Accrue(st).Ok?
    ensures 0 <= SCALE * Answer(st, a) <= DueTo(Accrue(st).value, a)
  {
    GainIsReleased(st);
    StoringRoundsDown(Read(st.shares.balances, a),
                      Accrue(st).value.accrual.rewardPerTokenStored - Read(st.accrual.userPaid, a),
                      Read(st.accrual.rewards, a));
  }

  lemma AnswersWithinDue(st: State)
    requires Sound(st) && Accrue(st).Ok?
    ensures SCALE * Sum(Answers(st)) <= Due(Accrue(st).value)
  {
    var accrued := Accrue(st).value;
    forall a: Address
      ensures 0 <= SCALE * Answer(st, a) <= DueTo(accrued, a)
    {
      AnswerWithinDue(st, a);
    }
    var scaled := seq(UINT160_LIMIT, a requires 0 <= a < UINT160_LIMIT => SCALE * Answer(st, a));
    var none := seq(UINT160_LIMIT, _ => 0);
    AllZero(none);
    SumAffine(none, scaled, Answers(st), SCALE);
    SumAtMost(scaled, Dues(accrued));
  }

  lemma ScheduledNotNegative(st: State)
    requires Sound(st)
    ensures Scheduled(st) >= 0
  {
  }

  lemma DueNotNegative(st: State)
    requires Sound(st)
    ensures forall a: Address :: DueTo(st, a) >= SCALE * Read(st.accrual.rewards, a) >= 0
    ensures forall a: Address :: DueTo(st, a) <= Due(st)
    ensures Due(st) >= 0
  {
    forall a: Address
      ensures DueTo(st, a) >= SCALE * Read(st.accrual.rewards, a) >= 0
    {
      StoringRoundsDown(Read(st.shares.balances, a), st.accrual.rewardPerTokenStored - Read(st.accrual.userPaid, a),
                        Read(st.accrual.rewards, a));
    }
    forall a: Address
      ensures DueTo(st, a) <= Due(st)
    {
      PartAtMost(Dues(st), a);
    }
    NotNegative(Dues(st));
  }

  /** Over every run shares equal the tokens staked, and all that `earned` answers together with
      all that was paid is at most what was notified. */
  lemma RewardsWithinNotified(now: nat, self: Address, actions: seq<Action>)
    ensures var st := Run(Start(now), self, actions);
            && st.shares.amountStaked == st.shares.totalSupply == Total(st.shares.balances)
            && Sum(Answers(st)) + st.ledger.rewardsPaid <= st.ledger.notified
  {
    var st := Run(Start(now), self, actions);
    StartSound(now);
    RunKeeps(Start(now), self, actions);
    if Accrue(st).Ok? {
      AnswersWithinDue(st);
      AccrueKeeps(st);
      ScheduledNotNegative(Accrue(st).value);
    } else {
      AllZero(Answers(st));
      DueNotNegative(st);
      ScheduledNotNegative(st);
    }
  }

  // ----- when the reward arithmetic fits in the word

  lemma FactorFits(rate: nat, seconds: nat, left: nat, limit: nat)
    requires SCALE * (rate * (seconds + left)) < limit
    ensures rate * seconds * SCALE < limit && rate * seconds < limit
  {
    LessLeft(rate, seconds, left);
  }

  lemma GainFits(rate: nat, seconds: nat, left: nat, supply: nat, perToken: nat, limit: nat)
    requires supply > 0 && perToken + SCALE * (rate * (seconds + left)) < limit
    ensures rate * seconds < limit && rate * seconds * SCALE < limit
    ensures perToken + rate * seconds * SCALE / supply < limit
  {
    FactorFits(rate, seconds, left, limit);
    ReleasedArithmetic(rate, seconds, left, supply);
    OneShareAtMost(rate * seconds * SCALE / supply, supply);
    Distribute(rate, left, seconds);
    LessLeft(rate, 0, left);
  }

  lemma SmallAccrues(st: State)
    requires Sound(st) && Covered(st) && SCALE * st.ledger.notified < UINT256_LIMIT
    ensures Accrue(st).Ok?
  {
    if st.shares.totalSupply > 0 {
      var seconds, left := LastTime(st) - st.accrual.updatedAt, st.accrual.finishAt - LastTime(st);
      GainFits(st.accrual.rewardRate, seconds, left, st.shares.totalSupply, st.accrual.rewardPerTokenStored,
               UINT256_LIMIT);
    }
  }

  /** While all that was ever notified is below 2^256 over 10^18, the arithmetic of no reward ever
      leaves the word. */
  lemma SmallNeverOverflows(st: State, a: Address)
    requires Sound(st) && Covered(st) && SCALE * st.ledger.notified < UINT256_LIMIT
    ensures Accrue(st).Ok? && Earned(st, a).Ok?
  {
    SmallAccrues(st);
    AccrueKeeps(st);
    var accrued := Accrue(st).value;
    DueNotNegative(accrued);
    ScheduledNotNegative(accrued);
    assert DueTo(accrued, a) < UINT256_LIMIT;
    StoringRoundsDown(Read(st.shares.balances, a), accrued.accrual.rewardPerTokenStored - Read(st.accrual.userPaid, a),
                      Read(st.accrual.rewards, a));
  }
}
