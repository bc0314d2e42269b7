/** Whose shares and which tokens a call of the vault moves, and when it is accepted. */
module VaultCalls {
  import opened Evm
  import opened Storage
  import opened DlpVaults
  import opened VaultAccounts
  import opened VaultRuns
  import opened VaultClaims
  import opened VaultQueue

  // ----- deposits

  /** The requests in `made` were served, out of the cash and the shares. */
  ghost predicate Settled(st: State, self: Address, made: seq<Settlement>, next: State) {
    && next.line.settled == st.line.settled + made
    && next.cash == st.cash - PaidAway(made, self)
    && forall a: Address :: Read(next.shares.balances, a) == Read(st.shares.balances, a) - PaidFor(made, a)
  }

  /** And then `amount` shares were made for `receiver`. */
  ghost predicate Deposited(st: State, self: Address, amount: nat, receiver: Address, made: seq<Settlement>,
                            next: State)
  {
    && next.line.settled == st.line.settled + made
    && next.cash == st.cash + amount - PaidAway(made, self)
    && forall a: Address ::
         Read(next.shares.balances, a)
         == Read(st.shares.balances, a) - PaidFor(made, a) + if a == receiver then amount else 0
  }

  /** A pass with the limit of a deposit does not leave the word. */
  ghost predicate QueueFits(line: Line) {
    line.index == |line.queue| || line.index + 30 < UINT256_LIMIT
  }

  lemma ServeAccounts(st: State, self: Address) returns (made: seq<Settlement>)
    requires Sound(st) && st.line.index <= |st.line.queue| && Accrue(st).Ok?
    ensures ServeQueue(st, self).Ok? <==> QueueFits(st.line)
    ensures QueueFits(st.line) ==>
              var served := ServeQueue(st, self).value;
              && Settled(st, self, made, served)
              && served.shares.totalSupply == served.shares.amountStaked <= st.shares.amountStaked
  {
    made := [];
    if st.line.index < |st.line.queue| {
      ProcessKeeps(st, self, MAX_QUEUE_PROCESS_LIMIT);
      made := ProcessServes(st, self, MAX_QUEUE_PROCESS_LIMIT);
    }
  }

  lemma AcceptAccounts(st: State, served: State, self: Address, amount: nat, receiver: Address,
                       made: seq<Settlement>)
    requires Sound(st) && receiver != 0 && amount + st.shares.amountStaked <= st.vaultCap
    requires served.shares.totalSupply == served.shares.amountStaked <= st.shares.amountStaked
    requires Settled(st.(cash := st.cash + amount), self, made, served)
    ensures Accept(st, Ok(served), amount, receiver).Ok?
    ensures Deposited(st, self, amount, receiver, made, Accept(st, Ok(served), amount, receiver).value)
  {
  }

  /** `updated` is `st` with the rewards of some account brought up to date, if their arithmetic fits. */
  ghost predicate OnlyAccrued(st: State, updated: Result<State>) {
    updated.Ok? ==>
      && Sound(updated.value) && Accrue(updated.value).Ok?
      && updated.value == st.(accrual := updated.value.accrual)
  }

  lemma AcceptCases(st: State, funded: State, served: Result<State>, self: Address, amount: nat, receiver: Address,
                    made: seq<Settlement>, r: Result<State>)
    requires Sound(st) && receiver != 0 && r == Accept(st, served, amount, receiver)
    requires funded == st.(cash := st.cash + amount) && Serving(funded, self, made, served)
    ensures r.Ok? <==> amount + st.shares.amountStaked <= st.vaultCap && served.Ok?
    ensures r.Ok? ==> Deposited(st, self, amount, receiver, made, r.value)
  {
    if amount + st.shares.amountStaked <= st.vaultCap && served.Ok? {
      AcceptAccounts(st, served.value, self, amount, receiver, made);
    }
  }

  /** What serving the queue of `st` came to. */
  ghost predicate Serving(st: State, self: Address, made: seq<Settlement>, served: Result<State>) {
    && (served.Ok? <==> QueueFits(st.line))
    && (served.Ok? ==>
          && Settled(st, self, made, served.value)
          && served.value.shares.totalSupply == served.value.shares.amountStaked <= st.shares.amountStaked)
  }

  lemma FundedAccounts(st: State, funded: State, self: Address, amount: nat) returns (made: seq<Settlement>)
    requires Sound(st) && st.line.index <= |st.line.queue| && Accrue(st).Ok?
    requires funded == st.(cash := st.cash + amount)
    ensures Serving(funded, self, made, ServeQueue(funded, self))
  {
    OtherFieldsKeep(st, funded);
    made := ServeAccounts(funded, self);
  }

  lemma FundedDeposit(st: State, funded: State, self: Address, amount: nat, receiver: Address, r: Result<State>)
    returns (made: seq<Settlement>)
    requires Sound(st) && st.line.index <= |st.line.queue| && receiver != 0 && Accrue(st).Ok?
    requires funded == st.(cash := st.cash + amount)
    requires r == Accept(st, ServeQueue(funded, self), amount, receiver)
    ensures r.Ok? <==> amount + st.shares.amountStaked <= st.vaultCap && QueueFits(st.line)
    ensures r.Ok? ==> Deposited(st, self, amount, receiver, made, r.value)
  {
    made := FundedAccounts(st, funded, self, amount);
    AcceptCases(st, funded, ServeQueue(funded, self), self, amount, receiver, made, r);
  }

  lemma AcceptServedAccounts(st: State, self: Address, amount: nat, receiver: Address, r: Result<State>)
    returns (made: seq<Settlement>)
    requires Sound(st) && st.line.index <= |st.line.queue| && receiver != 0 && Accrue(st).Ok?
    requires r == AcceptServed(Ok(st), self, amount, receiver)
    ensures r.Ok? <==> amount + st.shares.amountStaked <= st.vaultCap && QueueFits(st.line)
    ensures r.Ok? ==> Deposited(st, self, amount, receiver, made, r.value)
  {
    made := FundedDeposit(st, st.(cash := st.cash + amount), self, amount, receiver, r);
  }

  lemma UpdatedDepositAccounts(st: State, updated: Result<State>, self: Address, amount: nat, receiver: Address,
                               r: Result<State>)
    returns (made: seq<Settlement>)
    requires st.line.index <= |st.line.queue| && receiver != 0 && OnlyAccrued(st, updated)
    requires r == AcceptServed(updated, self, amount, receiver)
    ensures r.Ok? <==> updated.Ok? && amount + st.shares.amountStaked <= st.vaultCap && QueueFits(st.line)
    ensures r.Ok? ==> Deposited(st, self, amount, receiver, made, r.value)
  {
    made := [];
    if updated.Ok? {
      made := AcceptServedAccounts(updated.value, self, amount, receiver, r);
    }
  }

  lemma UpdateOnlyAccrues(st: State, a: Address)
    requires Sound(st) && a != 0
    ensures OnlyAccrued(st, Update(st, a)) && (Update(st, a).Ok? <==> Earned(st, a).Ok?)
  {
    UpdateFits(st, a);
    if Update(st, a).Ok? {
      UpdateKeeps(st, a);
      NothingNew(Update(st, a).value);
    }
  }

  /** A deposit is accepted exactly for a receiver other than zero, within the cap, and with arithmetic
      that fits; it gives its receiver one share for each token, after the queue was served. */
  lemma DepositAccounts(st: State, self: Address, amount: nat, receiver: Address, r: Result<State>)
    returns (made: seq<Settlement>)
    requires Sound(st) && st.line.index <= |st.line.queue| && r == DlpVaults.Deposit(st, self, amount, receiver)
    ensures r.Ok? <==>
              && receiver != 0 && Earned(st, receiver).Ok? && QueueFits(st.line)
              && amount + st.shares.amountStaked <= st.vaultCap
    ensures r.Ok? ==> Deposited(st, self, amount, receiver, made, r.value)
  {
    made := [];
    if receiver == 0 {
      MintsNoZero(st, self, amount);
    } else {
      UpdateOnlyAccrues(st, receiver);
      made := UpdatedDepositAccounts(st, Update(st, receiver), self, amount, receiver, r);
    }
  }

  lemma MintsNoZero(st: State, self: Address, amount: nat)
    ensures DlpVaults.Deposit(st, self, amount, 0).Revert?
  {
  }

  // ----- withdrawals and transfers

  /** Paid at once, a withdrawal takes its owner's shares and as many tokens; no other shares change. */
  lemma PaidAccounts(st: State, self: Address, request: Request)
    requires Sound(st) && st.line.index == |st.line.queue| && request.assets <= st.cash
    requires request.assets <= Read(st.shares.balances, request.owner)
    ensures var r := PayOrQueue(st, self, request);
            && r.Ok?
            && r.value.0.cash == st.cash - (if request.receiver == self then 0 else request.assets)
            && forall a: Address ::
                 Read(r.value.0.shares.balances, a)
                 == Read(st.shares.balances, a) - if a == request.owner then request.assets else 0
  {
    BurnKeeps(st, request.owner, request.assets);
  }

  lemma MoveAccounts(st: State, from: Address, to: Address, amount: nat)
    ensures var r := Move(st, from, to, amount);
            && (r.Ok? <==> from != 0 && to != 0 && amount <= Read(st.shares.balances, from))
            && (r.Ok? ==>
                  forall a: Address ::
                    Read(r.value.shares.balances, a)
                    == Read(st.shares.balances, a) - (if a == from then amount else 0) + if a == to then amount else 0)
  {
  }

  /** A transfer takes from one account what it gives the other; with solvent rewards it is accepted
      exactly between accounts other than zero, within the balance, and with arithmetic that fits. */
  lemma TransferAccounts(st: State, self: Address, from: Address, to: Address, amount: nat)
    requires Sound(st) && Solvent(st)
    ensures var r := DlpVaults.Transfer(st, self, from, to, amount);
            && (r.Ok? <==> from != 0 && to != 0 && amount <= Read(st.shares.balances, from)
                           && Earned(st, from).Ok? && Earned(st, to).Ok?)
            && (r.Ok? ==>
                  forall a: Address ::
                    Read(r.value.shares.balances, a)
                    == Read(st.shares.balances, a) - (if a == from then amount else 0) + if a == to then amount else 0)
  {
    SeeBothFields(st, self, from, to);
    if from != 0 && to != 0 {
      SeeBothFits(st, self, from, to);
    }
    if SeeBoth(st, self, from, to).Ok? {
      MoveAccounts(SeeBoth(st, self, from, to).value, from, to, amount);
    }
  }

  lemma UpdateSolvent(st: State, a: Address)
    requires Sound(st) && Solvent(st) && Update(st, a).Ok?
    ensures Sound(Update(st, a).value) && Solvent(Update(st, a).value)
  {
    UpdateKeeps(st, a);
  }

  lemma UpdateLeavesOthers(st: State, a: Address, b: Address)
    requires Sound(st) && Update(st, a).Ok? && b != a
    ensures Earned(Update(st, a).value, b) == Earned(st, b)
  {
    AccrueKeeps(st);
    EarnedAgain(st, b);
    if a != 0 {
      UpdateKeeps(st, a);
      SeeAt(Accrue(st).value, a);
      SameEarned(Accrue(st).value, Update(st, a).value, b);
    }
  }

  lemma SeeBothFits(st: State, self: Address, from: Address, to: Address)
    requires Sound(st) && Solvent(st) && from != 0 && to != 0
    ensures SeeBoth(st, self, from, to).Ok? <==> Earned(st, from).Ok? && Earned(st, to).Ok?
  {
    UpdateFits(st, to);
    if Update(st, to).Ok? {
      var updated := Update(st, to).value;
      UpdateSolvent(st, to);
      SolventPays(updated, self, from);
      UpdateKeeps(st, to);
      if from == to {
        SeenEarned(updated, to);
      } else {
        UpdateLeavesOthers(st, to, from);
      }
    }
  }

  // ----- allowances

  ghost predicate MaySpend(st: State, owner: Address, spender: Address, amount: nat) {
    Allowance(st, owner, spender) == UNLIMITED
    || (amount <= Allowance(st, owner, spender) && owner != 0 && spender != 0)
  }

  lemma SpendAccepted(st: State, request: Request)
    ensures SpendForOwner(st, request).Ok?
            <==> request.caller == request.owner || MaySpend(st, request.owner, request.caller, request.assets)
  {
  }

  lemma PayOrQueueAccepted(st: State, self: Address, request: Request)
    requires Sound(st) && Accrue(st).Ok? && request.assets <= Read(st.shares.balances, request.owner)
    ensures PayOrQueue(st, self, request).Ok?
            <==> st.line.index < UINT256_LIMIT || (st.line.index == |st.line.queue| && request.assets <= st.cash)
  {
    if st.line.index == |st.line.queue| && request.assets <= st.cash {
      BurnKeeps(st, request.owner, request.assets);
    } else {
      OtherFieldsKeep(st, Enqueue(st, request));
      ProcessKeeps(Enqueue(st, request), self, 0);
    }
  }

  lemma RewardedForWithdrawal(st: State, self: Address, owner: Address)
    requires Sound(st) && Solvent(st) && owner != 0 && Update(st, owner).Ok?
    ensures var got := DlpVaults.GetReward(Update(st, owner).value, self, owner);
            && got.Ok? && Sound(got.value) && Accrue(got.value).Ok?
            && got.value.line == st.line && got.value.cash == st.cash && got.value.shares.balances == st.shares.balances
            && got.value.allowances == st.allowances
  {
    var updated := Update(st, owner).value;
    UpdateFields(st, owner);
    UpdateFits(st, owner);
    UpdateKeeps(st, owner);
    UpdateSolvent(st, owner);
    SeenEarned(updated, owner);
    SolventPays(updated, self, owner);
    GetRewardKeeps(updated, self, owner);
    GetRewardFields(updated, self, owner);
    NothingNew(DlpVaults.GetReward(updated, self, owner).value);
  }

  lemma SpendAndPayAccepted(st: State, self: Address, request: Request)
    requires Sound(st) && Accrue(st).Ok? && request.assets <= Read(st.shares.balances, request.owner)
    ensures SpendAndPay(Ok(st), self, request).Ok?
            <==> && (request.caller == request.owner || MaySpend(st, request.owner, request.caller, request.assets))
                 && (st.line.index < UINT256_LIMIT
                     || (st.line.index == |st.line.queue| && request.assets <= st.cash))
  {
    SpendAccepted(st, request);
    if SpendForOwner(st, request).Ok? {
      SpendFields(st, request.owner, request.caller, request.assets);
      var spent := SpendForOwner(st, request).value;
      OtherFieldsKeep(st, spent);
      PayOrQueueAccepted(spent, self, request);
    }
  }

  /** While the vault is solvent, a withdrawal is accepted exactly on its documented terms, if the
      arithmetic fits. */
  lemma WithdrawAccepted(st: State, self: Address, request: Request)
    requires Sound(st) && Solvent(st)
    ensures DlpVaults.Withdraw(st, self, request).Ok?
            <==> && request.receiver != 0 && request.assets > 0
                 && request.assets <= Read(st.shares.balances, request.owner)
                 && Earned(st, request.owner).Ok?
                 && (request.caller == request.owner || MaySpend(st, request.owner, request.caller, request.assets))
                 && (st.line.index < UINT256_LIMIT
                     || (st.line.index == |st.line.queue| && request.assets <= st.cash))
  {
    if request.owner != 0 {
      UpdateFits(st, request.owner);
      UpdateFields(st, request.owner);
      if Update(st, request.owner).Ok? && request.assets <= Read(st.shares.balances, request.owner) {
        RewardedForWithdrawal(st, self, request.owner);
        SpendAndPayAccepted(DlpVaults.GetReward(Update(st, request.owner).value, self, request.owner).value, self,
                            request);
      }
    } else {
      UpdateFields(st, 0);
    }
  }

  /** What a spender took on an owner's behalf in one action. */
  ghost function SpentBy(st: State, self: Address, a: Action, owner: Address, spender: Address): nat {
    if Apply(st, self, a).Revert? then 0
    else
      match a
      case Withdraw(request) =>
        if request.owner == owner && request.caller == spender != owner then request.assets else 0
      case TransferFrom(caller, from, to, amount) => if from == owner && caller == spender then amount else 0
      case _ => 0
  }

  lemma SpendExact(st: State, owner: Address, spender: Address, amount: nat, o: Address, s: Address)
    requires SpendAllowance(st, owner, spender, amount).Ok?
    ensures Allowance(SpendAllowance(st, owner, spender, amount).value, o, s) == Left(st, owner, spender, amount, o, s)
  {
  }

  lemma {:induction false} SettleAllowances(st: State, self: Address, last: nat)
    requires last <= |st.line.queue|
    ensures Settle(st, self, last).Ok? ==> Settle(st, self, last).value.allowances == st.allowances
    decreases last - st.line.index
  {
    if st.line.index < last && st.line.queue[st.line.index].assets <= st.cash && SettleHead(st, self).Ok? {
      SettleAllowances(SettleHead(st, self).value, self, last);
    }
  }

  lemma ProcessAllowances(st: State, self: Address, limit: nat)
    requires DlpVaults.ProcessQueue(st, self, limit).Ok?
    ensures DlpVaults.ProcessQueue(st, self, limit).value.allowances == st.allowances
  {
    UpdateFields(st, 0);
    var updated := Update(st, 0).value;
    SettleAllowances(updated, self, LastIndex(updated.line, limit).value);
  }

  lemma DepositAllowances(st: State, self: Address, amount: nat, receiver: Address, next: State)
    requires DlpVaults.Deposit(st, self, amount, receiver) == Ok(next)
    ensures next.allowances == st.allowances
  {
    UpdateFields(st, receiver);
    var updated := Update(st, receiver).value;
    var funded := updated.(cash := updated.cash + amount);
    ServeAllowances(funded, self);
    AcceptAllowances(updated, ServeQueue(funded, self), amount, receiver);
  }

  lemma ServeAllowances(st: State, self: Address)
    ensures ServeQueue(st, self).Ok? ==> ServeQueue(st, self).value.allowances == st.allowances
  {
    if DlpVaults.ProcessQueue(st, self, MAX_QUEUE_PROCESS_LIMIT).Ok? {
      ProcessAllowances(st, self, MAX_QUEUE_PROCESS_LIMIT);
    }
  }

  lemma AcceptAllowances(st: State, served: Result<State>, amount: nat, receiver: Address)
    ensures Accept(st, served, amount, receiver).Ok? ==>
              served.Ok? && Accept(st, served, amount, receiver).value.allowances == served.value.allowances
  {
  }

  lemma PayOrQueueAllowances(st: State, self: Address, request: Request)
    requires PayOrQueue(st, self, request).Ok?
    ensures PayOrQueue(st, self, request).value.0.allowances == st.allowances
  {
    if !(request.assets <= st.cash && |st.line.queue| == st.line.index) {
      ProcessAllowances(Enqueue(st, request), self, 0);
    }
  }

  /** What is left of `o`'s allowance for `s` when `spender` has spent `amount` of `owner`'s. */
  ghost function Left(st: State, owner: Address, spender: Address, amount: nat, o: Address, s: Address): int {
    Allowance(st, o, s) - if o == owner && s == spender && Allowance(st, o, s) != UNLIMITED then amount else 0
  }

  lemma SpendAndPayAllowances(st: State, self: Address, request: Request, o: Address, s: Address, next: State)
    requires SpendAndPay(Ok(st), self, request).Ok? && SpendAndPay(Ok(st), self, request).value.0 == next
    ensures Allowance(next, o, s)
            == if request.caller == request.owner then Allowance(st, o, s)
               else Left(st, request.owner, request.caller, request.assets, o, s)
  {
    if request.caller != request.owner {
      SpendExact(st, request.owner, request.caller, request.assets, o, s);
    }
    PayOrQueueAllowances(SpendForOwner(st, request).value, self, request);
  }

  lemma WithdrawAllowances(st: State, self: Address, request: Request, o: Address, s: Address, next: State)
    requires DlpVaults.Withdraw(st, self, request).Ok? && DlpVaults.Withdraw(st, self, request).value.0 == next
    ensures Allowance(next, o, s)
            == if request.caller == request.owner then Allowance(st, o, s)
               else Left(st, request.owner, request.caller, request.assets, o, s)
  {
    UpdateFields(st, request.owner);
    var updated := Update(st, request.owner).value;
    GetRewardFields(updated, self, request.owner);
    SpendAndPayAllowances(DlpVaults.GetReward(updated, self, request.owner).value, self, request, o, s, next);
  }

  lemma MoveAllowances(st: State, from: Address, to: Address, amount: nat)
    ensures Move(st, from, to, amount).Ok? ==> Move(st, from, to, amount).value.allowances == st.allowances
  {
  }

  lemma TransferFromAllowances(st: State, self: Address, caller: Address, from: Address, to: Address, amount: nat,
                               o: Address, s: Address, next: State)
    requires DlpVaults.TransferFrom(st, self, caller, from, to, amount) == Ok(next)
    ensures Allowance(next, o, s) == Left(st, from, caller, amount, o, s)
  {
    SeeBothFields(st, self, from, to);
    var rewarded := SeeBoth(st, self, from, to).value;
    SpendExact(rewarded, from, caller, amount, o, s);
    MoveAllowances(SpendAllowance(rewarded, from, caller, amount).value, from, to, amount);
  }

  ghost predicate Approves(a: Action, owner: Address, spender: Address) {
    a.Approve? && a.owner == owner && a.spender == spender
  }

  lemma AroundAllowances(st: State, a: Action, o: Address, s: Address)
    requires IsSetting(a) && !Approves(a, o, s) && Around(st, a).Ok?
    ensures Allowance(Around(st, a).value, o, s) == Allowance(st, o, s)
  {
  }

  lemma RewardsLeaveAllowances(st: State, self: Address, a: Action)
    requires (a.Transfer? || a.GetReward? || a.Notify?) && Apply(st, self, a).Ok?
    ensures Apply(st, self, a).value.allowances == st.allowances
  {
    match a
    case Transfer(from, to, amount) => SeeBothFields(st, self, from, to);
    case GetReward(account) => GetRewardFields(st, self, account);
    case Notify(amount) => UpdateFields(st, 0);
  }

  lemma OthersLeaveAllowances(st: State, self: Address, a: Action, o: Address, s: Address)
    requires !a.Withdraw? && !a.TransferFrom? && !Approves(a, o, s) && Apply(st, self, a).Ok?
    ensures Allowance(Apply(st, self, a).value, o, s) == Allowance(st, o, s)
  {
    if IsSetting(a) {
      AroundAllowances(st, a, o, s);
    } else if a.Deposit? {
      DepositAllowances(st, self, a.amount, a.receiver, Apply(st, self, a).value);
    } else if a.ProcessQueue? {
      ProcessAllowances(st, self, a.limit);
    } else {
      RewardsLeaveAllowances(st, self, a);
    }
  }

  lemma StepSpends(st: State, self: Address, a: Action, owner: Address, spender: Address)
    requires !Approves(a, owner, spender) && Allowance(st, owner, spender) != UNLIMITED
    ensures Allowance(Next(st, self, a), owner, spender) + SpentBy(st, self, a, owner, spender)
            == Allowance(st, owner, spender)
  {
    if Apply(st, self, a).Ok? {
      var next := Apply(st, self, a).value;
      if a.Withdraw? {
        WithdrawAllowances(st, self, a.request, owner, spender, next);
      } else if a.TransferFrom? {
        TransferFromAllowances(st, self, a.caller, a.from, a.to, a.amount, owner, spender, next);
      } else {
        OthersLeaveAllowances(st, self, a, owner, spender);
      }
    }
  }

  /** What a spender took on an owner's behalf over a run. */
  ghost function SpentOver(st: State, self: Address, actions: seq<Action>, owner: Address, spender: Address): nat
    decreases |actions|
  {
    if actions == [] then 0
    else
      SpentBy(st, self, actions[0], owner, spender)
      + SpentOver(Next(st, self, actions[0]), self, actions[1..], owner, spender)
  }

  /** Over every run without another approval, what a spender took and what is left of the allowance
      are the allowance there was; so it never takes more. */
  lemma {:induction false} AllowanceBounds(st: State, self: Address, actions: seq<Action>, owner: Address,
                                           spender: Address)
    requires Allowance(st, owner, spender) < UNLIMITED
    requires forall i :: 0 <= i < |actions| ==> !Approves(actions[i], owner, spender)
    ensures SpentOver(st, self, actions, owner, spender) + Allowance(Run(st, self, actions), owner, spender)
            == Allowance(st, owner, spender)
    decreases |actions|
  {
    if actions != [] {
      StepSpends(st, self, actions[0], owner, spender);
      AllowanceBounds(Next(st, self, actions[0]), self, actions[1..], owner, spender);
    }
  }
}
