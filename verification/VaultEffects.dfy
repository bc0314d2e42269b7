/** What every call of the vault does, field by field, told without the functions it is made of. */
module VaultEffects {
  import opened Evm
  import opened Storage
  import opened DlpVaults
  import opened VaultAccounts
  import opened VaultRuns
  import opened VaultClaims
  import opened VaultQueue
  import opened VaultCalls

  // ----- rewards brought up to date

  /** The accounts in `seen` are stored what `earned` answered, those in `paid` are cleared; every share
      is credited up to now, and the period is as it was. */
  ghost predicate BroughtUp(st: State, next: Accrual, seen: set<Address>, paid: set<Address>) {
    && next.duration == st.accrual.duration && next.finishAt == st.accrual.finishAt
    && next.rewardRate == st.accrual.rewardRate
    && next.updatedAt == ClockNow(st) && next.rewardPerTokenStored == PerTokenNow(st)
    && (forall b: Address ::
          Read(next.userPaid, b) == if b in seen then PerTokenNow(st) else Read(st.accrual.userPaid, b))
    && (forall b: Address ::
          Read(next.rewards, b)
          == if b in paid then 0 else if b in seen then Answer(st, b) else Read(st.accrual.rewards, b))
  }

  /** The vault paid `a` what `earned` answered; a payment to itself leaves nothing less. */
  ghost predicate PaidTo(st: State, self: Address, a: Address, next: State) {
    && next.funds == st.funds - (if a == self then 0 else Answer(st, a))
    && next.ledger == st.ledger.(rewardsPaid := st.ledger.rewardsPaid + Answer(st, a))
  }

  /** At the same time, with every share credited: nothing is left to accrue. */
  ghost predicate Current(st: State, u: State) {
    && Sound(u) && u.accrual.updatedAt == ClockNow(u) == ClockNow(st)
    && PerTokenNow(u) == PerTokenNow(st)
  }

  lemma CurrentPerToken(st: State)
    requires Sound(st) && st.accrual.updatedAt == LastTime(st)
    ensures PerTokenNow(st) == st.accrual.rewardPerTokenStored
  {
    PerTokenExact(st);
    NothingNew(st);
  }

  lemma UpdateIsCurrent(st: State, a: Address, u: State)
    requires Sound(st) && Update(st, a) == Ok(u)
    ensures Current(st, u) && u == st.(accrual := u.accrual)
    ensures u.accrual.rewardPerTokenStored == PerTokenNow(st)
  {
    UpdateKeeps(st, a);
    PerTokenExact(st);
    SamePerToken(st, a, u);
    CurrentPerToken(u);
  }

  lemma SamePerToken(st: State, a: Address, u: State)
    requires Sound(st) && Update(st, a) == Ok(u)
    ensures RewardPerToken(st) == Ok(u.accrual.rewardPerTokenStored)
  {
  }

  lemma UpdateStores(st: State, a: Address, u: State)
    requires Sound(st) && Update(st, a) == Ok(u) && a != 0
    ensures Earned(st, a).Ok? && Read(u.accrual.rewards, a) == Answer(st, a) < UINT256_LIMIT
    ensures forall b: nat :: b != a ==> Read(u.accrual.userPaid, b) == Read(st.accrual.userPaid, b)
                                        && Read(u.accrual.rewards, b) == Read(st.accrual.rewards, b)
  {
    UpdateFits(st, a);
    AccrueKeeps(st);
    SeeAt(Accrue(st).value, a);
  }

  lemma UpdateEffect(st: State, a: Address, u: State)
    requires Sound(st) && Update(st, a) == Ok(u)
    ensures Current(st, u) && u == st.(accrual := u.accrual)
    ensures BroughtUp(st, u.accrual, {a} - {0}, {})
  {
    UpdateIsCurrent(st, a, u);
    UpdateKeeps(st, a);
    if a != 0 {
      UpdateStores(st, a, u);
    }
  }

  /** Bringing an account up to date changes no answer, its own included. */
  lemma UpdateKeepsAnswers(st: State, a: Address, u: State, b: Address)
    requires Sound(st) && Update(st, a) == Ok(u)
    ensures Earned(u, b) == Earned(st, b)
  {
    if b != a {
      UpdateLeavesOthers(st, a, b);
    } else if a == 0 {
      EarnedAgain(st, 0);
    } else {
      UpdateKeeps(st, a);
      UpdateStores(st, a, u);
      SeenEarned(u, a);
    }
  }

  /** Two steps at the same time are one. */
  lemma BothUp(st: State, u: State, next: Accrual, first: set<Address>, second: set<Address>, paid: set<Address>)
    requires BroughtUp(st, u.accrual, first, {}) && BroughtUp(u, next, second, paid) && paid <= second
    requires ClockNow(u) == ClockNow(st) && PerTokenNow(u) == PerTokenNow(st)
    requires forall b: Address :: Answer(u, b) == Answer(st, b)
    ensures BroughtUp(st, next, first + second, paid)
  {
  }

  // ----- rewards paid

  lemma PayStored(u: State, self: Address, a: Address, next: State)
    requires Sound(u) && PayReward(u, self, a) == Ok(next)
    ensures next == u.(accrual := next.accrual, funds := next.funds, ledger := next.ledger)
    ensures next.accrual == u.accrual.(rewards := next.accrual.rewards)
    ensures forall b: nat :: Read(next.accrual.rewards, b) == if b == a then 0 else Read(u.accrual.rewards, b)
    ensures next.funds == u.funds - (if a == self then 0 else Read(u.accrual.rewards, a))
    ensures next.ledger == u.ledger.(rewardsPaid := u.ledger.rewardsPaid + Read(u.accrual.rewards, a))
  {
  }

  lemma StoredAnswer(st: State, a: Address, u: State)
    requires Sound(st) && Update(st, a) == Ok(u)
    ensures Read(u.accrual.rewards, a) == Answer(st, a)
  {
    if a == 0 {
      UpdateKeeps(st, 0);
      NothingForZero(st);
    } else {
      UpdateStores(st, a, u);
    }
  }

  lemma GetRewardEffect(st: State, self: Address, a: Address, next: State)
    requires Sound(st) && DlpVaults.GetReward(st, self, a) == Ok(next)
    ensures Current(st, next) && next == st.(accrual := next.accrual, funds := next.funds, ledger := next.ledger)
    ensures BroughtUp(st, next.accrual, {a} - {0}, {a} - {0}) && PaidTo(st, self, a, next)
  {
    var u := Update(st, a).value;
    UpdateEffect(st, a, u);
    StoredAnswer(st, a, u);
    PayStored(u, self, a, next);
    PaidIsCurrent(st, u, self, a, next);
  }

  lemma PaidIsCurrent(st: State, u: State, self: Address, a: Address, next: State)
    requires Current(st, u) && PayReward(u, self, a) == Ok(next)
    ensures Current(st, next)
  {
    PayKeeps(u, self, a);
    CurrentPerToken(u);
    CurrentPerToken(next);
  }

  // ----- transfers

  lemma SeeBothEffect(st: State, self: Address, from: Address, to: Address, next: State)
    requires Sound(st) && SeeBoth(st, self, from, to) == Ok(next)
    ensures Current(st, next) && next == st.(accrual := next.accrual, funds := next.funds, ledger := next.ledger)
    ensures BroughtUp(st, next.accrual, {from, to} - {0}, {from} - {0}) && PaidTo(st, self, from, next)
  {
    var u := Update(st, to).value;
    UpdateEffect(st, to, u);
    forall b: Address
      ensures Answer(u, b) == Answer(st, b)
    {
      UpdateKeepsAnswers(st, to, u, b);
    }
    GetRewardEffect(u, self, from, next);
    BothUp(st, u, next.accrual, {to} - {0}, {from} - {0}, {from} - {0});
    assert ({to} - {0}) + ({from} - {0}) == {from, to} - {0};
  }

  lemma UpdateAccepted(st: State, a: Address)
    requires Sound(st)
    ensures Update(st, a).Ok? <==> Earned(st, a).Ok?
    ensures Update(st, a).Revert? ==> Update(st, a).error == ArithmeticPanic
  {
    if a != 0 {
      UpdateFits(st, a);
    } else if Accrue(st).Ok? {
      ZeroFits(st);
    }
    SubtractsFit(st, a);
    if Accrue(st).Ok? {
      AccrueKeeps(st);
      SubtractsFit(Accrue(st).value, a);
    }
  }

  lemma GetRewardAccepted(st: State, self: Address, a: Address)
    requires Sound(st) && Solvent(st)
    ensures DlpVaults.GetReward(st, self, a).Ok? <==> Earned(st, a).Ok?
    ensures DlpVaults.GetReward(st, self, a).Revert? ==> DlpVaults.GetReward(st, self, a).error == ArithmeticPanic
  {
    UpdateAccepted(st, a);
    SolventAnswers(st, a);
    if Update(st, a).Ok? {
      StoredAnswer(st, a, Update(st, a).value);
      UpdateKeeps(st, a);
    }
  }

  lemma SeeBothAccepted(st: State, self: Address, from: Address, to: Address)
    requires Sound(st) && Solvent(st)
    ensures SeeBoth(st, self, from, to).Ok? <==> Earned(st, to).Ok? && Earned(st, from).Ok?
    ensures SeeBoth(st, self, from, to).Revert? ==> SeeBoth(st, self, from, to).error == ArithmeticPanic
  {
    UpdateAccepted(st, to);
    if Update(st, to).Ok? {
      var u := Update(st, to).value;
      UpdateSolvent(st, to);
      UpdateKeepsAnswers(st, to, u, from);
      GetRewardAccepted(u, self, from);
    }
  }

  /** `amount` shares went from one account to the other, and no others. */
  ghost predicate SharesMoved(st: State, from: Address, to: Address, amount: nat, next: State) {
    && next.shares == st.shares.(balances := next.shares.balances)
    && forall a: Address ::
         Read(next.shares.balances, a)
         == Read(st.shares.balances, a) - (if a == from then amount else 0) + if a == to then amount else 0
  }

  lemma MoveEffect(st: State, from: Address, to: Address, amount: nat)
    ensures var r := Move(st, from, to, amount);
            match r
            case Ok(next) =>
              && from != 0 && to != 0 && amount <= Read(st.shares.balances, from)
              && next == st.(shares := next.shares) && SharesMoved(st, from, to, amount, next)
            case Revert(error) =>
              if from == 0 || to == 0 then error == AddressZero
              else error == InsufficientBalance && Read(st.shares.balances, from) < amount
  {
  }

  /** Everything a transfer changes: the shares, and the rewards of both accounts, of which the sender's
      are paid. */
  ghost predicate Transferred(st: State, self: Address, from: Address, to: Address, amount: nat, next: State) {
    && SharesMoved(st, from, to, amount, next)
    && BroughtUp(st, next.accrual, {from, to}, {from}) && PaidTo(st, self, from, next)
    && next == st.(shares := next.shares, accrual := next.accrual, funds := next.funds, ledger := next.ledger,
                   allowances := next.allowances)
  }

  /** `transfer`: when it is accepted, what it then does, and why it reverts otherwise. */
  lemma TransferExact(st: State, self: Address, from: Address, to: Address, amount: nat, r: Result<State>)
    requires Sound(st) && Solvent(st) && r == DlpVaults.Transfer(st, self, from, to, amount)
    ensures r.Ok? <==>
              && Earned(st, to).Ok? && Earned(st, from).Ok?
              && from != 0 && to != 0 && amount <= Read(st.shares.balances, from)
    ensures r.Ok? ==> Transferred(st, self, from, to, amount, r.value) && r.value.allowances == st.allowances
    ensures r.Revert? ==>
              r.error == if Earned(st, to).Revert? || Earned(st, from).Revert? then ArithmeticPanic
                         else if from == 0 || to == 0 then AddressZero
                         else InsufficientBalance
  {
    SeeBothAccepted(st, self, from, to);
    if SeeBoth(st, self, from, to).Ok? {
      var u := SeeBoth(st, self, from, to).value;
      SeeBothEffect(st, self, from, to, u);
      MoveEffect(u, from, to, amount);
    }
  }

  // ----- allowances

  /** The allowance of `spender` shrank by `amount`, unless it is unlimited, and no other changed. */
  ghost predicate AllowanceSpent(st: State, owner: Address, spender: Address, amount: nat, next: State) {
    forall o: Address, s: Address ::
      Allowance(next, o, s)
      == Allowance(st, o, s)
         - if o == owner && s == spender && Allowance(st, o, s) != UINT256_LIMIT - 1 then amount else 0
  }

  lemma SpendEffect(st: State, owner: Address, spender: Address, amount: nat)
    ensures var r := SpendAllowance(st, owner, spender, amount);
            match r
            case Ok(next) =>
              && next == st.(allowances := next.allowances) && AllowanceSpent(st, owner, spender, amount, next)
              && MaySpend(st, owner, spender, amount)
            case Revert(error) =>
              && !MaySpend(st, owner, spender, amount)
              && error == if Allowance(st, owner, spender) < amount then InsufficientAllowance else AddressZero
  {
  }

  /** `approve` sets one allowance, between accounts other than zero. */
  lemma ApproveExact(st: State, owner: Address, spender: Address, amount: nat, r: Result<State>)
    requires r == DlpVaults.Approve(st, owner, spender, amount)
    ensures r.Ok? <==> owner != 0 && spender != 0
    ensures r.Revert? ==> r.error == AddressZero
    ensures r.Ok? ==>
              && r.value == st.(allowances := r.value.allowances)
              && forall o: Address, s: Address ::
                   Allowance(r.value, o, s) == if o == owner && s == spender then amount else Allowance(st, o, s)
  {
  }

  /** What a transfer has done before any shares move. */
  ghost predicate RewardsDone(st: State, self: Address, from: Address, to: Address, u: State) {
    && BroughtUp(st, u.accrual, {from, to} - {0}, {from} - {0}) && PaidTo(st, self, from, u)
    && u == st.(accrual := u.accrual, funds := u.funds, ledger := u.ledger)
  }

  lemma SpentAndMoved(st: State, u: State, self: Address, caller: Address, from: Address, to: Address, amount: nat,
                      r: Result<State>)
    requires RewardsDone(st, self, from, to, u)
    requires r == match SpendAllowance(u, from, caller, amount)
                  case Ok(spent) => Move(spent, from, to, amount)
                  case Revert(error) => Revert(error)
    ensures r.Ok? <==>
              && MaySpend(st, from, caller, amount) && from != 0 && to != 0
              && amount <= Read(st.shares.balances, from)
    ensures r.Ok? ==>
              Transferred(st, self, from, to, amount, r.value) && AllowanceSpent(st, from, caller, amount, r.value)
    ensures r.Revert? ==>
              r.error == if !MaySpend(st, from, caller, amount) then
                           if Allowance(st, from, caller) < amount then InsufficientAllowance else AddressZero
                         else if from == 0 || to == 0 then AddressZero
                         else InsufficientBalance
  {
    SpendEffect(u, from, caller, amount);
    if SpendAllowance(u, from, caller, amount).Ok? {
      MoveEffect(SpendAllowance(u, from, caller, amount).value, from, to, amount);
    }
  }

  /** `transferFrom`: as `transfer`, and the caller's allowance is spent. */
  lemma TransferFromExact(st: State, self: Address, caller: Address, from: Address, to: Address, amount: nat,
                          r: Result<State>)
    requires Sound(st) && Solvent(st) && r == DlpVaults.TransferFrom(st, self, caller, from, to, amount)
    ensures r.Ok? <==>
              && Earned(st, to).Ok? && Earned(st, from).Ok? && MaySpend(st, from, caller, amount)
              && from != 0 && to != 0 && amount <= Read(st.shares.balances, from)
    ensures r.Ok? ==>
              Transferred(st, self, from, to, amount, r.value) && AllowanceSpent(st, from, caller, amount, r.value)
    ensures r.Revert? ==>
              r.error == if Earned(st, to).Revert? || Earned(st, from).Revert? then ArithmeticPanic
                         else if !MaySpend(st, from, caller, amount) then
                           if Allowance(st, from, caller) < amount then InsufficientAllowance else AddressZero
                         else if from == 0 || to == 0 then AddressZero
                         else InsufficientBalance
  {
    SeeBothAccepted(st, self, from, to);
    if SeeBoth(st, self, from, to).Ok? {
      SeeBothEffect(st, self, from, to, SeeBoth(st, self, from, to).value);
      SpentAndMoved(st, SeeBoth(st, self, from, to).value, self, caller, from, to, amount, r);
    }
  }

  // ----- the queue

  /** A pass over the queue with a limit, 0 for none: the requests in `made`, in order from the head, each
      within the cash and, if paid, out of its owner's shares; the rest waits. */
  ghost predicate Passed(st: State, self: Address, limit: nat, made: seq<Settlement>, next: State) {
    && Serves(st, self, made) && Stopped(st, limit, made, next)
    && next.line.index == st.line.index + |made| && |next.line.queue| == |st.line.queue|
    && next.line.queued == st.line.queued && next.line.settled == st.line.settled + made
    && (forall i :: 0 <= i < |st.line.queue| ==>
          next.line.queue[i]
          == if st.line.index <= i < st.line.index + |made| then Request(0, 0, 0, 0) else st.line.queue[i])
    && next.cash == st.cash - PaidAway(made, self)
  }

  lemma {:induction false} SettleOnly(st: State, self: Address, last: nat)
    requires last <= |st.line.queue|
    ensures var r := Settle(st, self, last);
            r.Ok? ==> r.value == st.(cash := r.value.cash, line := r.value.line, shares := r.value.shares)
    decreases last - st.line.index
  {
    if st.line.index < last && st.line.queue[st.line.index].assets <= st.cash && SettleHead(st, self).Ok? {
      SettleOnly(SettleHead(st, self).value, self, last);
    }
  }

  /** `processWithdrawalQueue`: when it is accepted and what it then does. */
  lemma ProcessExact(st: State, self: Address, limit: nat, r: Result<State>) returns (made: seq<Settlement>)
    requires Sound(st) && st.line.index <= |st.line.queue| && r == DlpVaults.ProcessQueue(st, self, limit)
    ensures r.Ok? <==> Earned(st, 0).Ok? && st.line.index + limit < UINT256_LIMIT
    ensures r.Revert? ==> r.error == ArithmeticPanic
    ensures r.Ok? ==>
              && Passed(st, self, limit, made, r.value)
              && BroughtUp(st, r.value.accrual, {}, {})
              && (forall a: Address ::
                    Read(r.value.shares.balances, a) == Read(st.shares.balances, a) - PaidFor(made, a))
              && r.value == st.(cash := r.value.cash, line := r.value.line, shares := r.value.shares,
                                accrual := r.value.accrual)
  {
    UpdateAccepted(st, 0);
    made := ProcessServes(st, self, limit);
    if r.Ok? {
      var u := Update(st, 0).value;
      UpdateEffect(st, 0, u);
      SettleOnly(u, self, LastIndex(u.line, limit).value);
    }
  }

  // ----- withdrawals

  /** The queue with the request at its end. */
  function Waiting(line: Line, request: Request): Line {
    Line(line.queue + [request], line.index, line.queued + [request], line.settled)
  }

  /** Paid at once: as many of the owner's shares as tokens of the vault, and no request is touched. */
  ghost predicate PaidAtOnce(st: State, self: Address, request: Request, next: State) {
    && next.line == st.line
    && next.cash == st.cash - (if request.receiver == self then 0 else request.assets)
    && next.shares.totalSupply == st.shares.totalSupply - request.assets
    && forall a: Address ::
         Read(next.shares.balances, a)
         == Read(st.shares.balances, a) - if a == request.owner then request.assets else 0
  }

  /** Put at the end of the queue, over which a pass without a limit then goes. */
  ghost predicate QueuedAndPassed(st: State, self: Address, request: Request, made: seq<Settlement>, next: State) {
    && Passed(st.(line := Waiting(st.line, request)), self, 0, made, next)
    && forall a: Address :: Read(next.shares.balances, a) == Read(st.shares.balances, a) - PaidFor(made, a)
  }

  lemma PayOrQueueEffect(st: State, self: Address, request: Request, next: State, paid: nat)
    returns (made: seq<Settlement>)
    requires Sound(st) && st.accrual.updatedAt == LastTime(st) && st.line.index <= |st.line.queue|
    requires PayOrQueue(st, self, request) == Ok((next, paid))
    ensures next == st.(cash := next.cash, line := next.line, shares := next.shares)
    ensures if st.line.index == |st.line.queue| && request.assets <= st.cash
            then paid == request.assets && PaidAtOnce(st, self, request, next)
            else paid == 0 && QueuedAndPassed(st, self, request, made, next)
  {
    made := [];
    if st.line.index == |st.line.queue| && request.assets <= st.cash {
      BurnKeeps(st, request.owner, request.assets);
    } else {
      var waiting := Enqueue(st, request);
      OtherFieldsKeep(st, waiting);
      NothingNew(waiting);
      made := ProcessExact(waiting, self, 0, Ok(next));
      ProcessLeavesAccrual(waiting, self, next);
    }
  }

  lemma ProcessLeavesAccrual(st: State, self: Address, next: State)
    requires Sound(st) && st.accrual.updatedAt == LastTime(st) && DlpVaults.ProcessQueue(st, self, 0) == Ok(next)
    ensures next.accrual == st.accrual
  {
    NothingNew(st);
    SettleOnly(st, self, LastIndex(st.line, 0).value);
  }

  /** Nothing of the queue or the shares differs. */
  ghost predicate SameHoldings(st: State, u: State) {
    u.line == st.line && u.cash == st.cash && u.shares == st.shares
  }

  lemma SamePassed(st: State, u: State, self: Address, limit: nat, made: seq<Settlement>, next: State)
    requires SameHoldings(st, u) && Passed(u, self, limit, made, next)
    ensures Passed(st, self, limit, made, next)
  {
    SameServes(st, u, self, made);
  }

  /** What a withdrawal does to shares, tokens and queue. */
  ghost predicate PaidOrPassed(st: State, self: Address, request: Request, made: seq<Settlement>, next: State,
                               paid: nat)
  {
    if st.line.index == |st.line.queue| && request.assets <= st.cash then
      paid == request.assets && PaidAtOnce(st, self, request, next)
    else
      paid == 0 && QueuedAndPassed(st, self, request, made, next)
  }

  lemma SamePaidOrPassed(st: State, u: State, self: Address, request: Request, made: seq<Settlement>, next: State,
                         paid: nat)
    requires SameHoldings(st, u) && PaidOrPassed(u, self, request, made, next, paid)
    ensures PaidOrPassed(st, self, request, made, next, paid)
  {
    if st.line.index != |st.line.queue| || request.assets > st.cash {
      SamePassed(st.(line := Waiting(st.line, request)), u.(line := Waiting(u.line, request)), self, 0, made, next);
    }
  }

  /** The allowance of another caller than the owner is spent. */
  ghost predicate SpentFor(st: State, request: Request, next: State) {
    if request.caller == request.owner then next.allowances == st.allowances
    else AllowanceSpent(st, request.owner, request.caller, request.assets, next)
  }

  lemma SpendAndPayEffect(u: State, self: Address, request: Request, next: State, paid: nat)
    returns (made: seq<Settlement>)
    requires Sound(u) && u.accrual.updatedAt == LastTime(u) && u.line.index <= |u.line.queue|
    requires SpendAndPay(Ok(u), self, request) == Ok((next, paid))
    ensures next == u.(cash := next.cash, line := next.line, shares := next.shares, allowances := next.allowances)
    ensures PaidOrPassed(u, self, request, made, next, paid) && SpentFor(u, request, next)
  {
    var spent := SpendForOwner(u, request).value;
    SpendEffect(u, request.owner, request.caller, request.assets);
    OtherFieldsKeep(u, spent);
    made := PayOrQueueEffect(spent, self, request, next, paid);
    SamePaidOrPassed(u, spent, self, request, made, next, paid);
  }

  lemma RewardedEffect(st: State, self: Address, owner: Address, u: State, rewarded: State)
    requires Sound(st) && Update(st, owner) == Ok(u) && DlpVaults.GetReward(u, self, owner) == Ok(rewarded)
    ensures Current(st, rewarded)
    ensures rewarded == st.(accrual := rewarded.accrual, funds := rewarded.funds, ledger := rewarded.ledger)
    ensures BroughtUp(st, rewarded.accrual, {owner} - {0}, {owner} - {0}) && PaidTo(st, self, owner, rewarded)
  {
    UpdateEffect(st, owner, u);
    forall b: Address
      ensures Answer(u, b) == Answer(st, b)
    {
      UpdateKeepsAnswers(st, owner, u, b);
    }
    GetRewardEffect(u, self, owner, rewarded);
    BothUp(st, u, rewarded.accrual, {owner} - {0}, {owner} - {0}, {owner} - {0});
    assert ({owner} - {0}) + ({owner} - {0}) == {owner} - {0};
  }

  /** Everything an accepted withdrawal changes. */
  ghost predicate Withdrawn(st: State, self: Address, request: Request, made: seq<Settlement>, next: State, paid: nat) {
    && PaidOrPassed(st, self, request, made, next, paid) && SpentFor(st, request, next)
    && BroughtUp(st, next.accrual, {request.owner}, {request.owner}) && PaidTo(st, self, request.owner, next)
    && next.now == st.now && next.vaultCap == st.vaultCap
  }

  lemma WithdrawStages(st: State, self: Address, request: Request, next: State, paid: nat)
    returns (u: State, rewarded: State)
    requires DlpVaults.Withdraw(st, self, request) == Ok((next, paid))
    ensures Update(st, request.owner) == Ok(u) && DlpVaults.GetReward(u, self, request.owner) == Ok(rewarded)
    ensures SpendAndPay(Ok(rewarded), self, request) == Ok((next, paid))
    ensures request.receiver != 0 && 0 < request.assets <= Read(u.shares.balances, request.owner)
  {
    u := Update(st, request.owner).value;
    rewarded := DlpVaults.GetReward(u, self, request.owner).value;
  }

  lemma WithdrawnFrom(st: State, rewarded: State, self: Address, request: Request, made: seq<Settlement>,
                      next: State, paid: nat)
    requires request.owner != 0
    requires rewarded == st.(accrual := rewarded.accrual, funds := rewarded.funds, ledger := rewarded.ledger)
    requires BroughtUp(st, rewarded.accrual, {request.owner} - {0}, {request.owner} - {0})
    requires PaidTo(st, self, request.owner, rewarded)
    requires next == rewarded.(cash := next.cash, line := next.line, shares := next.shares,
                               allowances := next.allowances)
    requires PaidOrPassed(rewarded, self, request, made, next, paid) && SpentFor(rewarded, request, next)
    ensures Withdrawn(st, self, request, made, next, paid)
  {
    SamePaidOrPassed(st, rewarded, self, request, made, next, paid);
    assert {request.owner} - {0} == {request.owner};
  }

  /** `withdraw`: what an accepted one does. */
  lemma WithdrawEffect(st: State, self: Address, request: Request, next: State, paid: nat)
    returns (made: seq<Settlement>)
    requires Sound(st) && st.line.index <= |st.line.queue|
    requires DlpVaults.Withdraw(st, self, request) == Ok((next, paid))
    ensures Withdrawn(st, self, request, made, next, paid)
  {
    var u, rewarded := WithdrawStages(st, self, request, next, paid);
    UpdateIsCurrent(st, request.owner, u);
    RewardedEffect(st, self, request.owner, u, rewarded);
    made := SpendAndPayEffect(rewarded, self, request, next, paid);
    WithdrawnFrom(st, rewarded, self, request, made, next, paid);
  }

  // ----- deposits

  lemma ServeEffect(st: State, self: Address, served: State) returns (made: seq<Settlement>)
    requires Sound(st) && st.accrual.updatedAt == LastTime(st) && st.line.index <= |st.line.queue|
    requires ServeQueue(st, self) == Ok(served)
    ensures Passed(st, self, 30, made, served)
    ensures forall a: Address :: Read(served.shares.balances, a) == Read(st.shares.balances, a) - PaidFor(made, a)
    ensures served == st.(cash := served.cash, line := served.line, shares := served.shares)
  {
    made := [];
    if st.line.index < |st.line.queue| {
      made := ProcessExact(st, self, 30, Ok(served));
      NothingNew(st);
      SettleOnly(st, self, LastIndex(st.line, 30).value);
    }
  }

  lemma MintEffect(st: State, receiver: Address, amount: nat, next: State)
    requires Mint(st, receiver, amount) == Ok(next)
    ensures next == st.(shares := next.shares)
    ensures forall a: Address ::
              Read(next.shares.balances, a) == Read(st.shares.balances, a) + if a == receiver then amount else 0
  {
  }

  /** Everything an accepted deposit changes: its tokens serve the queue, for thirty requests at most, and
      its receiver has one more share for each. */
  ghost predicate DepositDone(st: State, self: Address, amount: nat, receiver: Address, made: seq<Settlement>,
                              next: State)
  {
    && Passed(st.(cash := st.cash + amount), self, 30, made, next)
    && (forall a: Address ::
          Read(next.shares.balances, a)
          == Read(st.shares.balances, a) - PaidFor(made, a) + if a == receiver then amount else 0)
    && BroughtUp(st, next.accrual, {receiver}, {})
    && next == st.(cash := next.cash, line := next.line, shares := next.shares, accrual := next.accrual)
  }

  lemma AcceptStages(u: State, served: Result<State>, amount: nat, receiver: Address, next: State)
    requires Accept(u, served, amount, receiver) == Ok(next)
    ensures served.Ok? && Mint(served.value, receiver, amount) == Ok(next)
  {
  }

  lemma MintAfterPass(u: State, funded: State, served: State, self: Address, amount: nat, receiver: Address,
                      made: seq<Settlement>, next: State)
    requires funded == u.(cash := u.cash + amount) && Mint(served, receiver, amount) == Ok(next)
    requires Passed(funded, self, 30, made, served)
    requires forall a: Address :: Read(served.shares.balances, a) == Read(u.shares.balances, a) - PaidFor(made, a)
    requires served == funded.(cash := served.cash, line := served.line, shares := served.shares)
    ensures Passed(funded, self, 30, made, next)
    ensures forall a: Address ::
              Read(next.shares.balances, a)
              == Read(u.shares.balances, a) - PaidFor(made, a) + if a == receiver then amount else 0
    ensures next == u.(cash := next.cash, line := next.line, shares := next.shares)
  {
    MintEffect(served, receiver, amount, next);
  }

  lemma AcceptEffect(u: State, funded: State, self: Address, amount: nat, receiver: Address, next: State)
    returns (made: seq<Settlement>)
    requires Sound(u) && u.accrual.updatedAt == LastTime(u) && u.line.index <= |u.line.queue|
    requires funded == u.(cash := u.cash + amount)
    requires Accept(u, ServeQueue(funded, self), amount, receiver) == Ok(next)
    ensures Passed(funded, self, 30, made, next)
    ensures forall a: Address ::
              Read(next.shares.balances, a)
              == Read(u.shares.balances, a) - PaidFor(made, a) + if a == receiver then amount else 0
    ensures next == u.(cash := next.cash, line := next.line, shares := next.shares)
  {
    AcceptStages(u, ServeQueue(funded, self), amount, receiver, next);
    var served := ServeQueue(funded, self).value;
    OtherFieldsKeep(u, funded);
    made := ServeEffect(funded, self, served);
    MintAfterPass(u, funded, served, self, amount, receiver, made, next);
  }

  lemma SeenDepositEffect(u: State, self: Address, amount: nat, receiver: Address, next: State)
    returns (made: seq<Settlement>)
    requires Sound(u) && u.accrual.updatedAt == LastTime(u) && u.line.index <= |u.line.queue|
    requires AcceptServed(Ok(u), self, amount, receiver) == Ok(next)
    ensures Passed(u.(cash := u.cash + amount), self, 30, made, next)
    ensures forall a: Address ::
              Read(next.shares.balances, a)
              == Read(u.shares.balances, a) - PaidFor(made, a) + if a == receiver then amount else 0
    ensures next == u.(cash := next.cash, line := next.line, shares := next.shares)
  {
    made := AcceptEffect(u, u.(cash := u.cash + amount), self, amount, receiver, next);
  }

  /** `deposit`: what an accepted one does. */
  lemma DepositEffect(st: State, self: Address, amount: nat, receiver: Address, next: State)
    returns (made: seq<Settlement>)
    requires Sound(st) && st.line.index <= |st.line.queue| && receiver != 0
    requires DlpVaults.Deposit(st, self, amount, receiver) == Ok(next)
    ensures DepositDone(st, self, amount, receiver, made, next)
  {
    var u := Update(st, receiver).value;
    UpdateEffect(st, receiver, u);
    made := SeenDepositEffect(u, self, amount, receiver, next);
    SamePassed(st.(cash := st.cash + amount), u.(cash := u.cash + amount), self, 30, made, next);
    assert {receiver} - {0} == {receiver};
  }

  // ----- why a withdrawal or a deposit reverts

  /** The first of the reasons that holds, for a vault whose rewards are covered. */
  function WithdrawError(st: State, request: Request): Error {
    if Earned(st, request.owner).Revert? then ArithmeticPanic
    else if request.receiver == 0 then AddressZero
    else if request.assets == 0 then WithdrawZero
    else if Read(st.shares.balances, request.owner) < request.assets then NotEnoughShares
    else if request.caller != request.owner && Allowance(st, request.owner, request.caller) < request.assets then
      InsufficientAllowance
    else if request.caller != request.owner && request.caller == 0
            && Allowance(st, request.owner, 0) != UINT256_LIMIT - 1 then AddressZero
    else ArithmeticPanic
  }

  lemma SpendAndPayReverts(u: State, self: Address, request: Request)
    requires Sound(u) && Accrue(u).Ok? && request.owner != 0
    requires request.assets <= Read(u.shares.balances, request.owner) < UINT256_LIMIT
    requires Earned(u, request.owner).Ok? && request.receiver != 0 && request.assets > 0
    requires SpendAndPay(Ok(u), self, request).Revert?
    ensures SpendAndPay(Ok(u), self, request).error == WithdrawError(u, request)
  {
    SpendEffect(u, request.owner, request.caller, request.assets);
    if SpendForOwner(u, request).Ok? {
      var spent := SpendForOwner(u, request).value;
      OtherFieldsKeep(u, spent);
      PayOrQueueReverts(spent, self, request);
    }
  }

  lemma PayOrQueueReverts(st: State, self: Address, request: Request)
    requires Sound(st) && Accrue(st).Ok? && request.assets <= Read(st.shares.balances, request.owner)
    requires PayOrQueue(st, self, request).Revert?
    ensures PayOrQueue(st, self, request).error == ArithmeticPanic
  {
    if st.line.index == |st.line.queue| && request.assets <= st.cash {
      BurnKeeps(st, request.owner, request.assets);
    } else {
      OtherFieldsKeep(st, Enqueue(st, request));
      ProcessKeeps(Enqueue(st, request), self, 0);
    }
  }

  lemma WithdrawReverts(st: State, self: Address, request: Request, error: Error)
    requires Sound(st) && Solvent(st) && DlpVaults.Withdraw(st, self, request) == Revert(error)
    ensures error == WithdrawError(st, request)
  {
    UpdateAccepted(st, request.owner);
    UpdateFields(st, request.owner);
    if Update(st, request.owner).Ok? && request.receiver != 0 && request.assets > 0
       && request.assets <= Read(st.shares.balances, request.owner) {
      RewardedForWithdrawal(st, self, request.owner);
      var u := Update(st, request.owner).value;
      UpdateIsCurrent(st, request.owner, u);
      ClaimedFits(u, self, request.owner, DlpVaults.GetReward(u, self, request.owner).value);
      RewardedReverts(st, DlpVaults.GetReward(u, self, request.owner).value, self, request);
    }
  }

  lemma RewardedReverts(st: State, rewarded: State, self: Address, request: Request)
    requires Sound(rewarded) && Accrue(rewarded).Ok? && request.owner != 0
    requires Earned(st, request.owner).Ok? && Earned(rewarded, request.owner).Ok?
    requires rewarded.shares.balances == st.shares.balances && rewarded.allowances == st.allowances
    requires request.receiver != 0 && 0 < request.assets <= Read(st.shares.balances, request.owner)
    requires SpendAndPay(Ok(rewarded), self, request).Revert?
    ensures SpendAndPay(Ok(rewarded), self, request).error == WithdrawError(st, request)
  {
    PartOfTotal(rewarded.shares.balances, request.owner);
    SpendAndPayReverts(rewarded, self, request);
  }

  lemma ClaimedFits(u: State, self: Address, a: Address, next: State)
    requires Sound(u) && a != 0 && DlpVaults.GetReward(u, self, a) == Ok(next)
    ensures Earned(next, a).Ok?
  {
    GetRewardKeeps(u, self, a);
    ClaimExact(u, self, a);
    GetRewardEffect(u, self, a, next);
    SeenEarned(next, a);
  }

  function DepositError(st: State, amount: nat, receiver: Address): Error {
    if Earned(st, receiver).Revert? || amount + st.shares.amountStaked >= UINT256_LIMIT then ArithmeticPanic
    else if amount + st.shares.amountStaked > st.vaultCap then VaultCapExceeded
    else if st.line.index != |st.line.queue| && st.line.index + 30 >= UINT256_LIMIT then ArithmeticPanic
    else AddressZero
  }

  lemma AcceptCasesRevert(u: State, served: Result<State>, amount: nat, receiver: Address, error: Error)
    requires Sound(u) && Accept(u, served, amount, receiver) == Revert(error) && Earned(u, receiver).Ok?
    requires if QueueFits(u.line)
             then && served.Ok?
                  && served.value.shares.totalSupply == served.value.shares.amountStaked <= u.shares.amountStaked
             else served == Revert(ArithmeticPanic)
    ensures error == DepositError(u, amount, receiver)
  {
  }

  lemma AcceptReverts(u: State, funded: State, self: Address, amount: nat, receiver: Address, error: Error)
    requires Sound(u) && u.accrual.updatedAt == LastTime(u) && u.line.index <= |u.line.queue|
    requires funded == u.(cash := u.cash + amount) && Earned(u, receiver).Ok?
    requires Accept(u, ServeQueue(funded, self), amount, receiver) == Revert(error)
    ensures error == DepositError(u, amount, receiver)
  {
    OtherFieldsKeep(u, funded);
    NothingNew(funded);
    ServeReverts(funded, self);
    AcceptCasesRevert(u, ServeQueue(funded, self), amount, receiver, error);
  }

  lemma ServeReverts(st: State, self: Address)
    requires Sound(st) && st.line.index <= |st.line.queue| && Accrue(st).Ok?
    ensures var served := ServeQueue(st, self);
            if QueueFits(st.line)
            then && served.Ok?
                 && served.value.shares.totalSupply == served.value.shares.amountStaked <= st.shares.amountStaked
            else served == Revert(ArithmeticPanic)
  {
    var made := ServeAccounts(st, self);
    if st.line.index < |st.line.queue| {
      var pass := ProcessExact(st, self, 30, DlpVaults.ProcessQueue(st, self, 30));
    }
  }

  lemma SeenDepositReverts(u: State, self: Address, amount: nat, receiver: Address, error: Error)
    requires Sound(u) && u.accrual.updatedAt == LastTime(u) && u.line.index <= |u.line.queue|
    requires AcceptServed(Ok(u), self, amount, receiver) == Revert(error) && Earned(u, receiver).Ok?
    ensures error == DepositError(u, amount, receiver)
  {
    AcceptReverts(u, u.(cash := u.cash + amount), self, amount, receiver, error);
  }

  lemma DepositReverts(st: State, self: Address, amount: nat, receiver: Address, error: Error)
    requires Sound(st) && st.line.index <= |st.line.queue|
    requires DlpVaults.Deposit(st, self, amount, receiver) == Revert(error)
    ensures error == DepositError(st, amount, receiver)
  {
    UpdateAccepted(st, receiver);
    if Update(st, receiver).Ok? {
      var u := Update(st, receiver).value;
      UpdateEffect(st, receiver, u);
      UpdateKeepsAnswers(st, receiver, u, receiver);
      SeenDepositReverts(u, self, amount, receiver, error);
    }
  }

  // ----- notifications and the duration

  /** The amount and what the running period has left. */
  ghost function ToSpend(st: State, amount: nat): int {
    amount + st.accrual.rewardRate * (st.accrual.finishAt - ClockNow(st))
  }

  lemma LeftIsRemaining(st: State)
    ensures Remaining(st) == st.accrual.rewardRate * (st.accrual.finishAt - ClockNow(st))
  {
  }

  lemma QuotientBounds(total: nat, duration: nat, funds: nat)
    requires duration > 0
    ensures total / duration * duration <= total < total / duration * duration + duration
    ensures total / duration == 0 <==> total < duration
    ensures total / duration * duration <= funds <==> total / duration <= funds / duration
  {
    RateFits(total / duration, funds, duration);
    RateFits(1, total, duration);
    assert total / duration * duration <= total < total / duration * duration + duration;
  }

  /** Everything an accepted notification changes: the new rate spends all there is to spend but for less
      than one a second, over a whole period from now. */
  ghost predicate Notified(st: State, amount: nat, next: State) {
    && var scheduled := next.accrual.rewardRate * st.accrual.duration;
    && scheduled <= ToSpend(st, amount) < scheduled + st.accrual.duration && scheduled <= st.funds
    && next.accrual.rewardRate > 0
    && next.accrual.finishAt == st.now + st.accrual.duration && next.accrual.updatedAt == st.now
    && BroughtUp(st, next.accrual.(finishAt := st.accrual.finishAt, rewardRate := st.accrual.rewardRate,
                                   updatedAt := ClockNow(st)), {}, {})
    && next == st.(accrual := next.accrual, ledger := st.ledger.(notified := st.ledger.notified + amount))
  }

  lemma NotifyEffect(st: State, amount: nat, next: State)
    requires Sound(st) && DlpVaults.Notify(st, amount) == Ok(next)
    ensures st.accrual.duration > 0 && Notified(st, amount, next)
    ensures Accrue(st).Ok?
    ensures Scheduled(next) <= amount + Scheduled(Accrue(st).value) < Scheduled(next) + st.accrual.duration
  {
    LeftIsRemaining(st);
    UpdateEffect(st, 0, Accrue(st).value);
    NotifyFields(st, amount);
    QuotientBounds(amount + Remaining(st), st.accrual.duration, st.funds);
  }

  /** The first of the reasons that holds. */
  ghost function NotifyError(st: State, amount: nat): Error {
    if Earned(st, 0).Revert? || ToSpend(st, amount) >= UINT256_LIMIT || st.accrual.duration == 0 then ArithmeticPanic
    else if ToSpend(st, amount) < st.accrual.duration then RewardRateZero
    else if ToSpend(st, amount) / st.accrual.duration > st.funds / st.accrual.duration then RewardExceedsBalance
    else ArithmeticPanic
  }

  lemma NotifyOfAccrued(st: State, amount: nat, r: Result<State>)
    requires Sound(st) && Accrue(st).Ok? && Earned(st, 0).Ok? && r == DlpVaults.Notify(st, amount)
    ensures r.Ok? <==>
              && ToSpend(st, amount) < UINT256_LIMIT && st.now + st.accrual.duration < UINT256_LIMIT
              && 0 < st.accrual.duration <= ToSpend(st, amount)
              && ToSpend(st, amount) / st.accrual.duration <= st.funds / st.accrual.duration
    ensures r.Revert? ==> r.error == NotifyError(st, amount)
  {
    LeftIsRemaining(st);
    if st.accrual.duration > 0 {
      QuotientBounds(amount + Remaining(st), st.accrual.duration, st.funds);
    }
  }

  /** `notifyRewardAmount`: when it is accepted, what it then does, and why it reverts otherwise. */
  lemma NotifyExact(st: State, amount: nat, r: Result<State>)
    requires Sound(st) && r == DlpVaults.Notify(st, amount)
    ensures r.Ok? <==>
              && Earned(st, 0).Ok? && ToSpend(st, amount) < UINT256_LIMIT
              && st.now + st.accrual.duration < UINT256_LIMIT
              && 0 < st.accrual.duration <= ToSpend(st, amount)
              && ToSpend(st, amount) / st.accrual.duration <= st.funds / st.accrual.duration
    ensures r.Ok? ==> Notified(st, amount, r.value)
    ensures r.Revert? ==> r.error == NotifyError(st, amount)
  {
    UpdateAccepted(st, 0);
    if Accrue(st).Ok? {
      NotifyOfAccrued(st, amount, r);
    }
    if r.Ok? {
      NotifyEffect(st, amount, r.value);
    }
  }

  /** `setRewardsDuration`: between periods only, and then any duration but zero is taken as given. */
  lemma SetDurationExact(st: State, duration: nat, r: Result<State>)
    requires r == DlpVaults.SetDuration(st, duration)
    ensures r.Ok? <==> st.accrual.finishAt < st.now && duration > 0
    ensures r.Ok? ==> r.value == st.(accrual := st.accrual.(duration := duration))
    ensures r.Revert? ==> r.error == if st.now <= st.accrual.finishAt then PeriodNotFinished else ValueZero
  {
  }

  // ----- what no other action changes

  /** The duration, the cap, the period and the time change only by what is meant to change them. */
  ghost predicate Settings(st: State, a: Action, next: State) {
    && (!a.SetDuration? ==> next.accrual.duration == st.accrual.duration)
    && (!a.SetCap? ==> next.vaultCap == st.vaultCap)
    && (!a.Notify? ==> next.accrual.finishAt == st.accrual.finishAt && next.accrual.rewardRate == st.accrual.rewardRate)
    && (!a.Advance? ==> next.now == st.now)
    && (a.SetCap? ==> next.vaultCap == a.cap) && (a.Advance? ==> next.now == st.now + a.seconds)
  }

  lemma QueueSettings(st: State, self: Address, a: Action)
    requires Sound(st) && st.line.index <= |st.line.queue| && Queues(a) && Apply(st, self, a).Ok?
    ensures Settings(st, a, Apply(st, self, a).value)
  {
    var next := Apply(st, self, a).value;
    if a.Deposit? {
      if a.receiver != 0 {
        var made := DepositEffect(st, self, a.amount, a.receiver, next);
      } else {
        MintsNoZero(st, self, a.amount);
      }
    } else if a.Withdraw? {
      var made := WithdrawEffect(st, self, a.request, next, DlpVaults.Withdraw(st, self, a.request).value.1);
    } else {
      var made := ProcessExact(st, self, a.limit, Ok(next));
    }
  }

  lemma RewardSettings(st: State, self: Address, a: Action)
    requires Sound(st) && Apply(st, self, a).Ok?
    requires a.Transfer? || a.TransferFrom? || a.GetReward? || a.Notify?
    ensures Settings(st, a, Apply(st, self, a).value)
  {
    var next := Apply(st, self, a).value;
    match a
    case Transfer(from, to, amount) =>
      SeeBothEffect(st, self, from, to, SeeBoth(st, self, from, to).value);
      MoveEffect(SeeBoth(st, self, from, to).value, from, to, amount);
    case TransferFrom(caller, from, to, amount) =>
      TransferFromSettings(st, self, caller, from, to, amount, next);
    case GetReward(account) => GetRewardEffect(st, self, account, next);
    case Notify(amount) => NotifyEffect(st, amount, next);
  }

  lemma TransferFromSettings(st: State, self: Address, caller: Address, from: Address, to: Address, amount: nat,
                             next: State)
    requires Sound(st) && DlpVaults.TransferFrom(st, self, caller, from, to, amount) == Ok(next)
    ensures next.accrual.duration == st.accrual.duration && next.accrual.finishAt == st.accrual.finishAt
    ensures next.accrual.rewardRate == st.accrual.rewardRate && next.vaultCap == st.vaultCap && next.now == st.now
  {
    var u := SeeBoth(st, self, from, to).value;
    SeeBothEffect(st, self, from, to, u);
    SpendEffect(u, from, caller, amount);
    MoveEffect(SpendAllowance(u, from, caller, amount).value, from, to, amount);
  }

  lemma AroundSettings(st: State, a: Action)
    requires IsSetting(a) && Around(st, a).Ok?
    ensures Settings(st, a, Around(st, a).value)
  {
  }

  lemma StepSettings(st: State, self: Address, a: Action)
    requires Sound(st) && Fifo(st.line)
    ensures Settings(st, a, Next(st, self, a))
  {
    if Apply(st, self, a).Ok? {
      if IsSetting(a) {
        AroundSettings(st, a);
      } else if Queues(a) {
        QueueSettings(st, self, a);
      } else {
        RewardSettings(st, self, a);
      }
    }
  }

  /** No action changes the duration while a period runs. */
  lemma DurationFixed(st: State, self: Address, a: Action)
    requires Sound(st) && Fifo(st.line) && st.now <= st.accrual.finishAt
    ensures Next(st, self, a).accrual.duration == st.accrual.duration
  {
    StepSettings(st, self, a);
    if a.SetDuration? {
      SetDurationExact(st, a.duration, DlpVaults.SetDuration(st, a.duration));
    }
  }

  /** A running period ends within one duration from now. */
  ghost predicate PeriodWithin(st: State) {
    st.now <= st.accrual.finishAt ==> st.accrual.finishAt <= st.now + st.accrual.duration
  }

  lemma StepPeriod(st: State, self: Address, a: Action)
    requires Sound(st) && Fifo(st.line) && PeriodWithin(st)
    ensures PeriodWithin(Next(st, self, a))
  {
    StepSettings(st, self, a);
    if a.SetDuration? {
      SetDurationExact(st, a.duration, DlpVaults.SetDuration(st, a.duration));
    }
    if a.Notify? && Apply(st, self, a).Ok? {
      NotifyEffect(st, a.amount, Apply(st, self, a).value);
    }
    if a.Advance? {
      SettingFields(st, self, a);
    }
  }

  lemma {:induction false} RunPeriods(st: State, self: Address, actions: seq<Action>)
    requires Sound(st) && Covered(st) && Fifo(st.line) && PeriodWithin(st)
    ensures PeriodWithin(Run(st, self, actions))
    decreases |actions|
  {
    if actions != [] {
      StepPeriod(st, self, actions[0]);
      StepKeeps(st, self, actions[0]);
      StepFifo(st, self, actions[0]);
      RunPeriods(Next(st, self, actions[0]), self, actions[1..]);
    }
  }

  /** Over every run a running period ends within the duration that is set, whichever way it was set. */
  lemma PeriodsKeepDuration(now: nat, self: Address, actions: seq<Action>)
    ensures PeriodWithin(Run(Start(now), self, actions))
  {
    StartSound(now);
    RunPeriods(Start(now), self, actions);
  }
}
