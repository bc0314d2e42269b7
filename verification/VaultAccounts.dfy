/** What every action of the vault keeps: shares against tokens staked, and the rewards owed
    against the rewards notified and the rewards held. */
module VaultAccounts {
  import opened Evm
  import opened Storage
  import opened Sums
  import opened DlpVaults

  // ----- totals over all addresses

  ghost function Amounts(m: Mapping): (s: seq<int>)
    ensures |s| == UINT160_LIMIT && forall a: nat :: a < |s| ==> s[a] == Read(m, a)
  {
    seq(UINT160_LIMIT, a requires 0 <= a => Read(m, a))
  }

  ghost function Total(m: Mapping): int {
    Sum(Amounts(m))
  }

  lemma TotalWrite(m: Mapping, a: Address, v: nat)
    ensures Total(Write(m, a, v)) == Total(m) - Read(m, a) + v
  {
    assert Amounts(Write(m, a, v)) == Amounts(m)[a := v];
    SumUpdate(Amounts(m), a, v);
  }

  lemma PartOfTotal(m: Mapping, a: Address)
    ensures 0 <= Read(m, a) <= Total(m)
  {
    PartAtMost(Amounts(m), a);
  }

  /** What an account is owed, scaled: accrued since it was last seen, and stored. */
  ghost function DueTo(st: State, a: nat): int {
    Read(st.shares.balances, a) * (st.accrual.rewardPerTokenStored - Read(st.accrual.userPaid, a))
    + SCALE * Read(st.accrual.rewards, a)
  }

  ghost function Dues(st: State): (s: seq<int>)
    ensures |s| == UINT160_LIMIT && forall a: nat :: a < |s| ==> s[a] == DueTo(st, a)
  {
    seq(UINT160_LIMIT, a requires 0 <= a => DueTo(st, a))
  }

  ghost function Due(st: State): int {
    Sum(Dues(st))
  }

  ghost function Scheduled(st: State): int {
    st.accrual.rewardRate * (st.accrual.finishAt - st.accrual.updatedAt)
  }

  /** Everything the vault has promised, scaled: what is owed, and what will still accrue. */
  ghost function Committed(st: State): int {
    Due(st) + SCALE * Scheduled(st)
  }

  /** The most a single share can ever have earned, scaled, without another notification. */
  ghost function PerShare(st: State): int {
    st.accrual.rewardPerTokenStored + SCALE * Scheduled(st)
  }

  /** A change at one account only. */
  lemma DueChange(st: State, next: State, a: Address)
    requires forall b: Address :: b != a ==> DueTo(next, b) == DueTo(st, b)
    ensures Due(next) == Due(st) - DueTo(st, a) + DueTo(next, a)
  {
    assert Dues(next) == Dues(st)[a := DueTo(next, a)];
    SumUpdate(Dues(st), a, DueTo(next, a));
  }

  lemma SameDue(st: State, next: State)
    requires next.shares.balances == st.shares.balances
    requires next.accrual.userPaid == st.accrual.userPaid && next.accrual.rewards == st.accrual.rewards
    requires next.accrual.rewardPerTokenStored == st.accrual.rewardPerTokenStored
    ensures Due(next) == Due(st)
  {
    assert Dues(next) == Dues(st);
  }

  // ----- the invariant of every action

  ghost predicate Sound(st: State) {
    && st.accrual.updatedAt <= LastTime(st)
    && (forall a: Address :: Read(st.accrual.userPaid, a) <= st.accrual.rewardPerTokenStored)
    && st.shares.totalSupply == st.shares.amountStaked == Total(st.shares.balances)
    && Read(st.shares.balances, 0) == 0 == Read(st.accrual.rewards, 0)
    && st.shares.totalSupply < UINT256_LIMIT && st.accrual.rewardPerTokenStored < UINT256_LIMIT
  }

  /** From `st` to `next` no promise is made, and rewards leave the vault only as they are paid. */
  ghost predicate Keeps(st: State, next: State) {
    && Sound(next)
    && Committed(next) + SCALE * next.ledger.rewardsPaid <= Committed(st) + SCALE * st.ledger.rewardsPaid
    && PerShare(next) <= PerShare(st)
    && next.funds + next.ledger.rewardsPaid >= st.funds + st.ledger.rewardsPaid
    && next.ledger.notified == st.ledger.notified
    && next.now == st.now
  }

  /** The account's rewards are up to date. */
  ghost predicate Seen(st: State, a: Address) {
    st.accrual.updatedAt == LastTime(st) && Read(st.accrual.userPaid, a) == st.accrual.rewardPerTokenStored
  }

  // ----- accrual

  /** What each share gains, times the shares, is at most what the rate releases. */
  lemma FloorLoses(released: nat, supply: nat)
    requires supply > 0
    ensures supply * (released / supply) <= released
  {
  }

  /** Every share gains the same. */
  lemma GainIsOwed(st: State, next: State, gain: nat)
    requires next.shares.balances == st.shares.balances
    requires next.accrual.userPaid == st.accrual.userPaid && next.accrual.rewards == st.accrual.rewards
    requires next.accrual.rewardPerTokenStored == st.accrual.rewardPerTokenStored + gain
    ensures Due(next) == Due(st) + gain * Total(st.shares.balances)
  {
    forall a: nat
      ensures DueTo(next, a) == DueTo(st, a) + gain * Read(st.shares.balances, a)
    {
      Distribute(Read(st.shares.balances, a), st.accrual.rewardPerTokenStored - Read(st.accrual.userPaid, a), gain);
    }
    SumAffine(Dues(st), Dues(next), Amounts(st.shares.balances), gain);
  }

  lemma ReleasedArithmetic(rate: nat, seconds: nat, left: int, supply: nat)
    requires supply > 0
    ensures rate * seconds * SCALE / supply >= 0
    ensures (rate * seconds * SCALE / supply) * supply <= SCALE * (rate * (left + seconds) - rate * left)
    ensures seconds == 0 ==> rate * seconds * SCALE / supply == 0
  {
    Distribute(rate, left, seconds);
    assert rate * seconds >= 0;
    FloorLoses(rate * seconds * SCALE, supply);
  }

  lemma LessLeft(rate: nat, left: int, seconds: nat)
    ensures rate * left <= rate * (left + seconds)
  {
    Distribute(rate, left, seconds);
  }

  lemma OneShareAtMost(gain: nat, supply: nat)
    requires supply > 0
    ensures gain <= gain * supply
  {
  }

  /** What the shares gain is what the schedule loses, or less. */
  lemma GainIsReleased(st: State)
    requires Sound(st) && Accrue(st).Ok?
    ensures var next := Accrue(st).value;
            && next.accrual.rewardPerTokenStored >= st.accrual.rewardPerTokenStored
            && (next.accrual.rewardPerTokenStored - st.accrual.rewardPerTokenStored) * st.shares.totalSupply
               <= SCALE * (Scheduled(st) - Scheduled(next))
            && PerShare(next) <= PerShare(st)
  {
    var seconds, left := LastTime(st) - st.accrual.updatedAt, st.accrual.finishAt - LastTime(st);
    if st.shares.totalSupply > 0 {
      ReleasedArithmetic(st.accrual.rewardRate, seconds, left, st.shares.totalSupply);
      OneShareAtMost(st.accrual.rewardRate * seconds * SCALE / st.shares.totalSupply, st.shares.totalSupply);
    } else {
      LessLeft(st.accrual.rewardRate, left, seconds);
    }
    assert left + seconds == st.accrual.finishAt - st.accrual.updatedAt;
  }

  lemma AccrueKeeps(st: State)
    requires Sound(st)
    ensures Accrue(st).Ok? ==> Keeps(st, Accrue(st).value)
                               && Accrue(st).value.accrual.rewardPerTokenStored >= st.accrual.rewardPerTokenStored
  {
    if Accrue(st).Ok? {
      GainIsReleased(st);
      var next := Accrue(st).value;
      GainIsOwed(st, next, next.accrual.rewardPerTokenStored - st.accrual.rewardPerTokenStored);
    }
  }

  lemma Distribute(a: int, b: int, c: int)
    ensures a * (b + c) == a * b + c * a
  {
  }

  lemma StoringRoundsDown(balance: nat, unseen: nat, stored: nat)
    ensures balance * unseen >= 0
    ensures SCALE * (balance * unseen / SCALE + stored) <= balance * unseen + SCALE * stored
  {
  }

  /** A second accrual at the same time does nothing. */
  lemma NothingNew(st: State)
    requires Sound(st) && st.accrual.updatedAt == LastTime(st)
    ensures RewardPerToken(st) == Ok(st.accrual.rewardPerTokenStored)
    ensures Accrue(st) == Ok(st)
  {
    assert st.accrual.rewardRate * 0 * SCALE == 0;
  }

  lemma SeeStores(st: State, a: Address)
    requires Sound(st) && st.accrual.updatedAt == LastTime(st) && See(st, a).Ok?
    ensures See(st, a).value
            == st.(accrual := st.accrual.(
                     rewards := Write(st.accrual.rewards, a, Earned(st, a).value),
                     userPaid := Write(st.accrual.userPaid, a, st.accrual.rewardPerTokenStored)))
    ensures Earned(st, a).value
            == Read(st.shares.balances, a) * (st.accrual.rewardPerTokenStored - Read(st.accrual.userPaid, a)) / SCALE
               + Read(st.accrual.rewards, a)
  {
    NothingNew(st);
  }

  lemma SeeAt(st: State, a: Address)
    requires Sound(st) && st.accrual.updatedAt == LastTime(st) && See(st, a).Ok?
    ensures var next := See(st, a).value;
            && next == st.(accrual := st.accrual.(rewards := next.accrual.rewards, userPaid := next.accrual.userPaid))
            && Seen(next, a) && DueTo(next, a) <= DueTo(st, a)
            && forall b: nat :: b != a ==> Read(next.accrual.userPaid, b) == Read(st.accrual.userPaid, b)
                                           && Read(next.accrual.rewards, b) == Read(st.accrual.rewards, b)
  {
    SeeStores(st, a);
    StoringRoundsDown(Read(st.shares.balances, a), st.accrual.rewardPerTokenStored - Read(st.accrual.userPaid, a),
                      Read(st.accrual.rewards, a));
  }

  lemma SeenKeeps(st: State, a: Address, next: State)
    requires Sound(st) && st.accrual.updatedAt == LastTime(st) && (a == 0 ==> Read(next.accrual.rewards, 0) == 0)
    requires next == st.(accrual := st.accrual.(rewards := next.accrual.rewards, userPaid := next.accrual.userPaid))
    requires Seen(next, a) && DueTo(next, a) <= DueTo(st, a)
    requires forall b: nat :: b != a ==> Read(next.accrual.userPaid, b) == Read(st.accrual.userPaid, b)
                                         && Read(next.accrual.rewards, b) == Read(st.accrual.rewards, b)
    ensures Keeps(st, next)
    ensures forall b: Address :: Seen(st, b) ==> Seen(next, b)
  {
    DueChange(st, next, a);
  }

  lemma SeeKeeps(st: State, a: Address)
    requires Sound(st) && st.accrual.updatedAt == LastTime(st) && See(st, a).Ok? && a != 0
    ensures Keeps(st, See(st, a).value)
    ensures var next := See(st, a).value;
            && next == st.(accrual := st.accrual.(rewards := next.accrual.rewards, userPaid := next.accrual.userPaid))
            && Seen(next, a)
            && (forall b: Address :: Seen(st, b) ==> Seen(next, b))
  {
    SeeAt(st, a);
    SeenKeeps(st, a, See(st, a).value);
  }

  lemma UpdateKeeps(st: State, a: Address)
    requires Sound(st) && Update(st, a).Ok?
    ensures Keeps(st, Update(st, a).value)
    ensures var next := Update(st, a).value;
            && next == st.(accrual := next.accrual)
            && next.accrual == st.accrual.(
                 rewardPerTokenStored := next.accrual.rewardPerTokenStored, updatedAt := LastTime(st),
                 rewards := next.accrual.rewards, userPaid := next.accrual.userPaid)
            && (a != 0 ==> Seen(next, a))
            && (forall b: Address :: Seen(st, b) ==> Seen(next, b))
  {
    AccrueKeeps(st);
    AccrueSeen(st);
    if a != 0 {
      SeeKeeps(Accrue(st).value, a);
    }
  }

  lemma AccrueSeen(st: State)
    requires Sound(st) && Accrue(st).Ok?
    ensures st.accrual.updatedAt == LastTime(st) ==> Accrue(st).value == st
  {
    if st.accrual.updatedAt == LastTime(st) {
      NothingNew(st);
    }
  }

  // ----- payments, shares, the queue

  /** Steps that leave shares and rewards alone. */
  lemma OtherFieldsKeep(st: State, next: State)
    requires Sound(st)
    requires next == st.(cash := next.cash, line := next.line, allowances := next.allowances)
    ensures Keeps(st, next)
    ensures forall b: Address :: Seen(st, b) ==> Seen(next, b)
  {
    SameDue(st, next);
  }

  lemma PayKeeps(st: State, self: Address, a: Address)
    requires Sound(st)
    ensures var paid := PayReward(st, self, a);
            && (paid.Ok? <==> Read(st.accrual.rewards, a) <= st.funds)
            && (paid.Ok? ==> Keeps(st, paid.value)
                             && (forall b: Address :: Seen(st, b) ==> Seen(paid.value, b)))
  {
    if Read(st.accrual.rewards, a) <= st.funds {
      DueChange(st, PayReward(st, self, a).value, a);
    }
  }

  lemma GetRewardKeeps(st: State, self: Address, a: Address)
    requires Sound(st) && GetReward(st, self, a).Ok?
    ensures var got := GetReward(st, self, a).value;
            && Keeps(st, got)
            && (a != 0 ==> Seen(got, a))
            && (forall b: Address :: Seen(st, b) ==> Seen(got, b))
  {
    UpdateKeeps(st, a);
    PayKeeps(Update(st, a).value, self, a);
  }

  lemma SeenOwedStored(st: State, a: Address)
    requires Seen(st, a)
    ensures DueTo(st, a) == SCALE * Read(st.accrual.rewards, a)
  {
  }

  /** However the shares of accounts that are up to date change, no one is owed more or less. */
  lemma SeenSharesFree(st: State, next: State)
    requires next == st.(shares := next.shares)
    requires forall a: Address :: Seen(st, a) || Read(next.shares.balances, a) == Read(st.shares.balances, a)
    ensures Due(next) == Due(st)
  {
    forall a: Address
      ensures DueTo(next, a) == DueTo(st, a)
    {
      if Seen(st, a) {
        SeenOwedStored(st, a);
        SeenOwedStored(next, a);
      }
    }
    assert Dues(next) == Dues(st);
  }

  lemma MintDue(st: State, receiver: Address, amount: nat)
    requires Seen(st, receiver) && Mint(st, receiver, amount).Ok?
    ensures Due(Mint(st, receiver, amount).value) == Due(st)
  {
    SeenSharesFree(st, Mint(st, receiver, amount).value);
  }

  /** New shares earn nothing from before: their holder was just brought up to date. */
  lemma MintKeeps(st: State, receiver: Address, amount: nat)
    requires Sound(st) && (receiver != 0 ==> Seen(st, receiver)) && Mint(st, receiver, amount).Ok?
    ensures Keeps(st, Mint(st, receiver, amount).value)
  {
    TotalWrite(st.shares.balances, receiver, Read(st.shares.balances, receiver) + amount);
    MintDue(st, receiver, amount);
  }

  /** Burnt shares lose what they accrued since their holder was last seen. */
  lemma BurnDue(st: State, owner: Address, assets: nat)
    requires Sound(st) && Burn(st, owner, assets).Ok?
    ensures Due(Burn(st, owner, assets).value) <= Due(st)
  {
    DueChange(st, Burn(st, owner, assets).value, owner);
    FewerEarnLess(Read(st.shares.balances, owner), assets,
                  st.accrual.rewardPerTokenStored - Read(st.accrual.userPaid, owner));
  }

  lemma BurnKeeps(st: State, owner: Address, assets: nat)
    requires Sound(st)
    ensures var burned := Burn(st, owner, assets);
            && (burned.Ok? <==> assets <= Read(st.shares.balances, owner))
            && (burned.Ok? ==> Keeps(st, burned.value)
                               && burned.value.shares.totalSupply == st.shares.totalSupply - assets
                               && (forall b: Address :: Seen(st, b) ==> Seen(burned.value, b)))
  {
    PartOfTotal(st.shares.balances, owner);
    if assets <= Read(st.shares.balances, owner) {
      TotalWrite(st.shares.balances, owner, Read(st.shares.balances, owner) - assets);
      BurnDue(st, owner, assets);
    }
  }

  lemma FewerEarnLess(balance: nat, assets: nat, unseen: nat)
    requires assets <= balance
    ensures (balance - assets) * unseen <= balance * unseen
  {
  }

  lemma MovedTotal(balances: Mapping, from: Address, to: Address, amount: nat)
    requires amount <= Read(balances, from)
    ensures Total(Moved(balances, from, to, amount)) == Total(balances)
  {
    var debited := Write(balances, from, Read(balances, from) - amount);
    TotalWrite(balances, from, Read(balances, from) - amount);
    TotalWrite(debited, to, Read(debited, to) + amount);
  }

  lemma MovedReads(balances: Mapping, from: Address, to: Address, amount: nat)
    requires amount <= Read(balances, from)
    ensures forall a: nat :: a != from && a != to ==> Read(Moved(balances, from, to, amount), a) == Read(balances, a)
  {
  }

  /** Shares move only between holders who are both up to date. */
  lemma MoveKeeps(st: State, from: Address, to: Address, amount: nat)
    requires Sound(st) && (from != 0 ==> Seen(st, from)) && (to != 0 ==> Seen(st, to))
    requires Move(st, from, to, amount).Ok?
    ensures Keeps(st, Move(st, from, to, amount).value)
  {
    MovedTotal(st.shares.balances, from, to, amount);
    MovedReads(st.shares.balances, from, to, amount);
    SeenSharesFree(st, Move(st, from, to, amount).value);
  }

  lemma SettleHeadKeeps(st: State, self: Address)
    requires Sound(st) && st.line.index < |st.line.queue| && st.line.queue[st.line.index].assets <= st.cash
    ensures SettleHead(st, self).Ok? && Keeps(st, SettleHead(st, self).value)
    ensures SettleHead(st, self).value.shares.totalSupply <= st.shares.totalSupply
    ensures forall b: Address :: Seen(st, b) ==> Seen(SettleHead(st, self).value, b)
  {
    var item := st.line.queue[st.line.index];
    var before := st;
    BurnKeeps(st, item.owner, item.assets);
    if Read(st.shares.balances, item.owner) >= item.assets {
      before := Burn(st, item.owner, item.assets).value;
    }
    OtherFieldsKeep(before, SettleHead(st, self).value);
  }

  lemma {:induction false} SettleKeeps(st: State, self: Address, last: nat)
    requires Sound(st) && last <= |st.line.queue|
    ensures Settle(st, self, last).Ok? && Keeps(st, Settle(st, self, last).value)
    ensures Settle(st, self, last).value.shares.totalSupply <= st.shares.totalSupply
    ensures forall b: Address :: Seen(st, b) ==> Seen(Settle(st, self, last).value, b)
    decreases last - st.line.index
  {
    if st.line.index < last && st.line.queue[st.line.index].assets <= st.cash {
      SettleHeadKeeps(st, self);
      SettleKeeps(SettleHead(st, self).value, self, last);
    }
  }

  lemma ProcessKeeps(st: State, self: Address, limit: nat)
    requires Sound(st)
    ensures var r := ProcessQueue(st, self, limit);
            && (r.Ok? <==> Accrue(st).Ok? && st.line.index + limit < UINT256_LIMIT)
            && (r.Ok? ==> Keeps(st, r.value) && r.value.shares.totalSupply <= st.shares.totalSupply
                          && forall b: Address :: Seen(st, b) ==> Seen(r.value, b))
  {
    if Accrue(st).Ok? {
      UpdateKeeps(st, 0);
      var updated := Update(st, 0).value;
      if st.line.index + limit < UINT256_LIMIT {
        SettleKeeps(updated, self, LastIndex(updated.line, limit).value);
      }
    }
  }

  // ----- the actions

  lemma ServeKeeps(st: State, self: Address)
    requires Sound(st)
    ensures var r := ServeQueue(st, self);
            r.Ok? ==> Keeps(st, r.value) && r.value.shares.totalSupply <= st.shares.totalSupply
                      && forall b: Address :: Seen(st, b) ==> Seen(r.value, b)
  {
    ProcessKeeps(st, self, MAX_QUEUE_PROCESS_LIMIT);
  }

  lemma KeepsTransitive(a: State, b: State, c: State)
    requires Keeps(a, b) && Keeps(b, c)
    ensures Keeps(a, c)
  {
  }

  lemma ServedDepositKeeps(st: State, self: Address, amount: nat)
    requires Sound(st) && ServeQueue(st.(cash := st.cash + amount), self).Ok?
    ensures var served := ServeQueue(st.(cash := st.cash + amount), self).value;
            && Keeps(st, served) && served.shares.totalSupply <= st.shares.totalSupply
            && (forall b: Address :: Seen(st, b) ==> Seen(served, b))
  {
    var funded := st.(cash := st.cash + amount);
    OtherFieldsKeep(st, funded);
    ServeKeeps(funded, self);
    KeepsTransitive(st, funded, ServeQueue(funded, self).value);
  }

  lemma AcceptKeeps(st: State, served: Result<State>, amount: nat, receiver: Address)
    requires Sound(st) && Accept(st, served, amount, receiver).Ok?
    requires served.Ok? ==> Keeps(st, served.value) && (receiver != 0 ==> Seen(served.value, receiver))
    ensures Keeps(st, Accept(st, served, amount, receiver).value)
  {
    MintKeeps(served.value, receiver, amount);
    KeepsTransitive(st, served.value, Accept(st, served, amount, receiver).value);
  }

  lemma AcceptServedKeeps(st: State, self: Address, amount: nat, receiver: Address, next: State)
    requires Sound(st) && (receiver != 0 ==> Seen(st, receiver))
    requires AcceptServed(Ok(st), self, amount, receiver) == Ok(next)
    ensures Keeps(st, next)
  {
    ServedDepositKeeps(st, self, amount);
    AcceptKeeps(st, ServeQueue(st.(cash := st.cash + amount), self), amount, receiver);
  }

  lemma DepositKeeps(st: State, self: Address, amount: nat, receiver: Address, next: State)
    requires Sound(st) && Deposit(st, self, amount, receiver) == Ok(next)
    ensures Keeps(st, next)
  {
    var updated := Update(st, receiver).value;
    UpdateKeeps(st, receiver);
    AcceptServedKeeps(updated, self, amount, receiver, next);
    KeepsTransitive(st, updated, next);
  }

  lemma PayOrQueueKeeps(st: State, self: Address, request: Request)
    requires Sound(st) && PayOrQueue(st, self, request).Ok?
    ensures Keeps(st, PayOrQueue(st, self, request).value.0)
  {
    if request.assets <= st.cash && |st.line.queue| == st.line.index {
      BurnKeeps(st, request.owner, request.assets);
      var burned := Burn(st, request.owner, request.assets).value;
      OtherFieldsKeep(burned, PayOut(burned, self, request.receiver, request.assets));
    } else {
      OtherFieldsKeep(st, Enqueue(st, request));
      ProcessKeeps(Enqueue(st, request), self, 0);
    }
  }

  lemma AllowanceKeeps(st: State, owner: Address, spender: Address, amount: nat)
    requires Sound(st) && SpendAllowance(st, owner, spender, amount).Ok?
    ensures var next := SpendAllowance(st, owner, spender, amount).value;
            Keeps(st, next) && forall b: Address :: Seen(st, b) ==> Seen(next, b)
  {
    OtherFieldsKeep(st, SpendAllowance(st, owner, spender, amount).value);
  }

  lemma SpendAndPayKeeps(st: State, self: Address, request: Request)
    requires Sound(st) && SpendAndPay(Ok(st), self, request).Ok?
    ensures Keeps(st, SpendAndPay(Ok(st), self, request).value.0)
  {
    if request.caller != request.owner {
      AllowanceKeeps(st, request.owner, request.caller, request.assets);
    }
    PayOrQueueKeeps(SpendForOwner(st, request).value, self, request);
  }

  lemma WithdrawKeeps(st: State, self: Address, request: Request)
    requires Sound(st) && Withdraw(st, self, request).Ok?
    ensures Keeps(st, Withdraw(st, self, request).value.0)
  {
    UpdateKeeps(st, request.owner);
    var updated := Update(st, request.owner).value;
    GetRewardKeeps(updated, self, request.owner);
    SpendAndPayKeeps(GetReward(updated, self, request.owner).value, self, request);
  }

  lemma SeeBothKeeps(st: State, self: Address, from: Address, to: Address)
    requires Sound(st) && SeeBoth(st, self, from, to).Ok?
    ensures var next := SeeBoth(st, self, from, to).value;
            && Keeps(st, next)
            && (from != 0 ==> Seen(next, from)) && (to != 0 ==> Seen(next, to))
  {
    UpdateKeeps(st, to);
    GetRewardKeeps(Update(st, to).value, self, from);
  }

  lemma TransferKeeps(st: State, self: Address, from: Address, to: Address, amount: nat)
    requires Sound(st) && Transfer(st, self, from, to, amount).Ok?
    ensures Keeps(st, Transfer(st, self, from, to, amount).value)
  {
    SeeBothKeeps(st, self, from, to);
    MoveKeeps(SeeBoth(st, self, from, to).value, from, to, amount);
  }

  lemma TransferFromKeeps(st: State, self: Address, caller: Address, from: Address, to: Address, amount: nat)
    requires Sound(st) && TransferFrom(st, self, caller, from, to, amount).Ok?
    ensures Keeps(st, TransferFrom(st, self, caller, from, to, amount).value)
  {
    SeeBothKeeps(st, self, from, to);
    var rewarded := SeeBoth(st, self, from, to).value;
    AllowanceKeeps(rewarded, from, caller, amount);
    MoveKeeps(SpendAllowance(rewarded, from, caller, amount).value, from, to, amount);
  }
}
