/** The vault's withdrawal queue: served first in, first out, over every run. */
module VaultQueue {
  import opened Evm
  import opened Storage
  import opened DlpVaults
  import opened VaultAccounts
  import opened VaultRuns

  /** The settled requests are the first ones queued, in their order, and their slots are cleared;
      the others wait in theirs. */
  ghost predicate Fifo(line: Line) {
    && |line.settled| == line.index <= |line.queue| == |line.queued|
    && (forall i :: 0 <= i < line.index ==> line.settled[i].request == line.queued[i])
    && (forall i :: 0 <= i < line.index ==> line.queue[i] == NO_REQUEST)
    && (forall i :: line.index <= i < |line.queue| ==> line.queue[i] == line.queued[i])
  }

  /** Nothing queued is forgotten and nothing settled is settled again. */
  ghost predicate Extends(line: Line, next: Line) {
    line.queued <= next.queued && line.settled <= next.settled
  }

  lemma UpdateFields(st: State, a: Address)
    ensures var r := Update(st, a);
            r.Ok? ==> r.value.line == st.line && r.value.cash == st.cash && r.value.shares == st.shares
                      && r.value.allowances == st.allowances
  {
  }

  lemma GetRewardFields(st: State, self: Address, a: Address)
    ensures var r := DlpVaults.GetReward(st, self, a);
            r.Ok? ==> r.value.line == st.line && r.value.cash == st.cash && r.value.shares == st.shares
                      && r.value.allowances == st.allowances
  {
    UpdateFields(st, a);
  }

  /** What was paid out of an owner's shares. */
  ghost function PaidFor(settled: seq<Settlement>, owner: Address): nat {
    if settled == [] then 0
    else
      (if settled[0].paid && settled[0].request.owner == owner then settled[0].request.assets else 0)
      + PaidFor(settled[1..], owner)
  }

  /** What left the vault. */
  ghost function PaidAway(settled: seq<Settlement>, self: Address): nat {
    if settled == [] then 0
    else
      (if settled[0].paid && settled[0].request.receiver != self then settled[0].request.assets else 0)
      + PaidAway(settled[1..], self)
  }

  /** The settlement of the request at the head. */
  ghost function HeadSettlement(st: State): Settlement
    requires st.line.index < |st.line.queue|
  {
    var item := st.line.queue[st.line.index];
    Settlement(item, item.assets <= Read(st.shares.balances, item.owner))
  }

  /** `next` is `st` with its head settled. */
  ghost predicate HeadGone(st: State, self: Address, next: State)
    requires st.line.index < |st.line.queue|
  {
    && next.line == Line(st.line.queue[st.line.index := NO_REQUEST], st.line.index + 1,
                         st.line.queued, st.line.settled + [HeadSettlement(st)])
    && next.cash == st.cash - PaidAway([HeadSettlement(st)], self)
    && forall a: Address ::
         Read(next.shares.balances, a) == Read(st.shares.balances, a) - PaidFor([HeadSettlement(st)], a)
  }

  lemma HeadFields(st: State, self: Address)
    requires st.line.index < |st.line.queue| && st.line.queue[st.line.index].assets <= st.cash
    requires SettleHead(st, self).Ok?
    ensures HeadGone(st, self, SettleHead(st, self).value)
  {
  }

  lemma HeadFifo(st: State, self: Address)
    requires Fifo(st.line) && st.line.index < |st.line.queue| && st.line.queue[st.line.index].assets <= st.cash
    ensures var r := SettleHead(st, self);
            r.Ok? ==> Fifo(r.value.line) && Extends(st.line, r.value.line) && r.value.line.queued == st.line.queued
  {
    if SettleHead(st, self).Ok? {
      HeadFields(st, self);
    }
  }

  lemma {:induction false} SettleFifo(st: State, self: Address, last: nat)
    requires Fifo(st.line) && last <= |st.line.queue|
    ensures var r := Settle(st, self, last);
            r.Ok? ==> Fifo(r.value.line) && Extends(st.line, r.value.line) && r.value.line.queued == st.line.queued
    decreases last - st.line.index
  {
    if st.line.index < last && st.line.queue[st.line.index].assets <= st.cash && SettleHead(st, self).Ok? {
      HeadFifo(st, self);
      SettleFifo(SettleHead(st, self).value, self, last);
    }
  }

  lemma ProcessFifo(st: State, self: Address, limit: nat)
    requires Fifo(st.line)
    ensures var r := DlpVaults.ProcessQueue(st, self, limit);
            r.Ok? ==> Fifo(r.value.line) && Extends(st.line, r.value.line) && r.value.line.queued == st.line.queued
  {
    UpdateFields(st, 0);
    if DlpVaults.ProcessQueue(st, self, limit).Ok? {
      var updated := Update(st, 0).value;
      SettleFifo(updated, self, LastIndex(updated.line, limit).value);
    }
  }

  lemma ServeFifo(st: State, self: Address)
    requires Fifo(st.line)
    ensures var r := ServeQueue(st, self);
            r.Ok? ==> Fifo(r.value.line) && Extends(st.line, r.value.line)
  {
    ProcessFifo(st, self, MAX_QUEUE_PROCESS_LIMIT);
  }

  lemma SeenDepositFifo(st: State, self: Address, amount: nat, receiver: Address)
    requires Fifo(st.line)
    ensures var r := AcceptServed(Ok(st), self, amount, receiver);
            r.Ok? ==> Fifo(r.value.line) && Extends(st.line, r.value.line)
  {
    var funded := st.(cash := st.cash + amount);
    ServeFifo(funded, self);
    AcceptFields(st, ServeQueue(funded, self), amount, receiver);
  }

  lemma DepositFifo(st: State, self: Address, amount: nat, receiver: Address)
    requires Fifo(st.line)
    ensures var r := DlpVaults.Deposit(st, self, amount, receiver);
            r.Ok? ==> Fifo(r.value.line) && Extends(st.line, r.value.line)
  {
    if Update(st, receiver).Ok? {
      UpdateFields(st, receiver);
      SeenDepositFifo(Update(st, receiver).value, self, amount, receiver);
    }
  }

  lemma AcceptFields(st: State, served: Result<State>, amount: nat, receiver: Address)
    ensures var r := Accept(st, served, amount, receiver);
            r.Ok? ==> served.Ok? && r.value.line == served.value.line
  {
  }

  /** Paid at once, which no one in the line sees, or put at its end and perhaps served from there. */
  ghost predicate PaidOrQueued(st: State, request: Request, next: State, paid: nat) {
    if st.line.index == |st.line.queue| && request.assets <= st.cash then
      paid == request.assets && next.line == st.line
    else
      paid == 0 && next.line.queued == st.line.queued + [request]
  }

  lemma PayOrQueueFifo(st: State, self: Address, request: Request)
    requires Fifo(st.line)
    ensures var r := PayOrQueue(st, self, request);
            r.Ok? ==> Fifo(r.value.0.line) && Extends(st.line, r.value.0.line)
                      && PaidOrQueued(st, request, r.value.0, r.value.1)
  {
    if st.line.index != |st.line.queue| || request.assets > st.cash {
      ProcessFifo(Enqueue(st, request), self, 0);
    }
  }

  lemma SpendFields(st: State, owner: Address, spender: Address, amount: nat)
    ensures var r := SpendAllowance(st, owner, spender, amount);
            r.Ok? ==> r.value == st.(allowances := r.value.allowances)
  {
  }

  lemma SpendAndPayFifo(st: State, self: Address, request: Request)
    requires Fifo(st.line)
    ensures var r := SpendAndPay(Ok(st), self, request);
            r.Ok? ==> Fifo(r.value.0.line) && Extends(st.line, r.value.0.line)
                      && PaidOrQueued(st, request, r.value.0, r.value.1)
  {
    if SpendForOwner(st, request).Ok? {
      SpendFields(st, request.owner, request.caller, request.assets);
      PayOrQueueFifo(SpendForOwner(st, request).value, self, request);
    }
  }

  /** A withdrawal is paid at once exactly if no one waits and the cash suffices; otherwise it goes
      to the end of the queue. */
  lemma WithdrawFifo(st: State, self: Address, request: Request)
    requires Fifo(st.line)
    ensures var r := DlpVaults.Withdraw(st, self, request);
            r.Ok? ==> Fifo(r.value.0.line) && Extends(st.line, r.value.0.line)
                      && PaidOrQueued(st, request, r.value.0, r.value.1)
  {
    if DlpVaults.Withdraw(st, self, request).Ok? {
      var updated := Update(st, request.owner).value;
      UpdateFields(st, request.owner);
      GetRewardFields(updated, self, request.owner);
      SpendAndPayFifo(DlpVaults.GetReward(updated, self, request.owner).value, self, request);
    }
  }

  lemma SeeBothFields(st: State, self: Address, from: Address, to: Address)
    ensures var r := SeeBoth(st, self, from, to);
            r.Ok? ==> r.value.line == st.line && r.value.cash == st.cash && r.value.shares == st.shares
                      && r.value.allowances == st.allowances
  {
    UpdateFields(st, to);
    if Update(st, to).Ok? {
      GetRewardFields(Update(st, to).value, self, from);
    }
  }

  predicate Queues(a: Action) {
    a.Deposit? || a.Withdraw? || a.ProcessQueue?
  }

  lemma SharesLeaveLine(st: State, self: Address, a: Action)
    requires a.Transfer? || a.TransferFrom? || a.GetReward?
    ensures Next(st, self, a).line == st.line
  {
    match a
    case Transfer(from, to, amount) => SeeBothFields(st, self, from, to);
    case TransferFrom(caller, from, to, amount) => SeeBothFields(st, self, from, to);
    case GetReward(account) => GetRewardFields(st, self, account);
  }

  lemma OthersLeaveLine(st: State, self: Address, a: Action)
    requires !Queues(a)
    ensures Next(st, self, a).line == st.line
  {
    if IsSetting(a) {
      SettingFields(st, self, a);
    } else if a.Notify? {
      UpdateFields(st, 0);
    } else {
      SharesLeaveLine(st, self, a);
    }
  }

  lemma StepFifo(st: State, self: Address, a: Action)
    requires Fifo(st.line)
    ensures Fifo(Next(st, self, a).line) && Extends(st.line, Next(st, self, a).line)
  {
    if !Queues(a) {
      OthersLeaveLine(st, self, a);
    }
    match a
    case Deposit(amount, receiver) => DepositFifo(st, self, amount, receiver);
    case Withdraw(request) => WithdrawFifo(st, self, request);
    case ProcessQueue(limit) => ProcessFifo(st, self, limit);
    case _ =>
  }

  lemma {:induction false} RunFifo(st: State, self: Address, actions: seq<Action>)
    requires Fifo(st.line)
    ensures Fifo(Run(st, self, actions).line) && Extends(st.line, Run(st, self, actions).line)
    decreases |actions|
  {
    if actions != [] {
      StepFifo(st, self, actions[0]);
      RunFifo(Next(st, self, actions[0]), self, actions[1..]);
    }
  }

  /** Over every run the queue is served in order, each request at most once; and however the run
      goes on, what was settled stays settled. */
  lemma QueueServedInOrder(now: nat, self: Address, actions: seq<Action>, more: seq<Action>)
    ensures var st := Run(Start(now), self, actions);
            Fifo(st.line) && Extends(st.line, Run(st, self, more).line)
  {
    RunFifo(Start(now), self, actions);
    RunFifo(Run(Start(now), self, actions), self, more);
  }

  // ----- what one pass over the queue settles

  /** The settlement at `i` is of the request at `i`, within the cash that those before it left,
      and paid exactly if those before it left its owner the shares. */
  ghost predicate ServesAt(st: State, self: Address, made: seq<Settlement>, i: nat)
    requires i < |made| && st.line.index + i < |st.line.queue|
  {
    var request := st.line.queue[st.line.index + i];
    && made[i].request == request
    && request.assets + PaidAway(made[..i], self) <= st.cash
    && (made[i].paid <==> request.assets + PaidFor(made[..i], request.owner) <= Read(st.shares.balances, request.owner))
  }

  /** `made` settles the first requests of the queue in order. */
  ghost predicate Serves(st: State, self: Address, made: seq<Settlement>) {
    && st.line.index + |made| <= |st.line.queue|
    && forall i :: 0 <= i < |made| ==> ServesAt(st, self, made, i)
  }

  /** Served as `made` says, and stopped at `last` or at a request beyond the cash left. */
  ghost predicate Served(st: State, self: Address, last: nat, made: seq<Settlement>, next: State)
    requires last <= |st.line.queue|
  {
    && Serves(st, self, made)
    && next.line.settled == st.line.settled + made
    && next.line.index == st.line.index + |made| && |next.line.queue| == |st.line.queue|
    && next.line.queued == st.line.queued
    && (forall i :: 0 <= i < |st.line.queue| ==>
          next.line.queue[i]
          == if st.line.index <= i < next.line.index then NO_REQUEST else st.line.queue[i])
    && next.cash == st.cash - PaidAway(made, self)
    && (forall owner: Address ::
          Read(next.shares.balances, owner) == Read(st.shares.balances, owner) - PaidFor(made, owner))
    && (next.line.index >= last || next.line.queue[next.line.index].assets > next.cash)
    && (made != [] ==> next.line.index <= last)
  }

  /** A pass settles at most `limit` requests, or any number for 0; short of that it stops only when
      none waits or the next is beyond the cash left. */
  ghost predicate Stopped(st: State, limit: nat, made: seq<Settlement>, next: State) {
    && (limit > 0 ==> |made| <= limit)
    && (|made| != limit || limit == 0 ==>
          st.line.index + |made| >= |st.line.queue| || st.line.queue[st.line.index + |made|].assets > next.cash)
  }

  lemma PaidAfterHead(head: Settlement, rest: seq<Settlement>, self: Address, owner: Address)
    ensures PaidAway([head] + rest, self) == PaidAway([head], self) + PaidAway(rest, self)
    ensures PaidFor([head] + rest, owner) == PaidFor([head], owner) + PaidFor(rest, owner)
  {
    assert ([head] + rest)[1..] == rest && [head][1..] == [];
  }

  lemma ServesAtAfterHead(st: State, self: Address, next: State, rest: seq<Settlement>, i: nat)
    requires 0 < i <= |rest| && st.line.index + i < |st.line.queue|
    requires HeadGone(st, self, next) && ServesAt(next, self, rest, i - 1)
    ensures ServesAt(st, self, [HeadSettlement(st)] + rest, i)
  {
    var head := HeadSettlement(st);
    var made := [head] + rest;
    assert made[..i] == [head] + rest[..i - 1] && made[i] == rest[i - 1];
    PaidAfterHead(head, rest[..i - 1], self, rest[i - 1].request.owner);
  }

  lemma ServesAfterHead(st: State, self: Address, next: State, rest: seq<Settlement>)
    requires st.line.index < |st.line.queue| && st.line.queue[st.line.index].assets <= st.cash
    requires HeadGone(st, self, next) && Serves(next, self, rest)
    ensures Serves(st, self, [HeadSettlement(st)] + rest)
  {
    var made := [HeadSettlement(st)] + rest;
    forall i | 0 <= i < |made|
      ensures ServesAt(st, self, made, i)
    {
      if i > 0 {
        ServesAtAfterHead(st, self, next, rest, i);
      }
    }
  }

  lemma ServedAfterHead(st: State, self: Address, last: nat, next: State, rest: seq<Settlement>, final: State)
    requires st.line.index < last <= |st.line.queue| && st.line.queue[st.line.index].assets <= st.cash
    requires HeadGone(st, self, next) && Served(next, self, last, rest, final)
    ensures Served(st, self, last, [HeadSettlement(st)] + rest, final)
  {
    ServesAfterHead(st, self, next, rest);
    forall owner: Address
      ensures PaidFor([HeadSettlement(st)] + rest, owner) == PaidFor([HeadSettlement(st)], owner) + PaidFor(rest, owner)
      ensures PaidAway([HeadSettlement(st)] + rest, self) == PaidAway([HeadSettlement(st)], self) + PaidAway(rest, self)
    {
      PaidAfterHead(HeadSettlement(st), rest, self, owner);
    }
    PaidAfterHead(HeadSettlement(st), rest, self, self);
  }

  lemma {:induction false} SettleServes(st: State, self: Address, last: nat) returns (made: seq<Settlement>)
    requires st.line.index <= |st.line.queue| && last <= |st.line.queue| && Settle(st, self, last).Ok?
    ensures Served(st, self, last, made, Settle(st, self, last).value)
    decreases last - st.line.index
  {
    made := [];
    if st.line.index < last && st.line.queue[st.line.index].assets <= st.cash {
      var next := SettleHead(st, self).value;
      HeadFields(st, self);
      var rest := SettleServes(next, self, last);
      ServedAfterHead(st, self, last, next, rest, Settle(st, self, last).value);
      made := [HeadSettlement(st)] + rest;
    }
  }

  /** One pass over the queue: what it settles and how, and why it stops. It reverts exactly if the
      rewards cannot accrue or the limit, added to the head's index, leaves the word. */
  lemma ProcessServes(st: State, self: Address, limit: nat) returns (made: seq<Settlement>)
    requires Sound(st) && st.line.index <= |st.line.queue|
    ensures var r := DlpVaults.ProcessQueue(st, self, limit);
            && (r.Ok? <==> Accrue(st).Ok? && st.line.index + limit < UINT256_LIMIT)
            && (r.Ok? ==>
                  && Served(st, self, LastIndex(st.line, limit).value, made, r.value)
                  && Stopped(st, limit, made, r.value))
  {
    made := [];
    ProcessKeeps(st, self, limit);
    UpdateFields(st, 0);
    if DlpVaults.ProcessQueue(st, self, limit).Ok? {
      made := SettleServes(Update(st, 0).value, self, LastIndex(st.line, limit).value);
      SameServes(st, Update(st, 0).value, self, made);
    }
  }

  lemma SameServes(st: State, updated: State, self: Address, made: seq<Settlement>)
    requires updated.line == st.line && updated.cash == st.cash && updated.shares.balances == st.shares.balances
    requires Serves(updated, self, made)
    ensures Serves(st, self, made)
  {
    forall i | 0 <= i < |made|
      ensures ServesAt(st, self, made, i)
    {
      assert ServesAt(updated, self, made, i);
    }
  }
}
