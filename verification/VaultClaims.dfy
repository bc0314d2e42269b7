/** Whether the reward tokens the vault holds suffice for the claims on it. */
module VaultClaims {
  import opened Evm
  import opened Storage
  import opened Sequences
  import opened Sums
  import opened DlpVaults
  import opened VaultAccounts
  import opened VaultRuns

  // ----- one claim

  /** The end of the period, or the block's time if that comes first. */
  ghost function ClockNow(st: State): nat {
    if st.now <= st.accrual.finishAt then st.now else st.accrual.finishAt
  }

  /** The rewards released since the last accrual; none while no one holds shares. */
  ghost function ReleasedNow(st: State): int {
    if st.shares.totalSupply == 0 then 0 else st.accrual.rewardRate * (ClockNow(st) - st.accrual.updatedAt)
  }

  ghost function PerTokenNow(st: State): int {
    st.accrual.rewardPerTokenStored
    + if st.shares.totalSupply == 0 then 0 else ReleasedNow(st) * SCALE / st.shares.totalSupply
  }

  /** When the arithmetic of an answer fits, and what the answer then is. Only what was released, scaled,
      has to fit: unscaled it fits then too. */
  lemma EarnedExact(st: State, a: Address)
    requires Sound(st)
    ensures var accrued := Read(st.shares.balances, a) * (PerTokenNow(st) - Read(st.accrual.userPaid, a));
            && (Earned(st, a).Ok? <==>
                  && ReleasedNow(st) * SCALE < UINT256_LIMIT && PerTokenNow(st) < UINT256_LIMIT
                  && accrued < UINT256_LIMIT && accrued / SCALE + Read(st.accrual.rewards, a) < UINT256_LIMIT)
            && (Earned(st, a).Ok? ==> Earned(st, a).value == accrued / SCALE + Read(st.accrual.rewards, a))
  {
    PerTokenExact(st);
    if RewardPerToken(st).Ok? {
      GainIsReleased(st);
    }
  }

  lemma PerTokenExact(st: State)
    requires Sound(st)
    ensures RewardPerToken(st).Ok? <==> ReleasedNow(st) * SCALE < UINT256_LIMIT && PerTokenNow(st) < UINT256_LIMIT
    ensures RewardPerToken(st).Ok? ==> RewardPerToken(st).value == PerTokenNow(st)
  {
    if st.shares.totalSupply > 0 {
      var seconds := LastTime(st) - st.accrual.updatedAt;
      NoProductBelow(st.accrual.rewardRate, seconds);
    }
  }

  lemma NoProductBelow(rate: nat, seconds: nat)
    ensures 0 <= rate * seconds <= rate * seconds * SCALE
  {
  }

  lemma EarnedAgain(st: State, a: Address)
    requires Sound(st) && Accrue(st).Ok?
    ensures Earned(Accrue(st).value, a) == Earned(st, a)
  {
    AccrueKeeps(st);
    NothingNew(Accrue(st).value);
  }

  lemma UpdateFits(st: State, a: Address)
    requires Sound(st) && a != 0
    ensures Update(st, a).Ok? <==> Earned(st, a).Ok?
    ensures Update(st, a).Ok? ==> Read(Update(st, a).value.accrual.rewards, a) == Answer(st, a) < UINT256_LIMIT
  {
    if Accrue(st).Ok? {
      EarnedAgain(st, a);
    }
  }

  /** An account that is up to date is answered what it has stored. */
  lemma SeenEarned(st: State, a: Address)
    requires Sound(st) && Seen(st, a) && Read(st.accrual.rewards, a) < UINT256_LIMIT
    ensures Earned(st, a) == Ok(Read(st.accrual.rewards, a))
  {
    NothingNew(st);
    assert Read(st.shares.balances, a) * 0 == 0;
  }

  /** A claim succeeds exactly if its arithmetic fits and the vault holds what `earned` answers, which
      is then what is paid. */
  lemma ClaimExact(st: State, self: Address, a: Address)
    requires Sound(st) && a != 0
    ensures var r := DlpVaults.GetReward(st, self, a);
            && (r.Ok? <==> Earned(st, a).Ok? && Answer(st, a) <= st.funds)
            && (r.Ok? ==> r.value.ledger.rewardsPaid == st.ledger.rewardsPaid + Answer(st, a)
                          && r.value.funds == st.funds - if a == self then 0 else Answer(st, a))
            && (r.Revert? ==> r.error == if Earned(st, a).Ok? then InsufficientBalance else ArithmeticPanic)
  {
    if Accrue(st).Ok? {
      EarnedAgain(st, a);
    }
    SubtractsFit(st, a);
  }

  /** No subtraction of the reward arithmetic fails. */
  lemma SubtractsFit(st: State, a: Address)
    requires Sound(st)
    ensures RewardPerToken(st).Revert? ==> RewardPerToken(st).error == ArithmeticPanic
    ensures Earned(st, a).Revert? ==> Earned(st, a).error == ArithmeticPanic
  {
  }

  lemma ClaimFields(st: State, self: Address, a: Address)
    requires Sound(st) && a != 0 && DlpVaults.GetReward(st, self, a).Ok?
    ensures var accrued, next := Accrue(st).value, DlpVaults.GetReward(st, self, a).value;
            && next.accrual.rewardPerTokenStored == accrued.accrual.rewardPerTokenStored && next.shares == st.shares
            && next.accrual.updatedAt == LastTime(st) == LastTime(next)
            && forall b: nat :: b != a ==> Read(next.accrual.userPaid, b) == Read(st.accrual.userPaid, b)
                                           && Read(next.accrual.rewards, b) == Read(st.accrual.rewards, b)
  {
    AccrueKeeps(st);
    SeeAt(Accrue(st).value, a);
  }

  /** A claim changes no one else's answer. */
  lemma ClaimLeavesOthers(st: State, self: Address, a: Address, b: Address)
    requires Sound(st) && a != 0 && b != a && DlpVaults.GetReward(st, self, a).Ok?
    ensures Earned(DlpVaults.GetReward(st, self, a).value, b) == Earned(st, b)
  {
    ClaimFields(st, self, a);
    GetRewardKeeps(st, self, a);
    AccrueKeeps(st);
    EarnedAgain(st, b);
    SameEarned(Accrue(st).value, DlpVaults.GetReward(st, self, a).value, b);
  }

  lemma SameEarned(st: State, next: State, b: Address)
    requires Sound(st) && st.accrual.updatedAt == LastTime(st)
    requires Sound(next) && next.accrual.updatedAt == LastTime(next)
    requires next.accrual.rewardPerTokenStored == st.accrual.rewardPerTokenStored && next.shares == st.shares
    requires Read(next.accrual.userPaid, b) == Read(st.accrual.userPaid, b)
    requires Read(next.accrual.rewards, b) == Read(st.accrual.rewards, b)
    ensures Earned(next, b) == Earned(st, b)
  {
    NothingNew(st);
    NothingNew(next);
  }

  // ----- claims one after another

  function ClaimAll(st: State, self: Address, accounts: seq<Address>): Result<State>
    decreases |accounts|
  {
    if accounts == [] then Ok(st)
    else
      var next :- DlpVaults.GetReward(st, self, accounts[0]);
      ClaimAll(next, self, accounts[1..])
  }

  /** What `earned` answers for the accounts together. */
  ghost function Asked(st: State, accounts: seq<Address>): nat
    decreases |accounts|
  {
    if accounts == [] then 0 else Answer(st, accounts[0]) + Asked(st, accounts[1..])
  }

  ghost predicate AllFit(st: State, accounts: seq<Address>) {
    forall i :: 0 <= i < |accounts| ==> Earned(st, accounts[i]).Ok?
  }

  ghost predicate Claimants(accounts: seq<Address>, self: Address) {
    Distinct(accounts) && forall i :: 0 <= i < |accounts| ==> accounts[i] != 0 && accounts[i] != self
  }

  lemma {:induction false} AskedSame(st: State, next: State, accounts: seq<Address>)
    requires forall i :: 0 <= i < |accounts| ==> Earned(next, accounts[i]) == Earned(st, accounts[i])
    ensures Asked(next, accounts) == Asked(st, accounts) && (AllFit(next, accounts) <==> AllFit(st, accounts))
    decreases |accounts|
  {
    if accounts != [] {
      assert forall i :: 0 <= i < |accounts[1..]| ==> accounts[1..][i] == accounts[i + 1];
      AskedSame(st, next, accounts[1..]);
    }
  }

  lemma {:induction false} AskedAll(st: State, accounts: seq<Address>)
    ensures accounts != [] ==> (AllFit(st, accounts) <==> Earned(st, accounts[0]).Ok? && AllFit(st, accounts[1..]))
  {
    if accounts != [] {
      assert forall i :: 0 < i < |accounts| ==> accounts[i] == accounts[1..][i - 1];
    }
  }

  lemma FirstClaim(st: State, self: Address, accounts: seq<Address>)
    requires Sound(st) && Claimants(accounts, self) && accounts != []
    requires DlpVaults.GetReward(st, self, accounts[0]).Ok?
    ensures var next := DlpVaults.GetReward(st, self, accounts[0]).value;
            && Sound(next) && Claimants(accounts[1..], self)
            && next.funds == st.funds - Answer(st, accounts[0])
            && Asked(next, accounts[1..]) == Asked(st, accounts[1..])
            && (AllFit(next, accounts[1..]) <==> AllFit(st, accounts[1..]))
  {
    var a, rest := accounts[0], accounts[1..];
    var next := DlpVaults.GetReward(st, self, a).value;
    ClaimExact(st, self, a);
    GetRewardKeeps(st, self, a);
    assert forall i :: 0 <= i < |rest| ==> rest[i] == accounts[i + 1];
    forall i | 0 <= i < |rest|
      ensures Earned(next, rest[i]) == Earned(st, rest[i])
    {
      ClaimLeavesOthers(st, self, a, rest[i]);
    }
    AskedSame(st, next, rest);
  }

  /** Claims at one time, by any accounts other than the vault, all succeed exactly if their arithmetic
      fits and the vault holds what `earned` answers for them together. */
  lemma {:induction false} ClaimsSucceedIff(st: State, self: Address, accounts: seq<Address>)
    requires Sound(st) && Claimants(accounts, self)
    ensures ClaimAll(st, self, accounts).Ok? <==> AllFit(st, accounts) && Asked(st, accounts) <= st.funds
    decreases |accounts|
  {
    if accounts != [] {
      ClaimExact(st, self, accounts[0]);
      AskedAll(st, accounts);
      if DlpVaults.GetReward(st, self, accounts[0]).Ok? {
        FirstClaim(st, self, accounts);
        ClaimsSucceedIff(DlpVaults.GetReward(st, self, accounts[0]).value, self, accounts[1..]);
      }
    }
  }

  // ----- rewards against what the vault holds

  /** The reward tokens held suffice for all that was promised. */
  ghost predicate Solvent(st: State) {
    Committed(st) <= SCALE * st.funds
  }

  /** Only a notification, or taking reward tokens out, can break it. */
  lemma OthersKeepSolvent(st: State, self: Address, a: Action)
    requires Sound(st) && Solvent(st) && !a.Notify? && !a.FundsOut?
    ensures Sound(Next(st, self, a)) && Solvent(Next(st, self, a))
  {
    if Apply(st, self, a).Ok? {
      OthersKeep(st, self, a);
    }
  }

  lemma SolventAnswers(st: State, a: Address)
    requires Sound(st) && Solvent(st)
    ensures Answer(st, a) <= st.funds
  {
    if Accrue(st).Ok? {
      AccrueKeeps(st);
      AnswerWithinDue(st, a);
      DueNotNegative(Accrue(st).value);
      ScheduledNotNegative(Accrue(st).value);
    }
  }

  /** A claim is paid what `earned` answers, unless the arithmetic of that answer leaves the word. */
  ghost predicate PaidInFull(st: State, self: Address, a: Address) {
    match DlpVaults.GetReward(st, self, a)
    case Ok(next) => Earned(st, a).Ok? && next.ledger.rewardsPaid == st.ledger.rewardsPaid + Answer(st, a)
    case Revert(error) => Earned(st, a).Revert? && error == ArithmeticPanic
  }

  /** Then every account is paid in full, whenever it asks. */
  lemma SolventPays(st: State, self: Address, a: Address)
    requires Sound(st) && Solvent(st) && a != 0
    ensures PaidInFull(st, self, a)
  {
    ClaimExact(st, self, a);
    SolventAnswers(st, a);
  }

  ghost predicate Unnotified(actions: seq<Action>) {
    forall i :: 0 <= i < |actions| ==> !actions[i].Notify? && !actions[i].FundsOut?
  }

  lemma {:induction false} SolventRunPays(st: State, self: Address, actions: seq<Action>, a: Address)
    requires Sound(st) && Solvent(st) && Unnotified(actions) && a != 0
    ensures PaidInFull(Run(st, self, actions), self, a)
    decreases |actions|
  {
    if actions == [] {
      SolventPays(st, self, a);
    } else {
      OthersKeepSolvent(st, self, actions[0]);
      SolventRunPays(Next(st, self, actions[0]), self, actions[1..], a);
    }
  }

  // ----- notifications

  /** Some amount passes the checks of `notifyRewardAmount`. */
  predicate SomePasses(st: State) {
    && Accrue(st).Ok? && Remaining(st) < UINT256_LIMIT && st.now + st.accrual.duration < UINT256_LIMIT
    && st.accrual.duration > 0
    && st.funds / st.accrual.duration >= 1
    && Remaining(st) / st.accrual.duration <= st.funds / st.accrual.duration
  }

  lemma SomePassesMeaning(st: State)
    requires Sound(st)
    ensures (exists amount: Uint256 :: DlpVaults.Notify(st, amount).Ok?) <==> SomePasses(st)
    ensures SomePasses(st) ==>
              exists amount: Uint256 ::
                DlpVaults.Notify(st, amount).Ok?
                && (amount + Remaining(st)) / st.accrual.duration == st.funds / st.accrual.duration
  {
    if SomePasses(st) {
      var amount := LargestAmount(st.funds, Remaining(st), st.accrual.duration);
      LargestPasses(st, amount);
    }
    if amount: Uint256 :| DlpVaults.Notify(st, amount).Ok? {
      PassesWithin(st, amount);
      QuotientMonotone(Remaining(st), amount + Remaining(st), st.accrual.duration);
    }
  }

  lemma LargestPasses(st: State, amount: Uint256)
    requires SomePasses(st) && (amount + Remaining(st)) / st.accrual.duration == st.funds / st.accrual.duration
    requires amount + Remaining(st) < UINT256_LIMIT
    ensures DlpVaults.Notify(st, amount).Ok?
  {
    RateFits(st.funds / st.accrual.duration, st.funds, st.accrual.duration);
  }

  lemma RateFits(rate: nat, funds: nat, duration: nat)
    requires duration > 0
    ensures rate * duration <= funds <==> rate <= funds / duration
  {
    assert funds == funds / duration * duration + funds % duration;
    if rate <= funds / duration {
      assert rate * duration <= funds / duration * duration;
    } else {
      assert rate * duration >= (funds / duration + 1) * duration;
    }
  }

  lemma QuotientMonotone(a: nat, b: nat, d: nat)
    requires a <= b && d > 0
    ensures a / d <= b / d
  {
    assert a / d * d <= a;
    RateFits(a / d, b, d);
  }

  function LargestAmount(funds: nat, remaining: nat, duration: nat): (amount: nat)
    requires duration > 0 && remaining / duration <= funds / duration
    ensures (amount + remaining) / duration == funds / duration
    ensures amount <= funds && (amount + remaining <= funds || amount == 0)
  {
    RateFits(funds / duration, funds, duration);
    var whole := funds / duration * duration;
    if remaining <= whole then
      DivisionUnique(whole, funds / duration, duration, 0);
      whole - remaining
    else
      RateFits(funds / duration, remaining, duration);
      0
  }

  /** `notifyRewardAmount` checks the new period against the balance, not what is still unpaid. Its
      check suffices for every amount exactly if no amount passes it, or what is unpaid fits in
      what the largest rate leaves of the balance. */
  lemma GuardSuffices(st: State)
    requires Sound(st)
    ensures (forall amount: Uint256 ::
               DlpVaults.Notify(st, amount).Ok? ==> Solvent(DlpVaults.Notify(st, amount).value))
            <==> !SomePasses(st) || Due(Accrue(st).value) <= SCALE * (st.funds % st.accrual.duration)
  {
    SomePassesMeaning(st);
    if SomePasses(st) {
      var amount: Uint256 :|
        DlpVaults.Notify(st, amount).Ok?
        && (amount + Remaining(st)) / st.accrual.duration == st.funds / st.accrual.duration;
      LargestIsSolvent(st, amount);
      forall other: Uint256 | DlpVaults.Notify(st, other).Ok?
        ensures Solvent(DlpVaults.Notify(st, amount).value) ==> Solvent(DlpVaults.Notify(st, other).value)
      {
        LargestCommitsMost(st, other, amount);
      }
    }
  }

  lemma WithinBalance(due: int, funds: nat, duration: nat)
    requires duration > 0
    ensures due + SCALE * (funds / duration * duration) <= SCALE * funds <==> due <= SCALE * (funds % duration)
  {
    assert funds == funds / duration * duration + funds % duration;
  }

  lemma LargestIsSolvent(st: State, amount: nat)
    requires Sound(st) && DlpVaults.Notify(st, amount).Ok? && st.accrual.duration > 0
    requires (amount + Remaining(st)) / st.accrual.duration == st.funds / st.accrual.duration
    ensures Solvent(DlpVaults.Notify(st, amount).value)
            <==> Due(Accrue(st).value) <= SCALE * (st.funds % st.accrual.duration)
  {
    NotifyCommits(st, amount);
    WithinBalance(Due(Accrue(st).value), st.funds, st.accrual.duration);
  }

  lemma LargestCommitsMost(st: State, other: nat, amount: nat)
    requires Sound(st) && DlpVaults.Notify(st, amount).Ok? && DlpVaults.Notify(st, other).Ok? && st.accrual.duration > 0
    requires (amount + Remaining(st)) / st.accrual.duration == st.funds / st.accrual.duration
    ensures Committed(DlpVaults.Notify(st, other).value) <= Committed(DlpVaults.Notify(st, amount).value)
    ensures DlpVaults.Notify(st, other).value.funds == DlpVaults.Notify(st, amount).value.funds
  {
    NotifyCommits(st, amount);
    NotifyCommits(st, other);
    PassesWithin(st, other);
    ProductMonotone((other + Remaining(st)) / st.accrual.duration, st.funds / st.accrual.duration, st.accrual.duration);
  }

  lemma PassesWithin(st: State, amount: nat)
    requires Sound(st) && DlpVaults.Notify(st, amount).Ok?
    ensures st.accrual.duration > 0 && (amount + Remaining(st)) / st.accrual.duration <= st.funds / st.accrual.duration
  {
    RateFits((amount + Remaining(st)) / st.accrual.duration, st.funds, st.accrual.duration);
  }

  lemma ProductMonotone(a: nat, b: nat, c: nat)
    requires a <= b
    ensures a * c <= b * c
  {
  }

  // ----- notifications that bring their own funds

  ghost predicate Backed(st: State) {
    st.funds + st.ledger.rewardsPaid >= st.ledger.notified
  }

  /** No reward tokens are taken out, and each notification finds its amount on top of all that
      was notified before and not yet paid. */
  ghost predicate FundedRun(st: State, self: Address, actions: seq<Action>)
    decreases |actions|
  {
    actions == []
    || (&& !actions[0].FundsOut?
        && (actions[0].Notify? ==>
              st.funds + st.ledger.rewardsPaid >= st.ledger.notified + actions[0].amount)
        && FundedRun(Next(st, self, actions[0]), self, actions[1..]))
  }

  lemma {:induction false} FundedRunBacked(st: State, self: Address, actions: seq<Action>)
    requires Sound(st) && Covered(st) && Backed(st) && FundedRun(st, self, actions)
    ensures Backed(Run(st, self, actions))
    decreases |actions|
  {
    if actions != [] {
      StepKeeps(st, self, actions[0]);
      if Apply(st, self, actions[0]).Ok? {
        if actions[0].Notify? {
          NotifyCommits(st, actions[0].amount);
        } else {
          OthersKeep(st, self, actions[0]);
        }
      }
      FundedRunBacked(Next(st, self, actions[0]), self, actions[1..]);
    }
  }

  /** After any such run every account is paid what `earned` answers; and while all that was notified
      is below 2^256 over 10^18, no claim fails. */
  lemma FundedRunPays(now: nat, self: Address, actions: seq<Action>, a: Address)
    requires FundedRun(Start(now), self, actions) && a != 0
    ensures var st := Run(Start(now), self, actions);
            && PaidInFull(st, self, a)
            && (SCALE * st.ledger.notified < UINT256_LIMIT ==> DlpVaults.GetReward(st, self, a).Ok?)
  {
    var st := Run(Start(now), self, actions);
    StartSound(now);
    RunKeeps(Start(now), self, actions);
    FundedRunBacked(Start(now), self, actions);
    SolventPays(st, self, a);
    if SCALE * st.ledger.notified < UINT256_LIMIT {
      SmallNeverOverflows(st, a);
    }
  }

  // ----- when the claims fail

  /** The vault when the running period is over. */
  function PeriodOver(st: State): State {
    st.(now := if st.accrual.finishAt <= st.now then st.now else st.accrual.finishAt)
  }

  lemma QuotientLoses(released: nat, supply: nat)
    requires supply > 0
    ensures released < supply * (released / supply) + supply
  {
  }

  lemma StoringLosesLittle(balance: nat, unseen: nat, stored: nat)
    ensures balance * unseen + SCALE * stored < SCALE * (balance * unseen / SCALE + stored) + SCALE
    ensures balance == 0 ==> balance * unseen + SCALE * stored <= SCALE * (balance * unseen / SCALE + stored)
  {
  }

  lemma AccrualArithmetic(rate: nat, seconds: nat, left: int, supply: nat)
    requires supply > 0
    ensures rate * seconds * SCALE / supply >= 0
    ensures SCALE * (rate * (left + seconds))
            < (rate * seconds * SCALE / supply) * supply + supply + SCALE * (rate * left)
  {
    Distribute(rate, left, seconds);
    assert rate * seconds >= 0;
    QuotientLoses(rate * seconds * SCALE, supply);
  }

  /** An accrual loses less than the supply to its rounding. */
  lemma AccrualLoses(st: State)
    requires Sound(st) && Accrue(st).Ok? && st.shares.totalSupply > 0
    ensures Committed(st) < Committed(Accrue(st).value) + st.shares.totalSupply
  {
    var seconds, left := LastTime(st) - st.accrual.updatedAt, st.accrual.finishAt - LastTime(st);
    AccrualArithmetic(st.accrual.rewardRate, seconds, left, st.shares.totalSupply);
    GainIsOwed(st, Accrue(st).value, st.accrual.rewardRate * seconds * SCALE / st.shares.totalSupply);
    assert left + seconds == st.accrual.finishAt - st.accrual.updatedAt;
  }

  ghost function Holdings(st: State): (s: seq<int>)
    ensures |s| == UINT160_LIMIT && forall a: Address :: s[a] == if Read(st.shares.balances, a) > 0 then 1 else 0
  {
    seq(UINT160_LIMIT, a requires 0 <= a < UINT160_LIMIT => if Read(st.shares.balances, a) > 0 then 1 else 0)
  }

  /** How many accounts hold shares. */
  ghost function Holders(st: State): int {
    Sum(Holdings(st))
  }

  lemma AnswerLosesLittle(st: State, a: Address)
    requires Sound(st) && Accrue(st).Ok? && Earned(st, a).Ok?
    ensures DueTo(Accrue(st).value, a) <= SCALE * Answer(st, a) + SCALE * Holdings(st)[a]
  {
    GainIsReleased(st);
    StoringLosesLittle(Read(st.shares.balances, a),
                       Accrue(st).value.accrual.rewardPerTokenStored - Read(st.accrual.userPaid, a),
                       Read(st.accrual.rewards, a));
  }

  lemma AnswersLoseLittle(st: State)
    requires Sound(st) && Accrue(st).Ok? && forall a: Address :: Earned(st, a).Ok?
    ensures Due(Accrue(st).value) <= SCALE * (Sum(Answers(st)) + Holders(st))
  {
    forall a: Address
      ensures Dues(Accrue(st).value)[a] <= SCALE * (Answers(st)[a] + Holdings(st)[a])
    {
      AnswerLosesLittle(st, a);
    }
    SumScaledPairs(Dues(Accrue(st).value), Answers(st), Holdings(st));
  }

  lemma SumScaledPairs(s: seq<int>, t: seq<int>, u: seq<int>)
    requires |s| == |t| == |u| && forall i :: 0 <= i < |s| ==> s[i] <= SCALE * (t[i] + u[i])
    ensures Sum(s) <= SCALE * (Sum(t) + Sum(u))
  {
    var n := |s|;
    var none, both := seq(n, _ => 0), seq(n, i requires 0 <= i < n => t[i] + u[i]);
    var scaled := seq(n, i requires 0 <= i < n => SCALE * both[i]);
    AllZero(none);
    SumAtMost(s, scaled);
    SumAffine(none, scaled, both, SCALE);
    SumAffine(t, both, u, 1);
  }

  // the accounts that can claim

  /** The addresses of `all` other than zero and the vault. */
  ghost function Others(all: seq<Address>, self: Address): seq<Address> {
    if all == [] then []
    else
      var n := |all| - 1;
      Others(all[..n], self) + if all[n] == 0 || all[n] == self then [] else [all[n]]
  }

  lemma {:induction false} AskedAppend(st: State, a: seq<Address>, b: seq<Address>)
    ensures Asked(st, a + b) == Asked(st, a) + Asked(st, b)
    decreases |a|
  {
    if a == [] {
      assert a + b == b;
    } else {
      assert (a + b)[1..] == a[1..] + b;
      AskedAppend(st, a[1..], b);
    }
  }

  lemma {:induction false} OthersMembers(all: seq<Address>, self: Address)
    ensures forall a: Address :: a in Others(all, self) <==> a in all && a != 0 && a != self
  {
    if all != [] {
      var n := |all| - 1;
      OthersMembers(all[..n], self);
      assert forall a: Address :: a in all <==> a in all[..n] || a == all[n];
    }
  }

  lemma {:induction false} OthersDistinct(all: seq<Address>, self: Address)
    requires Distinct(all)
    ensures Distinct(Others(all, self))
  {
    if all != [] {
      var n := |all| - 1;
      OthersDistinct(all[..n], self);
      OthersMembers(all[..n], self);
      assert all[n] !in all[..n];
    }
  }

  lemma OthersAreClaimants(all: seq<Address>, self: Address)
    requires Distinct(all)
    ensures Claimants(Others(all, self), self)
  {
    OthersDistinct(all, self);
    OthersMembers(all, self);
    assert forall i :: 0 <= i < |Others(all, self)| ==> Others(all, self)[i] in Others(all, self);
  }

  /** What the others ask for is all the answers but the vault's own. */
  lemma {:induction false} OthersAsk(st: State, all: seq<Address>, self: Address)
    requires Distinct(all) && Answer(st, 0) == 0
    ensures Sum(AnswersOf(st, all)) == Asked(st, Others(all, self)) + if self in all then Answer(st, self) else 0
  {
    if all != [] {
      var n := |all| - 1;
      OthersAsk(st, all[..n], self);
      SumLast(st, all);
      assert self in all <==> self in all[..n] || self == all[n];
      assert all[n] !in all[..n];
      AskedAppend(st, Others(all[..n], self), if all[n] == 0 || all[n] == self then [] else [all[n]]);
      AskedOne(st, all[n]);
    }
  }

  lemma AskedOne(st: State, a: Address)
    ensures Asked(st, [a]) == Answer(st, a) && Asked(st, []) == 0
  {
    assert [a][1..] == [];
  }

  lemma SumLast(st: State, all: seq<Address>)
    requires all != []
    ensures Sum(AnswersOf(st, all)) == Sum(AnswersOf(st, all[..|all| - 1])) + Answer(st, all[|all| - 1])
  {
    assert AnswersOf(st, all)[..|all| - 1] == AnswersOf(st, all[..|all| - 1]);
  }

  ghost function AnswersOf(st: State, all: seq<Address>): seq<int> {
    seq(|all|, i requires 0 <= i < |all| => Answer(st, all[i]))
  }

  ghost function AllAddresses(): (all: seq<Address>)
    ensures |all| == UINT160_LIMIT && Distinct(all) && forall a: Address :: all[a] == a
  {
    seq(UINT160_LIMIT, a requires 0 <= a < UINT160_LIMIT => a)
  }

  lemma NothingForZero(st: State)
    requires Sound(st)
    ensures Answer(st, 0) == 0
  {
  }

  lemma AllOthersAsk(st: State, self: Address)
    requires Sound(st)
    ensures Sum(Answers(st)) == Asked(st, Others(AllAddresses(), self)) + Answer(st, self)
  {
    NothingForZero(st);
    OthersAsk(st, AllAddresses(), self);
    assert AnswersOf(st, AllAddresses()) == Answers(st);
    assert AllAddresses()[self] == self;
  }

  lemma AllFitEverywhere(st: State, self: Address)
    requires Sound(st) && AllFit(st, Others(AllAddresses(), self)) && Earned(st, self).Ok?
    ensures forall a: Address :: Earned(st, a).Ok?
  {
    var others := Others(AllAddresses(), self);
    OthersMembers(AllAddresses(), self);
    forall a: Address
      ensures Earned(st, a).Ok?
    {
      if a != 0 && a != self {
        assert AllAddresses()[a] in AllAddresses();
        assert a in others;
        var i :| 0 <= i < |others| && others[i] == a;
      } else if a == 0 {
        ZeroFits(st);
      }
    }
  }

  lemma ZeroFits(st: State)
    requires Sound(st) && RewardPerToken(st).Ok?
    ensures Earned(st, 0).Ok?
  {
    GainIsReleased(st);
  }

  /** At the end of a period nothing is left to accrue. */
  lemma NothingScheduled(st: State)
    requires Sound(st) && st.accrual.finishAt <= st.now && Accrue(st).Ok?
    ensures Committed(Accrue(st).value) == Due(Accrue(st).value)
  {
  }

  /** Answers that leave the vault's own aside exceed what is held. */
  lemma ShortfallAsked(st: State, self: Address)
    requires Sound(st) && st.shares.totalSupply > 0 && st.accrual.finishAt <= st.now
    requires forall a: Address :: Earned(st, a).Ok?
    requires Committed(st) > SCALE * (st.funds + Answer(st, self) + Holders(st)) + st.shares.totalSupply
    ensures Asked(st, Others(AllAddresses(), self)) > st.funds
  {
    assert Earned(st, self).Ok? ==> Accrue(st).Ok?;
    AllOthersAsk(st, self);
    AccrualLoses(st);
    NothingScheduled(st);
    AnswersLoseLittle(st);
  }

  lemma PeriodOverKeeps(st: State)
    requires Sound(st)
    ensures Sound(PeriodOver(st)) && Committed(PeriodOver(st)) == Committed(st)
    ensures Holders(PeriodOver(st)) == Holders(st) && PeriodOver(st).accrual.finishAt <= PeriodOver(st).now
  {
    SameDue(st, PeriodOver(st));
    assert Holdings(PeriodOver(st)) == Holdings(st);
  }

  /** If more was promised than is held, by more than all the rounding can lose, then claims at the
      end of the period fail. */
  lemma ShortfallFails(st: State, self: Address)
    requires Sound(st) && st.shares.totalSupply > 0 && Earned(PeriodOver(st), self).Ok?
    requires Committed(st) > SCALE * (st.funds + Answer(PeriodOver(st), self) + Holders(st)) + st.shares.totalSupply
    ensures ClaimAll(PeriodOver(st), self, Others(AllAddresses(), self)).Revert?
  {
    var over, claimants := PeriodOver(st), Others(AllAddresses(), self);
    PeriodOverKeeps(st);
    OthersAreClaimants(AllAddresses(), self);
    ClaimsSucceedIff(over, self, claimants);
    if AllFit(over, claimants) {
      AllFitEverywhere(over, self);
      ShortfallAsked(over, self);
    }
  }

  /** Every claim is paid in full, whatever happens before the next notification. */
  ghost predicate ClaimsPaid(st: State, self: Address) {
    forall actions: seq<Action>, a: Address ::
      Unnotified(actions) && a != 0 ==> PaidInFull(Run(st, self, actions), self, a)
  }

  lemma SolventClaimsPaid(st: State, self: Address)
    requires Sound(st) && Solvent(st)
    ensures ClaimsPaid(st, self)
  {
    forall actions: seq<Action>, a: Address | Unnotified(actions) && a != 0
      ensures PaidInFull(Run(st, self, actions), self, a)
    {
      SolventRunPays(st, self, actions, a);
    }
  }

  /** More than the balance by more than rounding can lose: less than the supply for the shares, less
      than one token for each holder. */
  ghost predicate Short(st: State, self: Address, promised: int) {
    && st.shares.totalSupply > 0 && Earned(PeriodOver(st), self).Ok?
    && promised > SCALE * (st.funds + Answer(PeriodOver(st), self) + Holders(st)) + st.shares.totalSupply
  }

  /** An accepted notification: if what is unpaid and the new period are within the balance, every claim
      is paid until the next one; if they exceed it by more than rounding can lose, the claims of all
      accounts at the end of the period fail. */
  lemma NotificationPays(st: State, self: Address, amount: Uint256)
    requires Sound(st) && DlpVaults.Notify(st, amount).Ok?
    ensures st.accrual.duration > 0 && Accrue(st).Ok?
    ensures var next := DlpVaults.Notify(st, amount).value;
            var rate := (amount + Remaining(st)) / st.accrual.duration;
            var promised := Due(Accrue(st).value) + SCALE * (rate * st.accrual.duration);
            && (promised <= SCALE * st.funds ==> ClaimsPaid(next, self))
            && (Short(next, self, promised) ==> ClaimAll(PeriodOver(next), self, Others(AllAddresses(), self)).Revert?)
  {
    NotifyCommits(st, amount);
    var next := DlpVaults.Notify(st, amount).value;
    if Solvent(next) {
      SolventClaimsPaid(next, self);
    }
    if Short(next, self, Committed(next)) {
      ShortfallFails(next, self);
    }
  }

  /** What is unpaid within what the largest rate leaves of the balance: then whatever amount the checks
      accept, every claim is paid. */
  lemma GuardPays(st: State, self: Address, amount: Uint256)
    requires Sound(st) && DlpVaults.Notify(st, amount).Ok?
    ensures st.accrual.duration > 0 && Accrue(st).Ok?
    ensures Due(Accrue(st).value) <= SCALE * (st.funds % st.accrual.duration) ==>
              ClaimsPaid(DlpVaults.Notify(st, amount).value, self)
  {
    NotifyCommits(st, amount);
    GuardSuffices(st);
    if Due(Accrue(st).value) <= SCALE * (st.funds % st.accrual.duration) {
      SolventClaimsPaid(DlpVaults.Notify(st, amount).value, self);
    }
  }

  function Claims(accounts: seq<Address>): seq<Action> {
    if accounts == [] then [] else [Action.GetReward(accounts[0])] + Claims(accounts[1..])
  }

  /** The claims are calls of a run; to the end of the period the vault comes by waiting. */
  lemma {:induction false} ClaimsAreRun(st: State, self: Address, accounts: seq<Address>)
    requires ClaimAll(st, self, accounts).Ok?
    ensures Run(st, self, Claims(accounts)) == ClaimAll(st, self, accounts).value
    decreases |accounts|
  {
    if accounts != [] {
      var a, rest := Action.GetReward(accounts[0]), Claims(accounts[1..]);
      assert Claims(accounts)[0] == a && Claims(accounts)[1..] == rest;
      assert Next(st, self, a) == DlpVaults.GetReward(st, self, accounts[0]).value;
      ClaimsAreRun(Next(st, self, a), self, accounts[1..]);
    }
  }

  // ----- a notification that the check lets through without funds

  lemma RunTwo(st: State, self: Address, a: Action, b: Action, rest: seq<Action>)
    ensures Run(st, self, [a, b] + rest) == Run(Next(Next(st, self, a), self, b), self, rest)
  {
    assert ([a, b] + rest)[1..] == [b] + rest && ([b] + rest)[1..] == rest;
    assert Run(st, self, [a, b] + rest) == Run(Next(st, self, a), self, [b] + rest);
  }

  /** A vault with one share, none of whose rewards were ever claimed. */
  function OneShare(now: nat, duration: nat, funds: Uint256, finishAt: nat, updatedAt: nat, rate: nat, perToken: nat,
                    notified: nat): State {
    State(now, 1, funds, 1, map[], Shares(map[1 := 1], 1, 1), Line([], 0, [], []),
          Accrual(duration, finishAt, updatedAt, rate, perToken, map[], map[]), Ledger(notified, 0))
  }

  lemma FirstWrites(a: Address, v: nat)
    requires v > 0
    ensures Write(map[], a, 0) == map[] && Write(map[], a, v) == map[a := v]
  {
    var none: Mapping := map[];
    assert none - {a} == none;
  }

  lemma FirstDeposit(self: Address)
    ensures DlpVaults.Deposit(Start(1).(vaultCap := 1), self, 1, 1) == Ok(OneShare(1, 0, 0, 0, 0, 0, 0, 0))
  {
    var st := Start(1).(vaultCap := 1);
    FirstWrites(1, 1);
    assert Accrue(st) == Ok(st);
    assert Earned(st, 1) == Ok(0);
    assert See(st, 1) == Ok(st);
    var served := ServeQueue(st.(cash := 1), self);
    assert served == Ok(st.(cash := 1));
    assert Accept(st, served, 1, 1) == Ok(OneShare(1, 0, 0, 0, 0, 0, 0, 0));
  }

  lemma FirstShare(self: Address, rest: seq<Action>)
    ensures Run(Start(1), self, [SetCap(1), Deposit(1, 1)] + rest)
            == Run(OneShare(1, 0, 0, 0, 0, 0, 0, 0), self, rest)
  {
    RunTwo(Start(1), self, SetCap(1), Deposit(1, 1), rest);
    CapThenDeposit(self);
  }

  lemma CapThenDeposit(self: Address)
    ensures Next(Next(Start(1), self, SetCap(1)), self, Deposit(1, 1)) == OneShare(1, 0, 0, 0, 0, 0, 0, 0)
  {
    assert Next(Start(1), self, SetCap(1)) == Start(1).(vaultCap := 1);
    FirstDeposit(self);
  }

  lemma FirstFunds(self: Address, rest: seq<Action>)
    ensures Run(OneShare(1, 0, 0, 0, 0, 0, 0, 0), self, [FundsIn(10), SetDuration(10)] + rest)
            == Run(OneShare(1, 10, 10, 0, 0, 0, 0, 0), self, rest)
  {
    RunTwo(OneShare(1, 0, 0, 0, 0, 0, 0, 0), self, FundsIn(10), SetDuration(10), rest);
  }

  const PERIOD: seq<Action> := [Notify(10), Advance(10)]

  /** A notification of ten tokens after a period that released `released` a share. */
  lemma OneNotified(now: nat, finishAt: nat, seconds: nat, rate: nat, perToken: nat, released: nat, notified: nat)
    requires seconds <= finishAt <= now < 100
    requires released == rate * seconds * SCALE && perToken + released <= 100 * SCALE
    ensures DlpVaults.Notify(OneShare(now, 10, 10, finishAt, finishAt - seconds, rate, perToken, notified), 10)
            == Ok(OneShare(now, 10, 10, now + 10, now, 1, perToken + released, notified + 10))
  {
    var st := OneShare(now, 10, 10, finishAt, finishAt - seconds, rate, perToken, notified);
    assert RewardPerToken(st) == Ok(perToken + released) by {
      assert LastTime(st) - st.accrual.updatedAt == seconds;
      assert released / 1 == released;
    }
    assert Accrue(st) == Ok(OneShare(now, 10, 10, finishAt, finishAt, rate, perToken + released, notified));
  }

  lemma RunPeriod(st: State, next: State, self: Address, rest: seq<Action>)
    requires DlpVaults.Notify(st, 10) == Ok(next)
    ensures Run(st, self, PERIOD + rest) == Run(next.(now := next.now + 10), self, rest)
  {
    assert Next(st, self, Notify(10)) == next;
    assert Next(next, self, Advance(10)) == next.(now := next.now + 10);
    RunTwo(st, self, Notify(10), Advance(10), rest);
  }

  lemma FirstPeriod(self: Address)
    ensures Run(OneShare(1, 10, 10, 0, 0, 0, 0, 0), self, PERIOD + PERIOD)
            == Run(OneShare(11, 10, 10, 11, 1, 1, 0, 10), self, PERIOD)
  {
    OneNotified(1, 0, 0, 0, 0, 0, 0);
    RunPeriod(OneShare(1, 10, 10, 0, 0, 0, 0, 0), OneShare(1, 10, 10, 11, 1, 1, 0, 10), self, PERIOD);
  }

  lemma SecondPeriod(self: Address)
    ensures Run(OneShare(11, 10, 10, 11, 1, 1, 0, 10), self, PERIOD)
            == OneShare(21, 10, 10, 21, 11, 1, 10 * SCALE, 20)
  {
    OneNotified(11, 11, 10, 1, 0, 10 * SCALE, 10);
    RunPeriod(OneShare(11, 10, 10, 11, 1, 1, 0, 10), OneShare(11, 10, 10, 21, 11, 1, 10 * SCALE, 20), self, []);
    assert PERIOD + [] == PERIOD;
  }

  lemma TwentyOwed(self: Address)
    ensures var st := OneShare(21, 10, 10, 21, 11, 1, 10 * SCALE, 20);
            Earned(st, 1) == Ok(20) && DlpVaults.GetReward(st, self, 1) == Revert(InsufficientBalance)
  {
    var st := OneShare(21, 10, 10, 21, 11, 1, 10 * SCALE, 20);
    assert RewardPerToken(st) == Ok(20 * SCALE);
    assert RewardPerToken(Accrue(st).value) == Ok(20 * SCALE);
    assert Read(See(Accrue(st).value, 1).value.accrual.rewards, 1) == 20;
  }

  /** Ten tokens, one share, and ten tokens notified twice: twenty are owed, and the claim fails. */
  lemma NotifiedTwice(self: Address)
    ensures var st := Run(Start(1), self,
                          [SetCap(1), Deposit(1, 1)] + ([FundsIn(10), SetDuration(10)] + (PERIOD + PERIOD)));
            && st.funds == 10 && st.ledger.rewardsPaid == 0
            && Earned(st, 1) == Ok(20)
            && DlpVaults.GetReward(st, self, 1) == Revert(InsufficientBalance)
  {
    FirstShare(self, [FundsIn(10), SetDuration(10)] + (PERIOD + PERIOD));
    FirstFunds(self, PERIOD + PERIOD);
    FirstPeriod(self);
    SecondPeriod(self);
    TwentyOwed(self);
  }
}
