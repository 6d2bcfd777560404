/** What each call to the token contract does, told from the call alone: when it is
    accepted, what it publishes, and what therefore every account holds. */
module TokenCalls {
  import opened Common
  import opened Vesting
  import opened Token
  import opened TokenProofs

  // ----- acceptance -----

  function Succeeds(s: State, c: Call): bool {
    match c
    case Mint(to, amount) => MintSpec(s, to, amount).Ok?
    case Burn(from, amount) => BurnSpec(s, from, amount).Ok?
    case BurnFrom(spender, from, amount) => BurnFromSpec(s, spender, from, amount).Ok?
    case Transfer(from, to, amount) => TransferSpec(s, from, to, amount).Ok?
    case Approve(owner, spender, amount) => ApproveSpec(s, owner, spender, amount).Ok?
    case TransferFrom(spender, from, to, amount) => TransferFromSpec(s, spender, from, to, amount).Ok?
    case CreateVesting(admin, b, total, cliff, end) => CreateVestingSpec(s, admin, b, total, cliff, end).Ok?
    case ClaimVesting(b) => ClaimVestingSpec(s, b).Ok?
    case CreateVestingV2(admin, b, total, cliff, end, kind, steps) =>
      CreateVestingV2Spec(s, admin, b, total, cliff, end, kind, steps).Ok?
    case ClaimVestingV2(b, id) => ClaimVestingV2Spec(s, b, id).Ok?
    case ModifyVestingV2(admin, b, id, newEnd) => ModifyVestingV2Spec(s, admin, b, id, newEnd).Ok?
    case CreateAirdrop(total, expiry) => CreateAirdropSpec(s, total, expiry).Ok?
    case ClaimAirdrop(id, recipient, amount, ok) => ClaimAirdropSpec(s, id, recipient, amount, ok).Ok?
    case RecoverUnclaimed(id) => RecoverUnclaimedSpec(s, id).Ok?
    case MintReward(caller, recipient, amount) => MintRewardSpec(s, caller, recipient, amount).Ok?
    case CloseLedgers(sequence) => s.ledger <= sequence
  }

  ghost predicate CapLeaves(s: State, amount: int) {
    0 < amount && s.book.supply + amount <= MAX_SUPPLY
  }

  ghost predicate Covered(s: State, a: Address, amount: int) {
    0 < amount <= Get(s.book.balances, a)
  }

  /** More is vested by now than was claimed, and the cap leaves room for it. */
  ghost predicate ClaimOpen(s: State, schedule: VestingScheduleV2) {
    && VestedAmountV2(schedule, s.ledger).Ok?
    && CapLeaves(s, StillOwed(s, schedule))
  }

  /** What an open claim pays: the amount vested by now less what was claimed. */
  function StillOwed(s: State, schedule: VestingScheduleV2): int
    requires VestedAmountV2(schedule, s.ledger).Ok?
  {
    VestedAmountV2(schedule, s.ledger).value - schedule.claimed
  }

  /** The campaign runs, this recipient was not paid, the proof checks out, and both
      the campaign's total and the cap leave room. */
  ghost predicate AirdropOpen(s: State, id: u32, recipient: Address, amount: int, proofValid: bool) {
    && id in s.campaigns && s.ledger <= s.campaigns[id].expiryLedger
    && TimesPaid(s.book.events, id, recipient) == 0 && proofValid
    && ClaimedFrom(s.book.events, id) + amount <= s.campaigns[id].totalAmount
    && CapLeaves(s, amount)
  }

  ghost predicate Allowed(s: State, c: Call) {
    match c
    case Mint(_, amount) => CapLeaves(s, amount)
    case Burn(from, amount) => Covered(s, from, amount) && s.book.burnCount < U32_MAX
    case BurnFrom(spender, from, amount) =>
      Covered(s, from, amount) && amount <= Get(s.allowances, (from, spender)) && s.book.burnCount < U32_MAX
    case Transfer(from, _, amount) => Covered(s, from, amount)
    case Approve(_, _, amount) => 0 <= amount
    case TransferFrom(spender, from, _, amount) =>
      Covered(s, from, amount) && amount <= Get(s.allowances, (from, spender))
    case CreateVesting(admin, _, total, cliff, end) => admin == s.admin && 0 < total && s.ledger <= cliff < end
    case ClaimVesting(b) => b in s.vesting && ClaimOpen(s, AsV2(s.vesting[b]))
    case CreateVestingV2(admin, b, total, cliff, end, kind, _) =>
      && admin == s.admin && 0 < total && s.ledger <= cliff < end && kind <= 1
      && Get(s.scheduleCounts, b) < U32_MAX
    case ClaimVestingV2(b, id) => (b, id) in s.vestingV2 && ClaimOpen(s, s.vestingV2[(b, id)])
    case ModifyVestingV2(admin, b, id, newEnd) =>
      admin == s.admin && (b, id) in s.vestingV2 && s.vestingV2[(b, id)].cliffLedger < newEnd
    case CreateAirdrop(total, expiry) => 0 < total && s.ledger < expiry && 0 <= s.campaignCount < U32_MAX
    case ClaimAirdrop(id, recipient, amount, ok) => AirdropOpen(s, id, recipient, amount, ok)
    case RecoverUnclaimed(id) => id in s.campaigns && s.campaigns[id].expiryLedger < s.ledger
    case MintReward(caller, _, amount) => !s.locked && caller == s.admin && CapLeaves(s, amount)
    case CloseLedgers(sequence) => s.ledger <= sequence
  }

  /** What a spender may still take is a machine integer. */
  ghost predicate AllowanceFits(s: State, c: Call) {
    c.BurnFrom? || c.TransferFrom? ==> 0 <= Get(s.allowances, (c.from, c.spender)) <= I128_MAX
  }

  /** Each of the sixteen kinds of call is accepted exactly when allowed: none of the
      machine arithmetic refuses more. */
  lemma CallsSucceedExactly(s: State, c: Call)
    requires Inv(s) && AllowanceFits(s, c)
    ensures Succeeds(s, c) <==> Allowed(s, c)
  {
    if c.Mint? || c.Burn? || c.Transfer? || c.MintReward? {
      SimpleCallsSucceedExactly(s, c);
    } else if c.BurnFrom? || c.TransferFrom? {
      SpendingSucceedsExactly(s, c);
    } else if c.ClaimVesting? || c.ClaimVestingV2? {
      ClaimsSucceedExactly(s, c);
    } else if c.ClaimAirdrop? {
      ClaimAirdropSucceedsExactly(s, c.id, c.recipient, c.amount, c.proofValid);
    }
  }

  lemma SimpleCallsSucceedExactly(s: State, c: Call)
    requires Inv(s) && (c.Mint? || c.Burn? || c.Transfer? || c.MintReward?)
    ensures Succeeds(s, c) <==> Allowed(s, c)
  {
    match c
    case Mint(to, amount) => MintSucceedsExactly(s, to, amount);
    case Burn(from, amount) => BurnSucceedsExactly(s, from, amount);
    case Transfer(from, to, amount) => TransferSucceedsExactly(s, from, to, amount);
    case MintReward(caller, recipient, amount) => MintRewardSucceedsExactly(s, caller, recipient, amount);
  }

  lemma SpendingSucceedsExactly(s: State, c: Call)
    requires Inv(s) && AllowanceFits(s, c) && (c.BurnFrom? || c.TransferFrom?)
    ensures Succeeds(s, c) <==> Allowed(s, c)
  {
    EntryAtMostSum(s.book.balances, c.from);
    if c.TransferFrom? {
      EntryAtMostSum(s.book.balances, c.to);
    }
  }

  lemma ClaimsSucceedExactly(s: State, c: Call)
    requires Inv(s) && (c.ClaimVesting? || c.ClaimVestingV2?)
    ensures Succeeds(s, c) <==> Allowed(s, c)
  {
    if c.ClaimVesting? && c.beneficiary in s.vesting {
      FirstVersionIsLinear(s.vesting[c.beneficiary], s.ledger);
      ClaimableExactly(s, AsV2(s.vesting[c.beneficiary]), c.beneficiary);
    } else if c.ClaimVestingV2? && (c.beneficiary, c.id) in s.vestingV2 {
      ClaimableExactly(s, s.vestingV2[(c.beneficiary, c.id)], c.beneficiary);
    }
  }

  lemma ClaimableExactly(s: State, schedule: VestingScheduleV2, b: Address)
    requires Inv(s) && ValidV2(schedule)
    ensures var r := Claimable(VestedAmountV2(schedule, s.ledger), schedule.claimed);
      && (r.Ok? ==> Checked(schedule.claimed + r.value).Ok?)
      && (r.Ok? && Credit(s.book, b, r.value, Minted(b, r.value)).Ok? <==> ClaimOpen(s, schedule))
  {
    EntryAtMostSum(s.book.balances, b);
    if VestedAmountV2(schedule, s.ledger).Ok? {
      VestedWithinTotal(schedule, s.ledger);
    }
  }

  /** A campaign pays exactly while it runs, each recipient once, with a valid proof,
      within its total and the cap. */
  lemma ClaimAirdropSucceedsExactly(s: State, id: u32, recipient: Address, amount: int, proofValid: bool)
    requires Inv(s)
    ensures ClaimAirdropSpec(s, id, recipient, amount, proofValid).Ok?
       <==> AirdropOpen(s, id, recipient, amount, proofValid)
  {
    EntryAtMostSum(s.book.balances, recipient);
  }

  // ----- what is published, and what everybody holds -----

  /** What an allowed call publishes. */
  ghost function Published(s: State, c: Call): seq<Event>
  {
    if !Allowed(s, c) then []
    else
      match c
      case Mint(to, amount) => [Minted(to, amount)]
      case Burn(from, amount) => [Burned(from, amount)]
      case BurnFrom(_, from, amount) => [Burned(from, amount)]
      case Transfer(from, to, amount) => [Transferred(from, to, amount)]
      case Approve(owner, spender, amount) => [Approved(owner, spender, amount)]
      case TransferFrom(_, from, to, amount) => [Transferred(from, to, amount)]
      case ClaimVesting(b) => [Minted(b, StillOwed(s, AsV2(s.vesting[b])))]
      case ClaimVestingV2(b, id) => [Minted(b, StillOwed(s, s.vestingV2[(b, id)]))]
      case CreateAirdrop(total, expiry) => [AirdropCreated(s.campaignCount, total, expiry)]
      case ClaimAirdrop(id, recipient, amount, _) => [AirdropClaimed(id, recipient, amount)]
      case RecoverUnclaimed(id) =>
        [AirdropRecovered(id, s.campaigns[id].totalAmount - ClaimedFrom(s.book.events, id))]
      case MintReward(_, recipient, amount) => [Minted(recipient, amount)]
      case _ => []
  }

  lemma StepPublishes(s: State, c: Call)
    requires Inv(s) && AllowanceFits(s, c)
    ensures Step(s, c).book.events == s.book.events + Published(s, c)
  {
    CallsSucceedExactly(s, c);
    if Allowed(s, c) {
      if c.ClaimVesting? || c.ClaimVestingV2? {
        ClaimsPublish(s, c);
      } else if c.BurnFrom? || c.TransferFrom? {
        SpendingPublishes(s, c);
      } else if c.CreateVesting? || c.CreateVestingV2? || c.ModifyVestingV2? || c.CloseLedgers? {
        QuietCallsPublishNothing(s, c);
      } else if c.CreateAirdrop? || c.ClaimAirdrop? || c.RecoverUnclaimed? {
        AirdropCallsPublish(s, c);
      }
    }
  }

  lemma ClaimsPublish(s: State, c: Call)
    requires Inv(s) && Succeeds(s, c) && Allowed(s, c) && (c.ClaimVesting? || c.ClaimVestingV2?)
    ensures Step(s, c).book.events == s.book.events + Published(s, c)
  {
    if c.ClaimVesting? {
      FirstVersionIsLinear(s.vesting[c.beneficiary], s.ledger);
    }
  }

  lemma SpendingPublishes(s: State, c: Call)
    requires Inv(s) && Succeeds(s, c) && Allowed(s, c) && (c.BurnFrom? || c.TransferFrom?)
    ensures Step(s, c).book.events == s.book.events + Published(s, c)
  {
  }

  lemma QuietCallsPublishNothing(s: State, c: Call)
    requires c.CreateVesting? || c.CreateVestingV2? || c.ModifyVestingV2? || c.CloseLedgers?
    ensures Step(s, c).book == s.book
  {
  }

  lemma AirdropCallsPublish(s: State, c: Call)
    requires Inv(s) && Succeeds(s, c) && Allowed(s, c) && (c.CreateAirdrop? || c.ClaimAirdrop? || c.RecoverUnclaimed?)
    ensures Step(s, c).book.events == s.book.events + Published(s, c)
  {
  }

  lemma FoldAll(events: seq<Event>, more: seq<Event>)
    requires |more| <= 1
    ensures EverMinted(events + more) == EverMinted(events) + EverMinted(more)
    ensures EverBurned(events + more) == EverBurned(events) + EverBurned(more)
    ensures forall a :: NetOf(events + more, a) == NetOf(events, a) + NetOf(more, a)
  {
    if more == [] {
      assert events + more == events;
    } else {
      assert more == [more[0]] && more[..0] == [];
      FoldTotals(events, more[0]);
      FoldNets(events, more[0]);
    }
  }

  /** What a call does to every account and to the totals is what it publishes: the
      receiver named in the call gains, the holder named in it loses, nobody else. */
  lemma StepMovesBalances(s: State, c: Call)
    requires Inv(s) && AllowanceFits(s, c)
    ensures var t := Step(s, c);
      && (forall a :: Get(t.book.balances, a) == Get(s.book.balances, a) + NetOf(Published(s, c), a))
      && t.book.supply == s.book.supply + EverMinted(Published(s, c)) - EverBurned(Published(s, c))
      && t.book.totalBurned == s.book.totalBurned + EverBurned(Published(s, c))
      && t.book.burnCount == s.book.burnCount + (if Allowed(s, c) && (c.Burn? || c.BurnFrom?) then 1 else 0)
  {
    StepCountsBurns(s, c);
    StepPublishes(s, c);
    StepKeepsInv(s, c);
    FoldAll(s.book.events, Published(s, c));
  }

  lemma StepCountsBurns(s: State, c: Call)
    requires Inv(s) && AllowanceFits(s, c)
    ensures Step(s, c).book.burnCount
         == s.book.burnCount + (if Allowed(s, c) && (c.Burn? || c.BurnFrom?) then 1 else 0)
  {
    if c.Burn? || c.BurnFrom? {
      CallsSucceedExactly(s, c);
    } else {
      OtherCallsCountNoBurns(s, c);
    }
  }

  lemma OtherCallsCountNoBurns(s: State, c: Call)
    requires !c.Burn? && !c.BurnFrom?
    ensures Step(s, c).book.burnCount == s.book.burnCount
  {
  }

  /** Everything the calls of a run publish. */
  ghost function PublishedIn(s: State, calls: seq<Call>): seq<Event> {
    if calls == [] then []
    else
      var n := |calls| - 1;
      PublishedIn(s, calls[..n]) + Published(Run(s, calls[..n]), calls[n])
  }

  lemma AllowancesFit(admin: Address, ledger: u32, calls: seq<Call>, c: Call)
    ensures AllowanceFits(Run(Initial(admin, ledger), calls), c)
  {
    if c.BurnFrom? || c.TransferFrom? {
      SpendersStayWithinApproval(admin, ledger, calls, c.from, c.spender);
    }
  }

  /** In every reachable state each account holds the net of what the accepted calls
      of the run moved, minted and burned, as told from the calls. */
  lemma {:induction false} BalancesFollowCalls(admin: Address, ledger: u32, calls: seq<Call>, a: Address)
    ensures var s := Run(Initial(admin, ledger), calls);
      && s.book.events == PublishedIn(Initial(admin, ledger), calls)
      && Get(s.book.balances, a) == NetOf(PublishedIn(Initial(admin, ledger), calls), a)
    decreases |calls|
  {
    ReachableStatesBalance(admin, ledger, calls);
    if calls != [] {
      var n := |calls| - 1;
      BalancesFollowCalls(admin, ledger, calls[..n], a);
      ReachableStatesBalance(admin, ledger, calls[..n]);
      AllowancesFit(admin, ledger, calls[..n], calls[n]);
      StepPublishes(Run(Initial(admin, ledger), calls[..n]), calls[n]);
    }
  }

  // ----- spending for somebody else -----

  /** A spender moves an amount to the receiver exactly when it is positive, approved
      and covered; only the two balances and that one allowance change. */
  lemma TransferFromExactly(s: State, spender: Address, from: Address, to: Address, amount: int)
    requires Inv(s) && AllowanceFits(s, TransferFrom(spender, from, to, amount))
    ensures var r := TransferFromSpec(s, spender, from, to, amount);
      && (r.Ok? <==> 0 < amount <= Get(s.book.balances, from) && amount <= Get(s.allowances, (from, spender)))
      && (r.Ok? ==>
            var t := r.value.0;
            && (forall a :: Get(t.book.balances, a)
                         == Get(s.book.balances, a)
                            + (if a == to then amount else 0) - (if a == from then amount else 0))
            && (forall k :: Get(t.allowances, k)
                         == Get(s.allowances, k) - (if k == (from, spender) then amount else 0))
            && t == s.(allowances := t.allowances,
                       book := s.book.(balances := t.book.balances, events := t.book.events)))
  {
    SpendingSucceedsExactly(s, TransferFrom(spender, from, to, amount));
    var r := TransferFromSpec(s, spender, from, to, amount);
    if r.Ok? {
      TransferFromEffect(s, spender, from, to, amount, r.value.0);
    }
  }

  /** A spender burns an amount of the holder exactly when it is positive, approved,
      covered and the counter has room; only that balance, that allowance, the supply
      and the burn statistics change. */
  lemma BurnFromExactly(s: State, spender: Address, from: Address, amount: int)
    requires Inv(s) && AllowanceFits(s, BurnFrom(spender, from, amount))
    ensures var r := BurnFromSpec(s, spender, from, amount);
      && (r.Ok? <==> && 0 < amount <= Get(s.book.balances, from) && amount <= Get(s.allowances, (from, spender))
                     && s.book.burnCount < U32_MAX)
      && (r.Ok? ==>
            var t := r.value.0;
            && (forall a :: Get(t.book.balances, a) == Get(s.book.balances, a) - (if a == from then amount else 0))
            && (forall k :: Get(t.allowances, k)
                         == Get(s.allowances, k) - (if k == (from, spender) then amount else 0))
            && t == s.(allowances := t.allowances,
                       book := Book(t.book.balances, s.book.supply - amount, s.book.totalBurned + amount,
                                    s.book.burnCount + 1, t.book.events)))
  {
    SpendingSucceedsExactly(s, BurnFrom(spender, from, amount));
    var r := BurnFromSpec(s, spender, from, amount);
    if r.Ok? {
      BurnFromEffect(s, spender, from, amount, r.value.0);
    }
  }

  // ----- the terms of schedules and campaigns -----

  ghost predicate Creates(s: State, c: Call, b: Address) {
    c.CreateVestingV2? && c.beneficiary == b && Allowed(s, c)
  }

  /** How many schedules were created for a beneficiary. */
  ghost function CreatedFor(s: State, calls: seq<Call>, b: Address): int {
    if calls == [] then 0
    else
      var n := |calls| - 1;
      CreatedFor(s, calls[..n], b) + (if Creates(Run(s, calls[..n]), calls[n], b) then 1 else 0)
  }

  /** What a call makes of the terms of a schedule, the beneficiary having `count`. */
  ghost function TermsAfter(s: State, c: Call, b: Address, id: u32, count: int,
                            terms: Option<VestingScheduleV2>): Option<VestingScheduleV2> {
    if Creates(s, c, b) && count == id then
      Some(VestingScheduleV2(id, c.total, s.ledger, c.cliff, c.end, 0, c.vestingType, c.stepCount))
    else if c.ModifyVestingV2? && c.beneficiary == b && c.id == id && Allowed(s, c) && terms.Some? then
      Some(terms.value.(endLedger := c.newEnd))
    else terms
  }

  /** The terms of a schedule: those of the creation that made it, with the end of the
      last modification since. */
  ghost function TermsOf(s: State, calls: seq<Call>, b: Address, id: u32): Option<VestingScheduleV2> {
    if calls == [] then None
    else
      var n := |calls| - 1;
      TermsAfter(Run(s, calls[..n]), calls[n], b, id, CreatedFor(s, calls[..n], b), TermsOf(s, calls[..n], b, id))
  }

  /** A schedule as stored, leaving its claims aside. */
  function StoredTerms(s: State, b: Address, id: u32): Option<VestingScheduleV2> {
    if (b, id) in s.vestingV2 then Some(s.vestingV2[(b, id)].(claimed := 0)) else None
  }

  lemma StepOnStoredTerms(s: State, c: Call, b: Address, id: u32)
    requires Inv(s)
    ensures var t := Step(s, c);
      && Get(t.scheduleCounts, b) == Get(s.scheduleCounts, b) + (if Creates(s, c, b) then 1 else 0)
      && StoredTerms(t, b, id) == TermsAfter(s, c, b, id, Get(s.scheduleCounts, b), StoredTerms(s, b, id))
  {
    if c.CreateVestingV2? {
      CreationOnTerms(s, c, b, id);
    } else {
      CountsOnlyGrowByCreation(s, c);
      if c.ModifyVestingV2? {
        ModificationOnTerms(s, c, b, id);
      } else if c.ClaimVestingV2? {
        ClaimKeepsTerms(s, c.beneficiary, c.id, b, id);
      } else {
        OtherCallsLeaveSchedulesV2(s, c);
      }
    }
  }

  lemma CreationOnTerms(s: State, c: Call, b: Address, id: u32)
    requires Inv(s) && c.CreateVestingV2?
    ensures var t := Step(s, c);
      && Get(t.scheduleCounts, b) == Get(s.scheduleCounts, b) + (if Creates(s, c, b) then 1 else 0)
      && StoredTerms(t, b, id) == TermsAfter(s, c, b, id, Get(s.scheduleCounts, b), StoredTerms(s, b, id))
  {
    CallsSucceedExactly(s, c);
  }

  lemma ModificationOnTerms(s: State, c: Call, b: Address, id: u32)
    requires Inv(s) && c.ModifyVestingV2?
    ensures StoredTerms(Step(s, c), b, id)
         == TermsAfter(s, c, b, id, Get(s.scheduleCounts, b), StoredTerms(s, b, id))
  {
    CallsSucceedExactly(s, c);
  }

  lemma ClaimKeepsTerms(s: State, beneficiary: Address, claimed: u32, b: Address, id: u32)
    ensures StoredTerms(After(ClaimVestingV2Spec(s, beneficiary, claimed), s), b, id) == StoredTerms(s, b, id)
  {
  }

  lemma CountsOnlyGrowByCreation(s: State, c: Call)
    requires !c.CreateVestingV2?
    ensures Step(s, c).scheduleCounts == s.scheduleCounts
  {
  }

  lemma {:induction false} StoredTermsFollow(admin: Address, ledger: u32, calls: seq<Call>, b: Address, id: u32)
    ensures var s := Run(Initial(admin, ledger), calls);
      && Get(s.scheduleCounts, b) == CreatedFor(Initial(admin, ledger), calls, b)
      && StoredTerms(s, b, id) == TermsOf(Initial(admin, ledger), calls, b, id)
    decreases |calls|
  {
    if calls != [] {
      var n := |calls| - 1;
      StoredTermsFollow(admin, ledger, calls[..n], b, id);
      ReachableStatesBalance(admin, ledger, calls[..n]);
      StepOnStoredTerms(Run(Initial(admin, ledger), calls[..n]), calls[n], b, id);
    }
  }

  lemma {:induction false} NumberedFromZero(admin: Address, ledger: u32, calls: seq<Call>, b: Address, id: u32)
    ensures TermsOf(Initial(admin, ledger), calls, b, id).Some? <==> id < CreatedFor(Initial(admin, ledger), calls, b)
    decreases |calls|
  {
    if calls != [] {
      NumberedFromZero(admin, ledger, calls[..|calls| - 1], b, id);
    }
  }

  /** In every reachable state a beneficiary's schedules are numbered in the order of
      their creation, and each has the terms its creation and modifications gave. */
  lemma TermsFollowCalls(admin: Address, ledger: u32, calls: seq<Call>, b: Address, id: u32)
    ensures var s := Run(Initial(admin, ledger), calls);
      && ((b, id) in s.vestingV2 <==> id < CreatedFor(Initial(admin, ledger), calls, b))
      && StoredTerms(s, b, id) == TermsOf(Initial(admin, ledger), calls, b, id)
  {
    StoredTermsFollow(admin, ledger, calls, b, id);
    NumberedFromZero(admin, ledger, calls, b, id);
  }

  /** A first-version schedule has the terms of the beneficiary's last creation. */
  ghost function FirstTermsOf(s: State, calls: seq<Call>, b: Address): Option<VestingSchedule> {
    if calls == [] then None
    else
      var n := |calls| - 1;
      var m, c := Run(s, calls[..n]), calls[n];
      if c.CreateVesting? && c.beneficiary == b && Allowed(m, c)
      then Some(VestingSchedule(c.total, m.ledger, c.cliff, c.end, 0))
      else FirstTermsOf(s, calls[..n], b)
  }

  function StoredFirstTerms(s: State, b: Address): Option<VestingSchedule> {
    if b in s.vesting then Some(s.vesting[b].(claimed := 0)) else None
  }

  lemma StepOnStoredFirstTerms(s: State, c: Call, b: Address)
    requires Inv(s)
    ensures StoredFirstTerms(Step(s, c), b)
         == if c.CreateVesting? && c.beneficiary == b && Allowed(s, c)
            then Some(VestingSchedule(c.total, s.ledger, c.cliff, c.end, 0)) else StoredFirstTerms(s, b)
  {
    if c.CreateVesting? {
      CallsSucceedExactly(s, c);
    } else if !c.ClaimVesting? {
      OtherCallsLeaveSchedules(s, c);
    }
  }

  lemma {:induction false} FirstTermsFollowCalls(admin: Address, ledger: u32, calls: seq<Call>, b: Address)
    ensures StoredFirstTerms(Run(Initial(admin, ledger), calls), b) == FirstTermsOf(Initial(admin, ledger), calls, b)
    decreases |calls|
  {
    if calls != [] {
      var n := |calls| - 1;
      FirstTermsFollowCalls(admin, ledger, calls[..n], b);
      ReachableStatesBalance(admin, ledger, calls[..n]);
      StepOnStoredFirstTerms(Run(Initial(admin, ledger), calls[..n]), calls[n], b);
    }
  }

  /** The campaigns opened by a run, in order, as their openings described them. */
  ghost function Opened(s: State, calls: seq<Call>): seq<Campaign> {
    if calls == [] then []
    else
      var n := |calls| - 1;
      var c := calls[n];
      Opened(s, calls[..n])
      + (if c.CreateAirdrop? && Allowed(Run(s, calls[..n]), c) then [Campaign(c.total, 0, c.expiry)] else [])
  }

  /** The stored campaigns are those of the list, leaving what they paid aside. */
  ghost predicate CampaignsAre(s: State, list: seq<Campaign>) {
    && s.campaignCount == |list|
    && forall id: u32 :: id < |list| ==>
         id in s.campaigns && s.campaigns[id] == list[id].(claimedAmount := s.campaigns[id].claimedAmount)
  }

  lemma StepOnCampaigns(s: State, c: Call, list: seq<Campaign>)
    requires Inv(s) && CampaignsAre(s, list)
    ensures CampaignsAre(Step(s, c),
                         list + if c.CreateAirdrop? && Allowed(s, c) then [Campaign(c.total, 0, c.expiry)] else [])
  {
    if c.CreateAirdrop? {
      CallsSucceedExactly(s, c);
    } else if c.ClaimAirdrop? {
      ClaimOnCampaigns(s, c.id, c.recipient, c.amount, c.proofValid);
      assert list + [] == list;
    } else {
      OtherCallsLeaveCampaigns(s, c);
      assert list + [] == list;
    }
  }

  lemma ClaimOnCampaigns(s: State, id: u32, recipient: Address, amount: int, proofValid: bool)
    ensures var t := After(ClaimAirdropSpec(s, id, recipient, amount, proofValid), s);
      && t.campaignCount == s.campaignCount
      && (forall k :: k in s.campaigns ==>
            k in t.campaigns && t.campaigns[k] == s.campaigns[k].(claimedAmount := t.campaigns[k].claimedAmount))
  {
  }

  lemma OtherCallsLeaveCampaigns(s: State, c: Call)
    requires !c.CreateAirdrop? && !c.ClaimAirdrop?
    ensures Step(s, c).campaigns == s.campaigns && Step(s, c).campaignCount == s.campaignCount
  {
  }

  lemma {:induction false} CampaignsAreOpened(admin: Address, ledger: u32, calls: seq<Call>)
    ensures CampaignsAre(Run(Initial(admin, ledger), calls), Opened(Initial(admin, ledger), calls))
    decreases |calls|
  {
    if calls != [] {
      var n := |calls| - 1;
      CampaignsAreOpened(admin, ledger, calls[..n]);
      ReachableStatesBalance(admin, ledger, calls[..n]);
      StepOnCampaigns(Run(Initial(admin, ledger), calls[..n]), calls[n], Opened(Initial(admin, ledger), calls[..n]));
    }
  }

  /** In every reachable state the campaigns are those opened, under their numbers and
      terms; what each paid out is the sum of the claims published for it. */
  lemma CampaignsFollowCalls(admin: Address, ledger: u32, calls: seq<Call>)
    ensures var s := Run(Initial(admin, ledger), calls);
      var campaigns := Opened(Initial(admin, ledger), calls);
      && s.campaignCount == |campaigns| <= U32_MAX
      && (forall id: u32 :: id in s.campaigns <==> id < |campaigns|)
      && (forall id: u32 :: id < |campaigns| ==>
            s.campaigns[id] == campaigns[id].(claimedAmount := ClaimedFrom(s.book.events, id)))
  {
    CampaignsAreOpened(admin, ledger, calls);
    ReachableStatesBalance(admin, ledger, calls);
  }
}
