/** What the token contract guarantees over every run: the books balance against
    the published events, schedules and campaigns never mint more than promised. */
module TokenProofs {
  import opened Common
  import opened Vesting
  import opened Token

  // ----- runs -----

  datatype Call =
    | Mint(to: Address, amount: int)
    | Burn(from: Address, amount: int)
    | BurnFrom(spender: Address, from: Address, amount: int)
    | Transfer(from: Address, to: Address, amount: int)
    | Approve(owner: Address, spender: Address, limit: i128)
    | TransferFrom(spender: Address, from: Address, to: Address, amount: int)
    | CreateVesting(admin: Address, beneficiary: Address, total: i128, cliff: u32, end: u32)
    | ClaimVesting(beneficiary: Address)
    | CreateVestingV2(admin: Address, beneficiary: Address, total: i128, cliff: u32, end: u32,
                      vestingType: nat, stepCount: u32)
    | ClaimVestingV2(beneficiary: Address, id: u32)
    | ModifyVestingV2(admin: Address, beneficiary: Address, id: u32, newEnd: u32)
    | CreateAirdrop(total: i128, expiry: u32)
    | ClaimAirdrop(id: u32, recipient: Address, amount: int, proofValid: bool)
    | RecoverUnclaimed(id: u32)
    | MintReward(caller: Address, recipient: Address, amount: int)
    | CloseLedgers(sequence: u32)

  /** The state after one call; an aborted call changes nothing. The ledger only
      moves forward. */
  function Step(s: State, c: Call): State {
    match c
    case Mint(to, amount) => After(MintSpec(s, to, amount), s)
    case Burn(from, amount) => After(BurnSpec(s, from, amount), s)
    case BurnFrom(spender, from, amount) => After(BurnFromSpec(s, spender, from, amount), s)
    case Transfer(from, to, amount) => After(TransferSpec(s, from, to, amount), s)
    case Approve(owner, spender, amount) => After(ApproveSpec(s, owner, spender, amount), s)
    case TransferFrom(spender, from, to, amount) => After(TransferFromSpec(s, spender, from, to, amount), s)
    case CreateVesting(admin, b, total, cliff, end) => After(CreateVestingSpec(s, admin, b, total, cliff, end), s)
    case ClaimVesting(b) => After(ClaimVestingSpec(s, b), s)
    case CreateVestingV2(admin, b, total, cliff, end, kind, steps) =>
      After(CreateVestingV2Spec(s, admin, b, total, cliff, end, kind, steps), s)
    case ClaimVestingV2(b, id) => After(ClaimVestingV2Spec(s, b, id), s)
    case ModifyVestingV2(admin, b, id, newEnd) => After(ModifyVestingV2Spec(s, admin, b, id, newEnd), s)
    case CreateAirdrop(total, expiry) => After(CreateAirdropSpec(s, total, expiry), s)
    case ClaimAirdrop(id, recipient, amount, ok) => After(ClaimAirdropSpec(s, id, recipient, amount, ok), s)
    case RecoverUnclaimed(id) => After(RecoverUnclaimedSpec(s, id), s)
    case MintReward(caller, recipient, amount) => After(MintRewardSpec(s, caller, recipient, amount), s)
    case CloseLedgers(sequence) => if s.ledger <= sequence then s.(ledger := sequence) else s
  }

  function Run(s: State, calls: seq<Call>): State {
    if calls == [] then s else Step(Run(s, calls[..|calls| - 1]), calls[|calls| - 1])
  }

  // ----- recomputing the books from the events -----

  /** What an event does to the balance of an account. */
  function Delta(e: Event, a: Address): int {
    match e
    case Transferred(from, to, amount) => (if a == to then amount else 0) - (if a == from then amount else 0)
    case Minted(to, amount) => if a == to then amount else 0
    case AirdropClaimed(_, to, amount) => if a == to then amount else 0
    case Burned(from, amount) => if a == from then -amount else 0
    case _ => 0
  }

  function NetOf(events: seq<Event>, a: Address): int {
    if events == [] then 0 else NetOf(events[..|events| - 1], a) + Delta(events[|events| - 1], a)
  }

  function MintedBy(e: Event): int {
    if e.Minted? || e.AirdropClaimed? then e.amount else 0
  }

  function BurnedBy(e: Event): int {
    if e.Burned? then e.amount else 0
  }

  function EverMinted(events: seq<Event>): int {
    if events == [] then 0 else EverMinted(events[..|events| - 1]) + MintedBy(events[|events| - 1])
  }

  function EverBurned(events: seq<Event>): int {
    if events == [] then 0 else EverBurned(events[..|events| - 1]) + BurnedBy(events[|events| - 1])
  }

  lemma FoldTotals(events: seq<Event>, e: Event)
    ensures EverMinted(events + [e]) == EverMinted(events) + MintedBy(e)
    ensures EverBurned(events + [e]) == EverBurned(events) + BurnedBy(e)
  {
    assert (events + [e])[..|events|] == events;
  }

  lemma FoldNets(events: seq<Event>, e: Event)
    ensures forall a :: NetOf(events + [e], a) == NetOf(events, a) + Delta(e, a)
  {
    assert (events + [e])[..|events|] == events;
  }

  ghost predicate NetsAgree(balances: map<Address, int>, events: seq<Event>) {
    forall a :: Get(balances, a) == NetOf(events, a)
  }

  /** The books balance: supply is the sum of the balances and stays under the cap,
      every figure can be recomputed from the published events. */
  ghost predicate BookInv(b: Book) {
    && (forall a :: a in b.balances ==> 0 <= b.balances[a])
    && Sum(b.balances) == b.supply
    && 0 <= b.supply <= MAX_SUPPLY
    && 0 <= b.burnCount <= U32_MAX && 0 <= b.totalBurned <= b.burnCount * MAX_SUPPLY
    && b.totalBurned == EverBurned(b.events)
    && b.supply == EverMinted(b.events) - b.totalBurned
    && NetsAgree(b.balances, b.events)
  }

  lemma NetsAfterOne(balances: map<Address, int>, events: seq<Event>, a: Address, e: Event)
    requires NetsAgree(balances, events)
    requires forall x :: x != a ==> Delta(e, x) == 0
    ensures NetsAgree(balances[a := Get(balances, a) + Delta(e, a)], events + [e])
  {
    FoldNets(events, e);
  }

  lemma NetsAfterMove(balances: map<Address, int>, events: seq<Event>, from: Address, to: Address, amount: int)
    requires NetsAgree(balances, events)
    ensures var without := balances[from := Get(balances, from) - amount];
      NetsAgree(without[to := Get(without, to) + amount], events + [Transferred(from, to, amount)])
  {
    FoldNets(events, Transferred(from, to, amount));
  }

  lemma CreditKeepsBooks(b: Book, to: Address, amount: int, e: Event, b': Book)
    requires BookInv(b) && 0 < amount && Credit(b, to, amount, e) == Ok(b')
    requires e == Minted(to, amount) || (e.AirdropClaimed? && e.recipient == to && e.amount == amount)
    ensures BookInv(b')
  {
    assert MintedBy(e) == amount == Delta(e, to) && BurnedBy(e) == 0;
    NetsAfterOne(b.balances, b.events, to, e);
    FoldTotals(b.events, e);
    SumUpdate(b.balances, to, Get(b.balances, to) + amount);
    EntryAtMostSum(b.balances, to);
  }

  lemma DebitKeepsBooks(b: Book, from: Address, amount: int, b': Book)
    requires BookInv(b) && 0 < amount && Debit(b, from, amount) == Ok(b')
    ensures BookInv(b')
  {
    NetsAfterOne(b.balances, b.events, from, Burned(from, amount));
    FoldTotals(b.events, Burned(from, amount));
    SumUpdate(b.balances, from, Get(b.balances, from) - amount);
    EntryAtMostSum(b.balances, from);
  }

  lemma MoveKeepsBooks(b: Book, from: Address, to: Address, amount: int, b': Book)
    requires BookInv(b) && 0 < amount && Move(b, from, to, amount) == Ok(b')
    ensures BookInv(b')
  {
    NetsAfterMove(b.balances, b.events, from, to, amount);
    FoldTotals(b.events, Transferred(from, to, amount));
    var without := b.balances[from := Get(b.balances, from) - amount];
    SumUpdate(b.balances, from, Get(b.balances, from) - amount);
    SumUpdate(without, to, Get(without, to) + amount);
    EntryAtMostSum(b.balances, to);
  }

  lemma LogKeepsBooks(b: Book, e: Event)
    requires BookInv(b) && (e.Approved? || e.AirdropCreated? || e.AirdropRecovered?)
    ensures BookInv(Log(b, e))
  {
    FoldTotals(b.events, e);
    FoldNets(b.events, e);
  }

  // ----- exactly when the accounting calls succeed -----

  /** A mint goes through exactly when it is positive and stays under the cap. */
  lemma MintSucceedsExactly(s: State, to: Address, amount: int)
    requires BookInv(s.book)
    ensures MintSpec(s, to, amount).Ok? <==> 0 < amount && s.book.supply + amount <= MAX_SUPPLY
  {
    EntryAtMostSum(s.book.balances, to);
  }

  /** A transfer goes through exactly when it is positive and covered: its checked
      addition never overflows. It moves the amount, and a transfer to oneself
      leaves every balance alone. */
  lemma TransferSucceedsExactly(s: State, from: Address, to: Address, amount: int)
    requires BookInv(s.book)
    ensures var r := TransferSpec(s, from, to, amount);
      && (r.Ok? <==> 0 < amount <= Get(s.book.balances, from))
      && (r.Ok? ==> forall a ::
            Get(r.value.0.book.balances, a) == Get(s.book.balances, a) + Delta(Transferred(from, to, amount), a))
  {
    EntryAtMostSum(s.book.balances, from);
    EntryAtMostSum(s.book.balances, to);
  }

  /** A burn goes through exactly when it is positive, covered, and one of the
      first 2^32 - 1 burns; the burned total itself never overflows. */
  lemma BurnSucceedsExactly(s: State, from: Address, amount: int)
    requires BookInv(s.book)
    ensures BurnSpec(s, from, amount).Ok?
       <==> 0 < amount <= Get(s.book.balances, from) && s.book.burnCount < U32_MAX
  {
    EntryAtMostSum(s.book.balances, from);
  }

  // ----- schedules -----

  ghost predicate ScheduleInv(s: State) {
    && (forall b :: b in s.vesting ==> Valid(s.vesting[b]))
    && (forall k :: k in s.vestingV2 ==> ValidV2(s.vestingV2[k]) && k.1 < Get(s.scheduleCounts, k.0))
    && (forall b :: b in s.scheduleCounts ==> 0 <= s.scheduleCounts[b] <= U32_MAX)
  }

  /** A successful claim leaves exactly the amount vested now as claimed. */
  lemma ClaimV2Effect(s: State, b: Address, id: u32, t: State)
    requires ScheduleInv(s) && ClaimVestingV2Spec(s, b, id) == Ok((t, ()))
    ensures var before, after := s.vestingV2[(b, id)], t.vestingV2[(b, id)];
      && VestedAmountV2(before, s.ledger) == Ok(after.claimed)
      && after == before.(claimed := after.claimed)
      && before.claimed < after.claimed <= after.totalAmount
      && t.book.supply == s.book.supply + (after.claimed - before.claimed)
  {
    VestedWithinTotal(s.vestingV2[(b, id)], s.ledger);
  }

  lemma ClaimEffect(s: State, b: Address, t: State)
    requires ScheduleInv(s) && ClaimVestingSpec(s, b) == Ok((t, ()))
    ensures var before, after := s.vesting[b], t.vesting[b];
      && VestedAmount(before, s.ledger) == Ok(after.claimed)
      && after == before.(claimed := after.claimed)
      && before.claimed < after.claimed <= after.totalAmount
      && t.book.supply == s.book.supply + (after.claimed - before.claimed)
  {
    FirstVersionIsLinear(s.vesting[b], s.ledger);
  }

  // ----- campaigns -----

  function ClaimOf(e: Event, id: u32): int {
    if e.AirdropClaimed? && e.campaign == id then e.amount else 0
  }

  function ClaimedFrom(events: seq<Event>, id: u32): int {
    if events == [] then 0 else ClaimedFrom(events[..|events| - 1], id) + ClaimOf(events[|events| - 1], id)
  }

  /** How many claims of the campaign the recipient was paid. */
  function TimesPaid(events: seq<Event>, id: u32, recipient: Address): int {
    if events == [] then 0
    else
      var last := events[|events| - 1];
      TimesPaid(events[..|events| - 1], id, recipient)
      + (if last.AirdropClaimed? && last.campaign == id && last.recipient == recipient then 1 else 0)
  }

  lemma FoldOneClaim(events: seq<Event>, e: Event)
    ensures forall id: u32 :: ClaimedFrom(events + [e], id) == ClaimedFrom(events, id) + ClaimOf(e, id)
    ensures forall id: u32, r :: TimesPaid(events + [e], id, r) == TimesPaid(events, id, r)
              + (if e.AirdropClaimed? && e.campaign == id && e.recipient == r then 1 else 0)
  {
    assert (events + [e])[..|events|] == events;
  }

  /** Campaign totals agree with the paid claims: each campaign paid out what its
      claims add up to, at most its total, and nobody was paid twice. */
  ghost predicate CampaignInv(s: State) {
    && 0 <= s.campaignCount <= U32_MAX
    && (forall id: u32 :: id in s.campaigns <==> id < s.campaignCount)
    && (forall id :: id in s.campaigns ==> 0 <= s.campaigns[id].claimedAmount <= s.campaigns[id].totalAmount)
    && (forall id: u32 :: ClaimedFrom(s.book.events, id)
                          == if id in s.campaigns then s.campaigns[id].claimedAmount else 0)
    && (forall id: u32, r :: TimesPaid(s.book.events, id, r) == if (id, r) in s.claims then 1 else 0)
  }

  ghost predicate Inv(s: State) {
    BookInv(s.book) && ScheduleInv(s) && CampaignInv(s)
  }

  /** Publishing anything but a paid claim does not touch the campaigns. */
  lemma OtherEventsKeepCampaigns(s: State, t: State, e: Event)
    requires CampaignInv(s) && !e.AirdropClaimed?
    requires t.campaigns == s.campaigns && t.claims == s.claims && t.campaignCount == s.campaignCount
    requires t.book.events == s.book.events + [e]
    ensures CampaignInv(t)
  {
    FoldOneClaim(s.book.events, e);
  }

  lemma CreateAirdropKeepsInv(s: State, total: i128, expiry: u32, t: State, id: int)
    requires Inv(s) && CreateAirdropSpec(s, total, expiry) == Ok((t, id))
    ensures Inv(t) && 0 <= id <= U32_MAX && id !in s.campaigns && id in t.campaigns
  {
    FoldOneClaim(s.book.events, AirdropCreated(id, total, expiry));
    LogKeepsBooks(s.book, AirdropCreated(id, total, expiry));
  }

  lemma ClaimAirdropKeepsInv(s: State, id: u32, recipient: Address, amount: int, ok: bool, t: State, r: bool)
    requires Inv(s) && ClaimAirdropSpec(s, id, recipient, amount, ok) == Ok((t, r))
    ensures Inv(t)
  {
    FoldOneClaim(s.book.events, AirdropClaimed(id, recipient, amount));
    CreditKeepsBooks(s.book, recipient, amount, AirdropClaimed(id, recipient, amount), t.book);
  }

  lemma IssueKeepsInv(s: State, to: Address, amount: int, t: State)
    requires Inv(s) && 0 < amount && Credit(s.book, to, amount, Minted(to, amount)) == Ok(t.book)
    requires ScheduleInv(t)
    requires t.campaigns == s.campaigns && t.claims == s.claims && t.campaignCount == s.campaignCount
    ensures Inv(t)
  {
    CreditKeepsBooks(s.book, to, amount, Minted(to, amount), t.book);
    OtherEventsKeepCampaigns(s, t, Minted(to, amount));
  }

  lemma BookCallKeepsInv(s: State, c: Call)
    requires Inv(s) && (c.Mint? || c.Burn? || c.BurnFrom? || c.Approve? || c.MintReward?)
    ensures Inv(Step(s, c))
  {
    var t := Step(s, c);
    if t != s {
      match c
      case Mint(to, amount) => IssueKeepsInv(s, to, amount, t);
      case MintReward(_, to, amount) => IssueKeepsInv(s, to, amount, t);
      case Burn(from, amount) =>
        DebitKeepsBooks(s.book, from, amount, t.book);
        OtherEventsKeepCampaigns(s, t, Burned(from, amount));
      case BurnFrom(_, from, amount) =>
        DebitKeepsBooks(s.book, from, amount, t.book);
        OtherEventsKeepCampaigns(s, t, Burned(from, amount));
      case Approve(owner, spender, amount) =>
        LogKeepsBooks(s.book, Approved(owner, spender, amount));
        OtherEventsKeepCampaigns(s, t, Approved(owner, spender, amount));
    }
  }

  lemma TransferKeepsInv(s: State, c: Call)
    requires Inv(s) && (c.Transfer? || c.TransferFrom?)
    ensures Inv(Step(s, c))
  {
    var t := Step(s, c);
    if t != s {
      MoveKeepsBooks(s.book, c.from, c.to, c.amount, t.book);
      OtherEventsKeepCampaigns(s, t, Transferred(c.from, c.to, c.amount));
    }
  }

  lemma ClaimKeepsInv(s: State, b: Address, t: State)
    requires Inv(s) && ClaimVestingSpec(s, b) == Ok((t, ()))
    ensures Inv(t)
  {
    ClaimEffect(s, b, t);
    IssueKeepsInv(s, b, t.vesting[b].claimed - s.vesting[b].claimed, t);
  }

  lemma ClaimV2KeepsInv(s: State, b: Address, id: u32, t: State)
    requires Inv(s) && ClaimVestingV2Spec(s, b, id) == Ok((t, ()))
    ensures Inv(t)
  {
    ClaimV2Effect(s, b, id, t);
    IssueKeepsInv(s, b, t.vestingV2[(b, id)].claimed - s.vestingV2[(b, id)].claimed, t);
  }

  lemma CreateVestingV2KeepsInv(s: State, admin: Address, b: Address, total: i128, cliff: u32, end: u32,
                                vestingType: nat, stepCount: u32, t: State, id: int)
    requires Inv(s) && CreateVestingV2Spec(s, admin, b, total, cliff, end, vestingType, stepCount) == Ok((t, id))
    ensures Inv(t) && (b, id) !in s.vestingV2 && (b, id) in t.vestingV2
  {
    assert t.book == s.book;
    forall k | k in t.vestingV2
      ensures ValidV2(t.vestingV2[k]) && k.1 < Get(t.scheduleCounts, k.0)
    {
      assert k == (b, id) || k in s.vestingV2;
    }
  }

  lemma ModifyVestingV2KeepsInv(s: State, admin: Address, b: Address, id: u32, newEnd: u32, t: State)
    requires Inv(s) && ModifyVestingV2Spec(s, admin, b, id, newEnd) == Ok((t, ()))
    ensures Inv(t)
  {
    assert t.book == s.book;
    forall k | k in t.vestingV2
      ensures ValidV2(t.vestingV2[k]) && k.1 < Get(t.scheduleCounts, k.0)
    {
      assert k in s.vestingV2;
    }
  }

  lemma ScheduleCallKeepsInv(s: State, c: Call)
    requires Inv(s)
    requires c.CreateVesting? || c.ClaimVesting? || c.CreateVestingV2? || c.ClaimVestingV2? || c.ModifyVestingV2?
    ensures Inv(Step(s, c))
  {
    var t := Step(s, c);
    if t != s {
      match c
      case CreateVesting(_, _, _, _, _) =>
      case CreateVestingV2(admin, b, total, cliff, end, kind, steps) =>
        CreateVestingV2KeepsInv(s, admin, b, total, cliff, end, kind, steps, t, Get(s.scheduleCounts, b));
      case ModifyVestingV2(admin, b, id, newEnd) => ModifyVestingV2KeepsInv(s, admin, b, id, newEnd, t);
      case ClaimVesting(b) => ClaimKeepsInv(s, b, t);
      case ClaimVestingV2(b, id) => ClaimV2KeepsInv(s, b, id, t);
    }
  }

  lemma AirdropCallKeepsInv(s: State, c: Call)
    requires Inv(s) && (c.CreateAirdrop? || c.ClaimAirdrop? || c.RecoverUnclaimed?)
    ensures Inv(Step(s, c))
  {
    var t := Step(s, c);
    if t != s {
      match c
      case CreateAirdrop(total, expiry) => CreateAirdropKeepsInv(s, total, expiry, t, s.campaignCount);
      case ClaimAirdrop(id, recipient, amount, ok) => ClaimAirdropKeepsInv(s, id, recipient, amount, ok, t, true);
      case RecoverUnclaimed(id) =>
        var e := t.book.events[|s.book.events|];
        LogKeepsBooks(s.book, e);
        OtherEventsKeepCampaigns(s, t, e);
    }
  }

  lemma StepKeepsInv(s: State, c: Call)
    requires Inv(s)
    ensures Inv(Step(s, c))
  {
    if c.CreateAirdrop? || c.ClaimAirdrop? || c.RecoverUnclaimed? {
      AirdropCallKeepsInv(s, c);
    } else if c.Mint? || c.Burn? || c.BurnFrom? || c.Approve? || c.MintReward? {
      BookCallKeepsInv(s, c);
    } else if c.Transfer? || c.TransferFrom? {
      TransferKeepsInv(s, c);
    } else if !c.CloseLedgers? {
      ScheduleCallKeepsInv(s, c);
    }
  }

  /** Every reachable state of the token contract balances. */
  lemma {:induction false} ReachableStatesBalance(admin: Address, ledger: u32, calls: seq<Call>)
    ensures Inv(Run(Initial(admin, ledger), calls))
    decreases |calls|
  {
    if calls != [] {
      var n := |calls| - 1;
      ReachableStatesBalance(admin, ledger, calls[..n]);
      StepKeepsInv(Run(Initial(admin, ledger), calls[..n]), calls[n]);
    }
  }

  // ----- what each schedule has minted -----

  /** What the successful claims of a schedule added to the supply in a run. */
  function MintedFrom(s: State, calls: seq<Call>, b: Address, id: u32): int {
    if calls == [] then 0
    else
      var n := |calls| - 1;
      var m := Run(s, calls[..n]);
      MintedFrom(s, calls[..n], b, id)
      + (if calls[n] == ClaimVestingV2(b, id) then Step(m, calls[n]).book.supply - m.book.supply else 0)
  }

  lemma OtherCallsLeaveSchedulesV2(s: State, c: Call)
    requires !(c.CreateVestingV2? || c.ClaimVestingV2? || c.ModifyVestingV2?)
    ensures Step(s, c).vestingV2 == s.vestingV2
  {
  }

  lemma OtherCallsLeaveSchedules(s: State, c: Call)
    requires !(c.CreateVesting? || c.ClaimVesting?)
    ensures Step(s, c).vesting == s.vesting
  {
  }

  /** One call leaves a schedule's terms alone, but for the end ledger, and never
      lowers its claimed amount; only its own claims raise it. */
  lemma StepOnSchedule(s: State, c: Call, b: Address, id: u32)
    requires Inv(s) && (b, id) in s.vestingV2
    ensures var t := Step(s, c);
      && (b, id) in t.vestingV2
      && var before, after := s.vestingV2[(b, id)], t.vestingV2[(b, id)];
        && after == before.(claimed := after.claimed, endLedger := after.endLedger)
        && (!c.ModifyVestingV2? ==> after.endLedger == before.endLedger)
        && before.claimed <= after.claimed
        && after.claimed - before.claimed
           == if c == ClaimVestingV2(b, id) then t.book.supply - s.book.supply else 0
  {
    if c.ClaimVestingV2? {
      var r := ClaimVestingV2Spec(s, c.beneficiary, c.id);
      if r.Ok? {
        ClaimV2Effect(s, c.beneficiary, c.id, r.value.0);
      }
    } else if c.CreateVestingV2? {
      assert (c.beneficiary, Get(s.scheduleCounts, c.beneficiary)) != (b, id);
    } else if !c.ModifyVestingV2? {
      OtherCallsLeaveSchedulesV2(s, c);
    }
  }

  /** A schedule only comes into being as the admin created it, starting now with
      nothing claimed. */
  lemma StepOnMissingSchedule(s: State, c: Call, b: Address, id: u32)
    requires Inv(s) && (b, id) !in s.vestingV2
    ensures var t := Step(s, c);
      && ((b, id) in t.vestingV2 ==>
            && c.CreateVestingV2? && c.admin == s.admin && c.beneficiary == b
            && t.vestingV2[(b, id)] ==
               VestingScheduleV2(id, c.total, s.ledger, c.cliff, c.end, 0, c.vestingType, c.stepCount))
      && (c == ClaimVestingV2(b, id) ==> t == s)
  {
    if !(c.CreateVestingV2? || c.ClaimVestingV2? || c.ModifyVestingV2?) {
      OtherCallsLeaveSchedulesV2(s, c);
    }
  }

  /** In every reachable state, whatever claims and end-ledger changes were mixed,
      a schedule has claimed exactly what it minted, at most its total. */
  lemma {:induction false} ClaimedIsMinted(admin: Address, ledger: u32, calls: seq<Call>, b: Address, id: u32)
    ensures var s := Run(Initial(admin, ledger), calls);
      && Inv(s)
      && MintedFrom(Initial(admin, ledger), calls, b, id)
         == (if (b, id) in s.vestingV2 then s.vestingV2[(b, id)].claimed else 0)
      && ((b, id) in s.vestingV2 ==> 0 <= s.vestingV2[(b, id)].claimed <= s.vestingV2[(b, id)].totalAmount)
    decreases |calls|
  {
    ReachableStatesBalance(admin, ledger, calls);
    if calls != [] {
      var n := |calls| - 1;
      ClaimedIsMinted(admin, ledger, calls[..n], b, id);
      var m := Run(Initial(admin, ledger), calls[..n]);
      if (b, id) in m.vestingV2 {
        StepOnSchedule(m, calls[n], b, id);
      } else {
        StepOnMissingSchedule(m, calls[n], b, id);
      }
    }
  }

  /** Claims telescope: right after a successful claim, everything the schedule ever
      minted is what its formula gives at that ledger. */
  lemma ClaimsTelescope(admin: Address, ledger: u32, calls: seq<Call>, b: Address, id: u32)
    requires calls != [] && calls[|calls| - 1] == ClaimVestingV2(b, id)
    requires var m := Run(Initial(admin, ledger), calls[..|calls| - 1]); ClaimVestingV2Spec(m, b, id).Ok?
    ensures var s := Run(Initial(admin, ledger), calls);
      && (b, id) in s.vestingV2
      && VestedAmountV2(s.vestingV2[(b, id)], s.ledger) == Ok(MintedFrom(Initial(admin, ledger), calls, b, id))
  {
    ClaimedIsMinted(admin, ledger, calls, b, id);
    var front := calls[..|calls| - 1];
    ReachableStatesBalance(admin, ledger, front);
    var m := Run(Initial(admin, ledger), front);
    ClaimV2Effect(m, b, id, Step(m, ClaimVestingV2(b, id)));
  }

  /** What the claims of a beneficiary's first-version schedule added to the supply
      since the schedule in force was created. */
  function MintedSinceCreation(s: State, calls: seq<Call>, b: Address): int {
    if calls == [] then 0
    else
      var n := |calls| - 1;
      var m := Run(s, calls[..n]);
      var c := calls[n];
      if c.CreateVesting? && c.beneficiary == b && Step(m, c) != m then 0
      else MintedSinceCreation(s, calls[..n], b)
           + (if c == ClaimVesting(b) then Step(m, c).book.supply - m.book.supply else 0)
  }

  /** The same for the first version, from one creation of the schedule to the next. */
  lemma {:induction false} FirstVersionClaimedIsMinted(admin: Address, ledger: u32, calls: seq<Call>, b: Address)
    ensures var s := Run(Initial(admin, ledger), calls);
      && MintedSinceCreation(Initial(admin, ledger), calls, b)
         == (if b in s.vesting then s.vesting[b].claimed else 0)
      && (b in s.vesting ==> 0 <= s.vesting[b].claimed <= s.vesting[b].totalAmount)
    decreases |calls|
  {
    ReachableStatesBalance(admin, ledger, calls);
    if calls != [] {
      var n := |calls| - 1;
      FirstVersionClaimedIsMinted(admin, ledger, calls[..n], b);
      ReachableStatesBalance(admin, ledger, calls[..n]);
      StepOnFirstVersion(Run(Initial(admin, ledger), calls[..n]), calls[n], b);
    }
  }

  function ClaimedSoFar(s: State, b: Address): int {
    if b in s.vesting then s.vesting[b].claimed else 0
  }

  lemma StepOnFirstVersion(s: State, c: Call, b: Address)
    requires Inv(s)
    ensures var t := Step(s, c);
      if c.CreateVesting? && c.beneficiary == b && t != s then ClaimedSoFar(t, b) == 0
      else ClaimedSoFar(t, b) == ClaimedSoFar(s, b)
             + (if c == ClaimVesting(b) then t.book.supply - s.book.supply else 0)
  {
    if c.ClaimVesting? {
      var r := ClaimVestingSpec(s, c.beneficiary);
      if r.Ok? {
        ClaimEffect(s, c.beneficiary, r.value.0);
      }
    } else if !c.CreateVesting? {
      OtherCallsLeaveSchedules(s, c);
    }
  }

  lemma FirstVersionClaimsTelescope(admin: Address, ledger: u32, calls: seq<Call>, b: Address)
    requires calls != [] && calls[|calls| - 1] == ClaimVesting(b)
    requires var m := Run(Initial(admin, ledger), calls[..|calls| - 1]); ClaimVestingSpec(m, b).Ok?
    ensures var s := Run(Initial(admin, ledger), calls);
      && b in s.vesting
      && VestedAmount(s.vesting[b], s.ledger) == Ok(MintedSinceCreation(Initial(admin, ledger), calls, b))
  {
    FirstVersionClaimedIsMinted(admin, ledger, calls, b);
    var front := calls[..|calls| - 1];
    ReachableStatesBalance(admin, ledger, front);
    var m := Run(Initial(admin, ledger), front);
    ClaimEffect(m, b, Step(m, ClaimVesting(b)));
  }

  /** A claim succeeds exactly when something more is vested than was claimed and the
      cap leaves room. */
  lemma ClaimSucceedsExactly(s: State, b: Address, id: u32)
    requires Inv(s)
    ensures ClaimVestingV2Spec(s, b, id).Ok?
       <==> && (b, id) in s.vestingV2
            && var schedule := s.vestingV2[(b, id)];
              var vested := VestedAmountV2(schedule, s.ledger);
              && vested.Ok? && schedule.claimed < vested.value
              && s.book.supply + (vested.value - schedule.claimed) <= MAX_SUPPLY
  {
    if (b, id) in s.vestingV2 && VestedAmountV2(s.vestingV2[(b, id)], s.ledger).Ok? {
      VestedWithinTotal(s.vestingV2[(b, id)], s.ledger);
      EntryAtMostSum(s.book.balances, b);
    }
  }

  // ----- claimed against vested -----

  /** The schedule, if there is one, has claimed no more than is vested now. */
  ghost predicate WithinVested(s: State, b: Address, id: u32) {
    (b, id) in s.vestingV2 ==>
      var schedule := s.vestingV2[(b, id)];
      var vested := VestedAmountV2(schedule, s.ledger);
      vested.Ok? ==> schedule.claimed <= vested.value
  }

  /** The call moves the end of the schedule to where its terms no longer cover what
      was already claimed. */
  ghost predicate Undercuts(s: State, c: Call, b: Address, id: u32) {
    && c.ModifyVestingV2? && c.admin == s.admin && c.beneficiary == b && c.id == id
    && (b, id) in s.vestingV2
    && var schedule := s.vestingV2[(b, id)];
      && schedule.startLedger <= schedule.cliffLedger < c.newEnd
      && var modified := schedule.(endLedger := c.newEnd);
        VestedAmountV2(modified, s.ledger).Ok? && !ClaimsCovered(modified, s.ledger)
  }

  lemma ModificationKeepsWithinVestedExactly(s: State, c: Call, b: Address, id: u32)
    requires Inv(s) && WithinVested(s, b, id)
    requires c.ModifyVestingV2? && c.beneficiary == b && c.id == id
    ensures WithinVested(Step(s, c), b, id) <==> !Undercuts(s, c, b, id)
  {
    var r := ModifyVestingV2Spec(s, c.admin, b, id, c.newEnd);
    if r.Ok? {
      var modified := s.vestingV2[(b, id)].(endLedger := c.newEnd);
      assert r.value.0.vestingV2[(b, id)] == modified && r.value.0.ledger == s.ledger;
      if VestedAmountV2(modified, s.ledger).Ok? {
        ClaimedWithinVestedExactly(modified, s.ledger);
      }
    }
  }

  lemma OtherCallsKeepWithinVested(s: State, c: Call, b: Address, id: u32)
    requires Inv(s) && WithinVested(s, b, id)
    requires !(c.ModifyVestingV2? && c.beneficiary == b && c.id == id)
    ensures WithinVested(Step(s, c), b, id)
  {
    var t := Step(s, c);
    StepOnTerms(s, c, b, id);
    if (b, id) in t.vestingV2 && VestedAmountV2(t.vestingV2[(b, id)], t.ledger).Ok? {
      var after := t.vestingV2[(b, id)];
      StepKeepsInv(s, c);
      VestedWithinTotal(after, t.ledger);
      if (b, id) in s.vestingV2 && after == s.vestingV2[(b, id)] {
        if VestedAmountV2(after, s.ledger).Ok? {
          VestedNeverDecreases(after, s.ledger, t.ledger);
        } else {
          OverflowLastsToTheEnd(after, s.ledger, t.ledger);
        }
      }
    }
  }

  /** What a call other than its own modification does to a schedule: nothing, start
      it with nothing claimed, or bring its claims up to the amount vested now. */
  lemma StepOnTerms(s: State, c: Call, b: Address, id: u32)
    requires Inv(s) && !(c.ModifyVestingV2? && c.beneficiary == b && c.id == id)
    ensures var t := Step(s, c);
      && s.ledger <= t.ledger
      && ((b, id) in t.vestingV2 ==>
            var after := t.vestingV2[(b, id)];
            || after.claimed == 0
            || VestedAmountV2(after, t.ledger) == Ok(after.claimed)
            || ((b, id) in s.vestingV2 && after == s.vestingV2[(b, id)]))
  {
    if c.ClaimVestingV2? {
      ClaimOnTerms(s, c.beneficiary, c.id, b, id);
    } else if !c.CreateVestingV2? && !c.ModifyVestingV2? {
      OtherCallsLeaveSchedulesV2(s, c);
    }
  }

  lemma ClaimOnTerms(s: State, beneficiary: Address, claimed: u32, b: Address, id: u32)
    requires Inv(s)
    ensures var t := After(ClaimVestingV2Spec(s, beneficiary, claimed), s);
      && t.ledger == s.ledger
      && ((b, id) in t.vestingV2 ==>
            var after := t.vestingV2[(b, id)];
            || VestedAmountV2(after, t.ledger) == Ok(after.claimed)
            || ((b, id) in s.vestingV2 && after == s.vestingV2[(b, id)]))
  {
    var r := ClaimVestingV2Spec(s, beneficiary, claimed);
    if r.Ok? {
      ClaimV2Effect(s, beneficiary, claimed, r.value.0);
      var before, after := s.vestingV2[(beneficiary, claimed)], r.value.0.vestingV2[(beneficiary, claimed)];
      assert VestedAmountV2(after, s.ledger) == VestedAmountV2(before, s.ledger);
    }
  }

  /** A call keeps claimed within vested exactly when it is not an undercutting
      modification of the schedule. */
  lemma StepKeepsWithinVestedExactly(s: State, c: Call, b: Address, id: u32)
    requires Inv(s) && WithinVested(s, b, id)
    ensures WithinVested(Step(s, c), b, id) <==> !Undercuts(s, c, b, id)
  {
    if c.ModifyVestingV2? && c.beneficiary == b && c.id == id {
      ModificationKeepsWithinVestedExactly(s, c, b, id);
    } else {
      OtherCallsKeepWithinVested(s, c, b, id);
    }
  }

  /** After every run without an undercutting modification, whatever else it mixes,
      no schedule has claimed more than is vested. */
  lemma {:induction false} ClaimedStaysWithinVested(admin: Address, ledger: u32, calls: seq<Call>, b: Address, id: u32)
    requires forall k :: 0 <= k < |calls| ==> !Undercuts(Run(Initial(admin, ledger), calls[..k]), calls[k], b, id)
    ensures WithinVested(Run(Initial(admin, ledger), calls), b, id)
    decreases |calls|
  {
    if calls != [] {
      var n := |calls| - 1;
      PrefixesOfPrefix(calls);
      ClaimedStaysWithinVested(admin, ledger, calls[..n], b, id);
      ReachableStatesBalance(admin, ledger, calls[..n]);
      StepKeepsWithinVestedExactly(Run(Initial(admin, ledger), calls[..n]), calls[n], b, id);
    }
  }

  /** Half of a linear schedule is claimed at ledger 50, then its end is moved from
      100 to 1000. */
  function UndercuttingRun(admin: Address, b: Address): seq<Call> {
    [CreateVestingV2(admin, b, 1000, 0, 100, 0, 0), CloseLedgers(50), ClaimVestingV2(b, 0),
     ModifyVestingV2(admin, b, 0, 1000)]
  }

  lemma RunFour(s: State, a: Call, b: Call, c: Call, d: Call)
    ensures Run(s, [a, b, c, d]) == Step(Step(Step(Step(s, a), b), c), d)
  {
    assert [a, b, c, d][..3] == [a, b, c] && [a, b, c][..2] == [a, b] && [a, b][..1] == [a] && [a][..0] == [];
    assert Run(s, [a]) == Step(s, a);
    assert Run(s, [a, b]) == Step(Step(s, a), b);
    assert Run(s, [a, b, c]) == Step(Step(Step(s, a), b), c);
  }

  /** The run's schedule, with the end and the claims it has at that point. */
  function Stage(end: u32, claimed: i128): VestingScheduleV2 {
    VestingScheduleV2(0, 1000, 0, 0, end, claimed, 0, 0)
  }

  lemma StageAmounts()
    ensures VestedAmountV2(Stage(100, 0), 50) == Ok(500)
    ensures VestedAmountV2(Stage(1000, 500), 50) == Ok(50)
  {
  }

  lemma HalfIsClaimed(admin: Address, b: Address)
    ensures var calls := UndercuttingRun(admin, b);
      var s := Step(Step(Step(Initial(admin, 0), calls[0]), calls[1]), calls[2]);
      s.admin == admin && s.ledger == 50 && (b, 0) in s.vestingV2 && s.vestingV2[(b, 0)] == Stage(100, 500)
  {
    StageAmounts();
    var calls := UndercuttingRun(admin, b);
    var later := Step(Step(Initial(admin, 0), calls[0]), calls[1]);
    assert later.ledger == 50 && later.book.supply == 0 && later.vestingV2[(b, 0)] == Stage(100, 0);
    assert Get(later.book.balances, b) == 0;
  }

  /** The condition is needed: after this run 500 are claimed and only 50 vested. */
  lemma LaterEndUndercutsClaims(admin: Address, b: Address)
    ensures var s := Run(Initial(admin, 0), UndercuttingRun(admin, b));
      && (b, 0) in s.vestingV2 && s.vestingV2[(b, 0)].claimed == 500
      && VestedAmountV2(s.vestingV2[(b, 0)], s.ledger) == Ok(50)
      && !WithinVested(s, b, 0)
  {
    var calls := UndercuttingRun(admin, b);
    RunFour(Initial(admin, 0), calls[0], calls[1], calls[2], calls[3]);
    HalfIsClaimed(admin, b);
    StageAmounts();
  }

  // ----- campaigns, allowances, the reward lock -----

  /** After expiry the unclaimed rest of a campaign is its total less what its
      distinct claimants were paid, and never negative. */
  lemma RecoveredIsTheRest(admin: Address, ledger: u32, calls: seq<Call>, id: u32)
    ensures var s := Run(Initial(admin, ledger), calls);
      && (RecoverUnclaimedSpec(s, id).Ok? <==> id in s.campaigns && s.campaigns[id].expiryLedger < s.ledger)
      && (RecoverUnclaimedSpec(s, id).Ok? ==>
            && RecoverUnclaimedSpec(s, id).value.1 == s.campaigns[id].totalAmount - ClaimedFrom(s.book.events, id)
            && 0 <= RecoverUnclaimedSpec(s, id).value.1)
  {
    ReachableStatesBalance(admin, ledger, calls);
  }

  /** What one effective call does to what an owner lets a spender take. */
  function AllowanceAfter(before: int, c: Call, owner: Address, spender: Address): int {
    if c.Approve? && c.owner == owner && c.spender == spender then c.limit
    else if (c.BurnFrom? || c.TransferFrom?) && c.from == owner && c.spender == spender then before - c.amount
    else before
  }

  /** What an owner still lets a spender take, recomputed from the run: the last
      approval less what the spender moved or burned since. */
  function StillApproved(s: State, calls: seq<Call>, owner: Address, spender: Address): int {
    if calls == [] then 0
    else
      var n := |calls| - 1;
      var m := Run(s, calls[..n]);
      var sofar := StillApproved(s, calls[..n], owner, spender);
      if Step(m, calls[n]) == m then sofar else AllowanceAfter(sofar, calls[n], owner, spender)
  }

  /** A spender never takes more than the owner's last approval. */
  lemma {:induction false} SpendersStayWithinApproval(admin: Address, ledger: u32, calls: seq<Call>,
                                                      owner: Address, spender: Address)
    ensures var s := Run(Initial(admin, ledger), calls);
      0 <= Get(s.allowances, (owner, spender))
        == StillApproved(Initial(admin, ledger), calls, owner, spender) <= I128_MAX
    decreases |calls|
  {
    if calls != [] {
      var n := |calls| - 1;
      SpendersStayWithinApproval(admin, ledger, calls[..n], owner, spender);
      StepOnAllowance(Run(Initial(admin, ledger), calls[..n]), calls[n], owner, spender);
    }
  }

  lemma StepOnAllowance(s: State, c: Call, owner: Address, spender: Address)
    requires 0 <= Get(s.allowances, (owner, spender)) <= I128_MAX
    ensures var t := Step(s, c);
      var before, after := Get(s.allowances, (owner, spender)), Get(t.allowances, (owner, spender));
      0 <= after <= I128_MAX && after == if t == s then before else AllowanceAfter(before, c, owner, spender)
  {
    if c.BurnFrom? || c.TransferFrom? {
      SpendingOnAllowance(s, c, owner, spender);
    } else if !c.Approve? {
      OtherCallsLeaveAllowances(s, c);
    }
  }

  lemma SpendingOnAllowance(s: State, c: Call, owner: Address, spender: Address)
    requires (c.BurnFrom? || c.TransferFrom?) && 0 <= Get(s.allowances, (owner, spender)) <= I128_MAX
    ensures var t := Step(s, c);
      var before, after := Get(s.allowances, (owner, spender)), Get(t.allowances, (owner, spender));
      0 <= after <= I128_MAX && after == if t == s then before else AllowanceAfter(before, c, owner, spender)
  {
    if c.TransferFrom? {
      var r := TransferFromSpec(s, c.spender, c.from, c.to, c.amount);
      if r.Ok? {
        TransferFromEffect(s, c.spender, c.from, c.to, c.amount, r.value.0);
      }
    } else {
      var r := BurnFromSpec(s, c.spender, c.from, c.amount);
      if r.Ok? {
        BurnFromEffect(s, c.spender, c.from, c.amount, r.value.0);
      }
    }
  }

  lemma TransferFromEffect(s: State, spender: Address, from: Address, to: Address, amount: int, t: State)
    requires TransferFromSpec(s, spender, from, to, amount) == Ok((t, ()))
    ensures 0 < amount <= Get(s.allowances, (from, spender))
    ensures Move(s.book, from, to, amount) == Ok(t.book)
    ensures t == s.(book := t.book,
                    allowances := s.allowances[(from, spender) := Get(s.allowances, (from, spender)) - amount])
  {
  }

  lemma BurnFromEffect(s: State, spender: Address, from: Address, amount: int, t: State)
    requires BurnFromSpec(s, spender, from, amount) == Ok((t, ()))
    ensures 0 < amount <= Get(s.allowances, (from, spender))
    ensures Debit(s.book, from, amount) == Ok(t.book)
    ensures t == s.(book := t.book,
                    allowances := s.allowances[(from, spender) := Get(s.allowances, (from, spender)) - amount])
  {
  }

  lemma OtherCallsLeaveAllowances(s: State, c: Call)
    requires !(c.Approve? || c.BurnFrom? || c.TransferFrom?)
    ensures Step(s, c).allowances == s.allowances
  {
  }

  function RewardsMinted(s: State, calls: seq<Call>): int {
    if calls == [] then 0
    else
      var n := |calls| - 1;
      var m := Run(s, calls[..n]);
      RewardsMinted(s, calls[..n]) + (if calls[n].MintReward? && Step(m, calls[n]) != m then 1 else 0)
  }

  /** The reward entry point works at most once in the life of the contract: it
      takes the lock and nothing ever gives it back. It works when no reward was
      minted before, its caller is the admin, the amount is positive and the cap
      leaves room, and only then. */
  lemma {:induction false} RewardsAreMintedOnce(admin: Address, ledger: u32, calls: seq<Call>)
    ensures var s := Run(Initial(admin, ledger), calls);
      var minted := RewardsMinted(Initial(admin, ledger), calls);
      && s.admin == admin
      && minted == (if s.locked then 1 else 0)
      && forall caller, recipient, amount :: MintRewardSpec(s, caller, recipient, amount).Ok?
           <==> minted == 0 && caller == admin && 0 < amount && s.book.supply + amount <= MAX_SUPPLY
    decreases |calls|
  {
    var s := Run(Initial(admin, ledger), calls);
    if calls != [] {
      var n := |calls| - 1;
      RewardsAreMintedOnce(admin, ledger, calls[..n]);
      StepOnLock(Run(Initial(admin, ledger), calls[..n]), calls[n]);
    }
    ReachableStatesBalance(admin, ledger, calls);
    forall caller, recipient, amount {
      MintRewardSucceedsExactly(s, caller, recipient, amount);
    }
  }

  lemma MintRewardSucceedsExactly(s: State, caller: Address, recipient: Address, amount: int)
    requires BookInv(s.book)
    ensures MintRewardSpec(s, caller, recipient, amount).Ok?
       <==> !s.locked && caller == s.admin && 0 < amount && s.book.supply + amount <= MAX_SUPPLY
  {
    EntryAtMostSum(s.book.balances, recipient);
  }

  lemma StepOnLock(s: State, c: Call)
    ensures Step(s, c).locked <==> s.locked || (c.MintReward? && Step(s, c) != s)
    ensures s.locked && c.MintReward? ==> Step(s, c) == s
    ensures Step(s, c).admin == s.admin
  {
  }
}
