/** The token contract: balances and supply, allowances, vesting schedules and
    airdrop campaigns, as state transformers and as a contract object. */
module Token {
  import opened Common
  import opened Vesting

  const MAX_SUPPLY: int := 10_000_000_000_000_000

  /** What the contract publishes. */
  datatype Event =
    | Transferred(from: Address, to: Address, amount: int)
    | Approved(owner: Address, spender: Address, amount: int)
    | Minted(to: Address, amount: int)
    | Burned(from: Address, amount: int)
    | AirdropCreated(campaign: u32, total: int, expiry: u32)
    | AirdropClaimed(campaign: u32, recipient: Address, amount: int)
    | AirdropRecovered(campaign: u32, amount: int)

  /** The accounting part of storage, with the events published so far. */
  datatype Book = Book(balances: map<Address, int>, supply: int, totalBurned: int, burnCount: int,
                       events: seq<Event>)

  datatype Campaign = Campaign(totalAmount: i128, claimedAmount: int, expiryLedger: u32)

  datatype State = State(admin: Address, ledger: u32, book: Book,
                         allowances: map<(Address, Address), int>,
                         vesting: map<Address, VestingSchedule>,
                         vestingV2: map<(Address, u32), VestingScheduleV2>,
                         scheduleCounts: map<Address, int>,
                         campaigns: map<u32, Campaign>, claims: set<(u32, Address)>, campaignCount: int,
                         locked: bool)

  function Initial(admin: Address, ledger: u32): State {
    State(admin, ledger, Book(map[], 0, 0, 0, []), map[], map[], map[], map[], map[], {}, 0, false)
  }

  // ----- accounting -----

  function Credit(b: Book, to: Address, amount: int, e: Event): Result<Book> {
    var balance :- Checked(Get(b.balances, to) + amount);
    var supply :- Checked(b.supply + amount);
    if MAX_SUPPLY < supply then Panic
    else Ok(b.(balances := b.balances[to := balance], supply := supply, events := b.events + [e]))
  }

  function Debit(b: Book, from: Address, amount: int): Result<Book> {
    if Get(b.balances, from) < amount then Panic
    else
      var balance :- Checked(Get(b.balances, from) - amount);
      var supply :- Checked(b.supply - amount);
      var totalBurned :- Checked(b.totalBurned + amount);
      if U32_MAX < b.burnCount + 1 then Panic
      else Ok(b.(balances := b.balances[from := balance], supply := supply, totalBurned := totalBurned,
                 burnCount := b.burnCount + 1, events := b.events + [Burned(from, amount)]))
  }

  function Move(b: Book, from: Address, to: Address, amount: int): Result<Book> {
    if Get(b.balances, from) < amount then Panic
    else
      var left :- Checked(Get(b.balances, from) - amount);
      var without := b.balances[from := left];
      var balance :- Checked(Get(without, to) + amount);
      Ok(b.(balances := without[to := balance], events := b.events + [Transferred(from, to, amount)]))
  }

  function Log(b: Book, e: Event): Book {
    b.(events := b.events + [e])
  }

  // ----- the entry points as state transformers -----

  function MintSpec(s: State, to: Address, amount: int): Result<(State, ())> {
    if amount <= 0 then Panic
    else
      var book :- Credit(s.book, to, amount, Minted(to, amount));
      Ok((s.(book := book), ()))
  }

  function BurnSpec(s: State, from: Address, amount: int): Result<(State, ())> {
    if amount <= 0 then Panic
    else
      var book :- Debit(s.book, from, amount);
      Ok((s.(book := book), ()))
  }

  function SpendAllowance(s: State, owner: Address, spender: Address, amount: int): Result<State> {
    var allowed := Get(s.allowances, (owner, spender));
    if allowed < amount then Panic
    else
      var left :- Checked(allowed - amount);
      Ok(s.(allowances := s.allowances[(owner, spender) := left]))
  }

  function BurnFromSpec(s: State, spender: Address, from: Address, amount: int): Result<(State, ())> {
    if amount <= 0 then Panic
    else
      var t :- SpendAllowance(s, from, spender, amount);
      var book :- Debit(s.book, from, amount);
      Ok((t.(book := book), ()))
  }

  function TransferSpec(s: State, from: Address, to: Address, amount: int): Result<(State, ())> {
    if amount <= 0 then Panic
    else
      var book :- Move(s.book, from, to, amount);
      Ok((s.(book := book), ()))
  }

  function ApproveSpec(s: State, owner: Address, spender: Address, amount: i128): Result<(State, ())> {
    if amount < 0 then Panic
    else Ok((s.(allowances := s.allowances[(owner, spender) := amount],
                book := Log(s.book, Approved(owner, spender, amount))), ()))
  }

  function TransferFromSpec(s: State, spender: Address, from: Address, to: Address, amount: int): Result<(State, ())> {
    if amount <= 0 then Panic
    else
      var t :- SpendAllowance(s, from, spender, amount);
      var book :- Move(s.book, from, to, amount);
      Ok((t.(book := book), ()))
  }

  predicate ScheduleOk(s: State, admin: Address, total: int, cliff: int, end: int) {
    admin == s.admin && 0 < total && s.ledger <= cliff < end
  }

  function CreateVestingSpec(s: State, admin: Address, beneficiary: Address, total: i128,
                             cliff: u32, end: u32): Result<(State, ())>
  {
    if !ScheduleOk(s, admin, total, cliff, end) then Panic
    else Ok((s.(vesting := s.vesting[beneficiary := VestingSchedule(total, s.ledger, cliff, end, 0)]), ()))
  }

  /** The part of the vested amount not claimed yet, when there is one. */
  function Claimable(vested: Result<int>, claimed: int): Result<int> {
    var v :- vested;
    var claimable :- Checked(v - claimed);
    if claimable <= 0 then Panic else Ok(claimable)
  }

  function ClaimVestingSpec(s: State, beneficiary: Address): Result<(State, ())> {
    if beneficiary !in s.vesting then Panic
    else
      var schedule := s.vesting[beneficiary];
      var claimable :- Claimable(VestedAmount(schedule, s.ledger), schedule.claimed);
      var claimed :- Checked(schedule.claimed + claimable);
      var book :- Credit(s.book, beneficiary, claimable, Minted(beneficiary, claimable));
      Ok((s.(vesting := s.vesting[beneficiary := schedule.(claimed := claimed)], book := book), ()))
  }

  function CreateVestingV2Spec(s: State, admin: Address, beneficiary: Address, total: i128, cliff: u32,
                               end: u32, vestingType: nat, stepCount: u32): Result<(State, int)>
  {
    var id := Get(s.scheduleCounts, beneficiary);
    if !ScheduleOk(s, admin, total, cliff, end) || 1 < vestingType || !(0 <= id < U32_MAX) then Panic
    else Ok((s.(vestingV2 := s.vestingV2[(beneficiary, id) :=
                  VestingScheduleV2(id, total, s.ledger, cliff, end, 0, vestingType, stepCount)],
                scheduleCounts := s.scheduleCounts[beneficiary := id + 1]), id))
  }

  function ClaimVestingV2Spec(s: State, beneficiary: Address, id: u32): Result<(State, ())> {
    if (beneficiary, id) !in s.vestingV2 then Panic
    else
      var schedule := s.vestingV2[(beneficiary, id)];
      var claimable :- Claimable(VestedAmountV2(schedule, s.ledger), schedule.claimed);
      var claimed :- Checked(schedule.claimed + claimable);
      var book :- Credit(s.book, beneficiary, claimable, Minted(beneficiary, claimable));
      Ok((s.(vestingV2 := s.vestingV2[(beneficiary, id) := schedule.(claimed := claimed)], book := book), ()))
  }

  function ModifyVestingV2Spec(s: State, admin: Address, beneficiary: Address, id: u32,
                               newEnd: u32): Result<(State, ())>
  {
    if admin != s.admin || (beneficiary, id) !in s.vestingV2 then Panic
    else
      var schedule := s.vestingV2[(beneficiary, id)];
      if newEnd <= schedule.cliffLedger then Panic
      else Ok((s.(vestingV2 := s.vestingV2[(beneficiary, id) := schedule.(endLedger := newEnd)]), ()))
  }

  function CreateAirdropSpec(s: State, total: i128, expiry: u32): Result<(State, int)> {
    var id := s.campaignCount;
    if total <= 0 || expiry <= s.ledger || !(0 <= id < U32_MAX) then Panic
    else Ok((s.(campaigns := s.campaigns[id := Campaign(total, 0, expiry)], campaignCount := id + 1,
                book := Log(s.book, AirdropCreated(id, total, expiry))), id))
  }

  /** `proofValid` is what the Merkle check answers for the recipient and amount. */
  function ClaimAirdropSpec(s: State, id: u32, recipient: Address, amount: int,
                            proofValid: bool): Result<(State, bool)>
  {
    if amount <= 0 || id !in s.campaigns then Panic
    else
      var c := s.campaigns[id];
      if c.expiryLedger < s.ledger || (id, recipient) in s.claims || !proofValid then Panic
      else
        var claimed :- Checked(c.claimedAmount + amount);
        if c.totalAmount < claimed then Panic
        else
          var book :- Credit(s.book, recipient, amount, AirdropClaimed(id, recipient, amount));
          Ok((s.(campaigns := s.campaigns[id := c.(claimedAmount := claimed)],
                 claims := s.claims + {(id, recipient)}, book := book), true))
  }

  function RecoverUnclaimedSpec(s: State, id: u32): Result<(State, int)> {
    if id !in s.campaigns || s.ledger <= s.campaigns[id].expiryLedger then Panic
    else
      var unclaimed :- Checked(s.campaigns[id].totalAmount - s.campaigns[id].claimedAmount);
      Ok((s.(book := Log(s.book, AirdropRecovered(id, unclaimed))), unclaimed))
  }

  /** The reentrancy flag is taken and never given back. */
  function MintRewardSpec(s: State, caller: Address, recipient: Address, amount: int): Result<(State, ())> {
    if s.locked || caller != s.admin || amount <= 0 then Panic
    else
      var book :- Credit(s.book, recipient, amount, Minted(recipient, amount));
      Ok((s.(locked := true, book := book), ()))
  }

  // ----- the contract object -----

  /** Storage is updated in place. Where an entry point has already written
      something when a check fails, the host's rollback is written out. */
  class TokenContract {
    const admin: Address
    var ledger: u32
    var balances: map<Address, int>
    var supply: int
    var totalBurned: int
    var burnCount: int
    var events: seq<Event>
    var allowances: map<(Address, Address), int>
    var vesting: map<Address, VestingSchedule>
    var vestingV2: map<(Address, u32), VestingScheduleV2>
    var scheduleCounts: map<Address, int>
    var campaigns: map<u32, Campaign>
    var claims: set<(u32, Address)>
    var campaignCount: int
    var locked: bool

    ghost function BookView(): Book
      reads this
    {
      Book(balances, supply, totalBurned, burnCount, events)
    }

    ghost function View(): State
      reads this
    {
      State(admin, ledger, BookView(), allowances, vesting, vestingV2, scheduleCounts,
            campaigns, claims, campaignCount, locked)
    }

    constructor (admin: Address, ledger: u32)
      ensures View() == Initial(admin, ledger)
    {
      this.admin, this.ledger := admin, ledger;
      balances, supply, totalBurned, burnCount, events := map[], 0, 0, 0, [];
      allowances, vesting, vestingV2, scheduleCounts := map[], map[], map[], map[];
      campaigns, claims, campaignCount, locked := map[], {}, 0, false;
    }

    /** add_balance, add_supply and the event, or none of them. */
    method Issue(to: Address, amount: int, e: Event) returns (r: Result<()>)
      modifies this`balances, this`supply, this`events
      ensures match Credit(old(BookView()), to, amount, e)
              case Ok(book) => r == Ok(()) && BookView() == book
              case Panic => r.Panic? && BookView() == old(BookView())
    {
      var saved := balances;
      var balance :- Checked(Get(balances, to) + amount);
      balances := balances[to := balance];
      var newSupply := Checked(supply + amount);
      if newSupply.Panic? || MAX_SUPPLY < newSupply.value {
        balances := saved;
        return Panic;
      }
      supply := newSupply.value;
      events := events + [e];
      return Ok(());
    }

    /** sub_balance, sub_supply, the burn statistics and the event, or none. */
    method Destroy(from: Address, amount: int) returns (r: Result<()>)
      modifies this`balances, this`supply, this`totalBurned, this`burnCount, this`events
      ensures match Debit(old(BookView()), from, amount)
              case Ok(book) => r == Ok(()) && BookView() == book
              case Panic => r.Panic? && BookView() == old(BookView())
    {
      var held := Get(balances, from);
      if held < amount {
        return Panic;
      }
      var balance :- Checked(held - amount);
      var newSupply :- Checked(supply - amount);
      var burned :- Checked(totalBurned + amount);
      if U32_MAX < burnCount + 1 {
        return Panic;
      }
      balances := balances[from := balance];
      supply := newSupply;
      totalBurned := burned;
      burnCount := burnCount + 1;
      events := events + [Burned(from, amount)];
      return Ok(());
    }

    /** sub_balance on one side, add_balance on the other as it then stands. */
    method Shift(from: Address, to: Address, amount: int) returns (r: Result<()>)
      modifies this`balances, this`events
      ensures match Move(old(BookView()), from, to, amount)
              case Ok(book) => r == Ok(()) && BookView() == book
              case Panic => r.Panic? && BookView() == old(BookView())
    {
      var saved := balances;
      var held := Get(balances, from);
      if held < amount {
        return Panic;
      }
      var left :- Checked(held - amount);
      balances := balances[from := left];
      var balance := Checked(Get(balances, to) + amount);
      if balance.Panic? {
        balances := saved;
        return Panic;
      }
      balances := balances[to := balance.value];
      events := events + [Transferred(from, to, amount)];
      return Ok(());
    }

    method Mint(to: Address, amount: int) returns (r: Result<()>)
      modifies this
      ensures Refines(MintSpec(old(View()), to, amount), old(View()), View(), r)
    {
      if amount <= 0 {
        return Panic;
      }
      r := Issue(to, amount, Minted(to, amount));
    }

    method Burn(from: Address, amount: int) returns (r: Result<()>)
      modifies this
      ensures Refines(BurnSpec(old(View()), from, amount), old(View()), View(), r)
    {
      if amount <= 0 {
        return Panic;
      }
      r := Destroy(from, amount);
    }

    method BurnFrom(spender: Address, from: Address, amount: int) returns (r: Result<()>)
      modifies this
      ensures Refines(BurnFromSpec(old(View()), spender, from, amount), old(View()), View(), r)
    {
      var saved := allowances;
      var allowed := Get(allowances, (from, spender));
      if amount <= 0 || allowed < amount {
        return Panic;
      }
      var left :- Checked(allowed - amount);
      allowances := allowances[(from, spender) := left];
      r := Destroy(from, amount);
      if r.Panic? {
        allowances := saved;
      }
    }

    method Transfer(from: Address, to: Address, amount: int) returns (r: Result<()>)
      modifies this
      ensures Refines(TransferSpec(old(View()), from, to, amount), old(View()), View(), r)
    {
      if amount <= 0 {
        return Panic;
      }
      r := Shift(from, to, amount);
    }

    method Approve(owner: Address, spender: Address, amount: i128) returns (r: Result<()>)
      modifies this
      ensures Refines(ApproveSpec(old(View()), owner, spender, amount), old(View()), View(), r)
    {
      if amount < 0 {
        return Panic;
      }
      allowances := allowances[(owner, spender) := amount];
      events := events + [Approved(owner, spender, amount)];
      return Ok(());
    }

    method TransferFrom(spender: Address, from: Address, to: Address, amount: int) returns (r: Result<()>)
      modifies this
      ensures Refines(TransferFromSpec(old(View()), spender, from, to, amount), old(View()), View(), r)
    {
      var saved := allowances;
      var allowed := Get(allowances, (from, spender));
      if amount <= 0 || allowed < amount {
        return Panic;
      }
      var left :- Checked(allowed - amount);
      allowances := allowances[(from, spender) := left];
      r := Shift(from, to, amount);
      if r.Panic? {
        allowances := saved;
      }
    }

    method CreateVesting(caller: Address, beneficiary: Address, total: i128, cliff: u32, end: u32)
      returns (r: Result<()>)
      modifies this
      ensures Refines(CreateVestingSpec(old(View()), caller, beneficiary, total, cliff, end),
                      old(View()), View(), r)
    {
      if caller != admin || total <= 0 || cliff < ledger || end <= cliff {
        return Panic;
      }
      vesting := vesting[beneficiary := VestingSchedule(total, ledger, cliff, end, 0)];
      return Ok(());
    }

    method ClaimVesting(beneficiary: Address) returns (r: Result<()>)
      modifies this
      ensures Refines(ClaimVestingSpec(old(View()), beneficiary), old(View()), View(), r)
    {
      if beneficiary !in vesting {
        return Panic;
      }
      var saved := vesting;
      var schedule := vesting[beneficiary];
      var vested :- VestedAmount(schedule, ledger);
      var claimable :- Checked(vested - schedule.claimed);
      if claimable <= 0 {
        return Panic;
      }
      var claimed :- Checked(schedule.claimed + claimable);
      vesting := vesting[beneficiary := schedule.(claimed := claimed)];
      r := Issue(beneficiary, claimable, Minted(beneficiary, claimable));
      if r.Panic? {
        vesting := saved;
      }
    }

    method CreateVestingV2(caller: Address, beneficiary: Address, total: i128, cliff: u32, end: u32,
                           vestingType: nat, stepCount: u32) returns (r: Result<int>)
      modifies this
      ensures Refines(CreateVestingV2Spec(old(View()), caller, beneficiary, total, cliff, end, vestingType, stepCount),
                      old(View()), View(), r)
    {
      if caller != admin || total <= 0 || 1 < vestingType || cliff < ledger || end <= cliff {
        return Panic;
      }
      var id := Get(scheduleCounts, beneficiary);
      if !(0 <= id < U32_MAX) {
        return Panic;
      }
      vestingV2 := vestingV2[(beneficiary, id) :=
        VestingScheduleV2(id, total, ledger, cliff, end, 0, vestingType, stepCount)];
      scheduleCounts := scheduleCounts[beneficiary := id + 1];
      return Ok(id);
    }

    method ClaimVestingV2(beneficiary: Address, id: u32) returns (r: Result<()>)
      modifies this
      ensures Refines(ClaimVestingV2Spec(old(View()), beneficiary, id), old(View()), View(), r)
    {
      if (beneficiary, id) !in vestingV2 {
        return Panic;
      }
      var saved := vestingV2;
      var schedule := vestingV2[(beneficiary, id)];
      var vested :- VestedAmountV2(schedule, ledger);
      var claimable :- Checked(vested - schedule.claimed);
      if claimable <= 0 {
        return Panic;
      }
      var claimed :- Checked(schedule.claimed + claimable);
      vestingV2 := vestingV2[(beneficiary, id) := schedule.(claimed := claimed)];
      r := Issue(beneficiary, claimable, Minted(beneficiary, claimable));
      if r.Panic? {
        vestingV2 := saved;
      }
    }

    method ModifyVestingV2(caller: Address, beneficiary: Address, id: u32, newEnd: u32) returns (r: Result<()>)
      modifies this
      ensures Refines(ModifyVestingV2Spec(old(View()), caller, beneficiary, id, newEnd), old(View()), View(), r)
    {
      if caller != admin || (beneficiary, id) !in vestingV2 {
        return Panic;
      }
      var schedule := vestingV2[(beneficiary, id)];
      if newEnd <= schedule.cliffLedger {
        return Panic;
      }
      vestingV2 := vestingV2[(beneficiary, id) := schedule.(endLedger := newEnd)];
      return Ok(());
    }

    method CreateAirdrop(total: i128, expiry: u32) returns (r: Result<int>)
      modifies this
      ensures Refines(CreateAirdropSpec(old(View()), total, expiry), old(View()), View(), r)
    {
      if total <= 0 || expiry <= ledger {
        return Panic;
      }
      var id := campaignCount;
      if !(0 <= id < U32_MAX) {
        return Panic;
      }
      campaigns := campaigns[id := Campaign(total, 0, expiry)];
      campaignCount := id + 1;
      events := events + [AirdropCreated(id, total, expiry)];
      return Ok(id);
    }

    method ClaimAirdrop(id: u32, recipient: Address, amount: int, proofValid: bool) returns (r: Result<bool>)
      modifies this
      ensures Refines(ClaimAirdropSpec(old(View()), id, recipient, amount, proofValid), old(View()), View(), r)
    {
      if amount <= 0 || id !in campaigns {
        return Panic;
      }
      var campaign := campaigns[id];
      if campaign.expiryLedger < ledger || (id, recipient) in claims || !proofValid {
        return Panic;
      }
      var claimed :- Checked(campaign.claimedAmount + amount);
      if campaign.totalAmount < claimed {
        return Panic;
      }
      var savedCampaigns, savedClaims := campaigns, claims;
      campaigns := campaigns[id := campaign.(claimedAmount := claimed)];
      claims := claims + {(id, recipient)};
      var issued := Issue(recipient, amount, AirdropClaimed(id, recipient, amount));
      if issued.Panic? {
        campaigns, claims := savedCampaigns, savedClaims;
        return Panic;
      }
      return Ok(true);
    }

    method RecoverUnclaimed(id: u32) returns (r: Result<int>)
      modifies this
      ensures Refines(RecoverUnclaimedSpec(old(View()), id), old(View()), View(), r)
    {
      if id !in campaigns || ledger <= campaigns[id].expiryLedger {
        return Panic;
      }
      var unclaimed :- Checked(campaigns[id].totalAmount - campaigns[id].claimedAmount);
      events := events + [AirdropRecovered(id, unclaimed)];
      return Ok(unclaimed);
    }

    method MintReward(caller: Address, recipient: Address, amount: int) returns (r: Result<()>)
      modifies this
      ensures Refines(MintRewardSpec(old(View()), caller, recipient, amount), old(View()), View(), r)
    {
      if locked {
        return Panic;
      }
      locked := true;
      if caller != admin || amount <= 0 {
        locked := false;
        return Panic;
      }
      r := Issue(recipient, amount, Minted(recipient, amount));
      if r.Panic? {
        locked := false;
      }
    }
  }
}
