/** What governance guarantees over every run of calls with a ledger that only moves
    forward. */
module GovernanceProofs {
  import opened Common
  import opened Governance

  datatype Call =
    | CreateProposal(proposer: Address, title: string, description: string, votingEnd: u32, now: nat)
    | Vote(voter: Address, id: u64, support: bool, balance: int)
    | ExecuteProposal(id: u64)
    | ProposeUpgrade(proposer: Address, contract: Address, wasmHash: nat, votingEnd: u32, timelock: u32, now: nat)
    | VoteUpgrade(voter: Address, id: u64, support: bool, balance: int)
    | ApproveUpgrade(id: u64)
    | ExecuteUpgrade(id: u64, callSucceeds: bool)
    | CloseLedgers(sequence: u32)

  function Step(s: State, c: Call): State {
    match c
    case CreateProposal(p, title, text, end, now) => After(CreateProposalSpec(s, p, title, text, end, now), s)
    case Vote(voter, id, support, balance) => After(VoteSpec(s, voter, id, support, balance), s)
    case ExecuteProposal(id) => After(ExecuteProposalSpec(s, id), s)
    case ProposeUpgrade(p, contract, hash, end, timelock, now) =>
      After(ProposeUpgradeSpec(s, p, contract, hash, end, timelock, now), s)
    case VoteUpgrade(voter, id, support, balance) => After(VoteUpgradeSpec(s, voter, id, support, balance), s)
    case ApproveUpgrade(id) => After(ApproveUpgradeSpec(s, id), s)
    case ExecuteUpgrade(id, ok) => After(ExecuteUpgradeSpec(s, id, ok), s)
    case CloseLedgers(sequence) => if s.ledger <= sequence then s.(ledger := sequence) else s
  }

  function Run(s: State, calls: seq<Call>): State {
    if calls == [] then s else Step(Run(s, calls[..|calls| - 1]), calls[|calls| - 1])
  }

  // ----- the invariant -----

  /** No id is both a proposal and an upgrade, and every vote is on a known id. */
  ghost predicate IdsInv(s: State) {
    && 1 <= s.nextId
    && (forall id :: id in s.proposals ==> 1 <= id < s.nextId && id !in s.upgrades)
    && (forall id :: id in s.upgrades ==> 1 <= id < s.nextId)
    && (forall k :: k in s.votes ==> k.0 in s.proposals || k.0 in s.upgrades)
  }

  /** An executed proposal passed, after voting ended. */
  ghost predicate ProposalOk(p: Proposal, ledger: int) {
    p.executed ==> p.votesAgainst < p.votesFor && p.votingEnd <= ledger
  }

  /** An approved upgrade passed after voting ended and is timelocked; an executed one
      was approved and its timelock, later than the end of voting, is over. */
  ghost predicate UpgradeOk(u: Upgrade, ledger: int) {
    && u.votingEnd < u.timelock
    && (u.approved ==> u.votesAgainst < u.votesFor && u.votingEnd <= ledger)
    && (u.executed ==> u.approved && u.timelock <= ledger)
  }

  /** The stored expiry of an approved upgrade is the timelock it was proposed with. */
  ghost predicate TimelockInv(s: State) {
    forall id :: id in s.upgrades && s.upgrades[id].approved ==>
      id in s.timelocks && s.timelocks[id] == s.upgrades[id].timelock
  }

  /** Upgrade calls are issued exactly for the executed upgrades, once each. */
  ghost predicate IssuedInv(s: State) {
    && (forall i, j :: 0 <= i < j < |s.issued| ==> s.issued[i].id != s.issued[j].id)
    && (forall i :: 0 <= i < |s.issued| ==> IssuedOk(s, s.issued[i]))
    && (forall id :: id in s.upgrades && s.upgrades[id].executed ==>
          exists i :: 0 <= i < |s.issued| && s.issued[i].id == id)
  }

  ghost predicate IssuedOk(s: State, c: Issued) {
    && c.id in s.upgrades && s.upgrades[c.id].executed
    && c == Issued(c.id, s.upgrades[c.id].contract, s.upgrades[c.id].wasmHash)
  }

  ghost predicate RecordsInv(s: State) {
    && (forall id :: id in s.proposals ==> ProposalOk(s.proposals[id], s.ledger))
    && (forall id :: id in s.upgrades ==> UpgradeOk(s.upgrades[id], s.ledger))
  }

  ghost predicate Inv(s: State) {
    IdsInv(s) && TimelockInv(s) && RecordsInv(s) && IssuedInv(s)
  }

  /** What was issued stays right while no execution mark and no target changes. */
  lemma IssuedKept(s: State, t: State)
    requires IssuedInv(s) && t.issued == s.issued
    requires forall id :: id in s.upgrades ==> id in t.upgrades && SameTarget(s.upgrades[id], t.upgrades[id])
    requires forall id :: id in t.upgrades && t.upgrades[id].executed ==> id in s.upgrades
    ensures IssuedInv(t)
  {
    forall i | 0 <= i < |t.issued|
      ensures IssuedOk(t, t.issued[i])
    {
      assert IssuedOk(s, s.issued[i]);
    }
  }

  ghost predicate SameTarget(u: Upgrade, v: Upgrade) {
    v.executed == u.executed && v.contract == u.contract && v.wasmHash == u.wasmHash
  }

  lemma StepKeepsIds(s: State, c: Call)
    requires IdsInv(s)
    ensures IdsInv(Step(s, c))
  {
  }

  lemma StepKeepsRecords(s: State, c: Call)
    requires IdsInv(s) && TimelockInv(s) && RecordsInv(s)
    ensures RecordsInv(Step(s, c))
  {
  }

  lemma StepKeepsTimelocks(s: State, c: Call)
    requires IdsInv(s) && TimelockInv(s)
    ensures TimelockInv(Step(s, c))
  {
  }

  lemma StepKeepsIssued(s: State, c: Call)
    requires IdsInv(s) && IssuedInv(s)
    ensures IssuedInv(Step(s, c))
  {
    var t := Step(s, c);
    if c.ExecuteUpgrade? && t != s {
      ExecuteKeepsIssued(s, c.id, c.callSucceeds, t);
    } else {
      StepKeepsTargets(s, c);
      IssuedKept(s, t);
    }
  }

  lemma StepKeepsTargets(s: State, c: Call)
    requires IdsInv(s) && (!c.ExecuteUpgrade? || Step(s, c) == s)
    ensures var t := Step(s, c);
      && t.issued == s.issued
      && (forall id :: id in s.upgrades ==> id in t.upgrades && SameTarget(s.upgrades[id], t.upgrades[id]))
      && (forall id :: id in t.upgrades && t.upgrades[id].executed ==> id in s.upgrades)
  {
  }

  lemma ExecuteKeepsIssued(s: State, id: u64, ok: bool, t: State)
    requires IssuedInv(s) && ExecuteUpgradeSpec(s, id, ok) == Ok((t, ()))
    ensures IssuedInv(t)
  {
    var n := |s.issued|;
    forall i | 0 <= i < n
      ensures IssuedOk(t, t.issued[i]) && t.issued[i].id != id
    {
      assert IssuedOk(s, s.issued[i]);
    }
    assert t.issued[n].id == id && IssuedOk(t, t.issued[n]);
    forall k | k in t.upgrades && t.upgrades[k].executed && k != id
      ensures exists i :: 0 <= i < |t.issued| && t.issued[i].id == k
    {
      var i :| 0 <= i < n && s.issued[i].id == k;
      assert t.issued[i].id == k;
    }
  }

  lemma StepKeepsInv(s: State, c: Call)
    requires Inv(s)
    ensures Inv(Step(s, c))
  {
    StepKeepsIds(s, c);
    StepKeepsRecords(s, c);
    StepKeepsTimelocks(s, c);
    StepKeepsIssued(s, c);
  }

  lemma StepKeepsDelay(s: State, c: Call)
    ensures Step(s, c).timelockLedgers == s.timelockLedgers
  {
  }

  /** In every reachable state an executed upgrade was approved with more votes for
      than against, its timelock is over, and its call was issued exactly once. */
  lemma {:induction false} ReachableStatesAreSafe(ledger: u32, delay: u32, calls: seq<Call>)
    ensures var s := Run(Initial(ledger, delay), calls); Inv(s) && s.timelockLedgers == delay
    decreases |calls|
  {
    if calls != [] {
      var n := |calls| - 1;
      ReachableStatesAreSafe(ledger, delay, calls[..n]);
      var m := Run(Initial(ledger, delay), calls[..n]);
      StepKeepsInv(m, calls[n]);
      StepKeepsDelay(m, calls[n]);
    }
  }

  // ----- tallies -----

  ghost predicate VotesOn(c: Call, id: u64) {
    (c.Vote? || c.VoteUpgrade?) && c.id == id
  }

  /** The balances of the accepted votes on an id, for or against. */
  ghost function CastWeight(s: State, calls: seq<Call>, id: u64, support: bool): int {
    if calls == [] then 0
    else
      var n := |calls| - 1;
      var m, c := Run(s, calls[..n]), calls[n];
      CastWeight(s, calls[..n], id, support)
      + (if VotesOn(c, id) && c.support == support && Step(m, c) != m then c.balance else 0)
  }

  /** How many votes of one voter on an id were accepted. */
  ghost function TimesCounted(s: State, calls: seq<Call>, id: u64, voter: Address): int {
    if calls == [] then 0
    else
      var n := |calls| - 1;
      var m, c := Run(s, calls[..n]), calls[n];
      TimesCounted(s, calls[..n], id, voter)
      + (if VotesOn(c, id) && c.voter == voter && Step(m, c) != m then 1 else 0)
  }

  function Tally(s: State, id: u64, support: bool): int {
    if id in s.proposals then (if support then s.proposals[id].votesFor else s.proposals[id].votesAgainst)
    else if id in s.upgrades then (if support then s.upgrades[id].votesFor else s.upgrades[id].votesAgainst)
    else 0
  }

  lemma StepOnTally(s: State, c: Call, id: u64, support: bool)
    requires IdsInv(s)
    ensures Tally(Step(s, c), id, support) == Tally(s, id, support)
              + (if VotesOn(c, id) && c.support == support && Step(s, c) != s then c.balance else 0)
  {
  }

  lemma StepOnVotes(s: State, c: Call, id: u64, voter: Address)
    requires IdsInv(s)
    ensures var t := Step(s, c);
      && ((id, voter) in t.votes <==> (id, voter) in s.votes || (VotesOn(c, id) && c.voter == voter && t != s))
      && (VotesOn(c, id) && c.voter == voter && t != s ==> (id, voter) !in s.votes && 0 < c.balance)
      && ((id, voter) in t.votes ==>
            t.votes[(id, voter)] == if (id, voter) in s.votes then s.votes[(id, voter)] else c.support)
  {
  }

  /** Each tally is the sum of the balances read when its votes were cast, and no
      voter is counted twice on an id, be it a proposal or an upgrade. */
  lemma {:induction false} TalliesAreSums(ledger: u32, delay: u32, calls: seq<Call>, id: u64, support: bool,
                                         voter: Address)
    ensures var s := Run(Initial(ledger, delay), calls);
      && Tally(s, id, support) == CastWeight(Initial(ledger, delay), calls, id, support) >= 0
      && TimesCounted(Initial(ledger, delay), calls, id, voter) == (if (id, voter) in s.votes then 1 else 0)
    decreases |calls|
  {
    if calls != [] {
      var n := |calls| - 1;
      TalliesAreSums(ledger, delay, calls[..n], id, support, voter);
      ReachableStatesAreSafe(ledger, delay, calls[..n]);
      var m := Run(Initial(ledger, delay), calls[..n]);
      StepOnTally(m, calls[n], id, support);
      StepOnVotes(m, calls[n], id, voter);
      if VotesOn(calls[n], id) {
        StepOnVotes(m, calls[n], id, calls[n].voter);
      }
    }
  }

  /** What the voter's accepted vote on an id said. */
  ghost function VoteOf(s: State, calls: seq<Call>, id: u64, voter: Address): Option<bool> {
    if calls == [] then None
    else
      var n := |calls| - 1;
      var m, c := Run(s, calls[..n]), calls[n];
      if VotesOn(c, id) && c.voter == voter && Step(m, c) != m then Some(c.support)
      else VoteOf(s, calls[..n], id, voter)
  }

  /** The record of a vote is what the vote said. */
  lemma {:induction false} VotesFollowCalls(ledger: u32, delay: u32, calls: seq<Call>, id: u64, voter: Address)
    ensures var s := Run(Initial(ledger, delay), calls);
      VoteOf(Initial(ledger, delay), calls, id, voter)
      == if (id, voter) in s.votes then Some(s.votes[(id, voter)]) else None
    decreases |calls|
  {
    if calls != [] {
      var n := |calls| - 1;
      VotesFollowCalls(ledger, delay, calls[..n], id, voter);
      ReachableStatesAreSafe(ledger, delay, calls[..n]);
      StepOnVotes(Run(Initial(ledger, delay), calls[..n]), calls[n], id, voter);
    }
  }

  // ----- when calls are accepted -----

  function Succeeds(s: State, c: Call): bool {
    match c
    case CreateProposal(p, title, text, end, now) => CreateProposalSpec(s, p, title, text, end, now).Ok?
    case Vote(voter, id, support, balance) => VoteSpec(s, voter, id, support, balance).Ok?
    case ExecuteProposal(id) => ExecuteProposalSpec(s, id).Ok?
    case ProposeUpgrade(p, contract, hash, end, timelock, now) =>
      ProposeUpgradeSpec(s, p, contract, hash, end, timelock, now).Ok?
    case VoteUpgrade(voter, id, support, balance) => VoteUpgradeSpec(s, voter, id, support, balance).Ok?
    case ApproveUpgrade(id) => ApproveUpgradeSpec(s, id).Ok?
    case ExecuteUpgrade(id, ok) => ExecuteUpgradeSpec(s, id, ok).Ok?
    case CloseLedgers(sequence) => s.ledger <= sequence
  }

  /** A first vote with power, before the end, that the tally has room for. */
  ghost predicate VoteAllowed(s: State, c: Call, votingEnd: u32, executed: bool)
    requires c.Vote? || c.VoteUpgrade?
  {
    && s.ledger < votingEnd && !executed && (c.id, c.voter) !in s.votes
    && 0 < c.balance && Tally(s, c.id, c.support) + c.balance <= I128_MAX
  }

  ghost predicate Passed(s: State, id: u64) {
    Tally(s, id, false) < Tally(s, id, true)
  }

  ghost predicate Allowed(s: State, c: Call) {
    match c
    case CreateProposal(_, _, _, end, _) => s.ledger < end && s.nextId < U64_MAX
    case Vote(_, id, _, _) =>
      id in s.proposals && VoteAllowed(s, c, s.proposals[id].votingEnd, s.proposals[id].executed)
    case ExecuteProposal(id) =>
      && id in s.proposals && s.proposals[id].votingEnd <= s.ledger
      && !s.proposals[id].executed && Passed(s, id)
    case ProposeUpgrade(_, _, _, end, timelock, _) => s.ledger < end < timelock && s.nextId < U64_MAX
    case VoteUpgrade(_, id, _, _) =>
      id in s.upgrades && VoteAllowed(s, c, s.upgrades[id].votingEnd, s.upgrades[id].executed)
    case ApproveUpgrade(id) =>
      && id in s.upgrades && s.upgrades[id].votingEnd <= s.ledger
      && !s.upgrades[id].executed && Passed(s, id)
    case ExecuteUpgrade(id, ok) =>
      && id in s.upgrades && s.upgrades[id].approved && !s.upgrades[id].executed
      && s.upgrades[id].timelock <= s.ledger && ok
    case CloseLedgers(sequence) => s.ledger <= sequence
  }

  /** No tally is negative. */
  ghost predicate TalliesOk(s: State, c: Call) {
    c.Vote? || c.VoteUpgrade? ==> 0 <= Tally(s, c.id, c.support)
  }

  /** Each kind of call is accepted exactly when allowed. */
  lemma CallsSucceedExactly(s: State, c: Call)
    requires Inv(s) && TalliesOk(s, c)
    ensures Succeeds(s, c) <==> Allowed(s, c)
  {
  }

  lemma ReachableTalliesAreOk(ledger: u32, delay: u32, calls: seq<Call>, c: Call)
    ensures TalliesOk(Run(Initial(ledger, delay), calls), c)
  {
    if c.Vote? || c.VoteUpgrade? {
      TalliesAreSums(ledger, delay, calls, c.id, c.support, c.voter);
    }
  }

  // ----- the terms of proposals and upgrades -----

  /** The accepted proposals and upgrade proposals of a run, in order. */
  ghost function Proposed(s: State, calls: seq<Call>): seq<Call> {
    if calls == [] then []
    else
      var n := |calls| - 1;
      var c := calls[n];
      Proposed(s, calls[..n])
      + (if (c.CreateProposal? || c.ProposeUpgrade?) && Allowed(Run(s, calls[..n]), c) then [c] else [])
  }

  /** What is stored under an id is what was proposed, its tallies and marks aside. */
  ghost predicate StoredAs(s: State, id: u64, c: Call) {
    if c.CreateProposal? then
      && id in s.proposals && id !in s.upgrades
      && var p := s.proposals[id];
        p == Proposal(c.proposer, c.title, c.description, c.votingEnd, p.votesFor, p.votesAgainst, p.executed, c.now)
    else
      && c.ProposeUpgrade? && id in s.upgrades && id !in s.proposals
      && var u := s.upgrades[id];
        u == Upgrade(c.proposer, c.contract, c.wasmHash, c.votingEnd, u.votesFor, u.votesAgainst,
                     u.approved, u.executed, c.timelock, c.now)
  }

  ghost predicate StoresAll(s: State, proposed: seq<Call>) {
    && s.nextId == 1 + |proposed|
    && forall id: u64 :: IsStored(s, id, proposed)
  }

  ghost predicate IsStored(s: State, id: u64, proposed: seq<Call>) {
    1 <= id <= |proposed| ==> StoredAs(s, id, proposed[id - 1])
  }

  lemma StepStoresAll(s: State, c: Call, proposed: seq<Call>)
    requires Inv(s) && StoresAll(s, proposed)
    ensures StoresAll(Step(s, c),
                      proposed + if (c.CreateProposal? || c.ProposeUpgrade?) && Allowed(s, c) then [c] else [])
  {
    var t := Step(s, c);
    if c.CreateProposal? || c.ProposeUpgrade? {
      ProposingStores(s, c, proposed);
    } else {
      assert proposed + [] == proposed;
      OtherCallsKeepStored(s, c, proposed);
    }
  }

  lemma ProposingStores(s: State, c: Call, proposed: seq<Call>)
    requires Inv(s) && StoresAll(s, proposed) && (c.CreateProposal? || c.ProposeUpgrade?)
    ensures StoresAll(Step(s, c), proposed + if Allowed(s, c) then [c] else [])
  {
    CallsSucceedExactly(s, c);
    var t := Step(s, c);
    var longer := proposed + if Allowed(s, c) then [c] else [];
    forall id: u64
      ensures IsStored(t, id, longer)
    {
      assert IsStored(s, id, proposed);
    }
  }

  lemma OtherCallsKeepStored(s: State, c: Call, proposed: seq<Call>)
    requires Inv(s) && StoresAll(s, proposed) && !c.CreateProposal? && !c.ProposeUpgrade?
    ensures StoresAll(Step(s, c), proposed)
  {
    var t := Step(s, c);
    OtherCallsKeepIds(s, c);
    forall id: u64
      ensures IsStored(t, id, proposed)
    {
      assert IsStored(s, id, proposed);
      if 1 <= id <= |proposed| {
        OtherCallsKeepTerms(s, c, id, proposed[id - 1]);
      }
    }
  }

  lemma OtherCallsKeepTerms(s: State, c: Call, id: u64, origin: Call)
    requires StoredAs(s, id, origin) && !c.CreateProposal? && !c.ProposeUpgrade?
    ensures StoredAs(Step(s, c), id, origin)
  {
  }

  lemma OtherCallsKeepIds(s: State, c: Call)
    requires !c.CreateProposal? && !c.ProposeUpgrade?
    ensures Step(s, c).nextId == s.nextId
  {
  }

  /** In every reachable state the ids are numbered in the order of proposing, and the
      terms under each are forever those it was proposed with. */
  lemma {:induction false} TermsFollowCalls(ledger: u32, delay: u32, calls: seq<Call>)
    ensures StoresAll(Run(Initial(ledger, delay), calls), Proposed(Initial(ledger, delay), calls))
    decreases |calls|
  {
    if calls != [] {
      var n := |calls| - 1;
      TermsFollowCalls(ledger, delay, calls[..n]);
      ReachableStatesAreSafe(ledger, delay, calls[..n]);
      StepStoresAll(Run(Initial(ledger, delay), calls[..n]), calls[n], Proposed(Initial(ledger, delay), calls[..n]));
    }
  }

  /** The answered id is a new one, and the record is stored under it. */
  lemma AnsweredIdIsNew(s: State, c: Call)
    requires Inv(s)
    ensures c.CreateProposal? ==>
      var r := CreateProposalSpec(s, c.proposer, c.title, c.description, c.votingEnd, c.now);
      r.Ok? ==> r.value.1 !in s.proposals && r.value.1 !in s.upgrades && r.value.1 in r.value.0.proposals
    ensures c.ProposeUpgrade? ==>
      var r := ProposeUpgradeSpec(s, c.proposer, c.contract, c.wasmHash, c.votingEnd, c.timelock, c.now);
      r.Ok? ==> r.value.1 !in s.proposals && r.value.1 !in s.upgrades && r.value.1 in r.value.0.upgrades
  {
    assert s.nextId !in s.proposals && s.nextId !in s.upgrades;
  }

  /** How often exactly this call was accepted. */
  ghost function TimesAccepted(s: State, calls: seq<Call>, c: Call): nat {
    if calls == [] then 0
    else
      var n := |calls| - 1;
      TimesAccepted(s, calls[..n], c) + (if calls[n] == c && Allowed(Run(s, calls[..n]), c) then 1 else 0)
  }

  ghost predicate ProposalExecuted(s: State, id: u64) {
    id in s.proposals && s.proposals[id].executed
  }

  ghost predicate UpgradeExecuted(s: State, id: u64) {
    id in s.upgrades && s.upgrades[id].executed
  }

  ghost predicate UpgradeApproved(s: State, id: u64) {
    id in s.upgrades && s.upgrades[id].approved
  }

  lemma StepOnMarks(s: State, c: Call, id: u64)
    requires Inv(s)
    ensures var t := Step(s, c);
      && (ProposalExecuted(t, id) <==> ProposalExecuted(s, id) || (c == ExecuteProposal(id) && Allowed(s, c)))
      && (UpgradeExecuted(t, id) <==> UpgradeExecuted(s, id) || (c == ExecuteUpgrade(id, true) && Allowed(s, c)))
      && (UpgradeApproved(t, id) <==> UpgradeApproved(s, id) || (c == ApproveUpgrade(id) && Allowed(s, c)))
  {
    StepOnProposalMark(s, c, id);
    StepOnUpgradeMark(s, c, id);
    StepOnApproval(s, c, id);
  }

  lemma StepOnProposalMark(s: State, c: Call, id: u64)
    requires Inv(s)
    ensures ProposalExecuted(Step(s, c), id) <==> ProposalExecuted(s, id) || (c == ExecuteProposal(id) && Allowed(s, c))
  {
    assert s.nextId !in s.proposals;
  }

  lemma StepOnUpgradeMark(s: State, c: Call, id: u64)
    requires Inv(s)
    ensures UpgradeExecuted(Step(s, c), id)
       <==> UpgradeExecuted(s, id) || (c == ExecuteUpgrade(id, true) && Allowed(s, c))
  {
    assert s.nextId !in s.upgrades;
  }

  lemma StepOnApproval(s: State, c: Call, id: u64)
    requires Inv(s)
    ensures UpgradeApproved(Step(s, c), id) <==> UpgradeApproved(s, id) || (c == ApproveUpgrade(id) && Allowed(s, c))
  {
    assert s.nextId !in s.upgrades;
  }

  /** In every reachable state a proposal or upgrade is marked executed exactly when
      one accepted call executed it, never two, and approved when one approved it. */
  lemma {:induction false} MarksFollowCalls(ledger: u32, delay: u32, calls: seq<Call>, id: u64)
    ensures var s, s0 := Run(Initial(ledger, delay), calls), Initial(ledger, delay);
      && TimesAccepted(s0, calls, ExecuteProposal(id)) == (if ProposalExecuted(s, id) then 1 else 0)
      && TimesAccepted(s0, calls, ExecuteUpgrade(id, true)) == (if UpgradeExecuted(s, id) then 1 else 0)
      && (0 < TimesAccepted(s0, calls, ApproveUpgrade(id)) <==> UpgradeApproved(s, id))
    decreases |calls|
  {
    if calls != [] {
      var n := |calls| - 1;
      MarksFollowCalls(ledger, delay, calls[..n], id);
      ReachableStatesAreSafe(ledger, delay, calls[..n]);
      StepOnMarks(Run(Initial(ledger, delay), calls[..n]), calls[n], id);
    }
  }

  /** Once voting on a proposal has ended its tallies and terms never change, in any
      later run, and its execution is never taken back. */
  lemma {:induction false} ProposalTallyIsFrozen(s: State, calls: seq<Call>, id: u64)
    requires Inv(s) && id in s.proposals && s.proposals[id].votingEnd <= s.ledger
    ensures var t := Run(s, calls);
      && Inv(t) && s.ledger <= t.ledger && id in t.proposals
      && var p, q := s.proposals[id], t.proposals[id];
        q == p.(executed := q.executed) && (p.executed ==> q.executed)
    decreases |calls|
  {
    if calls != [] {
      var n := |calls| - 1;
      ProposalTallyIsFrozen(s, calls[..n], id);
      StepKeepsInv(Run(s, calls[..n]), calls[n]);
      StepOnDecidedProposal(Run(s, calls[..n]), calls[n], id);
    }
  }

  lemma StepOnDecidedProposal(s: State, c: Call, id: u64)
    requires IdsInv(s) && id in s.proposals && s.proposals[id].votingEnd <= s.ledger
    ensures var t := Step(s, c);
      && s.ledger <= t.ledger && id in t.proposals
      && var p, q := s.proposals[id], t.proposals[id];
        q == p.(executed := q.executed) && (p.executed ==> q.executed)
  {
    assert c.CreateProposal? ==> id != s.nextId;
  }

  /** Once voting on an upgrade has ended nothing changes its tallies or its terms
      any more, in any later run; approval and execution are never taken back. */
  lemma {:induction false} TallyIsFrozen(s: State, calls: seq<Call>, id: u64)
    requires Inv(s) && id in s.upgrades && s.upgrades[id].votingEnd <= s.ledger
    ensures var t := Run(s, calls);
      && Inv(t) && s.ledger <= t.ledger && id in t.upgrades
      && var u, v := s.upgrades[id], t.upgrades[id];
        && v == u.(approved := v.approved, executed := v.executed)
        && (u.approved ==> v.approved) && (u.executed ==> v.executed)
    decreases |calls|
  {
    if calls != [] {
      var n := |calls| - 1;
      TallyIsFrozen(s, calls[..n], id);
      StepKeepsInv(Run(s, calls[..n]), calls[n]);
      StepOnDecided(Run(s, calls[..n]), calls[n], id);
    }
  }

  lemma StepOnDecided(s: State, c: Call, id: u64)
    requires IdsInv(s) && id in s.upgrades && s.upgrades[id].votingEnd <= s.ledger
    ensures var t := Step(s, c);
      && s.ledger <= t.ledger && id in t.upgrades
      && var u, v := s.upgrades[id], t.upgrades[id];
        && v == u.(approved := v.approved, executed := v.executed)
        && (u.approved ==> v.approved) && (u.executed ==> v.executed)
  {
    assert c.ProposeUpgrade? ==> id != s.nextId;
  }

  /** An approved upgrade can be executed exactly from its timelock on, once. */
  lemma ExecutionWaitsForTimelock(ledger: u32, delay: u32, calls: seq<Call>, id: u64)
    ensures var s := Run(Initial(ledger, delay), calls);
      ExecuteUpgradeSpec(s, id, true).Ok?
      <==> && id in s.upgrades && s.upgrades[id].approved && !s.upgrades[id].executed
           && s.upgrades[id].timelock <= s.ledger
  {
    ReachableStatesAreSafe(ledger, delay, calls);
  }

  // ----- the wait after approval -----

  /** In no run from t can the upgrade be executed before the given ledger. */
  ghost predicate WaitsUntil(t: State, id: u64, ledger: int) {
    forall calls :: ExecuteUpgradeSpec(Run(t, calls), id, true).Ok? ==> ledger <= Run(t, calls).ledger
  }

  lemma NeverBeforeTimelock(t: State, id: u64, calls: seq<Call>)
    requires Inv(t) && id in t.upgrades && t.upgrades[id].votingEnd <= t.ledger
    requires ExecuteUpgradeSpec(Run(t, calls), id, true).Ok?
    ensures t.ledger <= Run(t, calls).ledger && t.upgrades[id].timelock <= Run(t, calls).ledger
  {
    TallyIsFrozen(t, calls, id);
  }

  /** An approved upgrade waits d ledgers from its approval, whatever is called in
      between, exactly when its timelock, fixed at proposal time, is that far away. */
  lemma ApprovedUpgradeWaitsExactly(s: State, id: u64, t: State, d: nat)
    requires Inv(s) && ApproveUpgradeSpec(s, id) == Ok((t, ()))
    ensures WaitsUntil(t, id, s.ledger + d) <==> d == 0 || s.ledger + d <= s.upgrades[id].timelock
  {
    StepKeepsInv(s, ApproveUpgrade(id));
    assert t == Step(s, ApproveUpgrade(id));
    var timelock := s.upgrades[id].timelock;
    if d == 0 || s.ledger + d <= timelock {
      forall calls | ExecuteUpgradeSpec(Run(t, calls), id, true).Ok?
        ensures s.ledger + d <= Run(t, calls).ledger
      {
        NeverBeforeTimelock(t, id, calls);
      }
    } else {
      var first := if timelock < s.ledger then s.ledger else timelock;
      RunAppend(t, [], CloseLedgers(first));
      assert ExecuteUpgradeSpec(Run(t, [] + [CloseLedgers(first)]), id, true).Ok?;
    }
  }

  lemma RunAppend(s: State, calls: seq<Call>, c: Call)
    ensures Run(s, calls + [c]) == Step(Run(s, calls), c)
  {
    assert (calls + [c])[..|calls|] == calls;
  }

  /** The delay named at initialization is stored and has no effect on any run. */
  lemma {:induction false} InitializedDelayHasNoEffect(s: State, calls: seq<Call>, delay: u32)
    ensures Run(s.(timelockLedgers := delay), calls) == Run(s, calls).(timelockLedgers := delay)
    decreases |calls|
  {
    if calls != [] {
      var n := |calls| - 1;
      InitializedDelayHasNoEffect(s, calls[..n], delay);
      DelayHasNoEffectOnStep(Run(s, calls[..n]), calls[n], delay);
    }
  }

  lemma DelayHasNoEffectOnStep(s: State, c: Call, delay: u32)
    ensures Step(s.(timelockLedgers := delay), c) == Step(s, c).(timelockLedgers := delay)
  {
    if c.Vote? {
      DelayHasNoEffectOnVote(s, c, delay);
    } else if c.VoteUpgrade? {
      DelayHasNoEffectOnUpgradeVote(s, c, delay);
    } else if c.CreateProposal? || c.ProposeUpgrade? {
      DelayHasNoEffectOnProposing(s, c, delay);
    }
  }

  lemma DelayHasNoEffectOnVote(s: State, c: Call, delay: u32)
    requires c.Vote?
    ensures Step(s.(timelockLedgers := delay), c) == Step(s, c).(timelockLedgers := delay)
  {
  }

  lemma DelayHasNoEffectOnUpgradeVote(s: State, c: Call, delay: u32)
    requires c.VoteUpgrade?
    ensures Step(s.(timelockLedgers := delay), c) == Step(s, c).(timelockLedgers := delay)
  {
  }

  lemma DelayHasNoEffectOnProposing(s: State, c: Call, delay: u32)
    requires c.CreateProposal? || c.ProposeUpgrade?
    ensures Step(s.(timelockLedgers := delay), c) == Step(s, c).(timelockLedgers := delay)
  {
  }

  /** An upgrade proposed at ledger 1000 and approved at 1150. */
  function LateApproval(voter: Address, target: Address): seq<Call> {
    [ProposeUpgrade(voter, target, 7, 1100, 1160, 0), VoteUpgrade(voter, 1, true, 1),
     CloseLedgers(1150), ApproveUpgrade(1)]
  }

  lemma RunTwo(s: State, a: Call, b: Call)
    ensures Run(s, [a, b]) == Step(Step(s, a), b)
  {
    RunAppend(s, [], a);
    RunAppend(s, [a], b);
    assert [a, b] == [a] + [b] && [a] == [] + [a];
  }

  lemma VotedOn(voter: Address, target: Address)
    ensures Run(Initial(1000, 50), LateApproval(voter, target)[..2])
         == State(1000, 50, 2, map[], map[1 := Upgrade(voter, target, 7, 1100, 1, 0, false, false, 1160, 0)],
                  map[(1, voter) := true], map[], [])
  {
    var calls := LateApproval(voter, target);
    RunTwo(Initial(1000, 50), calls[0], calls[1]);
    assert calls[..2] == [calls[0], calls[1]];
  }

  lemma ApprovedLate(voter: Address, target: Address)
    ensures Run(Initial(1000, 50), LateApproval(voter, target)) == LateState(voter, target)
  {
    VotedOn(voter, target);
    var calls := LateApproval(voter, target);
    RunAppend(Initial(1000, 50), calls[..2], calls[2]);
    RunAppend(Initial(1000, 50), calls[..3], calls[3]);
    assert calls == calls[..3] + [calls[3]] && calls[..3] == calls[..2] + [calls[2]];
  }

  function LateState(voter: Address, target: Address): State {
    State(1150, 50, 2, map[], map[1 := Upgrade(voter, target, 7, 1100, 1, 0, true, false, 1160, 0)],
          map[(1, voter) := true], map[1 := 1160], [])
  }

  /** The initialized delay is not kept: under a delay of 50 the call is issued 10
      ledgers after the approval. */
  lemma LateApprovalCutsDelay(voter: Address, target: Address)
    ensures var s := Run(Initial(1000, 50), LateApproval(voter, target));
      var t := Run(s, [CloseLedgers(1160), ExecuteUpgrade(1, true)]);
      && s.ledger == 1150 && 1 in s.upgrades && s.upgrades[1].approved && s.issued == []
      && t.issued == [Issued(1, target, 7)]
      && t.ledger == 1160 < s.ledger + s.timelockLedgers
  {
    ApprovedLate(voter, target);
    RunTwo(LateState(voter, target), CloseLedgers(1160), ExecuteUpgrade(1, true));
  }
}
