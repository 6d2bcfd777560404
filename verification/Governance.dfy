/** Governance: text proposals and contract upgrades share an id counter and the
    vote records; upgrades pass through approval and a timelock. */
module Governance {
  import opened Common

  type u64 = x: int | 0 <= x <= U64_MAX

  datatype Proposal = Proposal(proposer: Address, title: string, description: string, votingEnd: u32,
                               votesFor: int, votesAgainst: int, executed: bool, createdAt: nat)

  datatype Upgrade = Upgrade(proposer: Address, contract: Address, wasmHash: nat, votingEnd: u32,
                             votesFor: int, votesAgainst: int, approved: bool, executed: bool,
                             timelock: u32, createdAt: nat)

  /** An upgrade call issued to another contract. */
  datatype Issued = Issued(id: u64, contract: Address, wasmHash: nat)

  /** `timelockLedgers` is the delay named at initialization. */
  datatype State = State(ledger: u32, timelockLedgers: u32, nextId: int, proposals: map<u64, Proposal>,
                         upgrades: map<u64, Upgrade>, votes: map<(u64, Address), bool>,
                         timelocks: map<u64, u32>, issued: seq<Issued>)

  function Initial(ledger: u32, timelockLedgers: u32): State {
    State(ledger, timelockLedgers, 1, map[], map[], map[], map[], [])
  }

  // ----- the entry points as state transformers -----

  function CreateProposalSpec(s: State, proposer: Address, title: string, description: string,
                              votingEnd: u32, now: nat): Result<(State, int)>
  {
    if votingEnd <= s.ledger || !(0 <= s.nextId < U64_MAX) then Panic
    else Ok((s.(proposals := s.proposals[s.nextId :=
                  Proposal(proposer, title, description, votingEnd, 0, 0, false, now)],
                nextId := s.nextId + 1), s.nextId))
  }

  /** The vote is refused after the end, after execution, to a voter on record and
      without voting power; `balance` is what the token contract answers. */
  predicate MayVote(s: State, voter: Address, id: u64, votingEnd: int, executed: bool, balance: int) {
    s.ledger < votingEnd && !executed && (id, voter) !in s.votes && 0 < balance
  }

  function VoteSpec(s: State, voter: Address, id: u64, support: bool, balance: int): Result<(State, ())> {
    if id !in s.proposals then Panic
    else
      var p := s.proposals[id];
      if !MayVote(s, voter, id, p.votingEnd, p.executed, balance) then Panic
      else
        var tally :- Checked((if support then p.votesFor else p.votesAgainst) + balance);
        var q := if support then p.(votesFor := tally) else p.(votesAgainst := tally);
        Ok((s.(votes := s.votes[(id, voter) := support], proposals := s.proposals[id := q]), ()))
  }

  function ExecuteProposalSpec(s: State, id: u64): Result<(State, ())> {
    if id !in s.proposals then Panic
    else
      var p := s.proposals[id];
      if s.ledger < p.votingEnd || p.executed || p.votesFor <= p.votesAgainst then Panic
      else Ok((s.(proposals := s.proposals[id := p.(executed := true)]), ()))
  }

  function ProposeUpgradeSpec(s: State, proposer: Address, contract: Address, wasmHash: nat,
                              votingEnd: u32, timelock: u32, now: nat): Result<(State, int)>
  {
    if votingEnd <= s.ledger || timelock <= votingEnd || !(0 <= s.nextId < U64_MAX) then Panic
    else Ok((s.(upgrades := s.upgrades[s.nextId :=
                  Upgrade(proposer, contract, wasmHash, votingEnd, 0, 0, false, false, timelock, now)],
                nextId := s.nextId + 1), s.nextId))
  }

  function VoteUpgradeSpec(s: State, voter: Address, id: u64, support: bool, balance: int): Result<(State, ())> {
    if id !in s.upgrades then Panic
    else
      var u := s.upgrades[id];
      if !MayVote(s, voter, id, u.votingEnd, u.executed, balance) then Panic
      else
        var tally :- Checked((if support then u.votesFor else u.votesAgainst) + balance);
        var v := if support then u.(votesFor := tally) else u.(votesAgainst := tally);
        Ok((s.(votes := s.votes[(id, voter) := support], upgrades := s.upgrades[id := v]), ()))
  }

  function ApproveUpgradeSpec(s: State, id: u64): Result<(State, ())> {
    if id !in s.upgrades then Panic
    else
      var u := s.upgrades[id];
      if s.ledger < u.votingEnd || u.executed || u.votesFor <= u.votesAgainst then Panic
      else Ok((s.(upgrades := s.upgrades[id := u.(approved := true)],
                  timelocks := s.timelocks[id := u.timelock]), ()))
  }

  /** `callSucceeds` is how the called contract answers; its failure aborts. */
  function ExecuteUpgradeSpec(s: State, id: u64, callSucceeds: bool): Result<(State, ())> {
    if id !in s.upgrades then Panic
    else
      var u := s.upgrades[id];
      if !u.approved || u.executed || id !in s.timelocks || s.ledger < s.timelocks[id] || !callSucceeds then Panic
      else Ok((s.(upgrades := s.upgrades[id := u.(executed := true)],
                  issued := s.issued + [Issued(id, u.contract, u.wasmHash)]), ()))
  }

  // ----- the contract object -----

  class GovernanceContract {
    var ledger: u32
    var timelockLedgers: u32
    var nextId: int
    var proposals: map<u64, Proposal>
    var upgrades: map<u64, Upgrade>
    var votes: map<(u64, Address), bool>
    var timelocks: map<u64, u32>
    var issued: seq<Issued>

    ghost function View(): State
      reads this
    {
      State(ledger, timelockLedgers, nextId, proposals, upgrades, votes, timelocks, issued)
    }

    /** A delay of zero is refused, so no contract is ever initialized with one. */
    constructor (ledger: u32, timelockLedgers: u32)
      requires 0 < timelockLedgers
      ensures View() == Initial(ledger, timelockLedgers)
    {
      this.ledger, this.timelockLedgers, nextId := ledger, timelockLedgers, 1;
      proposals, upgrades, votes, timelocks, issued := map[], map[], map[], map[], [];
    }

    method CreateProposal(proposer: Address, title: string, description: string, votingEnd: u32, now: nat)
      returns (r: Result<int>)
      modifies this
      ensures Refines(CreateProposalSpec(old(View()), proposer, title, description, votingEnd, now),
                      old(View()), View(), r)
    {
      if votingEnd <= ledger || !(0 <= nextId < U64_MAX) {
        return Panic;
      }
      var id := nextId;
      proposals := proposals[id := Proposal(proposer, title, description, votingEnd, 0, 0, false, now)];
      nextId := id + 1;
      return Ok(id);
    }

    method Vote(voter: Address, id: u64, support: bool, balance: int) returns (r: Result<()>)
      modifies this
      ensures Refines(VoteSpec(old(View()), voter, id, support, balance), old(View()), View(), r)
    {
      if id !in proposals {
        return Panic;
      }
      var proposal := proposals[id];
      if proposal.votingEnd <= ledger || proposal.executed || (id, voter) in votes || balance <= 0 {
        return Panic;
      }
      if support {
        var tally :- Checked(proposal.votesFor + balance);
        proposal := proposal.(votesFor := tally);
      } else {
        var tally :- Checked(proposal.votesAgainst + balance);
        proposal := proposal.(votesAgainst := tally);
      }
      votes := votes[(id, voter) := support];
      proposals := proposals[id := proposal];
      return Ok(());
    }

    method ExecuteProposal(id: u64) returns (r: Result<()>)
      modifies this
      ensures Refines(ExecuteProposalSpec(old(View()), id), old(View()), View(), r)
    {
      if id !in proposals {
        return Panic;
      }
      var proposal := proposals[id];
      if ledger < proposal.votingEnd || proposal.executed || !(proposal.votesFor > proposal.votesAgainst) {
        return Panic;
      }
      proposals := proposals[id := proposal.(executed := true)];
      return Ok(());
    }

    method ProposeUpgrade(proposer: Address, contract: Address, wasmHash: nat, votingEnd: u32,
                          timelock: u32, now: nat) returns (r: Result<int>)
      modifies this
      ensures Refines(ProposeUpgradeSpec(old(View()), proposer, contract, wasmHash, votingEnd, timelock, now),
                      old(View()), View(), r)
    {
      if votingEnd <= ledger || timelock <= votingEnd || !(0 <= nextId < U64_MAX) {
        return Panic;
      }
      var id := nextId;
      upgrades := upgrades[id :=
        Upgrade(proposer, contract, wasmHash, votingEnd, 0, 0, false, false, timelock, now)];
      nextId := id + 1;
      return Ok(id);
    }

    method VoteUpgrade(voter: Address, id: u64, support: bool, balance: int) returns (r: Result<()>)
      modifies this
      ensures Refines(VoteUpgradeSpec(old(View()), voter, id, support, balance), old(View()), View(), r)
    {
      if id !in upgrades {
        return Panic;
      }
      var upgrade := upgrades[id];
      if upgrade.votingEnd <= ledger || upgrade.executed || (id, voter) in votes || balance <= 0 {
        return Panic;
      }
      if support {
        var tally :- Checked(upgrade.votesFor + balance);
        upgrade := upgrade.(votesFor := tally);
      } else {
        var tally :- Checked(upgrade.votesAgainst + balance);
        upgrade := upgrade.(votesAgainst := tally);
      }
      votes := votes[(id, voter) := support];
      upgrades := upgrades[id := upgrade];
      return Ok(());
    }

    method ApproveUpgrade(id: u64) returns (r: Result<()>)
      modifies this
      ensures Refines(ApproveUpgradeSpec(old(View()), id), old(View()), View(), r)
    {
      if id !in upgrades {
        return Panic;
      }
      var upgrade := upgrades[id];
      if ledger < upgrade.votingEnd || upgrade.executed || !(upgrade.votesFor > upgrade.votesAgainst) {
        return Panic;
      }
      upgrades := upgrades[id := upgrade.(approved := true)];
      timelocks := timelocks[id := upgrade.timelock];
      return Ok(());
    }

    /** The record is marked before the call is made; a failing call rolls it back. */
    method ExecuteUpgrade(id: u64, callSucceeds: bool) returns (r: Result<()>)
      modifies this
      ensures Refines(ExecuteUpgradeSpec(old(View()), id, callSucceeds), old(View()), View(), r)
    {
      if id !in upgrades {
        return Panic;
      }
      var upgrade := upgrades[id];
      if !upgrade.approved || upgrade.executed || id !in timelocks || ledger < timelocks[id] {
        return Panic;
      }
      var saved := upgrades;
      upgrades := upgrades[id := upgrade.(executed := true)];
      if !callSucceeds {
        upgrades := saved;
        return Panic;
      }
      issued := issued + [Issued(id, upgrade.contract, upgrade.wasmHash)];
      return Ok(());
    }
  }
}
