/** Course tokens: who owns which one, kept three times over: per token, in the
    token's metadata and in a list per owner. */
module Nft {
  import opened Common

  datatype Metadata = Metadata(nftId: u32, courseId: string, courseName: string, owner: Address,
                               purchaseDate: nat, royaltyBasis: u32)

  datatype State = State(admin: Address, nextId: int, owners: map<u32, Address>, metadata: map<u32, Metadata>,
                         lists: map<Address, seq<u32>>, royalties: map<u32, (Address, u32)>,
                         access: set<(u32, Address)>)

  function Initial(admin: Address): State {
    State(admin, 0, map[], map[], map[], map[], {})
  }

  function ListOf(lists: map<Address, seq<u32>>, a: Address): seq<u32> {
    if a in lists then lists[a] else []
  }

  function MintSpec(s: State, caller: Address, owner: Address, courseId: string, courseName: string,
                    instructor: Address, royaltyBasis: u32, now: nat): Result<(State, int)>
  {
    if caller != s.admin || 10000 < royaltyBasis || !(0 <= s.nextId < U32_MAX) then Panic
    else
      var id := s.nextId;
      Ok((s.(nextId := id + 1,
             owners := s.owners[id := owner],
             metadata := s.metadata[id := Metadata(id, courseId, courseName, owner, now, royaltyBasis)],
             lists := s.lists[owner := ListOf(s.lists, owner) + [id]],
             royalties := s.royalties[id := (instructor, royaltyBasis)],
             access := s.access + {(id, owner)}), id))
  }

  /** The receiver's list is read after the sender's was written, which matters when
      they are the same account. */
  function TransferSpec(s: State, from: Address, to: Address, id: u32): Result<(State, ())> {
    if id !in s.owners || s.owners[id] != from || id !in s.metadata then Panic
    else
      var without := if from in s.lists then s.lists[from := RemoveFirst(s.lists[from], id)] else s.lists;
      Ok((s.(owners := s.owners[id := to],
             metadata := s.metadata[id := s.metadata[id].(owner := to)],
             lists := without[to := ListOf(without, to) + [id]],
             access := s.access + {(id, to)}), ()))
  }

  predicate OwnedBy(s: State, id: u32, a: Address) {
    id in s.owners && s.owners[id] == a
  }

  function GrantSpec(s: State, nftOwner: Address, id: u32, holder: Address): Result<(State, ())> {
    if !OwnedBy(s, id, nftOwner) then Panic else Ok((s.(access := s.access + {(id, holder)}), ()))
  }

  function RevokeSpec(s: State, nftOwner: Address, id: u32, holder: Address): Result<(State, ())> {
    if !OwnedBy(s, id, nftOwner) then Panic else Ok((s.(access := s.access - {(id, holder)}), ()))
  }

  class NftContract {
    const admin: Address
    var nextId: int
    var owners: map<u32, Address>
    var metadata: map<u32, Metadata>
    var lists: map<Address, seq<u32>>
    var royalties: map<u32, (Address, u32)>
    var access: set<(u32, Address)>

    ghost function View(): State
      reads this
    {
      State(admin, nextId, owners, metadata, lists, royalties, access)
    }

    constructor (admin: Address)
      ensures View() == Initial(admin)
    {
      this.admin, nextId := admin, 0;
      owners, metadata, lists, royalties, access := map[], map[], map[], map[], {};
    }

    method MintCourseNft(caller: Address, owner: Address, courseId: string, courseName: string,
                         instructor: Address, royaltyBasis: u32, now: nat) returns (r: Result<int>)
      modifies this
      ensures Refines(MintSpec(old(View()), caller, owner, courseId, courseName, instructor, royaltyBasis, now),
                      old(View()), View(), r)
    {
      if caller != admin || 10000 < royaltyBasis || !(0 <= nextId < U32_MAX) {
        return Panic;
      }
      var id := nextId;
      metadata := metadata[id := Metadata(id, courseId, courseName, owner, now, royaltyBasis)];
      owners := owners[id := owner];
      royalties := royalties[id := (instructor, royaltyBasis)];
      var nfts := ListOf(lists, owner);
      nfts := nfts + [id];
      lists := lists[owner := nfts];
      access := access + {(id, owner)};
      nextId := id + 1;
      return Ok(id);
    }

    method TransferNft(from: Address, to: Address, id: u32) returns (r: Result<()>)
      modifies this
      ensures Refines(TransferSpec(old(View()), from, to, id), old(View()), View(), r)
    {
      if id !in owners || owners[id] != from || id !in metadata {
        return Panic;
      }
      owners := owners[id := to];
      metadata := metadata[id := metadata[id].(owner := to)];
      if from in lists {
        var removed := Without(lists[from], id);
        lists := lists[from := removed];
      }
      var toNfts := ListOf(lists, to);
      toNfts := toNfts + [id];
      lists := lists[to := toNfts];
      access := access + {(id, to)};
      return Ok(());
    }

    method GrantAccess(nftOwner: Address, id: u32, holder: Address) returns (r: Result<()>)
      modifies this
      ensures Refines(GrantSpec(old(View()), nftOwner, id, holder), old(View()), View(), r)
    {
      if id !in owners || owners[id] != nftOwner {
        return Panic;
      }
      access := access + {(id, holder)};
      return Ok(());
    }

    method RevokeAccess(nftOwner: Address, id: u32, holder: Address) returns (r: Result<()>)
      modifies this
      ensures Refines(RevokeSpec(old(View()), nftOwner, id, holder), old(View()), View(), r)
    {
      if id !in owners || owners[id] != nftOwner {
        return Panic;
      }
      access := access - {(id, holder)};
      return Ok(());
    }

    /** Finds the first position of the id and removes that entry. */
    method Without(nfts: seq<u32>, id: u32) returns (r: seq<u32>)
      ensures r == RemoveFirst(nfts, id)
    {
      var pos := 0;
      while pos < |nfts| && nfts[pos] != id
        invariant pos <= |nfts|
        invariant RemoveFirst(nfts, id) == nfts[..pos] + RemoveFirst(nfts[pos..], id)
      {
        assert nfts[pos..][1..] == nfts[pos + 1..];
        assert nfts[..pos + 1] == nfts[..pos] + [nfts[pos]];
        pos := pos + 1;
      }
      if pos < |nfts| {
        assert nfts[pos..][1..] == nfts[pos + 1..];
        return nfts[..pos] + nfts[pos + 1..];
      }
      assert nfts[..pos] == nfts;
      return nfts;
    }
  }

  // ----- runs -----

  datatype Call =
    | Mint(caller: Address, owner: Address, courseId: string, courseName: string, instructor: Address,
           royaltyBasis: u32, now: nat)
    | Transfer(from: Address, to: Address, id: u32)
    | Grant(nftOwner: Address, id: u32, holder: Address)
    | Revoke(nftOwner: Address, id: u32, holder: Address)

  function Step(s: State, c: Call): State {
    match c
    case Mint(caller, owner, courseId, courseName, instructor, royaltyBasis, now) =>
      After(MintSpec(s, caller, owner, courseId, courseName, instructor, royaltyBasis, now), s)
    case Transfer(from, to, id) => After(TransferSpec(s, from, to, id), s)
    case Grant(nftOwner, id, holder) => After(GrantSpec(s, nftOwner, id, holder), s)
    case Revoke(nftOwner, id, holder) => After(RevokeSpec(s, nftOwner, id, holder), s)
  }

  function Run(s: State, calls: seq<Call>): State {
    if calls == [] then s else Step(Run(s, calls[..|calls| - 1]), calls[|calls| - 1])
  }

  /** How often an id occurs in an account's list. */
  ghost function Listed(lists: map<Address, seq<u32>>, a: Address, id: u32): nat {
    multiset(ListOf(lists, a))[id]
  }

  /** An id is listed exactly once with its owner and nowhere else. */
  ghost predicate ListsAgree(owners: map<u32, Address>, lists: map<Address, seq<u32>>) {
    forall a, id: u32 :: Listed(lists, a, id) == if id in owners && owners[id] == a then 1 else 0
  }

  ghost predicate Inv(s: State) {
    && 0 <= s.nextId <= U32_MAX
    && (forall id: u32 :: id in s.owners <==> id < s.nextId)
    && s.metadata.Keys == s.owners.Keys
    && (forall id :: id in s.metadata ==> s.metadata[id].nftId == id && s.metadata[id].owner == s.owners[id])
    && ListsAgree(s.owners, s.lists)
  }

  lemma {:induction false} RemoveFirstRemovesOne(s: seq<u32>, id: u32)
    ensures multiset(RemoveFirst(s, id)) == multiset(s) - multiset{id}
  {
    if s != [] {
      assert s == [s[0]] + s[1..];
      if s[0] != id {
        RemoveFirstRemovesOne(s[1..], id);
      }
    }
  }

  lemma AppendLists(lists: map<Address, seq<u32>>, to: Address, id: u32, a: Address, other: u32)
    ensures Listed(lists[to := ListOf(lists, to) + [id]], a, other)
         == Listed(lists, a, other) + (if a == to && other == id then 1 else 0)
  {
  }

  lemma RemoveLists(lists: map<Address, seq<u32>>, from: Address, id: u32, a: Address, other: u32)
    requires from in lists && 0 < Listed(lists, from, id)
    ensures Listed(lists[from := RemoveFirst(lists[from], id)], a, other)
         == Listed(lists, a, other) - (if a == from && other == id then 1 else 0)
  {
    RemoveFirstRemovesOne(lists[from], id);
  }

  lemma MintKeepsLists(owners: map<u32, Address>, lists: map<Address, seq<u32>>, owner: Address, id: u32)
    requires ListsAgree(owners, lists) && id !in owners
    ensures ListsAgree(owners[id := owner], lists[owner := ListOf(lists, owner) + [id]])
  {
    var owners', lists' := owners[id := owner], lists[owner := ListOf(lists, owner) + [id]];
    forall a, other: u32
      ensures Listed(lists', a, other) == if other in owners' && owners'[other] == a then 1 else 0
    {
      AppendLists(lists, owner, id, a, other);
    }
  }

  lemma TransferKeepsLists(owners: map<u32, Address>, lists: map<Address, seq<u32>>,
                           from: Address, to: Address, id: u32)
    requires ListsAgree(owners, lists) && id in owners && owners[id] == from
    ensures from in lists
    ensures var without := lists[from := RemoveFirst(lists[from], id)];
      ListsAgree(owners[id := to], without[to := ListOf(without, to) + [id]])
  {
    assert Listed(lists, from, id) == 1;
    var without := lists[from := RemoveFirst(lists[from], id)];
    var owners', lists' := owners[id := to], without[to := ListOf(without, to) + [id]];
    forall a, other: u32
      ensures Listed(lists', a, other) == if other in owners' && owners'[other] == a then 1 else 0
    {
      RemoveLists(lists, from, id, a, other);
      AppendLists(without, to, id, a, other);
    }
  }

  lemma MintKeepsInv(s: State, c: Call)
    requires Inv(s) && c.Mint?
    ensures Inv(Step(s, c))
  {
    if Step(s, c) != s {
      MintKeepsLists(s.owners, s.lists, c.owner, s.nextId);
    }
  }

  lemma TransferKeepsInv(s: State, c: Call)
    requires Inv(s) && c.Transfer?
    ensures Inv(Step(s, c))
  {
    if Step(s, c) != s {
      TransferKeepsLists(s.owners, s.lists, c.from, c.to, c.id);
    }
  }

  /** After any run of calls, transfers to oneself included, the three records of
      ownership agree and the minted ids are exactly those below the next id. */
  lemma {:induction false} OwnershipAgrees(admin: Address, calls: seq<Call>)
    ensures Inv(Run(Initial(admin), calls))
    decreases |calls|
  {
    if calls != [] {
      var n := |calls| - 1;
      OwnershipAgrees(admin, calls[..n]);
      if calls[n].Mint? {
        MintKeepsInv(Run(Initial(admin), calls[..n]), calls[n]);
      } else if calls[n].Transfer? {
        TransferKeepsInv(Run(Initial(admin), calls[..n]), calls[n]);
      }
    }
  }

  // ----- ownership, told from the calls -----

  /** The accepted mints: by the admin, within the royalty bound, while ids last. */
  ghost function Mints(admin: Address, calls: seq<Call>): seq<Call> {
    if calls == [] then []
    else
      var n := |calls| - 1;
      var c, sofar := calls[n], Mints(admin, calls[..n]);
      if c.Mint? && c.caller == admin && c.royaltyBasis <= 10000 && |sofar| < U32_MAX then sofar + [c] else sofar
  }

  /** The call is the accepted mint of the id. */
  ghost predicate MintsId(admin: Address, earlier: seq<Call>, c: Call, id: u32) {
    && c.Mint? && c.caller == admin && c.royaltyBasis <= 10000
    && |Mints(admin, earlier)| == id < U32_MAX
  }

  /** The owner of an id: the receiver of its last transfer made by its owner of that
      moment, or else the account it was minted to. */
  ghost function OwnerOf(admin: Address, calls: seq<Call>, id: u32): Option<Address> {
    if calls == [] then None
    else
      var n := |calls| - 1;
      var c, sofar := calls[n], OwnerOf(admin, calls[..n], id);
      if MintsId(admin, calls[..n], c, id) then Some(c.owner)
      else if c.Transfer? && c.id == id && sofar == Some(c.from) then Some(c.to)
      else sofar
  }

  /** What is stored about an id is what its mint said, under the owner of now. */
  ghost predicate AsMinted(s: State, id: u32, c: Call, owner: Address) {
    && c.Mint? && id in s.owners && s.owners[id] == owner
    && id in s.metadata
    && s.metadata[id] == Metadata(id, c.courseId, c.courseName, owner, c.now, c.royaltyBasis)
    && id in s.royalties && s.royalties[id] == (c.instructor, c.royaltyBasis)
  }

  ghost predicate Follows(s: State, admin: Address, calls: seq<Call>, id: u32) {
    && s.admin == admin && s.nextId == |Mints(admin, calls)|
    && (id in s.owners <==> OwnerOf(admin, calls, id).Some?)
    && (id in s.owners <==> id < |Mints(admin, calls)|)
    && (id in s.owners ==> AsMinted(s, id, Mints(admin, calls)[id], OwnerOf(admin, calls, id).value))
  }

  /** In every reachable state the owner of an id is the receiver of its last accepted
      transfer, or its minted owner if there was none; the rest of its record is what
      its mint said. */
  lemma {:induction false} OwnersFollowCalls(admin: Address, calls: seq<Call>, id: u32)
    ensures Follows(Run(Initial(admin), calls), admin, calls, id)
    decreases |calls|
  {
    if calls != [] {
      var n := |calls| - 1;
      OwnersFollowCalls(admin, calls[..n], id);
      OwnershipAgrees(admin, calls[..n]);
      if calls[n].Mint? {
        MintFollows(Run(Initial(admin), calls[..n]), admin, calls, id);
      } else {
        OtherCallFollows(Run(Initial(admin), calls[..n]), admin, calls, id);
      }
    }
  }

  lemma MintFollows(s: State, admin: Address, calls: seq<Call>, id: u32)
    requires calls != [] && calls[|calls| - 1].Mint? && Inv(s) && Follows(s, admin, calls[..|calls| - 1], id)
    ensures Follows(Step(s, calls[|calls| - 1]), admin, calls, id)
  {
  }

  lemma OtherCallFollows(s: State, admin: Address, calls: seq<Call>, id: u32)
    requires calls != [] && !calls[|calls| - 1].Mint? && Inv(s) && Follows(s, admin, calls[..|calls| - 1], id)
    ensures Follows(Step(s, calls[|calls| - 1]), admin, calls, id)
  {
  }

  function Succeeds(s: State, c: Call): bool {
    match c
    case Mint(caller, owner, courseId, courseName, instructor, royaltyBasis, now) =>
      MintSpec(s, caller, owner, courseId, courseName, instructor, royaltyBasis, now).Ok?
    case Transfer(from, to, id) => TransferSpec(s, from, to, id).Ok?
    case Grant(nftOwner, id, holder) => GrantSpec(s, nftOwner, id, holder).Ok?
    case Revoke(nftOwner, id, holder) => RevokeSpec(s, nftOwner, id, holder).Ok?
  }

  /** A mint of the admin's within bounds, or a transfer, grant or revocation by the
      owner that the earlier calls make out. */
  ghost predicate Allowed(admin: Address, earlier: seq<Call>, c: Call) {
    match c
    case Mint(caller, _, _, _, _, royaltyBasis, _) =>
      caller == admin && royaltyBasis <= 10000 && |Mints(admin, earlier)| < U32_MAX
    case Transfer(from, _, id) => OwnerOf(admin, earlier, id) == Some(from)
    case Grant(nftOwner, id, _) => OwnerOf(admin, earlier, id) == Some(nftOwner)
    case Revoke(nftOwner, id, _) => OwnerOf(admin, earlier, id) == Some(nftOwner)
  }

  /** In every reachable state exactly the allowed calls are accepted. */
  lemma CallsSucceedExactly(admin: Address, calls: seq<Call>, c: Call)
    ensures Succeeds(Run(Initial(admin), calls), c) <==> Allowed(admin, calls, c)
  {
    OwnershipAgrees(admin, calls);
    OwnersFollowCalls(admin, calls, if c.Mint? then 0 else c.id);
  }

  /** The ids an account holds, in the order it got them. */
  ghost function HeldBy(admin: Address, calls: seq<Call>, a: Address): seq<u32> {
    if calls == [] then []
    else
      var n := |calls| - 1;
      var c, sofar := calls[n], HeldBy(admin, calls[..n], a);
      if !Allowed(admin, calls[..n], c) then sofar
      else if c.Mint? then sofar + (if c.owner == a then [|Mints(admin, calls[..n])|] else [])
      else if c.Transfer? then
        (if c.from == a then Except(sofar, c.id) else sofar) + (if c.to == a then [c.id] else [])
      else sofar
  }

  /** In every reachable state an account's list is in that order. */
  lemma {:induction false} ListsFollowCalls(admin: Address, calls: seq<Call>, a: Address)
    ensures ListOf(Run(Initial(admin), calls).lists, a) == HeldBy(admin, calls, a)
    decreases |calls|
  {
    if calls != [] {
      var n := |calls| - 1;
      var s := Run(Initial(admin), calls[..n]);
      ListsFollowCalls(admin, calls[..n], a);
      OwnershipAgrees(admin, calls[..n]);
      CallsSucceedExactly(admin, calls[..n], calls[n]);
      OwnersFollowCalls(admin, calls[..n], 0);
      if calls[n].Transfer? {
        ListIsOwned(admin, calls[..n], calls[n].from, calls[n].id);
        ExceptIsRemoval(ListOf(s.lists, calls[n].from), calls[n].id);
        TransferOnLists(s, calls[n].from, calls[n].to, calls[n].id, a);
      }
    }
  }

  lemma TransferOnLists(s: State, from: Address, to: Address, id: u32, a: Address)
    ensures var r := TransferSpec(s, from, to, id);
      r.Ok? ==> ListOf(r.value.0.lists, a)
                == (if from == a then RemoveFirst(ListOf(s.lists, a), id) else ListOf(s.lists, a))
                   + (if to == a then [id] else [])
  {
  }

  /** What an account is shown as its list are the ids it owns, each once. */
  lemma ListIsOwned(admin: Address, calls: seq<Call>, a: Address, id: u32)
    ensures var s := Run(Initial(admin), calls);
      && (id in ListOf(s.lists, a) <==> id in s.owners && s.owners[id] == a)
      && NoDuplicates(ListOf(s.lists, a))
  {
    OwnershipAgrees(admin, calls);
    var s := Run(Initial(admin), calls);
    var list := ListOf(s.lists, a);
    assert id in list <==> 0 < Listed(s.lists, a, id);
    forall i, j | 0 <= i < j < |list|
      ensures list[i] != list[j]
    {
      assert Listed(s.lists, a, list[i]) <= 1;
      if list[i] == list[j] {
        TwiceIsTwo(list, i, j);
      }
    }
  }

  lemma TwiceIsTwo(s: seq<u32>, i: nat, j: nat)
    requires i < j < |s| && s[i] == s[j]
    ensures 2 <= multiset(s)[s[i]]
  {
    assert s == s[..i] + [s[i]] + s[i + 1..j] + [s[j]] + s[j + 1..];
  }

  /** The answered id is a new one, owned by the account it was minted to. */
  lemma AnsweredIdIsNew(s: State, c: Call)
    requires Inv(s) && c.Mint?
    ensures var r := MintSpec(s, c.caller, c.owner, c.courseId, c.courseName, c.instructor, c.royaltyBasis, c.now);
      r.Ok? ==> 0 <= r.value.1 <= U32_MAX && r.value.1 !in s.owners && OwnedBy(r.value.0, r.value.1, c.owner)
  {
  }

  // ----- who has access -----

  /** The call gives an account access: it mints or transfers the token to it, or
      the owner grants it. */
  ghost predicate Gives(s: State, c: Call, id: u32, a: Address) {
    match c
    case Mint(caller, owner, _, _, _, royaltyBasis, _) =>
      caller == s.admin && royaltyBasis <= 10000 && s.nextId == id < U32_MAX && owner == a
    case Transfer(from, to, tid) => tid == id && to == a && OwnedBy(s, id, from)
    case Grant(nftOwner, gid, holder) => gid == id && holder == a && OwnedBy(s, id, nftOwner)
    case Revoke(_, _, _) => false
  }

  /** Only a revocation by the owner of that moment takes access away. */
  ghost predicate Takes(s: State, c: Call, id: u32, a: Address) {
    c.Revoke? && c.id == id && c.holder == a && OwnedBy(s, id, c.nftOwner)
  }

  lemma StepOnAccess(s: State, c: Call, id: u32, a: Address)
    requires Inv(s)
    ensures (id, a) in Step(s, c).access
       <==> Gives(s, c, id, a) || ((id, a) in s.access && !Takes(s, c, id, a))
  {
  }

  /** Call k of the run gave the access and no later one took it. */
  ghost predicate GivenForGood(s: State, calls: seq<Call>, k: int, id: u32, a: Address) {
    && 0 <= k < |calls| && Gives(Run(s, calls[..k]), calls[k], id, a)
    && forall j :: k < j < |calls| ==> !Takes(Run(s, calls[..j]), calls[j], id, a)
  }

  /** An account has access to a token exactly when some call of the run gave it and
      no later one took it. A transfer takes nothing: the former owner keeps access
      until the new one revokes it. */
  lemma {:induction false} AccessIsLastGiven(admin: Address, calls: seq<Call>, id: u32, a: Address)
    ensures (id, a) in Run(Initial(admin), calls).access
       <==> exists k :: GivenForGood(Initial(admin), calls, k, id, a)
    decreases |calls|
  {
    if calls != [] {
      var n := |calls| - 1;
      AccessIsLastGiven(admin, calls[..n], id, a);
      OwnershipAgrees(admin, calls[..n]);
      StepOnAccess(Run(Initial(admin), calls[..n]), calls[n], id, a);
      LastCallOnGiven(Initial(admin), calls, id, a);
    }
  }

  lemma LastCallOnGiven(s: State, calls: seq<Call>, id: u32, a: Address)
    requires calls != []
    ensures var n := |calls| - 1;
      var m := Run(s, calls[..n]);
      (exists k :: GivenForGood(s, calls, k, id, a))
      <==> || Gives(m, calls[n], id, a)
           || ((exists k :: GivenForGood(s, calls[..n], k, id, a)) && !Takes(m, calls[n], id, a))
  {
    var n := |calls| - 1;
    PrefixesOfPrefix(calls);
    forall k | 0 <= k < n
      ensures GivenForGood(s, calls, k, id, a)
         <==> GivenForGood(s, calls[..n], k, id, a) && !Takes(Run(s, calls[..n]), calls[n], id, a)
    {
    }
    assert GivenForGood(s, calls, n, id, a) <==> Gives(Run(s, calls[..n]), calls[n], id, a);
  }

  /** The owner of a token lacks access to it only after revoking its own. */
  lemma {:induction false} OwnersLoseAccessByTheirOwnHand(admin: Address, calls: seq<Call>, id: u32, a: Address)
    requires OwnedBy(Run(Initial(admin), calls), id, a) && (id, a) !in Run(Initial(admin), calls).access
    ensures Revoke(a, id, a) in calls
    decreases |calls|
  {
    if calls != [] {
      var n := |calls| - 1;
      OwnershipAgrees(admin, calls[..n]);
      var m := Run(Initial(admin), calls[..n]);
      StepOnAccess(m, calls[n], id, a);
      StepOnOwner(m, calls[n], id, a);
      if calls[n] != Revoke(a, id, a) {
        OwnersLoseAccessByTheirOwnHand(admin, calls[..n], id, a);
      }
    }
  }

  lemma StepOnOwner(s: State, c: Call, id: u32, a: Address)
    requires Inv(s) && OwnedBy(Step(s, c), id, a)
    ensures OwnedBy(s, id, a) || Gives(s, c, id, a)
  {
  }
}
