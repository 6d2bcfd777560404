/** Forum votes: one record per user and target, and two counters on the target that
    are kept up to date request by request. */
module Forums {
  import opened Common

  datatype User = User(key: nat)

  datatype Target = Post(id: nat) | Reply(id: nat)

  datatype Direction = Up | Down

  /** A vote in a direction, or the removal of a vote. */
  datatype Request = Cast(direction: Direction) | Remove

  datatype Counts = Counts(upvotes: int, downvotes: int)

  datatype State = State(targets: map<Target, Counts>, votes: map<(Target, User), Direction>)

  function Max(a: int, b: int): int {
    if a < b then b else a
  }

  function CountMore(c: Counts, d: Direction): Counts {
    match d
    case Up => c.(upvotes := c.upvotes + 1)
    case Down => c.(downvotes := c.downvotes + 1)
  }

  function CountLess(c: Counts, d: Direction): Counts {
    match d
    case Up => c.(upvotes := Max(0, c.upvotes - 1))
    case Down => c.(downvotes := Max(0, c.downvotes - 1))
  }

  /** The effect of a request on an existing target. */
  function ApplyVote(s: State, t: Target, u: User, request: Request): State
    requires t in s.targets
  {
    var c := s.targets[t];
    if (t, u) in s.votes then
      var existing := s.votes[(t, u)];
      match request
      case Remove => State(s.targets[t := CountLess(c, existing)], s.votes - {(t, u)})
      case Cast(d) =>
        if d == existing then s
        else State(s.targets[t := CountMore(CountLess(c, existing), d)], s.votes[(t, u) := d])
    else
      match request
      case Remove => s
      case Cast(d) => State(s.targets[t := CountMore(c, d)], s.votes[(t, u) := d])
  }

  class ForumsService {
    var targets: map<Target, Counts>
    var votes: map<(Target, User), Direction>

    ghost function View(): State
      reads this
    {
      State(targets, votes)
    }

    constructor ()
      ensures View() == State(map[], map[])
    {
      targets, votes := map[], map[];
    }

    method VotePost(postId: nat, user: User, request: Request) returns (r: Option<Counts>)
      modifies this
      ensures r.Some? <==> Post(postId) in old(targets)
      ensures r.Some? ==> View() == ApplyVote(old(View()), Post(postId), user, request)
                          && r.value == targets[Post(postId)]
      ensures r.None? ==> View() == old(View())
    {
      if Post(postId) !in targets {
        return None;
      }
      var counts := Apply(Post(postId), user, request);
      return Some(counts);
    }

    method VoteReply(replyId: nat, user: User, request: Request) returns (r: Option<Counts>)
      modifies this
      ensures r.Some? <==> Reply(replyId) in old(targets)
      ensures r.Some? ==> View() == ApplyVote(old(View()), Reply(replyId), user, request)
                          && r.value == targets[Reply(replyId)]
      ensures r.None? ==> View() == old(View())
    {
      if Reply(replyId) !in targets {
        return None;
      }
      var counts := Apply(Reply(replyId), user, request);
      return Some(counts);
    }

    /** Adjusts the counters and the vote record, branch by branch. */
    method Apply(target: Target, user: User, request: Request) returns (counts: Counts)
      requires target in targets
      modifies this
      ensures View() == ApplyVote(old(View()), target, user, request)
      ensures target in targets && counts == targets[target]
    {
      counts := targets[target];
      var up, down := counts.upvotes, counts.downvotes;
      var key := (target, user);
      if request == Remove {
        if key in votes {
          if votes[key] == Up {
            up := Max(0, up - 1);
          } else {
            down := Max(0, down - 1);
          }
          votes := votes - {key};
        }
      } else if key in votes {
        if votes[key] != request.direction {
          if votes[key] == Up {
            up := Max(0, up - 1);
            down := down + 1;
          } else {
            down := Max(0, down - 1);
            up := up + 1;
          }
          votes := votes[key := request.direction];
        }
      } else {
        votes := votes[key := request.direction];
        if request.direction == Up {
          up := up + 1;
        } else {
          down := down + 1;
        }
      }
      counts := Counts(up, down);
      targets := targets[target := counts];
    }
  }

  // ----- runs -----

  datatype Call = Create(target: Target) | Vote(target: Target, user: User, request: Request)

  /** Targets start without votes; a request on an unknown target is refused. */
  function Step(s: State, c: Call): State {
    match c
    case Create(t) => if t in s.targets then s else s.(targets := s.targets[t := Counts(0, 0)])
    case Vote(t, u, request) => if t in s.targets then ApplyVote(s, t, u, request) else s
  }

  function Run(calls: seq<Call>): State {
    if calls == [] then State(map[], map[]) else Step(Run(calls[..|calls| - 1]), calls[|calls| - 1])
  }

  /** Whether the target was created in the course of these calls. */
  ghost predicate Created(calls: seq<Call>, t: Target) {
    Create(t) in calls
  }

  /** The last request a user made on a target since it exists. */
  ghost function LastRequest(calls: seq<Call>, t: Target, u: User): Request {
    if calls == [] then Remove
    else
      var n := |calls| - 1;
      match calls[n]
      case Vote(t', u', request) =>
        if t' == t && u' == u && Created(calls[..n], t) then request else LastRequest(calls[..n], t, u)
      case Create(_) => LastRequest(calls[..n], t, u)
  }

  /** The users whose vote on a target is on record, by direction. */
  ghost function Voters(votes: map<(Target, User), Direction>, t: Target, d: Direction): set<User> {
    set k | k in votes && k.0 == t && votes[k] == d :: k.1
  }

  ghost predicate CountsAgree(s: State, t: Target) {
    t in s.targets ==> s.targets[t] == Counts(Count(s.votes, t, Up), Count(s.votes, t, Down))
  }

  lemma VotersAfterCast(votes: map<(Target, User), Direction>, t: Target, u: User, d: Direction, e: Direction)
    ensures Voters(votes[(t, u) := d], t, e)
         == if d == e then Voters(votes, t, e) + {u} else Voters(votes, t, e) - {u}
    ensures forall other :: other != t ==> Voters(votes[(t, u) := d], other, e) == Voters(votes, other, e)
  {
    var after := votes[(t, u) := d];
    forall other, x
      ensures x in Voters(after, other, e) <==> (other, x) in after && after[(other, x)] == e
      ensures x in Voters(votes, other, e) <==> (other, x) in votes && votes[(other, x)] == e
    {
    }
  }

  lemma VotersAfterRemove(votes: map<(Target, User), Direction>, t: Target, u: User, e: Direction)
    ensures Voters(votes - {(t, u)}, t, e) == Voters(votes, t, e) - {u}
    ensures forall other :: other != t ==> Voters(votes - {(t, u)}, other, e) == Voters(votes, other, e)
  {
    var after := votes - {(t, u)};
    forall other, x
      ensures x in Voters(after, other, e) <==> (other, x) in after && after[(other, x)] == e
      ensures x in Voters(votes, other, e) <==> (other, x) in votes && votes[(other, x)] == e
    {
    }
  }

  lemma OnRecord(votes: map<(Target, User), Direction>, t: Target, u: User, d: Direction)
    ensures u in Voters(votes, t, d) <==> (t, u) in votes && votes[(t, u)] == d
  {
  }

  ghost function Count(votes: map<(Target, User), Direction>, t: Target, d: Direction): nat {
    |Voters(votes, t, d)|
  }

  /** Whether a user's vote on a target counts in a direction. */
  ghost function Share(votes: map<(Target, User), Direction>, t: Target, u: User, d: Direction): nat {
    if (t, u) in votes && votes[(t, u)] == d then 1 else 0
  }

  lemma CountAfterCast(votes: map<(Target, User), Direction>, t: Target, u: User, d: Direction, e: Direction)
    ensures Share(votes, t, u, e) <= Count(votes, t, e)
    ensures Count(votes[(t, u) := d], t, e)
         == Count(votes, t, e) - Share(votes, t, u, e) + (if d == e then 1 else 0)
  {
    VotersAfterCast(votes, t, u, d, e);
    OnRecord(votes, t, u, e);
    var before := Voters(votes, t, e);
    assert u in before ==> before == (before - {u}) + {u};
  }

  lemma CountAfterRemove(votes: map<(Target, User), Direction>, t: Target, u: User, e: Direction)
    ensures Share(votes, t, u, e) <= Count(votes, t, e)
    ensures Count(votes - {(t, u)}, t, e) == Count(votes, t, e) - Share(votes, t, u, e)
  {
    VotersAfterRemove(votes, t, u, e);
    OnRecord(votes, t, u, e);
    var before := Voters(votes, t, e);
    assert u in before ==> before == (before - {u}) + {u};
  }

  /** A request keeps the counters of its target equal to the recount; the counter
      it lowers is positive, so the clamp never takes effect. */
  lemma ApplyKeepsCounts(s: State, t: Target, u: User, request: Request)
    requires t in s.targets && CountsAgree(s, t)
    ensures CountsAgree(ApplyVote(s, t, u, request), t)
    ensures (t, u) in s.votes && s.votes[(t, u)] == Up ==> 0 < s.targets[t].upvotes
    ensures (t, u) in s.votes && s.votes[(t, u)] == Down ==> 0 < s.targets[t].downvotes
  {
    CountAfterRemove(s.votes, t, u, Up);
    CountAfterRemove(s.votes, t, u, Down);
    match request
    case Remove =>
    case Cast(d) =>
      CountAfterCast(s.votes, t, u, d, Up);
      CountAfterCast(s.votes, t, u, d, Down);
  }

  /** Other targets keep their counters, and their counters keep agreeing. */
  lemma ApplyLeavesOthers(s: State, t: Target, u: User, request: Request, other: Target)
    requires t in s.targets && other != t
    ensures var after := ApplyVote(s, t, u, request);
      && (other in after.targets <==> other in s.targets)
      && (other in s.targets ==> after.targets[other] == s.targets[other])
      && (CountsAgree(s, other) ==> CountsAgree(after, other))
  {
    VotersAfterRemove(s.votes, t, u, Up);
    VotersAfterRemove(s.votes, t, u, Down);
    if request.Cast? {
      VotersAfterCast(s.votes, t, u, request.direction, Up);
      VotersAfterCast(s.votes, t, u, request.direction, Down);
    }
  }

  lemma {:induction false} TargetsAreCreated(calls: seq<Call>, t: Target)
    ensures t in Run(calls).targets <==> Created(calls, t)
    decreases |calls|
  {
    if calls != [] {
      var n := |calls| - 1;
      assert calls == calls[..n] + [calls[n]];
      TargetsAreCreated(calls[..n], t);
    }
  }

  lemma {:induction false} RecordsAreLastRequests(calls: seq<Call>, t: Target, u: User, d: Direction)
    ensures u in Voters(Run(calls).votes, t, d) <==> LastRequest(calls, t, u) == Cast(d)
    ensures (t, u) in Run(calls).votes ==> t in Run(calls).targets
    decreases |calls|
  {
    OnRecord(Run(calls).votes, t, u, d);
    if calls != [] {
      var n := |calls| - 1;
      RecordsAreLastRequests(calls[..n], t, u, d);
      OnRecord(Run(calls[..n]).votes, t, u, d);
      TargetsAreCreated(calls[..n], t);
    }
  }

  lemma {:induction false} RunCounts(calls: seq<Call>, t: Target)
    ensures CountsAgree(Run(calls), t)
    decreases |calls|
  {
    if calls != [] {
      var n := |calls| - 1;
      RunCounts(calls[..n], t);
      match calls[n]
      case Vote(t', u, request) =>
        if t' in Run(calls[..n]).targets {
          if t' == t {
            ApplyKeepsCounts(Run(calls[..n]), t, u, request);
          } else {
            ApplyLeavesOthers(Run(calls[..n]), t', u, request, t);
          }
        }
      case Create(t') =>
        if t' == t && t !in Run(calls[..n]).targets {
          NewTargetHasNoVoters(calls[..n], t, Up);
          NewTargetHasNoVoters(calls[..n], t, Down);
        }
    }
  }

  lemma NewTargetHasNoVoters(calls: seq<Call>, t: Target, d: Direction)
    requires t !in Run(calls).targets
    ensures Voters(Run(calls).votes, t, d) == {}
  {
    forall u | u in Voters(Run(calls).votes, t, d)
      ensures false
    {
      RecordsAreLastRequests(calls, t, u, d);
    }
  }

  /** After any sequence of requests by any users, a target's counters are the
      numbers of users whose last request on it was up, respectively down. */
  lemma CountersCountLastRequests(calls: seq<Call>, t: Target, ups: set<User>, downs: set<User>)
    requires Created(calls, t)
    requires forall u :: u in ups <==> LastRequest(calls, t, u) == Cast(Up)
    requires forall u :: u in downs <==> LastRequest(calls, t, u) == Cast(Down)
    ensures t in Run(calls).targets && Run(calls).targets[t] == Counts(|ups|, |downs|)
  {
    TargetsAreCreated(calls, t);
    RunCounts(calls, t);
    forall u
      ensures u in Voters(Run(calls).votes, t, Up) <==> u in ups
      ensures u in Voters(Run(calls).votes, t, Down) <==> u in downs
    {
      RecordsAreLastRequests(calls, t, u, Up);
      RecordsAreLastRequests(calls, t, u, Down);
    }
    assert Voters(Run(calls).votes, t, Up) == ups;
    assert Voters(Run(calls).votes, t, Down) == downs;
  }
}
