/** What the progress contract guarantees over every run: the course index is exact,
    and milestones follow the highest progress ever recorded. */
module AnalyticsProofs {
  import opened Common
  import opened Analytics

  datatype Call =
    | Record(caller: Address, student: Address, course: Course, pct: int, now: nat)
    | Reset(caller: Address, student: Address, course: Course)
    | SetAdmin(caller: Address, newAdmin: Address)

  function Step(s: State, c: Call): State {
    match c
    case Record(caller, student, course, pct, now) => After(RecordSpec(s, caller, student, course, pct, now), s)
    case Reset(caller, student, course) => After(ResetSpec(s, caller, student, course), s)
    case SetAdmin(caller, newAdmin) => After(SetAdminSpec(s, caller, newAdmin), s)
  }

  function Run(s: State, calls: seq<Call>): State {
    if calls == [] then s else Step(Run(s, calls[..|calls| - 1]), calls[|calls| - 1])
  }

  // ----- the course index -----

  /** A student's index lists each course with a record once, and no other. */
  ghost predicate IndexOf(s: State, student: Address) {
    && NoDuplicates(CoursesOf(s.courses, student))
    && (forall c :: c in CoursesOf(s.courses, student) <==> (student, c) in s.progress)
  }

  ghost predicate RecordOk(k: Key, p: Progress) {
    p.student == k.0 && p.course == k.1 && 0 <= p.pct <= 100 && (p.completed <==> p.pct == 100)
  }

  lemma {:induction false} RemoveFirstMembers(list: seq<Course>, course: Course, c: Course)
    requires NoDuplicates(list)
    ensures c in RemoveFirst(list, course) <==> c in list && c != course
  {
    if list != [] {
      NoDuplicatesSplit(list);
      assert c in list <==> c == list[0] || c in list[1..];
      if list[0] != course {
        RemoveFirstMembers(list[1..], course, c);
      }
    }
  }

  lemma {:induction false} RemoveFirstKeepsDistinct(list: seq<Course>, course: Course)
    requires NoDuplicates(list)
    ensures NoDuplicates(RemoveFirst(list, course))
  {
    if list != [] {
      NoDuplicatesSplit(list);
      if list[0] != course {
        RemoveFirstMembers(list[1..], course, list[0]);
        RemoveFirstKeepsDistinct(list[1..], course);
        NoDuplicatesSplit(RemoveFirst(list, course));
      }
    }
  }

  lemma StepKeepsIndex(s: State, c: Call, student: Address)
    requires IndexOf(s, student)
    ensures IndexOf(Step(s, c), student)
  {
    if c.Reset? && c.student == student {
      var list := CoursesOf(s.courses, student);
      RemoveFirstKeepsDistinct(list, c.course);
      forall other {
        RemoveFirstMembers(list, c.course, other);
      }
    }
  }

  lemma {:induction false} RunKeepsIndex(admin: Address, calls: seq<Call>, student: Address)
    ensures IndexOf(Run(Initial(admin), calls), student)
    ensures forall k :: k in Run(Initial(admin), calls).progress ==> RecordOk(k, Run(Initial(admin), calls).progress[k])
    decreases |calls|
  {
    if calls != [] {
      var n := |calls| - 1;
      RunKeepsIndex(admin, calls[..n], student);
      StepKeepsIndex(Run(Initial(admin), calls[..n]), calls[n], student);
    }
  }

  lemma {:induction false} RecordsForIsMap(progress: map<Key, Progress>, student: Address, list: seq<Course>)
    requires forall c :: c in list ==> (student, c) in progress
    ensures var r := RecordsFor(progress, student, list);
      |r| == |list| && forall i :: 0 <= i < |list| ==> r[i] == progress[(student, list[i])]
    decreases |list|
  {
    if list != [] {
      RecordsForIsMap(progress, student, list[..|list| - 1]);
    }
  }

  /** In every reachable state the full listing has one record per recorded course:
      the courses are distinct, and every record of the student appears. */
  lemma AllProgressIsComplete(admin: Address, calls: seq<Call>, student: Address)
    ensures var s := Run(Initial(admin), calls);
      var list := CoursesOf(s.courses, student);
      var all := RecordsFor(s.progress, student, list);
      && |all| == |list| && NoDuplicates(list)
      && (forall i :: 0 <= i < |all| ==> all[i].student == student && all[i].course == list[i])
      && (forall c :: (student, c) in s.progress ==> s.progress[(student, c)] in all)
  {
    RunKeepsIndex(admin, calls, student);
    var s := Run(Initial(admin), calls);
    var list := CoursesOf(s.courses, student);
    var all := RecordsFor(s.progress, student, list);
    RecordsForIsMap(s.progress, student, list);
    forall c | (student, c) in s.progress
      ensures s.progress[(student, c)] in all
    {
      var i :| 0 <= i < |list| && list[i] == c;
      assert all[i] in all;
    }
    forall i | 0 <= i < |all|
      ensures all[i].student == student && all[i].course == list[i]
    {
      assert RecordOk((student, list[i]), s.progress[(student, list[i])]);
    }
  }

  /** Two consecutive pages are the page of both lengths. */
  lemma PagesConcatenate<T>(all: seq<T>, offset: nat, limit: nat, next: nat)
    ensures Page(all, offset, limit) + Page(all, offset + limit, next) == Page(all, offset, limit + next)
  {
  }

  /** What n calls for pages of one size answer together, each starting where the
      one before ended. */
  function ReadPages<T>(all: seq<T>, limit: nat, n: nat): Result<seq<T>> {
    if n == 0 then Ok([])
    else
      var sofar :- ReadPages(all, limit, n - 1);
      var page :- PageReply(all, limit * (n - 1), limit);
      Ok(sofar + page)
  }

  lemma {:induction false} PagesJoin<T>(all: seq<T>, limit: nat, n: nat)
    ensures ReadPages(all, limit, n) == PageReply(all, 0, limit * n)
    decreases n
  {
    if n == 0 {
      assert limit * n == 0;
    } else {
      PagesJoin(all, limit, n - 1);
      var before := limit * (n - 1);
      assert limit * n == before + limit;
      NextPage(all, before, limit);
    }
  }

  lemma NextPage<T>(all: seq<T>, before: nat, limit: nat)
    ensures PageReply(all, 0, before + limit)
         == if PageReply(all, 0, before).Panic? || PageReply(all, before, limit).Panic? then Panic
            else Ok(PageReply(all, 0, before).value + PageReply(all, before, limit).value)
  {
    PagesConcatenate(all, 0, before, limit);
  }

  /** Reading page after page is reading one page of the joint length: it succeeds
      exactly while the end stays a 32-bit index, and returns everything, once and in
      order, exactly if it also gets that far. */
  lemma PagesCoverAll<T>(all: seq<T>, limit: nat, n: nat)
    ensures ReadPages(all, limit, n).Ok? <==> limit * n <= U32_MAX
    ensures limit * n <= U32_MAX ==> ReadPages(all, limit, n) == Ok(Page(all, 0, limit * n))
    ensures ReadPages(all, limit, n) == Ok(all) <==> |all| <= limit * n <= U32_MAX
  {
    PagesJoin(all, limit, n);
    WholePage(all, limit * n);
  }

  lemma WholePage<T>(all: seq<T>, length: nat)
    ensures Page(all, 0, length) == all <==> |all| <= length
  {
    assert |Page(all, 0, length)| == Min(length, |all|);
  }

  // ----- milestones -----

  /** The thresholds among the first k that lie at or below h, in increasing order. */
  function UpTo(h: int, k: nat): seq<int>
    requires k <= |THRESHOLDS|
  {
    if k == 0 then []
    else UpTo(h, k - 1) + (if THRESHOLDS[k - 1] <= h then [THRESHOLDS[k - 1]] else [])
  }

  /** The record is accepted in state s: its caller is the student or the admin of
      that moment. */
  ghost predicate Accepted(s: State, c: Call, k: Key) {
    && c.Record? && (c.student, c.course) == k
    && (c.caller == c.student || c.caller == s.admin) && 0 <= c.pct <= 100
  }

  /** The highest progress ever recorded for a student in a course, or -1. */
  ghost function Highest(s: State, calls: seq<Call>, k: Key): int {
    if calls == [] then -1
    else
      var n := |calls| - 1;
      var sofar := Highest(s, calls[..n], k);
      if Accepted(Run(s, calls[..n]), calls[n], k) && sofar < calls[n].pct then calls[n].pct else sofar
  }

  lemma Thresholds()
    ensures |THRESHOLDS| == 4
    ensures THRESHOLDS[0] == 25 && THRESHOLDS[1] == 50 && THRESHOLDS[2] == 75 && THRESHOLDS[3] == 100
  {
  }

  lemma UpToUnrolls(h: int)
    ensures UpTo(h, 4) == (if h < 25 then [] else if h < 50 then [25] else if h < 75 then [25, 50]
                           else if h < 100 then [25, 50, 75] else [25, 50, 75, 100])
  {
    Thresholds();
    assert UpTo(h, 1) == if h < 25 then [] else [25];
    assert UpTo(h, 2) == UpTo(h, 1) + if h < 50 then [] else [50];
    assert UpTo(h, 3) == UpTo(h, 2) + if h < 75 then [] else [75];
  }

  /** The threshold m, if it is newly reached. */
  function Newly(h: int, pct: int, m: int): seq<int> {
    if h < m <= pct then [m] else []
  }

  lemma AwardUnrolls(h: int, pct: int)
    ensures Award(UpTo(h, 4), pct, 4)
         == UpTo(h, 4) + Newly(h, pct, 25) + Newly(h, pct, 50) + Newly(h, pct, 75) + Newly(h, pct, 100)
  {
    Thresholds();
    UpToUnrolls(h);
    var a := UpTo(h, 4);
    assert Award(a, pct, 1) == a + Newly(h, pct, 25);
    assert Award(a, pct, 2) == Award(a, pct, 1) + Newly(h, pct, 50);
    assert Award(a, pct, 3) == Award(a, pct, 2) + Newly(h, pct, 75);
  }

  /** Awarding on top of the milestones of h gives those of the larger of h and pct. */
  lemma AwardReachesHighest(h: int, pct: int)
    ensures Award(UpTo(h, 4), pct, 4) == UpTo(if h < pct then pct else h, 4)
  {
    AwardUnrolls(h, pct);
    UpToUnrolls(h);
    UpToUnrolls(if h < pct then pct else h);
  }

  /** In every reachable state, resets and changes of admin included, the achieved
      milestones are exactly the thresholds at or below the highest progress ever
      recorded, in order. */
  lemma {:induction false} MilestonesFollowHighest(admin: Address, calls: seq<Call>, k: Key)
    ensures MilestonesOf(Run(Initial(admin), calls).milestones, k) == UpTo(Highest(Initial(admin), calls, k), 4)
    decreases |calls|
  {
    if calls == [] {
      UpToUnrolls(-1);
    } else {
      var n := |calls| - 1;
      MilestonesFollowHighest(admin, calls[..n], k);
      if calls[n].Record? {
        AwardReachesHighest(Highest(Initial(admin), calls[..n], k), calls[n].pct);
      }
    }
  }

  // ----- the record in force -----

  /** The admin of that moment resets the student's record of the course. */
  ghost predicate Resets(s: State, c: Call, k: Key) {
    c.Reset? && (c.student, c.course) == k && c.caller == s.admin
  }

  /** Call i was accepted as a record of the key, and no later one recorded or reset it. */
  ghost predicate InForce(s: State, calls: seq<Call>, k: Key, i: int) {
    && 0 <= i < |calls| && Accepted(Run(s, calls[..i]), calls[i], k)
    && forall j :: i < j < |calls| ==>
         !Accepted(Run(s, calls[..j]), calls[j], k) && !Resets(Run(s, calls[..j]), calls[j], k)
  }

  /** What an accepted record leaves behind. */
  ghost function AsRecorded(c: Call): Progress
    requires c.Record?
  {
    Progress(c.student, c.course, c.pct, c.pct == 100, c.now)
  }

  lemma CallsSucceedExactly(s: State, c: Call)
    ensures match c
      case Record(caller, student, course, pct, now) =>
        RecordSpec(s, caller, student, course, pct, now).Ok? <==> Accepted(s, c, (student, course))
      case Reset(caller, student, course) =>
        ResetSpec(s, caller, student, course).Ok? <==> Resets(s, c, (student, course))
      case SetAdmin(caller, newAdmin) => SetAdminSpec(s, caller, newAdmin).Ok? <==> caller == s.admin
  {
  }

  /** The admin in force: the one a former admin named last. */
  ghost function AdminOf(admin: Address, calls: seq<Call>): Address {
    if calls == [] then admin
    else
      var n := |calls| - 1;
      var c, sofar := calls[n], AdminOf(admin, calls[..n]);
      if c.SetAdmin? && c.caller == sofar then c.newAdmin else sofar
  }

  lemma {:induction false} AdminFollowsCalls(admin: Address, calls: seq<Call>)
    ensures Run(Initial(admin), calls).admin == AdminOf(admin, calls)
    decreases |calls|
  {
    if calls != [] {
      AdminFollowsCalls(admin, calls[..|calls| - 1]);
    }
  }

  lemma StepOnRecord(s: State, c: Call, k: Key)
    ensures var t := Step(s, c);
      if Accepted(s, c, k) then k in t.progress && t.progress[k] == AsRecorded(c)
      else if Resets(s, c, k) then k !in t.progress
      else (k in t.progress <==> k in s.progress) && (k in s.progress ==> t.progress[k] == s.progress[k])
  {
  }

  lemma LastCallInForce(s: State, calls: seq<Call>, k: Key, i: int)
    requires calls != []
    ensures var n := |calls| - 1;
      var m, c := Run(s, calls[..n]), calls[n];
      InForce(s, calls, k, i)
      <==> if i == n then Accepted(m, c, k)
           else InForce(s, calls[..n], k, i) && !Accepted(m, c, k) && !Resets(m, c, k)
  {
    PrefixesOfPrefix(calls);
  }

  /** In every reachable state a student has a record of a course exactly when some
      accepted one was neither replaced nor reset since, and it carries what that call
      reported, at the time it did. */
  lemma {:induction false} RecordsFollowCalls(admin: Address, calls: seq<Call>, k: Key)
    ensures var s := Run(Initial(admin), calls);
      && (k in s.progress <==> exists i :: InForce(Initial(admin), calls, k, i))
      && (forall i :: InForce(Initial(admin), calls, k, i) ==> k in s.progress && s.progress[k] == AsRecorded(calls[i]))
    decreases |calls|
  {
    if calls != [] {
      var n := |calls| - 1;
      RecordsFollowCalls(admin, calls[..n], k);
      StepOnRecord(Run(Initial(admin), calls[..n]), calls[n], k);
      forall i {
        LastCallInForce(Initial(admin), calls, k, i);
      }
      if i :| InForce(Initial(admin), calls[..n], k, i) {
        LastCallInForce(Initial(admin), calls, k, i);
      }
      LastCallInForce(Initial(admin), calls, k, n);
    }
  }

  /** What a call makes of a student's list. */
  ghost function ListingAfter(s: State, c: Call, student: Address, list: seq<Course>): seq<Course> {
    if c.Record? && Accepted(s, c, (student, c.course)) && c.course !in list then list + [c.course]
    else if c.Reset? && Resets(s, c, (student, c.course)) then Except(list, c.course)
    else list
  }

  /** The courses a student has records of, in the order they were first recorded
      since their last reset. */
  ghost function Listing(s: State, calls: seq<Call>, student: Address): seq<Course> {
    if calls == [] then []
    else
      var n := |calls| - 1;
      ListingAfter(Run(s, calls[..n]), calls[n], student, Listing(s, calls[..n], student))
  }

  lemma StepOnListing(s: State, c: Call, student: Address)
    requires IndexOf(s, student)
    ensures CoursesOf(Step(s, c).courses, student) == ListingAfter(s, c, student, CoursesOf(s.courses, student))
  {
    if c.Reset? {
      var list := CoursesOf(s.courses, student);
      ExceptIsRemoval(list, c.course);
      if c.course !in list {
        NothingToRemove(list, c.course);
      }
    }
  }

  /** In every reachable state the index, and with it the listing, is in that order. */
  lemma {:induction false} IndexFollowsCalls(admin: Address, calls: seq<Call>, student: Address)
    ensures CoursesOf(Run(Initial(admin), calls).courses, student) == Listing(Initial(admin), calls, student)
    decreases |calls|
  {
    if calls != [] {
      var n := |calls| - 1;
      IndexFollowsCalls(admin, calls[..n], student);
      RunKeepsIndex(admin, calls[..n], student);
      StepOnListing(Run(Initial(admin), calls[..n]), calls[n], student);
    }
  }

  // ----- when a milestone was reached -----

  /** The time of the first accepted record at or above m, if any. */
  ghost function FirstReached(s: State, calls: seq<Call>, k: Key, m: int): Option<nat> {
    if calls == [] then None
    else
      var n := |calls| - 1;
      var earlier := FirstReached(s, calls[..n], k, m);
      if earlier.Some? then earlier
      else if Accepted(Run(s, calls[..n]), calls[n], k) && m <= calls[n].pct then Some(calls[n].now)
      else None
  }

  lemma {:induction false} AwardMembers(achieved: seq<int>, pct: int, k: nat, m: int)
    requires k <= |THRESHOLDS|
    ensures m in Award(achieved, pct, k) <==> m in achieved || (m <= pct && m in THRESHOLDS[..k])
    decreases k
  {
    if k != 0 {
      AwardMembers(achieved, pct, k - 1, m);
      assert THRESHOLDS[..k] == THRESHOLDS[..k - 1] + [THRESHOLDS[k - 1]];
    }
  }

  /** A milestone record is written exactly for the thresholds newly reached. */
  lemma {:induction false} StampMeaning(reachedAt: map<(Address, Course, int), nat>, achieved: seq<int>, key: Key,
                                        pct: int, now: nat, k: nat, x: (Address, Course, int))
    requires k <= |THRESHOLDS|
    ensures var newly := (x.0, x.1) == key && x.2 <= pct && x.2 !in achieved && x.2 in THRESHOLDS[..k];
      var after := Stamp(reachedAt, achieved, key, pct, now, k);
      && (x in after <==> x in reachedAt || newly)
      && (x in after ==> after[x] == if newly then now else reachedAt[x])
    decreases k
  {
    if k != 0 {
      StampMeaning(reachedAt, achieved, key, pct, now, k - 1, x);
      AwardMembers(achieved, pct, k - 1, THRESHOLDS[k - 1]);
      assert THRESHOLDS[..k] == THRESHOLDS[..k - 1] + [THRESHOLDS[k - 1]];
    }
  }

  lemma {:induction false} UpToMembers(h: int, k: nat, m: int)
    requires k <= |THRESHOLDS|
    ensures m in UpTo(h, k) <==> m <= h && m in THRESHOLDS[..k]
    decreases k
  {
    if k != 0 {
      UpToMembers(h, k - 1, m);
      assert THRESHOLDS[..k] == THRESHOLDS[..k - 1] + [THRESHOLDS[k - 1]];
    }
  }

  ghost predicate StampOk(admin: Address, calls: seq<Call>, k: Key, m: int) {
    var s := Run(Initial(admin), calls);
    var first := FirstReached(Initial(admin), calls, k, m);
    && (first.Some? <==> m <= Highest(Initial(admin), calls, k))
    && ((k.0, k.1, m) in s.reachedAt <==> first.Some?)
    && (first.Some? ==> s.reachedAt[(k.0, k.1, m)] == first.value)
  }

  /** A milestone carries the time at which it was first reached, whatever was
      recorded or reset afterwards. */
  lemma {:induction false} MilestonesKeepFirstTime(admin: Address, calls: seq<Call>, k: Key, m: int)
    requires m in THRESHOLDS
    ensures StampOk(admin, calls, k, m)
    decreases |calls|
  {
    Thresholds();
    if calls != [] {
      var n := |calls| - 1;
      MilestonesKeepFirstTime(admin, calls[..n], k, m);
      MilestonesFollowHighest(admin, calls[..n], k);
      UpToMembers(Highest(Initial(admin), calls[..n], k), 4, m);
      assert THRESHOLDS[..4] == THRESHOLDS;
      var s, c := Run(Initial(admin), calls[..n]), calls[n];
      if c.Record? {
        var key := (c.student, c.course);
        StampMeaning(s.reachedAt, MilestonesOf(s.milestones, key), key, c.pct, c.now, 4, (k.0, k.1, m));
      }
    }
  }
}
