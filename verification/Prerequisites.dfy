/** Course prerequisites: the table of direct prerequisites, the breadth-first
    chain over a possibly cyclic graph, and the completion checks. */
module Prerequisites {
  import opened Common

  /** One row: taking `courseId` requires `prerequisiteId`. The table has a unique
      constraint on the pair. */
  datatype Prerequisite = Prerequisite(courseId: string, prerequisiteId: string)

  type Table = seq<Prerequisite>

  /** The prerequisite ids the query for a course returns, in row order. */
  function Direct(rows: Table, course: string): seq<string> {
    if rows == [] then []
    else
      var last := rows[|rows| - 1];
      Direct(rows[..|rows| - 1], course) + (if last.courseId == course then [last.prerequisiteId] else [])
  }

  lemma {:induction false} DirectIsRows(rows: Table, course: string, p: string)
    ensures p in Direct(rows, course) <==> Prerequisite(course, p) in rows
    ensures multiset(Direct(rows, course))[p] == multiset(rows)[Prerequisite(course, p)]
    decreases |rows|
  {
    if rows != [] {
      var n := |rows| - 1;
      assert rows == rows[..n] + [rows[n]];
      DirectIsRows(rows[..n], course, p);
    }
  }

  /** The ids come in row order: those of earlier rows before those of later ones. */
  lemma {:induction false} DirectKeepsOrder(rows: Table, more: Table, course: string)
    ensures Direct(rows + more, course) == Direct(rows, course) + Direct(more, course)
    decreases |more|
  {
    if more == [] {
      assert rows + more == rows;
    } else {
      var n := |more| - 1;
      assert (rows + more)[..|rows| + n] == rows + more[..n];
      DirectKeepsOrder(rows, more[..n], course);
    }
  }

  // ----- reachability -----

  /** A walk along prerequisite rows. */
  ghost predicate Path(rows: Table, p: seq<string>) {
    p != [] && forall i :: 0 <= i < |p| - 1 ==> Prerequisite(p[i], p[i + 1]) in rows
  }

  /** Some walk of at most n rows leads from one course to the other. */
  ghost predicate Within(rows: Table, from: string, to: string, n: nat) {
    exists p :: Path(rows, p) && p[0] == from && p[|p| - 1] == to && |p| <= n + 1
  }

  ghost predicate Reaches(rows: Table, from: string, to: string) {
    exists p :: Path(rows, p) && p[0] == from && p[|p| - 1] == to
  }

  lemma WithinZero(rows: Table, from: string, to: string)
    ensures Within(rows, from, to, 0) <==> from == to
  {
    if from == to {
      assert Path(rows, [from]) && [from][0] == from;
    }
  }

  lemma WithinMonotone(rows: Table, from: string, to: string, n: nat, m: nat)
    requires n <= m && Within(rows, from, to, n)
    ensures Within(rows, from, to, m)
  {
  }

  lemma WithinStep(rows: Table, from: string, via: string, to: string, n: nat)
    requires Within(rows, from, via, n) && Prerequisite(via, to) in rows
    ensures Within(rows, from, to, n + 1)
  {
    var p :| Path(rows, p) && p[0] == from && p[|p| - 1] == via && |p| <= n + 1;
    var q := p + [to];
    assert Path(rows, q) && q[0] == from && q[|q| - 1] == to;
  }

  /** A walk of at most n + 1 rows is one of at most n rows, or its last row leaves
      a course within n. */
  lemma WithinLast(rows: Table, from: string, to: string, n: nat) returns (via: string)
    requires Within(rows, from, to, n + 1) && !Within(rows, from, to, n)
    ensures Within(rows, from, via, n) && Prerequisite(via, to) in rows
  {
    var p :| Path(rows, p) && p[0] == from && p[|p| - 1] == to && |p| <= n + 2;
    assert |p| == n + 2;
    var q := p[..n + 1];
    via := q[n];
    assert Path(rows, q) && q[0] == from && q[|q| - 1] == via;
    assert Prerequisite(p[n], p[n + 1]) in rows;
  }

  lemma ReachesIsWithin(rows: Table, from: string, to: string)
    ensures Reaches(rows, from, to) <==> exists n: nat :: Within(rows, from, to, n)
  {
    if Reaches(rows, from, to) {
      var p :| Path(rows, p) && p[0] == from && p[|p| - 1] == to;
      assert Within(rows, from, to, |p|);
    }
  }

  ghost function Least(rows: Table, from: string, to: string, n: nat): (m: nat)
    requires Within(rows, from, to, n)
    ensures Within(rows, from, to, m) && m <= n
    ensures forall k: nat :: Within(rows, from, to, k) ==> m <= k
  {
    if n == 0 then 0
    else if Within(rows, from, to, n - 1) then Least(rows, from, to, n - 1)
    else n
  }

  /** How many rows the shortest walk to a reachable course takes. */
  ghost function Distance(rows: Table, from: string, to: string): (n: nat)
    requires Reaches(rows, from, to)
    ensures forall k: nat :: Within(rows, from, to, k) <==> n <= k
  {
    ReachesIsWithin(rows, from, to);
    var k: nat :| Within(rows, from, to, k);
    Least(rows, from, to, k)
  }

  // ----- what the breadth-first loop maintains -----

  /** Nearer courses come first. */
  ghost predicate ByDistance(rows: Table, start: string, order: seq<string>) {
    forall i, j, n: nat :: 0 <= i < j < |order| && Within(rows, start, order[j], n) ==> Within(rows, start, order[i], n)
  }

  /** The order never goes back to a smaller distance from the start. */
  ghost predicate NearestFirst(rows: Table, start: string, order: seq<string>)
    requires forall c :: c in order ==> Reaches(rows, start, c)
  {
    forall i, j :: 0 <= i < j < |order| ==> Distance(rows, start, order[i]) <= Distance(rows, start, order[j])
  }

  lemma ByDistanceIsNearestFirst(rows: Table, start: string, order: seq<string>)
    requires forall c :: c in order ==> Reaches(rows, start, c)
    ensures ByDistance(rows, start, order) <==> NearestFirst(rows, start, order)
  {
    if ByDistance(rows, start, order) {
      forall i, j | 0 <= i < j < |order|
        ensures Distance(rows, start, order[i]) <= Distance(rows, start, order[j])
      {
        assert Within(rows, start, order[j], Distance(rows, start, order[j]));
      }
    }
    if NearestFirst(rows, start, order) {
      forall i, j, n: nat | 0 <= i < j < |order| && Within(rows, start, order[j], n)
        ensures Within(rows, start, order[i], n)
      {
        assert Distance(rows, start, order[i]) <= Distance(rows, start, order[j]) <= n;
      }
    }
  }

  /** The first k queue entries are within d rows, the others within d + 1. */
  ghost predicate Layered(rows: Table, start: string, queue: seq<string>, d: nat, k: nat) {
    && k <= |queue|
    && (forall i :: 0 <= i < k ==> Within(rows, start, queue[i], d))
    && (forall i :: k <= i < |queue| ==> Within(rows, start, queue[i], d + 1))
  }

  /** Nothing in reach is forgotten: the visited courses lie within d rows, those
      nearer than d are all visited, those within d are visited or among the first k
      entries, and every prerequisite of a visited course is visited or queued. */
  ghost predicate Frontier(rows: Table, start: string, visited: set<string>, queue: seq<string>, d: nat, k: nat) {
    && (forall c :: c in visited ==> Within(rows, start, c, d))
    && (forall c :: 0 < d && Within(rows, start, c, d - 1) ==> c in visited)
    && k <= |queue|
    && (forall c :: Within(rows, start, c, d) ==> c in visited || c in queue[..k])
    && (forall c, p :: c in visited && Prerequisite(c, p) in rows ==> p in visited || p in queue)
  }

  lemma FrontierStart(rows: Table, start: string)
    ensures Layered(rows, start, [start], 0, 1) && Frontier(rows, start, {}, [start], 0, 1)
  {
    WithinZero(rows, start, start);
    assert [start][..1] == [start];
    forall c | Within(rows, start, c, 0)
      ensures c in [start][..1]
    {
      WithinZero(rows, start, c);
    }
  }

  /** When the first layer is used up the next one is complete. */
  lemma NextLayer(rows: Table, start: string, visited: set<string>, queue: seq<string>, d: nat)
    requires Layered(rows, start, queue, d, 0) && Frontier(rows, start, visited, queue, d, 0)
    ensures Layered(rows, start, queue, d + 1, |queue|) && Frontier(rows, start, visited, queue, d + 1, |queue|)
  {
    assert queue[..|queue|] == queue;
    forall c | Within(rows, start, c, d + 1)
      ensures c in visited || c in queue
    {
      if !Within(rows, start, c, d) {
        var via := WithinLast(rows, start, c, d);
        assert via in visited;
      }
    }
    forall c | c in visited
      ensures Within(rows, start, c, d + 1)
    {
      WithinMonotone(rows, start, c, d, d + 1);
    }
  }

  /** Dropping an entry that was visited already loses nothing. */
  lemma SkipVisited(rows: Table, start: string, visited: set<string>, queue: seq<string>, d: nat, k: nat)
    requires 0 < k && Layered(rows, start, queue, d, k) && Frontier(rows, start, visited, queue, d, k)
    requires queue[0] in visited
    ensures Layered(rows, start, queue[1..], d, k - 1) && Frontier(rows, start, visited, queue[1..], d, k - 1)
  {
    assert queue == [queue[0]] + queue[1..];
    assert queue[..k] == [queue[0]] + queue[1..][..k - 1];
  }

  /** Visiting the first entry and queueing its unvisited prerequisites. */
  lemma VisitFirst(rows: Table, start: string, visited: set<string>, queue: seq<string>, d: nat, k: nat,
                   pushed: seq<string>)
    requires 0 < k && Layered(rows, start, queue, d, k) && Frontier(rows, start, visited, queue, d, k)
    requires forall p :: p in pushed <==> Prerequisite(queue[0], p) in rows && p !in visited + {queue[0]}
    ensures Layered(rows, start, queue[1..] + pushed, d, k - 1)
    ensures Frontier(rows, start, visited + {queue[0]}, queue[1..] + pushed, d, k - 1)
  {
    var current := queue[0];
    var rest := queue[1..] + pushed;
    assert queue == [current] + queue[1..];
    assert queue[..k] == [current] + queue[1..][..k - 1];
    assert rest[..k - 1] == queue[1..][..k - 1];
    forall i | k - 1 <= i < |rest|
      ensures Within(rows, start, rest[i], d + 1)
    {
      if |queue| - 1 <= i {
        assert rest[i] in pushed;
        WithinStep(rows, start, current, rest[i], d);
      }
    }
    forall c, p | c in visited + {current} && Prerequisite(c, p) in rows
      ensures p in visited + {current} || p in rest
    {
      if c in visited && p !in visited && p != current {
        assert p in queue;
        assert p in queue[1..];
      }
    }
  }

  /** The next course visited is no nearer than any visited before. */
  lemma VisitKeepsDistanceOrder(rows: Table, start: string, visited: set<string>, queue: seq<string>,
                                d: nat, k: nat, order: seq<string>)
    requires 0 < k && Layered(rows, start, queue, d, k) && Frontier(rows, start, visited, queue, d, k)
    requires queue[0] !in visited && (forall c :: c in order <==> c in visited)
    requires ByDistance(rows, start, order)
    ensures ByDistance(rows, start, order + [queue[0]])
  {
    var longer := order + [queue[0]];
    forall i, j, n: nat | 0 <= i < j < |longer| && Within(rows, start, longer[j], n)
      ensures Within(rows, start, longer[i], n)
    {
      if j == |order| {
        assert d <= n;
        assert longer[i] in visited;
        WithinMonotone(rows, start, longer[i], d, n);
      }
    }
  }

  ghost function AllCourses(rows: Table, start: string): set<string> {
    {start} + set r | r in rows :: r.prerequisiteId
  }

  /** What the loop has written so far. */
  ghost predicate Recorded(rows: Table, start: string, chain: map<string, seq<string>>, order: seq<string>,
                           visited: set<string>, queue: seq<string>)
  {
    && visited <= AllCourses(rows, start) && (forall c :: c in queue ==> c in AllCourses(rows, start))
    && visited == chain.Keys && (forall c :: c in chain ==> chain[c] == Direct(rows, c))
    && NoDuplicates(order) && (forall c :: c in order <==> c in visited)
    && (start in visited || queue == [start])
  }

  /** How far the loop has explored. */
  ghost predicate Explored(rows: Table, start: string, order: seq<string>, visited: set<string>, queue: seq<string>) {
    && ByDistance(rows, start, order)
    && exists d: nat, k: nat :: Layered(rows, start, queue, d, k) && Frontier(rows, start, visited, queue, d, k)
  }

  /** A nonempty queue can be read with a nonempty first layer. */
  lemma FirstLayer(rows: Table, start: string, visited: set<string>, queue: seq<string>, d: nat, k: nat)
    returns (d': nat, k': nat)
    requires queue != [] && Layered(rows, start, queue, d, k) && Frontier(rows, start, visited, queue, d, k)
    ensures 0 < k' && Layered(rows, start, queue, d', k') && Frontier(rows, start, visited, queue, d', k')
  {
    d', k' := d, k;
    if k == 0 {
      NextLayer(rows, start, visited, queue, d);
      d', k' := d + 1, |queue|;
    }
  }

  lemma ExploredSkip(rows: Table, start: string, order: seq<string>, visited: set<string>, queue: seq<string>)
    requires queue != [] && Explored(rows, start, order, visited, queue) && queue[0] in visited
    ensures Explored(rows, start, order, visited, queue[1..])
  {
    var d: nat, k: nat :| Layered(rows, start, queue, d, k) && Frontier(rows, start, visited, queue, d, k);
    d, k := FirstLayer(rows, start, visited, queue, d, k);
    SkipVisited(rows, start, visited, queue, d, k);
  }

  lemma ExploredVisit(rows: Table, start: string, order: seq<string>, visited: set<string>, queue: seq<string>,
                      pushed: seq<string>)
    requires queue != [] && Explored(rows, start, order, visited, queue) && queue[0] !in visited
    requires forall c :: c in order <==> c in visited
    requires forall p :: p in pushed <==> p in Direct(rows, queue[0]) && p !in visited + {queue[0]}
    ensures Explored(rows, start, order + [queue[0]], visited + {queue[0]}, queue[1..] + pushed)
  {
    var d: nat, k: nat :| Layered(rows, start, queue, d, k) && Frontier(rows, start, visited, queue, d, k);
    d, k := FirstLayer(rows, start, visited, queue, d, k);
    forall p
      ensures p in Direct(rows, queue[0]) <==> Prerequisite(queue[0], p) in rows
    {
      DirectIsRows(rows, queue[0], p);
    }
    VisitKeepsDistanceOrder(rows, start, visited, queue, d, k, order);
    VisitFirst(rows, start, visited, queue, d, k, pushed);
  }

  lemma RecordedSkip(rows: Table, start: string, chain: map<string, seq<string>>, order: seq<string>,
                     visited: set<string>, queue: seq<string>)
    requires queue != [] && Recorded(rows, start, chain, order, visited, queue) && queue[0] in visited
    ensures Recorded(rows, start, chain, order, visited, queue[1..])
  {
  }

  lemma RecordedVisit(rows: Table, start: string, chain: map<string, seq<string>>, order: seq<string>,
                      visited: set<string>, queue: seq<string>, pushed: seq<string>)
    requires queue != [] && Recorded(rows, start, chain, order, visited, queue) && queue[0] !in visited
    requires forall p :: p in pushed ==> p in Direct(rows, queue[0])
    ensures queue[0] in AllCourses(rows, start) - visited
    ensures Recorded(rows, start, chain[queue[0] := Direct(rows, queue[0])], order + [queue[0]],
                     visited + {queue[0]}, queue[1..] + pushed)
  {
    var current := queue[0];
    forall p | p in Direct(rows, current)
      ensures p in AllCourses(rows, start)
    {
      DirectIsRows(rows, current, p);
    }
    assert current in AllCourses(rows, start);
  }

  /** With an empty queue, exactly the reachable courses have been visited. */
  lemma EmptyQueueMeansDone(rows: Table, start: string, order: seq<string>, visited: set<string>)
    requires Explored(rows, start, order, visited, []) && start in visited
    ensures forall c :: c in visited <==> Reaches(rows, start, c)
  {
    var d: nat, k: nat :| Layered(rows, start, [], d, k) && Frontier(rows, start, visited, [], d, k);
    forall c
      ensures c in visited <==> Reaches(rows, start, c)
    {
      if Reaches(rows, start, c) {
        var p :| Path(rows, p) && p[0] == start && p[|p| - 1] == c;
        ClosedUnderPaths(rows, visited, p);
      }
    }
  }

  lemma {:induction false} ClosedUnderPaths(rows: Table, visited: set<string>, p: seq<string>)
    requires Path(rows, p) && p[0] in visited
    requires forall c, q :: c in visited && Prerequisite(c, q) in rows ==> q in visited
    ensures p[|p| - 1] in visited
    decreases |p|
  {
    if 1 < |p| {
      assert Prerequisite(p[0], p[1]) in rows;
      ClosedUnderPaths(rows, visited, p[1..]);
    }
  }

  /** Taking out one row of a duplicate-free table takes that row out altogether. */
  lemma RemoveOne(rows: Table, i: nat)
    requires i < |rows| && NoDuplicates(rows)
    ensures var rest := rows[..i] + rows[i + 1..];
      && NoDuplicates(rest) && rows[i] !in rest && (forall r :: r in rest ==> r in rows)
      && multiset(rest) == multiset(rows) - multiset{rows[i]}
      && (i == |rows| - 1 ==> rest == rows[..i])
  {
    assert rows == rows[..i] + ([rows[i]] + rows[i + 1..]);
    var rest := rows[..i] + rows[i + 1..];
    forall j | 0 <= j < |rest|
      ensures rest[j] != rows[i] && rest[j] in rows
    {
      assert rest[j] == if j < i then rows[j] else rows[j + 1];
    }
  }

  // ----- completion checks -----

  /** One enrollment of a user; the table is unique on user and course. */
  datatype Enrollment = Enrollment(userId: string, courseId: string, completed: bool)

  ghost predicate UniqueEnrollments(es: seq<Enrollment>) {
    forall i, j :: 0 <= i < j < |es| ==> es[i].userId != es[j].userId || es[i].courseId != es[j].courseId
  }

  function OfUser(es: seq<Enrollment>, user: string): seq<Enrollment> {
    if es == [] then []
    else
      var last := es[|es| - 1];
      OfUser(es[..|es| - 1], user) + (if last.userId == user then [last] else [])
  }

  lemma {:induction false} OfUserIsFilter(es: seq<Enrollment>, user: string, e: Enrollment)
    ensures e in OfUser(es, user) <==> e in es && e.userId == user
    decreases |es|
  {
    if es != [] {
      var n := |es| - 1;
      assert es == es[..n] + [es[n]];
      OfUserIsFilter(es[..n], user, e);
    }
  }

  function CompletedCourses(es: seq<Enrollment>): set<string> {
    set e | e in es && e.completed :: e.courseId
  }

  function Without(s: seq<string>, gone: set<string>): seq<string> {
    if s == [] then []
    else
      var last := s[|s| - 1];
      Without(s[..|s| - 1], gone) + (if last in gone then [] else [last])
  }

  datatype Validation = Validation(satisfied: bool, missing: seq<string>)

  function Validate(rows: Table, es: seq<Enrollment>, user: string, course: string, adminOverride: bool): Validation {
    var prereqs := Direct(rows, course);
    if adminOverride || prereqs == [] then Validation(true, [])
    else
      var missing := Without(prereqs, CompletedCourses(OfUser(es, user)));
      Validation(missing == [], missing)
  }

  ghost predicate HasCompleted(es: seq<Enrollment>, user: string, course: string) {
    Enrollment(user, course, true) in es
  }

  ghost predicate Lacking(rows: Table, es: seq<Enrollment>, user: string, course: string, p: string) {
    Prerequisite(course, p) in rows && !HasCompleted(es, user, p)
  }

  lemma {:induction false} WithoutIsFilter(s: seq<string>, gone: set<string>, x: string)
    ensures x in Without(s, gone) <==> x in s && x !in gone
    ensures Without(s, gone) == [] <==> forall y :: y in s ==> y in gone
    decreases |s|
  {
    if s != [] {
      var n := |s| - 1;
      assert s == s[..n] + [s[n]];
      WithoutIsFilter(s[..n], gone, x);
    }
  }

  lemma {:induction false} WithoutCounts(s: seq<string>, gone: set<string>, x: string)
    ensures multiset(Without(s, gone))[x] == if x in gone then 0 else multiset(s)[x]
    decreases |s|
  {
    if s != [] {
      var n := |s| - 1;
      assert s == s[..n] + [s[n]];
      WithoutCounts(s[..n], gone, x);
    }
  }

  lemma {:induction false} WithoutKeepsOrder(s: seq<string>, t: seq<string>, gone: set<string>)
    ensures Without(s + t, gone) == Without(s, gone) + Without(t, gone)
    decreases |t|
  {
    if t == [] {
      assert s + t == s;
    } else {
      var n := |t| - 1;
      assert (s + t)[..|s| + n] == s + t[..n];
      WithoutKeepsOrder(s, t[..n], gone);
    }
  }

  /** A user passes exactly when overridden or when every direct prerequisite is
      completed, and the missing ones are exactly those that are not. */
  lemma ValidationIsExact(rows: Table, es: seq<Enrollment>, user: string, course: string, adminOverride: bool)
    ensures var v := Validate(rows, es, user, course, adminOverride);
      && (adminOverride ==> v == Validation(true, []))
      && (v.satisfied <==> v.missing == [])
      && (!adminOverride ==> forall p :: p in v.missing <==> Lacking(rows, es, user, course, p))
      && (!adminOverride ==> (v.satisfied <==> forall p :: !Lacking(rows, es, user, course, p)))
  {
    var done := CompletedCourses(OfUser(es, user));
    forall p
      ensures p in Direct(rows, course) <==> Prerequisite(course, p) in rows
      ensures p in done <==> HasCompleted(es, user, p)
      ensures p in Without(Direct(rows, course), done) <==> p in Direct(rows, course) && p !in done
    {
      DirectIsRows(rows, course, p);
      CompletedIsInSet(es, user, p);
      WithoutIsFilter(Direct(rows, course), done, p);
    }
    WithoutIsFilter(Direct(rows, course), done, course);
  }

  /** A missing prerequisite is listed as often as the table has its row: once, under
      the unique constraint. */
  lemma MissingIsListedOnce(rows: Table, es: seq<Enrollment>, user: string, course: string, p: string)
    requires NoDuplicates(rows) && Lacking(rows, es, user, course, p)
    ensures multiset(Validate(rows, es, user, course, false).missing)[p] == 1
  {
    var done := CompletedCourses(OfUser(es, user));
    DirectIsRows(rows, course, p);
    CompletedIsInSet(es, user, p);
    WithoutCounts(Direct(rows, course), done, p);
    OccursOnce(rows, Prerequisite(course, p));
  }

  lemma OccursOnce(rows: Table, row: Prerequisite)
    requires NoDuplicates(rows) && row in rows
    ensures multiset(rows)[row] == 1
  {
    var i :| 0 <= i < |rows| && rows[i] == row;
    RemoveOne(rows, i);
    assert row !in multiset(rows[..i] + rows[i + 1..]);
  }

  lemma CompletedIsInSet(es: seq<Enrollment>, user: string, course: string)
    ensures course in CompletedCourses(OfUser(es, user)) <==> HasCompleted(es, user, course)
  {
    if course in CompletedCourses(OfUser(es, user)) {
      var e :| e in OfUser(es, user) && e.completed && e.courseId == course;
      OfUserIsFilter(es, user, e);
      assert e == Enrollment(user, course, true);
    }
    OfUserIsFilter(es, user, Enrollment(user, course, true));
  }

  /** A map from course to enrollment, later rows replacing earlier ones. */
  function EnrollmentMap(es: seq<Enrollment>): map<string, Enrollment> {
    if es == [] then map[]
    else
      var last := es[|es| - 1];
      EnrollmentMap(es[..|es| - 1])[last.courseId := last]
  }

  datatype StatusEntry = StatusEntry(courseId: string, completed: bool, enrolled: bool)

  datatype Status = Status(allSatisfied: bool, prerequisites: seq<StatusEntry>)

  function StatusOf(rows: Table, es: seq<Enrollment>, user: string, course: string): Status {
    var prereqs := Direct(rows, course);
    var byCourse := EnrollmentMap(OfUser(es, user));
    var entries := seq(|prereqs|, i requires 0 <= i < |prereqs| =>
      StatusEntry(prereqs[i],
                  prereqs[i] in byCourse && byCourse[prereqs[i]].completed,
                  prereqs[i] in byCourse));
    Status(forall e :: e in entries ==> e.completed, entries)
  }

  lemma {:induction false} EnrollmentMapIsLookup(es: seq<Enrollment>, course: string)
    ensures var m := EnrollmentMap(es);
      && (course in m <==> exists e :: e in es && e.courseId == course)
      && (course in m ==> m[course] in es && m[course].courseId == course)
    decreases |es|
  {
    if es != [] {
      var n := |es| - 1;
      assert es == es[..n] + [es[n]];
      EnrollmentMapIsLookup(es[..n], course);
    }
  }

  /** With one enrollment per user and course, the status view agrees with the
      validation: the same verdict, and an entry is incomplete exactly when missing.
      An entry shows as enrolled exactly when the user is. */
  lemma StatusAgreesWithValidation(rows: Table, es: seq<Enrollment>, user: string, course: string)
    requires UniqueEnrollments(es)
    ensures var status, v := StatusOf(rows, es, user, course), Validate(rows, es, user, course, false);
      && status.allSatisfied == v.satisfied
      && |status.prerequisites| == |Direct(rows, course)|
      && (forall i :: 0 <= i < |status.prerequisites| ==>
            && status.prerequisites[i].courseId == Direct(rows, course)[i]
            && (status.prerequisites[i].completed <==> status.prerequisites[i].courseId !in v.missing)
            && (status.prerequisites[i].enrolled <==> IsEnrolled(es, user, status.prerequisites[i].courseId)))
  {
    var prereqs := Direct(rows, course);
    var status := StatusOf(rows, es, user, course);
    ValidationIsExact(rows, es, user, course, false);
    forall i | 0 <= i < |prereqs|
      ensures status.prerequisites[i].completed <==> !Lacking(rows, es, user, course, prereqs[i])
      ensures status.prerequisites[i].enrolled <==> IsEnrolled(es, user, prereqs[i])
    {
      LookupIsCompletion(es, user, prereqs[i]);
      LookupIsEnrollment(es, user, prereqs[i]);
      DirectIsRows(rows, course, prereqs[i]);
    }
    if status.allSatisfied {
      forall p | Prerequisite(course, p) in rows
        ensures !Lacking(rows, es, user, course, p)
      {
        DirectIsRows(rows, course, p);
        var i :| 0 <= i < |prereqs| && prereqs[i] == p;
        assert status.prerequisites[i] in status.prerequisites;
      }
    }
  }

  ghost predicate IsEnrolled(es: seq<Enrollment>, user: string, course: string) {
    exists e :: e in es && e.userId == user && e.courseId == course
  }

  lemma LookupIsEnrollment(es: seq<Enrollment>, user: string, course: string)
    ensures course in EnrollmentMap(OfUser(es, user)) <==> IsEnrolled(es, user, course)
  {
    EnrollmentMapIsLookup(OfUser(es, user), course);
    forall e
      ensures e in OfUser(es, user) <==> e in es && e.userId == user
    {
      OfUserIsFilter(es, user, e);
    }
  }

  lemma LookupIsCompletion(es: seq<Enrollment>, user: string, course: string)
    requires UniqueEnrollments(es)
    ensures var m := EnrollmentMap(OfUser(es, user));
      course in m && m[course].completed <==> HasCompleted(es, user, course)
  {
    var m := EnrollmentMap(OfUser(es, user));
    EnrollmentMapIsLookup(OfUser(es, user), course);
    var e := Enrollment(user, course, true);
    OfUserIsFilter(es, user, e);
    if course in m {
      OfUserIsFilter(es, user, m[course]);
    }
  }

  // ----- the service -----

  datatype Reply<+T> = Done(value: T) | BadRequest | NotFound | Conflict

  class PrerequisitesService {
    var rows: Table
    /** The ids of the courses that are not deleted. */
    var courses: set<string>

    constructor (courses: set<string>)
      ensures rows == [] && this.courses == courses
    {
      rows := [];
      this.courses := courses;
    }

    /** The table constraint, and the one check the service makes itself. */
    ghost predicate Valid()
      reads this
    {
      NoDuplicates(rows) && forall r :: r in rows ==> r.courseId != r.prerequisiteId
    }

    method AddPrerequisite(course: string, prerequisite: string) returns (r: Reply<Prerequisite>)
      requires Valid()
      modifies this`rows
      ensures Valid()
      ensures r.BadRequest? <==> course == prerequisite
      ensures r.NotFound? <==> course != prerequisite && (course !in courses || prerequisite !in courses)
      ensures r.Conflict? <==> && course != prerequisite && course in courses && prerequisite in courses
                               && prerequisite in Direct(old(rows), course)
      ensures r.Done? ==> r.value == Prerequisite(course, prerequisite) && rows == old(rows) + [r.value]
      ensures !r.Done? ==> rows == old(rows)
    {
      if course == prerequisite {
        return BadRequest;
      }
      if course !in courses || prerequisite !in courses {
        return NotFound;
      }
      DirectIsRows(rows, course, prerequisite);
      var row := Prerequisite(course, prerequisite);
      if row in rows {
        return Conflict;
      }
      rows := rows + [row];
      return Done(row);
    }

    method FindRow(row: Prerequisite) returns (i: nat)
      ensures (i < |rows| && rows[i] == row) || (i == |rows| && row !in rows)
    {
      i := 0;
      while i < |rows| && rows[i] != row
        invariant i <= |rows| && forall j :: 0 <= j < i ==> rows[j] != row
      {
        i := i + 1;
      }
    }

    method RemovePrerequisite(course: string, prerequisite: string) returns (r: Reply<()>)
      requires Valid()
      modifies this`rows
      ensures Valid()
      ensures r == if prerequisite in Direct(old(rows), course) then Done(()) else NotFound
      ensures prerequisite !in Direct(rows, course)
      ensures multiset(rows) == multiset(old(rows)) - multiset{Prerequisite(course, prerequisite)}
      ensures var n := |old(rows)|;
        0 < n && old(rows)[n - 1] == Prerequisite(course, prerequisite) ==> rows == old(rows)[..n - 1]
    {
      var row := Prerequisite(course, prerequisite);
      DirectIsRows(rows, course, prerequisite);
      var i := FindRow(row);
      if i == |rows| {
        return NotFound;
      }
      RemoveOne(rows, i);
      rows := rows[..i] + rows[i + 1..];
      DirectIsRows(rows, course, prerequisite);
      return Done(());
    }

    /** The full chain, breadth first. `order` is the insertion order of the keys. */
    method GetPrerequisiteChain(course: string) returns (chain: map<string, seq<string>>, order: seq<string>)
      ensures forall c :: c in chain <==> Reaches(rows, course, c)
      ensures forall c :: c in chain ==> chain[c] == Direct(rows, c)
      ensures NoDuplicates(order) && (forall c :: c in order <==> c in chain)
      ensures NearestFirst(rows, course, order)
    {
      chain, order := map[], [];
      var queue := [course];
      var visited: set<string> := {};
      FrontierStart(rows, course);
      while queue != []
        invariant Recorded(rows, course, chain, order, visited, queue)
        invariant Explored(rows, course, order, visited, queue)
        decreases AllCourses(rows, course) - visited, |queue|
      {
        var current := queue[0];
        if current in visited {
          RecordedSkip(rows, course, chain, order, visited, queue);
          ExploredSkip(rows, course, order, visited, queue);
          queue := queue[1..];
        } else {
          var prereqs := Direct(rows, current);
          var pushed := PushUnvisited(prereqs, visited + {current});
          forall p
            ensures p in pushed <==> p in prereqs && p !in visited + {current}
          {
            WithoutIsFilter(prereqs, visited + {current}, p);
          }
          RecordedVisit(rows, course, chain, order, visited, queue, pushed);
          ExploredVisit(rows, course, order, visited, queue, pushed);
          visited := visited + {current};
          chain, order := chain[current := prereqs], order + [current];
          queue := queue[1..] + pushed;
        }
      }
      EmptyQueueMeansDone(rows, course, order, visited);
      ByDistanceIsNearestFirst(rows, course, order);
    }

    /** The inner loop: the prerequisites to push, in order. */
    method PushUnvisited(prereqs: seq<string>, visited: set<string>) returns (pushed: seq<string>)
      ensures pushed == Without(prereqs, visited)
    {
      pushed := [];
      for i := 0 to |prereqs|
        invariant pushed == Without(prereqs[..i], visited)
      {
        assert prereqs[..i + 1][..i] == prereqs[..i];
        if prereqs[i] !in visited {
          pushed := pushed + [prereqs[i]];
        }
      }
      assert prereqs[..|prereqs|] == prereqs;
    }
  }
}
