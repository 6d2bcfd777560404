/** Course progress: one record per student and course, an index of each student's
    courses, and the milestones reached. */
module Analytics {
  import opened Common

  datatype Course = Course(symbol: nat)

  datatype Progress = Progress(student: Address, course: Course, pct: int, completed: bool, timestamp: nat)

  /** A student in a course. */
  type Key = (Address, Course)

  datatype State = State(admin: Address, progress: map<Key, Progress>, courses: map<Address, seq<Course>>,
                         milestones: map<Key, seq<int>>, reachedAt: map<(Address, Course, int), nat>)

  const THRESHOLDS: seq<int> := [25, 50, 75, 100]

  function Initial(admin: Address): State {
    State(admin, map[], map[], map[], map[])
  }

  function CoursesOf(courses: map<Address, seq<Course>>, student: Address): seq<Course> {
    if student in courses then courses[student] else []
  }

  function MilestonesOf(milestones: map<Key, seq<int>>, k: Key): seq<int> {
    if k in milestones then milestones[k] else []
  }

  /** The achieved list after looking at the first k thresholds. */
  function Award(achieved: seq<int>, pct: int, k: nat): seq<int>
    requires k <= |THRESHOLDS|
  {
    if k == 0 then achieved
    else
      var before := Award(achieved, pct, k - 1);
      var m := THRESHOLDS[k - 1];
      if m <= pct && m !in before then before + [m] else before
  }

  /** The milestone records after looking at the first k thresholds. */
  function Stamp(reachedAt: map<(Address, Course, int), nat>, achieved: seq<int>, key: Key, pct: int,
                 now: nat, k: nat): map<(Address, Course, int), nat>
    requires k <= |THRESHOLDS|
  {
    if k == 0 then reachedAt
    else
      var before := Stamp(reachedAt, achieved, key, pct, now, k - 1);
      var m := THRESHOLDS[k - 1];
      if m <= pct && m !in Award(achieved, pct, k - 1) then before[(key.0, key.1, m) := now] else before
  }

  function RecordSpec(s: State, caller: Address, student: Address, course: Course, pct: int,
                      now: nat): Result<(State, ())>
  {
    if !(caller == student || caller == s.admin) || !(0 <= pct <= 100) then Panic
    else
      var list := CoursesOf(s.courses, student);
      Ok((s.(progress := s.progress[(student, course) := Progress(student, course, pct, pct == 100, now)],
             courses := if course in list then s.courses else s.courses[student := list + [course]],
             milestones := s.milestones[(student, course) :=
               Award(MilestonesOf(s.milestones, (student, course)), pct, 4)],
             reachedAt := Stamp(s.reachedAt, MilestonesOf(s.milestones, (student, course)),
                                (student, course), pct, now, 4)), ()))
  }

  function ResetSpec(s: State, caller: Address, student: Address, course: Course): Result<(State, ())> {
    if caller != s.admin then Panic
    else Ok((s.(progress := s.progress - {(student, course)},
                courses := if student in s.courses && course in s.courses[student]
                           then s.courses[student := RemoveFirst(s.courses[student], course)] else s.courses), ()))
  }

  /** `caller` is who authorizes the change. */
  function SetAdminSpec(s: State, caller: Address, newAdmin: Address): Result<(State, ())> {
    if caller != s.admin then Panic else Ok((s.(admin := newAdmin), ()))
  }

  /** The records found for a list of courses, in its order. */
  function RecordsFor(progress: map<Key, Progress>, student: Address, list: seq<Course>): seq<Progress> {
    if list == [] then []
    else
      var last := list[|list| - 1];
      RecordsFor(progress, student, list[..|list| - 1])
      + (if (student, last) in progress then [progress[(student, last)]] else [])
  }

  function Min(a: int, b: int): int {
    if a < b then a else b
  }

  /** At most `limit` entries from `offset` on. */
  function Page<T>(all: seq<T>, offset: nat, limit: nat): seq<T> {
    all[Min(offset, |all|)..Min(offset + limit, |all|)]
  }

  /** What a call for a page answers: its end must be a 32-bit index. */
  function PageReply<T>(all: seq<T>, offset: nat, limit: nat): Result<seq<T>> {
    if U32_MAX < offset + limit then Panic else Ok(Page(all, offset, limit))
  }

  class AnalyticsContract {
    var admin: Address
    var progress: map<Key, Progress>
    var courses: map<Address, seq<Course>>
    var milestones: map<Key, seq<int>>
    var reachedAt: map<(Address, Course, int), nat>

    ghost function View(): State
      reads this
    {
      State(admin, progress, courses, milestones, reachedAt)
    }

    constructor (admin: Address)
      ensures View() == Initial(admin)
    {
      this.admin := admin;
      progress, courses, milestones, reachedAt := map[], map[], map[], map[];
    }

    method SetAdmin(caller: Address, newAdmin: Address) returns (r: Result<()>)
      modifies this
      ensures Refines(SetAdminSpec(old(View()), caller, newAdmin), old(View()), View(), r)
    {
      if caller != admin {
        return Panic;
      }
      admin := newAdmin;
      return Ok(());
    }

    method RecordProgress(caller: Address, student: Address, course: Course, pct: u32, now: nat)
      returns (r: Result<()>)
      modifies this
      ensures Refines(RecordSpec(old(View()), caller, student, course, pct, now), old(View()), View(), r)
    {
      if !(caller == student || caller == admin) || 100 < pct {
        return Panic;
      }
      progress := progress[(student, course) := Progress(student, course, pct, pct == 100, now)];
      var list := CoursesOf(courses, student);
      if course !in list {
        list := list + [course];
        courses := courses[student := list];
      }
      CheckMilestones(student, course, pct, now);
      return Ok(());
    }

    method CheckMilestones(student: Address, course: Course, pct: int, now: nat)
      modifies this`milestones, this`reachedAt
      ensures milestones == old(milestones)[(student, course) :=
                Award(MilestonesOf(old(milestones), (student, course)), pct, 4)]
      ensures reachedAt == Stamp(old(reachedAt), MilestonesOf(old(milestones), (student, course)),
                                 (student, course), pct, now, 4)
    {
      ghost var before := MilestonesOf(milestones, (student, course));
      var achieved := MilestonesOf(milestones, (student, course));
      for k := 0 to |THRESHOLDS|
        invariant achieved == Award(before, pct, k)
        invariant reachedAt == Stamp(old(reachedAt), before, (student, course), pct, now, k)
        invariant milestones == old(milestones)
      {
        var milestone := THRESHOLDS[k];
        if pct >= milestone && milestone !in achieved {
          achieved := achieved + [milestone];
          reachedAt := reachedAt[(student, course, milestone) := now];
        }
      }
      milestones := milestones[(student, course) := achieved];
    }

    method ResetProgress(caller: Address, student: Address, course: Course) returns (r: Result<()>)
      modifies this
      ensures Refines(ResetSpec(old(View()), caller, student, course), old(View()), View(), r)
    {
      if caller != admin {
        return Panic;
      }
      progress := progress - {(student, course)};
      if student in courses {
        var list := courses[student];
        var pos := 0;
        while pos < |list| && list[pos] != course
          invariant pos <= |list| && course !in list[..pos]
          invariant RemoveFirst(list, course) == list[..pos] + RemoveFirst(list[pos..], course)
        {
          assert list[pos..][1..] == list[pos + 1..];
          assert list[..pos + 1] == list[..pos] + [list[pos]];
          pos := pos + 1;
        }
        if pos < |list| {
          assert list[pos..][1..] == list[pos + 1..];
          courses := courses[student := list[..pos] + list[pos + 1..]];
        } else {
          assert list[..pos] == list;
        }
      }
      return Ok(());
    }

    method GetAllProgress(student: Address) returns (results: seq<Progress>)
      ensures results == RecordsFor(progress, student, CoursesOf(courses, student))
    {
      results := [];
      var list := CoursesOf(courses, student);
      for i := 0 to |list|
        invariant results == RecordsFor(progress, student, list[..i])
      {
        assert list[..i + 1][..i] == list[..i];
        if (student, list[i]) in progress {
          results := results + [progress[(student, list[i])]];
        }
      }
      assert list[..|list|] == list;
    }

    /** The end index is computed in 32-bit machine integers and can overflow. */
    method GetProgressPaginated(student: Address, offset: u32, limit: u32) returns (r: Result<seq<Progress>>)
      ensures r == PageReply(RecordsFor(progress, student, CoursesOf(courses, student)), offset, limit)
    {
      var all := GetAllProgress(student);
      var result: seq<Progress> := [];
      if U32_MAX < offset + limit {
        return Panic;
      }
      var end := Min(offset + limit, |all|);
      if offset < |all| {
        for i := offset to end
          invariant result == all[offset..i]
        {
          result := result + [all[i]];
        }
      }
      assert result == Page(all, offset, limit);
      return Ok(result);
    }
  }
}
