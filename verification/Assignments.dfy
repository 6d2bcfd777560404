/** Circular peer-review assignment: everybody reviews the three submissions after
    their own, around the circle of submissions. */
module Assignments {
  import opened Common

  /** A database id: only equality matters. */
  datatype Id = Id(key: nat)

  /** A submission of an assignment; its table is unique on assignment and user. */
  datatype Submission = Submission(id: Id, userId: Id)

  datatype Pair = Pair(reviewerId: Id, submissionId: Id)

  ghost predicate Distinct(subs: seq<Submission>) {
    forall i, j :: 0 <= i < j < |subs| ==> subs[i].id != subs[j].id && subs[i].userId != subs[j].userId
  }

  /** Where the circle of n leads from i, and from where it leads to j. */
  function Forward(i: nat, offset: nat, n: nat): (j: nat)
    requires i < n && offset <= n
    ensures j < n
  {
    if i + offset < n then i + offset else i + offset - n
  }

  function Backward(j: nat, offset: nat, n: nat): (i: nat)
    requires j < n && 0 < offset <= n
    ensures i < n && Forward(i, offset, n) == j
  {
    if offset <= j then j - offset else j + n - offset
  }

  /** The review that author i gives at an offset along the circle. */
  function PairAt(subs: seq<Submission>, i: nat, offset: nat): Pair
    requires i < |subs| && offset <= |subs|
  {
    Pair(subs[i].userId, subs[Forward(i, offset, |subs|)].id)
  }

  /** The reviews of the first m authors. */
  function PairsUpTo(subs: seq<Submission>, m: nat): seq<Pair>
    requires m <= |subs| && 3 <= |subs|
  {
    if m == 0 then []
    else PairsUpTo(subs, m - 1) + [PairAt(subs, m - 1, 1), PairAt(subs, m - 1, 2), PairAt(subs, m - 1, 3)]
  }

  function CircularPairs(subs: seq<Submission>): seq<Pair>
    requires 3 <= |subs|
  {
    PairsUpTo(subs, |subs|)
  }

  /** A step around the circle is addition modulo its size. */
  lemma ForwardIsModular(i: nat, offset: nat, n: nat)
    requires i < n && offset <= n
    ensures (i + offset) % n == Forward(i, offset, n)
  {
    Remainder(i + offset, if i + offset < n then 0 else 1, n, Forward(i, offset, n));
  }

  lemma Remainder(x: int, q: int, n: int, r: int)
    requires x == q * n + r && 0 <= r < n
    ensures x % n == r
  {
    var q' := x / n;
    assert x == q' * n + x % n;
    if q' < q {
      MulMono(q' + 1, q, n);
    } else if q < q' {
      MulMono(q + 1, q', n);
    }
  }

  /** The nested loops of the service. */
  method AssignCircularly(subs: seq<Submission>) returns (pairs: seq<Pair>)
    requires 3 <= |subs|
    ensures pairs == CircularPairs(subs)
  {
    pairs := [];
    var n := |subs|;
    for i := 0 to n
      invariant pairs == PairsUpTo(subs, i)
    {
      ghost var full := [PairAt(subs, i, 1), PairAt(subs, i, 2), PairAt(subs, i, 3)];
      for offset := 1 to 4
        invariant pairs == PairsUpTo(subs, i) + full[..offset - 1]
      {
        ForwardIsModular(i, offset, n);
        var toReview := subs[(i + offset) % n];
        pairs := pairs + [Pair(subs[i].userId, toReview.id)];
      }
    }
  }

  // ----- the counting argument -----

  /** Every listed pair is some author's at an offset of 1, 2 or 3. */
  lemma {:induction false} PairOrigin(subs: seq<Submission>, m: nat, p: Pair) returns (i: nat, o: nat)
    requires m <= |subs| && 3 <= |subs| && p in PairsUpTo(subs, m)
    ensures i < m && 1 <= o <= 3 && p == PairAt(subs, i, o)
  {
    var i', o' := m - 1, 1;
    if p == PairAt(subs, m - 1, 1) {
      return i', 1;
    } else if p == PairAt(subs, m - 1, 2) {
      return i', 2;
    } else if p == PairAt(subs, m - 1, 3) {
      return i', 3;
    } else {
      i, o := PairOrigin(subs, m - 1, p);
    }
  }

  lemma {:induction false} PairListed(subs: seq<Submission>, m: nat, i: nat, o: nat)
    requires i < m <= |subs| && 3 <= |subs| && 1 <= o <= 3
    ensures PairAt(subs, i, o) in PairsUpTo(subs, m)
    decreases m
  {
    if i == m - 1 {
      var three := [PairAt(subs, i, 1), PairAt(subs, i, 2), PairAt(subs, i, 3)];
      assert three[o - 1] == PairAt(subs, i, o) && three[o - 1] in three;
    } else {
      PairListed(subs, m - 1, i, o);
    }
  }

  /** Two offsets never lead an author to the same submission. */
  lemma OffsetsDiffer(subs: seq<Submission>, i: nat, o: nat, o': nat)
    requires Distinct(subs) && 4 <= |subs| && i < |subs| && 1 <= o < o' <= 3
    ensures PairAt(subs, i, o).submissionId != PairAt(subs, i, o').submissionId
  {
    assert Forward(i, o, |subs|) != Forward(i, o', |subs|);
  }

  /** All 3n pairs differ, so none is lost to the table's unique constraint. */
  lemma {:induction false} AllPairsDiffer(subs: seq<Submission>, m: nat)
    requires Distinct(subs) && 4 <= |subs| && m <= |subs|
    ensures |PairsUpTo(subs, m)| == 3 * m && NoDuplicates(PairsUpTo(subs, m))
  {
    if m != 0 {
      AllPairsDiffer(subs, m - 1);
      NextThreeDiffer(subs, m - 1, PairsUpTo(subs, m - 1));
    }
  }

  lemma NextThreeDiffer(subs: seq<Submission>, i: nat, earlier: seq<Pair>)
    requires Distinct(subs) && 4 <= |subs| && i < |subs|
    requires earlier == PairsUpTo(subs, i) && NoDuplicates(earlier)
    ensures NoDuplicates(PairsUpTo(subs, i + 1)) && |PairsUpTo(subs, i + 1)| == |earlier| + 3
  {
    NextThreeAreNew(subs, i);
    var a, b, c := PairAt(subs, i, 1), PairAt(subs, i, 2), PairAt(subs, i, 3);
    AppendThree(earlier, a, b, c, PairsUpTo(subs, i + 1));
  }

  lemma NextThreeAreNew(subs: seq<Submission>, i: nat)
    requires Distinct(subs) && 4 <= |subs| && i < |subs|
    ensures var earlier, a, b, c := PairsUpTo(subs, i), PairAt(subs, i, 1), PairAt(subs, i, 2), PairAt(subs, i, 3);
      a !in earlier && b !in earlier && c !in earlier && a != b && a != c && b != c
  {
    OffsetsDiffer(subs, i, 1, 2);
    OffsetsDiffer(subs, i, 1, 3);
    OffsetsDiffer(subs, i, 2, 3);
    NotListedEarlier(subs, i, PairAt(subs, i, 1));
    NotListedEarlier(subs, i, PairAt(subs, i, 2));
    NotListedEarlier(subs, i, PairAt(subs, i, 3));
  }

  lemma NotListedEarlier(subs: seq<Submission>, m: nat, p: Pair)
    requires Distinct(subs) && 4 <= |subs| && m < |subs| && p.reviewerId == subs[m].userId
    ensures p !in PairsUpTo(subs, m)
  {
    if p in PairsUpTo(subs, m) {
      var i, o := PairOrigin(subs, m, p);
    }
  }

  lemma AppendOne<T>(s: seq<T>, x: T)
    requires NoDuplicates(s) && x !in s
    ensures NoDuplicates(s + [x])
  {
  }

  lemma AppendThree<T>(s: seq<T>, a: T, b: T, c: T, longer: seq<T>)
    requires NoDuplicates(s) && a !in s && b !in s && c !in s && a != b && a != c && b != c
    requires longer == s + [a, b, c]
    ensures |longer| == |s| + 3 && NoDuplicates(longer)
  {
    AppendOne(s, a);
    AppendOne(s + [a], b);
    AppendOne(s + [a] + [b], c);
    assert longer == s + [a] + [b] + [c];
  }

  function ReviewsBy(pairs: seq<Pair>, reviewer: Id): set<Pair> {
    set p | p in pairs && p.reviewerId == reviewer
  }

  function ReviewsOf(pairs: seq<Pair>, submission: Id): set<Pair> {
    set p | p in pairs && p.submissionId == submission
  }

  lemma ThreeElements<T>(s: set<T>, a: T, b: T, c: T)
    requires a != b && b != c && a != c
    requires forall x :: x in s <==> x == a || x == b || x == c
    ensures |s| == 3
  {
    assert s == {a} + {b} + {c};
  }

  /** Every author reviews exactly three submissions: the next three around the
      circle, all different. */
  lemma EveryAuthorReviewsThree(subs: seq<Submission>, i: nat)
    requires Distinct(subs) && 4 <= |subs| && i < |subs|
    ensures var n, me := |subs|, subs[i].userId;
      ReviewsBy(CircularPairs(subs), me)
      == {Pair(me, subs[(i + 1) % n].id), Pair(me, subs[(i + 2) % n].id), Pair(me, subs[(i + 3) % n].id)}
    ensures |ReviewsBy(CircularPairs(subs), subs[i].userId)| == 3
    ensures |set p | p in ReviewsBy(CircularPairs(subs), subs[i].userId) :: p.submissionId| == 3
  {
    var n, pairs := |subs|, CircularPairs(subs);
    ForwardIsModular(i, 1, n);
    ForwardIsModular(i, 2, n);
    ForwardIsModular(i, 3, n);
    var a, b, c := PairAt(subs, i, 1), PairAt(subs, i, 2), PairAt(subs, i, 3);
    PairListed(subs, n, i, 1);
    PairListed(subs, n, i, 2);
    PairListed(subs, n, i, 3);
    OffsetsDiffer(subs, i, 1, 2);
    OffsetsDiffer(subs, i, 1, 3);
    OffsetsDiffer(subs, i, 2, 3);
    var mine := ReviewsBy(pairs, subs[i].userId);
    forall p
      ensures p in mine <==> p == a || p == b || p == c
    {
      if p in mine {
        var i', o := PairOrigin(subs, n, p);
      }
    }
    ThreeElements(mine, a, b, c);
    ThreeElements(set p | p in mine :: p.submissionId, a.submissionId, b.submissionId, c.submissionId);
  }

  /** The pair by which the author `offset` places before j reviews j. */
  function Reviewing(subs: seq<Submission>, j: nat, offset: nat): Pair
    requires 3 <= |subs| && j < |subs| && 1 <= offset <= 3
  {
    PairAt(subs, Backward(j, offset, |subs|), offset)
  }

  lemma ReviewersDiffer(subs: seq<Submission>, j: nat, o: nat, o': nat)
    requires Distinct(subs) && 4 <= |subs| && j < |subs| && 1 <= o < o' <= 3
    ensures Reviewing(subs, j, o).reviewerId != Reviewing(subs, j, o').reviewerId
    ensures Reviewing(subs, j, o).submissionId == Reviewing(subs, j, o').submissionId == subs[j].id
    ensures Reviewing(subs, j, o).reviewerId != subs[j].userId
    ensures Reviewing(subs, j, o').reviewerId != subs[j].userId
  {
    assert Backward(j, o, |subs|) != Backward(j, o', |subs|);
  }

  /** Every submission gets exactly three reviewers, all different, none its author. */
  lemma EverySubmissionGetsThree(subs: seq<Submission>, j: nat)
    requires Distinct(subs) && 4 <= |subs| && j < |subs|
    ensures |ReviewsOf(CircularPairs(subs), subs[j].id)| == 3
    ensures |set p | p in ReviewsOf(CircularPairs(subs), subs[j].id) :: p.reviewerId| == 3
    ensures Pair(subs[j].userId, subs[j].id) !in CircularPairs(subs)
  {
    var n, pairs := |subs|, CircularPairs(subs);
    var a, b, c := Reviewing(subs, j, 1), Reviewing(subs, j, 2), Reviewing(subs, j, 3);
    PairListed(subs, n, Backward(j, 1, n), 1);
    PairListed(subs, n, Backward(j, 2, n), 2);
    PairListed(subs, n, Backward(j, 3, n), 3);
    ReviewersDiffer(subs, j, 1, 2);
    ReviewersDiffer(subs, j, 1, 3);
    ReviewersDiffer(subs, j, 2, 3);
    var its := ReviewsOf(pairs, subs[j].id);
    forall p
      ensures p in its <==> p == a || p == b || p == c
    {
      if p in its {
        OriginOfReview(subs, j, p);
      }
    }
    ThreeElements(its, a, b, c);
    ThreeElements(set p | p in its :: p.reviewerId, a.reviewerId, b.reviewerId, c.reviewerId);
    assert Pair(subs[j].userId, subs[j].id) !in its;
  }

  lemma OriginOfReview(subs: seq<Submission>, j: nat, p: Pair)
    requires Distinct(subs) && 4 <= |subs| && j < |subs| && p in CircularPairs(subs) && p.submissionId == subs[j].id
    ensures p == Reviewing(subs, j, 1) || p == Reviewing(subs, j, 2) || p == Reviewing(subs, j, 3)
  {
    var i, o := PairOrigin(subs, |subs|, p);
    assert Forward(i, o, |subs|) == j;
    assert i == Backward(j, o, |subs|);
  }

  /** With three submissions everybody would review their own: the minimum of four
      the service asks for cannot be lowered. */
  lemma ThreeSubmissionsAreTooFew(subs: seq<Submission>, i: nat)
    requires |subs| == 3 && i < 3
    ensures Pair(subs[i].userId, subs[i].id) in CircularPairs(subs)
  {
    PairListed(subs, 3, i, 3);
  }

  // ----- the review table -----

  /** The peer-review table, unique on submission and reviewer; the value says
      whether the review was handed in. */
  type ReviewTable = map<Pair, bool>

  /** The rows left after clearing the reviews of these submissions not handed in. */
  function Cleared(table: ReviewTable, subs: seq<Submission>): ReviewTable {
    map p | p in table && (table[p] || !OfThese(subs, p)) :: table[p]
  }

  /** The pair reviews one of these submissions. */
  predicate OfThese(subs: seq<Submission>, p: Pair) {
    exists s :: s in subs && s.id == p.submissionId
  }

  lemma PairsAreOfThese(subs: seq<Submission>, p: Pair)
    requires 3 <= |subs| && p in CircularPairs(subs)
    ensures OfThese(subs, p)
  {
    var i, o := PairOrigin(subs, |subs|, p);
    assert subs[Forward(i, o, |subs|)] in subs;
  }

  function WithNew(table: ReviewTable, pairs: seq<Pair>): ReviewTable {
    table + map p | p in pairs :: false
  }

  datatype AssignReply = Assigned(pairs: seq<Pair>) | NotEnough | Conflict

  class AssignmentsService {
    var reviews: ReviewTable

    constructor ()
      ensures reviews == map[]
    {
      reviews := map[];
    }

    /** The clearing and the saving are two statements: when the unique constraint
        refuses the new rows, the clearing stays done. */
    method AssignReviewers(subs: seq<Submission>) returns (r: AssignReply)
      requires Distinct(subs)
      modifies this
      ensures r.NotEnough? <==> |subs| < 4
      ensures r.NotEnough? ==> reviews == old(reviews)
      ensures r.Conflict? ==> reviews == Cleared(old(reviews), subs)
      ensures r.Conflict? <==> 4 <= |subs| && !Assignable(old(reviews), subs)
      ensures r.Assigned? ==> && r.pairs == CircularPairs(subs)
                              && reviews == WithNew(Cleared(old(reviews), subs), r.pairs)
    {
      if |subs| < 4 {
        return NotEnough;
      }
      var pairs := AssignCircularly(subs);
      forall p | p in pairs
        ensures OfThese(subs, p)
      {
        PairsAreOfThese(subs, p);
      }
      reviews := Cleared(reviews, subs);
      if exists p :: p in pairs && p in reviews {
        return Conflict;
      }
      reviews := WithNew(reviews, pairs);
      return Assigned(pairs);
    }
  }

  ghost function ReviewersIn(table: ReviewTable, submission: Id): set<Pair> {
    set p | p in table && p.submissionId == submission
  }

  /** None of the reviews to assign was handed in before: when the assignment is
      saved rather than refused. */
  ghost predicate Assignable(table: ReviewTable, subs: seq<Submission>)
    requires 3 <= |subs|
  {
    forall p :: p in CircularPairs(subs) && p in table ==> !table[p]
  }

  ghost function HandedInFor(table: ReviewTable, submission: Id): set<Pair> {
    set p | p in table && table[p] && p.submissionId == submission
  }

  /** Every saved assignment leaves a submission with its three circular reviewers and
      those who had handed in a review of it before: it ends with exactly three if
      and only if nobody had. */
  lemma AssignmentIsBalanced(table: ReviewTable, subs: seq<Submission>, j: nat)
    requires Distinct(subs) && 4 <= |subs| && Assignable(table, subs) && j < |subs|
    ensures var id := subs[j].id;
      var after := WithNew(Cleared(table, subs), CircularPairs(subs));
      var its := ReviewersIn(after, id);
      && its == ReviewsOf(CircularPairs(subs), id) + HandedInFor(table, id)
      && |its| == 3 + |HandedInFor(table, id)| && HandedInFor(after, id) == HandedInFor(table, id)
      && (|its| == 3 <==> forall p :: p in table && p.submissionId == id ==> !table[p])
  {
    var id := subs[j].id;
    var after := WithNew(Cleared(table, subs), CircularPairs(subs));
    var circular, before := ReviewsOf(CircularPairs(subs), id), HandedInFor(table, id);
    EverySubmissionGetsThree(subs, j);
    assert subs[j] in subs;
    forall p: Pair | p.submissionId == id
      ensures p in after <==> p in circular || p in before
      ensures p in HandedInFor(after, id) <==> p in before
    {
      assert OfThese(subs, p);
    }
    assert HandedInFor(after, id) == before;
    assert ReviewersIn(after, id) == circular + before && circular !! before;
    assert before == {} <==> forall p :: p in table && p.submissionId == id ==> p !in before;
  }

  /** Assigning again changes nothing, as long as none of the new reviews has been
      handed in; it is then not refused either. */
  lemma AssigningAgainChangesNothing(table: ReviewTable, subs: seq<Submission>)
    requires 4 <= |subs| && Assignable(table, subs)
    ensures var after := WithNew(Cleared(table, subs), CircularPairs(subs));
      Assignable(after, subs) && WithNew(Cleared(after, subs), CircularPairs(subs)) == after
  {
    forall p | p in CircularPairs(subs)
      ensures OfThese(subs, p)
    {
      PairsAreOfThese(subs, p);
    }
    assert Cleared(WithNew(Cleared(table, subs), CircularPairs(subs)), subs) == Cleared(table, subs);
  }

  /** Submissions of other assignments keep their reviewers. */
  lemma OtherSubmissionsKeepReviewers(table: ReviewTable, subs: seq<Submission>, other: Id)
    requires 4 <= |subs| && forall s :: s in subs ==> s.id != other
    ensures var after := WithNew(Cleared(table, subs), CircularPairs(subs));
      && ReviewersIn(after, other) == ReviewersIn(table, other)
      && HandedInFor(after, other) == HandedInFor(table, other)
  {
    var after := WithNew(Cleared(table, subs), CircularPairs(subs));
    forall p: Pair | p.submissionId == other
      ensures p in after <==> p in table
      ensures p in table ==> after[p] == table[p]
    {
      if p in CircularPairs(subs) {
        PairsAreOfThese(subs, p);
      }
    }
  }
}
