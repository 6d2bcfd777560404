/** The two vesting formulas of the token contract, as functions of a schedule
    and the current ledger, and what a beneficiary may rely on about them. */
module Vesting {
  import opened Common

  datatype VestingSchedule = VestingSchedule(totalAmount: i128, startLedger: u32, cliffLedger: u32,
                                             endLedger: u32, claimed: i128)

  /** Type 0 is linear, type 1 vests in steps. */
  datatype VestingScheduleV2 = VestingScheduleV2(id: u32, totalAmount: i128, startLedger: u32,
                                                 cliffLedger: u32, endLedger: u32, claimed: i128,
                                                 vestingType: nat, stepCount: u32)

  function Linear(total: int, start: int, end: int, now: int): Result<int> {
    if now < start || end < start then Panic
    else
      var product :- Checked(total * (now - start));
      CheckedDiv(product, end - start)
  }

  /** Completed steps of length duration / stepCount. A step length of zero, when
      there are more steps than ledgers, counts as no completed step. */
  function StepsCompleted(elapsed: nat, duration: nat, stepCount: nat): nat
    requires 0 < stepCount
  {
    var stepDuration := duration / stepCount;
    if stepDuration == 0 then 0
    else if elapsed / stepDuration < stepCount then elapsed / stepDuration
    else stepCount
  }

  function Stepped(total: int, start: int, end: int, now: int, stepCount: nat): Result<int> {
    if stepCount == 0 then Ok(total)
    else if now < start || end < start then Panic
    else
      var product :- Checked(total * StepsCompleted(now - start, end - start, stepCount));
      CheckedDiv(product, stepCount)
  }

  function VestedAmount(s: VestingSchedule, now: u32): Result<int> {
    if now < s.cliffLedger then Ok(0)
    else if s.endLedger <= now then Ok(s.totalAmount)
    else Linear(s.totalAmount, s.startLedger, s.endLedger, now)
  }

  function VestedAmountV2(s: VestingScheduleV2, now: u32): Result<int> {
    if now < s.cliffLedger then Ok(0)
    else if s.endLedger <= now then Ok(s.totalAmount)
    else if s.vestingType == 0 then Linear(s.totalAmount, s.startLedger, s.endLedger, now)
    else if s.vestingType == 1 then Stepped(s.totalAmount, s.startLedger, s.endLedger, now, s.stepCount)
    else Ok(0)
  }

  /** What `create_vesting` checks, and every later change keeps. */
  ghost predicate Valid(s: VestingSchedule) {
    0 < s.totalAmount && s.startLedger <= s.cliffLedger < s.endLedger && 0 <= s.claimed <= s.totalAmount
  }

  ghost predicate ValidV2(s: VestingScheduleV2) {
    && 0 < s.totalAmount && s.startLedger <= s.cliffLedger < s.endLedger
    && 0 <= s.claimed <= s.totalAmount && s.vestingType <= 1
  }

  // ----- shares of a total -----

  /** The floor of total * part / whole grows with part, from 0 up to the total,
      which it reaches only at part == whole. */
  lemma ShareOfTotal(total: int, part: int, whole: int)
    requires 0 < total && 0 < whole && 0 <= part <= whole
    ensures 0 <= TruncDiv(total * part, whole) <= total
    ensures TruncDiv(total * part, whole) == total <==> part == whole
  {
    MulMono(0, part, total);
    MulMono(part, whole, total);
    var q := TruncDiv(total * part, whole);
    TruncDivIsFloor(total * part, whole);
    MulCancel(q, total, whole);
    if part < whole {
      MulMono(part, whole - 1, total);
      assert total * (whole - 1) == total * whole - total;
    } else {
      FloorIsLargest(q, total, total * part, whole);
    }
  }

  lemma ShareMonotone(total: int, part: int, part': int, whole: int)
    requires 0 < total && 0 < whole && 0 <= part <= part'
    ensures TruncDiv(total * part, whole) <= TruncDiv(total * part', whole)
  {
    MulMono(0, part, total);
    MulMono(part, part', total);
    TruncDivIsFloor(total * part, whole);
    TruncDivIsFloor(total * part', whole);
    FloorIsLargest(TruncDiv(total * part', whole), TruncDiv(total * part, whole), total * part', whole);
  }

  lemma StepsMonotone(elapsed: nat, elapsed': nat, duration: nat, stepCount: nat)
    requires 0 < stepCount && elapsed <= elapsed'
    ensures 0 <= StepsCompleted(elapsed, duration, stepCount)
         <= StepsCompleted(elapsed', duration, stepCount) <= stepCount
  {
    var d := duration / stepCount;
    if d != 0 {
      TruncDivIsFloor(duration, stepCount);
      TruncDivIsFloor(elapsed, d);
      TruncDivIsFloor(elapsed', d);
      FloorIsLargest(elapsed' / d, elapsed / d, elapsed', d);
    }
  }

  /** All steps are completed once stepCount whole steps have elapsed, which can be
      well before the duration is over. */
  lemma AllStepsCompleted(elapsed: nat, duration: nat, stepCount: nat)
    requires 0 < stepCount
    ensures StepsCompleted(elapsed, duration, stepCount) == stepCount
       <==> stepCount <= duration && stepCount * (duration / stepCount) <= elapsed
  {
    var d := duration / stepCount;
    TruncDivIsFloor(duration, stepCount);
    if d != 0 {
      MulMono(1, d, stepCount);
      TruncDivIsFloor(elapsed, d);
      if stepCount * d <= elapsed {
        FloorIsLargest(elapsed / d, stepCount, elapsed, d);
      } else if stepCount <= elapsed / d {
        MulMono(stepCount, elapsed / d, d);
      }
    }
  }

  // ----- the formulas -----

  /** How much of the whole counts as done: ledgers for the linear formula, steps
      for the stepped one. Both amounts are floor(total * Done / Whole). */
  function Done(s: VestingScheduleV2, now: u32): int
    requires s.startLedger <= now && s.startLedger <= s.endLedger
  {
    if s.vestingType == 0 then now - s.startLedger
    else if s.stepCount == 0 then 1
    else StepsCompleted(now - s.startLedger, s.endLedger - s.startLedger, s.stepCount)
  }

  function Whole(s: VestingScheduleV2): int {
    if s.vestingType == 0 then s.endLedger - s.startLedger
    else if s.stepCount == 0 then 1
    else s.stepCount
  }

  ghost predicate Vests(s: VestingScheduleV2, now: u32) {
    s.cliffLedger <= now < s.endLedger
  }

  lemma DoneBounds(s: VestingScheduleV2, now: u32)
    requires ValidV2(s) && Vests(s, now)
    ensures 0 <= Done(s, now) <= Whole(s) && 0 < Whole(s)
  {
    if s.vestingType == 1 && s.stepCount != 0 {
      StepsMonotone(now - s.startLedger, now - s.startLedger, s.endLedger - s.startLedger, s.stepCount);
    }
  }

  lemma DoneMonotone(s: VestingScheduleV2, now: u32, later: u32)
    requires ValidV2(s) && Vests(s, now) && Vests(s, later) && now <= later
    ensures Done(s, now) <= Done(s, later)
  {
    if s.vestingType == 1 && s.stepCount != 0 {
      StepsMonotone(now - s.startLedger, later - s.startLedger, s.endLedger - s.startLedger, s.stepCount);
    }
  }

  /** Between cliff and end both formulas are the floor of the share done, and they
      abort exactly when the multiplication leaves the i128 range. */
  lemma VestedIsShare(s: VestingScheduleV2, now: u32)
    requires ValidV2(s) && Vests(s, now)
    ensures VestedAmountV2(s, now) ==
            if I128_MAX < s.totalAmount * Done(s, now) then Panic
            else Ok(TruncDiv(s.totalAmount * Done(s, now), Whole(s)))
  {
    DoneBounds(s, now);
    var product := s.totalAmount * Done(s, now);
    MulMono(0, Done(s, now), s.totalAmount);
    ShareOfTotal(s.totalAmount, Done(s, now), Whole(s));
  }

  // ----- the amounts from the terms alone -----

  /** k is the number of whole steps behind us: the most that fit into the ledgers
      elapsed, at most all of them, none when a step has no length. */
  ghost predicate WholeSteps(elapsed: nat, length: nat, count: nat, k: nat) {
    && k <= count
    && (if length == 0 then k == 0 else k * length <= elapsed && (k == count || elapsed < (k + 1) * length))
  }

  ghost predicate StepsBehind(s: VestingScheduleV2, now: u32, k: nat)
    requires 0 < s.stepCount && s.startLedger <= s.endLedger && s.startLedger <= now
  {
    WholeSteps(now - s.startLedger, (s.endLedger - s.startLedger) / s.stepCount, s.stepCount, k)
  }

  /** The amount v that a schedule's terms promise at a ledger, products being
      limited to the machine's range. */
  ghost predicate Promises(s: VestingScheduleV2, now: u32, v: int)
    requires ValidV2(s)
  {
    var total := s.totalAmount;
    if now < s.cliffLedger then v == 0
    else if s.endLedger <= now then v == total
    else if s.vestingType == 0 then
      var product := total * (now - s.startLedger);
      product <= I128_MAX && IsFloor(v, product, s.endLedger - s.startLedger)
    else if s.stepCount == 0 then v == total
    else exists k: nat :: StepsBehind(s, now, k) && total * k <= I128_MAX && IsFloor(v, total * k, s.stepCount)
  }

  /** The formulas give exactly what the terms promise, and abort when those promise
      nothing within the machine's range. */
  lemma VestedAsPromised(s: VestingScheduleV2, now: u32, v: int)
    requires ValidV2(s)
    ensures VestedAmountV2(s, now) == Ok(v) <==> Promises(s, now, v)
  {
    if Vests(s, now) && (s.vestingType == 0 || s.stepCount != 0) {
      VestedIsShare(s, now);
      DoneBounds(s, now);
      var k := Done(s, now);
      MulMono(0, k, s.totalAmount);
      TruncDivExactly(s.totalAmount * k, Whole(s), v);
      if s.vestingType == 1 {
        DoneIsStepsBehind(s, now);
      }
    }
  }

  lemma DoneIsStepsBehind(s: VestingScheduleV2, now: u32)
    requires ValidV2(s) && Vests(s, now) && s.vestingType == 1 && s.stepCount != 0
    ensures forall k: nat :: StepsBehind(s, now, k) <==> k == Done(s, now)
  {
    forall k: nat
      ensures StepsBehind(s, now, k) <==> k == Done(s, now)
    {
      StepsCompletedExactly(now - s.startLedger, s.endLedger - s.startLedger, s.stepCount, k);
    }
  }

  lemma StepsCompletedExactly(elapsed: nat, duration: nat, count: nat, k: nat)
    requires 0 < count
    ensures WholeSteps(elapsed, duration / count, count, k) <==> k == StepsCompleted(elapsed, duration, count)
  {
    if duration / count != 0 {
      WholeStepsExactly(elapsed, duration / count, count, k);
    }
  }

  lemma WholeStepsExactly(elapsed: nat, length: nat, count: nat, k: nat)
    requires 0 < length
    ensures WholeSteps(elapsed, length, count, k)
       <==> k == if elapsed / length < count then elapsed / length else count
  {
    var q := elapsed / length;
    TruncDivIsFloor(elapsed, length);
    if k < q {
      MulMono(k + 1, q, length);
    } else if q < k {
      MulMono(q + 1, k, length);
    }
  }

  /** Vested amounts lie between nothing and the total. */
  lemma VestedWithinTotal(s: VestingScheduleV2, now: u32)
    requires ValidV2(s) && VestedAmountV2(s, now).Ok?
    ensures 0 <= VestedAmountV2(s, now).value <= s.totalAmount
  {
    if Vests(s, now) {
      VestedIsShare(s, now);
      DoneBounds(s, now);
      ShareOfTotal(s.totalAmount, Done(s, now), Whole(s));
    }
  }

  /** Vested amounts never decrease as ledgers close: across the cliff, across the
      end, with no steps at all and with more steps than ledgers. */
  lemma VestedNeverDecreases(s: VestingScheduleV2, now: u32, later: u32)
    requires ValidV2(s) && now <= later
    requires VestedAmountV2(s, now).Ok? && VestedAmountV2(s, later).Ok?
    ensures VestedAmountV2(s, now).value <= VestedAmountV2(s, later).value
  {
    VestedWithinTotal(s, now);
    VestedWithinTotal(s, later);
    if Vests(s, now) && Vests(s, later) {
      VestedIsShare(s, now);
      VestedIsShare(s, later);
      DoneBounds(s, now);
      DoneMonotone(s, now, later);
      ShareMonotone(s.totalAmount, Done(s, now), Done(s, later), Whole(s));
    }
  }

  /** A total that leaves 32 bits of room never aborts, at any ledger. */
  lemma SmallTotalsNeverAbort(s: VestingScheduleV2, now: u32)
    requires ValidV2(s) && s.totalAmount * 0x1_0000_0000 <= I128_MAX
    ensures VestedAmountV2(s, now).Ok?
  {
    if Vests(s, now) {
      VestedIsShare(s, now);
      DoneBounds(s, now);
      MulMono(Done(s, now), 0x1_0000_0000, s.totalAmount);
    }
  }

  /** Before the end, everything is vested exactly when all steps are done. With
      floored step lengths that may be early, and with more steps than ledgers it
      never happens before the end. */
  lemma FullyVestedBeforeEnd(s: VestingScheduleV2, now: u32)
    requires ValidV2(s) && Vests(s, now) && VestedAmountV2(s, now).Ok?
    ensures var elapsed, duration := now - s.startLedger, s.endLedger - s.startLedger;
      VestedAmountV2(s, now).value == s.totalAmount
      <==> s.vestingType == 1
           && (s.stepCount == 0
               || (s.stepCount <= duration && s.stepCount * (duration / s.stepCount) <= elapsed))
  {
    VestedIsShare(s, now);
    DoneBounds(s, now);
    ShareOfTotal(s.totalAmount, Done(s, now), Whole(s));
    if s.vestingType == 1 && s.stepCount != 0 {
      AllStepsCompleted(now - s.startLedger, s.endLedger - s.startLedger, s.stepCount);
    }
  }

  lemma ShareAntitone(total: int, part: int, whole: int, whole': int)
    requires 0 < total && 0 <= part && 0 < whole <= whole'
    ensures TruncDiv(total * part, whole') <= TruncDiv(total * part, whole)
  {
    MulMono(0, part, total);
    var q, q' := TruncDiv(total * part, whole), TruncDiv(total * part, whole');
    TruncDivIsFloor(total * part, whole);
    TruncDivIsFloor(total * part, whole');
    MulMono(whole, whole', q');
    FloorIsLargest(q, q', total * part, whole);
  }

  /** A longer duration never completes more steps, unless the shorter one had fewer
      ledgers than steps. */
  lemma StepsAntitone(elapsed: nat, duration: nat, duration': nat, stepCount: nat)
    requires 0 < stepCount <= duration <= duration'
    ensures StepsCompleted(elapsed, duration', stepCount) <= StepsCompleted(elapsed, duration, stepCount)
  {
    var d, d' := duration / stepCount, duration' / stepCount;
    TruncDivIsFloor(duration, stepCount);
    TruncDivIsFloor(duration', stepCount);
    FloorIsLargest(d, 1, duration, stepCount);
    FloorIsLargest(d', d, duration', stepCount);
    TruncDivIsFloor(elapsed, d);
    TruncDivIsFloor(elapsed, d');
    MulMono(d, d', elapsed / d');
    FloorIsLargest(elapsed / d, elapsed / d', elapsed, d);
  }

  /** The one way a later end vests more: the schedule had fewer ledgers than steps,
      so that nothing counted before its end, the later end gives the steps a length,
      and the steps completed by now are worth something. */
  ghost predicate GainsSteps(s: VestingScheduleV2, newEnd: u32, now: u32) {
    && s.vestingType == 1 && s.startLedger <= s.cliffLedger <= now < s.endLedger
    && s.endLedger - s.startLedger < s.stepCount <= newEnd - s.startLedger
    && s.stepCount <= s.totalAmount * StepsCompleted(now - s.startLedger, newEnd - s.startLedger, s.stepCount)
  }

  /** Moving the end of a schedule later vests no more, except exactly then. */
  lemma LaterEndVestsNoMoreExactly(s: VestingScheduleV2, newEnd: u32, now: u32)
    requires ValidV2(s) && s.endLedger <= newEnd
    requires VestedAmountV2(s, now).Ok? && VestedAmountV2(s.(endLedger := newEnd), now).Ok?
    ensures VestedAmountV2(s.(endLedger := newEnd), now).value <= VestedAmountV2(s, now).value
       <==> !GainsSteps(s, newEnd, now)
  {
    var t := s.(endLedger := newEnd);
    VestedWithinTotal(s, now);
    VestedWithinTotal(t, now);
    if Vests(s, now) {
      VestedIsShare(s, now);
      VestedIsShare(t, now);
      DoneBounds(s, now);
      DoneBounds(t, now);
      if s.vestingType == 0 {
        ShareAntitone(s.totalAmount, Done(s, now), Whole(s), Whole(t));
      } else if s.stepCount != 0 {
        LaterEndOfSteps(s, t, now);
      }
    }
  }

  lemma LaterEndOfSteps(s: VestingScheduleV2, t: VestingScheduleV2, now: u32)
    requires ValidV2(s) && s.vestingType == 1 && s.stepCount != 0 && Vests(s, now)
    requires t == s.(endLedger := t.endLedger) && s.endLedger <= t.endLedger
    ensures TruncDiv(t.totalAmount * Done(t, now), Whole(t)) <= TruncDiv(s.totalAmount * Done(s, now), Whole(s))
       <==> !GainsSteps(s, t.endLedger, now)
  {
    var elapsed, n := now - s.startLedger, s.stepCount;
    var duration, duration' := s.endLedger - s.startLedger, t.endLedger - s.startLedger;
    if n <= duration {
      StepsAntitone(elapsed, duration, duration', n);
      StepsMonotone(elapsed, elapsed, duration', n);
      ShareMonotone(s.totalAmount, Done(t, now), Done(s, now), n);
    } else {
      NoStepsInTooFewLedgers(elapsed, duration, n);
      NothingVested(s.totalAmount, Done(s, now), n);
      StepsMonotone(elapsed, elapsed, duration', n);
      NothingVested(s.totalAmount, Done(t, now), n);
      if duration' < n {
        NoStepsInTooFewLedgers(elapsed, duration', n);
      }
    }
  }

  lemma NoStepsInTooFewLedgers(elapsed: nat, duration: nat, stepCount: nat)
    requires duration < stepCount
    ensures StepsCompleted(elapsed, duration, stepCount) == 0
  {
    TruncDivIsFloor(duration, stepCount);
    if 1 <= duration / stepCount {
      MulMono(1, duration / stepCount, stepCount);
    }
  }

  lemma NothingVested(total: int, part: int, whole: int)
    requires 0 < total && 0 <= part && 0 < whole
    ensures 0 <= TruncDiv(total * part, whole)
    ensures part == 0 ==> TruncDiv(total * part, whole) == 0
    ensures TruncDiv(total * part, whole) == 0 <==> total * part < whole
  {
    MulMono(0, part, total);
    TruncDivIsFloor(total * part, whole);
    if whole <= total * part {
      FloorIsLargest(TruncDiv(total * part, whole), 1, total * part, whole);
    } else {
      FloorIsLargest(0, TruncDiv(total * part, whole), total * part, whole);
    }
  }

  /** A stepped schedule of ten steps in five ledgers vests nothing at ledger 4;
      with its end moved to 10 it vests 400 of its 1000 there. */
  lemma LaterEndCanVestMore()
    ensures var s := VestingScheduleV2(0, 1000, 0, 0, 5, 0, 1, 10);
      && ValidV2(s) && GainsSteps(s, 10, 4)
      && VestedAmountV2(s, 4) == Ok(0) && VestedAmountV2(s.(endLedger := 10), 4) == Ok(400)
  {
    assert StepsCompleted(4, 10, 10) == 4;
  }

  /** Whether the claims made so far are covered by the terms of the schedule: none
      before the cliff, at most the share done before the end, anything after it. */
  ghost predicate ClaimsCovered(s: VestingScheduleV2, now: u32)
    requires s.startLedger <= s.endLedger && s.startLedger <= s.cliffLedger
  {
    if now < s.cliffLedger then s.claimed == 0
    else if s.endLedger <= now then true
    else s.claimed * Whole(s) <= s.totalAmount * Done(s, now)
  }

  /** No more is claimed than vested exactly when the terms cover the claims. */
  lemma ClaimedWithinVestedExactly(s: VestingScheduleV2, now: u32)
    requires ValidV2(s) && VestedAmountV2(s, now).Ok?
    ensures s.claimed <= VestedAmountV2(s, now).value <==> ClaimsCovered(s, now)
  {
    if Vests(s, now) {
      VestedIsShare(s, now);
      DoneBounds(s, now);
      var product, whole := s.totalAmount * Done(s, now), Whole(s);
      MulMono(0, Done(s, now), s.totalAmount);
      TruncDivIsFloor(product, whole);
      if s.claimed * whole <= product {
        FloorIsLargest(TruncDiv(product, whole), s.claimed, product, whole);
      }
      if s.claimed <= TruncDiv(product, whole) {
        MulMono(s.claimed, TruncDiv(product, whole), whole);
      }
    }
  }

  /** A formula that overflows keeps overflowing until the end ledger. */
  lemma OverflowLastsToTheEnd(s: VestingScheduleV2, now: u32, later: u32)
    requires ValidV2(s) && now <= later && VestedAmountV2(s, now).Panic? && VestedAmountV2(s, later).Ok?
    ensures s.endLedger <= later
  {
    if Vests(s, later) {
      VestedIsShare(s, now);
      VestedIsShare(s, later);
      DoneMonotone(s, now, later);
      MulMono(Done(s, now), Done(s, later), s.totalAmount);
    }
  }

  /** The first version is the linear case of the second. */
  function AsV2(s: VestingSchedule): VestingScheduleV2 {
    VestingScheduleV2(0, s.totalAmount, s.startLedger, s.cliffLedger, s.endLedger, s.claimed, 0, 0)
  }

  lemma FirstVersionIsLinear(s: VestingSchedule, now: u32)
    ensures VestedAmount(s, now) == VestedAmountV2(AsV2(s), now)
    ensures Valid(s) ==> ValidV2(AsV2(s))
    ensures Valid(s) && VestedAmount(s, now).Ok? ==> 0 <= VestedAmount(s, now).value <= s.totalAmount
  {
    if Valid(s) && VestedAmount(s, now).Ok? {
      VestedWithinTotal(AsV2(s), now);
    }
  }

  lemma FirstVersionNeverDecreases(s: VestingSchedule, now: u32, later: u32)
    requires Valid(s) && now <= later && VestedAmount(s, now).Ok? && VestedAmount(s, later).Ok?
    ensures VestedAmount(s, now).value <= VestedAmount(s, later).value
  {
    FirstVersionIsLinear(s, now);
    FirstVersionIsLinear(s, later);
    VestedNeverDecreases(AsV2(s), now, later);
  }
}
