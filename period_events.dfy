/** The clock of one period (period-events.js): remaining-time ticks from the period's
    length down to a cutoff, every third second, tenths of a second in the last minute of
    the third period, and each tick repeated once per extra pause for the goals scored
    since the previous tick. */
module PeriodSequencer {
  import opened Seqs
  import opened Types
  import opened TimeUtils

  /** Seconds between two whole-second ticks, and tenths between two tenth ticks. */
  const AdvanceClockStep := 3

  /** `_.range(start, end, -step)`: start, start - step, ... while still above end. */
  function RangeDown(start: int, end: int, step: int): (r: seq<int>)
    requires step >= 1
    ensures forall i :: 0 <= i < |r| ==> end < r[i] <= start
    ensures forall i, j :: 0 <= i < j < |r| ==> r[i] > r[j]
    decreases start - end
  {
    if start <= end then [] else [start] + RangeDown(start - step, end, step)
  }

  /** The members of a descending range with step 1 or 3. */
  lemma {:induction false} RangeDownMembers(start: int, end: int, step: int, x: int)
    requires step == 1 || step == AdvanceClockStep
    ensures x in RangeDown(start, end, step) <==> end < x <= start && (start - x) % step == 0
    decreases start - end
  {
    if start > end {
      RangeDownMembers(start - step, end, step, x);
      if step == 3 && x < start {
        assert (start - x) % 3 == (start - 3 - x) % 3;
      }
    }
  }

  function Max(a: int, b: int): int {
    if a >= b then a else b
  }

  /** `minuteRange`: the minutes below firstMinute down to lastMinute, or to 0. */
  function MinuteRange(firstMinute: int, lastMinute: int): seq<int> {
    RangeDown(firstMinute - 1, Max(lastMinute - 1, -1), 1)
  }

  /** `secondRange`: 59 down every third second; in the cutoff minute only seconds at or
      above the cutoff second. */
  function SecondRange(minute: int, lastMinute: int, lastSecond: int): seq<int> {
    RangeDown(59, if minute == lastMinute then lastSecond - 1 else -1, AdvanceClockStep)
  }

  /** The tenths shown in each second of the last minute: 9, 6, 3, 0. */
  function TenthRange(): seq<int> {
    RangeDown(9, -1, AdvanceClockStep)
  }

  /** Whole-second ticks of one minute. */
  function SecondTicks(period: Period, minute: int, seconds: seq<int>): (r: seq<Clock>)
    ensures |r| == |seconds|
    ensures forall i :: 0 <= i < |r| ==> r[i] == Tick(period, minute, seconds[i], None)
  {
    if seconds == [] then []
    else [Tick(period, minute, seconds[0], None)] + SecondTicks(period, minute, seconds[1..])
  }

  /** The flattened whole-second ticks of a list of minutes. */
  function MinuteTicks(period: Period, minutes: seq<int>, lastMinute: int, lastSecond: int): seq<Clock> {
    if minutes == [] then []
    else
      var row := SecondTicks(period, minutes[0], SecondRange(minutes[0], lastMinute, lastSecond));
      row + MinuteTicks(period, minutes[1..], lastMinute, lastSecond)
  }

  /** `generateSecondEvents`. */
  function GenerateSecondEvents(period: Period, durationInMinutes: int, lastMinute: int, lastSecond: int): seq<Clock> {
    MinuteTicks(period, MinuteRange(durationInMinutes, lastMinute), lastMinute, lastSecond)
  }

  /** Tenth ticks of one second of minute 0. */
  function TenthsOfSecond(period: Period, second: int, tenths: seq<int>): (r: seq<Clock>)
    ensures |r| == |tenths|
    ensures forall i :: 0 <= i < |r| ==> r[i] == Tick(period, 0, second, Some(tenths[i]))
  {
    if tenths == [] then []
    else [Tick(period, 0, second, Some(tenths[0]))] + TenthsOfSecond(period, second, tenths[1..])
  }

  function TenthTicks(period: Period, seconds: seq<int>): seq<Clock> {
    if seconds == [] then []
    else TenthsOfSecond(period, seconds[0], TenthRange()) + TenthTicks(period, seconds[1..])
  }

  /** `generateTenthOfASecondEvents`. */
  function GenerateTenthOfASecondEvents(period: Period, lastMinute: int, lastSecond: int): seq<Clock> {
    TenthTicks(period, SecondRange(0, lastMinute, lastSecond))
  }

  predicate IsMinuteZero(c: Clock) {
    c.Tick? && c.minute == 0
  }

  /** `_.dropRightWhile(events, e => e.minute === 0)`: the longest prefix whose dropped rest
      is all minute-0 ticks and which does not itself end in one. */
  function DropTrailingMinuteZero(events: seq<Clock>): (r: seq<Clock>)
    ensures |r| <= |events| && r == events[..|r|]
    ensures forall i :: |r| <= i < |events| ==> IsMinuteZero(events[i])
    ensures r == [] || !IsMinuteZero(r[|r| - 1])
  {
    if events != [] && IsMinuteZero(events[|events| - 1])
    then DropTrailingMinuteZero(events[..|events| - 1])
    else events
  }

  /** The cutoff of a partial period; none means the whole period is played. */
  function LastMinute(endTime: Option<MinSec>): int {
    if endTime.Some? then endTime.value.minute else -1
  }

  function LastSecond(endTime: Option<MinSec>): int {
    if endTime.Some? then endTime.value.second else -1
  }

  /** The whole-second ticks; in the third period without those of minute 0. */
  function SecondEvents(period: Period, durationInMinutes: int, lastMinute: int, lastSecond: int): seq<Clock> {
    var allSecondEvents := GenerateSecondEvents(period, durationInMinutes, lastMinute, lastSecond);
    if period == Num(3) then DropTrailingMinuteZero(allSecondEvents) else allSecondEvents
  }

  /** The tenth ticks: only in the third period when the cutoff minute, if any, is below 1. */
  function TenthEvents(period: Period, lastMinute: int, lastSecond: int): seq<Clock> {
    if period == Num(3) && lastMinute < 1
    then GenerateTenthOfASecondEvents(period, lastMinute, lastSecond)
    else []
  }

  /** The tick sequence of a period before goal pauses are added: the period's full length,
      then the whole-second ticks, then the tenth ticks. */
  function PeriodTicks(period: Period, durationInMinutes: int, endTime: Option<MinSec>): seq<Clock> {
    var lastMinute := LastMinute(endTime);
    var lastSecond := LastSecond(endTime);
    [Tick(period, durationInMinutes, 0, None)]
      + SecondEvents(period, durationInMinutes, lastMinute, lastSecond)
      + TenthEvents(period, lastMinute, lastSecond)
  }

  // ---- Goal pauses ---------------------------------------------------------------------------

  /** `_.findLastIndex(allGoalsSorted, hasGoalBeenScored(clock, ·))`. */
  function LastGoalIndex(clock: Clock, allGoalsSorted: seq<Goal>): int {
    FindLastIndex(allGoalsSorted, ScoredBy(clock))
  }

  /** `goalsScoredCountInRange`. */
  function GoalsScoredCountInRange(previousClock: Clock, currentClock: Clock, allGoalsSorted: seq<Goal>): int {
    LastGoalIndex(currentClock, allGoalsSorted) - LastGoalIndex(previousClock, allGoalsSorted)
  }

  function GoalIndexOf(allGoalsSorted: seq<Goal>): Clock -> int {
    c => LastGoalIndex(c, allGoalsSorted)
  }

  /** `multiplyGoalScoringTimeEvents`: keeps the first element, then each later element
      1 + goalDelayMultiplier * GoalsScoredCountInRange(previous, element) times (none when
      that is not positive). Nothing new is introduced. */
  function MultiplyGoalScoringTimeEvents(clockEvents: seq<Clock>, allGoalsSorted: seq<Goal>, goalDelayMultiplier: int): (r: seq<Clock>)
    ensures clockEvents != [] ==> r != [] && r[0] == clockEvents[0]
    ensures clockEvents == [] ==> r == []
    ensures forall x :: x in r ==> x in clockEvents
  {
    if clockEvents == [] then []
    else [clockEvents[0]] + RepeatEach(clockEvents, GoalIndexOf(allGoalsSorted), goalDelayMultiplier)
  }

  /** `periodEvents`. */
  function PeriodEvents(period: Period, durationInMinutes: int, endTime: Option<MinSec>,
                        allGoalsSorted: seq<Goal>, goalDelayMultiplier: int): (r: seq<Clock>)
    ensures r != [] && r[0] == Tick(period, durationInMinutes, 0, None)
    ensures forall x :: x in r ==> x in PeriodTicks(period, durationInMinutes, endTime)
  {
    MultiplyGoalScoringTimeEvents(PeriodTicks(period, durationInMinutes, endTime), allGoalsSorted, goalDelayMultiplier)
  }

  // ---- Properties of the expansion -------------------------------------------------------------

  /** The goal index never moves back from one element to the next. */
  predicate GoalIndexNonDecreasing(clockEvents: seq<Clock>, allGoalsSorted: seq<Goal>) {
    StepsNonDecreasing(clockEvents, GoalIndexOf(allGoalsSorted))
  }

  /** The expansion adds exactly multiplier copies per goal passed between the first and the
      last element. */
  lemma {:induction false} MultiplyLength(clockEvents: seq<Clock>, allGoalsSorted: seq<Goal>, goalDelayMultiplier: nat)
    requires clockEvents != []
    requires GoalIndexNonDecreasing(clockEvents, allGoalsSorted)
    ensures |MultiplyGoalScoringTimeEvents(clockEvents, allGoalsSorted, goalDelayMultiplier)|
      == |clockEvents| + goalDelayMultiplier *
         (LastGoalIndex(clockEvents[|clockEvents| - 1], allGoalsSorted) - LastGoalIndex(clockEvents[0], allGoalsSorted))
  {
    var idx := GoalIndexOf(allGoalsSorted);
    var repeated := RepeatEach(clockEvents, idx, goalDelayMultiplier);
    RepeatEachLength(clockEvents, idx, goalDelayMultiplier);
    assert idx(clockEvents[0]) == LastGoalIndex(clockEvents[0], allGoalsSorted);
    assert idx(clockEvents[|clockEvents| - 1]) == LastGoalIndex(clockEvents[|clockEvents| - 1], allGoalsSorted);
    assert MultiplyGoalScoringTimeEvents(clockEvents, allGoalsSorted, goalDelayMultiplier) == [clockEvents[0]] + repeated;
  }

  /** Removing the repetitions gives back the clock sequence: the pauses only hold the clock. */
  lemma {:induction false} MultiplyCollapse(clockEvents: seq<Clock>, allGoalsSorted: seq<Goal>, goalDelayMultiplier: nat)
    requires clockEvents != []
    requires NoAdjacentRepeats(clockEvents)
    requires GoalIndexNonDecreasing(clockEvents, allGoalsSorted)
    ensures Collapse(MultiplyGoalScoringTimeEvents(clockEvents, allGoalsSorted, goalDelayMultiplier)) == clockEvents
  {
    RepeatEachCollapse(clockEvents, GoalIndexOf(allGoalsSorted), goalDelayMultiplier);
  }

  /** In a sorted goal list the goals a clock has passed form a prefix, so the last index
      passed counts them. */
  lemma {:induction false} LastGoalIndexCountsScored(clock: Clock, allGoalsSorted: seq<Goal>)
    requires GoalsSorted(allGoalsSorted)
    ensures LastGoalIndex(clock, allGoalsSorted) + 1 == |Filter(allGoalsSorted, ScoredBy(clock))|
  {
    var p := ScoredBy(clock);
    forall i, j | 0 <= i < j < |allGoalsSorted| && p(allGoalsSorted[j]) ensures p(allGoalsSorted[i]) {
      ScoredIsDownwardClosed(ClockTime(clock), allGoalsSorted[i], allGoalsSorted[j]);
    }
    FindLastIndexCountsPrefix(allGoalsSorted, p);
  }

  /** Goals passed by the current clock but not by the previous one. */
  function ScoredBetween(previousClock: Clock, currentClock: Clock): Goal -> bool {
    g => ScoredBy(currentClock)(g) && !ScoredBy(previousClock)(g)
  }

  /** With the goals sorted and the clock not moving back, the count added at an element is
      the number of goals scored after the previous element and by this one. */
  lemma {:induction false} GoalsScoredCountIsGoalsBetween(previousClock: Clock, currentClock: Clock, allGoalsSorted: seq<Goal>)
    requires GoalsSorted(allGoalsSorted)
    requires ClockNotLater(ClockTime(previousClock), ClockTime(currentClock))
    ensures GoalsScoredCountInRange(previousClock, currentClock, allGoalsSorted)
      == |Filter(allGoalsSorted, ScoredBetween(previousClock, currentClock))|
  {
    LastGoalIndexCountsScored(previousClock, allGoalsSorted);
    LastGoalIndexCountsScored(currentClock, allGoalsSorted);
    var p, q := ScoredBy(previousClock), ScoredBy(currentClock);
    forall k | 0 <= k < |allGoalsSorted| && p(allGoalsSorted[k]) ensures q(allGoalsSorted[k]) {
      PassedMonotone(ClockTime(previousClock), ClockTime(currentClock), GoalTime(allGoalsSorted[k]));
    }
    FilterDifference(allGoalsSorted, p, q, ScoredBetween(previousClock, currentClock));
  }

  // ---- Shape of the tick sequence ---------------------------------------------------------------

  /** Remaining time of a tick in tenths of a second. */
  function TenthsRemaining(c: Clock): int {
    if c.Tick? then 600 * c.minute + 10 * c.second + (if c.tenth.Some? then c.tenth.value else 0) else 0
  }

  /** A tick of the given period with a readable remaining time. */
  predicate WellFormedTick(c: Clock, period: Period) {
    c.Tick? && c.period == period && c.minute >= 0 && 0 <= c.second <= 59 &&
    (c.tenth.Some? ==> 0 <= c.tenth.value <= 9)
  }

  /** Every element is a tick of the period and the remaining time strictly decreases. */
  predicate Countdown(ts: seq<Clock>, period: Period) {
    (forall i :: 0 <= i < |ts| ==> WellFormedTick(ts[i], period)) &&
    (forall i, j :: 0 <= i < j < |ts| ==> TenthsRemaining(ts[i]) > TenthsRemaining(ts[j]))
  }

  lemma {:induction false} CountdownAppend(a: seq<Clock>, b: seq<Clock>, period: Period)
    requires Countdown(a, period) && Countdown(b, period)
    requires forall i, j :: 0 <= i < |a| && 0 <= j < |b| ==> TenthsRemaining(a[i]) > TenthsRemaining(b[j])
    ensures Countdown(a + b, period)
  {
    var s := a + b;
    forall i, j | 0 <= i < j < |s| ensures TenthsRemaining(s[i]) > TenthsRemaining(s[j]) {
      if j < |a| {
      } else if i >= |a| {
        assert s[i] == b[i - |a|] && s[j] == b[j - |a|];
      } else {
        assert s[i] == a[i] && s[j] == b[j - |a|];
      }
    }
  }

  /** That the cutoff second is a real second whenever the cutoff minute can be reached. */
  predicate CutoffReadable(lastMinute: int, lastSecond: int) {
    lastMinute < 0 || lastSecond >= 0
  }

  lemma {:induction false} SecondTicksCountdown(period: Period, minute: int, lastMinute: int, lastSecond: int)
    requires minute >= 0 && CutoffReadable(lastMinute, lastSecond)
    ensures var r := SecondTicks(period, minute, SecondRange(minute, lastMinute, lastSecond));
      Countdown(r, period) &&
      forall i :: 0 <= i < |r| ==> 600 * minute <= TenthsRemaining(r[i]) < 600 * (minute + 1)
  {
    var seconds := SecondRange(minute, lastMinute, lastSecond);
    var r := SecondTicks(period, minute, seconds);
    forall i | 0 <= i < |r|
      ensures WellFormedTick(r[i], period) && 600 * minute <= TenthsRemaining(r[i]) < 600 * (minute + 1)
    {
      assert r[i] == Tick(period, minute, seconds[i], None);
      assert 0 <= seconds[i] <= 59;
    }
    forall i, j | 0 <= i < j < |r| ensures TenthsRemaining(r[i]) > TenthsRemaining(r[j]) {
      assert r[i] == Tick(period, minute, seconds[i], None) && r[j] == Tick(period, minute, seconds[j], None);
      assert seconds[i] > seconds[j];
    }
  }

  lemma {:induction false} MinuteTicksCountdown(period: Period, minutes: seq<int>, lastMinute: int, lastSecond: int)
    requires forall i :: 0 <= i < |minutes| ==> minutes[i] >= 0
    requires forall i, j :: 0 <= i < j < |minutes| ==> minutes[i] > minutes[j]
    requires CutoffReadable(lastMinute, lastSecond)
    ensures var r := MinuteTicks(period, minutes, lastMinute, lastSecond);
      Countdown(r, period) &&
      (minutes != [] ==> forall i :: 0 <= i < |r| ==> TenthsRemaining(r[i]) < 600 * (minutes[0] + 1))
  {
    if minutes != [] {
      var row := SecondTicks(period, minutes[0], SecondRange(minutes[0], lastMinute, lastSecond));
      var tail := minutes[1..];
      var rest := MinuteTicks(period, tail, lastMinute, lastSecond);
      SecondTicksCountdown(period, minutes[0], lastMinute, lastSecond);
      MinuteTicksCountdown(period, tail, lastMinute, lastSecond);
      if tail != [] {
        assert tail[0] + 1 <= minutes[0];
      }
      CountdownStack(row, rest, period, 600 * minutes[0], 600 * (minutes[0] + 1));
      assert MinuteTicks(period, minutes, lastMinute, lastSecond) == row + rest;
    }
  }

  lemma {:induction false} TenthTicksCountdown(period: Period, seconds: seq<int>)
    requires forall i :: 0 <= i < |seconds| ==> 0 <= seconds[i] <= 59
    requires forall i, j :: 0 <= i < j < |seconds| ==> seconds[i] > seconds[j]
    ensures var r := TenthTicks(period, seconds);
      Countdown(r, period) &&
      (forall i :: 0 <= i < |r| ==> TenthsRemaining(r[i]) < 600) &&
      (seconds != [] ==> forall i :: 0 <= i < |r| ==> TenthsRemaining(r[i]) < 10 * (seconds[0] + 1))
  {
    if seconds != [] {
      var row := TenthsOfSecond(period, seconds[0], TenthRange());
      var rest := TenthTicks(period, seconds[1..]);
      TenthsOfSecondCountdown(period, seconds[0], TenthRange());
      TenthTicksCountdown(period, seconds[1..]);
      if |seconds| > 1 {
        assert seconds[1..][0] + 1 <= seconds[0];
      }
      CountdownStack(row, rest, period, 10 * seconds[0], 10 * (seconds[0] + 1));
      assert TenthTicks(period, seconds) == row + rest;
    }
  }

  /** A countdown within [lo, hi) followed by a countdown below lo is a countdown below hi. */
  lemma {:induction false} CountdownStack(row: seq<Clock>, rest: seq<Clock>, period: Period, lo: int, hi: int)
    requires lo <= hi && Countdown(row, period) && Countdown(rest, period)
    requires forall i :: 0 <= i < |row| ==> lo <= TenthsRemaining(row[i]) < hi
    requires forall j :: 0 <= j < |rest| ==> TenthsRemaining(rest[j]) < lo
    ensures Countdown(row + rest, period)
    ensures forall i :: 0 <= i < |row + rest| ==> TenthsRemaining((row + rest)[i]) < hi
  {
    CountdownAppend(row, rest, period);
    var s := row + rest;
    forall i | 0 <= i < |s| ensures TenthsRemaining(s[i]) < hi {
      if i < |row| {
        assert s[i] == row[i];
      } else {
        assert s[i] == rest[i - |row|];
      }
    }
  }

  /** The tenth ticks of one second count down within that second. */
  lemma {:induction false} TenthsOfSecondCountdown(period: Period, second: int, tenths: seq<int>)
    requires 0 <= second <= 59
    requires forall i :: 0 <= i < |tenths| ==> 0 <= tenths[i] <= 9
    requires forall i, j :: 0 <= i < j < |tenths| ==> tenths[i] > tenths[j]
    ensures var r := TenthsOfSecond(period, second, tenths);
      Countdown(r, period) &&
      forall i :: 0 <= i < |r| ==> 10 * second <= TenthsRemaining(r[i]) < 10 * (second + 1)
  {
    var r := TenthsOfSecond(period, second, tenths);
    forall i | 0 <= i < |r|
      ensures WellFormedTick(r[i], period) && 10 * second <= TenthsRemaining(r[i]) < 10 * (second + 1)
    {
      assert r[i] == Tick(period, 0, second, Some(tenths[i]));
    }
    forall i, j | 0 <= i < j < |r| ensures TenthsRemaining(r[i]) > TenthsRemaining(r[j]) {
      assert r[i] == Tick(period, 0, second, Some(tenths[i])) && r[j] == Tick(period, 0, second, Some(tenths[j]));
    }
  }

  /** In a countdown, minute-0 ticks come after all others. */
  lemma {:induction false} MinuteZeroIsSuffix(ts: seq<Clock>, period: Period, i: int, j: int)
    requires Countdown(ts, period)
    requires 0 <= i < j < |ts| && IsMinuteZero(ts[i])
    ensures IsMinuteZero(ts[j])
  {
    assert TenthsRemaining(ts[j]) < TenthsRemaining(ts[i]) < 600;
  }

  /** The whole-second ticks count down from below the period's length; in the third period
      none of them is in minute 0. */
  lemma {:induction false} SecondEventsCountdown(period: Period, durationInMinutes: int, lastMinute: int, lastSecond: int)
    requires CutoffReadable(lastMinute, lastSecond)
    ensures var r := SecondEvents(period, durationInMinutes, lastMinute, lastSecond);
      Countdown(r, period) &&
      (forall i :: 0 <= i < |r| ==> TenthsRemaining(r[i]) < 600 * durationInMinutes) &&
      (period == Num(3) ==> forall i :: 0 <= i < |r| ==> TenthsRemaining(r[i]) >= 600)
  {
    var minutes := MinuteRange(durationInMinutes, lastMinute);
    var all := GenerateSecondEvents(period, durationInMinutes, lastMinute, lastSecond);
    MinuteRangeHead(durationInMinutes, lastMinute);
    MinuteTicksCountdown(period, minutes, lastMinute, lastSecond);
    assert forall i :: 0 <= i < |all| ==> TenthsRemaining(all[i]) < 600 * durationInMinutes;
    if period == Num(3) {
      DropMinuteZeroCountdown(all, period, 600 * durationInMinutes);
    }
  }

  /** The minutes of a period start from the one below its length. */
  lemma {:induction false} MinuteRangeHead(firstMinute: int, lastMinute: int)
    ensures var m := MinuteRange(firstMinute, lastMinute);
      (forall i :: 0 <= i < |m| ==> m[i] >= 0) &&
      (forall i, j :: 0 <= i < j < |m| ==> m[i] > m[j]) &&
      (m != [] ==> m[0] == firstMinute - 1)
  {
  }

  /** Dropping the trailing minute-0 ticks of a countdown leaves a countdown, under the same
      bound, of ticks that are all at least a minute from the end. */
  lemma {:induction false} DropMinuteZeroCountdown(all: seq<Clock>, period: Period, bound: int)
    requires Countdown(all, period)
    requires forall i :: 0 <= i < |all| ==> TenthsRemaining(all[i]) < bound
    ensures var r := DropTrailingMinuteZero(all);
      Countdown(r, period) &&
      (forall i :: 0 <= i < |r| ==> TenthsRemaining(r[i]) < bound) &&
      (forall i :: 0 <= i < |r| ==> TenthsRemaining(r[i]) >= 600)
  {
    var r := DropTrailingMinuteZero(all);
    assert r == all[..|r|];
    forall i | 0 <= i < |r| ensures r[i] == all[i] && TenthsRemaining(r[i]) >= 600 {
      assert r[i] == all[i];
      if IsMinuteZero(r[i]) {
        if i < |r| - 1 {
          MinuteZeroIsSuffix(all, period, i, |r| - 1);
        }
        assert false;
      }
    }
  }

  lemma {:induction false} TenthEventsCountdown(period: Period, lastMinute: int, lastSecond: int)
    requires CutoffReadable(lastMinute, lastSecond)
    ensures var r := TenthEvents(period, lastMinute, lastSecond);
      Countdown(r, period) && (forall i :: 0 <= i < |r| ==> TenthsRemaining(r[i]) < 600) &&
      (r != [] ==> period == Num(3))
  {
    TenthTicksCountdown(period, SecondRange(0, lastMinute, lastSecond));
  }

  /** The period's ticks count down from its length: each strictly earlier than the one before. */
  lemma {:induction false} PeriodTicksCountdown(period: Period, durationInMinutes: int, endTime: Option<MinSec>)
    requires durationInMinutes >= 1
    requires endTime.Some? ==> endTime.value.second >= 0
    ensures Countdown(PeriodTicks(period, durationInMinutes, endTime), period)
  {
    var lastMinute := LastMinute(endTime);
    var lastSecond := LastSecond(endTime);
    var se := SecondEvents(period, durationInMinutes, lastMinute, lastSecond);
    var te := TenthEvents(period, lastMinute, lastSecond);
    SecondEventsCountdown(period, durationInMinutes, lastMinute, lastSecond);
    TenthEventsCountdown(period, lastMinute, lastSecond);
    CountdownOfParts(period, durationInMinutes, se, te);
  }

  /** The first tick, then the whole-second ticks below it, then tenth ticks below those. */
  lemma {:induction false} CountdownOfParts(period: Period, durationInMinutes: int, se: seq<Clock>, te: seq<Clock>)
    requires durationInMinutes >= 1
    requires Countdown(se, period) && Countdown(te, period)
    requires forall i :: 0 <= i < |se| ==> TenthsRemaining(se[i]) < 600 * durationInMinutes
    requires forall j :: 0 <= j < |te| ==> TenthsRemaining(te[j]) < 600
    requires te != [] ==> period == Num(3)
    requires period == Num(3) ==> forall i :: 0 <= i < |se| ==> TenthsRemaining(se[i]) >= 600
    ensures Countdown([Tick(period, durationInMinutes, 0, None)] + se + te, period)
  {
    var first := [Tick(period, durationInMinutes, 0, None)];
    CountdownAppend(first, se, period);
    forall i, j | 0 <= i < |first + se| && 0 <= j < |te|
      ensures TenthsRemaining((first + se)[i]) > TenthsRemaining(te[j])
    {
      if i > 0 {
        assert (first + se)[i] == se[i - 1];
      }
    }
    CountdownAppend(first + se, te, period);
  }

  /** A countdown has no adjacent repeats and the goal index never moves back along it. */
  lemma {:induction false} CountdownIsMonotone(ts: seq<Clock>, period: Period, allGoalsSorted: seq<Goal>)
    requires Countdown(ts, period) && period != SO
    ensures NoAdjacentRepeats(ts)
    ensures GoalIndexNonDecreasing(ts, allGoalsSorted)
  {
    forall i | 0 <= i < |ts| - 1
      ensures LastGoalIndex(ts[i], allGoalsSorted) <= LastGoalIndex(ts[i + 1], allGoalsSorted)
    {
      var a, b := ClockTime(ts[i]), ClockTime(ts[i + 1]);
      assert TenthsRemaining(ts[i]) > TenthsRemaining(ts[i + 1]);
      assert 60 * ts[i].minute + ts[i].second >= 60 * ts[i + 1].minute + ts[i + 1].second;
      assert ClockNotLater(a, b);
      forall k | 0 <= k < |allGoalsSorted| && HasGoalBeenScored(a, allGoalsSorted[k])
        ensures HasGoalBeenScored(b, allGoalsSorted[k])
      {
        PassedMonotone(a, b, GoalTime(allGoalsSorted[k]));
      }
      FindLastIndexMonotone(allGoalsSorted, g => HasGoalBeenScored(a, g), g => HasGoalBeenScored(b, g));
    }
  }

  /** Goal pauses only hold the clock: collapsing the repetitions of a period's events gives
      its plain tick sequence. */
  lemma {:induction false} PeriodEventsHoldTheClock(period: Period, durationInMinutes: int, endTime: Option<MinSec>,
                                                   allGoalsSorted: seq<Goal>, goalDelayMultiplier: nat)
    requires durationInMinutes >= 1 && period != SO
    requires endTime.Some? ==> endTime.value.second >= 0
    ensures Collapse(PeriodEvents(period, durationInMinutes, endTime, allGoalsSorted, goalDelayMultiplier))
      == PeriodTicks(period, durationInMinutes, endTime)
  {
    var ticks := PeriodTicks(period, durationInMinutes, endTime);
    PeriodTicksCountdown(period, durationInMinutes, endTime);
    CountdownExpansion(ticks, period, allGoalsSorted, goalDelayMultiplier);
  }

  /** Along any countdown of a period with a clock (not the shootout), the expansion only
      repeats ticks, and adds exactly multiplier copies per goal passed between the first and
      the last tick. */
  lemma {:induction false} CountdownExpansion(ticks: seq<Clock>, period: Period, allGoalsSorted: seq<Goal>, goalDelayMultiplier: nat)
    requires ticks != [] && Countdown(ticks, period) && period != SO
    ensures Collapse(MultiplyGoalScoringTimeEvents(ticks, allGoalsSorted, goalDelayMultiplier)) == ticks
    ensures |MultiplyGoalScoringTimeEvents(ticks, allGoalsSorted, goalDelayMultiplier)|
      == |ticks| + goalDelayMultiplier *
        (LastGoalIndex(ticks[|ticks| - 1], allGoalsSorted) - LastGoalIndex(ticks[0], allGoalsSorted))
  {
    CountdownIsMonotone(ticks, period, allGoalsSorted);
    MultiplyCollapse(ticks, allGoalsSorted, goalDelayMultiplier);
    MultiplyLength(ticks, allGoalsSorted, goalDelayMultiplier);
  }

  /** With no goal passed anywhere along the clock events, nothing is repeated. */
  lemma {:induction false} MultiplyWithoutGoals(clockEvents: seq<Clock>, allGoalsSorted: seq<Goal>, goalDelayMultiplier: int)
    requires clockEvents != []
    requires forall i :: 0 <= i < |clockEvents| ==>
      LastGoalIndex(clockEvents[i], allGoalsSorted) == LastGoalIndex(clockEvents[0], allGoalsSorted)
    ensures MultiplyGoalScoringTimeEvents(clockEvents, allGoalsSorted, goalDelayMultiplier) == clockEvents
  {
    RepeatEachConstant(clockEvents, GoalIndexOf(allGoalsSorted), goalDelayMultiplier);
  }

  // ---- Contents of the tick sequence ------------------------------------------------------------

  lemma {:induction false} SecondTicksMembers(period: Period, minute: int, seconds: seq<int>, c: Clock)
    ensures c in SecondTicks(period, minute, seconds) <==>
      c.Tick? && c.period == period && c.minute == minute && c.second in seconds && c.tenth.None?
  {
    var r := SecondTicks(period, minute, seconds);
    if c.Tick? && c.period == period && c.minute == minute && c.second in seconds && c.tenth.None? {
      var i :| 0 <= i < |seconds| && seconds[i] == c.second;
      assert r[i] == c;
    }
  }

  lemma {:induction false} MinuteTicksMembers(period: Period, minutes: seq<int>, lastMinute: int, lastSecond: int, c: Clock)
    ensures c in MinuteTicks(period, minutes, lastMinute, lastSecond) <==>
      c.Tick? && c.period == period && c.tenth.None? && c.minute in minutes &&
      c.second in SecondRange(c.minute, lastMinute, lastSecond)
  {
    if minutes != [] {
      SecondTicksMembers(period, minutes[0], SecondRange(minutes[0], lastMinute, lastSecond), c);
      MinuteTicksMembers(period, minutes[1..], lastMinute, lastSecond, c);
      assert minutes == [minutes[0]] + minutes[1..];
    }
  }

  /** Dropping the trailing minute-0 ticks of a countdown drops exactly its minute-0 ticks. */
  lemma {:induction false} DropTrailingMinuteZeroMembers(events: seq<Clock>, period: Period, c: Clock)
    requires Countdown(events, period)
    ensures c in DropTrailingMinuteZero(events) <==> c in events && !IsMinuteZero(c)
  {
    var r := DropTrailingMinuteZero(events);
    if c in r {
      var i :| 0 <= i < |r| && r[i] == c;
      assert events[i] == c;
      if IsMinuteZero(c) && i < |r| - 1 {
        MinuteZeroIsSuffix(events, period, i, |r| - 1);
      }
    }
    if c in events && !IsMinuteZero(c) {
      var i :| 0 <= i < |events| && events[i] == c;
      assert i < |r|;
      assert r[i] == c;
    }
  }

  /** The whole-second ticks: every third second from 59 down, in each minute from one below
      the period's length down to the cutoff minute (or 0), in the cutoff minute only at or
      above the cutoff second, and in the third period none in minute 0. */
  lemma {:induction false} SecondEventsMembers(period: Period, durationInMinutes: int, lastMinute: int, lastSecond: int,
                                              minute: int, second: int)
    requires CutoffReadable(lastMinute, lastSecond)
    ensures Tick(period, minute, second, None) in SecondEvents(period, durationInMinutes, lastMinute, lastSecond)
      <==>
      Max(lastMinute, 0) <= minute <= durationInMinutes - 1 &&
      (period == Num(3) ==> minute >= 1) &&
      (if minute == lastMinute then lastSecond else 0) <= second <= 59 &&
      (59 - second) % AdvanceClockStep == 0
  {
    var c := Tick(period, minute, second, None);
    var minutes := MinuteRange(durationInMinutes, lastMinute);
    var all := GenerateSecondEvents(period, durationInMinutes, lastMinute, lastSecond);
    MinuteTicksMembers(period, minutes, lastMinute, lastSecond, c);
    assert c in all <==> minute in minutes && second in SecondRange(minute, lastMinute, lastSecond);
    RangeDownMembers(durationInMinutes - 1, Max(lastMinute - 1, -1), 1, minute);
    assert minute in minutes <==> Max(lastMinute, 0) <= minute <= durationInMinutes - 1;
    SecondRangeMembers(minute, lastMinute, lastSecond, second);
    if period == Num(3) {
      MinuteTicksCountdown(period, minutes, lastMinute, lastSecond);
      DropTrailingMinuteZeroMembers(all, period, c);
    }
  }

  lemma {:induction false} SecondRangeMembers(minute: int, lastMinute: int, lastSecond: int, second: int)
    ensures second in SecondRange(minute, lastMinute, lastSecond) <==>
      (if minute == lastMinute then lastSecond else 0) <= second <= 59 &&
      (59 - second) % AdvanceClockStep == 0
  {
    RangeDownMembers(59, if minute == lastMinute then lastSecond - 1 else -1, AdvanceClockStep, second);
  }

  /** Whole-second ticks carry no tenth. */
  lemma {:induction false} SecondEventsAreWholeSeconds(period: Period, durationInMinutes: int, lastMinute: int, lastSecond: int, c: Clock)
    requires c in SecondEvents(period, durationInMinutes, lastMinute, lastSecond)
    ensures c.Tick? && c.period == period && c.tenth.None?
  {
    var minutes := MinuteRange(durationInMinutes, lastMinute);
    MinuteTicksMembers(period, minutes, lastMinute, lastSecond, c);
  }

  lemma {:induction false} TenthTicksMembers(period: Period, seconds: seq<int>, c: Clock)
    ensures c in TenthTicks(period, seconds) <==>
      c.Tick? && c.period == period && c.minute == 0 && c.second in seconds &&
      c.tenth.Some? && c.tenth.value in TenthRange()
  {
    if seconds != [] {
      var row := TenthsOfSecond(period, seconds[0], TenthRange());
      TenthTicksMembers(period, seconds[1..], c);
      if c.Tick? && c.period == period && c.minute == 0 && c.second == seconds[0] &&
         c.tenth.Some? && c.tenth.value in TenthRange() {
        var i :| 0 <= i < |TenthRange()| && TenthRange()[i] == c.tenth.value;
        assert row[i] == c;
      }
      assert seconds == [seconds[0]] + seconds[1..];
    }
  }

  /** The tenth ticks: only in the third period with a cutoff minute below 1, in minute 0 at
      every third second from 59 down (at or above the cutoff second when the cutoff is in
      minute 0), each with tenths 9, 6, 3 and 0. */
  lemma {:induction false} TenthEventsMembers(period: Period, lastMinute: int, lastSecond: int,
                                             minute: int, second: int, tenth: int)
    ensures Tick(period, minute, second, Some(tenth)) in TenthEvents(period, lastMinute, lastSecond)
      <==>
      period == Num(3) && lastMinute < 1 && minute == 0 &&
      (if lastMinute == 0 then lastSecond else 0) <= second <= 59 &&
      (59 - second) % AdvanceClockStep == 0 &&
      tenth in {9, 6, 3, 0}
  {
    if period == Num(3) && lastMinute < 1 {
      var seconds := SecondRange(0, lastMinute, lastSecond);
      TenthTicksMembers(period, seconds, Tick(period, minute, second, Some(tenth)));
      SecondRangeMembers(0, lastMinute, lastSecond, second);
      TenthRangeMembers(tenth);
    }
  }

  lemma {:induction false} TenthRangeMembers(tenth: int)
    ensures tenth in TenthRange() <==> tenth in {9, 6, 3, 0}
  {
    RangeDownMembers(9, -1, AdvanceClockStep, tenth);
  }

  /** Tenth ticks are third-period ticks of minute 0. */
  lemma {:induction false} TenthEventsAreLastMinute(period: Period, lastMinute: int, lastSecond: int, c: Clock)
    requires c in TenthEvents(period, lastMinute, lastSecond)
    ensures c.Tick? && c.period == Num(3) && c.minute == 0 && c.tenth.Some?
  {
    TenthTicksMembers(period, SecondRange(0, lastMinute, lastSecond), c);
  }

  /** The opening tick, at the period's full length, is emitted exactly once: goal pauses
      never repeat it. */
  lemma {:induction false} FirstTickOnce(period: Period, durationInMinutes: int, endTime: Option<MinSec>,
                                       allGoalsSorted: seq<Goal>, goalDelayMultiplier: int)
    requires durationInMinutes >= 1
    requires endTime.Some? ==> endTime.value.second >= 0
    ensures Count(PeriodEvents(period, durationInMinutes, endTime, allGoalsSorted, goalDelayMultiplier),
                  Tick(period, durationInMinutes, 0, None)) == 1
  {
    var ticks := PeriodTicks(period, durationInMinutes, endTime);
    var first := Tick(period, durationInMinutes, 0, None);
    PeriodTicksCountdown(period, durationInMinutes, endTime);
    FirstOfCountdownOnce(ticks, period, allGoalsSorted, goalDelayMultiplier);
  }

  lemma {:induction false} FirstOfCountdownOnce(ticks: seq<Clock>, period: Period, allGoalsSorted: seq<Goal>, goalDelayMultiplier: int)
    requires ticks != [] && Countdown(ticks, period)
    ensures Count(MultiplyGoalScoringTimeEvents(ticks, allGoalsSorted, goalDelayMultiplier), ticks[0]) == 1
  {
    var rest := RepeatEach(ticks, GoalIndexOf(allGoalsSorted), goalDelayMultiplier);
    assert ticks[0] !in ticks[1..] by {
      forall i | 1 <= i < |ticks| ensures ticks[i] != ticks[0] {
        assert TenthsRemaining(ticks[0]) > TenthsRemaining(ticks[i]);
      }
    }
    RepeatEachFromTail(ticks, GoalIndexOf(allGoalsSorted), goalDelayMultiplier);
    assert ticks[0] !in rest;
    assert multiset([ticks[0]] + rest)[ticks[0]] == 1 + multiset(rest)[ticks[0]];
  }
  /** Each tick of a countdown after the first is played 1 + multiplier × (goals scored since
      the previous tick) times, and not at all when that count is not positive. */
  lemma {:induction false} MultiplyRunLength(ticks: seq<Clock>, period: Period, allGoalsSorted: seq<Goal>,
                                            goalDelayMultiplier: int, i: int)
    requires Countdown(ticks, period) && 1 <= i < |ticks|
    ensures Count(MultiplyGoalScoringTimeEvents(ticks, allGoalsSorted, goalDelayMultiplier), ticks[i])
      == var n := 1 + GoalsScoredCountInRange(ticks[i - 1], ticks[i], allGoalsSorted) * goalDelayMultiplier;
         if n <= 0 then 0 else n
  {
    var idx := GoalIndexOf(allGoalsSorted);
    var rest := RepeatEach(ticks, idx, goalDelayMultiplier);
    forall a, b | 0 <= a < b < |ticks| ensures ticks[a] != ticks[b] {
      assert TenthsRemaining(ticks[a]) > TenthsRemaining(ticks[b]);
    }
    IndexStepIsGoalsScored(ticks[i - 1], ticks[i], allGoalsSorted);
    HeadThenRepeatEachCount(ticks, idx, goalDelayMultiplier, i,
                            GoalsScoredCountInRange(ticks[i - 1], ticks[i], allGoalsSorted));
    assert MultiplyGoalScoringTimeEvents(ticks, allGoalsSorted, goalDelayMultiplier) == [ticks[0]] + rest;
  }

  /** The step of the goal index between two clocks is the count goalsScoredCountInRange adds. */
  lemma {:induction false} IndexStepIsGoalsScored(previousClock: Clock, currentClock: Clock, allGoalsSorted: seq<Goal>)
    ensures GoalIndexOf(allGoalsSorted)(currentClock) - GoalIndexOf(allGoalsSorted)(previousClock)
      == GoalsScoredCountInRange(previousClock, currentClock, allGoalsSorted)
  {
  }
}
