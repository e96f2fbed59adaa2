/** The whole playback timeline (game-events.js): the furthest point any game has reached
    decides which periods are played back; the periods' tick lists are stitched between a
    start pause, period-end pauses and one end marker. */
module TimelineComposer {
  import opened Seqs
  import opened Types
  import opened TimeUtils
  import opened PeriodSequencer

  /** How many extra events each pause lasts. */
  const PauseMultiplier := 50
  const GamesStartPauseEventCount := 1 * PauseMultiplier
  const PeriodEndPauseEventCount := 3 * PauseMultiplier
  const GoalPauseEventCount := 1 * PauseMultiplier

  const RegularPeriodMinutes := 20
  const OvertimeMinutes := 5

  // ---- End time of one game --------------------------------------------------------------------

  /** `getGameEndTimeFromProgress`: where a live game is. 0:00 remaining means the period is
      over; a regular-season game in overtime or shootout is in the `'OT'`/`'SO'` period,
      any other game in its numbered period. */
  function GameEndTimeFromProgress(progress: Progress, isPlayoffGame: bool): (r: EndTime)
    ensures r.inProgress
    ensures r.remaining.None? <==> progress.timeRemaining.min == 0 && progress.timeRemaining.sec == 0
    ensures r.remaining.Some? ==>
      r.remaining.value == MinSec(progress.timeRemaining.min, progress.timeRemaining.sec)
    ensures r.period == OT <==> !isPlayoffGame && progress.currentPeriodOrdinal == "OT"
    ensures r.period == SO <==> !isPlayoffGame && progress.currentPeriodOrdinal == "SO"
    ensures r.period.Num? ==> r.period.n == progress.currentPeriod
  {
    var min, sec := progress.timeRemaining.min, progress.timeRemaining.sec;
    var hasEnded := min == 0 && sec == 0;
    var ordinal := progress.currentPeriodOrdinal;
    var period :=
      if !isPlayoffGame && ordinal == "OT" then OT
      else if !isPlayoffGame && ordinal == "SO" then SO
      else Num(progress.currentPeriod);
    EndTime(period, if hasEnded then None else Some(MinSec(min, sec)), true)
  }

  /** An overtime goal: in `'OT'` or a numbered period above 3. */
  predicate IsOvertime(period: Period) {
    period == OT || (period.Num? && period.n > 3)
  }

  /** `getGameEndTimeFromGoals`: a finished game ended at its last goal when that was in
      overtime, after the shootout, or else at the end of the third period. */
  function GameEndTimeFromGoals(goals: seq<Goal>): (r: Option<EndTime>)
    ensures r.None? <==> goals == []
    ensures r.Some? ==> !r.value.inProgress
    ensures r.Some? ==> var last := goals[|goals| - 1];
      (IsOvertime(last.period) ==> r.value.period == last.period && r.value.remaining.Some?) &&
      (last.period == SO ==> r.value == EndTime(SO, None, false)) &&
      (!IsOvertime(last.period) && last.period != SO ==> r.value == EndTime(Num(3), None, false))
  {
    if goals == [] then None
    else
      var lastGoal := goals[|goals| - 1];
      if IsOvertime(lastGoal.period) then
        var t := ElapsedTimeToRemainingTime(GoalTime(lastGoal));
        Some(EndTime(lastGoal.period, Some(MinSec(t.minute.value, t.second.value)), false))
      else if lastGoal.period == SO then Some(EndTime(SO, None, false))
      else Some(EndTime(Num(3), None, false))
  }

  /** A finished game decided in overtime ends exactly at its last goal: the remaining time
      of the end, read back as elapsed time, is the goal's time. */
  lemma {:induction false} OvertimeEndIsLastGoal(goals: seq<Goal>)
    requires goals != [] && IsOvertime(goals[|goals| - 1].period)
    requires 0 <= goals[|goals| - 1].sec < 60
    ensures var e := GameEndTimeFromGoals(goals).value;
      RemainingTimeToElapsedTime(Time(Some(e.period), Some(e.remaining.value.minute), Some(e.remaining.value.second)))
        == GoalTime(goals[|goals| - 1])
  {
    ConversionRoundTrip(GoalTime(goals[|goals| - 1]));
  }

  predicate IsPlayoffGame(game: Game) {
    game.playoffSeries.Some?
  }

  /** The game is live and its progress is known: the feed always carries progress for a
      live game. */
  predicate ProgressKnownWhenLive(game: Game) {
    game.status.state == Live ==> game.status.progress.Some?
  }

  /** `getGameEndTime`: live games by their progress, all others by their goals. */
  function GameEndTime(game: Game): (r: Option<EndTime>)
    requires ProgressKnownWhenLive(game)
    ensures game.status.state == Live ==>
      r == Some(GameEndTimeFromProgress(game.status.progress.value, IsPlayoffGame(game)))
    ensures game.status.state != Live ==> r == GameEndTimeFromGoals(game.goals)
    ensures r.Some? && r.value.inProgress ==> game.status.state == Live
  {
    if game.status.state == Live
    then Some(GameEndTimeFromProgress(game.status.progress.value, IsPlayoffGame(game)))
    else GameEndTimeFromGoals(game.goals)
  }

  // ---- The horizon ---------------------------------------------------------------------------

  /** `getTimeValueIteratee`: remaining time sorts descending, and a finished period last. */
  function MinuteKey(e: EndTime): int {
    if e.remaining.None? then 0 else -e.remaining.value.minute
  }

  function SecondKey(e: EndTime): int {
    if e.remaining.None? then 0 else -e.remaining.value.second
  }

  /** a sorts strictly before b under the iteratees: period, then minute, then second. */
  predicate EndTimeBefore(a: EndTime, b: EndTime) {
    PeriodBefore(a.period, b.period) ||
    (SameRank(a.period, b.period) &&
     (MinuteKey(a) < MinuteKey(b) || (MinuteKey(a) == MinuteKey(b) && SecondKey(a) < SecondKey(b))))
  }

  /** Not sorting before is transitive, so the maximum is well defined. */
  lemma {:induction false} NotBeforeTransitive(a: EndTime, b: EndTime, c: EndTime)
    requires !EndTimeBefore(a, b) && !EndTimeBefore(b, c)
    ensures !EndTimeBefore(a, c)
  {
  }

  /** `sortBy(...).last()` of a stable sort: the index of the last of the greatest elements. */
  function LatestIndex(ends: seq<EndTime>): (k: nat)
    requires ends != []
    ensures k < |ends|
    ensures forall i :: 0 <= i < |ends| ==> !EndTimeBefore(ends[k], ends[i])
    ensures forall i :: k < i < |ends| ==> EndTimeBefore(ends[i], ends[k])
  {
    if |ends| == 1 then 0
    else
      var n := |ends| - 1;
      var k := LatestIndex(ends[..n]);
      assert forall i :: 0 <= i < n ==> ends[..n][i] == ends[i];
      if EndTimeBefore(ends[n], ends[k]) then k
      else
        assert forall i :: 0 <= i < n ==> !EndTimeBefore(ends[n], ends[i]) by {
          forall i | 0 <= i < n ensures !EndTimeBefore(ends[n], ends[i]) {
            NotBeforeTransitive(ends[n], ends[k], ends[i]);
          }
        }
        n
  }

  /** The end times of the games that have one, in order. */
  function KnownEndTimes(games: seq<Game>): (r: seq<EndTime>)
    requires forall i :: 0 <= i < |games| ==> ProgressKnownWhenLive(games[i])
    ensures forall e {:trigger e in r} :: e in r <==> exists i :: 0 <= i < |games| && GameEndTime(games[i]) == Some(e)
    ensures r == [] <==> forall i :: 0 <= i < |games| ==> GameEndTime(games[i]).None?
  {
    if games == [] then []
    else
      var rest := KnownEndTimes(games[1..]);
      assert forall i :: 1 <= i < |games| ==> games[1..][i - 1] == games[i];
      (match GameEndTime(games[0]) case Some(e) => [e] case None => []) + rest
  }

  predicate AllProgressKnown(games: seq<Game>) {
    forall i :: 0 <= i < |games| ==> ProgressKnownWhenLive(games[i])
  }

  /** `getClockEndTime`: the furthest end time of any game; none when no game has one. */
  function ClockEndTime(games: seq<Game>): (r: Option<EndTime>)
    requires AllProgressKnown(games)
    ensures r.None? <==> forall i :: 0 <= i < |games| ==> GameEndTime(games[i]).None?
    ensures r.Some? ==> exists i :: 0 <= i < |games| && GameEndTime(games[i]) == r
    ensures r.Some? ==> forall i :: 0 <= i < |games| && GameEndTime(games[i]).Some? ==>
      !EndTimeBefore(r.value, GameEndTime(games[i]).value)
  {
    var ends := KnownEndTimes(games);
    if ends == [] then None
    else
      var r := ends[LatestIndex(ends)];
      assert r in ends;
      forall i | 0 <= i < |games| && GameEndTime(games[i]).Some?
        ensures !EndTimeBefore(r, GameEndTime(games[i]).value)
      {
        var e := GameEndTime(games[i]).value;
        assert e in ends;
      }
      Some(r)
  }

  // ---- Goals in playback order ----------------------------------------------------------------------

  function FlattenGoals(games: seq<Game>): (r: seq<Goal>)
    ensures forall g :: g in r <==> exists i :: 0 <= i < |games| && g in games[i].goals
  {
    if games == [] then []
    else
      assert forall i :: 1 <= i < |games| ==> games[1..][i - 1] == games[i];
      games[0].goals + FlattenGoals(games[1..])
  }

  /** Inserts g in front of the first element it sorts at or before. */
  function InsertGoal(g: Goal, sorted: seq<Goal>): (r: seq<Goal>)
    ensures multiset(r) == multiset(sorted) + multiset{g}
  {
    if sorted == [] then [g]
    else if GoalLe(g, sorted[0]) then [g] + sorted
    else
      assert sorted == [sorted[0]] + sorted[1..];
      [sorted[0]] + InsertGoal(g, sorted[1..])
  }

  /** Stable sort by (period, min, sec). */
  function SortGoals(goals: seq<Goal>): (r: seq<Goal>)
    ensures multiset(r) == multiset(goals)
  {
    if goals == [] then []
    else
      assert goals == [goals[0]] + goals[1..];
      InsertGoal(goals[0], SortGoals(goals[1..]))
  }

  /** `getAllGoalSorted`: every game's goals, flattened and stably sorted. */
  function AllGoalSorted(games: seq<Game>): seq<Goal> {
    SortGoals(FlattenGoals(games))
  }

  lemma {:induction false} InsertGoalSorted(g: Goal, sorted: seq<Goal>)
    requires GoalsSorted(sorted)
    ensures GoalsSorted(InsertGoal(g, sorted))
  {
    if sorted != [] && !GoalLe(g, sorted[0]) {
      var tail := sorted[1..];
      var t := InsertGoal(g, tail);
      InsertGoalSorted(g, tail);
      GoalLeTotalPreorder(g, sorted[0], sorted[0]);
      forall x | x in t ensures GoalLe(sorted[0], x) {
        assert x in multiset(t);
        if x != g {
          assert x in multiset(tail);
          var j :| 0 <= j < |tail| && tail[j] == x;
          assert sorted[j + 1] == x;
        }
      }
      assert InsertGoal(g, sorted) == [sorted[0]] + t;
      SortedCons(sorted[0], t);
    } else if sorted != [] {
      forall x | x in sorted ensures GoalLe(g, x) {
        var j :| 0 <= j < |sorted| && sorted[j] == x;
        GoalLeTotalPreorder(g, sorted[0], x);
      }
      assert InsertGoal(g, sorted) == [g] + sorted;
      SortedCons(g, sorted);
    }
  }

  /** A goal sorting at or before every goal of a sorted list can go in front of it. */
  lemma {:induction false} SortedCons(h: Goal, t: seq<Goal>)
    requires GoalsSorted(t)
    requires forall x :: x in t ==> GoalLe(h, x)
    ensures GoalsSorted([h] + t)
  {
    var r := [h] + t;
    forall i, j | 0 <= i < j < |r| ensures GoalLe(r[i], r[j]) {
      assert r[j] == t[j - 1];
      if i == 0 {
        assert r[j] in t;
      } else {
        assert r[i] == t[i - 1];
      }
    }
  }

  /** The two goals have the same sort key. */
  predicate SameKey(g: Goal, h: Goal) {
    GoalLe(g, h) && GoalLe(h, g)
  }

  function SameKeyAs(g: Goal): Goal -> bool {
    h => SameKey(g, h)
  }

  /** Two goals with the sort key of a third are ordered both ways. */
  lemma {:induction false} SameKeyOrdered(g: Goal, x: Goal, y: Goal)
    ensures SameKey(g, x) && SameKey(g, y) ==> GoalLe(x, y)
  {
    GoalLeTotalPreorder(x, g, y);
  }

  /** Inserting a goal puts it in front of all goals with its sort key. */
  lemma {:induction false} InsertGoalStable(x: Goal, sorted: seq<Goal>, g: Goal)
    ensures Filter(InsertGoal(x, sorted), SameKeyAs(g))
      == (if SameKeyAs(g)(x) then [x] else []) + Filter(sorted, SameKeyAs(g))
  {
    var k := SameKeyAs(g);
    if sorted != [] && !GoalLe(x, sorted[0]) {
      var y := sorted[0];
      InsertGoalStable(x, sorted[1..], g);
      SameKeyOrdered(g, x, y);
      var inserted := InsertGoal(x, sorted[1..]);
      assert sorted == [y] + sorted[1..];
      assert InsertGoal(x, sorted) == [y] + inserted;
      FilterPassFront(x, y, sorted[1..], inserted, k);
    } else {
      assert InsertGoal(x, sorted) == [x] + sorted;
      FilterCons(x, sorted, k);
    }
  }

  lemma {:induction false} SortGoalsStable(goals: seq<Goal>, g: Goal)
    ensures Filter(SortGoals(goals), SameKeyAs(g)) == Filter(goals, SameKeyAs(g))
  {
    if goals != [] {
      SortGoalsStable(goals[1..], g);
      InsertGoalStable(goals[0], SortGoals(goals[1..]), g);
    }
  }

  lemma {:induction false} SortGoalsSorted(goals: seq<Goal>)
    ensures GoalsSorted(SortGoals(goals))
  {
    if goals != [] {
      SortGoalsSorted(goals[1..]);
      InsertGoalSorted(goals[0], SortGoals(goals[1..]));
    }
  }

  /** The playback goal list is sorted, holds exactly the games' goals, and keeps goals of
      equal time in their original order. */
  lemma {:induction false} AllGoalSortedIsStableSort(games: seq<Game>, g: Goal)
    ensures GoalsSorted(AllGoalSorted(games))
    ensures multiset(AllGoalSorted(games)) == multiset(FlattenGoals(games))
    ensures Filter(AllGoalSorted(games), SameKeyAs(g)) == Filter(FlattenGoals(games), SameKeyAs(g))
  {
    SortGoalsSorted(FlattenGoals(games));
    SortGoalsStable(FlattenGoals(games), g);
  }

  // ---- Periods played back ------------------------------------------------------------------------

  datatype PeriodClock = PeriodClock(period: Period, events: seq<Clock>)

  /** `hasLastPeriodEnded`. */
  predicate HasLastPeriodEnded(endTime: EndTime) {
    endTime.remaining.None?
  }

  /** `getPartialPeriodNumber`: a numbered period that is still being played. */
  function PartialPeriodNumber(endTime: EndTime): Option<PeriodNumber> {
    if endTime.period.Num? && !HasLastPeriodEnded(endTime) then Some(endTime.period.n) else None
  }

  /** `getLastFullPeriodNumber`: the ended numbered period, else 3. */
  function LastFullPeriodNumber(endTime: EndTime): int {
    if endTime.period.Num? && HasLastPeriodEnded(endTime) then endTime.period.n else 3
  }

  /** Full 20-minute periods 1 to count. */
  function FullPeriods(count: int, allGoalsSorted: seq<Goal>, mult: int): (r: seq<PeriodClock>)
    ensures |r| == if count <= 0 then 0 else count
    ensures forall i :: 0 <= i < |r| ==>
      r[i] == PeriodClock(Num(i + 1), PeriodEvents(Num(i + 1), RegularPeriodMinutes, None, allGoalsSorted, mult))
  {
    var n := if count <= 0 then 0 else count;
    seq(n, i requires 0 <= i < n =>
      PeriodClock(Num(i + 1), PeriodEvents(Num(i + 1), RegularPeriodMinutes, None, allGoalsSorted, mult)))
  }

  /** `getRegularPeriodClocks`. */
  function RegularPeriodClocks(endTime: EndTime, allGoalsSorted: seq<Goal>, mult: int): seq<PeriodClock> {
    var partial := PartialPeriodNumber(endTime);
    var lastFullPeriodNumber := if partial.Some? then partial.value - 1 else LastFullPeriodNumber(endTime);
    var fullPeriods := FullPeriods(lastFullPeriodNumber, allGoalsSorted, mult);
    if partial.Some? then
      fullPeriods + [PeriodClock(Num(partial.value),
        PeriodEvents(Num(partial.value), RegularPeriodMinutes, endTime.remaining, allGoalsSorted, mult))]
    else fullPeriods
  }

  /** The number of numbered periods played back: up to the horizon's, or 3. */
  function RegularPeriodCount(endTime: EndTime): PeriodNumber {
    if endTime.period.Num? then endTime.period.n else 3
  }

  /** The cutoff of a period: the horizon's remaining time in the horizon's period, none
      (played in full) everywhere else. */
  function CutoffIn(period: Period, endTime: EndTime): Option<MinSec> {
    if endTime.period == period then endTime.remaining else None
  }

  /** Numbered periods 1..N appear in order, N the horizon's numbered period or 3, each
      played in full except the horizon's own, which stops at the horizon. */
  lemma {:induction false} RegularPeriodsShown(endTime: EndTime, allGoalsSorted: seq<Goal>, mult: int)
    ensures var r := RegularPeriodClocks(endTime, allGoalsSorted, mult);
      |r| == RegularPeriodCount(endTime) &&
      forall i :: 0 <= i < |r| ==>
        r[i] == PeriodClock(Num(i + 1),
          PeriodEvents(Num(i + 1), RegularPeriodMinutes, CutoffIn(Num(i + 1), endTime), allGoalsSorted, mult))
  {
    if PartialPeriodNumber(endTime).Some? {
      PartialRegularPeriodsShown(endTime, allGoalsSorted, mult);
    }
  }

  /** With a numbered period still being played, the periods before it are full and it
      stops at the horizon. */
  lemma {:induction false} PartialRegularPeriodsShown(endTime: EndTime, allGoalsSorted: seq<Goal>, mult: int)
    requires PartialPeriodNumber(endTime).Some?
    ensures var r := RegularPeriodClocks(endTime, allGoalsSorted, mult);
      |r| == RegularPeriodCount(endTime) &&
      forall i :: 0 <= i < |r| ==>
        r[i] == PeriodClock(Num(i + 1),
          PeriodEvents(Num(i + 1), RegularPeriodMinutes, CutoffIn(Num(i + 1), endTime), allGoalsSorted, mult))
  {
    var r := RegularPeriodClocks(endTime, allGoalsSorted, mult);
    var n: int := PartialPeriodNumber(endTime).value;
    var full := FullPeriods(n - 1, allGoalsSorted, mult);
    var last := PeriodClock(Num(n), PeriodEvents(Num(n), RegularPeriodMinutes, endTime.remaining, allGoalsSorted, mult));
    assert r == full + [last];
    forall i | 0 <= i < |r| ensures r[i] == PeriodClock(Num(i + 1),
        PeriodEvents(Num(i + 1), RegularPeriodMinutes, CutoffIn(Num(i + 1), endTime), allGoalsSorted, mult))
    {
      AppendOneIndex(full, last, i);
      if i < n - 1 {
        assert CutoffIn(Num(i + 1), endTime) == None;
      } else {
        assert i + 1 == n;
      }
    }
  }

  /** `getOvertimeClock` as written: for an `'OT'` horizon it passes the horizon itself as the
      cutoff, whose minute is undefined when overtime has ended. */
  function OvertimeClockAsWritten(endTime: EndTime, allGoalsSorted: seq<Goal>, mult: int): Option<PeriodClock> {
    if endTime.period != SO && endTime.period != OT then None
    else if endTime.period == OT && endTime.remaining.None? then
      Some(PeriodClock(OT, MultiplyGoalScoringTimeEvents(
        OvertimeTicksWithUndefinedCutoff(), allGoalsSorted, mult)))
    else
      var periodEnd := if endTime.period == OT then endTime.remaining else None;
      Some(PeriodClock(OT, PeriodEvents(OT, OvertimeMinutes, periodEnd, allGoalsSorted, mult)))
  }

  /** The overtime ticks `periodEvents('OT', 5, endTime)` builds when endTime.minute is
      undefined: `Math.max(undefined - 1, -1)` is NaN, which `_.range` reads as 0, so the
      minutes run 4..1 only; no cutoff second applies. */
  function OvertimeTicksWithUndefinedCutoff(): seq<Clock> {
    [Tick(OT, OvertimeMinutes, 0, None)] + MinuteTicks(OT, RangeDown(OvertimeMinutes - 1, 0, 1), -1, -1)
  }

  /** As written, an overtime that was played to 0:00 is played back only down to 1:02: no
      tick of its last minute appears. */
  lemma {:induction false} OvertimeAsWrittenSkipsLastMinute(endTime: EndTime, allGoalsSorted: seq<Goal>, mult: int, second: int)
    requires endTime.period == OT && endTime.remaining.None?
    ensures var asWritten := OvertimeClockAsWritten(endTime, allGoalsSorted, mult);
      asWritten.Some? && Tick(OT, 0, second, None) !in asWritten.value.events
  {
    var c := Tick(OT, 0, second, None);
    MinuteTicksMembers(OT, RangeDown(OvertimeMinutes - 1, 0, 1), -1, -1, c);
    assert c !in OvertimeTicksWithUndefinedCutoff();
  }

  /** As written, an overtime played to 0:00 shows its full-length tick and the whole-second
      ticks 59, 56, …, 2 of minutes 4 down to 1, and nothing else. */
  lemma {:induction false} OvertimeAsWrittenMembers(endTime: EndTime, allGoalsSorted: seq<Goal>, mult: nat, c: Clock)
    requires endTime.period == OT && endTime.remaining.None?
    ensures var asWritten := OvertimeClockAsWritten(endTime, allGoalsSorted, mult);
      asWritten.Some? &&
      (c in asWritten.value.events <==>
        c == Tick(OT, OvertimeMinutes, 0, None) ||
        (c.Tick? && c.period == OT && c.tenth.None? && 1 <= c.minute <= 4 &&
         0 <= c.second <= 59 && (59 - c.second) % AdvanceClockStep == 0))
  {
    var ticks := OvertimeTicksWithUndefinedCutoff();
    OvertimeTicksWithUndefinedCutoffMembers(c);
    OvertimeTicksWithUndefinedCutoffCountdown();
    CountdownExpansion(ticks, OT, allGoalsSorted, mult);
    var events := MultiplyGoalScoringTimeEvents(ticks, allGoalsSorted, mult);
    if c in ticks {
      assert c in Collapse(events);
      CollapseKeepsElements(events, c);
    }
  }

  /** The ticks of an overtime whose cutoff minute is undefined. */
  lemma {:induction false} OvertimeTicksWithUndefinedCutoffMembers(c: Clock)
    ensures c in OvertimeTicksWithUndefinedCutoff() <==>
      c == Tick(OT, OvertimeMinutes, 0, None) ||
      (c.Tick? && c.period == OT && c.tenth.None? && 1 <= c.minute <= 4 &&
       0 <= c.second <= 59 && (59 - c.second) % AdvanceClockStep == 0)
  {
    var minutes := RangeDown(OvertimeMinutes - 1, 0, 1);
    MinuteTicksMembers(OT, minutes, -1, -1, c);
    if c.Tick? {
      RangeDownMembers(OvertimeMinutes - 1, 0, 1, c.minute);
      SecondRangeMembers(c.minute, -1, -1, c.second);
    }
  }

  /** Those ticks still count strictly down. */
  lemma {:induction false} OvertimeTicksWithUndefinedCutoffCountdown()
    ensures Countdown(OvertimeTicksWithUndefinedCutoff(), OT)
  {
    var minutes := RangeDown(OvertimeMinutes - 1, 0, 1);
    var se := MinuteTicks(OT, minutes, -1, -1);
    MinuteTicksCountdown(OT, minutes, -1, -1);
    assert forall i :: 0 <= i < |se| ==> TenthsRemaining(se[i]) < 600 * OvertimeMinutes by {
      if minutes != [] {
        assert minutes[0] <= OvertimeMinutes - 1;
      }
    }
    CountdownOfParts(OT, OvertimeMinutes, se, []);
    assert [Tick(OT, OvertimeMinutes, 0, None)] + se + [] == OvertimeTicksWithUndefinedCutoff();
  }

  /** Corrected, such an overtime is played back in full: every third second of its last
      minute appears. */
  lemma {:induction false} OvertimeCorrectedPlaysLastMinute(endTime: EndTime, allGoalsSorted: seq<Goal>, mult: nat, second: int)
    requires endTime.period == OT && endTime.remaining.None?
    requires 0 <= second <= 59 && (59 - second) % AdvanceClockStep == 0
    ensures Tick(OT, 0, second, None) in OvertimeClock(endTime, allGoalsSorted, mult).value.events
  {
    var cutoff := endTime.remaining;
    SecondEventsMembers(OT, OvertimeMinutes, LastMinute(cutoff), LastSecond(cutoff), 0, second);
    PeriodEventsKeepTicks(OT, OvertimeMinutes, cutoff, allGoalsSorted, mult, Tick(OT, 0, second, None));
  }

  /** Every tick of a period with a clock is played back. */
  lemma {:induction false} PeriodEventsKeepTicks(period: Period, durationInMinutes: int, endTime: Option<MinSec>,
                              allGoalsSorted: seq<Goal>, mult: nat, c: Clock)
    requires durationInMinutes >= 1 && period != SO
    requires endTime.Some? ==> endTime.value.second >= 0
    requires c in PeriodTicks(period, durationInMinutes, endTime)
    ensures c in PeriodEvents(period, durationInMinutes, endTime, allGoalsSorted, mult)
  {
    PeriodEventsHoldTheClock(period, durationInMinutes, endTime, allGoalsSorted, mult);
    CollapseKeepsElements(PeriodEvents(period, durationInMinutes, endTime, allGoalsSorted, mult), c);
  }

  /** `getOvertimeClock`, corrected: a 5-minute `'OT'` period for an `'OT'` or `'SO'` horizon,
      stopping at the horizon only when it is an `'OT'` horizon; an ended overtime is played
      in full. */
  function OvertimeClock(endTime: EndTime, allGoalsSorted: seq<Goal>, mult: int): (r: Option<PeriodClock>)
    ensures r.Some? <==> endTime.period == OT || endTime.period == SO
    ensures r.Some? ==>
      r.value == PeriodClock(OT, PeriodEvents(OT, OvertimeMinutes, CutoffIn(OT, endTime), allGoalsSorted, mult))
  {
    if endTime.period != SO && endTime.period != OT then None
    else
      var periodEnd := if endTime.period == OT then endTime.remaining else None;
      Some(PeriodClock(OT, PeriodEvents(OT, OvertimeMinutes, periodEnd, allGoalsSorted, mult)))
  }

  /** `getShootoutClock`: a single shootout tick for an `'SO'` horizon. */
  function ShootoutClock(endTime: EndTime): (r: Option<PeriodClock>)
    ensures r.Some? <==> endTime.period == SO
    ensures r.Some? ==> r.value == PeriodClock(SO, [ShootoutTick])
  {
    if endTime.period == SO then Some(PeriodClock(SO, [ShootoutTick])) else None
  }

  /** `getAllPeriodEvents`. */
  function AllPeriodEvents(endTime: EndTime, allGoalsSorted: seq<Goal>, mult: int): seq<PeriodClock> {
    RegularPeriodClocks(endTime, allGoalsSorted, mult)
      + OptionToSeq(OvertimeClock(endTime, allGoalsSorted, mult))
      + OptionToSeq(ShootoutClock(endTime))
  }

  function PeriodsOf(ps: seq<PeriodClock>): (r: seq<Period>)
    ensures |r| == |ps| && forall i :: 0 <= i < |ps| ==> r[i] == ps[i].period
  {
    if ps == [] then [] else [ps[0].period] + PeriodsOf(ps[1..])
  }

  /** Numbered periods 1 to n. */
  function NumberedPeriods(n: int): (r: seq<Period>)
    ensures |r| == if n <= 0 then 0 else n
    ensures forall i :: 0 <= i < |r| ==> r[i] == Num(i + 1)
    decreases if n <= 0 then 0 else n
  {
    if n <= 0 then [] else NumberedPeriods(n - 1) + [Num(n)]
  }

  /** The periods a horizon calls for: 1..N, then `'OT'` for an `'OT'` or `'SO'` horizon,
      then `'SO'` for an `'SO'` horizon. */
  function ExpectedPeriods(endTime: EndTime): seq<Period> {
    NumberedPeriods(RegularPeriodCount(endTime))
      + (if endTime.period in {OT, SO} then [OT] else [])
      + (if endTime.period == SO then [SO] else [])
  }

  lemma {:induction false} PeriodsOfAppend(a: seq<PeriodClock>, b: seq<PeriodClock>)
    ensures PeriodsOf(a + b) == PeriodsOf(a) + PeriodsOf(b)
  {
    var l, r := PeriodsOf(a + b), PeriodsOf(a) + PeriodsOf(b);
    forall i | 0 <= i < |l| ensures l[i] == r[i] {
      if i < |a| { assert (a + b)[i] == a[i]; } else { assert (a + b)[i] == b[i - |a|]; }
    }
  }

  lemma {:induction false} RegularPeriodNumbers(endTime: EndTime, allGoalsSorted: seq<Goal>, mult: int)
    ensures PeriodsOf(RegularPeriodClocks(endTime, allGoalsSorted, mult)) == NumberedPeriods(RegularPeriodCount(endTime))
  {
    RegularPeriodsShown(endTime, allGoalsSorted, mult);
  }

  /** The periods played back are exactly those the horizon calls for, in order. */
  lemma {:induction false} PeriodsShown(endTime: EndTime, allGoalsSorted: seq<Goal>, mult: int)
    ensures PeriodsOf(AllPeriodEvents(endTime, allGoalsSorted, mult)) == ExpectedPeriods(endTime)
  {
    var reg := RegularPeriodClocks(endTime, allGoalsSorted, mult);
    var ot := OptionToSeq(OvertimeClock(endTime, allGoalsSorted, mult));
    var so := OptionToSeq(ShootoutClock(endTime));
    RegularPeriodNumbers(endTime, allGoalsSorted, mult);
    PeriodsOfAppend(reg, ot);
    PeriodsOfAppend(reg + ot, so);
    assert PeriodsOf(ot) == if endTime.period in {OT, SO} then [OT] else [];
    assert PeriodsOf(so) == if endTime.period == SO then [SO] else [];
  }

  // ---- Stitching --------------------------------------------------------------------------------

  /** `appendDelay`. */
  function AppendDelay(element: Clock, multiplier: int): seq<Clock> {
    Repeat(multiplier, element)
  }

  /** Each period's events in order, the first completedCount of them followed by their
      period-end pause. */
  function Stitch(ps: seq<PeriodClock>, completedCount: int): seq<Clock> {
    if ps == [] then []
    else
      ps[0].events
        + (if completedCount > 0 then AppendDelay(PeriodEnd(ps[0].period), PeriodEndPauseEventCount) else [])
        + Stitch(ps[1..], completedCount - 1)
  }

  /** The start pause, the periods with their end pauses (none after the last period while
      the horizon is in progress), and the end marker. */
  function Timeline(eventsByPeriod: seq<PeriodClock>, inProgress: bool): seq<Clock> {
    var completedCount := if inProgress then |eventsByPeriod| - 1 else |eventsByPeriod|;
    AppendDelay(Start, GamesStartPauseEventCount)
      + Stitch(eventsByPeriod, completedCount)
      + [End(inProgress)]
  }

  /** `gameEvents`: the timeline up to the furthest end time of any game. None when no game
      has an end time, where the source fails reading the missing horizon. */
  function GameEvents(games: seq<Game>): (r: Option<seq<Clock>>)
    requires AllProgressKnown(games)
    ensures r.None? <==> ClockEndTime(games).None?
  {
    match ClockEndTime(games)
    case None => None
    case Some(endTime) =>
      Some(Timeline(AllPeriodEvents(endTime, AllGoalSorted(games), GoalPauseEventCount), endTime.inProgress))
  }

  // ---- Properties of the timeline -----------------------------------------------------------------

  /** Period events hold only ticks of their period. */
  lemma {:induction false} PeriodEventsAreTicks(period: Period, durationInMinutes: int, endTime: Option<MinSec>,
                             allGoalsSorted: seq<Goal>, mult: int, c: Clock)
    requires c in PeriodEvents(period, durationInMinutes, endTime, allGoalsSorted, mult)
    ensures c.Tick? && c.period == period
  {
    PeriodTicksAreTicks(period, durationInMinutes, endTime, c);
  }

  lemma {:induction false} PeriodTicksAreTicks(period: Period, durationInMinutes: int, endTime: Option<MinSec>, c: Clock)
    requires c in PeriodTicks(period, durationInMinutes, endTime)
    ensures c.Tick? && c.period == period
  {
    var lastMinute, lastSecond := LastMinute(endTime), LastSecond(endTime);
    var se := SecondEvents(period, durationInMinutes, lastMinute, lastSecond);
    var te := TenthEvents(period, lastMinute, lastSecond);
    InThree(Tick(period, durationInMinutes, 0, None), se, te, c);
    if c in se {
      SecondEventsAreWholeSeconds(period, durationInMinutes, lastMinute, lastSecond, c);
    } else if c in te {
      TenthEventsAreLastMinute(period, lastMinute, lastSecond, c);
    }
  }

  lemma {:induction false} InThree(a: Clock, b: seq<Clock>, d: seq<Clock>, c: Clock)
    requires c in [a] + b + d
    ensures c == a || c in b || c in d
  {
  }

  /** Ticks and shootout ticks only: no markers. */
  predicate TicksOnly(events: seq<Clock>) {
    forall c :: c in events ==> c.Tick? || c.ShootoutTick?
  }

  predicate OnlyTicks(ps: seq<PeriodClock>) {
    forall i :: 0 <= i < |ps| ==> TicksOnly(ps[i].events)
  }

  lemma {:induction false} PeriodEventsTicksOnly(period: Period, durationInMinutes: int, endTime: Option<MinSec>,
                              allGoalsSorted: seq<Goal>, mult: int)
    ensures TicksOnly(PeriodEvents(period, durationInMinutes, endTime, allGoalsSorted, mult))
  {
    forall c | c in PeriodEvents(period, durationInMinutes, endTime, allGoalsSorted, mult) ensures c.Tick? || c.ShootoutTick? {
      PeriodEventsAreTicks(period, durationInMinutes, endTime, allGoalsSorted, mult, c);
    }
  }

  lemma {:induction false} RegularPeriodsOnlyTicks(endTime: EndTime, allGoalsSorted: seq<Goal>, mult: int)
    ensures OnlyTicks(RegularPeriodClocks(endTime, allGoalsSorted, mult))
  {
    var ps := RegularPeriodClocks(endTime, allGoalsSorted, mult);
    RegularPeriodsShown(endTime, allGoalsSorted, mult);
    forall i | 0 <= i < |ps| ensures TicksOnly(ps[i].events) {
      PeriodEventsTicksOnly(Num(i + 1), RegularPeriodMinutes, CutoffIn(Num(i + 1), endTime), allGoalsSorted, mult);
    }
  }

  lemma {:induction false} OnlyTicksAppend(a: seq<PeriodClock>, b: seq<PeriodClock>)
    requires OnlyTicks(a) && OnlyTicks(b)
    ensures OnlyTicks(a + b)
  {
    forall i | 0 <= i < |a + b| ensures TicksOnly((a + b)[i].events) {
      if i < |a| { assert (a + b)[i] == a[i]; } else { assert (a + b)[i] == b[i - |a|]; }
    }
  }

  lemma {:induction false} OvertimeOnlyTicks(endTime: EndTime, allGoalsSorted: seq<Goal>, mult: int)
    ensures OnlyTicks(OptionToSeq(OvertimeClock(endTime, allGoalsSorted, mult)))
  {
    var oc := OvertimeClock(endTime, allGoalsSorted, mult);
    if oc.Some? {
      PeriodEventsTicksOnly(OT, OvertimeMinutes, CutoffIn(OT, endTime), allGoalsSorted, mult);
    }
    OnlyTicksOfOption(oc);
  }

  lemma {:induction false} OnlyTicksOfOption(oc: Option<PeriodClock>)
    requires oc.Some? ==> TicksOnly(oc.value.events)
    ensures OnlyTicks(OptionToSeq(oc))
  {
    if oc.Some? {
      assert OptionToSeq(oc) == [oc.value];
    }
  }

  lemma {:induction false} AllPeriodEventsOnlyTicks(endTime: EndTime, allGoalsSorted: seq<Goal>, mult: int)
    ensures OnlyTicks(AllPeriodEvents(endTime, allGoalsSorted, mult))
  {
    var reg := RegularPeriodClocks(endTime, allGoalsSorted, mult);
    var ot := OptionToSeq(OvertimeClock(endTime, allGoalsSorted, mult));
    var so := OptionToSeq(ShootoutClock(endTime));
    RegularPeriodsOnlyTicks(endTime, allGoalsSorted, mult);
    OvertimeOnlyTicks(endTime, allGoalsSorted, mult);
    assert OnlyTicks(so);
    OnlyTicksAppend(reg, ot);
    OnlyTicksAppend(reg + ot, so);
  }

  lemma {:induction false} StitchOnlyTicksAndEnds(ps: seq<PeriodClock>, completedCount: int, c: Clock)
    requires OnlyTicks(ps)
    requires c in Stitch(ps, completedCount)
    ensures c.Tick? || c.ShootoutTick? || c.PeriodEnd?
  {
    if ps != [] {
      assert TicksOnly(ps[0].events);
      if c !in ps[0].events && !(completedCount > 0 && c in AppendDelay(PeriodEnd(ps[0].period), PeriodEndPauseEventCount)) {
        assert OnlyTicks(ps[1..]) by {
          forall i | 0 <= i < |ps[1..]| ensures TicksOnly(ps[1..][i].events) { assert ps[1..][i] == ps[i + 1]; }
        }
        StitchOnlyTicksAndEnds(ps[1..], completedCount - 1, c);
      }
    }
  }

  /** The timeline opens with exactly 50 start markers and closes with exactly one end
      marker, which is in progress iff the horizon is. */
  lemma {:induction false} TimelineFrame(ps: seq<PeriodClock>, inProgress: bool)
    requires OnlyTicks(ps)
    ensures var r := Timeline(ps, inProgress);
      |r| >= GamesStartPauseEventCount + 1 &&
      (forall i :: 0 <= i < GamesStartPauseEventCount ==> r[i] == Start) &&
      Count(r, Start) == GamesStartPauseEventCount &&
      r[|r| - 1] == End(inProgress) &&
      (forall i :: 0 <= i < |r| - 1 ==> !r[i].End?)
  {
    var r := Timeline(ps, inProgress);
    var completedCount := if inProgress then |ps| - 1 else |ps|;
    var starts := AppendDelay(Start, GamesStartPauseEventCount);
    var middle := Stitch(ps, completedCount);
    assert r == starts + middle + [End(inProgress)];
    forall c | c in middle ensures c.Tick? || c.ShootoutTick? || c.PeriodEnd? {
      StitchOnlyTicksAndEnds(ps, completedCount, c);
    }
    assert Start !in middle;
    RepeatCount(GamesStartPauseEventCount, Start);
    assert multiset(r)[Start] == multiset(starts)[Start] + multiset(middle)[Start] + multiset([End(inProgress)])[Start];
    forall i | 0 <= i < |r| - 1 ensures !r[i].End? {
      if i >= |starts| {
        assert r[i] == middle[i - |starts|];
        assert middle[i - |starts|] in middle;
      } else {
        assert r[i] == starts[i];
      }
    }
  }

  /** The same for the timeline of a set of games. */
  lemma {:induction false} GameEventsFrame(games: seq<Game>)
    requires AllProgressKnown(games) && GameEvents(games).Some?
    ensures var r := GameEvents(games).value;
      var endTime := ClockEndTime(games).value;
      |r| >= GamesStartPauseEventCount + 1 &&
      (forall i :: 0 <= i < GamesStartPauseEventCount ==> r[i] == Start) &&
      Count(r, Start) == GamesStartPauseEventCount &&
      r[|r| - 1] == End(endTime.inProgress) &&
      (forall i :: 0 <= i < |r| - 1 ==> !r[i].End?)
  {
    var endTime := ClockEndTime(games).value;
    var ps := AllPeriodEvents(endTime, AllGoalSorted(games), GoalPauseEventCount);
    AllPeriodEventsOnlyTicks(endTime, AllGoalSorted(games), GoalPauseEventCount);
    TimelineFrame(ps, endTime.inProgress);
  }

  /** How many of the first completedCount period clocks belong to period q. */
  function CompletedOf(ps: seq<PeriodClock>, completedCount: int, q: Period): nat {
    if ps == [] then 0
    else (if completedCount > 0 && ps[0].period == q then 1 else 0) + CompletedOf(ps[1..], completedCount - 1, q)
  }

  /** Each completed period contributes exactly one pause of 150 end markers for its period. */
  lemma {:induction false} StitchPeriodEnds(ps: seq<PeriodClock>, completedCount: int, q: Period)
    requires OnlyTicks(ps)
    ensures multiset(Stitch(ps, completedCount))[PeriodEnd(q)] == PeriodEndPauseEventCount * CompletedOf(ps, completedCount, q)
  {
    if ps != [] {
      var events, pause, rest := StitchUnfold(ps, completedCount);
      OnlyTicksTail(ps);
      StitchPeriodEnds(ps[1..], completedCount - 1, q);
      var x := PeriodEnd(q);
      var here := if completedCount > 0 && ps[0].period == q then 1 else 0;
      var later := CompletedOf(ps[1..], completedCount - 1, q);
      assert CompletedOf(ps, completedCount, q) == here + later;
      NoEndAmongTicks(events, q);
      PauseCount(ps[0].period, completedCount, q);
      assert multiset(pause)[x] == PeriodEndPauseEventCount * here;
      CountOfThree(events, pause, rest, x);
      assert multiset(Stitch(ps, completedCount))[x]
        == PeriodEndPauseEventCount * here + PeriodEndPauseEventCount * later;
      PauseScales(here, later);
    }
  }

  lemma {:induction false} StitchUnfold(ps: seq<PeriodClock>, completedCount: int)
    returns (events: seq<Clock>, pause: seq<Clock>, rest: seq<Clock>)
    requires ps != []
    ensures events == ps[0].events
    ensures pause == if completedCount > 0 then AppendDelay(PeriodEnd(ps[0].period), PeriodEndPauseEventCount) else []
    ensures rest == Stitch(ps[1..], completedCount - 1)
    ensures Stitch(ps, completedCount) == events + pause + rest
  {
    events := ps[0].events;
    pause := if completedCount > 0 then AppendDelay(PeriodEnd(ps[0].period), PeriodEndPauseEventCount) else [];
    rest := Stitch(ps[1..], completedCount - 1);
  }

  lemma {:induction false} OnlyTicksTail(ps: seq<PeriodClock>)
    requires ps != [] && OnlyTicks(ps)
    ensures TicksOnly(ps[0].events) && OnlyTicks(ps[1..])
  {
    forall i | 0 <= i < |ps| - 1 ensures TicksOnly(ps[1..][i].events) { assert ps[1..][i] == ps[i + 1]; }
  }

  lemma {:induction false} NoEndAmongTicks(events: seq<Clock>, q: Period)
    requires TicksOnly(events)
    ensures multiset(events)[PeriodEnd(q)] == 0
  {
    assert PeriodEnd(q) !in events;
  }

  lemma {:induction false} CountOfThree(a: seq<Clock>, b: seq<Clock>, c: seq<Clock>, x: Clock)
    ensures multiset(a + b + c)[x] == multiset(a)[x] + multiset(b)[x] + multiset(c)[x]
  {
    assert multiset(a + b + c) == multiset(a) + multiset(b) + multiset(c);
  }

  lemma {:induction false} PauseScales(here: int, later: int)
    ensures PeriodEndPauseEventCount * (here + later) == PeriodEndPauseEventCount * here + PeriodEndPauseEventCount * later
  {
  }

  lemma {:induction false} PauseCount(p: Period, completedCount: int, q: Period)
    ensures var pause := if completedCount > 0 then AppendDelay(PeriodEnd(p), PeriodEndPauseEventCount) else [];
      multiset(pause)[PeriodEnd(q)] == if completedCount > 0 && p == q then PeriodEndPauseEventCount else 0
  {
    RepeatCount(PeriodEndPauseEventCount, PeriodEnd(p));
  }

  /** The periods whose end is marked: all played back, except the last while in progress. */
  function CompletedPeriods(endTime: EndTime): seq<Period> {
    var e := ExpectedPeriods(endTime);
    if endTime.inProgress then e[..|e| - 1] else e
  }

  lemma {:induction false} ExpectedPeriodsDistinct(endTime: EndTime)
    ensures var e := ExpectedPeriods(endTime);
      |e| >= 1 && forall i, j :: 0 <= i < j < |e| ==> e[i] != e[j]
  {
    var n := RegularPeriodCount(endTime);
    var e := ExpectedPeriods(endTime);
    forall i, j | 0 <= i < j < |e| ensures e[i] != e[j] {
      if j < n {
        assert e[i] == Num(i + 1) && e[j] == Num(j + 1);
      } else if i < n {
        assert e[i] == Num(i + 1);
      }
    }
  }

  lemma {:induction false} CompletedOfDistinct(ps: seq<PeriodClock>, completedCount: int, q: Period)
    requires forall i, j :: 0 <= i < j < |ps| ==> ps[i].period != ps[j].period
    ensures CompletedOf(ps, completedCount, q) ==
      if q in PeriodsOf(ps)[..if completedCount <= 0 then 0 else if completedCount > |ps| then |ps| else completedCount]
      then 1 else 0
  {
    if ps != [] {
      CompletedOfDistinct(ps[1..], completedCount - 1, q);
      var k := if completedCount <= 0 then 0 else if completedCount > |ps| then |ps| else completedCount;
      var k' := if completedCount - 1 <= 0 then 0 else if completedCount - 1 > |ps| - 1 then |ps| - 1 else completedCount - 1;
      var all := PeriodsOf(ps);
      var rest := PeriodsOf(ps[1..]);
      assert all == [ps[0].period] + rest;
      if k > 0 {
        assert all[..k] == [ps[0].period] + rest[..k'];
        if ps[0].period == q {
          assert q !in rest by {
            forall i | 0 <= i < |rest| ensures rest[i] != q {
              assert rest[i] == ps[i + 1].period;
            }
          }
        }
      }
    }
  }

  /** Of period clocks with distinct periods, the completed ones (all, or all but the last
      while in progress) each get exactly one pause of 150 end markers; no other period
      gets any. */
  lemma {:induction false} TimelinePeriodEnds(ps: seq<PeriodClock>, inProgress: bool, q: Period)
    requires OnlyTicks(ps)
    requires forall i, j :: 0 <= i < j < |ps| ==> ps[i].period != ps[j].period
    ensures var periods := PeriodsOf(ps);
      var completed := if inProgress && periods != [] then periods[..|periods| - 1] else periods;
      Count(Timeline(ps, inProgress), PeriodEnd(q)) == if q in completed then PeriodEndPauseEventCount else 0
  {
    var r := Timeline(ps, inProgress);
    var completedCount := if inProgress then |ps| - 1 else |ps|;
    var starts := AppendDelay(Start, GamesStartPauseEventCount);
    var middle := Stitch(ps, completedCount);
    assert r == starts + middle + [End(inProgress)];
    StitchPeriodEnds(ps, completedCount, q);
    CompletedOfDistinct(ps, completedCount, q);
    var periods := PeriodsOf(ps);
    assert periods[..|periods|] == periods;
    RepeatCount(GamesStartPauseEventCount, Start);
    assert PeriodEnd(q) !in starts;
    assert multiset(r)[PeriodEnd(q)] == multiset(starts)[PeriodEnd(q)] + multiset(middle)[PeriodEnd(q)]
      + multiset([End(inProgress)])[PeriodEnd(q)];
  }

  /** In the timeline of a set of games, a period's end marker appears 150 times when the
      period is completed (every period the horizon calls for, except the last while in
      progress) and never otherwise. */
  lemma {:induction false} GameEventsPeriodEnds(games: seq<Game>, q: Period)
    requires AllProgressKnown(games) && GameEvents(games).Some?
    ensures var endTime := ClockEndTime(games).value;
      Count(GameEvents(games).value, PeriodEnd(q)) ==
        if q in CompletedPeriods(endTime) then PeriodEndPauseEventCount else 0
  {
    var endTime := ClockEndTime(games).value;
    var ps := AllPeriodEvents(endTime, AllGoalSorted(games), GoalPauseEventCount);
    PeriodsShown(endTime, AllGoalSorted(games), GoalPauseEventCount);
    ExpectedPeriodsDistinct(endTime);
    AllPeriodEventsOnlyTicks(endTime, AllGoalSorted(games), GoalPauseEventCount);
    assert forall i, j :: 0 <= i < j < |ps| ==> ps[i].period != ps[j].period by {
      forall i, j | 0 <= i < j < |ps| ensures ps[i].period != ps[j].period {
        assert PeriodsOf(ps)[i] == ps[i].period && PeriodsOf(ps)[j] == ps[j].period;
      }
    }
    TimelinePeriodEnds(ps, endTime.inProgress, q);
  }
}
