# nhl-scores playback core in Dafny

This project models the part of nhl-scores that turns a day's games into a playback.
The playback is a flat list of clock states that an animation driver steps through:
- a start pause;
- for every period that is played back, the countdown ticks of that period, each tick held
  longer after goals;
- a pause after every completed period;
- a final end marker.

The project also models what each game card shows at a given clock state:
- the goals that count at that point;
- the decisive shootout goal;
- playoff series wins and their description;
- the score delimiter;
- error and progress texts;
- the display state machine.

All the modelled code is pure. It becomes Dafny datatypes, functions and lemmas. There is
one module per source file:

| module | file | role |
|---|---|---|
| `Seqs` | — | generic sequence helpers (`Filter`, `Repeat`, `FindLastIndex`, `Collapse`, …) |
| `Types` | — | the records read and produced. `Period = Num(n) \| OT \| SO`, and the timeline element `Clock = Start \| Tick \| ShootoutTick \| PeriodEnd \| End` |
| `TimeUtils` | `app/js/utils.js` | clock arithmetic, period ordinals, the "has the clock passed" tests, the progress parser, player-name truncation |
| `PeriodSequencer` | `app/js/period-events.js` | the tick list of one period and its expansion around goals |
| `TimelineComposer` | `app/js/game-events.js` | end times, the furthest end time (the horizon), the periods played back, the stitched timeline |
| `GameScore` | `app/js/game-score.js` | current goals, shootout goal, series wins, series description, delimiter |
| `GameCard` | `app/js/components/game.js` | display flags, card series wins and description, delimiter, error and progress texts |
| `GameDisplays` | `app/js/events/game-displays.js` | playback state and the per-game display decision |

Conventions:
- JavaScript's `undefined` and `null` results are `Option.None`.
- `NaN` period ordinals are `None` as well, so no comparison with them holds.
- lodash's `sortBy` over mixed strings and numbers is replaced by an explicit period order.
  Numbers rank by value, `'OT'` ranks as 4, and the shootout ranks above everything.

## Model

| member | source | states |
|---|---|---|
| TimeUtils.RemainingTimeToElapsedTime | app/js/utils.js:3-11 | Keeps the period. Minute and second give (period length − remaining) seconds, with the length 5 minutes for `'OT'` and 20 for every other period. A missing minute or second counts as 0, and the second is in 0..59. |
| TimeUtils.ElapsedTimeToRemainingTime | app/js/utils.js:13-15 | The same mapping, stated as remaining = length − elapsed, with the second in 0..59. |
| TimeUtils.ConversionRoundTrip | app/js/utils.js:3-15 | For a time with both fields and a second in 0..59, converting one way and back returns the same time, in both orders. |
| TimeUtils.PeriodOrdinal | app/js/utils.js:65-67 | The ordinal is missing (the source's NaN) exactly for a missing period or the shootout. Otherwise it is present: 4 for `'OT'`, the number for numbered periods. |
| TimeUtils.PassedIsSecondsOrder | app/js/utils.js:36-42 | An event has passed exactly when its period ordinal is below the clock's, or equal with no more elapsed seconds than the clock's. This makes the minute/second comparison a comparison of elapsed seconds. |
| TimeUtils.PassedMonotone | app/js/utils.js:36-42 | An event passed by a clock stays passed by every later clock. |
| TimeUtils.ShootoutNeverPasses | app/js/utils.js:36-67 | A shootout clock or event, or one without a period, never passes and is never passed. |
| TimeUtils.GoalLeTotalPreorder | app/js/game-events.js:175-180 | The goal order (period, then minute, then second) is reflexive, total and transitive. |
| TimeUtils.ScoredIsDownwardClosed | app/js/utils.js:17-20 | If a goal has been scored by a clock, every goal at or before it in the goal order has too. |
| TimeUtils.Exec | app/js/utils.js:53 | A match of `/(\d+)?:(\d+)/` has a non-empty all-digit seconds group. Its optional minutes group is all digits. |
| TimeUtils.ExecFindsColonDigit | app/js/utils.js:53-54 | The pattern matches from a position exactly when a colon directly followed by a digit occurs after it. |
| TimeUtils.ParseProgressTimeRemaining | app/js/utils.js:44-63 | No progress gives none. `"END"` gives 0:00 in the current period. Any other text gives none exactly when it holds no colon followed by a digit. Any result is in the current period with non-negative minute and second. |
| TimeUtils.ParseProgressValues | app/js/utils.js:53-59 | For a remaining time written as minute digits (possibly none), a colon, second digits and anything not starting with a digit, the result is that minute read as a number (0 when absent) and that second, in the current period: `"08:42"` gives 8:42 and `":42"` gives 0:42. |
| TimeUtils.Split | app/js/utils.js:74-77 | `split` yields at least one piece, and no piece holds the separator. |
| TimeUtils.SplitJoin | app/js/utils.js:74 | Joining the pieces of a split with the separator gives back the text. |
| TimeUtils.LastWord | app/js/utils.js:80 | The last word is a suffix without spaces. It is the whole text or is preceded by a space. |
| TimeUtils.SplitLastIsLastWord | app/js/utils.js:74-80 | `_.last(name.split(' '))` is the text after the last space. |
| TimeUtils.TruncatePlayerName | app/js/utils.js:69-82 | Names of at most 20 characters are returned unchanged. A longer name becomes the abbreviated given names, a space and its last word. |
| TimeUtils.InitialsLength | app/js/utils.js:76-79 | For non-empty name parts, the abbreviation is each part's first letter followed by a dot, two characters per part, with no separator. |
| TimeUtils.NatToStringRoundTrip | app/js/components/game.js:237-238 | The decimal numeral of a number reads back as that number. |
| PeriodSequencer.RangeDown | app/js/period-events.js:59-66 | `_.range` with a negative step yields strictly decreasing values in (end, start]. |
| PeriodSequencer.RangeDownMembers | app/js/period-events.js:59-66 | A value is in the range exactly when it is in (end, start] and a whole number of steps below start. |
| PeriodSequencer.SecondRangeMembers | app/js/period-events.js:63-66 | The seconds of a minute are 59, 56, …, 2. In the cutoff minute only those at or above the cutoff second appear. |
| PeriodSequencer.SecondEventsMembers | app/js/period-events.js:14-66 | A whole-second tick appears exactly when all of these hold: its minute is from the duration − 1 down to the cutoff minute (or 0), and not 0 in the third period; its second is at least the cutoff second in the cutoff minute; and it is a multiple of 3 below 59. |
| PeriodSequencer.TenthEventsMembers | app/js/period-events.js:22-57 | Tenth ticks appear only in the third period when the cutoff minute is below 1. They cover each second of minute 0 that the seconds range keeps, with tenths 9, 6, 3 and 0. |
| PeriodSequencer.SecondEventsAreWholeSeconds | app/js/period-events.js:33-43 | Whole-second ticks are ticks of the period without a tenth. |
| PeriodSequencer.TenthEventsAreLastMinute | app/js/period-events.js:23-57 | Tenth ticks are ticks of the third period, minute 0, with a tenth, so no other period ever carries a tenth. |
| PeriodSequencer.DropTrailingMinuteZero | app/js/period-events.js:19-20 | `_.dropRightWhile(…, minute === 0)` keeps a prefix. Everything it drops is a minute-0 tick, and the prefix does not end in one. |
| PeriodSequencer.DropTrailingMinuteZeroMembers | app/js/period-events.js:19-20 | On a countdown, the kept elements are exactly the elements that are not minute-0 ticks. |
| PeriodSequencer.SecondEventsCountdown | app/js/period-events.js:14-43 | The whole-second ticks count strictly down, below the period's full length. In the third period all of them are at or above one minute. |
| PeriodSequencer.TenthEventsCountdown | app/js/period-events.js:22-57 | The tenth ticks count strictly down within the last minute, and they exist only in the third period. |
| PeriodSequencer.PeriodTicksCountdown | app/js/period-events.js:28-29 | The period's tick list (full length, then the whole-second ticks, then the tenth ticks) counts strictly down in remaining tenths of a second. |
| PeriodSequencer.MultiplyGoalScoringTimeEvents | app/js/period-events.js:68-82 | The expansion starts with the first input element, is empty only for empty input, and introduces no new elements. |
| PeriodSequencer.MultiplyLength | app/js/period-events.js:68-92 | When the goal index never decreases, the output length is n + multiplier × (last goal index at the last element − last goal index at the first). |
| PeriodSequencer.MultiplyCollapse | app/js/period-events.js:68-82 | When adjacent elements differ and the goal index never decreases, collapsing runs of equal neighbours in the output gives back the input. |
| PeriodSequencer.MultiplyWithoutGoals | app/js/period-events.js:68-92 | With no goal between the first and any later element, the expansion is the identity. |
| PeriodSequencer.MultiplyRunLength | app/js/period-events.js:68-92 | In a countdown, every tick after the first occurs 1 + (goals scored since the previous tick) × multiplier times in the expansion (never fewer than zero). |
| PeriodSequencer.LastGoalIndexCountsScored | app/js/period-events.js:84-92 | On sorted goals, the last scored index + 1 is the number of goals the clock has scored. |
| PeriodSequencer.GoalsScoredCountIsGoalsBetween | app/js/period-events.js:84-92 | On sorted goals and a clock that does not move back, the count added at an element is the number of goals scored after the previous element and by this one. |
| PeriodSequencer.CountdownExpansion | app/js/period-events.js:68-92 | A countdown is expanded losslessly (collapsing recovers it), with the telescoped length. |
| PeriodSequencer.PeriodEvents | app/js/period-events.js:7-31 | A period's events start with the full-length tick and only hold ticks of the period's unexpanded tick list. |
| PeriodSequencer.PeriodEventsHoldTheClock | app/js/period-events.js:7-82 | Collapsing repeated neighbours in a period's events gives its tick list: goals only hold the clock, they never reorder or drop ticks. |
| PeriodSequencer.FirstTickOnce | app/js/period-events.js:28-69 | The full-length first tick appears exactly once in a period's events. |
| TimelineComposer.GameEndTimeFromProgress | app/js/game-events.js:139-151 | The end time is in progress. Minute and second are missing exactly at 0:00 and otherwise are the remaining time. The period is `'OT'`/`'SO'` exactly for a non-playoff game with that label, else the numeric current period. |
| TimelineComposer.GameEndTimeFromGoals | app/js/game-events.js:153-173 | There is none exactly when there are no goals. A finished game ends at its last goal's converted time when that goal is in overtime, at `{SO}` after a shootout goal, and at the end of the third period otherwise. |
| TimelineComposer.OvertimeEndIsLastGoal | app/js/game-events.js:162-167 | Converting an overtime end time back to elapsed time gives the last goal's time. |
| TimelineComposer.GameEndTime | app/js/game-events.js:132-137 | A live game uses its progress (playoff or not). Any other game uses its goals. An in-progress end time comes only from a live game. |
| TimelineComposer.NotBeforeTransitive | app/js/game-events.js:112-130 | "Does not sort before" under the iteratees is transitive, so the last element of the sort is a maximum. |
| TimelineComposer.LatestIndex | app/js/game-events.js:112-113 | The index `sortBy(…).last()` picks: nothing sorts after it, and every later element sorts strictly before it. |
| TimelineComposer.KnownEndTimes | app/js/game-events.js:109-111 | Holds exactly the non-null game end times. |
| TimelineComposer.ClockEndTime | app/js/game-events.js:108-130 | The horizon is none exactly when no game has an end time. Otherwise it is some game's end time that no other game's sorts after, by period ordinal, then less time remaining, with a finished period latest. |
| TimelineComposer.FlattenGoals | app/js/game-events.js:176-177 | Holds exactly the goals of all the games. |
| TimelineComposer.InsertGoalSorted | app/js/game-events.js:178 | Inserting a goal into a sorted list keeps it sorted. |
| TimelineComposer.SortGoalsStable | app/js/game-events.js:178 | Sorting keeps goals with equal keys in their input order. |
| TimelineComposer.AllGoalSortedIsStableSort | app/js/game-events.js:175-180 | `getAllGoalSorted` is sorted by (period, min, sec), is a permutation of all the games' goals, and is stable. |
| TimelineComposer.FullPeriods | app/js/game-events.js:64-67 | Full periods 1..n, each the period's events with no cutoff. |
| TimelineComposer.RegularPeriodsShown | app/js/game-events.js:59-90 | The numbered periods played back are 1..n, where n is the horizon's numbered period or 3. In order, each is played in full except the horizon's own unfinished period, which stops at the horizon. |
| TimelineComposer.OvertimeClock | app/js/game-events.js:92-102 | An `'OT'` period of 5 minutes appears exactly for an OT or SO horizon. It is cut only at an OT horizon that has not ended; see Findings. |
| TimelineComposer.ShootoutClock | app/js/game-events.js:104-106 | A single shootout tick appears exactly for a SO horizon. |
| TimelineComposer.PeriodsShown | app/js/game-events.js:51-57 | The periods played back are 1..n, then `'OT'` for an OT or SO horizon, then `'SO'` for a SO horizon. |
| TimelineComposer.OvertimeAsWrittenMembers | app/js/game-events.js:92-102 | The overtime as the code builds it at an OT horizon that has ended holds exactly the full-length tick and the seconds 59, 56, …, 2 (every third second) of minutes 4 down to 1, and no tick of minute 0. |
| TimelineComposer.OvertimeAsWrittenSkipsLastMinute | app/js/period-events.js:60 | As written, an overtime played to 0:00 shows no tick of its last minute. |
| TimelineComposer.OvertimeCorrectedPlaysLastMinute | app/js/game-events.js:96-99 | Corrected, every second of the last overtime minute is shown. |
| TimelineComposer.PeriodEventsAreTicks | app/js/period-events.js:28-30 | Period events are ticks of their own period. |
| TimelineComposer.GameEvents | app/js/game-events.js:6-33 | There is a timeline exactly when some game has an end time. |
| TimelineComposer.TimelineFrame | app/js/game-events.js:8-49 | The timeline opens with exactly 50 start markers, none elsewhere, and ends with the single end marker carrying the horizon's in-progress flag. |
| TimelineComposer.GameEventsFrame | app/js/game-events.js:6-33 | The same for `gameEvents` on a set of games, with the horizon's flag. |
| TimelineComposer.StitchPeriodEnds | app/js/game-events.js:15-26 | Each completed period contributes exactly 150 end markers of its period. |
| TimelineComposer.TimelinePeriodEnds | app/js/game-events.js:10-32 | A period gets 150 end markers if it is completed, that is, not the last period of an in-progress horizon. It gets none otherwise. |
| TimelineComposer.GameEventsPeriodEnds | app/js/game-events.js:6-33 | In `gameEvents`, each period the horizon completes has exactly 150 end markers and every other period none. |
| GameScore.LatestGoal | app/js/game-score.js:9 | `_.last`: none exactly for no goals, otherwise one of them. |
| GameScore.ShootoutGoal | app/js/game-score.js:59-64 | The chosen goal is a goal of the team with more goals, or home when the counts are level. |
| GameScore.ShootoutGoalIsLastOfWinner | app/js/game-score.js:59-64 | It is that team's last goal in list order, or none. |
| GameScore.ShootoutGoalIsDecisive | app/js/game-score.js:59-64 | In a game level before the shootout whose shootout goals come last, the chosen goal exists and is a shootout goal of the team with more shootout goals, or home when level. |
| GameScore.CurrentGoals | app/js/game-score.js:45-57 | No goals before the first clock or at the start marker. Only given goals otherwise. |
| GameScore.CurrentGoalsInPlay | app/js/game-score.js:56 | At a regulation or overtime clock, the goals are exactly those the clock has scored, in input order. |
| GameScore.CurrentGoalsGrow | app/js/game-score.js:56 | As such a clock advances, earlier current goals stay, in order. |
| GameScore.CurrentGoalsWithoutShootout | app/js/game-score.js:49-52 | At the end marker or a shootout clock with no shootout goals, all goals, unchanged. |
| GameScore.CurrentGoalsWithShootout | app/js/game-score.js:49-54 | With shootout goals, the non-shootout goals followed by the chosen shootout goal. |
| GameScore.OneShootoutGoalShown | app/js/game-score.js:49-64 | In a game decided in a shootout, exactly one shootout goal is shown, last, after all the other goals. |
| GameScore.PlayoffSeriesWinsAfterGame | app/js/game-score.js:38-43 | Exactly one more win in total: away's when it scored more goals, home's otherwise. |
| GameScore.PlayoffSeriesWins | app/js/game-score.js:28-36 | No series gives none. The stored wins are kept unless updated, and updating counts one more game. |
| GameScore.SeriesWinsChangeOnlyAtEnd | app/js/game-score.js:13-36 | The wins shown differ from the stored ones exactly at the end marker. |
| GameScore.SeriesWinGoesToWinner | app/js/game-score.js:13-43 | At the end marker, a game without a shootout gives the win to the team with more goals, or home when level. |
| GameScore.SortedByWins | app/js/game-score.js:99-100 | The two teams with their wins, ordered by wins. |
| GameScore.SeriesWinsDescription | app/js/game-score.js:98-123 | "Tied" exactly on equal counts. Otherwise it names the team with more wins, with the leading and trailing counts, and "wins" exactly at 4. |
| GameScore.WinFromTiedSeriesLeads | app/js/game-score.js:38-123 | From a tied series the game's winner, or home when level, leads afterwards. |
| GameScore.ScoreDelimiter | app/js/game-score.js:80-84 | `'OT'` or `'SO'` exactly when the latest goal is in that period, `'–'` otherwise. |
| GameScore.DelimiterInRegulation | app/js/game-score.js:9-84 | At a clock in periods 1-3 the delimiter is `'–'`. |
| GameScore.DelimiterAfterShootout | app/js/game-score.js:49-84 | At the end of a game decided in a shootout it is `'SO'`. |
| GameCard.Flags | app/js/components/game.js:34-48 | Pre-game stats show for pre-game and post-game-in-progress. After-game stats and the series update show only for post-game-finished. The latest goal is hidden only before the game. Game stats show only after the playback. Progress info shows except in playback and post-game-finished. |
| GameCard.TeamStatsChoice | app/js/components/game.js:50 | Pre-game and after-game stats never both show, and the team statistics chosen for each display follow. |
| GameCard.CardSeriesWinsUpdatedOnlyWhenFinished | app/js/components/game.js:41-102 | The card's wins differ from the stored ones exactly in post-game-finished. Then the team with more current goals, or home when level, has one more. |
| GameCard.RoundName | app/js/components/game.js:199-200 | Rounds 0-4 are named from the table. |
| GameCard.SeriesWinsDescription | app/js/components/game.js:192-222 | "<round> - Game 1" exactly when no team has won; "tied" exactly on equal non-zero counts; otherwise the leader, which "wins" exactly at 3 wins in round 0 or 4 in other rounds. |
| GameCard.DescriptionsAgree | app/js/components/game.js:192-222 | Outside round 0 and once a game has been won, the card and the score panel describe the series alike. |
| GameCard.CardDelimiter | app/js/components/game.js:113-138 | `'at'` exactly before the game. Otherwise `'SO'` for the shootout, `'OT'` for `'OT'` or a period above 3, and empty for anything else. |
| GameCard.DelimitersAgree | app/js/components/game.js:134-138 | For goals in regulation, `'OT'` or `'SO'`, the two delimiters agree, with the dash shown as empty. |
| GameCard.ErrorText | app/js/components/game.js:228-243 | The missing-goals text and `"Unknown error <code>"`. |
| GameCard.MismatchPlural | app/js/components/game.js:232-239 | "Missing N goal(s) from data" when fewer goals than the score, singular exactly at N = 1. "N too many goals in data" otherwise. |
| GameCard.ErrorTextDistinguishes | app/js/components/game.js:228-243 | Equal texts come from the same kind of error, the same code, and the same direction and size of mismatch. |
| GameCard.CurrentProgressTime | app/js/components/game.js:269-276 | "End of <ordinal>" at `'END'`, "In shootout" in the shootout, else "<ordinal> <pretty>". |
| GameCard.CurrentProgress | app/js/components/game.js:260-267 | Just "In progress" exactly without progress or ordinal. Otherwise "In progress:" with the progress time. |
| GameCard.GameStatusLine | app/js/components/game.js:245-258 | Live games show their progress. Preview games show "Starts" and the given relative time, or "soon". Then "Postponed" and "Finished". |
| GameCard.LiveProgressShowsClock | app/js/components/game.js:260-276 | A live game with an ordinal shows a value that ends with the remaining time during play. |
| GameCard.StatusCaptionNamesState | app/js/components/game.js:245-258 | The caption tells the four states apart: it starts with "In progress" exactly for live games, with "Starts " exactly for previews, and is "Postponed" or "Finished" exactly for those states. |
| GameDisplays.PlaybackStateOf | app/js/events/game-displays.js:21-23 | Finished exactly at the end marker, in progress at every other element. |
| GameDisplays.GameDisplayOf | app/js/events/game-displays.js:29-46 | Pre-game exactly when the playback or the game has not started. In progress exactly when the clock has caught up with a live game. Post-game, finished or not as the game is, exactly after the playback otherwise. Playback in every remaining case. |
| GameDisplays.GameDisplays | app/js/events/game-displays.js:29-30 | One display per game, in the games' order. |
| GameDisplays.EndMarkerPassesNothing | app/js/utils.js:22-42 | The end marker never passes any game's progress. |
| GameDisplays.DisplaysAtEnd | app/js/events/game-displays.js:31-44 | At the end marker every started game shows post-game (finished exactly when it finished), and the others pre-game. |
| GameDisplays.PlaybackAlongTimeline | app/js/events/game-displays.js:21-23 | Along the timeline the playback is in progress at every element but the last, where it is finished. |
| GameDisplays.SeriesCountedAtPlaybackEnd | app/js/components/game.js:41-41 | A card counts its game in the series wins only at the last timeline element, and there exactly when the game has started and finished. |

## Left out

- Virtual-DOM construction, CSS classes, logos, game and team statistics panels, and the rendering of goal times and scorers. Only the data these decisions produce is modelled.
- The xstream wiring (`combine`, `startWith`, `merge`) and the `goalCounts` stream side effects. The initial all-pre-game display list is the `PlaybackNotStarted` case of the decision.
- `timeago` and the wall-clock comparison in the preview status. The relative start time is the `startsIn` parameter of `GameCard.GameStatusLine`: some text when the game is in the future, none otherwise.
- `hasGameStarted`, `isGameInProgress` and `hasGameFinished`, whose definitions are not part of this model. They are the `StateTests` parameter of the display decision.
- lodash's mixed string/number `sortBy`. `getAllGoalSorted` sorts goals by the raw `period` value, then `min`, then `sec`. lodash orders two numbers or two strings by value (`'OT'` before `'SO'`, two `'SO'` goals equal, so they fall to min and sec, as in `TimeUtils.GoalLe`), but compares a string with a number as equal. The model ranks `'OT'` as 4 and the shootout above it, so an overtime or shootout goal always sorts after every numbered-period goal; lodash would compare those pairs by min and sec alone, which is not a consistent order. End times are sorted through `getPeriodOrdinal`, whose NaN for `'SO'` lodash places last; the model's shootout-highest order agrees with that.
- `getAllGoalSorted` and `getClockEndTime` are modelled by insertion sort and by a maximum search. Both agree with a stable `sortBy` under the same order.
- `TimelineComposer.GameEvents`: no game with an end time gives `None`. The code reads a property of the missing horizon there and throws; a general description would give only the start and end markers. The model follows the code.
- `TimelineComposer.GameEvents`/`TimelineComposer.AllPeriodEvents`: the timeline is built with the corrected overtime clock (`TimelineComposer.OvertimeClock`, see Findings), not the code as written. At an ended `'OT'` horizon of a live regular-season game the model's timeline therefore holds the ticks `OT 0:59`, `OT 0:56`, …, `OT 0:02`, which the code as written lacks (app/js/period-events.js:60 with app/js/game-events.js:96). The as-written clock is modelled separately by `TimelineComposer.OvertimeClockAsWritten`.
- `TimelineComposer.GameEndTime` requires a live game to carry its progress (`ProgressKnownWhenLive`), as the feed always supplies it. The code would throw without it.
- The three source files read the remaining time of a live period in three ways: `utils.js` parses a string, `game-events.js` reads `.min`/`.sec`, and `game.js` reads `.pretty`. They come from different revisions. The model gives the remaining time all three fields, and `TimeUtils.ParseProgressTimeRemaining` parses `pretty`.
- `getPeriodOrdinal` is imported by `game-events.js` but not exported by the shown `utils.js`. It is treated as shared.
- `GameCard.ErrorText` does not model a mismatch error whose `details` are missing, which the code renders with `NaN`. The goal and score counts are always given.
- Series wins are stored per position (away, home), not keyed by team abbreviation. So two teams with the same abbreviation are not modelled.
- `PeriodSequencer.SecondEventsCountdown`, `PeriodSequencer.PeriodTicksCountdown` and the countdown lemmas built on them require a present cutoff second to be non-negative, as every end time the timeline builds has.
- `PeriodSequencer.MultiplyLength` and `PeriodSequencer.MultiplyCollapse` require a non-negative multiplier and goal indices that never decrease. With a negative count, `_.times` drops the tick; the model computes this as the code does, but the lemmas do not cover it.
- Regular expressions in general. Only `/(\d+)?:(\d+)/` is modelled, as a leftmost-match search (`TimeUtils.Exec`). At each start position it tries the optional greedy minutes group, then the colon, then the seconds digits.

## Findings

| source | as written | input that shows it | evidently intended | confidence | as-written member | corrected member |
|---|---|---|---|---|---|---|
| app/js/period-events.js:60, app/js/game-events.js:96 | At an `'OT'` horizon whose period has ended, the undefined minute gives `Math.max(NaN, -1)` = NaN as the range end. `_.range` reads it as 0, so the minutes run 4 down to 1 and the last overtime minute is never played back. | A live regular-season game at the end of overtime: progress `'OT'`, 0:00 remaining. | The overtime is played back in full, down to 0:02, as for any period that has ended. | not executed | TimelineComposer.OvertimeAsWrittenSkipsLastMinute | TimelineComposer.OvertimeCorrectedPlaysLastMinute |
