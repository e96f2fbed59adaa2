/** The decisions a game card makes from its display state: which panels show, the series
    wins and their description, the score delimiter, error texts and the progress text
    (app/js/components/game.js). */
module GameCard {
  import opened Seqs
  import opened Types
  import opened TimeUtils
  import GameScore

  // ---- Display flags -----------------------------------------------------------------------

  datatype DisplayFlags = DisplayFlags(
    showGameStats: bool,
    showPreGameStats: bool,
    showAfterGameStats: bool,
    updatePlayoffSeriesWins: bool,
    showLatestGoal: bool,
    showProgressInfo: bool,
    isBeforeGame: bool)

  /** The flags computed at the top of `renderGame`; `hasGameStats` says whether the game
      carries game statistics. */
  function Flags(display: GameDisplay, hasGameStats: bool): (r: DisplayFlags)
    ensures r.showPreGameStats <==> display == PreGame || display == PostGameInProgress
    ensures r.showAfterGameStats <==> display == PostGameFinished
    ensures r.updatePlayoffSeriesWins <==> display == PostGameFinished
    ensures !r.showLatestGoal <==> display == PreGame
    ensures r.showGameStats <==> hasGameStats && (display == PostGameFinished || display == PostGameInProgress)
    ensures r.showProgressInfo <==> !(display == PostGameFinished || display == Playback)
  {
    var showAfterGameStats := display == PostGameFinished;
    DisplayFlags(
      hasGameStats && display in [PostGameFinished, PostGameInProgress],
      display in [PreGame, PostGameInProgress],
      showAfterGameStats,
      showAfterGameStats,
      display != PreGame,
      display in [PreGame, InProgress, PostGameInProgress],
      display == PreGame)
  }

  /** Whose team statistics the card shows. */
  datatype TeamStatsShown = PreGameTeamStats | CurrentTeamStats | NoTeamStats

  function TeamStatsOf(flags: DisplayFlags): TeamStatsShown {
    if flags.showPreGameStats then PreGameTeamStats
    else if flags.showAfterGameStats then CurrentTeamStats
    else NoTeamStats
  }

  /** Pre-game and after-game statistics never show together, so each display picks one
      source of team statistics: the pre-game ones before the game and while the game goes
      on after the playback, the current ones after a finished game, none during play. */
  lemma {:induction false} TeamStatsChoice(display: GameDisplay, hasGameStats: bool)
    ensures var flags := Flags(display, hasGameStats);
      !(flags.showPreGameStats && flags.showAfterGameStats)
      && TeamStatsOf(flags) == match display
        case PreGame => PreGameTeamStats
        case PostGameInProgress => PreGameTeamStats
        case PostGameFinished => CurrentTeamStats
        case _ => NoTeamStats
  {
  }

  // ---- Series wins -------------------------------------------------------------------------

  /** The series wins a card shows: counted with this game's result only in the
      post-game-finished display. */
  function CardSeriesWins(display: GameDisplay, teams: Teams, currentGoals: seq<Goal>,
                          series: Option<PlayoffSeries>): Option<SeriesWins>
  {
    GameScore.PlayoffSeriesWins(
      series,
      Flags(display, false).updatePlayoffSeriesWins,
      |GameScore.TeamGoals(currentGoals, teams.away)|,
      |GameScore.TeamGoals(currentGoals, teams.home)|)
  }

  /** The card's series wins differ from the stored ones exactly in the post-game-finished
      display, and then the team with more current goals (home when level) has one more. */
  lemma {:induction false} CardSeriesWinsUpdatedOnlyWhenFinished(display: GameDisplay, teams: Teams, currentGoals: seq<Goal>,
                                              series: PlayoffSeries)
    ensures var r := CardSeriesWins(display, teams, currentGoals, Some(series));
      r.Some?
      && (r.value != series.wins <==> display == PostGameFinished)
      && (display == PostGameFinished ==>
            var awayWon := |GameScore.TeamGoals(currentGoals, teams.away)| > |GameScore.TeamGoals(currentGoals, teams.home)|;
            r.value == if awayWon then series.wins.(away := series.wins.away + 1)
                       else series.wins.(home := series.wins.home + 1))
  {
  }

  // ---- Series description ------------------------------------------------------------------

  const RoundDescriptions: seq<string> := ["Qualifier", "1st round", "2nd round", "Semifinal", "Final"]

  /** `roundDescriptions[playoffRound]` as a template inserts it: "undefined" outside the table. */
  function RoundName(playoffRound: int): (r: string)
    ensures 0 <= playoffRound < 5 ==> r == RoundDescriptions[playoffRound]
  {
    if 0 <= playoffRound < |RoundDescriptions| then RoundDescriptions[playoffRound] else "undefined"
  }

  /** The number of wins that takes a round: 3 in the qualifying round 0, 4 after it. */
  function SeriesWinCount(playoffRound: int): int {
    if playoffRound == 0 then 3 else 4
  }

  /** `getSeriesWinsDescription`: the round's first game when neither team has won, "tied" on
      equal counts, otherwise the team with more wins, which "wins" the series when it has
      the round's win count and "leads" otherwise. */
  function SeriesWinsDescription(teams: Teams, w: SeriesWins, playoffRound: int): (r: GameScore.SeriesDescription)
    ensures r.FirstGame? <==> w.away == 0 && w.home == 0
    ensures r.FirstGame? ==> r.text == RoundName(playoffRound) + " - Game 1"
    ensures r.Tied? <==> w.away == w.home && w.away != 0
    ensures r.Tied? ==> r.wins == w.away
    ensures r.Leads? || r.Wins? ==>
      r.team == (if w.away > w.home then teams.away else teams.home)
      && r.leading == (if w.away > w.home then w.away else w.home)
      && r.trailing == (if w.away > w.home then w.home else w.away)
      && r.leading > r.trailing
    ensures r.Wins? <==>
      w.away != w.home && (if w.away > w.home then w.away else w.home) == SeriesWinCount(playoffRound)
  {
    var sorted := GameScore.SortedByWins(teams, w);
    var leading, trailing := sorted[1], sorted[0];
    if leading.wins == 0 && trailing.wins == 0 then
      GameScore.FirstGame(RoundName(playoffRound) + " - Game 1")
    else if leading.wins == trailing.wins then GameScore.Tied(leading.wins)
    else GameScore.LeadDescription(sorted, SeriesWinCount(playoffRound))
  }

  /** Once a series has started, the card's description agrees with the score panel's,
      except in round 0, which is taken with 3 wins instead of 4. */
  lemma {:induction false} DescriptionsAgree(teams: Teams, w: SeriesWins, playoffRound: int)
    requires !(w.away == 0 && w.home == 0) && playoffRound != 0
    ensures SeriesWinsDescription(teams, w, playoffRound) == GameScore.SeriesWinsDescription(teams, w)
  {
  }

  // ---- Delimiter ---------------------------------------------------------------------------

  /** The delimiter between the scores: "at" before the game, then `renderDelimiter` of the
      latest goal's period: "SO" for the shootout, "OT" for `'OT'` and the numbered playoff
      overtimes, nothing for a regular period or when no goal has been scored. */
  function CardDelimiter(isBeforeGame: bool, period: Option<Period>): (r: string)
    ensures r == "at" <==> isBeforeGame
    ensures r == "SO" <==> !isBeforeGame && period == Some(SO)
    ensures r == "OT" <==> !isBeforeGame && (period == Some(OT) || (period.Some? && period.value.Num? && period.value.n > 3))
    ensures r == "" <==> !isBeforeGame && (period.None? || (period.value.Num? && period.value.n <= 3))
  {
    if isBeforeGame then "at"
    else if period == Some(OT) || period == Some(SO) || (period.Some? && period.value.Num? && period.value.n > 3) then
      (if period == Some(SO) then "SO" else "OT")
    else ""
  }

  /** For games without numbered overtimes the card's delimiter is the score panel's, with
      the dash left out. */
  lemma {:induction false} DelimitersAgree(latestGoal: Option<Goal>)
    requires latestGoal.Some? && latestGoal.value.period.Num? ==> latestGoal.value.period.n <= 3
    ensures var panel := GameScore.ScoreDelimiter(latestGoal);
      CardDelimiter(false, if latestGoal.Some? then Some(latestGoal.value.period) else None)
        == if panel == GameScore.Dash then "" else panel
  {
  }

  // ---- Error texts -------------------------------------------------------------------------

  /** A data error reported with a game; an unknown code is kept as its text. */
  datatype GameError =
    | MissingAllGoals
    | ScoreAndGoalCountMismatch(goalCount: int, scoreCount: int)
    | UnknownError(code: string)

  function Abs(x: int): nat {
    if x < 0 then -x else x
  }

  /** `getErrorText`. */
  function ErrorText(e: GameError): (r: string)
    ensures e.MissingAllGoals? ==> r == "Missing all goal data"
    ensures e.UnknownError? ==> r == "Unknown error " + e.code
  {
    match e
    case MissingAllGoals => "Missing all goal data"
    case ScoreAndGoalCountMismatch(goalCount, scoreCount) =>
      var difference := Abs(goalCount - scoreCount);
      var pluralSuffix := if difference == 1 then "" else "s";
      if goalCount < scoreCount then "Missing " + NatToString(difference) + " goal" + pluralSuffix + " from data"
      else NatToString(difference) + " too many goals in data"
    case UnknownError(code) => "Unknown error " + code
  }

  /** The missing-goals text drops the plural exactly for one goal; the too-many text keeps
      "goals" whatever the number. */
  lemma {:induction false} MismatchPlural(goalCount: int, scoreCount: int)
    ensures var d := Abs(goalCount - scoreCount);
      var r := ErrorText(ScoreAndGoalCountMismatch(goalCount, scoreCount));
      (goalCount < scoreCount ==>
         r == "Missing " + NatToString(d) + (if d == 1 then " goal from data" else " goals from data"))
      && (goalCount >= scoreCount ==> r == NatToString(d) + " too many goals in data")
  {
    var d := Abs(goalCount - scoreCount);
    var numeral := NatToString(d);
    if goalCount < scoreCount {
      if d == 1 {
        assert "Missing " + numeral + "" + " from data" == "Missing " + numeral + " from data";
        assert "Missing " + numeral + " goal" + "" + " from data" == "Missing " + numeral + " goal from data";
      } else {
        assert "Missing " + numeral + " goal" + "s" + " from data" == "Missing " + numeral + " goals from data";
      }
    }
  }

  /** The digit run at the front of a numeral followed by a non-digit ends where the numeral
      ends. */
  lemma {:induction false} NumeralRunEnd(a: string, x: string, i: nat)
    requires AllDigits(a) && x != [] && !IsDigit(x[0]) && i <= |a|
    ensures DigitRunEnd(a + x, i) == |a|
    decreases |a| - i
  {
    if i < |a| {
      assert (a + x)[i] == a[i];
      NumeralRunEnd(a, x, i + 1);
    } else {
      assert (a + x)[i] == x[0];
    }
  }

  /** A numeral followed by text that starts with a non-digit can be split back uniquely. */
  lemma {:induction false} NumeralPrefixUnique(a: string, x: string, b: string, y: string)
    requires AllDigits(a) && x != [] && !IsDigit(x[0])
    requires AllDigits(b) && y != [] && !IsDigit(y[0])
    requires a + x == b + y
    ensures a == b && x == y
  {
    NumeralRunEnd(a, x, 0);
    NumeralRunEnd(b, y, 0);
    assert a == (a + x)[..|a|];
    assert b == (b + y)[..|b|];
    assert x == (a + x)[|a|..];
    assert y == (b + y)[|b|..];
  }

  /** The numeral of two numbers is the same only for the same number. */
  lemma {:induction false} NatToStringInjective(m: nat, n: nat)
    requires NatToString(m) == NatToString(n)
    ensures m == n
  {
    NatToStringRoundTrip(m);
    NatToStringRoundTrip(n);
  }

  /** Error texts tell apart the kind of error, the direction and size of a count mismatch,
      and the code of an unknown error. */
  lemma {:induction false} ErrorTextDistinguishes(e1: GameError, e2: GameError)
    requires ErrorText(e1) == ErrorText(e2)
    ensures e1.MissingAllGoals? <==> e2.MissingAllGoals?
    ensures e1.UnknownError? <==> e2.UnknownError?
    ensures e1.UnknownError? && e2.UnknownError? ==> e1.code == e2.code
    ensures e1.ScoreAndGoalCountMismatch? && e2.ScoreAndGoalCountMismatch? ==>
      (e1.goalCount < e1.scoreCount <==> e2.goalCount < e2.scoreCount)
      && Abs(e1.goalCount - e1.scoreCount) == Abs(e2.goalCount - e2.scoreCount)
  {
    var t := ErrorText(e1);
    ErrorTextShape(e1);
    ErrorTextShape(e2);
    if e1.UnknownError? && e2.UnknownError? {
      assert e1.code == t[14..] == e2.code;
    }
    if e1.ScoreAndGoalCountMismatch? && e2.ScoreAndGoalCountMismatch? {
      MismatchTextDistinguishes(e1.goalCount, e1.scoreCount, e2.goalCount, e2.scoreCount);
    }
  }

  /** The plural ending of a missing-goals text. */
  function MissingSuffix(d: nat): string {
    if d == 1 then " goal from data" else " goals from data"
  }

  /** What follows "Missing " in a missing-goals text: the numeral, then its ending. */
  lemma {:induction false} MissingTextTail(goalCount: int, scoreCount: int)
    requires goalCount < scoreCount
    ensures var d := Abs(goalCount - scoreCount);
      var r := ErrorText(ScoreAndGoalCountMismatch(goalCount, scoreCount));
      |r| >= 8 && r[8..] == NatToString(d) + MissingSuffix(d)
  {
    var d := Abs(goalCount - scoreCount);
    MismatchPlural(goalCount, scoreCount);
    var head, n, suffix := "Missing ", NatToString(d), MissingSuffix(d);
    assert head + n + suffix == head + (n + suffix);
    assert (head + (n + suffix))[|head|..] == n + suffix;
  }

  /** Two count-mismatch texts are equal only for the same direction and difference. */
  lemma {:induction false} MismatchTextDistinguishes(g1: int, s1: int, g2: int, s2: int)
    requires ErrorText(ScoreAndGoalCountMismatch(g1, s1)) == ErrorText(ScoreAndGoalCountMismatch(g2, s2))
    ensures (g1 < s1 <==> g2 < s2) && Abs(g1 - s1) == Abs(g2 - s2)
  {
    var e1, e2 := ScoreAndGoalCountMismatch(g1, s1), ScoreAndGoalCountMismatch(g2, s2);
    ErrorTextShape(e1);
    ErrorTextShape(e2);
    var d1, d2 := Abs(g1 - s1), Abs(g2 - s2);
    var n1, n2 := NatToString(d1), NatToString(d2);
    if g1 < s1 {
      MissingTextTail(g1, s1);
      MissingTextTail(g2, s2);
      NumeralPrefixUnique(n1, MissingSuffix(d1), n2, MissingSuffix(d2));
    } else {
      MismatchPlural(g1, s1);
      MismatchPlural(g2, s2);
      var tail := " too many goals in data";
      NumeralPrefixUnique(n1, tail, n2, tail);
    }
    NatToStringInjective(d1, d2);
  }

  /** The first character shows the kind of text: 'M' for missing goals, 'U' for an unknown
      code, a digit for too many goals. */
  lemma {:induction false} ErrorTextShape(e: GameError)
    ensures var r := ErrorText(e);
      |r| >= 14
      && (e.MissingAllGoals? ==> r[..8] == "Missing " && r[8] == 'a')
      && (e.UnknownError? ==> r[..14] == "Unknown error ")
      && (e.ScoreAndGoalCountMismatch? && e.goalCount < e.scoreCount ==> r[..8] == "Missing " && IsDigit(r[8]))
      && (e.ScoreAndGoalCountMismatch? && e.goalCount >= e.scoreCount ==> IsDigit(r[0]))
  {
    if e.ScoreAndGoalCountMismatch? {
      var d := Abs(e.goalCount - e.scoreCount);
      var n := NatToString(d);
      MismatchPlural(e.goalCount, e.scoreCount);
      assert IsDigit(n[0]);
      if e.goalCount < e.scoreCount {
        assert ErrorText(e)[8] == n[0];
      } else {
        assert ErrorText(e)[0] == n[0];
      }
    }
  }

  // ---- Progress text -----------------------------------------------------------------------

  /** A caption with an optional highlighted value, as the status line is rendered. */
  datatype StatusLine = StatusLine(caption: string, value: Option<string>)

  /** `renderCurrentProgressTime`. */
  function CurrentProgressTime(progress: Progress): (r: string)
    ensures progress.timeRemaining.pretty == "END" ==> r == "End of " + progress.currentPeriodOrdinal
    ensures progress.timeRemaining.pretty != "END" && progress.currentPeriodOrdinal == "SO" ==> r == "In shootout"
    ensures progress.timeRemaining.pretty != "END" && progress.currentPeriodOrdinal != "SO" ==>
      r == progress.currentPeriodOrdinal + " " + progress.timeRemaining.pretty
  {
    if progress.timeRemaining.pretty == "END" then "End of " + progress.currentPeriodOrdinal
    else if progress.currentPeriodOrdinal == "SO" then "In shootout"
    else progress.currentPeriodOrdinal + " " + progress.timeRemaining.pretty
  }

  /** `renderCurrentProgress`: just "In progress" without a progress or an ordinal, otherwise
      "In progress:" with the progress time as its value. */
  function CurrentProgress(progress: Option<Progress>): (r: StatusLine)
    ensures r.value.None? <==> progress.None? || progress.value.currentPeriodOrdinal == ""
    ensures r.value.None? ==> r.caption == "In progress"
    ensures r.value.Some? ==> r.caption == "In progress:" && r.value.value == CurrentProgressTime(progress.value)
  {
    var caption := "In progress";
    if progress.None? || progress.value.currentPeriodOrdinal == "" then StatusLine(caption, None)
    else StatusLine(caption + ":", Some(CurrentProgressTime(progress.value)))
  }

  /** `renderGameStatus`; `startsIn` is the relative start time when the game starts in the
      future (None: the start time has passed). */
  function GameStatusLine(status: Status, startsIn: Option<string>): (r: StatusLine)
    ensures status.state == Live ==> r == CurrentProgress(status.progress)
    ensures status.state == Preview ==>
      r == StatusLine("Starts " + (if startsIn.Some? then startsIn.value else "soon"), None)
    ensures status.state == Postponed ==> r == StatusLine("Postponed", None)
    ensures status.state == Final ==> r == StatusLine("Finished", None)
  {
    match status.state
    case Live => CurrentProgress(status.progress)
    case Preview => StatusLine("Starts " + (if startsIn.Some? then startsIn.value else "soon"), None)
    case Postponed => StatusLine("Postponed", None)
    case Final => StatusLine("Finished", None)
  }

  /** A live game with a period ordinal always shows a progress value, and the value shows
      the remaining time as the feed gives it unless the period is over or in the shootout. */
  lemma {:induction false} LiveProgressShowsClock(status: Status, startsIn: Option<string>)
    requires status.state == Live && status.progress.Some?
    requires status.progress.value.currentPeriodOrdinal != ""
    ensures var r := GameStatusLine(status, startsIn);
      var p := status.progress.value;
      r.value.Some?
      && (p.timeRemaining.pretty != "END" && p.currentPeriodOrdinal != "SO" ==>
            r.value.value[|r.value.value| - |p.timeRemaining.pretty|..] == p.timeRemaining.pretty)
  {
  }
  /** The caption names the game state: it starts with "In progress" exactly for a live game
      and with "Starts " exactly for a preview, and is "Postponed" or "Finished" exactly for
      the other two states. So games in different states never show the same caption. */
  lemma {:induction false} StatusCaptionNamesState(status: Status, startsIn: Option<string>)
    ensures var c := GameStatusLine(status, startsIn).caption;
      (status.state == Live <==> |c| >= 11 && c[..11] == "In progress")
      && (status.state == Preview <==> |c| >= 7 && c[..7] == "Starts ")
      && (status.state == Postponed <==> c == "Postponed")
      && (status.state == Final <==> c == "Finished")
  {
    var c := GameStatusLine(status, startsIn).caption;
    match status.state
    case Live =>
      assert c[..11] == "In progress";
      assert c[0] == 'I';
    case Preview =>
      assert c[..7] == "Starts ";
      assert c[0] == 'S';
    case Postponed =>
      assert c[0] == 'P';
    case Final =>
      assert c[0] == 'F';
  }
}
