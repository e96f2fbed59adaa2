/** Which goals count at a clock state, the playoff-series wins and their description, and
    the delimiter between the two scores (app/js/game-score.js). */
module GameScore {
  import opened Seqs
  import opened Types
  import opened TimeUtils

  // ---- Goals by kind and by team -----------------------------------------------------------

  function IsShootoutGoal(g: Goal): bool {
    g.period == SO
  }

  function NonShootout(g: Goal): bool {
    g.period != SO
  }

  function ByTeam(team: Team): Goal -> bool {
    (g: Goal) => g.team == team
  }

  /** `goals.filter(goal => goal.team === team)`. */
  function TeamGoals(goals: seq<Goal>, team: Team): seq<Goal> {
    Filter(goals, ByTeam(team))
  }

  /** `_.last(goals)`. */
  function LatestGoal(goals: seq<Goal>): (r: Option<Goal>)
    ensures r.None? <==> goals == []
    ensures r.Some? ==> r.value in goals
  {
    if goals == [] then None else Some(goals[|goals| - 1])
  }

  // ---- The shootout goal -------------------------------------------------------------------

  /** The team whose shootout goal is shown: the one with more goals in the whole list, the
      home team when the counts are level. */
  function ShootoutWinner(goals: seq<Goal>, teams: Teams): Team {
    if |TeamGoals(goals, teams.away)| > |TeamGoals(goals, teams.home)| then teams.away else teams.home
  }

  /** `getShootoutGoal`: the last goal of the shootout winner. None stands for the
      `undefined` of `_.last([])`. */
  function ShootoutGoal(goals: seq<Goal>, teams: Teams): (r: Option<Goal>)
    ensures r.Some? ==> r.value in goals && r.value.team == ShootoutWinner(goals, teams)
  {
    var winnersGoals := TeamGoals(goals, ShootoutWinner(goals, teams));
    LatestGoal(winnersGoals)
  }

  /** The goal chosen is the winner's goal with the highest index in the list, and there is
      none exactly when the winner has no goal. */
  lemma {:induction false} ShootoutGoalIsLastOfWinner(goals: seq<Goal>, teams: Teams)
    ensures var i := FindLastIndex(goals, ByTeam(ShootoutWinner(goals, teams)));
      ShootoutGoal(goals, teams) == if i < 0 then None else Some(goals[i])
  {
    FilterLastIsFindLast(goals, ByTeam(ShootoutWinner(goals, teams)));
  }

  /** A game decided in a shootout: every goal is by one of the two (different) teams, the
      teams are level without the shootout, there is a shootout goal, and the shootout goals
      come after all other goals in the list. */
  predicate DecidedInShootout(goals: seq<Goal>, teams: Teams) {
    var regular := Filter(goals, NonShootout);
    teams.away != teams.home
    && (forall g :: g in goals ==> g.team == teams.away || g.team == teams.home)
    && |TeamGoals(regular, teams.away)| == |TeamGoals(regular, teams.home)|
    && (exists g :: g in goals && g.period == SO)
    && (forall i, j :: 0 <= i < j < |goals| && goals[i].period == SO ==> goals[j].period == SO)
  }

  /** In a game decided in a shootout the goal chosen is a shootout goal, of the team that
      scored more shootout goals (the home team when they scored equally many). */
  lemma {:induction false} ShootoutGoalIsDecisive(goals: seq<Goal>, teams: Teams)
    requires DecidedInShootout(goals, teams)
    ensures ShootoutGoal(goals, teams).Some?
    ensures ShootoutGoal(goals, teams).value.period == SO
    ensures var shootout := Filter(goals, IsShootoutGoal);
      ShootoutWinner(goals, teams)
        == if |TeamGoals(shootout, teams.away)| > |TeamGoals(shootout, teams.home)| then teams.away else teams.home
  {
    var winner := ShootoutWinner(goals, teams);
    var k := WinnerScoredInShootout(goals, teams);
    var p := ByTeam(winner);
    var i := FindLastIndex(goals, p);
    assert p(goals[k]);
    assert k <= i;
    ShootoutGoalsComeLast(goals, k, i);
    ShootoutGoalIsLastOfWinner(goals, teams);
  }

  /** After a shootout goal, when shootout goals come last, every goal is a shootout goal. */
  lemma {:induction false} ShootoutGoalsComeLast(goals: seq<Goal>, k: int, i: int)
    requires forall i, j :: 0 <= i < j < |goals| && goals[i].period == SO ==> goals[j].period == SO
    requires 0 <= k <= i < |goals| && goals[k].period == SO
    ensures goals[i].period == SO
  {
  }

  /** The winner's count is decided by the shootout, and the winner has a shootout goal. */
  lemma {:induction false} WinnerScoredInShootout(goals: seq<Goal>, teams: Teams) returns (k: int)
    requires DecidedInShootout(goals, teams)
    ensures var shootout := Filter(goals, IsShootoutGoal);
      ShootoutWinner(goals, teams)
        == if |TeamGoals(shootout, teams.away)| > |TeamGoals(shootout, teams.home)| then teams.away else teams.home
    ensures 0 <= k < |goals| && goals[k].period == SO && goals[k].team == ShootoutWinner(goals, teams)
  {
    var shootout := Filter(goals, IsShootoutGoal);
    var away, home := teams.away, teams.home;
    FilterSplitCount(goals, NonShootout, IsShootoutGoal, ByTeam(away));
    FilterSplitCount(goals, NonShootout, IsShootoutGoal, ByTeam(home));
    var winner := ShootoutWinner(goals, teams);
    ShootoutHasGoal(goals, teams);
    // every shootout goal is the away team's or the home team's, not both
    FilterPartitionCount(shootout, ByTeam(away), ByTeam(home));
    assert |TeamGoals(shootout, winner)| >= 1;
    var w := TeamGoals(shootout, winner)[0];
    assert w in TeamGoals(shootout, winner);
    k :| 0 <= k < |goals| && goals[k] == w;
  }

  /** The shootout goals of a game with a shootout goal, each by one of the two teams. */
  lemma {:induction false} ShootoutHasGoal(goals: seq<Goal>, teams: Teams)
    requires DecidedInShootout(goals, teams)
    ensures var shootout := Filter(goals, IsShootoutGoal);
      shootout != [] && forall k :: 0 <= k < |shootout| ==> (ByTeam(teams.away)(shootout[k]) <==> !ByTeam(teams.home)(shootout[k]))
  {
    var shootout := Filter(goals, IsShootoutGoal);
    var g0 :| g0 in goals && g0.period == SO;
    FilterIsSelection(goals, IsShootoutGoal);
    assert g0 in multiset(shootout);
    forall k | 0 <= k < |shootout|
      ensures ByTeam(teams.away)(shootout[k]) <==> !ByTeam(teams.home)(shootout[k])
    {
      assert shootout[k] in shootout;
    }
  }

  // ---- Goals at a clock state --------------------------------------------------------------

  /** The clock asks for the whole game's goals: the end marker (no period) or any clock of
      the shootout. */
  predicate ShowsWholeGame(c: Clock) {
    ClockTime(c).period.None? || ClockTime(c).period == Some(SO)
  }

  /** `getCurrentGoals`: no goals before the first clock or at the start marker; at the end
      marker or in the shootout all goals, with only the decisive shootout goal kept; otherwise
      the goals the clock has reached. */
  function CurrentGoals(clock: Option<Clock>, teams: Teams, goals: seq<Goal>): (r: seq<Goal>)
    ensures clock.None? || clock.value.Start? ==> r == []
    ensures forall g :: g in r ==> g in goals
  {
    if clock.None? || clock.value.Start? then []
    else if ShowsWholeGame(clock.value) then
      var nonShootoutGoals := Filter(goals, NonShootout);
      if |nonShootoutGoals| == |goals| then goals
      else nonShootoutGoals + OptionToSeq(ShootoutGoal(goals, teams))
    else Filter(goals, ScoredBy(clock.value))
  }

  /** During play the current goals are exactly the goals the clock has reached, each as
      often as in the list and in list order. */
  lemma {:induction false} CurrentGoalsInPlay(c: Clock, teams: Teams, goals: seq<Goal>)
    requires !c.Start? && !ShowsWholeGame(c)
    ensures IsSubsequence(CurrentGoals(Some(c), teams, goals), goals)
    ensures forall g :: multiset(CurrentGoals(Some(c), teams, goals))[g]
                     == if HasGoalBeenScored(ClockTime(c), g) then multiset(goals)[g] else 0
  {
    FilterIsSelection(goals, ScoredBy(c));
  }

  /** A goal once shown stays shown as the clock advances through play. */
  lemma {:induction false} CurrentGoalsGrow(c1: Clock, c2: Clock, teams: Teams, goals: seq<Goal>)
    requires !c1.Start? && !ShowsWholeGame(c1) && !c2.Start? && !ShowsWholeGame(c2)
    requires ClockNotLater(ClockTime(c1), ClockTime(c2))
    ensures IsSubsequence(CurrentGoals(Some(c1), teams, goals), CurrentGoals(Some(c2), teams, goals))
  {
    forall k | 0 <= k < |goals| && ScoredBy(c1)(goals[k]) ensures ScoredBy(c2)(goals[k]) {
      PassedMonotone(ClockTime(c1), ClockTime(c2), GoalTime(goals[k]));
    }
    FilterMonotone(goals, ScoredBy(c1), ScoredBy(c2));
  }

  /** At the end marker or in the shootout, a game without shootout goals shows all its goals. */
  lemma {:induction false} CurrentGoalsWithoutShootout(c: Clock, teams: Teams, goals: seq<Goal>)
    requires !c.Start? && ShowsWholeGame(c)
    requires forall g :: g in goals ==> g.period != SO
    ensures CurrentGoals(Some(c), teams, goals) == goals
  {
    forall k | 0 <= k < |goals| ensures NonShootout(goals[k]) {
      assert goals[k] in goals;
    }
    FilterAll(goals, NonShootout);
  }

  /** At the end marker or in the shootout, a game with a shootout goal shows its other goals
      in order followed by the shootout goal. */
  lemma {:induction false} CurrentGoalsWithShootout(c: Clock, teams: Teams, goals: seq<Goal>)
    requires !c.Start? && ShowsWholeGame(c)
    requires exists g :: g in goals && g.period == SO
    ensures CurrentGoals(Some(c), teams, goals)
      == Filter(goals, NonShootout) + OptionToSeq(ShootoutGoal(goals, teams))
  {
    var g :| g in goals && g.period == SO;
    var k :| 0 <= k < |goals| && goals[k] == g;
    FilterKeepsAllIff(goals, NonShootout);
  }

  /** In a game decided in a shootout, the end marker and the shootout clocks show the other
      goals unchanged and exactly one shootout goal, last. */
  lemma {:induction false} OneShootoutGoalShown(c: Clock, teams: Teams, goals: seq<Goal>)
    requires !c.Start? && ShowsWholeGame(c)
    requires DecidedInShootout(goals, teams)
    ensures var r := CurrentGoals(Some(c), teams, goals);
      Filter(r, NonShootout) == Filter(goals, NonShootout)
      && |Filter(r, IsShootoutGoal)| == 1
      && r[|r| - 1] == ShootoutGoal(goals, teams).value
  {
    CurrentGoalsWithShootout(c, teams, goals);
    ShootoutGoalIsDecisive(goals, teams);
    var regular := Filter(goals, NonShootout);
    var g := ShootoutGoal(goals, teams).value;
    assert OptionToSeq(ShootoutGoal(goals, teams)) == [g];
    FilterAppend(regular, [g], NonShootout);
    FilterAppend(regular, [g], IsShootoutGoal);
    forall k | 0 <= k < |regular| ensures NonShootout(regular[k]) {
      assert regular[k] in regular;
    }
    FilterAll(regular, NonShootout);
    FilterNone(regular, IsShootoutGoal);
  }

  // ---- Playoff series wins ---------------------------------------------------------------

  /** `getPlayoffSeriesWinsAfterGame`: the team with more goals, or the home team when level,
      gains a win; the other count is kept. */
  function PlayoffSeriesWinsAfterGame(wins: SeriesWins, awayGoalCount: nat, homeGoalCount: nat): (r: SeriesWins)
    ensures r.away + r.home == wins.away + wins.home + 1
    ensures r.away == wins.away + 1 <==> awayGoalCount > homeGoalCount
    ensures r.home == wins.home + 1 <==> awayGoalCount <= homeGoalCount
  {
    if awayGoalCount > homeGoalCount then wins.(away := wins.away + 1)
    else wins.(home := wins.home + 1)
  }

  /** `getPlayoffSeriesWins`: nothing for a game outside a series; the series wins, counting
      this game only once `update` holds. */
  function PlayoffSeriesWins(series: Option<PlayoffSeries>, update: bool, awayGoalCount: nat, homeGoalCount: nat)
    : (r: Option<SeriesWins>)
    ensures r.None? <==> series.None?
    ensures series.Some? && !update ==> r == Some(series.value.wins)
    ensures series.Some? && update ==> r == Some(PlayoffSeriesWinsAfterGame(series.value.wins, awayGoalCount, homeGoalCount))
  {
    if series.Some? then
      if update then Some(PlayoffSeriesWinsAfterGame(series.value.wins, awayGoalCount, homeGoalCount))
      else Some(series.value.wins)
    else None
  }

  /** `clock && clock.end && !clock.period`: the end marker of the whole timeline. */
  predicate AllGamesEnded(clock: Option<Clock>) {
    clock.Some? && clock.value.End?
  }

  /** The series wins a score shows at a clock state. */
  function SeriesWinsAt(clock: Option<Clock>, teams: Teams, goals: seq<Goal>, series: Option<PlayoffSeries>)
    : Option<SeriesWins>
  {
    var current := CurrentGoals(clock, teams, goals);
    PlayoffSeriesWins(series, AllGamesEnded(clock), |TeamGoals(current, teams.away)|, |TeamGoals(current, teams.home)|)
  }

  /** The series wins shown differ from the stored ones exactly at the end marker. */
  lemma {:induction false} SeriesWinsChangeOnlyAtEnd(clock: Option<Clock>, teams: Teams, goals: seq<Goal>, series: Option<PlayoffSeries>)
    requires series.Some?
    ensures SeriesWinsAt(clock, teams, goals, series) != Some(series.value.wins) <==> AllGamesEnded(clock)
  {
  }

  /** At the end marker a game without shootout goals gives its series win to the team that
      scored more goals in the game, the home team when level. */
  lemma {:induction false} SeriesWinGoesToWinner(inProgress: bool, teams: Teams, goals: seq<Goal>, series: PlayoffSeries)
    requires forall g :: g in goals ==> g.period != SO
    ensures SeriesWinsAt(Some(End(inProgress)), teams, goals, Some(series))
      == Some(PlayoffSeriesWinsAfterGame(series.wins, |TeamGoals(goals, teams.away)|, |TeamGoals(goals, teams.home)|))
  {
    CurrentGoalsWithoutShootout(End(inProgress), teams, goals);
  }

  // ---- Series description ----------------------------------------------------------------

  const SeriesWinCount := 4

  /** What the series panel says, as data: the first game of a round, a tied series, or the
      leading team with its win counts, and whether it has won the series. */
  datatype SeriesDescription =
    | FirstGame(text: string)
    | Tied(wins: int)
    | Leads(team: Team, leading: int, trailing: int)
    | Wins(team: Team, leading: int, trailing: int)

  datatype TeamWins = TeamWins(team: Team, wins: int)

  /** `_.sortBy(teamsWithWins, 'wins')` of the away and the home entry: stable, so the order
      is kept when the counts are level. */
  function SortedByWins(teams: Teams, w: SeriesWins): (r: seq<TeamWins>)
    ensures |r| == 2 && r[0].wins <= r[1].wins
    ensures multiset(r) == multiset{TeamWins(teams.away, w.away), TeamWins(teams.home, w.home)}
  {
    var entries := [TeamWins(teams.away, w.away), TeamWins(teams.home, w.home)];
    if entries[1].wins < entries[0].wins then [entries[1], entries[0]] else entries
  }

  /** Describes a leader, given the win count that clinches the series. */
  function LeadDescription(sorted: seq<TeamWins>, winCount: int): SeriesDescription
    requires |sorted| == 2
  {
    var leading := sorted[1];
    var trailing := sorted[0];
    if leading.wins == winCount then Wins(leading.team, leading.wins, trailing.wins)
    else Leads(leading.team, leading.wins, trailing.wins)
  }

  /** `getSeriesWinsDescription`: "tied" on equal counts; otherwise the team with more wins,
      which "wins" the series with 4 wins and "leads" it below that. */
  function SeriesWinsDescription(teams: Teams, w: SeriesWins): (r: SeriesDescription)
    ensures !r.FirstGame?
    ensures r.Tied? <==> w.away == w.home
    ensures r.Tied? ==> r.wins == w.away
    ensures !r.Tied? ==>
      r.team == (if w.away > w.home then teams.away else teams.home)
      && r.leading == (if w.away > w.home then w.away else w.home)
      && r.trailing == (if w.away > w.home then w.home else w.away)
      && r.leading > r.trailing
    ensures r.Wins? <==> w.away != w.home && (if w.away > w.home then w.away else w.home) == SeriesWinCount
  {
    var sorted := SortedByWins(teams, w);
    if sorted[1].wins == sorted[0].wins then Tied(sorted[1].wins)
    else LeadDescription(sorted, SeriesWinCount)
  }

  /** A game won from a tied series puts its winner in the lead. */
  lemma {:induction false} WinFromTiedSeriesLeads(teams: Teams, w: SeriesWins, awayGoalCount: nat, homeGoalCount: nat)
    requires w.away == w.home
    ensures var d := SeriesWinsDescription(teams, PlayoffSeriesWinsAfterGame(w, awayGoalCount, homeGoalCount));
      !d.Tied? && d.team == (if awayGoalCount > homeGoalCount then teams.away else teams.home)
  {
  }

  // ---- Delimiter ---------------------------------------------------------------------------

  const Dash := "\U{2013}"

  /** `renderDelimiter`: the period of the latest goal when it is `'OT'` or `'SO'`, a dash
      otherwise. */
  function ScoreDelimiter(latestGoal: Option<Goal>): (r: string)
    ensures r == "OT" <==> latestGoal.Some? && latestGoal.value.period == OT
    ensures r == "SO" <==> latestGoal.Some? && latestGoal.value.period == SO
    ensures r != "OT" && r != "SO" ==> r == Dash
  {
    if latestGoal.Some? && latestGoal.value.period == OT then "OT"
    else if latestGoal.Some? && latestGoal.value.period == SO then "SO"
    else Dash
  }

  /** While the clock is in one of the three regular periods the delimiter is a dash. */
  lemma {:induction false} DelimiterInRegulation(c: Clock, teams: Teams, goals: seq<Goal>, n: PeriodNumber)
    requires !c.Start? && ClockTime(c).period == Some(Num(n)) && n <= 3
    ensures ScoreDelimiter(LatestGoal(CurrentGoals(Some(c), teams, goals))) == Dash
  {
    var latest := LatestGoal(CurrentGoals(Some(c), teams, goals));
    if latest.Some? {
      var g := latest.value;
      assert HasGoalBeenScored(ClockTime(c), g);
      assert PeriodOrdinal(Some(g.period)).value <= 3;
    }
  }

  /** At the end marker and in the shootout a game decided in a shootout shows "SO". */
  lemma {:induction false} DelimiterAfterShootout(c: Clock, teams: Teams, goals: seq<Goal>)
    requires !c.Start? && ShowsWholeGame(c)
    requires DecidedInShootout(goals, teams)
    ensures ScoreDelimiter(LatestGoal(CurrentGoals(Some(c), teams, goals))) == "SO"
  {
    OneShootoutGoalShown(c, teams, goals);
    ShootoutGoalIsDecisive(goals, teams);
  }
}
