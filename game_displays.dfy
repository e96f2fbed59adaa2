/** The playback state and the display state of each game card at a clock state
    (app/js/events/game-displays.js). */
module GameDisplays {
  import opened Seqs
  import opened Types
  import opened TimeUtils
  import TimelineComposer
  import GameCard

  datatype PlaybackState = PlaybackNotStarted | PlaybackInProgress | PlaybackFinished

  /** The playback state the clock stream maps each element to: finished at the end marker
      (an end without a period), in progress at every other element. Before the first element
      the state is PlaybackNotStarted. */
  function PlaybackStateOf(clock: Clock): (r: PlaybackState)
    ensures r == PlaybackFinished <==> clock.End?
    ensures r != PlaybackNotStarted
  {
    if clock.End? then PlaybackFinished else PlaybackInProgress
  }

  /** The tests on a game's state that the decision uses; their definitions are not part of
      this model. */
  datatype StateTests = StateTests(
    hasGameStarted: GameState -> bool,
    isGameInProgress: GameState -> bool,
    hasGameFinished: GameState -> bool)

  /** The game is live and the clock has passed its current progress. */
  predicate CaughtUp(game: Game, clock: Option<Clock>, tests: StateTests) {
    tests.isGameInProgress(game.status.state) && HasClockPassedCurrentProgress(clock, game.status)
  }

  /** The decision for one game: pre-game before the playback or the game has started; in
      progress once the clock has caught up with a live game; after the playback, finished or
      still in progress; otherwise playing back. */
  function GameDisplayOf(game: Game, clock: Option<Clock>, playbackState: PlaybackState, tests: StateTests)
    : (r: GameDisplay)
    ensures r == PreGame <==> playbackState == PlaybackNotStarted || !tests.hasGameStarted(game.status.state)
    ensures r == InProgress <==>
      playbackState != PlaybackNotStarted && tests.hasGameStarted(game.status.state) && CaughtUp(game, clock, tests)
    ensures r == PostGameFinished || r == PostGameInProgress <==>
      playbackState == PlaybackFinished && tests.hasGameStarted(game.status.state) && !CaughtUp(game, clock, tests)
    ensures r == PostGameFinished ==> tests.hasGameFinished(game.status.state)
    ensures r == PostGameInProgress ==> !tests.hasGameFinished(game.status.state)
    ensures r == Playback <==>
      playbackState == PlaybackInProgress && tests.hasGameStarted(game.status.state) && !CaughtUp(game, clock, tests)
  {
    if playbackState == PlaybackNotStarted || !tests.hasGameStarted(game.status.state) then PreGame
    else if tests.isGameInProgress(game.status.state) && HasClockPassedCurrentProgress(clock, game.status) then
      InProgress
    else if playbackState == PlaybackFinished then
      (if tests.hasGameFinished(game.status.state) then PostGameFinished else PostGameInProgress)
    else
      assert playbackState == PlaybackInProgress;
      Playback
  }

  /** `scores.games.map(...)`: one display per game, in the order of the games. */
  function GameDisplays(games: seq<Game>, clock: Option<Clock>, playbackState: PlaybackState, tests: StateTests)
    : (r: seq<GameDisplay>)
    ensures |r| == |games|
    ensures forall i :: 0 <= i < |games| ==> r[i] == GameDisplayOf(games[i], clock, playbackState, tests)
  {
    seq(|games|, i requires 0 <= i < |games| => GameDisplayOf(games[i], clock, playbackState, tests))
  }

  /** No clock state and no progress is ever passed at the end marker. */
  lemma {:induction false} EndMarkerPassesNothing(inProgress: bool, status: Status)
    ensures !HasClockPassedCurrentProgress(Some(End(inProgress)), status)
  {
    var progressTime := ParseProgressTimeRemaining(status.progress);
    if progressTime.Some? {
      ShootoutNeverPasses(ClockTime(End(inProgress)), RemainingTimeToElapsedTime(progressTime.value));
    }
  }

  /** At the end marker every game that has started shows its post-game display: finished
      exactly when the game has finished, and no game is left in progress or playing back. */
  lemma {:induction false} DisplaysAtEnd(games: seq<Game>, inProgress: bool, tests: StateTests)
    ensures var r := GameDisplays(games, Some(End(inProgress)), PlaybackStateOf(End(inProgress)), tests);
      forall i :: 0 <= i < |games| ==>
        var state := games[i].status.state;
        (r[i] == PreGame <==> !tests.hasGameStarted(state))
        && (r[i] == PostGameFinished <==> tests.hasGameStarted(state) && tests.hasGameFinished(state))
        && (r[i] == PostGameInProgress <==> tests.hasGameStarted(state) && !tests.hasGameFinished(state))
  {
    var clock := Some(End(inProgress));
    forall i | 0 <= i < |games| ensures !CaughtUp(games[i], clock, tests) {
      EndMarkerPassesNothing(inProgress, games[i].status);
    }
  }

  /** Along the timeline of a set of games the playback is in progress at every element but
      the last, and finished at the last. */
  lemma {:induction false} PlaybackAlongTimeline(games: seq<Game>)
    requires TimelineComposer.AllProgressKnown(games) && TimelineComposer.GameEvents(games).Some?
    ensures var t := TimelineComposer.GameEvents(games).value;
      |t| >= 1
      && PlaybackStateOf(t[|t| - 1]) == PlaybackFinished
      && forall j :: 0 <= j < |t| - 1 ==> PlaybackStateOf(t[j]) == PlaybackInProgress
  {
    TimelineComposer.GameEventsFrame(games);
  }

  /** Along the timeline a card counts its game in the series wins only at the last element,
      and there exactly when the game has started and finished. */
  lemma {:induction false} SeriesCountedAtPlaybackEnd(games: seq<Game>, tests: StateTests, i: int, j: int)
    requires TimelineComposer.AllProgressKnown(games) && TimelineComposer.GameEvents(games).Some?
    requires 0 <= i < |games|
    requires 0 <= j < |TimelineComposer.GameEvents(games).value|
    ensures var t := TimelineComposer.GameEvents(games).value;
      var d := GameDisplays(games, Some(t[j]), PlaybackStateOf(t[j]), tests)[i];
      var state := games[i].status.state;
      GameCard.Flags(d, false).updatePlayoffSeriesWins <==>
        j == |t| - 1 && tests.hasGameStarted(state) && tests.hasGameFinished(state)
  {
    var t := TimelineComposer.GameEvents(games).value;
    PlaybackAlongTimeline(games);
    TimelineComposer.GameEventsFrame(games);
    if j == |t| - 1 {
      DisplaysAtEnd(games, t[j].inProgress, tests);
    }
  }
}
