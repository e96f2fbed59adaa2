/** The records the playback core reads and produces. */
module Types {
  import opened Seqs

  /** Numbered periods start at 1; numbers above 3 are playoff overtimes. */
  type PeriodNumber = n: int | n >= 1 witness 1

  /** A period: numbered, the single regular-season overtime, or the shootout. */
  datatype Period = Num(n: PeriodNumber) | OT | SO

  type Team = string

  datatype Teams = Teams(away: Team, home: Team)

  /** A goal, with the time elapsed in its period when it was scored. */
  datatype Goal = Goal(team: Team, period: Period, min: int, sec: int)

  /** Remaining time of a live period, as the score feed gives it: a display string
      ("08:42", "END") and the same time as minute and second numbers. */
  datatype TimeRemaining = TimeRemaining(pretty: string, min: int, sec: int)

  datatype Progress = Progress(
    currentPeriod: PeriodNumber,
    currentPeriodOrdinal: string,
    timeRemaining: TimeRemaining)

  datatype GameState = Preview | Live | Final | Postponed

  datatype Status = Status(state: GameState, progress: Option<Progress>)

  /** Win counts of the two teams in their playoff series. */
  datatype SeriesWins = SeriesWins(away: int, home: int)

  datatype PlayoffSeries = PlayoffSeries(round: int, wins: SeriesWins)

  datatype Game = Game(
    teams: Teams,
    goals: seq<Goal>,
    status: Status,
    playoffSeries: Option<PlayoffSeries>)

  /** Remaining minutes and seconds of a period. */
  datatype MinSec = MinSec(minute: int, second: int)

  /** The furthest point reached by a game: a period with the time remaining in it
      (None: the period is over) and whether the game is still being played. */
  datatype EndTime = EndTime(period: Period, remaining: Option<MinSec>, inProgress: bool)

  /** One element of the playback timeline. `Tick` carries remaining time; `tenth` is
      present only in the last minute of the third period. */
  datatype Clock =
    | Start
    | Tick(period: Period, minute: int, second: int, tenth: Option<int>)
    | ShootoutTick
    | PeriodEnd(period: Period)
    | End(inProgress: bool)

  /** How a game card is shown at a point of the playback. */
  datatype GameDisplay = PreGame | InProgress | PostGameFinished | PostGameInProgress | Playback
}
