/** Starting a match and the two reset commands of the menu. */
module Lifecycle {
  import opened Seats
  import opened State

  /**
   * `startGame`: every seat gets the configured starting time, score 0 and is in play; red is to
   * move, nothing runs until the first tap, and the history is empty.
   */
  function StartGame(s: MatchState): (r: MatchState)
    ensures forall q :: r.players.Get(q) == Player(s.StartingTime(), 0, false)
    ensures r.config == s.config && r.current == Red
    ensures !r.isRunning && r.isPaused && !r.gameStarted && r.history == []
  {
    var blank := Player(s.StartingTime(), 0, false);
    MatchState(s.config, Seats(blank, blank, blank, blank), Red, false, true, false, [])
  }

  /**
   * `resetClocks`: every clock back to the starting time and every seat back in play, red to move,
   * stopped and not started. Scores and history are kept.
   */
  function ResetClocks(s: MatchState): (r: MatchState)
    ensures forall q :: r.Time(q) == s.StartingTime() && !r.Eliminated(q)
    ensures SameScores(r, s) && r.history == s.history && r.config == s.config
    ensures r.current == Red && !r.isRunning && r.isPaused && !r.gameStarted
  {
    var players := s.players.Map((pl: Player) => pl.(time := s.StartingTime(), eliminated := false));
    s.(players := players, current := Red, isRunning := false, isPaused := true, gameStarted := false)
  }

  /** `resetScores`: every score back to 0 and the history emptied; clocks, flags and turn are kept. */
  function ResetScores(s: MatchState): (r: MatchState)
    ensures forall q :: r.Score(q) == 0
    ensures r.history == []
    ensures SameClock(r, s) && SameFlags(r, s)
  {
    s.(players := s.players.Map((pl: Player) => pl.(score := 0)), history := [])
  }

  /** `selectTime`: a preset button sets the starting minutes; the clocks take them at the next start. */
  function SelectTime(s: MatchState, minutes: nat): (r: MatchState)
    ensures r.config.timeMinutes == minutes && r.config.incrementSeconds == s.config.incrementSeconds
    ensures r.(config := s.config) == s
  {
    s.(config := s.config.(timeMinutes := minutes))
  }

  /** `selectIncrement`: a preset button sets the increment credited on every turn hand-over. */
  function SelectIncrement(s: MatchState, seconds: nat): (r: MatchState)
    ensures r.config.incrementSeconds == seconds && r.config.timeMinutes == s.config.timeMinutes
    ensures r.(config := s.config) == s
  {
    s.(config := s.config.(incrementSeconds := seconds))
  }

  /**
   * The custom-minutes field: a whole number from 1 to 60 takes effect as a time selection; any
   * other input leaves the state as it is.
   */
  function CustomTime(s: MatchState, value: int): (r: MatchState)
    ensures 0 < value <= 60 ==> r == SelectTime(s, value)
    ensures !(0 < value <= 60) ==> r == s
  {
    if 0 < value && value <= 60 then s.(config := s.config.(timeMinutes := value)) else s
  }

  /**
   * The two setup choices are independent of each other, and the match started after them gives
   * every clock the chosen minutes and credits the chosen increment.
   */
  lemma ConfiguredStart(s: MatchState, minutes: nat, seconds: nat)
    ensures SelectTime(SelectIncrement(s, seconds), minutes) == SelectIncrement(SelectTime(s, minutes), seconds)
    ensures var r := StartGame(SelectIncrement(SelectTime(s, minutes), seconds));
            && r.config == Config(minutes, seconds)
            && forall q :: r.Time(q) == minutes * 60000
  {
  }

  /** A new match is exactly both resets, in either order, and each reset is idempotent. */
  lemma StartGameIsBothResets(s: MatchState)
    ensures StartGame(s) == ResetScores(ResetClocks(s)) == ResetClocks(ResetScores(s))
    ensures ResetClocks(ResetClocks(s)) == ResetClocks(s)
    ensures ResetScores(ResetScores(s)) == ResetScores(s)
  {
  }

  /** Starting a match from the page's initial state gives that same state. */
  lemma InitialIsStarted()
    ensures StartGame(Initial()) == Initial()
  {
  }
}
