/** The whole mutable state of a match, held as one immutable value. */
module State {
  import opened Seats

  /** One seat's clock and score: remaining time in milliseconds, points, and whether it is out. */
  datatype Player = Player(time: int, score: int, eliminated: bool)

  /** Starting time in minutes and increment in seconds, as chosen on the setup screen. */
  datatype Config = Config(timeMinutes: int, incrementSeconds: int)

  /** One entry of the action history. The source stores a `type` string; its kinds become constructors. */
  datatype Entry =
    | Capture(player: Seat, piece: string, points: int)
    | Generic(kind: string, player: Seat, points: int)
    | StalemateOther(player: Seat)
    | Eliminate(player: Seat)
    | Timeout(player: Seat)

  datatype MatchState = MatchState(
    config: Config,
    players: Seats<Player>,
    current: Seat,
    isRunning: bool,
    isPaused: bool,
    gameStarted: bool,
    history: seq<Entry>)
  {
    function Time(p: Seat): int { players.Get(p).time }

    function Score(p: Seat): int { players.Get(p).score }

    predicate Eliminated(p: Seat) { players.Get(p).eliminated }

    /** The starting time of every clock, `timeMinutes * 60 * 1000`. */
    function StartingTime(): int { config.timeMinutes * 60 * 1000 }
  }

  /** The state the page loads with: five minutes, no increment, red to move, nothing started. */
  function Initial(): (s: MatchState)
    ensures forall p :: s.players.Get(p) == Player(300000, 0, false)
    ensures s.config == Config(5, 0) && s.StartingTime() == 300000
    ensures s.current == Red && !s.isRunning && s.isPaused && !s.gameStarted && s.history == []
  {
    var blank := Player(300000, 0, false);
    MatchState(Config(5, 0), Seats(blank, blank, blank, blank), Red, false, true, false, [])
  }

  /** Number of seats still in play, the length of the source's filter over the seats. */
  function AliveCount(players: Seats<Player>): (n: nat)
    ensures n <= 4
    ensures n == 0 <==> forall p :: players.Get(p).eliminated
    ensures n <= 1 <==> forall p, q :: !players.Get(p).eliminated && !players.Get(q).eliminated ==> p == q
  {
    assert players.Get(Red) == players.red && players.Get(Blue) == players.blue;
    assert players.Get(Yellow) == players.yellow && players.Get(Green) == players.green;
    (if players.red.eliminated then 0 else 1)
    + (if players.blue.eliminated then 0 else 1)
    + (if players.yellow.eliminated then 0 else 1)
    + (if players.green.eliminated then 0 else 1)
  }

  /** Every seat keeps its score. */
  predicate SameScores(a: MatchState, b: MatchState) {
    forall q :: a.Score(q) == b.Score(q)
  }

  /** Every seat keeps its eliminated flag. */
  predicate SameFlags(a: MatchState, b: MatchState) {
    forall q :: a.Eliminated(q) == b.Eliminated(q)
  }

  /** Every seat keeps its remaining time. */
  predicate SameTimes(a: MatchState, b: MatchState) {
    forall q :: a.Time(q) == b.Time(q)
  }

  /** Nothing that the clock owns has changed: configuration, times, turn, and the three phase flags. */
  predicate SameClock(a: MatchState, b: MatchState) {
    && a.config == b.config
    && SameTimes(a, b)
    && a.current == b.current
    && a.isRunning == b.isRunning
    && a.isPaused == b.isPaused
    && a.gameStarted == b.gameStarted
  }

  /** The part of the state the score ledger reads and writes: scores, eliminated flags and history. */
  predicate SameLedger(a: MatchState, b: MatchState) {
    SameScores(a, b) && SameFlags(a, b) && a.history == b.history
  }

  /** States that agree on every field of every seat have equal player records. */
  lemma SamePlayers(a: MatchState, b: MatchState)
    requires SameScores(a, b) && SameFlags(a, b) && SameTimes(a, b)
    ensures a.players == b.players
  {
    forall q
      ensures a.players.Get(q) == b.players.Get(q)
    {
      assert a.Score(q) == b.Score(q) && a.Eliminated(q) == b.Eliminated(q) && a.Time(q) == b.Time(q);
    }
    Extensional(a.players, b.players);
  }

  /**
   * What holds of every state reachable from the initial one: a running clock never belongs to an
   * eliminated seat, no clock is negative, a match that has not started is stopped, and the
   * configuration is non-negative.
   */
  predicate Inv(s: MatchState) {
    && (s.isRunning ==> s.gameStarted && !s.Eliminated(s.current))
    && (!s.gameStarted ==> !s.isRunning && s.isPaused)
    && (forall q :: s.Time(q) >= 0)
    && s.config.timeMinutes >= 0
    && s.config.incrementSeconds >= 0
  }
}
