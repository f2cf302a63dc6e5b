/** The clock engine: turn rotation, increments, the periodic tick, pausing and elimination. */
module Clock {
  import opened Seats
  import opened State

  /** q is in play and every seat strictly between `from` and q in turn order is eliminated. */
  predicate FirstAliveAfter(players: Seats<Player>, from: Seat, q: Seat) {
    && !players.Get(q).eliminated
    && forall x :: Distance(from, x) < Distance(from, q) ==> players.Get(x).eliminated
  }

  /** At most one seat is the first live seat after a given one. */
  lemma FirstAliveUnique(players: Seats<Player>, from: Seat, q1: Seat, q2: Seat)
    requires FirstAliveAfter(players, from, q1) && FirstAliveAfter(players, from, q2)
    ensures q1 == q2
  {
  }

  /**
   * The seat whose turn follows `cur`: the first seat after it, in cyclic turn order, that is
   * still in play (possibly `cur` itself); when every seat is out, the seat right after `cur`.
   */
  function NextSeat(players: Seats<Player>, cur: Seat): (r: Seat)
    ensures AliveCount(players) >= 1 ==> FirstAliveAfter(players, cur, r)
    ensures AliveCount(players) == 0 ==> r == After(cur)
  {
    StepDistance(cur, 1);
    StepDistance(cur, 2);
    StepDistance(cur, 3);
    StepDistance(cur, 4);
    assert Step(cur, 4) == cur by { IndexInjective(Step(cur, 4), cur); }
    assert forall x :: x == Step(cur, Distance(cur, x)) by {
      forall x ensures x == Step(cur, Distance(cur, x)) { DistanceStep(cur, x); }
    }
    if !players.Get(Step(cur, 1)).eliminated then Step(cur, 1)
    else if !players.Get(Step(cur, 2)).eliminated then Step(cur, 2)
    else if !players.Get(Step(cur, 3)).eliminated then Step(cur, 3)
    else if !players.Get(cur).eliminated then cur
    else After(cur)
  }

  /** Skipping the eliminated seat k + 1 steps ahead extends the run of eliminated seats by one. */
  lemma SkipOne(players: Seats<Player>, cur: Seat, k: nat)
    requires k < 4 && players.Get(Step(cur, k + 1)).eliminated
    requires forall x :: Distance(cur, x) <= k ==> players.Get(x).eliminated
    ensures forall x :: Distance(cur, x) <= k + 1 ==> players.Get(x).eliminated
  {
    forall x | Distance(cur, x) == k + 1
      ensures players.Get(x).eliminated
    {
      DistanceStep(cur, x);
    }
  }

  /** Moving the probe index on by one, modulo 4, moves the probed seat one step further. */
  lemma AdvanceProbe(cur: Seat, idx: nat, k: nat)
    requires idx < 4 && k < 4 && SeatAt(idx) == Step(cur, k + 1)
    ensures k + 1 < 4 ==> SeatAt((idx + 1) % 4) == Step(cur, k + 2)
    ensures k + 1 == 4 ==> SeatAt((idx + 1) % 4) == After(cur)
  {
    AfterSeatAt(idx);
    if k + 1 < 4 {
      AfterStep(cur, k + 1);
    } else {
      AfterStep(cur, 0);
    }
  }

  /**
   * The skip-search loop of `nextPlayer` as written: start at the seat after `cur` and step over
   * eliminated seats, giving up after four extra probes. It finds NextSeat.
   */
  method NextSeatSearch(players: Seats<Player>, cur: Seat) returns (next: Seat, attempts: nat)
    ensures attempts <= 4
    ensures next == NextSeat(players, cur)
  {
    var nextIdx: nat := (Index(cur) + 1) % 4;
    attempts := 0;
    AfterSeatAt(Index(cur));
    while players.Get(SeatAt(nextIdx)).eliminated && attempts < 4
      invariant attempts <= 4 && nextIdx < 4
      invariant attempts < 4 ==> SeatAt(nextIdx) == Step(cur, attempts + 1)
      invariant attempts == 4 ==> SeatAt(nextIdx) == After(cur)
      invariant forall x :: Distance(cur, x) <= attempts ==> players.Get(x).eliminated
    {
      SkipOne(players, cur, attempts);
      AdvanceProbe(cur, nextIdx, attempts);
      nextIdx := (nextIdx + 1) % 4;
      attempts := attempts + 1;
    }
    next := SeatAt(nextIdx);
    if attempts < 4 {
      StepDistance(cur, attempts + 1);
      FirstAliveUnique(players, cur, next, NextSeat(players, cur));
    } else {
      assert forall x :: players.Get(x).eliminated;
    }
  }

  /** `endGame`: the clock stops and stays paused; nothing else changes. */
  function EndGame(s: MatchState): (r: MatchState)
    ensures !r.isRunning && r.isPaused
    ensures r.(isRunning := s.isRunning, isPaused := s.isPaused) == s
  {
    s.(isRunning := false, isPaused := true)
  }

  /**
   * `nextPlayer`: the turn passes to the next live seat; when at most one seat is still in play the
   * match ends. Seats, scores and history are untouched.
   */
  function NextPlayer(s: MatchState): (r: MatchState)
    ensures r.players == s.players && r.history == s.history
    ensures r.config == s.config && r.gameStarted == s.gameStarted
    ensures AliveCount(s.players) >= 1 ==> FirstAliveAfter(s.players, s.current, r.current)
    ensures AliveCount(s.players) == 0 ==> r.current == After(s.current)
    ensures AliveCount(s.players) <= 1 ==> !r.isRunning && r.isPaused
    ensures AliveCount(s.players) >= 2 ==> r.isRunning == s.isRunning && r.isPaused == s.isPaused
  {
    var moved := s.(current := NextSeat(s.players, s.current));
    if AliveCount(moved.players) <= 1 then EndGame(moved) else moved
  }

  /**
   * `eliminatePlayer`: marks p as out and then always advances the turn from the current seat,
   * whether or not p held the turn.
   */
  function EliminatePlayer(s: MatchState, p: Seat): (r: MatchState)
    ensures r.Eliminated(p)
    ensures forall q :: q != p ==> r.Eliminated(q) == s.Eliminated(q)
    ensures SameScores(r, s) && SameTimes(r, s) && r.history == s.history
    ensures r.config == s.config && r.gameStarted == s.gameStarted
    ensures AliveCount(r.players) >= 1 ==> FirstAliveAfter(r.players, s.current, r.current)
    ensures AliveCount(r.players) <= 1 ==> !r.isRunning && r.isPaused
    ensures AliveCount(r.players) >= 2 ==> r.isRunning == s.isRunning && r.isPaused == s.isPaused
    ensures AliveCount(r.players) == 0 ==> r.current == After(s.current)
  {
    NextPlayer(s.(players := s.players.Set(p, s.players.Get(p).(eliminated := true))))
  }

  /** A tap on p that ends p's turn: p is in play, the match has started, is not paused, and it is p's turn. */
  predicate TurnTaken(s: MatchState, p: Seat) {
    !s.Eliminated(p) && s.gameStarted && !s.isPaused && p == s.current
  }

  /**
   * `handlePlayerTap`: taps on an eliminated seat are ignored; the first tap starts the match with
   * the tapped seat to move; later taps count only when not paused and on the seat to move, which
   * then receives its increment and hands the turn on.
   */
  function HandlePlayerTap(s: MatchState, p: Seat): (r: MatchState)
    ensures s.Eliminated(p) ==> r == s
    ensures !s.Eliminated(p) && !s.gameStarted ==>
              r == s.(gameStarted := true, isRunning := true, isPaused := false, current := p)
    ensures s.gameStarted && !TurnTaken(s, p) ==> r == s
    ensures TurnTaken(s, p) ==>
              && r.Time(p) == s.Time(p) + s.config.incrementSeconds * 1000
              && (forall q :: q != p ==> r.Time(q) == s.Time(q))
              && SameScores(r, s) && SameFlags(r, s) && r.history == s.history
              && r.config == s.config && r.gameStarted
              && FirstAliveAfter(s.players, p, r.current)
              && (AliveCount(s.players) <= 1 ==> !r.isRunning && r.isPaused)
              && (AliveCount(s.players) >= 2 ==> r.isRunning == s.isRunning && !r.isPaused)
  {
    if s.Eliminated(p) then s
    else if !s.gameStarted then s.(gameStarted := true, isRunning := true, isPaused := false, current := p)
    else if s.isPaused then s
    else if p == s.current then
      var credited := s.players.Get(p).(time := s.Time(p) + s.config.incrementSeconds * 1000);
      NextPlayer(s.(players := s.players.Set(p, credited)))
    else s
  }

  /** `togglePause`: ignored before the first tap; afterwards it flips the paused flag and nothing else. */
  function TogglePause(s: MatchState): (r: MatchState)
    ensures !s.gameStarted ==> r == s
    ensures s.gameStarted ==> r.isPaused == !s.isPaused && r.(isPaused := s.isPaused) == s
  {
    if !s.gameStarted then s else s.(isPaused := !s.isPaused)
  }

  /** The clock is being charged: the periodic tick does something only in this phase. */
  predicate Charging(s: MatchState) {
    s.isRunning && !s.isPaused
  }

  /**
   * `tick`, with the wall-clock time since the last tick given as `elapsed`: the seat to move loses
   * that time; at zero or below its clock is set to 0, it is eliminated and the turn moves on.
   */
  function Tick(s: MatchState, elapsed: int): (r: MatchState)
    ensures !Charging(s) ==> r == s
    ensures Charging(s) ==>
              && r.Time(s.current) >= 0
              && (s.Time(s.current) - elapsed > 0 ==> r.Time(s.current) == s.Time(s.current) - elapsed)
              && (s.Time(s.current) - elapsed <= 0 ==> r.Time(s.current) == 0)
              && (forall q :: q != s.current ==> r.Time(q) == s.Time(q) && r.Eliminated(q) == s.Eliminated(q))
              && r.Eliminated(s.current) == (s.Eliminated(s.current) || s.Time(s.current) - elapsed <= 0)
              && SameScores(r, s) && r.history == s.history && r.config == s.config && r.gameStarted == s.gameStarted
    ensures Charging(s) && s.Time(s.current) - elapsed > 0 ==>
              r.current == s.current && r.isRunning && !r.isPaused
    ensures Charging(s) && s.Time(s.current) - elapsed <= 0 ==>
              && (AliveCount(r.players) >= 1 ==> FirstAliveAfter(r.players, s.current, r.current))
              && (AliveCount(r.players) <= 1 <==> !r.isRunning)
              && (AliveCount(r.players) <= 1 ==> r.isPaused)
              && (AliveCount(r.players) >= 2 ==> !r.isPaused)
              && (AliveCount(r.players) == 0 ==> r.current == After(s.current))
  {
    if s.isPaused || !s.isRunning then s
    else
      var left := s.Time(s.current) - elapsed;
      if left <= 0 then
        EliminatePlayer(s.(players := s.players.Set(s.current, s.players.Get(s.current).(time := 0))), s.current)
      else
        s.(players := s.players.Set(s.current, s.players.Get(s.current).(time := left)))
  }

  /** Pausing twice gets back the same state. */
  lemma TogglePauseInvolution(s: MatchState)
    ensures TogglePause(TogglePause(s)) == s
  {
  }

  /** Two ticks that leave time on the clock charge the same as one tick of their sum. */
  lemma TickSplit(s: MatchState, a: int, b: int)
    requires Charging(s) && s.Time(s.current) - a - b > 0 && s.Time(s.current) - a > 0
    ensures Tick(Tick(s, a), b) == Tick(s, a + b)
  {
  }
}
