/**
 * The command interface the page dispatches into, and what holds along every run of commands
 * from the initial state.
 */
module Session {
  import opened Wrappers
  import opened Seats
  import opened State
  import Clock
  import Ledger
  import Lifecycle

  /** The commands of the game screen and its menus. */
  datatype Command =
    | StartCmd
    | TapCmd(seat: Seat)
    | PauseCmd
    | TickCmd(elapsed: int)
    | FinishCmd
    | LedgerCmd(cmd: Ledger.Command)
    | UndoCmd
    | ResetClocksCmd
    | ResetScoresCmd
    | SelectTimeCmd(minutes: nat)
    | SelectIncrementCmd(seconds: nat)
    | CustomTimeCmd(value: int)

  function Dispatch(s: MatchState, c: Command): MatchState {
    match c
    case StartCmd => Lifecycle.StartGame(s)
    case TapCmd(p) => Clock.HandlePlayerTap(s, p)
    case PauseCmd => Clock.TogglePause(s)
    case TickCmd(e) => Clock.Tick(s, e)
    case FinishCmd => Clock.EndGame(s)
    case LedgerCmd(lc) => Ledger.Apply(s, lc)
    case UndoCmd => Ledger.UndoLastAction(s)
    case ResetClocksCmd => Lifecycle.ResetClocks(s)
    case ResetScoresCmd => Lifecycle.ResetScores(s)
    case SelectTimeCmd(m) => Lifecycle.SelectTime(s, m)
    case SelectIncrementCmd(sec) => Lifecycle.SelectIncrement(s, sec)
    case CustomTimeCmd(v) => Lifecycle.CustomTime(s, v)
  }

  function Run(s: MatchState, cs: seq<Command>): MatchState
    decreases |cs|
  {
    if |cs| == 0 then s else Run(Dispatch(s, cs[0]), cs[1..])
  }

  /** Advancing the turn keeps the invariant: either a live seat gets the turn or the match stops. */
  lemma NextPlayerKeepsInv(s: MatchState)
    requires (!s.gameStarted ==> !s.isRunning && s.isPaused)
    requires s.isRunning ==> s.gameStarted
    requires (forall q :: s.Time(q) >= 0) && s.config.timeMinutes >= 0 && s.config.incrementSeconds >= 0
    ensures Inv(Clock.NextPlayer(s))
  {
    var r := Clock.NextPlayer(s);
    assert forall q :: r.Time(q) == s.Time(q);
  }

  /** A tap keeps the invariant: the first tap gives the turn to a live seat, a turn hand-over advances it. */
  lemma TapKeepsInv(s: MatchState, p: Seat)
    requires Inv(s)
    ensures Inv(Clock.HandlePlayerTap(s, p))
  {
    if Clock.TurnTaken(s, p) {
      var credited := s.(players := s.players.Set(p, s.players.Get(p).(time := s.Time(p) + s.config.incrementSeconds * 1000)));
      assert forall q :: credited.Time(q) >= 0 by {
        forall q ensures credited.Time(q) >= 0 {
          if q != p { assert credited.Time(q) == s.Time(q); }
        }
      }
      NextPlayerKeepsInv(credited);
    } else {
      var r := Clock.HandlePlayerTap(s, p);
      assert r.players == s.players;
      assert forall q :: r.Time(q) == s.Time(q);
    }
  }

  /** A tick keeps the invariant: the clock stops at 0 and a timed-out seat loses the turn. */
  lemma TickKeepsInv(s: MatchState, e: int)
    requires Inv(s)
    ensures Inv(Clock.Tick(s, e))
  {
    if Clock.Charging(s) && s.Time(s.current) - e <= 0 {
      var cur := s.current;
      var out := s.(players := s.players.Set(cur, s.players.Get(cur).(time := 0, eliminated := true)));
      assert forall q :: out.Time(q) >= 0 by {
        forall q ensures out.Time(q) >= 0 {
          if q != cur { assert out.Time(q) == s.Time(q); }
        }
      }
      NextPlayerKeepsInv(out);
    } else if Clock.Charging(s) {
      var r := Clock.Tick(s, e);
      assert forall q :: r.Time(q) >= 0 by {
        forall q ensures r.Time(q) >= 0 {
          if q != s.current { assert r.Time(q) == s.Time(q); }
        }
      }
    }
  }

  /** A scoring or status command keeps the invariant; an elimination advances the turn. */
  lemma LedgerKeepsInv(s: MatchState, lc: Ledger.Command)
    requires Inv(s)
    ensures Inv(Ledger.Apply(s, lc))
  {
    if lc.SetStatus? && lc.target.Some? && Ledger.IsStatusKind(lc.status) {
      var p := lc.target.value;
      var out := s.(players := s.players.Set(p, s.players.Get(p).(eliminated := true)));
      assert forall q :: out.Time(q) == s.Time(q);
      NextPlayerKeepsInv(out);
    } else {
      var r := Ledger.Apply(s, lc);
      assert forall q :: r.Time(q) == s.Time(q);
    }
  }

  /** Every command keeps the invariant. */
  lemma DispatchKeepsInv(s: MatchState, c: Command)
    requires Inv(s)
    ensures Inv(Dispatch(s, c))
  {
    match c
    case StartCmd =>
      assert s.StartingTime() >= 0;
    case ResetClocksCmd =>
      assert s.StartingTime() >= 0;
    case ResetScoresCmd =>
      var r := Lifecycle.ResetScores(s);
      assert forall q :: r.Time(q) == s.Time(q);
    case TapCmd(p) => TapKeepsInv(s, p);
    case TickCmd(e) => TickKeepsInv(s, e);
    case LedgerCmd(lc) => LedgerKeepsInv(s, lc);
    case UndoCmd =>
      var r := Ledger.UndoLastAction(s);
      assert forall q :: r.Time(q) == s.Time(q);
    case PauseCmd =>
      var r := Clock.TogglePause(s);
      assert r.players == s.players;
      assert forall q :: r.Time(q) == s.Time(q);
    case FinishCmd =>
      var r := Clock.EndGame(s);
      assert forall q :: r.Time(q) == s.Time(q);
    case SelectTimeCmd(m) =>
      var r := Lifecycle.SelectTime(s, m);
      assert forall q :: r.Time(q) == s.Time(q);
    case SelectIncrementCmd(sec) =>
      var r := Lifecycle.SelectIncrement(s, sec);
      assert forall q :: r.Time(q) == s.Time(q);
    case CustomTimeCmd(v) =>
      var r := Lifecycle.CustomTime(s, v);
      assert forall q :: r.Time(q) == s.Time(q);
  }

  /** Every run of commands from a state satisfying the invariant keeps it. */
  lemma {:induction false} RunKeepsInv(s: MatchState, cs: seq<Command>)
    requires Inv(s)
    ensures Inv(Run(s, cs))
    decreases |cs|
  {
    if |cs| > 0 {
      DispatchKeepsInv(s, cs[0]);
      RunKeepsInv(Dispatch(s, cs[0]), cs[1..]);
    }
  }

  /** Hence, from page load on, a running clock never belongs to an eliminated seat and no clock is negative. */
  lemma ReachableStatesKeepInv(cs: seq<Command>)
    ensures var r := Run(Initial(), cs);
            && (r.isRunning ==> !r.Eliminated(r.current))
            && forall q :: r.Time(q) >= 0
  {
    RunKeepsInv(Initial(), cs);
  }

  /** Five minutes, red taps first, and 301 seconds pass: red is out on 0:00 and blue is to move. */
  lemma TimeoutScenario()
    ensures var started := Clock.HandlePlayerTap(Lifecycle.StartGame(Initial()), Red);
            var r := Clock.Tick(started, 301000);
            && r.Eliminated(Red) && r.Time(Red) == 0
            && r.current == Blue && r.isRunning && !r.isPaused
            && r.history == []
  {
  }

  /**
   * A timeout from the clock is not recorded, so undo passes over it: after a capture and a
   * timeout, undo takes back the capture and the timed-out seat stays out.
   */
  lemma TimeoutIsNotUndone()
    ensures var started := Clock.HandlePlayerTap(Lifecycle.StartGame(Initial()), Red);
            var captured := Ledger.ApplyCapture(started, Some(Blue), "pawn", 1);
            var r := Ledger.UndoLastAction(Clock.Tick(captured, 301000));
            && r.Eliminated(Red) && r.Score(Blue) == 0 && r.history == []
  {
  }

  /**
   * Undoing a stalemate bonus takes 10 from the seats in play at undo time: with red out when the
   * bonus was given and back in after a clock reset, undo leaves red at -10.
   */
  lemma StalemateUndoReadsCurrentFlags()
    ensures var redOut := Ledger.ApplyStatus(Initial(), Some(Red), "eliminate");
            var bonus := Ledger.ApplyAction(redOut, Some(Blue), "stalemate-other", 0);
            var r := Ledger.UndoLastAction(Lifecycle.ResetClocks(bonus));
            && bonus.Score(Red) == 0 && bonus.Score(Blue) == 10
            && r.Score(Red) == -10 && r.Score(Blue) == 0
  {
  }

  /**
   * Undo restores flags but not the turn: eliminating the seat to move and undoing it brings the
   * seat back while the turn stays with the next seat.
   */
  lemma UndoKeepsTurn()
    ensures var started := Clock.HandlePlayerTap(Lifecycle.StartGame(Initial()), Red);
            var out := Ledger.ApplyStatus(started, Some(Red), "eliminate");
            var r := Ledger.UndoLastAction(out);
            && started.current == Red
            && !r.Eliminated(Red) && r.current == Blue
  {
    var blank := Player(300000, 0, false);
    var started := Clock.HandlePlayerTap(Lifecycle.StartGame(Initial()), Red);
    assert started == MatchState(Config(5, 0), Seats(blank, blank, blank, blank), Red, true, false, true, []);
    var out := Ledger.ApplyStatus(started, Some(Red), "eliminate");
    assert out.history == [Eliminate(Red)];
    assert AliveCount(out.players) == 3;
    assert Distance(Red, Blue) == 1;
    assert out.current == Blue;
  }
}
