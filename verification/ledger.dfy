/** The score ledger: scoring and status commands that append to the history, and undo. */
module Ledger {
  import opened Wrappers
  import opened Seats
  import opened State
  import Clock

  /** Points every live seat receives for a stalemate caused by another player. */
  const StalemateBonus: int := 10

  /** The `type` string the source stores on an entry; undo dispatches on it. */
  function Kind(e: Entry): string {
    match e
    case Capture(_, _, _) => "capture"
    case Generic(k, _, _) => k
    case StalemateOther(_) => "stalemate-other"
    case Eliminate(_) => "eliminate"
    case Timeout(_) => "timeout"
  }

  /** The `points` the source stores on an entry; status entries store none, which reads as 0. */
  function Points(e: Entry): int {
    match e
    case Capture(_, _, pts) => pts
    case Generic(_, _, pts) => pts
    case StalemateOther(_) => StalemateBonus
    case Eliminate(_) => 0
    case Timeout(_) => 0
  }

  /** Kinds whose undo brings a seat back into play. */
  predicate IsStatusKind(k: string) {
    k == "eliminate" || k == "timeout"
  }

  /** Adds delta to the score of exactly the seats still in play. */
  function AwardAlive(players: Seats<Player>, delta: int): (r: Seats<Player>)
    ensures forall q :: r.Get(q).score == players.Get(q).score + (if players.Get(q).eliminated then 0 else delta)
    ensures forall q :: r.Get(q).time == players.Get(q).time && r.Get(q).eliminated == players.Get(q).eliminated
  {
    players.Map((pl: Player) => if pl.eliminated then pl else pl.(score := pl.score + delta))
  }

  /** Adds delta to the score of one seat. */
  function AddScore(players: Seats<Player>, p: Seat, delta: int): (r: Seats<Player>)
    ensures forall q :: r.Get(q).score == players.Get(q).score + (if q == p then delta else 0)
    ensures forall q :: r.Get(q).time == players.Get(q).time && r.Get(q).eliminated == players.Get(q).eliminated
  {
    players.Set(p, players.Get(p).(score := players.Get(p).score + delta))
  }

  /**
   * `applyAction`: without a selected seat nothing changes. A stalemate caused by another player
   * gives every live seat the bonus; any other action gives its points to the selected seat.
   * Either way exactly one entry is appended, and the clock is untouched.
   */
  function ApplyAction(s: MatchState, target: Option<Seat>, action: string, points: int): (r: MatchState)
    ensures target.None? ==> r == s
    ensures SameClock(r, s) && SameFlags(r, s)
    ensures target.Some? && action == "stalemate-other" ==>
              && r.history == s.history + [StalemateOther(target.value)]
              && forall q :: r.Score(q) == s.Score(q) + (if s.Eliminated(q) then 0 else StalemateBonus)
    ensures target.Some? && action != "stalemate-other" ==>
              && r.history == s.history + [Generic(action, target.value, points)]
              && forall q :: r.Score(q) == s.Score(q) + (if q == target.value then points else 0)
  {
    match target
    case None => s
    case Some(p) =>
      if action == "stalemate-other" then
        s.(players := AwardAlive(s.players, StalemateBonus), history := s.history + [StalemateOther(p)])
      else
        s.(players := AddScore(s.players, p, points), history := s.history + [Generic(action, p, points)])
  }

  /** `applyCapture`: the selected seat gains the piece's points and one capture entry is appended. */
  function ApplyCapture(s: MatchState, target: Option<Seat>, piece: string, points: int): (r: MatchState)
    ensures target.None? ==> r == s
    ensures SameClock(r, s) && SameFlags(r, s)
    ensures target.Some? ==>
              && r.history == s.history + [Capture(target.value, piece, points)]
              && forall q :: r.Score(q) == s.Score(q) + (if q == target.value then points else 0)
  {
    match target
    case None => s
    case Some(p) => s.(players := AddScore(s.players, p, points), history := s.history + [Capture(p, piece, points)])
  }

  /**
   * `applyStatus`: "eliminate" and "timeout" put the selected seat out (advancing the turn as
   * `eliminatePlayer` does) and append one entry; any other status, or no selection, changes nothing.
   */
  function ApplyStatus(s: MatchState, target: Option<Seat>, status: string): (r: MatchState)
    ensures target.None? || !IsStatusKind(status) ==> r == s
    ensures target.Some? && IsStatusKind(status) ==>
              && r.history == s.history + [if status == "eliminate" then Eliminate(target.value) else Timeout(target.value)]
              && r.Eliminated(target.value)
              && (forall q :: q != target.value ==> r.Eliminated(q) == s.Eliminated(q))
              && SameScores(r, s) && SameTimes(r, s)
              && (AliveCount(r.players) >= 1 ==> Clock.FirstAliveAfter(r.players, s.current, r.current))
              && (AliveCount(r.players) <= 1 ==> !r.isRunning && r.isPaused)
              && (AliveCount(r.players) >= 2 ==> r.isRunning == s.isRunning && r.isPaused == s.isPaused)
              && (AliveCount(r.players) == 0 ==> r.current == After(s.current))
              && r.config == s.config && r.gameStarted == s.gameStarted
  {
    match target
    case None => s
    case Some(p) =>
      if IsStatusKind(status) then
        var out := Clock.EliminatePlayer(s, p);
        out.(history := out.history + [if status == "eliminate" then Eliminate(p) else Timeout(p)])
      else s
  }

  /**
   * `undoLastAction`: pops the last entry and reverses it by its kind: a stalemate entry takes the
   * bonus back from the seats live now, an entry with non-zero points takes them back from its seat,
   * and an elimination or timeout with no points brings its seat back. The clock is never restored.
   */
  function UndoLastAction(s: MatchState): (r: MatchState)
    ensures |s.history| == 0 ==> r == s
    ensures |s.history| > 0 ==> r.history == s.history[..|s.history| - 1]
    ensures SameClock(r, s)
    ensures forall q :: r.Eliminated(q) ==> s.Eliminated(q)
    ensures |s.history| > 0 && Kind(s.history[|s.history| - 1]) != "stalemate-other" ==>
              forall q :: q != s.history[|s.history| - 1].player ==> r.players.Get(q) == s.players.Get(q)
    ensures |s.history| > 0 ==>
              var last := s.history[|s.history| - 1];
              && (Kind(last) == "stalemate-other" ==>
                    SameFlags(r, s) && forall q :: r.Score(q) == s.Score(q) - (if s.Eliminated(q) then 0 else StalemateBonus))
              && (Kind(last) != "stalemate-other" && Points(last) != 0 ==>
                    SameFlags(r, s) && r.Score(last.player) == s.Score(last.player) - Points(last))
              && (Kind(last) != "stalemate-other" && Points(last) == 0 && IsStatusKind(Kind(last)) ==>
                    SameScores(r, s) && !r.Eliminated(last.player))
              && (Kind(last) != "stalemate-other" && Points(last) == 0 && !IsStatusKind(Kind(last)) ==>
                    SameScores(r, s) && SameFlags(r, s))
  {
    if |s.history| == 0 then s
    else
      var last := s.history[|s.history| - 1];
      var popped := s.(history := s.history[..|s.history| - 1]);
      if Kind(last) == "stalemate-other" then
        popped.(players := AwardAlive(s.players, -StalemateBonus))
      else if Points(last) != 0 then
        popped.(players := AddScore(s.players, last.player, -Points(last)))
      else if IsStatusKind(Kind(last)) then
        popped.(players := s.players.Set(last.player, s.players.Get(last.player).(eliminated := false)))
      else
        popped
  }

  /** Undo reads only the ledger part of the state, so states agreeing there undo alike. */
  lemma UndoRespectsLedger(a: MatchState, b: MatchState)
    requires SameLedger(a, b)
    ensures SameLedger(UndoLastAction(a), UndoLastAction(b))
  {
    if |a.history| > 0 {
      var last := a.history[|a.history| - 1];
      var ra, rb := UndoLastAction(a), UndoLastAction(b);
      if Kind(last) == "stalemate-other" {
        assert forall q :: ra.Score(q) == rb.Score(q) by {
          forall q ensures ra.Score(q) == rb.Score(q) {
            assert a.Eliminated(q) == b.Eliminated(q) && a.Score(q) == b.Score(q);
          }
        }
      } else if Points(last) != 0 {
        assert forall q :: ra.Score(q) == rb.Score(q) by {
          forall q ensures ra.Score(q) == rb.Score(q) {
            assert a.Score(q) == b.Score(q);
          }
        }
      } else {
        assert forall q :: ra.Score(q) == rb.Score(q) by {
          forall q ensures ra.Score(q) == rb.Score(q) {
            assert a.Score(q) == b.Score(q);
          }
        }
      }
    }
  }

  /** A capture followed by undo gives back exactly the state before it. */
  lemma UndoCaptureRoundTrip(s: MatchState, p: Seat, piece: string, points: int)
    ensures UndoLastAction(ApplyCapture(s, Some(p), piece, points)) == s
  {
  }

  /** A stalemate bonus followed by undo gives back exactly the state before it. */
  lemma UndoStalemateRoundTrip(s: MatchState, p: Seat, points: int)
    ensures UndoLastAction(ApplyAction(s, Some(p), "stalemate-other", points)) == s
  {
    var a := ApplyAction(s, Some(p), "stalemate-other", points);
    var r := UndoLastAction(a);
    assert a.history[..|a.history| - 1] == s.history;
    assert Kind(a.history[|a.history| - 1]) == "stalemate-other";
    assert SameScores(r, s) by {
      forall q ensures r.Score(q) == s.Score(q) {
        assert a.Eliminated(q) == s.Eliminated(q);
      }
    }
    SamePlayers(r, s);
  }

  /**
   * Any other action followed by undo restores every score. It restores the whole state unless the
   * action was a zero-point "eliminate" or "timeout" on a seat already out: that entry's undo brings
   * the seat back.
   */
  lemma UndoActionRoundTrip(s: MatchState, p: Seat, action: string, points: int)
    requires action != "stalemate-other"
    ensures SameScores(UndoLastAction(ApplyAction(s, Some(p), action, points)), s)
    ensures points != 0 || !IsStatusKind(action) || !s.Eliminated(p) ==>
              UndoLastAction(ApplyAction(s, Some(p), action, points)) == s
    ensures points == 0 && IsStatusKind(action) ==>
              !UndoLastAction(ApplyAction(s, Some(p), action, points)).Eliminated(p)
  {
    var e := Generic(action, p, points);
    var a := s.(players := AddScore(s.players, p, points), history := s.history + [e]);
    assert a == ApplyAction(s, Some(p), action, points);
    assert a.history[..|a.history| - 1] == s.history;
    assert Kind(e) == action && Points(e) == points && e.player == p;
    var r := UndoLastAction(a);
    if points != 0 {
      assert r.players == AddScore(a.players, p, -points);
      SamePlayers(r, s);
    } else {
      assert SameScores(a, s);
      if IsStatusKind(action) {
        assert r.players == a.players.Set(p, a.players.Get(p).(eliminated := false));
      } else {
        assert r.players == a.players;
      }
      if !IsStatusKind(action) || !s.Eliminated(p) {
        SamePlayers(r, s);
      }
    }
  }

  /**
   * An elimination or timeout status followed by undo puts the seat back in play and leaves every
   * other flag, every score, every clock and the history as before; the turn and the phase flags
   * stay where the elimination moved them.
   */
  lemma UndoStatusRoundTrip(s: MatchState, p: Seat, status: string)
    requires IsStatusKind(status)
    ensures var r := UndoLastAction(ApplyStatus(s, Some(p), status));
            && !r.Eliminated(p)
            && (forall q :: q != p ==> r.Eliminated(q) == s.Eliminated(q))
            && SameScores(r, s) && SameTimes(r, s) && r.history == s.history
    ensures !s.Eliminated(p) ==> SameLedger(UndoLastAction(ApplyStatus(s, Some(p), status)), s)
  {
    var out := Clock.EliminatePlayer(s, p);
    var e := if status == "eliminate" then Eliminate(p) else Timeout(p);
    var a := out.(history := out.history + [e]);
    assert a == ApplyStatus(s, Some(p), status);
    assert a.history[..|a.history| - 1] == s.history;
    assert Kind(e) == status && Points(e) == 0 && e.player == p;
    var r := UndoLastAction(a);
    assert r.players == out.players.Set(p, out.players.Get(p).(eliminated := false));
  }

  /** A scoring or status command, with the seat selected when it was issued. */
  datatype Command =
    | ScoreCapture(target: Option<Seat>, piece: string, points: int)
    | ScoreAction(target: Option<Seat>, action: string, points: int)
    | SetStatus(target: Option<Seat>, status: string)

  function Apply(s: MatchState, c: Command): MatchState {
    match c
    case ScoreCapture(t, piece, pts) => ApplyCapture(s, t, piece, pts)
    case ScoreAction(t, a, pts) => ApplyAction(s, t, a, pts)
    case SetStatus(t, st) => ApplyStatus(s, t, st)
  }

  function ApplyAll(s: MatchState, cs: seq<Command>): MatchState
    decreases |cs|
  {
    if |cs| == 0 then s else ApplyAll(Apply(s, cs[0]), cs[1..])
  }

  function UndoTimes(s: MatchState, n: nat): MatchState {
    if n == 0 then s else UndoLastAction(UndoTimes(s, n - 1))
  }

  /**
   * c appends an entry whose undo reverses it in s: it has a selected seat, a status is one that is
   * recorded and names a seat still in play, and a zero-point action of a status kind names a seat
   * still in play.
   */
  predicate Reversible(s: MatchState, c: Command) {
    match c
    case ScoreCapture(t, _, _) => t.Some?
    case ScoreAction(t, a, pts) =>
      t.Some? && (a == "stalemate-other" || pts != 0 || !IsStatusKind(a) || !s.Eliminated(t.value))
    case SetStatus(t, st) => t.Some? && IsStatusKind(st) && !s.Eliminated(t.value)
  }

  predicate AllReversible(s: MatchState, cs: seq<Command>)
    decreases |cs|
  {
    |cs| == 0 || (Reversible(s, cs[0]) && AllReversible(Apply(s, cs[0]), cs[1..]))
  }

  /** One reversible command followed by undo restores the ledger. */
  lemma UndoReversesCommand(s: MatchState, c: Command)
    requires Reversible(s, c)
    ensures SameLedger(UndoLastAction(Apply(s, c)), s)
  {
    match c
    case ScoreCapture(t, piece, pts) => UndoCaptureRoundTrip(s, t.value, piece, pts);
    case ScoreAction(t, a, pts) =>
      if a == "stalemate-other" {
        UndoStalemateRoundTrip(s, t.value, pts);
      } else {
        UndoActionRoundTrip(s, t.value, a, pts);
      }
    case SetStatus(t, st) => UndoStatusRoundTrip(s, t.value, st);
  }

  /**
   * Any run of reversible scoring and status commands followed by as many undos gives back every
   * score, every eliminated flag and the history as they were before the run.
   */
  lemma {:induction false} UndoReversesRun(s: MatchState, cs: seq<Command>)
    requires AllReversible(s, cs)
    ensures SameLedger(UndoTimes(ApplyAll(s, cs), |cs|), s)
    decreases |cs|
  {
    if |cs| > 0 {
      var s1 := Apply(s, cs[0]);
      var rest := cs[1..];
      assert ApplyAll(s, cs) == ApplyAll(s1, rest);
      UndoReversesRun(s1, rest);
      var y := UndoTimes(ApplyAll(s1, rest), |rest|);
      assert UndoTimes(ApplyAll(s, cs), |cs|) == UndoLastAction(y);
      UndoRespectsLedger(y, s1);
      UndoReversesCommand(s, cs[0]);
    }
  }
}
