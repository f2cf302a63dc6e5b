# 4P chess clock and scorer — a Dafny model of its core

The program is a browser clock and score keeper for four-player chess. Four seats (red, blue,
yellow, green, in that turn order) each have a countdown clock with an optional increment, a score,
and an eliminated flag. The seat to move loses time on a periodic tick; tapping your own zone ends
your turn and passes it to the next seat still in play; a seat whose clock reaches zero is out; the
match ends when at most one seat is left. Separately, an action panel records captures, checks,
checkmates, stalemates and eliminations in an undoable history of score entries.

This project models that core as one immutable `MatchState` value and pure command functions:

- `seats.dfy` (`Seats`): the seats, their cyclic order, forward distance between seats, and a
  four-field record `Seats<T>` shaped like the source's `players` object.
- `state.dfy` (`State`): `Player`, `Config`, the history `Entry` (one constructor per entry `type`:
  `Capture`, `Generic(kind, points)`, `StalemateOther`, `Eliminate`, `Timeout`), `MatchState`, the
  page-load state, the live-seat count, and the invariant `Inv`.
- `clock.dfy` (`Clock`): `nextPlayer`, `endGame`, `eliminatePlayer`, `handlePlayerTap`,
  `togglePause` and `tick`. `NextSeat` gives the next turn, and its contract characterises the result by
  `FirstAliveAfter`: the first seat after the current one that is still in play. `NextSeatSearch`
  is the source's bounded skip loop, proved to compute `NextSeat`.
- `ledger.dfy` (`Ledger`): `applyAction`, `applyCapture`, `applyStatus` and `undoLastAction`, with
  the seat chosen in the action panel passed in as an `Option<Seat>`. Also the round trips and the
  lemma that a run of reversible commands followed by as many undos restores the ledger.
- `lifecycle.dfy` (`Lifecycle`): `startGame`, `resetClocks`, `resetScores`, and the setup choices
  `selectTime`, `selectIncrement` and the custom-minutes field.
- `standings.dfy` (`Standings`): the results order of `showGameOver`, a stable sort by descending
  score.
- `time_format.dfy` (`TimeFormat`): `formatTime`, with a reader for the `M:SS` string it produces.
- `session.dfy` (`Session`): the command interface, and the proof that every command keeps `Inv`.
  It also holds concrete scenarios.

Wall-clock time is a parameter: `Tick(s, elapsed)` takes the milliseconds that `Date.now() -
lastTick` would give. Undo behaves as the code does, not as one might expect:
- it dispatches on the stored `type` string and `points` value, in the source's order;
- a stalemate bonus is taken back from the seats in play at undo time;
- a zero-point entry of another kind only pops;
- the turn and the running/paused flags are never restored;
- timeouts raised by the clock are never recorded, so undo cannot bring those seats back.

Behaviour worth knowing:
- There is no "victim" action (award the scorer and eliminate a victim in one entry). A
  checkmate is a plain points entry, and eliminating the victim is a separate status entry.
- Eliminating a seat advances the turn even when that seat was not the one to move.
- The stalemate-by-another-player bonus goes to every seat still in play, the scorer included.
- `startGame` makes red the seat to move. The first tap then hands the turn to whichever live seat
  was tapped.

## Model

| member | source | states |
|---|---|---|
| `Seats.Index` | app.js:10 | turn order is red, blue, yellow, green, at positions 0 to 3 |
| `State.Initial` | app.js:39-57 | at page load the configuration is five minutes with no increment, every seat has 300000 ms, score 0 and is in play; red is to move; nothing runs; the history is empty |
| `State.AliveCount` | app.js:379-380 | the live-seat count is 0 exactly when every seat is out, and at most 1 exactly when no two distinct seats are both in play |
| `Lifecycle.InitialIsStarted` | app.js:41-57 | starting a match from the page-load configuration reproduces the page-load state |
| `Clock.NextSeat` | app.js:364-375 | the next turn goes to the first seat after the current one, in cyclic order, that is in play (possibly the current seat); if every seat is out, to the seat right after |
| `Clock.FirstAliveUnique` | app.js:364-375 | the first live seat after a given seat is unique, so the rotation is fully determined |
| `Clock.NextSeatSearch` | app.js:365-375 | the skip loop as written makes at most 4 extra probes, so it terminates, and it finds `NextSeat` |
| `Clock.NextPlayer` | app.js:364-383 | moves the turn to the first live seat after the current one; the match ends (not running, paused) exactly when at most one seat is in play, and otherwise the phase flags are kept; seats, scores and history are untouched |
| `Clock.EndGame` | app.js:442-448 | finishing stops the clock and leaves it paused; nothing else changes |
| `Clock.EliminatePlayer` | app.js:430-440 | puts exactly that seat out, keeps every score, clock and the history, and always advances the turn from the current seat to the first live seat after it (to the seat after it when none is left); the match ends when at most one seat is left and otherwise keeps its running and paused flags |
| `Clock.HandlePlayerTap` | app.js:341-362 | a tap on an eliminated seat changes nothing; the first tap starts, runs and unpauses the match with the tapped seat to move; taps while paused or on another seat change nothing; a tap by the seat to move adds `incrementSeconds*1000` to its clock only, then passes the turn to the next live seat |
| `Clock.TogglePause` | app.js:385-397 | before the first tap nothing changes; afterwards only the paused flag flips |
| `Clock.TogglePauseInvolution` | app.js:385-388 | pausing twice restores the state |
| `Clock.Tick` | app.js:412-428 | a tick while paused or stopped changes nothing; otherwise only the current seat's clock drops by `elapsed`, never below 0; on reaching 0 or below that seat alone is put out and the turn advances to the first live seat (the seat after it when none is left), the clock running on unpaused while two or more seats remain and stopped otherwise; scores and history are untouched |
| `Clock.TickSplit` | app.js:412-425 | two ticks that leave time on the clock charge the same as one tick of their total |
| `Ledger.AwardAlive` | app.js:564-570 | the bonus reaches exactly the seats still in play |
| `Ledger.ApplyAction` | app.js:555-590 | with no seat selected nothing changes; "stalemate-other" gives 10 to every live seat and to no other seat; any other action adds its points to exactly the selected seat; either way exactly one entry is appended, and clocks, flags and turn are untouched |
| `Ledger.ApplyCapture` | app.js:592-607 | with no seat selected nothing changes; otherwise the points go to exactly the selected seat and one capture entry is appended |
| `Ledger.ApplyStatus` | app.js:609-624 | with no seat selected, or a status other than eliminate/timeout, nothing changes; otherwise exactly the selected seat is put out and the turn advances as in `eliminatePlayer`: to the first live seat after the current one, or the seat after it when none is left; with two or more seats left the running and paused flags are kept, otherwise the match stops; configuration, scores, clocks and the started flag are kept, and one entry is appended |
| `Ledger.UndoLastAction` | app.js:626-645 | an empty history makes undo a no-op; otherwise exactly the last entry is removed; undo never puts a seat out; entries other than the stalemate bonus touch only their own seat; a stalemate entry takes 10 back from each seat in play at undo time; an entry with non-zero points takes them back from its seat; a zero-point eliminate or timeout brings its seat back; any other entry changes no score or flag; clocks, turn and phase flags are never restored |
| `Ledger.UndoRespectsLedger` | app.js:626-641 | undo reads only scores, flags and history, so states that agree there undo alike |
| `Ledger.UndoCaptureRoundTrip` | app.js:626-641 | a capture followed by undo restores the state exactly, zero points included |
| `Ledger.UndoStalemateRoundTrip` | app.js:631-636 | a stalemate bonus followed at once by undo restores the state exactly, because the set of live seats has not changed in between |
| `Ledger.UndoActionRoundTrip` | app.js:637-641 | any other action followed by undo restores every score. It restores the whole state except when a zero-point "eliminate"/"timeout" action names a seat already out: undo brings that seat back |
| `Ledger.UndoStatusRoundTrip` | app.js:626-641 | an eliminate or timeout status followed by undo puts the seat back in play and restores every other flag, score, clock and the history |
| `Ledger.UndoReversesCommand` | app.js:626-641 | one reversible scoring or status command followed by undo restores scores, flags and history |
| `Ledger.UndoReversesRun` | app.js:555-641 | any run of reversible scoring and status commands followed by as many undos restores every score, every eliminated flag and the history |
| `Lifecycle.StartGame` | app.js:286-297 | every seat gets `timeMinutes*60000` ms, score 0 and is in play; red is to move, stopped, not started; the history is empty |
| `Lifecycle.ResetClocks` | app.js:761-773 | clocks back to the starting time, every seat in play, red to move, stopped and not started; scores and history kept |
| `Lifecycle.ResetScores` | app.js:779-784 | scores zeroed and history emptied; clocks, flags, turn and phase kept |
| `Lifecycle.SelectTime` | app.js:261-267 | sets the starting minutes and nothing else |
| `Lifecycle.SelectIncrement` | app.js:269-274 | sets the increment seconds and nothing else |
| `Lifecycle.CustomTime` | app.js:133-139 | a value from 1 to 60 acts as a time selection; any other value changes nothing |
| `Lifecycle.ConfiguredStart` | app.js:261-297 | the two setup choices commute, and the next match starts every clock at the chosen minutes with the chosen increment |
| `Lifecycle.StartGameIsBothResets` | app.js:761-784 | a new match equals both resets in either order, and each reset is idempotent |
| `Standings.Insert` | app.js:457 | inserting keeps every line: the result is the input plus the new line |
| `Standings.SortByScore` | app.js:457 | sorting is a permutation of the lines |
| `Standings.InsertRanked` | app.js:457 | a line placed before the first line with a score not above its own keeps a ranked list ranked |
| `Standings.SortRanked` | app.js:457 | sorting lines given in turn order ranks them by descending score, with ties kept in turn order, as a stable sort does |
| `Standings.Standings` | app.js:452-457 | the standings hold each seat's line exactly once, highest score first, with equal scores in turn order |
| `Standings.StandingsNonIncreasing` | app.js:452-457 | the standings list scores in non-increasing order |
| `TimeFormat.Decimal` | app.js:490 | the minutes numeral is one or more digits with no leading zero; 0 prints as the single digit 0 |
| `TimeFormat.DecimalRoundTrip` | app.js:490 | reading the numeral back gives the number printed |
| `TimeFormat.Pad2` | app.js:490 | seconds print as exactly two digits that read back as the number |
| `TimeFormat.CeilSeconds` | app.js:486 | the whole-second count is the remaining time rounded up |
| `TimeFormat.FormatTime` | app.js:483-491 | the display is digits, a colon and two digits, and the minutes part has no leading zero unless it is the single digit 0 |
| `TimeFormat.FormatTimeReadsBack` | app.js:483-491 | "0:00" for no time left; otherwise it reads m:ss with ss below 60, where m minutes and ss seconds is the remaining time rounded up to a whole second and the minutes part is exactly the plain numeral of m |
| `TimeFormat.FormatFiveMinutes` | app.js:483-491 | 300000 ms shows as "5:00" |
| `TimeFormat.FormatOneMillisecond` | app.js:483-491 | 1 ms shows as "0:01" |
| `TimeFormat.FormatRoundsUpToMinute` | app.js:483-491 | 59001 ms shows as "1:00" |
| `Session.NextPlayerKeepsInv` | app.js:364-383 | after the turn advances, a running clock belongs to a live seat |
| `Session.TapKeepsInv` | app.js:341-362 | a tap keeps the invariant: the first tap gives the turn to a live seat, and a hand-over advances it |
| `Session.TickKeepsInv` | app.js:412-428 | a tick keeps the invariant: the clock stops at 0 and a timed-out seat loses the turn |
| `Session.LedgerKeepsInv` | app.js:555-624 | a scoring or status command keeps the invariant; an elimination advances the turn |
| `Session.DispatchKeepsInv` | app.js:286-790 | every command keeps the invariant: a running clock belongs to a live seat of a started match, a match not started is stopped and paused, and no clock is negative |
| `Session.RunKeepsInv` | app.js:286-790 | every run of commands keeps the invariant |
| `Session.ReachableStatesKeepInv` | app.js:39-57 | from page load on, whatever time and increment are chosen, a running clock never belongs to an eliminated seat and no clock is negative |
| `Session.TimeoutScenario` | app.js:412-425 | five minutes, red taps first, 301 s pass: red is out on 0 ms, blue is to move, the clock still runs, nothing is recorded |
| `Session.TimeoutIsNotUndone` | app.js:422-425 | after a capture and a clock timeout, undo takes back the capture and the timed-out seat stays out |
| `Session.StalemateUndoReadsCurrentFlags` | app.js:631-636 | a stalemate bonus given while red was out, then a clock reset, then undo leaves red at -10 |
| `Session.UndoKeepsTurn` | app.js:626-641 | undoing the elimination of the seat to move brings it back but the turn stays with the next seat |

## Left out

- DOM access, event wiring, panels, CSS classes and the HTML of the log, results and score panel:
  presentation only. The display names and the results' medals are not modelled.
- `setInterval`, `clearInterval`, `Date.now` and `setTimeout`: timer plumbing. `tick` checks
  `isPaused` and `isRunning` itself, so whether an interval is armed does not change the state. The
  elapsed time is a parameter of `Tick`. Entries carry no timestamp, because only the log display
  reads it.
- Colour presets and `applyPlayerColors`: theming.
- `alert` and `showConfirmation`: only their "state unchanged" outcome is modelled.
- `selectMode`, the `mode` field and the name inputs: they only feed the display. The values of the
  time and increment preset buttons come from the page markup, which is not part of this model;
  `SelectTime` and `SelectIncrement` take any natural number. The custom-time field's text is
  taken already parsed as an integer.
- `openPanel` preselecting the seat to move and pausing the clock: the selection is the `target`
  argument of the ledger commands, and the pause is an ordinary `TogglePause`.
- The `reason` argument of `eliminatePlayer`: the branch it guards is empty.
- JavaScript numbers are doubles and `parseInt` can give `NaN`. The model uses unbounded integers
  and integer points, and assumes `Number` prints whole minutes as plain decimal numerals.
