/** The final standings shown when a match ends: seats ordered by score, highest first. */
module Standings {
  import opened Seats
  import opened State

  /** One line of the results list. */
  datatype Standing = Standing(seat: Seat, score: int, time: int)

  /** The seats' lines in turn order, before sorting. */
  function Rows(s: MatchState): (rows: seq<Standing>)
    ensures |rows| == 4
    ensures forall i :: 0 <= i < 4 ==> rows[i] == Standing(SeatAt(i), s.Score(SeatAt(i)), s.Time(SeatAt(i)))
  {
    var row := (p: Seat) => Standing(p, s.Score(p), s.Time(p));
    [row(Red), row(Blue), row(Yellow), row(Green)]
  }

  /** a comes before b in a stable sort by descending score of lines listed in turn order. */
  predicate Before(a: Standing, b: Standing) {
    a.score > b.score || (a.score == b.score && Index(a.seat) < Index(b.seat))
  }

  predicate Ranked(r: seq<Standing>) {
    forall i, j :: 0 <= i < j < |r| ==> Before(r[i], r[j])
  }

  predicate InTurnOrder(r: seq<Standing>) {
    forall i, j :: 0 <= i < j < |r| ==> Index(r[i].seat) < Index(r[j].seat)
  }

  /** Places x in front of the first line whose score is not above x's. */
  function Insert(x: Standing, r: seq<Standing>): (o: seq<Standing>)
    ensures multiset(o) == multiset(r) + multiset{x}
    decreases |r|
  {
    if |r| == 0 || x.score >= r[0].score then [x] + r
    else
      assert r == [r[0]] + r[1..];
      [r[0]] + Insert(x, r[1..])
  }

  /** The sort of `showGameOver`: insertion by descending score, keeping ties in their input order. */
  function SortByScore(rows: seq<Standing>): (o: seq<Standing>)
    ensures multiset(o) == multiset(rows)
    decreases |rows|
  {
    if |rows| == 0 then []
    else
      assert rows == [rows[0]] + rows[1..];
      Insert(rows[0], SortByScore(rows[1..]))
  }

  /** Inserting a line that precedes every ranked line in turn order keeps the list ranked. */
  lemma {:induction false} InsertRanked(x: Standing, r: seq<Standing>)
    requires Ranked(r)
    requires forall y :: y in r ==> Index(x.seat) < Index(y.seat)
    ensures Ranked(Insert(x, r))
    decreases |r|
  {
    if |r| == 0 || x.score >= r[0].score {
      var o := [x] + r;
      forall i, j | 0 <= i < j < |o|
        ensures Before(o[i], o[j])
      {
        if i == 0 {
          assert o[j] == r[j - 1] && o[j] in r;
          if j > 1 {
            assert Before(r[0], r[j - 1]);
          }
        } else {
          assert o[i] == r[i - 1] && o[j] == r[j - 1];
        }
      }
    } else {
      var tail := Insert(x, r[1..]);
      forall y | y in r[1..] ensures Index(x.seat) < Index(y.seat) {
        assert y in r;
      }
      assert Ranked(r[1..]) by {
        forall i, j | 0 <= i < j < |r[1..]| ensures Before(r[1..][i], r[1..][j]) {
          assert r[1..][i] == r[i + 1] && r[1..][j] == r[j + 1];
        }
      }
      InsertRanked(x, r[1..]);
      var o := [r[0]] + tail;
      forall i, j | 0 <= i < j < |o|
        ensures Before(o[i], o[j])
      {
        if i == 0 {
          assert o[j] == tail[j - 1] && o[j] in multiset(tail);
          if o[j] != x {
            assert o[j] in multiset(r[1..]);
            var k :| 0 <= k < |r[1..]| && r[1..][k] == o[j];
            assert r[k + 1] == o[j];
          }
        } else {
          assert o[i] == tail[i - 1] && o[j] == tail[j - 1];
        }
      }
    }
  }

  /** Sorting lines given in turn order ranks them. */
  lemma {:induction false} SortRanked(rows: seq<Standing>)
    requires InTurnOrder(rows)
    ensures Ranked(SortByScore(rows))
    decreases |rows|
  {
    if |rows| > 0 {
      var rest := rows[1..];
      assert InTurnOrder(rest) by {
        forall i, j | 0 <= i < j < |rest| ensures Index(rest[i].seat) < Index(rest[j].seat) {
          assert rest[i] == rows[i + 1] && rest[j] == rows[j + 1];
        }
      }
      SortRanked(rest);
      var sorted := SortByScore(rest);
      forall y | y in sorted ensures Index(rows[0].seat) < Index(y.seat) {
        assert y in multiset(rest);
        var k :| 0 <= k < |rest| && rest[k] == y;
        assert rows[k + 1] == y;
      }
      InsertRanked(rows[0], sorted);
    }
  }

  /**
   * The standings: every seat's line exactly once, highest score first, and seats with equal scores
   * in turn order, which is what a stable sort of the turn-ordered lines by descending score gives.
   */
  function Standings(s: MatchState): (r: seq<Standing>)
    ensures multiset(r) == multiset(Rows(s))
    ensures |r| == 4
    ensures forall p :: Standing(p, s.Score(p), s.Time(p)) in r
    ensures Ranked(r)
  {
    var rows := Rows(s);
    assert forall p :: rows[Index(p)] == Standing(p, s.Score(p), s.Time(p)) by {
      forall p ensures rows[Index(p)] == Standing(p, s.Score(p), s.Time(p)) {
        IndexInjective(SeatAt(Index(p)), p);
      }
    }
    assert InTurnOrder(rows);
    SortRanked(rows);
    var r := SortByScore(rows);
    assert |r| == |multiset(r)| == |multiset(rows)| == 4;
    assert forall p :: Standing(p, s.Score(p), s.Time(p)) in multiset(rows);
    r
  }

  /** The standings list scores in non-increasing order. */
  lemma StandingsNonIncreasing(s: MatchState)
    ensures forall i, j :: 0 <= i < j < 4 ==> Standings(s)[i].score >= Standings(s)[j].score
  {
  }
}
