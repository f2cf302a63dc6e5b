/** The four seats around the board, their fixed turn order, and a record holding one value per seat. */
module Seats {

  /** The seats in turn order: red, blue, yellow, green. */
  datatype Seat = Red | Blue | Yellow | Green

  /** Position of a seat in turn order, 0 for red up to 3 for green. */
  function Index(p: Seat): (i: nat)
    ensures i < 4
  {
    match p
    case Red => 0
    case Blue => 1
    case Yellow => 2
    case Green => 3
  }

  /** The seat at a position in turn order. */
  function SeatAt(i: nat): (p: Seat)
    requires i < 4
    ensures Index(p) == i
  {
    if i == 0 then Red else if i == 1 then Blue else if i == 2 then Yellow else Green
  }

  /** The seat k steps after p in cyclic turn order, for up to one full lap. */
  function Step(p: Seat, k: nat): (q: Seat)
    requires k <= 4
    ensures Index(q) == if Index(p) + k < 4 then Index(p) + k else Index(p) + k - 4
  {
    var i := Index(p) + k;
    SeatAt(if i < 4 then i else i - 4)
  }

  /** The seat directly after p in turn order. */
  function After(p: Seat): (q: Seat)
    ensures Index(q) == (Index(p) + 1) % 4
  {
    Step(p, 1)
  }

  /** Number of forward steps from p to q, between 1 and 4; p itself lies four steps away. */
  function Distance(p: Seat, q: Seat): (d: nat)
    ensures 1 <= d <= 4
  {
    var d := Index(q) - Index(p);
    if d > 0 then d else d + 4
  }

  lemma IndexInjective(p: Seat, q: Seat)
    requires Index(p) == Index(q)
    ensures p == q
  {
  }

  /** Walking k steps from p lands at distance k. */
  lemma StepDistance(p: Seat, k: nat)
    requires 1 <= k <= 4
    ensures Distance(p, Step(p, k)) == k
  {
  }

  /** Every seat is reached from p by walking its distance, so distance from p tells seats apart. */
  lemma DistanceStep(p: Seat, q: Seat)
    ensures Step(p, Distance(p, q)) == q
  {
  }

  /** Advancing a position by one, modulo 4, advances the seat by one. */
  lemma AfterSeatAt(i: nat)
    requires i < 4
    ensures SeatAt((i + 1) % 4) == After(SeatAt(i))
  {
  }

  /** One more step after k steps is k + 1 steps; four steps return to the start. */
  lemma AfterStep(p: Seat, k: nat)
    requires k < 4
    ensures After(Step(p, k)) == Step(p, k + 1)
    ensures Step(p, 4) == p && Step(p, 0) == p
  {
  }

  /** One value per seat, in the shape of the source's `players` object. */
  datatype Seats<T> = Seats(red: T, blue: T, yellow: T, green: T) {

    function Get(p: Seat): T {
      match p
      case Red => red
      case Blue => blue
      case Yellow => yellow
      case Green => green
    }

    /** Replaces the value of one seat and keeps the other three. */
    function Set(p: Seat, v: T): (r: Seats<T>)
      ensures r.Get(p) == v
      ensures forall q :: q != p ==> r.Get(q) == Get(q)
    {
      match p
      case Red => this.(red := v)
      case Blue => this.(blue := v)
      case Yellow => this.(yellow := v)
      case Green => this.(green := v)
    }

    /** Applies f to the value of every seat, as `PLAYERS.forEach` does. */
    function Map<U>(f: T -> U): (r: Seats<U>)
      ensures forall q :: r.Get(q) == f(Get(q))
    {
      Seats(f(red), f(blue), f(yellow), f(green))
    }
  }

  /** Two records that agree on every seat are equal. */
  lemma Extensional<T>(a: Seats<T>, b: Seats<T>)
    requires forall q :: a.Get(q) == b.Get(q)
    ensures a == b
  {
    assert a.Get(Red) == b.Get(Red);
    assert a.Get(Blue) == b.Get(Blue);
    assert a.Get(Yellow) == b.Get(Yellow);
    assert a.Get(Green) == b.Get(Green);
  }
}
