/**
 Seats still for sale on a flight: the airplane's capacity minus the tickets
 stored for that flight. Recomputed from the ticket table on every read.
 */
module Availability {
  import opened Catalog
  import opened Tickets

  /** The positions in the table of the tickets for flight `f`. */
  ghost function FlightRows(ts: seq<Ticket>, f: FlightId): set<int> {
    set i | 0 <= i < |ts| && ts[i].flight == f
  }

  lemma FlightRowsOfPrefix(ts: seq<Ticket>, f: FlightId)
    requires ts != []
    ensures FlightRows(ts, f) == FlightRows(ts[..|ts| - 1], f) + (if ts[|ts| - 1].flight == f then {|ts| - 1} else {})
  {
    var n := |ts| - 1;
    forall i | i in FlightRows(ts, f) && i < n ensures i in FlightRows(ts[..n], f) {
      assert ts[..n][i] == ts[i];
    }
    forall i | i in FlightRows(ts[..n], f) ensures i in FlightRows(ts, f) {
      assert ts[..n][i] == ts[i];
    }
  }

  /** The tickets stored for flight `f`, in table order: one for every table row of that flight. */
  function OnFlight(ts: seq<Ticket>, f: FlightId): (r: seq<Ticket>)
    ensures |r| == |FlightRows(ts, f)|
    ensures forall t :: t in r <==> t in ts && t.flight == f
  {
    if ts == [] then []
    else
      FlightRowsOfPrefix(ts, f);
      OnFlight(ts[..|ts| - 1], f) + (if ts[|ts| - 1].flight == f then [ts[|ts| - 1]] else [])
  }

  /** How many tickets flight `f` has sold. */
  function Booked(ts: seq<Ticket>, f: FlightId): nat {
    |OnFlight(ts, f)|
  }

  /** The available ticket count of flight `f` flown by airplane `a`: its capacity less the tickets stored for it. */
  function AvailableTickets(a: Airplane, ts: seq<Ticket>, f: FlightId): (n: int)
    ensures n == Capacity(a) - |FlightRows(ts, f)|
  {
    Capacity(a) - Booked(ts, f)
  }

  /** How many of the requests `ds` are for flight `f`. */
  function Requested(ds: seq<TicketData>, f: FlightId): (n: nat)
    ensures n <= |ds|
  {
    if ds == [] then 0
    else Requested(ds[..|ds| - 1], f) + (if ds[|ds| - 1].flight == f then 1 else 0)
  }

  lemma {:induction false} OnFlightAppend(ts: seq<Ticket>, us: seq<Ticket>, f: FlightId)
    ensures OnFlight(ts + us, f) == OnFlight(ts, f) + OnFlight(us, f)
    decreases |us|
  {
    if us == [] {
      assert ts + us == ts;
    } else {
      var n := |us| - 1;
      assert (ts + us)[..|ts + us| - 1] == ts + us[..n];
      OnFlightAppend(ts, us[..n], f);
    }
  }

  lemma {:induction false} BookedOfIssue(ds: seq<TicketData>, o: OrderId, f: FlightId)
    ensures Booked(Issue(ds, o), f) == Requested(ds, f)
    decreases |ds|
  {
    if ds != [] {
      var n := |ds| - 1;
      var us := Issue(ds, o);
      var last := Ticket(ds[n].row, ds[n].seat, ds[n].flight, o);
      assert us[..n] == Issue(ds[..n], o);
      assert us[n] == last;
      BookedOfIssue(ds[..n], o, f);
      assert OnFlight(us, f) == OnFlight(us[..n], f) + (if last.flight == f then [last] else []);
    }
  }

  /** Booking a batch lowers a flight's availability by exactly the number of its seats in the batch. */
  lemma AvailableAfterBooking(a: Airplane, ts: seq<Ticket>, ds: seq<TicketData>, o: OrderId, f: FlightId)
    ensures AvailableTickets(a, ts + Issue(ds, o), f) == AvailableTickets(a, ts, f) - Requested(ds, f)
  {
    OnFlightAppend(ts, Issue(ds, o), f);
    BookedOfIssue(ds, o, f);
  }

  /** Tickets for other flights do not touch a flight's availability. */
  lemma AvailableUnaffected(a: Airplane, ts: seq<Ticket>, us: seq<Ticket>, f: FlightId)
    requires forall i :: 0 <= i < |us| ==> us[i].flight != f
    ensures AvailableTickets(a, ts + us, f) == AvailableTickets(a, ts, f)
  {
    OnFlightAppend(ts, us, f);
    OnFlightNone(us, f);
    assert ts + [] == ts;
  }

  lemma {:induction false} OnFlightNone(us: seq<Ticket>, f: FlightId)
    requires forall i :: 0 <= i < |us| ==> us[i].flight != f
    ensures OnFlight(us, f) == []
    decreases |us|
  {
    if us != [] {
      OnFlightNone(us[..|us| - 1], f);
    }
  }

  /** A flight with no tickets has its whole capacity available. */
  lemma EmptyFlightAvailable(a: Airplane, ts: seq<Ticket>, f: FlightId)
    requires forall i :: 0 <= i < |ts| ==> ts[i].flight != f
    ensures AvailableTickets(a, ts, f) == Capacity(a)
  {
    AvailableUnaffected(a, [], ts, f);
    assert [] + ts == ts;
  }

  /** Every seat of flight `f` lies inside the seat grid of airplane `a` (rows and seats counted from 1). */
  ghost predicate WithinGrid(a: Airplane, ts: seq<Ticket>, f: FlightId) {
    forall i :: 0 <= i < |ts| && ts[i].flight == f ==>
      1 <= ts[i].row <= a.row && 1 <= ts[i].seat <= a.seatsInRow
  }

  lemma SubsetCard<T>(a: set<T>, b: set<T>)
    requires a <= b
    ensures |a| <= |b|
  {
    assert b == a + (b - a);
  }

  /** A sequence without repetitions has as many distinct elements as it is long. */
  lemma {:induction false} DistinctCard<T>(xs: seq<T>)
    requires forall i, j :: 0 <= i < j < |xs| ==> xs[i] != xs[j]
    ensures |set x | x in xs| == |xs|
  {
    if xs != [] {
      var n := |xs| - 1;
      DistinctCard(xs[..n]);
      assert (set x | x in xs) == (set x | x in xs[..n]) + {xs[n]};
      assert xs[n] !in xs[..n];
    }
  }

  /** Only tickets of flight `f` are kept, and the kept ones are unique whenever the table is. */
  lemma {:induction false} OnFlightUnique(ts: seq<Ticket>, f: FlightId)
    requires UniqueSeats(ts)
    ensures UniqueSeats(OnFlight(ts, f))
    decreases |ts|
  {
    if ts != [] {
      var n := |ts| - 1;
      var last := ts[n];
      var front := OnFlight(ts[..n], f);
      assert UniqueSeats(ts[..n]) by {
        forall i, j | 0 <= i < j < n ensures ts[..n][i].Key() != ts[..n][j].Key() {
          assert ts[..n][i] == ts[i] && ts[..n][j] == ts[j];
        }
      }
      OnFlightUnique(ts[..n], f);
      if last.flight == f {
        var r := front + [last];
        assert OnFlight(ts, f) == r;
        forall k | 0 <= k < |front| ensures front[k].Key() != last.Key() {
          assert front[k] in ts[..n];
          var i :| 0 <= i < n && ts[..n][i] == front[k];
          assert ts[i] == front[k];
        }
        forall i, j | 0 <= i < j < |r| ensures r[i].Key() != r[j].Key() {
          if j < |front| {
            assert r[i] == front[i] && r[j] == front[j];
          } else {
            assert r[i] == front[i] && r[j] == last;
          }
        }
      } else {
        assert OnFlight(ts, f) == front;
      }
    }
  }

  /** The (row, seat) pairs of the tickets `r`. */
  function Places(r: seq<Ticket>): (p: seq<(int, int)>)
    ensures |p| == |r|
  {
    seq(|r|, i requires 0 <= i < |r| => (r[i].row, r[i].seat))
  }

  /**
   When the table keeps the uniqueness constraint and every seat sold on a
   flight lies inside the airplane's grid, the flight never has more tickets
   than seats: its availability stays between zero and the capacity.
   */
  lemma AvailableNonNegative(a: Airplane, ts: seq<Ticket>, f: FlightId)
    requires UniqueSeats(ts)
    requires 0 <= a.row && 0 <= a.seatsInRow
    requires WithinGrid(a, ts, f)
    ensures 0 <= AvailableTickets(a, ts, f) <= Capacity(a)
  {
    var r := OnFlight(ts, f);
    var p := Places(r);
    OnFlightUnique(ts, f);
    forall i, j | 0 <= i < j < |p| ensures p[i] != p[j] {
      assert r[i] in r && r[j] in r;
      assert r[i].Key() != r[j].Key();
    }
    DistinctCard(p);
    forall x | x in p ensures x in Grid(a.row, a.seatsInRow) {
      var i :| 0 <= i < |p| && p[i] == x;
      assert r[i] in ts;
      var k :| 0 <= k < |ts| && ts[k] == r[i];
    }
    SubsetCard((set x | x in p), Grid(a.row, a.seatsInRow));
  }
}
