/**
 The booking store: the tables the serializers write to, held in memory.
 Row ids are positions in the tables. Inserting a ticket goes through the
 database's uniqueness constraint on (flight, row, seat); an atomic block is
 modelled by remembering the tables on entry and restoring them when an
 insert inside the block is refused.
 */
module Booking {
  import opened Wrappers
  import opened Catalog
  import opened Tickets
  import opened Availability

  type TicketId = nat

  class BookingStore {
    var airplanes: seq<Airplane>
    var flights: seq<Flight>
    var orders: seq<Order>
    var tickets: seq<Ticket>

    /** The database's integrity: unique seats, and every ticket's order and every flight's airplane is a stored row. */
    ghost predicate Valid()
      reads this
    {
      && UniqueSeats(tickets)
      && (forall i :: 0 <= i < |tickets| ==> tickets[i].order < |orders|)
      && (forall i :: 0 <= i < |flights| ==> flights[i].airplane < |airplanes|)
    }

    constructor ()
      ensures Valid()
      ensures airplanes == [] && flights == [] && orders == [] && tickets == []
    {
      airplanes, flights, orders, tickets := [], [], [], [];
    }

    /** Creates an airplane whose seat grid is copied from its type and whose crew is exactly the given crew. */
    method CreateAirplane(req: AirplaneRequest) returns (id: AirplaneId)
      requires Valid()
      modifies this
      ensures Valid()
      ensures id == |old(airplanes)| && airplanes == old(airplanes) + [BuildAirplane(req)]
      ensures airplanes[id].row == req.airplaneType.defaultRow
      ensures airplanes[id].seatsInRow == req.airplaneType.defaultSeatsInRow
      ensures forall c :: c in airplanes[id].crew <==> req.crew.Some? && c in req.crew.value
      ensures flights == old(flights) && orders == old(orders) && tickets == old(tickets)
    {
      id := |airplanes|;
      airplanes := airplanes + [BuildAirplane(req)];
    }

    /** Creates a flight of a stored airplane. */
    method CreateFlight(route: RouteId, airplane: AirplaneId) returns (id: FlightId)
      requires Valid() && airplane < |airplanes|
      modifies this
      ensures Valid()
      ensures id == |old(flights)| && flights == old(flights) + [Flight(route, airplane)]
      ensures airplanes == old(airplanes) && orders == old(orders) && tickets == old(tickets)
    {
      id := |flights|;
      flights := flights + [Flight(route, airplane)];
    }

    /** The availability of a stored flight, read off the current tables. */
    function FlightAvailableTickets(f: FlightId): (n: int)
      reads this
      requires Valid() && f < |flights|
      ensures n + Booked(tickets, f) == Capacity(airplanes[flights[f].airplane])
    {
      AvailableTickets(airplanes[flights[f].airplane], tickets, f)
    }

    /** One insert into the ticket table, which refuses a seat that is already stored. */
    method Insert(t: Ticket) returns (ok: bool)
      requires Valid() && t.order < |orders|
      modifies this
      ensures Valid()
      ensures ok == !Taken(old(tickets), t.Key())
      ensures tickets == if ok then old(tickets) + [t] else old(tickets)
      ensures airplanes == old(airplanes) && flights == old(flights) && orders == old(orders)
    {
      ok := !Taken(tickets, t.Key());
      if ok {
        assert Issue([t.Key()], t.order) == [t];
        assert [t.Key()][0] == t.Key();
        UniqueAfterIssue(tickets, [t.Key()], t.order);
        tickets := tickets + [t];
      }
    }

    /**
     Creates the order for a single ticket, owned by the requesting user, then
     inserts the ticket. The two writes are not in one transaction: when the
     insert is refused the new order stays.
     */
    method CreateTicket(user: UserId, d: TicketData) returns (r: Result<TicketId, Error>)
      requires Valid()
      modifies this
      ensures Valid()
      ensures orders == old(orders) + [Order(user)]
      ensures r.Success? <==> !Taken(old(tickets), d)
      ensures r.Success? ==> (r.value == |old(tickets)|
        && tickets == old(tickets) + [Ticket(d.row, d.seat, d.flight, |old(orders)|)])
      ensures r.Failure? ==> r.error == IntegrityError(0) && tickets == old(tickets)
      ensures airplanes == old(airplanes) && flights == old(flights)
    {
      var o := |orders|;
      orders := orders + [Order(user)];
      var ok := Insert(Ticket(d.row, d.seat, d.flight, o));
      if ok {
        r := Success(|tickets| - 1);
      } else {
        r := Failure(IntegrityError(0));
      }
    }

    /**
     A ticket request: the duplicate-seat validation against the stored
     tickets, then creation. A refused request writes nothing.
     */
    method PostTicket(user: UserId, d: TicketData) returns (r: Result<TicketId, Error>)
      requires Valid()
      modifies this
      ensures Valid()
      ensures r.Success? <==> !Taken(old(tickets), d)
      ensures r.Success? ==> (r.value == |old(tickets)|
        && orders == old(orders) + [Order(user)]
        && tickets == old(tickets) + [Ticket(d.row, d.seat, d.flight, |old(orders)|)])
      ensures r.Failure? ==> (r.error == ValidationError(DuplicateSeatMessage)
        && orders == old(orders) && tickets == old(tickets))
      ensures airplanes == old(airplanes) && flights == old(flights)
    {
      var v := Validate(tickets, d);
      if v.Failure? {
        return Failure(v.error);
      }
      r := CreateTicket(user, v.value);
    }

    /**
     Inserts the tickets `ds` for order `o` one by one, in the order given,
     and stops at the first insert the table refuses. Rolling back is the
     caller's business.
     */
    method InsertEach(o: OrderId, ds: seq<TicketData>) returns (failed: Option<nat>)
      requires Valid() && o < |orders|
      modifies this
      ensures Valid()
      ensures airplanes == old(airplanes) && flights == old(flights) && orders == old(orders)
      ensures failed.None? ==> Bookable(old(tickets), ds) && tickets == old(tickets) + Issue(ds, o)
      ensures failed.Some? ==> FirstClash(old(tickets), ds, failed.value)
    {
      ghost var saved := tickets;
      var i := 0;
      while i < |ds|
        invariant 0 <= i <= |ds|
        invariant Valid()
        invariant airplanes == old(airplanes) && flights == old(flights) && orders == old(orders)
        invariant tickets == saved + Issue(ds[..i], o)
        invariant forall j :: 0 <= j < i ==> !Clash(saved, ds, j)
      {
        var t := Ticket(ds[i].row, ds[i].seat, ds[i].flight, o);
        var ok := Insert(t);
        TakenAfterIssue(saved, ds[..i], o, ds[i]);
        if !ok {
          return Some(i);
        }
        assert Issue(ds[..i + 1], o) == Issue(ds[..i], o) + [t];
        i := i + 1;
      }
      BookableIffNoClash(saved, ds);
      assert ds[..|ds|] == ds;
      failed := None;
    }

    /**
     Creates one order for `user` and its tickets `ds` in one transaction:
     either the order and every ticket are stored, or nothing is.
     */
    method CreateOrder(user: UserId, ds: seq<TicketData>) returns (r: Result<OrderId, Error>)
      requires Valid()
      modifies this
      ensures Valid()
      ensures r.Success? <==> Bookable(old(tickets), ds)
      ensures r.Success? ==> (r.value == |old(orders)|
        && orders == old(orders) + [Order(user)]
        && tickets == old(tickets) + Issue(ds, r.value))
      ensures r.Failure? ==> orders == old(orders) && tickets == old(tickets)
      ensures r.Failure? ==> r.error.IntegrityError? && FirstClash(old(tickets), ds, r.error.index)
      ensures airplanes == old(airplanes) && flights == old(flights)
    {
      var savedOrders, savedTickets := orders, tickets;
      var o := |orders|;
      orders := orders + [Order(user)];
      var failed := InsertEach(o, ds);
      if failed.Some? {
        orders, tickets := savedOrders, savedTickets;
        r := Failure(IntegrityError(failed.value));
      } else {
        r := Success(o);
      }
    }

    /**
     Adds the tickets `ds` (none when the request carries no tickets) to the
     stored order `o` in one transaction: all of them are stored or none is.
     */
    method AppendTickets(o: OrderId, ds: Option<seq<TicketData>>) returns (r: Result<OrderId, Error>)
      requires Valid() && o < |orders|
      modifies this
      ensures Valid()
      ensures orders == old(orders) && airplanes == old(airplanes) && flights == old(flights)
      ensures ds.None? ==> r == Success(o) && tickets == old(tickets)
      ensures ds.Some? ==> (r.Success? <==> Bookable(old(tickets), ds.value))
      ensures ds.Some? && r.Success? ==> r.value == o && tickets == old(tickets) + Issue(ds.value, o)
      ensures r.Failure? ==> tickets == old(tickets)
      ensures r.Failure? ==> ds.Some? && r.error.IntegrityError? && FirstClash(old(tickets), ds.value, r.error.index)
    {
      var batch := if ds.Some? then ds.value else [];
      var savedTickets := tickets;
      var failed := InsertEach(o, batch);
      if failed.Some? {
        tickets := savedTickets;
        r := Failure(IntegrityError(failed.value));
      } else {
        assert ds.None? ==> Issue(batch, o) == [];
        r := Success(o);
      }
    }

    /**
     An order request with the corrected nested validation
     (`ValidateOrderTickets`): its tickets are checked against the stored
     tickets and against each other before the transaction starts. A refused
     request writes nothing, and a request that passes validation is never
     refused by the database.
     */
    method PostOrder(user: UserId, ds: seq<TicketData>) returns (r: Result<OrderId, Error>)
      requires Valid()
      modifies this
      ensures Valid()
      ensures r.Success? <==> Bookable(old(tickets), ds)
      ensures r.Success? ==> (r.value == |old(orders)|
        && orders == old(orders) + [Order(user)]
        && tickets == old(tickets) + Issue(ds, r.value))
      ensures r.Failure? ==> (r.error == ValidationError(DuplicateSeatMessage)
        && orders == old(orders) && tickets == old(tickets))
      ensures airplanes == old(airplanes) && flights == old(flights)
    {
      var v := ValidateOrderTickets(tickets, ds);
      if v.Failure? {
        return Failure(v.error);
      }
      r := CreateOrder(user, v.value);
    }

    /**
     An order request as the order endpoint serves it: each nested ticket is
     validated against the stored tickets only, then the transaction runs. A
     request that repeats a free seat passes validation and is refused by the
     database inside the transaction.
     */
    method PostOrderAsWritten(user: UserId, ds: seq<TicketData>) returns (r: Result<OrderId, Error>)
      requires Valid()
      modifies this
      ensures Valid()
      ensures r.Success? <==> Bookable(old(tickets), ds)
      ensures r.Success? ==> (r.value == |old(orders)|
        && orders == old(orders) + [Order(user)]
        && tickets == old(tickets) + Issue(ds, r.value))
      ensures r.Failure? ==> orders == old(orders) && tickets == old(tickets)
      ensures (r.Failure? && r.error.IntegrityError?) <==>
        ((forall i :: 0 <= i < |ds| ==> !Taken(old(tickets), ds[i])) && !Distinct(ds))
      ensures r.Failure? && r.error.IntegrityError? ==> FirstClash(old(tickets), ds, r.error.index)
      ensures airplanes == old(airplanes) && flights == old(flights)
    {
      var v := ValidateTickets(tickets, ds);
      if v.Failure? {
        return Failure(v.error);
      }
      r := CreateOrder(user, v.value);
    }
  }

  /**
   Two requests for the same seat: an airplane of 10 rows of 6 seats has 60
   tickets for sale; the first booking of row 1, seat 1 leaves 59, and the
   second is refused and leaves the tables and the count as they were.
   */
  method DoubleBookingScenario() {
    var s := new BookingStore();
    var plane := s.CreateAirplane(AirplaneRequest("TestName", AirplaneType("TestBrand", "TestModel", 10, 6), None, None, None));
    var f := s.CreateFlight(0, plane);
    EmptyFlightAvailable(s.airplanes[plane], s.tickets, f);
    assert s.FlightAvailableTickets(f) == 60;

    var seat := TicketData(1, 1, f);
    assert !Taken(s.tickets, seat);
    var first := s.PostTicket(7, seat);
    assert first.Success?;
    AvailableAfterBooking(s.airplanes[plane], [], [seat], 0, f);
    assert Issue([seat], 0) == s.tickets;
    assert s.FlightAvailableTickets(f) == 59;

    var second := s.PostTicket(8, seat);
    assert s.tickets[0].Key() == seat;
    assert second == Failure(ValidationError(DuplicateSeatMessage));
    assert |s.tickets| == 1 && |s.orders| == 1;
    assert s.FlightAvailableTickets(f) == 59;
  }

  /**
   An order repeating one free seat: the endpoint as written lets it through
   validation, the database refuses the second ticket, and the transaction
   leaves the tables as they were.
   */
  method RepeatedSeatOrderScenario(s: BookingStore, user: UserId, d: TicketData)
    requires s.Valid() && !Taken(s.tickets, d)
    modifies s
  {
    ghost var before, ordersBefore := s.tickets, s.orders;
    var r := s.PostOrderAsWritten(user, [d, d]);
    assert [d, d][0] == [d, d][1];
    assert !Clash(before, [d, d], 0);
    assert r == Failure(IntegrityError(1));
    assert s.tickets == before && s.orders == ordersBefore;
  }
}
