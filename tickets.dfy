/**
 The ticket table and the rule that guards it: no two tickets may share a
 (flight, row, seat) triple. Validation of ticket requests is stated here as
 queries over the table.
 */
module Tickets {
  import opened Wrappers

  type FlightId = nat
  type OrderId = nat
  type UserId = nat

  /** The fields a client supplies for one ticket. */
  datatype TicketData = TicketData(row: int, seat: int, flight: FlightId)

  datatype Ticket = Ticket(row: int, seat: int, flight: FlightId, order: OrderId) {
    /** The triple the uniqueness constraint is declared over. */
    function Key(): TicketData {
      TicketData(row, seat, flight)
    }
  }

  datatype Order = Order(user: UserId)

  datatype Error =
    | ValidationError(message: string)  // rejected by a serializer before anything is written
    | IntegrityError(index: nat)        // the database refused the insert of the index-th requested ticket

  const DuplicateSeatMessage := "A ticket with the same row and seat on this flight already exists."

  /** The tickets written for requests `ds` attached to order `o`, in request order. */
  function Issue(ds: seq<TicketData>, o: OrderId): (r: seq<Ticket>)
    ensures |r| == |ds|
    ensures forall i :: 0 <= i < |ds| ==> r[i].Key() == ds[i] && r[i].order == o
  {
    seq(|ds|, i requires 0 <= i < |ds| => Ticket(ds[i].row, ds[i].seat, ds[i].flight, o))
  }

  /** Some stored ticket already holds seat `d`. */
  predicate Taken(ts: seq<Ticket>, d: TicketData) {
    exists i :: 0 <= i < |ts| && ts[i].Key() == d
  }

  /** The uniqueness constraint on (flight, row, seat). */
  ghost predicate UniqueSeats(ts: seq<Ticket>) {
    forall i, j :: 0 <= i < j < |ts| ==> ts[i].Key() != ts[j].Key()
  }

  /** No seat is requested twice. */
  ghost predicate Distinct(ds: seq<TicketData>) {
    forall i, j :: 0 <= i < j < |ds| ==> ds[i] != ds[j]
  }

  /** Every request is for a free seat and no two requests are for the same seat. */
  ghost predicate Bookable(ts: seq<Ticket>, ds: seq<TicketData>) {
    (forall i :: 0 <= i < |ds| ==> !Taken(ts, ds[i])) && Distinct(ds)
  }

  /** The k-th request is for a seat that is stored already or was requested earlier in the same batch. */
  predicate Clash(ts: seq<Ticket>, ds: seq<TicketData>, k: nat)
    requires k < |ds|
  {
    Taken(ts, ds[k]) || ds[k] in ds[..k]
  }

  /** The k-th request is the first one that clashes. */
  ghost predicate FirstClash(ts: seq<Ticket>, ds: seq<TicketData>, k: nat) {
    k < |ds| && Clash(ts, ds, k) && forall j :: 0 <= j < k ==> !Clash(ts, ds, j)
  }

  /** A batch is bookable exactly when none of its requests clashes. */
  lemma BookableIffNoClash(ts: seq<Ticket>, ds: seq<TicketData>)
    ensures Bookable(ts, ds) <==> forall k :: 0 <= k < |ds| ==> !Clash(ts, ds, k)
  {
    if forall k :: 0 <= k < |ds| ==> !Clash(ts, ds, k) {
      forall i, j | 0 <= i < j < |ds| ensures ds[i] != ds[j] {
        assert !Clash(ts, ds, j);
        assert ds[..j][i] == ds[i];
      }
      forall i | 0 <= i < |ds| ensures !Taken(ts, ds[i]) {
        assert !Clash(ts, ds, i);
      }
    }
    if Bookable(ts, ds) {
      forall k | 0 <= k < |ds| ensures !Clash(ts, ds, k) {
        forall i | 0 <= i < k ensures ds[..k][i] != ds[k] {
          assert ds[..k][i] == ds[i];
          assert ds[i] != ds[k];
        }
        assert ds[k] !in ds[..k];
        assert !Taken(ts, ds[k]);
      }
    }
  }

  /** After a batch is written, a seat is taken exactly when it was taken before or was in the batch. */
  lemma TakenAfterIssue(ts: seq<Ticket>, ds: seq<TicketData>, o: OrderId, d: TicketData)
    ensures Taken(ts + Issue(ds, o), d) <==> Taken(ts, d) || d in ds
  {
    var us := ts + Issue(ds, o);
    if Taken(us, d) {
      var i :| 0 <= i < |us| && us[i].Key() == d;
      if i >= |ts| {
        assert ds[i - |ts|] == d;
      }
    }
    if Taken(ts, d) {
      var i :| 0 <= i < |ts| && ts[i].Key() == d;
      assert us[i] == ts[i];
    }
    if d in ds {
      var i :| 0 <= i < |ds| && ds[i] == d;
      assert us[|ts| + i].Key() == d;
    }
  }

  /**
   The uniqueness constraint accepts a whole batch on top of a consistent table
   exactly when the batch is bookable.
   */
  lemma UniqueAfterIssue(ts: seq<Ticket>, ds: seq<TicketData>, o: OrderId)
    requires UniqueSeats(ts)
    ensures UniqueSeats(ts + Issue(ds, o)) <==> Bookable(ts, ds)
  {
    var us := ts + Issue(ds, o);
    if Bookable(ts, ds) {
      forall i, j | 0 <= i < j < |us| ensures us[i].Key() != us[j].Key() {
        if j >= |ts| && i < |ts| {
          assert !Taken(ts, ds[j - |ts|]);
        } else if i >= |ts| {
          assert ds[i - |ts|] != ds[j - |ts|];
        }
      }
    }
    if UniqueSeats(us) {
      forall i, k | 0 <= i < |ds| && 0 <= k < |ts| ensures ts[k].Key() != ds[i] {
        assert us[k] == ts[k];
        assert us[|ts| + i].Key() == ds[i];
      }
      forall i, j | 0 <= i < j < |ds| ensures ds[i] != ds[j] {
        assert us[|ts| + i].Key() != us[|ts| + j].Key();
      }
    }
  }

  /** The lookup a single ticket request runs: it is refused when its seat is stored already. */
  function Validate(ts: seq<Ticket>, d: TicketData): (r: Result<TicketData, Error>)
    ensures r.Success? <==> !Taken(ts, d)
    ensures r.Success? ==> r.value == d
    ensures r.Failure? ==> r.error == ValidationError(DuplicateSeatMessage)
  {
    if Taken(ts, d) then Failure(ValidationError(DuplicateSeatMessage)) else Success(d)
  }

  /** On a consistent table, a request passes validation exactly when the uniqueness constraint would admit it. */
  lemma ValidateAgreesWithConstraint(ts: seq<Ticket>, d: TicketData, o: OrderId)
    requires UniqueSeats(ts)
    ensures Validate(ts, d).Success? <==> UniqueSeats(ts + [Ticket(d.row, d.seat, d.flight, o)])
  {
    assert Issue([d], o) == [Ticket(d.row, d.seat, d.flight, o)];
    assert [d][0] == d;
    UniqueAfterIssue(ts, [d], o);
  }

  /**
   Validation of the tickets nested in an order request, as written: each
   ticket is checked on its own against the stored tickets only.
   */
  function ValidateTickets(ts: seq<Ticket>, ds: seq<TicketData>): (r: Result<seq<TicketData>, Error>)
    ensures r.Success? <==> forall i :: 0 <= i < |ds| ==> Validate(ts, ds[i]).Success?
    ensures r.Success? ==> r.value == ds
  {
    if exists i :: 0 <= i < |ds| && Taken(ts, ds[i]) then Failure(ValidationError(DuplicateSeatMessage))
    else Success(ds)
  }

  /** Two requests for the same free seat in one order pass the nested validation, yet the batch is not bookable. */
  lemma RepeatedSeatPassesValidation(d: TicketData)
    ensures ValidateTickets([], [d, d]).Success?
    ensures !Bookable([], [d, d])
  {
    assert [d, d][0] == [d, d][1];
  }

  /**
   Validation of the tickets nested in an order request, corrected: a ticket
   is also refused when an earlier ticket of the same request names its seat.
   */
  function ValidateOrderTickets(ts: seq<Ticket>, ds: seq<TicketData>): (r: Result<seq<TicketData>, Error>)
    ensures r.Success? <==> Bookable(ts, ds)
    ensures r.Success? ==> r.value == ds
  {
    BookableIffNoClash(ts, ds);
    if exists k :: 0 <= k < |ds| && Clash(ts, ds, k) then Failure(ValidationError(DuplicateSeatMessage))
    else Success(ds)
  }

  /** The tickets of order `o`, in table order. */
  function OrderTickets(ts: seq<Ticket>, o: OrderId): (r: seq<Ticket>)
    ensures |r| <= |ts|
    ensures forall t :: t in r <==> t in ts && t.order == o
  {
    if ts == [] then []
    else OrderTickets(ts[..|ts| - 1], o) + (if ts[|ts| - 1].order == o then [ts[|ts| - 1]] else [])
  }

  lemma {:induction false} OrderTicketsAppend(ts: seq<Ticket>, us: seq<Ticket>, o: OrderId)
    ensures OrderTickets(ts + us, o) == OrderTickets(ts, o) + OrderTickets(us, o)
    decreases |us|
  {
    if us == [] {
      assert ts + us == ts;
    } else {
      var n := |us| - 1;
      assert (ts + us)[..|ts + us| - 1] == ts + us[..n];
      OrderTicketsAppend(ts, us[..n], o);
    }
  }

  lemma {:induction false} OrderTicketsOfIssue(ds: seq<TicketData>, o: OrderId, p: OrderId)
    ensures OrderTickets(Issue(ds, o), p) == if p == o then Issue(ds, o) else []
    decreases |ds|
  {
    if ds != [] {
      var n := |ds| - 1;
      var us := Issue(ds, o);
      var last := Ticket(ds[n].row, ds[n].seat, ds[n].flight, o);
      assert us[..n] == Issue(ds[..n], o);
      assert us[n] == last;
      assert us == Issue(ds[..n], o) + [last];
      OrderTicketsOfIssue(ds[..n], o, p);
      assert OrderTickets(us, p) == OrderTickets(us[..n], p) + (if last.order == p then [last] else []);
    }
  }

  /**
   Writing a batch for order `o` extends the tickets of `o` by the batch in
   request order and leaves the tickets of every other order as they were.
   */
  lemma OrderTicketsAfterIssue(ts: seq<Ticket>, ds: seq<TicketData>, o: OrderId, p: OrderId)
    ensures OrderTickets(ts + Issue(ds, o), p) == OrderTickets(ts, p) + (if p == o then Issue(ds, o) else [])
  {
    OrderTicketsAppend(ts, Issue(ds, o), p);
    OrderTicketsOfIssue(ds, o, p);
  }
}
