# Airport API booking core, modelled in Dafny

This project models the booking logic of an airline-booking REST service. Clients create airplanes from airplane
types and book tickets (a flight, a row and a seat) inside orders. The database keeps one rule: no two tickets may
share the same (flight, row, seat). The serializers add three things on top of that rule:

- a duplicate-seat check on each ticket request;
- single-ticket booking, which creates an order for the requesting user;
- order creation and ticket appending, each inside one atomic block: either every ticket is stored or none is.

The model keeps the database tables in memory, in the class `Booking.BookingStore`:

- airplanes, flights, orders and tickets are sequences;
- a row's id is its position in its sequence;
- one ticket insert is `BookingStore.Insert`, which refuses a seat that is already stored;
- an atomic block saves the tables when it starts and puts them back when an insert inside it is refused.

Files and modules:

- `wrappers.dfy` (`Wrappers`): `Option` and `Result`.
- `catalog.dfy` (`Catalog`): airplane types, airplanes, flights, capacity, and building an airplane from a creation request.
- `tickets.dfy` (`Tickets`): tickets, orders, errors, and the uniqueness constraint. Also duplicate-seat validation,
  and the first-clash rule that says which insert of a batch the database refuses.
- `availability.dfy` (`Availability`): tickets sold per flight, `available_tickets`, and its bounds.
- `store.dfy` (`Booking`): the store class with the serializer operations, and two scenarios: a double booking of one seat, and an order that repeats a seat.

## Model

| member | source | states |
|---|---|---|
| `Catalog.BuildAirplane` | airport/serializers.py:96-106 | The stored airplane keeps the request's name and type. Its row and seats-per-row are the type's defaults. Its crew is exactly the listed crew ids. |
| `Catalog.CrewOf` | airport/serializers.py:99-104 | The crew set holds exactly the ids in the request's crew list. It is empty when the list is absent or empty. |
| `Catalog.GridFieldsIgnored` | airport/serializers.py:96 | Row and seats-per-row are read-only, so the values a client sends for them do not change the airplane that is built. |
| `Catalog.Capacity` | airport/serializers.py:93 | An airplane's capacity is the number of seats in its grid of rows by seats per row. |
| `Catalog.BuiltCapacity` | airport/serializers.py:93-106 | A new airplane's capacity is its type's default rows times default seats per row. |
| `Booking.BookingStore.CreateAirplane` | airport/serializers.py:98-112 | Exactly one airplane is appended: the one built from the request, with the type's grid and the given crew. No other table changes. |
| `Booking.BookingStore.CreateFlight` | airport/serializers.py:127-140 | Exactly one flight is appended, for a stored airplane. No other table changes. |
| `Booking.BookingStore.FlightAvailableTickets` | airport/serializers.py:139 | For a stored flight, available tickets plus tickets sold equals the capacity of the flight's airplane. |
| `Availability.OnFlight` | airport/tests/tests_airport_api.py:478 | Selects exactly the stored tickets whose flight is the given one, one for every table row of that flight. |
| `Availability.AvailableTickets` | airport/serializers.py:139 | A flight's available tickets are its airplane's capacity minus the number of stored tickets for that flight. |
| `Availability.EmptyFlightAvailable` | airport/tests/tests_airport_api.py:467-470 | A flight with no tickets has available tickets equal to its airplane's capacity. |
| `Availability.AvailableAfterBooking` | airport/tests/tests_airport_api.py:472-480 | Storing a batch of tickets lowers a flight's available count by exactly the number of batch tickets for that flight. |
| `Availability.AvailableUnaffected` | airport/tests/tests_airport_api.py:478-480 | Tickets for other flights leave a flight's available count unchanged. |
| `Availability.AvailableNonNegative` | airport/serializers.py:139 | Suppose the table keeps unique seats and every seat sold on a flight lies in the airplane's grid. Then the available count lies between zero and the capacity. |
| `Tickets.Validate` | airport/serializers.py:183-196 | A request fails with the duplicate-seat message exactly when a stored ticket has its flight, row and seat. Otherwise it returns the request unchanged. |
| `Tickets.ValidateAgreesWithConstraint` | airport/serializers.py:188-194 | On a table with unique seats, a request passes validation exactly when the uniqueness constraint would accept its ticket. |
| `Tickets.UniqueAfterIssue` | airport/migrations/0009_alter_ticket_options_alter_ticket_unique_together.py:16-19 | On a table with unique seats, adding a batch keeps seats unique exactly when no request is for a stored seat and no seat is requested twice. |
| `Tickets.BookableIffNoClash` | airport/serializers.py:217-218 | A batch can be stored exactly when no request is for a stored seat or for a seat requested earlier in the same batch. |
| `Tickets.TakenAfterIssue` | airport/serializers.py:226-227 | After a batch is stored, a seat is taken exactly when it was taken before or is in the batch. |
| `Tickets.OrderTicketsAfterIssue` | airport/serializers.py:226-227 | Adding a batch to order o extends o's tickets by the batch, in request order. Every other order keeps exactly its tickets. |
| `Tickets.ValidateTickets` | airport/serializers.py:206 | Validation of the tickets nested in an order, as written: it passes exactly when each ticket passes `Validate` against the stored tickets on its own. |
| `Tickets.RepeatedSeatPassesValidation` | airport/serializers.py:206 | Two tickets for the same free seat pass the nested validation, but the batch cannot be stored. |
| `Tickets.ValidateOrderTickets` | airport/serializers.py:206 | Corrected nested validation: it passes exactly when the batch can be stored, and then returns the batch unchanged. |
| `Booking.BookingStore.Insert` | airport/migrations/0009_alter_ticket_options_alter_ticket_unique_together.py:18 | An insert succeeds exactly when the seat is free. On success the ticket is appended; otherwise nothing changes. Seats stay unique. |
| `Booking.BookingStore.CreateTicket` | airport/serializers.py:198-202 | Always appends one order owned by the user. It appends one ticket on that order exactly when the seat was free. Nothing else changes. |
| `Booking.BookingStore.PostTicket` | airport/serializers.py:183-202 | Duplicate-seat validation, then creation. A taken seat fails with the duplicate-seat message and writes nothing. A free seat adds exactly one order for the user and one ticket on it. |
| `Booking.BookingStore.InsertEach` | airport/serializers.py:217-218 | Inserts the tickets in the order given and stops at the first clash. If none clashes, the table grows by exactly the batch; otherwise the index returned is the first clashing request. |
| `Booking.BookingStore.CreateOrder` | airport/serializers.py:213-219 | Succeeds exactly when the batch can be stored. Then it adds one order for the user and all N tickets on it. On failure the tables are exactly as before, and the error names the first clashing request. |
| `Booking.BookingStore.AppendTickets` | airport/serializers.py:221-229 | Adds the batch to the given order exactly when it can be stored. Without tickets it adds none and succeeds. On failure the tables are exactly as before. Orders never change. |
| `Booking.BookingStore.PostOrderAsWritten` | airport/serializers.py:205-219 | The order request as written: nested validation against stored tickets only, then the transaction. It fails with an integrity error exactly when no seat is stored already but some seat is repeated. The tables are then restored. |
| `Booking.BookingStore.PostOrder` | airport/serializers.py:205-219 | An order request with corrected validation. A batch that cannot be stored fails validation and writes nothing. One that can is stored in full, and the database never refuses it. |

## Left out

- Booking.BookingStore.PostTicket: a taken seat is refused with the message of the duplicate-seat check. For a serializer over a model with a unique-together constraint, the framework adds its own unique-together validator, which runs before that check and answers with its own message. The same applies to the nested tickets in `PostOrder` and `PostOrderAsWritten`. Which requests are refused, and that nothing is written, is unaffected.

- Order number and creation time: they are generated by model code that is not part of this model, so an `Order` records only its user.
- Row and seat range checks: `airport/models.py` as given holds only `CrewPosition`, so the range checks on a ticket are not part of this model. `Availability.AvailableNonNegative` takes them as a precondition (`WithinGrid`).
- Primary-key resolution: the framework's related fields turn ids into stored rows before any serializer code runs. The model takes the airplane type as a value. It takes crew ids and a ticket's flight id as given and does not check that they exist. `CreateFlight` requires a stored airplane.
- In `AppendTickets`, the generic update of the order's own fields is left out. User and order number are read-only, and the creation time is not modelled, so the order record does not change.
- The order endpoint registers no update route, so `AppendTickets` is modelled from the serializer alone.
- The mapping of a refused database insert to an HTTP status, and the HTTP layer generally: routing, viewsets, admin registration, authentication and role permissions.
- Filtering of airports, routes, airplane types and flights: the filter code is not part of this model.
- Display rewrites (`to_representation`), date formatting and the distance string: presentation only.
- Default ordering of tickets by row and seat and of orders by creation time: the model keeps tables in insertion order, and no operation depends on that order.
- Concurrent bookings: the model is sequential. Under it, the insert that follows a passed `Validate` is never refused (see `PostTicket`).
- Crew, airport and route creation: plain creates outside the booking core.
- Database integer widths: integers are unbounded.

## Findings

| source | as written | input that shows it | evidently intended | confidence | as-written member | corrected member |
|---|---|---|---|---|---|---|
| airport/serializers.py:206 | Each ticket nested in an order request is validated only against the stored tickets, not against the other tickets of the same request. | An order request with two tickets for the same free seat. It passes validation, then the second insert inside the atomic block is refused with an integrity error instead of a validation error (`Booking.RepeatedSeatOrderScenario`). | Reject the request with a validation error before the transaction starts. | not executed; medium (the atomic block still rolls back, so only the kind of error differs) | `Tickets.RepeatedSeatPassesValidation` | `Tickets.ValidateOrderTickets` |
