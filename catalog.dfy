/**
 The catalog the booking core reads: airplane types, airplanes and flights.
 An airplane takes its seat grid from its type when it is created, and its
 capacity is the size of that grid.
 */
module Catalog {
  import opened Wrappers

  type CrewId = nat
  type AirplaneId = nat
  type RouteId = nat

  /** The template a new airplane copies its seat grid from. */
  datatype AirplaneType = AirplaneType(brand: string, model: string, defaultRow: int, defaultSeatsInRow: int)

  datatype Airplane = Airplane(
    name: string,
    row: int,
    seatsInRow: int,
    airplaneType: AirplaneType,
    crew: set<CrewId>)

  /**
   What a client posts to create an airplane, with the airplane type already
   resolved from its primary key. `row` and `seatsInRow` are read-only fields:
   whatever the client sends for them is dropped before creation.
   */
  datatype AirplaneRequest = AirplaneRequest(
    name: string,
    airplaneType: AirplaneType,
    row: Option<int>,
    seatsInRow: Option<int>,
    crew: Option<seq<CrewId>>)

  datatype Flight = Flight(route: RouteId, airplane: AirplaneId)

  /** The number of seats of an airplane: as many as its seat grid holds. */
  function Capacity(a: Airplane): (n: int)
    ensures 0 <= a.row && 0 <= a.seatsInRow ==> n == |Grid(a.row, a.seatsInRow)|
  {
    var n := a.row * a.seatsInRow;
    if 0 <= a.row && 0 <= a.seatsInRow then GridCard(a.row, a.seatsInRow); n else n
  }

  /** The seats of an R by S grid. */
  ghost function Grid(rows: nat, seats: nat): set<(int, int)> {
    set r, s | 1 <= r <= rows && 1 <= s <= seats :: (r, s)
  }

  ghost function GridRow(r: int, seats: nat): set<(int, int)> {
    set s | 1 <= s <= seats :: (r, s)
  }

  lemma GridRowMember(r: int, seats: nat, x: (int, int))
    ensures x in GridRow(r, seats) <==> x.0 == r && 1 <= x.1 <= seats
  {
    if x.0 == r && 1 <= x.1 <= seats {
      assert x == (r, x.1);
    }
  }

  lemma GridMember(rows: nat, seats: nat, x: (int, int))
    ensures x in Grid(rows, seats) <==> 1 <= x.0 <= rows && 1 <= x.1 <= seats
  {
    if 1 <= x.0 <= rows && 1 <= x.1 <= seats {
      assert x == (x.0, x.1);
    }
  }

  lemma {:induction false} GridRowCard(r: int, seats: nat)
    ensures |GridRow(r, seats)| == seats
  {
    if seats > 0 {
      var line, shorter := GridRow(r, seats), GridRow(r, seats - 1) + {(r, seats)};
      forall x | x in line ensures x in shorter {
        GridRowMember(r, seats, x);
        GridRowMember(r, seats - 1, x);
      }
      forall x | x in shorter ensures x in line {
        GridRowMember(r, seats, x);
        GridRowMember(r, seats - 1, x);
      }
      assert line == shorter;
      GridRowMember(r, seats - 1, (r, seats));
      GridRowCard(r, seats - 1);
    }
  }

  lemma {:induction false} GridCard(rows: nat, seats: nat)
    ensures |Grid(rows, seats)| == rows * seats
  {
    if rows == 0 {
      forall x | x in Grid(rows, seats) ensures false {
        GridMember(rows, seats, x);
      }
      assert Grid(rows, seats) == {};
    } else {
      var g, prev, line := Grid(rows, seats), Grid(rows - 1, seats), GridRow(rows, seats);
      forall x | x in g ensures x in prev + line {
        GridMember(rows, seats, x);
        GridMember(rows - 1, seats, x);
        GridRowMember(rows, seats, x);
      }
      forall x | x in prev + line ensures x in g {
        GridMember(rows, seats, x);
        GridMember(rows - 1, seats, x);
        GridRowMember(rows, seats, x);
      }
      assert g == prev + line;
      forall x | x in prev ensures x !in line {
        GridMember(rows - 1, seats, x);
        GridRowMember(rows, seats, x);
      }
      assert prev !! line;
      GridCard(rows - 1, seats);
      GridRowCard(rows, seats);
      assert (rows - 1) * seats + seats == rows * seats;
    }
  }


  /** The crew an airplane is given: the listed ids, or nobody when the list is absent or empty. */
  function CrewOf(crew: Option<seq<CrewId>>): (r: set<CrewId>)
    ensures forall c :: c in r <==> crew.Some? && c in crew.value
  {
    if crew.Some? && |crew.value| > 0 then set c | c in crew.value else {}
  }

  /** The airplane that creation stores for a request: the seat grid comes from the type, never from the request. */
  function BuildAirplane(req: AirplaneRequest): (a: Airplane)
    ensures a.name == req.name && a.airplaneType == req.airplaneType
    ensures a.row == req.airplaneType.defaultRow
    ensures a.seatsInRow == req.airplaneType.defaultSeatsInRow
    ensures forall c :: c in a.crew <==> req.crew.Some? && c in req.crew.value
  {
    Airplane(req.name, req.airplaneType.defaultRow, req.airplaneType.defaultSeatsInRow,
             req.airplaneType, CrewOf(req.crew))
  }

  /** Changing the read-only grid fields of a request does not change the airplane built from it. */
  lemma GridFieldsIgnored(req: AirplaneRequest, row: Option<int>, seatsInRow: Option<int>)
    ensures BuildAirplane(req.(row := row, seatsInRow := seatsInRow)) == BuildAirplane(req)
  {
  }

  /** A freshly built airplane seats exactly what its type's default grid holds. */
  lemma BuiltCapacity(req: AirplaneRequest)
    ensures Capacity(BuildAirplane(req)) == req.airplaneType.defaultRow * req.airplaneType.defaultSeatsInRow
  {
  }
}
