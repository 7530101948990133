/** RideShare::TripDispatcher: the registry of drivers, passengers and trips, the
    per-row linking step of the trip loader, and request_trip. */
module Dispatch {
  import opened Errors
  import opened Entities
  import opened Selection
  import opened SelectionFacts

  /** A row of the trip feed after parsing: ids, times, cost and rating already typed. */
  datatype TripRow = TripRow(
    id: int,
    driverId: int,
    passengerId: int,
    startTime: int,
    endTime: int,
    cost: real,
    rating: int)

  /** Each of the passenger's trips names that passenger. */
  predicate RidesOwnTrips(p: User)
    reads p
  {
    forall t :: t in p.trips ==> t.passenger == p
  }

  predicate PassengersLinked(ps: seq<User>)
    reads set p | p in ps
  {
    forall p :: p in ps ==> RidesOwnTrips(p)
  }

  /** Lines 59-72 of load_trips: the row's passenger and driver are looked up (a missing
      one becomes nil) and the Trip is constructed, which validates rating and times. */
  function RowTrip(ds: seq<Driver>, ps: seq<User>, row: TripRow): (r: Result<Trip>)
    ensures row.passengerId <= 0 || row.driverId <= 0 ==> r == Err(InvalidId)
    ensures r.Ok? <==> row.passengerId > 0 && row.driverId > 0 &&
                       1 <= row.rating <= 5 && row.startTime <= row.endTime
    ensures r.Ok? ==> r.value.id == row.id && r.value.startTime == row.startTime &&
                      r.value.endTime == Some(row.endTime) && r.value.cost == Some(row.cost) &&
                      r.value.rating == Some(row.rating)
    ensures r.Ok? && r.value.driver != null ==>
              r.value.driver in ds && r.value.driver.id == row.driverId
    ensures r.Ok? && r.value.driver == null ==> forall d :: d in ds ==> d.id != row.driverId
    ensures r.Ok? && r.value.passenger != null ==>
              r.value.passenger in ps && r.value.passenger.id == row.passengerId
    ensures r.Ok? && r.value.passenger == null ==> forall p :: p in ps ==> p.id != row.passengerId
    ensures r.Ok? ==> FindDriver(ds, Some(row.driverId)) ==
                      Ok(if r.value.driver == null then None else Some(r.value.driver))
    ensures r.Ok? ==> FindPassenger(ps, Some(row.passengerId)) ==
                      Ok(if r.value.passenger == null then None else Some(r.value.passenger))
  {
    match FindPassenger(ps, Some(row.passengerId))
    case Err(e) => Err(e)
    case Ok(p) =>
      match FindDriver(ds, Some(row.driverId))
      case Err(e) => Err(e)
      case Ok(d) =>
        NewTrip(row.id, if d.Some? then d.value else null, if p.Some? then p.value else null,
                row.startTime, Some(row.endTime), Some(row.cost), Some(row.rating))
  }

  /** Row k of `rows` resolves to trip k of `loaded`, which names both a driver and a passenger. */
  predicate Resolved(ds: seq<Driver>, ps: seq<User>, rows: seq<TripRow>, loaded: seq<Trip>) {
    && |loaded| <= |rows|
    && forall k :: 0 <= k < |loaded| ==>
         RowTrip(ds, ps, rows[k]) == Ok(loaded[k]) && loaded[k].driver != null && loaded[k].passenger != null
  }

  /** The row builds a trip that names both a driver and a passenger, so linking it succeeds. */
  predicate RowLinks(ds: seq<Driver>, ps: seq<User>, row: TripRow) {
    RowTrip(ds, ps, row).Ok? && RowTrip(ds, ps, row).value.driver != null &&
    RowTrip(ds, ps, row).value.passenger != null
  }

  /** The error linking a row raises when it does not link: the row's own error, or the
      nil passenger or driver that has no add_trip/add_driven_trip. */
  function RowError(ds: seq<Driver>, ps: seq<User>, row: TripRow): Error {
    if RowTrip(ds, ps, row).Err? then RowTrip(ds, ps, row).error else NilReceiver
  }

  /** Row k is the first of `rows` that does not link. */
  predicate FirstFailing(ds: seq<Driver>, ps: seq<User>, rows: seq<TripRow>, k: int) {
    0 <= k < |rows| && !RowLinks(ds, ps, rows[k]) &&
    forall j :: 0 <= j < k ==> RowLinks(ds, ps, rows[j])
  }

  /** Every row resolved so far links. */
  lemma ResolvedLinks(ds: seq<Driver>, ps: seq<User>, rows: seq<TripRow>, loaded: seq<Trip>)
    requires Resolved(ds, ps, rows, loaded)
    ensures forall k :: 0 <= k < |loaded| ==> RowLinks(ds, ps, rows[k])
  {
    forall k | 0 <= k < |loaded|
      ensures RowLinks(ds, ps, rows[k])
    {
      assert RowTrip(ds, ps, rows[k]) == Ok(loaded[k]);
    }
  }

  /** One more resolved row extends the correspondence. */
  lemma ResolvedStep(ds: seq<Driver>, ps: seq<User>, rows: seq<TripRow>, loaded: seq<Trip>, t: Trip)
    requires Resolved(ds, ps, rows, loaded) && |loaded| < |rows|
    requires RowTrip(ds, ps, rows[|loaded|]) == Ok(t) && t.driver != null && t.passenger != null
    ensures Resolved(ds, ps, rows, loaded + [t])
  {
  }

  /** The trips of `ts` that name `d` as their driver, in order. */
  function DrivenBy(ts: seq<Trip>, d: Driver): (r: seq<Trip>)
    ensures forall t :: t in r ==> t in ts && t.driver == d
    ensures forall t :: t in ts && t.driver == d ==> t in r
    ensures |r| <= |ts|
  {
    if ts == [] then []
    else DrivenBy(ts[..|ts| - 1], d) + (if ts[|ts| - 1].driver == d then [ts[|ts| - 1]] else [])
  }

  /** The trips of `ts` that name `p` as their passenger, in order. */
  function RiddenBy(ts: seq<Trip>, p: User): (r: seq<Trip>)
    ensures forall t :: t in r ==> t in ts && t.passenger == p
    ensures forall t :: t in ts && t.passenger == p ==> t in r
    ensures |r| <= |ts|
  {
    if ts == [] then []
    else RiddenBy(ts[..|ts| - 1], p) + (if ts[|ts| - 1].passenger == p then [ts[|ts| - 1]] else [])
  }

  /** Linking one more trip adds it to exactly its driver's and its passenger's share. */
  lemma SharesAppend(ts: seq<Trip>, t: Trip)
    ensures forall d: Driver :: DrivenBy(ts + [t], d) == DrivenBy(ts, d) + (if t.driver == d then [t] else [])
    ensures forall p: User :: RiddenBy(ts + [t], p) == RiddenBy(ts, p) + (if t.passenger == p then [t] else [])
  {
    assert (ts + [t])[..|ts|] == ts;
  }

  /** Every driver holds exactly the trips of `loaded` that name it, and so does every
      passenger. */
  predicate HoldShares(ds: seq<Driver>, ps: seq<User>, loaded: seq<Trip>)
    reads set d | d in ds, set p | p in ps
  {
    && (forall e :: e in ds ==> e.drivenTrips == DrivenBy(loaded, e))
    && (forall q :: q in ps ==> q.trips == RiddenBy(loaded, q))
  }

  /** Once every driver and passenger holds exactly its share of the loaded trips,
      each loaded trip is in its driver's driven trips and its passenger's trips. */
  lemma LoadedTripsLinked(ds: seq<Driver>, ps: seq<User>, rows: seq<TripRow>, loaded: seq<Trip>)
    requires Resolved(ds, ps, rows, loaded)
    requires HoldShares(ds, ps, loaded)
    ensures forall t :: t in loaded ==>
              t.driver != null && t in t.driver.drivenTrips && t.passenger != null && t in t.passenger.trips
  {
    forall t | t in loaded
      ensures t.driver != null && t in t.driver.drivenTrips && t.passenger != null && t in t.passenger.trips
    {
      var k :| 0 <= k < |loaded| && loaded[k] == t;
      assert RowTrip(ds, ps, rows[k]) == Ok(t);
    }
  }

  /** A list that grew by `extra` after growing by `share` grew by their concatenation. */
  lemma Rebase(now: seq<Trip>, before: seq<Trip>, start: seq<Trip>, share: seq<Trip>, extra: seq<Trip>)
    requires now == before + extra && before == start + share
    ensures now == start + (share + extra)
  {
  }

  /** Lines 134-136 and 146 of request_trip, as a value: the passenger looked up first,
      then the selected driver, which must not be nil. */
  function Assignment(ds: seq<Driver>, ps: seq<User>, userId: Option<int>): (r: Result<(Driver, User)>)
    reads set d | d in ds
    ensures !IdAccepted(userId) ==> r == Err(InvalidId)
    ensures IdAccepted(userId) && DriversNotPassenger(ds, ps, userId).Err? ==>
              r == Err(DriversNotPassenger(ds, ps, userId).error)
    ensures r.Ok? ==> r.value.1 in ps && r.value.1.id == userId.value
    ensures Linked(ds) && CompletedWhileAvailable(ds) ==>
              (r.Ok? <==> FindPassenger(ps, userId).Ok? && FindPassenger(ps, userId).value.Some? &&
                          exists d :: d in ds && Eligible(d, userId.value) && d.drivenTrips != [])
    ensures Linked(ds) && CompletedWhileAvailable(ds) && r.Ok? ==>
              r.value.0 in ds && Eligible(r.value.0, userId.value)
    ensures Linked(ds) && CompletedWhileAvailable(ds) &&
            FindPassenger(ps, userId).Ok? && FirstAvailableDriver(ds, ps, userId).Ok? ==>
              r.Ok? && r.value.0 == FirstAvailableDriver(ds, ps, userId).value &&
              Some(r.value.1) == FindPassenger(ps, userId).value
  {
    assert Linked(ds) && CompletedWhileAvailable(ds) ==>
      && (FirstAvailableDriver(ds, ps, userId).Ok? <==>
            DriversNotPassenger(ds, ps, userId).Ok? &&
            exists d :: d in ds && Eligible(d, userId.value) && d.drivenTrips != [])
      && (FirstAvailableDriver(ds, ps, userId).Ok? ==>
            var d := FirstAvailableDriver(ds, ps, userId).value;
            d != null && d in ds && Eligible(d, userId.value))
    by {
      if Linked(ds) && CompletedWhileAvailable(ds) {
        FirstAvailableDriverChoice(ds, ps, userId);
      }
    }
    match FindPassenger(ps, userId)
    case Err(e) => Err(e)
    case Ok(passenger) =>
      match FirstAvailableDriver(ds, ps, userId)
      case Err(e) => Err(e)
      case Ok(driver) =>
        if driver == null then Err(NilReceiver)
        else Ok((driver, passenger.value))
  }

  /** request_trip raises NO DRIVERS AVAILABLE when every driver is UNAVAILABLE, or when
      the rider exists and the only AVAILABLE drivers are the rider. */
  lemma NoDriverForRequest(ds: seq<Driver>, ps: seq<User>, userId: Option<int>)
    requires IdAccepted(userId)
    requires forall d :: d in ds ==> !Eligible(d, userId.value)
    requires (forall d :: d in ds ==> d.status == Unavailable) || FindPassenger(ps, userId).value.Some?
    ensures Assignment(ds, ps, userId) == Err(NoDriversAvailable)
  {
    var available := AvailableDrivers(ds);
    if available != [] {
      assert available[0] in available;
    }
  }

  class TripDispatcher {
    var drivers: seq<Driver>
    var passengers: seq<User>
    var trips: seq<Trip>

    /** The links the loader and request_trip maintain, and the fact that only
        UNAVAILABLE drivers hold in-progress trips. */
    ghost predicate Valid()
      reads this`drivers, this`passengers, set d | d in drivers, set p | p in passengers
    {
      Linked(drivers) && CompletedWhileAvailable(drivers) && PassengersLinked(passengers)
    }

    /** The registry right after load_users and load_drivers: nobody has trips yet. */
    constructor (passengers: seq<User>, drivers: seq<Driver>)
      requires forall d :: d in drivers ==> d.drivenTrips == []
      requires forall p :: p in passengers ==> p.trips == []
      ensures Valid()
      ensures this.passengers == passengers && this.drivers == drivers && trips == []
    {
      this.passengers := passengers;
      this.drivers := drivers;
      trips := [];
    }

    /** TripDispatcher#initialize over the loaded riders and drivers and the parsed trip
        rows: the registry is built with nobody holding trips yet, then the trip list is
        what load_trips returns. Construction fails, with the error of the first row that
        does not link, exactly when some row does not link. */
    static method Create(passengers: seq<User>, drivers: seq<Driver>, rows: seq<TripRow>)
      returns (r: Result<TripDispatcher>)
      requires forall d :: d in drivers ==> d.drivenTrips == []
      requires forall p :: p in passengers ==> p.trips == []
      modifies set d | d in drivers, set p | p in passengers
      ensures r.Ok? <==> forall k :: 0 <= k < |rows| ==> RowLinks(drivers, passengers, rows[k])
      ensures r.Err? ==>
                exists k :: FirstFailing(drivers, passengers, rows, k) &&
                            r.error == RowError(drivers, passengers, rows[k])
      ensures r.Ok? ==> fresh(r.value) && r.value.Valid()
      ensures r.Ok? ==> r.value.drivers == drivers && r.value.passengers == passengers
      ensures r.Ok? ==> |r.value.trips| == |rows| && Resolved(drivers, passengers, rows, r.value.trips)
      ensures r.Ok? ==> forall e :: e in drivers ==> e.status == old(e.status)
      ensures r.Ok? ==> HoldShares(drivers, passengers, r.value.trips)
      ensures r.Ok? ==>
                forall t :: t in r.value.trips ==>
                  t.driver != null && t in t.driver.drivenTrips && t.passenger != null && t in t.passenger.trips
    {
      var dispatcher := new TripDispatcher(passengers, drivers);
      var loaded := dispatcher.LoadTrips(rows);
      if loaded.Err? {
        return Err(loaded.error);
      }
      forall e | e in drivers
        ensures e.drivenTrips == DrivenBy(loaded.value, e)
      {
        assert old(e.drivenTrips) == [];
      }
      forall q | q in passengers
        ensures q.trips == RiddenBy(loaded.value, q)
      {
        assert old(q.trips) == [];
      }
      assert HoldShares(drivers, passengers, loaded.value);
      dispatcher.Install(rows, loaded.value);
      return Ok(dispatcher);
    }

    /** The assignment of load_trips' result to the trip list in initialize. */
    method Install(ghost rows: seq<TripRow>, loaded: seq<Trip>)
      requires Resolved(drivers, passengers, rows, loaded)
      requires HoldShares(drivers, passengers, loaded)
      modifies this`trips
      ensures trips == loaded
      ensures forall t :: t in trips ==>
                t.driver != null && t in t.driver.drivenTrips && t.passenger != null && t in t.passenger.trips
    {
      LoadedTripsLinked(drivers, passengers, rows, loaded);
      trips := loaded;
    }

    /** The body of the load_trips loop for one row: resolve, construct, then link the
        trip to its passenger (line 73) and to its driver (line 74). A nil passenger
        fails before anything changes; a nil driver fails after the passenger was linked. */
    method LoadTrip(row: TripRow) returns (r: Result<Trip>)
      requires Valid()
      modifies set d | d in drivers, set p | p in passengers
      ensures Valid()
      ensures r.Ok? <==> RowLinks(drivers, passengers, row)
      ensures r.Ok? ==> r == RowTrip(drivers, passengers, row)
      ensures r.Err? ==> r.error == RowError(drivers, passengers, row)
      ensures r.Err? ==> unchanged(set d | d in drivers)
      ensures RowTrip(drivers, passengers, row).Err? || RowTrip(drivers, passengers, row).value.passenger == null ==>
                unchanged(set p | p in passengers)
      ensures RowTrip(drivers, passengers, row).Ok? && RowTrip(drivers, passengers, row).value.passenger != null ==>
                var t := RowTrip(drivers, passengers, row).value;
                (forall q :: q in passengers ==> q.trips == old(q.trips) + (if q == t.passenger then [t] else []))
      ensures r.Ok? ==> r.value in r.value.driver.drivenTrips && r.value in r.value.passenger.trips
      ensures r.Ok? ==>
                forall e :: e in drivers ==>
                  e.status == old(e.status) &&
                  e.drivenTrips == old(e.drivenTrips) + (if e == r.value.driver then [r.value] else [])
    {
      var built := RowTrip(drivers, passengers, row);
      if built.Err? {
        return Err(built.error);
      }
      var trip := built.value;
      var passenger := trip.passenger;
      var driver := trip.driver;
      if passenger == null {
        return Err(NilReceiver);
      }
      passenger.AddTrip(trip);
      if driver == null {
        return Err(NilReceiver);
      }
      var _ := driver.AddDrivenTrip(TripArg(trip));
      return Ok(trip);
    }

    /** load_trips over already-parsed rows: every row is linked in turn and collected,
        and the collected list is returned; the trip list itself is not touched. The
        first row that does not link aborts with its error, leaving the rows before it
        linked. */
    method LoadTrips(rows: seq<TripRow>) returns (r: Result<seq<Trip>>)
      requires Valid()
      modifies set d | d in drivers, set p | p in passengers
      ensures Valid()
      ensures r.Ok? <==> forall k :: 0 <= k < |rows| ==> RowLinks(drivers, passengers, rows[k])
      ensures r.Err? ==>
                exists k :: FirstFailing(drivers, passengers, rows, k) &&
                            r.error == RowError(drivers, passengers, rows[k])
      ensures r.Ok? ==> |r.value| == |rows| && Resolved(drivers, passengers, rows, r.value)
      ensures r.Ok? ==>
                forall e :: e in drivers ==>
                  e.status == old(e.status) && e.drivenTrips == old(e.drivenTrips) + DrivenBy(r.value, e)
      ensures r.Ok? ==>
                forall q :: q in passengers ==> q.trips == old(q.trips) + RiddenBy(r.value, q)
    {
      ghost var ds, ps := drivers, passengers;
      var loaded: seq<Trip> := [];
      var i := 0;
      while i < |rows|
        invariant 0 <= i <= |rows|
        invariant Valid()
        invariant |loaded| == i
        invariant drivers == ds && passengers == ps
        invariant Resolved(ds, ps, rows, loaded)
        invariant forall e :: e in ds ==> e.status == old(e.status)
        invariant forall e :: e in ds ==> e.drivenTrips == old(e.drivenTrips) + DrivenBy(loaded, e)
        invariant forall q :: q in ps ==> q.trips == old(q.trips) + RiddenBy(loaded, q)
      {
        label Before:
        var step := LoadTrip(rows[i]);
        if step.Err? {
          ResolvedLinks(ds, ps, rows, loaded);
          assert FirstFailing(ds, ps, rows, i) && step.error == RowError(ds, ps, rows[i]);
          return Err(step.error);
        }
        var t := step.value;
        ResolvedStep(ds, ps, rows, loaded, t);
        SharesAppend(loaded, t);
        forall e | e in ds
          ensures e.drivenTrips == old(e.drivenTrips) + DrivenBy(loaded + [t], e)
        {
          Rebase(e.drivenTrips, old@Before(e.drivenTrips), old(e.drivenTrips),
                 DrivenBy(loaded, e), if e == t.driver then [t] else []);
        }
        forall q | q in ps
          ensures q.trips == old(q.trips) + RiddenBy(loaded + [t], q)
        {
          Rebase(q.trips, old@Before(q.trips), old(q.trips),
                 RiddenBy(loaded, q), if q == t.passenger then [t] else []);
        }
        loaded := loaded + [t];
        i := i + 1;
      }
      ResolvedLinks(ds, ps, rows, loaded);
      return Ok(loaded);
    }

    /** The state change of request_trip once the driver and passenger are known: the
        driver becomes UNAVAILABLE and the trip is appended to the driver's driven trips,
        the passenger's trips and the trip list, in that order. */
    method Commit(driver: Driver, passenger: User, t: Trip)
      requires Valid()
      requires driver in drivers && passenger in passengers
      requires t.driver == driver && t.passenger == passenger
      modifies this`trips, driver, passenger
      ensures Valid()
      ensures driver.status == Unavailable
      ensures driver.drivenTrips == old(driver.drivenTrips) + [t]
      ensures passenger.trips == old(passenger.trips) + [t]
      ensures trips == old(trips) + [t]
    {
      driver.BecomesUnavailable();
      var _ := driver.AddDrivenTrip(TripArg(t));
      passenger.AddTrip(t);
      trips := trips + [t];
    }

    /** TripDispatcher#request_trip, with the clock reading passed in as `now`: builds an
        in-progress trip numbered one past the current trip count, marks the selected
        driver UNAVAILABLE, and appends the trip to that driver's driven trips, the
        passenger's trips and the trip list. On any error nothing changes. */
    method RequestTrip(userId: Option<int>, now: int) returns (r: Result<Trip>)
      requires Valid()
      modifies this`trips, set d | d in drivers, set p | p in passengers
      ensures Valid()
      ensures r.Err? <==> old(Assignment(drivers, passengers, userId)).Err?
      ensures r.Err? ==> r.error == old(Assignment(drivers, passengers, userId)).error
      ensures r.Err? ==> trips == old(trips) &&
                         unchanged(set d | d in drivers) && unchanged(set p | p in passengers)
      ensures r.Ok? ==>
                var driver := old(Assignment(drivers, passengers, userId)).value.0;
                var passenger := old(Assignment(drivers, passengers, userId)).value.1;
                && r.value == Trip(|old(trips)| + 1, driver, passenger, now, None, None, None)
                && driver in drivers && driver.id != userId.value && old(driver.status) == Available
                && passenger in passengers && passenger.id == userId.value
                && driver.status == Unavailable
                && driver.drivenTrips == old(driver.drivenTrips) + [r.value]
                && passenger.trips == old(passenger.trips) + [r.value]
                && trips == old(trips) + [r.value]
                && (forall e :: e in drivers && e != driver ==>
                      e.status == old(e.status) && e.drivenTrips == old(e.drivenTrips))
                && (forall q :: q in passengers && q != passenger ==> q.trips == old(q.trips))
    {
      var id := |trips| + 1;
      ghost var assignment := Assignment(drivers, passengers, userId);
      var found := FindPassenger(passengers, userId);
      if found.Err? {
        return Err(found.error);
      }
      var chosen := FirstAvailableDriver(drivers, passengers, userId);
      if chosen.Err? {
        return Err(chosen.error);
      }
      var driver := chosen.value;
      var passenger := found.value.value;
      assert assignment == Ok((driver, passenger));
      var built := NewTrip(id, driver, passenger, now, None, None, None);
      var requested := built.value;
      Commit(driver, passenger, requested);
      return Ok(requested);
    }
  }
}
