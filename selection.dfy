/** The read-only half of RideShare::TripDispatcher: id checks, lookups, and the
    driver-selection policy. Every function here takes the dispatcher's driver and
    passenger lists as arguments and only reads the drivers' state. */
module Selection {
  import opened Errors
  import opened Entities

  /** TripDispatcher#check_id: nil or non-positive ids are rejected. */
  function CheckId(id: Option<int>): (r: Outcome)
    ensures r == Pass <==> IdAccepted(id)
    ensures r.Fail? ==> r.error == InvalidId
  {
    if id.None? || id.value <= 0 then Fail(InvalidId) else Pass
  }

  /** Enumerable#find by a property that does not depend on mutable state: the index
      of the first element that has it. */
  function FirstIndex<T>(s: seq<T>, p: T -> bool): (r: Option<nat>)
    ensures r.Some? ==> r.value < |s| && p(s[r.value])
    ensures r.Some? ==> forall j :: 0 <= j < r.value ==> !p(s[j])
    ensures r.None? ==> forall j :: 0 <= j < |s| ==> !p(s[j])
  {
    if s == [] then None
    else if p(s[0]) then Some(0)
    else match FirstIndex(s[1..], p)
      case None => None
      case Some(k) => Some(k + 1)
  }

  /** TripDispatcher#find_driver: the first driver with that id, nil when there is none. */
  function FindDriver(ds: seq<Driver>, id: Option<int>): (r: Result<Option<Driver>>)
    ensures r.Err? <==> !IdAccepted(id)
    ensures r.Err? ==> r.error == InvalidId
    ensures r.Ok? && r.value.Some? ==> r.value.value in ds && r.value.value.id == id.value
    ensures r.Ok? && r.value.Some? ==>
              exists k :: 0 <= k < |ds| && ds[k] == r.value.value && forall j :: 0 <= j < k ==> ds[j].id != id.value
    ensures r.Ok? && r.value.None? ==> forall d :: d in ds ==> d.id != id.value
  {
    if CheckId(id).Fail? then Err(InvalidId)
    else match FirstIndex(ds, (d: Driver) => d.id == id.value)
      case None => Ok(None)
      case Some(k) => Ok(Some(ds[k]))
  }

  /** TripDispatcher#find_passenger: the first user with that id, nil when there is none. */
  function FindPassenger(ps: seq<User>, id: Option<int>): (r: Result<Option<User>>)
    ensures r.Err? <==> !IdAccepted(id)
    ensures r.Err? ==> r.error == InvalidId
    ensures r.Ok? && r.value.Some? ==> r.value.value in ps && r.value.value.id == id.value
    ensures r.Ok? && r.value.Some? ==>
              exists k :: 0 <= k < |ps| && ps[k] == r.value.value && forall j :: 0 <= j < k ==> ps[j].id != id.value
    ensures r.Ok? && r.value.None? ==> forall p :: p in ps ==> p.id != id.value
  {
    if CheckId(id).Fail? then Err(InvalidId)
    else match FirstIndex(ps, (p: User) => p.id == id.value)
      case None => Ok(None)
      case Some(k) => Ok(Some(ps[k]))
  }

  /** TripDispatcher#generate_available_drivers: the AVAILABLE drivers, in list order
      (order is pinned down by AvailableDriversAppend). */
  function AvailableDrivers(ds: seq<Driver>): (r: seq<Driver>)
    reads set d | d in ds
    ensures forall d :: d in r ==> d in ds && d.status == Available
    ensures forall d :: d in ds && d.status == Available ==> d in r
    ensures |r| <= |ds|
  {
    if ds == [] then []
    else (if ds[0].status == Available then [ds[0]] else []) + AvailableDrivers(ds[1..])
  }

  /** Filtering distributes over concatenation: the relative order of the kept
      drivers is their order in the driver list. */
  lemma {:induction false} AvailableDriversAppend(a: seq<Driver>, b: seq<Driver>)
    ensures AvailableDrivers(a + b) == AvailableDrivers(a) + AvailableDrivers(b)
  {
    if a == [] {
      assert a + b == b;
    } else {
      assert (a + b)[0] == a[0];
      assert (a + b)[1..] == a[1..] + b;
      AvailableDriversAppend(a[1..], b);
    }
  }

  /** The filter that drops the driver whose id is the passenger's, order preserved
      (order is pinned down by WithoutIdAppend). */
  function WithoutId(ds: seq<Driver>, id: int): (r: seq<Driver>)
    ensures forall d :: d in r ==> d in ds && d.id != id
    ensures forall d :: d in ds && d.id != id ==> d in r
    ensures |r| <= |ds|
  {
    if ds == [] then []
    else (if ds[0].id != id then [ds[0]] else []) + WithoutId(ds[1..], id)
  }

  /** The id filter distributes over concatenation: the kept drivers stay in list order. */
  lemma {:induction false} WithoutIdAppend(a: seq<Driver>, b: seq<Driver>, id: int)
    ensures WithoutId(a + b, id) == WithoutId(a, id) + WithoutId(b, id)
  {
    if a == [] {
      assert a + b == b;
    } else {
      assert (a + b)[0] == a[0];
      assert (a + b)[1..] == a[1..] + b;
      WithoutIdAppend(a[1..], b, id);
    }
  }

  /** A driver the user may be matched with. */
  predicate Eligible(d: Driver, userId: int)
    reads d
  {
    d.status == Available && d.id != userId
  }

  /** TripDispatcher#check_drivers_not_passenger?: the available drivers other than the
      requesting user. The passenger lookup happens inside the filter block, so it only
      runs (and can only fail) when some driver is available. */
  function DriversNotPassenger(ds: seq<Driver>, ps: seq<User>, userId: Option<int>): (r: Result<seq<Driver>>)
    reads set d | d in ds
    ensures AvailableDrivers(ds) == [] ==> r == Err(NoDriversAvailable)
    ensures AvailableDrivers(ds) != [] && !IdAccepted(userId) ==> r == Err(InvalidId)
    ensures AvailableDrivers(ds) != [] && FindPassenger(ps, userId) == Ok(None) ==> r == Err(NilReceiver)
    ensures r.Ok? ==> FindPassenger(ps, userId).Ok? && FindPassenger(ps, userId).value.Some?
    ensures FindPassenger(ps, userId).Ok? && FindPassenger(ps, userId).value.Some? ==>
              (r.Ok? <==> exists d :: d in ds && Eligible(d, userId.value))
    ensures FindPassenger(ps, userId).Ok? && FindPassenger(ps, userId).value.Some? && r.Err? ==>
              r.error == NoDriversAvailable
    ensures r.Ok? ==> r.value != [] && forall d :: d in r.value ==> d in ds && Eligible(d, userId.value)
    ensures r.Ok? ==> forall d :: d in ds && Eligible(d, userId.value) ==> d in r.value
    ensures r.Ok? ==> r.value == WithoutId(AvailableDrivers(ds), userId.value)
  {
    var available := AvailableDrivers(ds);
    if available == [] then Err(NoDriversAvailable)
    else match FindPassenger(ps, userId)
      case Err(e) => Err(e)
      case Ok(None) => Err(NilReceiver)
      case Ok(Some(p)) =>
        var remaining := WithoutId(available, p.id);
        if remaining == [] then Err(NoDriversAvailable)
        else assert remaining[0] in remaining; Ok(remaining)
  }

  /** The `find { driver.driven_trips.empty? }` step: the first driver without trips,
      nil when every one has some. */
  function FirstWithoutTrips(el: seq<Driver>): (r: Driver?)
    reads set d | d in el
    ensures r != null ==> r in el && r.drivenTrips == []
    ensures r != null ==>
              exists k :: 0 <= k < |el| && el[k] == r && forall j :: 0 <= j < k ==> el[j].drivenTrips != []
    ensures r == null <==> forall d :: d in el ==> d.drivenTrips != []
  {
    if el == [] then null
    else if el[0].drivenTrips == [] then el[0]
    else FirstWithoutTrips(el[1..])
  }

  /** TripDispatcher#find_no_trips_driver. */
  function FindNoTripsDriver(ds: seq<Driver>, ps: seq<User>, userId: Option<int>): (r: Result<Driver?>)
    reads set d | d in ds
    ensures r.Err? <==> DriversNotPassenger(ds, ps, userId).Err?
    ensures r.Err? ==> r.error == DriversNotPassenger(ds, ps, userId).error
    ensures r.Ok? && r.value != null ==>
              r.value in ds && Eligible(r.value, userId.value) && r.value.drivenTrips == []
    ensures r.Ok? ==>
              (r.value == null <==> forall d :: d in ds && Eligible(d, userId.value) ==> d.drivenTrips != [])
    ensures r.Ok? ==> r.value == FirstWithoutTrips(DriversNotPassenger(ds, ps, userId).value)
  {
    match DriversNotPassenger(ds, ps, userId)
    case Err(e) => Err(e)
    case Ok(el) =>
      assert forall d :: d in el ==> d in ds;
      Ok(FirstWithoutTrips(el))
  }

  // ---------------------------------------------------------------------------
  // max_by / min_by over end times

  datatype Ordering = Less | Same | Greater

  /** Ruby's `<=>` on two end times as max_by/min_by use it: nil <=> nil is 0, and a
      time compared with nil (either way round) raises. */
  function CompareEnds(a: Option<int>, b: Option<int>): (r: Result<Ordering>)
    ensures r.Err? <==> a.Some? != b.Some?
    ensures r.Err? ==> r.error == FailedComparison
    ensures r == Ok(Greater) <==> a.Some? && b.Some? && a.value > b.value
    ensures r == Ok(Less) <==> a.Some? && b.Some? && a.value < b.value
  {
    match (a, b)
    case (None, None) => Ok(Same)
    case (Some(x), Some(y)) => Ok(if x < y then Less else if x == y then Same else Greater)
    case _ => Err(FailedComparison)
  }

  /** The scan Enumerable#max_by (wanted = Greater) and #min_by (wanted = Less) perform:
      each later element is compared with the running best and replaces it only when
      the comparison yields `wanted`, so ties keep the earlier element. */
  function Extreme(best: Trip, rest: seq<Trip>, wanted: Ordering): (r: Result<Trip>)
    ensures r.Ok? ==> r.value in [best] + rest
    ensures r.Err? ==> r.error == FailedComparison
    decreases |rest|
  {
    if rest == [] then Ok(best)
    else match CompareEnds(rest[0].endTime, best.endTime)
      case Err(e) => Err(e)
      case Ok(o) => Extreme(if o == wanted then rest[0] else best, rest[1..], wanted)
  }

  /** `trips.max_by(&:end_time)`: nil for an empty list. */
  function MaxByEnd(ts: seq<Trip>): (r: Result<Option<Trip>>)
    ensures ts == [] ==> r == Ok(None)
    ensures r.Ok? && ts != [] ==> r.value.Some? && r.value.value in ts
  {
    if ts == [] then Ok(None)
    else match Extreme(ts[0], ts[1..], Greater)
      case Ok(t) => Ok(Some(t))
      case Err(e) => Err(e)
  }

  /** `trips.min_by(&:end_time)`: nil for an empty list. */
  function MinByEnd(ts: seq<Trip>): (r: Result<Option<Trip>>)
    ensures ts == [] ==> r == Ok(None)
    ensures r.Ok? && ts != [] ==> r.value.Some? && r.value.value in ts
  {
    if ts == [] then Ok(None)
    else match Extreme(ts[0], ts[1..], Less)
      case Ok(t) => Ok(Some(t))
      case Err(e) => Err(e)
  }

  /** The `map { max_by(&:end_time) }` then `reject { nil }` steps of
      find_oldest_trip_driver: each driver's most recent trip, skipping trip-less drivers. */
  function MostRecentTrips(el: seq<Driver>): (r: Result<seq<Trip>>)
    reads set d | d in el
    ensures r.Err? ==> r.error == FailedComparison
  {
    if el == [] then Ok([])
    else match MaxByEnd(el[0].drivenTrips)
      case Err(e) => Err(e)
      case Ok(m) =>
        match MostRecentTrips(el[1..])
        case Err(e) => Err(e)
        case Ok(rest) => Ok(if m.Some? then [m.value] + rest else rest)
  }

  /** TripDispatcher#find_oldest_trip_driver: the driver of the trip whose end time is
      the smallest among the eligible drivers' most recent trips. With no such trip,
      `nil.driver` raises. */
  function FindOldestTripDriver(ds: seq<Driver>, ps: seq<User>, userId: Option<int>): (r: Result<Driver?>)
    reads set d | d in ds
    ensures DriversNotPassenger(ds, ps, userId).Err? ==> r == Err(DriversNotPassenger(ds, ps, userId).error)
  {
    match DriversNotPassenger(ds, ps, userId)
    case Err(e) => Err(e)
    case Ok(el) =>
      assert forall d :: d in el ==> d in ds;
      match MostRecentTrips(el)
      case Err(e) => Err(e)
      case Ok(recent) =>
        match MinByEnd(recent)
        case Err(e) => Err(e)
        case Ok(None) => Err(NilReceiver)
        case Ok(Some(t)) => Ok(t.driver)
  }

  /** TripDispatcher#first_available_driver: both searches run (the second one even when
      the first found a driver); the trip-less driver wins when there is one. */
  function FirstAvailableDriver(ds: seq<Driver>, ps: seq<User>, userId: Option<int>): (r: Result<Driver?>)
    reads set d | d in ds
    ensures r.Ok? ==> DriversNotPassenger(ds, ps, userId).Ok?
    ensures r.Ok? && FindNoTripsDriver(ds, ps, userId).value != null ==>
              r.value == FindNoTripsDriver(ds, ps, userId).value
    ensures r.Ok? && FindNoTripsDriver(ds, ps, userId).value == null ==>
              r == FindOldestTripDriver(ds, ps, userId)
  {
    match FindNoTripsDriver(ds, ps, userId)
    case Err(e) => Err(e)
    case Ok(noTrips) =>
      match FindOldestTripDriver(ds, ps, userId)
      case Err(e) => Err(e)
      case Ok(oldest) => Ok(if noTrips != null then noTrips else oldest)
  }
}
