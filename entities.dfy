/** The ledger's entities: Trip (an immutable record), User (a rider) and Driver.
    They live in one module because a Trip refers to its Driver and User and both
    of those hold sequences of Trips. */
module Entities {
  import opened Errors
  import Ratings

  datatype Status = Available | Unavailable

  /** A trip as stored by Trip#initialize. Times are integer timestamps; the cost is
      a Float in the ledger and is carried here without any arithmetic on it. */
  datatype Trip = Trip(
    id: int,
    driver: Driver?,
    passenger: User?,
    startTime: int,
    endTime: Option<int>,
    cost: Option<real>,
    rating: Option<int>)

  predicate RatingAccepted(rating: Option<int>) {
    rating.None? || 1 <= rating.value <= 5
  }

  predicate TimesAccepted(startTime: int, endTime: Option<int>) {
    endTime.None? || startTime <= endTime.value
  }

  /** What a successfully constructed Trip always satisfies. */
  predicate WellFormed(t: Trip) {
    RatingAccepted(t.rating) && TimesAccepted(t.startTime, t.endTime)
  }

  /** Trip#initialize: stores every field as given, then rejects an out-of-range
      rating and, after that, an end time earlier than the start time. The id, the
      driver and the passenger are not checked (nil is accepted for both). */
  function NewTrip(id: int, driver: Driver?, passenger: User?, startTime: int,
                   endTime: Option<int>, cost: Option<real>, rating: Option<int>): (r: Result<Trip>)
    ensures r.Ok? <==> RatingAccepted(rating) && TimesAccepted(startTime, endTime)
    ensures !RatingAccepted(rating) ==> r == Err(InvalidRating)
    ensures RatingAccepted(rating) && !TimesAccepted(startTime, endTime) ==> r == Err(EndBeforeStart)
    ensures r.Ok? ==> WellFormed(r.value)
    ensures r.Ok? ==> r.value.id == id && r.value.driver == driver && r.value.passenger == passenger
                      && r.value.startTime == startTime && r.value.endTime == endTime
                      && r.value.cost == cost && r.value.rating == rating
  {
    if rating.Some? && (rating.value > 5 || rating.value < 1) then Err(InvalidRating)
    else if endTime.Some? && endTime.value < startTime then Err(EndBeforeStart)
    else Ok(Trip(id, driver, passenger, startTime, endTime, cost, rating))
  }

  /** Construction accepts every well-formed record unchanged. */
  lemma NewTripRoundTrip(t: Trip)
    requires WellFormed(t)
    ensures NewTrip(t.id, t.driver, t.passenger, t.startTime, t.endTime, t.cost, t.rating) == Ok(t)
  {
  }

  /** Trip#duration, `end_time - start_time`; nil has no `-`. */
  function Duration(t: Trip): (r: Result<int>)
    ensures t.endTime.None? ==> r == Err(NilReceiver)
    ensures t.endTime.Some? ==> r.Ok? && t.startTime + r.value == t.endTime.value
    ensures WellFormed(t) && t.endTime.Some? ==> r.Ok? && r.value >= 0
  {
    match t.endTime
    case None => Err(NilReceiver)
    case Some(e) => Ok(e - t.startTime)
  }

  /** The ratings Driver#average_rating collects, one per driven trip, in order. */
  function RatingsOf(ts: seq<Trip>): (rs: seq<Option<int>>)
    ensures |rs| == |ts|
    ensures forall i :: 0 <= i < |ts| ==> rs[i] == ts[i].rating
  {
    seq(|ts|, i requires 0 <= i < |ts| => ts[i].rating)
  }

  /** A driver's average over trips that all carry a rating in [1, 5] lies in [1, 5]. */
  lemma AverageOfRatedTripsBetween(ts: seq<Trip>)
    requires |ts| > 0
    requires forall i :: 0 <= i < |ts| ==> ts[i].rating.Some? && WellFormed(ts[i])
    ensures Ratings.Average(RatingsOf(ts)).Ok?
    ensures 1 <= Ratings.Average(RatingsOf(ts)).value <= 5
  {
    Ratings.AverageBetween(RatingsOf(ts));
  }

  /** A rider. Its source file is not part of this model; only what the dispatcher
      relies on is kept: a fixed id and the append-only list of trips taken. */
  class User {
    const id: int
    const name: string
    var trips: seq<Trip>

    constructor (id: int, name: string)
      ensures this.id == id && this.name == name && trips == []
    {
      this.id := id;
      this.name := name;
      trips := [];
    }

    /** User#add_trip: appends the trip. */
    method AddTrip(t: Trip)
      modifies this`trips
      ensures trips == old(trips) + [t]
    {
      trips := trips + [t];
    }
  }

  /** What add_driven_trip may be handed: a Trip, or any other Ruby value. */
  datatype Argument = TripArg(trip: Trip) | OtherArg

  /** The id check Driver construction inherits from User: nil or non-positive fails. */
  predicate IdAccepted(id: Option<int>) {
    id.Some? && id.value > 0
  }

  /** The status a driver ends up with, if the given symbol (nil when absent) is acceptable. */
  function StatusOf(symbol: Option<string>): (r: Option<Status>)
    ensures r.Some? <==> symbol.None? || symbol.value == "AVAILABLE" || symbol.value == "UNAVAILABLE"
    ensures r == Some(Available) <==> symbol.None? || symbol.value == "AVAILABLE"
  {
    match symbol
    case None => Some(Available)
    case Some(s) =>
      if s == "AVAILABLE" then Some(Available)
      else if s == "UNAVAILABLE" then Some(Unavailable)
      else None
  }

  /** The validation Driver#initialize performs, in its order: the inherited id check,
      then the status (nil defaults to AVAILABLE), then the VIN length (a nil VIN has no
      `length`). Gives the status the driver is created with. */
  function CheckDriver(id: Option<int>, vin: Option<string>, status: Option<string>): (r: Result<Status>)
    ensures r.Ok? <==> IdAccepted(id) && StatusOf(status).Some? && vin.Some? && |vin.value| == 17
    ensures !IdAccepted(id) ==> r == Err(InvalidId)
    ensures IdAccepted(id) && StatusOf(status).None? ==> r == Err(InvalidStatus)
    ensures IdAccepted(id) && StatusOf(status).Some? && vin.None? ==> r == Err(NilReceiver)
    ensures IdAccepted(id) && StatusOf(status).Some? && vin.Some? && |vin.value| != 17 ==> r == Err(InvalidVin)
    ensures r.Ok? ==> StatusOf(status) == Some(r.value)
  {
    if !IdAccepted(id) then Err(InvalidId)
    else match StatusOf(status)
      case None => Err(InvalidStatus)
      case Some(st) =>
        match vin
        case None => Err(NilReceiver)
        case Some(v) => if |v| == 17 then Ok(st) else Err(InvalidVin)
  }

  class Driver {
    const id: int
    const name: string
    const vehicleId: string
    var status: Status
    var drivenTrips: seq<Trip>

    /** Every Driver has passed Driver.new's id and VIN checks; both fields are constant. */
    constructor (id: int, name: string, vehicleId: string, status: Status, drivenTrips: seq<Trip>)
      requires id > 0 && |vehicleId| == 17
      ensures this.id == id && this.name == name && this.vehicleId == vehicleId
      ensures this.status == status && this.drivenTrips == drivenTrips
    {
      this.id := id;
      this.name := name;
      this.vehicleId := vehicleId;
      this.status := status;
      this.drivenTrips := drivenTrips;
    }

    /** Driver.new(input): validates as CheckDriver says; on success the driver has
        the given id and VIN, the resolved status, and the given driven trips or an
        empty list when none were supplied. */
    static method New(id: Option<int>, name: string, vin: Option<string>, status: Option<string>,
                      drivenTrips: Option<seq<Trip>>) returns (r: Result<Driver>)
      ensures r.Err? <==> CheckDriver(id, vin, status).Err?
      ensures r.Err? ==> r.error == CheckDriver(id, vin, status).error
      ensures r.Ok? ==> fresh(r.value)
      ensures r.Ok? ==> r.value.id == id.value && r.value.name == name && r.value.vehicleId == vin.value
      ensures r.Ok? ==> r.value.status == CheckDriver(id, vin, status).value
      ensures r.Ok? ==> r.value.drivenTrips == (if drivenTrips.None? then [] else drivenTrips.value)
    {
      var checked := CheckDriver(id, vin, status);
      if checked.Err? {
        return Err(checked.error);
      }
      var trips := if drivenTrips.None? then [] else drivenTrips.value;
      var d := new Driver(id.value, name, vin.value, checked.value, trips);
      return Ok(d);
    }

    /** Driver#add_driven_trip: rejects anything but a Trip, otherwise appends it;
        the status is never touched. */
    method AddDrivenTrip(arg: Argument) returns (r: Outcome)
      modifies this`drivenTrips
      ensures arg.OtherArg? ==> r == Fail(NotATrip) && drivenTrips == old(drivenTrips)
      ensures arg.TripArg? ==> r == Pass && drivenTrips == old(drivenTrips) + [arg.trip]
    {
      if arg.OtherArg? {
        return Fail(NotATrip);
      }
      drivenTrips := drivenTrips + [arg.trip];
      return Pass;
    }

    /** Driver#becomes_unavailable (its source is not part of this model). */
    method BecomesUnavailable()
      modifies this`status
      ensures status == Unavailable
    {
      status := Unavailable;
    }

    /** Driver#average_rating: collects the rating of every driven trip with a loop,
        then averages them; 0 with no trips, an error if some rating is nil. */
    method AverageRating() returns (r: Result<int>)
      ensures r == Ratings.Average(RatingsOf(drivenTrips))
      ensures drivenTrips == [] ==> r == Ok(0)
    {
      var ratings: seq<Option<int>> := [];
      var i := 0;
      while i < |drivenTrips|
        invariant 0 <= i <= |drivenTrips|
        invariant ratings == RatingsOf(drivenTrips[..i])
      {
        ratings := ratings + [drivenTrips[i].rating];
        i := i + 1;
      }
      assert drivenTrips[..i] == drivenTrips;
      if |ratings| == 0 {
        r := Ok(0);
      } else {
        r := match Ratings.Sum(ratings)
          case Ok(s) => Ok(s / |ratings|)
          case Err(e) => Err(e);
      }
    }
  }
}
