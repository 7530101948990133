# Ride-share trip ledger: a Dafny model of the dispatcher core

This project models the core of the `RideShare` ledger: an in-memory registry of riders
(`User`), `Driver`s and `Trip`s, and the `TripDispatcher` that links loaded trips to their
riders and drivers and assigns a driver to a new trip request.

Modules:

- `Errors`: `Option`, `Result`, `Outcome`, and one `Error` variant for each exception the
  Ruby code raises (ArgumentError messages, NoMethodError on nil, comparison of a time with
  nil, TypeError in `Array#sum`).
- `Ratings`: `Array#sum` over the collected ratings and the integer average that
  `Driver#average_rating` computes.
- `Entities`: the `Trip` record with its constructor validation and `duration`, and the
  `User` and `Driver` classes. Their mutable fields (`trips`, `driven_trips`, `status`)
  are updated in place by their methods.
- `Selection`: the read-only half of the dispatcher, as functions of the driver and
  passenger lists. It covers `check_id`, `find_driver`, `find_passenger`,
  `generate_available_drivers`, `check_drivers_not_passenger?`, `find_no_trips_driver`,
  `find_oldest_trip_driver` (with Ruby's `max_by`/`min_by` and `<=>` on end times) and
  `first_available_driver`.
- `SelectionFacts`: what the selection policy guarantees.
  - `max_by`/`min_by` pick the first extreme element.
  - They fail exactly on a list that mixes present and absent end times.
  - The chosen driver is eligible: AVAILABLE and not the requesting user.
  - A trip-less driver is preferred. Otherwise the driver idle longest is chosen, with
    ties broken by list order.
- `Dispatch`: the `TripDispatcher` class.
  - `Valid()` is its invariant: every trip held by a driver or rider points back to them,
    and AVAILABLE drivers hold only finished trips.
  - It has the per-row step of `load_trips`, the loading loop over parsed rows (which
    returns the loaded list), `initialize` as `Create` (which stores that list), and
    `request_trip`.
  - After construction every driver and rider holds exactly the loaded trips that name
    them, in order.
  - `request_trip` is proved to keep `Valid()` and to change exactly the chosen driver,
    the rider and the trip list.

Times are integers and the clock is an argument (`now`). Cost is carried as a `real`
that is never computed on.

Two behaviours of the code differ from what the dispatcher is meant to do. The model
follows the code:

- `first_available_driver` (lib/trip_dispatcher.rb:126-131) always calls
  `find_oldest_trip_driver`. When every eligible driver has no trips yet, that call
  evaluates `nil.driver`. So the request fails with `NilReceiver` instead of picking the
  first trip-less driver. `SelectionFacts.OldestTripDriverOfTriplessFails` and
  `SelectionFacts.FirstAvailableDriverChoice` state this.
- `check_drivers_not_passenger?` (lib/trip_dispatcher.rb:96-106) looks the passenger up
  only inside the filter block. With no AVAILABLE driver it therefore reports "NO DRIVERS
  AVAILABLE" even for an invalid or unknown user id. `Selection.DriversNotPassenger`
  states the resulting order of errors.

## Model

| member | source | states |
|---|---|---|
| Ratings.Sum | lib/driver.rb:32 | the sum exists exactly when no collected rating is nil; otherwise it is the TypeError of `Array#sum` |
| Ratings.Average | lib/driver.rb:32 | no ratings give 0; otherwise it succeeds exactly when no rating is nil, and the result is the floor of sum / count (q·n ≤ sum < (q+1)·n) |
| Ratings.SumBetween | lib/driver.rb:32 | n ratings each in [lo, hi] sum to a value in [n·lo, n·hi] |
| Ratings.AverageBetween | lib/driver.rb:26-33 | a non-empty list of ratings in [1, 5] averages to a value in [1, 5] |
| Ratings.SumConstant | lib/driver.rb:32 | n equal ratings k sum to n·k |
| Ratings.AverageConstant | lib/driver.rb:32 | n ≥ 1 equal ratings k average to exactly k |
| Entities.NewTrip | lib/trip.rb:7-19 | construction succeeds iff the rating is nil or in 1..5 and the end time is nil or not before the start; a bad rating is reported before bad times; a built trip stores every field unchanged and is well formed |
| Entities.NewTripRoundTrip | lib/trip.rb:7-19 | every well-formed trip is accepted by construction and rebuilt identically |
| Entities.Duration | lib/trip.rb:27-29 | no end time raises on nil; otherwise start + duration = end, and a constructed trip has a non-negative duration |
| Entities.RatingsOf | lib/driver.rb:27-30 | one collected rating per driven trip, position by position |
| Entities.AverageOfRatedTripsBetween | lib/driver.rb:26-33 | a driver with at least one trip, whose trips are all constructed and rated, averages between 1 and 5 |
| Entities.User.constructor | lib/trip_dispatcher.rb:48 | a new rider has the given id and name and no trips |
| Entities.User.AddTrip | lib/trip_dispatcher.rb:73 | the rider's trip list is the old list with the trip appended |
| Entities.StatusOf | lib/driver.rb:13-15 | a nil status defaults to AVAILABLE; only the two status symbols are accepted |
| Entities.CheckDriver | lib/driver.rb:8-19 | driver validation succeeds iff the id is positive, the status is acceptable and the VIN has 17 characters; the failure reported follows the code's order (id, status, nil VIN, VIN length) |
| Entities.Driver.constructor | lib/driver.rb:10-13 | a driver stores its id, name, VIN, status and driven trips as given; only a positive id and a 17-character VIN can be given, so every Driver satisfies Driver.new's checks |
| Entities.Driver.New | lib/driver.rb:8-19 | `Driver.new` fails exactly when CheckDriver fails, with its error; on success the fresh driver has the resolved status and the given trips, or none when nil was given |
| Entities.Driver.AddDrivenTrip | lib/driver.rb:21-24 | a non-Trip argument is rejected and nothing changes; a Trip is appended to the driven trips |
| Entities.Driver.BecomesUnavailable | lib/trip_dispatcher.rb:146 | the driver's status is UNAVAILABLE afterwards |
| Entities.Driver.AverageRating | lib/driver.rb:26-33 | the loop's result equals the average of the ratings of all driven trips; a driver with no trips rates 0 |
| Selection.CheckId | lib/trip_dispatcher.rb:162-164 | an id passes iff it is present and positive |
| Selection.FirstIndex | lib/trip_dispatcher.rb:82 | `find` gives the index of the first element that matches, and no index only when none matches |
| Selection.FindDriver | lib/trip_dispatcher.rb:80-83 | an invalid id raises; a found driver has the id and is the first such in the list; nil means no driver has the id |
| Selection.FindPassenger | lib/trip_dispatcher.rb:85-88 | an invalid id raises; a found rider has the id and is the first such in the list; nil means no rider has the id |
| Selection.AvailableDrivers | lib/trip_dispatcher.rb:90-94 | the result holds exactly the AVAILABLE drivers of the list |
| Selection.AvailableDriversAppend | lib/trip_dispatcher.rb:90-94 | the filter distributes over concatenation, so it keeps list order |
| Selection.WithoutId | lib/trip_dispatcher.rb:99-101 | the result holds exactly the drivers whose id differs from the rider's |
| Selection.WithoutIdAppend | lib/trip_dispatcher.rb:99-101 | the id filter distributes over concatenation, so it keeps list order |
| Selection.DriversNotPassenger | lib/trip_dispatcher.rb:96-106 | with no AVAILABLE driver it reports NO DRIVERS AVAILABLE; otherwise a bad id, then an unknown rider, raise; for a known rider it succeeds iff some driver is eligible, and the result is exactly the eligible drivers, in order |
| Selection.FirstWithoutTrips | lib/trip_dispatcher.rb:110 | the first driver in order with no driven trips, nil iff every driver has trips |
| Selection.FindNoTripsDriver | lib/trip_dispatcher.rb:108-111 | errors of the eligibility check propagate; the result is the first trip-less driver among the eligible ones, in order: an eligible driver with no trips, nil iff every eligible driver has trips |
| Selection.CompareEnds | lib/trip_dispatcher.rb:116-122 | `<=>` on end times fails iff exactly one side is nil, and orders two times numerically |
| Selection.Extreme | lib/trip_dispatcher.rb:116-122 | the scan's result is an element of the scanned list; its only failure is a failed comparison |
| Selection.MaxByEnd | lib/trip_dispatcher.rb:117 | an empty list gives nil; a result is a trip of the list |
| Selection.MinByEnd | lib/trip_dispatcher.rb:122 | an empty list gives nil; a result is a trip of the list |
| Selection.MostRecentTrips | lib/trip_dispatcher.rb:116-120 | its only failure is a failed comparison |
| Selection.FindOldestTripDriver | lib/trip_dispatcher.rb:113-124 | errors of the eligibility check propagate unchanged |
| Selection.FirstAvailableDriver | lib/trip_dispatcher.rb:126-131 | success requires the eligibility check to succeed; a trip-less eligible driver wins, otherwise the result is find_oldest_trip_driver's |
| SelectionFacts.ExtremeFailsOnMixedEnds | lib/trip_dispatcher.rb:116-122 | max_by/min_by over end times succeed iff all end times are present or all are absent |
| SelectionFacts.ExtremeIsFirstExtreme | lib/trip_dispatcher.rb:116-122 | with all end times present, max_by (min_by) returns the element whose end time no other element beats, and no earlier element ties with it |
| SelectionFacts.Latest | lib/trip_dispatcher.rb:117 | the latest end time of a non-empty list of finished trips: an upper bound attained by some trip |
| SelectionFacts.MaxByEndIsLatest | lib/trip_dispatcher.rb:117 | a driver's most recent trip is one of its trips and ends at its latest end time |
| SelectionFacts.MinByEndIsFirstEarliest | lib/trip_dispatcher.rb:122 | min_by returns the first trip with the smallest end time |
| SelectionFacts.WithTrips | lib/trip_dispatcher.rb:116-120 | exactly the drivers of the list that have driven, matching the non-nil most recent trips |
| SelectionFacts.MostRecentTripsAreLatest | lib/trip_dispatcher.rb:116-120 | after rejecting nils there is one trip per driver with trips, in order, each that driver's latest |
| SelectionFacts.MostRecentTripsOfTripless | lib/trip_dispatcher.rb:116-120 | drivers without trips contribute nothing to compare |
| SelectionFacts.OldestAmong | lib/trip_dispatcher.rb:116-123 | the min_by lands on the driver with trips whose latest end time is smallest, the first such in order |
| SelectionFacts.MinimalAmongAll | lib/trip_dispatcher.rb:116-123 | a driver minimal among the drivers with trips is minimal among every driver of the list that has trips |
| SelectionFacts.OldestTripDriverIsIdleLongest | lib/trip_dispatcher.rb:113-124 | when some eligible driver has trips, the result is an eligible driver with trips whose latest trip ended no later than any other eligible driver's |
| SelectionFacts.OldestTripDriverIsFirstAmongTies | lib/trip_dispatcher.rb:113-124 | every eligible driver with trips listed before the chosen one finished its latest trip strictly later |
| SelectionFacts.OldestTripDriverOfTriplessFails | lib/trip_dispatcher.rb:120-123 | when no eligible driver has a trip, `nil.driver` raises |
| SelectionFacts.FirstAvailableDriverChoice | lib/trip_dispatcher.rb:126-131 | over a consistent registry: errors propagate; success iff the rider exists and some eligible driver has driven; if none has, it fails on nil; the choice is eligible, it is the first trip-less eligible driver when one exists, and otherwise the driver idle longest |
| SelectionFacts.NeverMatchedWithSelf | lib/trip_dispatcher.rb:126-131 | a successful selection is a non-nil AVAILABLE driver whose id differs from the rider's |
| Dispatch.RowTrip | lib/trip_dispatcher.rb:59-72 | a row builds a trip iff both ids are positive, the rating is in 1..5 and the end is not before the start; the trip carries the row's fields, and its driver and rider are exactly what find_driver and find_passenger return for the row's ids: the first with that id, or nil when there is none |
| Dispatch.DrivenBy | lib/trip_dispatcher.rb:74 | the loaded trips a driver is linked to: exactly the trips naming that driver, in load order |
| Dispatch.RiddenBy | lib/trip_dispatcher.rb:73 | the loaded trips a rider is linked to: exactly the trips naming that rider, in load order |
| Dispatch.SharesAppend | lib/trip_dispatcher.rb:73-75 | linking one more trip extends exactly its driver's and its rider's share by that trip |
| Dispatch.LoadedTripsLinked | lib/trip_dispatcher.rb:58-76 | when every driver and rider holds exactly its share of the loaded trips, each loaded trip is in its driver's driven trips and its rider's trips |
| Dispatch.Assignment | lib/trip_dispatcher.rb:133-146 | a bad id, or a failure of the eligibility check (NO DRIVERS AVAILABLE when no driver is AVAILABLE or the only AVAILABLE one is the rider), is the error raised; over a consistent registry, the pair (driver, rider) exists iff the rider exists and some eligible driver has driven; the driver is eligible and equals first_available_driver's choice |
| Dispatch.NoDriverForRequest | lib/trip_dispatcher.rb:96-103 | for an accepted id with no eligible driver, the assignment fails with NO DRIVERS AVAILABLE whenever every driver is UNAVAILABLE, or the rider exists and the only AVAILABLE drivers are that rider |
| Dispatch.TripDispatcher.constructor | lib/trip_dispatcher.rb:16-17 | a registry of riders and drivers that have no trips yet satisfies the invariant, and its trip list is empty |
| Dispatch.TripDispatcher.Create | lib/trip_dispatcher.rb:11-19 | construction succeeds iff every row links (it builds and names an existing driver and rider), and otherwise fails with the error of the first row that does not link; on success the trip list is the loaded list, one trip per row, and every driver's and rider's trips are exactly its share of them, so each trip is in its driver's and its rider's lists; statuses are unchanged and the invariant holds |
| Dispatch.TripDispatcher.LoadTrip | lib/trip_dispatcher.rb:59-75 | keeps the invariant; it succeeds iff the row builds and names an existing driver and rider, and otherwise raises the row's own error or the nil receiver's; a row that does not build, or has no rider, changes nothing; with no driver only the rider is linked; on success the trip is appended to exactly its driver's and its rider's lists, and statuses are unchanged |
| Dispatch.TripDispatcher.Install | lib/trip_dispatcher.rb:18 | the trip list becomes the loaded list, and each of its trips is in its driver's driven trips and its rider's trips |
| Dispatch.TripDispatcher.LoadTrips | lib/trip_dispatcher.rb:53-78 | keeps the invariant and leaves the trip list alone; it succeeds iff every row links, and otherwise fails with the error of the first row that does not link; on success it returns one trip per row, each the trip its row builds, with both a driver and a rider; each driver's driven trips and each rider's trips grew by exactly the returned trips that name them, in order, and statuses are unchanged |
| Dispatch.TripDispatcher.Commit | lib/trip_dispatcher.rb:146-149 | keeps the invariant; the driver becomes UNAVAILABLE and the trip is appended to the driver's, the rider's and the global lists |
| Dispatch.TripDispatcher.RequestTrip | lib/trip_dispatcher.rb:133-151 | fails exactly when the assignment fails, with its error, and then changes nothing; otherwise the new trip is numbered one past the trip count, starts now and is in progress; the driver was AVAILABLE and is not the rider and is now UNAVAILABLE; the trip is appended to the three lists; no other driver or rider changes; the invariant is kept |

## Left out

- Reading the CSV files (`CSV.read`/`CSV.open`, `to_i`, `to_f`, `to_sym`, `Time.parse`) is left out: `load_trips` takes rows that are already typed (`TripRow`).
- `load_users` and `load_drivers` are left out, because they are file parsing plus `User.new`/`Driver.new`. The dispatcher's constructor takes the two lists directly.
- `Time.now` is the parameter `now`. Times are integers. `duration` is an integer difference, not a Float number of seconds.
- Cost is a Float that no core operation computes on. It is carried as a `real`. `total_revenue` and `net_expenditures` are not part of this model.
- The `.to_f` at the end of `average_rating` is left out. The integer average is exact in Float.
- The `inspect` methods of `Trip` and `TripDispatcher` are left out, because they only format strings.
- lib/user.rb is not part of this model. `User` keeps only an id, a name, the trip list and `add_trip`.
  - The phone number is left out.
  - The id check that `Driver.new` inherits is taken to reject nil and non-positive ids.
  - A `Driver` is not a `User` here: its inherited `trips` and `add_trip` are not modelled.
  - `becomes_available` is not modelled.
- Trips are values. Ruby compares Trip objects by identity, so two distinct trips with identical fields are indistinguishable in membership statements here.
- `Trip.new` accepts any Ruby value for the rating and the times. The model takes an optional integer rating, an integer start time and an optional integer end time, so a nil start time compared with an end time is not modelled.
- `add_driven_trip`'s `is_a? Trip` test is modelled by the `Argument` datatype: a Trip or any other value.
- Exception messages are not modelled, only which exception is raised.
- Dispatch.TripDispatcher.LoadTrips: when a row fails, the rows before it stay linked to their drivers and riders. The contract states which row failed and its error, and that the invariant holds, but not those leftover links. `LoadTrip` states the exact change for each row. The same holds for `Create`, which hands the drivers and riders back to its caller.
- `Driver.new` stores the caller's own `driven_trips` array, so later appends are visible through the caller's array. `Driver.New` copies a sequence, so that aliasing is not modelled. Nothing in the dispatcher relies on it.
- The driver status is taken as the name of the symbol (`"AVAILABLE"`, `"UNAVAILABLE"`). Ruby accepts only the Symbols `:AVAILABLE` and `:UNAVAILABLE` and rejects the Strings with those names. That difference is not modelled.
- Selection.FindOldestTripDriver: its own contract only propagates errors. What it returns is stated by `SelectionFacts.OldestTripDriverIsIdleLongest`, `SelectionFacts.OldestTripDriverIsFirstAmongTies` and `SelectionFacts.OldestTripDriverOfTriplessFails`.
