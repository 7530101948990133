/** Failure-carrying values for the exceptions the ride-share ledger raises. */
module Errors {

  datatype Option<+T> = None | Some(value: T)

  /** The exceptions the ledger's code raises, one variant per distinct cause. */
  datatype Error =
    | InvalidId            // ArgumentError: id is nil or not positive
    | NoDriversAvailable   // ArgumentError "NO DRIVERS AVAILABLE"
    | InvalidStatus        // ArgumentError: driver status is not one of the two symbols
    | InvalidVin           // ArgumentError: VIN is not exactly 17 characters
    | InvalidRating        // ArgumentError "Invalid rating"
    | EndBeforeStart       // ArgumentError "Start time cannot be greater than End time"
    | NotATrip             // ArgumentError: add_driven_trip given something other than a Trip
    | NilReceiver          // NoMethodError: a method called on nil
    | FailedComparison     // ArgumentError: `<=>` between a time and nil inside max_by/min_by
    | NilInSum             // TypeError: nil can't be coerced into Integer inside Array#sum

  datatype Result<+T> = Ok(value: T) | Err(error: Error)

  datatype Outcome = Pass | Fail(error: Error)
}
