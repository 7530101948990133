/** What the dispatcher's selection policy guarantees: the outcome of the max_by/min_by
    scans, the idle-longest choice, and that a user is never matched with themself. */
module SelectionFacts {
  import opened Errors
  import opened Entities
  import opened Selection

  // ---------------------------------------------------------------------------
  // State the dispatcher keeps consistent (see Dispatch.TripDispatcher.Valid)

  /** Each of the driver's trips names that driver: the loader and request_trip link
      every trip this way. */
  predicate DrivesOwnTrips(d: Driver)
    reads d
  {
    forall t :: t in d.drivenTrips ==> t.driver == d
  }

  predicate Linked(ds: seq<Driver>)
    reads set d | d in ds
  {
    forall d :: d in ds ==> DrivesOwnTrips(d)
  }

  predicate AllTimed(ts: seq<Trip>) {
    forall i :: 0 <= i < |ts| ==> ts[i].endTime.Some?
  }

  /** AVAILABLE drivers hold only trips that have ended: loaded trips always carry an
      end time, and a driver given an in-progress trip becomes UNAVAILABLE. */
  predicate CompletedWhileAvailable(ds: seq<Driver>)
    reads set d | d in ds
  {
    forall d :: d in ds && d.status == Available ==> AllTimed(d.drivenTrips)
  }

  // ---------------------------------------------------------------------------
  // The max_by / min_by scan

  /** Either every end time is present or every one is absent. */
  predicate Uniform(ts: seq<Trip>) {
    AllTimed(ts) || forall i :: 0 <= i < |ts| ==> ts[i].endTime.None?
  }

  /** The scan raises exactly when it meets both a present and an absent end time. */
  lemma {:induction false} ExtremeFailsOnMixedEnds(best: Trip, rest: seq<Trip>, wanted: Ordering)
    ensures Extreme(best, rest, wanted).Ok? <==> Uniform([best] + rest)
    decreases |rest|
  {
    var s := [best] + rest;
    if rest != [] {
      var c := rest[0];
      assert s[1] == c;
      if c.endTime.Some? == best.endTime.Some? {
        var o := CompareEnds(c.endTime, best.endTime).value;
        var next := if o == wanted then c else best;
        var s' := [next] + rest[1..];
        ExtremeFailsOnMixedEnds(next, rest[1..], wanted);
        assert forall i :: 1 <= i < |s'| ==> s'[i] == s[i + 1];
        if Uniform(s) {
          assert Uniform(s');
        }
        if Uniform(s') {
          assert s[0].endTime.Some? == s'[0].endTime.Some?;
          assert s[1].endTime.Some? == s'[0].endTime.Some?;
          assert forall i :: 2 <= i < |s| ==> s[i] == s'[i - 1];
          assert Uniform(s);
        }
      } else {
        assert !Uniform(s) by {
          assert s[0] == best;
        }
      }
    }
  }

  /** `x` strictly beats `y` for the scan looking for `wanted`. */
  predicate Beats(x: int, y: int, wanted: Ordering) {
    if wanted == Greater then x > y else x < y
  }

  /** s[k] is the extreme end time of s and no earlier element ties with it. */
  predicate FirstExtreme(s: seq<Trip>, k: nat, wanted: Ordering)
    requires AllTimed(s) && k < |s|
  {
    && (forall j :: 0 <= j < |s| ==> !Beats(s[j].endTime.value, s[k].endTime.value, wanted))
    && (forall j :: 0 <= j < k ==> Beats(s[k].endTime.value, s[j].endTime.value, wanted))
  }

  /** With every end time present, max_by (min_by) yields the first element with the
      greatest (smallest) end time. */
  lemma {:induction false} ExtremeIsFirstExtreme(best: Trip, rest: seq<Trip>, wanted: Ordering)
    returns (k: nat)
    requires wanted == Greater || wanted == Less
    requires AllTimed([best] + rest)
    ensures k < |[best] + rest|
    ensures Extreme(best, rest, wanted) == Ok(([best] + rest)[k])
    ensures FirstExtreme([best] + rest, k, wanted)
    decreases |rest|
  {
    var s := [best] + rest;
    if rest == [] {
      k := 0;
      return;
    }
    var c := rest[0];
    var tail := rest[1..];
    ExtremeStep(best, rest, wanted);
    if Beats(c.endTime.value, best.endTime.value, wanted) {
      var k' := ExtremeIsFirstExtreme(c, tail, wanted);
      assert [c] + tail == rest;
      FirstExtremeReplaced(best, rest, k', wanted);
      k := k' + 1;
      assert s[k] == rest[k'];
    } else {
      var k' := ExtremeIsFirstExtreme(best, tail, wanted);
      FirstExtremeKept(best, rest, k', wanted);
      k := if k' == 0 then 0 else k' + 1;
      assert s[k] == ([best] + tail)[k'];
    }
  }

  /** One step of the scan over timed trips: the second element replaces the first
      exactly when it strictly beats it, and both remaining lists stay timed. */
  lemma ExtremeStep(best: Trip, rest: seq<Trip>, wanted: Ordering)
    requires wanted == Greater || wanted == Less
    requires rest != [] && AllTimed([best] + rest)
    ensures best.endTime.Some? && rest[0].endTime.Some?
    ensures AllTimed([rest[0]] + rest[1..]) && AllTimed([best] + rest[1..])
    ensures Extreme(best, rest, wanted) ==
              Extreme(if Beats(rest[0].endTime.value, best.endTime.value, wanted) then rest[0] else best,
                      rest[1..], wanted)
  {
    var s := [best] + rest;
    assert s[0] == best && s[1] == rest[0];
    assert forall i :: 1 <= i < |rest| ==> rest[i] == s[i + 1];
  }

  /** When the second element beats the first, the first extreme of the tail is the
      first extreme of the whole list, one position further on. */
  lemma FirstExtremeReplaced(best: Trip, rest: seq<Trip>, k: nat, wanted: Ordering)
    requires wanted == Greater || wanted == Less
    requires rest != [] && AllTimed([best] + rest) && AllTimed(rest) && k < |rest|
    requires best.endTime.Some? && rest[0].endTime.Some?
    requires Beats(rest[0].endTime.value, best.endTime.value, wanted)
    requires FirstExtreme(rest, k, wanted)
    ensures FirstExtreme([best] + rest, k + 1, wanted)
  {
    var s := [best] + rest;
    var m := rest[k].endTime.value;
    assert s[k + 1] == rest[k];
    assert !Beats(rest[0].endTime.value, m, wanted);
    forall j | 0 <= j < |s|
      ensures !Beats(s[j].endTime.value, m, wanted) && (j < k + 1 ==> Beats(m, s[j].endTime.value, wanted))
    {
      if j > 0 {
        assert s[j] == rest[j - 1];
      }
    }
  }

  /** When the second element does not beat the first, dropping it changes nothing but
      the positions after it. */
  lemma FirstExtremeKept(best: Trip, rest: seq<Trip>, k: nat, wanted: Ordering)
    requires wanted == Greater || wanted == Less
    requires rest != [] && AllTimed([best] + rest) && AllTimed([best] + rest[1..]) && k < |rest|
    requires best.endTime.Some? && rest[0].endTime.Some?
    requires !Beats(rest[0].endTime.value, best.endTime.value, wanted)
    requires FirstExtreme([best] + rest[1..], k, wanted)
    ensures FirstExtreme([best] + rest, if k == 0 then 0 else k + 1, wanted)
  {
    var s := [best] + rest;
    var s' := [best] + rest[1..];
    var k2 := if k == 0 then 0 else k + 1;
    var m := s'[k].endTime.value;
    assert s[k2] == s'[k];
    assert s[0] == s'[0] && s[1] == rest[0];
    forall j | 0 <= j < |s|
      ensures !Beats(s[j].endTime.value, m, wanted) && (j < k2 ==> Beats(m, s[j].endTime.value, wanted))
    {
      if j >= 2 {
        assert s[j] == s'[j - 1];
      } else if j == 1 && k > 0 {
        assert Beats(m, best.endTime.value, wanted);
      }
    }
  }

  /** The latest end time among a driver's trips. */
  function Latest(ts: seq<Trip>): (m: int)
    requires ts != [] && AllTimed(ts)
    ensures forall i :: 0 <= i < |ts| ==> ts[i].endTime.value <= m
    ensures exists i :: 0 <= i < |ts| && ts[i].endTime.value == m
  {
    if |ts| == 1 then ts[0].endTime.value
    else
      var m := Latest(ts[1..]);
      assert forall i :: 1 <= i < |ts| ==> ts[i] == ts[1..][i - 1];
      if ts[0].endTime.value >= m then ts[0].endTime.value else m
  }

  /** `driven_trips.max_by(&:end_time)` over completed trips is a trip of the list
      ending at its latest end time. */
  lemma MaxByEndIsLatest(ts: seq<Trip>)
    requires ts != [] && AllTimed(ts)
    ensures MaxByEnd(ts).Ok? && MaxByEnd(ts).value.Some?
    ensures MaxByEnd(ts).value.value in ts
    ensures MaxByEnd(ts).value.value.endTime == Some(Latest(ts))
  {
    assert [ts[0]] + ts[1..] == ts;
    var k := ExtremeIsFirstExtreme(ts[0], ts[1..], Greater);
    var m := Latest(ts);
    var i :| 0 <= i < |ts| && ts[i].endTime.value == m;
    assert !Beats(ts[i].endTime.value, ts[k].endTime.value, Greater);
    assert ts[k].endTime.value <= m;
  }

  /** min_by over completed trips picks the first one with the earliest end time. */
  lemma MinByEndIsFirstEarliest(ts: seq<Trip>) returns (k: nat)
    requires ts != [] && AllTimed(ts)
    ensures k < |ts| && MinByEnd(ts) == Ok(Some(ts[k]))
    ensures forall j :: 0 <= j < |ts| ==> ts[k].endTime.value <= ts[j].endTime.value
    ensures forall j :: 0 <= j < k ==> ts[k].endTime.value < ts[j].endTime.value
  {
    assert [ts[0]] + ts[1..] == ts;
    k := ExtremeIsFirstExtreme(ts[0], ts[1..], Less);
  }

  // ---------------------------------------------------------------------------
  // find_oldest_trip_driver

  /** The drivers of `el` that have driven at least once, in order. */
  function WithTrips(el: seq<Driver>): (w: seq<Driver>)
    reads set d | d in el
    ensures forall d :: d in w ==> d in el && d.drivenTrips != []
    ensures forall d :: d in el && d.drivenTrips != [] ==> d in w
  {
    if el == [] then []
    else (if el[0].drivenTrips != [] then [el[0]] else []) + WithTrips(el[1..])
  }

  /** The trips find_oldest_trip_driver compares: one per driver with trips, in
      order, each that driver's trip with the latest end time. */
  lemma {:induction false} MostRecentTripsAreLatest(el: seq<Driver>)
    requires forall d :: d in el ==> AllTimed(d.drivenTrips)
    ensures MostRecentTrips(el).Ok?
    ensures |MostRecentTrips(el).value| == |WithTrips(el)|
    ensures forall k :: 0 <= k < |WithTrips(el)| ==>
              MostRecentTrips(el).value[k] in WithTrips(el)[k].drivenTrips &&
              MostRecentTrips(el).value[k].endTime == Some(Latest(WithTrips(el)[k].drivenTrips))
  {
    if el != [] {
      MostRecentTripsAreLatest(el[1..]);
      var rest := MostRecentTrips(el[1..]).value;
      var w' := WithTrips(el[1..]);
      if el[0].drivenTrips != [] {
        MaxByEndIsLatest(el[0].drivenTrips);
        var m := MaxByEnd(el[0].drivenTrips).value.value;
        assert MostRecentTrips(el).value == [m] + rest;
        assert WithTrips(el) == [el[0]] + w';
        PrependLatest(el[0], m, rest, w');
      } else {
        assert MostRecentTrips(el).value == rest;
        assert WithTrips(el) == w';
      }
    }
  }

  /** Putting a driver's latest trip in front of the latest trips of further drivers
      keeps the two lists in step. */
  lemma PrependLatest(d: Driver, m: Trip, rest: seq<Trip>, w: seq<Driver>)
    requires d.drivenTrips != [] && AllTimed(d.drivenTrips)
    requires m in d.drivenTrips && m.endTime == Some(Latest(d.drivenTrips))
    requires |rest| == |w|
    requires forall k :: 0 <= k < |w| ==>
               AllTimed(w[k].drivenTrips) && w[k].drivenTrips != [] &&
               rest[k] in w[k].drivenTrips && rest[k].endTime == Some(Latest(w[k].drivenTrips))
    ensures forall k :: 0 <= k < |[d] + w| ==>
              ([m] + rest)[k] in ([d] + w)[k].drivenTrips &&
              ([m] + rest)[k].endTime == Some(Latest(([d] + w)[k].drivenTrips))
  {
    forall k | 0 <= k < |[d] + w|
      ensures ([m] + rest)[k] in ([d] + w)[k].drivenTrips &&
              ([m] + rest)[k].endTime == Some(Latest(([d] + w)[k].drivenTrips))
    {
      if k > 0 {
        assert ([m] + rest)[k] == rest[k - 1] && ([d] + w)[k] == w[k - 1];
      }
    }
  }

  /** With no trips among the candidates there is nothing to compare. */
  lemma {:induction false} MostRecentTripsOfTripless(el: seq<Driver>)
    requires forall d :: d in el ==> d.drivenTrips == []
    ensures MostRecentTrips(el) == Ok([])
  {
    if el != [] {
      MostRecentTripsOfTripless(el[1..]);
    }
  }

  /** Among candidates that drive their own trips and have only completed trips, the
      min_by over their most recent trips lands on the k-th candidate with trips: the
      one whose latest end time is smallest, the first such in order. */
  lemma OldestAmong(el: seq<Driver>) returns (k: nat)
    requires forall d :: d in el ==> DrivesOwnTrips(d) && AllTimed(d.drivenTrips)
    requires WithTrips(el) != []
    ensures MostRecentTrips(el).Ok?
    ensures k < |WithTrips(el)|
    ensures forall j :: 0 <= j < |WithTrips(el)| ==> AllTimed(WithTrips(el)[j].drivenTrips)
    ensures MinByEnd(MostRecentTrips(el).value).Ok?
    ensures MinByEnd(MostRecentTrips(el).value).value.Some?
    ensures MinByEnd(MostRecentTrips(el).value).value.value.driver == WithTrips(el)[k]
    ensures forall j :: 0 <= j < |WithTrips(el)| ==>
              Latest(WithTrips(el)[k].drivenTrips) <= Latest(WithTrips(el)[j].drivenTrips)
    ensures forall j :: 0 <= j < k ==>
              Latest(WithTrips(el)[k].drivenTrips) < Latest(WithTrips(el)[j].drivenTrips)
  {
    MostRecentTripsAreLatest(el);
    var recent := MostRecentTrips(el).value;
    var w := WithTrips(el);
    assert AllTimed(recent);
    k := MinByEndIsFirstEarliest(recent);
    assert recent[k] in w[k].drivenTrips;
    assert w[k] in el;
  }

  /** A driver whose latest end time is minimal among the drivers with trips, indexed
      in WithTrips, is minimal among all drivers of the list that have trips. */
  lemma MinimalAmongAll(el: seq<Driver>, k: nat)
    requires forall d :: d in el ==> AllTimed(d.drivenTrips)
    requires k < |WithTrips(el)|
    requires forall j :: 0 <= j < |WithTrips(el)| ==>
               Latest(WithTrips(el)[k].drivenTrips) <= Latest(WithTrips(el)[j].drivenTrips)
    ensures forall e :: e in el && e.drivenTrips != [] ==>
              Latest(WithTrips(el)[k].drivenTrips) <= Latest(e.drivenTrips)
  {
    var w := WithTrips(el);
    forall e | e in el && e.drivenTrips != []
      ensures Latest(w[k].drivenTrips) <= Latest(e.drivenTrips)
    {
      assert e in w;
      var j :| 0 <= j < |w| && w[j] == e;
    }
  }

  /** find_oldest_trip_driver chooses the eligible driver who has been idle longest:
      one with trips whose latest end time is no later than any other eligible driver's. */
  lemma OldestTripDriverIsIdleLongest(ds: seq<Driver>, ps: seq<User>, userId: Option<int>)
    requires Linked(ds) && CompletedWhileAvailable(ds)
    requires DriversNotPassenger(ds, ps, userId).Ok?
    requires exists d :: d in ds && Eligible(d, userId.value) && d.drivenTrips != []
    ensures FindOldestTripDriver(ds, ps, userId).Ok?
    ensures FindOldestTripDriver(ds, ps, userId).value != null
    ensures FindOldestTripDriver(ds, ps, userId).value in ds
    ensures Eligible(FindOldestTripDriver(ds, ps, userId).value, userId.value)
    ensures FindOldestTripDriver(ds, ps, userId).value.drivenTrips != []
    ensures forall e :: e in ds && Eligible(e, userId.value) && e.drivenTrips != [] ==>
              AllTimed(e.drivenTrips) && AllTimed(FindOldestTripDriver(ds, ps, userId).value.drivenTrips) &&
              Latest(FindOldestTripDriver(ds, ps, userId).value.drivenTrips) <= Latest(e.drivenTrips)
  {
    var el := DriversNotPassenger(ds, ps, userId).value;
    var uid := userId.value;
    var w := WithTrips(el);
    var e0 :| e0 in ds && Eligible(e0, uid) && e0.drivenTrips != [];
    assert e0 in w;
    var k := OldestAmong(el);
    MinimalAmongAll(el, k);
    var d := w[k];
    assert FindOldestTripDriver(ds, ps, userId) == Ok(d);
    forall e | e in ds && Eligible(e, uid) && e.drivenTrips != []
      ensures Latest(d.drivenTrips) <= Latest(e.drivenTrips)
    {
      assert e in el;
    }
  }

  /** Ties are broken by list order: every eligible driver with trips listed before the
      chosen one finished its latest trip strictly later. */
  lemma OldestTripDriverIsFirstAmongTies(ds: seq<Driver>, ps: seq<User>, userId: Option<int>) returns (k: nat)
    requires Linked(ds) && CompletedWhileAvailable(ds)
    requires DriversNotPassenger(ds, ps, userId).Ok?
    requires exists d :: d in ds && Eligible(d, userId.value) && d.drivenTrips != []
    ensures FindOldestTripDriver(ds, ps, userId).Ok?
    ensures k < |WithTrips(DriversNotPassenger(ds, ps, userId).value)|
    ensures WithTrips(DriversNotPassenger(ds, ps, userId).value)[k] == FindOldestTripDriver(ds, ps, userId).value
    ensures forall j :: 0 <= j < k ==>
              var w := WithTrips(DriversNotPassenger(ds, ps, userId).value);
              AllTimed(w[j].drivenTrips) && AllTimed(w[k].drivenTrips) &&
              Latest(w[k].drivenTrips) < Latest(w[j].drivenTrips)
  {
    var el := DriversNotPassenger(ds, ps, userId).value;
    var w := WithTrips(el);
    var e0 :| e0 in ds && Eligible(e0, userId.value) && e0.drivenTrips != [];
    assert e0 in w;
    k := OldestAmong(el);
    assert FindOldestTripDriver(ds, ps, userId) == Ok(w[k]);
  }

  /** The quirk of first_available_driver: find_oldest_trip_driver always runs, and
      when no eligible driver has a trip it dereferences nil. */
  lemma OldestTripDriverOfTriplessFails(ds: seq<Driver>, ps: seq<User>, userId: Option<int>)
    requires DriversNotPassenger(ds, ps, userId).Ok?
    requires forall d :: d in ds && Eligible(d, userId.value) ==> d.drivenTrips == []
    ensures FindOldestTripDriver(ds, ps, userId) == Err(NilReceiver)
  {
    MostRecentTripsOfTripless(DriversNotPassenger(ds, ps, userId).value);
  }

  // ---------------------------------------------------------------------------
  // first_available_driver

  /** The whole selection policy over a consistent driver list:
      - it succeeds exactly when the requesting user exists and some eligible driver
        has driven before (so all-new eligible drivers make it fail, see above);
      - the chosen driver is an eligible member of the list, never the user themself;
      - a trip-less eligible driver, the first in list order, is preferred;
      - otherwise the eligible driver idle longest is chosen. */
  lemma FirstAvailableDriverChoice(ds: seq<Driver>, ps: seq<User>, userId: Option<int>)
    requires Linked(ds) && CompletedWhileAvailable(ds)
    ensures DriversNotPassenger(ds, ps, userId).Err? ==>
              FirstAvailableDriver(ds, ps, userId) == Err(DriversNotPassenger(ds, ps, userId).error)
    ensures FirstAvailableDriver(ds, ps, userId).Ok? <==>
              DriversNotPassenger(ds, ps, userId).Ok? &&
              exists d :: d in ds && Eligible(d, userId.value) && d.drivenTrips != []
    ensures DriversNotPassenger(ds, ps, userId).Ok? &&
            (forall d :: d in ds && Eligible(d, userId.value) ==> d.drivenTrips == []) ==>
              FirstAvailableDriver(ds, ps, userId) == Err(NilReceiver)
    ensures FirstAvailableDriver(ds, ps, userId).Ok? ==>
              var d := FirstAvailableDriver(ds, ps, userId).value;
              d != null && d in ds && Eligible(d, userId.value)
    ensures FirstAvailableDriver(ds, ps, userId).Ok? &&
            (exists e :: e in ds && Eligible(e, userId.value) && e.drivenTrips == []) ==>
              FirstAvailableDriver(ds, ps, userId).value ==
                FirstWithoutTrips(DriversNotPassenger(ds, ps, userId).value)
    ensures FirstAvailableDriver(ds, ps, userId).Ok? &&
            (forall e :: e in ds && Eligible(e, userId.value) ==> e.drivenTrips != []) ==>
              FirstAvailableDriver(ds, ps, userId) == FindOldestTripDriver(ds, ps, userId)
  {
    var dnp := DriversNotPassenger(ds, ps, userId);
    if dnp.Ok? {
      if exists d :: d in ds && Eligible(d, userId.value) && d.drivenTrips != [] {
        OldestTripDriverIsIdleLongest(ds, ps, userId);
      } else {
        OldestTripDriverOfTriplessFails(ds, ps, userId);
      }
    }
  }

  /** request_trip never pairs a user with themself (and never with an unavailable driver). */
  lemma NeverMatchedWithSelf(ds: seq<Driver>, ps: seq<User>, userId: Option<int>)
    requires Linked(ds) && CompletedWhileAvailable(ds)
    requires FirstAvailableDriver(ds, ps, userId).Ok?
    ensures userId.Some?
    ensures FirstAvailableDriver(ds, ps, userId).value != null
    ensures FirstAvailableDriver(ds, ps, userId).value.id != userId.value
    ensures FirstAvailableDriver(ds, ps, userId).value.status == Available
  {
    FirstAvailableDriverChoice(ds, ps, userId);
  }
}
