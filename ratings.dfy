/** Arithmetic behind Driver#average_rating: Ruby's Array#sum over the collected
    ratings, then integer (floor) division by their count. */
module Ratings {
  import opened Errors

  /** Array#sum over the ratings: 0 for an empty list, and a TypeError as soon as a
      rating is nil. */
  function Sum(rs: seq<Option<int>>): (r: Result<int>)
    ensures r.Ok? <==> forall i :: 0 <= i < |rs| ==> rs[i].Some?
    ensures r.Err? ==> r.error == NilInSum
  {
    if rs == [] then Ok(0)
    else match rs[0]
      case None => Err(NilInSum)
      case Some(x) =>
        match Sum(rs[1..])
        case Ok(s) => Ok(x + s)
        case Err(e) => Err(e)
  }

  /** The average rating: 0 when there are no ratings, otherwise their sum divided by
      their count, rounded down, then converted to a Float. Ruby's Integer#/ floors; for the positive count used here that is Dafny's `/`.
      The `.to_f` conversion is exact for these values and is not modelled. */
  function Average(rs: seq<Option<int>>): (r: Result<int>)
    ensures |rs| == 0 ==> r == Ok(0)
    ensures |rs| > 0 ==> (r.Ok? <==> forall i :: 0 <= i < |rs| ==> rs[i].Some?)
    ensures |rs| > 0 && r.Ok? ==>
              Sum(rs).Ok? && r.value * |rs| <= Sum(rs).value < (r.value + 1) * |rs|
  {
    if |rs| == 0 then Ok(0)
    else match Sum(rs)
      case Ok(s) => Ok(s / |rs|)
      case Err(e) => Err(e)
  }

  predicate AllBetween(rs: seq<Option<int>>, lo: int, hi: int) {
    forall i :: 0 <= i < |rs| ==> rs[i].Some? && lo <= rs[i].value <= hi
  }

  /** A sum of n ratings each in [lo, hi] lies in [n * lo, n * hi]. */
  lemma {:induction false} SumBetween(rs: seq<Option<int>>, lo: int, hi: int)
    requires AllBetween(rs, lo, hi)
    ensures Sum(rs).Ok?
    ensures |rs| * lo <= Sum(rs).value <= |rs| * hi
  {
    if rs != [] {
      assert AllBetween(rs[1..], lo, hi) by {
        forall i | 0 <= i < |rs[1..]| ensures rs[1..][i] == rs[i + 1] { }
      }
      SumBetween(rs[1..], lo, hi);
    }
  }

  /** If q * n <= s < (q + 1) * n and n * lo <= s <= n * hi, then lo <= q <= hi. */
  lemma QuotientBetween(s: int, n: int, q: int, lo: int, hi: int)
    requires n > 0
    requires q * n <= s < (q + 1) * n
    requires n * lo <= s <= n * hi
    ensures lo <= q <= hi
  {
    if q < lo {
      assert (q + 1) * n <= lo * n by {
        assert q + 1 <= lo;
        MulMonotone(q + 1, lo, n);
      }
    }
    if q > hi {
      assert hi * n < q * n by {
        assert hi + 1 <= q;
        MulMonotone(hi + 1, q, n);
      }
    }
  }

  lemma MulMonotone(a: int, b: int, n: nat)
    requires a <= b
    ensures a * n <= b * n
  {
    assert b * n - a * n == (b - a) * n;
  }

  /** A driver with at least one trip, every rating in [1, 5], averages in [1, 5]. */
  lemma AverageBetween(rs: seq<Option<int>>)
    requires |rs| > 0
    requires AllBetween(rs, 1, 5)
    ensures Average(rs).Ok?
    ensures 1 <= Average(rs).value <= 5
  {
    SumBetween(rs, 1, 5);
    QuotientBetween(Sum(rs).value, |rs|, Average(rs).value, 1, 5);
  }

  /** n equal ratings k sum to n * k. */
  lemma {:induction false} SumConstant(rs: seq<Option<int>>, k: int)
    requires forall i :: 0 <= i < |rs| ==> rs[i] == Some(k)
    ensures Sum(rs) == Ok(|rs| * k)
  {
    if rs != [] {
      assert forall i :: 0 <= i < |rs[1..]| ==> rs[1..][i] == Some(k);
      SumConstant(rs[1..], k);
      assert |rs| * k == k + |rs[1..]| * k by {
        assert |rs| == |rs[1..]| + 1;
      }
    }
  }

  /** When every rating is k, the average is exactly k (all fives average 5). */
  lemma AverageConstant(rs: seq<Option<int>>, k: int)
    requires |rs| > 0
    requires forall i :: 0 <= i < |rs| ==> rs[i] == Some(k)
    ensures Average(rs) == Ok(k)
  {
    SumConstant(rs, k);
    var q := Average(rs).value;
    QuotientBetween(|rs| * k, |rs|, q, k, k);
  }
}
