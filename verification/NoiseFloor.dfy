/** The noise floor estimate of the spectrum display: the mean of the bins that are not far above the mean. */
module NoiseFloor {

  function Total(bins: seq<real>): real {
    if bins == [] then 0.0 else Total(bins[..|bins| - 1]) + bins[|bins| - 1]
  }

  /** The bins not above a limit. */
  function Kept(bins: seq<real>, limit: real): (r: seq<real>)
    ensures |r| <= |bins|
  {
    if bins == [] then []
    else
      var b := bins[|bins| - 1];
      Kept(bins[..|bins| - 1], limit) + if b <= limit then [b] else []
  }

  /** The bins that the first pass sums: a last, unpaired bin is not among them. */
  function Paired(bins: seq<real>): seq<real> {
    bins[..|bins| / 2 * 2]
  }

  /** Twenty above the mean. */
  function Limit(bins: seq<real>): real
    requires bins != []
  {
    Total(Paired(bins)) / (|bins| as real) + 20.0
  }

  /** The mean of the bins kept, or the limit if there is none. */
  function Floor(bins: seq<real>): real
    requires bins != []
  {
    var kept := Kept(bins, Limit(bins));
    if kept == [] then Limit(bins) else Total(kept) / (|kept| as real)
  }

  lemma TotalTake(bins: seq<real>, n: nat)
    requires n < |bins|
    ensures Total(bins[..n + 1]) == Total(bins[..n]) + bins[n]
  {
    assert bins[..n + 1][..n] == bins[..n];
  }

  lemma KeptTake(bins: seq<real>, limit: real, n: nat)
    requires n < |bins|
    ensures Kept(bins[..n + 1], limit) == Kept(bins[..n], limit) + if bins[n] <= limit then [bins[n]] else []
  {
    assert bins[..n + 1][..n] == bins[..n];
  }

  lemma TotalSnoc(bins: seq<real>, b: real)
    ensures Total(bins + [b]) == Total(bins) + b
  {
    assert (bins + [b])[..|bins|] == bins;
  }

  /** How far the bins together are above a limit. */
  function Excess(bins: seq<real>, limit: real): real {
    if bins == [] then 0.0 else Excess(bins[..|bins| - 1], limit) + (bins[|bins| - 1] - limit)
  }

  lemma OneMore(limit: real, n: nat)
    ensures limit * ((n + 1) as real) == limit * (n as real) + limit
  {
  }

  lemma {:induction false} ExcessTotal(bins: seq<real>, limit: real)
    ensures Excess(bins, limit) == Total(bins) - limit * (|bins| as real)
  {
    if bins != [] {
      ExcessTotal(bins[..|bins| - 1], limit);
      OneMore(limit, |bins| - 1);
    }
  }

  lemma ExcessSnoc(bins: seq<real>, b: real, limit: real)
    ensures Excess(bins + [b], limit) == Excess(bins, limit) + (b - limit)
  {
    assert (bins + [b])[..|bins|] == bins;
  }

  /** What is kept is together not above the limit, what is thrown out is. */
  lemma {:induction false} KeptBounds(bins: seq<real>, limit: real)
    ensures var kept := Kept(bins, limit);
            && Excess(kept, limit) <= 0.0
            && Excess(kept, limit) <= Excess(bins, limit)
            && (|kept| < |bins| ==> Excess(kept, limit) < Excess(bins, limit))
  {
    if bins != [] {
      var front, b := bins[..|bins| - 1], bins[|bins| - 1];
      KeptBounds(front, limit);
      if b <= limit {
        ExcessSnoc(Kept(front, limit), b, limit);
      } else {
        assert Kept(bins, limit) == Kept(front, limit);
      }
    }
  }

  /** Nothing is kept exactly when every bin is above the limit. */
  lemma {:induction false} NoneKept(bins: seq<real>, limit: real)
    ensures Kept(bins, limit) == [] <==> forall k :: 0 <= k < |bins| ==> bins[k] > limit
  {
    if bins != [] {
      NoneKept(bins[..|bins| - 1], limit);
    }
  }

  /** The display leaves the last, unpaired bin of an odd number at zero. */
  ghost predicate Filled(bins: seq<real>) {
    |bins| % 2 == 1 ==> bins[|bins| - 1] == 0.0
  }

  lemma EvenExcess(bins: seq<real>)
    requires bins != [] && |bins| % 2 == 0
    ensures Excess(bins, Limit(bins)) < 0.0
  {
    assert Paired(bins) == bins;
    hide Total, Excess;
    ExcessTotal(bins, Limit(bins));
    AboveMean(Total(bins), |bins| as real);
  }

  lemma EvenKeeps(bins: seq<real>)
    requires bins != [] && |bins| % 2 == 0
    ensures Kept(bins, Limit(bins)) != []
  {
    hide Total, Excess, Kept, Limit, Paired;
    EvenExcess(bins);
    KeptBounds(bins, Limit(bins));
    ExcessNone(Limit(bins));
  }

  lemma PairedKept(bins: seq<real>, limit: real)
    requires |bins| % 2 == 1
    ensures Kept(bins, limit) == Kept(Paired(bins), limit) + if bins[|bins| - 1] <= limit then [bins[|bins| - 1]] else []
  {
    assert Paired(bins) == bins[..|bins| - 1];
  }

  lemma PositiveLimit(total: real, n: real, limit: real)
    requires n >= 1.0 && limit == total / n + 20.0 && total - limit * (n - 1.0) >= 0.0
    ensures limit > 0.0
  {
    assert limit * n == total + 20.0 * n;
    assert limit * (n - 1.0) == limit * n - limit;
  }

  lemma LimitAboveZero(bins: seq<real>)
    requires |bins| % 2 == 1 && Excess(Paired(bins), Limit(bins)) >= 0.0
    ensures Limit(bins) > 0.0
  {
    hide Total, Excess, Paired;
    PairedTotal(bins, Limit(bins));
    PositiveLimit(Total(Paired(bins)), |bins| as real, Limit(bins));
  }

  lemma OddKeeps(bins: seq<real>)
    requires |bins| % 2 == 1 && Filled(bins)
    ensures Kept(bins, Limit(bins)) != []
  {
    hide Total, Excess, Kept, Paired, Limit;
    PairedKept(bins, Limit(bins));
    if Kept(bins, Limit(bins)) == [] {
      KeptBounds(Paired(bins), Limit(bins));
      ExcessNone(Limit(bins));
      LimitAboveZero(bins);
    }
  }

  lemma PairedTotal(bins: seq<real>, limit: real)
    requires |bins| % 2 == 1
    ensures Excess(Paired(bins), limit) == Total(Paired(bins)) - limit * (|bins| as real - 1.0)
  {
    hide Total, Excess;
    ExcessTotal(Paired(bins), limit);
    assert |Paired(bins)| == |bins| - 1;
  }

  /** For every positive number of bins something is always kept, so the divisor is never zero. */
  lemma SomethingKept(bins: seq<real>)
    requires bins != [] && Filled(bins)
    ensures Kept(bins, Limit(bins)) != []
    ensures Floor(bins) == Total(Kept(bins, Limit(bins))) / (|Kept(bins, Limit(bins))| as real)
  {
    hide Kept, Limit, Total;
    if |bins| % 2 == 0 {
      EvenKeeps(bins);
    } else {
      OddKeeps(bins);
    }
  }

  lemma ExcessNone(limit: real)
    ensures Excess([], limit) == 0.0
  {
  }

  lemma AboveMean(total: real, n: real)
    requires n > 0.0
    ensures total - (total / n + 20.0) * n < 0.0
  {
    assert total / n * n == total;
  }

  lemma AtLeast(total: real, n: real, low: real)
    requires n > 0.0 && total >= low * n
    ensures low <= total / n
  {
  }

  lemma AtMost(total: real, n: real, high: real)
    requires n > 0.0 && total <= high * n
    ensures total / n <= high
  {
  }

  lemma Product(a: real, b: real, d: real)
    requires a <= b && d >= 0.0
    ensures a * d <= b * d
  {
  }

  /** The mean of `m` bins together not above the limit is not raised by `n - m` bins together not below it. */
  lemma MeanOfKept(kept: real, m: real, total: real, n: real, limit: real)
    requires 0.0 < m <= n && kept - limit * m <= 0.0 && kept - limit * m <= total - limit * n
    ensures kept / m <= total / n
  {
    var mean := kept / m;
    AtMost(kept, m, limit);
    Product(mean, limit, n - m);
    assert mean * m == kept;
    assert mean * n == mean * m + mean * (n - m);
    assert limit * n == limit * m + limit * (n - m);
    AtLeast(total, n, mean);
  }

  lemma NoneBelowMean(bins: seq<real>, limit: real)
    requires bins != [] && Kept(bins, limit) == []
    ensures limit <= Total(bins) / (|bins| as real)
  {
    hide Total, Excess, Kept;
    KeptBounds(bins, limit);
    ExcessTotal(bins, limit);
    ExcessNone(limit);
    AtLeast(Total(bins), |bins| as real, limit);
  }

  lemma SomeBelowMean(bins: seq<real>, limit: real)
    requires bins != [] && Kept(bins, limit) != []
    ensures Total(Kept(bins, limit)) / (|Kept(bins, limit)| as real) <= Total(bins) / (|bins| as real)
  {
    hide Total, Excess, Kept;
    var kept := Kept(bins, limit);
    KeptBounds(bins, limit);
    ExcessTotal(bins, limit);
    ExcessTotal(kept, limit);
    MeanOfKept(Total(kept), |kept| as real, Total(bins), |bins| as real, limit);
  }

  /** The noise floor is never above the mean of all bins. */
  lemma FloorBelowMean(bins: seq<real>)
    requires bins != []
    ensures Floor(bins) <= Total(bins) / (|bins| as real)
  {
    hide Kept, Total, Limit;
    if Kept(bins, Limit(bins)) == [] {
      NoneBelowMean(bins, Limit(bins));
    } else {
      SomeBelowMean(bins, Limit(bins));
    }
  }

  // ---- what the noise floor is, without regard to how it is computed ----

  /** The bins kept are exactly those not above the limit, each as often as it occurs. */
  lemma {:induction false} KeptExactly(bins: seq<real>, limit: real, b: real)
    ensures multiset(Kept(bins, limit))[b] == if b <= limit then multiset(bins)[b] else 0
    decreases |bins|
  {
    if bins != [] {
      var front, last := bins[..|bins| - 1], bins[|bins| - 1];
      KeptExactly(front, limit, b);
      assert bins == front + [last];
    }
  }

  /** The mean of exactly those bins that are not more than 20 above the mean of all. */
  ghost predicate IsMeanOfLow(floor: real, bins: seq<real>)
    requires bins != []
  {
    var low := Kept(bins, Total(bins) / (|bins| as real) + 20.0);
    low != [] && floor == Total(low) / (|low| as real)
  }

  lemma PairedSum(bins: seq<real>)
    requires Filled(bins)
    ensures Total(Paired(bins)) == Total(bins)
  {
    if |bins| % 2 == 0 {
      assert Paired(bins) == bins;
    } else {
      assert Paired(bins) == bins[..|bins| - 1];
    }
  }

  /** For every positive number of bins, odd or even, the noise floor is that mean. */
  lemma FloorIsMeanOfLow(bins: seq<real>)
    requires bins != [] && Filled(bins)
    ensures IsMeanOfLow(Floor(bins), bins)
  {
    hide Kept, Total, Paired;
    SomethingKept(bins);
    PairedSum(bins);
  }

  lemma {:induction false} AllKept(bins: seq<real>, limit: real)
    requires forall k :: 0 <= k < |bins| ==> bins[k] <= limit
    ensures Kept(bins, limit) == bins
    decreases |bins|
  {
    if bins != [] {
      AllKept(bins[..|bins| - 1], limit);
    }
  }

  /** If no bin is more than 20 above the mean, the noise floor is the mean. */
  lemma FloorOfFlatSpectrum(bins: seq<real>)
    requires bins != [] && Filled(bins)
    requires forall k :: 0 <= k < |bins| ==> bins[k] <= Total(bins) / (|bins| as real) + 20.0
    ensures Floor(bins) == Total(bins) / (|bins| as real)
  {
    hide Kept, Total, Floor;
    FloorIsMeanOfLow(bins);
    AllKept(bins, Total(bins) / (|bins| as real) + 20.0);
  }

  // ---- the computation ----

  /** The sum and the number of the bins not above a limit. */
  method SumOfKept(bins: array<real>, limit: real) returns (sum: real, count: nat)
    ensures sum == Total(Kept(bins[..], limit)) && count == |Kept(bins[..], limit)|
  {
    hide Total, Kept;
    sum, count := 0.0, bins.Length;
    NothingYet(limit);
    assert bins[..][..0] == [];
    for number := 0 to bins.Length
      invariant sum == Total(Kept(bins[..][..number], limit))
      invariant count == bins.Length - number + |Kept(bins[..][..number], limit)|
    {
      KeptTake(bins[..], limit, number);
      if bins[number] <= limit {
        TotalSnoc(Kept(bins[..][..number], limit), bins[number]);
        sum := sum + bins[number];
      } else {
        assert Kept(bins[..][..number], limit) + [] == Kept(bins[..][..number], limit);
        count := count - 1;
      }
    }
    assert bins[..][..bins.Length] == bins[..];
  }

  lemma NothingYet(limit: real)
    ensures Kept([], limit) == [] && Total([]) == 0.0
  {
  }

  /** The second pass, over the displayed bins, from their sum. */
  method NoiseFloorAmplitude(bins: array<real>, sumMean: real) returns (floor: real)
    requires bins.Length > 0 && sumMean == Total(Paired(bins[..]))
    ensures floor == Floor(bins[..])
    ensures Filled(bins[..]) ==> IsMeanOfLow(floor, bins[..])
  {
    hide Total, Kept, Paired, IsMeanOfLow;
    if Filled(bins[..]) {
      FloorIsMeanOfLow(bins[..]);
    }
    var meanAmplitude := sumMean / (bins.Length as real) + 20.0;
    var sum, newNumDataPoints := SumOfKept(bins, meanAmplitude);
    if newNumDataPoints == 0 {
      floor := meanAmplitude;
    } else {
      floor := sum / (newNumDataPoints as real);
    }
  }
}
