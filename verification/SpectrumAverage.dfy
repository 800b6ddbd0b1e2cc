/** The spectrum display: it stores each new spectrum, averages successive ones over a ring of buffers
    and estimates the noise floor, in exact reals. */
module SpectrumAverage {
  import opened NoiseFloor

  type Buffer = seq<real>

  // ---- sums over buffers ----

  /** Sum of place `at` of the buffers. */
  function Sum(bs: seq<Buffer>, at: nat): real
    requires forall k :: 0 <= k < |bs| ==> at < |bs[k]|
  {
    if bs == [] then 0.0 else Sum(bs[..|bs| - 1], at) + bs[|bs| - 1][at]
  }

  lemma {:induction false} SumAppend(a: seq<Buffer>, b: seq<Buffer>, at: nat)
    requires forall k :: 0 <= k < |a| ==> at < |a[k]|
    requires forall k :: 0 <= k < |b| ==> at < |b[k]|
    ensures Sum(a + b, at) == Sum(a, at) + Sum(b, at)
    decreases |b|
  {
    if b == [] {
      assert a + b == a;
    } else {
      assert (a + b)[..|a + b| - 1] == a + b[..|b| - 1];
      SumAppend(a, b[..|b| - 1], at);
    }
  }

  /** A ring is summed from any slot. */
  lemma SumRotated(ring: seq<Buffer>, e: nat, at: nat)
    requires e <= |ring| && forall k :: 0 <= k < |ring| ==> at < |ring[k]|
    ensures Sum(ring[e..] + ring[..e], at) == Sum(ring, at)
  {
    SumAppend(ring[e..], ring[..e], at);
    SumAppend(ring[..e], ring[e..], at);
    assert ring[..e] + ring[e..] == ring;
  }

  ghost predicate Sized(bs: seq<Buffer>, n: nat) {
    forall k :: 0 <= k < |bs| ==> |bs[k]| == n
  }

  // ---- what the display must show ----

  /** The newest `n` buffers, or all if there are fewer. */
  function Newest(recent: seq<Buffer>, n: nat): seq<Buffer> {
    if |recent| <= n then recent else recent[|recent| - n..]
  }

  /** The average over the newest `n` buffers; the newest alone if averaging is off. */
  function Average(recent: seq<Buffer>, n: nat, at: nat): real
    requires recent != [] && forall k :: 0 <= k < |recent| ==> at < |recent[k]|
  {
    if n == 0 then recent[|recent| - 1][at]
    else Sum(Newest(recent, n), at) / (|Newest(recent, n)| as real)
  }

  /** The ring holds the newest buffers, the oldest of them at `entry` once it is full. */
  ghost predicate Holds(ring: seq<Buffer>, entry: nat, count: nat, recent: seq<Buffer>) {
    && count == (if |recent| <= |ring| then |recent| else |ring|)
    && entry <= |ring|
    && (ring == [] ==> entry == 0)
    && (ring != [] ==> entry < |ring|)
    && (count < |ring| ==> entry == count && ring[..count] == recent)
    && (count == |ring| ==> Newest(recent, count) == ring[entry..] + ring[..entry])
  }

  lemma HoldsNext(ring: seq<Buffer>, entry: nat, count: nat, recent: seq<Buffer>, b: Buffer)
    requires ring != [] && Holds(ring, entry, count, recent)
    ensures Holds(ring[entry := b], (entry + 1) % |ring|, if count < |ring| then count + 1 else count, recent + [b])
  {
    if count < |ring| {
      HoldsFilling(ring, count, recent, b);
    } else {
      HoldsFull(ring, entry, recent, b);
    }
  }

  lemma HoldsFilling(ring: seq<Buffer>, count: nat, recent: seq<Buffer>, b: Buffer)
    requires count < |ring| && ring[..count] == recent && |recent| == count
    ensures Holds(ring[count := b], (count + 1) % |ring|, count + 1, recent + [b])
  {
    FilledSlot(ring, count, b);
    var next := ring[count := b];
    if count + 1 == |ring| {
      assert next[..count + 1] == next;
      HoldsAll(next);
    } else {
      HoldsSome(next, count + 1, recent + [b]);
    }
  }

  lemma HoldsSome(ring: seq<Buffer>, count: nat, recent: seq<Buffer>)
    requires 0 < count < |ring| && ring[..count] == recent
    ensures Holds(ring, count % |ring|, count, recent)
  {
    hide Newest;
    assert count % |ring| == count;
  }

  lemma FilledSlot(ring: seq<Buffer>, count: nat, b: Buffer)
    requires count < |ring|
    ensures ring[count := b][..count + 1] == ring[..count] + [b]
  {
  }

  lemma HoldsAll(ring: seq<Buffer>)
    requires ring != []
    ensures Holds(ring, 0, |ring|, ring)
  {
    assert ring[0..] + ring[..0] == ring;
  }

  lemma HoldsFull(ring: seq<Buffer>, entry: nat, recent: seq<Buffer>, b: Buffer)
    requires entry < |ring| <= |recent| && Newest(recent, |ring|) == ring[entry..] + ring[..entry]
    ensures Holds(ring[entry := b], (entry + 1) % |ring|, |ring|, recent + [b])
  {
    NewestNext(recent, |ring|, b);
    RingNext(ring, entry, b);
  }

  lemma NewestNext(recent: seq<Buffer>, n: nat, b: Buffer)
    requires 0 < n <= |recent|
    ensures Newest(recent + [b], n) == Newest(recent, n)[1..] + [b]
  {
  }

  lemma RingNext(ring: seq<Buffer>, entry: nat, b: Buffer)
    requires entry < |ring|
    ensures var next, e := ring[entry := b], (entry + 1) % |ring|;
            next[e..] + next[..e] == (ring[entry..] + ring[..entry])[1..] + [b]
  {
    var next := ring[entry := b];
    if entry + 1 == |ring| {
      assert (entry + 1) % |ring| == 0;
      assert next[0..] + next[..0] == ring[..entry] + [b];
    } else {
      assert (entry + 1) % |ring| == entry + 1;
      assert next[entry + 1..] == ring[entry + 1..] && next[..entry + 1] == ring[..entry] + [b];
    }
  }

  /** The slots in use, summed in slot order, give the sum of the newest buffers. */
  lemma SlotOrder(ring: seq<Buffer>, entry: nat, count: nat, recent: seq<Buffer>, size: nat, at: nat)
    requires Holds(ring, entry, count, recent) && Sized(ring, size) && Sized(recent, size) && at < size
    ensures count == |Newest(recent, |ring|)|
    ensures Sum(ring[..count], at) == Sum(Newest(recent, |ring|), at)
  {
    if count == |ring| {
      assert ring[..count] == ring;
      SumRotated(ring, entry, at);
    }
  }

  /** The second half of a spectrum before the first; an odd last point is not read, and its place stays zero. */
  function FftShift(points: seq<real>): (bins: seq<real>)
    ensures |bins| == |points|
  {
    var h := |points| / 2;
    points[h..2 * h] + points[..h] + if |points| % 2 == 1 then [0.0] else []
  }

  lemma ShiftAt(points: seq<real>)
    ensures var bins, h := FftShift(points), |points| / 2;
            && (forall k :: 0 <= k < h ==> bins[k] == points[h + k])
            && (forall k :: 0 <= k < h ==> bins[h + k] == points[k])
            && (|points| % 2 == 1 ==> bins[2 * h] == 0.0)
  {
  }

  /** Shifting an even number of points twice changes nothing. */
  lemma ShiftTwice(points: seq<real>)
    requires |points| % 2 == 0
    ensures FftShift(FftShift(points)) == points
  {
  }

  lemma ShiftFills(points: seq<real>)
    ensures Filled(FftShift(points))
  {
  }

  class SpectrumDisplayForm {
    var numRealDataPoints: nat
    var realFFTDataPoints: array<real>
    var averagedValues: array<real>
    var historyVector: seq<Buffer>
    var historyEntry: nat
    var historyEntryCount: nat
    var noiseFloorAmplitude: real
    /** The buffers averaged since the last reset. */
    ghost var recent: seq<Buffer>

    ghost predicate Shape()
      reads this
    {
      && averagedValues.Length == numRealDataPoints && realFFTDataPoints.Length == numRealDataPoints
      && averagedValues != realFFTDataPoints
      && Sized(historyVector, numRealDataPoints)
    }

    ghost predicate Valid()
      reads this, averagedValues, realFFTDataPoints
    {
      && Shape() && Filled(realFFTDataPoints[..])
      && Sized(recent, numRealDataPoints)
      && Holds(historyVector, historyEntry, historyEntryCount, recent)
      && Shows(averagedValues[..])
    }

    /** Every place shows the average of what was received since the last reset. */
    ghost predicate Shows(shown: seq<real>)
      requires |shown| == numRealDataPoints && Sized(recent, numRealDataPoints)
      reads this
    {
      forall at :: 0 <= at < numRealDataPoints ==>
        shown[at] == if recent == [] then 0.0 else Average(recent, |historyVector|, at)
    }

    constructor ()
      ensures Valid() && fresh(averagedValues) && fresh(realFFTDataPoints)
      ensures numRealDataPoints == 1024 && historyVector == [] && recent == []
    {
      numRealDataPoints := 1024;
      realFFTDataPoints := new real[1024];
      averagedValues := new real[1024];
      historyVector := [];
      historyEntry, historyEntryCount := 0, 0;
      noiseFloorAmplitude := 0.0;
      recent := [];
      new;
      AverageDataReset();
    }

    method AverageDataReset()
      requires Shape() && Filled(realFFTDataPoints[..])
      modifies this`historyEntry, this`historyEntryCount, this`recent, averagedValues
      ensures Valid() && recent == []
    {
      historyEntry, historyEntryCount, recent := 0, 0, [];
      forall k | 0 <= k < numRealDataPoints {
        averagedValues[k] := 0.0;
      }
      EmptyRing(historyVector);
    }

    /** `junk` is whatever a new buffer holds. */
    method SetAverageCount(newCount: int, junk: nat -> real)
      requires Valid()
      modifies this`historyVector, this`historyEntry, this`historyEntryCount, this`recent, averagedValues
      ensures Valid()
      ensures 0 <= newCount ==> |historyVector| == newCount
      ensures newCount < 0 || newCount == old(|historyVector|) ==>
                historyVector == old(historyVector) && recent == old(recent)
      ensures 0 <= newCount != old(|historyVector|) ==> recent == []
    {
      if newCount > -1 && newCount != |historyVector| {
        while newCount < |historyVector|
          invariant Shape() && Filled(realFFTDataPoints[..])
          decreases |historyVector|
        {
          historyVector := historyVector[1..];
        }
        while newCount > |historyVector|
          invariant Shape() && Filled(realFFTDataPoints[..]) && |historyVector| <= newCount
          decreases newCount - |historyVector|
        {
          historyVector := historyVector + [seq(numRealDataPoints, junk)];
        }
        AverageDataReset();
      }
    }

    /** A new size throws away all buffers. */
    method ResizeBuffers(numFFTDataPoints: nat, junk: nat -> real)
      requires Valid()
      modifies this, averagedValues
      ensures noiseFloorAmplitude == old(noiseFloorAmplitude)
      ensures Valid() && numRealDataPoints == numFFTDataPoints && |historyVector| == old(|historyVector|)
      ensures if numFFTDataPoints == old(numRealDataPoints) then recent == old(recent) else recent == []
      ensures averagedValues == old(averagedValues) || fresh(averagedValues)
      ensures realFFTDataPoints == old(realFFTDataPoints) || fresh(realFFTDataPoints)
    {
      if numRealDataPoints != numFFTDataPoints {
        numRealDataPoints := numFFTDataPoints;
        realFFTDataPoints := new real[numFFTDataPoints](_ => 0.0);
        averagedValues := new real[numFFTDataPoints];
        var historySize := |historyVector|;
        ClearHistory();
        SetAverageCount(historySize, junk);
        AverageDataReset();
      }
    }

    /** The first call made by a resize: all buffers, now of the wrong size, are erased. */
    method ClearHistory()
      requires averagedValues.Length == numRealDataPoints && realFFTDataPoints.Length == numRealDataPoints
      requires averagedValues != realFFTDataPoints && Filled(realFFTDataPoints[..])
      modifies this`historyVector, this`historyEntry, this`historyEntryCount, this`recent, averagedValues
      ensures Shape() && historyVector == []
      ensures Valid()
    {
      while 0 < |historyVector|
        decreases |historyVector|
      {
        historyVector := historyVector[1..];
      }
      AverageDataReset();
    }

    /** Whatever buffers, counts and sizes came before, the display shows the average of the newest. */
    method AverageHistory(newBuffer: Buffer)
      requires Valid() && |newBuffer| == numRealDataPoints
      modifies this`historyVector, this`historyEntry, this`historyEntryCount, this`recent, averagedValues
      ensures Valid()
      ensures recent == if numRealDataPoints > 0 then old(recent) + [newBuffer] else old(recent)
      ensures |historyVector| == old(|historyVector|)
    {
      if numRealDataPoints > 0 {
        if |historyVector| > 0 {
          Store(newBuffer);
          TotalUp();
        } else {
          forall k | 0 <= k < numRealDataPoints {
            averagedValues[k] := newBuffer[k];
          }
          recent := recent + [newBuffer];
          assert historyEntryCount == 0;
        }
      }
    }

    /** Put a buffer in the next slot of the ring. */
    method Store(newBuffer: Buffer)
      requires Shape() && Sized(recent, numRealDataPoints) && |newBuffer| == numRealDataPoints && historyVector != []
      requires Holds(historyVector, historyEntry, historyEntryCount, recent)
      modifies this`historyVector, this`historyEntry, this`historyEntryCount, this`recent
      ensures Shape() && Sized(recent, numRealDataPoints) && |historyVector| == old(|historyVector|)
      ensures recent == old(recent) + [newBuffer]
      ensures Holds(historyVector, historyEntry, historyEntryCount, recent)
    {
      HoldsRange(historyVector, historyEntry, historyEntryCount, recent);
      HoldsNext(historyVector, historyEntry, historyEntryCount, recent, newBuffer);
      hide Holds;
      historyVector := historyVector[historyEntry := newBuffer];
      historyEntryCount := historyEntryCount + 1;
      if historyEntryCount > |historyVector| {
        historyEntryCount := |historyVector|;
      }
      historyEntry := (historyEntry + 1) % |historyVector|;
      recent := recent + [newBuffer];
    }

    /** Total up and average the slots in use, place by place. */
    method TotalUp()
      requires Shape() && Sized(recent, numRealDataPoints) && recent != [] && historyVector != []
      requires Holds(historyVector, historyEntry, historyEntryCount, recent)
      modifies averagedValues
      ensures Shows(averagedValues[..])
    {
      hide Holds, Average;
      InUse(historyVector, historyEntry, historyEntryCount, recent);
      for location := 0 to numRealDataPoints
        invariant forall at :: 0 <= at < location ==> averagedValues[at] == Average(recent, |historyVector|, at)
      {
        var sum := 0.0;
        for number := 0 to historyEntryCount
          invariant sum == Sum(historyVector[..number], location)
        {
          assert historyVector[..number + 1][..number] == historyVector[..number];
          sum := sum + historyVector[number][location];
        }
        AverageOfSlots(historyVector, historyEntry, historyEntryCount, recent, numRealDataPoints, location);
        averagedValues[location] := sum / (historyEntryCount as real);
      }
    }

    /** Store the points, the second half first, and sum them. */
    method Fill(points: seq<real>) returns (sumMean: real)
      requires |points| == realFFTDataPoints.Length && Filled(realFFTDataPoints[..])
      modifies realFFTDataPoints
      ensures realFFTDataPoints[..] == FftShift(points)
      ensures forall k :: 0 <= k < |points| / 2 ==>
                realFFTDataPoints[k] == points[k + |points| / 2] && realFFTDataPoints[k + |points| / 2] == points[k]
      ensures |points| % 2 == 1 ==> realFFTDataPoints[|points| - 1] == 0.0
      ensures sumMean == Total(Paired(FftShift(points)))
    {
      hide Total, FftShift;
      ShiftAt(points);
      ghost var bins := FftShift(points);
      ghost var odd := |points| % 2 == 1;
      var h := |points| / 2;
      sumMean := 0.0;
      NothingSummed(bins);
      for point := 0 to h
        invariant forall k :: 0 <= k < point ==> realFFTDataPoints[k] == bins[k]
        invariant odd ==> realFFTDataPoints[|points| - 1] == 0.0
        invariant sumMean == Total(bins[..point])
      {
        TotalTake(bins, point);
        realFFTDataPoints[point] := points[h + point];
        sumMean := sumMean + realFFTDataPoints[point];
      }
      for point := 0 to h
        invariant forall k :: 0 <= k < h + point ==> realFFTDataPoints[k] == bins[k]
        invariant odd ==> realFFTDataPoints[|points| - 1] == 0.0
        invariant sumMean == Total(bins[..h + point])
      {
        TotalTake(bins, h + point);
        realFFTDataPoints[h + point] := points[point];
        sumMean := sumMean + realFFTDataPoints[h + point];
      }
    }

    /** A new spectrum, given the level of each of its points; repeated data is displayed but not averaged. */
    method NewFrequencyData(points: seq<real>, repeatDataFlag: bool, junk: nat -> real)
      requires Valid() && points != []
      modifies this, averagedValues, realFFTDataPoints
      ensures Valid() && numRealDataPoints == |points| && |historyVector| == old(|historyVector|)
      ensures realFFTDataPoints[..] == FftShift(points)
      ensures recent == (if |points| == old(numRealDataPoints) then old(recent) else [])
                        + if repeatDataFlag then [] else [FftShift(points)]
      ensures repeatDataFlag ==> noiseFloorAmplitude == old(noiseFloorAmplitude)
      ensures !repeatDataFlag ==> noiseFloorAmplitude == Floor(FftShift(points))
      ensures !repeatDataFlag ==> IsMeanOfLow(noiseFloorAmplitude, realFFTDataPoints[..])
    {
      hide Total, Floor, FftShift, Holds, Average, Paired, IsMeanOfLow;
      ResizeBuffers(|points|, junk);
      ShiftFills(points);
      var sumMean := Fill(points);
      if !repeatDataFlag {
        AverageHistory(realFFTDataPoints[..]);
        noiseFloorAmplitude := NoiseFloorAmplitude(realFFTDataPoints, sumMean);
      }
    }
  }

  lemma NothingSummed(bins: seq<real>)
    ensures Total(bins[..0]) == 0.0
  {
  }

  /** The noise floor shown is the mean of exactly those of the bins shown that are not more than 20 above the mean of
      all of them, and so never above that mean. */
  lemma NoiseFloorShown(points: seq<real>)
    requires points != []
    ensures var bins := FftShift(points);
            IsMeanOfLow(Floor(bins), bins) && Floor(bins) <= Total(bins) / (|bins| as real)
  {
    hide FftShift, Total, Floor, IsMeanOfLow;
    ShiftFills(points);
    FloorIsMeanOfLow(FftShift(points));
    FloorBelowMean(FftShift(points));
  }

  lemma HoldsRange(ring: seq<Buffer>, entry: nat, count: nat, recent: seq<Buffer>)
    requires Holds(ring, entry, count, recent) && ring != []
    ensures entry < |ring| && count <= |ring|
  {
  }

  lemma EmptyRing(ring: seq<Buffer>)
    ensures Holds(ring, 0, 0, [])
  {
    assert ring[..0] == [];
  }

  lemma InUse(ring: seq<Buffer>, entry: nat, count: nat, recent: seq<Buffer>)
    requires Holds(ring, entry, count, recent) && recent != [] && ring != []
    ensures 0 < count <= |ring|
  {
  }

  lemma AverageOfSlots(ring: seq<Buffer>, entry: nat, count: nat, recent: seq<Buffer>, size: nat, at: nat)
    requires Holds(ring, entry, count, recent) && Sized(ring, size) && Sized(recent, size) && at < size
    requires 0 < count <= |ring| && recent != []
    ensures Average(recent, |ring|, at) == Sum(ring[..count], at) / (count as real)
  {
    SlotOrder(ring, entry, count, recent, size, at);
  }
}
