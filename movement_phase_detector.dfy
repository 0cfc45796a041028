/** The movement-phase detector: per-landmark z-score normalisation of a speed signal, and
    segmentation of a z-score signal into movement intervals by an adaptive threshold
    (`MovementPhaseDetector.find_movement_intervals` and `find_z_score_at_joint`). */
module MovementPhases {
  import opened Wrappers
  import opened Numeric
  import opened Dicts
  import opened Velocity

  /** An emitted pair `[start, end]`: the samples `start .. end - 1` are above the threshold
      and `end` is the first sample at or below it, so the pair denotes the half-open range
      `[start, end)`. */
  datatype Interval = Interval(start: nat, end: nat)

  /** The shortest run that is emitted, in samples. */
  const MinDuration: nat := 7

  /** The adaptive threshold: half of the largest z-score. */
  function Threshold(z: seq<real>): (thr: real)
    requires |z| > 0
    ensures forall i :: 0 <= i < |z| ==> z[i] <= 2.0 * thr
    ensures exists i :: 0 <= i < |z| && z[i] == 2.0 * thr
  {
    0.5 * Max(z)
  }

  /** `[s, e)` is a run that the scan emits: the sample before `s` is at or below `thr`, every
      sample of `[s, e)` is strictly above it, the sample `e` is at or below it again, `s` is
      not the first sample, and the run is at least `MinDuration` long. */
  ghost predicate EmittedRun(z: seq<real>, thr: real, s: nat, e: nat)
  {
    && 1 <= s < e < |z|
    && z[s - 1] <= thr
    && (forall k :: s <= k < e ==> z[k] > thr)
    && z[e] <= thr
    && e - s >= MinDuration
  }

  /** Every pair properly precedes the next: its end is before the next start. */
  ghost predicate Ordered(ivs: seq<Interval>)
  {
    forall j, k :: 0 <= j < k < |ivs| ==> ivs[j].end < ivs[k].start
  }

  /** `ivs` is the segmentation of `z`: ordered, and holding exactly the emitted runs. */
  ghost predicate IsSegmentation(z: seq<real>, ivs: seq<Interval>)
    requires |z| > 0
  {
    && Ordered(ivs)
    && (forall j :: 0 <= j < |ivs| ==> EmittedRun(z, Threshold(z), ivs[j].start, ivs[j].end))
    && (forall s: nat, e: nat :: EmittedRun(z, Threshold(z), s, e) ==> Interval(s, e) in ivs)
  }

  /** `find_movement_intervals`: one forward scan that keeps an open-start marker, sets it at
      every upward crossing, and at a downward crossing with a marker set emits the run when
      it is at least `MinDuration` long. The marker is cleared only when a run is emitted. */
  method FindMovementIntervals(z: seq<real>) returns (intervals: seq<Interval>)
    requires |z| > 0
    ensures IsSegmentation(z, intervals)
    ensures |z| <= MinDuration + 1 ==> intervals == []
  {
    var threshold := 0.5 * Max(z);
    intervals := [];
    var start: Option<nat> := None;
    for i := 1 to |z|
      invariant ScannedUpTo(z, threshold, intervals, i)
      invariant |intervals| > 0 ==> i > MinDuration + 1
      invariant z[i - 1] > threshold && start.None? ==> forall k :: 0 <= k < i ==> z[k] > threshold
      invariant z[i - 1] > threshold && start.Some? ==> OpenRun(z, threshold, start.value, i)
    {
      RunsEndingAt(z, threshold, i, start);
      if z[i - 1] <= threshold && z[i] > threshold {
        start := Some(i);
      }
      if z[i - 1] > threshold && z[i] <= threshold && start.Some? {
        var duration := i - start.value;
        if duration >= MinDuration {
          ScanEmits(z, threshold, intervals, i, start.value);
          intervals := intervals + [Interval(start.value, i)];
          start := None;
        } else {
          ScanSkips(z, threshold, intervals, i);
        }
      } else {
        ScanSkips(z, threshold, intervals, i);
      }
    }
  }

  /** The scan has looked at samples `0 .. i - 1`: `ivs` is ordered and holds exactly the
      emitted runs that end before `i`. */
  ghost predicate ScannedUpTo(z: seq<real>, thr: real, ivs: seq<Interval>, i: nat)
  {
    && Ordered(ivs)
    && (forall j :: 0 <= j < |ivs| ==> EmittedRun(z, thr, ivs[j].start, ivs[j].end) && ivs[j].end < i)
    && (forall s: nat, e: nat :: EmittedRun(z, thr, s, e) && e < i ==> Interval(s, e) in ivs)
  }

  /** A sample at which no run ends adds nothing. */
  lemma ScanSkips(z: seq<real>, thr: real, ivs: seq<Interval>, i: nat)
    requires ScannedUpTo(z, thr, ivs, i)
    requires forall s: nat :: !EmittedRun(z, thr, s, i)
    ensures ScannedUpTo(z, thr, ivs, i + 1)
  {
  }

  /** A sample that closes the emitted run `[s, i)`, and no other, appends exactly that run. */
  lemma ScanEmits(z: seq<real>, thr: real, ivs: seq<Interval>, i: nat, s: nat)
    requires ScannedUpTo(z, thr, ivs, i)
    requires EmittedRun(z, thr, s, i)
    requires forall s': nat :: EmittedRun(z, thr, s', i) ==> s' == s
    ensures ScannedUpTo(z, thr, ivs + [Interval(s, i)], i + 1)
  {
    var ivs' := ivs + [Interval(s, i)];
    forall j | 0 <= j < |ivs|
      ensures ivs[j].end < s
    {
      assert z[ivs[j].end] <= thr;
    }
    assert forall j :: 0 <= j < |ivs| ==> ivs'[j] == ivs[j];
  }

  /** Which runs end at sample `i`, given what the scan knows about its marker just before
      `i`: only the run the marker opens, and only when `i` is a downward crossing. */
  lemma RunsEndingAt(z: seq<real>, thr: real, i: nat, start: Option<nat>)
    requires 1 <= i < |z|
    requires z[i - 1] > thr && start.None? ==> forall k :: 0 <= k < i ==> z[k] > thr
    requires z[i - 1] > thr && start.Some? ==> OpenRun(z, thr, start.value, i)
    ensures forall s: nat :: EmittedRun(z, thr, s, i) <==>
      z[i - 1] > thr && z[i] <= thr && start.Some? && s == start.value && i - s >= MinDuration
  {
    forall s: nat | EmittedRun(z, thr, s, i)
      ensures z[i - 1] > thr && start.Some? && s == start.value
    {
      assert z[i - 1] > thr;
      if start.Some? && start.value < s {
        assert false;
      } else if start.Some? && s < start.value {
        assert false;
      }
    }
  }

  /** The marker `s` opens the run that is still above `thr` just before sample `i`. */
  ghost predicate OpenRun(z: seq<real>, thr: real, s: nat, i: nat)
  {
    1 <= s < i <= |z| && z[s - 1] <= thr && forall k :: s <= k < i ==> z[k] > thr
  }
  /** Every pair of a sequence is a non-empty range. */
  ghost predicate NonEmptyRanges(ivs: seq<Interval>)
  {
    forall j :: 0 <= j < |ivs| ==> ivs[j].start < ivs[j].end
  }

  /** In an ordered sequence of non-empty ranges, every element after the first starts
      strictly after the first one does. */
  lemma LaterStartsLater(a: seq<Interval>, x: Interval)
    requires Ordered(a) && NonEmptyRanges(a)
    requires |a| > 0 && x in a[1..]
    ensures a[0].start < x.start
  {
    var k :| 1 <= k < |a| && a[k] == x;
    assert a[0].end < a[k].start;
  }

  /** ... so the first element is the one with the least start. */
  lemma FirstIsLeast(a: seq<Interval>, x: Interval)
    requires Ordered(a) && NonEmptyRanges(a)
    requires x in a
    ensures a[0].start <= x.start
    ensures x.start == a[0].start ==> x == a[0]
  {
    if x != a[0] {
      assert x in a[1..];
      LaterStartsLater(a, x);
    }
  }

  /** Two ordered sequences of non-empty ranges with the same elements are equal. */
  lemma {:induction false} OrderedByElements(a: seq<Interval>, b: seq<Interval>)
    requires Ordered(a) && NonEmptyRanges(a)
    requires Ordered(b) && NonEmptyRanges(b)
    requires forall x :: x in a <==> x in b
    ensures a == b
    decreases |a|
  {
    EmptyTogether(a, b);
    if a != [] {
      FirstIsLeast(a, b[0]);
      FirstIsLeast(b, a[0]);
      assert a[0] == b[0];
      forall x
        ensures x in a[1..] <==> x in b[1..]
      {
        if x in a[1..] {
          LaterStartsLater(a, x);
          assert x in b && x != b[0];
        }
        if x in b[1..] {
          LaterStartsLater(b, x);
          assert x in a && x != a[0];
        }
      }
      OrderedByElements(a[1..], b[1..]);
      assert a == [a[0]] + a[1..];
      assert b == [b[0]] + b[1..];
    }
  }

  /** Two sequences with the same elements are empty together. */
  lemma EmptyTogether<T>(a: seq<T>, b: seq<T>)
    requires forall x :: x in a <==> x in b
    ensures a == [] <==> b == []
  {
    if a != [] {
      assert a[0] in b;
    }
    if b != [] {
      assert b[0] in a;
    }
  }

  /** The segmentation of a signal is unique: the ordering and the two directions of
      membership pin the list down completely. */
  lemma SegmentationIsUnique(z: seq<real>, a: seq<Interval>, b: seq<Interval>)
    requires |z| > 0
    requires IsSegmentation(z, a) && IsSegmentation(z, b)
    ensures a == b
  {
    var thr := Threshold(z);
    forall x
      ensures x in a <==> x in b
    {
      if x in a {
        var j :| 0 <= j < |a| && a[j] == x;
        assert EmittedRun(z, thr, a[j].start, a[j].end);
      }
      if x in b {
        var j :| 0 <= j < |b| && b[j] == x;
        assert EmittedRun(z, thr, b[j].start, b[j].end);
      }
    }
    OrderedByElements(a, b);
  }

  /** A variant of the scan that clears the marker after every downward crossing that finds it
      set, whether or not the run was long enough. */
  method FindMovementIntervalsResettingAlways(z: seq<real>) returns (intervals: seq<Interval>)
    requires |z| > 0
    ensures IsSegmentation(z, intervals)
  {
    var threshold := 0.5 * Max(z);
    intervals := [];
    var start: Option<nat> := None;
    for i := 1 to |z|
      invariant ScannedUpTo(z, threshold, intervals, i)
      invariant z[i - 1] > threshold && start.None? ==> forall k :: 0 <= k < i ==> z[k] > threshold
      invariant z[i - 1] > threshold && start.Some? ==> OpenRun(z, threshold, start.value, i)
    {
      RunsEndingAt(z, threshold, i, start);
      if z[i - 1] <= threshold && z[i] > threshold {
        start := Some(i);
      }
      if z[i - 1] > threshold && z[i] <= threshold && start.Some? {
        var duration := i - start.value;
        if duration >= MinDuration {
          ScanEmits(z, threshold, intervals, i, start.value);
          intervals := intervals + [Interval(start.value, i)];
        } else {
          ScanSkips(z, threshold, intervals, i);
        }
        start := None;
      } else {
        ScanSkips(z, threshold, intervals, i);
      }
    }
  }

  /** Keeping a stale marker after a too-short run is unobservable: the scan as written and
      the scan that always clears the marker return the same list. Every downward crossing
      that can emit is preceded, inside its own run, by an upward crossing that overwrites
      the marker. */
  method StaleMarkerIsUnobservable(z: seq<real>) returns (asWritten: seq<Interval>, alwaysReset: seq<Interval>)
    requires |z| > 0
    ensures asWritten == alwaysReset
  {
    asWritten := FindMovementIntervals(z);
    alwaysReset := FindMovementIntervalsResettingAlways(z);
    SegmentationIsUnique(z, asWritten, alwaysReset);
  }

  /** The empty list is the segmentation of a signal without emitted runs. */
  lemma NoRunsNoIntervals(z: seq<real>, ivs: seq<Interval>)
    requires |z| > 0 && IsSegmentation(z, ivs)
    requires forall s: nat, e: nat :: !EmittedRun(z, Threshold(z), s, e)
    ensures ivs == []
  {
    SegmentationIsUnique(z, ivs, []);
  }

  /** A signal whose largest value is not positive has a threshold at or above every sample,
      so nothing is ever above it and no interval is emitted. */
  lemma NonPositivePeakGivesNoIntervals(z: seq<real>, ivs: seq<Interval>)
    requires |z| > 0 && IsSegmentation(z, ivs)
    requires Max(z) <= 0.0
    ensures ivs == []
  {
    forall s: nat, e: nat
      ensures !EmittedRun(z, Threshold(z), s, e)
    {
      if 1 <= s < |z| {
        assert z[s] <= Max(z) <= Threshold(z);
      }
    }
    NoRunsNoIntervals(z, ivs);
  }

  /** A run that is above the threshold from the first sample on is never emitted, because the
      marker is still unset at its downward crossing: every interval starts after it. */
  lemma LeadingRunNeverEmitted(z: seq<real>, ivs: seq<Interval>, p: nat)
    requires |z| > 0 && IsSegmentation(z, ivs)
    requires p <= |z| && forall k :: 0 <= k < p ==> z[k] > Threshold(z)
    ensures forall j :: 0 <= j < |ivs| ==> p < ivs[j].start
  {
    forall j | 0 <= j < |ivs|
      ensures p < ivs[j].start
    {
      assert EmittedRun(z, Threshold(z), ivs[j].start, ivs[j].end);
      assert z[ivs[j].start - 1] <= Threshold(z);
    }
  }

  /** A run still above the threshold at the last sample is never emitted, because no downward
      crossing closes it: every interval ends before it. */
  lemma TrailingRunNeverEmitted(z: seq<real>, ivs: seq<Interval>, p: nat)
    requires |z| > 0 && IsSegmentation(z, ivs)
    requires forall k :: p <= k < |z| ==> z[k] > Threshold(z)
    ensures forall j :: 0 <= j < |ivs| ==> ivs[j].end < p
  {
    forall j | 0 <= j < |ivs|
      ensures ivs[j].end < p
    {
      assert EmittedRun(z, Threshold(z), ivs[j].start, ivs[j].end);
      assert z[ivs[j].end] <= Threshold(z);
    }
  }

  /** A complete run `[s, e)` above the threshold that is shorter than `MinDuration` is never
      emitted, and no interval overlaps it. */
  lemma ShortRunNeverEmitted(z: seq<real>, ivs: seq<Interval>, s: nat, e: nat)
    requires |z| > 0 && IsSegmentation(z, ivs)
    requires 1 <= s < e < |z| && e - s < MinDuration
    requires z[s - 1] <= Threshold(z) && z[e] <= Threshold(z)
    requires forall k :: s <= k < e ==> z[k] > Threshold(z)
    ensures forall j :: 0 <= j < |ivs| ==> ivs[j].end < s || e < ivs[j].start
  {
    var thr := Threshold(z);
    forall j | 0 <= j < |ivs|
      ensures ivs[j].end < s || e < ivs[j].start
    {
      var s', e' := ivs[j].start, ivs[j].end;
      assert EmittedRun(z, thr, s', e');
      if s <= e' && s' <= e {
        // The two runs would coincide, and `[s, e)` is too short to be emitted.
        assert false;
      }
    }
  }

  /** A sample exactly at the threshold counts as not above it: it lies inside no interval,
      and it can only ever end one. */
  lemma ThresholdSampleIsOutside(z: seq<real>, ivs: seq<Interval>, k: nat)
    requires |z| > 0 && IsSegmentation(z, ivs)
    requires k < |z| && z[k] == Threshold(z)
    ensures forall j :: 0 <= j < |ivs| ==> !(ivs[j].start <= k < ivs[j].end)
  {
    forall j | 0 <= j < |ivs|
      ensures !(ivs[j].start <= k < ivs[j].end)
    {
      assert EmittedRun(z, Threshold(z), ivs[j].start, ivs[j].end);
    }
  }

  /** `z` is `hi` on the block `[s, s + d)` and `lo` everywhere else. */
  ghost predicate IsStep(z: seq<real>, lo: real, hi: real, s: nat, d: nat)
  {
    forall k :: 0 <= k < |z| ==> z[k] == if s <= k < s + d then hi else lo
  }

  /** A step signal whose baseline is at or below half of its positive block value, with the
      block strictly inside the signal, is segmented into exactly the block when the block is
      at least `MinDuration` long, and into nothing when it is shorter. */
  lemma StepSignalSegmentation(z: seq<real>, lo: real, hi: real, s: nat, d: nat, ivs: seq<Interval>)
    requires 1 <= s && 1 <= d && s + d < |z|
    requires hi > 0.0 && lo <= 0.5 * hi
    requires IsStep(z, lo, hi, s, d)
    requires IsSegmentation(z, ivs)
    ensures ivs == if d >= MinDuration then [Interval(s, s + d)] else []
  {
    assert Max(z) == hi by {
      assert z[s] == hi;
      var i :| 0 <= i < |z| && z[i] == Max(z);
    }
    var thr := Threshold(z);
    assert thr == 0.5 * hi;
    var after := z[s + d];
    forall s': nat, e': nat | EmittedRun(z, thr, s', e')
      ensures s' == s && e' == s + d
    {
      assert z[s'] > thr && z[s' - 1] <= thr;
      assert z[e'] <= thr;
      assert !(s' <= s + d < e') || after > thr;
    }
    var expected := if d >= MinDuration then [Interval(s, s + d)] else [];
    if d >= MinDuration {
      assert EmittedRun(z, thr, s, s + d) by {
        assert z[s - 1] == lo && z[s + d] == lo;
      }
    }
    assert IsSegmentation(z, expected);
    SegmentationIsUnique(z, ivs, expected);
  }

  // ---- z-scores -------------------------------------------------------------------------

  /** `(x - m) / sd` for every element `x` of `s`, in order. */
  function Standardize(s: seq<real>, m: real, sd: real): (r: seq<real>)
    requires sd > 0.0
    ensures |r| == |s|
    ensures forall i :: 0 <= i < |s| ==> Product(r[i], sd) == s[i] - m
  {
    if s == [] then []
    else
      DivideThenMultiply(s[0] - m, sd);
      [(s[0] - m) / sd] + Standardize(s[1..], m, sd)
  }

  /** The population standard deviation, `np.std(s)`: the root of the population variance. */
  function StandardDeviation(s: seq<real>, sqrt: real -> real): (sd: real)
    requires |s| > 0 && IsSquareRoot(sqrt)
    ensures sd >= 0.0 && Square(sd) == Variance(s)
    ensures sd > 0.0 <==> Variance(s) > 0.0
  {
    sqrt(Variance(s))
  }

  /** The z-scores of a speed signal: each speed's distance from the mean in standard
      deviations, with the population standard deviation. There is no guard against a
      constant signal, so the variance must be positive. */
  function ZScores(speeds: seq<real>, sqrt: real -> real): (z: seq<real>)
    requires |speeds| > 0 && IsSquareRoot(sqrt)
    requires Variance(speeds) > 0.0
    ensures |z| == |speeds|
    ensures forall i :: 0 <= i < |speeds| ==>
      Product(z[i], StandardDeviation(speeds, sqrt)) == speeds[i] - Mean(speeds)
  {
    Standardize(speeds, Mean(speeds), StandardDeviation(speeds, sqrt))
  }

  /** Z-scores keep the order of the speeds, in both directions. */
  lemma ZScoresKeepOrder(speeds: seq<real>, sqrt: real -> real, i: nat, j: nat)
    requires |speeds| > 0 && IsSquareRoot(sqrt)
    requires Variance(speeds) > 0.0
    requires i < |speeds| && j < |speeds|
    ensures speeds[i] < speeds[j] <==> ZScores(speeds, sqrt)[i] < ZScores(speeds, sqrt)[j]
  {
    var z := ZScores(speeds, sqrt);
    var sd := StandardDeviation(speeds, sqrt);
    OrderUnderPositiveScale(z[i], z[j], sd);
  }

  /** Standardizing subtracts `m` from every element and divides by `sd`, so it does the same to
      the sum. */
  lemma {:induction false} SumStandardize(s: seq<real>, m: real, sd: real)
    requires sd > 0.0
    ensures Product(Sum(Standardize(s, m, sd)), sd) == Sum(s) - Product(|s| as real, m)
  {
    if s != [] {
      var r := Standardize(s, m, sd);
      assert r[1..] == Standardize(s[1..], m, sd);
      SumStandardize(s[1..], m, sd);
      ProductDistributes(r[0], Sum(r[1..]), sd);
      ProductDistributes((|s| - 1) as real, 1.0, m);
    }
  }

  /** Standardizing divides every squared deviation by `sd ** 2`. */
  lemma {:induction false} SquaredDeviationsStandardize(s: seq<real>, m: real, sd: real)
    requires sd > 0.0
    ensures Product(SquaredDeviations(Standardize(s, m, sd), 0.0), Square(sd)) == SquaredDeviations(s, m)
  {
    if s != [] {
      var r := Standardize(s, m, sd);
      assert r[1..] == Standardize(s[1..], m, sd);
      SquaredDeviationsStandardize(s[1..], m, sd);
      SquareOfProduct(r[0], sd, s[0] - m);
      assert r[0] - 0.0 == r[0];
      ProductDistributes(Square(r[0]), SquaredDeviations(r[1..], 0.0), Square(sd));
    }
  }

  /** Standardizing by the mean gives mean zero, whatever the positive divisor. */
  lemma StandardizeMeanZero(s: seq<real>, sd: real)
    requires |s| > 0 && sd > 0.0
    ensures Mean(Standardize(s, Mean(s), sd)) == 0.0
  {
    var r := Standardize(s, Mean(s), sd);
    SumStandardize(s, Mean(s), sd);
    assert Product(Mean(s), |s| as real) == Product(|s| as real, Mean(s));
    assert Product(0.0, sd) == 0.0;
    CancelPositive(Sum(r), 0.0, sd);
  }

  /** Standardizing by the mean and by the root of the variance gives unit variance. */
  lemma StandardizeUnitVariance(s: seq<real>, sd: real)
    requires |s| > 0 && sd > 0.0 && Square(sd) == Variance(s)
    ensures Variance(Standardize(s, Mean(s), sd)) == 1.0
  {
    var m := Mean(s);
    var r := Standardize(s, m, sd);
    StandardizeMeanZero(s, sd);
    SquaredDeviationsStandardize(s, m, sd);
    SquarePositive(sd);
    VarianceIsMeanSquaredDeviation(s);
    UnitRatio(SquaredDeviations(r, 0.0), Square(sd), |s| as real);
  }

  /** The z-scores have mean zero. */
  lemma ZScoresMeanZero(speeds: seq<real>, sqrt: real -> real)
    requires |speeds| > 0 && IsSquareRoot(sqrt)
    requires Variance(speeds) > 0.0
    ensures Mean(ZScores(speeds, sqrt)) == 0.0
  {
    StandardizeMeanZero(speeds, StandardDeviation(speeds, sqrt));
  }

  /** The z-scores have unit population variance. */
  lemma ZScoresUnitVariance(speeds: seq<real>, sqrt: real -> real)
    requires |speeds| > 0 && IsSquareRoot(sqrt)
    requires Variance(speeds) > 0.0
    ensures Variance(ZScores(speeds, sqrt)) == 1.0
  {
    StandardizeUnitVariance(speeds, StandardDeviation(speeds, sqrt));
  }

  /** How `find_z_score_at_joint` ends: with the z-scores; with `KeyError` for a landmark that
      `velocity_data` does not hold; with `ValueError` from `np.min` of an empty speed array
      (in the diagnostic line before the mean); or, for a constant speed signal, with the
      standard deviation zero and every z-score `0 / 0`, that is NaN. */
  datatype ZScoreOutcome = ZScoresOf(z: seq<real>) | KeyError | EmptySpeeds | AllNaN

  /** `find_z_score_at_joint(landmark, velocity_data)`: the z-scores of the landmark's 3-D
      speeds. */
  function FindZScoreAtJoint(landmark: string, velocityData: seq<Item<VelocityRecord>>, sqrt: real -> real)
    : (r: ZScoreOutcome)
    requires IsSquareRoot(sqrt)
    ensures r.KeyError? <==> Lookup(velocityData, landmark).None?
    ensures Lookup(velocityData, landmark).Some? ==>
      var s := Lookup(velocityData, landmark).value.speed3d;
      && (r.EmptySpeeds? <==> s == [])
      && (r.AllNaN? <==> s != [] && forall i, j :: 0 <= i < |s| && 0 <= j < |s| ==> s[i] == s[j])
      && (r.ZScoresOf? ==>
            && |r.z| == |s|
            && Mean(r.z) == 0.0
            && Variance(r.z) == 1.0
            && forall i :: 0 <= i < |s| ==> Product(r.z[i], StandardDeviation(s, sqrt)) == s[i] - Mean(s))
  {
    match Lookup(velocityData, landmark)
    case None => KeyError
    case Some(record) =>
      var s := record.speed3d;
      if s == [] then EmptySpeeds
      else
        VarianceZeroIffConstant(s);
        if Variance(s) == 0.0 then AllNaN
        else
          ZScoresMeanZero(s, sqrt);
          ZScoresUnitVariance(s, sqrt);
          ZScoresOf(ZScores(s, sqrt))
  }
}
