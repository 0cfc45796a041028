/** The velocity calculator: selecting the key landmarks from the pose table, inferring the
    frame rate from the time column, finite-difference velocities and 3-D speeds per landmark,
    and the validation pass over the result (`VelocityCalculator` in the analysis package). */
module Velocity {
  import opened Wrappers
  import opened Numeric
  import opened Dicts
  import opened PoseTable
  import opened Constants

  /** The per-landmark entry of `velocity_data`. */
  datatype VelocityRecord = VelocityRecord(
    x: seq<real>, y: seq<real>, z: seq<real>,
    velocityX: seq<real>, velocityY: seq<real>, velocityZ: seq<real>,
    speed3d: seq<real>,
    timestamps: seq<real>)

  /** The frame rate used when the table has no time column or was never loaded. */
  const DefaultFps: real := 30.0

  /** A landmark's coordinate map has all three axes. */
  predicate HasAllAxes(c: Coords)
  {
    "x" in c && "y" in c && "z" in c
  }

  /** `np.diff(a) * fps`: the velocity along one axis, in units per second. */
  function AxisVelocity(a: seq<real>, fps: real): (v: seq<real>)
    ensures |v| == if |a| == 0 then 0 else |a| - 1
    ensures forall i {:trigger v[i]} :: 0 <= i < |v| ==> v[i] == Product(a[i + 1] - a[i], fps)
  {
    Scale(Diff(a), fps)
  }

  lemma SumsOfSquaresNonNegative(dx: seq<real>, dy: seq<real>, dz: seq<real>)
    requires |dx| == |dy| == |dz|
    ensures forall i :: 0 <= i < |dx| ==> Square(dx[i]) + Square(dy[i]) + Square(dz[i]) >= 0.0
  {
    forall i | 0 <= i < |dx|
      ensures Square(dx[i]) + Square(dy[i]) + Square(dz[i]) >= 0.0
    {
      SquareNonNegative(dx[i]);
      SquareNonNegative(dy[i]);
      SquareNonNegative(dz[i]);
    }
  }

  /** `np.sqrt(dx**2 + dy**2 + dz**2)`: the speed is the non-negative number whose square is
      the sum of the squared axis velocities. */
  function Speeds(dx: seq<real>, dy: seq<real>, dz: seq<real>, sqrt: real -> real): (s: seq<real>)
    requires |dx| == |dy| == |dz| && IsSquareRoot(sqrt)
    ensures |s| == |dx|
    ensures forall i :: 0 <= i < |s| ==>
      s[i] >= 0.0 && Square(s[i]) == Square(dx[i]) + Square(dy[i]) + Square(dz[i])
  {
    SumsOfSquaresNonNegative(dx, dy, dz);
    seq(|dx|, i requires 0 <= i < |dx| => sqrt(Square(dx[i]) + Square(dy[i]) + Square(dz[i])))
  }

  /** `np.arange(n) / fps`: sample `i` is taken `i` frames, that is `i / fps` seconds, in. */
  function Timestamps(n: nat, fps: real): (t: seq<real>)
    requires fps != 0.0
    ensures |t| == n
    ensures forall i :: 0 <= i < n ==> Product(t[i], fps) == i as real
  {
    seq(n, i requires 0 <= i < n => i as real / fps)
  }

  /** The three axes of a landmark have the same number of samples. */
  predicate AxesOfEqualLength(c: Coords)
    requires HasAllAxes(c)
  {
    |c["x"]| == |c["y"]| == |c["z"]|
  }

  /** The record `calculate_velocities` stores for a landmark with all three axes. The
      positions are passed through, there is one velocity and one speed per step between
      consecutive samples, and one timestamp per sample. */
  function LandmarkVelocity(c: Coords, fps: real, sqrt: real -> real): (r: VelocityRecord)
    requires HasAllAxes(c) && AxesOfEqualLength(c) && fps != 0.0 && IsSquareRoot(sqrt)
    ensures r.x == c["x"] && r.y == c["y"] && r.z == c["z"]
    ensures |r.velocityX| == |r.velocityY| == |r.velocityZ| == |r.speed3d|
    ensures |r.speed3d| == if |r.x| == 0 then 0 else |r.x| - 1
    ensures |r.timestamps| == |r.x|
  {
    var x, y, z := c["x"], c["y"], c["z"];
    var dx, dy, dz := AxisVelocity(x, fps), AxisVelocity(y, fps), AxisVelocity(z, fps);
    VelocityRecord(x, y, z, dx, dy, dz, Speeds(dx, dy, dz, sqrt), Timestamps(|x|, fps))
  }

  /** Step `i` of a landmark's record: each axis velocity is the change of that coordinate
      over the step times the frame rate, and the speed is the non-negative root of the sum
      of their squares. */
  lemma LandmarkVelocityAtStep(c: Coords, fps: real, sqrt: real -> real, i: nat)
    requires HasAllAxes(c) && AxesOfEqualLength(c) && fps != 0.0 && IsSquareRoot(sqrt)
    requires i < |LandmarkVelocity(c, fps, sqrt).speed3d|
    ensures var r := LandmarkVelocity(c, fps, sqrt);
      && r.velocityX[i] == Product(r.x[i + 1] - r.x[i], fps)
      && r.velocityY[i] == Product(r.y[i + 1] - r.y[i], fps)
      && r.velocityZ[i] == Product(r.z[i + 1] - r.z[i], fps)
      && r.speed3d[i] >= 0.0
      && Square(r.speed3d[i]) == Square(r.velocityX[i]) + Square(r.velocityY[i]) + Square(r.velocityZ[i])
  {
  }

  /** Sample `i` of a landmark's record is stamped `i / fps` seconds. */
  lemma LandmarkTimestamp(c: Coords, fps: real, sqrt: real -> real, i: nat)
    requires HasAllAxes(c) && AxesOfEqualLength(c) && fps != 0.0 && IsSquareRoot(sqrt)
    requires i < |LandmarkVelocity(c, fps, sqrt).timestamps|
    ensures Product(LandmarkVelocity(c, fps, sqrt).timestamps[i], fps) == i as real
  {
  }

  /** What one pose entry contributes to `velocity_data`: its record when it has all three
      axes, nothing otherwise. */
  function Contribution(item: Item<Coords>, fps: real, sqrt: real -> real): seq<Item<VelocityRecord>>
    requires Rectangular(item.value) && fps != 0.0 && IsSquareRoot(sqrt)
  {
    if HasAllAxes(item.value) then [Item(item.key, LandmarkVelocity(item.value, fps, sqrt))] else []
  }

  /** An entry contributes a record for its own key only, and only with all three axes. */
  lemma ContributionLookup(item: Item<Coords>, fps: real, sqrt: real -> real, k: string)
    requires Rectangular(item.value) && fps != 0.0 && IsSquareRoot(sqrt)
    ensures Lookup(Contribution(item, fps, sqrt), k) ==
      if item.key == k && HasAllAxes(item.value) then Some(LandmarkVelocity(item.value, fps, sqrt)) else None
  {
  }

  /** `velocity_data` after the loop over `pose`: the contributions of the entries, in order. */
  function Velocities(pose: seq<Item<Coords>>, fps: real, sqrt: real -> real): (vd: seq<Item<VelocityRecord>>)
    requires AxesAligned(pose) && fps != 0.0 && IsSquareRoot(sqrt)
    ensures |vd| <= |pose|
    decreases |pose|
  {
    if pose == [] then []
    else
      var n := |pose| - 1;
      assert AxesAligned(pose[..n]) by {
        assert forall i :: 0 <= i < n ==> pose[..n][i] == pose[i];
      }
      Velocities(pose[..n], fps, sqrt) + Contribution(pose[n], fps, sqrt)
  }

  /** The record `velocity_data` holds for key `k`, given what `pose` holds for it. */
  function VelocityAt(pose: seq<Item<Coords>>, k: string, fps: real, sqrt: real -> real): Option<VelocityRecord>
    requires AxesAligned(pose) && fps != 0.0 && IsSquareRoot(sqrt)
  {
    match Lookup(pose, k)
    case None => None
    case Some(c) =>
      assert Rectangular(c);
      if HasAllAxes(c) then Some(LandmarkVelocity(c, fps, sqrt)) else None
  }

  /** The output holds a landmark exactly when the input holds it with all three axes, and
      then it holds that landmark's velocity record: other landmarks are dropped. */
  lemma {:induction false} VelocitiesLookup(pose: seq<Item<Coords>>, fps: real, sqrt: real -> real, k: string)
    requires AxesAligned(pose) && fps != 0.0 && IsSquareRoot(sqrt)
    requires DistinctKeys(pose)
    ensures Lookup(Velocities(pose, fps, sqrt), k) == VelocityAt(pose, k, fps, sqrt)
    decreases |pose|
  {
    if pose != [] {
      var n := |pose| - 1;
      var front := pose[..n];
      assert pose == front + [pose[n]];
      assert AxesAligned(front) && DistinctKeys(front) by {
        assert forall i :: 0 <= i < n ==> front[i] == pose[i];
      }
      VelocitiesLookup(front, fps, sqrt, k);
      assert Velocities(pose, fps, sqrt) == Velocities(front, fps, sqrt) + Contribution(pose[n], fps, sqrt);
      LookupAppend(Velocities(front, fps, sqrt), Contribution(pose[n], fps, sqrt), k);
      LookupAppend(front, [pose[n]], k);
      ContributionLookup(pose[n], fps, sqrt, k);
      if Lookup(front, k).Some? {
        assert Lookup(pose, k) == Lookup(front, k);
      } else {
        assert Lookup(pose, k) == Lookup([pose[n]], k);
      }
    }
  }

  /** The loop of `calculate_velocities` at entry `i`: the entry's key is new, so storing its
      record appends the entry's contribution. */
  lemma VelocitiesStep(pose: seq<Item<Coords>>, i: nat, fps: real, sqrt: real -> real)
    requires AxesAligned(pose) && DistinctKeys(pose) && fps != 0.0 && IsSquareRoot(sqrt)
    requires i < |pose|
    ensures AxesAligned(pose[..i]) && AxesAligned(pose[..i + 1]) && Rectangular(pose[i].value)
    ensures Velocities(pose[..i + 1], fps, sqrt) == Velocities(pose[..i], fps, sqrt) + Contribution(pose[i], fps, sqrt)
    ensures Lookup(Velocities(pose[..i], fps, sqrt), pose[i].key).None?
  {
    var front := pose[..i];
    assert AxesAligned(front) && DistinctKeys(front) && AxesAligned(pose[..i + 1]) by {
      assert forall j :: 0 <= j < i ==> front[j] == pose[j];
      assert forall j :: 0 <= j <= i ==> pose[..i + 1][j] == pose[j];
    }
    assert pose[..i + 1][..i] == front;
    VelocitiesLookup(front, fps, sqrt, pose[i].key);
    assert forall j :: 0 <= j < |front| ==> front[j].key != pose[i].key;
  }

  /** `velocity_data` is a dictionary again: built from one, its keys are distinct. */
  lemma {:induction false} VelocitiesKeysDistinct(pose: seq<Item<Coords>>, fps: real, sqrt: real -> real)
    requires AxesAligned(pose) && DistinctKeys(pose) && fps != 0.0 && IsSquareRoot(sqrt)
    ensures DistinctKeys(Velocities(pose, fps, sqrt))
    decreases |pose|
  {
    if pose != [] {
      var n := |pose| - 1;
      var front := pose[..n];
      VelocitiesStep(pose, n, fps, sqrt);
      assert pose[..n + 1] == pose;
      assert DistinctKeys(front) by {
        assert forall j :: 0 <= j < n ==> front[j] == pose[j];
      }
      VelocitiesKeysDistinct(front, fps, sqrt);
      var vd := Velocities(front, fps, sqrt);
      var c := Contribution(pose[n], fps, sqrt);
      assert forall j :: 0 <= j < |c| ==> c[j].key == pose[n].key;
      assert forall j :: 0 <= j < |vd| ==> vd[j].key != pose[n].key;
    }
  }

  /** A landmark that never moves has zero velocity on every axis and zero speed. */
  lemma ConstantTrajectoryIsAtRest(c: Coords, fps: real, sqrt: real -> real)
    requires HasAllAxes(c) && AxesOfEqualLength(c) && fps != 0.0 && IsSquareRoot(sqrt)
    requires forall a, i, j :: a in c && 0 <= i < |c[a]| && 0 <= j < |c[a]| ==> c[a][i] == c[a][j]
    ensures var r := LandmarkVelocity(c, fps, sqrt);
      forall i :: 0 <= i < |r.speed3d| ==>
        r.velocityX[i] == 0.0 && r.velocityY[i] == 0.0 && r.velocityZ[i] == 0.0 && r.speed3d[i] == 0.0
  {
    var r := LandmarkVelocity(c, fps, sqrt);
    forall i | 0 <= i < |r.speed3d|
      ensures r.velocityX[i] == 0.0 && r.velocityY[i] == 0.0 && r.velocityZ[i] == 0.0 && r.speed3d[i] == 0.0
    {
      assert c["x"][i + 1] == c["x"][i] && c["y"][i + 1] == c["y"][i] && c["z"][i + 1] == c["z"][i];
      assert Square(r.velocityX[i]) + Square(r.velocityY[i]) + Square(r.velocityZ[i]) == 0.0;
      RootOfZero(sqrt);
      assert r.speed3d[i] == sqrt(0.0);
    }
  }

  // ---- validation ------------------------------------------------------------------------

  /** How `validate_velocities` ends: it returns its argument, it falls off the end of the
      loop and so returns `None`, or `np.max` of an empty speed array raises `ValueError`. */
  datatype Validation = ReturnsData(data: seq<Item<VelocityRecord>>) | ReturnsNone | RaisesValueError

  /** The landmark's maximum speed is above 10 m/s: the loop warns and goes on. */
  predicate TooFast(r: VelocityRecord)
  {
    |r.speed3d| > 0 && Max(r.speed3d) > 10.0
  }

  /** The index of the first entry from `i` on that is not too fast, or `|d|` if there is
      none. */
  function FirstNotTooFast(d: seq<Item<VelocityRecord>>, i: nat): (j: nat)
    requires i <= |d|
    ensures i <= j <= |d|
    ensures forall k :: i <= k < j ==> TooFast(d[k].value)
    ensures j < |d| ==> !TooFast(d[j].value)
    decreases |d| - i
  {
    if i == |d| || !TooFast(d[i].value) then i else FirstNotTooFast(d, i + 1)
  }

  /** The first entry that is not too fast is the one before which every entry is. */
  lemma FirstNotTooFastIs(d: seq<Item<VelocityRecord>>, j: nat)
    requires j <= |d| && forall k :: 0 <= k < j ==> TooFast(d[k].value)
    requires j < |d| ==> !TooFast(d[j].value)
    ensures FirstNotTooFast(d, 0) == j
  {
    var f := FirstNotTooFast(d, 0);
    assert !(f < j) by {
      if f < |d| {
        assert !TooFast(d[f].value);
      }
    }
  }

  /** The outcome of `validate_velocities(d)`, decided by the first landmark that is not too
      fast: there is none, so the loop ends and `None` is returned; it has no speeds, so
      `np.max` raises; or its maximum speed is at most 10 m/s, so `d` itself is returned. */
  function Validate(d: seq<Item<VelocityRecord>>): (r: Validation)
    ensures r.ReturnsData? ==> r.data == d
    ensures r == ReturnsNone <==> forall k :: 0 <= k < |d| ==> TooFast(d[k].value)
  {
    var j := FirstNotTooFast(d, 0);
    if j == |d| then ReturnsNone
    else if |d[j].value.speed3d| == 0 then RaisesValueError
    else ReturnsData(d)
  }

  /** The three outcomes of the validation, each stated through the landmarks that decide it.
      Whatever it returns other than `None` is its argument, unchanged. */
  lemma ValidateOutcomes(d: seq<Item<VelocityRecord>>)
    ensures Validate(d).ReturnsData? ==> Validate(d).data == d
    ensures Validate(d) == ReturnsNone <==> forall k :: 0 <= k < |d| ==> TooFast(d[k].value)
    ensures Validate(d).ReturnsData? <==>
      exists j :: 0 <= j < |d| && (forall k :: 0 <= k < j ==> TooFast(d[k].value))
        && |d[j].value.speed3d| > 0 && Max(d[j].value.speed3d) <= 10.0
    ensures Validate(d) == RaisesValueError <==>
      exists j :: 0 <= j < |d| && (forall k :: 0 <= k < j ==> TooFast(d[k].value))
        && |d[j].value.speed3d| == 0
  {
    forall j | 0 <= j < |d| && (forall k :: 0 <= k < j ==> TooFast(d[k].value)) && !TooFast(d[j].value)
      ensures FirstNotTooFast(d, 0) == j
    {
      FirstNotTooFastIs(d, j);
    }
  }

  /** An empty dictionary validates to `None`. */
  lemma ValidateEmpty()
    ensures Validate([]) == ReturnsNone
  {
  }

  // ---- the calculator object -------------------------------------------------------------

  /** The time column, when the table has one, has at least one positive step: otherwise the
      mean of the positive steps is that of an empty array, which numpy reports as NaN. */
  ghost predicate HasUsableClock(df: Option<Table>)
  {
    df.Some? && "t_sec" in df.value ==> |Positives(Diff(df.value["t_sec"]))| > 0
  }

  /** The time column steps by `d` from every sample to the next. */
  ghost predicate UniformClock(t: seq<real>, d: real)
  {
    forall i :: 0 <= i < |Diff(t)| ==> Diff(t)[i] == d
  }

  /** `VelocityCalculator`. Its only state is the data frame that `_convert_csv` stores in
      `self.df`; before that call the attribute does not exist (`None` here). */
  class VelocityCalculator {
    var df: Option<Table>

    /** `VelocityCalculator(fps)`: the argument is accepted and ignored. */
    constructor (fps: Option<real>)
      ensures df == None
    {
      df := None;
    }

    /** `_convert_csv` on the table read from the CSV file: stores the table and selects the
        key landmarks from it. */
    method ConvertCsv(table: Table) returns (pose: seq<Item<Coords>>)
      modifies this
      ensures df == Some(table)
      ensures pose == SelectLandmarks(table, KeyLandmarks)
      ensures DistinctKeys(pose)
      ensures forall i :: 0 <= i < |KeyLandmarks| ==>
        Lookup(pose, Lower(KeyLandmarks[i]))
          == if ColumnName("x", KeyLandmarks[i]) in table then Some(CoordsOf(table, KeyLandmarks[i])) else None
      ensures forall k :: (forall i :: 0 <= i < |KeyLandmarks| ==> Lower(KeyLandmarks[i]) != k) ==>
        Lookup(pose, k) == None
    {
      df := Some(table);
      pose := SelectLandmarks(table, KeyLandmarks);
      KeyLandmarksAreDistinctNames();
      SelectedKeysDistinct(table, KeyLandmarks);
      forall i | 0 <= i < |KeyLandmarks|
        ensures Lookup(pose, Lower(KeyLandmarks[i]))
          == if ColumnName("x", KeyLandmarks[i]) in table then Some(CoordsOf(table, KeyLandmarks[i])) else None
      {
        SelectedLookup(table, KeyLandmarks, KeyLandmarks[i]);
      }
      forall k | forall i :: 0 <= i < |KeyLandmarks| ==> Lower(KeyLandmarks[i]) != k
        ensures Lookup(pose, k) == None
      {
        UnlistedKeyAbsent(table, KeyLandmarks, k);
      }
    }

    /** `_get_fps_from_data`: the reciprocal of the mean positive step of the `t_sec`
        column when the stored table has one, and 30 otherwise. */
    function FpsFromData(): (fps: real)
      reads this
      requires HasUsableClock(df)
      ensures fps > 0.0
      ensures df.None? || "t_sec" !in df.value ==> fps == DefaultFps
      ensures df.Some? && "t_sec" in df.value ==> fps * Mean(Positives(Diff(df.value["t_sec"]))) == 1.0
    {
      if df.Some? && "t_sec" in df.value then
        var steps := Positives(Diff(df.value["t_sec"]));
        SumOfPositives(steps);
        MeanOfPositiveSum(steps);
        DivideThenMultiply(1.0, Mean(steps));
        1.0 / Mean(steps)
      else
        DefaultFps
    }

    /** `calculate_velocities`: one pass over the pose dictionary that stores the velocity
        record of every landmark with all three axes. */
    method CalculateVelocities(pose: seq<Item<Coords>>, fps: real, sqrt: real -> real)
      returns (velocityData: seq<Item<VelocityRecord>>)
      requires DistinctKeys(pose) && AxesAligned(pose)
      requires fps != 0.0 && IsSquareRoot(sqrt)
      ensures velocityData == Velocities(pose, fps, sqrt)
    {
      velocityData := [];
      for i := 0 to |pose|
        invariant velocityData == Velocities(pose[..i], fps, sqrt)
      {
        VelocitiesStep(pose, i, fps, sqrt);
        var landmark, coords := pose[i].key, pose[i].value;
        if "x" in coords && "y" in coords && "z" in coords {
          var x, y, z := coords["x"], coords["y"], coords["z"];
          var dx := AxisVelocity(x, fps);
          var dy := AxisVelocity(y, fps);
          var dz := AxisVelocity(z, fps);
          var speed3d := Speeds(dx, dy, dz, sqrt);
          var record := VelocityRecord(x, y, z, dx, dy, dz, speed3d, Timestamps(|x|, fps));
          assert record == LandmarkVelocity(coords, fps, sqrt);
          velocityData := Assign(velocityData, landmark, record);
        }
      }
      assert pose[..|pose|] == pose;
    }

    /** `validate_velocities`: walks the landmarks in order and returns at the first one whose
        maximum speed is at most 10 m/s; the report it prints is not modelled. */
    method ValidateVelocities(velocityData: seq<Item<VelocityRecord>>) returns (r: Validation)
      ensures r == Validate(velocityData)
    {
      for i := 0 to |velocityData|
        invariant forall k :: 0 <= k < i ==> TooFast(velocityData[k].value)
      {
        var speeds := velocityData[i].value.speed3d;
        if |speeds| == 0 {
          FirstNotTooFastIs(velocityData, i);
          return RaisesValueError;
        }
        var maxSpeed := Max(speeds);
        if maxSpeed > 10.0 {
          // suspiciously high: go on with the next landmark
        } else if maxSpeed > 5.0 {
          FirstNotTooFastIs(velocityData, i);
          return ReturnsData(velocityData);
        } else {
          FirstNotTooFastIs(velocityData, i);
          return ReturnsData(velocityData);
        }
      }
      FirstNotTooFastIs(velocityData, |velocityData|);
      return ReturnsNone;
    }

    /** `calculate_from_csv` on the table read from the CSV file. */
    method CalculateFromCsv(table: Table, sqrt: real -> real) returns (r: Validation)
      modifies this
      requires Rectangular(table) && HasUsableClock(Some(table)) && IsSquareRoot(sqrt)
      ensures df == Some(table)
      ensures AxesAligned(SelectLandmarks(table, KeyLandmarks))
      ensures r == Validate(Velocities(SelectLandmarks(table, KeyLandmarks), FpsFromData(), sqrt))
    {
      SelectionOfRectangularIsAligned(table, KeyLandmarks);
      var pose := ConvertCsv(table);
      var fps := FpsFromData();
      var velocityData := CalculateVelocities(pose, fps, sqrt);
      r := ValidateVelocities(velocityData);
    }
  }

  /** Without a time column, or before any table is stored, the frame rate is 30. */
  lemma DefaultFrameRate(c: VelocityCalculator)
    requires c.df.None? || "t_sec" !in c.df.value
    ensures c.FpsFromData() == 30.0
  {
  }

  /** A clock that steps uniformly by `d > 0` gives a frame rate of `1 / d`. */
  lemma UniformClockFps(c: VelocityCalculator, d: real)
    requires c.df.Some? && "t_sec" in c.df.value && |c.df.value["t_sec"]| >= 2
    requires d > 0.0 && UniformClock(c.df.value["t_sec"], d)
    ensures HasUsableClock(c.df)
    ensures c.FpsFromData() == 1.0 / d
  {
    var steps := Diff(c.df.value["t_sec"]);
    PositivesOfConstant(steps, d);
    MeanConstant(steps, d);
  }
}
