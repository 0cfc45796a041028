# ClimbLab analysis core in Dafny

The project is a Dafny model of the analysis stages of ClimbLab. ClimbLab turns pose
estimates from climbing videos into per-landmark speed signals and movement intervals. The
model covers four parts:

- **Column selection.** `VelocityCalculator._convert_csv` and `clean_data.Convert_CSV` build,
  from the wide pose table, a dictionary entry for each listed landmark that has an `x` column.
  The key is the lower-cased name. The value is the landmark's axis columns that exist.
- **Velocity calculator.** This covers:
  - `_get_fps_from_data`: the frame rate from the `t_sec` column, or 30;
  - `calculate_velocities`: forward differences times the frame rate, 3-D speed and timestamps
    for every landmark with all three axes;
  - `validate_velocities`: the loop that returns early;
  - `calculate_from_csv`, which chains the three.
- **Z-score normaliser.** `find_z_score_at_joint` computes `(s - mean) / std` over a landmark's
  speeds, using the population standard deviation.
- **Interval segmenter.** `find_movement_intervals` makes one forward scan with threshold
  `0.5 * max`. It keeps an open-start marker and emits `[start, end]` when a downward crossing
  closes a run of at least 7 samples.

Files:

- `wrappers.dfy`: `Option`.
- `numeric.dfy`: the numpy and built-in operations the code uses, over `real`:
  - `sum`, `mean`, population variance, `max`, `diff`;
  - scalar multiplication and boolean-mask filtering;
  - arithmetic lemmas.
- `dicts.dfy`: Python dictionaries as association lists in insertion order, with lookup and
  assignment.
- `pose_table.dfy`: the CSV table (`map<string, seq<real>>`), `str.lower`, and the selection
  comprehension shared by both selectors.
- `constants.dfy`: `KEY_LANDMARKS`.
- `clean_data.dfy`: `Convert_CSV`.
- `velocity_calculator.dfy`: the `VelocityCalculator` class, whose state is `self.df`, and the
  functions and lemmas about its results.
- `movement_phase_detector.dfy`: z-scores and the interval scan.

How the model represents the Python program:

- Numbers are `real`.
- `np.sqrt` is a parameter `sqrt` that must be an exact non-negative square root
  (`IsSquareRoot`).
- The table `pd.read_csv` returns is an argument, not a file.
- Dictionaries that are iterated in insertion order (`pose_data`, `velocity_data`) are
  sequences of `Item(key, value)` with distinct keys.

## Model

| member | source | states |
|---|---|---|
| MovementPhases.Threshold | src/analysis/movementphasedetector.py:34 | Twice the threshold is a sample of the signal, and no sample exceeds it. |
| MovementPhases.FindMovementIntervals | src/analysis/movementphasedetector.py:34-51 | The result is ordered: each pair ends before the next one starts. Every pair `[s, e]` has `1 <= s < e < len`, `z[s-1] <= thr`, `z[k] > thr` for every `k` in `[s, e)`, `z[e] <= thr` and `e - s >= 7`, where `thr = 0.5 * max(z)`. Every such run is in the result. A signal of at most 8 samples (a single sample among them) gives `[]`. |
| MovementPhases.SegmentationIsUnique | src/analysis/movementphasedetector.py:39-49 | The ordering and the two directions of membership determine the interval list completely. |
| MovementPhases.FindMovementIntervalsResettingAlways | src/analysis/movementphasedetector.py:41-49 | A variant of the scan that clears the marker after every downward crossing that finds it set. It also yields the segmentation. |
| MovementPhases.StaleMarkerIsUnobservable | src/analysis/movementphasedetector.py:45-49 | Clearing the marker only when a run is emitted (as written) returns the same list as clearing it always. |
| MovementPhases.NoRunsNoIntervals | src/analysis/movementphasedetector.py:39-51 | A signal with no qualifying run yields the empty list. |
| MovementPhases.NonPositivePeakGivesNoIntervals | src/analysis/movementphasedetector.py:35-41 | If `max(z) <= 0`, the threshold is at or above every sample and nothing is emitted. |
| MovementPhases.LeadingRunNeverEmitted | src/analysis/movementphasedetector.py:37-45 | A run that is above the threshold from sample 0 through `p - 1` is never emitted. The marker is still unset at its downward crossing, so every interval starts after `p`. |
| MovementPhases.TrailingRunNeverEmitted | src/analysis/movementphasedetector.py:39-45 | A run that is still above the threshold at the last sample is never emitted, because there is no downward crossing. Every interval ends before the run starts. |
| MovementPhases.ShortRunNeverEmitted | src/analysis/movementphasedetector.py:45-48 | A complete run `[s, e)` above the threshold that is shorter than 7 samples is not emitted, and no interval overlaps it. |
| MovementPhases.ThresholdSampleIsOutside | src/analysis/movementphasedetector.py:41-45 | A sample exactly at the threshold counts as not above it: it lies inside no interval (it can only end one). |
| MovementPhases.StepSignalSegmentation | src/analysis/movementphasedetector.py:34-51 | Take a step signal with a positive block strictly inside it and a baseline at or below half the block value. It is segmented into exactly that block when the block has at least 7 samples, and into nothing otherwise. |
| MovementPhases.Standardize | src/analysis/movementphasedetector.py:67 | The comprehension keeps the length, and each result times `sd` is that element minus `m`. |
| MovementPhases.StandardDeviation | src/analysis/movementphasedetector.py:65 | `np.std` is non-negative and its square is the population variance. It is positive exactly when the variance is. |
| MovementPhases.ZScores | src/analysis/movementphasedetector.py:64-67 | There is one z-score per speed, and `z[i] * std == speeds[i] - mean`. The variance must be positive. |
| MovementPhases.ZScoresKeepOrder | src/analysis/movementphasedetector.py:67 | `speeds[i] < speeds[j]` holds exactly when `z[i] < z[j]`. |
| MovementPhases.SumStandardize | src/analysis/movementphasedetector.py:67 | The sum of the standardized values times `sd` is `sum(s) - len(s) * m`. |
| MovementPhases.SquaredDeviationsStandardize | src/analysis/movementphasedetector.py:67 | The squared deviations of the standardized values times `sd ** 2` are the squared deviations of `s` from `m`. |
| MovementPhases.StandardizeMeanZero | src/analysis/movementphasedetector.py:64-67 | Standardizing by the mean gives mean 0 for any positive divisor. |
| MovementPhases.StandardizeUnitVariance | src/analysis/movementphasedetector.py:64-67 | Standardizing by the mean and the root of the variance gives population variance 1. |
| MovementPhases.ZScoresMeanZero | src/analysis/movementphasedetector.py:64-67 | The z-scores have mean 0. |
| MovementPhases.ZScoresUnitVariance | src/analysis/movementphasedetector.py:64-67 | The z-scores have population variance 1. |
| MovementPhases.FindZScoreAtJoint | src/analysis/movementphasedetector.py:53-82 | `KeyError` occurs exactly when the landmark is absent. `ValueError` occurs exactly when its speed array is empty (`np.min` at line 58). The result is all NaN exactly when the speeds are constant. Otherwise there is one z-score per speed, with mean 0, variance 1 and `z[i] * std == s[i] - mean`. |
| Numeric.Max | src/analysis/movementphasedetector.py:34 | `max` is an element that no element exceeds. |
| Numeric.Mean | src/analysis/movementphasedetector.py:64 | `np.mean` of a non-empty sequence times its length is its sum. |
| Numeric.Diff | src/analysis/velocitycalculator.py:74-76 | `np.diff` has length `n - 1` (0 for an empty array), with `d[i] == a[i+1] - a[i]`. |
| Numeric.Variance | src/analysis/movementphasedetector.py:65 | The population variance is non-negative. |
| Numeric.VarianceZeroIffConstant | src/analysis/movementphasedetector.py:65-67 | The variance is 0 exactly when all speeds are equal. This is the case with no guard in the source. |
| Numeric.Positives | src/analysis/velocitycalculator.py:37 | `a[a > 0]` is no longer than `a`, and holds exactly the positive elements of `a`. |
| Numeric.PositivesAppend | src/analysis/velocitycalculator.py:37 | The filter works element by element, keeping order: filtering `a + b` gives the filtered `a` followed by the filtered `b`. |
| Dicts.Lookup | src/analysis/movementphasedetector.py:54 | `d[k]` is absent exactly when no entry has key `k`. Otherwise it is the value of an entry with that key. |
| Dicts.LookupEntry | src/analysis/movementphasedetector.py:54 | With distinct keys, looking up an entry's key finds that entry's value. |
| Dicts.Assign | src/analysis/velocitycalculator.py:81 | `d[k] = v` appends `Item(k, v)` for a new key. For an existing key it overwrites in place: the keys stay the same, in the same order. |
| Dicts.AssignLookup | src/analysis/velocitycalculator.py:81 | After `d[k] = v`, `k` maps to `v` and every other key keeps its value. |
| PoseTable.Lower | src/analysis/velocitycalculator.py:49 | `str.lower` keeps the length and lower-cases each ASCII letter. |
| PoseTable.LowerInjective | src/analysis/velocitycalculator.py:49 | Lower-casing never merges two upper-case landmark names. |
| PoseTable.CoordsOf | src/analysis/velocitycalculator.py:49-53 | The inner comprehension holds axis `c` exactly when `c` is in `x, y, z` and column `c_world_L` exists. The values are the column's values unchanged. |
| PoseTable.SelectLandmarks | src/analysis/velocitycalculator.py:48-56 | The selection has at most one entry per listed landmark. |
| PoseTable.SelectedEntries | src/analysis/velocitycalculator.py:48-56 | Every entry is `lower(L)` mapped to `L`'s coordinates, for some listed `L` with an `x` column. |
| PoseTable.SelectedLookup | src/analysis/velocitycalculator.py:48-56 | Listed landmark `L` is present under `lower(L)` exactly when `x_world_L` exists, and then it holds `L`'s coordinates. |
| PoseTable.UnlistedKeyAbsent | src/analysis/velocitycalculator.py:48-56 | No key other than a lower-cased listed name is present. |
| PoseTable.SelectedKeysDistinct | src/analysis/velocitycalculator.py:48-56 | The selected keys are distinct. |
| PoseTable.SelectIgnoresOtherColumns | src/analysis/velocitycalculator.py:48-56 | Two tables that agree on the listed landmarks' axis columns give the same selection. |
| PoseTable.SelectionOfRectangularIsAligned | src/analysis/velocitycalculator.py:46-56 | The columns of one data frame have equal lengths, so every selected landmark's axes do too. |
| Constants.KeyLandmarksAreDistinctNames | src/core/constants.py:6-17 | The six key landmarks are distinct upper-case names. |
| CleanData.CleanLandmarksAreDistinctNames | src/clean_data.py:10 | The twelve listed landmarks are distinct upper-case names. |
| CleanData.ConvertCsv | src/clean_data.py:8-22 | There are at most 12 entries, and keys are distinct. Listed landmark `L` is present under `lower(L)` exactly when `x_world_L` exists, so a landmark with only `y` and `z` is dropped. Its value holds just the existing axis columns, unchanged. No other key is present. |
| CleanData.ConvertCsvIgnoresOtherColumns | src/clean_data.py:12-20 | Columns outside the twelve landmarks' axis columns do not affect the result. |
| Velocity.AxisVelocity | src/analysis/velocitycalculator.py:74-76 | `np.diff(a) * fps` has length `n - 1`, with `v[i] == (a[i+1] - a[i]) * fps`. |
| Velocity.SumsOfSquaresNonNegative | src/analysis/velocitycalculator.py:79 | `dx**2 + dy**2 + dz**2` is non-negative, so its root is defined. |
| Velocity.Speeds | src/analysis/velocitycalculator.py:79 | Each speed is non-negative, and its square is `dx[i]**2 + dy[i]**2 + dz[i]**2`. |
| Velocity.Timestamps | src/analysis/velocitycalculator.py:89 | There are `n` timestamps, with `t[i] * fps == i`. |
| Velocity.LandmarkVelocity | src/analysis/velocitycalculator.py:69-90 | The positions pass through unchanged. The velocities and speeds have length `N - 1`, and the timestamps have length `N`. |
| Velocity.LandmarkVelocityAtStep | src/analysis/velocitycalculator.py:74-79 | At step `i`, each axis velocity is `(a[i+1] - a[i]) * fps`. The speed is non-negative, and its square is the sum of the squared axis velocities. |
| Velocity.LandmarkTimestamp | src/analysis/velocitycalculator.py:89 | Sample `i` is stamped `i / fps` seconds. |
| Velocity.ContributionLookup | src/analysis/velocitycalculator.py:66-90 | One pose entry adds a record only under its own key, and only when it has all three axes. |
| Velocity.Velocities | src/analysis/velocitycalculator.py:64-92 | `velocity_data` has at most as many entries as `pose_data`. |
| Velocity.VelocitiesLookup | src/analysis/velocitycalculator.py:66-90 | `velocity_data[k]` exists exactly when `pose_data[k]` has `x`, `y` and `z`, and then it is that landmark's record. Other landmarks are dropped. |
| Velocity.VelocitiesKeysDistinct | src/analysis/velocitycalculator.py:64-92 | `velocity_data` built from a dictionary has distinct keys again. |
| Velocity.VelocitiesStep | src/analysis/velocitycalculator.py:66-90 | Step `i` of the loop meets a key that is not yet in `velocity_data`, so `velocity_data[landmark] = ...` appends the entry's contribution. |
| Velocity.ConstantTrajectoryIsAtRest | src/analysis/velocitycalculator.py:74-79 | A landmark that never moves has every axis velocity and every speed 0. |
| Velocity.FirstNotTooFast | src/analysis/velocitycalculator.py:102-116 | This is the index where the loop stops warning. Every earlier landmark has maximum speed above 10; the one at the index (if any) does not. |
| Velocity.FirstNotTooFastIs | src/analysis/velocitycalculator.py:102-116 | That index is unique. |
| Velocity.Validate | src/analysis/velocitycalculator.py:102-123 | A returned dictionary is the argument itself, and `None` is returned exactly when every landmark's maximum speed exceeds 10. |
| Velocity.ValidateOutcomes | src/analysis/velocitycalculator.py:102-123 | A returned dictionary is the argument, unchanged. `None` is returned exactly when every landmark's maximum exceeds 10. The argument is returned exactly when the first landmark not above 10 has speeds with maximum at most 10. `ValueError` occurs exactly when that landmark has no speeds. |
| Velocity.ValidateEmpty | src/analysis/velocitycalculator.py:102-123 | An empty dictionary gives `None`. |
| Velocity.VelocityCalculator.constructor | src/analysis/velocitycalculator.py:17-18 | The `fps` argument is ignored, and no table is stored yet. |
| Velocity.VelocityCalculator.ConvertCsv | src/analysis/velocitycalculator.py:45-58 | Stores the table as `self.df` and returns the selection of `KEY_LANDMARKS`. Keys are distinct. A listed landmark is present exactly when it has an `x` column, with its existing axis columns. No other key is present. |
| Velocity.VelocityCalculator.FpsFromData | src/analysis/velocitycalculator.py:33-43 | The frame rate is positive. It is 30 without a table or without `t_sec`. Otherwise it times the mean positive step of `t_sec` is 1. |
| Velocity.DefaultFrameRate | src/analysis/velocitycalculator.py:41-43 | Without a time column, the frame rate is 30. |
| Velocity.UniformClockFps | src/analysis/velocitycalculator.py:35-38 | A clock with uniform step `d > 0` gives frame rate `1 / d`. |
| Velocity.VelocityCalculator.CalculateVelocities | src/analysis/velocitycalculator.py:60-92 | The loop builds exactly `Velocities(pose, fps)`, whose lookups `VelocitiesLookup` characterises. |
| Velocity.VelocityCalculator.ValidateVelocities | src/analysis/velocitycalculator.py:95-123 | The loop with early returns ends exactly as `Validate` says, whose outcomes `ValidateOutcomes` characterises. |
| Velocity.VelocityCalculator.CalculateFromCsv | src/analysis/velocitycalculator.py:20-31 | Stores the table. The result is the validation of the velocities of the key-landmark selection at the inferred frame rate. |

## Left out

- All `print` output. This includes the validation report, with its `np.mean` and
  `np.percentile` of the speeds, and the z-score diagnostics after the comprehension. Only the
  `np.min` in the diagnostic line before the mean matters, because it raises on an empty array.
- `MovementPhaseDetector.segment_motions`: as written, it cannot run. It passes keyword
  arguments that `VelocityCalculator.__init__` does not accept, and it asks for `left_knee`,
  which is not a key landmark. It only prints.
- `pd.read_csv`: the table is an argument. The table is given as columns of real numbers; the
  header and number parsing are not modelled.
- `src/pose_extract.py`, `src/widen_data.py`, `src/core/engine.py`: I/O, foreign calls and
  command-line orchestration are not part of this model.
- Floating point: values are reals, so there is no rounding, no NaN propagation and no infinity.
  `np.sqrt` is any exact non-negative root.
- MovementPhases.FindMovementIntervals: an empty signal is excluded by its precondition. In
  Python, `max` raises `ValueError` there.
- MovementPhases.ZScores: requires a positive variance. `FindZScoreAtJoint` covers the
  constant signal separately as the all-NaN outcome, without modelling the NaN values.
- Velocity.VelocityCalculator.FpsFromData: requires that a `t_sec` column has at least one
  positive step. Without one, numpy's mean of an empty array gives NaN, and that is not
  modelled.
- Velocity.VelocityCalculator.CalculateVelocities: requires `fps != 0`. It also requires every
  landmark's axes to have equal lengths, as they do for any selection from one data frame;
  numpy's broadcasting errors for unequal axes are not modelled.
- Velocity.LandmarkVelocity: states only lengths and pass-through. The per-step formulas are in
  `LandmarkVelocityAtStep` and `LandmarkTimestamp`.
- Velocity.Velocities: states only the size bound. Its content is stated by `VelocitiesLookup`.
  That the output keeps the input's key order is not stated as a lemma.
- Velocity.VelocityCalculator.CalculateVelocities: `fps` is a required parameter. The default
  `fps=30.0` of `calculate_velocities` is not modelled, because its only caller (velocitycalculator.py:25) passes `fps`.
- The `fps` argument of `VelocityCalculator` is unused in the source, so it is unused in the
  model.

What the code does not do, although a reader might expect it:

- The marker is cleared only after an emitted run, not after every downward crossing.
  `StaleMarkerIsUnobservable` proves that this makes no difference.
- `calculate_velocities` raises no error for a one-sample trajectory; its record has no
  velocities and one timestamp. The next stage raises `ValueError` instead: `np.max` in
  `validate_velocities` (`Validate` gives `RaisesValueError`), or `np.min` in
  `find_z_score_at_joint` (`FindZScoreAtJoint` gives `EmptySpeeds`).
- There is no zero-variance guard: a constant speed signal gives NaN z-scores.
- Validation returns at the first landmark whose maximum is at most 10. It does not check every
  landmark, and it returns `None` when every landmark is too fast.
