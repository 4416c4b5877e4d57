# Rollover-interval classifier of the time-interval rolling-file policy

Kibana's rolling-file log appender can rotate files on a time interval. Before
it accepts a configured interval, it classifies the interval with two pure
operations:

- `getHighestTimeUnit(duration)` gives the coarsest unit of the ladder
  millisecond < second < minute < hour < day < week < month < year that the
  duration reaches. A magnitude that reaches its unit's threshold moves one rung
  up, and this repeats. The thresholds are 1000 ms, 60 s, 60 min, 24 h, 7 d,
  4 w and 12 M. Year is terminal.
- `isValidRolloverInterval(duration)` holds when the magnitude, re-expressed
  in that highest unit, is a whole number. For example, 2000 ms is 2 s and is
  valid; 2500 ms is 2.5 s and is not.

The model is of the two functions that the module `./utils` exports. The
module's code is not available, so their behaviour is rebuilt from the test
suite that pins it down. That suite is
`src/core/server/logging/appenders/rolling_file/policies/time_interval/utils.test.ts`,
abbreviated `utils.test.ts` below.

Files:

- `time_units.dfy` (module `TimeUnits`): the `Unit` ladder and its `Rank`,
  `Next` and `Prev`. It also holds the reported unit `Name`s, the `Threshold`
  table, and `MsPer`, the length of each unit in milliseconds. `MsPer` is
  proved consistent with the threshold table.
- `real_facts.dfy` (module `RealFacts`): exact real arithmetic helpers and
  `IsWhole` (a real equal to its floor).
- `classifier.dfy` (module `DurationClassifier`) holds the following.
  - `Duration(unit, amount)`.
  - The ladder walk, in two forms. `ClimbLadder` is the loop that divides the
    value by each threshold it passes. `Promote` is the same walk phrased on
    the duration's length in milliseconds.
  - `HighestTimeUnit` and `IsValidRolloverInterval`.
  - `IsHighestUnit`, a reference definition of "highest unit" that does not
    walk the ladder, and `CoarsestReached`, a second, top-down one.
  - The laws connecting all of these.
- `scenarios.dfy` (module `Scenarios`): every input/output pair of the test
  suite, stated as a fact about the model.

Both operations are total on their domain. Their only precondition is a
non-negative amount, and as Dafny functions they are deterministic.

## Model

| member | source | states |
|---|---|---|
| TimeUnits.Threshold | src/core/server/logging/appenders/rolling_file/policies/time_interval/utils.test.ts:37-45 | every non-year unit overflows at a count of at least two, and that count of the unit is exactly as long as one of the next unit (1000 ms = 1 s, 60 s = 1 min, 60 min = 1 h, 24 h = 1 d, 7 d = 1 w, 4 w = 1 M, 12 M = 1 Y); year has none |
| TimeUnits.MsPerStep | src/core/server/logging/appenders/rolling_file/policies/time_interval/utils.test.ts:37-45 | one instance of the next unit is exactly `Threshold(u)` instances of `u` (1000 ms = 1 s, ..., 4 w = 1 M, 12 M = 1 Y), so the unit-length table and the threshold table describe the same ladder |
| TimeUnits.MsPerIncreasing | src/core/server/logging/appenders/rolling_file/policies/time_interval/utils.test.ts:26-45 | the ladder is strictly ordered: a coarser unit is strictly longer than every finer one |
| DurationClassifier.ReachesThreshold | src/core/server/logging/appenders/rolling_file/policies/time_interval/utils.test.ts:37-45 | a value in unit `u` reaches `u`'s threshold exactly when the length reaches one instance of the next unit, in both directions |
| DurationClassifier.Promote | src/core/server/logging/appenders/rolling_file/policies/time_interval/utils.test.ts:37-45 | the cascading walk stops at the highest unit: not below the start, at least one of it when it moved, and less than one of the next unit unless it is year |
| DurationClassifier.HighestTimeUnit | src/core/server/logging/appenders/rolling_file/policies/time_interval/utils.test.ts:25-45 | getHighestTimeUnit: the result is the highest unit, never below the input unit; it differs from the input unit if and only if the unit is not year and the amount is at or over its threshold (so year never promotes) |
| DurationClassifier.IsValidRolloverInterval | src/core/server/logging/appenders/rolling_file/policies/time_interval/utils.test.ts:48-78 | isValidRolloverInterval: a whole amount is valid exactly when its length in milliseconds is a multiple of its highest unit's length; an amount that keeps its own unit is valid exactly when it is whole |
| DurationClassifier.StopIsHighest | src/core/server/logging/appenders/rolling_file/policies/time_interval/utils.test.ts:37-45 | a walk state that kept the length, only climbed past reached thresholds and fails the next one is the highest unit, and its value is the magnitude in that unit |
| DurationClassifier.HighestUnitUnique | src/core/server/logging/appenders/rolling_file/policies/time_interval/utils.test.ts:25-45 | at most one unit satisfies the highest-unit definition, so each duration maps to exactly one unit |
| DurationClassifier.HighestTimeUnitCharacterized | src/core/server/logging/appenders/rolling_file/policies/time_interval/utils.test.ts:25-45 | a unit satisfies the reference definition if and only if it is what getHighestTimeUnit returns |
| DurationClassifier.ClimbLadder | src/core/server/logging/appenders/rolling_file/policies/time_interval/utils.test.ts:39-62 | the divide-by-threshold loop ends at getHighestTimeUnit's unit, holding the magnitude in exactly that unit; that value is whole if and only if isValidRolloverInterval holds (90 s stops at minute with 1.5, hence invalid) |
| DurationClassifier.NonPromotingKeepsUnit | src/core/server/logging/appenders/rolling_file/policies/time_interval/utils.test.ts:26-58 | an amount below its unit's threshold, or any amount of years, keeps its own unit; a whole such amount is a valid interval |
| DurationClassifier.ThresholdPromotes | src/core/server/logging/appenders/rolling_file/policies/time_interval/utils.test.ts:37-45 | an amount exactly at the threshold promotes, since the comparison is "at or over", to exactly one of the next unit, which is valid |
| DurationClassifier.HighestUnitMonotone | src/core/server/logging/appenders/rolling_file/policies/time_interval/utils.test.ts:26-45 | a larger amount of the same unit never has a finer highest unit |
| DurationClassifier.ValidIffDivisible | src/core/server/logging/appenders/rolling_file/policies/time_interval/utils.test.ts:60-77 | a whole amount is a valid interval if and only if its length in milliseconds is a multiple of its highest unit's length; fractional promotions are invalid and whole ones valid |
| DurationClassifier.CoarsestReached | src/core/server/logging/appenders/rolling_file/policies/time_interval/utils.test.ts:25-45 | an independent top-down search: the coarsest unit of which the length makes at least one, with every coarser unit out of reach |
| DurationClassifier.TopDownAgrees | src/core/server/logging/appenders/rolling_file/policies/time_interval/utils.test.ts:25-45 | for amounts of at least one, the ladder walk and the top-down search return the same unit |
| DurationClassifier.SameLengthSameClassification | src/core/server/logging/appenders/rolling_file/policies/time_interval/utils.test.ts:70-77 | two spellings of the same length (120 s and 2 min) get the same highest unit and the same validity verdict |
| Scenarios.HighestUnitWithoutOverflow | src/core/server/logging/appenders/rolling_file/policies/time_interval/utils.test.ts:26-35 | 500ms, 30s, 15m, 12h, 4d, 3w, 7M and 7Y keep their own unit |
| Scenarios.HighestUnitWithOverflow | src/core/server/logging/appenders/rolling_file/policies/time_interval/utils.test.ts:37-45 | 2000ms goes to second, 90s to minute, 75m to hour, 36h to day, 9d to week, 15w to month, 23M to year |
| Scenarios.ReportedNames | src/core/server/logging/appenders/rolling_file/policies/time_interval/utils.test.ts:27-44 | each unit is reported under the name the tests compare against, and distinct units have distinct names |
| Scenarios.ValidWithoutOverflow | src/core/server/logging/appenders/rolling_file/policies/time_interval/utils.test.ts:49-58 | the eight non-overflowing intervals are valid |
| Scenarios.InvalidFractionalOverflow | src/core/server/logging/appenders/rolling_file/policies/time_interval/utils.test.ts:60-68 | 2500ms, 90s, 75m, 36h, 9d, 15w and 23M are invalid |
| Scenarios.HighestUnitOfWholeOverflow | src/core/server/logging/appenders/rolling_file/policies/time_interval/utils.test.ts:70-77 | 2000ms, 120s, 240m, 48h, 14d and 24M reach second, minute, hour, day, week and year |
| Scenarios.ValidWholeOverflow | src/core/server/logging/appenders/rolling_file/policies/time_interval/utils.test.ts:70-77 | 2000ms, 120s, 240m, 48h, 14d and 24M are valid |
| Scenarios.PromotedValues | src/core/server/logging/appenders/rolling_file/policies/time_interval/utils.test.ts:37-77 | 2500ms, 90s, 75m, 36h, 9d, 15w, 23M and 24M climb to second, minute, hour, day, week, month, year and year, where they are 2.5 s, 1.5 min, 1.25 h, 1.5 d, 9/7 w, 3.75 M, 23/12 Y and exactly 2 Y |

## Left out

- Parsing of duration strings such as `"500ms"` through the configuration
  schema library is left out. It is a foreign library. The model takes the
  (unit, amount) pair it produces as a `Duration`.
- The duration library's own conversions are left out: `Duration` objects and
  any calendar-aware month or year lengths. The model uses the fixed threshold
  table instead, so a month is 4 weeks and a year is 12 such months.
- Floating point is left out. Magnitudes are exact reals, and "integer" means
  equal to its own floor.
- Negative magnitudes are excluded by a precondition. Their behaviour is
  unspecified, and rejecting them is the duration parser's job.
- The rolling-file appender, the time-interval policy that consumes the
  validated interval, file naming, rotation and all I/O are left out. They
  are outside the classifier.
- Promote: this function walks on the duration's length in milliseconds and
  compares it with one instance of the next unit. It does not divide the value
  by the threshold. `ReachesThreshold` proves the two tests equivalent.
  `ClimbLadder` is the dividing loop as written, and it is proved to stop at
  the same unit.
- TopDownAgrees: requires an amount of at least one. Below one, the ladder
  walk keeps the input unit: 0.5 s stays second, while a top-down search over
  the length would answer millisecond.
- SameLengthSameClassification: requires amounts of at least one, for the
  same reason. 500 ms and 0.5 s have the same length but different highest
  units.
