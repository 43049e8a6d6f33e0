# LOTTR transform, modelled in Dafny

This is a model of the batch transform in `main.py`. The transform turns NPMRDS
probe-speed feeds into travel-time reliability tables. A feed row has:

- a road segment (`tmc_code`);
- a timestamp (`DATETIME`);
- a speed (`MPH`) and a travel time (`TT_SEC`), either of which may be missing.

The model covers three parts of the transform.

- **Time bucketer** (`add_hod_dow_tod_to_dataset`; module `TimeBucketer`, file
  `time_bucketer.dfy`).
  - It adds the hour of day (HOD) and the day of week (DOW, Sunday = 1 … Saturday = 7).
  - It adds the time-of-day period (TOD). TOD starts as `EV` and is overwritten by four
    masked assignments in order: `AM`, `MD`, `PM`, `WE`.
  - That loop is imperative: `AddTimeBuckets` fills HOD, DOW and TOD arrays. Each
    assignment is one `AssignWhere` pass over the TOD array.
  - The result is proved equal to the pure `BucketAll`.
  - `TimeOfDayOf` states the closed-form period table, and both directions of each
    period's condition are proved. The rules are proved disjoint, so the order of the
    overwrites does not matter.
- **Reliability calculator** (`add_lottr_to_dataset`; module `Reliability`, with the
  percentile rule in `Quantiles` and column naming in `Decimal`).
  - It rejects a percentile outside 0..100 with the source's message.
  - It drops rows without a travel time.
  - For each (tmc_code, TOD) group it takes the q1-th and q2-th percentiles of the
    travel times, by numpy's `closest_observation` method. The model implements that
    method as definition 3 of Hyndman and Fan (1996): take the observation whose 1-based
    rank is `n·q/100`, with a half rounded to the even rank, raised to 1 when it would
    be 0. numpy releases have differed on the tie (see "Left out").
  - It left-joins the two percentiles back onto every row.
  - It adds LOTTR = TTQ2P / TTQ1P and names the columns `TT{q1}P` and `TT{q2}P`.
  - This stage is pure and is modelled as functions.
- **Interstate truck merge** (main code, sections 1–3; module `Merge`).
  1. The all-vehicle feed is bucketed and gets the 50th/80th percentiles.
  2. The truck feed is re-indexed on the all-vehicle keys, bucketed, given the
     50th/95th percentiles and prefixed `TRK_`.
  3. The two are left-joined on (tmc_code, DATETIME).
  4. `FLAG` is set to 1 where `TRK_TT_SEC` is missing and filled with 0 elsewhere.
  5. The truck speed and travel time of flagged rows are replaced by the all-vehicle
     ones.
  6. The duplicated TRK_ key and bucket columns are dropped.
  - Steps 4–6 are a sequence of in-place column updates. `FlagAndImpute` models them as
    loops over a local copy of the frame and the FLAG column.
  - `MergeInterstate` runs the whole pipeline. Its contract states FLAG (1 exactly when
    the truck feed has no travel time for the row's key) and where each truck value
    comes from.

Both feeds must have unique (tmc_code, DATETIME) keys. pandas' merge multiplies rows on
duplicate keys, and the model does not cover that (see "Left out").

Another common percentile definition uses the rank `q·(n−1)/100`. The closest-observation
method the code asks for uses `n·q/100`, and so does the model.

## Model

| member | source | states |
|---|---|---|
| TimeBucketer.DayOfWeek | main.py:58 | the DOW of a Monday=0 weekday is in 1..7 and equals (weekday+1) mod 7 + 1, so Sunday is 1 and Saturday is 7 |
| TimeBucketer.ApplyRules | main.py:61-65 | after the masked assignments in order, a row holds the period of the last mask it matches, or the initial value when it matches none |
| TimeBucketer.TimeOfDayOf | main.py:61-65 | a row is AM iff DOW in 2..6 and HOD in 6..9; MD iff DOW in 2..6 and HOD in 10..15; PM iff DOW in 2..6 and HOD in 16..19; WE iff DOW is 1 or 7 and HOD in 6..19; EV otherwise |
| TimeBucketer.RulesDisjoint | main.py:62-65 | no hour and day is matched by two different masks |
| TimeBucketer.ApplyDisjointRules | main.py:61-65 | after disjoint masked assignments, a row holds the period of the one mask it matches, or the initial value when it matches none |
| TimeBucketer.OverwriteOrderIrrelevant | main.py:61-65 | running the four masked assignments in any order, with repetitions, gives the same TOD |
| TimeBucketer.Bucket | main.py:55-65 | a bucketed row keeps its observation, its HOD is the timestamp's hour, its DOW is (weekday+1) mod 7 + 1 and its TOD is the closed-form period of that HOD and DOW |
| TimeBucketer.BucketAll | main.py:52-67 | one bucketed row per input row, in order, each with the observation, HOD, DOW and TOD of its input row |
| TimeBucketer.AssignWhere | main.py:62 | one masked assignment: rows matching the mask get the period, every other row keeps its old TOD |
| TimeBucketer.AddTimeBuckets | main.py:52-67 | the imperative bucketer gives one row per input row, in order, with the observation unchanged, HOD in 0..23, DOW in 1..7 and TOD by the closed-form table |
| Decimal.DecimalRoundTrip | main.py:81 | the decimal rendering of a percentile reads back as the same number |
| Decimal.DecimalString | main.py:81 | the rendering is non-empty decimal digits; 0 renders as "0" and a positive number has no leading zero |
| Decimal.DecimalStringUnique | main.py:81 | a digit string without a leading zero that reads as n is the rendering of n, so the rendering is the only canonical one |
| Quantiles.Sort | main.py:76-77 | the sorted sample is ordered and a permutation of the input |
| Quantiles.NearestRankIndex | main.py:76-77 | the chosen rank is within 1/2 of x/100; a tie goes to the even rank; a rank below 1/2 becomes rank 1; the index is in range |
| Quantiles.ClosestObservationIndex | main.py:76-77 | the same, for the rank n·q/100 of the closest-observation method |
| Quantiles.ClosestObservation | main.py:76-77 | a percentile is always one of the observed values |
| Quantiles.NearestRankIndexMonotone | main.py:76-77 | a larger rank position never picks a lower index |
| Quantiles.ClosestObservationIndexMonotone | main.py:76-77 | a larger q never picks a lower index |
| Quantiles.ClosestObservationMonotone | main.py:76-77 | for q1 ≤ q2 the q1-th percentile does not exceed the q2-th |
| Quantiles.ClosestObservationExtremes | main.py:76-77 | the 0th percentile is at most every value and the 100th at least every value |
| Quantiles.FiveSampleIndexes | main.py:76-77 | for five values the 50th, 80th and 95th percentiles are the 2nd, 4th and 5th order statistics |
| Quantiles.FiveSampleExample | main.py:76-77 | for travel times 10, 10, 10, 10, 20 the 50th and 80th percentiles are 10 and the 95th is 20 |
| Reliability.DropMissing | main.py:74 | the rows kept are exactly the input rows that have a travel time (counts in DropMissingKeepsCounts; the order within each group in DropMissingKeepsGroupValues) |
| Reliability.DropMissingKeepsCounts | main.py:74 | each row with a travel time is kept as many times as it occurs in the input, every other row not at all, and the result is no longer than the input |
| Reliability.GroupValuesAreObserved | main.py:76-77 | a group's sample holds exactly the travel times observed in that group |
| Reliability.GroupValues | main.py:76-77 | a group's sample has at most one value per input row (exact counts in GroupValuesCounts) |
| Reliability.GroupValuesCounts | main.py:76-77 | each row of the group that has a travel time contributes it exactly once, so a value occurs in the sample as many times as rows of the group have it and duplicates are kept |
| Reliability.MeasuredIffSampled | main.py:76-77 | a group's sample is non-empty exactly when some row of the group has a travel time |
| Reliability.DropMissingKeepsGroupValues | main.py:74-77 | dropping rows without a travel time leaves every group's sample unchanged |
| Reliability.MeasuredAfterDrop | main.py:74-78 | a group has a travel time after the drop exactly when it had one before |
| Reliability.GroupPercentiles | main.py:76-77 | both percentiles of a group are values of its sample, and the lower one does not exceed the higher |
| Reliability.PercentileTable | main.py:76-77 | the aggregation has an entry for exactly the groups that have a travel time |
| Reliability.Lottr | main.py:80 | LOTTR is present iff both percentiles are present and TTQ1P is not zero, and then LOTTR·TTQ1P = TTQ2P |
| Reliability.JoinRow | main.py:78-80 | the left join keeps the row; its percentiles are present iff its group is in the table, and are then the table's pair for the group; LOTTR is computed from them |
| Reliability.LeftJoinPercentiles | main.py:78-80 | one joined row per input row, in order, each as JoinRow states |
| Reliability.ColumnName | main.py:81 | the column name is "TT", the decimal digits of q, then "P", with no leading zero and "TT0P" for 0 (the digits are the unique canonical ones by DecimalStringUnique) |
| Reliability.ColumnNamesDistinct | main.py:81 | different percentiles give different column names |
| Reliability.AddLottr | main.py:69-82 | fails with the source's message iff q1 or q2 is outside 0..100; otherwise one output row per input row, in order, each holding its input row unchanged, with the columns named by ColumnName |
| Reliability.AddLottrRow | main.py:74-78 | row i of the result is input row i left-joined with the percentile table of the rows that have a travel time |
| Reliability.AddLottrPercentiles | main.py:73-78 | each row's percentiles are present iff its (tmc_code, TOD) group has a travel time; each is a travel time observed in the group; for q1 ≤ q2 the first does not exceed the second |
| Reliability.AddLottrRatio | main.py:80 | a row's LOTTR is present iff its group has a travel time and TTQ1P is not zero, and is then TTQ2P / TTQ1P |
| Reliability.TableEntryOfGroup | main.py:74-77 | a group with a travel time has an entry in the aggregation, and it is the closest observations of the group's sample for q1 and q2 |
| Reliability.AddLottrUsesGroupSample | main.py:74-78 | each row's percentiles are the closest observations of its group's travel times |
| Reliability.AddLottrSameGroup | main.py:76-80 | rows of the same group get the same percentiles and LOTTR |
| Merge.FindKey | main.py:102 | the row found has the key asked for and no earlier row has it, and no row is found iff no row has that key |
| Merge.FindKeyUnique | main.py:114 | with unique keys, looking up a row's key finds that row |
| Merge.AlignRow | main.py:102 | the aligned truck row has the all-vehicle key; it is a truck-feed row when one has the key, else its speed and travel time are missing |
| Merge.AlignTruck | main.py:102 | one truck row per all-vehicle key, in order, with that key; a truck-feed row when one has the key, else with missing speed and travel time |
| Merge.JoinWide | main.py:114 | the all-vehicle columns are kept; the TRK_ columns are a truck row with the same key, or all missing when there is none |
| Merge.Prefixed | main.py:108 | the TRK_ columns of a truck row are never the all-missing row, and their TRK_tmc_code and TRK_DATETIME are the row's key |
| Merge.PrefixedInjective | main.py:108 | the TRK_ prefix loses nothing: two truck rows with the same prefixed columns are equal |
| Merge.JoinTruck | main.py:114 | one joined row per all-vehicle row, in order, keeping it; its TRK_ columns are all missing iff no truck row has its key |
| Merge.DropTruckKeys | main.py:121 | the output row keeps the all-vehicle columns, the truck speed, travel time, percentiles and LOTTR, and the FLAG given |
| Merge.Imputed | main.py:120 | the truck speed and travel time are replaced by the all-vehicle ones and every other column is unchanged |
| Merge.FlagAndImpute | main.py:116-121 | FLAG is 1 iff TRK_TT_SEC is missing and 0 otherwise; flagged rows carry MPH and TT_SEC as truck values, the others the truck values; the truck percentiles, LOTTR and all-vehicle columns are kept |
| Merge.AllVehicleReliability | main.py:89-93 | one result row per all-vehicle row, in order, holding the bucketed all-vehicle row |
| Merge.TruckBucketed | main.py:100-104 | row i of the aligned and bucketed truck feed is the bucketed truck row with the key of all-vehicle row i |
| Merge.TruckReliability | main.py:100-106 | one truck result row per all-vehicle row, holding the bucketed truck row with that row's key |
| Merge.JoinPairsRowsInOrder | main.py:114 | with unique all-vehicle keys, the final merge pairs all-vehicle row i with truck row i |
| Merge.JoinPairsRow | main.py:114 | with unique truck keys, a row whose key is that of truck row i is joined with truck row i |
| Merge.TruckMeasurementOfRow | main.py:102-116 | a row's truck travel time is missing iff the truck feed has no travel time for its key; otherwise its truck speed and travel time come from the truck row with that key |
| Merge.MergeInterstate | main.py:89-121 | one output row per all-vehicle row, all-vehicle columns as computed alone; FLAG is 1 iff the truck feed has no travel time for the row's key; flagged rows carry the all-vehicle speed and travel time as truck values, the others those of the truck row with the key; the truck percentiles and LOTTR are those of the truck feed before imputation |
| Merge.DroppedColumnsDuplicateAllVehicle | main.py:114-121 | the dropped TRK_ key, HOD, DOW and TOD columns are copies of the all-vehicle ones |
| Merge.MeasuredTruckRow | main.py:102-106 | an aligned truck row is in its all-vehicle row's group, and a measured one has the travel time of a truck row with the same key |
| Merge.TruckPercentilesFromMeasuredValues | main.py:102-106 | each truck percentile, TRK_TT50P and TRK_TT95P, is the travel time of a truck row that shares a key with an all-vehicle row of the same (tmc_code, TOD) group |
| Merge.MissingTruckRowExample | main.py:114-120 | a segment with no truck row at a timestamp where the all-vehicle feed has 55 mph and 120 s gives one merged row, flagged, carrying 55 mph and 120 s as truck values |

## Left out

- CSV reading and writing, column renaming, file naming and the timing prints (main.py:40-50, 122-126) are I/O. Feed rows enter the model as `Observation` values.
- Timestamp parsing is left out. `DateTime` carries an opaque instant and its weekday and hour in local time. Time-zone and daylight-saving handling belong to the parser.
- The dtype downcasts of HOD, DOW, FLAG, MPH, TT_SEC and LOTTR are left out: float32 rounding, unsigned integer types and the categorical dtypes. Travel times are exact `real`s.
- Quantiles.ClosestObservationIndex: numpy releases have differed on the tie of `closest_observation` (older ones took the odd rank), and the source pins no numpy version. The model follows definition 3 of Hyndman and Fan, which takes the even rank.
- Quantiles.ClosestObservationIndex: numpy detects a rank tie on the floating-point product `n·q/100`, which can differ from the exact one in the last bit. The model uses exact integer arithmetic.
- Reliability.Lottr: a zero TTQ1P gives `inf` or NaN in pandas. The model gives a missing LOTTR, because real division by zero is undefined.
- Duplicate (tmc_code, DATETIME) keys in either feed are not modelled: `MergeInterstate` requires unique keys. pandas' merge emits one row per matching pair, which would multiply rows.
- The model assumes that every (tmc_code, TOD) group the percentile aggregation at main.py:76-77 forms has a travel time. pandas groups on the categorical TOD column with `observed=False` by default, which can also form (tmc_code, TOD) pairs with no surviving travel time; what the `np.percentile` lambda does on such an empty sample is not modelled.
- pandas' ordering of the grouped aggregation table is left out. Only its contents, a map from group to percentile pair, matter to the left merge.
- The state-route and US-route passes (main.py:128-153) repeat the all-vehicle pipeline on other feeds and are not modelled separately.
- NPMRDS columns other than tmc_code, DATETIME, MPH and TT_SEC are not modelled. pandas would carry them through unchanged.
