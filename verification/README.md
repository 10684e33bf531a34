# Epidemiology table generator: verified model of the per-country transforms

`generate_table.py` builds the epidemiology, testing and government-response
tables of a COVID-19 wave study. It is a single script. Its loops turn each
country's raw rows into:

- daily series;
- per-country panel rows (t0, waves, case-fatality ratios, wave classes and
  positive rates);
- government-response dates.

This project models those per-country transforms in Dafny and proves what
they compute. Smoothing and peak finding come from numerical libraries, so
their results are inputs here.

A day is an integer day number, and pandas' NaN is `Option` (`None` is NaN).
A country's daily series has one entry per consecutive day from its first
date.

Modules:

- `Nan` (nan.dfy) holds the NaN-aware reductions the script relies on:
  - the count and sum of defined values;
  - `np.nanmax` and `np.nanmean`;
  - Python's builtin `min` over a Series;
  - the first row holding a value.
- `Normaliser` (normaliser.dfy) models the daily-series normaliser (lines 131-146, repeated for US
  states at 1098-1104). It does the following, in order:
  - re-indexes the rows onto every calendar day;
  - interpolates the cumulative count linearly;
  - takes the first difference;
  - repairs negative deltas in place, in an array, with the intended positional repair (the label-aligned
    assignment pandas performs is modelled beside it, see Findings);
  - back-fills the NaN deltas.
- `Testing` (testing.dfy) models the testing pre-processing (lines 181-191): it trims to the reported
  counts, re-indexes and interpolates.
- `PositiveRate` (positive_rate.dfy) models the testing columns of the time series (lines 272-282):
  - the merge of the test counts;
  - the scatter of the smoothed test counts onto the days that have a count;
  - the positive rate with the values above 1 discarded.
- `WaveClassifier` (classifier.dfy) models the wave classifier. It is shared by cases, deaths and
  tests (lines 461-485, 565-586, 589-611). Peak detection is an input constrained by what the peak
  finder guarantees.
- `Panel` (panel.dfy) models the panel derivations (lines 286-294, 451-460, 509-558, 624-634):
  - t0 and the days since t0;
  - the two waves and their case-fatality ratios;
  - the mean positive rate of each wave.
- `GovernmentResponse` (government.dfy) models the flag runs and stringency derivations (lines 376
  and 727-769).
- `SeriesTable` (series_table.dfy) models the per-country loop that grows the time-series columns by
  concatenation (lines 299-330). The panel reads each country's rows back by country code.

Constants, as in the script:

- `DISTANCE` = 21 days between peaks.
- Prominence threshold for cases: 5 (`CASES`); the relative factor is 0.3.
- Class-1 threshold for cases: 100.
- The death and test classifiers use prominence 2 and 10 and class-1 thresholds 5 and 200. `Classify`
  takes these thresholds as its `th` parameter.
- The t0 thresholds are 1000 cases and 5 cases per million.
- `DEATH_LAG` = 21.
- The stay-at-home flag threshold is 2.

## Model

| member | source | states |
|---|---|---|
| Nan.NanMax | generate_table.py:461-464 | `np.nanmax` is NaN exactly when every entry is NaN; otherwise it is an entry of the series and no defined entry exceeds it |
| Nan.PyMin | generate_table.py:476 | builtin `min` is NaN exactly when the first item is NaN, since a NaN candidate is never replaced |
| Nan.PyMinSpec | generate_table.py:476 | builtin `min` over the days after the last peak is NaN when the first such day is NaN; otherwise it is the least defined value, and it occurs among them |
| Nan.FirstIndexOf | generate_table.py:477 | `s[s == x].iloc[0]` is the first position holding `x`; a NaN `x` selects nothing |
| Nan.NanMean | generate_table.py:626-634 | `np.nanmean` is defined exactly when some entry is defined |
| Nan.NanMeanAtMost | generate_table.py:626-634 | `np.nanmean` is defined exactly when some entry is defined, and is at most any bound on the defined entries |
| Normaliser.ValueOn | generate_table.py:133 | the value of a calendar day is the value of the row with that date, and NaN when there is none |
| Normaliser.Reindex | generate_table.py:133 | the reindexed series has one entry per day from the first to the last observed date: (last - first) + 1 entries |
| Normaliser.ReindexPlaces | generate_table.py:133 | every observation lands at its date's offset from the first date, unchanged |
| Normaliser.ReindexOnlyObserved | generate_table.py:133 | a reindexed day holds a number only if an observation reported it for that day |
| Normaliser.Interpolate | generate_table.py:135 | linear interpolation keeps the length of the series |
| Normaliser.InterpolateKeeps | generate_table.py:135 | interpolation keeps every defined value |
| Normaliser.InterpolateDefined | generate_table.py:135 | after interpolation a position is NaN exactly when no defined value comes at or before it (leading NaNs stay) |
| Normaliser.InterpolateTrailing | generate_table.py:135 | after the last defined value, the gap repeats that value |
| Normaliser.InterpolateIsLinear | generate_table.py:135 | inside a gap between two defined values, the value is the point on the straight line between them |
| Normaliser.InterpolateStep | generate_table.py:135 | when the defined cumulative counts never decrease, neither does the interpolated series, one day at a time |
| Normaliser.Diff | generate_table.py:136 | `diff()` keeps the length and has NaN first; a later entry is defined iff both days are, and it is then their difference |
| Normaliser.Repaired | generate_table.py:138-139 | the positional repair keeps the length of the delta series |
| Normaliser.RepairedSpec | generate_table.py:138-139 | the repair changes only negative deltas; each takes the pre-repair delta of the day before; a delta stays negative exactly when it and its predecessor were both negative |
| Normaliser.RepairIsNotPropagation | generate_table.py:138-139 | for two consecutive negative deltas, the second receives the first's old negative value, so the copy does not propagate |
| Normaliser.RepairAligned | generate_table.py:138-139 | the repair as pandas' label-aligned assignment performs it (see Findings) keeps the length |
| Normaliser.Backfill | generate_table.py:140 | back-filling keeps the length |
| Normaliser.BackfillSpec | generate_table.py:140 | back-filling keeps defined values; a NaN takes the next defined value after it; NaN remains exactly where nothing defined follows |
| Normaliser.RepairAlignedTakesNextDay | generate_table.py:138-140 | for deltas [NaN, 5, -2, 3], label alignment plus back-fill gives the negative day the NEXT day's 3, while the positional repair gives it the previous day's 5 |
| Normaliser.Normalise | generate_table.py:131-140 | the normalised country has one row per consecutive day from the first to the last observed date |
| Normaliser.NormaliseKeepsObserved | generate_table.py:133-135 | every observed cumulative count appears unchanged on its own day |
| Normaliser.NormaliseSingle | generate_table.py:133-140 | a country with one observation gives one row whose delta is NaN |
| Normaliser.ReindexNondecreasing | generate_table.py:133 | reindexing keeps observed counts that never decrease in that order |
| Normaliser.NormaliseMonotone | generate_table.py:135-140 | with never-decreasing observed counts, no first difference of the interpolated count is negative, so the repair leaves them unchanged, and no defined delta of the normalised series is negative |
| Normaliser.NormaliseGapless | generate_table.py:133-135 | a gapless series comes back with one row per observation and the same cumulative counts |
| Normaliser.NormaliseGaplessDeltas | generate_table.py:136-140 | on a gapless, never-decreasing series, each delta is the day-on-day change, and the first is back-filled from the second |
| Normaliser.DefinedDeltas | generate_table.py:136-140 | on a defined, never-decreasing cumulative series the repair changes nothing, every later delta is the day-on-day change and the first is back-filled from the second |
| Normaliser.GaplessCumulative | generate_table.py:133-135 | on a gapless series the interpolated cumulative count is the observed one |
| Normaliser.RepairNegativeDeltas | generate_table.py:138-139 | the intended positional repair, done in place on an array, leaves exactly `Repaired` of the old contents (the label-aligned assignment pandas performs is `RepairAligned`, see Findings) |
| Normaliser.NormaliseCountry | generate_table.py:131-146 | the per-country block with the intended positional repair (reindex, interpolate, diff, in-place repair, back-fill) yields `Normalise` of its rows |
| Testing.FirstReported | generate_table.py:185-186 | the first row with a reported count: it has a count and no earlier row does |
| Testing.LastReported | generate_table.py:185-186 | the last row with a reported count: it has a count and no later row does |
| Testing.DailyTests | generate_table.py:187-189 | a trimmed slice becomes a daily series starting on its first date, with one entry per day up to its last date |
| Testing.PreprocessAsWritten | generate_table.py:181-191 | as written, a country is skipped exactly when it reports no count, and a daily series starts on the first reported date |
| Testing.PreprocessAsWrittenSpec | generate_table.py:183-189 | as written: a country is skipped iff it reports no count, the run aborts iff it reports exactly one, and otherwise the series ends before the last reported day |
| Testing.AsWrittenDropsLastCount | generate_table.py:185-186 | for counts on two consecutive days, as written only the first survives; the intended trim keeps both |
| Testing.Preprocess | generate_table.py:181-191 | the intended pre-processing skips exactly the countries with no reported count and never aborts |
| Testing.PreprocessSpan | generate_table.py:185-189 | otherwise the series runs from the first to the last reported date, both included |
| Testing.PreprocessFilled | generate_table.py:189 | interpolation leaves no NaN between the first and the last reported count |
| Testing.PreprocessKeeps | generate_table.py:185-189 | every reported count appears unchanged on its own day |
| Testing.DailyTestsFilled | generate_table.py:189 | a slice starting with a reported count has a number on every day |
| Testing.DailyTestsKeeps | generate_table.py:187-189 | every reported count of a slice lands on its own day |
| PositiveRate.MergeTests | generate_table.py:273-274 | the left merge on date gives one test count per epidemiology day |
| PositiveRate.MergeTestsSpec | generate_table.py:273-274 | a testing row within the epidemiology days lands on its own day; every other day is NaN |
| PositiveRate.Compact | generate_table.py:276-277 | `new_tests[~isnan(new_tests)]` has one entry per defined count |
| PositiveRate.Scatter | generate_table.py:280 | scattering onto the defined positions keeps the length of the mask |
| PositiveRate.CompactScatter | generate_table.py:276-280 | compacting the scattered smoothed counts gives back the smoothed counts, so scatter inverts the compaction |
| PositiveRate.ScatterAt | generate_table.py:280 | a scattered day is defined exactly where a test count is, and holds the smoothed count of that day's rank among them |
| PositiveRate.Ratio | generate_table.py:281 | a ratio is NaN exactly when the smoothed test count is 0; otherwise the ratio times the tests gives back the cases |
| PositiveRate.Rate | generate_table.py:281-282 | the positive rate has one entry per day |
| PositiveRate.RateSpec | generate_table.py:281-282 | every defined rate lies on a day with a nonzero smoothed test count, equals smoothed cases over smoothed tests, and is at most 1; a ratio at most 1 is kept |
| PositiveRate.TestingBlock | generate_table.py:272-282 | with more than one testing row the three columns are the merge, the scatter and the rate; otherwise all three stay NaN |
| PositiveRate.ScatterTests | generate_table.py:280-281 | the loop over the defined test days leaves the smoothed counts scattered and the raw ratios on the same days |
| PositiveRate.DiscardAboveOne | generate_table.py:282 | every rate above 1 becomes NaN and every other entry is unchanged |
| PositiveRate.TestingAvailable | generate_table.py:561-562 | testing is available exactly when the merged `new_tests` column has a defined day |
| WaveClassifier.ProminenceThreshold | generate_table.py:461-464 | the prominence is at least the absolute threshold and at least 0.3 × nanmax, and equals one of the two |
| WaveClassifier.PeakPosition | generate_table.py:465-467 | the k-th peak lies at least 1 + 21·k days into the series |
| WaveClassifier.PeakCountBound | generate_table.py:465-467 | n days hold at most (n - 3) / 21 + 1 peaks |
| WaveClassifier.Trough | generate_table.py:476 | no defined day after the last peak is below the trough |
| WaveClassifier.TroughIsLeastAfterPeak | generate_table.py:476 | the trough is the least defined value after the last peak, and it occurs there |
| WaveClassifier.TroughIndex | generate_table.py:477 | the trough date is the first day anywhere in the series holding the trough value |
| WaveClassifier.Rebounds | generate_table.py:474-482 | a rebound needs a day from the trough date on that lies at least 0.3 × series max above the trough |
| WaveClassifier.ReboundsIff | generate_table.py:478-482 | the rebound test holds iff some day from the trough date on is at least trough + 0.3 × series max |
| WaveClassifier.ReboundTest | generate_table.py:474-482 | the rebound test computed step by step (trough value, trough date, maximum from that date) holds exactly when some day from the trough date on lies at least 0.3 × series max above the trough |
| WaveClassifier.EntersFirstWave | generate_table.py:483-485 | entering a first wave means nanmax is defined and reaches the entry threshold |
| WaveClassifier.EntersFirstWaveIff | generate_table.py:483-485 | with no peak, the class-1 test holds iff nanmax is defined and reaches the entry threshold |
| WaveClassifier.Classify | generate_table.py:470-485 | the code halved is the number of peaks; the code is odd iff, with peaks, the series rebounds after the last one, or, without peaks, it reaches the entry threshold |
| WaveClassifier.FallingTailDoesNotRebound | generate_table.py:474-482 | a series that only falls after its last peak, with the trough value not seen earlier, gets no increment |
| WaveClassifier.TroughBeforePeak | generate_table.py:476-482 | for 0, 10, 0, 0 with the peak on day 1, the trough date is day 0 (before the peak) and the rebound test holds |
| Panel.FirstMeeting | generate_table.py:451-460 | t0's row is the first row meeting the threshold; there is none exactly when no row meets it |
| Panel.T0 | generate_table.py:286-289 | t0 is NaN exactly when no row meets the criterion; otherwise it is the date of the first row that does |
| Panel.StrictT0NotEarlier | generate_table.py:286-289 | the time series' strict `>` t0 exists only if the panel's `>=` t0 does, and is never earlier |
| Panel.DaysSince | generate_table.py:291-294 | days since t0 has one entry per row |
| Panel.DaysSinceSpec | generate_table.py:291-294 | all NaN without t0; otherwise 0 at t0, +1 per row, negative exactly before t0, and no row before t0 meets the threshold |
| Panel.WindowIsDateFilter | generate_table.py:524-533 | the rows selected by `date >= lo & date <= hi` are exactly the rows dated in [lo, hi], in order |
| Panel.FirstWave | generate_table.py:509-523 | wave 1 exists iff at least one case peak was found; it lies inside the series with start < peak date < end, and its peak value is the smoothed count on the peak date |
| Panel.SecondWave | generate_table.py:535-548 | wave 2 exists iff at least two case peaks were found; it starts at wave 1's end and ends on the last day, and it peaks no later than its end and at least 21 days after wave 1, its peak value being the smoothed count on that date |
| Panel.Cfr | generate_table.py:524-533 | the CFR is NaN exactly when the wave's case sum is 0; otherwise the CFR times the case sum gives back the death sum DEATH_LAG days later |
| Panel.CfrRows | generate_table.py:524-533 | a wave's CFR is defined iff its case rows do not sum to 0, and is then the deaths 21 rows later (cut at the series end) over the cases |
| Panel.WaveRateMean | generate_table.py:626-634 | a wave's mean positive rate is defined exactly when the wave exists and some rate in its date window is defined |
| Panel.RateMeansAsWritten | generate_table.py:624-634 | as written, a wave mean needs testing data, that wave, and at least one (first wave) or two (second wave) TEST peaks |
| Panel.RateMeansByCaseWaves | generate_table.py:624-634 | gated by the case waves, a wave mean needs only testing data and that wave |
| Panel.RateMeansAtMostOne | generate_table.py:624-634 | each wave's mean positive rate is at most 1, and is defined iff testing exists, the wave exists and a rate is defined in it |
| Panel.RateMeansAgree | generate_table.py:624-634 | with two or more test peaks, the as-written gating and the case-wave gating agree |
| Panel.AsWrittenNeedsTestPeak | generate_table.py:597 | one case wave, rates of 0.5, no test peak: as written the first-wave mean is NaN, while by case waves it is 0.5 |
| GovernmentResponse.DaysAbove | generate_table.py:376 | one entry per day, each 0 or 1, and 1 exactly when that day's flag is at least the threshold |
| GovernmentResponse.TotalDaysSpec | generate_table.py:768-769 | the total lies between 0 and the number of days; it is 0 iff no flag reaches the threshold and full iff every flag does |
| GovernmentResponse.Runs | generate_table.py:745-746 | there are no more runs than days; a non-empty series has a first run with the first day's value |
| GovernmentResponse.RunsSpec | generate_table.py:745-746 | the runs are maximal (non-empty, neighbours differ) and spell the series out again |
| GovernmentResponse.RunsOfExpand | generate_table.py:745-746 | conversely, maximal runs are recovered from the series they spell |
| GovernmentResponse.ExpandRunStart | generate_table.py:752-766 | run k occupies the positions from its start (the lengths before it, summed), all holding its value |
| GovernmentResponse.RunStartIsChange | generate_table.py:752-766 | each run after the first starts on a change of value, and the days from the previous run's start up to it hold one value |
| GovernmentResponse.TotalByRuns | generate_table.py:768-769 | the total counted day by day equals the days of the runs at or above the threshold |
| GovernmentResponse.RunDate | generate_table.py:752-766 | the date of run k's first day, defined iff there are more than k runs |
| GovernmentResponse.FlagPanelOf | generate_table.py:745-769 | raised again needs lowered, lowered needs raised, a response time needs raised and t0_relative, and the total lies between 0 and the number of days |
| GovernmentResponse.FlagPanelSpec | generate_table.py:745-766 | raised, lowered and raised again exist iff there are ≥ 2, 3 and 4 runs; raised is the first day whose state differs from day 0's, whatever day 0's state; the response time is raised - t0_relative, when both exist |
| GovernmentResponse.MaxSiIndex | generate_table.py:727-729 | the first day whose stringency equals the maximum, which no defined day exceeds |
| GovernmentResponse.StringencyPanelOf | generate_table.py:727-739 | max_si is the largest stringency and date_max_si the first day holding it; each response time is defined iff its t0 is, and then equals date_max_si - t0 |
| SeriesTable.Select | generate_table.py:299-330 | selecting a country's rows yields one entry per row with its code |
| SeriesTable.SelectAppend | generate_table.py:299-330 | selecting from two concatenated tables selects from each in turn |
| SeriesTable.SelectRowsAfterAppend | generate_table.py:299-330 | after a block is appended, a code selects its earlier rows, followed by the block when it is that block's code |
| SeriesTable.SelectRowsAbsent | generate_table.py:299-330 | a code absent from the table selects no rows |
| SeriesTable.EpidemiologySeries.constructor | generate_table.py:299-330 | the table starts empty |
| SeriesTable.EpidemiologySeries.Append | generate_table.py:299-330 | every column becomes its old contents followed by the country's block, and the code column gains one code per row |
| SeriesTable.BuildSeries | generate_table.py:299-330 | after the per-country loop over distinct countries, each country's rows read back by code are exactly its block |
| SeriesTable.AppendStep | generate_table.py:299-330 | one turn of the loop keeps every earlier country's rows and adds the new one's |

## Left out

- Database and HTTP loading, CSV export, the duplicate-row asserts, plotting and the map and heatmap
  figures: these are I/O and presentation.
- `csaps` smoothing: a floating-point spline library. Smoothed series are inputs: `PositiveRate.TestingBlock`
  takes the smoothed test counts and the classifier and panel take the smoothed case and death series.
- `find_peaks`: a foreign library. Its result is the `Peaks` input. It is constrained by `ValidPeaks`:
  - increasing interior peaks, at least 21 days apart;
  - left base < peak < right base;
  - defined neighbours;
  - prominence at least the threshold.

  Its plateau handling and its exact base search are not modelled.
- `kendalltau` and the `LinearRegression` of quarantine fatigue: library statistics on floats.
- The per-10k columns, the country names, the population lookup (an input), `last_confirmed` (the
  last cumulative count) and the mobility series: plain look-ups or repetitions of the modelled
  transforms.
- The raw daily `new_per_day`, `dead`, `dead_per_day` and `days_since_t0_pop` columns are appended
  in the same loop as the modelled columns. `SeriesTable` carries eight columns and not these four.
  `epidemiology_panel.append` (line 679) adds one row per country and is not modelled.
- Floating point: values are exact reals.
  - A division by zero, which numpy makes inf or NaN, is NaN here. This concerns `PositiveRate.Ratio`,
    where a zero smoothed test count makes the rate NaN, and `Panel.Cfr`, where a zero case sum makes
    the CFR NaN.
  - Panel.Meets: a population of 0 is the one place where the infinite value matters. It is modelled
    explicitly: a positive count passes the per-million threshold and a zero count does not.
- GovernmentResponse.MaxSiIndex requires a defined stringency index. With none, the script's
  `iloc[0]` on an empty selection stops the run.
- Panel.SecondWave: the wave-2 window can start after its own peak. `right_bases[0]` is found by the
  peak finder's base search for peak 1, which can run past a lower second peak; the model promises
  only that the peak is no later than the window's end, as the script does.
- The testing rows are taken to be in date order with no date twice (`DatesIncreasing` on the input of
  `Testing.Preprocess`). The script asserts this only for the epidemiology data and neither sorts nor
  checks the testing rows.
- The deaths column: lines 141-146 put `dead` through the same interpolate, diff, positional-or-aligned
  repair and back-fill as the confirmed count (the second `reset_index` leaves the same 0-based index).
  `Normaliser.Normalise` carries the confirmed count only; the deaths series is the same transform.
- Dates are day numbers. The calendar arithmetic of `date_range` and `.days` is the integer
  difference.
- The triple-quoted deprecated-figures block is a string, not code. The Table-1 group means are
  reporting.
- The US-states copy of the normaliser (lines 1098-1104) is the same transform as `Normaliser.Normalise`
  on the cumulative count only.

## Findings

| source | as written | input that shows it | evidently intended | confidence | as-written member | corrected member |
|---|---|---|---|---|---|---|
| generate_table.py:138-139 | `Series.iloc[idx] = Series` aligns the right-hand side on its labels. An isolated negative delta therefore becomes NaN, and the back-fill on line 140 then gives it the NEXT day's delta | deltas [NaN, 5, -2, 3]: as written [5, 5, 3, 3] | each negative delta takes the previous day's delta, all at once: [5, 5, 5, 3] | not executed; medium (pandas 1.x setitem alignment) | Normaliser.RepairAligned | Normaliser.Repaired |
| generate_table.py:185-186 | `iloc[first:last]` stops before the last reported row. A country with a single reported count gives an empty slice, and the script stops on line 187 | test counts on two consecutive days, 5 and 7: as written only 5 survives | trim from the first to the last reported row, both included | not executed; high | Testing.PreprocessAsWritten | Testing.Preprocess |
| generate_table.py:624-634 | `genuine_peaks` was overwritten with the TEST peaks on line 597. The wave positive-rate means are therefore gated by the number of test peaks, although their windows are the CASE waves | one case wave whose positive rate is 0.5 every day, with testing data but no test peak: as written the first-wave mean is NaN | one mean per existing case wave: 0.5 | not executed; medium | Panel.RateMeansAsWritten | Panel.RateMeansByCaseWaves |
