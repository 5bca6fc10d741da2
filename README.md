# Waterfall accumulator of a Kongsberg `.all` reader, and the finite-difference helpers

This project models three pieces of the multibeam echosounder tooling in Dafny and
proves properties about them:

- **`Emb`** (utils/emb.py). This object reads a stream of `.all` datagrams one record at
  a time.
  - Position records ('P') extend a navigation list. They also fix an origin and a
    positioning system once, and add up the distance travelled.
  - Depth records ('X'/'D') with more than one beam are corrected by the transducer
    depth. They are prepended to a newest-first waterfall, together with the latest
    navigation row, and they widen the depth extents and the beam count.
  - `read_datagrams` drives the loop, counts every record and finalises the across-
    and along-track resolutions.
  - `show` guards its input, slices the waterfall, and stretches each column along
    track by linear interpolation. It then masks the cells that are zero.
- **The superseded `Emb`** (utils/emb-Copy1.py). It has the same accumulator and the
  following differences:
  - a `read_datagrams` that dereferences `self._navigation[-1]` without a guard;
  - a one-pass `read()` that keeps only the position fixes of the first positioning
    system seen, tracks the across-track extents, returns a local newest-first
    waterfall and rewinds the reader;
  - a `show` without the start-index guard;
  - a `waterfall_img` that resamples any waterfall it is given.
- **The shaded-relief helpers** (utils/shaded_relief.py):
  - the centred slope of a profile, in a loop form and in a slice form;
  - `assignBCs`, which pads a grid by one cell on every side in place;
  - `calcFiniteSlopes`;
  - the shape of `calcHillshade`.

## How the model is organised

| File | Module | Contents |
|---|---|---|
| common.dfy | `Common` | Option/Result types; floats extended with ±Inf; Python min/max and `np.min`/`np.max`; `math.ceil`; Python slicing; reversal; grid columns. |
| datagrams.dfy | `Datagrams` | The decoded record stream and the per-ping arithmetic: corrected depths, the zero filter, and the mean across-track spacing. The geodesy calls are parameters. |
| accumulator.dfy | `Accumulator` | The object's fields as a value (`EmbState`) and the transitions of `set_nav`, `set_depth_line` and the `read_datagrams` loop. Also the invariant `Consistent` and the laws these obey. |
| resample.dfy | `Resample` | `linspace`, `np.interp`, the column stretch (with a loop method), the mask, and the isometric stretch of a grid. |
| emb.dfy | `Emb` | `class Emb` for utils/emb.py. Its methods update its fields in place and are proved against the `Accumulator` functions. Also `ShowGrid`. |
| read_scan.dfy | `ReadScan` | The one-pass `read()` of emb-Copy1.py, as a fold over the records, with its laws. |
| emb_copy1.dfy | `EmbCopy1` | `class Emb` for utils/emb-Copy1.py. Its methods are proved against the `Accumulator` and `ReadScan` functions. |
| shaded_relief.dfy | `ShadedRelief` | `IterateCenteredSlope` as a loop method and `npCenteredSlope` as a function. `assignBCs` is a method that fills an `array2` in place; `calcFiniteSlopes` and `calcHillshade` are functions. |

**Classes.** The stateful code keeps its form:
- Each `Emb` is a class with one field per attribute the code updates.
- The reader's cursor is the field `pos` over a fixed `records` sequence.
- Every method states its new fields exactly. The public methods also keep a validity
  invariant:
  - for utils/emb.py, `Consistent`: the waterfall, its navigation and its spacings stay
    in lockstep; the beam count and the depth extents are the maxima and minima of the
    stored rows; origin, previous position and positioning system are set exactly when
    navigation is non-empty; every row is 7 wide;
  - for utils/emb-Copy1.py, `CopyConsistent`, a weaker form that survives `read()`.

**Errors.** The error paths are modelled as values:
- A division by a zero count is `ZeroDivision`.
- `self._navigation[-1]` on an empty list is `NavIndexError`.
- `np.min` of empty extents is `EmptyExtents`.
- An `IndexError` from padding an empty grid is `IndexError`.
- `self._logging` (sic) in `get_nav` is `MissingLoggingAttribute`.
- The early `return` of `show` is `NoData` or `StartOutOfRange`.
- A ragged `np.array` is `Ragged`.

**Where the code disagrees with its own comments**, the model follows the code:
- Navigation. The docstring of `get_nav` (utils/emb.py:64) promises latitude and
  longitude, or east and north.
  - `get_nav` in utils/emb.py returns row fields 2 and 3, which are heading and
    latitude.
  - With `enu` and at least 5 rows it returns fields 4 and 5, which are longitude and
    east.
  - With `enu` and fewer than 5 rows it falls back to fields 2 and 3.
- Corners. The comment of `assignBCs` (utils/shaded_relief.py:42-43) says the margins
  are replicated from the edge cells. `assignBCs` copies `elevGrid[-1, 0]` into the
  bottom-right corner.
- Stretch factor. The comment at utils/emb.py:191 says the along-track interpolation
  aims at an approximate isometry, so a stretch factor of 1 should keep the samples.
  The code queries `linspace(0, n, n)` and so masks each column's oldest sample.

## Model

| member | source | states |
|---|---|---|
| Common.MinE | utils/emb.py:112 | Python `min` on extended floats: a lower bound of both arguments, and one of them. |
| Common.MaxE | utils/emb.py:113 | Python `max` on extended floats: an upper bound of both arguments, and one of them. |
| Common.MinOf | utils/emb.py:112 | `np.min`: below every element and equal to one of them; +Inf for an empty array, which no caller passes (`np.min` would raise there). |
| Common.MaxOf | utils/emb.py:113 | `np.max`: above every element and equal to one of them; -Inf for an empty array, which no caller passes (`np.max` would raise there). |
| Common.Ceil | utils/emb.py:194 | `np.ceil`: the least integer not below `x` (`x <= r < x + 1`). |
| Common.SliceIndex | utils/emb.py:192 | A Python slice bound: a non-negative bound is kept, a negative one counts from the end, and the result is clamped to `[0, n]`. |
| Common.PySlice | utils/emb.py:192 | `s[lo:hi]` is `s[a..b]` for the normalised bounds when `a < b`, and empty otherwise. |
| Common.Reverse | utils/emb.py:114 | Reversal keeps the length. |
| Common.ReverseAt | utils/emb.py:114 | Element `k` of the reversal is element `n-1-k` of the original. |
| Common.ReverseAppend | utils/emb.py:114 | Appending at the back and then reversing puts the element in front, which is how `insert(0, …)` orders the rows. |
| Common.Column | utils/emb.py:197 | A column of `np_grid.T`: one entry per row, the `c`-th of each. |
| Datagrams.CorrectedDepth | utils/emb.py:109 | `Depth + TransducerDepth`, element by element, with the same length. |
| Datagrams.NonZero | utils/emb.py:104 | The zero filter: no zero survives, and every non-zero element survives as often as it occurs (the multisets agree off zero). |
| Datagrams.NonZeroAppend | utils/emb.py:104 | The filter keeps the order: filtering a concatenation concatenates the filtered parts. |
| Datagrams.NonZeroIdempotent | utils/emb.py:104 | Filtering twice is filtering once. |
| Datagrams.SumAbsDiff | utils/emb.py:105 | The sum of `abs(np.diff(xs))` is non-negative. |
| Datagrams.MeanSpacing | utils/emb.py:105 | `np.average(abs(np.diff(xs)))`: defined (not NaN) exactly when there are at least two beams, and then non-negative. |
| Datagrams.MeanOf | utils/emb.py:156 | `np.average` of the spacings: defined exactly when the list is non-empty and holds no NaN. |
| Datagrams.Values | utils/emb.py:156 | The spacings of a NaN-free list, with the same length. |
| Accumulator.SetNavRow | utils/emb.py:76-96 | `set_nav` appends exactly one row and keeps the old rows. The new row is `[counter, time, heading, lat, lon, east, north]`, with east/north projected about the origin. The fix becomes the previous position, and only the origin, positioning system, distance, navigation and previous position change. |
| Accumulator.SetDepthLineEffect | utils/emb.py:103-115 | A ping of at most one beam changes nothing. Otherwise the corrected row and its navigation go in front. One spacing is appended, the beam count becomes the max, and min/max depth widen. No other field changes. |
| Accumulator.LastNav | utils/emb.py:143-146 | `navigation[-1]` when there is one, None exactly for an empty list. |
| Accumulator.RecordEffect | utils/emb.py:137-147 | An unknown record changes nothing. An accepted depth record puts the last navigation row in front of `_waterfall_nav`, and puts None there when no position has arrived yet. |
| Accumulator.AfterRecordsSnoc | utils/emb.py:133-149 | The loop state after one more record is one step of the loop applied to the state before it; the counter is that record's index. |
| Accumulator.ExtendFold | utils/emb.py:133-149 | The loop invariant extends by one record over a window `[i, j)` of the stream. |
| Accumulator.RecordsHandled | utils/emb.py:133 | `while moreData() and counter <= max_number` handles at most `max_number + 1` records, and every available record when `max_number` is infinite or large enough. |
| Accumulator.RecordsHandledIntended | utils/emb.py:118-123 | The documented bound: at most `max_number` records. |
| Accumulator.MaxNumberReadsOneMore | utils/emb.py:133 | With enough data, `max_number = m` reads `m + 1` records where `m` were meant. |
| Accumulator.FinaliseEffect | utils/emb.py:156-158 | `x_res` becomes the mean spacing. With records read, `y_res * counter` equals the distance and `total_record` is the count. With none, the division fails and `y_res` and `total_record` keep their old values. No other field changes. |
| Accumulator.MaxWidth | utils/emb.py:107 | The beam count of a waterfall: no row is wider, some row is that wide, and it is 0 for no rows. |
| Accumulator.MinOfRows | utils/emb.py:112 | The smallest depth over all rows lies below every stored depth. |
| Accumulator.MaxOfRows | utils/emb.py:113 | The largest depth over all rows lies above every stored depth. |
| Accumulator.InitialConsistent | utils/emb.py:26-46 | The state `__init__` leaves (0 beams, +Inf/-Inf, empty lists, no origin) satisfies the invariant. |
| Accumulator.ConsistentAfterSetNav | utils/emb.py:76-96 | `set_nav` keeps the invariant. |
| Accumulator.ConsistentAfterSetDepthLine | utils/emb.py:99-115 | `set_depth_line` keeps the invariant: both lists grow in lockstep, and the beam count and extents still bound the rows exactly. |
| Accumulator.ConsistentAfterRecord | utils/emb.py:137-147 | One loop step keeps the invariant. |
| Accumulator.ConsistentAfterRecords | utils/emb.py:133-149 | Any number of loop steps keeps the invariant. |
| Accumulator.FinaliseKeepsConsistent | utils/emb.py:156-158 | Finalising keeps the invariant. |
| Accumulator.DepthsWithinExtents | utils/emb.py:111-113 | In a consistent state every stored depth lies between `_min_depth` and `_max_depth`. |
| Accumulator.FirstFix | utils/emb.py:137-139 | The first position record of a stream; None exactly when there is none. |
| Accumulator.FirstFixSnoc | utils/emb.py:137-139 | Appending a record changes the first fix only when there was none. |
| Accumulator.OriginFromFirstFix | utils/emb.py:80-81 | After any stream the origin and the positioning system are the old ones if set. Otherwise they come from the first fix of the stream; later fixes never change them. |
| Accumulator.DistanceNonDecreasing | utils/emb.py:86-87 | With a non-negative range, the distance travelled never decreases. |
| Accumulator.NavigationAppendOnly | utils/emb.py:94 | Navigation is append-only: the old list is a prefix, and it grows by exactly the number of position records. |
| Accumulator.AcceptedRowsSnoc | utils/emb.py:103-109 | The accepted rows of a stream in arrival order, extended by one record. |
| Accumulator.WaterfallAfterRecord | utils/emb.py:114 | One step puts the corrected row of an accepted ping in front and leaves the waterfall alone otherwise. |
| Accumulator.WaterfallNewestFirst | utils/emb.py:114 | After any stream the waterfall is the accepted rows in reverse arrival order, in front of the old waterfall. |
| Accumulator.ThreePingsReversed | utils/emb.py:114-115 | Feeding pings R1, R2, R3 gives `[R3, R2, R1]`. |
| Accumulator.NavColumns | utils/emb.py:70-74 | `get_nav`'s two columns: None exactly for no rows. Otherwise fields 4 and 5 when `enu` and at least 5 rows, else fields 2 and 3, one entry per row. |
| Accumulator.NavColumnsOfSetNavRows | utils/emb.py:70-74 | On rows built by `set_nav` those columns are (heading, latitude), or (longitude, east) with `enu`. |
| Accumulator.GetNavCounterexample | utils/emb.py:74 | One fix at (10, 20) with heading 90 gives `([90], [10])` as written, and `([10], [20])` as intended. |
| Accumulator.NavColumnsIntended | utils/emb.py:59-65 | The documented columns: None exactly for no rows; else, for every row, its east and north when `enu` is set and there are at least 5 rows, and its latitude and longitude otherwise. |
| Accumulator.NavColumnsIntendedAfterSetNav | utils/emb.py:59-96 | After `set_nav` on any consistent state, in both branches of `enu`: the earlier rows' columns are unchanged, and the new row gives the fix's latitude and longitude, or its east and north about the origin with `enu` and at least 5 rows. |
| Resample.Linspace | utils/emb.py:198 | `np.linspace(0, stop, m)` starts at 0 and, for `m >= 2`, ends at `stop`. |
| Resample.Interp | utils/emb.py:200 | `np.interp` with `left=right=0.0`: 0 outside `[0, n-1]`, and the sample itself at an integer point. |
| Resample.InterpWithinColumn | utils/emb.py:200 | Inside `[0, n-1]` every interpolated value lies between the column's smallest and largest sample. |
| Resample.ResampleColumn | utils/emb.py:197-202 | A stretched column has `n*k` samples. The first is the newest sample. Every query past `n-1` gives 0.0, including the last query, which stands at `n`. |
| Resample.ResampleColumnDropsLastSample | utils/emb.py:198 | The column [5, 7] stretched by 1 becomes [5, 0] as written, and stays [5, 7] as intended. |
| Resample.ResampleColumnIntended | utils/emb.py:191-198 | With queries over `[0, n-1]` the stretched column keeps both end samples. |
| Resample.LinspaceWithin | utils/emb.py:198 | Every linspace point lies in `[0, stop]`. |
| Resample.ResampleColumnIntendedWithin | utils/emb.py:197-200 | Every intended sample lies between the column's extremes. |
| Resample.ResampleColumnIntendedIdentity | utils/emb.py:197-200 | Stretching by 1 as intended returns the column unchanged. |
| Resample.StretchFactor | utils/emb.py:194 | `ceil(y_res / x_res * zoom)`: defined exactly when `x_res` is a non-zero number, and then the least integer not below the ratio. |
| Resample.StretchedGrid | utils/emb.py:195-204 | One stretched row per column of the grid, each `len(grid)*k` long and equal to that column resampled. |
| Resample.StretchColumns | utils/emb.py:195-202 | The `for column in np_grid.T` loop that appends rows builds exactly the stretched grid. |
| Resample.MaskGrid | utils/emb.py:205 | `np.ma.masked_values(g, 0.0)`: same shape; a cell is masked iff it is within the default tolerance of 0; unmasked cells keep their value. |
| Resample.Isometric | utils/emb.py:194-205 | The stretched, masked grid fails exactly when the stretch factor is undefined, or negative for a non-empty grid. Otherwise it has one row per column and `len*k` cells in each. |
| Resample.StretchIsometric | utils/emb.py:194-205 | The loop method computes exactly that result. |
| Resample.IsometricEqualResolutions | utils/emb.py:194-205 | With equal resolutions and zoom 1 each column keeps its length. Its last cell (the query at `n`) is masked; its first is the newest depth unless that is zero. |
| Emb.ShowGrid | utils/emb.py:182-205 | `show` fails with no data iff the waterfall is empty, with a bad start iff `idxs[0] >= len`, and on a ragged slice. Otherwise it is ok only with a defined stretch factor; it has one row per column of the slice and `len(slice)*k` cells in each. |
| Emb.ShowIgnoresOldestRow | utils/emb.py:192 | With the default `idxs = [0, -1]`, two waterfalls that differ only in their last (oldest) row give the same stretched grid. |
| Emb.ShowDefaultWindow | utils/emb.py:187-205 | With the defaults, equal resolutions and zoom 1, a rectangular waterfall of `n >= 3` rows gives `n-1` cells per column. The last cell is masked and the first is the newest depth unless zero. |
| Emb.Emb.constructor | utils/emb.py:23-46 | `__init__` leaves the initial state, the reader at the start of the stream, and the invariant. |
| Emb.Emb.GetNav | utils/emb.py:59-74 | It fails iff navigation is empty (the missing `_logging` attribute). Otherwise it returns (heading, latitude) per row, or (longitude, east) with `enu` and at least 5 rows. |
| Emb.Emb.SetNavFields | utils/emb.py:76-96 | Field by field: positioning system and origin are set only if unset, the range from the previous position (or the fix itself) is added, one row is appended, and the fix becomes the previous position. |
| Emb.Emb.SetNav | utils/emb.py:76-96 | The public `set_nav`: on a valid object, the state moves by exactly one `set_nav` step and the object stays valid, so `get_nav` can follow. |
| Emb.Emb.SetDepthLineFields | utils/emb.py:99-115 | Field by field: nothing changes for a ping of at most one beam. Otherwise the corrected row and the navigation row are prepended, one spacing is appended, and the beam count and extents are widened. |
| Emb.Emb.SetDepthLine | utils/emb.py:99-115 | The public `set_depth_line`: on a valid object, the state moves by exactly one `set_depth_line` step and the object stays valid. |
| Emb.Emb.Dispatch | utils/emb.py:137-147 | One loop iteration moves the fields exactly as one step of the loop fold. A depth record gets the last navigation row, or None. |
| Emb.Emb.ReadRecords | utils/emb.py:132-149 | The loop handles exactly `RecordsHandled` records (every record counted, whatever its type). It advances the reader by that many, and leaves the fold of those records. |
| Emb.Emb.Finish | utils/emb.py:156-158 | The statements after the loop: `x_res` is set, `y_res = distance / counter` and `total_record = counter`, or a zero-division failure that leaves both. |
| Emb.Emb.ReadDatagrams | utils/emb.py:118-158 | `read_datagrams` keeps the invariant, consumes `RecordsHandled` records, and fails (division by zero) iff it read none. It leaves the finalised fold of exactly those records. |
| Emb.Emb.Show | utils/emb.py:167-205 | `show` returns exactly `ShowGrid` of the current waterfall and resolutions. |
| ReadScan.ScanRowOf | utils/emb-Copy1.py:169-174 | `read()` builds six-field rows `[counter, time, lat, lon, east, north]`, with no heading. |
| ReadScan.ScanStart | utils/emb-Copy1.py:138-147 | At the top of `read()` the locals are empty, there is no previous position, `p_counter` is 0, and the object's navigation and origin are as they were. |
| ReadScan.ScanRecordsSnoc | utils/emb-Copy1.py:149-211 | The scan after one more record is one iteration of the loop applied to the scan before it. |
| ReadScan.ExtendScan | utils/emb-Copy1.py:149-211 | The loop invariant of `read()` extends by one record. |
| ReadScan.FinishRead | utils/emb-Copy1.py:218-226 | After the loop:<br>- `x_res` is the mean spacing of the scan; navigation and origin are the scan's; the object's waterfall is untouched;<br>- no record read gives a zero division, and empty extents give the `np.min` error;<br>- otherwise the result is the local newest-first waterfall, `left/right_extents` are the min/max of the per-ping extents, and `total_record` is the count. |
| ReadScan.ScanStartConsistent | utils/emb-Copy1.py:138-147 | The scan invariant holds at the top of `read()`. |
| ReadScan.ScanRecordsConsistent | utils/emb-Copy1.py:149-211 | Every number of iterations keeps the scan invariant. |
| ReadScan.ScanPositionFilter | utils/emb-Copy1.py:155-158 | The first descriptor seen is adopted. A fix with it is counted and appends one row and becomes the previous position; a fix with another descriptor changes nothing else. |
| ReadScan.ScanOriginOnce | utils/emb-Copy1.py:160-163 | The origin is set only at the first counted fix, and only when it is unset. |
| ReadScan.ScanPositionRow | utils/emb-Copy1.py:165-177 | A counted fix keeps old rows, appends `[counter, time, lat, lon, east, north]` projected about the origin, and adds the range from the previous position. |
| ReadScan.ScanDepthGuard | utils/emb-Copy1.py:182-201 | A ping of at most one beam changes nothing. An accepted one always prepends its row and widens min/max depth. Spacing, extents and beam count change only when its zero-filtered across-track list is non-empty; navigation and distance never change. |
| ReadScan.ScanWaterfallAfterStep | utils/emb-Copy1.py:201 | One iteration puts an accepted row in front of the local waterfall. |
| ReadScan.ScanWaterfallNewestFirst | utils/emb-Copy1.py:147-201 | The returned waterfall is the accepted rows in reverse arrival order. |
| ReadScan.ScanRowsSixWide | utils/emb-Copy1.py:158-174 | Navigation is append-only, grows exactly by `p_counter`, and every new row is six wide. |
| ReadScan.ScanStepExtents | utils/emb-Copy1.py:187-188 | The extents arrays only grow, and after an accepted ping its across-track distances lie inside `[min(left), max(right)]`. |
| ReadScan.ScanExtentsCover | utils/emb-Copy1.py:187-221 | After any stream every across-track distance of every accepted ping lies between the final left and right extents. |
| ReadScan.MinOfPrefix | utils/emb-Copy1.py:220 | Extending an array can only lower its minimum. |
| ReadScan.MaxOfPrefix | utils/emb-Copy1.py:221 | Extending an array can only raise its maximum. |
| ReadScan.NavColumnsOfScanRows | utils/emb-Copy1.py:169-174 | On rows built by `read()`, `get_nav` returns latitude/longitude, or east/north with `enu`. |
| ReadScan.NameErrorAt | utils/emb-Copy1.py:165 | As written, `read()` raises at the first fix it counts, and no fix before it was counted. None means no fix is ever counted. |
| ReadScan.ReadAsWrittenFailsAtFirstFix | utils/emb-Copy1.py:155-165 | On an object with no adopted descriptor, the as-written `read()` fails at the very first position record. |
| ReadScan.ScanCountsFirstFix | utils/emb-Copy1.py:155-177 | With the range call bound, the first fix is counted, becomes the previous position, adds one row, and adds the range from the point to itself. |
| EmbCopy1.NavIndexErrorAt | utils/emb-Copy1.py:119-121 | The unguarded `self._navigation[-1]` fails at a depth record met while navigation is still empty. |
| EmbCopy1.NavIndexErrorSnoc | utils/emb-Copy1.py:111-123 | Appending a record moves the failure point only when there was none yet. |
| EmbCopy1.NavIndexErrorPrefix | utils/emb-Copy1.py:111-123 | A failure inside a prefix is the failure of the whole stream. |
| EmbCopy1.CountPositionsZero | utils/emb-Copy1.py:115-117 | No position has been appended iff no position record was met. |
| EmbCopy1.NavIndexErrorIffEarlyDepth | utils/emb-Copy1.py:115-121 | `read_datagrams` fails iff navigation starts empty and some depth record comes before every position record. |
| EmbCopy1.PositionFirstNeverFails | utils/emb-Copy1.py:115-121 | A stream that opens with a position record never fails this way. |
| EmbCopy1.ConsistentIsCopyConsistent | utils/emb-Copy1.py:20-46 | The invariant of utils/emb.py implies the weaker one of this variant. |
| EmbCopy1.CopyConsistentAfterRecord | utils/emb-Copy1.py:115-121 | One `read_datagrams` iteration keeps the variant's invariant. |
| EmbCopy1.CopyConsistentAfterSetNav | utils/emb-Copy1.py:57-78 | `set_nav` keeps the variant's invariant. |
| EmbCopy1.CopyConsistentAfterPing | utils/emb-Copy1.py:81-94 | `set_depth_line` of an accepted ping, with any navigation row, keeps the invariant. |
| EmbCopy1.CopyConsistentAfterRecords | utils/emb-Copy1.py:111-123 | Any number of iterations keeps it. |
| EmbCopy1.CopyConsistentFinalise | utils/emb-Copy1.py:130-132 | Finalising keeps it. |
| EmbCopy1.FinishReadFields | utils/emb-Copy1.py:218-226 | The per-field effect of the end of `read()` is exactly `FinishRead`. |
| EmbCopy1.ReadKeepsCopyConsistent | utils/emb-Copy1.py:111-132 | Whether `read_datagrams` stops at the failing record or runs to its end, the invariant holds. |
| EmbCopy1.ScanRecordsWidens | utils/emb-Copy1.py:149-211 | The scan only widens the object's extents and beam count, and keeps origin and positioning system set once navigation is non-empty. |
| EmbCopy1.CopyConsistentAfterRead | utils/emb-Copy1.py:135-226 | `read()` keeps the variant's invariant. |
| EmbCopy1.ShowGridUnguarded | utils/emb-Copy1.py:233-257 | This `show` fails iff the waterfall is empty; a ragged slice fails; otherwise it is the isometric stretch of the slice, whatever the start index. |
| EmbCopy1.NoStartGuard | utils/emb-Copy1.py:233-238 | A start index past the end gives an empty stretched grid here, where utils/emb.py refuses it. |
| EmbCopy1.ShowVariantsAgree | utils/emb-Copy1.py:233-257 | For a start inside the waterfall both versions of `show` agree. |
| EmbCopy1.WaterfallImage | utils/emb-Copy1.py:283-298 | `waterfall_img`: a ragged input fails; otherwise the isometric stretch of the given waterfall, with no guard. |
| EmbCopy1.WaterfallImageShape | utils/emb-Copy1.py:285-295 | With a usable factor the stretched grid always exists (an empty waterfall gives an empty grid), with one row per column and `len(waterfall)*k` cells in each. |
| EmbCopy1.ShowIsWaterfallImageOfWindow | utils/emb-Copy1.py:238-257 | `show` of a non-empty waterfall is `waterfall_img` of its slice. |
| EmbCopy1.Window | utils/emb-Copy1.py:111 | The records `read_datagrams` handles are the next `RecordsHandled` records of the stream. |
| EmbCopy1.LoopOutcome | utils/emb-Copy1.py:111-123 | The loop stops early exactly at the failing record, and runs to the end of its window iff there is none. |
| EmbCopy1.ExtendNoNavIndexError | utils/emb-Copy1.py:119-121 | A non-failing iteration extends the "no failure yet" invariant. |
| EmbCopy1.Emb.constructor | utils/emb-Copy1.py:20-46 | `__init__` leaves the initial state, the reader at the start, and the invariant. |
| EmbCopy1.Emb.GetNav | utils/emb-Copy1.py:48-55 | None iff navigation is empty; otherwise fields 2 and 3 of every row, or 4 and 5 with `enu` and at least 5 rows. |
| EmbCopy1.Emb.SetNavFields | utils/emb-Copy1.py:57-78 | Same per-field effect as in utils/emb.py. |
| EmbCopy1.Emb.SetNav | utils/emb-Copy1.py:57-78 | The public `set_nav`: one `set_nav` step, and the variant's invariant is kept. |
| EmbCopy1.Emb.SetDepthLineFields | utils/emb-Copy1.py:81-94 | Same per-field effect as in utils/emb.py. |
| EmbCopy1.Emb.SetDepthLine | utils/emb-Copy1.py:81-94 | The public `set_depth_line`: one `set_depth_line` step, and the variant's invariant is kept. |
| EmbCopy1.Emb.Dispatch | utils/emb-Copy1.py:115-121 | With a navigation row available for every depth record, one iteration is one step of the fold, using the last row. |
| EmbCopy1.Emb.ReadStep | utils/emb-Copy1.py:112-123 | An iteration fails iff it meets a depth record with navigation empty. Otherwise the fold and the "no failure" invariant extend by one; on failure nothing changes. |
| EmbCopy1.Emb.ReadRecordsUnguarded | utils/emb-Copy1.py:110-123 | The loop reads at most `RecordsHandled` records. It stops early only at a depth record met with navigation empty, and it leaves the fold of the records it got through. |
| EmbCopy1.Emb.ReadWindow | utils/emb-Copy1.py:110-123 | The loop succeeds iff the window has no failing record. Otherwise it stops at that record, after the reader has yielded it. |
| EmbCopy1.Emb.Finish | utils/emb-Copy1.py:130-132 | The statements after the loop, as in utils/emb.py. |
| EmbCopy1.Emb.ReadAndFinish | utils/emb-Copy1.py:97-132 | A failing record leaves the fold up to it and the index error. Otherwise the finalised fold of the window, failing iff nothing was read. |
| EmbCopy1.Emb.ReadDatagrams | utils/emb-Copy1.py:97-132 | The same outcome, with the invariant kept. |
| EmbCopy1.Emb.ScanFix | utils/emb-Copy1.py:152-177 | One position record of `read()` moves the fields and locals exactly as `ScanPosition`. |
| EmbCopy1.Emb.ScanPing | utils/emb-Copy1.py:179-201 | One depth record of `read()` moves them exactly as `ScanDepth`. |
| EmbCopy1.Emb.ScanNext | utils/emb-Copy1.py:150-201 | One loop iteration of `read()` is one step of the scan fold. |
| EmbCopy1.Emb.ScanAll | utils/emb-Copy1.py:149-211 | The loop of `read()` visits every remaining record and leaves the fields and locals of the scan fold. |
| EmbCopy1.Emb.FinishScan | utils/emb-Copy1.py:218-226 | The statements after the loop, field by field: `x_res`, `y_res` or zero division, the extents or the empty-`np.min` error, `total_record`, and the returned waterfall. |
| EmbCopy1.Emb.ReadOnce | utils/emb-Copy1.py:135-226 | The whole of `read()`, field by field. The reader is rewound on success and left at the end on an error. |
| EmbCopy1.Emb.Read | utils/emb-Copy1.py:135-226 | `read()` keeps the invariant. Its new state and result are exactly `FinishRead` of the scan over the remaining records. |
| EmbCopy1.Emb.Show | utils/emb-Copy1.py:232-257 | `show` returns exactly `ShowGridUnguarded` of the current waterfall. |
| EmbCopy1.Emb.WaterfallImg | utils/emb-Copy1.py:283-298 | `waterfall_img` returns exactly `WaterfallImage` of the given waterfall. |
| ShadedRelief.NpCenteredSlope | utils/shaded_relief.py:16-20 | `(y[2:] - y[:-2]) / (2*dx)` has `max(len(y)-2, 0)` values, the i-th being `(y[i+2]-y[i])/(2*dx)`. |
| ShadedRelief.IterateCenteredSlope | utils/shaded_relief.py:7-13 | The loop returns `max(len(y)-2, 0)` values, the i-th being `(y[i+2]-y[i])/(2*dx)`, and equals the slice form for every profile. |
| ShadedRelief.Clamp | utils/shaded_relief.py:51-54 | An index clamped into `[0, n)`, left alone when already there. |
| ShadedRelief.EdgePad | utils/shaded_relief.py:39-44 | The documented padding: a grid two larger each way, each cell copying the nearest input cell. |
| ShadedRelief.Padded | utils/shaded_relief.py:46-60 | `assignBCs` as written: the shape `(ny+2) x (nx+2)`; equal to the edge padding everywhere but the bottom-right corner, which holds `elevGrid[-1, 0]`. |
| ShadedRelief.BottomRightCornerCounterexample | utils/shaded_relief.py:60 | For the grid [[0, 1]] the bottom-right corner is 0 as written and 1 when padded by the edge. |
| ShadedRelief.Rows | utils/shaded_relief.py:46 | The rows of a 2-D array, cell for cell. |
| ShadedRelief.AssignBCs | utils/shaded_relief.py:40-62 | The in-place fill fails (IndexError) iff the grid has no row or no column. Otherwise it returns a new `(ny+2) x (nx+2)` array whose every cell is the padded grid's. |
| ShadedRelief.PadCells | utils/shaded_relief.py:50-60 | Onto an array whose interior holds the grid, the sides and corners are written so that the whole array is the padded grid. |
| ShadedRelief.PadRows | utils/shaded_relief.py:51-52 | The top and bottom padded rows copy the first and last input rows; the interior is kept. |
| ShadedRelief.PadColumns | utils/shaded_relief.py:53-54 | The left and right padded columns copy the first and last input columns; interior and rows are kept. |
| ShadedRelief.PadCorners | utils/shaded_relief.py:57-60 | Three corners copy the matching input corner and the bottom-right copies `elevGrid[-1, 0]`; the rest is kept. |
| ShadedRelief.PadComplete | utils/shaded_relief.py:48-60 | Interior, sides and corners written as above make up the whole padded grid. |
| ShadedRelief.SlopesX | utils/shaded_relief.py:34 | `Zbc[1:-1, 2:] - Zbc[1:-1, :-2]` over `2*dx` is two smaller each way. |
| ShadedRelief.SlopesY | utils/shaded_relief.py:35 | `Zbc[2:, 1:-1] - Zbc[:-2, 1:-1]` over `2*dx` is two smaller each way. |
| ShadedRelief.PaddedSlopesX | utils/shaded_relief.py:31-34 | Each column-direction slope of the padded grid is `(g[r][min(c+1,nx-1)] - g[r][max(c-1,0)])/(2*dx)`. |
| ShadedRelief.PaddedSlopesY | utils/shaded_relief.py:31-35 | Each row-direction slope is `(g[min(r+1,ny-1)][c] - g[max(r-1,0)][c])/(2*dx)`. |
| ShadedRelief.CalcFiniteSlopes | utils/shaded_relief.py:23-37 | It fails iff the grid cannot be padded. Otherwise Sx and Sy have the input's shape and the clamped centred-difference formula in each direction, divided by `2*dx` even at the edges. |
| ShadedRelief.CornersNeverRead | utils/shaded_relief.py:34-35 | Two padded grids that differ only in their corners give the same slopes. |
| ShadedRelief.SlopesIgnoreBottomRightCorner | utils/shaded_relief.py:31-60 | The slopes from `assignBCs` as written equal those from the edge padding, so the corner slip never shows. |
| ShadedRelief.ConstantGridFlat | utils/shaded_relief.py:31-37 | A constant grid has zero slope everywhere. |
| ShadedRelief.CalcHillshade | utils/shaded_relief.py:65-76 | The hillshade fails iff the slopes do. Otherwise it has the grid's shape, and each cell is the intensity of the two slopes there. |
| ShadedRelief.FlatGridEvenShade | utils/shaded_relief.py:71-76 | A flat grid is shaded evenly, with the intensity of a level surface. |

## Left out

- The `.all` reader (`utils.pyall`): `moreData`, `readDatagram`, `datagram.read()`, `currentRecordDateTime`, `rewind` and `close` are I/O. The model replaces them with a fixed sequence of decoded records, each with its timestamp. The reader's cursor is the field `pos`, and `rewind` sets it to 0.
- The geodesy calls `calculateRangeBearingFromGeographicals` and `pymap3d.geodetic2enu` are foreign numerics. They are the two function parameters of `Geodesy`. The distance is proved non-decreasing only under the premise that the range is non-negative.
- `__repr__`, logging, and `print` progress output have no effect on state. The `counter % 10000` and `counter % dt` branches only print.
- `calcHillshade`'s intensity is left out. It uses `atan2`, `atan`, `sqrt`, `cos` and `sin`, which are trigonometric floating point. It is the parameter `shade`, a function of the two slopes at a cell. The choice of azimuth and elevation in `show` (45/30 in grey scale, 45/5 with a palette) goes with it.
- The colouring and image steps of `show` and `waterfall_img` are rendering libraries: the `shade_scale` scaling, the matplotlib colour map, the PIL conversions, and `ImageChops.subtract`. `Emb.Emb.Show`, `EmbCopy1.Emb.Show` and `EmbCopy1.Emb.WaterfallImg` stop at the masked, isometrically stretched grid.
- Emb.Emb.Show: an empty stretched grid (a one-row waterfall with the default `idxs=[0, -1]`, or a stretch factor of 0) is returned as an empty grid. In the code it reaches `sr.calcHillshade`, whose `assignBCs` raises IndexError at utils/shaded_relief.py:51; that error of the rendering step is not modelled here (`ShadedRelief.AssignBCs` models it on its own).
- EmbCopy1.Emb.Show: the same, and also for a start index past the end.
- EmbCopy1.Emb.WaterfallImg: the same, for an empty waterfall or a stretch factor of 0.
- Floating point is modelled as exact reals: there is no rounding. NaN appears only where the code produces it from an empty average; it is `None` in `MeanSpacing`, `MeanOf` and `xRes`. A NaN `x_res` makes the stretch factor undefined (`InvalidStretch`).
- `ShadedRelief.NpCenteredSlope`, `ShadedRelief.IterateCenteredSlope`, `ShadedRelief.CalcFiniteSlopes` and `ShadedRelief.CalcHillshade`: these require `dx != 0`. The numpy inf/NaN cells that a zero spacing gives are not modelled.
- `EmbCopy1.Emb.GetNav`: it requires all navigation rows to have one width. `set_nav` (7 fields) and `read()` (6 fields) can mix rows in one object. `np.array` of such a ragged list and the column indexing that follows are not modelled.
- The `add_enu=False` path of `set_nav` and `read()` leaves `east` and `north` unbound, which raises in Python. Only the default `add_enu=True` is modelled.
- `ReadScan.ScanRecords` and `EmbCopy1.Emb.Read` model `read()` with the range call bound. As written, line 165 refers to the unbound name `geodetic`. That as-written behaviour is modelled separately by `ReadScan.NameErrorAt` (see Findings).
- The pixel position of the across-track samples (`xp`, utils/emb-Copy1.py:205) is computed and never used, so it is not modelled. Neither are the `_alongIntervals`, `_leftExtents` and `_rightExtents` arrays of `__init__`, which nothing reads or writes.
- `show`'s `idxs` is modelled as its two integers `start` and `stop`, and `zoom` as a real.
- Mutation through aliasing is not modelled: the caller's datagram object has its `AcrossTrackDistance` replaced by the filtered list. The model gives the filtered list to the computation directly.

## Findings

| source | as written | input that shows it | evidently intended | confidence | as-written member | corrected member |
|---|---|---|---|---|---|---|
| utils/emb.py:74 | `get_nav` returns `nav[:,2], nav[:,3]` and `nav[:,4], nav[:,5]`, but `set_nav` rows are `[counter, time, heading, lat, lon, east, north]` | one fix at lat 10, lon 20, heading 90 gives `([90], [10])` | latitude and longitude (fields 3 and 4), as the docstring says | high; not executed | Accumulator.GetNavCounterexample | Accumulator.NavColumnsIntendedAfterSetNav |
| utils/emb.py:198 | `np.linspace(0, len(column), …)` queries up to `n`, past the last sample index `n-1`, so the final query hits the 0.0 fill and is masked | column [5, 7] with stretch 1 gives [5, 0] | queries over `[0, n-1]` | medium; not executed | Resample.ResampleColumnDropsLastSample | Resample.ResampleColumnIntendedIdentity |
| utils/emb.py:133 | `counter <= max_number` lets one more record through | `max_number = m` with more than `m` records available reads `m + 1` | at most `max_number` records, as documented | high; not executed | Accumulator.MaxNumberReadsOneMore | Accumulator.RecordsHandledIntended |
| utils/emb-Copy1.py:165 | `geodetic.calculateRangeBearingFromGeographicals` uses a name that is imported only as `utils.geodetic` | any stream holding a position record, on a fresh object: the first such record raises | the range call of utils/emb.py:86 | high; not executed | ReadScan.ReadAsWrittenFailsAtFirstFix | ReadScan.ScanCountsFirstFix |
| utils/shaded_relief.py:60 | `Zbc[-1, -1] = elevGrid[-1, 0]` | grid [[0, 1]]: the bottom-right corner is 0, not 1 | `elevGrid[-1, -1]`, following the other three corners and the comment at 42-43 | high; not executed | ShadedRelief.BottomRightCornerCounterexample | ShadedRelief.SlopesIgnoreBottomRightCorner |

The classes follow the code as written. The corrected definitions stand beside the
as-written ones, and the evidently intended property is proved about each corrected
definition:
- `NavColumnsIntended` returns the fix's latitude and longitude.
- `ResampleColumnIntended` keeps both end samples, stays within the column's range, and
  is the identity at stretch 1.
- `RecordsHandledIntended` is bounded by `max_number`.
- The bound range call counts the first fix.
- `EdgePad` is the corrected padding. The slopes computed from the as-written padding
  equal the slopes from `EdgePad`, so downstream the corner slip is harmless.
