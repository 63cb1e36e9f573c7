# USGS2TELEMAC alignment core, modelled in Dafny

USGS2TELEMAC turns the gauge records of several USGS stations into one
liquid-boundary table for TELEMAC. Each record is a discharge or a stage
series sampled at its own irregular times. The output table has a single
time axis in elapsed seconds and one value column per station.

This project models the array logic of `usgs2telemac.py`. A missing entry
(NaN in the original) is an explicit `None` of the `Cell` type
(`cells.dfy`). Values are mathematical reals.

- `interpolation.dfy` models `interpol`, the gap filler. It is an
  in-place method over an `array<Cell>`, split into its three passes:
  - collecting the present rows;
  - linear interpolation between consecutive present rows;
  - the downward carry of the previous row.

  The method is proved equal to `Interpolated`, a row-by-row specification
  built on the nearest present rows below and above each row.
- `unification.dfy` models `generate_R`:
  - choosing the reference column;
  - seeding the output matrix;
  - projecting every station's samples with a left `searchsorted`;
  - interpolating each rebuilt column.

  The model works on `array2<Cell>`. Each output column is proved equal to
  `Output`, a specification built from `Seed`, `Landed` and `Interpolated`.
- `assembly.dfy` models `num_non_data_lines`, `find_longest`,
  `extract_time_series` and `generate_A`, including the unit factor and
  the datum shift.
- `boundary.dfy` models the part of `main` that chains `generate_A` into
  `generate_R`, and the three-line header written above the table.

The original raises an IndexError on two inputs. Both are modelled as
failures of `GenerateR`:
- `NoReferenceColumn`: the matrix has no rows, or its last row holds
  nothing. The scan then stops on the last column, and `A[:, i + 1]` is
  out of range.
- `SampleBeyondAxis(j)`: a sample of station `j` is later than the last
  reference time, so its search result is one past the last row.

The model keeps these behaviours of the code as written:
- A sample later than the last reference time is not clamped to the last
  row. The code indexes past the end, and the model reports
  `SampleBeyondAxis`.
- The unit factor depends on the first letter of the type. The code
  converts `Q` (cubic feet per second to cubic metres per second, ×0.3048³)
  and `S` (feet to metres, ×0.3048). A type starting with `H` is not
  converted. The datum is added whenever it is present, whatever the type.
- The reference station's value column is copied into that station's own
  output column, `Reference / 2 + 1`, not into the first value column.
- A still-missing row 0 takes the value of the last row (Python's
  `v[-1]`), not the first known value. Leading rows stay missing when the
  last row is missing too. Rows after the last known value take that
  value, so the output is not always fully populated.
- The reference station is rebuilt like any other station when its first
  reading is missing. Otherwise its readings are kept uninterpolated.

## Model

| member | source | states |
|---|---|---|
| Interpolation.PresentRows | usgs2telemac.py:165-171 | the collected indices are present rows of the column, in strictly increasing order |
| Interpolation.PresentRowsComplete | usgs2telemac.py:168-171 | every present row is among the collected indices |
| Interpolation.PresentBelow | usgs2telemac.py:172-178 | the nearest present row below a row, with every row between them missing |
| Interpolation.PresentAbove | usgs2telemac.py:172-178 | the nearest present row above a row, with every row between them missing |
| Interpolation.LerpBetween | usgs2telemac.py:177 | the interpolation formula meets the two known values at the gap's ends and stays between them |
| Interpolation.Interpolated | usgs2telemac.py:151-182 | keeps the column's length; every present entry is unchanged; a fully present column is returned as it is |
| Interpolation.GapBetweenPresentRows | usgs2telemac.py:172-176 | rows strictly between two consecutive collected indices are missing |
| Interpolation.BridgedOutside | usgs2telemac.py:172-178 | the interpolation pass writes only rows strictly between two present rows |
| Interpolation.BridgedBeforeFirst | usgs2telemac.py:172-178 | rows up to the first present row are left as they were by the interpolation pass |
| Interpolation.BridgedAfterLast | usgs2telemac.py:172-178 | a row after the last present row is left as it was by the interpolation pass |
| Interpolation.BridgedInGap | usgs2telemac.py:176-177 | a missing row k in a gap p < k < q gets v[p] + (v[q] − v[p])·(k − p)/(q − p) |
| Interpolation.InterpolatedInGap | usgs2telemac.py:172-181 | the gap formula survives the final carry pass |
| Interpolation.InterpolatedAfterLast | usgs2telemac.py:179-181 | rows after the last present row take the last present value |
| Interpolation.InterpolatedBeforeFirst | usgs2telemac.py:179-181 | leading missing rows take the value of row n−1 (`v[-1]`), present or not |
| Interpolation.InterpolatedAllMissing | usgs2telemac.py:179-181 | a column without any present entry stays entirely missing |
| Interpolation.InterpolatedPresentFrom | usgs2telemac.py:172-181 | from the first present row on, every row is present after interpolation |
| Interpolation.InterpolatedDense | usgs2telemac.py:179-181 | when row n−1 is present, no row is missing after interpolation |
| Interpolation.InterpolatedExample | usgs2telemac.py:172-178 | the column 5, _, _, _, 15 becomes 5, 7.5, 10, 12.5, 15 |
| Interpolation.Interpol | usgs2telemac.py:151-182 | the array after the call is `Interpolated` of the array before it |
| Interpolation.CollectPresentRows | usgs2telemac.py:165-171 | the index array holds exactly the present rows, in order |
| Interpolation.BridgeGaps | usgs2telemac.py:172-178 | the interpolation pass over all consecutive pairs of present rows |
| Interpolation.BridgeStart | usgs2telemac.py:172-178 | before the first gap is filled, the column already agrees with the interpolation pass up to its first present row |
| Interpolation.BridgedUpToEnds | usgs2telemac.py:175-177 | while gaps are filled in order, the two ends of the next gap still hold their original readings |
| Interpolation.BridgeStep | usgs2telemac.py:172-178 | filling the gap between consecutive present rows p and q extends the agreement with the interpolation pass from row p to row q |
| Interpolation.BridgeFinish | usgs2telemac.py:172-178 | once the gap ending at the last present row is filled, the column equals the whole interpolation pass |
| Interpolation.FillGap | usgs2telemac.py:175-178 | the inner loop writes the interpolated values strictly between p and q and nothing else |
| Interpolation.CarryDown | usgs2telemac.py:179-181 | the final pass, row by row from row 0, copying row i−1 (row n−1 for row 0) into each missing row |
| Unification.SearchLeft | usgs2telemac.py:213 | the result is a row of the axis or one past the last; a row it names is at least the sample time |
| Unification.SearchLeftSplits | usgs2telemac.py:213 | every row before the result is earlier than the sample time; on a sorted axis every row from the result on is at least the sample time, so the result is the left insertion point |
| Unification.SearchLeftPastEnd | usgs2telemac.py:213-214 | the search result is one past the last row exactly when the sample is later than the last reference time |
| Unification.SampleCount | usgs2telemac.py:209-211 | the sample loop reads the rows before the first missing time, and only those |
| Unification.LastLanding | usgs2telemac.py:209-214 | the sample whose value ends up on a row is the last one the search sends there |
| Unification.LandedStep | usgs2telemac.py:212-214 | writing one more sample changes only the row the search sends it to, which then holds that sample's value |
| Unification.FitsWithinAxis | usgs2telemac.py:213-214 | a station fits the axis exactly when no sample time exceeds the last reference time |
| Unification.FirstPresent | usgs2telemac.py:202-204 | the first present entry of a row, with every entry before it missing |
| Unification.FirstPresentAt | usgs2telemac.py:202-204 | a present entry preceded only by missing entries is the one the scan stops at |
| Unification.FirstPresentNone | usgs2telemac.py:202-204 | a row without any entry has no first present entry |
| Unification.ReferenceFacts | usgs2telemac.py:202-206 | the reference is a time column, followed by its value column, fully present and non-decreasing |
| Unification.GenerateR | usgs2telemac.py:185-218 | fails exactly when there is no reference or a rebuilt station has a sample beyond the axis, naming the first such station; on success R has rows(A) rows and columns(A)/2 + 1 columns, column 0 is the reference time column, and every station column is `Output` |
| Unification.FindReference | usgs2telemac.py:202-204 | the scan of the last row returns its first present entry, or reports that there is none |
| Unification.SeedOutput | usgs2telemac.py:199-206 | R starts with the reference times in column 0, the reference values in column Reference / 2 + 1, and missing entries elsewhere |
| Unification.RebuildStations | usgs2telemac.py:207-217 | the station loop reports a failing station exactly when some station does not fit, and it is the first such one (every earlier station fits); when all fit every station column is `Output`; column 0 is unchanged |
| Unification.KeptStation | usgs2telemac.py:216-217 | a station whose first row already holds a reading is output as seeded and always fits |
| Unification.RebuildStation | usgs2telemac.py:208-215 | rebuilding one station reports whether it fits; if it does its column becomes `Output`; no other column changes |
| Unification.ProjectStation | usgs2telemac.py:209-214 | reports whether the station fits; if it does, its column is the seeded column with the last landing sample written on each row; other columns are unchanged |
| Unification.InterpolateColumn | usgs2telemac.py:215 | the column becomes `Interpolated` of itself and other columns are unchanged |
| Unification.ReadColumn | usgs2telemac.py:215 | the fresh vector holds column j of R, row by row |
| Unification.WriteColumn | usgs2telemac.py:215 | column j of R becomes the given vector and no other column changes |
| Unification.SameColumn | usgs2telemac.py:215 | a column agreeing entry by entry with a sequence equals it |
| Unification.SearchLeftFindsOwnRow | usgs2telemac.py:213 | on a strictly increasing axis, searching for the time of row k gives row k |
| Unification.SampleCountOfComplete | usgs2telemac.py:209-211 | a time column without a missing entry is read to its end |
| Unification.LandedOnOwnAxis | usgs2telemac.py:209-214 | a station sampled at exactly the reference times (strictly increasing) lands row for row: the projection loses nothing |
| Unification.LandedKeepsLastSample | usgs2telemac.py:212-214 | a sample's landing row holds its value unless a later sample lands on the same row |
| Unification.LandedKeepsSeed | usgs2telemac.py:212-214 | a row on which no sample lands keeps its seeded entry |
| Unification.OutputOnReferenceAxis | usgs2telemac.py:207-215 | a rebuilt station that shares the reference times fits and comes out as its own readings, gap-filled |
| Assembly.NumNonDataLines | usgs2telemac.py:47-56 | the result is the number of leading lines starting with `#`, plus 2; so it is at least 2 |
| Assembly.FindLongest | usgs2telemac.py:73-81 | the result is at least every station's row count and equal to one of them |
| Assembly.ExtractTimeSeries | usgs2telemac.py:105-114 | both outputs are as long as the rows; elapsed time of row i is its stamp minus the first stamp, so row 0 is 0; non-decreasing when the stamps are; readings are the rows' readings |
| Assembly.UnitFactor | usgs2telemac.py:139-142 | the factor applied to the readings is positive |
| Assembly.Converted | usgs2telemac.py:139-144 | a converted reading is missing exactly when the raw reading is |
| Assembly.Restored | usgs2telemac.py:139-144 | the inverse conversion keeps missing readings missing |
| Assembly.ConvertedRestores | usgs2telemac.py:139-144 | undoing the datum shift and the unit factor gives back the raw reading |
| Assembly.ConvertedExamples | usgs2telemac.py:139-144 | 100 cfs is 2.8316846592 cms; 10 ft over a 1.5 m datum is 4.548 m; an `H` type is only shifted |
| Assembly.GenerateA | usgs2telemac.py:117-148 | A has 2N columns and as many rows as the longest station; every entry is `RawEntry` (station i's elapsed time and converted reading in columns 2i and 2i+1 of its first rows, missing below); with chronological stations A has the layout `generate_R` relies on |
| Assembly.WriteStation | usgs2telemac.py:145-146 | writes the time and value columns of one station in its first rows and changes nothing else |
| Assembly.RawEntryLayout | usgs2telemac.py:134-147 | time columns are present in a prefix and non-decreasing; a value is present only beside a time |
| Boundary.Split | usgs2telemac.py:285 | splitting always gives at least one piece |
| Boundary.SplitAtSeparator | usgs2telemac.py:285 | splitting at the first separator yields the text before it, then the split of the rest |
| Boundary.SplitWithoutSeparator | usgs2telemac.py:285 | a line without the separator splits into itself |
| Boundary.SplitJoin | usgs2telemac.py:285 | splitting a tab-joined line gives back its fields |
| Boundary.JoinAvoids | usgs2telemac.py:285 | a joined line contains no newline when its fields contain none |
| Boundary.HeaderLines | usgs2telemac.py:285 | the header is exactly three lines: `#`, the joined types and the joined units, each splitting back into its fields |
| Boundary.HeaderNamesTimeColumn | usgs2telemac.py:234-235 | with the 'T' and 's' prefixes, the type and unit lines open with the time column's fields, followed by the stations' in order |
| Boundary.ReferenceIsFirstLongest | usgs2telemac.py:134-147 | in a matrix built by `generate_A`, the reference is the time column of the first longest station |
| Boundary.NoRowsNoReference | usgs2telemac.py:202 | a matrix without rows has no reference |
| Boundary.FirstLongestOf | usgs2telemac.py:73-81 | some station is the first to reach the maximum row count |
| Boundary.Tabulate | usgs2telemac.py:282-284 | `generate_A` then `generate_R` fails for lack of a reference exactly when every station is empty; on success the table has N + 1 columns, and its time column is the elapsed time of the first longest station, with as many rows as that station |

## Left out

- The spinner thread, the global `done` flag and `woking_animate` (usgs2telemac.py:18-30): concurrency and terminal output.
- `plot` (usgs2telemac.py:239-268): plotting.
- Removing the old output file, the exception handlers and `np.savetxt` in `main` (usgs2telemac.py:271-297): file I/O and error reporting. Only the header string is modelled.
- `load_user_input` (usgs2telemac.py:221-236): reading and parsing the configuration file. Its results are parameters. The 'T'/'s' prefix appears in `Boundary.HeaderNamesTimeColumn`.
- `pd.read_csv` and `datetime.strptime`: a station file's data rows arrive already split, as `Sample`s with integer-second stamps. `NumNonDataLines` works on the file's lines. The rows pandas would read after skipping those lines are an input of `FindLongest` and `ExtractTimeSeries`, not derived from the lines.
- The choice of data column through `col_num` (usgs2telemac.py:138): each `Sample` carries the reading of the selected column.
- IEEE floating point: values are exact reals. Rounding in the interpolation formula and in the unit factor is not modelled. NaN appears only as a missing entry.
- `numpy.searchsorted` is modelled by its documented result on a sorted axis, not by its binary search. `GenerateR` requires `RawLayout` (what `GenerateA` produces from chronological station files), which makes the reference axis sorted.
- Assembly.NumNonDataLines: requires every line to be non-empty. `readlines` never yields an empty line, so the original's `each_line[0]` cannot fail.
- Assembly.FindLongest: requires at least one station, because `np.max` of an empty array raises.
- Assembly.GenerateA: requires the configuration the original indexes (`Configured`): at least one station, a type with a first character for every station after the leading 'T', and a datum entry per station. The original raises otherwise.
- Boundary.Tabulate: states the reference and the shape of the table; the station columns are those of `Unification.GenerateR`, whose contract it does not repeat.
