# UV-processor core in Dafny

UV-processor reads the wide CSV exported by a UV-Vis
spectrophotometer. Each repeat block of that CSV holds one (wavelength,
absorbance) column pair per sample. The program turns the CSV into
kinetic results in three steps:

- `process_uv_data` finds the sample names in the header and computes
  N = width // l - 1, where l is the number of samples. The source calls N
  the number of repeat experiments, but for a header of B complete blocks
  it is 2B - 1. The index loop tries N + 1 blocks per sample and drops the
  columns that fall past the header. The kept columns are labelled with
  time points built from the run time and the interval, not from N. Each
  sample's columns become one wavelength × time table, saved as
  `<name>_uv_data.csv`.
- `normalize_data` corrects each table's baseline. It picks the wavelength
  row that varies least over time and turns that row into a correction
  vector whose smallest entry is 0. It subtracts the vector from every row
  and saves each corrected table together with its correction vector.
- `determine_rate` fits `y = -a·exp(-b·x) + y0` to one wavelength's row of
  each table and reports the initial rate `a·b`. Only the exponential fit
  is modelled.

The model is split into these modules:

| module | file | contents |
|---|---|---|
| `Python` | `python.dfy` | the Python and pandas behaviour the program relies on: exceptions as `Result`, an insertion-ordered `Dict`, `int()` truncation, `range()`, `str(int)`/`float()` on integer text, `strip()`, `in` and `endswith` on strings |
| `Frames` | `frames.dfy` | a pandas `DataFrame` as row labels, column labels and a rectangular grid of reals |
| `Layout` | `layout.dfy` | sample-name detection and the repeat count `N` |
| `Demux` | `demux.dfy` | absorbance column indices, time labels, per-sample tables, and `process_uv_data` itself |
| `Normalize` | `normalize.dfy` | `normalize_data` |
| `Kinetics` | `kinetics.dfy` | the exponential branch of `determine_rate` |

Code that works by updating state is modelled as methods with loops. These
are the header scan, the index loop, the zip loop, the sample loops and
the rate loop. Each method is proved equal to a specification function,
and the properties are proved as lemmas about those functions. Files
written to disk are modelled as the sequence of (name, table) pairs in
the order they are saved. An exception is modelled as the `Err` value of
a `Result`.

## Model

| member | source | states |
|---|---|---|
| Layout.DetectSampleNames | UV-processor/UV-processor.py:46-52 | the header scan returns exactly the auto-detected names |
| Layout.DetectedNamesProperties | UV-processor/UV-processor.py:48-52 | every detected name is a header label that is neither a placeholder, blank nor a "_C1" marker; any such label left out appears only at or after the first "_C1" label |
| Layout.StopIndexIs | UV-processor/UV-processor.py:50-51 | the scan stops at the first sample label ending in "_C1" and nowhere else |
| Layout.StopIndexFirst | UV-processor/UV-processor.py:48-51 | the stop position is a "_C1" label or the end of the header, and no earlier label is one |
| Layout.SampleLabelsMembers | UV-processor/UV-processor.py:49 | the labels the test at line 49 keeps are exactly the header labels that pass it |
| Layout.DetectedNamesDistinct | UV-processor/UV-processor.py:48-52 | distinct header labels give distinct sample names |
| Layout.RepeatCount | UV-processor/UV-processor.py:63-64 | `N` raises ZeroDivisionError exactly when no sample was found; otherwise N + 1 whole groups of l labels fit in the header and N + 2 do not, so N + 1 = width // l. For B complete blocks of 2·l labels that is 2B or 2B + 1, and exactly 2B in a regular header |
| Layout.RegularRepeatCount | UV-processor/UV-processor.py:63-64 | in a header of B complete blocks of 2·l labels, N is 2B - 1 |
| Layout.RepeatCountNonNegative | UV-processor/UV-processor.py:63-64 | with at least one sample and at least as many header labels as samples, N is defined and at least 0 |
| Layout.ExplicitAsWrittenIgnoresCount | UV-processor/UV-processor.py:53-59 | as written, the explicit branch returns every label without "Unamed", whatever num_samples is |
| Layout.ExplicitAsWrittenCounterexample | UV-processor/UV-processor.py:53-59 | with num_samples 1, the header ["A", "Unnamed: 1", "B"] yields three names, a placeholder among them |
| Layout.PlaceholderNotUnamed | UV-processor/UV-processor.py:56 | no pandas placeholder "Unnamed: k" (k ≥ 0) contains the misspelt "Unamed", so the test lets every placeholder through |
| Layout.ExplicitNamesFirstN | UV-processor/UV-processor.py:53-59 | the corrected branch returns the first num_samples labels that pass the line-49 test (not a placeholder, not blank), or all of them when there are fewer |
| Layout.ExplicitCorrectedExample | UV-processor/UV-processor.py:53-59 | on the same header the corrected branch returns ["A"] |
| Layout.IntendedSampleNames | UV-processor/UV-processor.py:46-59 | the resolved names never outnumber the header labels |
| Demux.AbsorbanceIndices | UV-processor/UV-processor.py:84-88 | the block loop returns the in-range absorbance columns of sample i for blocks 0 .. N |
| Demux.ColumnIndicesShape | UV-processor/UV-processor.py:84-88 | the kept indices are sample i's absorbance columns of the first m blocks (m at most the blocks tried), strictly increasing, odd and inside the header; if fewer than the blocks tried were kept, the next block's column is past the header |
| Demux.RegularLayoutIndices | UV-processor/UV-processor.py:63-88 | in a header of B complete blocks (2·l·B labels), every sample gets exactly B absorbance columns, although 2B blocks are tried |
| Demux.ColumnIndicesEmpty | UV-processor/UV-processor.py:84-91 | a sample has no absorbance column exactly when the loop does not run or its first column is outside the header |
| Demux.TimePoints | UV-processor/UV-processor.py:76 | the time labels raise ValueError exactly when int(interval) is 0 |
| Demux.TimePointsDistinct | UV-processor/UV-processor.py:76 | the time labels never repeat, so no zipped column overwrites another |
| Demux.TimePointsPositiveStep | UV-processor/UV-processor.py:76 | for a positive interval, label k is k·step seconds and below int(run_time) + step, there are as many labels as range() yields, and the first is "0s" unless the list is empty |
| Demux.TimePointsExample | UV-processor/UV-processor.py:76 | a 20 s run read every 10 s is labelled 0s, 10s, 20s |
| Demux.AssembleSampleFrame | UV-processor/UV-processor.py:93-98 | the zip loop and the DataFrame give exactly the sample's table |
| Demux.SampleFrameColumns | UV-processor/UV-processor.py:93-98 | a sample's table is labelled by wavelength and has min(#indices, #time labels) columns, named by the time labels in order |
| Demux.SampleFrameCells | UV-processor/UV-processor.py:93-98 | column k of a sample's table holds raw column idx[k], row by row |
| Demux.StoreSample | UV-processor/UV-processor.py:83-106 | one turn of the sample loop stores and saves that sample's table, if it has one |
| Demux.AssembleSampleTables | UV-processor/UV-processor.py:82-106 | the sample loop leaves the dict and the saved files that the fold over the sample tables gives |
| Demux.StoreUpToIsStore | UV-processor/UV-processor.py:82-106 | the loop over the CSV is the generic fold over its per-sample tables |
| Demux.StoreEntry | UV-processor/UV-processor.py:91-101 | with distinct names, a sample is in the dict exactly when it has a table, and then its own table is stored |
| Demux.StoreSaved | UV-processor/UV-processor.py:101-106 | each stored table is saved once, when it is stored, and in the same order |
| Demux.AssembleEntry | UV-processor/UV-processor.py:82-110 | with distinct names, sample j is in the returned dict exactly when its first absorbance column 2j+1 is inside the header, and then maps to the table built from its own columns |
| Demux.AssembleOrder | UV-processor/UV-processor.py:101-110 | with distinct names, the saved pairs are the returned dict's entries, and the dict lists them in reverse order of saving |
| Demux.StoreSavedOrder | UV-processor/UV-processor.py:91-106 | the sample loop saves exactly the samples that have a table, in sample order |
| Demux.AssembleSamples | UV-processor/UV-processor.py:82-110 | with distinct names and N at least 0, the tables of the first min(l, width // 2) samples are saved in sample order, and the returned dict lists exactly those samples in reverse order |
| Demux.AssembleWellShaped | UV-processor/UV-processor.py:93-101 | every returned table has one row per wavelength and one cell per column |
| Demux.ReversedOrder | UV-processor/UV-processor.py:110 | reversing the dict lists the saved samples last to first, with the same entries |
| Demux.UvPlanErrors | UV-processor/UV-processor.py:46-76 | the plan fails exactly when no sample name is detected (ZeroDivisionError) or int(interval) is 0 (ValueError, when names were found) |
| Demux.UvPlanValue | UV-processor/UV-processor.py:46-76 | on success, the plan holds the detected names, N = width // l - 1 with N at least 0, and the time labels |
| Demux.ProcessUvData | UV-processor/UV-processor.py:34-112 | process_uv_data returns what the specification function gives: the error, or the reversed dict and the saved tables |
| Normalize.RowRangeZero | UV-processor/UV-processor.py:125 | a row's range is 0 exactly when all its cells are equal |
| Normalize.FirstMinIsFirstMinimum | UV-processor/UV-processor.py:126 | idxmin picks a smallest value, and every position before it holds a larger one |
| Normalize.BaselineRowMinimal | UV-processor/UV-processor.py:125-127 | the baseline row is the first row whose range is smallest |
| Normalize.CorrectionProperties | UV-processor/UV-processor.py:128-129 | the correction vector is never negative, is 0 somewhere, and differs between columns exactly as the baseline row does |
| Normalize.NormalizeFrame | UV-processor/UV-processor.py:125-132 | a table raises exactly when it has no rows (ValueError) or no columns (KeyError); otherwise it keeps its labels and shape |
| Normalize.NormalizeFrameCorrection | UV-processor/UV-processor.py:125-132 | every corrected cell is the original minus its column's correction, and that correction is never negative and 0 somewhere |
| Normalize.NormalizePreservesDifferences | UV-processor/UV-processor.py:132 | within each column, differences between rows are unchanged |
| Normalize.NormalizeFlattensBaseline | UV-processor/UV-processor.py:125-132 | the baseline row comes out constant, at its original minimum |
| Normalize.EarlierRowNotFlat | UV-processor/UV-processor.py:125-132 | no row before the baseline row comes out flat |
| Normalize.NormalizeIdempotent | UV-processor/UV-processor.py:125-132 | correcting a corrected table changes nothing, and its new correction vector is all zeros |
| Normalize.NormalizeNext | UV-processor/UV-processor.py:122-145 | one pass of the sample loop either raises, and then normalize_data's outcome is that error with the copies saved so far, or extends the dict and the saved copies to the next sample's prefix |
| Normalize.PersistedCopy | UV-processor/UV-processor.py:138-140 | the saved copy is the corrected table with the correction vector added as a last row labelled corr_values |
| Normalize.PersistedCopyDropLast | UV-processor/UV-processor.py:138-140 | dropping the saved copy's last row gives back the returned table |
| Normalize.NormalizeData | UV-processor/UV-processor.py:114-148 | normalize_data returns what the specification function gives: the error or the dict, and the copies saved before it stopped |
| Normalize.NormalizeAllSucceeds | UV-processor/UV-processor.py:119-148 | normalize_data succeeds exactly when every table has a row and a column; it saves one copy per sample before the first table it cannot correct, and that table is the one that raised |
| Normalize.NormalizeAllTables | UV-processor/UV-processor.py:122-135 | on success, the sample names keep their order and each maps to its own corrected table |
| Normalize.NormalizeAllSaved | UV-processor/UV-processor.py:138-145 | the j-th saved copy is the j-th sample's corrected table with its correction row |
| Normalize.NormalizeAllWellShaped | UV-processor/UV-processor.py:119-148 | the returned dict holds only well-shaped tables |
| Kinetics.UvTablesWellShaped | UV-processor/UV-processor.py:34-112 | every table process_uv_data returns is well-shaped, which is what normalize_data and determine_rate require |
| Kinetics.RowPositionFinds | UV-processor/UV-processor.py:227 | get_loc raises KeyError exactly when no row carries the wavelength, and otherwise finds the first row that does |
| Kinetics.LabelTime | UV-processor/UV-processor.py:233 | reading a time from a column label can raise only ValueError |
| Kinetics.LabelTimesPointwise | UV-processor/UV-processor.py:233 | parsing the times raises ValueError exactly when some label is not a number, and otherwise gives each label's number in order |
| Kinetics.LabelTimeRoundTrip | UV-processor/UV-processor.py:76-233 | reading a label made at line 76 gives back its time |
| Kinetics.LabelTimesOfTimeLabels | UV-processor/UV-processor.py:76-233 | the labels made at line 76 always parse, to the times they were made from |
| Kinetics.TimePointTimes | UV-processor/UV-processor.py:76-233 | for a positive interval, the parsed times of any leading run of labels are 0, step, 2·step, …, strictly increasing |
| Kinetics.InitialGuess | UV-processor/UV-processor.py:283-292 | the guesses raise exactly when there are fewer than two absorbances: ValueError for none, IndexError for one |
| Kinetics.InitialGuessRange | UV-processor/UV-processor.py:283-286 | y0_guess is the smallest absorbance and y0_guess + a_guess the largest |
| Kinetics.DecayGuessSlope | UV-processor/UV-processor.py:291-292 | for a > 0 and distinct first times, b_guess is finite, not negative, and b_guess·a is the size of the first slope |
| Kinetics.SignFix | UV-processor/UV-processor.py:302-304 | after the fix, a and b are not negative and y0 is unchanged; a fit that is already non-negative is untouched |
| Kinetics.SignFixIsAbs | UV-processor/UV-processor.py:302-304 | the fix takes the absolute values of a and b |
| Kinetics.InitialRate | UV-processor/UV-processor.py:302-310 | the initial rate after the sign fix is never negative |
| Kinetics.SampleRate | UV-processor/UV-processor.py:225-310 | a sample's rate, when it has one, is never negative |
| Kinetics.InitialRateIsProduct | UV-processor/UV-processor.py:302-310 | the initial rate is the size of a·b, and is 0 exactly when a or b is |
| Kinetics.SeriesGuessFails | UV-processor/UV-processor.py:227-292 | the fit's inputs fail exactly when the wavelength has no row, some time label does not parse, or there are fewer than two time points; otherwise they are that row's absorbances, the times and their guess |
| Kinetics.SampleRateFails | UV-processor/UV-processor.py:225-310 | a sample raises exactly when its inputs fail (SeriesGuessFails), it has fewer than three time points (TypeError from `curve_fit`, whatever the optimiser), or the optimiser raises; otherwise its rate is the initial rate of the optimiser's fit |
| Kinetics.TwoTimePointsTypeError | UV-processor/UV-processor.py:295-297 | a table read at only two times raises TypeError at the fit, for every optimiser |
| Kinetics.GatherErr | UV-processor/UV-processor.py:225-325 | once a sample has raised, no later sample changes the outcome |
| Kinetics.RecordRate | UV-processor/UV-processor.py:224-326 | one pass of the rate loop either raises, and then determine_rate's outcome is that error, or extends `initial_rates` to the next sample's prefix |
| Kinetics.DetermineRates | UV-processor/UV-processor.py:221-325 | the rate loop leaves in `initial_rates` what the specification function gives, or raises its error; `determine_rate` itself returns None, and the dict only reaches the rates CSV, which is left out |
| Kinetics.RatesSucceed | UV-processor/UV-processor.py:221-325 | the modelled rate loop (exponential fit only) succeeds exactly when every sample has a rate |
| Kinetics.RatesEntries | UV-processor/UV-processor.py:221-325 | on success, initial_rates lists the samples in dict order, once each, and each maps to its own rate |
| Python.PutAllDistinct | UV-processor/UV-processor.py:101 | filling a dict with distinct keys keeps them in insertion order, each mapped to its own value |
| Python.ReversedDict | UV-processor/UV-processor.py:110 | `dict(reversed(...))` has the same entries, with the keys in reverse order |
| Python.IntToStringRoundTrip | UV-processor/UV-processor.py:76 | parsing the decimal text of an integer gives the integer back |
| Python.TruncToInt | UV-processor/UV-processor.py:73-76 | int() of a float truncates toward zero |
| Python.StripNonEmpty | UV-processor/UV-processor.py:49 | `col.strip()` is truthy exactly when the label holds a non-whitespace character |

## Left out

- Demux.ProcessUvData: reading the CSV is out. The model starts from the parsed header labels and the rows below the two header lines, as reals. Parse errors of `astype(float)`, NaN cells and floating-point rounding are not modelled.
- Demux.ProcessUvData: writing `<name>_uv_data.csv` is modelled as the sequence of saved (name, table) pairs, and the progress `print` is out.
- Demux.TimePoints: run_time and interval are finite reals. `int()` of inf (OverflowError) or nan (ValueError), which a user could reach by typing "inf" or "nan" at the prompts, is not modelled.
- Demux.AssembleEntry: repeated wavelengths and repeated header labels are out. The lemmas about names assume distinct header labels, since pandas renames repeats on reading; the functions themselves handle repeats as a dict does.
- Normalize.NormalizeFrame: uses exact real arithmetic, not floating point. NormalizeFlattensBaseline and NormalizeIdempotent hold exactly only on reals.
- Normalize.NormalizeFrame: a table with rows but no columns makes every range NaN. The resulting exception depends on the pandas version: older versions return a NaN label, and looking it up raises KeyError; newer versions raise from `idxmin` itself. The model raises KeyError.
- Kinetics.LabelTime: `float()` is modelled only on the text of an integer, with an optional leading minus. Decimals, exponents, a leading plus, surrounding whitespace and "inf"/"nan" are treated as ValueError, although Python accepts them. Labels made at line 76 are always integer text (LabelTimesOfTimeLabels), so the pipeline never reaches the difference.
- Kinetics.SampleRateFails: inherits the LabelTime restriction, so a label that only Python's `float()` accepts counts as a failure in the model.
- Kinetics.SampleRate: `curve_fit` is the `Optimiser` parameter, and the least-squares fit itself is not modelled. The one failure that depends only on the input size is modelled: with fewer than three time points (fewer data points than the three parameters) `curve_fit` raises TypeError before the optimiser runs. Whatever the optimiser raises on larger inputs, RuntimeError for a fit that does not converge within `maxfev` included, is propagated unchanged.
- Kinetics.SampleRate: the wavelength is a parameter. Choosing it with `find_peaks` or from the prompt (lines 197-218) is interactive and left out.
- Kinetics.SampleRate: the polynomial and logarithmic fits (lines 243-278), R² (lines 320-322), plotting, the rates CSV and `main` are left out.
- Kinetics.InitialGuess: `b_guess` divides by the first time step. When that step is 0 the float result is infinite or NaN; this is modelled as a `NonFinite` estimate rather than a number.
- Layout.NumSamples: `num_samples` is the constant 0 set at line 25, because `main` assigns a local at line 439. process_uv_data therefore always runs the auto-detect branch, and the explicit branch is modelled separately.
- Layout.IntendedSampleNames: resolves names with the corrected explicit branch (see Findings), not the branch as written.
- The unzipper is not part of this model.
- Normalize.NormalizeFlattensBaseline: the code leaves the baseline row constant at its original minimum, not at 0. The model follows the code.

## Findings

| source | as written | input that shows it | evidently intended | confidence | as-written member | corrected member |
|---|---|---|---|---|---|---|
| UV-processor/UV-processor.py:53-59 | the placeholder test looks for "Unamed", which no pandas placeholder ("Unnamed: k") contains, and `count` is never incremented, so `count >= num_samples` never breaks the loop for num_samples ≥ 1 and every label is collected | num_samples = 1 and header ["A", "Unnamed: 1", "B"] gives ["A", "Unnamed: 1", "B"] | the first num_samples labels that pass the same test as auto-detection at line 49 (no "Unnamed", not blank after strip): ["A"] | not executed | Layout.ExplicitAsWrittenCounterexample | Layout.ExplicitNamesFirstN |
