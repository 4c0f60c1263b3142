/** Column demultiplexing: from the wide CSV, where every repeat block holds a
    (wavelength, absorbance) column pair per sample, to one wavelength x time
    table per sample (UV-processor.py, process_uv_data, lines 66-112). */
module Demux {
  import opened Python
  import opened Frames
  import opened Layout

  // ---------------------------------------------------------------------------
  // Absorbance column indices (lines 84-88)

  /** Flat position of sample i's absorbance column in repeat block n. */
  function AbsorbanceColumn(i: int, l: int, n: int): int {
    2 * (i + 1) - 1 + 2 * (l * n)
  }

  /** The indices kept for sample i from repeat blocks 0 .. count - 1: those
      that fall inside the table. */
  function ColumnIndices(i: int, l: int, count: int, width: int): seq<int>
    decreases if count < 0 then 0 else count
  {
    if count <= 0 then []
    else
      var c := AbsorbanceColumn(i, l, count - 1);
      ColumnIndices(i, l, count - 1, width) + (if c < width then [c] else [])
  }

  /** Lines 84-88: `for n in range(N + 1)` appending every in-range index. */
  method AbsorbanceIndices(i: int, l: int, N: int, width: int) returns (idx: seq<int>)
    ensures idx == ColumnIndices(i, l, N + 1, width)
  {
    idx := [];
    var n := 0;
    while n < N + 1
      invariant 0 <= n && (N + 1 >= 0 ==> n <= N + 1) && (N + 1 < 0 ==> n == 0)
      invariant idx == ColumnIndices(i, l, n, width)
    {
      var colIdx := AbsorbanceColumn(i, l, n);
      if colIdx < width {
        idx := idx + [colIdx];
      }
      n := n + 1;
    }
  }

  lemma AbsorbanceColumnOdd(i: nat, l: int, n: int)
    ensures AbsorbanceColumn(i, l, n) % 2 == 1 && AbsorbanceColumn(i, l, n) >= 2 * l * n + 1
  {
    assert AbsorbanceColumn(i, l, n) == 2 * (i + l * n) + 1;
  }

  lemma AbsorbanceColumnMonotone(i: int, l: int, n: int, n': int)
    requires l >= 1 && n < n'
    ensures AbsorbanceColumn(i, l, n) < AbsorbanceColumn(i, l, n')
  {
    MulStrict(n, n', l);
  }

  /** For l >= 1 the kept indices are the first m absorbance columns
      2i+1, 2i+1+2l, ..., for the largest m <= count whose columns all fit:
      so they are strictly increasing, odd, in range, at most `count` many,
      and the next block's column (if one was tried) lies outside the table. */
  lemma {:induction false} ColumnIndicesShape(i: nat, l: int, count: int, width: int)
    requires l >= 1
    ensures var idx := ColumnIndices(i, l, count, width);
      && |idx| <= (if count < 0 then 0 else count)
      && (forall k :: 0 <= k < |idx| ==> idx[k] == AbsorbanceColumn(i, l, k))
      && (forall k :: 0 <= k < |idx| ==> 0 < idx[k] < width && idx[k] % 2 == 1)
      && (forall j, k :: 0 <= j < k < |idx| ==> idx[j] < idx[k])
      && (|idx| < count ==> AbsorbanceColumn(i, l, |idx|) >= width)
    decreases if count < 0 then 0 else count
  {
    var idx := ColumnIndices(i, l, count, width);
    if count > 0 {
      ColumnIndicesShape(i, l, count - 1, width);
      var prev := ColumnIndices(i, l, count - 1, width);
      var c := AbsorbanceColumn(i, l, count - 1);
      if |prev| < count - 1 {
        AbsorbanceColumnMonotone(i, l, |prev|, count - 1);
        assert idx == prev;
      }
      forall k | 0 <= k < |idx|
        ensures idx[k] == AbsorbanceColumn(i, l, k) && 0 < idx[k] < width && idx[k] % 2 == 1
      {
        if k < |prev| {
          assert idx[k] == prev[k];
        }
        AbsorbanceColumnOdd(i, l, k);
        MulNonNeg(l, k);
      }
      forall j, k | 0 <= j < k < |idx| ensures idx[j] < idx[k] {
        AbsorbanceColumnMonotone(i, l, j, k);
      }
      if |idx| < count {
        if |prev| < count - 1 {
          assert |idx| == |prev|;
        } else {
          assert |prev| == count - 1 && |idx| == |prev| && c >= width;
        }
      }
    }
  }

  lemma MulNonNeg(a: int, b: int)
    requires a >= 0 && b >= 0
    ensures a * b >= 0
  {
  }

  /** In a regular file — width 2 * l * B, i.e. B complete blocks of l column
      pairs — every sample keeps exactly B absorbance columns, even though
      N = width div l - 1 = 2B - 1 blocks are tried. */
  lemma RegularLayoutIndices(i: nat, l: int, blocks: int)
    requires 0 <= i < l && blocks >= 1
    ensures var width := 2 * (l * blocks);
      |ColumnIndices(i, l, width / l, width)| == blocks
  {
    var width := 2 * (l * blocks);
    assert width / l == 2 * blocks by {
      assert width == (2 * blocks) * l;
      DivUnique(width, l, 2 * blocks, 0);
    }
    RegularLayoutBoundary(i, l, blocks);
    ColumnIndicesShape(i, l, 2 * blocks, width);
    var idx := ColumnIndices(i, l, 2 * blocks, width);
    AbsorbanceColumnMonotoneLe(i, l, |idx|, blocks - 1);
  }

  lemma AbsorbanceColumnMonotoneLe(i: int, l: int, n: int, n': int)
    requires l >= 1
    ensures n <= n' ==> AbsorbanceColumn(i, l, n) <= AbsorbanceColumn(i, l, n')
  {
    if n < n' {
      AbsorbanceColumnMonotone(i, l, n, n');
    }
  }

  /** Block `blocks - 1` is the last one whose column fits in 2 * l * blocks columns. */
  lemma RegularLayoutBoundary(i: nat, l: int, blocks: int)
    requires 0 <= i < l && blocks >= 1
    ensures AbsorbanceColumn(i, l, blocks - 1) < 2 * (l * blocks)
    ensures AbsorbanceColumn(i, l, blocks) >= 2 * (l * blocks)
  {
    MulPred(blocks, l);
    assert l * (blocks - 1) == l * blocks - l;
  }

  // ---------------------------------------------------------------------------
  // Time labels (line 76)

  /** f"{t}s" */
  function TimeLabel(t: int): string {
    IntToString(t) + "s"
  }

  function TimeLabels(ts: seq<int>): (labels: seq<string>)
    ensures |labels| == |ts|
  {
    seq(|ts|, k requires 0 <= k < |ts| => TimeLabel(ts[k]))
  }

  /** `[f"{t}s" for t in range(0, int(run_time) + int(interval), int(interval))]`;
      a zero `int(interval)` raises ValueError. */
  function TimePoints(runTime: real, interval: real): (r: Result<seq<string>>)
    ensures r.Err? <==> TruncToInt(interval) == 0
    ensures r.Err? ==> r.error == ValueError
  {
    var step := TruncToInt(interval);
    match Range(0, TruncToInt(runTime) + step, step)
    case Err(e) => Err(e)
    case Ok(ts) => Ok(TimeLabels(ts))
  }

  lemma TimeLabelInjective(s: int, t: int)
    requires TimeLabel(s) == TimeLabel(t)
    ensures s == t
  {
    assert TimeLabel(s)[..|TimeLabel(s)| - 1] == IntToString(s);
    assert TimeLabel(t)[..|TimeLabel(t)| - 1] == IntToString(t);
    IntToStringInjective(s, t);
  }

  /** The time labels never repeat, whatever the sign of the interval, so every
      zipped column gets its own key in the sample's dict. */
  lemma TimePointsDistinct(runTime: real, interval: real)
    requires TimePoints(runTime, interval).Ok?
    ensures Distinct(TimePoints(runTime, interval).value)
  {
    var step := TruncToInt(interval);
    var ts := RangeFrom(0, TruncToInt(runTime) + step, step);
    RangeDistinct(0, TruncToInt(runTime) + step, step);
    var labels := TimeLabels(ts);
    forall i, j | 0 <= i < j < |labels| ensures labels[i] != labels[j] {
      if labels[i] == labels[j] {
        TimeLabelInjective(ts[i], ts[j]);
      }
    }
  }

  /** For a positive interval I (after truncation) and run time R: label k is
      "{k*I}s", every labelled time is below int(R) + I, the labels run up to
      the last multiple of I below that bound, and the first label is "0s"
      unless int(R) + I <= 0 leaves the list empty. */
  lemma TimePointsPositiveStep(runTime: real, interval: real)
    requires TruncToInt(interval) > 0
    ensures var step := TruncToInt(interval);
      var stop := TruncToInt(runTime) + step;
      var tp := TimePoints(runTime, interval).value;
      && (forall k :: 0 <= k < |tp| ==> tp[k] == TimeLabel(k * step) && k * step < stop)
      && |tp| == RangeCount(0, stop, step)
      && (|tp| > 0 <==> stop > 0)
      && (|tp| > 0 ==> tp[0] == "0s")
  {
    var step := TruncToInt(interval);
    var stop := TruncToInt(runTime) + step;
    RangeFromElements(0, stop, step);
    var tp := TimePoints(runTime, interval).value;
    if |tp| > 0 {
      assert tp[0] == TimeLabel(0);
      assert IntToString(0) == "0";
    }
    if stop > 0 {
      assert RangeCount(0, stop, step) >= 1 by {
        DivAtLeastOne(stop + step - 1, step);
      }
    }
  }

  lemma DivAtLeastOne(a: int, b: int)
    requires 0 < b <= a
    ensures a / b >= 1
  {
    var q, r := a / b, a % b;
    assert a == q * b + r;
    if q <= 0 {
      MulMonotone(q, 0, b);
    }
  }

  /** A run of 20 s read every 10 s is labelled 0s, 10s, 20s. */
  lemma TimePointsExample()
    ensures TimePoints(20.0, 10.0) == Ok(["0s", "10s", "20s"])
  {
    assert TruncToInt(10.0) == 10;
    assert TruncToInt(20.0) == 20;
    RangeFromElements(0, 30, 10);
    var ts := RangeFrom(0, 30, 10);
    assert RangeCount(0, 30, 10) == 3;
    assert ts == [0, 10, 20];
    assert IntToString(10) == "10" by {
      assert NatToString(10) == NatToString(1) + [DigitChar(0)];
    }
    assert IntToString(20) == "20" by {
      assert NatToString(20) == NatToString(2) + [DigitChar(0)];
    }
    assert IntToString(0) == "0";
    var labels := TimeLabels(ts);
    assert labels[0] == "0s" && labels[1] == "10s" && labels[2] == "20s";
    assert labels == ["0s", "10s", "20s"];
  }

  // ---------------------------------------------------------------------------
  // One sample's table (lines 91-98)

  ghost predicate IndicesWithin(idx: seq<int>, width: int) {
    forall k :: 0 <= k < |idx| ==> 0 <= idx[k] < width
  }

  /** `df.iloc[:, c].values` */
  function Column(rows: seq<seq<real>>, c: int): (col: seq<real>)
    requires 0 <= c && forall r :: 0 <= r < |rows| ==> c < |rows[r]|
    ensures |col| == |rows| && forall r :: 0 <= r < |rows| ==> col[r] == rows[r][c]
  {
    seq(|rows|, r requires 0 <= r < |rows| => rows[r][c])
  }

  /** The columns `zip(absorbance_indices, time_points)` pairs with labels:
      raw column idx[k] for k below the shorter of the two lists. */
  function ZippedColumns(rows: seq<seq<real>>, width: int, idx: seq<int>, tp: seq<string>): (cols: seq<seq<real>>)
    requires Rectangular(rows, width) && IndicesWithin(idx, width)
    ensures |cols| == MinInt(|idx|, |tp|)
    ensures forall k :: 0 <= k < |cols| ==> |cols[k]| == |rows|
  {
    seq(MinInt(|idx|, |tp|), k requires 0 <= k < MinInt(|idx|, |tp|) => Column(rows, idx[k]))
  }

  /** `data_dict` after the zip loop of lines 94-95. */
  function DataDict(rows: seq<seq<real>>, width: int, idx: seq<int>, tp: seq<string>): (d: Dict<seq<real>>)
    requires Rectangular(rows, width) && IndicesWithin(idx, width)
    ensures d.Valid()
    ensures forall key :: key in d.entries ==> |d.entries[key]| == |rows|
  {
    var cols := ZippedColumns(rows, width, idx, tp);
    var d := PutAll(tp[..|cols|], cols);
    PutAllValues(tp[..|cols|], cols);
    d
  }

  /** The shorter of two lengths: where `zip` stops. */
  function MinInt(a: int, b: int): int {
    if a < b then a else b
  }

  /** `pd.DataFrame(data_dict, index=wavelengths)` */
  function FrameOf(wavelengths: seq<int>, d: Dict<seq<real>>): (f: Frame)
    requires d.Valid()
    requires forall key :: key in d.entries ==> |d.entries[key]| == |wavelengths|
    ensures f.WellShaped()
  {
    Frame(seq(|wavelengths|, r requires 0 <= r < |wavelengths| => Wavelength(wavelengths[r])),
          d.keys,
          seq(|wavelengths|, r requires 0 <= r < |wavelengths| =>
            seq(|d.keys|, k requires 0 <= k < |d.keys| => d.entries[d.keys[k]][r])))
  }

  /** The table built for one sample from its absorbance indices. */
  function SampleFrame(rows: seq<seq<real>>, width: int, wavelengths: seq<int>, idx: seq<int>, tp: seq<string>): Frame
    requires Rectangular(rows, width) && IndicesWithin(idx, width) && |wavelengths| == |rows|
  {
    FrameOf(wavelengths, DataDict(rows, width, idx, tp))
  }

  /** Lines 93-98: the zip loop filling `data_dict`, then the DataFrame. */
  method AssembleSampleFrame(rows: seq<seq<real>>, width: int, wavelengths: seq<int>, idx: seq<int>, tp: seq<string>)
    returns (f: Frame)
    requires Rectangular(rows, width) && IndicesWithin(idx, width) && |wavelengths| == |rows|
    ensures f == SampleFrame(rows, width, wavelengths, idx, tp)
  {
    ghost var cols := ZippedColumns(rows, width, idx, tp);
    ghost var keys := tp[..|cols|];
    var dataDict: Dict<seq<real>> := EmptyDict();
    var k := 0;
    while k < |idx| && k < |tp|
      invariant 0 <= k <= |cols|
      invariant dataDict == PutAll(keys[..k], cols[..k])
    {
      PutAllSnoc(keys, cols, k);
      dataDict := Put(dataDict, tp[k], Column(rows, idx[k]));
      k := k + 1;
    }
    assert keys[..k] == keys && cols[..k] == cols;
    assert dataDict == DataDict(rows, width, idx, tp);
    f := FrameOf(wavelengths, dataDict);
  }

  /** A sample's table has exactly min(#indices, #time labels) columns, labelled
      by the time labels in order, and its rows are the wavelengths. */
  lemma SampleFrameColumns(rows: seq<seq<real>>, width: int, wavelengths: seq<int>, idx: seq<int>, tp: seq<string>)
    requires Rectangular(rows, width) && IndicesWithin(idx, width) && |wavelengths| == |rows|
    requires Distinct(tp)
    ensures var f := SampleFrame(rows, width, wavelengths, idx, tp);
      && f.WellShaped()
      && f.columns == tp[..MinInt(|idx|, |tp|)]
      && (forall r :: 0 <= r < |rows| ==> f.index[r] == Wavelength(wavelengths[r]))
  {
    var cols := ZippedColumns(rows, width, idx, tp);
    assert Distinct(tp[..|cols|]);
    PutAllDistinct(tp[..|cols|], cols);
  }

  /** Column k of a sample's table holds raw column idx[k], row by row. */
  lemma SampleFrameCells(rows: seq<seq<real>>, width: int, wavelengths: seq<int>, idx: seq<int>, tp: seq<string>)
    requires Rectangular(rows, width) && IndicesWithin(idx, width) && |wavelengths| == |rows|
    requires Distinct(tp)
    ensures var f := SampleFrame(rows, width, wavelengths, idx, tp);
      && |f.cells| == |rows|
      && (forall r :: 0 <= r < |rows| ==> |f.cells[r]| == MinInt(|idx|, |tp|))
      && (forall r, k :: 0 <= r < |rows| && 0 <= k < MinInt(|idx|, |tp|) ==> f.cells[r][k] == rows[r][idx[k]])
  {
    var cols := ZippedColumns(rows, width, idx, tp);
    var d := DataDict(rows, width, idx, tp);
    var f := FrameOf(wavelengths, d);
    assert Distinct(tp[..|cols|]);
    PutAllDistinct(tp[..|cols|], cols);
    assert |d.keys| == |cols|;
    forall r, k | 0 <= r < |rows| && 0 <= k < |cols|
      ensures f.cells[r][k] == rows[r][idx[k]]
    {
      assert f.cells[r][k] == d.entries[d.keys[k]][r];
      assert d.entries[d.keys[k]] == cols[k] == Column(rows, idx[k]);
    }
  }

  // ---------------------------------------------------------------------------
  // The whole of process_uv_data

  /** The CSV below its two header lines: the first header line's labels and the
      data rows, already converted to float (lines 36, 67-70). */
  datatype Raw = Raw(columns: seq<string>, rows: seq<seq<real>>) {
    ghost predicate Valid() {
      Rectangular(rows, |columns|)
    }
  }

  /** The layout everything else is computed from: names, N and time labels. */
  datatype Plan = Plan(names: seq<string>, repeats: int, timePoints: seq<string>)

  /** What process_uv_data produces: the returned dict, and the (name, table)
      pairs it saves to `{name}_uv_data.csv`, in the order they are saved. */
  datatype Processed = Processed(samples: Dict<Frame>, saved: seq<(string, Frame)>)

  /** `df.iloc[:, 0].astype(int)`: float to int truncates toward zero. */
  function Wavelengths(raw: Raw): (wl: seq<int>)
    requires raw.Valid() && |raw.columns| > 0
    ensures |wl| == |raw.rows|
  {
    seq(|raw.rows|, r requires 0 <= r < |raw.rows| => TruncToInt(raw.rows[r][0]))
  }

  function SampleIndices(raw: Raw, plan: Plan, i: int): seq<int> {
    ColumnIndices(i, |plan.names|, plan.repeats + 1, |raw.columns|)
  }

  lemma SampleIndicesWithin(raw: Raw, plan: Plan, i: nat)
    requires |plan.names| >= 1
    ensures IndicesWithin(SampleIndices(raw, plan, i), |raw.columns|)
  {
    ColumnIndicesShape(i, |plan.names|, plan.repeats + 1, |raw.columns|);
  }

  function SampleFrameAt(raw: Raw, plan: Plan, i: nat): Frame
    requires raw.Valid() && |raw.columns| > 0 && |plan.names| >= 1
  {
    SampleIndicesWithin(raw, plan, i);
    SampleFrame(raw.rows, |raw.columns|, Wavelengths(raw), SampleIndices(raw, plan, i), plan.timePoints)
  }

  /** Sample i's table, or None when it has no absorbance column (line 91). */
  function SampleTable(raw: Raw, plan: Plan, i: nat): Option<Frame>
    requires raw.Valid() && |raw.columns| > 0 && |plan.names| >= 1
  {
    if SampleIndices(raw, plan, i) == [] then None else Some(SampleFrameAt(raw, plan, i))
  }

  function SampleTables(raw: Raw, plan: Plan): (ts: seq<Option<Frame>>)
    requires raw.Valid() && |raw.columns| > 0 && |plan.names| >= 1
    ensures |ts| == |plan.names|
  {
    seq(|plan.names|, i requires 0 <= i < |plan.names| => SampleTable(raw, plan, i))
  }

  /** One turn of the sample loop given the sample's table: a present table is
      stored under the sample's name (line 101) and saved (line 105). */
  function StoreTurn(p: Processed, name: string, table: Option<Frame>): (q: Processed)
    requires p.samples.Valid()
    ensures q.samples.Valid()
  {
    match table
    case None => p
    case Some(f) => Processed(Put(p.samples, name, f), p.saved + [(name, f)])
  }

  /** The sample loop of lines 82-106 after its first k turns. */
  function Store(names: seq<string>, tables: seq<Option<Frame>>, k: nat): (p: Processed)
    requires |tables| == |names| && k <= |names|
    ensures p.samples.Valid()
  {
    if k == 0 then Processed(EmptyDict(), [])
    else StoreTurn(Store(names, tables, k - 1), names[k - 1], tables[k - 1])
  }

  /** The sample loop of lines 82-106 after its first k turns over this CSV. */
  function StoreUpTo(raw: Raw, plan: Plan, k: nat): (p: Processed)
    requires raw.Valid() && |raw.columns| > 0 && 1 <= |plan.names| && k <= |plan.names|
    ensures p.samples.Valid()
  {
    if k == 0 then Processed(EmptyDict(), [])
    else StoreTurn(StoreUpTo(raw, plan, k - 1), plan.names[k - 1], SampleTable(raw, plan, k - 1))
  }

  /** Tables i of ts is sample i's table, for every sample. */
  ghost predicate TablesOf(raw: Raw, plan: Plan, ts: seq<Option<Frame>>)
    requires raw.Valid() && |raw.columns| > 0 && 1 <= |plan.names|
  {
    && |ts| == |plan.names|
    && forall j {:trigger SampleTable(raw, plan, j)} :: 0 <= j < |ts| ==> ts[j] == SampleTable(raw, plan, j)
  }

  lemma SampleTablesOf(raw: Raw, plan: Plan)
    requires raw.Valid() && |raw.columns| > 0 && 1 <= |plan.names|
    ensures TablesOf(raw, plan, SampleTables(raw, plan))
  {
  }

  /** The loop over this CSV is the fold over its sample tables. */
  lemma {:induction false} StoreUpToIsStore(raw: Raw, plan: Plan, tables: seq<Option<Frame>>, k: nat)
    requires raw.Valid() && |raw.columns| > 0 && 1 <= |plan.names| && k <= |plan.names|
    requires TablesOf(raw, plan, tables)
    ensures StoreUpTo(raw, plan, k) == Store(plan.names, tables, k)
  {
    if k > 0 {
      StoreUpToIsStore(raw, plan, tables, k - 1);
      StoreStepIs(plan.names, tables, k, StoreUpTo(raw, plan, k - 1), SampleTable(raw, plan, k - 1));
    }
  }

  /** One turn of the fold, stated over abstract tables. */
  lemma StoreStepIs(names: seq<string>, tables: seq<Option<Frame>>, k: nat, prev: Processed, t: Option<Frame>)
    requires |tables| == |names| && 0 < k <= |names|
    requires prev == Store(names, tables, k - 1) && t == tables[k - 1]
    ensures StoreTurn(prev, names[k - 1], t) == Store(names, tables, k)
  {
  }

  /** After k turns, only the first k names can be in the dict. */
  lemma {:induction false} StoreKeys(names: seq<string>, tables: seq<Option<Frame>>, k: nat)
    requires |tables| == |names| && k <= |names|
    ensures forall name :: name in Store(names, tables, k).samples.entries ==> name in names[..k]
  {
    if k > 0 {
      StoreKeys(names, tables, k - 1);
      assert names[..k] == names[..k - 1] + [names[k - 1]];
    }
  }

  /** With distinct names, the name stored at turn k is new to the dict. */
  lemma StoreNewName(names: seq<string>, tables: seq<Option<Frame>>, k: nat)
    requires |tables| == |names| && k < |names| && Distinct(names)
    ensures names[k] !in Store(names, tables, k).samples.entries
  {
    StoreKeys(names, tables, k);
    assert forall j :: 0 <= j < k ==> names[..k][j] != names[k];
  }

  /** One turn on the dict's mapping: a present table is stored under the name. */
  lemma StoreStep(names: seq<string>, tables: seq<Option<Frame>>, k: nat)
    requires |tables| == |names| && 0 < k <= |names|
    ensures Store(names, tables, k).samples.entries ==
      if tables[k - 1].None? then Store(names, tables, k - 1).samples.entries
      else Store(names, tables, k - 1).samples.entries[names[k - 1] := tables[k - 1].value]
  {
    assert Store(names, tables, k) == StoreTurn(Store(names, tables, k - 1), names[k - 1], tables[k - 1]);
  }

  /** The turn for sample j stores its table, if any, under its (new) name. */
  lemma StoreEntryLast(names: seq<string>, tables: seq<Option<Frame>>, j: nat)
    requires |tables| == |names| && j < |names| && Distinct(names)
    ensures names[j] in Store(names, tables, j + 1).samples.entries <==> tables[j].Some?
    ensures tables[j].Some? ==> Store(names, tables, j + 1).samples.entries[names[j]] == tables[j].value
  {
    StoreNewName(names, tables, j);
    StoreStep(names, tables, j + 1);
  }

  /** With distinct names, after k turns sample j < k is in the dict exactly
      when it has a table, and then maps to that table. */
  lemma {:induction false} StoreEntry(names: seq<string>, tables: seq<Option<Frame>>, k: nat, j: nat)
    requires |tables| == |names| && j < k <= |names| && Distinct(names)
    ensures names[j] in Store(names, tables, k).samples.entries <==> tables[j].Some?
    ensures tables[j].Some? ==> Store(names, tables, k).samples.entries[names[j]] == tables[j].value
  {
    if j == k - 1 {
      StoreEntryLast(names, tables, j);
    } else {
      StoreEntry(names, tables, k - 1, j);
      StoreStep(names, tables, k);
      assert names[j] != names[k - 1];
    }
  }

  /** The names of the saved pairs, in order. */
  function SavedNames(saved: seq<(string, Frame)>): (ns: seq<string>)
    ensures |ns| == |saved| && forall m :: 0 <= m < |saved| ==> ns[m] == saved[m].0
  {
    seq(|saved|, m requires 0 <= m < |saved| => saved[m].0)
  }

  /** The saved (name, table) pairs are the dict's entries in the dict's order. */
  ghost predicate SavedAsStored(p: Processed) {
    && p.samples.keys == SavedNames(p.saved)
    && forall m :: 0 <= m < |p.saved| ==>
         p.saved[m].0 in p.samples.entries && p.samples.entries[p.saved[m].0] == p.saved[m].1
  }

  /** Storing and saving a new name keeps the saved pairs in step with the dict. */
  lemma SavedAsStoredTurn(p: Processed, name: string, table: Option<Frame>)
    requires p.samples.Valid() && SavedAsStored(p) && name !in p.samples.entries
    ensures SavedAsStored(StoreTurn(p, name, table))
  {
    if table.Some? {
      var saved := p.saved + [(name, table.value)];
      assert SavedNames(saved) == SavedNames(p.saved) + [name];
      assert forall m :: 0 <= m < |p.saved| ==> p.saved[m].0 != name;
    }
  }

  /** With distinct names, each table is saved once, as it is stored, and in
      the dict's order. */
  lemma {:induction false} StoreSaved(names: seq<string>, tables: seq<Option<Frame>>, k: nat)
    requires |tables| == |names| && k <= |names| && Distinct(names)
    ensures SavedAsStored(Store(names, tables, k))
  {
    if k > 0 {
      StoreSaved(names, tables, k - 1);
      StoreNewName(names, tables, k - 1);
      SavedAsStoredTurn(Store(names, tables, k - 1), names[k - 1], tables[k - 1]);
    }
  }

  /** Lines 41-76: the sample names, the repeat count N and the time labels,
      or the error raised on the way. */
  function UvPlan(raw: Raw, runTime: real, interval: real): (r: Result<Plan>)
    ensures r.Ok? ==> 1 <= |r.value.names| <= |raw.columns|
  {
    var names := IntendedSampleNames(NumSamples, raw.columns);
    match RepeatCount(|raw.columns|, |names|)
    case Err(e) => Err(e)
    case Ok(n) =>
      match TimePoints(runTime, interval)
      case Err(e) => Err(e)
      case Ok(tp) => Ok(Plan(names, n, tp))
  }

  /** Lines 82-110 for a given plan: the stored tables, reversed, and the saves. */
  function Assemble(raw: Raw, plan: Plan): Processed
    requires raw.Valid() && |raw.columns| > 0 && |plan.names| >= 1
  {
    var p := StoreUpTo(raw, plan, |plan.names|);
    Processed(ReversedDict(p.samples), p.saved)
  }

  /** process_uv_data as a function of the parsed CSV, the run time and the interval. */
  function UvTables(raw: Raw, runTime: real, interval: real): Result<Processed>
    requires raw.Valid()
  {
    match UvPlan(raw, runTime, interval)
    case Err(e) => Err(e)
    case Ok(plan) => Ok(Assemble(raw, plan))
  }

  /** process_uv_data fails with ZeroDivisionError when no sample name is found
      (line 64), else with ValueError when the interval truncates to 0 (line 76),
      and otherwise succeeds. */
  lemma UvPlanErrors(raw: Raw, runTime: real, interval: real)
    ensures var names := DetectedNames(raw.columns);
      && (UvPlan(raw, runTime, interval).Err? <==> names == [] || TruncToInt(interval) == 0)
      && (names == [] ==> UvPlan(raw, runTime, interval) == Err(ZeroDivisionError))
      && (names != [] && TruncToInt(interval) == 0 ==> UvPlan(raw, runTime, interval) == Err(ValueError))
  {
    assert IntendedSampleNames(NumSamples, raw.columns) == DetectedNames(raw.columns);
  }

  /** On success the plan holds the detected names, N = width // l - 1 (at
      least 0) and the time labels. */
  lemma UvPlanValue(raw: Raw, runTime: real, interval: real)
    requires UvPlan(raw, runTime, interval).Ok?
    ensures var plan := UvPlan(raw, runTime, interval).value;
      && plan.names == DetectedNames(raw.columns)
      && plan.repeats == |raw.columns| / |plan.names| - 1 >= 0
      && TimePoints(runTime, interval) == Ok(plan.timePoints)
  {
    var plan := UvPlan(raw, runTime, interval).value;
    assert IntendedSampleNames(NumSamples, raw.columns) == DetectedNames(raw.columns);
    RepeatCountValue(|raw.columns|, |plan.names|);
    DivAtLeastOne(|raw.columns|, |plan.names|);
  }

  /** The plan ProcessUvData computes is the one UvPlan describes. */
  lemma UvPlanOk(raw: Raw, runTime: real, interval: real, plan: Plan)
    requires plan.names == IntendedSampleNames(NumSamples, raw.columns) && |plan.names| > 0
    requires plan.repeats == |raw.columns| / |plan.names| - 1
    requires TimePoints(runTime, interval) == Ok(plan.timePoints)
    ensures UvPlan(raw, runTime, interval) == Ok(plan)
  {
    RepeatCountValue(|raw.columns|, |plan.names|);
  }

  /** Sample i has no absorbance column exactly when the block loop does not run
      or its first column, 2i+1, is past the table's last column. */
  lemma ColumnIndicesEmpty(i: nat, l: int, count: int, width: int)
    requires l >= 1
    ensures ColumnIndices(i, l, count, width) == [] <==> count <= 0 || 2 * i + 1 >= width
  {
    ColumnIndicesShape(i, l, count, width);
    assert AbsorbanceColumn(i, l, 0) == 2 * i + 1;
  }

  /** With distinct names and N >= 0, the returned dict holds a table for sample
      j exactly when its first absorbance column 2j+1 exists, and that table is
      the one assembled from sample j's columns. */
  lemma AssembleEntry(raw: Raw, plan: Plan, j: nat)
    requires raw.Valid() && |raw.columns| > 0 && |plan.names| >= 1
    requires Distinct(plan.names) && plan.repeats >= 0 && j < |plan.names|
    ensures var r := Assemble(raw, plan);
      && (plan.names[j] in r.samples.entries <==> 2 * j + 1 < |raw.columns|)
      && (plan.names[j] in r.samples.entries ==> r.samples.entries[plan.names[j]] == SampleFrameAt(raw, plan, j))
  {
    var tables := SampleTables(raw, plan);
    SampleTablesOf(raw, plan);
    StoreUpToIsStore(raw, plan, tables, |plan.names|);
    assert tables[j] == SampleTable(raw, plan, j);
    ColumnIndicesEmpty(j, |plan.names|, plan.repeats + 1, |raw.columns|);
    StoreEntry(plan.names, tables, |plan.names|, j);
  }

  /** The fold stores only the tables it is given, so when they are all
      well shaped, so is every table in the dict. */
  lemma {:induction false} StoreWellShaped(names: seq<string>, tables: seq<Option<Frame>>, k: nat)
    requires |tables| == |names| && k <= |names|
    requires forall j :: 0 <= j < |tables| && tables[j].Some? ==> tables[j].value.WellShaped()
    ensures forall n :: n in Store(names, tables, k).samples.entries ==> Store(names, tables, k).samples.entries[n].WellShaped()
  {
    if k > 0 {
      StoreWellShaped(names, tables, k - 1);
      StoreStep(names, tables, k);
    }
  }

  /** Every table process_uv_data returns has one row per wavelength and one
      cell per time label in each row. */
  lemma AssembleWellShaped(raw: Raw, plan: Plan)
    requires raw.Valid() && |raw.columns| > 0 && |plan.names| >= 1
    ensures forall n :: n in Assemble(raw, plan).samples.entries ==> Assemble(raw, plan).samples.entries[n].WellShaped()
  {
    var tables := SampleTables(raw, plan);
    SampleTablesOf(raw, plan);
    forall j | 0 <= j < |tables| && tables[j].Some?
      ensures tables[j].value.WellShaped()
    {
      assert tables[j] == SampleTable(raw, plan, j);
    }
    StoreWellShaped(plan.names, tables, |plan.names|);
    StoreUpToIsStore(raw, plan, tables, |plan.names|);
  }

  /** Reversing the dict (line 110) lists the saved samples last to first. */
  lemma ReversedOrder(p: Processed)
    requires p.samples.Valid() && SavedAsStored(p)
    ensures var r := Processed(ReversedDict(p.samples), p.saved);
      && |r.saved| == |r.samples.keys|
      && forall m :: 0 <= m < |r.saved| ==>
           && r.samples.keys[|r.saved| - 1 - m] == r.saved[m].0
           && r.samples.entries[r.saved[m].0] == r.saved[m].1
  {
    var keys := ReversedDict(p.samples).keys;
    forall m | 0 <= m < |p.saved|
      ensures keys[|p.saved| - 1 - m] == p.saved[m].0
    {
      assert keys[|p.saved| - 1 - m] == SavedNames(p.saved)[m];
    }
  }

  /** With distinct names, the tables are saved in sample order and the
      returned dict lists the same samples in the reverse order (line 110). */
  lemma AssembleOrder(raw: Raw, plan: Plan)
    requires raw.Valid() && |raw.columns| > 0 && |plan.names| >= 1 && Distinct(plan.names)
    ensures var r := Assemble(raw, plan);
      && |r.saved| == |r.samples.keys|
      && forall m :: 0 <= m < |r.saved| ==>
           && r.samples.keys[|r.saved| - 1 - m] == r.saved[m].0
           && r.samples.entries[r.saved[m].0] == r.saved[m].1
  {
    var p := StoreUpTo(raw, plan, |plan.names|);
    var tables := SampleTables(raw, plan);
    SampleTablesOf(raw, plan);
    StoreUpToIsStore(raw, plan, tables, |plan.names|);
    StoreSaved(plan.names, tables, |plan.names|);
    ReversedOrder(p);
    assert Assemble(raw, plan) == Processed(ReversedDict(p.samples), p.saved);
  }

  /** The names, among the first k, whose table is present, in sample order. */
  function Present(names: seq<string>, tables: seq<Option<Frame>>, k: nat): (ns: seq<string>)
    requires |tables| == |names| && k <= |names|
    ensures |ns| <= k
  {
    if k == 0 then []
    else Present(names, tables, k - 1) + (if tables[k - 1].Some? then [names[k - 1]] else [])
  }

  /** The loop saves exactly the samples that have a table, in sample order. */
  lemma {:induction false} StoreSavedOrder(names: seq<string>, tables: seq<Option<Frame>>, k: nat)
    requires |tables| == |names| && k <= |names|
    ensures SavedNames(Store(names, tables, k).saved) == Present(names, tables, k)
  {
    if k > 0 {
      StoreSavedOrder(names, tables, k - 1);
      var prev := Store(names, tables, k - 1);
      assert Store(names, tables, k) == StoreTurn(prev, names[k - 1], tables[k - 1]);
      if tables[k - 1].Some? {
        assert SavedNames(prev.saved + [(names[k - 1], tables[k - 1].value)]) == SavedNames(prev.saved) + [names[k - 1]];
      }
    }
  }

  /** When exactly the first P samples have a table, those are the present names. */
  lemma {:induction false} PresentPrefix(names: seq<string>, tables: seq<Option<Frame>>, k: nat, P: nat)
    requires |tables| == |names| && k <= |names| && P <= |names|
    requires forall j :: 0 <= j < |tables| ==> (tables[j].Some? <==> j < P)
    ensures Present(names, tables, k) == names[..MinInt(k, P)]
  {
    if k > 0 {
      PresentPrefix(names, tables, k - 1, P);
      if k - 1 < P {
        assert names[..k] == names[..k - 1] + [names[k - 1]];
      }
    }
  }

  /** With distinct names and N >= 0, process_uv_data saves the tables of the
      first min(l, width // 2) samples, in sample order, and its returned dict
      lists exactly those samples, last to first (line 110). */
  lemma AssembleSamples(raw: Raw, plan: Plan)
    requires raw.Valid() && |raw.columns| > 0 && |plan.names| >= 1
    requires Distinct(plan.names) && plan.repeats >= 0
    ensures var P := MinInt(|plan.names|, |raw.columns| / 2);
      && SavedNames(Assemble(raw, plan).saved) == plan.names[..P]
      && Assemble(raw, plan).samples.keys == Reverse(plan.names[..P])
  {
    var l := |plan.names|;
    var P := MinInt(l, |raw.columns| / 2);
    var tables := SampleTables(raw, plan);
    SampleTablesOf(raw, plan);
    forall j | 0 <= j < |tables|
      ensures tables[j].Some? <==> j < P
    {
      assert tables[j] == SampleTable(raw, plan, j);
      ColumnIndicesEmpty(j, l, plan.repeats + 1, |raw.columns|);
      assert 2 * j + 1 < |raw.columns| <==> j < |raw.columns| / 2;
    }
    StoreUpToIsStore(raw, plan, tables, l);
    StoreSavedOrder(plan.names, tables, l);
    PresentPrefix(plan.names, tables, l, P);
    StoreSaved(plan.names, tables, l);
    var p := StoreUpTo(raw, plan, l);
    assert Assemble(raw, plan) == Processed(ReversedDict(p.samples), p.saved);
  }

  /** One turn of the sample loop (lines 83-106). */
  method StoreSample(raw: Raw, plan: Plan, wavelengths: seq<int>, i: nat, p: Processed) returns (q: Processed)
    requires raw.Valid() && |raw.columns| > 0 && |plan.names| >= 1 && i < |plan.names|
    requires wavelengths == Wavelengths(raw)
    requires p == StoreUpTo(raw, plan, i)
    ensures q == StoreUpTo(raw, plan, i + 1)
  {
    var absorbanceIndices := AbsorbanceIndices(i, |plan.names|, plan.repeats, |raw.columns|);
    if absorbanceIndices != [] {
      SampleIndicesWithin(raw, plan, i);
      var sampleDf := AssembleSampleFrame(raw.rows, |raw.columns|, wavelengths, absorbanceIndices, plan.timePoints);
      assert SampleTable(raw, plan, i) == Some(sampleDf);
      q := Processed(Put(p.samples, plan.names[i], sampleDf), p.saved + [(plan.names[i], sampleDf)]);
    } else {
      assert SampleTable(raw, plan, i) == None;
      q := p;
    }
  }

  /** Lines 82-106: one table per sample that has absorbance columns, stored
      under its name and saved in turn. */
  method AssembleSampleTables(raw: Raw, plan: Plan, wavelengths: seq<int>) returns (p: Processed)
    requires raw.Valid() && |raw.columns| > 0 && |plan.names| >= 1
    requires wavelengths == Wavelengths(raw)
    ensures p == StoreUpTo(raw, plan, |plan.names|)
  {
    p := Processed(EmptyDict(), []);
    for i := 0 to |plan.names|
      invariant p == StoreUpTo(raw, plan, i)
    {
      p := StoreSample(raw, plan, wavelengths, i, p);
    }
  }

  /** Lines 34-112. */
  method ProcessUvData(raw: Raw, runTime: real, interval: real) returns (result: Result<Processed>)
    requires raw.Valid()
    ensures result == UvTables(raw, runTime, interval)
  {
    // num_samples is 0, so only the auto-detect branch runs
    var names := DetectSampleNames(raw.columns);
    var l := |names|;
    assert names == IntendedSampleNames(NumSamples, raw.columns);
    if l == 0 {
      return Err(ZeroDivisionError);
    }
    var n := |raw.columns| / l - 1;
    var wavelengths := Wavelengths(raw);
    var tpResult := TimePoints(runTime, interval);
    if tpResult.Err? {
      RepeatCountValue(|raw.columns|, l);
      return Err(tpResult.error);
    }
    var timePoints := tpResult.value;
    var plan := Plan(names, n, timePoints);
    UvPlanOk(raw, runTime, interval, plan);
    var p := AssembleSampleTables(raw, plan, wavelengths);
    result := Ok(Processed(ReversedDict(p.samples), p.saved));
  }
}
