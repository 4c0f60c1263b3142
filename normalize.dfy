/** Baseline correction (UV-processor.py, normalize_data, lines 114-148): in every
    sample's table, find the flattest wavelength row, turn it into a correction
    vector whose smallest entry is 0, and subtract that vector from every row. */
module Normalize {
  import opened Python
  import opened Frames

  // ---------------------------------------------------------------------------
  // One table (lines 125-140)

  /** `df.max(axis=1) - df.min(axis=1)` for one row. */
  function RowRange(row: seq<real>): (r: real)
    requires |row| > 0
    ensures r >= 0.0
  {
    Max(row) - Min(row)
  }

  /** A row's range is 0 exactly when all its cells are equal. */
  lemma RowRangeZero(row: seq<real>)
    requires |row| > 0
    ensures RowRange(row) == 0.0 <==> forall t :: 0 <= t < |row| ==> row[t] == row[0]
  {
    if forall t :: 0 <= t < |row| ==> row[t] == row[0] {
      var i :| 0 <= i < |row| && row[i] == Max(row);
      var j :| 0 <= j < |row| && row[j] == Min(row);
      assert row[i] == row[0] && row[j] == row[0];
    }
  }

  /** Adding the same amount to every cell leaves the range unchanged. */
  lemma RowRangeShift(row: seq<real>, shifted: seq<real>, k: real)
    requires |row| > 0 && |shifted| == |row|
    requires forall t :: 0 <= t < |row| ==> shifted[t] == row[t] + k
    ensures RowRange(shifted) == RowRange(row)
  {
    var i :| 0 <= i < |row| && row[i] == Max(row);
    var i' :| 0 <= i' < |row| && shifted[i'] == Max(shifted);
    assert Max(shifted) == Max(row) + k by {
      assert shifted[i] <= Max(shifted);
      assert row[i'] <= Max(row);
    }
    var j :| 0 <= j < |row| && row[j] == Min(row);
    var j' :| 0 <= j' < |row| && shifted[j'] == Min(shifted);
    assert Min(shifted) == Min(row) + k by {
      assert Min(shifted) <= shifted[j];
      assert Min(row) <= row[j'];
    }
  }

  /** `df.max(axis=1) - df.min(axis=1)`: one range per row. */
  function RowRanges(cells: seq<seq<real>>, width: nat): (rs: seq<real>)
    requires width > 0 && Rectangular(cells, width)
    ensures |rs| == |cells|
  {
    seq(|cells|, r requires 0 <= r < |cells| => RowRange(cells[r]))
  }

  /** `Series.idxmin()` by position. */
  function FirstMin(rs: seq<real>): (b: nat)
    requires |rs| > 0
    ensures b < |rs|
  {
    if |rs| == 1 then 0
    else
      var b := FirstMin(rs[..|rs| - 1]);
      if rs[|rs| - 1] < rs[b] then |rs| - 1 else b
  }

  /** FirstMin picks the first position holding the smallest value: nothing is
      smaller, and everything before it is larger. */
  lemma {:induction false} FirstMinIsFirstMinimum(rs: seq<real>)
    requires |rs| > 0
    ensures forall r :: 0 <= r < |rs| ==> rs[FirstMin(rs)] <= rs[r]
    ensures forall r :: 0 <= r < FirstMin(rs) ==> rs[FirstMin(rs)] < rs[r]
  {
    if |rs| > 1 {
      var n := |rs| - 1;
      FirstMinIsFirstMinimum(rs[..n]);
      assert forall r :: 0 <= r < n ==> rs[..n][r] == rs[r];
    }
  }

  /** The two properties of FirstMin determine it. */
  lemma FirstMinUnique(rs: seq<real>, b: nat)
    requires b < |rs|
    requires forall r :: 0 <= r < |rs| ==> rs[b] <= rs[r]
    requires forall r :: 0 <= r < b ==> rs[b] < rs[r]
    ensures FirstMin(rs) == b
  {
    FirstMinIsFirstMinimum(rs);
    var b' := FirstMin(rs);
    assert rs[b'] <= rs[b] && rs[b] <= rs[b'];
  }

  /** `row_ranges.idxmin()`: the baseline row. */
  function BaselineRow(cells: seq<seq<real>>, width: nat): (b: nat)
    requires |cells| > 0 && width > 0 && Rectangular(cells, width)
    ensures b < |cells|
  {
    FirstMin(RowRanges(cells, width))
  }

  /** The baseline row is the first row whose range is smallest. */
  lemma BaselineRowMinimal(cells: seq<seq<real>>, width: nat)
    requires |cells| > 0 && width > 0 && Rectangular(cells, width)
    ensures var b := BaselineRow(cells, width);
      && (forall r :: 0 <= r < |cells| ==> RowRange(cells[b]) <= RowRange(cells[r]))
      && (forall r :: 0 <= r < b ==> RowRange(cells[b]) < RowRange(cells[r]))
  {
    var rs := RowRanges(cells, width);
    FirstMinIsFirstMinimum(rs);
    assert forall r :: 0 <= r < |cells| ==> rs[r] == RowRange(cells[r]);
  }

  /** `min_range_row - min_range_row.min()` */
  function Correction(row: seq<real>): (c: seq<real>)
    requires |row| > 0
    ensures |c| == |row|
  {
    seq(|row|, t requires 0 <= t < |row| => row[t] - Min(row))
  }

  /** The correction vector is never negative, is 0 somewhere, and differs
      between columns exactly as the baseline row does. */
  lemma CorrectionProperties(row: seq<real>)
    requires |row| > 0
    ensures var c := Correction(row);
      && (forall t :: 0 <= t < |row| ==> c[t] >= 0.0)
      && (exists t :: 0 <= t < |row| && c[t] == 0.0)
      && (forall s, t :: 0 <= s < |row| && 0 <= t < |row| ==> c[s] - c[t] == row[s] - row[t])
  {
    var c, m := Correction(row), Min(row);
    assert forall t :: 0 <= t < |row| ==> c[t] == row[t] - m;
    var j :| 0 <= j < |row| && row[j] == m;
    assert c[j] == 0.0;
  }

  /** `df.subtract(correction_values)`: the vector is aligned with the columns,
      so entry t is taken off every cell of column t. */
  function Subtract(cells: seq<seq<real>>, corr: seq<real>): (out: seq<seq<real>>)
    requires Rectangular(cells, |corr|)
    ensures |out| == |cells| && Rectangular(out, |corr|)
    ensures forall r, t :: 0 <= r < |cells| && 0 <= t < |corr| ==> out[r][t] + corr[t] == cells[r][t]
  {
    seq(|cells|, r requires 0 <= r < |cells| =>
      seq(|corr|, t requires 0 <= t < |corr| => cells[r][t] - corr[t]))
  }

  /** A corrected table and the correction vector taken off it. */
  datatype Corrected = Corrected(table: Frame, correction: seq<real>)

  /** Lines 125-132 for one table. With no rows `idxmin` raises ValueError;
      with no columns every range is NaN and finding the baseline row raises
      (modelled as KeyError, the error of looking up the NaN label). */
  function NormalizeFrame(f: Frame): (r: Result<Corrected>)
    requires f.WellShaped()
    ensures r.Err? <==> |f.cells| == 0 || |f.columns| == 0
    ensures r.Err? ==> r.error == (if |f.cells| == 0 then ValueError else KeyError)
    ensures r.Ok? ==>
      && r.value.table.WellShaped()
      && r.value.table.index == f.index
      && r.value.table.columns == f.columns
      && |r.value.correction| == |f.columns|
  {
    if |f.cells| == 0 then Err(ValueError)
    else if |f.columns| == 0 then Err(KeyError)
    else
      var b := BaselineRow(f.cells, |f.columns|);
      var corr := Correction(f.cells[b]);
      Ok(Corrected(Frame(f.index, f.columns, Subtract(f.cells, corr)), corr))
  }

  /** The correction vector is never negative, is 0 in at least one column, and
      every corrected cell is the original minus the correction of its column. */
  lemma NormalizeFrameCorrection(f: Frame)
    requires f.WellShaped() && NormalizeFrame(f).Ok?
    ensures var c := NormalizeFrame(f).value;
      && (forall t :: 0 <= t < |f.columns| ==> c.correction[t] >= 0.0)
      && (exists t :: 0 <= t < |f.columns| && c.correction[t] == 0.0)
      && (forall r, t :: 0 <= r < |f.cells| && 0 <= t < |f.columns| ==>
            c.table.cells[r][t] == f.cells[r][t] - c.correction[t])
  {
    CorrectionProperties(f.cells[BaselineRow(f.cells, |f.columns|)]);
  }

  /** Within each column, the differences between rows are what they were. */
  lemma NormalizePreservesDifferences(f: Frame)
    requires f.WellShaped() && NormalizeFrame(f).Ok?
    ensures var g := NormalizeFrame(f).value.table;
      forall r, s, t :: 0 <= r < |f.cells| && 0 <= s < |f.cells| && 0 <= t < |f.columns| ==>
        g.cells[r][t] - g.cells[s][t] == f.cells[r][t] - f.cells[s][t]
  {
  }

  /** The baseline row itself comes out flat, at its original minimum (not at 0). */
  lemma NormalizeFlattensBaseline(f: Frame)
    requires f.WellShaped() && NormalizeFrame(f).Ok?
    ensures var b := BaselineRow(f.cells, |f.columns|);
      forall t :: 0 <= t < |f.columns| ==> NormalizeFrame(f).value.table.cells[b][t] == Min(f.cells[b])
  {
  }

  /** A row before the baseline row does not come out flat: if it did, it would
      differ from the baseline row by a constant and so have the same range. */
  lemma EarlierRowNotFlat(f: Frame, r: nat)
    requires f.WellShaped() && NormalizeFrame(f).Ok?
    requires r < BaselineRow(f.cells, |f.columns|)
    ensures RowRange(NormalizeFrame(f).value.table.cells[r]) > 0.0
  {
    var width := |f.columns|;
    var b := BaselineRow(f.cells, width);
    var row := f.cells[b];
    var m := Min(row);
    var g := NormalizeFrame(f).value.table;
    BaselineRowMinimal(f.cells, width);
    RowRangeZero(g.cells[r]);
    if RowRange(g.cells[r]) == 0.0 {
      var k := g.cells[r][0] - m;
      forall t | 0 <= t < width ensures f.cells[r][t] == row[t] + k {
        assert f.cells[r][t] == g.cells[r][t] + (row[t] - m);
      }
      RowRangeShift(row, f.cells[r], k);
      assert false;
    }
  }

  /** A flat row's correction is all zeros. */
  lemma CorrectionOfFlat(row: seq<real>, m: real)
    requires |row| > 0 && forall t :: 0 <= t < |row| ==> row[t] == m
    ensures Correction(row) == seq(|row|, t => 0.0)
  {
    var j :| 0 <= j < |row| && row[j] == Min(row);
  }

  /** Subtracting zeros changes nothing. */
  lemma SubtractZeros(cells: seq<seq<real>>, width: nat)
    requires Rectangular(cells, width)
    ensures Subtract(cells, seq(width, t => 0.0)) == cells
  {
    var out := Subtract(cells, seq(width, t => 0.0));
    forall r | 0 <= r < |cells| ensures out[r] == cells[r] { }
  }

  /** Correcting a corrected table changes nothing: the same row is chosen, it is
      already flat, and the new correction vector is all zeros. */
  lemma NormalizeIdempotent(f: Frame)
    requires f.WellShaped() && NormalizeFrame(f).Ok?
    ensures var g := NormalizeFrame(f).value.table;
      NormalizeFrame(g) == Ok(Corrected(g, seq(|f.columns|, t => 0.0)))
  {
    var width := |f.columns|;
    var b := BaselineRow(f.cells, width);
    var m := Min(f.cells[b]);
    var g := NormalizeFrame(f).value.table;
    NormalizeFlattensBaseline(f);
    RowRangeZero(g.cells[b]);
    forall r | 0 <= r < b ensures RowRange(g.cells[b]) < RowRange(g.cells[r]) {
      EarlierRowNotFlat(f, r);
    }
    BaselineRowMinimal(f.cells, width);
    var rs := RowRanges(g.cells, width);
    assert forall r :: 0 <= r < |g.cells| ==> rs[r] == RowRange(g.cells[r]);
    FirstMinUnique(rs, b);
    CorrectionOfFlat(g.cells[b], m);
    SubtractZeros(g.cells, width);
  }

  /** `df_to_save`: the corrected table with the correction vector appended as a
      row labelled `corr_values` (lines 138-140). */
  function PersistedCopy(c: Corrected): (p: Frame)
    requires c.table.WellShaped() && |c.correction| == |c.table.columns|
    ensures p.WellShaped() && p.columns == c.table.columns
    ensures |p.cells| == |c.table.cells| + 1
    ensures p.index[|p.index| - 1] == CorrValues && p.cells[|p.cells| - 1] == c.correction
  {
    Frame(c.table.index + [CorrValues], c.table.columns, c.table.cells + [c.correction])
  }

  /** Dropping the last row of the saved copy gives back the in-memory table. */
  lemma PersistedCopyDropLast(c: Corrected)
    requires c.table.WellShaped() && |c.correction| == |c.table.columns|
    ensures var p := PersistedCopy(c);
      Frame(p.index[..|p.index| - 1], p.columns, p.cells[..|p.cells| - 1]) == c.table
  {
    var p := PersistedCopy(c);
    assert p.index[..|p.index| - 1] == c.table.index;
    assert p.cells[..|p.cells| - 1] == c.table.cells;
  }

  // ---------------------------------------------------------------------------
  // All samples (lines 119-148)

  ghost predicate AllWellShaped(d: Dict<Frame>) {
    forall k :: k in d.entries ==> d.entries[k].WellShaped()
  }

  /** A correction the saved copy can be built from. */
  ghost predicate Fits(c: Corrected) {
    c.table.WellShaped() && |c.correction| == |c.table.columns|
  }

  /** What normalize_data leaves behind: the dict it returns, or the exception
      that stopped it, and the (name, copy) pairs saved to
      `{name}_normalised.csv` before that, in order. */
  datatype Outcome = Outcome(result: Result<Dict<Frame>>, saved: seq<(string, Frame)>)

  /** The position of the first sample whose table raised, or the number of samples. */
  function FirstError(tables: seq<Result<Corrected>>): (e: nat)
    ensures e <= |tables|
    ensures forall j :: 0 <= j < e ==> tables[j].Ok?
    ensures e < |tables| ==> tables[e].Err?
  {
    if |tables| == 0 || tables[0].Err? then 0
    else
      var e := FirstError(tables[1..]);
      assert forall j :: 1 <= j < e + 1 ==> tables[j] == tables[1..][j - 1];
      e + 1
  }

  /** A placeholder where a sample raised; never read below FirstError. */
  const NoFrame := Frame([], [], [])

  /** The corrected table of every sample that did not raise. */
  function CorrectedTables(tables: seq<Result<Corrected>>): (ts: seq<Frame>)
    ensures |ts| == |tables|
  {
    seq(|tables|, j requires 0 <= j < |tables| => if tables[j].Ok? then tables[j].value.table else NoFrame)
  }

  /** The copy each sample that did not raise has saved. */
  function SavedCopies(names: seq<string>, tables: seq<Result<Corrected>>): (saves: seq<(string, Frame)>)
    requires |tables| == |names|
    requires forall j :: 0 <= j < |tables| ==> (tables[j].Ok? ==> Fits(tables[j].value))
    ensures |saves| == |tables|
  {
    seq(|tables|, j requires 0 <= j < |tables| && (tables[j].Ok? ==> Fits(tables[j].value)) =>
      (names[j], if tables[j].Ok? then PersistedCopy(tables[j].value) else NoFrame))
  }

  /** The sample loop of lines 122-145, given what lines 125-132 yield for each
      sample in turn: it stops at the first sample that raises, having saved a
      copy for every sample before it. */
  function Collect(names: seq<string>, tables: seq<Result<Corrected>>): Outcome
    requires |tables| == |names|
    requires forall j :: 0 <= j < |tables| ==> (tables[j].Ok? ==> Fits(tables[j].value))
  {
    var e := FirstError(tables);
    Outcome(
      if e < |tables| then Err(tables[e].error) else Ok(PutAll(names, CorrectedTables(tables))),
      SavedCopies(names, tables)[..e])
  }

  /** The loop stops at the first sample that raises. */
  lemma CollectStopsAt(names: seq<string>, tables: seq<Result<Corrected>>, i: nat)
    requires |tables| == |names| && i < |tables|
    requires forall j :: 0 <= j < |tables| ==> (tables[j].Ok? ==> Fits(tables[j].value))
    requires forall j :: 0 <= j < i ==> tables[j].Ok?
    requires tables[i].Err?
    ensures Collect(names, tables) == Outcome(Err(tables[i].error), SavedCopies(names, tables)[..i])
  {
  }

  /** When no sample raises, the loop saves a copy of every sample. */
  lemma CollectFinishes(names: seq<string>, tables: seq<Result<Corrected>>)
    requires |tables| == |names|
    requires forall j :: 0 <= j < |tables| ==> (tables[j].Ok? ==> Fits(tables[j].value))
    requires forall j :: 0 <= j < |tables| ==> tables[j].Ok?
    ensures Collect(names, tables) == Outcome(Ok(PutAll(names, CorrectedTables(tables))), SavedCopies(names, tables))
  {
    var saves := SavedCopies(names, tables);
    assert saves[..|tables|] == saves;
  }

  /** One more saved copy. */
  lemma SavedCopiesSnoc(names: seq<string>, tables: seq<Result<Corrected>>, i: nat)
    requires |tables| == |names| && i < |tables|
    requires forall j :: 0 <= j < |tables| ==> (tables[j].Ok? ==> Fits(tables[j].value))
    requires tables[i].Ok?
    ensures SavedCopies(names, tables)[..i + 1] == SavedCopies(names, tables)[..i] + [(names[i], PersistedCopy(tables[i].value))]
  {
    var saves := SavedCopies(names, tables);
    assert saves[..i + 1] == saves[..i] + [saves[i]];
  }

  /** What lines 125-132 yield for each of the first n samples, in dict order. */
  function SampleCorrections(d: Dict<Frame>, n: nat): (tables: seq<Result<Corrected>>)
    requires d.Valid() && AllWellShaped(d) && n <= |d.keys|
    ensures |tables| == n
    ensures forall j :: 0 <= j < n ==> (tables[j].Ok? ==> Fits(tables[j].value))
    ensures forall j :: 0 <= j < n ==> (tables[j].Ok? <==> Normalisable(d.entries[d.keys[j]]))
  {
    if n == 0 then []
    else SampleCorrections(d, n - 1) + [NormalizeFrame(d.entries[d.keys[n - 1]])]
  }

  lemma {:induction false} SampleCorrectionsAt(d: Dict<Frame>, n: nat, j: nat)
    requires d.Valid() && AllWellShaped(d) && j < n <= |d.keys|
    ensures SampleCorrections(d, n)[j] == NormalizeFrame(d.entries[d.keys[j]])
  {
    if j < n - 1 {
      SampleCorrectionsAt(d, n - 1, j);
    }
  }

  /** normalize_data as a function of the dict it is given. */
  function NormalizeAll(d: Dict<Frame>): Outcome
    requires d.Valid() && AllWellShaped(d)
  {
    Collect(d.keys, SampleCorrections(d, |d.keys|))
  }

  /** The dict built after the first i samples. */
  ghost function NormalisedPrefix(d: Dict<Frame>, i: nat): Dict<Frame>
    requires d.Valid() && AllWellShaped(d) && i <= |d.keys|
  {
    PutAll(d.keys[..i], CorrectedTables(SampleCorrections(d, |d.keys|))[..i])
  }

  /** The copies saved by the first i samples. */
  ghost function SavedPrefix(d: Dict<Frame>, i: nat): seq<(string, Frame)>
    requires d.Valid() && AllWellShaped(d) && i <= |d.keys|
  {
    SavedCopies(d.keys, SampleCorrections(d, |d.keys|))[..i]
  }

  /** Sample i raises: normalize_data stops with what was saved before it. */
  lemma NormalizeStepErr(d: Dict<Frame>, i: nat)
    requires d.Valid() && AllWellShaped(d) && i < |d.keys|
    requires NormalisableUpTo(d, i)
    requires NormalizeFrame(d.entries[d.keys[i]]).Err?
    ensures NormalizeAll(d) == Outcome(Err(NormalizeFrame(d.entries[d.keys[i]]).error), SavedPrefix(d, i))
  {
    var tables := SampleCorrections(d, |d.keys|);
    SampleCorrectionsAt(d, |d.keys|, i);
    CollectStopsAt(d.keys, tables, i);
  }

  /** Sample i is corrected: it is added to the dict and its copy saved. */
  lemma NormalizeStepOk(d: Dict<Frame>, i: nat)
    requires d.Valid() && AllWellShaped(d) && i < |d.keys|
    requires NormalizeFrame(d.entries[d.keys[i]]).Ok?
    ensures var c := NormalizeFrame(d.entries[d.keys[i]]).value;
      && Fits(c)
      && NormalisedPrefix(d, i + 1) == Put(NormalisedPrefix(d, i), d.keys[i], c.table)
      && SavedPrefix(d, i + 1) == SavedPrefix(d, i) + [(d.keys[i], PersistedCopy(c))]
  {
    var tables := SampleCorrections(d, |d.keys|);
    SampleCorrectionsAt(d, |d.keys|, i);
    PutAllSnoc(d.keys, CorrectedTables(tables), i);
    SavedCopiesSnoc(d.keys, tables, i);
  }

  /** Every sample was corrected. */
  lemma NormalizeFinish(d: Dict<Frame>)
    requires d.Valid() && AllWellShaped(d)
    requires NormalisableUpTo(d, |d.keys|)
    ensures NormalizeAll(d) == Outcome(Ok(NormalisedPrefix(d, |d.keys|)), SavedPrefix(d, |d.keys|))
  {
    var tables := SampleCorrections(d, |d.keys|);
    CollectFinishes(d.keys, tables);
    assert d.keys[..|d.keys|] == d.keys;
    assert CorrectedTables(tables)[..|d.keys|] == CorrectedTables(tables);
    assert SavedCopies(d.keys, tables)[..|d.keys|] == SavedCopies(d.keys, tables);
  }

  /** One pass of the loop of lines 122-145: sample i either raises, which
      ends normalize_data with what was saved so far, or is corrected, added
      to the dict and saved. */
  method NormalizeNext(d: Dict<Frame>, i: nat, normalised: Dict<Frame>, saved: seq<(string, Frame)>)
      returns (next: Result<(Dict<Frame>, seq<(string, Frame)>)>)
    requires d.Valid() && AllWellShaped(d) && i < |d.keys|
    requires NormalisableUpTo(d, i)
    requires normalised == NormalisedPrefix(d, i) && saved == SavedPrefix(d, i)
    ensures next.Err? ==> NormalizeAll(d) == Outcome(Err(next.error), saved)
    ensures next.Ok? ==> NormalisableUpTo(d, i + 1)
    ensures next.Ok? ==> next.value == (NormalisedPrefix(d, i + 1), SavedPrefix(d, i + 1))
  {
    var name := d.keys[i];
    var r := NormalizeFrame(d.entries[name]);
    if r.Err? {
      NormalizeStepErr(d, i);
      return Err(r.error);
    }
    NormalizeStepOk(d, i);
    next := Ok((Put(normalised, name, r.value.table), saved + [(name, PersistedCopy(r.value))]));
  }

  /** Lines 114-148. */
  method NormalizeData(d: Dict<Frame>) returns (o: Outcome)
    requires d.Valid() && AllWellShaped(d)
    ensures o == NormalizeAll(d)
  {
    var normalised: Dict<Frame> := EmptyDict();
    var saved: seq<(string, Frame)> := [];
    for i := 0 to |d.keys|
      invariant NormalisableUpTo(d, i)
      invariant normalised == NormalisedPrefix(d, i)
      invariant saved == SavedPrefix(d, i)
    {
      var next := NormalizeNext(d, i, normalised, saved);
      if next.Err? {
        return Outcome(Err(next.error), saved);
      }
      normalised, saved := next.value.0, next.value.1;
    }
    NormalizeFinish(d);
    o := Outcome(Ok(normalised), saved);
  }

  /** A table normalize_data can correct: it has a row and a column. */
  predicate Normalisable(f: Frame) {
    |f.cells| > 0 && |f.columns| > 0
  }

  /** Each of the first i tables can be corrected. */
  ghost predicate NormalisableUpTo(d: Dict<Frame>, i: nat)
    requires d.Valid() && i <= |d.keys|
  {
    forall j :: 0 <= j < i ==> Normalisable(d.entries[d.keys[j]])
  }

  /** normalize_data succeeds exactly when every table has a row and a column.
      Either way it has saved one copy for each sample before the first table
      it could not correct, and for no other. */
  lemma NormalizeAllSucceeds(d: Dict<Frame>)
    requires d.Valid() && AllWellShaped(d)
    ensures var o := NormalizeAll(d);
      && (o.result.Ok? <==> forall k :: k in d.entries ==> Normalisable(d.entries[k]))
      && |o.saved| <= |d.keys|
      && (o.result.Err? <==> |o.saved| < |d.keys|)
      && (o.result.Err? ==> !Normalisable(d.entries[d.keys[|o.saved|]]))
      && forall j :: 0 <= j < |o.saved| ==> Normalisable(d.entries[d.keys[j]])
  {
    var n := |d.keys|;
    if FirstError(SampleCorrections(d, n)) == n {
      forall k | k in d.entries ensures Normalisable(d.entries[k]) {
        var j :| 0 <= j < n && d.keys[j] == k;
      }
    }
  }

  /** When normalize_data succeeds it keeps the sample names in their order
      and maps each to its corrected table. */
  lemma NormalizeAllTables(d: Dict<Frame>)
    requires d.Valid() && AllWellShaped(d) && NormalizeAll(d).result.Ok?
    ensures var r := NormalizeAll(d).result.value;
      && r.keys == d.keys
      && forall j :: 0 <= j < |d.keys| ==>
           && NormalizeFrame(d.entries[d.keys[j]]).Ok?
           && r.entries[d.keys[j]] == NormalizeFrame(d.entries[d.keys[j]]).value.table
  {
    var n := |d.keys|;
    var tables := SampleCorrections(d, n);
    PutAllDistinct(d.keys, CorrectedTables(tables));
    forall j | 0 <= j < n
      ensures NormalizeFrame(d.entries[d.keys[j]]).Ok?
      ensures NormalizeAll(d).result.value.entries[d.keys[j]] == NormalizeFrame(d.entries[d.keys[j]]).value.table
    {
      SampleCorrectionsAt(d, n, j);
    }
  }

  /** The dict normalize_data returns holds only well-shaped tables, as
      determine_rate asks of the tables it is given. */
  lemma NormalizeAllWellShaped(d: Dict<Frame>)
    requires d.Valid() && AllWellShaped(d)
    ensures NormalizeAll(d).result.Ok? ==> NormalizeAll(d).result.value.Valid()
    ensures NormalizeAll(d).result.Ok? ==> AllWellShaped(NormalizeAll(d).result.value)
  {
    if NormalizeAll(d).result.Ok? {
      var r := NormalizeAll(d).result.value;
      NormalizeAllTables(d);
      assert r.Valid();
      forall k | k in r.entries
        ensures r.entries[k].WellShaped()
      {
        var j :| 0 <= j < |d.keys| && d.keys[j] == k;
      }
    }
  }

  /** The j-th copy saved is the j-th sample's corrected table with its
      correction row, under the sample's name. */
  lemma NormalizeAllSaved(d: Dict<Frame>)
    requires d.Valid() && AllWellShaped(d)
    ensures var o := NormalizeAll(d);
      forall j :: 0 <= j < |o.saved| ==>
        && j < |d.keys|
        && NormalizeFrame(d.entries[d.keys[j]]).Ok?
        && o.saved[j] == (d.keys[j], PersistedCopy(NormalizeFrame(d.entries[d.keys[j]]).value))
  {
    var n := |d.keys|;
    var o := NormalizeAll(d);
    forall j | 0 <= j < |o.saved|
      ensures j < n && NormalizeFrame(d.entries[d.keys[j]]).Ok?
      ensures o.saved[j] == (d.keys[j], PersistedCopy(NormalizeFrame(d.entries[d.keys[j]]).value))
    {
      SampleCorrectionsAt(d, n, j);
    }
  }
}
