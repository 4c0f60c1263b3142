/** Minimum and maximum over a row of absorbances (NumPy's `min`/`max`, pandas'
    row-wise `min(axis=1)`/`max(axis=1)` on NaN-free data) and the table shape
    shared by the demultiplexer, the normaliser and the rate fitter. */
module Frames {

  function Abs(x: real): (r: real)
    ensures r >= 0.0 && (r == x || r == -x)
  {
    if x < 0.0 then -x else x
  }

  function Max(s: seq<real>): (m: real)
    requires |s| > 0
    ensures forall i :: 0 <= i < |s| ==> s[i] <= m
    ensures exists i :: 0 <= i < |s| && s[i] == m
  {
    if |s| == 1 then s[0]
    else
      var m' := Max(s[..|s| - 1]);
      assert forall i :: 0 <= i < |s| - 1 ==> s[i] == s[..|s| - 1][i];
      if s[|s| - 1] > m' then s[|s| - 1] else m'
  }

  function Min(s: seq<real>): (m: real)
    requires |s| > 0
    ensures forall i :: 0 <= i < |s| ==> m <= s[i]
    ensures exists i :: 0 <= i < |s| && s[i] == m
  {
    if |s| == 1 then s[0]
    else
      var m' := Min(s[..|s| - 1]);
      assert forall i :: 0 <= i < |s| - 1 ==> s[i] == s[..|s| - 1][i];
      if s[|s| - 1] < m' then s[|s| - 1] else m'
  }

  /** Every row has `width` cells. */
  ghost predicate Rectangular(rows: seq<seq<real>>, width: int) {
    forall r :: 0 <= r < |rows| ==> |rows[r]| == width
  }

  /** Row labels of a table: a wavelength in nm, or the `corr_values` row that
      the normaliser appends to the copy it saves. */
  datatype RowLabel = Wavelength(nm: int) | CorrValues

  /** A pandas DataFrame of absorbances: row labels, column labels (time points)
      and the cells, row by row. */
  datatype Frame = Frame(index: seq<RowLabel>, columns: seq<string>, cells: seq<seq<real>>)
  {
    /** One row per index label, one cell per column in every row. */
    ghost predicate WellShaped() {
      && |cells| == |index|
      && forall r :: 0 <= r < |cells| ==> |cells[r]| == |columns|
    }
  }
}
