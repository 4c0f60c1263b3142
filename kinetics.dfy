/** The exponential branch of determine_rate (UV-processor.py, lines 186-326):
    for every sample, take the row of the chosen wavelength as a time series,
    read the times back from the column labels, compute the starting guesses
    handed to the optimiser, and turn the fitted (a, b, y0) into the initial
    rate a * b. The optimiser itself is a parameter. */
module Kinetics {
  import opened Python
  import opened Frames
  import opened Demux
  import opened Normalize

  // ---------------------------------------------------------------------------
  // The tables handed on (lines 34-112 to lines 114-148 and 186-326)

  /** The dict process_uv_data returns holds only well-shaped tables, which is
      what normalize_data and determine_rate ask of the tables they are given. */
  lemma UvTablesWellShaped(raw: Raw, runTime: real, interval: real)
    requires raw.Valid()
    ensures UvTables(raw, runTime, interval).Ok? ==> AllWellShaped(UvTables(raw, runTime, interval).value.samples)
  {
    if UvPlan(raw, runTime, interval).Ok? {
      var plan := UvPlan(raw, runTime, interval).value;
      AssembleWellShaped(raw, plan);
    }
  }

  // ---------------------------------------------------------------------------
  // The time series of one wavelength (lines 229-234)

  /** `df.index.get_loc(w)`: where the row labelled w sits; KeyError if none is. */
  function RowPosition(index: seq<RowLabel>, w: int): (r: Result<nat>)
    ensures r.Err? ==> r.error == KeyError
    ensures r.Ok? ==> r.value < |index|
  {
    if |index| == 0 then Err(KeyError)
    else if index[0] == Wavelength(w) then Ok(0)
    else match RowPosition(index[1..], w)
      case Err(e) => Err(e)
      case Ok(p) => Ok(p + 1)
  }

  /** The lookup fails exactly when no row carries the label, and otherwise
      finds the first row that does. */
  lemma {:induction false} RowPositionFinds(index: seq<RowLabel>, w: int)
    ensures var r := RowPosition(index, w);
      && (r.Err? <==> Wavelength(w) !in index)
      && (r.Ok? ==> index[r.value] == Wavelength(w))
      && (r.Ok? ==> forall p :: 0 <= p < r.value ==> index[p] != Wavelength(w))
  {
    if |index| > 0 && index[0] != Wavelength(w) {
      RowPositionFinds(index[1..], w);
      assert index == [index[0]] + index[1..];
    }
  }

  /** `float(label.replace('s', ''))` for one column label, on integer text
      only: ValueError when what is left is not an optionally negative run of
      digits. `float()` also reads decimals, exponents, a leading plus,
      surrounding whitespace and "inf"/"nan"; the labels line 76 makes are
      always integer text (LabelTimesOfTimeLabels). */
  function LabelTime(text: string): (r: Result<real>)
    ensures r.Err? ==> r.error == ValueError
  {
    match ParseInt(RemoveChar(text, 's'))
    case None => Err(ValueError)
    case Some(n) => Ok(n as real)
  }

  /** The list comprehension of line 233: the first label that is not a
      number raises. */
  function LabelTimes(labels: seq<string>): (r: Result<seq<real>>)
    ensures r.Err? ==> r.error == ValueError
    ensures r.Ok? ==> |r.value| == |labels|
  {
    if |labels| == 0 then Ok([])
    else match LabelTime(labels[0])
      case Err(e) => Err(e)
      case Ok(t) =>
        match LabelTimes(labels[1..])
        case Err(e) => Err(e)
        case Ok(ts) => Ok([t] + ts)
  }

  /** The comprehension raises exactly when some label is not a number, and
      otherwise holds every label's time, in column order. */
  lemma {:induction false} LabelTimesPointwise(labels: seq<string>)
    ensures var r := LabelTimes(labels);
      && (r.Err? <==> exists k :: 0 <= k < |labels| && LabelTime(labels[k]).Err?)
      && (r.Ok? ==> forall k :: 0 <= k < |labels| ==> LabelTime(labels[k]) == Ok(r.value[k]))
  {
    if |labels| > 0 {
      LabelTimesPointwise(labels[1..]);
      assert forall k :: 1 <= k < |labels| ==> labels[k] == labels[1..][k - 1];
      if LabelTime(labels[0]).Ok? && LabelTimes(labels[1..]).Err? {
        var k :| 0 <= k < |labels[1..]| && LabelTime(labels[1..][k]).Err?;
        assert LabelTime(labels[k + 1]).Err?;
      }
    }
  }

  /** Reading a time back from the label line 76 printed gives the time. */
  lemma LabelTimeRoundTrip(t: int)
    ensures LabelTime(TimeLabel(t)) == Ok(t as real)
  {
    var s := IntToString(t);
    RemoveCharSnoc(s, 's');
    assert forall i :: 0 <= i < |s| ==> s[i] == '-' || IsDigit(s[i]);
    IntToStringRoundTrip(t);
  }

  /** Whole numbers as reals. */
  function AsReals(ts: seq<int>): (xs: seq<real>)
    ensures |xs| == |ts| && forall k :: 0 <= k < |ts| ==> xs[k] == ts[k] as real
  {
    seq(|ts|, k requires 0 <= k < |ts| => ts[k] as real)
  }

  /** The labels of line 76 read back as the times they were made from. */
  lemma LabelTimesOfTimeLabels(ts: seq<int>)
    ensures LabelTimes(TimeLabels(ts)) == Ok(AsReals(ts))
  {
    var labels := TimeLabels(ts);
    forall k | 0 <= k < |labels|
      ensures LabelTime(labels[k]) == Ok(ts[k] as real)
    {
      LabelTimeRoundTrip(ts[k]);
    }
    LabelTimesPointwise(labels);
    var r := LabelTimes(labels);
    assert r.Ok?;
    var xs := AsReals(ts);
    assert |r.value| == |xs|;
    forall k | 0 <= k < |ts|
      ensures r.value[k] == xs[k]
    {
      assert LabelTime(labels[k]) == Ok(r.value[k]);
    }
    assert r.value == xs;
  }

  /** Any leading run of the time labels of a run with a positive interval
      reads back as 0, I, 2I, ...: starting at 0 and strictly increasing, so
      the first two times of a series never coincide. */
  lemma TimePointTimes(runTime: real, interval: real, m: nat)
    requires TruncToInt(interval) > 0
    requires m <= |TimePoints(runTime, interval).value|
    ensures var times := LabelTimes(TimePoints(runTime, interval).value[..m]);
      && times.Ok?
      && (forall k :: 0 <= k < m ==> times.value[k] == (k * TruncToInt(interval)) as real)
      && (forall j, k :: 0 <= j < k < m ==> times.value[j] < times.value[k])
  {
    var step := TruncToInt(interval);
    var tp := TimePoints(runTime, interval).value;
    TimePointsPositiveStep(runTime, interval);
    var ts := seq(m, k requires 0 <= k < m => k * step);
    assert tp[..m] == TimeLabels(ts);
    LabelTimesOfTimeLabels(ts);
    forall j, k | 0 <= j < k < m
      ensures (j * step) as real < (k * step) as real
    {
      MulStrict(j, k, step);
    }
  }

  // ---------------------------------------------------------------------------
  // Starting guesses (lines 283-294)

  /** A guess the float arithmetic of line 294 can leave infinite or NaN. */
  datatype Estimate = Finite(v: real) | NonFinite

  /** `p0 = (a_guess, b_guess, y0_guess)` */
  datatype Guess = Guess(a: real, b: Estimate, y0: real)

  /** Lines 283-294. `np.min` of no values raises ValueError, `absorbances[1]`
      of a single value IndexError. When the first two times coincide the
      slope divides by zero, which NumPy turns into inf or NaN. */
  function InitialGuess(times: seq<real>, ys: seq<real>): (r: Result<Guess>)
    requires |times| == |ys|
    ensures r.Err? <==> |ys| < 2
    ensures r.Err? ==> r.error == (if |ys| == 0 then ValueError else IndexError)
  {
    if |ys| == 0 then Err(ValueError)
    else if |ys| == 1 then Err(IndexError)
    else
      var y0 := Min(ys);
      var a := Max(ys) - y0;
      Ok(Guess(a, DecayGuess(times[1] - times[0], ys[1] - ys[0], a), y0))
  }

  /** Line 294 from the first time step dt, the first absorbance step dy and
      a_guess. */
  function DecayGuess(dt: real, dy: real, a: real): (b: Estimate)
    ensures a == 0.0 ==> b == Finite(0.1)
    ensures a != 0.0 && dt == 0.0 ==> b == NonFinite
  {
    if a == 0.0 then Finite(0.1)
    else if dt == 0.0 then NonFinite
    else Finite(Abs((dy / dt) / a))
  }

  /** For a rising or decaying series (a > 0) and distinct first times, b_guess
      times a_guess is the size of the initial slope. */
  lemma DecayGuessSlope(dt: real, dy: real, a: real)
    requires a > 0.0 && dt != 0.0
    ensures DecayGuess(dt, dy, a) == Finite(DecayGuess(dt, dy, a).v)
    ensures DecayGuess(dt, dy, a).v >= 0.0
    ensures DecayGuess(dt, dy, a).v * a == Abs(dy / dt)
  {
    AbsDiv(dy / dt, a);
  }

  /** y0_guess is the smallest absorbance and y0_guess + a_guess the largest,
      so a_guess is never negative. */
  lemma InitialGuessRange(times: seq<real>, ys: seq<real>)
    requires |times| == |ys| && |ys| >= 2
    ensures var g := InitialGuess(times, ys).value;
      && g.a >= 0.0
      && (forall k :: 0 <= k < |ys| ==> g.y0 <= ys[k] <= g.y0 + g.a)
      && (exists k :: 0 <= k < |ys| && ys[k] == g.y0)
      && (exists k :: 0 <= k < |ys| && ys[k] == g.y0 + g.a)
  {
    var g := InitialGuess(times, ys).value;
    assert g.y0 == Min(ys) && g.y0 + g.a == Max(ys);
  }

  /** |x / y| * y == |x| for y > 0. */
  lemma AbsDiv(x: real, y: real)
    requires y > 0.0
    ensures Abs(x / y) * y == Abs(x)
  {
    if x < 0.0 {
      assert x / y < 0.0;
    }
  }

  // ---------------------------------------------------------------------------
  // From the fitted parameters to the initial rate (lines 296-310)

  /** What `curve_fit` returns for y = -a * exp(-b * x) + y0. */
  datatype Fit = Fit(a: real, b: real, y0: real)

  /** Lines 303-305: when either parameter came out negative, both are
      replaced by their absolute values. */
  function SignFix(fit: Fit): (r: Fit)
    ensures r.a >= 0.0 && r.b >= 0.0 && r.y0 == fit.y0
    ensures fit.a >= 0.0 && fit.b >= 0.0 ==> r == fit
  {
    if fit.b < 0.0 || fit.a < 0.0 then Fit(Abs(fit.a), Abs(fit.b), fit.y0) else fit
  }

  /** The fix is the same as taking absolute values outright. */
  lemma SignFixIsAbs(fit: Fit)
    ensures SignFix(fit) == Fit(Abs(fit.a), Abs(fit.b), fit.y0)
  {
  }

  /** Line 310: the slope of -a * exp(-b * x) + y0 at x = 0, after the fix. */
  function InitialRate(fit: Fit): (rate: real)
    ensures rate >= 0.0
  {
    var fixed := SignFix(fit);
    fixed.a * fixed.b
  }

  /** The initial rate is the size of a * b, and is 0 exactly when the fit
      came out flat (a == 0) or without decay (b == 0). */
  lemma InitialRateIsProduct(fit: Fit)
    ensures InitialRate(fit) == Abs(fit.a * fit.b)
    ensures InitialRate(fit) == 0.0 <==> fit.a == 0.0 || fit.b == 0.0
  {
    var a, b := fit.a, fit.b;
    if a < 0.0 && b < 0.0 {
      assert (-a) * (-b) == a * b;
    } else if a < 0.0 && b >= 0.0 {
      assert (-a) * b == -(a * b);
    } else if a >= 0.0 && b < 0.0 {
      assert a * (-b) == -(a * b);
    }
  }

  // ---------------------------------------------------------------------------
  // One sample (lines 226-310, exponential fit)

  /** The optimiser: given the times, the absorbances and the starting guess,
      the fitted parameters, or the exception it raises (`curve_fit` raises
      RuntimeError when it has not converged after `maxfev` evaluations). It
      is only consulted with at least FitParameters data points. */
  type Optimiser = (seq<real>, seq<real>, Guess) -> Result<Fit>

  /** The model -a * exp(-b * x) + y0 has three parameters. Without bounds,
      `curve_fit` uses the Levenberg-Marquardt method, which raises TypeError
      when there are fewer data points than parameters. */
  const FitParameters: nat := 3

  /** What one sample hands to the optimiser (lines 229-294): the times read
      from the column labels, the absorbances of the wavelength's row and the
      starting guess, or the exception raised before the fit. `min(times)` of
      line 237 raises ValueError on a table without columns before the
      guesses are made. */
  function SeriesGuess(f: Frame, w: int): (r: Result<(seq<real>, seq<real>, Guess)>)
    requires f.WellShaped()
    ensures r.Ok? ==> |r.value.0| == |r.value.1| == |f.columns| >= 2
  {
    match RowPosition(f.index, w)
    case Err(e) => Err(e)
    case Ok(p) =>
      match LabelTimes(f.columns)
      case Err(e) => Err(e)
      case Ok(times) =>
        if |times| == 0 then Err(ValueError)
        else match InitialGuess(times, f.cells[p])
          case Err(e) => Err(e)
          case Ok(g) => Ok((times, f.cells[p], g))
  }

  /** The fit's inputs fail exactly when the table has no row for the
      wavelength, a column label is not a number, or there are fewer than two
      columns; otherwise they are that row, the labels' times and the guess
      made from them. */
  lemma SeriesGuessFails(f: Frame, w: int)
    requires f.WellShaped()
    ensures SeriesGuess(f, w).Err? <==>
      || Wavelength(w) !in f.index
      || LabelTimes(f.columns).Err?
      || |f.columns| < 2
    ensures SeriesGuess(f, w).Ok? ==>
      var p := RowPosition(f.index, w).value;
      var times := LabelTimes(f.columns).value;
      && f.index[p] == Wavelength(w)
      && SeriesGuess(f, w).value == (times, f.cells[p], InitialGuess(times, f.cells[p]).value)
  {
    RowPositionFinds(f.index, w);
  }

  /** The initial rate of one sample's table at wavelength w, or the exception
      that stops determine_rate there. */
  function SampleRate(f: Frame, w: int, fit: Optimiser): (r: Result<real>)
    requires f.WellShaped()
    ensures r.Ok? ==> r.value >= 0.0
  {
    match SeriesGuess(f, w)
    case Err(e) => Err(e)
    case Ok(inputs) =>
      if |inputs.0| < FitParameters then Err(TypeError)
      else match fit(inputs.0, inputs.1, inputs.2)
        case Err(e) => Err(e)
        case Ok(params) => Ok(InitialRate(params))
  }

  /** A sample raises exactly when its inputs fail (SeriesGuessFails), it
      has fewer time points than the fit has parameters (TypeError, whatever
      the optimiser), or the optimiser raises on the inputs; otherwise its
      rate is the initial rate of the fit. */
  lemma SampleRateFails(f: Frame, w: int, fit: Optimiser)
    requires f.WellShaped()
    ensures SampleRate(f, w, fit).Err? <==>
      || SeriesGuess(f, w).Err?
      || |f.columns| < FitParameters
      || (var inputs := SeriesGuess(f, w).value; fit(inputs.0, inputs.1, inputs.2).Err?)
    ensures SeriesGuess(f, w).Ok? && |f.columns| < FitParameters ==> SampleRate(f, w, fit) == Err(TypeError)
    ensures SampleRate(f, w, fit).Ok? ==>
      var inputs := SeriesGuess(f, w).value;
      && fit(inputs.0, inputs.1, inputs.2).Ok?
      && SampleRate(f, w, fit).value == InitialRate(fit(inputs.0, inputs.1, inputs.2).value)
  {
    SeriesGuessFails(f, w);
  }

  /** A table read at only two times raises TypeError at the fit, whatever
      the optimiser would have returned. */
  lemma TwoTimePointsTypeError(fit: Optimiser)
    ensures SampleRate(Frame([Wavelength(500)], [TimeLabel(0), TimeLabel(10)], [[0.1, 0.2]]), 500, fit) == Err(TypeError)
  {
    var f := Frame([Wavelength(500)], [TimeLabel(0), TimeLabel(10)], [[0.1, 0.2]]);
    assert f.columns == TimeLabels([0, 10]);
    LabelTimesOfTimeLabels([0, 10]);
    SeriesGuessFails(f, 500);
    SampleRateFails(f, 500, fit);
  }

  // ---------------------------------------------------------------------------
  // All samples (lines 224-326)

  /** What lines 226-310 yield for every sample, in dict order. */
  function SampleRates(d: Dict<Frame>, w: int, fit: Optimiser): (rs: seq<Result<real>>)
    requires d.Valid() && AllWellShaped(d)
    ensures |rs| == |d.keys|
  {
    seq(|d.keys|, j requires 0 <= j < |d.keys| => SampleRate(d.entries[d.keys[j]], w, fit))
  }

  /** `initial_rates` after the first n samples, or the first exception. */
  function Gather(keys: seq<string>, rs: seq<Result<real>>, n: nat): (r: Result<Dict<real>>)
    requires n <= |keys| == |rs|
    ensures r.Ok? ==> r.value.Valid()
  {
    if n == 0 then Ok(EmptyDict())
    else match Gather(keys, rs, n - 1)
      case Err(e) => Err(e)
      case Ok(rates) =>
        match rs[n - 1]
        case Err(e) => Err(e)
        case Ok(rate) => Ok(Put(rates, keys[n - 1], rate))
  }

  /** determine_rate as a function of the tables it is given. */
  function Rates(d: Dict<Frame>, w: int, fit: Optimiser): Result<Dict<real>>
    requires d.Valid() && AllWellShaped(d)
  {
    Gather(d.keys, SampleRates(d, w, fit), |d.keys|)
  }

  /** Once a sample has raised, no later sample changes the outcome. */
  lemma {:induction false} GatherErr(keys: seq<string>, rs: seq<Result<real>>, i: nat, n: nat)
    requires i <= n <= |keys| == |rs|
    requires Gather(keys, rs, i).Err?
    ensures Gather(keys, rs, n) == Gather(keys, rs, i)
  {
    if i < n {
      GatherErr(keys, rs, i, n - 1);
    }
  }

  /** `initial_rates` after the first i samples. */
  ghost function RatesPrefix(d: Dict<Frame>, w: int, fit: Optimiser, i: nat): Result<Dict<real>>
    requires d.Valid() && AllWellShaped(d) && i <= |d.keys|
  {
    Gather(d.keys, SampleRates(d, w, fit), i)
  }

  /** Sample i either raises, and no later sample changes that, or its rate
      is the next entry. */
  lemma RatesStep(d: Dict<Frame>, w: int, fit: Optimiser, i: nat, rates: Dict<real>)
    requires d.Valid() && AllWellShaped(d) && i < |d.keys|
    requires RatesPrefix(d, w, fit, i) == Ok(rates)
    ensures var r := SampleRate(d.entries[d.keys[i]], w, fit);
      && (r.Err? ==> Rates(d, w, fit) == Err(r.error))
      && (r.Ok? ==> RatesPrefix(d, w, fit, i + 1) == Ok(Put(rates, d.keys[i], r.value)))
  {
    var rs := SampleRates(d, w, fit);
    assert rs[i] == SampleRate(d.entries[d.keys[i]], w, fit);
    if rs[i].Err? {
      GatherErr(d.keys, rs, i + 1, |d.keys|);
    }
  }

  /** One pass of the loop of lines 224-326: sample i either raises, which
      ends determine_rate with that exception, or adds its rate to
      `initial_rates`. */
  method RecordRate(d: Dict<Frame>, w: int, fit: Optimiser, i: nat, rates: Dict<real>)
      returns (next: Result<Dict<real>>)
    requires d.Valid() && AllWellShaped(d) && i < |d.keys|
    requires RatesPrefix(d, w, fit, i) == Ok(rates)
    ensures next.Err? ==> next == Rates(d, w, fit)
    ensures next.Ok? ==> next == RatesPrefix(d, w, fit, i + 1)
  {
    var name := d.keys[i];
    var rate := SampleRate(d.entries[name], w, fit);
    RatesStep(d, w, fit, i, rates);
    if rate.Err? {
      return Err(rate.error);
    }
    next := Ok(Put(rates, name, rate.value));
  }

  /** Lines 224-326 with the exponential fit: the loop that fills `initial_rates`.
      The result is that local dict (or the exception that ends the loop);
      determine_rate itself returns None and only writes the dict to the
      rates CSV. */
  method DetermineRates(d: Dict<Frame>, w: int, fit: Optimiser) returns (r: Result<Dict<real>>)
    requires d.Valid() && AllWellShaped(d)
    ensures r == Rates(d, w, fit)
  {
    var rates := EmptyDict();
    for i := 0 to |d.keys|
      invariant RatesPrefix(d, w, fit, i) == Ok(rates)
    {
      var next := RecordRate(d, w, fit, i, rates);
      if next.Err? {
        return next;
      }
      rates := next.value;
    }
    r := Ok(rates);
  }

  /** Gathering succeeds exactly when every result is a rate. */
  lemma {:induction false} GatherSucceeds(keys: seq<string>, rs: seq<Result<real>>, n: nat)
    requires n <= |keys| == |rs|
    ensures Gather(keys, rs, n).Ok? <==> forall j :: 0 <= j < n ==> rs[j].Ok?
  {
    if n > 0 {
      GatherSucceeds(keys, rs, n - 1);
    }
  }

  /** With distinct keys, a gathered dict lists the keys in order, once each. */
  lemma {:induction false} GatherKeys(keys: seq<string>, rs: seq<Result<real>>, n: nat)
    requires n <= |keys| == |rs| && Distinct(keys)
    ensures Gather(keys, rs, n).Ok? ==> Gather(keys, rs, n).value.keys == keys[..n]
  {
    if n > 0 {
      GatherKeys(keys, rs, n - 1);
      var r := Gather(keys, rs, n - 1);
      if r.Ok? && rs[n - 1].Ok? {
        var k := keys[n - 1];
        DistinctPrefix(keys, n);
        LastNotInFront(keys[..n]);
        assert keys[..n][..n - 1] == keys[..n - 1];
        assert k !in r.value.entries;
        assert keys[..n] == keys[..n - 1] + [k];
      }
    }
  }

  /** With distinct keys, every key of a gathered dict holds its own rate. */
  lemma {:induction false} GatherEntries(keys: seq<string>, rs: seq<Result<real>>, n: nat)
    requires n <= |keys| == |rs| && Distinct(keys)
    ensures var r := Gather(keys, rs, n);
      r.Ok? ==> forall j :: 0 <= j < n ==> keys[j] in r.value.entries && rs[j] == Ok(r.value.entries[keys[j]])
  {
    if n > 0 {
      GatherEntries(keys, rs, n - 1);
      var r := Gather(keys, rs, n - 1);
      if r.Ok? && rs[n - 1].Ok? {
        var k := keys[n - 1];
        var next := Put(r.value, k, rs[n - 1].value);
        assert Gather(keys, rs, n) == Ok(next);
        forall j | 0 <= j < n
          ensures keys[j] in next.entries && rs[j] == Ok(next.entries[keys[j]])
        {
          if j < n - 1 {
            assert keys[j] != k;
          }
        }
      }
    }
  }

  /** determine_rate succeeds exactly when every sample has a rate. */
  lemma RatesSucceed(d: Dict<Frame>, w: int, fit: Optimiser)
    requires d.Valid() && AllWellShaped(d)
    ensures Rates(d, w, fit).Ok? <==> forall j :: 0 <= j < |d.keys| ==> SampleRate(d.entries[d.keys[j]], w, fit).Ok?
  {
    var rs := SampleRates(d, w, fit);
    GatherSucceeds(d.keys, rs, |d.keys|);
    assert forall j :: 0 <= j < |d.keys| ==> rs[j] == SampleRate(d.entries[d.keys[j]], w, fit);
  }

  /** When it succeeds, `initial_rates` holds one entry per sample, in dict
      order, and every initial rate is that sample's, and non-negative. */
  lemma RatesEntries(d: Dict<Frame>, w: int, fit: Optimiser)
    requires d.Valid() && AllWellShaped(d) && Rates(d, w, fit).Ok?
    ensures var r := Rates(d, w, fit).value;
      && r.keys == d.keys
      && forall j :: 0 <= j < |d.keys| ==>
           && d.keys[j] in r.entries
           && SampleRate(d.entries[d.keys[j]], w, fit) == Ok(r.entries[d.keys[j]])
           && r.entries[d.keys[j]] >= 0.0
  {
    var rs := SampleRates(d, w, fit);
    var r := Rates(d, w, fit).value;
    GatherKeys(d.keys, rs, |d.keys|);
    GatherEntries(d.keys, rs, |d.keys|);
    assert d.keys[..|d.keys|] == d.keys;
    forall j | 0 <= j < |d.keys|
      ensures SampleRate(d.entries[d.keys[j]], w, fit) == Ok(r.entries[d.keys[j]])
    {
      assert rs[j] == SampleRate(d.entries[d.keys[j]], w, fit);
    }
  }
}
