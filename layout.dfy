/** Sample layout resolution: which header labels are sample names, and how many
    repeat blocks the wide CSV holds (UV-processor.py, process_uv_data, lines 41-64). */
module Layout {
  import opened Python

  /** The module-level `num_samples` read by process_uv_data. It is set once to 0
      and never reassigned: main's `num_samples = int(input(...))` binds a local. */
  const NumSamples: int := 0

  /** A header label that names a sample: not a pandas placeholder ("Unnamed: k")
      and not blank once stripped. */
  predicate IsSampleLabel(col: string) {
    !Contains(col, "Unnamed") && Strip(col) != []
  }

  /** The first label of the second repeat block ends in "_C1". */
  predicate IsRepeatMarker(col: string) {
    EndsWith(col, "_C1")
  }

  predicate IsStop(col: string) {
    IsSampleLabel(col) && IsRepeatMarker(col)
  }

  /** Position of the first true flag, or |bs| if none is. */
  function FirstTrue(bs: seq<bool>): (k: nat)
    ensures k <= |bs|
  {
    if |bs| == 0 then 0
    else if bs[0] then 0
    else 1 + FirstTrue(bs[1..])
  }

  /** FirstTrue is a true flag, or the end, and every flag before it is false. */
  lemma {:induction false} FirstTrueIsFirst(bs: seq<bool>)
    ensures FirstTrue(bs) < |bs| ==> bs[FirstTrue(bs)]
    ensures forall j :: 0 <= j < FirstTrue(bs) ==> !bs[j]
  {
    if |bs| > 0 && !bs[0] {
      FirstTrueIsFirst(bs[1..]);
    }
  }

  /** For each header label, whether it stops the scan. */
  function Stops(cols: seq<string>): (bs: seq<bool>)
    ensures |bs| == |cols|
  {
    seq(|cols|, j requires 0 <= j < |cols| => IsStop(cols[j]))
  }

  /** Position of the first sample label that ends in "_C1", or |cols| if none does. */
  function StopIndex(cols: seq<string>): (k: nat)
    ensures k <= |cols|
  {
    FirstTrue(Stops(cols))
  }

  /** StopIndex is a stop, or the end, and no label before it is one. */
  lemma StopIndexFirst(cols: seq<string>)
    ensures StopIndex(cols) < |cols| ==> IsStop(cols[StopIndex(cols)])
    ensures forall j :: 0 <= j < StopIndex(cols) ==> !IsStop(cols[j])
  {
    var bs := Stops(cols);
    FirstTrueIsFirst(bs);
    forall j | 0 <= j < StopIndex(cols)
      ensures !IsStop(cols[j])
    {
      assert !bs[j];
    }
  }

  /** The sample labels of `cols`, in order. */
  function SampleLabels(cols: seq<string>): (r: seq<string>)
    ensures |r| <= |cols|
  {
    if |cols| == 0 then []
    else
      var front := cols[..|cols| - 1];
      var last := cols[|cols| - 1];
      SampleLabels(front) + (if IsSampleLabel(last) then [last] else [])
  }

  /** The sample labels are exactly the header labels that are sample labels. */
  lemma {:induction false} SampleLabelsMembers(cols: seq<string>)
    ensures forall x :: x in SampleLabels(cols) <==> x in cols && IsSampleLabel(x)
  {
    if |cols| > 0 {
      var front := cols[..|cols| - 1];
      var last := cols[|cols| - 1];
      SampleLabelsMembers(front);
      assert cols == front + [last];
    }
  }

  /** The sample names auto-detection collects: the sample labels before the
      first "_C1" label. */
  function DetectedNames(cols: seq<string>): seq<string> {
    SampleLabels(cols[..StopIndex(cols)])
  }

  /** The auto-detect scan of lines 48-52: walk the header, skip placeholders and
      blanks, stop (excluding it) at the first label ending in "_C1". */
  method DetectSampleNames(cols: seq<string>) returns (names: seq<string>)
    ensures names == DetectedNames(cols)
  {
    names := [];
    var i := 0;
    while i < |cols|
      invariant 0 <= i <= StopIndex(cols)
      invariant names == SampleLabels(cols[..i])
    {
      StopIndexStep(cols, i);
      var col := cols[i];
      if IsSampleLabel(col) {
        if IsRepeatMarker(col) {
          break;
        }
        names := names + [col];
      }
      SampleLabelsSnoc(cols, i);
      i := i + 1;
    }
  }

  /** Scanning past position i: a stop there is StopIndex, anything else is before it. */
  lemma StopIndexStep(cols: seq<string>, i: nat)
    requires i < |cols| && i <= StopIndex(cols)
    ensures IsStop(cols[i]) ==> i == StopIndex(cols)
    ensures !IsStop(cols[i]) ==> i < StopIndex(cols)
  {
    StopIndexFirst(cols);
  }

  lemma SampleLabelsSnoc(cols: seq<string>, i: nat)
    requires i < |cols|
    ensures SampleLabels(cols[..i + 1])
         == SampleLabels(cols[..i]) + (if IsSampleLabel(cols[i]) then [cols[i]] else [])
  {
    assert cols[..i + 1][..i] == cols[..i];
  }

  /** The first "_C1" sample label is the only position with no stop before it. */
  lemma StopIndexIs(cols: seq<string>, i: nat)
    requires i <= |cols| && (i == |cols| || IsStop(cols[i]))
    requires forall j :: 0 <= j < i ==> !IsStop(cols[j])
    ensures StopIndex(cols) == i
  {
    StopIndexFirst(cols);
  }

  /** Every detected name is a sample label that is not a "_C1" label, and the
      names come from the header in header order. */
  lemma DetectedNamesProperties(cols: seq<string>)
    ensures |DetectedNames(cols)| <= |cols|
    ensures forall x :: x in DetectedNames(cols) ==> x in cols && IsSampleLabel(x) && !IsRepeatMarker(x)
    ensures forall x :: x in cols && IsSampleLabel(x) && !IsRepeatMarker(x) && x !in DetectedNames(cols) ==>
      exists j :: StopIndex(cols) <= j < |cols| && cols[j] == x
  {
    var k := StopIndex(cols);
    var front := cols[..k];
    StopIndexFirst(cols);
    SampleLabelsMembers(front);
    forall x | x in DetectedNames(cols)
      ensures x in cols && IsSampleLabel(x) && !IsRepeatMarker(x)
    {
      var j :| 0 <= j < k && front[j] == x;
      assert cols[j] == x;
    }
    forall j | 0 <= j < k && IsSampleLabel(cols[j])
      ensures cols[j] in DetectedNames(cols)
    {
      assert front[j] == cols[j];
    }
    forall x | x in cols && IsSampleLabel(x) && !IsRepeatMarker(x) && x !in DetectedNames(cols)
      ensures exists j :: k <= j < |cols| && cols[j] == x
    {
      var j :| 0 <= j < |cols| && cols[j] == x;
      assert k <= j;
    }
  }

  /** Sample labels keep the header's order, so distinct header labels give
      distinct sample names. */
  lemma {:induction false} SampleLabelsDistinct(cols: seq<string>)
    requires Distinct(cols)
    ensures Distinct(SampleLabels(cols))
  {
    if |cols| > 0 {
      var front, last := cols[..|cols| - 1], cols[|cols| - 1];
      DistinctPrefix(cols, |cols| - 1);
      SampleLabelsDistinct(front);
      LastNotInFront(cols);
      SampleLabelsMembers(front);
      assert last !in SampleLabels(front);
    }
  }

  /** With distinct header labels (pandas renames repeats), the detected sample
      names are distinct. */
  lemma DetectedNamesDistinct(cols: seq<string>)
    requires Distinct(cols)
    ensures Distinct(DetectedNames(cols))
  {
    DistinctPrefix(cols, StopIndex(cols));
    SampleLabelsDistinct(cols[..StopIndex(cols)]);
  }

  // ---------------------------------------------------------------------------
  // The explicit-count branch (lines 53-59)

  /** Lines 54-59 as written: the test is for "Unamed" and `count` is never
      incremented, so `count >= num_samples` never holds for num_samples >= 1. */
  function ExplicitScanAsWritten(cols: seq<string>, count: int, numSamples: int): seq<string>
  {
    if |cols| == 0 then []
    else if !Contains(cols[0], "Unamed") then
      if count >= numSamples then [] else [cols[0]] + ExplicitScanAsWritten(cols[1..], count, numSamples)
    else ExplicitScanAsWritten(cols[1..], count, numSamples)
  }

  function ExplicitNamesAsWritten(numSamples: int, cols: seq<string>): seq<string> {
    ExplicitScanAsWritten(cols, 0, numSamples)
  }

  /** The labels the written branch keeps: every label without the substring "Unamed". */
  function WithoutUnamed(cols: seq<string>): seq<string> {
    if |cols| == 0 then []
    else (if Contains(cols[0], "Unamed") then [] else [cols[0]]) + WithoutUnamed(cols[1..])
  }

  /** As written, the declared count plays no part: every label not containing
      "Unamed" is collected. */
  lemma {:induction false} ExplicitAsWrittenIgnoresCount(numSamples: int, cols: seq<string>)
    requires numSamples >= 1
    ensures ExplicitNamesAsWritten(numSamples, cols) == WithoutUnamed(cols)
  {
    ScanAsWrittenCollectsAll(cols, numSamples);
  }

  lemma {:induction false} ScanAsWrittenCollectsAll(cols: seq<string>, numSamples: int)
    requires numSamples >= 1
    ensures ExplicitScanAsWritten(cols, 0, numSamples) == WithoutUnamed(cols)
  {
    if |cols| > 0 {
      ScanAsWrittenCollectsAll(cols[1..], numSamples);
    }
  }

  /** A concrete header on which the written branch returns three names for a
      declared count of one, the placeholder included. */
  lemma ExplicitAsWrittenCounterexample()
    ensures ExplicitNamesAsWritten(1, ["A", "Unnamed: 1", "B"]) == ["A", "Unnamed: 1", "B"]
  {
    var cols := ["A", "Unnamed: 1", "B"];
    ShortNotContains("A", "Unamed");
    ShortNotContains("B", "Unamed");
    PlaceholderNotUnamed(1);
    assert IntToString(1) == "1";
    assert "Unnamed: " + IntToString(1) == cols[1];
    assert !Contains(cols[1], "Unamed");
    assert ExplicitScanAsWritten(cols[2..], 0, 1) == ["B"];
    assert ExplicitScanAsWritten(cols[1..], 0, 1) == ["Unnamed: 1", "B"];
  }

  /** On the same header, the corrected scan keeps the single declared sample. */
  lemma ExplicitCorrectedExample()
    ensures ExplicitNames(1, ["A", "Unnamed: 1", "B"]) == ["A"]
  {
    var cols := ["A", "Unnamed: 1", "B"];
    ShortNotContains("A", "Unnamed");
    StripNonEmpty("A");
    assert !IsSpace("A"[0]);
    assert ExplicitScan(cols[1..], 1, 1) == [] by {
      assert !IsSampleLabel("Unnamed: 1") by {
        assert "Unnamed" <= "Unnamed: 1";
      }
    }
  }

  lemma {:induction false} ShortNotContains(s: string, sub: string)
    requires |s| < |sub|
    ensures !Contains(s, sub)
  {
    if |s| > 0 {
      ShortNotContains(s[1..], sub);
    }
  }

  lemma {:induction false} FirstCharAbsent(s: string, sub: string)
    requires |sub| > 0 && sub[0] !in s
    ensures !Contains(s, sub)
  {
    if |s| > 0 {
      assert s[1..] <= s[1..] && forall c :: c in s[1..] ==> c in s;
      FirstCharAbsent(s[1..], sub);
    }
  }

  /** No pandas placeholder label "Unnamed: k" contains the misspelt "Unamed". */
  lemma PlaceholderNotUnamed(k: nat)
    ensures !Contains("Unnamed: " + IntToString(k), "Unamed")
  {
    var digits := NatToString(k);
    var s := "Unnamed: " + digits;
    assert IntToString(k) == digits;
    assert !("Unamed" <= s) by {
      assert s[2] == 'n';
    }
    assert 'U' !in s[1..] by {
      forall j | 0 <= j < |s[1..]|
        ensures s[1..][j] != 'U'
      {
        if j >= 8 {
          assert s[1..][j] == digits[j - 8];
        }
      }
    }
    FirstCharAbsent(s[1..], "Unamed");
  }

  /** The scan as evidently intended: the label test of line 49 ("Unnamed"
      spelled right, blank labels skipped) and `count` incremented with every
      name collected. */
  function ExplicitScan(cols: seq<string>, count: nat, numSamples: int): seq<string>
  {
    if |cols| == 0 then []
    else if IsSampleLabel(cols[0]) then
      if count >= numSamples then [] else [cols[0]] + ExplicitScan(cols[1..], count + 1, numSamples)
    else ExplicitScan(cols[1..], count, numSamples)
  }

  function ExplicitNames(numSamples: int, cols: seq<string>): seq<string> {
    ExplicitScan(cols, 0, numSamples)
  }

  /** SampleLabels seen from the front: the first label, if it is a sample
      label, then the sample labels of the rest. */
  lemma {:induction false} SampleLabelsCons(cols: seq<string>)
    requires |cols| > 0
    ensures SampleLabels(cols) == (if IsSampleLabel(cols[0]) then [cols[0]] else []) + SampleLabels(cols[1..])
  {
    if |cols| > 1 {
      var front := cols[..|cols| - 1];
      SampleLabelsCons(front);
      assert front[1..] == cols[1..][..|cols[1..]| - 1];
    }
  }

  /** The corrected branch collects the first `num_samples` sample labels:
      exactly that many when the header has enough. */
  lemma {:induction false} ExplicitNamesFirstN(numSamples: nat, cols: seq<string>)
    ensures numSamples <= |SampleLabels(cols)| ==>
      ExplicitNames(numSamples, cols) == SampleLabels(cols)[..numSamples]
    ensures numSamples > |SampleLabels(cols)| ==>
      ExplicitNames(numSamples, cols) == SampleLabels(cols)
  {
    ExplicitScanFirstN(cols, 0, numSamples);
  }

  lemma {:induction false} ExplicitScanFirstN(cols: seq<string>, count: nat, numSamples: nat)
    requires count <= numSamples
    ensures count + |SampleLabels(cols)| >= numSamples ==>
      ExplicitScan(cols, count, numSamples) == SampleLabels(cols)[..numSamples - count]
    ensures count + |SampleLabels(cols)| < numSamples ==>
      ExplicitScan(cols, count, numSamples) == SampleLabels(cols)
  {
    if |cols| > 0 {
      SampleLabelsCons(cols);
      if !IsSampleLabel(cols[0]) {
        ExplicitScanFirstN(cols[1..], count, numSamples);
      } else if count < numSamples {
        ExplicitScanFirstN(cols[1..], count + 1, numSamples);
      }
    }
  }

  // ---------------------------------------------------------------------------
  // Lines 46-64

  /** The sample names lines 46-59 are meant to give for a given value of
      `num_samples`: auto-detection for 0, and none for a negative count
      (neither branch runs). For a positive count it uses the corrected
      explicit scan, ExplicitNames, rather than the scan as written,
      ExplicitNamesAsWritten; the program itself only ever runs the
      auto-detect branch, since `num_samples` stays 0. */
  function IntendedSampleNames(numSamples: int, cols: seq<string>): (names: seq<string>)
    ensures |names| <= |cols|
  {
    if numSamples == 0 then
      DetectedNamesProperties(cols);
      DetectedNames(cols)
    else if numSamples >= 1 then
      ExplicitNamesLength(cols, 0, numSamples);
      ExplicitNames(numSamples, cols)
    else []
  }

  lemma {:induction false} ExplicitNamesLength(cols: seq<string>, count: nat, numSamples: int)
    ensures |ExplicitScan(cols, count, numSamples)| <= |cols|
  {
    if |cols| > 0 {
      ExplicitNamesLength(cols[1..], if IsSampleLabel(cols[0]) then count + 1 else count, numSamples);
    }
  }

  /** `N = len(all_columns) // l - 1` (line 64): floor division, so N + 1 whole
      groups of l columns fit in the header and N + 2 do not; l == 0 raises. */
  function RepeatCount(width: nat, l: nat): (r: Result<int>)
    ensures r.Err? <==> l == 0
    ensures r.Err? ==> r.error == ZeroDivisionError
    ensures r.Ok? ==> l * (r.value + 1) <= width < l * (r.value + 2)
  {
    if l == 0 then Err(ZeroDivisionError)
    else
      var q := width / l;
      assert width == l * q + width % l;
      Ok(q - 1)
  }

  /** In a regular header of B complete blocks, each of 2·l labels, line 64
      gives N = 2B - 1, not B - 1: the index loop tries twice as many blocks
      as there are. */
  lemma RegularRepeatCount(l: nat, blocks: nat)
    requires l >= 1 && blocks >= 1
    ensures RepeatCount(2 * (l * blocks), l) == Ok(2 * blocks - 1)
  {
    var width := 2 * (l * blocks);
    assert width == l * (2 * blocks);
    DivUnique(width, l, 2 * blocks, 0);
  }

  lemma RepeatCountValue(width: nat, l: nat)
    requires l > 0
    ensures RepeatCount(width, l) == Ok(width / l - 1)
  {
  }

  /** With at least one sample named in the header, N is never negative. */
  lemma RepeatCountNonNegative(width: nat, l: nat)
    requires 1 <= l <= width
    ensures RepeatCount(width, l).Ok? && RepeatCount(width, l).value >= 0
  {
  }
}
