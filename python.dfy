/** The pieces of Python and pandas semantics that UV-processor.py relies on:
    exceptions as a Result, insertion-ordered dictionaries, `int()` on a float,
    `range()`, `str()` of an int and its inverse, `str.strip`, `in` on strings. */
module Python {

  /** The exceptions the modelled code can raise. */
  datatype PyError =
    | ZeroDivisionError   // `//` with a zero divisor
    | ValueError          // range() with step 0, reductions over nothing, float() of a non-number
    | IndexError          // positional access past the end
    | KeyError            // label lookup of a missing label
    | RuntimeError        // curve_fit giving up without converging
    | TypeError           // curve_fit given fewer data points than parameters

  datatype Result<T> = Ok(value: T) | Err(error: PyError)

  datatype Option<T> = None | Some(value: T)

  // ---------------------------------------------------------------------------
  // Sequences

  function Reverse<T>(s: seq<T>): (r: seq<T>)
    ensures |r| == |s|
    ensures forall i :: 0 <= i < |s| ==> r[i] == s[|s| - 1 - i]
  {
    seq(|s|, i requires 0 <= i < |s| => s[|s| - 1 - i])
  }

  lemma SplitLast<T>(s: seq<T>)
    requires |s| > 0
    ensures s == s[..|s| - 1] + [s[|s| - 1]]
  {
  }

  ghost predicate Distinct<T>(s: seq<T>) {
    forall i, j :: 0 <= i < j < |s| ==> s[i] != s[j]
  }

  // ---------------------------------------------------------------------------
  // Insertion-ordered dictionaries (Python 3.7+ `dict`)

  /** A dict keyed by strings: the keys in insertion order and the key-to-value mapping. */
  datatype Dict<V> = Dict(keys: seq<string>, entries: map<string, V>) {
    ghost predicate Valid() {
      && Distinct(keys)
      && (forall k :: k in entries <==> k in keys)
    }
  }

  function EmptyDict<V>(): (d: Dict<V>)
    ensures d.Valid() && d.keys == []
  {
    Dict([], map[])
  }

  /** `d[k] = v`: a new key goes to the end, an existing key keeps its place. */
  function Put<V>(d: Dict<V>, k: string, v: V): (r: Dict<V>)
    requires d.Valid()
    ensures r.Valid()
    ensures r.entries == d.entries[k := v]
    ensures r.keys == if k in d.entries then d.keys else d.keys + [k]
  {
    if k in d.entries then Dict(d.keys, d.entries[k := v])
    else Dict(d.keys + [k], d.entries[k := v])
  }

  /** A dict filled by `d[keys[k]] = values[k]` for k = 0, 1, ... in turn. */
  function PutAll<V>(keys: seq<string>, values: seq<V>): (d: Dict<V>)
    requires |keys| == |values|
    ensures d.Valid()
  {
    if |keys| == 0 then EmptyDict()
    else Put(PutAll(keys[..|keys| - 1], values[..|keys| - 1]), keys[|keys| - 1], values[|keys| - 1])
  }

  /** Filling one more key is one more `d[k] = v`. */
  lemma PutAllSnoc<V>(keys: seq<string>, values: seq<V>, i: nat)
    requires |keys| == |values| && i < |keys|
    ensures PutAll(keys[..i + 1], values[..i + 1]) == Put(PutAll(keys[..i], values[..i]), keys[i], values[i])
  {
    assert keys[..i + 1][..i] == keys[..i];
    assert values[..i + 1][..i] == values[..i];
  }

  /** With distinct keys nothing is overwritten: the dict lists the keys in
      order and maps each to its own value. */
  lemma {:induction false} PutAllDistinct<V>(keys: seq<string>, values: seq<V>)
    requires |keys| == |values| && Distinct(keys)
    ensures PutAll(keys, values).keys == keys
    ensures forall k :: 0 <= k < |keys| ==> PutAll(keys, values).entries[keys[k]] == values[k]
  {
    if |keys| > 0 {
      var n := |keys| - 1;
      var front, vfront := keys[..n], values[..n];
      DistinctPrefix(keys, n);
      PutAllDistinct(front, vfront);
      LastNotInFront(keys);
      var d := PutAll(front, vfront);
      forall k | 0 <= k < n ensures d.entries[keys[k]] == values[k] {
        assert front[k] == keys[k] && vfront[k] == values[k];
      }
      PutNewLast(d, keys, values);
    }
  }

  /** Putting a new last key after the keys before it, each with its own value. */
  lemma PutNewLast<V>(d: Dict<V>, keys: seq<string>, values: seq<V>)
    requires d.Valid() && |keys| == |values| > 0
    requires d.keys == keys[..|keys| - 1] && keys[|keys| - 1] !in d.keys
    requires forall k :: 0 <= k < |keys| - 1 ==> d.entries[keys[k]] == values[k]
    ensures Put(d, keys[|keys| - 1], values[|keys| - 1]).keys == keys
    ensures forall k :: 0 <= k < |keys| ==> Put(d, keys[|keys| - 1], values[|keys| - 1]).entries[keys[k]] == values[k]
  {
    var n := |keys| - 1;
    var r := Put(d, keys[n], values[n]);
    SplitLast(keys);
    forall k | 0 <= k < n ensures r.entries[keys[k]] == values[k] {
      assert keys[k] == d.keys[k];
    }
  }

  lemma DistinctPrefix<T>(s: seq<T>, n: nat)
    requires Distinct(s) && n <= |s|
    ensures Distinct(s[..n])
  {
  }

  lemma LastNotInFront<T>(s: seq<T>)
    requires Distinct(s) && |s| > 0
    ensures s[|s| - 1] !in s[..|s| - 1]
  {
  }

  /** Every value in the dict is one of the values stored. */
  lemma {:induction false} PutAllValues<V>(keys: seq<string>, values: seq<V>)
    requires |keys| == |values|
    ensures forall key :: key in PutAll(keys, values).entries ==>
      exists k :: 0 <= k < |values| && PutAll(keys, values).entries[key] == values[k]
  {
    if |keys| > 0 {
      var n := |keys| - 1;
      PutAllValues(keys[..n], values[..n]);
      var d := PutAll(keys[..n], values[..n]);
      forall key | key in PutAll(keys, values).entries
        ensures exists k :: 0 <= k < |values| && PutAll(keys, values).entries[key] == values[k]
      {
        if key != keys[n] {
          var k :| 0 <= k < n && d.entries[key] == values[..n][k];
          assert values[..n][k] == values[k];
        }
      }
    }
  }

  /** `dict(reversed(list(d.items())))` */
  function ReversedDict<V>(d: Dict<V>): (r: Dict<V>)
    requires d.Valid()
    ensures r.Valid()
    ensures r.keys == Reverse(d.keys) && r.entries == d.entries
  {
    var r := Dict(Reverse(d.keys), d.entries);
    assert forall k :: k in d.keys <==> k in r.keys by {
      forall k | k in d.keys ensures k in r.keys {
        var i :| 0 <= i < |d.keys| && d.keys[i] == k;
        assert r.keys[|d.keys| - 1 - i] == k;
      }
    }
    r
  }

  // ---------------------------------------------------------------------------
  // int() of a float: truncation toward zero

  function TruncToInt(x: real): (r: int)
    ensures x >= 0.0 ==> 0 <= r && r as real <= x < r as real + 1.0
    ensures x < 0.0 ==> r <= 0 && r as real - 1.0 < x <= r as real
  {
    if x >= 0.0 then x.Floor else -((-x).Floor)
  }

  // ---------------------------------------------------------------------------
  // range(start, stop, step)

  /** The values of `range(t, stop, step)` for a non-zero step. */
  function RangeFrom(t: int, stop: int, step: int): seq<int>
    requires step != 0
    decreases if step > 0 then stop - t else t - stop
  {
    if (step > 0 && t < stop) || (step < 0 && t > stop) then [t] + RangeFrom(t + step, stop, step)
    else []
  }

  /** How many values `range(t, stop, step)` yields: ceil((stop - t) / step), or 0. */
  function RangeCount(t: int, stop: int, step: int): nat
    requires step != 0
  {
    if step > 0 then (if t < stop then (stop - t + step - 1) / step else 0)
    else (if t > stop then (t - stop - step - 1) / (-step) else 0)
  }

  /** `range(start, stop, step)`; a zero step raises ValueError. */
  function Range(start: int, stop: int, step: int): (r: Result<seq<int>>)
    ensures r.Err? <==> step == 0
  {
    if step == 0 then Err(ValueError) else Ok(RangeFrom(start, stop, step))
  }

  /** range(t, stop, step) is the arithmetic progression t, t + step, ... of
      RangeCount elements, all strictly on the start side of `stop`. */
  lemma RangeFromElements(t: int, stop: int, step: int)
    requires step != 0
    ensures |RangeFrom(t, stop, step)| == RangeCount(t, stop, step)
    ensures forall k :: 0 <= k < |RangeFrom(t, stop, step)| ==> RangeFrom(t, stop, step)[k] == t + k * step
    ensures forall k :: 0 <= k < |RangeFrom(t, stop, step)| ==>
      (step > 0 ==> t + k * step < stop) && (step < 0 ==> t + k * step > stop)
  {
    RangeFromLength(t, stop, step);
    RangeFromAt(t, stop, step);
    RangeFromBound(t, stop, step);
    var r := RangeFrom(t, stop, step);
    forall k | 0 <= k < |r|
      ensures (step > 0 ==> t + k * step < stop) && (step < 0 ==> t + k * step > stop)
    {
      assert r[k] in r;
    }
  }

  lemma {:induction false} RangeFromLength(t: int, stop: int, step: int)
    requires step != 0
    ensures |RangeFrom(t, stop, step)| == RangeCount(t, stop, step)
    decreases if step > 0 then stop - t else t - stop
  {
    if (step > 0 && t < stop) || (step < 0 && t > stop) {
      RangeFromLength(t + step, stop, step);
      RangeCountStep(t, stop, step);
    }
  }

  lemma {:induction false} RangeFromAt(t: int, stop: int, step: int)
    requires step != 0
    ensures forall k :: 0 <= k < |RangeFrom(t, stop, step)| ==> RangeFrom(t, stop, step)[k] == t + k * step
    decreases if step > 0 then stop - t else t - stop
  {
    var r := RangeFrom(t, stop, step);
    if (step > 0 && t < stop) || (step < 0 && t > stop) {
      RangeFromAt(t + step, stop, step);
      var rest := RangeFrom(t + step, stop, step);
      assert r == [t] + rest;
      forall k | 0 <= k < |r|
        ensures r[k] == t + k * step
      {
        if k > 0 {
          assert r[k] == rest[k - 1] == t + step + (k - 1) * step;
          MulPred(k, step);
        }
      }
    }
  }

  lemma {:induction false} RangeFromBound(t: int, stop: int, step: int)
    requires step != 0
    ensures forall x :: x in RangeFrom(t, stop, step) ==> (step > 0 ==> x < stop) && (step < 0 ==> x > stop)
    decreases if step > 0 then stop - t else t - stop
  {
    if (step > 0 && t < stop) || (step < 0 && t > stop) {
      RangeFromBound(t + step, stop, step);
    }
  }

  /** Taking one step shortens the remaining range by exactly one value. */
  lemma RangeCountStep(t: int, stop: int, step: int)
    requires (step > 0 && t < stop) || (step < 0 && t > stop)
    ensures RangeCount(t + step, stop, step) + 1 == RangeCount(t, stop, step)
  {
    if step > 0 {
      if t + step < stop {
        DivShift(stop - t + step - 1, step);
      } else {
        DivOne(stop - t + step - 1, step);
      }
    } else {
      if t + step > stop {
        DivShift(t - stop - step - 1, -step);
      } else {
        DivOne(t - stop - step - 1, -step);
      }
    }
  }

  lemma MulPred(k: int, s: int)
    ensures (k - 1) * s == k * s - s
  {
  }

  /** Division is unique: the quotient is the one q with a == q * b + r, 0 <= r < b. */
  lemma DivUnique(a: int, b: int, q: int, r: int)
    requires 0 < b && a == q * b + r && 0 <= r < b
    ensures a / b == q
  {
    var q', r' := a / b, a % b;
    assert a == q' * b + r' && 0 <= r' < b;
    if q' > q {
      MulMonotone(q + 1, q', b);
      MulPred(q + 1, b);
    } else if q' < q {
      MulMonotone(q' + 1, q, b);
      MulPred(q' + 1, b);
    }
  }

  lemma MulMonotone(i: int, j: int, s: int)
    requires i <= j && 0 < s
    ensures i * s <= j * s
  {
  }

  lemma DivShift(a: int, b: int)
    requires 0 < b && b <= a
    ensures (a - b) / b + 1 == a / b
  {
    var q, r := (a - b) / b, (a - b) % b;
    assert a - b == q * b + r;
    MulPred(q + 1, b);
    DivUnique(a, b, q + 1, r);
  }

  lemma DivOne(a: int, b: int)
    requires 0 < b <= a < 2 * b
    ensures a / b == 1
  {
    DivUnique(a, b, 1, a - b);
  }

  /** A range with a non-zero step never repeats a value. */
  lemma RangeDistinct(start: int, stop: int, step: int)
    requires step != 0
    ensures Distinct(RangeFrom(start, stop, step))
  {
    RangeFromElements(start, stop, step);
    var r := RangeFrom(start, stop, step);
    forall i, j | 0 <= i < j < |r| ensures r[i] != r[j] {
      if step > 0 {
        MulStrict(i, j, step);
      } else {
        MulStrict(i, j, -step);
      }
    }
  }

  lemma MulStrict(i: int, j: int, s: int)
    requires i < j && 0 < s
    ensures i * s < j * s
  {
    MulMonotone(i + 1, j, s);
    MulPred(i + 1, s);
  }

  // ---------------------------------------------------------------------------
  // str() of an int and its inverse, int()/float() of a decimal literal

  function DigitChar(d: int): char
    requires 0 <= d < 10
  {
    "0123456789"[d]
  }

  predicate IsDigit(c: char) { '0' <= c <= '9' }

  function DigitValue(c: char): (d: nat)
    requires IsDigit(c)
    ensures d < 10 && DigitChar(d) == c
  {
    (c as int - '0' as int)
  }

  predicate AllDigits(s: string) {
    forall i :: 0 <= i < |s| ==> IsDigit(s[i])
  }

  /** `str(n)` for n >= 0: decimal digits, most significant first, no leading zero. */
  function NatToString(n: nat): (s: string)
    ensures |s| > 0 && AllDigits(s)
    ensures s[0] == '0' ==> n == 0
  {
    if n < 10 then [DigitChar(n)] else NatToString(n / 10) + [DigitChar(n % 10)]
  }

  /** The value of a non-empty run of decimal digits. */
  function DigitsValue(s: string): nat
    requires AllDigits(s)
  {
    if |s| == 0 then 0 else DigitsValue(s[..|s| - 1]) * 10 + DigitValue(s[|s| - 1])
  }

  /** `str(n)` for any int: a minus sign before the digits of |n| when negative. */
  function IntToString(n: int): (s: string)
  {
    if n < 0 then "-" + NatToString(-n) else NatToString(n)
  }

  /** `int(s)` restricted to the literals `-?[0-9]+`; anything else is None. */
  function ParseInt(s: string): Option<int>
  {
    if |s| > 1 && s[0] == '-' && AllDigits(s[1..]) then Some(-(DigitsValue(s[1..]) as int))
    else if |s| > 0 && AllDigits(s) then Some(DigitsValue(s))
    else None
  }

  lemma {:induction false} NatToStringRoundTrip(n: nat)
    ensures DigitsValue(NatToString(n)) == n
  {
    var s := NatToString(n);
    if n >= 10 {
      NatToStringRoundTrip(n / 10);
      assert s[..|s| - 1] == NatToString(n / 10);
    }
  }

  /** Reading back what `str` printed gives the number printed. */
  lemma IntToStringRoundTrip(n: int)
    ensures ParseInt(IntToString(n)) == Some(n)
  {
    if n < 0 {
      NegativeRoundTrip(n);
    } else {
      NonNegativeRoundTrip(n);
    }
  }

  lemma NonNegativeRoundTrip(n: int)
    requires n >= 0
    ensures ParseInt(IntToString(n)) == Some(n)
  {
    var s := NatToString(n);
    NatToStringRoundTrip(n);
    assert IntToString(n) == s && IsDigit(s[0]);
  }

  lemma NegativeRoundTrip(n: int)
    requires n < 0
    ensures ParseInt(IntToString(n)) == Some(n)
  {
    var digits := NatToString(-n);
    var s := "-" + digits;
    assert IntToString(n) == s;
    assert s[1..] == digits;
    NatToStringRoundTrip(-n);
    assert |s| > 1 && s[0] == '-' && AllDigits(s[1..]);
    assert ParseInt(s) == Some(-(DigitsValue(digits) as int));
  }

  /** `str` never prints two ints the same way. */
  lemma IntToStringInjective(m: int, n: int)
    requires IntToString(m) == IntToString(n)
    ensures m == n
  {
    IntToStringRoundTrip(m);
    IntToStringRoundTrip(n);
  }

  // ---------------------------------------------------------------------------
  // Strings

  /** `s.replace(c, "")` for a one-character pattern. */
  function RemoveChar(s: string, c: char): (r: string)
    ensures forall i :: 0 <= i < |r| ==> r[i] != c
    ensures (forall i :: 0 <= i < |s| ==> s[i] != c) ==> r == s
  {
    if |s| == 0 then []
    else if s[0] == c then RemoveChar(s[1..], c)
    else [s[0]] + RemoveChar(s[1..], c)
  }

  /** Removing c from s followed by c is removing it from s. */
  lemma {:induction false} RemoveCharSnoc(s: string, c: char)
    ensures RemoveChar(s + [c], c) == RemoveChar(s, c)
  {
    if |s| > 0 {
      RemoveCharSnoc(s[1..], c);
      assert (s + [c])[1..] == s[1..] + [c];
    }
  }

  /** Python's `str.isspace` on one character. */
  predicate IsSpace(c: char) {
    || ('\U{9}' <= c <= '\U{D}')
    || ('\U{1C}' <= c <= '\U{20}')
    || c == '\U{85}' || c == '\U{A0}' || c == '\U{1680}'
    || ('\U{2000}' <= c <= '\U{200A}')
    || c == '\U{2028}' || c == '\U{2029}' || c == '\U{202F}' || c == '\U{205F}' || c == '\U{3000}'
  }

  function LStrip(s: string): (r: string)
    ensures |r| <= |s| && r == s[|s| - |r|..]
    ensures forall i :: 0 <= i < |s| - |r| ==> IsSpace(s[i])
    ensures r == [] || !IsSpace(r[0])
  {
    if |s| > 0 && IsSpace(s[0]) then LStrip(s[1..]) else s
  }

  function RStrip(s: string): (r: string)
    ensures |r| <= |s| && r == s[..|r|]
    ensures forall i :: |r| <= i < |s| ==> IsSpace(s[i])
    ensures r == [] || !IsSpace(r[|r| - 1])
  {
    if |s| > 0 && IsSpace(s[|s| - 1]) then RStrip(s[..|s| - 1]) else s
  }

  /** `s.strip()` */
  function Strip(s: string): string {
    RStrip(LStrip(s))
  }

  /** `s.strip()` is non-empty (truthy) exactly when s holds a non-whitespace character. */
  lemma StripNonEmpty(s: string)
    ensures Strip(s) != [] <==> exists i :: 0 <= i < |s| && !IsSpace(s[i])
  {
    var l := LStrip(s);
    if Strip(s) != [] {
      var r := Strip(s);
      assert !IsSpace(r[0]);
      assert r[0] == l[0] == s[|s| - |l|];
    } else {
      // Nothing is left after the right strip, so the left strip took everything.
      assert |l| == 0;
    }
  }

  /** `sub in s` */
  predicate Contains(s: string, sub: string)
    decreases |s|
  {
    sub <= s || (|s| > 0 && Contains(s[1..], sub))
  }

  /** `s.endswith(suffix)` */
  predicate EndsWith(s: string, suffix: string) {
    |suffix| <= |s| && s[|s| - |suffix|..] == suffix
  }
}
