/**
 * The HICP inflation series: the monthly index values from the first month asked for onwards,
 * each with its month-on-month and year-on-year growth factors when asked for, computed from the
 * index values of the previous month and of the same month a year before.
 */
module Inflation {
  import opened Options
  import opened DecimalText
  import opened Calendar
  import opened Outcomes
  import opened Doubles
  import opened OrderedMaps

  /**
   * `InflationResponse(cpi, momGrowthFactor, yoyGrowthFactor)`: a growth factor is a count of
   * millionths (a `BigDecimal` of scale 6), `None` where the response holds null.
   */
  datatype InflationResponse = InflationResponse(index: real, momGrowth: Option<int>, yoyGrowth: Option<int>)

  /** Which growth factors the request asks for (`CALCULATE_MOM_GROWTH`, `CALCULATE_YOY_GROWTH`). */
  datatype GrowthOptions = GrowthOptions(mom: bool, yoy: bool)

  /** The first month fetched: a year back for year-on-year factors, a month back for month-on-month ones. */
  function ExtendedStart(start: LocalDate, opts: GrowthOptions): (r: LocalDate)
    ensures MonthIndex(r) == MonthIndex(start) - (if opts.yoy then 12 else if opts.mom then 1 else 0)
    ensures start.day == 1 ==> r.day == 1
  {
    if opts.yoy then MinusMonths(start, 12)
    else if opts.mom then MinusMonths(start, 1)
    else start
  }

  /** The fetched window reaches back far enough for the baseline of every month reported. */
  lemma ExtendedStartCoversBaselines(start: LocalDate, opts: GrowthOptions, month: LocalDate)
    requires start.day == 1 && !Before(month, start)
    ensures opts.yoy ==> !Before(MinusMonths(month, 12), ExtendedStart(start, opts))
    ensures opts.mom ==> !Before(MinusMonths(month, 1), ExtendedStart(start, opts))
  {
    NotBeforeFirstOfMonth(month, start);
    var ext := ExtendedStart(start, opts);
    if opts.yoy {
      NotBeforeFirstOfMonth(MinusMonths(month, 12), ext);
    }
    if opts.mom {
      NotBeforeFirstOfMonth(MinusMonths(month, 1), ext);
    }
  }

  /**
   * The growth factor of `index` over the index value of month `baseline`: a month missing from
   * the series is a `NullPointerException` (unboxing null), a value that is not finite a
   * `NumberFormatException`, a zero baseline an `ArithmeticException`.
   */
  function GrowthFactor(cpi: seq<(LocalDate, DoubleValue)>, index: real, baseline: LocalDate): Result<int> {
    match Lookup(cpi, baseline)
    case None => Err(MissingBaseline(baseline))
    case Some(v) =>
      match ToDecimal(v)
      case Err(e) => Err(e)
      case Ok(b) => DivideHalfUp(index, b)
  }

  /** The response of month `key` with index value `value`: the year-on-year factor is computed before the month-on-month one. */
  function InflationEntry(cpi: seq<(LocalDate, DoubleValue)>, key: LocalDate, value: DoubleValue, opts: GrowthOptions): Result<InflationResponse> {
    match ToDecimal(value)
    case Err(e) => Err(e)
    case Ok(index) =>
      var yoy := if opts.yoy then GrowthFactor(cpi, index, MinusMonths(key, 12)) else Ok(0);
      if yoy.Err? then Err(yoy.error)
      else
        var mom := if opts.mom then GrowthFactor(cpi, index, MinusMonths(key, 1)) else Ok(0);
        if mom.Err? then Err(mom.error)
        else Ok(InflationResponse(index, if opts.mom then Some(mom.value) else None, if opts.yoy then Some(yoy.value) else None))
  }

  /** A baseline that yields a growth factor: present, finite and not zero. */
  predicate UsableBaseline(cpi: seq<(LocalDate, DoubleValue)>, baseline: LocalDate) {
    var v := Lookup(cpi, baseline);
    v.Some? && v.value.Finite? && v.value.value != 0.0
  }

  /** The factor HALF_UP rounds `index / base` to, at six fraction digits. */
  predicate IsGrowthFactor(g: int, index: real, base: real)
    requires base != 0.0
  {
    RoundsHalfUpTo(index / base * 1000000.0, g)
  }

  /**
   * A month's response succeeds exactly when its value is finite and each growth factor asked
   * for has a usable baseline; it then carries the value and exactly the factors asked for.
   */
  lemma InflationEntryOk(cpi: seq<(LocalDate, DoubleValue)>, key: LocalDate, value: DoubleValue, opts: GrowthOptions)
    ensures InflationEntry(cpi, key, value, opts).Ok? <==>
            value.Finite? && (opts.yoy ==> UsableBaseline(cpi, MinusMonths(key, 12))) && (opts.mom ==> UsableBaseline(cpi, MinusMonths(key, 1)))
    ensures var r := InflationEntry(cpi, key, value, opts);
            r.Ok? ==> r.value.index == value.value && (r.value.yoyGrowth.Some? <==> opts.yoy) && (r.value.momGrowth.Some? <==> opts.mom)
  {
    assert Pow10(GrowthScale) == 1000000;
  }

  /** Each growth factor is the index over its baseline, rounded HALF_UP to six digits. */
  lemma InflationEntryGrowth(cpi: seq<(LocalDate, DoubleValue)>, key: LocalDate, value: DoubleValue, opts: GrowthOptions)
    requires InflationEntry(cpi, key, value, opts).Ok?
    ensures var r := InflationEntry(cpi, key, value, opts).value;
            var year, month := Lookup(cpi, MinusMonths(key, 12)), Lookup(cpi, MinusMonths(key, 1));
            (opts.yoy ==> year.Some? && year.value.Finite? && year.value.value != 0.0 &&
                          IsGrowthFactor(r.yoyGrowth.value, value.value, year.value.value)) &&
            (opts.mom ==> month.Some? && month.value.Finite? && month.value.value != 0.0 &&
                          IsGrowthFactor(r.momGrowth.value, value.value, month.value.value))
  {
    assert Pow10(GrowthScale) == 1000000;
  }

  /** A missing baseline ends the computation with that month's `NullPointerException`, the year-on-year one first. */
  lemma MissingBaselineFails(cpi: seq<(LocalDate, DoubleValue)>, key: LocalDate, value: DoubleValue, opts: GrowthOptions)
    requires value.Finite?
    ensures opts.yoy && MinusMonths(key, 12) !in KeysOf(cpi) ==>
            InflationEntry(cpi, key, value, opts) == Err(MissingBaseline(MinusMonths(key, 12)))
    ensures opts.mom && MinusMonths(key, 1) !in KeysOf(cpi) && (opts.yoy ==> UsableBaseline(cpi, MinusMonths(key, 12))) ==>
            InflationEntry(cpi, key, value, opts) == Err(MissingBaseline(MinusMonths(key, 1)))
  {
  }

  /** The entries of the series that are not before the first month asked for, in order. */
  function Selected(es: seq<(LocalDate, DoubleValue)>, start: LocalDate): seq<(LocalDate, DoubleValue)> {
    if es == [] then []
    else
      var n := |es| - 1;
      Selected(es[..n], start) + if Before(es[n].0, start) then [] else [es[n]]
  }

  /** One more entry: it is selected exactly when it is not before the first month. */
  lemma SelectedStep(es: seq<(LocalDate, DoubleValue)>, start: LocalDate, i: nat)
    requires i < |es|
    ensures Selected(es[..i + 1], start) == Selected(es[..i], start) + if Before(es[i].0, start) then [] else [es[i]]
  {
    assert es[..i + 1][..i] == es[..i];
  }

  /** The selected entries are the entries not before the first month. */
  lemma {:induction false} SelectedMembers(es: seq<(LocalDate, DoubleValue)>, start: LocalDate)
    ensures forall x :: x in Selected(es, start) <==> x in es && !Before(x.0, start)
  {
    if es != [] {
      var n := |es| - 1;
      SelectedMembers(es[..n], start);
      assert es == es[..n] + [es[n]];
    }
  }

  /** ... kept in the order of the series. */
  lemma {:induction false} SelectedSubsequence(es: seq<(LocalDate, DoubleValue)>, start: LocalDate)
    ensures IsSubsequence(Selected(es, start), es)
  {
    if es != [] {
      var n := |es| - 1;
      SelectedSubsequence(es[..n], start);
      assert es[..n] + [es[n]] == es;
      if Before(es[n].0, start) {
        assert Selected(es, start) == Selected(es[..n], start);
        SubsequenceAppendRight(Selected(es[..n], start), es[..n], es[n]);
      } else {
        SubsequenceAppendBoth(Selected(es[..n], start), es[..n], es[n]);
      }
    }
  }

  /** The keys selected from a prefix of the series are keys of that prefix. */
  lemma SelectedKeys(es: seq<(LocalDate, DoubleValue)>, start: LocalDate)
    ensures forall k :: k in KeysOf(Selected(es, start)) ==> k in KeysOf(es) && !Before(k, start)
  {
    SelectedMembers(es, start);
    forall k | k in KeysOf(Selected(es, start)) ensures k in KeysOf(es) && !Before(k, start) {
      var sel := Selected(es, start);
      var j :| 0 <= j < |sel| && sel[j].0 == k;
      assert sel[j] in sel;
      var i :| 0 <= i < |es| && es[i] == sel[j];
      assert KeysOf(es)[i] == k;
    }
  }

  /** What is selected from a prefix of the series starts what is selected from the whole. */
  lemma {:induction false} SelectedPrefix(es: seq<(LocalDate, DoubleValue)>, start: LocalDate, i: nat)
    requires i <= |es|
    ensures |Selected(es[..i], start)| <= |Selected(es, start)|
    ensures Selected(es, start)[..|Selected(es[..i], start)|] == Selected(es[..i], start)
    decreases |es|
  {
    if i < |es| {
      var n := |es| - 1;
      assert es[..n][..i] == es[..i];
      SelectedPrefix(es[..n], start, i);
    } else {
      assert es[..i] == es;
    }
  }

  /** A month's response, keyed by its month. */
  function Respond(cpi: seq<(LocalDate, DoubleValue)>, e: (LocalDate, DoubleValue), opts: GrowthOptions): (r: Result<(LocalDate, InflationResponse)>)
    ensures r.Ok? ==> r.value.0 == e.0
  {
    match InflationEntry(cpi, e.0, e.1, opts)
    case Err(x) => Err(x)
    case Ok(resp) => Ok((e.0, resp))
  }

  /** The response of each selected month. */
  function RespondEach(cpi: seq<(LocalDate, DoubleValue)>, sel: seq<(LocalDate, DoubleValue)>, opts: GrowthOptions): (rs: seq<Result<(LocalDate, InflationResponse)>>)
    ensures |rs| == |sel|
  {
    if sel == [] then [] else RespondEach(cpi, sel[..|sel| - 1], opts) + [Respond(cpi, sel[|sel| - 1], opts)]
  }

  lemma {:induction false} RespondEachAt(cpi: seq<(LocalDate, DoubleValue)>, sel: seq<(LocalDate, DoubleValue)>, opts: GrowthOptions, i: nat)
    requires i < |sel|
    ensures RespondEach(cpi, sel, opts)[i] == Respond(cpi, sel[i], opts)
  {
    if i < |sel| - 1 {
      assert sel[..|sel| - 1][i] == sel[i];
      RespondEachAt(cpi, sel[..|sel| - 1], opts, i);
    }
  }

  lemma {:induction false} RespondEachPrefix(cpi: seq<(LocalDate, DoubleValue)>, sel: seq<(LocalDate, DoubleValue)>, opts: GrowthOptions, k: nat)
    requires k <= |sel|
    ensures RespondEach(cpi, sel[..k], opts) == RespondEach(cpi, sel, opts)[..k]
    decreases |sel|
  {
    if k < |sel| {
      var n := |sel| - 1;
      assert sel[..n][..k] == sel[..k];
      RespondEachPrefix(cpi, sel[..n], opts, k);
    } else {
      assert sel[..k] == sel;
    }
  }

  /**
   * The inflation series computed from the index series `cpi`: the responses of the months not
   * before `start`, in the order of `cpi`, or the exception of the first month that fails.
   */
  function Responses(cpi: seq<(LocalDate, DoubleValue)>, start: LocalDate, opts: GrowthOptions): Result<seq<(LocalDate, InflationResponse)>> {
    Collect(RespondEach(cpi, Selected(cpi, start), opts))
  }

  /** A computed series holds, month by month, the response of each selected month. */
  lemma ResponsesShape(cpi: seq<(LocalDate, DoubleValue)>, start: LocalDate, opts: GrowthOptions)
    requires Responses(cpi, start, opts).Ok?
    ensures var r, sel := Responses(cpi, start, opts).value, Selected(cpi, start);
            |r| == |sel| &&
            forall i :: 0 <= i < |r| ==> r[i].0 == sel[i].0 && InflationEntry(cpi, sel[i].0, sel[i].1, opts) == Ok(r[i].1)
  {
    var sel := Selected(cpi, start);
    var rs := RespondEach(cpi, sel, opts);
    CollectOk(rs);
    forall i | 0 <= i < |sel| ensures rs[i] == Respond(cpi, sel[i], opts) {
      RespondEachAt(cpi, sel, opts, i);
    }
  }

  /** The series fails exactly when some selected month fails. */
  lemma ResponsesFail(cpi: seq<(LocalDate, DoubleValue)>, start: LocalDate, opts: GrowthOptions)
    ensures var sel := Selected(cpi, start);
            Responses(cpi, start, opts).Err? <==> exists i :: 0 <= i < |sel| && InflationEntry(cpi, sel[i].0, sel[i].1, opts).Err?
  {
    var sel := Selected(cpi, start);
    var rs := RespondEach(cpi, sel, opts);
    CollectOk(rs);
    if Collect(rs).Err? {
      var i :| 0 <= i < |sel| && rs[i].Err?;
      RespondEachAt(cpi, sel, opts, i);
    } else {
      forall i | 0 <= i < |sel| ensures InflationEntry(cpi, sel[i].0, sel[i].1, opts).Ok? {
        RespondEachAt(cpi, sel, opts, i);
      }
    }
  }

  /**
   * When every index value is finite and not zero and the series holds the baseline months of
   * every month reported, the computation succeeds.
   */
  lemma ResponsesOkWhenComplete(cpi: seq<(LocalDate, DoubleValue)>, start: LocalDate, opts: GrowthOptions)
    requires forall i :: 0 <= i < |cpi| ==> cpi[i].1.Finite? && cpi[i].1.value != 0.0
    requires forall k :: k in KeysOf(Selected(cpi, start)) ==>
               (opts.yoy ==> MinusMonths(k, 12) in KeysOf(cpi)) && (opts.mom ==> MinusMonths(k, 1) in KeysOf(cpi))
    ensures Responses(cpi, start, opts).Ok?
  {
    var sel := Selected(cpi, start);
    SelectedMembers(cpi, start);
    ResponsesFail(cpi, start, opts);
    forall i | 0 <= i < |sel| ensures InflationEntry(cpi, sel[i].0, sel[i].1, opts).Ok? {
      assert sel[i] in sel;
      assert KeysOf(sel)[i] == sel[i].0;
      InflationEntryOk(cpi, sel[i].0, sel[i].1, opts);
      BaselineUsable(cpi, MinusMonths(sel[i].0, 12));
      BaselineUsable(cpi, MinusMonths(sel[i].0, 1));
    }
  }

  /** In a series of finite non-zero values, every month present is a usable baseline. */
  lemma BaselineUsable(cpi: seq<(LocalDate, DoubleValue)>, k: LocalDate)
    requires forall i :: 0 <= i < |cpi| ==> cpi[i].1.Finite? && cpi[i].1.value != 0.0
    ensures k in KeysOf(cpi) ==> UsableBaseline(cpi, k)
  {
    if k in KeysOf(cpi) {
      var v := Lookup(cpi, k).value;
      var i :| 0 <= i < |cpi| && cpi[i] == (k, v);
    }
  }

  /** `cpiResults.get(baseline)` and the growth factor over it. */
  method Growth(cpi: LinkedMap<LocalDate, DoubleValue>, index: real, baseline: LocalDate) returns (r: Result<int>)
    requires cpi.Valid()
    ensures r == GrowthFactor(cpi.Entries(), index, baseline)
  {
    var previous := cpi.Get(baseline);
    if previous.None? {
      return Err(MissingBaseline(baseline));
    }
    var b := ToDecimal(previous.value);
    if b.Err? {
      return Err(b.error);
    }
    r := DivideHalfUp(index, b.value);
  }

  /** The body of the loop for one month not before the first: `BigDecimal.valueOf`, then the factors. */
  method Entry(cpi: LinkedMap<LocalDate, DoubleValue>, key: LocalDate, value: DoubleValue, opts: GrowthOptions) returns (r: Result<InflationResponse>)
    requires cpi.Valid()
    ensures r == InflationEntry(cpi.Entries(), key, value, opts)
  {
    var index := ToDecimal(value);
    if index.Err? {
      return Err(index.error);
    }
    var yoy: Option<int> := None;
    if opts.yoy {
      var g := Growth(cpi, index.value, MinusMonths(key, 12));
      if g.Err? {
        return Err(g.error);
      }
      yoy := Some(g.value);
    }
    var mom: Option<int> := None;
    if opts.mom {
      var g := Growth(cpi, index.value, MinusMonths(key, 1));
      if g.Err? {
        return Err(g.error);
      }
      mom := Some(g.value);
    }
    r := Ok(InflationResponse(index.value, mom, yoy));
  }

  /**
   * The loop over `cpiResults.entrySet()`: months before the first are skipped, the others put
   * into a new `LinkedHashMap` with their response; the first exception ends the computation.
   */
  method ComputeInflation(cpi: LinkedMap<LocalDate, DoubleValue>, start: LocalDate, opts: GrowthOptions)
    returns (r: Result<LinkedMap<LocalDate, InflationResponse>>)
    requires cpi.Valid()
    ensures r.Err? <==> Responses(cpi.Entries(), start, opts).Err?
    ensures r.Err? ==> r.error == Responses(cpi.Entries(), start, opts).error
    ensures r.Ok? ==> fresh(r.value) && r.value.Valid() && r.value.Entries() == Responses(cpi.Entries(), start, opts).value
  {
    ghost var es := cpi.Entries();
    var keys, vals := cpi.keys, cpi.vals;
    var results := new LinkedMap<LocalDate, InflationResponse>();
    var i := 0;
    while i < |keys|
      invariant 0 <= i <= |keys| == |es|
      invariant fresh(results) && results.Valid()
      invariant Collect(RespondEach(es, Selected(es[..i], start), opts)) == Ok(results.Entries())
      invariant results.keys == KeysOf(Selected(es[..i], start))
    {
      var key, value := keys[i], vals[keys[i]];
      assert es[i] == (key, value);
      var failure := RespondTo(cpi, results, key, value, start, opts, es, i);
      if failure.Some? {
        return Err(failure.value);
      }
      i := i + 1;
    }
    assert es[..i] == es;
    assert Collect(RespondEach(es, Selected(es, start), opts)) == Responses(es, start, opts);
    return Ok(results);
  }

  /**
   * One turn of the loop: skip entry `i` if its month is before the first, otherwise compute its
   * response and put it into `results`; the exception, if one is thrown.
   */
  method RespondTo(cpi: LinkedMap<LocalDate, DoubleValue>, results: LinkedMap<LocalDate, InflationResponse>,
                   key: LocalDate, value: DoubleValue, start: LocalDate, opts: GrowthOptions,
                   ghost es: seq<(LocalDate, DoubleValue)>, ghost i: nat)
    returns (failure: Option<Error>)
    requires cpi.Valid() && cpi.Entries() == es && i < |es| && es[i] == (key, value) && results.Valid()
    requires Collect(RespondEach(es, Selected(es[..i], start), opts)) == Ok(results.Entries())
    requires results.keys == KeysOf(Selected(es[..i], start))
    modifies results
    ensures results.Valid()
    ensures failure.Some? ==> Responses(es, start, opts) == Err(failure.value)
    ensures failure.None? ==> Collect(RespondEach(es, Selected(es[..i + 1], start), opts)) == Ok(results.Entries()) &&
                              results.keys == KeysOf(Selected(es[..i + 1], start))
  {
    SelectedStep(es, start, i);
    if !Before(key, start) {
      KeyIsNew(es, start, i);
      ghost var sel := Selected(es[..i], start);
      failure := PutResponse(cpi, results, key, value, opts, es, sel);
      if failure.Some? {
        ResponsesAfterFailure(es, start, opts, i + 1);
        return;
      }
      KeysOfSnoc(sel, es[i]);
    } else {
      assert Selected(es[..i + 1], start) == Selected(es[..i], start);
      failure := None;
    }
  }

  /**
   * One month not before the first: compute its response and put it into `results`, which holds
   * the responses of the months `sel` selected before it; the exception, if one is thrown.
   */
  method PutResponse(cpi: LinkedMap<LocalDate, DoubleValue>, results: LinkedMap<LocalDate, InflationResponse>,
                     key: LocalDate, value: DoubleValue, opts: GrowthOptions,
                     ghost es: seq<(LocalDate, DoubleValue)>, ghost sel: seq<(LocalDate, DoubleValue)>)
    returns (failure: Option<Error>)
    requires cpi.Valid() && cpi.Entries() == es && results.Valid()
    requires Collect(RespondEach(es, sel, opts)) == Ok(results.Entries()) && key !in results.keys
    modifies results
    ensures results.Valid()
    ensures failure.Some? ==> Collect(RespondEach(es, sel + [(key, value)], opts)) == Err(failure.value)
    ensures failure.None? ==> Collect(RespondEach(es, sel + [(key, value)], opts)) == Ok(results.Entries()) &&
                              results.keys == old(results.keys) + [key]
  {
    var entry := Entry(cpi, key, value, opts);
    RespondEachSnoc(es, sel, (key, value), opts);
    CollectSnoc(RespondEach(es, sel, opts), Respond(es, (key, value), opts));
    if entry.Err? {
      return Some(entry.error);
    }
    results.Put(key, entry.value);
    failure := None;
  }

  /** The responses of one more selected month. */
  lemma RespondEachSnoc(cpi: seq<(LocalDate, DoubleValue)>, sel: seq<(LocalDate, DoubleValue)>, e: (LocalDate, DoubleValue), opts: GrowthOptions)
    ensures RespondEach(cpi, sel + [e], opts) == RespondEach(cpi, sel, opts) + [Respond(cpi, e, opts)]
  {
    assert (sel + [e])[..|sel|] == sel;
  }

  /** Once the months of a prefix of the series fail, the whole computation fails with that error. */
  lemma ResponsesAfterFailure(es: seq<(LocalDate, DoubleValue)>, start: LocalDate, opts: GrowthOptions, i: nat)
    requires i <= |es| && Collect(RespondEach(es, Selected(es[..i], start), opts)).Err?
    ensures Responses(es, start, opts) == Collect(RespondEach(es, Selected(es[..i], start), opts))
  {
    var sel, part := Selected(es, start), Selected(es[..i], start);
    SelectedPrefix(es, start, i);
    RespondEachPrefix(es, sel, opts, |part|);
    CollectErrPrefix(RespondEach(es, sel, opts), |part|);
  }

  /** Each month reported is a month of the index series, not before the start. */
  lemma ResponsesKeys(cpi: seq<(LocalDate, DoubleValue)>, start: LocalDate, opts: GrowthOptions)
    requires Responses(cpi, start, opts).Ok?
    ensures forall k: LocalDate :: k in KeysOf(Responses(cpi, start, opts).value) ==> k in KeysOf(cpi) && !Before(k, start)
  {
    var r, sel := Responses(cpi, start, opts).value, Selected(cpi, start);
    ResponsesShape(cpi, start, opts);
    SelectedKeys(cpi, start);
    forall k: LocalDate | k in KeysOf(r) ensures k in KeysOf(cpi) && !Before(k, start) {
      var i :| 0 <= i < |r| && KeysOf(r)[i] == k;
      assert KeysOf(sel)[i] == k;
    }
  }

  /** The key of entry `i` of a map's entries is not among the keys selected before it. */
  lemma KeyIsNew(es: seq<(LocalDate, DoubleValue)>, start: LocalDate, i: nat)
    requires DistinctKeys(es) && i < |es|
    ensures es[i].0 !in KeysOf(Selected(es[..i], start))
  {
    SelectedKeys(es[..i], start);
    forall j | 0 <= j < i ensures KeysOf(es[..i])[j] != es[i].0 {
      assert es[..i][j] == es[j];
    }
  }
}
