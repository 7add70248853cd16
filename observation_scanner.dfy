/**
 * The observation scanner: a left-to-right search of an SDMX generic data message for
 * `ObsDimension value="<period>"/>`, whitespace, `<generic:ObsValue value="<value>"/>`, and the
 * conversion of each match into a (date, number) pair put into an insertion-ordered map.
 */
module ObservationScanner {
  import opened Options
  import opened DecimalText
  import opened Calendar
  import opened Outcomes
  import opened Doubles
  import opened OrderedMaps

  /** The daily pattern captures `\d{4}-\d{2}-\d{2}`, the monthly pattern `\d{4}-\d{2}`. */
  datatype Granularity = Daily | Monthly

  const DimensionOpen: string := "ObsDimension value=\""
  const ValueOpen: string := "<generic:ObsValue value=\""
  const Close: string := "\"/>"

  function PeriodLength(g: Granularity): nat {
    if g == Daily then 10 else 7
  }

  /** The text the first capturing group accepts. */
  predicate IsPeriodText(g: Granularity, t: string) {
    if g == Daily then IsDayText(t) else IsMonthText(t)
  }

  /** The regular-expression class `\s`: space, tab, line feed, vertical tab, form feed, carriage return. */
  predicate IsRegexSpace(c: char) {
    c == ' ' || c == '\t' || c == '\n' || c == 11 as char || c == 12 as char || c == '\r'
  }

  predicate AllSpaces(w: string) {
    forall i :: 0 <= i < |w| ==> IsRegexSpace(w[i])
  }

  /** The text the second capturing group `[^"]*` accepts. */
  predicate NoQuote(v: string) {
    forall i :: 0 <= i < |v| ==> v[i] != '"'
  }

  /** Every character of `s` from `i` up to `j` is whitespace. */
  predicate SpacesBetween(s: string, i: nat, j: nat) {
    forall k :: i <= k < j && k < |s| ==> IsRegexSpace(s[k])
  }

  /** No character of `s` from `i` up to `j` is a quote. */
  predicate NoQuoteBetween(s: string, i: nat, j: nat) {
    forall k :: i <= k < j && k < |s| ==> s[k] != '"'
  }

  lemma SpacesSlice(s: string, i: nat, j: nat)
    requires i <= j <= |s|
    ensures SpacesBetween(s, i, j) <==> AllSpaces(s[i..j])
  {
    assert forall k :: 0 <= k < j - i ==> s[i..j][k] == s[i + k];
  }

  lemma NoQuoteSlice(s: string, i: nat, j: nat)
    requires i <= j <= |s|
    ensures NoQuoteBetween(s, i, j) <==> NoQuote(s[i..j])
  {
    assert forall k :: 0 <= k < j - i ==> s[i..j][k] == s[i + k];
  }

  /** A text the whole pattern matches, given its period, its whitespace and its value. */
  function MatchText(period: string, spaces: string, value: string): string {
    DimensionOpen + period + Close + spaces + ValueOpen + value + Close
  }

  /** The end of the greedy `\s*` that starts at `i`. */
  function SkipSpaces(s: string, i: nat): (j: nat)
    requires i <= |s|
    ensures i <= j <= |s| && SpacesBetween(s, i, j)
    ensures j < |s| ==> !IsRegexSpace(s[j])
    decreases |s| - i
  {
    if i < |s| && IsRegexSpace(s[i]) then SkipSpaces(s, i + 1) else i
  }

  /** The end of the greedy `[^"]*` that starts at `i`: the first quote at or after `i`, or the end of the text. */
  function FindQuote(s: string, i: nat): (j: nat)
    requires i <= |s|
    ensures i <= j <= |s| && NoQuoteBetween(s, i, j)
    ensures j < |s| ==> s[j] == '"'
    decreases |s| - i
  {
    if i < |s| && s[i] != '"' then FindQuote(s, i + 1) else i
  }

  /** One match: where it starts and ends in the text, and its two groups. */
  datatype RawMatch = RawMatch(start: nat, end: nat, period: string, value: string)

  /**
   * The match of the pattern that starts at `p`, if any. The match is unique: `\s*` cannot give
   * back a space since `<` must follow, and `[^"]*` cannot stop before a quote since `"` must follow.
   */
  function MatchAt(s: string, p: nat, g: Granularity): (r: Option<RawMatch>)
    requires p <= |s|
    ensures r.Some? ==> r.value.start == p && p < r.value.end <= |s|
    ensures r.Some? ==> IsPeriodText(g, r.value.period)
  {
    var a := p + |DimensionOpen|;
    var b := a + PeriodLength(g);
    if b + |Close| > |s| || s[p..a] != DimensionOpen || !IsPeriodText(g, s[a..b]) || s[b..b + |Close|] != Close then None
    else
      var c := SkipSpaces(s, b + |Close|);
      var d := c + |ValueOpen|;
      if d > |s| || s[c..d] != ValueOpen then None
      else
        var q := FindQuote(s, d);
        if q + |Close| > |s| || s[q..q + |Close|] != Close then None
        else Some(RawMatch(p, q + |Close|, s[a..b], s[d..q]))
  }

  /** The first half of a match found at `p`: the dimension tag, the period and the closing tag. */
  lemma MatchAtHead(s: string, p: nat, g: Granularity)
    requires p <= |s| && MatchAt(s, p, g).Some?
    ensures var a := p + |DimensionOpen|;
            var b := a + PeriodLength(g);
            b + |Close| <= |s| && s[p..a] == DimensionOpen && s[a..b] == MatchAt(s, p, g).value.period && s[b..b + |Close|] == Close
  {
  }

  /** The second half of a match found at `p`: whitespace, the value tag, the value and the closing tag. */
  lemma MatchAtTail(s: string, p: nat, g: Granularity) returns (c: nat, q: nat)
    requires p <= |s| && MatchAt(s, p, g).Some?
    ensures var i := p + |DimensionOpen| + PeriodLength(g) + |Close|;
            var m := MatchAt(s, p, g).value;
            i <= c && c + |ValueOpen| <= q && q + |Close| == m.end && AllSpaces(s[i..c]) && NoQuote(m.value) &&
            s[c..c + |ValueOpen|] == ValueOpen && s[c + |ValueOpen|..q] == m.value && s[q..m.end] == Close
  {
    var b := p + |DimensionOpen| + PeriodLength(g);
    var i := b + |Close|;
    MatchAtHead(s, p, g);
    c := SkipSpaces(s, i);
    q := FindQuote(s, c + |ValueOpen|);
    assert c + |ValueOpen| <= |s| && s[c..c + |ValueOpen|] == ValueOpen;
    assert q + |Close| <= |s| && s[q..q + |Close|] == Close;
    assert MatchAt(s, p, g).value == RawMatch(p, q + |Close|, s[p + |DimensionOpen|..b], s[c + |ValueOpen|..q]);
    SpacesSlice(s, i, c);
    NoQuoteSlice(s, c + |ValueOpen|, q);
  }

  /** Text read piece by piece from `p` to `e` is the pattern's text. */
  lemma AssembleMatchText(s: string, p: nat, b: nat, i: nat, c: nat, q: nat, e: nat, period: string, value: string)
    requires p + |DimensionOpen| <= b && b + |Close| == i <= c && c + |ValueOpen| <= q && q + |Close| == e <= |s|
    requires s[p..p + |DimensionOpen|] == DimensionOpen && s[p + |DimensionOpen|..b] == period && s[b..i] == Close
    requires s[c..c + |ValueOpen|] == ValueOpen && s[c + |ValueOpen|..q] == value && s[q..e] == Close
    ensures s[p..e] == MatchText(period, s[i..c], value)
  {
    SplitSlice(s, p, q, e);
    SplitSlice(s, p, c + |ValueOpen|, q);
    SplitSlice(s, p, c, c + |ValueOpen|);
    SplitSlice(s, p, i, c);
    SplitSlice(s, p, b, i);
    SplitSlice(s, p, p + |DimensionOpen|, b);
  }

  /** A match found at `p` spans text of the pattern's shape, with the groups in their places. */
  lemma MatchAtSound(s: string, p: nat, g: Granularity)
    requires p <= |s| && MatchAt(s, p, g).Some?
    ensures var m := MatchAt(s, p, g).value;
            IsPeriodText(g, m.period) && NoQuote(m.value) && exists w :: AllSpaces(w) && s[p..m.end] == MatchText(m.period, w, m.value)
  {
    var m := MatchAt(s, p, g).value;
    var b := p + |DimensionOpen| + PeriodLength(g);
    MatchAtHead(s, p, g);
    var c, q := MatchAtTail(s, p, g);
    AssembleMatchText(s, p, b, b + |Close|, c, q, m.end, m.period, m.value);
  }

  /** Text of the pattern's shape read back piece by piece: the period ends at `b`, the whitespace at `c`, the value at `q`. */
  lemma MatchTextPieces(s: string, p: nat, period: string, spaces: string, value: string) returns (b: nat, c: nat, q: nat)
    requires p + |MatchText(period, spaces, value)| <= |s|
    requires s[p..p + |MatchText(period, spaces, value)|] == MatchText(period, spaces, value)
    ensures p + |DimensionOpen| <= b && b + |Close| <= c && c + |ValueOpen| <= q && q + |Close| == p + |MatchText(period, spaces, value)|
    ensures s[p..p + |DimensionOpen|] == DimensionOpen && s[p + |DimensionOpen|..b] == period
    ensures s[b..b + |Close|] == Close && s[b + |Close|..c] == spaces
    ensures s[c..c + |ValueOpen|] == ValueOpen && s[c + |ValueOpen|..q] == value && s[q..q + |Close|] == Close
  {
    var e := p + |MatchText(period, spaces, value)|;
    b := p + |DimensionOpen| + |period|;
    c := b + |Close| + |spaces|;
    var d := c + |ValueOpen|;
    q := d + |value|;
    assert e == q + |Close|;
    SplitAt(s, p, e, DimensionOpen + period + Close + spaces + ValueOpen + value, Close);
    SplitAt(s, p, q, DimensionOpen + period + Close + spaces + ValueOpen, value);
    SplitAt(s, p, d, DimensionOpen + period + Close + spaces, ValueOpen);
    SplitAt(s, p, c, DimensionOpen + period + Close, spaces);
    SplitAt(s, p, b + |Close|, DimensionOpen + period, Close);
    SplitAt(s, p, b, DimensionOpen, period);
  }

  /** Wherever text of the pattern's shape starts, the match at that position is found, with those groups. */
  lemma MatchAtComplete(s: string, p: nat, g: Granularity, period: string, spaces: string, value: string)
    requires IsPeriodText(g, period) && AllSpaces(spaces) && NoQuote(value)
    requires p + |MatchText(period, spaces, value)| <= |s|
    requires s[p..p + |MatchText(period, spaces, value)|] == MatchText(period, spaces, value)
    ensures MatchAt(s, p, g) == Some(RawMatch(p, p + |MatchText(period, spaces, value)|, period, value))
  {
    var b, c, q := PatternPieces(s, p, period, spaces, value);
    assert b == p + |DimensionOpen| + PeriodLength(g);
    MatchAtFromPieces(s, p, g, b, c, q);
  }

  /** Text of the pattern's shape, read the way the greedy scan reads it: the pieces end at `b`, `c` and `q`. */
  lemma PatternPieces(s: string, p: nat, period: string, spaces: string, value: string) returns (b: nat, c: nat, q: nat)
    requires AllSpaces(spaces) && NoQuote(value)
    requires p + |MatchText(period, spaces, value)| <= |s|
    requires s[p..p + |MatchText(period, spaces, value)|] == MatchText(period, spaces, value)
    ensures p + |DimensionOpen| <= b && b + |Close| <= c && c + |ValueOpen| <= q && q + |Close| == p + |MatchText(period, spaces, value)|
    ensures s[p..p + |DimensionOpen|] == DimensionOpen && s[p + |DimensionOpen|..b] == period
    ensures s[b..b + |Close|] == Close && SkipSpaces(s, b + |Close|) == c
    ensures s[c..c + |ValueOpen|] == ValueOpen && FindQuote(s, c + |ValueOpen|) == q
    ensures s[c + |ValueOpen|..q] == value && s[q..q + |Close|] == Close
  {
    b, c, q := MatchTextPieces(s, p, period, spaces, value);
    SpacesSlice(s, b + |Close|, c);
    NoQuoteSlice(s, c + |ValueOpen|, q);
    GreedyEnds(s, b + |Close|, c, q);
  }

  /** The match at `p` assembled from the pattern's pieces found in place: the period ends at `b`. */
  lemma MatchAtFromPieces(s: string, p: nat, g: Granularity, b: nat, c: nat, q: nat)
    requires b == p + |DimensionOpen| + PeriodLength(g) && b + |Close| <= |s|
    requires s[p..p + |DimensionOpen|] == DimensionOpen && IsPeriodText(g, s[p + |DimensionOpen|..b])
    requires s[b..b + |Close|] == Close && SkipSpaces(s, b + |Close|) == c
    requires c + |ValueOpen| <= |s| && s[c..c + |ValueOpen|] == ValueOpen && FindQuote(s, c + |ValueOpen|) == q
    requires q + |Close| <= |s| && s[q..q + |Close|] == Close
    ensures MatchAt(s, p, g) == Some(RawMatch(p, q + |Close|, s[p + |DimensionOpen|..b], s[c + |ValueOpen|..q]))
  {
    assert !(b + |Close| > |s| || s[p..p + |DimensionOpen|] != DimensionOpen || !IsPeriodText(g, s[p + |DimensionOpen|..b]) || s[b..b + |Close|] != Close);
    assert !(c + |ValueOpen| > |s| || s[c..c + |ValueOpen|] != ValueOpen);
  }

  /** The whitespace run ends where the value tag opens, and the value runs up to the closing quote. */
  lemma GreedyEnds(s: string, i: nat, c: nat, q: nat)
    requires i <= c && c + |ValueOpen| <= q && q + |Close| <= |s| && SpacesBetween(s, i, c)
    requires s[c..c + |ValueOpen|] == ValueOpen && NoQuoteBetween(s, c + |ValueOpen|, q) && s[q..q + |Close|] == Close
    ensures SkipSpaces(s, i) == c && FindQuote(s, c + |ValueOpen|) == q
  {
    assert s[c] == s[c..c + |ValueOpen|][0] == '<';
    SpacesEnd(s, i, c);
    assert s[q] == s[q..q + |Close|][0] == '"';
    QuoteEnd(s, c + |ValueOpen|, q);
  }

  /** Adjacent slices make up the slice they span. */
  lemma SplitSlice(s: string, i: nat, j: nat, k: nat)
    requires i <= j <= k <= |s|
    ensures s[i..k] == s[i..j] + s[j..k]
  {
  }

  /** A slice that reads `x + y` is the slice that reads `x` followed by the slice that reads `y`. */
  lemma SplitAt(s: string, i: nat, k: nat, x: string, y: string)
    requires i <= k <= |s| && s[i..k] == x + y
    ensures i + |x| <= k && s[i..i + |x|] == x && s[i + |x|..k] == y
  {
    assert |s[i..k]| == |x| + |y|;
    SplitSlice(s, i, i + |x|, k);
    assert forall n :: 0 <= n < |x| ==> s[i..i + |x|][n] == s[i..k][n] == x[n];
    assert forall n :: 0 <= n < |y| ==> s[i + |x|..k][n] == s[i..k][|x| + n] == y[n];
  }

  lemma {:induction false} SpacesEnd(s: string, i: nat, j: nat)
    requires i <= j < |s| && SpacesBetween(s, i, j) && !IsRegexSpace(s[j])
    ensures SkipSpaces(s, i) == j
    decreases j - i
  {
    if i < j {
      SpacesEnd(s, i + 1, j);
    }
  }

  lemma {:induction false} QuoteEnd(s: string, i: nat, j: nat)
    requires i <= j < |s| && NoQuoteBetween(s, i, j) && s[j] == '"'
    ensures FindQuote(s, i) == j
    decreases j - i
  {
    if i < j {
      QuoteEnd(s, i + 1, j);
    }
  }

  /**
   * `Scanner.findAll(pattern)` from position `p`: the leftmost match, then the leftmost match
   * from where it ends, and so on. Matches come in document order and never overlap.
   */
  function Matches(s: string, g: Granularity, p: nat): (ms: seq<RawMatch>)
    requires p <= |s|
    ensures forall i :: 0 <= i < |ms| ==> p <= ms[i].start < ms[i].end <= |s| && IsPeriodText(g, ms[i].period)
    ensures forall i :: 0 < i < |ms| ==> ms[i - 1].end <= ms[i].start
    decreases |s| - p
  {
    if p == |s| then []
    else
      match MatchAt(s, p, g)
      case Some(m) =>
        var rest := Matches(s, g, m.end);
        var ms := [m] + rest;
        assert forall i :: 0 < i < |ms| ==> ms[i] == rest[i - 1];
        ms
      case None => Matches(s, g, p + 1)
  }

  /** Every reported match is the match of the pattern at its start. */
  lemma {:induction false} MatchesFound(s: string, g: Granularity, p: nat)
    requires p <= |s|
    ensures forall m :: m in Matches(s, g, p) ==> MatchAt(s, m.start, g) == Some(m)
    decreases |s| - p
  {
    if p < |s| {
      var ms := Matches(s, g, p);
      match MatchAt(s, p, g)
      case Some(m) =>
        var rest := Matches(s, g, m.end);
        assert ms == [m] + rest;
        MatchesFound(s, g, m.end);
        assert forall x :: x in ms ==> x == m || x in rest;
      case None =>
        assert ms == Matches(s, g, p + 1);
        MatchesFound(s, g, p + 1);
    }
  }

  /** No match is skipped: every position where the pattern matches lies within a reported match. */
  lemma MatchesLeftmost(s: string, g: Granularity, p: nat, q: nat)
    requires p <= q < |s| && MatchAt(s, q, g).Some?
    ensures exists m :: m in Matches(s, g, p) && m.start <= q < m.end
  {
    var m := CoveringMatch(s, g, p, q);
  }

  /** The reported match that covers position `q`, found by following the scan from `p`. */
  lemma {:induction false} CoveringMatch(s: string, g: Granularity, p: nat, q: nat) returns (m: RawMatch)
    requires p <= q < |s| && MatchAt(s, q, g).Some?
    ensures m in Matches(s, g, p) && m.start <= q < m.end
    decreases |s| - p
  {
    var r := MatchAt(s, p, g);
    if r.Some? {
      var rest := Matches(s, g, r.value.end);
      assert Matches(s, g, p) == [r.value] + rest;
      if q < r.value.end {
        m := r.value;
      } else {
        m := CoveringMatch(s, g, r.value.end, q);
        assert m in [r.value] + rest;
      }
    } else {
      assert p != q;
      assert Matches(s, g, p) == Matches(s, g, p + 1);
      m := CoveringMatch(s, g, p + 1, q);
    }
  }

  /** `LocalDate.parse` of the period group; the monthly parser first appends `-01`. */
  function ObservationKey(m: RawMatch, g: Granularity): (r: Result<LocalDate>)
    requires IsPeriodText(g, m.period)
    ensures g == Daily ==> (r.Ok? <==> ParseIsoDate(m.period).Some?) && (r.Ok? ==> r.value == ParseIsoDate(m.period).value)
    ensures g == Daily && r.Ok? ==> FormatIsoDate(r.value) == m.period
    ensures g == Monthly ==> AllDigits(m.period[..4]) && AllDigits(m.period[5..]) && (r.Ok? <==> 1 <= DigitsValue(m.period[5..]) <= 12)
    ensures g == Monthly && r.Ok? ==> r.value.day == 1
    ensures g == Monthly && r.Ok? ==> r.value == Date(DigitsValue(m.period[..4]), DigitsValue(m.period[5..]), 1)
    ensures r.Err? ==> r.error == DateParse(if g == Daily then m.period else m.period + "-01")
  {
    if g == Daily then
      match ParseIsoDate(m.period)
      case Some(d) => ParseThenFormat(m.period); Ok(d)
      case None => Err(DateParse(m.period))
    else
      match ParseYearMonth(m.period)
      case Some(d) => Ok(d)
      case None => Err(DateParse(m.period + "-01"))
  }

  /** One `put` argument pair: the key is parsed first, then the value with `Double.valueOf`. */
  function ConvertMatch(m: RawMatch, g: Granularity): (r: Result<(LocalDate, DoubleValue)>)
    requires IsPeriodText(g, m.period)
    ensures g == Monthly && r.Ok? ==> r.value.0.day == 1
  {
    match ObservationKey(m, g)
    case Err(e) => Err(e)
    case Ok(key) =>
      match ParseDouble(m.value)
      case None => Err(NumberParse(m.value))
      case Some(v) => Ok((key, v))
  }

  /** A match whose period is the text of a date of a four-digit year, and whose value is a number, converts to that date and number. */
  lemma ConvertDayMatch(m: RawMatch, d: LocalDate)
    requires 0 <= d.year < 10000 && m.period == FormatIsoDate(d) && ParseDouble(m.value).Some?
    ensures IsPeriodText(Daily, m.period)
    ensures ConvertMatch(m, Daily) == Ok((d, ParseDouble(m.value).value))
  {
    FormatThenParse(d);
  }

  /** A match whose period is the year and month of the first day `d`, and whose value is a number, converts to `d` and that number. */
  lemma ConvertMonthMatch(m: RawMatch, d: LocalDate)
    requires 0 <= d.year < 10000 && d.day == 1 && m.period == FormatIsoDate(d)[..7] && ParseDouble(m.value).Some?
    ensures IsPeriodText(Monthly, m.period)
    ensures ConvertMatch(m, Monthly) == Ok((d, ParseDouble(m.value).value))
  {
    var t := FormatIsoDate(d);
    FormatThenParse(d);
    assert m.period[..4] == t[..4] && m.period[5..] == t[5..7];
  }

  /** The conversion of each match in a run. */
  function ConvertEach(ms: seq<RawMatch>, g: Granularity): (cs: seq<Result<(LocalDate, DoubleValue)>>)
    requires forall i :: 0 <= i < |ms| ==> IsPeriodText(g, ms[i].period)
    ensures |cs| == |ms|
  {
    if ms == [] then [] else ConvertEach(ms[..|ms| - 1], g) + [ConvertMatch(ms[|ms| - 1], g)]
  }

  /** The `i`-th conversion is that of the `i`-th match. */
  lemma {:induction false} ConvertEachAt(ms: seq<RawMatch>, g: Granularity, i: nat)
    requires forall j :: 0 <= j < |ms| ==> IsPeriodText(g, ms[j].period)
    requires i < |ms|
    ensures ConvertEach(ms, g)[i] == ConvertMatch(ms[i], g)
  {
    if i < |ms| - 1 {
      var init := ms[..|ms| - 1];
      assert init[i] == ms[i];
      ConvertEachAt(init, g, i);
    }
  }

  /**
   * The (date, number) pairs of a response text, in document order, or the exception of the
   * first match that does not convert: the stream stops at the first exception.
   */
  function Observations(content: string, g: Granularity): Result<seq<(LocalDate, DoubleValue)>> {
    Collect(ConvertEach(Matches(content, g, 0), g))
  }

  /** A run of matches converts exactly when each match does, and then to their pairs in order. */
  lemma ConvertAll(ms: seq<RawMatch>, g: Granularity)
    requires forall i :: 0 <= i < |ms| ==> IsPeriodText(g, ms[i].period)
    ensures Collect(ConvertEach(ms, g)).Ok? <==> forall i :: 0 <= i < |ms| ==> ConvertMatch(ms[i], g).Ok?
    ensures var r := Collect(ConvertEach(ms, g));
            r.Ok? ==> |r.value| == |ms| && forall i :: 0 <= i < |ms| ==> r.value[i] == ConvertMatch(ms[i], g).value
  {
    var cs := ConvertEach(ms, g);
    CollectOk(cs);
    forall i | 0 <= i < |ms| ensures cs[i] == ConvertMatch(ms[i], g) {
      ConvertEachAt(ms, g, i);
    }
  }

  /**
   * A response text parses exactly when every match converts, and then to the converted pairs
   * of its matches, one per match in document order.
   */
  lemma {:induction false} ObservationsOfMatches(content: string, g: Granularity) returns (ms: seq<RawMatch>)
    ensures ms == Matches(content, g, 0)
    ensures Observations(content, g).Ok? <==> forall i :: 0 <= i < |ms| ==> ConvertMatch(ms[i], g).Ok?
    ensures Observations(content, g).Ok? ==>
              |Observations(content, g).value| == |ms| &&
              forall i :: 0 <= i < |ms| ==> Observations(content, g).value[i] == ConvertMatch(ms[i], g).value
  {
    ms := Matches(content, g, 0);
    assert Observations(content, g) == Collect(ConvertEach(ms, g));
    ConvertAll(ms, g);
  }

  /**
   * `parseDayValues` / `parseMonthValues`: every match, in document order, is put into a new
   * `LinkedHashMap`; the first key or value that does not parse ends the parse with its exception.
   */
  method ParseValues(content: string, g: Granularity) returns (r: Result<LinkedMap<LocalDate, DoubleValue>>)
    ensures r.Err? <==> Observations(content, g).Err?
    ensures r.Err? ==> r.error == Observations(content, g).error
    ensures r.Ok? ==> fresh(r.value) && r.value.Valid() && r.value.Entries() == PutEntries([], Observations(content, g).value)
  {
    var ms := Matches(content, g, 0);
    r := PutMatches(ms, g);
  }

  /** The loop of the parsers: convert each match in turn and put its pair into the map. */
  method PutMatches(ms: seq<RawMatch>, g: Granularity) returns (r: Result<LinkedMap<LocalDate, DoubleValue>>)
    requires forall i :: 0 <= i < |ms| ==> IsPeriodText(g, ms[i].period)
    ensures r.Err? <==> Collect(ConvertEach(ms, g)).Err?
    ensures r.Err? ==> r.error == Collect(ConvertEach(ms, g)).error
    ensures r.Ok? ==> fresh(r.value) && r.value.Valid() && r.value.Entries() == PutEntries([], Collect(ConvertEach(ms, g)).value)
  {
    var results := new LinkedMap<LocalDate, DoubleValue>();
    ghost var cs := ConvertEach(ms, g);
    ghost var pairs: seq<(LocalDate, DoubleValue)> := [];
    var i := 0;
    while i < |ms|
      invariant 0 <= i <= |ms|
      invariant fresh(results) && results.Valid()
      invariant Collect(cs[..i]) == Ok(pairs)
      invariant results.Entries() == PutEntries([], pairs)
    {
      var failure;
      failure, pairs := PutMatch(results, ms, g, i, pairs);
      if failure.Some? {
        return Err(failure.value);
      }
      i := i + 1;
    }
    assert cs[..i] == cs;
    return Ok(results);
  }

  /**
   * One turn of the parsers' loop: convert match `i` and put its pair into `results`, which holds
   * the pairs of the matches before it; the exception, if the conversion throws one.
   */
  method PutMatch(results: LinkedMap<LocalDate, DoubleValue>, ms: seq<RawMatch>, g: Granularity, i: nat,
                  ghost pairs: seq<(LocalDate, DoubleValue)>)
    returns (failure: Option<Error>, ghost pairs': seq<(LocalDate, DoubleValue)>)
    requires i < |ms| && forall j :: 0 <= j < |ms| ==> IsPeriodText(g, ms[j].period)
    requires results.Valid() && Collect(ConvertEach(ms, g)[..i]) == Ok(pairs) && results.Entries() == PutEntries([], pairs)
    modifies results
    ensures results.Valid()
    ensures failure.Some? ==> Collect(ConvertEach(ms, g)) == Err(failure.value)
    ensures failure.None? ==> Collect(ConvertEach(ms, g)[..i + 1]) == Ok(pairs') && results.Entries() == PutEntries([], pairs')
  {
    ghost var cs := ConvertEach(ms, g);
    var c := ConvertMatch(ms[i], g);
    ConvertEachAt(ms, g, i);
    if c.Err? {
      CollectAfterPrefix(cs, i);
      return Some(c.error), pairs;
    }
    CollectPrefixStep(cs, i);
    results.Put(c.value.0, c.value.1);
    PutEntriesSnoc([], pairs, c.value.0, c.value.1);
    return None, pairs + [c.value];
  }

  /** Every key of the monthly parser's map is the first day of its month. */
  lemma MonthKeysAreFirstDays(content: string)
    requires Observations(content, Monthly).Ok?
    ensures forall k: LocalDate :: k in KeysOf(PutEntries([], Observations(content, Monthly).value)) ==> k.day == 1
  {
    var obs := Observations(content, Monthly).value;
    ConvertedMonthsAreFirstDays(Matches(content, Monthly, 0));
    PutEntriesKeyOrder(obs);
    forall k: LocalDate | k in KeysOf(obs) ensures k.day == 1 {
      var i :| 0 <= i < |obs| && KeysOf(obs)[i] == k;
    }
  }

  /** Each pair converted from monthly matches has the first day of its month as its key. */
  lemma ConvertedMonthsAreFirstDays(ms: seq<RawMatch>)
    requires forall j :: 0 <= j < |ms| ==> IsPeriodText(Monthly, ms[j].period)
    requires Collect(ConvertEach(ms, Monthly)).Ok?
    ensures var obs := Collect(ConvertEach(ms, Monthly)).value;
            forall i :: 0 <= i < |obs| ==> obs[i].0.day == 1
  {
    var cs := ConvertEach(ms, Monthly);
    CollectOk(cs);
    forall i | 0 <= i < |cs|
      ensures Collect(cs).value[i].0.day == 1
    {
      ConvertEachAt(ms, Monthly, i);
    }
  }

  /**
   * A captured value that `Double.valueOf` rejects, such as the empty value `[^"]*` admits, makes
   * the whole parse fail; when every earlier match converts and its own period parses, the
   * failure is that value's `NumberFormatException`.
   */
  lemma UnparsableValueFails(content: string, g: Granularity, i: nat)
    requires i < |Matches(content, g, 0)| && ParseDouble(Matches(content, g, 0)[i].value).None?
    ensures Observations(content, g).Err?
    ensures var ms := Matches(content, g, 0);
            (forall j :: 0 <= j < i ==> ConvertMatch(ms[j], g).Ok?) && ObservationKey(ms[i], g).Ok? ==>
            Observations(content, g) == Err(NumberParse(ms[i].value))
  {
    var ms := Matches(content, g, 0);
    var cs := ConvertEach(ms, g);
    ConvertEachAt(ms, g, i);
    CollectOk(cs);
    if (forall j :: 0 <= j < i ==> ConvertMatch(ms[j], g).Ok?) && ObservationKey(ms[i], g).Ok? {
      forall j | 0 <= j < i ensures cs[j].Ok? {
        ConvertEachAt(ms, g, j);
      }
      CollectFirstError(cs, i);
    }
  }

  /** In particular an empty value makes the parse fail. */
  lemma EmptyValueFails(content: string, g: Granularity, i: nat)
    requires i < |Matches(content, g, 0)| && Matches(content, g, 0)[i].value == ""
    ensures Observations(content, g).Err?
  {
    EmptyIsNotANumber();
    UnparsableValueFails(content, g, i);
  }
}
