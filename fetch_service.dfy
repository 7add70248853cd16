/**
 * The fetch service: it checks each request, builds the query URL of the ECB data API, fetches
 * it through the HTTP client, parses the observations and post-processes them (merging equal
 * subsequent deposit facility rates, computing HICP growth factors).
 */
module EcbFetch {
  import opened Options
  import opened Calendar
  import opened Outcomes
  import opened Doubles
  import opened OrderedMaps
  import opened ObservationScanner
  import opened EqualRuns
  import opened Inflation

  /** `FxRequest(quoteCcy, startDayIncl, endDayIncl)`; `None` stands for null. */
  datatype FxRequest = FxRequest(quoteCcy: Option<string>, startDay: Option<LocalDate>, endDay: Option<LocalDate>)

  /** `EqualSubsequentValuesHandling`. */
  datatype EqualValuesHandling = MergeEqualSubsequentValues | DontMergeEqualSubsequentValues

  /** `DepositFacilityRateRequest(startDayIncl, endDayIncl, equalSubsequentValuesHandling)`. */
  datatype DepositFacilityRateRequest = DepositFacilityRateRequest(startDay: Option<LocalDate>, endDay: Option<LocalDate>, handling: Option<EqualValuesHandling>)

  /** `MomGrowthCalculation` and `YoyGrowthCalculation`. */
  datatype MomGrowthCalculation = CalculateMomGrowth | DontCalculateMomGrowth
  datatype YoyGrowthCalculation = CalculateYoyGrowth | DontCalculateYoyGrowth

  /** `HICPInflationRequest(startDayIncl, endDayIncl, momGrowthCalculation, yoyGrowthCalculation)`. */
  datatype HicpRequest = HicpRequest(startDay: Option<LocalDate>, endDay: Option<LocalDate>,
                                     mom: Option<MomGrowthCalculation>, yoy: Option<YoyGrowthCalculation>)

  const BaseUrl: string := "https://data-api.ecb.europa.eu/service/data"
  const DepositFacilityRatePath: string := "/FM/D.U2.EUR.4F.KR.DFR.LEV"
  const HicpPath: string := "/ICP/M.U2.N.000000.4.INX"

  /** The series of daily reference rates of `quoteCcy` against the euro. */
  function FxPath(quoteCcy: string): string {
    "/EXR/D." + quoteCcy + ".EUR.SP00.A"
  }

  /** The query string every request ends with: the window, each end as `LocalDate.toString` writes it. */
  function PeriodQuery(start: LocalDate, end: LocalDate): string {
    "startPeriod=" + FormatIsoDate(start) + "&endPeriod=" + FormatIsoDate(end) + "&detail=dataonly"
  }

  function QueryUrl(path: string, start: LocalDate, end: LocalDate): string {
    BaseUrl + path + "?" + PeriodQuery(start, end)
  }

  /** For four-digit years the window can be read back from the query string: both dates parse to themselves. */
  lemma PeriodQueryRoundTrip(start: LocalDate, end: LocalDate)
    requires 0 <= start.year < 10000 && 0 <= end.year < 10000
    ensures var q := PeriodQuery(start, end);
            |q| == 59 && IsDayText(q[12..22]) && IsDayText(q[33..43]) &&
            ParseIsoDate(q[12..22]) == Some(start) && ParseIsoDate(q[33..43]) == Some(end)
  {
    FormatThenParse(start);
    FormatThenParse(end);
    var q := PeriodQuery(start, end);
    var a, b := FormatIsoDate(start), FormatIsoDate(end);
    assert q == "startPeriod=" + a + "&endPeriod=" + b + "&detail=dataonly";
    assert q[12..22] == a && q[33..43] == b;
  }

  /** `requireNonNullElseGet(endDayIncl, LocalDate::now)`: the clock reading is the parameter `today`. */
  function EndOrToday(end: Option<LocalDate>, today: LocalDate): (r: LocalDate)
    ensures end.Some? ==> r == end.value
    ensures end.None? ==> r == today
  {
    if end.Some? then end.value else today
  }

  /** `HttpClientFacade.Response(status, body)`, or the transport's `IOException`. */
  datatype Reply = Response(status: int, body: string) | IoFailure

  /** `fetchRaw`: a 2xx status yields the body; any other status, or a transport failure, is an `UncheckedIOException`. */
  function CheckStatus(reply: Reply): (r: Result<string>)
    ensures r.Ok? <==> reply.Response? && 200 <= reply.status <= 299
    ensures r.Ok? ==> r.value == reply.body
    ensures reply.IoFailure? ==> r == Err(TransportFailure)
    ensures reply.Response? && r.Err? ==> r == Err(UnexpectedStatus(reply.status))
  {
    match reply
    case IoFailure => Err(TransportFailure)
    case Response(status, body) => if 200 <= status <= 299 then Ok(body) else Err(UnexpectedStatus(status))
  }

  /** The entries of the map a response parses into, or the exception that ends the parse. */
  function Fetched(reply: Reply, g: Granularity): Result<seq<(LocalDate, DoubleValue)>> {
    match CheckStatus(reply)
    case Err(e) => Err(e)
    case Ok(body) =>
      match Observations(body, g)
      case Err(e) => Err(e)
      case Ok(obs) => Ok(PutEntries([], obs))
  }

  /** A fetched series holds each date once, in the order of its first observation, with the value of its last one. */
  lemma FetchedIsMap(reply: Reply, g: Granularity)
    requires Fetched(reply, g).Ok?
    ensures var obs := Observations(CheckStatus(reply).value, g).value;
            var es := Fetched(reply, g).value;
            KeysOf(es) == FirstOccurrences(KeysOf(obs)) &&
            forall k :: Lookup(es, k) == LastValue(obs, k)
  {
    var obs := Observations(CheckStatus(reply).value, g).value;
    PutEntriesKeyOrder(obs);
    forall k ensures Lookup(PutEntries([], obs), k) == LastValue(obs, k) {
      PutEntriesLastValue(obs, k);
    }
  }

  /**
   * The checks `fetch(FxRequest)` makes before any request, and the URL it then fetches: a missing
   * currency is reported before the currency is compared with EUR, and both before a missing start.
   */
  function FxQuery(req: FxRequest, today: LocalDate): (r: Result<string>)
    ensures r.Ok? <==> req.quoteCcy.Some? && req.quoteCcy.value != "EUR" && req.startDay.Some?
    ensures req.quoteCcy.None? ==> r == Err(NullArgument(Some("quoteCcy must not be null")))
    ensures req.quoteCcy == Some("EUR") ==> r == Err(IllegalArgument("quotedCcy must not be EUR"))
    ensures req.quoteCcy.Some? && req.quoteCcy.value != "EUR" && req.startDay.None? ==>
            r == Err(NullArgument(Some("startDayIncl must not be null")))
    ensures r.Ok? ==> r.value == BaseUrl + FxPath(req.quoteCcy.value) + "?" +
                                 PeriodQuery(req.startDay.value, if req.endDay.Some? then req.endDay.value else today)
  {
    if req.quoteCcy.None? then Err(NullArgument(Some("quoteCcy must not be null")))
    else if req.quoteCcy.value == "EUR" then Err(IllegalArgument("quotedCcy must not be EUR"))
    else if req.startDay.None? then Err(NullArgument(Some("startDayIncl must not be null")))
    else Ok(QueryUrl(FxPath(req.quoteCcy.value), req.startDay.value, EndOrToday(req.endDay, today)))
  }

  /** The checks `fetch(DepositFacilityRateRequest)` makes before any request, and the URL it then fetches. */
  function DepositFacilityRateQuery(req: DepositFacilityRateRequest, today: LocalDate): (r: Result<string>)
    ensures r.Ok? <==> req.startDay.Some?
    ensures r.Err? ==> r.error == NullArgument(None)
    ensures r.Ok? ==> r.value == BaseUrl + DepositFacilityRatePath + "?" +
                                 PeriodQuery(req.startDay.value, if req.endDay.Some? then req.endDay.value else today)
  {
    if req.startDay.None? then Err(NullArgument(None))
    else Ok(QueryUrl(DepositFacilityRatePath, req.startDay.value, EndOrToday(req.endDay, today)))
  }

  /**
   * What `fetch(HICPInflationRequest)` settles before its request: the first month reported, the
   * factors asked for, the window fetched and its URL.
   */
  datatype HicpPlan = HicpPlan(start: LocalDate, opts: GrowthOptions, queryStart: LocalDate, queryEnd: LocalDate, url: string)

  /**
   * The start moves to the first of its month, the end to the last day of its month; the null
   * checks come in the order start, month-on-month option, year-on-year option.
   */
  function HicpQuery(req: HicpRequest, today: LocalDate): (r: Result<HicpPlan>)
    ensures r.Ok? <==> req.startDay.Some? && req.mom.Some? && req.yoy.Some?
    ensures r.Err? ==> r.error == NullArgument(None)
  {
    if req.startDay.None? || req.mom.None? || req.yoy.None? then Err(NullArgument(None))
    else
      var start := WithFirstDay(req.startDay.value);
      var end := EndOfMonth(EndOrToday(req.endDay, today));
      var opts := GrowthOptions(req.mom.value == CalculateMomGrowth, req.yoy.value == CalculateYoyGrowth);
      var queryStart := ExtendedStart(start, opts);
      Ok(HicpPlan(start, opts, queryStart, end, QueryUrl(HicpPath, queryStart, end)))
  }

  /**
   * The HICP window: the first month reported is the start's month, from its first day; the URL
   * asks from the extended start up to the last day of the end month (today's month when no end
   * is given), which reaches back to every baseline a reported month needs.
   */
  lemma HicpWindow(req: HicpRequest, today: LocalDate, month: LocalDate)
    requires HicpQuery(req, today).Ok?
    ensures var p := HicpQuery(req, today).value;
            p.start.day == 1 && MonthIndex(p.start) == MonthIndex(req.startDay.value) && !Before(req.startDay.value, p.start) &&
            (p.opts.mom <==> req.mom == Some(CalculateMomGrowth)) && (p.opts.yoy <==> req.yoy == Some(CalculateYoyGrowth))
    ensures var p := HicpQuery(req, today).value;
            var asked := if req.endDay.Some? then req.endDay.value else today;
            p.url == BaseUrl + HicpPath + "?" + PeriodQuery(p.queryStart, p.queryEnd) &&
            MonthIndex(p.queryStart) == MonthIndex(req.startDay.value) - (if p.opts.yoy then 12 else if p.opts.mom then 1 else 0) &&
            p.queryStart.day == 1 &&
            p.queryEnd.year == asked.year && p.queryEnd.month == asked.month &&
            p.queryEnd.day == LengthOfMonth(asked.year, asked.month)
    ensures var p := HicpQuery(req, today).value;
            !Before(month, p.start) ==>
              (p.opts.yoy ==> !Before(MinusMonths(month, 12), ExtendedStart(p.start, p.opts))) &&
              (p.opts.mom ==> !Before(MinusMonths(month, 1), ExtendedStart(p.start, p.opts)))
  {
    var p := HicpQuery(req, today).value;
    if !Before(month, p.start) {
      ExtendedStartCoversBaselines(p.start, p.opts, month);
    }
  }

  /** Every month of a computed HICP series is the first of its month, not before the first month asked for. */
  lemma HicpKeys(body: string, start: LocalDate, opts: GrowthOptions)
    requires Observations(body, Monthly).Ok?
    requires Responses(PutEntries([], Observations(body, Monthly).value), start, opts).Ok?
    ensures forall k: LocalDate :: k in KeysOf(Responses(PutEntries([], Observations(body, Monthly).value), start, opts).value) ==>
                          k.day == 1 && !Before(k, start)
  {
    var cpi: seq<(LocalDate, DoubleValue)> := PutEntries([], Observations(body, Monthly).value);
    MonthKeysAreFirstDays(body);
    ResponsesKeys(cpi, start, opts);
    forall k: LocalDate | k in KeysOf(Responses(cpi, start, opts).value) ensures k.day == 1 && !Before(k, start) {
      assert k in KeysOf(cpi);
    }
  }

  /**
   * `HttpClientFacade`: a GET of a URL. The remote service is the fixed function `server`; the
   * client records the URLs it was asked for.
   */
  class HttpClient {
    const server: string -> Reply
    var requests: seq<string>

    constructor (server: string -> Reply)
      ensures this.server == server && requests == []
    {
      this.server := server;
      requests := [];
    }

    /** `doGet(URI.create(url), emptyMap, UTF_8)`. */
    method DoGet(url: string) returns (reply: Reply)
      modifies this
      ensures requests == old(requests) + [url] && reply == server(url)
    {
      requests := requests + [url];
      reply := server(url);
    }
  }

  /** `EcbFetchServiceImpl`. The clock reading `LocalDate.now()` is the parameter `today` of each fetch. */
  class EcbFetchService {
    const http: HttpClient

    constructor (http: HttpClient)
      ensures this.http == http
    {
      this.http := http;
    }

    /** `fetchRaw(url)`. */
    method FetchRaw(url: string) returns (r: Result<string>)
      modifies http
      ensures http.requests == old(http.requests) + [url]
      ensures r == CheckStatus(http.server(url))
    {
      var reply := http.DoGet(url);
      r := CheckStatus(reply);
    }

    /** Fetch and parse a series of granularity `g`: `fetchRaw`, then `parseDayValues` or `parseMonthValues`. */
    method FetchSeries(url: string, g: Granularity) returns (r: Result<LinkedMap<LocalDate, DoubleValue>>)
      modifies http
      ensures http.requests == old(http.requests) + [url]
      ensures r.Err? <==> Fetched(http.server(url), g).Err?
      ensures r.Err? ==> r.error == Fetched(http.server(url), g).error
      ensures r.Ok? ==> fresh(r.value) && r.value.Valid() && r.value.Entries() == Fetched(http.server(url), g).value
    {
      var raw := FetchRaw(url);
      if raw.Err? {
        return Err(raw.error);
      }
      r := ParseValues(raw.value, g);
    }

    /** `fetch(FxRequest)`: the daily reference rates of a currency against the euro. */
    method FetchFx(req: FxRequest, today: LocalDate) returns (r: Result<LinkedMap<LocalDate, DoubleValue>>)
      modifies http
      ensures FxQuery(req, today).Err? ==> r == Err(FxQuery(req, today).error) && http.requests == old(http.requests)
      ensures FxQuery(req, today).Ok? ==>
                var url := FxQuery(req, today).value;
                var series := Fetched(http.server(url), Daily);
                http.requests == old(http.requests) + [url] &&
                (r.Err? <==> series.Err?) && (r.Err? ==> r.error == series.error) &&
                (r.Ok? ==> fresh(r.value) && r.value.Valid() && r.value.Entries() == series.value)
    {
      var query := FxQuery(req, today);
      if query.Err? {
        return Err(query.error);
      }
      r := FetchSeries(query.value, Daily);
    }

    /**
     * `fetch(DepositFacilityRateRequest)`: the deposit facility rate by day. A null handling
     * option is only noticed after the series has been fetched and parsed.
     */
    method FetchDepositFacilityRate(req: DepositFacilityRateRequest, today: LocalDate) returns (r: Result<LinkedMap<LocalDate, DoubleValue>>)
      modifies http
      ensures DepositFacilityRateQuery(req, today).Err? ==> r == Err(NullArgument(None)) && http.requests == old(http.requests)
      ensures DepositFacilityRateQuery(req, today).Ok? ==>
                var url := DepositFacilityRateQuery(req, today).value;
                var series := Fetched(http.server(url), Daily);
                http.requests == old(http.requests) + [url] &&
                (series.Err? ==> r == Err(series.error)) &&
                (series.Ok? && req.handling.None? ==> r == Err(NullArgument(None))) &&
                (series.Ok? && req.handling.Some? ==>
                   r.Ok? && fresh(r.value) && r.value.Valid() &&
                   r.value.Entries() == if req.handling.value == MergeEqualSubsequentValues then CollapseRuns(series.value) else series.value)
    {
      var query := DepositFacilityRateQuery(req, today);
      if query.Err? {
        return Err(query.error);
      }
      r := FetchSeries(query.value, Daily);
      if r.Err? {
        return;
      }
      if req.handling.None? {
        return Err(NullArgument(None));
      }
      if req.handling.value == MergeEqualSubsequentValues {
        EqualRuns.MergeEqualSubsequentValues(r.value);
      }
    }

    /** `fetch(HICPInflationRequest)`: the monthly index with its growth factors. */
    method FetchHicp(req: HicpRequest, today: LocalDate) returns (r: Result<LinkedMap<LocalDate, InflationResponse>>)
      modifies http
      ensures HicpQuery(req, today).Err? ==> r == Err(NullArgument(None)) && http.requests == old(http.requests)
      ensures HicpQuery(req, today).Ok? ==>
                var p := HicpQuery(req, today).value;
                var series := Fetched(http.server(p.url), Monthly);
                http.requests == old(http.requests) + [p.url] &&
                (series.Err? ==> r == Err(series.error)) &&
                (series.Ok? ==>
                   var out := Responses(series.value, p.start, p.opts);
                   (r.Err? <==> out.Err?) && (r.Err? ==> r.error == out.error) &&
                   (r.Ok? ==> fresh(r.value) && r.value.Valid() && r.value.Entries() == out.value))
    {
      var query := HicpQuery(req, today);
      if query.Err? {
        return Err(query.error);
      }
      var p := query.value;
      var cpi := FetchSeries(p.url, Monthly);
      if cpi.Err? {
        return Err(cpi.error);
      }
      r := ComputeInflation(cpi.value, p.start, p.opts);
    }
  }
}
