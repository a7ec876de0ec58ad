/** `get_weather_forecast`: resolve the extracted intent (target date, city,
    hour) against the clock and the geolocation reply, ask the weather
    provider for enough days, pick exactly the target day and, on request,
    the hourly entries in a window around the hour. The provider and the
    geolocation service are inputs; exceptions the function lets escape are
    `Err` results. */
module ForecastResolution {
  import opened PyValues
  import opened Dates
  import opened IntentExtraction

  /** One entry of a provider day's "hour" list: "time", "temp_c" and the condition's "text". */
  datatype HourEntry = HourEntry(time: Value, tempC: Value, condition: Value)

  /** One element of the provider's "forecastday" list. */
  datatype ProviderDay = ProviderDay(
    date: Value, maxTempC: Value, minTempC: Value, condition: Value, hours: seq<HourEntry>)

  /** The provider's HTTP status and, when it answered, its "forecastday" list. */
  datatype ProviderResponse = ProviderResponse(statusCode: int, days: seq<ProviderDay>)

  /** The weather provider, queried with the city and the number of days. */
  type Provider = (Value, int) -> ProviderResponse

  /** The IP geolocation lookup: it raised, or it returned this decoded JSON body. */
  datatype Geolocation = GeoUnavailable | GeoReply(body: Value)

  /** What `datetime.now()` reads: the local date and hour. */
  datatype Clock = Clock(date: Date, hour: int)

  predicate ValidClock(now: Clock) {
    ValidDate(now.date) && 0 <= now.hour <= 23
  }

  // ---------------------------------------------------------------------
  // Fallbacks: the locals `get_weather_forecast` reads from the intent and replaces

  /** The date the forecast is for: today when "forecast_date" is falsy, else what `strptime` reads. */
  function TargetOf(intent: map<string, Value>, today: Date): (r: Result<Date>)
    requires ValidDate(today)
    ensures r.Ok? ==> ValidDate(r.value)
    ensures !Truthy(Get(intent, "forecast_date")) ==> r == Ok(today)
    ensures r.Err? ==> Truthy(Get(intent, "forecast_date")) && r == ParseDate(intent["forecast_date"])
  {
    var target := Get(intent, "forecast_date");
    if !Truthy(target) then Ok(today) else ParseDate(target)
  }

  /** The string the provider's days are compared with: the extracted one, or today as "YYYY-MM-DD". */
  function TargetString(intent: map<string, Value>, today: Date): (s: Value)
    requires ValidDate(today)
    ensures !Truthy(Get(intent, "forecast_date")) ==> s == Str(Format(today))
    ensures Truthy(Get(intent, "forecast_date")) ==> s == intent["forecast_date"]
  {
    var target := Get(intent, "forecast_date");
    if !Truthy(target) then Str(Format(today)) else target
  }

  /** The string used to select the day reads back as the date used to size the request. */
  lemma TargetStringNamesTarget(intent: map<string, Value>, today: Date)
    requires ValidDate(today)
    ensures TargetOf(intent, today).Ok? ==> ParseDate(TargetString(intent, today)) == TargetOf(intent, today)
  {
    if !Truthy(Get(intent, "forecast_date")) {
      FormatParseRoundTrip(today);
    }
  }

  /** `ip_data.get("city", "Berlin")`, or "Berlin" when the lookup raised; a body that is
      not a dictionary has no `get`, and that AttributeError is caught too. */
  function GeoCity(geo: Geolocation): (city: Value)
    ensures city == Str("Berlin")
            || (geo.GeoReply? && geo.body.Dict? && "city" in geo.body.entries && city == geo.body.entries["city"])
    ensures geo.GeoReply? && geo.body.Dict? && "city" in geo.body.entries ==> city == geo.body.entries["city"]
  {
    match geo
    case GeoReply(Dict(entries)) => if "city" in entries then entries["city"] else Str("Berlin")
    case _ => Str("Berlin")
  }

  /** A truthy extracted city is kept; otherwise the geolocation decides. */
  function ResolvedCity(intent: map<string, Value>, geo: Geolocation): (city: Value)
    ensures Truthy(Get(intent, "city")) ==> city == intent["city"]
    ensures !Truthy(Get(intent, "city")) ==> city == GeoCity(geo)
  {
    var city := Get(intent, "city");
    if !Truthy(city) then GeoCity(geo) else city
  }

  /** Only a missing or null hour is replaced, by the hour two hours from now on a 24-hour dial. */
  function ResolvedHour(intent: map<string, Value>, now: Clock): (hour: Value)
    ensures hour != Null
    ensures Get(intent, "hour") != Null ==> hour == intent["hour"]
    ensures Get(intent, "hour") == Null ==> hour.Int? && 0 <= hour.i <= 23 && hour.i == (now.hour + 2) % 24
  {
    var hour := Get(intent, "hour");
    if hour == Null then Int((now.hour + 2) % 24) else hour
  }

  // ---------------------------------------------------------------------
  // The provider's answer: the status check and the search for the target day

  /** `{"error": message}` */
  function ErrorDict(message: string): (d: map<string, Value>)
    ensures d.Keys == {"error"} && d["error"] == Str(message)
  {
    map["error" := Str(message)]
  }

  const StatusPrefix := "Failed to retrieve weather data, status code "

  /** The message for a provider status other than 200: the fixed prefix, then the code
      written in decimal so that it reads back as the code, then a full stop. */
  function StatusMessage(code: int): (m: string)
    ensures |StatusPrefix| < |m| - 1 && m[..|StatusPrefix|] == StatusPrefix && m[|m| - 1] == '.'
    ensures ReadInt(m[|StatusPrefix|..|m| - 1]) == Some(code)
  {
    var digits := IntToString(code);
    var m := StatusPrefix + digits + ".";
    assert m[|StatusPrefix|..|m| - 1] == digits;
    m
  }

  /** Two statuses give the same message only when they are the same code. */
  lemma StatusMessageDistinct(a: int, b: int)
    ensures StatusMessage(a) == StatusMessage(b) <==> a == b
  {
  }

  const NotFoundMessage := "Forecast for target date not found."

  /** `next((d for d in days if d["date"] == target), None)`, as the index of that day. */
  function FindDay(days: seq<ProviderDay>, target: Value): (r: Option<nat>)
    ensures r.Some? ==> r.value < |days| && days[r.value].date == target
    ensures r.Some? ==> forall k :: 0 <= k < r.value ==> days[k].date != target
    ensures r.None? ==> forall k :: 0 <= k < |days| ==> days[k].date != target
  {
    if days == [] then None
    else if days[0].date == target then Some(0)
    else match FindDay(days[1..], target)
      case None => None
      case Some(i) => Some(i + 1)
  }

  /** The four summary fields of a provider day. */
  function DayDict(day: ProviderDay): (d: map<string, Value>)
    ensures d.Keys == {"date", "max_temp_c", "min_temp_c", "condition"}
    ensures d["date"] == day.date && d["condition"] == day.condition
    ensures d["max_temp_c"] == day.maxTempC && d["min_temp_c"] == day.minTempC
  {
    map["date" := day.date, "max_temp_c" := day.maxTempC, "min_temp_c" := day.minTempC,
        "condition" := day.condition]
  }

  // ---------------------------------------------------------------------
  // The hourly window around the resolved hour

  /** `hour - hours_before` for a number; any other operand type raises TypeError. */
  function AsOperand(v: Value): (r: Result<int>)
    ensures r.Ok? <==> v.Int? || v.Bool?
    ensures v.Int? ==> r == Ok(v.i)
    ensures r.Err? ==> r.error.TypeError?
  {
    match v
    case Int(i) => Ok(i)
    case Bool(b) => Ok(if b then 1 else 0)
    case _ => Err(TypeError("unsupported operand type(s) for -: '" + TypeName(v) + "' and 'int'"))
  }

  /** `(max(0, hour - before), min(23, hour + after))` */
  function Window(hour: int, before: int, after: int): (w: (int, int))
    ensures 0 <= w.0 && w.1 <= 23
  {
    (if hour - before < 0 then 0 else hour - before, if hour + after > 23 then 23 else hour + after)
  }

  /** The clamp only cuts the window at midnight, it never wraps into another day. */
  lemma WindowWithinDay(hour: int, before: int, after: int, x: int)
    requires 0 <= x <= 23
    ensures Window(hour, before, after).0 <= x <= Window(hour, before, after).1
            <==> hour - before <= x <= hour + after
  {
  }

  /** Reads the hour of day from a provider timestamp, or gives the exception `strptime` raises;
      the pipeline passes `HourOfDay`. */
  type HourReader = Value -> Result<int>

  /** The hourly entry is kept: its time parses and its hour lies in `[start, end]`. */
  predicate InWindow(readHour: HourReader, h: HourEntry, start: int, end: int) {
    readHour(h.time).Ok? && start <= readHour(h.time).value <= end
  }

  /** `{"time": ..., "temp_c": ..., "condition": ...}` for one kept entry. */
  function HourRecord(h: HourEntry): (v: Value)
    ensures v.Dict? && v.entries.Keys == {"time", "temp_c", "condition"}
    ensures v.entries["time"] == h.time && v.entries["temp_c"] == h.tempC && v.entries["condition"] == h.condition
  {
    Dict(map["time" := h.time, "temp_c" := h.tempC, "condition" := h.condition])
  }

  /** The list comprehension over the day's "hour" entries, from `hours[i..]` on: the first timestamp that does not
      parse raises, otherwise the entries whose hour lies in `[start, end]`. */
  function HoursFrom(readHour: HourReader, hours: seq<HourEntry>, start: int, end: int, i: nat): (r: Result<seq<Value>>)
    requires i <= |hours|
    ensures r.Ok? ==> |r.value| <= |hours| - i
    ensures r.Ok? ==> forall k :: i <= k < |hours| ==> readHour(hours[k].time).Ok?
    decreases |hours| - i
  {
    if i == |hours| then Ok([])
    else match readHour(hours[i].time)
      case Err(e) => Err(e)
      case Ok(x) =>
        match HoursFrom(readHour, hours, start, end, i + 1)
        case Err(e) => Err(e)
        case Ok(rest) => Ok(if start <= x <= end then [HourRecord(hours[i])] + rest else rest)
  }

  /** The indices in `[i, |hours|)` of the entries in the window, in increasing order. */
  function KeptFrom(readHour: HourReader, hours: seq<HourEntry>, start: int, end: int, i: nat): (r: seq<nat>)
    requires i <= |hours|
    ensures forall a :: 0 <= a < |r| ==> i <= r[a] < |hours|
    ensures forall a, b :: 0 <= a < b < |r| ==> r[a] < r[b]
    ensures forall k :: i <= k < |hours| ==> (k in r <==> InWindow(readHour, hours[k], start, end))
    decreases |hours| - i
  {
    if i == |hours| then []
    else if InWindow(readHour, hours[i], start, end) then [i] + KeptFrom(readHour, hours, start, end, i + 1)
    else KeptFrom(readHour, hours, start, end, i + 1)
  }

  /** The records of the entries at indices `p`, in that order. */
  function Pick(hours: seq<HourEntry>, p: seq<nat>): (r: seq<Value>)
    requires forall k :: 0 <= k < |p| ==> p[k] < |hours|
    ensures |r| == |p| && forall k :: 0 <= k < |p| ==> r[k] == HourRecord(hours[p[k]])
  {
    if p == [] then [] else [HourRecord(hours[p[0]])] + Pick(hours, p[1..])
  }

  /** When every timestamp parses, the list holds exactly the entries in the window, in provider order. */
  lemma {:induction false} HoursFromSelects(readHour: HourReader, hours: seq<HourEntry>, start: int, end: int, i: nat)
    requires i <= |hours|
    requires forall k :: i <= k < |hours| ==> readHour(hours[k].time).Ok?
    ensures HoursFrom(readHour, hours, start, end, i) == Ok(Pick(hours, KeptFrom(readHour, hours, start, end, i)))
    decreases |hours| - i
  {
    if i < |hours| {
      HoursFromSelects(readHour, hours, start, end, i + 1);
      var p := KeptFrom(readHour, hours, start, end, i);
      if InWindow(readHour, hours[i], start, end) {
        assert p[1..] == KeptFrom(readHour, hours, start, end, i + 1);
      }
    }
  }

  /** The comprehension raises exactly when some timestamp does not parse, and then with the
      exception for the first such timestamp. */
  lemma {:induction false} HoursFromFirstError(readHour: HourReader, hours: seq<HourEntry>, start: int, end: int, i: nat)
    requires i <= |hours|
    ensures HoursFrom(readHour, hours, start, end, i).Err? <==> exists k :: i <= k < |hours| && readHour(hours[k].time).Err?
    ensures HoursFrom(readHour, hours, start, end, i).Err? ==>
              exists k :: i <= k < |hours| && readHour(hours[k].time) == Err(HoursFrom(readHour, hours, start, end, i).error)
                          && forall j :: i <= j < k ==> readHour(hours[j].time).Ok?
    decreases |hours| - i
  {
    if i < |hours| && readHour(hours[i].time).Ok? {
      HoursFromFirstError(readHour, hours, start, end, i + 1);
    }
  }

  /** An empty window (start after end) keeps nothing. */
  lemma EmptyWindow(readHour: HourReader, hours: seq<HourEntry>, start: int, end: int)
    requires end < start
    requires forall k :: 0 <= k < |hours| ==> readHour(hours[k].time).Ok?
    ensures HoursFrom(readHour, hours, start, end, 0) == Ok([])
  {
    HoursFromSelects(readHour, hours, start, end, 0);
  }

  /** Entries before the window are skipped without changing the result. */
  lemma {:induction false} SkipBeforeWindow(readHour: HourReader, hours: seq<HourEntry>, start: int, end: int, i: nat, j: nat)
    requires i <= j <= |hours|
    requires forall k :: i <= k < j ==> readHour(hours[k].time).Ok? && readHour(hours[k].time).value < start
    ensures HoursFrom(readHour, hours, start, end, i) == HoursFrom(readHour, hours, start, end, j)
    decreases j - i
  {
    if i < j {
      SkipBeforeWindow(readHour, hours, start, end, i + 1, j);
    }
  }

  /** An entry in the window is put in front of the list of the entries after it. */
  lemma KeepEntry(readHour: HourReader, hours: seq<HourEntry>, start: int, end: int, i: nat)
    requires i < |hours| && InWindow(readHour, hours[i], start, end)
    requires HoursFrom(readHour, hours, start, end, i + 1).Ok?
    ensures HoursFrom(readHour, hours, start, end, i)
            == Ok([HourRecord(hours[i])] + HoursFrom(readHour, hours, start, end, i + 1).value)
  {
  }

  /** A day of 24 hourly entries in order, filtered to `[20, 23]`, keeps the last four. */
  lemma LastFourHours(readHour: HourReader, hours: seq<HourEntry>)
    requires |hours| == 24
    requires forall k :: 0 <= k < 24 ==> readHour(hours[k].time) == Ok(k)
    ensures HoursFrom(readHour, hours, 20, 23, 0)
            == Ok([HourRecord(hours[20]), HourRecord(hours[21]), HourRecord(hours[22]), HourRecord(hours[23])])
  {
    SkipBeforeWindow(readHour, hours, 20, 23, 0, 20);
    assert HoursFrom(readHour, hours, 20, 23, 24) == Ok([]);
    KeepEntry(readHour, hours, 20, 23, 23);
    KeepEntry(readHour, hours, 20, 23, 22);
    KeepEntry(readHour, hours, 20, 23, 21);
    KeepEntry(readHour, hours, 20, 23, 20);
    var r20, r21, r22, r23 := HourRecord(hours[20]), HourRecord(hours[21]), HourRecord(hours[22]), HourRecord(hours[23]);
    assert [r20] + ([r21] + ([r22] + ([r23] + []))) == [r20, r21, r22, r23];
  }

  /** The hourly branch: the window from the resolved hour, then the comprehension over the day's entries. */
  function HourList(hours: seq<HourEntry>, hour: Value, before: int, after: int): (r: Result<seq<Value>>)
    ensures AsOperand(hour).Err? ==> r == Err(AsOperand(hour).error)
  {
    match AsOperand(hour)
    case Err(e) => Err(e)
    case Ok(h) =>
      var w := Window(h, before, after);
      HoursFrom(HourOfDay, hours, w.0, w.1, 0)
  }

  /** The provider's "YYYY-MM-DD HH:00" timestamp for hour `h` of day `d`. */
  function Timestamp(d: Date, h: int): Value
    requires ValidDate(d) && 0 <= h <= 23
  {
    Str(Format(d) + " " + Pad2(h) + ":" + Pad2(0))
  }

  /** Every provider timestamp of the day reads back as its own hour. */
  lemma TimestampsReadBack(d: Date, hours: seq<HourEntry>)
    requires ValidDate(d) && |hours| == 24
    requires forall k :: 0 <= k < 24 ==> hours[k].time == Timestamp(d, k)
    ensures forall k :: 0 <= k < 24 ==> HourOfDay(hours[k].time) == Ok(k)
  {
    forall k | 0 <= k < 24 ensures HourOfDay(hours[k].time) == Ok(k) {
      TimestampHour(d, k, 0);
    }
  }

  /** Hour 22 with two hours before and three after keeps 20:00 to 23:00 of the same day only:
      the window is clamped at midnight, it does not wrap into the next day. */
  lemma NoWrapPastMidnight(d: Date, hours: seq<HourEntry>)
    requires ValidDate(d) && |hours| == 24
    requires forall k :: 0 <= k < 24 ==> hours[k].time == Timestamp(d, k)
    ensures HourList(hours, Int(22), 2, 3)
            == Ok([HourRecord(hours[20]), HourRecord(hours[21]), HourRecord(hours[22]), HourRecord(hours[23])])
  {
    TimestampsReadBack(d, hours);
    LastFourHours(HourOfDay, hours);
  }

  // ---------------------------------------------------------------------
  // The whole resolution

  /** The provider query: the resolved city and `forecast_days`. */
  function Request(intent: map<string, Value>, now: Clock, geo: Geolocation): (q: (Value, int))
    requires ValidClock(now) && TargetOf(intent, now.date).Ok?
    ensures q.0 == ResolvedCity(intent, geo)
    ensures q.1 == ForecastDays(TargetOf(intent, now.date).value, now.date)
    ensures !Truthy(Get(intent, "forecast_date")) ==> q.1 == 1
  {
    (ResolvedCity(intent, geo), ForecastDays(TargetOf(intent, now.date).value, now.date))
  }

  /** The result built from the selected day: the summary, the hourly list when asked for, and the city. */
  function Answer(city: Value, day: ProviderDay, hour: Value, includeHours: bool, before: int, after: int)
    : (r: Result<map<string, Value>>)
    ensures !includeHours ==> r.Ok?
    ensures r.Err? ==> HourList(day.hours, hour, before, after) == Err(r.error)
    ensures r.Ok? ==> "city" in r.value && r.value["city"] == city
  {
    if !includeHours then Ok(map["city" := city, "forecast_day" := Dict(DayDict(day))])
    else match HourList(day.hours, hour, before, after)
      case Err(e) => Err(e)
      case Ok(hourly) => Ok(map["city" := city, "forecast_day" := Dict(DayDict(day)["hours" := List(hourly)])])
  }

  /** What `get_weather_forecast` returns for the extracted `intent`, or the exception it raises. */
  function Forecast(intent: map<string, Value>, now: Clock, geo: Geolocation, provider: Provider,
                    includeHours: bool, before: int, after: int): (r: Result<map<string, Value>>)
    requires ValidClock(now)
    ensures TargetOf(intent, now.date).Err? ==> r == Err(TargetOf(intent, now.date).error)
    ensures r.Err? ==> TargetOf(intent, now.date).Err? || includeHours
  {
    match TargetOf(intent, now.date)
    case Err(e) => Err(e)
    case Ok(_) =>
      var query := Request(intent, now, geo);
      var response := provider(query.0, query.1);
      if response.statusCode != 200 then Ok(ErrorDict(StatusMessage(response.statusCode)))
      else match FindDay(response.days, TargetString(intent, now.date))
        case None => Ok(ErrorDict(NotFoundMessage))
        case Some(i) => Answer(query.0, response.days[i], ResolvedHour(intent, now), includeHours, before, after)
  }

  /** `get_weather_forecast` from the extracted intent on: the fallbacks reassign the
      locals step by step and "hours" is inserted into the day dictionary in place. */
  method ResolveForecast(intent: map<string, Value>, now: Clock, geo: Geolocation, provider: Provider,
                         includeHours: bool, hoursBefore: int, hoursAfter: int)
    returns (r: Result<map<string, Value>>)
    requires ValidClock(now)
    ensures r == Forecast(intent, now, geo, provider, includeHours, hoursBefore, hoursAfter)
  {
    var city := Get(intent, "city");
    var hour := Get(intent, "hour");
    var targetDateStr := Get(intent, "forecast_date");
    var today := now.date;

    var targetDate: Date;
    if !Truthy(targetDateStr) {
      targetDate := today;
      targetDateStr := Str(Format(targetDate));
    } else {
      var parsed := ParseDate(targetDateStr);
      if parsed.Err? {
        return Err(parsed.error);
      }
      targetDate := parsed.value;
    }

    if !Truthy(city) {
      city := GeoCity(geo);
    }
    if hour == Null {
      hour := Int((now.hour + 2) % 24);
    }
    var forecastDays := ForecastDays(targetDate, today);
    assert TargetOf(intent, today) == Ok(targetDate) && TargetString(intent, today) == targetDateStr;
    assert Request(intent, now, geo) == (city, forecastDays) && ResolvedHour(intent, now) == hour;

    var response := provider(city, forecastDays);
    if response.statusCode != 200 {
      return Ok(ErrorDict(StatusMessage(response.statusCode)));
    }

    var found := FindDay(response.days, targetDateStr);
    if found.None? {
      return Ok(ErrorDict(NotFoundMessage));
    }
    var forecastDay := response.days[found.value];
    var dayDict := DayDict(forecastDay);
    ghost var answer := Answer(city, forecastDay, hour, includeHours, hoursBefore, hoursAfter);
    assert Forecast(intent, now, geo, provider, includeHours, hoursBefore, hoursAfter) == answer;

    if includeHours {
      var hourly := HourList(forecastDay.hours, hour, hoursBefore, hoursAfter);
      if hourly.Err? {
        return Err(hourly.error);
      }
      dayDict := dayDict["hours" := List(hourly.value)];
    }
    return Ok(map["city" := city, "forecast_day" := Dict(dayDict)]);
  }

  /** The whole pipeline: extraction, then resolution, sharing one clock reading. */
  method GetWeatherForecast(reply: LlmReply, decode: Decoder, now: Clock, geo: Geolocation, provider: Provider,
                            includeHours: bool, hoursBefore: int, hoursAfter: int)
    returns (r: Result<map<string, Value>>)
    requires ValidClock(now)
    ensures r.Err? ==> includeHours
    ensures reply.LlmFailed? ==>
              r == Forecast(FallbackRecord(reply.message), now, geo, provider, includeHours, hoursBefore, hoursAfter)
    ensures exists intent :: ExtractedFrom(reply, decode, now.date, intent)
                             && r == Forecast(intent, now, geo, provider, includeHours, hoursBefore, hoursAfter)
  {
    var intent := ExtractCityAndForecastDays(reply, decode, now.date);
    r := ResolveForecast(intent, now, geo, provider, includeHours, hoursBefore, hoursAfter);
    ExtractedDateAccepted(intent, now, geo, provider, includeHours, hoursBefore, hoursAfter);
    assert ExtractedFrom(reply, decode, now.date, intent)
           && r == Forecast(intent, now, geo, provider, includeHours, hoursBefore, hoursAfter);
  }

  /** When the extracted date parses, only the hourly part can raise. */
  lemma ExtractedDateAccepted(intent: map<string, Value>, now: Clock, geo: Geolocation, provider: Provider,
                              includeHours: bool, before: int, after: int)
    requires ValidClock(now)
    requires Truthy(Get(intent, "forecast_date")) ==> ParseDate(intent["forecast_date"]).Ok?
    ensures Forecast(intent, now, geo, provider, includeHours, before, after).Err? ==> includeHours
  {
  }

  // ---------------------------------------------------------------------
  // Properties of the resolution

  /** The answer has exactly "city" and "forecast_day"; the day carries the four summary fields
      of the selected day, and "hours" exactly when hourly data was asked for. */
  lemma AnswerShape(city: Value, day: ProviderDay, hour: Value, includeHours: bool, before: int, after: int)
    ensures var r := Answer(city, day, hour, includeHours, before, after);
            r.Ok? ==>
              && r.value.Keys == {"city", "forecast_day"}
              && r.value["city"] == city
              && r.value["forecast_day"].Dict?
              && r.value["forecast_day"].entries.Keys
                 == {"date", "max_temp_c", "min_temp_c", "condition"} + (if includeHours then {"hours"} else {})
              && (forall k :: k in DayDict(day) ==> r.value["forecast_day"].entries[k] == DayDict(day)[k])
  {
  }

  /** With hourly data and a numeric hour, the list holds exactly the day's entries whose hour lies
      in the clamped window, in provider order; it raises only for a non-numeric hour or for the
      first timestamp `strptime` rejects. */
  lemma AnswerHours(city: Value, day: ProviderDay, hour: Value, before: int, after: int)
    ensures var r := Answer(city, day, hour, true, before, after);
            && (r.Ok? ==>
                  && AsOperand(hour).Ok?
                  && var w := Window(AsOperand(hour).value, before, after);
                     r.value["forecast_day"].entries["hours"]
                     == List(Pick(day.hours, KeptFrom(HourOfDay, day.hours, w.0, w.1, 0))))
            && (r.Err? ==>
                  || AsOperand(hour) == Err(r.error)
                  || exists k :: 0 <= k < |day.hours| && HourOfDay(day.hours[k].time) == Err(r.error)
                                 && forall j :: 0 <= j < k ==> HourOfDay(day.hours[j].time).Ok?)
  {
    AnswerHoursKept(city, day, hour, before, after);
    AnswerHoursRaised(city, day, hour, before, after);
  }

  lemma AnswerHoursKept(city: Value, day: ProviderDay, hour: Value, before: int, after: int)
    ensures var r := Answer(city, day, hour, true, before, after);
            r.Ok? ==>
              && AsOperand(hour).Ok?
              && var w := Window(AsOperand(hour).value, before, after);
                 r.value["forecast_day"].entries["hours"]
                 == List(Pick(day.hours, KeptFrom(HourOfDay, day.hours, w.0, w.1, 0)))
  {
    if AsOperand(hour).Ok? {
      var w := Window(AsOperand(hour).value, before, after);
      if HoursFrom(HourOfDay, day.hours, w.0, w.1, 0).Ok? {
        HoursFromSelects(HourOfDay, day.hours, w.0, w.1, 0);
      }
    }
  }

  lemma AnswerHoursRaised(city: Value, day: ProviderDay, hour: Value, before: int, after: int)
    ensures var r := Answer(city, day, hour, true, before, after);
            r.Err? ==>
              || AsOperand(hour) == Err(r.error)
              || exists k :: 0 <= k < |day.hours| && HourOfDay(day.hours[k].time) == Err(r.error)
                             && forall j :: 0 <= j < k ==> HourOfDay(day.hours[j].time).Ok?
  {
    if AsOperand(hour).Ok? {
      var w := Window(AsOperand(hour).value, before, after);
      HoursFromFirstError(HourOfDay, day.hours, w.0, w.1, 0);
    }
  }

  /** A provider status other than 200 yields exactly the status message, whatever the days. */
  lemma StatusFailure(intent: map<string, Value>, now: Clock, geo: Geolocation, provider: Provider,
                      includeHours: bool, before: int, after: int)
    requires ValidClock(now) && TargetOf(intent, now.date).Ok?
    requires provider(Request(intent, now, geo).0, Request(intent, now, geo).1).statusCode != 200
    ensures Forecast(intent, now, geo, provider, includeHours, before, after)
            == Ok(ErrorDict(StatusMessage(provider(Request(intent, now, geo).0, Request(intent, now, geo).1).statusCode)))
  {
  }

  /** When no provider day carries the target string, the result is the not-found dictionary
      and nothing is raised, whatever the hour and the hourly entries. */
  lemma MissingDayNotFound(intent: map<string, Value>, now: Clock, geo: Geolocation, provider: Provider,
                           includeHours: bool, before: int, after: int)
    requires ValidClock(now) && TargetOf(intent, now.date).Ok?
    requires provider(Request(intent, now, geo).0, Request(intent, now, geo).1).statusCode == 200
    requires var days := provider(Request(intent, now, geo).0, Request(intent, now, geo).1).days;
             forall k :: 0 <= k < |days| ==> days[k].date != TargetString(intent, now.date)
    ensures Forecast(intent, now, geo, provider, includeHours, before, after) == Ok(ErrorDict(NotFoundMessage))
  {
  }

  /** A returned value is an error dictionary with a message, or the answer built from the first
      provider day whose "date" equals the target string, which reads back as the target date. */
  lemma SelectedDayIsTarget(intent: map<string, Value>, now: Clock, geo: Geolocation, provider: Provider,
                            includeHours: bool, before: int, after: int)
    requires ValidClock(now)
    ensures var r := Forecast(intent, now, geo, provider, includeHours, before, after);
            r.Ok? ==>
              || (r.value.Keys == {"error"} && r.value["error"].Str?)
              || (&& TargetOf(intent, now.date).Ok?
                  && var days := provider(Request(intent, now, geo).0, Request(intent, now, geo).1).days;
                     exists i :: 0 <= i < |days|
                       && days[i].date == TargetString(intent, now.date)
                       && (forall k :: 0 <= k < i ==> days[k].date != days[i].date)
                       && ParseDate(days[i].date) == TargetOf(intent, now.date)
                       && r == Answer(ResolvedCity(intent, geo), days[i], ResolvedHour(intent, now), includeHours, before, after))
  {
    TargetStringNamesTarget(intent, now.date);
    if TargetOf(intent, now.date).Ok? {
      var query := Request(intent, now, geo);
      var response := provider(query.0, query.1);
      var found := FindDay(response.days, TargetString(intent, now.date));
      if response.statusCode == 200 && found.Some? {
        var i := found.value;
        assert Forecast(intent, now, geo, provider, includeHours, before, after)
               == Answer(ResolvedCity(intent, geo), response.days[i], ResolvedHour(intent, now), includeHours, before, after);
      }
    }
  }

  /** Conversely, the first provider day whose "date" equals the target string is the one answered. */
  lemma DaySelected(intent: map<string, Value>, now: Clock, geo: Geolocation, provider: Provider,
                    includeHours: bool, before: int, after: int, i: nat)
    requires ValidClock(now) && TargetOf(intent, now.date).Ok?
    requires var response := provider(Request(intent, now, geo).0, Request(intent, now, geo).1);
             && response.statusCode == 200
             && i < |response.days|
             && response.days[i].date == TargetString(intent, now.date)
             && forall k :: 0 <= k < i ==> response.days[k].date != response.days[i].date
    ensures var days := provider(Request(intent, now, geo).0, Request(intent, now, geo).1).days;
            Forecast(intent, now, geo, provider, includeHours, before, after)
            == Answer(ResolvedCity(intent, geo), days[i], ResolvedHour(intent, now), includeHours, before, after)
  {
  }

  /** `strptime` also accepts an unpadded "2025-11-5", but the day is then looked up by that
      string, so a provider that writes its dates as "YYYY-MM-DD" is never matched. */
  lemma UnpaddedDateNeverSelected(today: Date, days: seq<ProviderDay>)
    requires ValidDate(today)
    requires forall k :: 0 <= k < |days| ==> days[k].date.Str? && |days[k].date.s| == 10
    ensures var intent := map["forecast_date" := Str("2025-11-5")];
            && TargetOf(intent, today) == Ok(Date(2025, 11, 5))
            && FindDay(days, TargetString(intent, today)).None?
  {
    var s := "2025-11-5";
    assert s[..4] == "2025" && s[5..7] == "11" && s[8..] == "5";
    assert ScanDate(s) == Some(DateMatch(Date(2025, 11, 5), 9));
  }
}
