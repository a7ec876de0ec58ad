# Weather question pipeline: intent extraction and forecast resolution

This project models the deterministic middle of a weather chatbot backend.
A user's question goes to a language model, which replies with free text that
should contain a JSON object naming a city, a target date and an hour. Two
Python functions turn that reply into a forecast:

- `get_city_and_forecast_days_for_weatherapi` strips the reply, finds the
  `{...}` fragment with a greedy DOTALL regular expression and decodes it. It
  falls back to an all-null record when there is no fragment. It fills in
  missing "city" and "hour" keys and computes `forecast_days = (target - today).days + 1`.
  Any exception raised inside its `try`, from the model call on, becomes a fixed record for Berlin that carries the error text.
- `get_weather_forecast` applies the fallback chain:
  - the date falls back to today;
  - the city falls back to the IP geolocation's "city" field, then to "Berlin";
  - the hour falls back to `(now + 2) % 24`.

  It then asks the weather provider for enough days and maps a non-200
  status to an error dictionary. It selects the provider day whose "date"
  string equals the target string. When hourly data is requested, it keeps
  the hourly entries whose hour of day lies in the clamped window
  `[max(0, hour - before), min(23, hour + after)]`.

The world is passed in as values:
- the model's reply, which is either text or a failure with its message;
- `json.loads`, as a decoder function from string to dictionary-or-error;
- one clock reading (date and hour);
- the geolocation outcome;
- the provider, as a function from (city, days) to a status code and a list of days.

Python's behaviour is written out where the code relies on it:
- truthiness;
- `dict.get` and `setdefault`;
- `str.strip` over every `isspace` character;
- `re.search(r'{.*}', s, re.DOTALL)`, which runs from the first '{' to the last '}';
- `datetime.strptime("%Y-%m-%d")`, which accepts an unpadded month and day and a space-padded day;
- `date.toordinal` and date subtraction.

Exceptions that `get_weather_forecast` lets escape are `Err` results.

One quirk of the source is stated as a lemma (`UnpaddedDateNeverSelected`). `strptime` accepts an unpadded extracted date such as "2025-11-5". It then sizes the provider request from that date. The day, however, is looked up by the unpadded string itself. A provider that writes its dates as "YYYY-MM-DD" therefore never matches. With status 200 the answer is then "Forecast for target date not found."

Files:
- `python_values.dfy` (module `PyValues`): JSON-like values, truthiness, `dict.get`, `setdefault`, exceptions, `str(int)`.
- `dates.dfy` (module `Dates`): calendar dates, ordinals, `strftime`/`strptime` for "%Y-%m-%d", the hour of a provider timestamp, `forecast_days`.
- `intent_extraction.dfy` (module `IntentExtraction`): strip, fragment search and the extractor (methods over the record that the source mutates in place).
- `forecast_resolution.dfy` (module `ForecastResolution`): fallbacks, provider call, day selection, hour window and the result dictionary. The pipeline body is a method that reassigns its locals as the source does. Day selection and the hourly comprehension are functions with lemmas.

## Model

| member | source | states |
|---|---|---|
| PyValues.Truthy | backend/modules/weatherapi_forecast_data.py:85 | `bool(v)`: a value is false exactly when it is None, False, 0, the empty string, the empty list or the empty dictionary; this decides the date fallback, the city fallback (line 92) and the extractor's date branch (backend/modules/llm_extract_city_and_forecast_days.py:100) |
| PyValues.Get | backend/modules/llm_extract_city_and_forecast_days.py:99 | `dict.get`: the stored value for a present key, None for an absent one |
| PyValues.SetDefault | backend/modules/llm_extract_city_and_forecast_days.py:94-95 | the keys become the old keys plus the given one; only an absent key receives the default; every present key keeps its value, even a null one |
| PyValues.IntToString | backend/modules/weatherapi_forecast_data.py:110 | `str(code)` in the status message: reading the text back with `int` gives the integer, so distinct codes are written differently |
| Dates.Format | backend/modules/weatherapi_forecast_data.py:87 | `strftime("%Y-%m-%d")` writes ten characters, dashes at positions 4 and 7 and digits everywhere else |
| Dates.ParseDate | backend/modules/weatherapi_forecast_data.py:89 | `strptime` succeeds only on a string and only with a valid date; it raises TypeError exactly for a non-string and ValueError exactly for a string it rejects |
| Dates.Repr | backend/modules/weatherapi_forecast_data.py:89 | `repr` of the data in strptime's "does not match format" message: the text between two equal quotes, never shorter than the text itself |
| Dates.ReprQuote | backend/modules/weatherapi_forecast_data.py:89 | `repr` uses the double quote exactly when the text holds a single quote and no double quote, and the single quote otherwise |
| Dates.ReprPlain | backend/modules/weatherapi_forecast_data.py:89 | printable ASCII text without a quote or backslash is written unchanged between single quotes |
| Dates.ScanFormatted | backend/modules/weatherapi_forecast_data.py:87-89 | the `%Y-%m-%d` pattern, matched at the start of a formatted date followed by any text, reads back that date and ends after its ten characters |
| Dates.TextAfterDate | backend/modules/weatherapi_forecast_data.py:89 | a formatted date followed by any non-empty text is rejected with "unconverted data remains: " and exactly that text |
| Dates.DateWithTimeRejected | backend/modules/llm_extract_city_and_forecast_days.py:101 | "2025-11-21 10:00", a date with a time, is rejected with "unconverted data remains:  10:00" |
| Dates.WordRejected | backend/modules/llm_extract_city_and_forecast_days.py:101 | "tomorrow" is rejected with "time data 'tomorrow' does not match format '%Y-%m-%d'", the text quoted as `repr` quotes it |
| Dates.FormatParseRoundTrip | backend/modules/weatherapi_forecast_data.py:87-89 | parsing a formatted date gives the same date back |
| Dates.FormatInjective | backend/modules/weatherapi_forecast_data.py:87 | two valid dates are formatted alike if and only if they are equal, so comparing date strings compares dates |
| Dates.Ordinal | backend/modules/weatherapi_forecast_data.py:103 | `toordinal` is at least 1, and 1 for 0001-01-01 |
| Dates.DaysBetween | backend/modules/weatherapi_forecast_data.py:103 | `(a - b).days` is 0 for the same day, negative when `a` is the earlier day and positive when it is the later one |
| Dates.OrdinalWithinYear | backend/modules/weatherapi_forecast_data.py:103 | a date's ordinal lies inside its own year's block of ordinals |
| Dates.OrdinalOrder | backend/modules/weatherapi_forecast_data.py:103 | an earlier calendar day has a smaller ordinal |
| Dates.NextDayOrdinal | backend/modules/weatherapi_forecast_data.py:103 | the next calendar day is valid and its ordinal is one more |
| Dates.ForecastDays | backend/modules/weatherapi_forecast_data.py:103 | `(target - today).days + 1` is 1 when the target is today |
| Dates.ForecastDaysTomorrow | backend/modules/weatherapi_forecast_data.py:103 | tomorrow needs exactly 2 forecast days |
| Dates.ForecastDaysPast | backend/modules/weatherapi_forecast_data.py:103 | there is no clamp: a past target gives 0 or fewer days |
| Dates.HourOfDay | backend/modules/weatherapi_forecast_data.py:133 | a timestamp is read only when it is a 16-character string; its hour is the number in characters 11 and 12 and lies in 0..23 |
| Dates.TimestampHour | backend/modules/weatherapi_forecast_data.py:133 | the provider's "YYYY-MM-DD HH:MM" timestamp for hour h reads back as h |
| IntentExtraction.TrimStartRemovesSpaces | backend/modules/llm_extract_city_and_forecast_days.py:84 | everything `lstrip` cuts is whitespace |
| IntentExtraction.TrimStartStops | backend/modules/llm_extract_city_and_forecast_days.py:84 | what `lstrip` leaves does not start with whitespace |
| IntentExtraction.TrimEndRemovesSpaces | backend/modules/llm_extract_city_and_forecast_days.py:84 | everything `rstrip` cuts is whitespace |
| IntentExtraction.TrimEndStops | backend/modules/llm_extract_city_and_forecast_days.py:84 | what `rstrip` leaves does not end with whitespace |
| IntentExtraction.Strip | backend/modules/llm_extract_city_and_forecast_days.py:84 | `strip` never lengthens the text, and a non-empty result neither starts nor ends with whitespace |
| IntentExtraction.StripSpan | backend/modules/llm_extract_city_and_forecast_days.py:84 | `strip` returns a slice of the reply, and no character it cuts away is a brace |
| IntentExtraction.Fragment | backend/modules/llm_extract_city_and_forecast_days.py:87 | a match holds at least the two braces and is no longer than the searched text |
| IntentExtraction.FirstIndexIsFirst | backend/modules/llm_extract_city_and_forecast_days.py:87 | the found '{' is the first one; none is found only when there is none |
| IntentExtraction.LastIndexIsLast | backend/modules/llm_extract_city_and_forecast_days.py:87 | the found '}' is the last one; none is found only when there is none |
| IntentExtraction.FragmentMatchesRegex | backend/modules/llm_extract_city_and_forecast_days.py:87-88 | the search matches if and only if some '{' precedes some '}'; the match runs from the first '{' to the last '}', whatever lies between; it starts with '{' and ends with '}' |
| IntentExtraction.FragmentOfSlice | backend/modules/llm_extract_city_and_forecast_days.py:87 | text without braces around a slice does not change the match |
| IntentExtraction.FragmentIgnoresStrip | backend/modules/llm_extract_city_and_forecast_days.py:84-87 | searching the stripped reply finds the same fragment as searching the raw reply |
| IntentExtraction.NullRecord | backend/modules/llm_extract_city_and_forecast_days.py:91 | without a match the record has exactly the keys city, forecast_date and hour, all null |
| IntentExtraction.ReplyRecord | backend/modules/llm_extract_city_and_forecast_days.py:83-91 | a failed model call is passed on with its message; otherwise the record is the decoded fragment of the reply (the same fragment the stripped reply gives), or the all-null record when there is no fragment |
| IntentExtraction.FallbackRecord | backend/modules/llm_extract_city_and_forecast_days.py:108-109 | the exception record has exactly the keys city, forecast_days, hour and error, and no forecast_date; city is "Berlin", forecast_days is 1, hour is None and error is the exception's text |
| IntentExtraction.CompleteRecord | backend/modules/llm_extract_city_and_forecast_days.py:93-106 | it raises exactly when a truthy forecast_date fails to parse, with strptime's error. Otherwise every decoded key except forecast_days keeps its value, "city" and "hour" are added only when absent, forecast_days is `(target - today) + 1` or 1, and a kept date parses. The all-null record gets forecast_days 1 and keeps city null |
| IntentExtraction.TryExtract | backend/modules/llm_extract_city_and_forecast_days.py:81-106 | a failed model call or decode error is passed on unchanged; otherwise the outcome is `CompleteRecord` of the decoded record; no fragment gives the all-null record with forecast_days 1 |
| IntentExtraction.ExtractCityAndForecastDays | backend/modules/llm_extract_city_and_forecast_days.py:81-109 | never raises; "city", "hour" and an integer forecast_days are always present; any exception (model call, decode, strptime) gives exactly the fallback record with that error; on success the record is completed as above; a returned truthy forecast_date always parses |
| ForecastResolution.TargetOf | backend/modules/weatherapi_forecast_data.py:85-89 | a falsy forecast_date gives today; otherwise the date is strptime's, and an error is exactly strptime's error on a truthy date |
| ForecastResolution.TargetString | backend/modules/weatherapi_forecast_data.py:85-89 | the selection string is today formatted "YYYY-MM-DD" when forecast_date is falsy, else the extracted value itself |
| ForecastResolution.TargetStringNamesTarget | backend/modules/weatherapi_forecast_data.py:85-89 | the selection string parses back to the target date used for forecast_days |
| ForecastResolution.GeoCity | backend/modules/weatherapi_forecast_data.py:93-97 | the geolocation's "city" field when the reply is a dictionary holding it, otherwise "Berlin" (also when the lookup raised) |
| ForecastResolution.ResolvedCity | backend/modules/weatherapi_forecast_data.py:92-97 | a truthy extracted city is never replaced; a falsy one is replaced by the geolocation result |
| ForecastResolution.ResolvedHour | backend/modules/weatherapi_forecast_data.py:100-101 | only a missing or null hour is replaced, so hour 0 is kept; the replacement is `(now + 2) % 24`, in 0..23 |
| ForecastResolution.Request | backend/modules/weatherapi_forecast_data.py:103-108 | the provider is asked for the resolved city and for `(target - today).days + 1` days, `ForecastDays` of the target date; that is 1 day when there is no extracted date |
| ForecastResolution.ErrorDict | backend/modules/weatherapi_forecast_data.py:110 | the error result has the single key "error" holding the message |
| ForecastResolution.StatusMessage | backend/modules/weatherapi_forecast_data.py:110 | the message is the fixed prefix "Failed to retrieve weather data, status code ", then text that reads back as the status code, then a full stop |
| ForecastResolution.StatusMessageDistinct | backend/modules/weatherapi_forecast_data.py:110 | two statuses give the same message if and only if they are the same code |
| ForecastResolution.StatusFailure | backend/modules/weatherapi_forecast_data.py:108-110 | a status other than 200 returns exactly the status error, whatever days were sent |
| ForecastResolution.FindDay | backend/modules/weatherapi_forecast_data.py:115 | the selected index holds the target string and no earlier day does; none is selected only when no day holds it |
| ForecastResolution.MissingDayNotFound | backend/modules/weatherapi_forecast_data.py:115-117 | with status 200 and no day carrying the target string, the result is exactly the not-found error and nothing is raised |
| ForecastResolution.SelectedDayIsTarget | backend/modules/weatherapi_forecast_data.py:114-136 | a returned value is an error dictionary, or the answer built from the first day whose "date" equals the target string, regardless of its index; that string parses to the target date |
| ForecastResolution.DaySelected | backend/modules/weatherapi_forecast_data.py:114-136 | conversely, with status 200 the first day whose "date" equals the target string is the one answered, whatever its index |
| ForecastResolution.DayDict | backend/modules/weatherapi_forecast_data.py:119-124 | the day dictionary has exactly date, max_temp_c, min_temp_c and condition, copied from the selected day |
| ForecastResolution.AnswerShape | backend/modules/weatherapi_forecast_data.py:119-136 | a success has exactly "city" (the resolved city) and "forecast_day"; the day holds the four summary fields, plus "hours" exactly when hourly data was asked for |
| ForecastResolution.AsOperand | backend/modules/weatherapi_forecast_data.py:128 | `hour - hours_before` works for an int or bool hour and raises TypeError otherwise |
| ForecastResolution.Window | backend/modules/weatherapi_forecast_data.py:128-129 | the clamped window starts at 0 or later and ends at 23 or earlier |
| ForecastResolution.WindowWithinDay | backend/modules/weatherapi_forecast_data.py:128-129 | an hour of the day is in the clamped window if and only if it is in the unclamped one: the window is cut at midnight, never wrapped |
| ForecastResolution.HourRecord | backend/modules/weatherapi_forecast_data.py:131 | a kept entry becomes a dictionary of exactly time, temp_c and condition, copied from it |
| ForecastResolution.HoursFrom | backend/modules/weatherapi_forecast_data.py:130-134 | the comprehension keeps at most one record per entry, and it succeeds only when every timestamp parses |
| ForecastResolution.KeptFrom | backend/modules/weatherapi_forecast_data.py:130-134 | the kept indices are increasing, and an index is kept if and only if its timestamp parses to an hour in the window |
| ForecastResolution.Pick | backend/modules/weatherapi_forecast_data.py:130-131 | one record per chosen index, in the same order |
| ForecastResolution.HoursFromSelects | backend/modules/weatherapi_forecast_data.py:130-134 | when every timestamp parses, the list is exactly the records of the entries in the window, in provider order |
| ForecastResolution.HoursFromFirstError | backend/modules/weatherapi_forecast_data.py:130-134 | the comprehension raises if and only if some timestamp does not parse, and then with the error of the first such timestamp |
| ForecastResolution.EmptyWindow | backend/modules/weatherapi_forecast_data.py:128-134 | a window whose start is after its end keeps nothing |
| ForecastResolution.SkipBeforeWindow | backend/modules/weatherapi_forecast_data.py:130-134 | entries before the window are skipped without changing the result |
| ForecastResolution.LastFourHours | backend/modules/weatherapi_forecast_data.py:130-134 | 24 hourly entries in order, filtered to [20, 23], keep the last four |
| ForecastResolution.TimestampsReadBack | backend/modules/weatherapi_forecast_data.py:133 | every timestamp of a provider day reads back as its own hour |
| ForecastResolution.NoWrapPastMidnight | backend/modules/weatherapi_forecast_data.py:127-134 | hour 22 with 2 hours before and 3 after keeps 20:00 to 23:00 only, with no wrap into the next day |
| ForecastResolution.HourList | backend/modules/weatherapi_forecast_data.py:128 | a non-numeric hour raises its TypeError before any entry is read |
| ForecastResolution.AnswerHours | backend/modules/weatherapi_forecast_data.py:127-134 | with hourly data, "hours" is exactly the day's entries in the clamped window, in provider order; an exception comes only from a non-numeric hour or from the first timestamp strptime rejects |
| ForecastResolution.Answer | backend/modules/weatherapi_forecast_data.py:119-136 | without hourly data the answer never raises; with it, an exception is the hourly list's; a success carries the given city |
| ForecastResolution.Forecast | backend/modules/weatherapi_forecast_data.py:78-136 | a rejected target date raises strptime's error; otherwise an exception can come only from the hourly part |
| ForecastResolution.ResolveForecast | backend/modules/weatherapi_forecast_data.py:78-136 | the method that reassigns city, hour and the target step by step and inserts "hours" in place computes exactly `Forecast`, the composition of the functions above |
| ForecastResolution.ExtractedDateAccepted | backend/modules/weatherapi_forecast_data.py:89 | when the extracted date parses, only the hourly part can raise |
| ForecastResolution.GetWeatherForecast | backend/modules/weatherapi_forecast_data.py:77-136 | the result is `Forecast` of a record the extractor can return for the reply: the fallback record with the error of the model call, the decoder or strptime, or else the decoded record completed as `CompleteRecord` states. Among the modelled steps, only the hourly part can raise, because the date handed over by the extractor always parses again |
| ForecastResolution.UnpaddedDateNeverSelected | backend/modules/weatherapi_forecast_data.py:89-115 | strptime accepts "2025-11-5" as 5 November 2025, but the day is then looked up by that unpadded string, so no provider day written "YYYY-MM-DD" is ever selected |

## Left out

- The prompt text and the language-model call are not modelled. The call becomes its reply: text, or a failure with its message.
- `json.loads` is a decoder parameter. Its parsing and its float numbers are not modelled. A successful decode is a dictionary, as it is for a fragment that starts with '{'.
- HTTP requests, the URL string and the API key lookup are not modelled. The provider and the IP geolocation are inputs.
- IntentExtraction.ExtractCityAndForecastDays: the key lookup `config("GOOGLE_GEMINI_API_KEY")`, `genai.configure` and `genai.GenerativeModel` (backend/modules/llm_extract_city_and_forecast_days.py:55-57) run before the `try`, so their exceptions escape the function. "Never raises" holds from the model call on.
- The `print` of the resolved city, hour and date is not modelled.
- `datetime.now()` is read several times in the source. The model reads one clock value, so it does not capture a date that changes between those readings.
- A provider reply is taken to be well-formed. The KeyError and TypeError paths for missing "forecast", "day", "condition", "text", "temp_c" or "time" fields are not modelled.
- Temperatures and condition texts are copied through as opaque values. Float hours are not modelled.
- Exception messages follow CPython for `strptime("%Y-%m-%d")`: "does not match format" with the text quoted by `repr`, "unconverted data remains", the year and day range errors and the TypeError for a non-string. The other messages are carried as values and are not checked against CPython.
- Dates.HourOfDay: every rejected timestamp gets the "does not match format" message. CPython reports leftover text as "unconverted data remains" and an impossible date as a range error, so those messages differ.
- Dates.Repr: non-ASCII characters that Python's `repr` escapes because they are not printable (U+0085, U+2028 and others) are kept as they are. ASCII control characters, the quote and the backslash are escaped as CPython does.
- PyValues.IntToString: the text is specified by reading it back as the integer, not character by character against CPython's `str`. The model writes no leading zeros and a '-' sign, as `str` does.
- ForecastResolution.GetWeatherForecast: `requests.get(url)` (backend/modules/weatherapi_forecast_data.py:108) and `response.json()` (:112) can raise, for a network failure or a body that is not JSON. The provider is a total function here, so those exceptions are not modelled, and "only the hourly part can raise" holds for the modelled steps only.
- Dates.ParseDate: Unicode digits, which Python's `\d` also accepts, are not modelled, because the model recognises only ASCII digits.
- Dates.HourOfDay: accepts only canonical 16-character "YYYY-MM-DD HH:MM" timestamps. Python's `%H` and `%M` would also accept one-digit fields, which the provider does not write. Such timestamps are treated as rejected.
- The doc comment says that all hours are returned when no hour is given. That case cannot happen, because the hour is always filled in before the filter, so it is not modelled.
- `backend/modules/llm_weather_answer.py` is not part of this model. It wraps language detection and a model call.
- `backend/main.py` is not part of this model. It holds the HTTP routing and request validation.
