/** The deterministic part of `get_city_and_forecast_days_for_weatherapi`:
    given the language model's reply (or the exception its call raised),
    `json.loads` and today's date, build the intent dictionary with keys
    "city", "hour", "forecast_days" (and whatever else the reply held), or
    the fixed fallback dictionary when any step raises. */
module IntentExtraction {
  import opened PyValues
  import opened Dates

  /** What the model call produced: the reply text, or the message of the exception it raised. */
  datatype LlmReply = LlmFailed(message: string) | LlmText(text: string)

  /** `json.loads` on a fragment that starts with '{': a dictionary or the decode error. */
  type Decoder = string -> Result<map<string, Value>>

  // ---------------------------------------------------------------------
  // str.strip()

  /** Python's `str.isspace` for one character. */
  predicate IsSpace(c: char) {
    c == ' ' || '\t' <= c <= '\r' || '\U{1c}' <= c <= '\U{1f}' || c == '\U{85}' || c == '\U{a0}'
    || c == '\U{1680}' || '\U{2000}' <= c <= '\U{200a}' || c == '\U{2028}' || c == '\U{2029}'
    || c == '\U{202f}' || c == '\U{205f}' || c == '\U{3000}'
  }

  /** `s.lstrip()` */
  function TrimStart(s: string): (r: string)
    ensures |r| <= |s| && r == s[|s| - |r|..]
  {
    if s != [] && IsSpace(s[0]) then TrimStart(s[1..]) else s
  }

  /** `lstrip` stops at the first character that is not whitespace. */
  lemma {:induction false} TrimStartStops(s: string)
    ensures TrimStart(s) != [] ==> !IsSpace(TrimStart(s)[0])
  {
    if s != [] && IsSpace(s[0]) {
      TrimStartStops(s[1..]);
    }
  }

  /** Everything `lstrip` removes is whitespace. */
  lemma {:induction false} TrimStartRemovesSpaces(s: string)
    ensures forall k :: 0 <= k < |s| - |TrimStart(s)| ==> IsSpace(s[k])
  {
    if s != [] && IsSpace(s[0]) {
      var tail := s[1..];
      assert TrimStart(s) == TrimStart(tail);
      TrimStartRemovesSpaces(tail);
      forall k | 0 <= k < |s| - |TrimStart(s)|
        ensures IsSpace(s[k])
      {
        if k > 0 {
          assert s[k] == tail[k - 1];
        }
      }
    }
  }

  /** `s.rstrip()` */
  function TrimEnd(s: string): (r: string)
    ensures |r| <= |s| && r == s[..|r|]
  {
    if s != [] && IsSpace(s[|s| - 1]) then TrimEnd(s[..|s| - 1]) else s
  }

  /** `rstrip` stops at the last character that is not whitespace. */
  lemma {:induction false} TrimEndStops(s: string)
    ensures TrimEnd(s) != [] ==> !IsSpace(TrimEnd(s)[|TrimEnd(s)| - 1])
  {
    if s != [] && IsSpace(s[|s| - 1]) {
      TrimEndStops(s[..|s| - 1]);
    }
  }

  /** Everything `rstrip` removes is whitespace. */
  lemma {:induction false} TrimEndRemovesSpaces(s: string)
    ensures forall k :: |TrimEnd(s)| <= k < |s| ==> IsSpace(s[k])
  {
    if s != [] && IsSpace(s[|s| - 1]) {
      var init := s[..|s| - 1];
      assert TrimEnd(s) == TrimEnd(init);
      TrimEndRemovesSpaces(init);
      forall k | |TrimEnd(s)| <= k < |s|
        ensures IsSpace(s[k])
      {
        if k < |s| - 1 {
          assert s[k] == init[k];
        }
      }
    }
  }

  /** `s.strip()`: a result that is not empty neither starts nor ends with whitespace. */
  function Strip(s: string): (r: string)
    ensures |r| <= |s|
    ensures r != [] ==> !IsSpace(r[0]) && !IsSpace(r[|r| - 1])
  {
    TrimmedEnds(s);
    TrimEnd(TrimStart(s))
  }

  lemma TrimmedEnds(s: string)
    ensures var r := TrimEnd(TrimStart(s)); r != [] ==> !IsSpace(r[0]) && !IsSpace(r[|r| - 1])
  {
    var t := TrimStart(s);
    TrimStartStops(s);
    TrimEndStops(t);
    var r := TrimEnd(t);
    if r != [] {
      assert r[0] == t[0];
    }
  }

  // ---------------------------------------------------------------------
  // re.search(r'{.*}', s, re.DOTALL)

  /** The position of the first `c` in `s`. */
  function FirstIndex(s: string, c: char): (r: Option<nat>)
    ensures r.Some? ==> r.value < |s| && s[r.value] == c
  {
    if s == [] then None
    else if s[0] == c then Some(0)
    else match FirstIndex(s[1..], c)
      case None => None
      case Some(i) => Some(i + 1)
  }

  /** The position of the last `c` in `s`. */
  function LastIndex(s: string, c: char): (r: Option<nat>)
    ensures r.Some? ==> r.value < |s| && s[r.value] == c
  {
    if s == [] then None
    else if s[|s| - 1] == c then Some(|s| - 1)
    else LastIndex(s[..|s| - 1], c)
  }

  /** No `c` comes before the one found, and none is found only when `s` has none. */
  lemma {:induction false} FirstIndexIsFirst(s: string, c: char)
    ensures FirstIndex(s, c).Some? ==> forall k :: 0 <= k < FirstIndex(s, c).value ==> s[k] != c
    ensures FirstIndex(s, c).None? ==> forall k :: 0 <= k < |s| ==> s[k] != c
  {
    if s != [] && s[0] != c {
      FirstIndexIsFirst(s[1..], c);
      forall k | 1 <= k < |s| ensures s[k] == s[1..][k - 1] {
      }
    }
  }

  /** No `c` comes after the one found, and none is found only when `s` has none. */
  lemma {:induction false} LastIndexIsLast(s: string, c: char)
    ensures LastIndex(s, c).Some? ==> forall k :: LastIndex(s, c).value < k < |s| ==> s[k] != c
    ensures LastIndex(s, c).None? ==> forall k :: 0 <= k < |s| ==> s[k] != c
  {
    if s != [] && s[|s| - 1] != c {
      LastIndexIsLast(s[..|s| - 1], c);
      forall k | 0 <= k < |s| - 1 ensures s[k] == s[..|s| - 1][k] {
      }
    }
  }

  /** `s[i..j+1]` runs from the first '{' of `s` to the last '}' of `s`. */
  ghost predicate FirstOpenToLastClose(s: string, i: int, j: int) {
    && 0 <= i < j < |s| && s[i] == '{' && s[j] == '}'
    && (forall k :: 0 <= k < i ==> s[k] != '{')
    && (forall k :: j < k < |s| ==> s[k] != '}')
  }

  /** The text `re.search(r'{.*}', s, re.DOTALL)` matches: at least the two braces, and part of `s`. */
  function Fragment(s: string): (r: Option<string>)
    ensures r.Some? ==> 2 <= |r.value| <= |s|
  {
    Between(s, FirstIndex(s, '{'), LastIndex(s, '}'))
  }

  /** `s[first..last+1]` when both positions are found and in that order. */
  function Between(s: string, first: Option<nat>, last: Option<nat>): (r: Option<string>)
    requires first.Some? ==> first.value < |s|
    requires last.Some? ==> last.value < |s|
    ensures r.Some? ==> 2 <= |r.value| <= |s|
  {
    if first.Some? && last.Some? && first.value < last.value then Some(s[first.value..last.value + 1]) else None
  }

  /** The search matches exactly when some '{' comes before some '}', and the
      match runs from the first '{' through the last '}': the star is greedy and
      '.' also matches newlines. */
  lemma FragmentMatchesRegex(s: string)
    ensures Fragment(s).Some? <==> exists i, j :: 0 <= i < j < |s| && s[i] == '{' && s[j] == '}'
    ensures Fragment(s).Some? ==> exists i, j :: FirstOpenToLastClose(s, i, j) && Fragment(s).value == s[i..j + 1]
    ensures Fragment(s).Some? ==>
              var f := Fragment(s).value; 2 <= |f| && f[0] == '{' && f[|f| - 1] == '}'
  {
    FirstIndexIsFirst(s, '{');
    LastIndexIsLast(s, '}');
    var first, last := FirstIndex(s, '{'), LastIndex(s, '}');
    if first.Some? && last.Some? && first.value < last.value {
      assert FirstOpenToLastClose(s, first.value, last.value);
    }
  }

  /** A position in `s[a..b]` as a position in `s`. */
  function Shift(p: Option<nat>, a: nat): (r: Option<nat>)
    ensures r.Some? <==> p.Some?
    ensures r.Some? ==> r.value == a + p.value
  {
    match p
    case None => None
    case Some(i) => Some(a + i)
  }

  /** No character outside `s[a..b]` is a brace. */
  ghost predicate BracesInside(s: string, a: int, b: int) {
    && 0 <= a <= b <= |s|
    && (forall k :: 0 <= k < a ==> s[k] != '{' && s[k] != '}')
    && (forall k :: b <= k < |s| ==> s[k] != '{' && s[k] != '}')
  }

  lemma FirstOpenOfSlice(s: string, a: int, b: int)
    requires BracesInside(s, a, b)
    ensures FirstIndex(s, '{') == Shift(FirstIndex(s[a..b], '{'), a)
  {
    var u := s[a..b];
    FirstIndexIsFirst(s, '{');
    FirstIndexIsFirst(u, '{');
    match FirstIndex(u, '{')
    case Some(i) =>
      forall k | 0 <= k < a + i ensures s[k] != '{' {
        if k >= a { assert s[k] == u[k - a]; }
      }
      assert s[a + i] == u[i];
    case None =>
      forall k | 0 <= k < |s| ensures s[k] != '{' {
        if a <= k < b { assert s[k] == u[k - a]; }
      }
  }

  lemma LastCloseOfSlice(s: string, a: int, b: int)
    requires BracesInside(s, a, b)
    ensures LastIndex(s, '}') == Shift(LastIndex(s[a..b], '}'), a)
  {
    var u := s[a..b];
    LastIndexIsLast(s, '}');
    LastIndexIsLast(u, '}');
    match LastIndex(u, '}')
    case Some(j) =>
      forall k | a + j < k < |s| ensures s[k] != '}' {
        if k < b { assert s[k] == u[k - a]; }
      }
      assert s[a + j] == u[j];
    case None =>
      forall k | 0 <= k < |s| ensures s[k] != '}' {
        if a <= k < b { assert s[k] == u[k - a]; }
      }
  }

  lemma SliceOfSlice(s: string, a: int, b: int, i: int, j: int)
    requires 0 <= a <= b <= |s| && 0 <= i <= j <= b - a
    ensures s[a..b][i..j] == s[a + i..a + j]
  {
    var u, v := s[a..b][i..j], s[a + i..a + j];
    forall k | 0 <= k < |u| ensures u[k] == v[k] {
      assert u[k] == s[a..b][i + k];
    }
  }

  /** Characters around `s[a..b]` that are not braces do not change the match. */
  lemma FragmentOfSlice(s: string, a: int, b: int)
    requires BracesInside(s, a, b)
    ensures Fragment(s[a..b]) == Fragment(s)
  {
    var u := s[a..b];
    FirstOpenOfSlice(s, a, b);
    LastCloseOfSlice(s, a, b);
    FragmentShifted(s, a, b);
  }

  /** The step of `FragmentOfSlice` once the braces of `s` are known to be those of `s[a..b]`, shifted by `a`. */
  lemma FragmentShifted(s: string, a: int, b: int)
    requires 0 <= a <= b <= |s|
    requires FirstIndex(s, '{') == Shift(FirstIndex(s[a..b], '{'), a)
    requires LastIndex(s, '}') == Shift(LastIndex(s[a..b], '}'), a)
    ensures Fragment(s[a..b]) == Fragment(s)
  {
    var u := s[a..b];
    var first, last := FirstIndex(u, '{'), LastIndex(u, '}');
    BetweenShifted(s, a, b, first, last);
  }

  lemma BetweenShifted(s: string, a: int, b: int, first: Option<nat>, last: Option<nat>)
    requires 0 <= a <= b <= |s|
    requires first.Some? ==> first.value < b - a
    requires last.Some? ==> last.value < b - a
    ensures Between(s[a..b], first, last) ==
            Between(s, Shift(first, a), Shift(last, a))
  {
    if first.Some? && last.Some? && first.value < last.value {
      SliceOfSlice(s, a, b, first.value, last.value + 1);
    }
  }


  lemma SpaceIsNoBrace(c: char)
    requires IsSpace(c)
    ensures c != '{' && c != '}'
  {
  }

  lemma LeadingSpacesNoBrace(s: string)
    ensures forall k :: 0 <= k < |s| - |TrimStart(s)| ==> s[k] != '{' && s[k] != '}'
  {
    TrimStartRemovesSpaces(s);
    forall k | 0 <= k < |s| - |TrimStart(s)|
      ensures s[k] != '{' && s[k] != '}'
    {
      SpaceIsNoBrace(s[k]);
    }
  }

  lemma TrailingSpacesNoBrace(s: string)
    ensures forall k :: |TrimEnd(s)| <= k < |s| ==> s[k] != '{' && s[k] != '}'
  {
    TrimEndRemovesSpaces(s);
    forall k | |TrimEnd(s)| <= k < |s|
      ensures s[k] != '{' && s[k] != '}'
    {
      SpaceIsNoBrace(s[k]);
    }
  }

  /** `s.strip()` is the slice `s[a..b]`, and every character cut away is whitespace, so no brace. */
  lemma StripSpan(t: string) returns (a: nat, b: nat)
    ensures a <= b <= |t| && Strip(t) == t[a..b]
    ensures BracesInside(t, a, b)
  {
    a := |t| - |TrimStart(t)|;
    b := a + |TrimEnd(TrimStart(t))|;
    StripIsSlice(t, a, b);
    StripCutsNoBrace(t, a, b);
  }

  lemma StripIsSlice(t: string, a: nat, b: nat)
    requires a == |t| - |TrimStart(t)| && b == a + |TrimEnd(TrimStart(t))|
    ensures a <= b <= |t| && Strip(t) == t[a..b]
  {
    PrefixOfSuffix(t, TrimStart(t), TrimEnd(TrimStart(t)));
  }

  /** A prefix `u` of a suffix `v` of `t` is the slice of `t` where `v` starts. */
  lemma PrefixOfSuffix(t: string, v: string, u: string)
    requires |v| <= |t| && v == t[|t| - |v|..]
    requires |u| <= |v| && u == v[..|u|]
    ensures u == t[|t| - |v|..|t| - |v| + |u|]
  {
    forall k | 0 <= k < |u| ensures u[k] == t[|t| - |v| + k] {
      assert u[k] == v[k];
    }
  }

  lemma StripCutsNoBrace(t: string, a: nat, b: nat)
    requires a == |t| - |TrimStart(t)| && b == a + |TrimEnd(TrimStart(t))|
    ensures BracesInside(t, a, b)
  {
    LeadingSpacesNoBrace(t);
    TrailingSpacesNoBrace(TrimStart(t));
    BordersNoBrace(t, TrimStart(t), |TrimEnd(TrimStart(t))|);
  }

  /** No brace before the suffix `v` of `t`, and none in `v` from `n` on: the braces of `t`
      all lie in the first `n` characters of `v`. */
  lemma BordersNoBrace(t: string, v: string, n: nat)
    requires |v| <= |t| && v == t[|t| - |v|..] && n <= |v|
    requires forall k :: 0 <= k < |t| - |v| ==> t[k] != '{' && t[k] != '}'
    requires forall k :: n <= k < |v| ==> v[k] != '{' && v[k] != '}'
    ensures BracesInside(t, |t| - |v|, |t| - |v| + n)
  {
    forall k | |t| - |v| + n <= k < |t|
      ensures t[k] != '{' && t[k] != '}'
    {
      assert t[k] == v[k - (|t| - |v|)];
    }
  }

  /** Stripping the reply first never changes the fragment found in it. */
  lemma FragmentIgnoresStrip(t: string)
    ensures Fragment(Strip(t)) == Fragment(t)
  {
    var a, b := StripSpan(t);
    FragmentOfSlice(t, a, b);
  }

  // ---------------------------------------------------------------------
  // The extractor

  /** `{"city": None, "forecast_date": None, "hour": None}`: the record used when the reply has no fragment. */
  function NullRecord(): (r: map<string, Value>)
    ensures r.Keys == {"city", "forecast_date", "hour"}
    ensures forall k :: k in r ==> r[k] == Null
  {
    map["city" := Null, "forecast_date" := Null, "hour" := Null]
  }

  /** `{"city": "Berlin", "forecast_days": 1, "hour": None, "error": str(e)}`: the record returned when any step raises. */
  function FallbackRecord(message: string): (r: map<string, Value>)
    ensures r.Keys == {"city", "forecast_days", "hour", "error"}
    ensures "forecast_date" !in r
    ensures r["city"] == Str("Berlin") && r["forecast_days"] == Int(1) && r["hour"] == Null
    ensures r["error"] == Str(message)
  {
    assert "forecast_date"[11] != "forecast_days"[11];
    map["city" := Str("Berlin"), "forecast_days" := Int(1), "hour" := Null, "error" := Str(message)]
  }

  /** The dictionary the reply yields before defaults are applied, or the exception raised on the
      way. Stripping does not matter: the fragment is the raw reply's. */
  function ReplyRecord(reply: LlmReply, decode: Decoder): (r: Result<map<string, Value>>)
    ensures reply.LlmFailed? ==> r.Err? && r.error.message == reply.message
    ensures reply.LlmText? ==>
              r == (if Fragment(reply.text).Some? then decode(Fragment(reply.text).value) else Ok(NullRecord()))
  {
    match reply
    case LlmFailed(message) => Err(ServiceError(message))
    case LlmText(text) =>
      FragmentIgnoresStrip(text);
      match Fragment(Strip(text))
      case None => Ok(NullRecord())
      case Some(fragment) => decode(fragment)
  }

  /** The reply names a target date that `strptime` rejects, so the extractor falls back. */
  predicate DateRejected(d: map<string, Value>) {
    Truthy(Get(d, "forecast_date")) && ParseDate(Get(d, "forecast_date")).Err?
  }

  /** `forecast_days` for an accepted record: `(target - today).days + 1`, or 1 without a target. */
  function ForecastDaysFor(d: map<string, Value>, today: Date): int
    requires ValidDate(today) && !DateRejected(d)
  {
    var target := Get(d, "forecast_date");
    if Truthy(target) then ForecastDays(ParseDate(target).value, today) else 1
  }

  /** The success-path properties of the extractor's result `r` for the decoded record `d`. */
  ghost predicate CompletesRecord(d: map<string, Value>, r: map<string, Value>, today: Date)
    requires ValidDate(today) && !DateRejected(d)
  {
    && r.Keys == d.Keys + {"city", "hour", "forecast_days"}
    && (forall k :: k in d && k != "forecast_days" ==> r[k] == d[k])
    && ("city" !in d ==> r["city"] == Str("Berlin"))
    && ("hour" !in d ==> r["hour"] == Null)
    && r["forecast_days"] == Int(ForecastDaysFor(d, today))
  }

  /** The `setdefault` calls for "city" and "hour", then "forecast_days" from the
      target date; `strptime` may raise. */
  method CompleteRecord(d: map<string, Value>, today: Date) returns (r: Result<map<string, Value>>)
    requires ValidDate(today)
    ensures DateRejected(d) <==> r.Err?
    ensures r.Err? ==> r.error == ParseDate(d["forecast_date"]).error
    ensures r.Ok? ==> CompletesRecord(d, r.value, today)
    ensures r.Ok? ==> Get(r.value, "forecast_date") == Get(d, "forecast_date")
    ensures r.Ok? && Truthy(Get(r.value, "forecast_date")) ==> ParseDate(r.value["forecast_date"]).Ok?
    ensures d == NullRecord() ==> r == Ok(NullRecord()["forecast_days" := Int(1)])
  {
    assert "forecast_date"[11] != "forecast_days"[11];
    var resultDict := SetDefault(d, "city", Str("Berlin"));
    resultDict := SetDefault(resultDict, "hour", Null);

    var targetDateStr := Get(resultDict, "forecast_date");
    assert targetDateStr == Get(d, "forecast_date");
    if Truthy(targetDateStr) {
      var targetDate := ParseDate(targetDateStr);
      if targetDate.Err? {
        return Err(targetDate.error);
      }
      resultDict := resultDict["forecast_days" := Int(ForecastDays(targetDate.value, today))];
    } else {
      resultDict := resultDict["forecast_days" := Int(1)];
    }
    return Ok(resultDict);
  }

  /** The body of the extractor's `try`, from the model call to the completed record: every
      exception becomes an `Err` outcome. */
  method TryExtract(reply: LlmReply, decode: Decoder, today: Date) returns (outcome: Result<map<string, Value>>)
    requires ValidDate(today)
    ensures ReplyRecord(reply, decode).Err? ==> outcome == ReplyRecord(reply, decode)
    ensures ReplyRecord(reply, decode).Ok? ==>
              var d := ReplyRecord(reply, decode).value;
              && (outcome.Err? <==> DateRejected(d))
              && (outcome.Err? ==> outcome.error == ParseDate(d["forecast_date"]).error)
              && (outcome.Ok? ==> CompletesRecord(d, outcome.value, today))
              && (outcome.Ok? ==> Get(outcome.value, "forecast_date") == Get(d, "forecast_date"))
    ensures outcome.Ok? && Truthy(Get(outcome.value, "forecast_date")) ==> ParseDate(outcome.value["forecast_date"]).Ok?
    ensures reply.LlmText? && Fragment(Strip(reply.text)).None? ==> outcome == Ok(NullRecord()["forecast_days" := Int(1)])
  {
    if reply.LlmFailed? {
      return Err(ServiceError(reply.message));
    }
    var resultText := Strip(reply.text);
    var fragment := Fragment(resultText);
    var resultDict: map<string, Value>;
    if fragment.Some? {
      var decoded := decode(fragment.value);
      if decoded.Err? {
        return decoded;
      }
      resultDict := decoded.value;
    } else {
      resultDict := NullRecord();
    }
    assert ReplyRecord(reply, decode) == Ok(resultDict);
    outcome := CompleteRecord(resultDict, today);
  }

  /** The record the extractor returns for `reply`: the fallback when the model call or
      `json.loads` raised, the fallback when `strptime` rejected the date, and otherwise the
      completed reply record. */
  ghost predicate ExtractedFrom(reply: LlmReply, decode: Decoder, today: Date, r: map<string, Value>)
    requires ValidDate(today)
  {
    var record := ReplyRecord(reply, decode);
    if record.Err? then r == FallbackRecord(record.error.message)
    else if DateRejected(record.value) then r == FallbackRecord(ParseDate(record.value["forecast_date"]).error.message)
    else CompletesRecord(record.value, r, today)
  }

  /** `get_city_and_forecast_days_for_weatherapi` after the model call: it never raises. */
  method ExtractCityAndForecastDays(reply: LlmReply, decode: Decoder, today: Date) returns (r: map<string, Value>)
    requires ValidDate(today)
    ensures "city" in r && "hour" in r && "forecast_days" in r && r["forecast_days"].Int?
    // a date that reaches the caller always parses again
    ensures Truthy(Get(r, "forecast_date")) ==> ParseDate(r["forecast_date"]).Ok?
    // the model call or json.loads raised
    ensures ReplyRecord(reply, decode).Err? ==> r == FallbackRecord(ReplyRecord(reply, decode).error.message)
    // strptime raised
    ensures ReplyRecord(reply, decode).Ok? && DateRejected(ReplyRecord(reply, decode).value) ==>
              r == FallbackRecord(ParseDate(ReplyRecord(reply, decode).value["forecast_date"]).error.message)
    // success: the reply's keys survive, only "city"/"hour" are added when absent and "forecast_days" is set
    ensures ReplyRecord(reply, decode).Ok? && !DateRejected(ReplyRecord(reply, decode).value) ==>
              CompletesRecord(ReplyRecord(reply, decode).value, r, today)
    // no fragment: city stays None, it does not become "Berlin"
    ensures reply.LlmText? && Fragment(Strip(reply.text)).None? ==> r == NullRecord()["forecast_days" := Int(1)]
    ensures ExtractedFrom(reply, decode, today, r)
  {
    var outcome := TryExtract(reply, decode, today);
    if outcome.Err? {
      r := FallbackRecord(outcome.error.message);
    } else {
      r := outcome.value;
    }
  }
}
