/** Python-level values the pipeline handles: the JSON-like values that
    `json.loads` produces and that dictionaries hold, Python truthiness,
    `dict.get`, exceptions as values, and `str` of an integer. */
module PyValues {

  /** A value decoded from JSON (non-integral numbers are not modelled). */
  datatype Value =
    | Null
    | Bool(b: bool)
    | Int(i: int)
    | Str(s: string)
    | List(items: seq<Value>)
    | Dict(entries: map<string, Value>)

  datatype Option<T> = None | Some(value: T)

  /** The exceptions the core raises or catches, each with the text `str(e)` gives. */
  datatype Exception =
    | TypeError(message: string)
    | ValueError(message: string)
    | ServiceError(message: string)   // raised by an external client library

  datatype Result<T> = Ok(value: T) | Err(error: Exception)

  /** The values `bool` maps to False. */
  const Falsy: set<Value> := {Null, Bool(false), Int(0), Str([]), List([]), Dict(map[])}

  /** Python's `bool(v)`: None, False, 0 and empty containers are false, everything else true. */
  predicate Truthy(v: Value)
    ensures Truthy(v) <==> v !in Falsy
  {
    match v
    case Null => false
    case Bool(b) => b
    case Int(i) => i != 0
    case Str(s) => s != []
    case List(items) => items != []
    case Dict(entries) => entries != map[]
  }

  /** `type(v).__name__` */
  function TypeName(v: Value): string {
    match v
    case Null => "NoneType"
    case Bool(_) => "bool"
    case Int(_) => "int"
    case Str(_) => "str"
    case List(_) => "list"
    case Dict(_) => "dict"
  }

  /** `d.get(key)`: the stored value, or None when the key is absent. */
  function Get(d: map<string, Value>, key: string): (v: Value)
    ensures key in d ==> v == d[key]
    ensures key !in d ==> v == Null
  {
    if key in d then d[key] else Null
  }

  /** `d.setdefault(key, default)` as a new dictionary: the key is added only when absent. */
  function SetDefault(d: map<string, Value>, key: string, default: Value): (r: map<string, Value>)
    ensures r.Keys == d.Keys + {key}
    ensures key !in d ==> r[key] == default
    ensures forall k :: k in d ==> r[k] == d[k]
  {
    if key in d then d else d[key := default]
  }

  function DigitChar(n: int): char
    requires 0 <= n < 10
  {
    ('0' as int + n) as char
  }

  /** An ASCII decimal digit. */
  predicate IsDigit(c: char) {
    '0' <= c <= '9'
  }

  function DigitValue(c: char): (n: int)
    requires IsDigit(c)
    ensures 0 <= n < 10
  {
    c as int - '0' as int
  }

  predicate AllDigits(s: string) {
    forall k :: 0 <= k < |s| ==> IsDigit(s[k])
  }

  /** The number a string of decimal digits denotes. */
  function DigitsValue(s: string): int
    requires AllDigits(s)
  {
    if s == [] then 0 else 10 * DigitsValue(s[..|s| - 1]) + DigitValue(s[|s| - 1])
  }

  /** `int(s)` on text of the form `str` writes for an integer: an optional '-' and then digits. */
  function ReadInt(s: string): Option<int> {
    if |s| > 1 && s[0] == '-' && AllDigits(s[1..]) then Some(-DigitsValue(s[1..]))
    else if s != [] && AllDigits(s) then Some(DigitsValue(s))
    else None
  }

  function NatToString(n: nat): (s: string)
    ensures s != [] && AllDigits(s)
  {
    if n < 10 then [DigitChar(n)] else NatToString(n / 10) + [DigitChar(n % 10)]
  }

  /** The decimal digits of `n` denote `n`. */
  lemma {:induction false} NatToStringValue(n: nat)
    ensures DigitsValue(NatToString(n)) == n
  {
    var s := NatToString(n);
    if n >= 10 {
      NatToStringValue(n / 10);
      assert s[..|s| - 1] == NatToString(n / 10);
    }
  }

  /** `str(n)` for an integer: reading the text back gives `n`, so distinct integers are written differently. */
  function IntToString(n: int): (s: string)
    ensures ReadInt(s) == Some(n)
  {
    if n < 0 then
      var digits := NatToString(-n);
      NatToStringValue(-n);
      assert ("-" + digits)[1..] == digits;
      "-" + digits
    else
      NatToStringValue(n);
      NatToString(n)
  }
}
