/** JSON values as Python holds them after `json.loads`, with the parts of
    Python's semantics the pantry code relies on: truthiness, `int(...)`,
    `in` and the type names in `TypeError` messages. */
module JsonValue {
  import opened Wrappers
  import opened Sequences

  datatype Json =
    | JNull
    | JBool(b: bool)
    | JInt(i: int)
    | JFloat(f: real)
    | JStr(s: string)
    | JArr(elems: seq<Json>)
    | JObj(fields: map<string, Json>)

  /** Python's `bool(v)`. */
  predicate Truthy(v: Json) {
    match v
    case JNull => false
    case JBool(b) => b
    case JInt(i) => i != 0
    case JFloat(f) => f != 0.0
    case JStr(s) => s != ""
    case JArr(a) => a != []
    case JObj(m) => m != map[]
  }

  /** `type(v).__name__`. */
  function TypeName(v: Json): string {
    match v
    case JNull => "NoneType"
    case JBool(_) => "bool"
    case JInt(_) => "int"
    case JFloat(_) => "float"
    case JStr(_) => "str"
    case JArr(_) => "list"
    case JObj(_) => "dict"
  }

  /** The value of a string of decimal digits. */
  function Decimal(s: string): (n: nat)
    requires forall i :: 0 <= i < |s| ==> IsDigit(s[i])
  {
    if s == [] then 0
    else
      Decimal(s[..|s| - 1]) * 10 + DigitValue(s[|s| - 1])
  }

  predicate AllDigits(s: string) {
    s != [] && forall i :: 0 <= i < |s| ==> IsDigit(s[i])
  }

  /** `int(s)` for a string: an optional sign and decimal digits. */
  function IntOfText(s: string): (r: Option<int>)
    ensures r.Some? ==> s != []
  {
    if AllDigits(s) then Some(Decimal(s))
    else if |s| > 1 && s[0] == '+' && AllDigits(s[1..]) then Some(Decimal(s[1..]))
    else if |s| > 1 && s[0] == '-' && AllDigits(s[1..]) then Some(0 - Decimal(s[1..]))
    else None
  }

  /** Python's `int(v)`: booleans are 0 and 1, floats truncate toward zero,
      strings are read as decimals; None, lists and dicts raise. */
  function ToInt(v: Json): (r: Option<int>)
    ensures v.JInt? ==> r == Some(v.i)
    ensures v.JFloat? && v.f >= 0.0 ==> r.Some? && r.value as real <= v.f < r.value as real + 1.0
    ensures v.JFloat? && v.f < 0.0 ==> r.Some? && r.value as real - 1.0 < v.f <= r.value as real
    ensures v.JNull? || v.JArr? || v.JObj? ==> r == None
  {
    match v
    case JBool(b) => Some(if b then 1 else 0)
    case JInt(i) => Some(i)
    case JFloat(f) => Some(if f >= 0.0 then f.Floor else -((-f).Floor))
    case JStr(s) => IntOfText(s)
    case _ => None
  }

  /** `s in t` for two strings: `s` occurs in `t`. */
  predicate Contains(t: string, s: string)
    decreases |t|
  {
    s <= t || (t != [] && Contains(t[1..], s))
  }
}
