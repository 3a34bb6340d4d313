/** The value `json.loads` hands back, and the two Python operators the
    critical-condition rule applies to it. */
module JsonValue {
  import opened Results

  /** A parsed JSON document as Python sees it. Numbers keep Python's
      `int`/`float` split; a float is a finite real. An object is a `dict`,
      so a key occurs once (with duplicate keys in the text, the last wins). */
  datatype Json =
    | JNull
    | JBool(b: bool)
    | JInt(i: int)
    | JFloat(x: real)
    | JString(s: string)
    | JArray(items: seq<Json>)
    | JObject(fields: map<string, Json>)

  /** Python's `d.get(key, default)` on a dict. */
  function Get(fields: map<string, Json>, key: string, default: Json): Json {
    if key in fields then fields[key] else default
  }

  /** The number a value stands for in Python arithmetic comparisons, where
      `bool` is a subclass of `int`; `None` for values that are not numbers. */
  function Numeric(j: Json): (r: Option<real>)
    ensures r.Some? <==> (j.JBool? || j.JInt? || j.JFloat?)
  {
    match j
    case JBool(b) => Some(if b then 1.0 else 0.0)
    case JInt(i) => Some(i as real)
    case JFloat(x) => Some(x)
    case _ => None
  }

  /** Python's `j == n` for an integer `n`: numbers (and booleans) compare by
      value, every other value is simply unequal, never an error. */
  function EqualsInt(j: Json, n: int): (r: bool)
    ensures r <==> j == JInt(n) || j == JFloat(n as real) || (j == JBool(n == 1) && (n == 0 || n == 1))
  {
    Numeric(j) == Some(n as real)
  }

  /** Python's `j > n` for an integer `n`: a `TypeError` (`None` here) unless
      `j` is a number or a boolean. */
  function GreaterThan(j: Json, n: int): (r: Option<bool>)
    ensures r.Some? <==> Numeric(j).Some?
    ensures j.JInt? ==> r == Some(j.i > n)
  {
    match Numeric(j)
    case Some(v) => Some(v > n as real)
    case None => None
  }
}
