/** The slice of JSON the assignment validator inspects: a request body that
    is a JSON object, seen as a map from member names to values. */
module Json {

  /** A JSON value as Python sees it after `request.get_json()`.
      `JOther` stands for every value the validator never tells apart
      (floats, arrays, nested objects). */
  datatype JVal = JStr(str: string) | JInt(num: int) | JBool(flag: bool) | JNull | JOther

  /** A JSON object payload. */
  type Payload = map<string, JVal>

  /** Python's `dict.get(key)`: a missing member reads as `None`. */
  function Get(data: Payload, key: string): JVal
  {
    if key in data then data[key] else JNull
  }

  /** Python's `isinstance(v, int)`; `bool` is a subclass of `int`. */
  predicate IsInt(v: JVal)
  {
    v.JInt? || v.JBool?
  }

  /** The integer a Python `int` (or `bool`) stands for. */
  function IntValue(v: JVal): int
    requires IsInt(v)
  {
    match v
    case JInt(n) => n
    case JBool(b) => if b then 1 else 0
  }

  /** An integer (or boolean) whose value lies in the inclusive range [1, 100]. */
  predicate IsIntInRange(v: JVal)
  {
    IsInt(v) && 1 <= IntValue(v) <= 100
  }
}
