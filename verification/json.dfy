/** JSON values as the service receives and returns them (section 3 of
    RFC 8259): null, booleans, numbers, strings, arrays and objects. */
module Json {

  /** A parsed JSON document. Numbers are exact decimals
      `mantissa * 10^exponent`; object members keep the order in which they
      were received, since serialisation writes them back in that order. */
  datatype Value =
    | Null
    | Bool(b: bool)
    | Number(mantissa: int, exponent: int)
    | String(str: string)
    | Array(items: seq<Value>)
    | Object(members: seq<(string, Value)>)

  /** Python's truthiness of the parsed value, the test behind `if not payload`:
      a value is falsy exactly when it is null, false, zero, the empty string,
      the empty array or the empty object. */
  function Truthy(v: Value): (t: bool)
    ensures !t <==>
      || v == Null
      || v == Bool(false)
      || (v.Number? && v.mantissa == 0)
      || v == String("")
      || v == Array([])
      || v == Object([])
  {
    match v
    case Null => false
    case Bool(b) => b
    case Number(m, _) => m != 0
    case String(s) => |s| > 0
    case Array(a) => |a| > 0
    case Object(o) => |o| > 0
  }

}
