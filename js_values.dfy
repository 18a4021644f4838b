/** The JavaScript values that flow through attribute accessors and type strategies. */
module JsValues {

  /**
   * A JavaScript value. Numbers are integers only. An object keeps its own
   * enumerable properties in enumeration order, since JSON.stringify emits them
   * in that order; nothing here rules out a repeated key, which a JavaScript
   * object cannot have. A Date carries its integer time value (milliseconds since
   * 1970-01-01T00:00:00Z); an Invalid Date is the Date whose time value is NaN.
   */
  datatype JsValue =
    | Undefined
    | Null
    | Bool(b: bool)
    | Int(i: int)
    | Str(s: string)
    | Obj(props: seq<(string, JsValue)>)
    | Arr(elems: seq<JsValue>)
    | DateV(time: int)
    | InvalidDate

  /** The result of the `typeof` operator: "object" for null, objects, arrays and dates. */
  function TypeOf(v: JsValue): (t: string)
    ensures t in {"undefined", "boolean", "number", "string", "object"}
    ensures t == "object" <==> v.Null? || v.Obj? || v.Arr? || v.DateV? || v.InvalidDate?
    ensures t == "string" <==> v.Str?
    ensures t == "undefined" <==> v.Undefined?
  {
    match v
    case Undefined => "undefined"
    case Bool(_) => "boolean"
    case Int(_) => "number"
    case Str(_) => "string"
    case _ => "object"
  }

  /** ToBoolean: the falsy values are undefined, null, false, 0 and the empty string; every object is truthy. */
  function Truthy(v: JsValue): (b: bool)
    ensures !b <==> v in {Undefined, Null, Bool(false), Int(0), Str("")}
    ensures TypeOf(v) == "object" && !v.Null? ==> b
  {
    match v
    case Undefined => false
    case Null => false
    case Bool(b) => b
    case Int(i) => i != 0
    case Str(s) => s != ""
    case _ => true
  }

}
