/** Runtime guards for primitive values, decided by the value's `typeof` tag. */
module Guards {

  /** A JavaScript runtime value, as far as `typeof` can tell values apart.
      Numbers are modelled as reals; symbols, objects and functions by an
      identity. */
  datatype JsValue =
    | Undefined
    | Null
    | Bool(b: bool)
    | Num(n: real)
    | BigInt(i: int)
    | Str(s: string)
    | Symbol(symbolId: nat)
    | Obj(objectId: nat)
    | Func(functionId: nat)

  /** The `typeof` operator. `null` reports "object". */
  function TypeOf(v: JsValue): (tag: string)
    ensures tag in {"undefined", "object", "boolean", "number", "bigint", "string", "symbol", "function"}
    ensures tag == "object" <==> v.Null? || v.Obj?
  {
    match v
    case Undefined => "undefined"
    case Null => "object"
    case Bool(_) => "boolean"
    case Num(_) => "number"
    case BigInt(_) => "bigint"
    case Str(_) => "string"
    case Symbol(_) => "symbol"
    case Obj(_) => "object"
    case Func(_) => "function"
  }

  /** `isNumber`: the value is a number. */
  function IsNumber(v: JsValue): (r: bool)
    ensures r <==> v.Num?
  {
    TypeOf(v) == "number"
  }

  /** `isBoolean`: the value is a boolean. */
  function IsBoolean(v: JsValue): (r: bool)
    ensures r <==> v.Bool?
  {
    TypeOf(v) == "boolean"
  }

  /** `isString`: the value is a string. */
  function IsString(v: JsValue): (r: bool)
    ensures r <==> v.Str?
  {
    TypeOf(v) == "string"
  }

  /** `isStringMatch`: checks both arguments with `isString`, discards those
      results, and compares the strings with `===`. */
  function IsStringMatch(v: string, w: string): (r: bool)
    ensures r <==> v == w
  {
    var vChecked := IsString(Str(v));
    var wChecked := IsString(Str(w));
    v == w
  }

  /** No value passes two of the primitive guards. */
  lemma AtMostOnePrimitive(v: JsValue)
    ensures !(IsNumber(v) && IsBoolean(v))
    ensures !(IsNumber(v) && IsString(v))
    ensures !(IsBoolean(v) && IsString(v))
  {
  }

  lemma IsStringMatchReflexive(v: string)
    ensures IsStringMatch(v, v)
  {
  }

  lemma IsStringMatchSymmetric(v: string, w: string)
    ensures IsStringMatch(v, w) == IsStringMatch(w, v)
  {
  }

  /** The recorded cases: 1 is a number, `false` is not. */
  lemma IsNumberExamples()
    ensures IsNumber(Num(1.0))
    ensures !IsNumber(Bool(false))
  {
  }
}
