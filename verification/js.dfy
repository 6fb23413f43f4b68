/** The fragment of JavaScript values that the helpers look at: primitives,
    plain and non-plain objects, and the truthiness test used by `if (x)`,
    `!x` and `x || y`. */
module Js {

  /** A JavaScript number. `-0` is folded into `Finite(0.0)`. The truthiness
      and `> 0` tests are unaffected, but a `-0` that `getCSSVar` returns or
      `getCSSVars` stores comes back as `0`. */
  datatype Num = Finite(r: real) | Infinity(negative: bool) | NaN

  /** The prototype an object was created with; only `ObjectPrototype` makes a
      plain object. */
  datatype Proto =
    | ObjectPrototype
    | ArrayPrototype
    | FunctionPrototype
    | BooleanPrototype
    | NumberPrototype
    | StringPrototype
    | NoPrototype
    | ClassPrototype(name: string)

  /** An object is described by its prototype and its own enumerable
      string-keyed properties. */
  datatype Value =
    | Undefined
    | Null
    | Bool(b: bool)
    | Number(n: Num)
    | Str(s: string)
    | Object(proto: Proto, props: map<string, Value>)

  /** ToBoolean: `false`, `0`, `-0`, `NaN`, `""`, `null` and `undefined` are falsy. */
  predicate Truthy(v: Value) {
    match v
    case Undefined => false
    case Null => false
    case Bool(b) => b
    case Number(n) => n != NaN && n != Finite(0.0)
    case Str(s) => s != ""
    case Object(_, _) => true
  }

  predicate IsPositive(n: Num) {
    match n
    case Finite(r) => r > 0.0
    case Infinity(negative) => !negative
    case NaN => false
  }

  /** `Object.getPrototypeOf(v)`, which boxes primitives; it throws only for
      `null` and `undefined`, which are excluded. */
  function PrototypeOf(v: Value): Proto
    requires v != Undefined && v != Null
  {
    match v
    case Bool(_) => BooleanPrototype
    case Number(_) => NumberPrototype
    case Str(_) => StringPrototype
    case Object(proto, _) => proto
  }

  /** Property read `o[key]`: a missing own key reads as `undefined`. */
  function Get(props: map<string, Value>, key: string): (v: Value)
    ensures key !in props ==> v == Undefined
    ensures key in props ==> v == props[key]
  {
    if key in props then props[key] else Undefined
  }
}
