/** Loosely typed JavaScript values, for the code that inspects values with
    `typeof`, truthiness and property access. Numbers are modelled by their
    integer values; array elements are reached through their indices only. */
module JsValue {
  import Strings

  datatype Value =
    | Undefined
    | Null
    | Bool(b: bool)
    | Number(n: int)
    | Str(s: string)
    | Function
    | Array(items: seq<Value>)
    | Object(props: seq<Prop>)

  /** An own enumerable property, in the object's key iteration order. */
  datatype Prop = Prop(key: string, val: Value)

  /** The `typeof` operator. */
  function TypeOf(v: Value): string {
    match v
    case Undefined => "undefined"
    case Null => "object"
    case Bool(_) => "boolean"
    case Number(_) => "number"
    case Str(_) => "string"
    case Function => "function"
    case Array(_) => "object"
    case Object(_) => "object"
  }

  /** ToBoolean: the values an `if` or `&&` treats as true. */
  predicate Truthy(v: Value) {
    match v
    case Undefined => false
    case Null => false
    case Bool(b) => b
    case Number(n) => n != 0
    case Str(s) => s != ""
    case _ => true
  }

  /** Value of the first property named `key`, or `undefined`. */
  function Lookup(props: seq<Prop>, key: string): Value {
    if props == [] then Undefined
    else if props[0].key == key then props[0].val
    else Lookup(props[1..], key)
  }

  /** `v[key]` for a key that is not an array index. Reading a property of
      `undefined` or `null` throws a TypeError, hence the precondition. */
  function Get(v: Value, key: string): Value
    requires !v.Undefined? && !v.Null?
  {
    if v.Object? then Lookup(v.props, key) else Undefined
  }

  /** `v[key] = x` on an object: replaces the first property named `key`, or
      appends a new one. */
  function SetProp(props: seq<Prop>, key: string, x: Value): (r: seq<Prop>)
    ensures Lookup(r, key) == x
    ensures forall k :: k != key ==> Lookup(r, k) == Lookup(props, k)
  {
    if props == [] then [Prop(key, x)]
    else if props[0].key == key then [Prop(key, x)] + props[1..]
    else [props[0]] + SetProp(props[1..], key, x)
  }

  /** The keys `for...in` yields for an array, "0" to "n-1", paired with the
      elements. */
  function IndexProps(items: seq<Value>, from: nat): (r: seq<Prop>)
    ensures |r| == |items|
    ensures forall i :: 0 <= i < |items| ==> r[i].val == items[i]
  {
    if items == [] then []
    else [Prop(Strings.NatToString(from), items[0])] + IndexProps(items[1..], from + 1)
  }
}
