/** `objectValues` (src/app/utils/object-values.ts): the string and number
    values found in an object, depth first, in key iteration order. */
module ObjectValues {
  import opened JsValue

  predicate IsScalar(v: Value) {
    v.Number? || v.Str?
  }

  /** `objectValues(obj)`: `[]` unless `typeof obj === 'object'` and
      `obj !== null`; otherwise every own property contributes. */
  function ObjectValues(v: Value): (r: seq<Value>)
    ensures TypeOf(v) != "object" || v.Null? ==> r == []
    ensures forall i :: 0 <= i < |r| ==> IsScalar(r[i])
    decreases v, 0
  {
    match v
    case Object(ps) => PropsValues(ps)
    case Array(items) => ItemsValues(items)
    case _ => []
  }

  /** What one property value adds: itself when it is a number or a string,
      its own flattening when `typeof` says "object" (a nested `null`
      flattens to nothing), and nothing for booleans, `undefined` and
      functions. */
  function Contribution(x: Value): (r: seq<Value>)
    ensures forall i :: 0 <= i < |r| ==> IsScalar(r[i])
    decreases x, 1
  {
    match TypeOf(x)
    case "number" => [x]
    case "string" => [x]
    case "object" => ObjectValues(x)
    case _ => []
  }

  function PropsValues(ps: seq<Prop>): (r: seq<Value>)
    ensures forall i :: 0 <= i < |r| ==> IsScalar(r[i])
    decreases ps
  {
    if ps == [] then [] else Contribution(ps[0].val) + PropsValues(ps[1..])
  }

  function ItemsValues(items: seq<Value>): (r: seq<Value>)
    ensures forall i :: 0 <= i < |r| ==> IsScalar(r[i])
    decreases items
  {
    if items == [] then [] else Contribution(items[0]) + ItemsValues(items[1..])
  }

  /** Properties contribute in key order: the values of an object whose
      properties are `a` followed by `b` are those of `a` followed by those
      of `b`. */
  lemma {:induction false} ObjectValuesConcat(a: seq<Prop>, b: seq<Prop>)
    ensures ObjectValues(Object(a + b)) == ObjectValues(Object(a)) + ObjectValues(Object(b))
  {
    if a == [] {
      assert a + b == b;
    } else {
      assert (a + b)[0] == a[0];
      assert (a + b)[1..] == a[1..] + b;
      ObjectValuesConcat(a[1..], b);
    }
  }

  /** A single property: a string or number is kept, a nested object or
      array is flattened in place, and null, booleans, `undefined` and
      functions add nothing. */
  lemma SingleProperty(k: string, x: Value)
    ensures (x.Number? || x.Str?) ==> ObjectValues(Object([Prop(k, x)])) == [x]
    ensures (x.Object? || x.Array?) ==> ObjectValues(Object([Prop(k, x)])) == ObjectValues(x)
    ensures (x.Null? || x.Bool? || x.Undefined? || x.Function?) ==> ObjectValues(Object([Prop(k, x)])) == []
  {
    var ps := [Prop(k, x)];
    assert ps[1..] == [];
    assert PropsValues(ps) == Contribution(x) + PropsValues([]);
  }

  /** An array is flattened exactly like an object whose keys are its
      indices, which is what `for...in` iterates over. */
  lemma {:induction false} ArrayIsIndexedObject(items: seq<Value>, from: nat)
    ensures ObjectValues(Array(items)) == ObjectValues(Object(IndexProps(items, from)))
    decreases items
  {
    if items != [] {
      ArrayIsIndexedObject(items[1..], from + 1);
      assert ItemsValues(items) == Contribution(items[0]) + ItemsValues(items[1..]);
    }
  }
}
