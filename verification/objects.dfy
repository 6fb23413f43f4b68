/** The small object helpers: `extractAsObject`, `isObjectEmpty`, `kmap` and
    `vmap`. An object is a table from string keys to values. */
module Objects {
  import opened Wrappers
  import opened Js

  /** A JavaScript object whose properties are updated in place. */
  class JsObject {
    var props: map<string, Value>

    /** `{}`. */
    constructor ()
      ensures props == map[]
    {
      props := map[];
    }
  }

  /** The properties of `to` after `to[key] = from[key]` for every key of
      `attributes`, in order. */
  function Assigned(to: map<string, Value>, from: map<string, Value>, attributes: seq<string>): map<string, Value>
    decreases |attributes|
  {
    if attributes == [] then to
    else Assigned(to[attributes[0] := Get(from, attributes[0])], from, attributes[1..])
  }

  /** The three-argument `extractAsObject(from, to, attributes)`: copies the
      listed keys of `from` into `to` in place and returns `undefined`. */
  method ExtractInto(from: map<string, Value>, to: JsObject, attributes: seq<string>)
    modifies to
    ensures to.props == Assigned(old(to.props), from, attributes)
  {
    for i := 0 to |attributes|
      invariant Assigned(to.props, from, attributes[i..]) == Assigned(old(to.props), from, attributes)
    {
      var key := attributes[i];
      assert attributes[i..][1..] == attributes[i + 1..];
      to.props := to.props[key := Get(from, key)];
    }
  }

  /** The two-argument `extractAsObject(from, attributes)`: the same copy into a
      fresh `{}`, which is returned. */
  method ExtractAsObject(from: map<string, Value>, attributes: seq<string>) returns (r: JsObject)
    ensures fresh(r)
    ensures r.props == Assigned(map[], from, attributes)
  {
    r := new JsObject();
    ExtractInto(from, r, attributes);
  }

  /** What the copy does: the listed keys get `from`'s values (`undefined` for a
      key `from` lacks), every other key of `to` keeps its value, and no other
      key appears. */
  lemma {:induction false} AssignedProps(to: map<string, Value>, from: map<string, Value>, attributes: seq<string>)
    ensures Assigned(to, from, attributes).Keys == to.Keys + set k | k in attributes
    ensures forall k :: k in attributes ==> Assigned(to, from, attributes)[k] == Get(from, k)
    ensures forall k :: k in to && k !in attributes ==> Assigned(to, from, attributes)[k] == to[k]
    decreases |attributes|
  {
    if attributes != [] {
      var a := attributes[0];
      var to' := to[a := Get(from, a)];
      AssignedProps(to', from, attributes[1..]);
      var r := Assigned(to', from, attributes[1..]);
      assert (set k | k in attributes) == {a} + set k | k in attributes[1..];
      forall k | k in attributes ensures r[k] == Get(from, k) {
        if k !in attributes[1..] {
          assert k == a;
        }
      }
    }
  }

  /** `isObjectEmpty(object)`: `undefined` unless the argument is a plain
      object (truthy, with `Object.prototype` as its prototype); for a plain
      object, whether it has no own keys. */
  function IsObjectEmpty(v: Value): (r: Option<bool>)
    ensures r.Some? <==> v.Object? && v.proto == ObjectPrototype
    ensures r.Some? ==> (r.value <==> v.props == map[])
  {
    if !(Truthy(v) && PrototypeOf(v) == ObjectPrototype) then None
    else Some(|v.props.Keys| == 0)
  }

  /** The object `extractAsObject(from, attributes)` returns is empty exactly
      when no attributes were asked for. */
  lemma ExtractedIsEmptyIff(from: map<string, Value>, attributes: seq<string>)
    ensures IsObjectEmpty(Object(ObjectPrototype, Assigned(map[], from, attributes))) == Some(attributes == [])
  {
    AssignedProps(map[], from, attributes);
    if attributes != [] {
      assert attributes[0] in Assigned(map[], from, attributes);
    }
  }

  /** `vmap(iterable, callback)`: `iterable.map(value => callback(value))`. */
  function VMap<T, U>(xs: seq<T>, callback: T -> U): (ys: seq<U>)
    ensures |ys| == |xs|
    ensures forall i :: 0 <= i < |xs| ==> ys[i] == callback(xs[i])
  {
    if xs == [] then [] else [callback(xs[0])] + VMap(xs[1..], callback)
  }

  /** `kmap(iterable, callback)`: `iterable.map((_, key) => callback(key))`,
      so the callback sees the index and never the element. */
  function KMap<T, U>(xs: seq<T>, callback: nat -> U): (ys: seq<U>)
    ensures |ys| == |xs|
    ensures forall i :: 0 <= i < |xs| ==> ys[i] == callback(i)
  {
    if xs == [] then [] else KMap(xs[..|xs| - 1], callback) + [callback(|xs| - 1)]
  }

  /** The indices `0, 1, ..., n - 1`, what `kmap` feeds its callback. */
  function Indices(n: nat): (ks: seq<nat>)
    ensures |ks| == n && forall i :: 0 <= i < n ==> ks[i] == i
  {
    if n == 0 then [] else Indices(n - 1) + [n - 1]
  }

  /** `kmap` is `vmap` over the indices, whatever the elements. */
  lemma KMapIsVMapOfIndices<T, U>(xs: seq<T>, callback: nat -> U)
    ensures KMap(xs, callback) == VMap(Indices(|xs|), callback)
  {
  }
}
