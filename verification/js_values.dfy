/**
 The JavaScript values that flow through the jobs service: request query
 values, fields of update payloads and values bound to SQL placeholders,
 together with plain objects modelled as ordered key/value sequences.
 */
module JsValues {
  import opened Wrappers

  /** The JavaScript values the core handles. A number is `Int` when it is
      finite and integral, an `Infinity` when it overflowed, and `NaN` is
      what unary `+` yields for a string that is not a number. */
  datatype Value = Str(s: string) | Int(i: int) | Bool(b: bool) | Null | NaN | Infinity(negative: bool)

  /** JavaScript truthiness: `""`, `0`, `false`, `null` and `NaN` are falsy. */
  predicate Truthy(v: Value) {
    match v
    case Str(s) => |s| > 0
    case Int(i) => i != 0
    case Bool(b) => b
    case Null => false
    case NaN => false
    case Infinity(_) => true
  }

  /** No key occurs twice, as in any JavaScript object. */
  predicate DistinctKeys(entries: seq<(string, Value)>) {
    forall i, j :: 0 <= i < j < |entries| ==> entries[i].0 != entries[j].0
  }

  /** A plain JavaScript object: its entries in enumeration order, the order
      `Object.keys`, `Object.values` and `Object.entries` list them in. */
  type Object = entries: seq<(string, Value)> | DistinctKeys(entries) witness []

  /** The keys of an object, in enumeration order. */
  function Keys(entries: seq<(string, Value)>): (ks: seq<string>)
    ensures |ks| == |entries|
    ensures forall i :: 0 <= i < |entries| ==> ks[i] == entries[i].0
  {
    seq(|entries|, i requires 0 <= i < |entries| => entries[i].0)
  }

  /** The value stored under `key`, or `None` when the object has no such key. */
  function Lookup(entries: seq<(string, Value)>, key: string): (r: Option<Value>)
    ensures r.Some? <==> exists i :: 0 <= i < |entries| && entries[i].0 == key
    ensures forall i :: 0 <= i < |entries| && entries[i].0 == key && DistinctKeys(entries) ==> r == Some(entries[i].1)
  {
    if |entries| == 0 then None
    else if entries[0].0 == key then Some(entries[0].1)
    else
      var r := Lookup(entries[1..], key);
      assert forall i :: 1 <= i < |entries| ==> entries[1..][i - 1] == entries[i];
      r
  }

  /** The value under `key`, or `default` when it is absent. */
  function ValueOr(entries: seq<(string, Value)>, key: string, default: Value): Value {
    match Lookup(entries, key)
    case Some(v) => v
    case None => default
  }
}
