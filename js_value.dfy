/** The JavaScript values the answer and parameter code of js/poc-v2.js and
    js/exercise-utils.js inspect, with the conversions they apply to them:
    truthiness, `String(v)`, `??`, property lookup and strict equality. */
module JsValue {
  import opened Wrappers

  /** A JavaScript value. A number is carried by its `String(n)` form, so that
      `+0` and `-0` are both `Num("0")` and not-a-number is `Num("NaN")`. An
      object lists its own properties in insertion order; a lookup sees the
      first entry with the key. */
  datatype Value =
    | Undefined
    | Null
    | Bool(b: bool)
    | Num(repr: string)
    | Str(s: string)
    | Arr(items: seq<Value>)
    | Obj(entries: seq<(string, Value)>)

  /** `v == null`: null or undefined. */
  predicate Nullish(v: Value) {
    v.Undefined? || v.Null?
  }

  /** `Boolean(v)` */
  predicate Truthy(v: Value) {
    match v
    case Undefined => false
    case Null => false
    case Bool(b) => b
    case Num(r) => r != "0" && r != "NaN"
    case Str(s) => s != ""
    case Arr(_) => true
    case Obj(_) => true
  }

  /** `a ?? b` */
  function Coalesce(a: Value, b: Value): (r: Value)
    ensures !Nullish(a) ==> r == a
    ensures Nullish(a) ==> r == b
  {
    if Nullish(a) then b else a
  }

  /** `a === b`: primitives compare by value (not-a-number equals nothing);
      two arrays or objects are equal only when they are the same reference,
      which this value model cannot express, so they are taken as distinct. */
  predicate StrictEquals(a: Value, b: Value) {
    match (a, b)
    case (Undefined, Undefined) => true
    case (Null, Null) => true
    case (Bool(x), Bool(y)) => x == y
    case (Num(x), Num(y)) => x == y && x != "NaN"
    case (Str(x), Str(y)) => x == y
    case _ => false
  }

  /** `String(v)`; an array converts as `join(",")`, with null and undefined
      elements giving the empty string. */
  function ToJsString(v: Value): string
    decreases v, 1
  {
    match v
    case Undefined => "undefined"
    case Null => "null"
    case Bool(b) => if b then "true" else "false"
    case Num(r) => r
    case Str(s) => s
    case Arr(items) => JoinElements(v, 0)
    case Obj(_) => "[object Object]"
  }

  /** The elements of the array v from index i on, converted and joined with commas. */
  function JoinElements(v: Value, i: nat): string
    requires v.Arr? && i <= |v.items|
    decreases v, 0, |v.items| - i
  {
    if i == |v.items| then ""
    else
      var x := v.items[i];
      var part := if Nullish(x) then "" else ToJsString(x);
      if i + 1 == |v.items| then part else part + "," + JoinElements(v, i + 1)
  }

  /** The index of the first entry with key k. */
  function KeyIndex(entries: seq<(string, Value)>, k: string): (r: Option<nat>)
    ensures r.Some? ==> r.value < |entries| && entries[r.value].0 == k
                        && forall j :: 0 <= j < r.value ==> entries[j].0 != k
    ensures r.None? ==> forall j :: 0 <= j < |entries| ==> entries[j].0 != k
  {
    if entries == [] then None
    else if entries[0].0 == k then Some(0)
    else match KeyIndex(entries[1..], k)
      case None => None
      case Some(j) => Some(j + 1)
  }

  /** `Object.prototype.hasOwnProperty.call(o, k)`, or `k in o` for own keys. */
  predicate HasKey(entries: seq<(string, Value)>, k: string) {
    KeyIndex(entries, k).Some?
  }

  /** `o[k]`: the value of the first entry with key k, or undefined. */
  function Get(entries: seq<(string, Value)>, k: string): (r: Value)
    ensures !HasKey(entries, k) ==> r == Undefined
    ensures HasKey(entries, k) ==> exists j :: 0 <= j < |entries| && entries[j] == (k, r)
  {
    match KeyIndex(entries, k)
    case None => Undefined
    case Some(j) => entries[j].1
  }

  /** `v.k` on any value: only an object has own properties here. */
  function Prop(v: Value, k: string): (r: Value)
    ensures !v.Obj? ==> r == Undefined
  {
    if v.Obj? then Get(v.entries, k) else Undefined
  }

  /** `arr[i]`: undefined past the end. */
  function At(items: seq<Value>, i: nat): Value {
    if i < |items| then items[i] else Undefined
  }
}
