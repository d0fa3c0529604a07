/**
 * The values `JSON.parse` can produce, with the JavaScript operations the
 * extension applies to them: truthiness, property reads and `String(v)`.
 * Numbers are integers here; fractional numbers are not part of this model.
 */
module JsonData {
  import opened Wrappers
  import opened Text

  datatype Json =
    | JNull
    | JBool(b: bool)
    | JNum(n: int)
    | JStr(s: string)
    | JArr(items: seq<Json>)
    | JObj(fields: seq<(string, Json)>)

  /** JavaScript truthiness: `null`, `false`, `0` and `''` are falsy, arrays and objects are truthy. */
  predicate Truthy(v: Json) {
    match v
    case JNull => false
    case JBool(b) => b
    case JNum(n) => n != 0
    case JStr(s) => s != ""
    case JArr(_) => true
    case JObj(_) => true
  }

  /** Truthiness of a property read; a missing property (`undefined`) is falsy. */
  predicate Present(v: Option<Json>) {
    v.Some? && Truthy(v.value)
  }

  /** The value of `key` among an object's fields; when a key repeats, the last one wins, as in `JSON.parse`. */
  function Lookup(fields: seq<(string, Json)>, key: string): Option<Json>
    decreases |fields|
  {
    if fields == [] then None
    else if fields[|fields| - 1].0 == key then Some(fields[|fields| - 1].1)
    else Lookup(fields[..|fields| - 1], key)
  }

  /** The last field named `key` is the one found. */
  lemma {:induction false} LookupLast(fields: seq<(string, Json)>, key: string, i: int)
    requires 0 <= i < |fields| && fields[i].0 == key
    requires forall j :: i < j < |fields| ==> fields[j].0 != key
    ensures Lookup(fields, key) == Some(fields[i].1)
    decreases |fields|
  {
    if i < |fields| - 1 {
      var init := fields[..|fields| - 1];
      assert init[i] == fields[i];
      LookupLast(init, key, i);
    }
  }

  /**
   * `v[key]` for the data keys this model reads (`label`, `explanation`, `cleanedText`, ...):
   * an object's own field, and `undefined` on every other kind of value.
   */
  function Get(v: Json, key: string): Option<Json> {
    if v.JObj? then Lookup(v.fields, key) else None
  }

  /** `v[key] || fallback`. */
  function GetOr(v: Json, key: string, fallback: Json): (r: Json)
    ensures Present(Get(v, key)) ==> r == Get(v, key).value
    ensures !Present(Get(v, key)) ==> r == fallback
  {
    var p := Get(v, key);
    if Present(p) then p.value else fallback
  }

  /** `String(v)`: arrays join their elements with `,`, writing `null` elements as empty. */
  function ToJsString(v: Json): string
    decreases v, 1
  {
    match v
    case JNull => "null"
    case JBool(b) => if b then "true" else "false"
    case JNum(n) => IntToDecimal(n)
    case JStr(s) => s
    case JArr(items) => JoinElements(v, items)
    case JObj(_) => "[object Object]"
  }

  function JoinElements(ghost parent: Json, items: seq<Json>): string
    requires forall i :: 0 <= i < |items| ==> items[i] < parent
    decreases parent, 0, |items|
  {
    if items == [] then ""
    else
      var first := if items[0].JNull? then "" else ToJsString(items[0]);
      if |items| == 1 then first else first + "," + JoinElements(parent, items[1..])
  }
}
