/**
 * A decoded JSON or YAML document as PHP sees it after `json_decode($s, true)`
 * or `Yaml::parseFile`: scalars, and ordered arrays whose entries are keyed.
 * List positions are keys too (written as decimal strings here); the core only
 * ever looks up non-numeric string keys.
 */
module PhpValue {
  import opened Wrappers
  import PhpText

  datatype Value =
    | Null
    | Bool(b: bool)
    | Num(n: real)
    | Str(s: string)
    | Arr(entries: seq<Entry>)

  datatype Entry = Entry(key: string, value: Value)

  /**
   * The value stored under `key`, if the array has that key. When a document
   * repeats a key, the decoder keeps the value written last.
   */
  function Lookup(entries: seq<Entry>, key: string): (r: Option<Value>)
    ensures r.Some? <==> exists i :: 0 <= i < |entries| && entries[i].key == key
    ensures r.Some? ==> exists i :: 0 <= i < |entries| && entries[i].key == key && entries[i].value == r.value
                          && forall j :: i < j < |entries| ==> entries[j].key != key
    ensures r.Some? ==> r.value in Values(entries)
  {
    if |entries| == 0 then None
    else if entries[|entries| - 1].key == key then Some(entries[|entries| - 1].value)
    else
      var r := Lookup(entries[..|entries| - 1], key);
      assert forall i :: 0 <= i < |entries| - 1 ==> entries[..|entries| - 1][i] == entries[i];
      r
  }

  /** The values of an array in iteration order (`foreach ($a as $v)`). */
  function Values(entries: seq<Entry>): (vs: seq<Value>)
    ensures |vs| == |entries|
    ensures forall i :: 0 <= i < |entries| ==> vs[i] == entries[i].value
  {
    seq(|entries|, i requires 0 <= i < |entries| => entries[i].value)
  }

  /** `isset($v[$key])`: `$v` is an array, holds `key`, and the value is not null. */
  predicate IsSet(v: Value, key: string)
  {
    v.Arr? && match Lookup(v.entries, key) {
      case Some(x) => x != Null
      case None => false
    }
  }

  /** `$v[$key]`, for a key that `IsSet` reports present. */
  function Get(v: Value, key: string): (x: Value)
    requires IsSet(v, key)
    ensures x != Null
  {
    Lookup(v.entries, key).value
  }

  /** PHP's `empty()`: null, false, 0, 0.0, "", "0" and the empty array. */
  predicate IsEmpty(v: Value)
  {
    match v
    case Null => true
    case Bool(b) => !b
    case Num(n) => n == 0.0
    case Str(s) => PhpText.IsEmptyString(s)
    case Arr(es) => |es| == 0
  }

  /** PHP's `(float)` cast. */
  function FloatCast(v: Value): real
  {
    match v
    case Null => 0.0
    case Bool(b) => if b then 1.0 else 0.0
    case Num(n) => n
    case Str(s) => PhpText.FloatCast(s)
    case Arr(es) => if |es| == 0 then 0.0 else 1.0
  }
}
