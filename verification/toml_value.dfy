/**
 * The JSON-like configuration tree the encoders walk: what `Object.entries`,
 * `Array.isArray` and `typeof` can tell apart.
 */
module TomlValue {
  import opened Wrappers

  /**
   * A configuration value. `Null` is `null`, and also an `undefined` field
   * value, which every encoder treats like `null`; a key that is absent
   * altogether is told apart by Get. Numbers are integers. An object is its
   * entries in `Object.entries` order.
   */
  datatype Value =
    | Null
    | Str(s: string)
    | Num(n: int)
    | Bool(b: bool)
    | Arr(items: seq<Value>)
    | Obj(fields: seq<(string, Value)>)

  type Fields = seq<(string, Value)>

  /** Number of nodes in a tree; the measure the object walkers decrease. */
  function Size(v: Value): (n: nat)
    ensures n >= 1
    decreases v, if v.Obj? then |v.fields| + 1 else 0
  {
    match v
    case Obj(fields) => 1 + SizeFrom(fields, 0)
    case _ => 1
  }

  function SizeFrom(fields: Fields, i: nat): nat
    requires i <= |fields|
    decreases Obj(fields), |fields| - i
  {
    if i == |fields| then 0 else Size(fields[i].1) + SizeFrom(fields, i + 1)
  }

  function FieldsSize(fields: Fields): nat
  {
    SizeFrom(fields, 0)
  }

  lemma {:induction false} SizeFromShift(fields: Fields, i: nat)
    requires 1 <= i <= |fields|
    ensures SizeFrom(fields, i) == SizeFrom(fields[1..], i - 1)
    decreases |fields| - i
  {
    if i < |fields| {
      SizeFromShift(fields, i + 1);
      assert fields[1..][i - 1] == fields[i];
    }
  }

  /** The first entry's subtree and the remaining entries are both smaller than the whole. */
  lemma FieldsSizeCons(fields: Fields)
    requires |fields| > 0
    ensures FieldsSize(fields) == Size(fields[0].1) + FieldsSize(fields[1..])
    ensures FieldsSize(fields[1..]) < FieldsSize(fields)
    ensures fields[0].1.Obj? ==> FieldsSize(fields[0].1.fields) < FieldsSize(fields)
  {
    SizeFromShift(fields, 1);
  }

  /**
   * `v[key]`: the first entry under that key, None for `undefined` when
   * there is none or `v` is not an object.
   */
  function Get(v: Value, key: string): (r: Option<Value>)
    ensures r.Some? ==> v.Obj? && exists i :: 0 <= i < |v.fields| && v.fields[i] == (key, r.value)
    ensures r.None? <==> !v.Obj? || forall i :: 0 <= i < |v.fields| ==> v.fields[i].0 != key
  {
    if v.Obj? then GetIn(v.fields, key) else None
  }

  function GetIn(fields: Fields, key: string): (r: Option<Value>)
    ensures r.Some? ==> exists i :: 0 <= i < |fields| && fields[i] == (key, r.value)
    ensures r.None? <==> forall i :: 0 <= i < |fields| ==> fields[i].0 != key
  {
    if |fields| == 0 then None
    else if fields[0].0 == key then Some(fields[0].1)
    else
      var r := GetIn(fields[1..], key);
      assert r.Some? ==> exists i :: 0 <= i < |fields| && fields[i] == (key, r.value) by {
        if r.Some? {
          var j :| 0 <= j < |fields[1..]| && fields[1..][j] == (key, r.value);
          assert fields[j + 1] == (key, r.value);
        }
      }
      assert r.None? <==> forall i :: 0 <= i < |fields| ==> fields[i].0 != key by {
        assert forall i :: 1 <= i < |fields| ==> fields[i] == fields[1..][i - 1];
      }
      r
  }

  /** JavaScript truthiness of a value: objects and arrays are always truthy. */
  predicate Truthy(v: Value)
  {
    match v
    case Null => false
    case Str(s) => s != ""
    case Num(n) => n != 0
    case Bool(b) => b
    case _ => true
  }

  /**
   * `a === b` on values that may be `undefined` (None): equal primitives, or
   * both undefined. Two objects or arrays are never the same reference here.
   */
  predicate StrictEquals(a: Option<Value>, b: Option<Value>)
  {
    a == b && (a.Some? ==> !a.value.Arr? && !a.value.Obj?)
  }
}
