/**
 * The JavaScript values a syntax tree is made of, as far as the walker can
 * tell them apart: the primitives, arrays, and plain objects whose own
 * enumerable properties are listed in enumeration order.
 */
module Values {

  /** A JavaScript value. Numbers stand in as integers: the walker never inspects them. */
  datatype Value =
    | Undefined
    | Null
    | Bool(b: bool)
    | Num(n: int)
    | Str(s: string)
    | Arr(elems: seq<Value>)
    | Obj(fields: seq<Field>)

  /** One own enumerable property of an object. */
  datatype Field = Field(key: string, value: Value)

  /** The result of the `typeof` operator. */
  function TypeOf(v: Value): (t: string)
    ensures t == "object" <==> v.Null? || v.Arr? || v.Obj?
    ensures t == "string" <==> v.Str?
  {
    match v
    case Undefined => "undefined"
    case Null => "object"
    case Bool(_) => "boolean"
    case Num(_) => "number"
    case Str(_) => "string"
    case Arr(_) => "object"
    case Obj(_) => "object"
  }

  /** The value of the first field named `key`, or `undefined` when there is none. */
  function Lookup(fields: seq<Field>, key: string): (r: Value)
    ensures r != Undefined ==> exists i :: 0 <= i < |fields| && fields[i].key == key && fields[i].value == r
  {
    if fields == [] then Undefined
    else if fields[0].key == key then fields[0].value
    else Lookup(fields[1..], key)
  }

  /**
   * Reading the named (non-index) property `key` of a value; on anything but an
   * object it gives `undefined`.
   */
  function Get(v: Value, key: string): (r: Value)
    ensures !v.Obj? ==> r == Undefined
    ensures r != Undefined ==> v.Obj? && exists i :: 0 <= i < |v.fields| && v.fields[i].key == key && v.fields[i].value == r
  {
    if v.Obj? then Lookup(v.fields, key) else Undefined
  }

  /** JavaScript objects never hold two own properties with the same key. */
  ghost predicate UniqueKeys(fields: seq<Field>) {
    forall i, j :: 0 <= i < j < |fields| ==> fields[i].key != fields[j].key
  }

  lemma {:induction false} LookupUnique(fields: seq<Field>, key: string, i: int)
    requires UniqueKeys(fields)
    requires 0 <= i < |fields| && fields[i].key == key
    ensures Lookup(fields, key) == fields[i].value
  {
    if i > 0 {
      assert fields[0].key != key;
      LookupUnique(fields[1..], key, i - 1);
    }
  }

  /** The values of a list of fields, in field order. */
  function FieldValues(fields: seq<Field>): seq<Value> {
    if fields == [] then [] else [fields[0].value] + FieldValues(fields[1..])
  }

  /** There is one value per field, and the `k`-th value is the `k`-th field's. */
  lemma {:induction false} FieldValuesAt(fields: seq<Field>)
    ensures |FieldValues(fields)| == |fields|
    ensures forall k :: 0 <= k < |fields| ==> FieldValues(fields)[k] == fields[k].value
  {
    if fields != [] {
      FieldValuesAt(fields[1..]);
    }
  }

  /**
   * The values that `for...in` filtered by `hasOwnProperty` reaches: an object's
   * own fields in enumeration order, and an array's elements (its index keys).
   */
  function OwnValues(v: Value): (r: seq<Value>)
    ensures v.Arr? ==> r == v.elems
    ensures v.Obj? ==> |r| == |v.fields|
    ensures !v.Arr? && !v.Obj? ==> r == []
  {
    match v
    case Arr(es) => es
    case Obj(fs) => FieldValuesAt(fs); FieldValues(fs)
    case _ => []
  }

  /** Every own value of `v` lies strictly inside `v`. */
  lemma OwnValueSmaller(v: Value, k: int)
    requires 0 <= k < |OwnValues(v)|
    ensures OwnValues(v)[k] < v
  {
    if v.Obj? {
      FieldValuesAt(v.fields);
      assert v.fields[k] in v.fields;
    }
  }

  /** The number of values that make up `v`, itself included. */
  function Size(v: Value): (n: nat)
    ensures n >= 1
  {
    match v
    case Arr(es) => 1 + SizeAll(es)
    case Obj(fs) => 1 + SizeFields(fs)
    case _ => 1
  }

  function SizeFields(fs: seq<Field>): nat {
    if fs == [] then 0 else Size(fs[0].value) + SizeFields(fs[1..])
  }

  function SizeAll(vs: seq<Value>): nat {
    if vs == [] then 0 else Size(vs[0]) + SizeAll(vs[1..])
  }

  lemma {:induction false} SizeAllAppend(a: seq<Value>, b: seq<Value>)
    ensures SizeAll(a + b) == SizeAll(a) + SizeAll(b)
  {
    if a != [] {
      assert (a + b)[0] == a[0] && (a + b)[1..] == a[1..] + b;
      SizeAllAppend(a[1..], b);
    } else {
      assert a + b == b;
    }
  }

  lemma {:induction false} SizeFieldValues(fs: seq<Field>)
    ensures SizeFields(fs) == SizeAll(FieldValues(fs))
  {
    if fs != [] {
      assert FieldValues(fs)[1..] == FieldValues(fs[1..]);
      SizeFieldValues(fs[1..]);
    }
  }

  /** The size of a value counts the value and everything in its own values. */
  lemma SizeOwnValues(v: Value)
    ensures Size(v) == 1 + SizeAll(OwnValues(v))
  {
    if v.Obj? {
      SizeFieldValues(v.fields);
    }
  }

  /** `x` is `v` or lies somewhere inside it. */
  ghost predicate Within(x: Value, v: Value)
    decreases v, 1
  {
    x == v || StrictlyWithin(x, v)
  }

  /** `x` lies inside one of the own values of `v`: an element of an array, or a field value of an object. */
  ghost predicate StrictlyWithin(x: Value, v: Value)
    decreases v, 0
  {
    match v
    case Arr(es) => exists k :: 0 <= k < |es| && Within(x, es[k])
    case Obj(fs) => exists k :: 0 <= k < |fs| && Within(x, fs[k].value)
    case _ => false
  }

  /** Whatever lies inside an own value of `v` lies strictly inside `v`. */
  lemma WithinOwnValue(x: Value, v: Value, k: int)
    requires 0 <= k < |OwnValues(v)| && Within(x, OwnValues(v)[k])
    ensures StrictlyWithin(x, v)
  {
    if v.Obj? {
      FieldValuesAt(v.fields);
    }
  }

  lemma {:induction false} WithinTransitive(x: Value, y: Value, z: Value)
    requires Within(x, y) && Within(y, z)
    ensures Within(x, z)
    decreases z
  {
    if y != z {
      match z
      case Arr(es) =>
        var k :| 0 <= k < |es| && Within(y, es[k]);
        WithinTransitive(x, y, es[k]);
      case Obj(fs) =>
        var k :| 0 <= k < |fs| && Within(y, fs[k].value);
        WithinTransitive(x, y, fs[k].value);
    }
  }

  lemma StrictlyWithinStep(x: Value, y: Value, z: Value)
    requires Within(x, y) && StrictlyWithin(y, z)
    ensures StrictlyWithin(x, z)
  {
    match z
    case Arr(es) =>
      var k :| 0 <= k < |es| && Within(y, es[k]);
      WithinTransitive(x, y, es[k]);
    case Obj(fs) =>
      var k :| 0 <= k < |fs| && Within(y, fs[k].value);
      WithinTransitive(x, y, fs[k].value);
  }
}
