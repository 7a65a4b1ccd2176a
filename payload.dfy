/**
 * The decoded payload of one log message: the tree of dicts, lists and
 * primitive values that a message's `to_dict()` produces, and the few
 * Python built-ins the walker applies to it (`isinstance(x, (int, float))`,
 * `str(index)`, `dict.get`).
 */
module Payload {
  import opened Wrappers

  /** A Python value inside a decoded message. Numbers are never computed on,
      so a float is kept as its IEEE 754 bit pattern. */
  datatype Value =
    | Int(i: int)
    | Float(bits: bv64)
    | Bool(b: bool)
    | Str(s: string)
    | Bytes(data: seq<bv8>)
    | Null
    | Dict(fields: seq<Field>)
    | List(elems: seq<Value>)

  /** One `key: value` entry of a dict, in insertion order. */
  datatype Field = Field(key: string, value: Value)

  /** `isinstance(v, (int, float))`: a `bool` passes too, because Python's
      `bool` is a subclass of `int`. */
  predicate IsNumber(v: Value) {
    v.Int? || v.Float? || v.Bool?
  }

  /** Number of nodes in a value; the walker's termination measure. */
  function Size(v: Value): (n: nat)
    ensures n >= 1
  {
    match v
    case Dict(fields) => 1 + FieldsSize(fields)
    case List(elems) => 1 + ElemsSize(elems)
    case _ => 1
  }

  function FieldsSize(fields: seq<Field>): nat
  {
    if fields == [] then 0
    else FieldsSize(fields[..|fields| - 1]) + Size(fields[|fields| - 1].value)
  }

  function ElemsSize(elems: seq<Value>): nat
  {
    if elems == [] then 0
    else ElemsSize(elems[..|elems| - 1]) + Size(elems[|elems| - 1])
  }

  // ---------------------------------------------------------------------
  // Path segments

  predicate IsDigit(c: char) {
    '0' <= c <= '9'
  }

  predicate AllDigits(s: string) {
    forall k :: 0 <= k < |s| ==> IsDigit(s[k])
  }

  /** A path segment never contains the separator. */
  predicate NoSlash(s: string) {
    forall k :: 0 <= k < |s| ==> s[k] != '/'
  }

  function DigitChar(d: nat): (c: char)
    requires d < 10
    ensures IsDigit(c) && c as int - '0' as int == d
  {
    ('0' as int + d) as char
  }

  /** `str(n)` for a list index `n`: its decimal digits. */
  function IndexString(n: nat): (s: string)
    ensures |s| >= 1 && AllDigits(s) && NoSlash(s)
  {
    if n < 10 then [DigitChar(n)]
    else IndexString(n / 10) + [DigitChar(n % 10)]
  }

  /** The number a string of decimal digits denotes. */
  function DecimalValue(s: string): nat
    requires AllDigits(s)
  {
    if s == [] then 0
    else 10 * DecimalValue(s[..|s| - 1]) + (s[|s| - 1] as int - '0' as int)
  }

  /** Reading an index segment back gives the index. */
  lemma {:induction false} IndexStringRoundTrip(n: nat)
    ensures DecimalValue(IndexString(n)) == n
  {
    if n >= 10 {
      IndexStringRoundTrip(n / 10);
      var s := IndexString(n);
      assert s[..|s| - 1] == IndexString(n / 10);
    }
  }

  /** Distinct indices give distinct segments. */
  lemma IndexStringInjective(m: nat, n: nat)
    ensures IndexString(m) == IndexString(n) ==> m == n
  {
    IndexStringRoundTrip(m);
    IndexStringRoundTrip(n);
  }

  // ---------------------------------------------------------------------
  // Dicts

  /** `d.get(key)`: the value stored under `key`, or None. */
  function DictGet(fields: seq<Field>, key: string): (r: Option<Value>)
    ensures r.None? <==> forall i :: 0 <= i < |fields| ==> fields[i].key != key
    ensures r.Some? ==> exists i :: 0 <= i < |fields| && fields[i] == Field(key, r.value)
  {
    if fields == [] then None
    else if fields[0].key == key then Some(fields[0].value)
    else
      var r := DictGet(fields[1..], key);
      assert forall i :: 1 <= i < |fields| ==> fields[i] == fields[1..][i - 1];
      r
  }

  /** A Python dict never holds the same key twice. */
  predicate UniqueKeys(fields: seq<Field>) {
    forall i, j :: 0 <= i < j < |fields| ==> fields[i].key != fields[j].key
  }

  /** What every decoded message satisfies: keys are unique in each dict,
      and keys are schema field names, so none contains '/'. */
  predicate WellFormed(v: Value) {
    match v
    case Dict(fields) =>
      UniqueKeys(fields) &&
      forall i :: 0 <= i < |fields| ==> NoSlash(fields[i].key) && WellFormed(fields[i].value)
    case List(elems) =>
      forall i :: 0 <= i < |elems| ==> WellFormed(elems[i])
    case _ => true
  }
}
