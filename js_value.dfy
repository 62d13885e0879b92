/** The values the sheet service receives from `JSON.parse` or builds from
    CSV cells, and the few JavaScript operations it applies to them:
    truthiness, `String(v)`, `Object.keys(v)`, `row[key]` and `row[i]`. */
module JsValue {
  import opened Wrappers
  import opened JsText

  /** A decoded JSON value, plus `undefined` for a missing index or key.
      Numbers are integers; object fields keep their key order. */
  datatype Value =
    | Undefined
    | Null
    | Bool(b: bool)
    | Num(n: int)
    | Str(s: string)
    | Arr(items: seq<Value>)
    | Obj(fields: seq<Field>)

  datatype Field = Field(key: string, val: Value)

  /** JavaScript truthiness: `undefined`, `null`, `false`, `0` and `""` are falsy. */
  predicate Truthy(v: Value) {
    match v
    case Undefined => false
    case Null => false
    case Bool(b) => b
    case Num(n) => n != 0
    case Str(s) => s != []
    case Arr(_) => true
    case Obj(_) => true
  }

  /** `parts.join(sep)`, empty for no parts. */
  function JoinWith(parts: seq<string>, sep: char): string {
    if parts == [] then [] else Join(parts, sep)
  }

  /** `String(v)`. An array renders as its elements joined by commas, with
      `null` and `undefined` elements rendered empty. */
  function ToStr(v: Value): (s: string)
    ensures s == [] ==> v == Str([]) || v.Arr?
    ensures v.Str? ==> s == v.s
    ensures v.Num? ==> ParseInt(s) == Some(v.n)
    decreases v
  {
    match v
    case Undefined => "undefined"
    case Null => "null"
    case Bool(b) => if b then "true" else "false"
    case Num(n) => ParseIntOfIntToString(n); IntToString(n)
    case Str(s) => s
    case Arr(items) =>
      JoinWith(seq(|items|, i requires 0 <= i < |items| =>
        if items[i].Undefined? || items[i].Null? then [] else ToStr(items[i])), ',')
    case Obj(_) => "[object Object]"
  }

  /** The index keys "0", "1", ... of an array or string of length `n`. */
  function IndexKeys(n: nat): (keys: seq<string>)
    ensures |keys| == n
    ensures forall i :: 0 <= i < n ==> keys[i] == NatToString(i)
  {
    seq(n, i requires 0 <= i < n => NatToString(i))
  }

  /** `Object.keys(v)` for a truthy `v`: an object's own keys in order, the
      index keys of an array or a string, nothing for a number or `true`. */
  function Keys(v: Value): seq<string> {
    match v
    case Obj(fields) => seq(|fields|, i requires 0 <= i < |fields| => fields[i].key)
    case Arr(items) => IndexKeys(|items|)
    case Str(s) => IndexKeys(|s|)
    case _ => []
  }

  /** The first field of `fields` with key `key`, if any. */
  predicate FirstWithKey(fields: seq<Field>, key: string, i: int) {
    0 <= i < |fields| && fields[i].key == key && forall j :: 0 <= j < i ==> fields[j].key != key
  }

  /** The value stored under `key` among `fields`: that of the first field
      with the key, `undefined` when no field has it. */
  function FieldValue(fields: seq<Field>, key: string): (v: Value)
    ensures v != Undefined ==> exists i :: 0 <= i < |fields| && fields[i] == Field(key, v)
    ensures forall i :: FirstWithKey(fields, key, i) ==> v == fields[i].val
    ensures (forall i :: 0 <= i < |fields| ==> fields[i].key != key) ==> v == Undefined
  {
    if fields == [] then Undefined
    else if fields[0].key == key then fields[0].val
    else FieldValue(fields[1..], key)
  }

  /** `v[key]` on an object row. */
  function Get(v: Value, key: string): Value {
    if v.Obj? then FieldValue(v.fields, key) else Undefined
  }

  /** Whether `v[i]` can be evaluated at all: on `null` or `undefined` it
      throws a TypeError. */
  predicate Indexable(v: Value) {
    !v.Null? && !v.Undefined?
  }

  /** `v[i]` on an array-mode row: an array element, a one-character string,
      an object's property named by the index, otherwise `undefined`. */
  function At(v: Value, i: nat): Value
    requires Indexable(v)
  {
    match v
    case Arr(items) => if i < |items| then items[i] else Undefined
    case Str(s) => if i < |s| then Str([s[i]]) else Undefined
    case Obj(fields) => FieldValue(fields, NatToString(i))
    case _ => Undefined
  }

  /** A row of CSV cells as a value: an array of strings. */
  function CellsValue(cells: seq<string>): (v: Value)
    ensures v.Arr? && |v.items| == |cells|
    ensures forall i :: 0 <= i < |cells| ==> v.items[i] == Str(cells[i])
  {
    Arr(seq(|cells|, i requires 0 <= i < |cells| => Str(cells[i])))
  }
}
