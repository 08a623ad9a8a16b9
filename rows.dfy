/** `ScrapedRow`, the record `Record<string, string | null>` that extraction
    builds and the CSV serialiser reads. A row is an object created as `{}`:
    its own properties in insertion order, which is the order `Object.keys`
    lists them, and whether its prototype is still `Object.prototype`. */
module Rows {
  import opened Wrappers

  /** A cell: a string, or `null` (`None`). */
  type Value = Option<string>

  datatype Field = Field(key: string, value: Value)

  /** The own properties, and whether the prototype has been replaced by
      `null`. */
  datatype Row = Row(fields: seq<Field>, nullProto: bool)

  /** `{}`: no properties, `Object.prototype` as prototype. */
  const EmptyRow: Row := Row([], false)

  /** `Object.create(null)`: no properties and no prototype. */
  const BareRow: Row := Row([], true)

  /** The one accessor property of `Object.prototype`: reading it gives the
      prototype, and writing it sets the prototype. */
  const ProtoKey: string := "__proto__"

  /** The keys of some properties, in order. */
  function FieldKeys(fs: seq<Field>): (ks: seq<string>)
    ensures |ks| == |fs|
    ensures forall k :: 0 <= k < |fs| ==> ks[k] == fs[k].key
    decreases |fs|
  {
    if fs == [] then [] else [fs[0].key] + FieldKeys(fs[1..])
  }

  /** `Object.keys(row)`: the own keys, in insertion order. */
  function Keys(row: Row): (ks: seq<string>)
    ensures |ks| == |row.fields|
    ensures forall k :: 0 <= k < |row.fields| ==> ks[k] == row.fields[k].key
  {
    FieldKeys(row.fields)
  }

  /** The value of the property `k` among `fs`, `None` when there is none. */
  function Lookup(fs: seq<Field>, k: string): Option<Value>
    decreases |fs|
  {
    if fs == [] then None else if fs[0].key == k then Some(fs[0].value) else Lookup(fs[1..], k)
  }

  /** The row's own property `k`. */
  function Own(row: Row, k: string): Option<Value> {
    Lookup(row.fields, k)
  }

  lemma LookupFound(fs: seq<Field>, k: string)
    ensures Lookup(fs, k).Some? <==> k in FieldKeys(fs)
  {
    if fs != [] {
      LookupFound(fs[1..], k);
      assert FieldKeys(fs) == [fs[0].key] + FieldKeys(fs[1..]);
    }
  }

  /** What reading `row[k]` gives: `undefined`, an own value, or the
      inherited `Object.prototype` (for `__proto__` only; the other members
      of `Object.prototype` are functions, which the CSV writer treats like
      `undefined`). */
  datatype Property = Undefined | Present(value: Value) | InheritedPrototype

  /** `row[k]`. A key that is neither own nor `__proto__` reads as
      `Undefined` even where JavaScript finds an inherited function such as
      `toString` on a row that keeps its prototype: `JSON.stringify` of a
      function is `undefined`, so the CSV cell is the same. */
  function Get(row: Row, k: string): (p: Property)
    ensures p.Present? <==> k in Keys(row)
    ensures p.Present? ==> Own(row, k) == Some(p.value)
    ensures p.InheritedPrototype? <==> k == ProtoKey && k !in Keys(row) && !row.nullProto
  {
    LookupFound(row.fields, k);
    match Own(row, k)
    case Some(v) => Present(v)
    case None => if k == ProtoKey && !row.nullProto then InheritedPrototype else Undefined
  }

  /** Creating or overwriting an own property: the value is replaced in
      place, or the key is appended. */
  function Put(fs: seq<Field>, k: string, v: Value): (r: seq<Field>)
    ensures Lookup(r, k) == Some(v)
    ensures forall k' :: k' != k ==> Lookup(r, k') == Lookup(fs, k')
    ensures FieldKeys(r) == if k in FieldKeys(fs) then FieldKeys(fs) else FieldKeys(fs) + [k]
    decreases |fs|
  {
    if fs == [] then [Field(k, v)]
    else if fs[0].key == k then [Field(k, v)] + fs[1..]
    else
      var r := [fs[0]] + Put(fs[1..], k, v);
      assert FieldKeys(fs) == [fs[0].key] + FieldKeys(fs[1..]);
      assert FieldKeys(r) == [fs[0].key] + FieldKeys(r[1..]);
      r
  }

  /** `row[k] = v`. While the prototype is `Object.prototype`, writing
      `__proto__` runs its setter: `null` makes the prototype `null`, a
      string is ignored, and no property is created. Once the prototype is
      `null` there is no setter and `__proto__` is an ordinary key. Every
      other key is created or overwritten. */
  function Assign(row: Row, k: string, v: Value): (r: Row)
    ensures forall k' :: k' != k ==> Own(r, k') == Own(row, k')
    ensures k == ProtoKey && !row.nullProto ==>
      r.fields == row.fields && (r.nullProto <==> v.None?)
    ensures !(k == ProtoKey && !row.nullProto) ==>
      Own(r, k) == Some(v) && r.nullProto == row.nullProto &&
      Keys(r) == if k in Keys(row) then Keys(row) else Keys(row) + [k]
  {
    if k == ProtoKey && !row.nullProto then
      if v.None? then Row(row.fields, true) else row
    else Row(Put(row.fields, k, v), row.nullProto)
  }

  /** Reading back a key just written: its value, unless the write was the
      `__proto__` setter, after which the read gives the prototype again (or
      `undefined` once that is `null`). */
  lemma ReadAfterWrite(row: Row, k: string, v: Value)
    ensures !(k == ProtoKey && !row.nullProto) ==> Get(Assign(row, k, v), k) == Present(v)
    ensures k == ProtoKey && !row.nullProto && ProtoKey !in Keys(row) ==>
      Get(Assign(row, k, v), k) == if v.None? then Undefined else InheritedPrototype
  {
    LookupFound(Assign(row, k, v).fields, k);
  }
}
