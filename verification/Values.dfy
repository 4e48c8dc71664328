/** The dynamic value tree of src/value.rs. */
module Values {
  import opened Core
  import Utf8

  /** Floats are their binary64 bit patterns and text is its UTF-8 bytes. */
  datatype Value =
    | Unsigned(n: U64)
    | Negative(i: I128)
    | Bytes(bytes: Buf)
    | Text(text: Utf8.Text)
    | Array(items: seq<Value>)
    | Map(entries: seq<Entry>)
    | Tag(tag: U64, inner: Value)
    | Simple(s: Byte)
    | Bool(b: bool)
    | Null
    | Undefined
    | Float(bits: U64)

  datatype Entry = Entry(key: Value, value: Value)

  /** Nesting and lengths are within the decoder's limits when `v` stands at `depth`. */
  predicate Fits(o: DecodeOptions, v: Value, depth: nat) {
    depth <= o.maxDepth &&
    match v
    case Bytes(s) => |s| <= o.maxLen
    case Text(s) => |s| <= o.maxLen
    case Array(vs) => |vs| <= o.maxLen && FitAll(o, vs, depth + 1)
    case Map(es) => |es| <= o.maxLen && FitEntries(o, es, depth + 1)
    case Tag(_, w) => Fits(o, w, depth + 1)
    case _ => true
  }

  predicate FitAll(o: DecodeOptions, vs: seq<Value>, depth: nat) {
    vs == [] || (Fits(o, vs[0], depth) && FitAll(o, vs[1..], depth))
  }

  predicate FitEntries(o: DecodeOptions, es: seq<Entry>, depth: nat) {
    es == [] ||
    (assert es decreases to es[0];
     Fits(o, es[0].key, depth) && Fits(o, es[0].value, depth) && FitEntries(o, es[1..], depth))
  }

  /** Every integer and simple number in the tree is one that CBOR can carry. */
  predicate Encodable(v: Value) {
    match v
    case Negative(i) => -0x1_0000_0000_0000_0000 <= i < 0
    case Simple(s) => s < 20 || s >= 32
    case Array(vs) => EncodableAll(vs)
    case Map(es) => EncodableEntries(es)
    case Tag(_, w) => Encodable(w)
    case _ => true
  }

  predicate EncodableAll(vs: seq<Value>) {
    vs == [] || (Encodable(vs[0]) && EncodableAll(vs[1..]))
  }

  predicate EncodableEntries(es: seq<Entry>) {
    es == [] ||
    (assert es decreases to es[0];
     Encodable(es[0].key) && Encodable(es[0].value) && EncodableEntries(es[1..]))
  }

  /** How many data items the tree holds, itself included. */
  function Size(v: Value): (n: nat)
    ensures n > 0
  {
    match v
    case Array(vs) => 1 + SizeAll(vs)
    case Map(es) => 1 + SizeEntries(es)
    case Tag(_, w) => 1 + Size(w)
    case _ => 1
  }

  function SizeAll(vs: seq<Value>): nat {
    if vs == [] then 0 else Size(vs[0]) + SizeAll(vs[1..])
  }

  function SizeEntries(es: seq<Entry>): nat {
    if es == [] then 0
    else assert es decreases to es[0]; Size(es[0].key) + Size(es[0].value) + SizeEntries(es[1..])
  }

  predicate TagFree(v: Value) {
    match v
    case Array(vs) => TagFreeAll(vs)
    case Map(es) => TagFreeEntries(es)
    case Tag(_, _) => false
    case _ => true
  }

  predicate TagFreeAll(vs: seq<Value>) {
    vs == [] || (TagFree(vs[0]) && TagFreeAll(vs[1..]))
  }

  predicate TagFreeEntries(es: seq<Entry>) {
    es == [] ||
    (assert es decreases to es[0];
     TagFree(es[0].key) && TagFree(es[0].value) && TagFreeEntries(es[1..]))
  }
}
