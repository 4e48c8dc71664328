/** Encoding a value and decoding the bytes gives the value back. */
module RoundTrip {
  import opened Core
  import opened Heads
  import opened Values
  import opened Decoding
  import opened Encoding
  import opened Grammar
  import Floats

  /** The encoder refuses nothing that CBOR can carry. */
  lemma {:induction false} EncodeSucceeds(v: Value)
    requires Encodable(v)
    ensures Encode(v).Ok?
    decreases v, 0
  {
    match v {
      case Array(vs) => EncodeAllSucceeds(vs);
      case Map(es) => EncodeEntriesSucceeds(es);
      case Tag(_, w) => EncodeSucceeds(w);
      case _ =>
    }
  }

  lemma {:induction false} EncodeAllSucceeds(vs: seq<Value>)
    requires EncodableAll(vs)
    ensures EncodeAll(vs).Ok?
    decreases vs, 1
  {
    if vs != [] {
      EncodeSucceeds(vs[0]);
      EncodeAllSucceeds(vs[1..]);
    }
  }

  lemma {:induction false} EncodeEntriesSucceeds(es: seq<Entry>)
    requires EncodableEntries(es)
    ensures EncodeEntries(es).Ok?
    decreases es, 1
  {
    if es != [] {
      assert es decreases to es[0];
      EncodeSucceeds(es[0].key);
      EncodeSucceeds(es[0].value);
      EncodeEntriesSucceeds(es[1..]);
    }
  }

  // ----- what the encoder refuses

  /** Every integer of the tree fits a head. */
  predicate IntegersFit(v: Value) {
    match v
    case Negative(i) => -USIZE_LIMIT <= i < USIZE_LIMIT
    case Array(vs) => AllIntegersFit(vs)
    case Map(es) => EntryIntegersFit(es)
    case Tag(_, w) => IntegersFit(w)
    case _ => true
  }

  predicate AllIntegersFit(vs: seq<Value>) {
    vs == [] || (IntegersFit(vs[0]) && AllIntegersFit(vs[1..]))
  }

  predicate EntryIntegersFit(es: seq<Entry>) {
    es == [] || (assert es decreases to es[0]; IntegersFit(es[0].key) && IntegersFit(es[0].value) && EntryIntegersFit(es[1..]))
  }

  /** No simple value of the tree is reserved. */
  predicate SimplesFit(v: Value) {
    match v
    case Simple(s) => !(20 <= s < 32)
    case Array(vs) => AllSimplesFit(vs)
    case Map(es) => EntrySimplesFit(es)
    case Tag(_, w) => SimplesFit(w)
    case _ => true
  }

  predicate AllSimplesFit(vs: seq<Value>) {
    vs == [] || (SimplesFit(vs[0]) && AllSimplesFit(vs[1..]))
  }

  predicate EntrySimplesFit(es: seq<Entry>) {
    es == [] || (assert es decreases to es[0]; SimplesFit(es[0].key) && SimplesFit(es[0].value) && EntrySimplesFit(es[1..]))
  }

  /** A result that is refused exactly for these two reasons, with the error that names the reason. */
  predicate Refuses<T>(r: Result<T>, integers: bool, simples: bool) {
    (r.Ok? <==> integers && simples)
    && (r.Err? ==> (r.error == NewError(IntegerOverflow, 0) && !integers) || (r.error == NewError(InvalidAdditionalInfo, 0) && !simples))
  }

  /** `Value::encode` fails exactly on an integer that fits no head or on a reserved simple value. */
  lemma {:induction false} EncodeRefuses(v: Value)
    ensures Refuses(Encode(v), IntegersFit(v), SimplesFit(v))
    decreases v, 0
  {
    hide HeadBytes, LengthHead;
    match v {
      case Array(vs) => EncodeAllRefuses(vs);
      case Map(es) => EncodeEntriesRefuses(es);
      case Tag(_, w) => EncodeRefuses(w);
      case _ =>
    }
  }

  lemma {:induction false} EncodeAllRefuses(vs: seq<Value>)
    ensures Refuses(EncodeAll(vs), AllIntegersFit(vs), AllSimplesFit(vs))
    decreases vs, 1
  {
    hide Encode, IntegersFit, SimplesFit;
    if vs != [] {
      EncodeRefuses(vs[0]);
      EncodeAllRefuses(vs[1..]);
    }
  }

  lemma {:induction false} EncodeEntriesRefuses(es: seq<Entry>)
    ensures Refuses(EncodeEntries(es), EntryIntegersFit(es), EntrySimplesFit(es))
    decreases es, 1
  {
    hide Encode, IntegersFit, SimplesFit;
    if es != [] {
      assert es decreases to es[0];
      EncodeRefuses(es[0].key);
      EncodeRefuses(es[0].value);
      EncodeEntriesRefuses(es[1..]);
    }
  }

  /** The encoder writes one of the encodings in the grammar. */
  lemma {:induction false} EncodedIsEncoding(o: DecodeOptions, input: Buf, pos: nat, v: Value, depth: nat)
    requires Encodable(v) && Fits(o, v, depth) && Encode(v).Ok? && At(input, pos, Encode(v).value)
    ensures Encodes(true, input, pos, pos + |Encode(v).value|, v)
    decreases v, 1
  {
    match v {
      case Unsigned(_) => EncodedInteger(input, pos, v);
      case Negative(_) => EncodedInteger(input, pos, v);
      case Bytes(_) => EncodedString(o, input, pos, v, depth);
      case Text(_) => EncodedString(o, input, pos, v, depth);
      case Array(_) => EncodedArray(o, input, pos, v, depth);
      case Map(_) => EncodedMap(o, input, pos, v, depth);
      case Tag(_, _) => EncodedTag(o, input, pos, v, depth);
      case Float(_) => EncodedFloat(input, pos, v);
      case _ => EncodedSimple(input, pos, v);
    }
  }

  lemma EncodedInteger(input: Buf, pos: nat, v: Value)
    requires v.Unsigned? || v.Negative?
    requires Encodable(v) && At(input, pos, Encode(v).value)
    ensures Encodes(true, input, pos, pos + |Encode(v).value|, v)
  {
    if v.Unsigned? { ReadHeadBytes(true, input, pos, 0, v.n); } else { ReadHeadBytes(true, input, pos, 1, -1 - v.i); }
  }

  lemma EncodedSimple(input: Buf, pos: nat, v: Value)
    requires v.Simple? || v.Bool? || v.Null? || v.Undefined?
    requires Encodable(v) && At(input, pos, Encode(v).value)
    ensures Encodes(true, input, pos, pos + |Encode(v).value|, v)
  {
    assert input[pos..pos + |Encode(v).value|] == Encode(v).value;
  }

  lemma EncodedHead(input: Buf, pos: nat, major: nat, n: U64, body: Buf)
    requires major < 8 && At(input, pos, HeadBytes(major, n) + body)
    ensures HeadOf(true, input, pos, major, n)
    ensures HeadEnd(input, pos) == pos + |HeadBytes(major, n)| && At(input, pos + |HeadBytes(major, n)|, body)
  {
    AtConcat(input, pos, HeadBytes(major, n), body);
    ReadHeadBytes(true, input, pos, major, n);
  }

  lemma EncodedString(o: DecodeOptions, input: Buf, pos: nat, v: Value, depth: nat)
    requires (v.Bytes? || v.Text?) && Fits(o, v, depth) && At(input, pos, Encode(v).value)
    ensures Encodes(true, input, pos, pos + |Encode(v).value|, v)
  {
    hide Utf8.Valid, HeadBytes, LengthHead, HeadAt, HeadEnd, EncodesChunks;
    LengthHeadIsExact(if v.Bytes? then 2 else 3, if v.Bytes? then |v.bytes| else |v.text|);
    if v.Bytes? { EncodedHead(input, pos, 2, |v.bytes|, v.bytes); } else { EncodedHead(input, pos, 3, |v.text|, v.text); }
  }

  lemma EncodedFloat(input: Buf, pos: nat, v: Value)
    requires v.Float? && At(input, pos, Encode(v).value)
    ensures Encodes(true, input, pos, pos + |Encode(v).value|, v)
  {
    AtConcat(input, pos, [0xfb], ToBE(v.bits, 8));
    assert input[pos] == [0xfb][0] by { assert input[pos..pos + 1][0] == 0xfb; }
    Pow256Values();
    FromToBE(v.bits, 8);
  }

  lemma {:induction false} EncodedTag(o: DecodeOptions, input: Buf, pos: nat, v: Value, depth: nat)
    requires v.Tag? && Encodable(v) && Fits(o, v, depth) && Encode(v).Ok? && At(input, pos, Encode(v).value)
    ensures Encodes(true, input, pos, pos + |Encode(v).value|, v)
    decreases v, 0
  {
    hide HeadBytes, HeadAt, HeadEnd, Encode, Encodable, Fits, Encodes;
    TagParts(o, v, depth);
    var head, body := HeadBytes(6, v.tag), Encode(v.inner).value;
    EncodedHead(input, pos, 6, v.tag, body);
    EncodedIsEncoding(o, input, pos + |head|, v.inner, depth + 1);
    TaggedEncoding(true, input, pos, pos + |head| + |body|, v);
  }

  lemma TagParts(o: DecodeOptions, v: Value, depth: nat)
    requires v.Tag? && Encodable(v) && Fits(o, v, depth) && Encode(v).Ok?
    ensures Encodable(v.inner) && Fits(o, v.inner, depth + 1) && Encode(v.inner).Ok?
    ensures Encode(v).value == HeadBytes(6, v.tag) + Encode(v.inner).value
  {
    hide HeadBytes;
  }

  lemma {:induction false} EncodedArray(o: DecodeOptions, input: Buf, pos: nat, v: Value, depth: nat)
    requires v.Array? && Encodable(v) && Fits(o, v, depth) && Encode(v).Ok? && At(input, pos, Encode(v).value)
    ensures Encodes(true, input, pos, pos + |Encode(v).value|, v)
    decreases v, 0
  {
    hide HeadBytes, LengthHead, HeadAt, HeadEnd, Encodes, EncodesMany, Encode, Encodable, Fits, EncodeAll, FitAll, EncodableAll;
    ArrayParts(o, v, depth);
    EncodedHead(input, pos, 4, |v.items|, EncodeAll(v.items).value);
    AllEncoded(o, input, HeadEnd(input, pos), v.items, depth + 1);
    DefiniteArray(true, input, pos, pos + |Encode(v).value|, v.items);
  }

  lemma ArrayParts(o: DecodeOptions, v: Value, depth: nat)
    requires v.Array? && Encodable(v) && Fits(o, v, depth) && Encode(v).Ok?
    ensures EncodableAll(v.items) && FitAll(o, v.items, depth + 1) && EncodeAll(v.items).Ok? && |v.items| < USIZE_LIMIT
    ensures Encode(v).value == HeadBytes(4, |v.items|) + EncodeAll(v.items).value
  {
    hide HeadBytes, LengthHead;
    LengthHeadIsExact(4, |v.items|);
  }

  lemma {:induction false} EncodedMap(o: DecodeOptions, input: Buf, pos: nat, v: Value, depth: nat)
    requires v.Map? && Encodable(v) && Fits(o, v, depth) && Encode(v).Ok? && At(input, pos, Encode(v).value)
    ensures Encodes(true, input, pos, pos + |Encode(v).value|, v)
    decreases v, 0
  {
    hide HeadBytes, LengthHead, HeadAt, HeadEnd, Encodes, EncodesEntries, Encode, Encodable, Fits, EncodeEntries, FitEntries, EncodableEntries;
    MapParts(o, v, depth);
    EncodedHead(input, pos, 5, |v.entries|, EncodeEntries(v.entries).value);
    EntriesEncoded(o, input, HeadEnd(input, pos), v.entries, depth + 1);
    DefiniteMap(true, input, pos, pos + |Encode(v).value|, v.entries);
  }

  lemma MapParts(o: DecodeOptions, v: Value, depth: nat)
    requires v.Map? && Encodable(v) && Fits(o, v, depth) && Encode(v).Ok?
    ensures EncodableEntries(v.entries) && FitEntries(o, v.entries, depth + 1) && EncodeEntries(v.entries).Ok?
    ensures |v.entries| < USIZE_LIMIT && Encode(v).value == HeadBytes(5, |v.entries|) + EncodeEntries(v.entries).value
  {
    hide HeadBytes, LengthHead;
    LengthHeadIsExact(5, |v.entries|);
  }

  lemma {:induction false} AllEncoded(o: DecodeOptions, input: Buf, pos: nat, vs: seq<Value>, depth: nat)
    requires EncodableAll(vs) && FitAll(o, vs, depth) && EncodeAll(vs).Ok? && At(input, pos, EncodeAll(vs).value)
    ensures EncodesMany(true, input, pos, pos + |EncodeAll(vs).value|, vs)
    decreases vs, 2
  {
    if vs != [] {
      var first, rest := Encode(vs[0]).value, EncodeAll(vs[1..]).value;
      assert EncodeAll(vs).value == first + rest;
      AtConcat(input, pos, first, rest);
      EncodedIsEncoding(o, input, pos, vs[0], depth);
      AllEncoded(o, input, pos + |first|, vs[1..], depth);
      PrependItem(true, input, pos, pos + |first|, pos + |first| + |rest|, vs);
    }
  }

  lemma {:induction false} EntriesEncoded(o: DecodeOptions, input: Buf, pos: nat, es: seq<Entry>, depth: nat)
    requires EncodableEntries(es) && FitEntries(o, es, depth) && EncodeEntries(es).Ok? && At(input, pos, EncodeEntries(es).value)
    ensures EncodesEntries(true, input, pos, pos + |EncodeEntries(es).value|, es)
    decreases es, 2
  {
    if es != [] {
      var first, rest := EncodeEntry(es[0]).value, EncodeEntries(es[1..]).value;
      assert EncodeEntries(es).value == first + rest;
      AtConcat(input, pos, first, rest);
      EntryEncoded(o, input, pos, es[0], depth);
      EntriesEncoded(o, input, pos + |first|, es[1..], depth);
      PrependEntry(true, input, pos, pos + |first|, pos + |first| + |rest|, es);
    }
  }

  lemma {:induction false} EntryEncoded(o: DecodeOptions, input: Buf, pos: nat, e: Entry, depth: nat)
    requires Encodable(e.key) && Encodable(e.value) && Fits(o, e.key, depth) && Fits(o, e.value, depth)
    requires EncodeEntry(e).Ok? && At(input, pos, EncodeEntry(e).value)
    ensures EncodesEntry(true, input, pos, pos + |EncodeEntry(e).value|, e)
    decreases e, 2
  {
    var key, value := Encode(e.key).value, Encode(e.value).value;
    AtConcat(input, pos, key, value);
    EncodedIsEncoding(o, input, pos, e.key, depth);
    EncodedIsEncoding(o, input, pos + |key|, e.value, depth);
  }

  /** Wherever a value's encoding stands in a buffer, the decoder reads back the value and stops after it. */
  lemma DecodeEncodedAt(o: DecodeOptions, input: Buf, pos: nat, v: Value, depth: nat)
    requires Encodable(v) && Fits(o, v, depth) && Encode(v).Ok? && At(input, pos, Encode(v).value)
    ensures Decode(o, input, pos, depth) == Done(v, pos + |Encode(v).value|)
  {
    hide Encode, Decode, Encodes, Fits, Encodable;
    var end := pos + |Encode(v).value|;
    EncodedIsEncoding(o, input, pos, v, depth);
    ShortestIsEncoding(o.Det(), input, pos, end, v);
    Complete(o, input, pos, end, v, depth);
  }

  /** decode(encode(v)) = v. */
  lemma DecodeEncoded(v: Value)
    requires Encodable(v) && Fits(DEFAULT_OPTIONS, v, 0)
    ensures Encode(v).Ok? && DecodeValue(Encode(v).value) == Ok(v)
  {
    EncodeSucceeds(v);
    DecodeEncodedAt(DEFAULT_OPTIONS, Encode(v).value, 0, v, 0);
  }

  /** decode(encode(decode(x))) = decode(x) for every accepted x. */
  lemma ReencodeDecoded(x: Buf)
    requires DecodeValue(x).Ok?
    ensures var v := DecodeValue(x).value;
            Encodable(v) && Fits(DEFAULT_OPTIONS, v, 0) && Encode(v).Ok? && DecodeValue(Encode(v).value) == DecodeValue(x)
  {
    Sound(DEFAULT_OPTIONS, x, 0, 0);
    DecodeEncoded(DecodeValue(x).value);
  }
}
