/**
  * `encode_deterministic` copies the inside of a tag with plain `Value::encode`. This module says exactly
  * when that makes no difference, and so when the validator accepts exactly the encoder's fixed points.
  */
module TaggedItems {
  import opened Core
  import opened Heads
  import opened Values
  import opened Decoding
  import opened Encoding
  import opened Canonical
  import opened Deterministic
  import Grammar
  import Floats
  import FloatProofs

  /** No float of the tree has an encoding shorter than binary64. */
  predicate Wide(v: Value) {
    match v
    case Float(bits) => |Floats.PreferredFloat(bits)| == 9
    case Array(vs) => WideAll(vs)
    case Map(es) => WideEntries(es)
    case Tag(_, w) => Wide(w)
    case _ => true
  }

  predicate WideAll(vs: seq<Value>) {
    vs == [] || (Wide(vs[0]) && WideAll(vs[1..]))
  }

  predicate WideEntries(es: seq<Entry>) {
    es == [] ||
    (assert es decreases to es[0];
     Wide(es[0].key) && Wide(es[0].value) && WideEntries(es[1..]))
  }

  /** Whatever stands inside a tag has its maps in order and no float with a shorter encoding. */
  predicate PlainTags(v: Value) {
    match v
    case Array(vs) => PlainTagsAll(vs)
    case Map(es) => PlainTagsEntries(es)
    case Tag(_, w) => InOrder(w) && Wide(w)
    case _ => true
  }

  predicate PlainTagsAll(vs: seq<Value>) {
    vs == [] || (PlainTags(vs[0]) && PlainTagsAll(vs[1..]))
  }

  predicate PlainTagsEntries(es: seq<Entry>) {
    es == [] ||
    (assert es decreases to es[0];
     PlainTags(es[0].key) && PlainTags(es[0].value) && PlainTagsEntries(es[1..]))
  }

  // ----- a value in order with wide floats only is encoded canonically by `Value::encode`

  lemma {:induction false} PlainIsCanonical(v: Value)
    requires InOrder(v) && Wide(v) && Encodable(v)
    ensures Encode(v).Ok? && Canon(true, v) == Encode(v)
    decreases v, 0
  {
    match v {
      case Float(bits) => WideFloat(bits);
      case Array(vs) => PlainAllIsCanonical(vs);
      case Map(es) =>
        PlainEntriesAreCanonical(es);
        AscendingIsSorted(None, CanonPairs(true, es).value);
      case Tag(_, w) => PlainIsCanonical(w);
      case _ =>
    }
  }

  lemma WideFloat(bits: U64)
    requires |Floats.PreferredFloat(bits)| == 9
    ensures Floats.PreferredFloat(bits) == [0xfb] + ToBE(bits, 8)
  {
    hide Floats.DoubleToSingle, Floats.SingleToDouble, Floats.FloatEq, Floats.ExactHalfOfDouble, Floats.IsNaN;
  }

  lemma {:induction false} PlainAllIsCanonical(vs: seq<Value>)
    requires InOrderAll(vs) && WideAll(vs) && EncodableAll(vs)
    ensures EncodeAll(vs).Ok? && CanonAll(true, vs) == EncodeAll(vs)
    decreases vs, 1
  {
    if vs != [] {
      PlainIsCanonical(vs[0]);
      PlainAllIsCanonical(vs[1..]);
    }
  }

  lemma {:induction false} PlainEntriesAreCanonical(es: seq<Entry>)
    requires InOrderEntries(es) && WideEntries(es) && EncodableEntries(es)
    ensures EncodeEntries(es).Ok? && CanonPairs(true, es).Ok? && Join(CanonPairs(true, es).value) == EncodeEntries(es).value
    decreases es, 1
  {
    if es != [] {
      assert es decreases to es[0];
      PlainIsCanonical(es[0].key);
      PlainIsCanonical(es[0].value);
      PlainEntriesAreCanonical(es[1..]);
      var p, ps := CanonPair(true, es[0]).value, CanonPairs(true, es[1..]).value;
      assert ([p] + ps)[1..] == ps;
    }
  }

  // ----- otherwise the plain encoding is longer

  /** The plain encoding is never shorter, and is longer as soon as one float could be. */
  lemma {:induction false} PlainIsNoShorter(v: Value)
    requires InOrder(v) && Encodable(v)
    ensures Encode(v).Ok? && Canon(true, v).Ok? && |Canon(true, v).value| <= |Encode(v).value|
    ensures |Canon(true, v).value| == |Encode(v).value| ==> Wide(v)
    decreases v, 0
  {
    match v {
      case Float(bits) => FloatLength(bits);
      case Array(vs) => PlainAllIsNoShorter(vs);
      case Map(es) =>
        PlainEntriesAreNoShorter(es);
        AscendingIsSorted(None, CanonPairs(true, es).value);
      case Tag(_, w) => PlainIsNoShorter(w);
      case _ =>
    }
  }

  lemma FloatLength(bits: U64)
    ensures |Floats.PreferredFloat(bits)| <= 9
  {
    hide Floats.DoubleToSingle, Floats.SingleToDouble, Floats.FloatEq, Floats.ExactHalfOfDouble, Floats.IsNaN;
  }

  lemma {:induction false} PlainAllIsNoShorter(vs: seq<Value>)
    requires InOrderAll(vs) && EncodableAll(vs)
    ensures EncodeAll(vs).Ok? && CanonAll(true, vs).Ok? && |CanonAll(true, vs).value| <= |EncodeAll(vs).value|
    ensures |CanonAll(true, vs).value| == |EncodeAll(vs).value| ==> WideAll(vs)
    decreases vs, 1
  {
    if vs != [] {
      PlainIsNoShorter(vs[0]);
      PlainAllIsNoShorter(vs[1..]);
    }
  }

  lemma {:induction false} PlainEntriesAreNoShorter(es: seq<Entry>)
    requires InOrderEntries(es) && EncodableEntries(es)
    ensures EncodeEntries(es).Ok? && CanonPairs(true, es).Ok?
    ensures |Join(CanonPairs(true, es).value)| <= |EncodeEntries(es).value|
    ensures |Join(CanonPairs(true, es).value)| == |EncodeEntries(es).value| ==> WideEntries(es)
    decreases es, 1
  {
    if es != [] {
      assert es decreases to es[0];
      PlainIsNoShorter(es[0].key);
      PlainIsNoShorter(es[0].value);
      PlainEntriesAreNoShorter(es[1..]);
      var p, ps := CanonPair(true, es[0]).value, CanonPairs(true, es[1..]).value;
      assert ([p] + ps)[1..] == ps;
    }
  }

  // ----- the encoder that copies tags against the one that does not

  /** Where tags are plain, copying them is canonical. */
  lemma {:induction false} PlainTagsMakeNoDifference(v: Value)
    requires PlainTags(v) && Encodable(v)
    ensures Canon(false, v) == Canon(true, v)
    decreases v, 0
  {
    match v {
      case Array(vs) => PlainTagsAllMakeNoDifference(vs);
      case Map(es) => PlainTagsEntriesMakeNoDifference(es);
      case Tag(_, w) => PlainIsCanonical(w);
      case _ =>
    }
  }

  lemma {:induction false} PlainTagsAllMakeNoDifference(vs: seq<Value>)
    requires PlainTagsAll(vs) && EncodableAll(vs)
    ensures CanonAll(false, vs) == CanonAll(true, vs)
    decreases vs, 1
  {
    if vs != [] {
      PlainTagsMakeNoDifference(vs[0]);
      PlainTagsAllMakeNoDifference(vs[1..]);
    }
  }

  lemma {:induction false} PlainTagsEntriesMakeNoDifference(es: seq<Entry>)
    requires PlainTagsEntries(es) && EncodableEntries(es)
    ensures CanonPairs(false, es) == CanonPairs(true, es)
    decreases es, 1
  {
    if es != [] {
      assert es decreases to es[0];
      PlainTagsMakeNoDifference(es[0].key);
      PlainTagsMakeNoDifference(es[0].value);
      PlainTagsEntriesMakeNoDifference(es[1..]);
    }
  }

  lemma {:induction false} InsertLength(p: Pair, ps: seq<Pair>)
    ensures |Join(InsertByKey(p, ps))| == |p.key| + |p.value| + |Join(ps)| && |InsertByKey(p, ps)| == |ps| + 1
  {
    if ps == [] || !Less(ps[0].key, p.key) {
      assert ([p] + ps)[1..] == ps;
    } else {
      InsertLength(p, ps[1..]);
      assert ([ps[0]] + InsertByKey(p, ps[1..]))[1..] == InsertByKey(p, ps[1..]);
    }
  }

  lemma {:induction false} SortLength(ps: seq<Pair>)
    ensures |Join(SortByKey(ps))| == |Join(ps)| && |SortByKey(ps)| == |ps|
  {
    if ps != [] {
      SortLength(ps[1..]);
      InsertLength(ps[0], SortByKey(ps[1..]));
    }
  }

  /** Copying tags never gives fewer bytes, and gives as many only where tags are plain. */
  lemma {:induction false} CopyingIsNoShorter(v: Value)
    requires InOrder(v) && Encodable(v) && Canon(false, v).Ok?
    ensures Canon(true, v).Ok? && |Canon(true, v).value| <= |Canon(false, v).value|
    ensures |Canon(true, v).value| == |Canon(false, v).value| ==> PlainTags(v)
    decreases v, 0
  {
    match v {
      case Array(vs) => CopyingAllIsNoShorter(vs);
      case Map(es) => CopyingMapIsNoShorter(es);
      case Tag(_, w) => PlainIsNoShorter(w);
      case _ =>
    }
  }

  lemma {:induction false} CopyingMapIsNoShorter(es: seq<Entry>)
    requires InOrder(Map(es)) && EncodableEntries(es) && Canon(false, Map(es)).Ok?
    ensures Canon(true, Map(es)).Ok? && |Canon(true, Map(es)).value| <= |Canon(false, Map(es)).value|
    ensures |Canon(true, Map(es)).value| == |Canon(false, Map(es)).value| ==> PlainTagsEntries(es)
    decreases es, 2
  {
    CopyingEntriesIsNoShorter(es);
    var ps, qs := CanonPairs(true, es).value, CanonPairs(false, es).value;
    AscendingIsSorted(None, ps);
    SortLength(qs);
    assert Canon(true, Map(es)) == Ok(LengthHead(5, |ps|) + Join(ps));
    assert Canon(false, Map(es)) == Ok(LengthHead(5, |qs|) + Join(SortByKey(qs)));
  }

  lemma {:induction false} CopyingAllIsNoShorter(vs: seq<Value>)
    requires InOrderAll(vs) && EncodableAll(vs) && CanonAll(false, vs).Ok?
    ensures CanonAll(true, vs).Ok? && |CanonAll(true, vs).value| <= |CanonAll(false, vs).value|
    ensures |CanonAll(true, vs).value| == |CanonAll(false, vs).value| ==> PlainTagsAll(vs)
    decreases vs, 1
  {
    if vs != [] {
      CopyingIsNoShorter(vs[0]);
      CopyingAllIsNoShorter(vs[1..]);
    }
  }

  lemma {:induction false} CopyingEntriesIsNoShorter(es: seq<Entry>)
    requires InOrderEntries(es) && EncodableEntries(es) && CanonPairs(false, es).Ok?
    ensures CanonPairs(true, es).Ok? && |Join(CanonPairs(true, es).value)| <= |Join(CanonPairs(false, es).value)|
    ensures |Join(CanonPairs(true, es).value)| == |Join(CanonPairs(false, es).value)| ==> PlainTagsEntries(es)
    decreases es, 1
  {
    if es != [] {
      assert es decreases to es[0];
      CopyingIsNoShorter(es[0].key);
      CopyingIsNoShorter(es[0].value);
      CopyingEntriesIsNoShorter(es[1..]);
      var p, ps := CanonPair(true, es[0]).value, CanonPairs(true, es[1..]).value;
      var q, qs := CanonPair(false, es[0]).value, CanonPairs(false, es[1..]).value;
      assert ([p] + ps)[1..] == ps;
      assert ([q] + qs)[1..] == qs;
    }
  }

  // ----- the library's encoder and validator

  /** The library's encoder reproduces `x` from what `x` decodes to. */
  predicate FixedPoint(x: Buf) {
    DecodeValue(x).Ok? && EncodeDeterministic(DecodeValue(x).value) == Ok(x)
  }

  /**
    * On the inputs that are accepted or fixed points of `encode_deterministic`, the two agree if and only if tags
    * are plain.
    */
  lemma ValidatorAgainstEncoder(x: Buf)
    requires DecodeValue(x).Ok?
    ensures ValidateDeterministic(x).Ok? || FixedPoint(x) ==>
              ((ValidateDeterministic(x).Ok? <==> FixedPoint(x)) <==> PlainTags(DecodeValue(x).value))
  {
    hide Decode, Canon, Floats.PreferredFloat;
    var v := DecodeValue(x).value;
    Grammar.Sound(DEFAULT_OPTIONS, x, 0, 0);
    ValidatorAcceptsFixedPoints(x);
    if PlainTags(v) { PlainTagsMakeNoDifference(v); }
    if ValidateDeterministic(x).Ok? && FixedPoint(x) { CopyingIsNoShorter(v); }
  }

  lemma {:induction false} TagFreeIsPlain(v: Value)
    requires TagFree(v)
    ensures PlainTags(v)
    decreases v, 0
  {
    match v {
      case Array(vs) => TagFreeAllIsPlain(vs);
      case Map(es) => TagFreeEntriesArePlain(es);
      case _ =>
    }
  }

  lemma {:induction false} TagFreeAllIsPlain(vs: seq<Value>)
    requires TagFreeAll(vs)
    ensures PlainTagsAll(vs)
    decreases vs, 1
  {
    if vs != [] {
      TagFreeIsPlain(vs[0]);
      TagFreeAllIsPlain(vs[1..]);
    }
  }

  lemma {:induction false} TagFreeEntriesArePlain(es: seq<Entry>)
    requires TagFreeEntries(es)
    ensures PlainTagsEntries(es)
    decreases es, 1
  {
    if es != [] {
      assert es decreases to es[0];
      TagFreeIsPlain(es[0].key);
      TagFreeIsPlain(es[0].value);
      TagFreeEntriesArePlain(es[1..]);
    }
  }

  /** Deterministic validation characterises the deterministic encoder on tag-free inputs. */
  lemma TagFreeCharacterisation(x: Buf)
    requires DecodeValue(x).Ok? ==> TagFree(DecodeValue(x).value)
    ensures ValidateDeterministic(x).Ok? <==> FixedPoint(x)
  {
    if DecodeValue(x).Ok? {
      TagFreeIsPlain(DecodeValue(x).value);
      ValidatorAgainstEncoder(x);
    } else {
      ValidatorAcceptsFixedPoints(x);
    }
  }

  /** With tags it fails: tag 100 around the half-precision 1.5 is accepted and is not a fixed point. */
  lemma TaggedFloatIsNotFixed()
    ensures ValidateDeterministic([0xd8, 0x64, 0xf9, 0x3e, 0x00]).Ok? && !FixedPoint([0xd8, 0x64, 0xf9, 0x3e, 0x00])
  {
    hide Decode, DecodeValue, Canon, EncodeDeterministic, ValidateDeterministic, Floats.HalfToDouble, Floats.PreferredFloat;
    var x: Buf := [0xd8, 0x64, 0xf9, 0x3e, 0x00];
    var v := Tag(100, Float(Floats.HalfToDouble(0x3e00)));
    TaggedFloatDecodes(x);
    HalfOneAndAHalf();
    CanonicalTaggedFloat();
    ValidatorAcceptsFixedPoints(x);
    assert !Wide(v.inner);
    ValidatorAgainstEncoder(x);
  }

  lemma CanonicalTaggedFloat()
    ensures Canon(true, Tag(100, Float(Floats.HalfToDouble(0x3e00)))) == Ok([0xd8, 0x64, 0xf9, 0x3e, 0x00])
  {
    hide Floats.HalfToDouble, Floats.PreferredFloat;
    HalfOneAndAHalf();
    var body := Floats.PreferredFloat(Floats.HalfToDouble(0x3e00));
    assert Canon(true, Float(Floats.HalfToDouble(0x3e00))) == Ok(body);
    assert HeadBytes(6, 100) == [0xd8, 0x64] by { assert ToBE(100, 1) == [100]; }
    assert [0xd8, 0x64] + body == [0xd8, 0x64, 0xf9, 0x3e, 0x00];
  }

  lemma HalfOneAndAHalf()
    ensures Floats.PreferredFloat(Floats.HalfToDouble(0x3e00)) == [0xf9, 0x3e, 0x00]
  {
    hide Floats.PreferredFloat, Floats.HalfToDouble;
    FloatProofs.WidenedHalf(0x3e00);
    FloatProofs.ValidatorAcceptsHalf(0x3e00);
    assert ToBE(0x3e00, 2) == [0x3e, 0x00] by { assert ToBE(0x3e, 1) == [0x3e]; }
  }

  lemma TaggedFloatDecodes(x: Buf)
    requires x == [0xd8, 0x64, 0xf9, 0x3e, 0x00]
    ensures DecodeValue(x) == Ok(Tag(100, Float(Floats.HalfToDouble(0x3e00))))
  {
    hide Floats.HalfToDouble;
    FromOneByte(x[1..2]);
    FromOneByte(x[3..4]);
    assert x[3..5][..1] == x[3..4];
    assert Argument(x, 0) == 100 && Argument(x, 2) == 0x3e00;
    assert Decode(DEFAULT_OPTIONS, x, 2, 1) == Done(Float(Floats.HalfToDouble(0x3e00)), 5);
  }
}
