/**
  * Deterministic encoding keeps the value: what it writes decodes to the same tree, with the entries of each
  * map in the order of their encoded keys and NaNs quiet.
  */
module Normalization {
  import opened Core
  import opened Heads
  import opened Values
  import opened Decoding
  import opened Encoding
  import opened Canonical
  import opened Grammar
  import Canonicity
  import Compound
  import Deterministic
  import RoundTrip
  import TaggedItems
  import Floats
  import FloatProofs

  const QUIET_NAN: U64 := 0x7ff8_0000_0000_0000

  /** An entry with its encoding. */
  datatype Item = Item(pair: Pair, entry: Entry)

  /** What `v` becomes when its encoding is decoded; when `deep` is false the content of tags is left alone. */
  function Normal(deep: bool, v: Value): (w: Value)
    requires Canon(deep, v).Ok?
  {
    match v
    case Array(vs) => Array(NormalAll(deep, vs))
    case Map(es) => Map(EntriesOf(SortItems(NormalItems(deep, es))))
    case Tag(t, w) => if deep then Tag(t, Normal(deep, w)) else v
    case Float(bits) => Float(if Floats.IsNaN(bits) then QUIET_NAN else bits)
    case _ => v
  }

  function NormalAll(deep: bool, vs: seq<Value>): (ws: seq<Value>)
    requires CanonAll(deep, vs).Ok?
    ensures |ws| == |vs|
  {
    if vs == [] then [] else [Normal(deep, vs[0])] + NormalAll(deep, vs[1..])
  }

  function NormalItems(deep: bool, es: seq<Entry>): (items: seq<Item>)
    requires CanonPairs(deep, es).Ok?
    ensures PairsOf(items) == CanonPairs(deep, es).value
  {
    if es == [] then []
    else
      assert es decreases to es[0];
      var rest := NormalItems(deep, es[1..]);
      var first := Item(CanonPair(deep, es[0]).value, Entry(Normal(deep, es[0].key), Normal(deep, es[0].value)));
      assert ([first] + rest)[1..] == rest;
      [first] + rest
  }

  function PairsOf(items: seq<Item>): (ps: seq<Pair>)
    ensures |ps| == |items|
  {
    if items == [] then [] else [items[0].pair] + PairsOf(items[1..])
  }

  function EntriesOf(items: seq<Item>): (es: seq<Entry>)
    ensures |es| == |items|
  {
    if items == [] then [] else [items[0].entry] + EntriesOf(items[1..])
  }

  function InsertItem(item: Item, items: seq<Item>): (r: seq<Item>)
    ensures PairsOf(r) == InsertByKey(item.pair, PairsOf(items))
  {
    if items == [] || !Less(items[0].pair.key, item.pair.key) then
      assert ([item] + items)[1..] == items;
      [item] + items
    else
      var rest := InsertItem(item, items[1..]);
      assert ([items[0]] + rest)[1..] == rest;
      [items[0]] + rest
  }

  function SortItems(items: seq<Item>): (r: seq<Item>)
    ensures PairsOf(r) == SortByKey(PairsOf(items))
  {
    if items == [] then [] else InsertItem(items[0], SortItems(items[1..]))
  }

  // ----- the encoding encodes the normal value

  /** Wherever these bytes stand, they are an encoding of `v`. */
  ghost predicate Stands(b: Buf, v: Value) {
    forall input: Buf, pos: nat | At(input, pos, b) :: Encodes(true, input, pos, pos + |b|, v)
  }

  ghost predicate Faithful(o: DecodeOptions, item: Item, depth: nat) {
    Stands(item.pair.key, item.entry.key) && Fits(o, item.entry.key, depth)
    && Stands(item.pair.value, item.entry.value) && Fits(o, item.entry.value, depth)
  }

  ghost predicate AllFaithful(o: DecodeOptions, items: seq<Item>, depth: nat) {
    forall i :: 0 <= i < |items| ==> Faithful(o, items[i], depth)
  }

  lemma {:induction false} InsertKeepsFaith(o: DecodeOptions, item: Item, items: seq<Item>, depth: nat)
    requires Faithful(o, item, depth) && AllFaithful(o, items, depth)
    ensures AllFaithful(o, InsertItem(item, items), depth) && |InsertItem(item, items)| == |items| + 1
    decreases items
  {
    hide Faithful, Less;
    if items != [] && Less(items[0].pair.key, item.pair.key) {
      InsertKeepsFaith(o, item, items[1..], depth);
    }
  }

  lemma {:induction false} SortKeepsFaith(o: DecodeOptions, items: seq<Item>, depth: nat)
    requires AllFaithful(o, items, depth)
    ensures AllFaithful(o, SortItems(items), depth) && |SortItems(items)| == |items|
    decreases items
  {
    hide Faithful;
    if items != [] {
      SortKeepsFaith(o, items[1..], depth);
      InsertKeepsFaith(o, items[0], SortItems(items[1..]), depth);
    }
  }

  /** Faithful items one after another are encoded entries. */
  lemma {:induction false} ItemsEncodeEntries(o: DecodeOptions, items: seq<Item>, input: Buf, pos: nat, depth: nat)
    requires AllFaithful(o, items, depth) && At(input, pos, Join(PairsOf(items)))
    ensures EncodesEntries(true, input, pos, pos + |Join(PairsOf(items))|, EntriesOf(items)) && FitEntries(o, EntriesOf(items), depth)
    decreases items
  {
    hide Encodes, Fits;
    if items != [] {
      var p, e, rest := items[0].pair, items[0].entry, Join(PairsOf(items[1..]));
      assert Faithful(o, items[0], depth);
      assert Join(PairsOf(items)) == p.key + p.value + rest;
      AtConcat(input, pos, p.key + p.value, rest);
      AtConcat(input, pos, p.key, p.value);
      var mid := pos + |p.key| + |p.value|;
      EntryStands(input, pos, p, e);
      ItemsEncodeEntries(o, items[1..], input, mid, depth);
      assert EntriesOf(items)[1..] == EntriesOf(items[1..]);
      PrependEntry(true, input, pos, mid, mid + |rest|, EntriesOf(items));
    }
  }

  lemma EntryStands(input: Buf, pos: nat, p: Pair, e: Entry)
    requires Stands(p.key, e.key) && Stands(p.value, e.value) && At(input, pos, p.key) && At(input, pos + |p.key|, p.value)
    ensures EncodesEntry(true, input, pos, pos + |p.key| + |p.value|, e)
  {
    hide Encodes;
    assert Encodes(true, input, pos, pos + |p.key|, e.key);
    assert Encodes(true, input, pos + |p.key|, pos + |p.key| + |p.value|, e.value);
  }

  lemma {:induction false} CanonicalStands(deep: bool, o: DecodeOptions, v: Value, depth: nat)
    requires Fits(o, v, depth) && Encodable(v) && Canon(deep, v).Ok?
    ensures Stands(Canon(deep, v).value, Normal(deep, v)) && Fits(o, Normal(deep, v), depth)
    decreases v, 1
  {
    match v {
      case Array(vs) => ArrayStands(deep, o, v, depth);
      case Map(es) => MapStands(deep, o, v, depth);
      case Tag(_, _) => if deep { TagStands(o, v, depth); } else { LeafStands(deep, o, v, depth); }
      case Float(bits) => FloatStands(bits);
      case _ => LeafStands(deep, o, v, depth);
    }
  }

  lemma LeafStands(deep: bool, o: DecodeOptions, v: Value, depth: nat)
    requires !v.Array? && !v.Map? && (v.Tag? ==> !deep) && !v.Float? && Fits(o, v, depth) && Encodable(v) && Canon(deep, v).Ok?
    ensures Stands(Canon(deep, v).value, v)
  {
    hide Encodes;
    var b := Encode(v).value;
    forall input: Buf, pos: nat | At(input, pos, b) ensures Encodes(true, input, pos, pos + |b|, v) {
      RoundTrip.EncodedIsEncoding(o, input, pos, v, depth);
    }
  }

  lemma FloatStands(bits: U64)
    ensures Stands(Floats.PreferredFloat(bits), Float(if Floats.IsNaN(bits) then QUIET_NAN else bits))
  {
    var b, v := Floats.PreferredFloat(bits), Float(if Floats.IsNaN(bits) then QUIET_NAN else bits);
    forall input: Buf, pos: nat | At(input, pos, b) ensures Encodes(true, input, pos, pos + |b|, v) {
      PreferredStands(bits, input, pos);
    }
  }

  lemma PreferredStands(bits: U64, input: Buf, pos: nat)
    requires At(input, pos, Floats.PreferredFloat(bits))
    ensures Encodes(true, input, pos, pos + |Floats.PreferredFloat(bits)|, Float(if Floats.IsNaN(bits) then QUIET_NAN else bits))
  {
    hide Floats.PreferredFloat, Floats.IsNaN, Floats.HalfToDouble, Floats.SingleToDouble, FloatProofs.IsHalf, FloatProofs.IsSingle;
    var b := Floats.PreferredFloat(bits);
    FloatProofs.ShortestExactWidth(bits);
    assert b == b[..1] + b[1..];
    AtConcat(input, pos, b[..1], b[1..]);
    assert input[pos] == b[0] by { assert input[pos..pos + 1][0] == b[0]; }
    assert input[pos + 1..pos + |b|] == b[1..];
    if Floats.IsNaN(bits) {
      Deterministic.NaNHalf();
      QuietNaN();
      assert b[1..] == [0x7e, 0x00];
    }
  }

  lemma QuietNaN()
    ensures Floats.HalfToDouble(0x7e00) == QUIET_NAN
  {
    hide Floats.HalfToDouble;
    assert Floats.Unpack16(0x7e00) == Floats.Fields(0, 31, 0x200);
    assert Floats.Widen16(Floats.Fields(0, 31, 0x200)) == Floats.Fields(0, 255, 0x40_0000);
    assert Floats.Widen32(Floats.Fields(0, 255, 0x40_0000)) == Floats.Fields(0, 2047, 0x8_0000_0000_0000);
    FloatProofs.WidenedHalf(0x7e00);
    FloatProofs.Unpacked64(Floats.HalfToDouble(0x7e00));
  }

  lemma TagParts(o: DecodeOptions, v: Value, depth: nat)
    requires v.Tag? && Fits(o, v, depth) && Encodable(v) && Canon(true, v).Ok?
    ensures Fits(o, v.inner, depth + 1) && Encodable(v.inner) && Canon(true, v.inner).Ok? && depth <= o.maxDepth
    ensures Canon(true, v).value == HeadBytes(6, v.tag) + Canon(true, v.inner).value && Normal(true, v) == Tag(v.tag, Normal(true, v.inner))
  {
    hide HeadBytes;
  }

  lemma {:induction false} TagStands(o: DecodeOptions, v: Value, depth: nat)
    requires v.Tag? && Fits(o, v, depth) && Encodable(v) && Canon(true, v).Ok?
    ensures Stands(Canon(true, v).value, Normal(true, v)) && Fits(o, Normal(true, v), depth)
    decreases v, 0
  {
    hide HeadBytes, HeadAt, HeadEnd, Canon, Normal, Encodes;
    TagParts(o, v, depth);
    CanonicalStands(true, o, v.inner, depth + 1);
    var head, body, b := HeadBytes(6, v.tag), Canon(true, v.inner).value, Canon(true, v).value;
    forall input: Buf, pos: nat | At(input, pos, b) ensures Encodes(true, input, pos, pos + |b|, Normal(true, v)) {
      RoundTrip.EncodedHead(input, pos, 6, v.tag, body);
      assert Encodes(true, input, pos + |head|, pos + |b|, Normal(true, v.inner));
      TaggedEncoding(true, input, pos, pos + |b|, Normal(true, v));
    }
  }

  lemma ArrayParts(deep: bool, o: DecodeOptions, v: Value, depth: nat)
    requires v.Array? && Fits(o, v, depth) && Encodable(v) && Canon(deep, v).Ok?
    ensures FitAll(o, v.items, depth + 1) && EncodableAll(v.items) && |v.items| <= o.maxLen && depth <= o.maxDepth
    ensures CanonAll(deep, v.items).Ok? && Normal(deep, v) == Array(NormalAll(deep, v.items))
    ensures Canon(deep, v).value == HeadBytes(4, |v.items|) + CanonAll(deep, v.items).value
  {
    hide HeadBytes;
    LengthHeadIsExact(4, |v.items|);
  }

  lemma {:induction false} ArrayStands(deep: bool, o: DecodeOptions, v: Value, depth: nat)
    requires v.Array? && Fits(o, v, depth) && Encodable(v) && Canon(deep, v).Ok?
    ensures Stands(Canon(deep, v).value, Normal(deep, v)) && Fits(o, Normal(deep, v), depth)
    decreases v, 0
  {
    hide HeadBytes, HeadAt, HeadEnd, Canon, Normal, Encodes, CanonAll, NormalAll;
    ArrayParts(deep, o, v, depth);
    var n, body, b := |v.items|, CanonAll(deep, v.items).value, Canon(deep, v).value;
    ElementsFit(deep, o, v.items, depth + 1);
    forall input: Buf, pos: nat | At(input, pos, b) ensures Encodes(true, input, pos, pos + |b|, Normal(deep, v)) {
      RoundTrip.EncodedHead(input, pos, 4, n, body);
      ElementsStand(deep, o, v.items, input, pos + |HeadBytes(4, n)|, depth + 1);
      DefiniteArray(true, input, pos, pos + |b|, NormalAll(deep, v.items));
    }
  }

  lemma {:induction false} ElementsFit(deep: bool, o: DecodeOptions, vs: seq<Value>, depth: nat)
    requires FitAll(o, vs, depth) && EncodableAll(vs) && CanonAll(deep, vs).Ok?
    ensures FitAll(o, NormalAll(deep, vs), depth)
    decreases vs, 2
  {
    if vs != [] {
      CanonicalStands(deep, o, vs[0], depth);
      ElementsFit(deep, o, vs[1..], depth);
      assert NormalAll(deep, vs)[1..] == NormalAll(deep, vs[1..]);
    }
  }

  lemma ElementParts(deep: bool, o: DecodeOptions, vs: seq<Value>, depth: nat)
    requires vs != [] && FitAll(o, vs, depth) && EncodableAll(vs) && CanonAll(deep, vs).Ok?
    ensures Fits(o, vs[0], depth) && Encodable(vs[0]) && Canon(deep, vs[0]).Ok?
    ensures FitAll(o, vs[1..], depth) && EncodableAll(vs[1..]) && CanonAll(deep, vs[1..]).Ok?
    ensures CanonAll(deep, vs).value == Canon(deep, vs[0]).value + CanonAll(deep, vs[1..]).value
    ensures NormalAll(deep, vs)[0] == Normal(deep, vs[0]) && NormalAll(deep, vs)[1..] == NormalAll(deep, vs[1..])
  {
    hide Canon, Fits, Encodable, Normal;
  }

  lemma {:induction false} ElementsStand(deep: bool, o: DecodeOptions, vs: seq<Value>, input: Buf, pos: nat, depth: nat)
    requires FitAll(o, vs, depth) && EncodableAll(vs) && CanonAll(deep, vs).Ok? && At(input, pos, CanonAll(deep, vs).value)
    ensures EncodesMany(true, input, pos, pos + |CanonAll(deep, vs).value|, NormalAll(deep, vs))
    decreases vs, 2
  {
    hide Encodes, Canon, Fits, Encodable, Normal;
    if vs != [] {
      ElementParts(deep, o, vs, depth);
      MoreElementsStand(deep, o, vs, input, pos, depth);
    }
  }

  lemma {:induction false} MoreElementsStand(deep: bool, o: DecodeOptions, vs: seq<Value>, input: Buf, pos: nat, depth: nat)
    requires vs != [] && Fits(o, vs[0], depth) && Encodable(vs[0]) && Canon(deep, vs[0]).Ok?
    requires FitAll(o, vs[1..], depth) && EncodableAll(vs[1..]) && CanonAll(deep, vs[1..]).Ok? && CanonAll(deep, vs).Ok?
    requires CanonAll(deep, vs).value == Canon(deep, vs[0]).value + CanonAll(deep, vs[1..]).value
    requires NormalAll(deep, vs)[0] == Normal(deep, vs[0]) && NormalAll(deep, vs)[1..] == NormalAll(deep, vs[1..])
    requires At(input, pos, CanonAll(deep, vs).value)
    ensures EncodesMany(true, input, pos, pos + |CanonAll(deep, vs).value|, NormalAll(deep, vs))
    decreases vs, 1
  {
    hide Encodes, EncodesMany, Canon, CanonAll, Fits, FitAll, Encodable, EncodableAll, Normal, NormalAll;
    var first, rest := Canon(deep, vs[0]).value, CanonAll(deep, vs[1..]).value;
    AtConcat(input, pos, first, rest);
    CanonicalStands(deep, o, vs[0], depth);
    assert Encodes(true, input, pos, pos + |first|, Normal(deep, vs[0]));
    ElementsStand(deep, o, vs[1..], input, pos + |first|, depth);
    PrependItem(true, input, pos, pos + |first|, pos + |first| + |rest|, NormalAll(deep, vs));
  }

  lemma MapParts(deep: bool, o: DecodeOptions, v: Value, depth: nat)
    requires v.Map? && Fits(o, v, depth) && Encodable(v) && Canon(deep, v).Ok?
    ensures FitEntries(o, v.entries, depth + 1) && EncodableEntries(v.entries) && |v.entries| <= o.maxLen && depth <= o.maxDepth
    ensures CanonPairs(deep, v.entries).Ok?
    ensures var items := SortItems(NormalItems(deep, v.entries));
            Canon(deep, v).value == HeadBytes(5, |v.entries|) + Join(PairsOf(items)) && Normal(deep, v) == Map(EntriesOf(items))
  {
    hide HeadBytes, Less, HasDuplicate;
    LengthHeadIsExact(5, |v.entries|);
    SortSorts(CanonPairs(deep, v.entries).value);
  }

  lemma {:induction false} MapStands(deep: bool, o: DecodeOptions, v: Value, depth: nat)
    requires v.Map? && Fits(o, v, depth) && Encodable(v) && Canon(deep, v).Ok?
    ensures Stands(Canon(deep, v).value, Normal(deep, v)) && Fits(o, Normal(deep, v), depth)
    decreases v, 0
  {
    hide HeadBytes, Canon, Normal, Stands, SortItems, NormalItems, AllFaithful, Join, PairsOf;
    MapParts(deep, o, v, depth);
    var items := SortItems(NormalItems(deep, v.entries));
    ItemsFaithful(deep, o, v.entries, depth + 1);
    SortKeepsFaith(o, NormalItems(deep, v.entries), depth + 1);
    FaithfulFit(o, items, depth + 1);
    SortedItemsStand(o, items, depth + 1);
  }

  /** A map head and the faithful items it announces. */
  lemma SortedItemsStand(o: DecodeOptions, items: seq<Item>, depth: nat)
    requires AllFaithful(o, items, depth) && |items| < USIZE_LIMIT
    ensures Stands(HeadBytes(5, |items|) + Join(PairsOf(items)), Map(EntriesOf(items)))
  {
    hide HeadBytes, Encodes, AllFaithful, Join, PairsOf, EntriesOf;
    var b := HeadBytes(5, |items|) + Join(PairsOf(items));
    forall input: Buf, pos: nat | At(input, pos, b) ensures Encodes(true, input, pos, pos + |b|, Map(EntriesOf(items))) {
      SortedItemsStandAt(o, items, depth, input, pos);
    }
  }

  lemma SortedItemsStandAt(o: DecodeOptions, items: seq<Item>, depth: nat, input: Buf, pos: nat)
    requires AllFaithful(o, items, depth) && |items| < USIZE_LIMIT
    requires At(input, pos, HeadBytes(5, |items|) + Join(PairsOf(items)))
    ensures var b := HeadBytes(5, |items|) + Join(PairsOf(items));
            Encodes(true, input, pos, pos + |b|, Map(EntriesOf(items)))
  {
    hide HeadBytes, HeadAt, HeadEnd, Encodes, Faithful, AllFaithful, Join, PairsOf, EntriesOf;
    var n, body := |items|, Join(PairsOf(items));
    RoundTrip.EncodedHead(input, pos, 5, n, body);
    ItemsEncodeEntries(o, items, input, pos + |HeadBytes(5, n)|, depth);
    DefiniteMap(true, input, pos, pos + |HeadBytes(5, n) + body|, EntriesOf(items));
  }

  lemma {:induction false} FaithfulFit(o: DecodeOptions, items: seq<Item>, depth: nat)
    requires AllFaithful(o, items, depth)
    ensures FitEntries(o, EntriesOf(items), depth)
    decreases items
  {
    hide Fits, Stands;
    if items != [] {
      assert Faithful(o, items[0], depth);
      FaithfulFit(o, items[1..], depth);
      assert EntriesOf(items)[1..] == EntriesOf(items[1..]);
    }
  }

  lemma {:induction false} ItemsFaithful(deep: bool, o: DecodeOptions, es: seq<Entry>, depth: nat)
    requires FitEntries(o, es, depth) && EncodableEntries(es) && CanonPairs(deep, es).Ok?
    ensures AllFaithful(o, NormalItems(deep, es), depth) && |NormalItems(deep, es)| == |es|
    decreases es, 2
  {
    if es != [] {
      hide Stands;
      assert es decreases to es[0];
      CanonicalStands(deep, o, es[0].key, depth);
      CanonicalStands(deep, o, es[0].value, depth);
      ItemsFaithful(deep, o, es[1..], depth);
      assert Faithful(o, NormalItems(deep, es)[0], depth);
    }
  }

  // ----- the results

  /** The encoding of a value within the limits decodes to the value in normal form. */
  lemma EncodedDecodes(deep: bool, v: Value)
    requires Encodable(v) && Fits(DEFAULT_OPTIONS, v, 0) && Canon(deep, v).Ok?
    ensures DecodeValue(Canon(deep, v).value) == Ok(Normal(deep, v)) && Fits(DEFAULT_OPTIONS, Normal(deep, v), 0)
  {
    hide Canon, Normal, Fits, Encodes, Decode;
    var b := Canon(deep, v).value;
    CanonicalStands(deep, DEFAULT_OPTIONS, v, 0);
    assert At(b, 0, b);
    assert Encodes(true, b, 0, 0 + |b|, Normal(deep, v));
    ShortestIsEncoding(false, b, 0, |b|, Normal(deep, v));
    Complete(DEFAULT_OPTIONS, b, 0, |b|, Normal(deep, v), 0);
  }

  /** The canonical encoding also passes deterministic validation. */
  lemma DeterministicRoundTrip(v: Value)
    requires Encodable(v) && Fits(DEFAULT_OPTIONS, v, 0) && Canon(true, v).Ok?
    ensures DecodeValue(Canon(true, v).value) == Ok(Normal(true, v))
    ensures Deterministic.ValidateDeterministic(Canon(true, v).value).Ok?
  {
    hide Canon, Normal, Fits, Decode;
    var b, o := Canon(true, v).value, DETERMINISTIC_OPTIONS;
    EncodedDecodes(true, v);
    assert At(b, 0, b);
    Deterministic.FitsEither(DEFAULT_OPTIONS, o, v, 0);
    Deterministic.CanonicalIsAccepted(o, v, 0);
    assert Deterministic.AcceptedAt(o, b, b, 0, 0);
  }

  /**
    * What `encode_deterministic` and the arena serializer write of a value within the limits decodes to the value
    * in normal form, and encoding that gives the same bytes again. They pass deterministic validation if and only
    * if the tags of the value are plain.
    */
  lemma SerializedRoundTrip(v: Value)
    requires Encodable(v) && Fits(DEFAULT_OPTIONS, v, 0) && EncodeDeterministic(v).Ok?
    ensures Compound.Serialized(v) == EncodeDeterministic(v)
    ensures var b := EncodeDeterministic(v).value;
            DecodeValue(b) == Ok(Normal(false, v)) && EncodeDeterministic(Normal(false, v)) == Ok(b)
            && (Deterministic.ValidateDeterministic(b).Ok? <==> TaggedItems.PlainTags(v))
  {
    hide Canon, Normal, Fits, Decode, Encodable, Compound.Serialized, TaggedItems.PlainTags, Deterministic.ValidateDeterministic;
    var b := EncodeDeterministic(v).value;
    Compound.SerializedIsDeterministic(v);
    EncodedDecodes(false, v);
    NormalEncodesAlike(false, v);
    NormalKeepsTags(v);
    TaggedItems.ValidatorAgainstEncoder(b);
  }

  // ----- a normal form is encoded like the value

  /** An item whose entry is encoded as its pair. */
  predicate Coherent(deep: bool, item: Item) {
    CanonPair(deep, item.entry) == Ok(item.pair)
  }

  predicate AllCoherent(deep: bool, items: seq<Item>) {
    items == [] || (Coherent(deep, items[0]) && AllCoherent(deep, items[1..]))
  }

  lemma {:induction false} InsertKeepsCoherence(deep: bool, item: Item, items: seq<Item>)
    requires Coherent(deep, item) && AllCoherent(deep, items)
    ensures AllCoherent(deep, InsertItem(item, items))
    decreases items
  {
    hide Coherent, Less;
    if items == [] || !Less(items[0].pair.key, item.pair.key) {
      assert ([item] + items)[1..] == items;
    } else {
      InsertKeepsCoherence(deep, item, items[1..]);
      assert ([items[0]] + InsertItem(item, items[1..]))[1..] == InsertItem(item, items[1..]);
    }
  }

  lemma {:induction false} SortKeepsCoherence(deep: bool, items: seq<Item>)
    requires AllCoherent(deep, items)
    ensures AllCoherent(deep, SortItems(items))
    decreases items
  {
    hide Coherent;
    if items != [] {
      SortKeepsCoherence(deep, items[1..]);
      InsertKeepsCoherence(deep, items[0], SortItems(items[1..]));
    }
  }

  lemma {:induction false} CoherentPairs(deep: bool, items: seq<Item>)
    requires AllCoherent(deep, items)
    ensures CanonPairs(deep, EntriesOf(items)) == Ok(PairsOf(items))
    decreases items
  {
    hide CanonPair;
    if items != [] {
      CoherentPairs(deep, items[1..]);
      assert EntriesOf(items)[1..] == EntriesOf(items[1..]);
    }
  }

  lemma {:induction false} NormalEncodesAlike(deep: bool, v: Value)
    requires Canon(deep, v).Ok?
    ensures Canon(deep, Normal(deep, v)) == Canon(deep, v)
    decreases v, 1
  {
    match v {
      case Array(vs) => NormalElementsAlike(deep, vs);
      case Map(es) => NormalMapAlike(deep, es);
      case Tag(_, w) => if deep { NormalEncodesAlike(deep, w); }
      case Float(bits) => NormalFloatAlike(bits);
      case _ =>
    }
  }

  lemma NormalFloatAlike(bits: U64)
    ensures Floats.PreferredFloat(if Floats.IsNaN(bits) then QUIET_NAN else bits) == Floats.PreferredFloat(bits)
  {
    hide Floats.PreferredFloat, Floats.HalfToDouble, Floats.SingleToDouble, FloatProofs.IsHalf, FloatProofs.IsSingle;
    FloatProofs.ShortestExactWidth(bits);
    FloatProofs.ShortestExactWidth(QUIET_NAN);
  }

  lemma {:induction false} NormalElementsAlike(deep: bool, vs: seq<Value>)
    requires CanonAll(deep, vs).Ok?
    ensures CanonAll(deep, NormalAll(deep, vs)) == CanonAll(deep, vs)
    decreases vs, 0
  {
    hide Canon, Normal;
    if vs != [] {
      NormalEncodesAlike(deep, vs[0]);
      NormalElementsAlike(deep, vs[1..]);
      assert NormalAll(deep, vs)[1..] == NormalAll(deep, vs[1..]);
    }
  }

  lemma {:induction false} NormalMapAlike(deep: bool, es: seq<Entry>)
    requires Canon(deep, Map(es)).Ok?
    ensures Canon(deep, Normal(deep, Map(es))) == Canon(deep, Map(es))
    decreases es, 2
  {
    hide InsertByKey, FinishMap, NormalItems, Less;
    var items := SortItems(NormalItems(deep, es));
    var sorted := PairsOf(items);
    NormalItemsCohere(deep, es);
    SortKeepsCoherence(deep, NormalItems(deep, es));
    CoherentPairs(deep, items);
    SortedStays(CanonPairs(deep, es).value);
    assert Canon(deep, Map(es)) == FinishMap(sorted);
    assert Canon(deep, Map(EntriesOf(items))) == FinishMap(SortByKey(sorted));
  }

  lemma SortedStays(ps: seq<Pair>)
    requires FinishMap(SortByKey(ps)).Ok?
    ensures SortByKey(SortByKey(ps)) == SortByKey(ps)
  {
    hide SortByKey, Less, HasDuplicate, NonDescending;
    SortSorts(ps);
    DistinctIsAscending(None, SortByKey(ps));
    AscendingIsSorted(None, SortByKey(ps));
  }

  lemma {:induction false} NormalItemsCohere(deep: bool, es: seq<Entry>)
    requires CanonPairs(deep, es).Ok?
    ensures AllCoherent(deep, NormalItems(deep, es))
    decreases es, 1
  {
    hide Canon, Normal;
    if es != [] {
      assert es decreases to es[0];
      NormalEncodesAlike(deep, es[0].key);
      NormalEncodesAlike(deep, es[0].value);
      NormalItemsCohere(deep, es[1..]);
      assert NormalItems(deep, es)[1..] == NormalItems(deep, es[1..]);
    }
  }

  // ----- and its tags are plain when the value's are

  lemma {:induction false} NormalKeepsTags(v: Value)
    requires Canon(false, v).Ok?
    ensures TaggedItems.PlainTags(Normal(false, v)) <==> TaggedItems.PlainTags(v)
    decreases v, 1
  {
    match v {
      case Array(vs) => NormalElementsKeepTags(vs);
      case Map(es) => NormalEntriesKeepTags(es);
      case _ =>
    }
  }

  lemma {:induction false} NormalElementsKeepTags(vs: seq<Value>)
    requires CanonAll(false, vs).Ok?
    ensures TaggedItems.PlainTagsAll(NormalAll(false, vs)) <==> TaggedItems.PlainTagsAll(vs)
    decreases vs, 0
  {
    hide Canon, Normal, TaggedItems.PlainTags;
    if vs != [] {
      NormalKeepsTags(vs[0]);
      NormalElementsKeepTags(vs[1..]);
      assert NormalAll(false, vs)[1..] == NormalAll(false, vs[1..]);
    }
  }

  lemma {:induction false} NormalEntriesKeepTags(es: seq<Entry>)
    requires CanonPairs(false, es).Ok?
    ensures TaggedItems.PlainTagsEntries(EntriesOf(SortItems(NormalItems(false, es)))) <==> TaggedItems.PlainTagsEntries(es)
    decreases es, 0
  {
    hide Canon, Normal, TaggedItems.PlainTags, EntriesOf, InsertItem;
    if es != [] {
      assert es decreases to es[0];
      NormalKeepsTags(es[0].key);
      NormalKeepsTags(es[0].value);
      NormalEntriesKeepTags(es[1..]);
      var items := NormalItems(false, es);
      assert items[1..] == NormalItems(false, es[1..]);
      InsertKeepsTags(items[0], SortItems(items[1..]));
    }
  }

  lemma {:induction false} InsertKeepsTags(item: Item, items: seq<Item>)
    ensures TaggedItems.PlainTagsEntries(EntriesOf(InsertItem(item, items)))
            <==> TaggedItems.PlainTags(item.entry.key) && TaggedItems.PlainTags(item.entry.value)
                 && TaggedItems.PlainTagsEntries(EntriesOf(items))
    decreases items
  {
    hide Less, EntriesOf, TaggedItems.PlainTags;
    if items == [] || !Less(items[0].pair.key, item.pair.key) {
      EntriesCons(item, items);
      assert ([item.entry] + EntriesOf(items))[1..] == EntriesOf(items);
    } else {
      var rest := InsertItem(item, items[1..]);
      InsertKeepsTags(item, items[1..]);
      assert items == [items[0]] + items[1..];
      EntriesCons(items[0], items[1..]);
      EntriesCons(items[0], rest);
      assert ([items[0].entry] + EntriesOf(rest))[1..] == EntriesOf(rest);
      assert ([items[0].entry] + EntriesOf(items[1..]))[1..] == EntriesOf(items[1..]);
    }
  }

  // ----- the normal form is the same value

  /** No NaN but the quiet one. */
  predicate NaNsAreQuiet(v: Value) {
    match v
    case Float(bits) => Floats.IsNaN(bits) ==> bits == QUIET_NAN
    case Array(vs) => AllNaNsAreQuiet(vs)
    case Map(es) => EntryNaNsAreQuiet(es)
    case Tag(_, w) => NaNsAreQuiet(w)
    case _ => true
  }

  predicate AllNaNsAreQuiet(vs: seq<Value>) {
    vs == [] || (NaNsAreQuiet(vs[0]) && AllNaNsAreQuiet(vs[1..]))
  }

  predicate EntryNaNsAreQuiet(es: seq<Entry>) {
    es == [] ||
    (assert es decreases to es[0];
     NaNsAreQuiet(es[0].key) && NaNsAreQuiet(es[0].value) && EntryNaNsAreQuiet(es[1..]))
  }

  lemma {:induction false} NormalIsEquivalent(deep: bool, v: Value)
    requires NaNsAreQuiet(v) && Canon(deep, v).Ok?
    ensures Canonicity.Equivalent(v, Normal(deep, v))
    decreases v, 1
  {
    match v {
      case Array(vs) => NormalAllEquivalent(deep, vs);
      case Map(es) => NormalEntriesEquivalent(deep, es);
      case Tag(_, w) => if deep { NormalIsEquivalent(deep, w); } else { Canonicity.EquivalentToItself(v); }
      case _ =>
    }
  }

  lemma {:induction false} NormalAllEquivalent(deep: bool, vs: seq<Value>)
    requires AllNaNsAreQuiet(vs) && CanonAll(deep, vs).Ok?
    ensures Canonicity.EquivalentAll(vs, NormalAll(deep, vs))
    decreases vs, 0
  {
    if vs != [] {
      NormalIsEquivalent(deep, vs[0]);
      NormalAllEquivalent(deep, vs[1..]);
      assert NormalAll(deep, vs)[1..] == NormalAll(deep, vs[1..]);
    }
  }

  lemma {:induction false} NormalEntriesEquivalent(deep: bool, es: seq<Entry>)
    requires EntryNaNsAreQuiet(es) && CanonPairs(deep, es).Ok?
    ensures Canonicity.EquivalentEntries(es, EntriesOf(SortItems(NormalItems(deep, es))))
    decreases es, 0
  {
    if es != [] {
      hide Canonicity.Equivalent, Normal, Canon;
      assert es decreases to es[0];
      NormalIsEquivalent(deep, es[0].key);
      NormalIsEquivalent(deep, es[0].value);
      NormalEntriesEquivalent(deep, es[1..]);
      var items := NormalItems(deep, es);
      assert items[1..] == NormalItems(deep, es[1..]);
      var j := InsertedAt(items[0], SortItems(items[1..]));
      var all := EntriesOf(SortItems(items));
      assert all[j] == items[0].entry && Canonicity.Without(all, j) == EntriesOf(SortItems(items[1..]));
    }
  }

  /** An inserted item stands somewhere, and the others are as before. */
  lemma {:induction false} InsertedAt(item: Item, items: seq<Item>) returns (j: nat)
    ensures var all := EntriesOf(InsertItem(item, items));
            j < |all| && all[j] == item.entry && Canonicity.Without(all, j) == EntriesOf(items)
    decreases items
  {
    hide Less, EntriesOf;
    if items == [] || !Less(items[0].pair.key, item.pair.key) {
      j := 0;
      EntriesCons(item, items);
    } else {
      var k := InsertedAt(item, items[1..]);
      var rest := EntriesOf(InsertItem(item, items[1..]));
      assert items == [items[0]] + items[1..];
      EntriesCons(items[0], items[1..]);
      EntriesCons(items[0], InsertItem(item, items[1..]));
      j := k + 1;
      assert Canonicity.Without([items[0].entry] + rest, j) == [items[0].entry] + Canonicity.Without(rest, k);
    }
  }

  lemma EntriesCons(item: Item, items: seq<Item>)
    ensures EntriesOf([item] + items) == [item.entry] + EntriesOf(items)
  {
    assert ([item] + items)[1..] == items;
  }
}
