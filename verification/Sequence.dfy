/** CBOR sequences: section 2 of RFC 8742. */
module Sequences {
  import opened Core
  import opened Heads
  import opened Values
  import opened Skipping
  import opened SliceDecoders
  import Agreement
  import Decoding
  import Encoding
  import RoundTrip
  import Floats
  import Utf8

  /** The items of a sequence from `pos` on, and the error that ended it, which carries the index of its item. */
  function Split(m: Mode, o: DecodeOptions, input: Buf, pos: nat, index: nat): (r: (seq<Buf>, Option<Error>))
    requires pos <= |input|
    decreases |input| - pos
  {
    if pos == |input| then ([], None) else
    match Skip(m, o, input, pos, 0)
    case Fail(e) => ([], Some(WithItem(e, index)))
    case Done(_, end) =>
      var (items, error) := Split(m, o, input, end, index + 1);
      ([input[pos..end]] + items, error)
  }

  function Concat(items: seq<Buf>): Buf {
    if items == [] then [] else items[0] + Concat(items[1..])
  }

  /** The items are a partition of a prefix, which is the whole input when there is no error. */
  lemma {:induction false} ItemsPartition(m: Mode, o: DecodeOptions, input: Buf, pos: nat, index: nat)
    requires pos <= |input|
    ensures var (items, error) := Split(m, o, input, pos, index);
            At(input, pos, Concat(items)) && (error == None ==> pos + |Concat(items)| == |input|)
            && (error.Some? ==> error.value.item == Some(index + |items|) && pos + |Concat(items)| < |input|)
    decreases |input| - pos
  {
    hide Skip;
    if pos < |input| {
      var s := Skip(m, o, input, pos, 0);
      if s.Done? {
        ItemsPartition(m, o, input, s.end, index + 1);
        var (items, error) := Split(m, o, input, s.end, index + 1);
        var first := input[pos..s.end];
        assert ([first] + items)[1..] == items;
        AtConcat(input, pos, first, Concat(items));
      }
    } else {
      assert input[pos..pos] == [];
    }
  }

  /** From `pos` on the items stand one after another, each of them skipped to its end. */
  predicate Items(m: Mode, o: DecodeOptions, input: Buf, pos: nat, items: seq<Buf>)
    requires pos <= |input|
    decreases items
  {
    items == [] ||
    (var s := Skip(m, o, input, pos, 0);
     s.Done? && items[0] == input[pos..s.end] && Items(m, o, input, s.end, items[1..]))
  }

  /** The whole input is such items, and the sequence has exactly those. */
  lemma {:induction false} SplitsWhole(m: Mode, o: DecodeOptions, input: Buf, pos: nat, index: nat, items: seq<Buf>)
    requires pos <= |input|
    ensures Split(m, o, input, pos, index) == (items, None) <==> Items(m, o, input, pos, items) && pos + |Concat(items)| == |input|
    decreases |input| - pos
  {
    hide Skip;
    if pos < |input| && items != [] {
      var s := Skip(m, o, input, pos, 0);
      if s.Done? {
        SplitsWhole(m, o, input, s.end, index + 1, items[1..]);
        var (rest, error) := Split(m, o, input, s.end, index + 1);
        assert ([input[pos..s.end]] + rest)[1..] == rest;
        assert items == [items[0]] + items[1..];
      }
    } else if items != [] {
      assert |Concat(items)| >= |items[0]|;
    }
  }

  /** The items before a place where skipping fails are kept, and the error carries their number. */
  lemma {:induction false} SplitsUpToFailure(m: Mode, o: DecodeOptions, input: Buf, pos: nat, index: nat, items: seq<Buf>, e: Error)
    requires pos <= |input| && Items(m, o, input, pos, items)
    requires var p := pos + |Concat(items)|; p < |input| && Skip(m, o, input, p, 0) == Fail(e)
    ensures Split(m, o, input, pos, index) == (items, Some(WithItem(e, index + |items|)))
    decreases items
  {
    hide Skip;
    if items != [] {
      var s := Skip(m, o, input, pos, 0);
      SplitsUpToFailure(m, o, input, s.end, index + 1, items[1..], e);
      assert items == [items[0]] + items[1..];
    }
  }

  /** `is_complete_one_byte_item`. */
  predicate IsCompleteOneByteItem(b: Byte) {
    b <= 0x17 || 0x20 <= b <= 0x37 || b == 0x40 || b == 0x60 || b == 0x80 || b == 0xa0 || 0xe0 <= b <= 0xf7
  }

  /** The fast path is what skipping finds, whatever the options. */
  lemma FastPathIsSkip(o: DecodeOptions, input: Buf, pos: nat)
    requires pos < |input| && IsCompleteOneByteItem(input[pos])
    ensures Skip(ModeOf(o), o, input, pos, 0) == Done(1, pos + 1)
  {
    hide ReadHead, Utf8.Valid, Floats.HalfToDouble, Floats.ExactHalf, Floats.IsNaN;
    OneByteHead(o.Det(), input, pos);
    assert input[pos + 1..pos + 1] == [];
    Utf8.AsciiIsValid([]);
    if input[pos] / 32 == 4 || input[pos] / 32 == 5 {
      assert SkipMany(ModeOf(o), o, input, pos + 1, 1, input[pos] / 32 == 5, 0, None) == Done(0, pos + 1);
    }
  }

  lemma OneByteHead(det: bool, input: Buf, pos: nat)
    requires pos < |input| && IsCompleteOneByteItem(input[pos])
    ensures ReadHead(det, input, pos) == Done(Head(input[pos] / 32, Some(input[pos] % 32)), pos + 1)
    ensures 2 <= input[pos] / 32 <= 5 ==> input[pos] % 32 == 0
    ensures input[pos] / 32 != 6 && input[pos] % 32 < 24
  {
  }

  class SequenceDecoder {
    const decoder: SliceDecoder
    var index: nat

    predicate Valid()
      reads this, decoder
    {
      decoder.Valid()
    }

    constructor (input: Buf, options: DecodeOptions)
      ensures Valid() && fresh(decoder) && decoder.input == input && decoder.options == options && decoder.pos == 0 && index == 0
    {
      decoder := new SliceDecoder(input, options);
      index := 0;
    }

    /** `next`: an item, or an error after which there is nothing more. */
    method Next() returns (r: Option<Result<Buf>>)
      requires Valid()
      modifies this, decoder
      ensures Valid() && old(decoder.pos) <= decoder.pos
      ensures old(decoder.pos) == |decoder.input| ==> r == None && unchanged(this, decoder)
      ensures old(decoder.pos) < |decoder.input| ==>
                match Skip(ModeOf(decoder.options), decoder.options, decoder.input, old(decoder.pos), 0)
                case Done(_, end) =>
                  r == Some(Ok(decoder.input[old(decoder.pos)..end])) && decoder.pos == end && index == old(index) + 1
                case Fail(e) =>
                  r == Some(Err(WithItem(e, old(index)))) && decoder.pos == |decoder.input| && index == old(index)
    {
      hide Skip;
      if decoder.pos == |decoder.input| {
        return None;
      }
      var item: Result<Buf>;
      if IsCompleteOneByteItem(decoder.input[decoder.pos]) {
        FastPathIsSkip(decoder.options, decoder.input, decoder.pos);
        var start := decoder.pos;
        decoder.pos := decoder.pos + 1;
        item := Ok(decoder.input[start..decoder.pos]);
      } else {
        item := decoder.Raw();
      }
      if item.Ok? {
        index := index + 1;
        return Some(item);
      }
      decoder.pos := |decoder.input|;
      return Some(Err(WithItem(item.error, index)));
    }

    /** Iterating to the end. */
    method Collect() returns (items: seq<Buf>, error: Option<Error>)
      requires Valid()
      modifies this, decoder
      ensures (items, error) == Split(ModeOf(decoder.options), decoder.options, decoder.input, old(decoder.pos), old(index))
    {
      hide Skip;
      items := [];
      ghost var all := Split(ModeOf(decoder.options), decoder.options, decoder.input, decoder.pos, index);
      assert [] + all.0 == all.0;
      while true
        invariant Valid()
        invariant var rest := Split(ModeOf(decoder.options), decoder.options, decoder.input, decoder.pos, index);
                  all == (items + rest.0, rest.1)
        decreases |decoder.input| - decoder.pos
      {
        ghost var pos, before := decoder.pos, items;
        var next := Next();
        match next
        case None =>
          assert items + [] == items;
          return items, None;
        case Some(Err(e)) =>
          assert items + [] == items;
          return items, Some(e);
        case Some(Ok(item)) =>
          ghost var rest := Split(ModeOf(decoder.options), decoder.options, decoder.input, decoder.pos, index);
          assert before + ([item] + rest.0) == before + [item] + rest.0;
          items := items + [item];
      }
    }
  }

  // ----- concatenated encodings

  function Encodings(vs: seq<Value>): Result<seq<Buf>> {
    if vs == [] then Ok([]) else
    var first :- Encoding.Encode(vs[0]);
    var rest :- Encodings(vs[1..]);
    Ok([first] + rest)
  }

  predicate AllFit(vs: seq<Value>) {
    forall i :: 0 <= i < |vs| ==> Encodable(vs[i]) && Fits(DEFAULT_OPTIONS, vs[i], 0)
  }

  /** The encodings of values within the limits, put one after another, are split into exactly those encodings. */
  lemma {:induction false} ConcatenationIsSplit(vs: seq<Value>, input: Buf, pos: nat, index: nat)
    requires AllFit(vs) && Encodings(vs).Ok? && pos <= |input| && input[pos..] == Concat(Encodings(vs).value)
    ensures Split(BASIC, DEFAULT_OPTIONS, input, pos, index) == (Encodings(vs).value, None)
    decreases vs
  {
    hide Skip, Encoding.Encode, Fits, Encodable;
    if vs != [] {
      var first, rest := Encoding.Encode(vs[0]).value, Encodings(vs[1..]).value;
      assert Encodings(vs).value == [first] + rest;
      assert ([first] + rest)[1..] == rest;
      var end := pos + |first|;
      assert input[pos..][..|first|] == first && input[pos..][|first|..] == Concat(rest);
      assert input[pos..end] == first && input[end..] == Concat(rest);
      EncodedIsSkipped(vs[0], input, pos);
      ConcatenationIsSplit(vs[1..], input, end, index + 1);
    } else {
      assert pos == |input|;
    }
  }

  lemma EncodedIsSkipped(v: Value, input: Buf, pos: nat)
    requires Encodable(v) && Fits(DEFAULT_OPTIONS, v, 0) && Encoding.Encode(v).Ok? && At(input, pos, Encoding.Encode(v).value)
    ensures var s := Skip(BASIC, DEFAULT_OPTIONS, input, pos, 0);
            s.Done? && pos < s.end && s.end == pos + |Encoding.Encode(v).value|
  {
    hide Skip, Encoding.Encode, Fits, Encodable, Decoding.Decode, Size;
    RoundTrip.DecodeEncodedAt(DEFAULT_OPTIONS, input, pos, v, 0);
    Agreement.SkipFollowsDecode(DEFAULT_OPTIONS, input, pos, 0);
  }

  /** A whole sequence written item by item comes back item by item. */
  lemma SequenceRoundTrip(vs: seq<Value>)
    requires AllFit(vs)
    ensures Encodings(vs).Ok? && Split(BASIC, DEFAULT_OPTIONS, Concat(Encodings(vs).value), 0, 0) == (Encodings(vs).value, None)
  {
    hide Split;
    EncodingsSucceed(vs);
    ConcatenationIsSplit(vs, Concat(Encodings(vs).value), 0, 0);
  }

  lemma {:induction false} EncodingsSucceed(vs: seq<Value>)
    requires AllFit(vs)
    ensures Encodings(vs).Ok?
    decreases vs
  {
    hide Fits;
    if vs != [] {
      RoundTrip.EncodeSucceeds(vs[0]);
      EncodingsSucceed(vs[1..]);
    }
  }
}
