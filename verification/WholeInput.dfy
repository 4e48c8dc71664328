/** Whole inputs: one item, and what happens when something follows it. */
module WholeInput {
  import opened Core
  import opened Values
  import opened Decoding
  import opened Skipping
  import opened Grammar
  import Agreement
  import Failures
  import Readers

  /** `from_slice_value` returns a value exactly when the whole input is a well-formed encoding of it within the limits. */
  lemma ValueMeetsGrammar(x: Buf, v: Value)
    ensures DecodeValue(x) == Ok(v) <==> Encodes(false, x, 0, |x|, v) && Fits(DEFAULT_OPTIONS, v, 0)
  {
    hide Decode, Encodes, Fits;
    DecoderMeetsGrammar(DEFAULT_OPTIONS, x, 0, 0, v, |x|);
  }

  /** An encoding with bytes after it is `TrailingData` where it ends, for decoding, validation and readers alike. */
  lemma TrailingBytesAreRefused(x: Buf, end: nat, v: Value)
    requires end < |x| && Encodes(false, x, 0, end, v) && Fits(DEFAULT_OPTIONS, v, 0)
    ensures DecodeValue(x) == Err(NewError(TrailingData, end))
    ensures Agreement.Validate(BASIC, DEFAULT_OPTIONS, x) == Err(NewError(TrailingData, end))
    ensures Readers.FromSlice((s: Buf) => Decode(DEFAULT_OPTIONS, s, 0, 0), x) == Err(NewError(TrailingData, end))
    ensures Skip(DETERMINISTIC, DEFAULT_OPTIONS, x, 0, 0).Done? ==>
              Agreement.Validate(DETERMINISTIC, DEFAULT_OPTIONS, x) == Err(NewError(TrailingData, end))
  {
    hide Decode, Encodes, Fits, Skip;
    Complete(DEFAULT_OPTIONS, x, 0, end, v, 0);
    Agreement.SkipFollowsDecode(DEFAULT_OPTIONS, x, 0, 0);
    Agreement.DeterministicRefinesBasic(DEFAULT_OPTIONS, x, 0, 0);
  }

  /** `TrailingData` is reported for nothing else. */
  lemma TrailingDataMeansTrailing(x: Buf, end: nat)
    requires DecodeValue(x) == Err(NewError(TrailingData, end))
    ensures end < |x| && exists v :: Encodes(false, x, 0, end, v) && Fits(DEFAULT_OPTIONS, v, 0)
  {
    hide Decode, Encodes, Fits;
    Failures.DecodeFailure(DEFAULT_OPTIONS, x, 0, 0);
    Sound(DEFAULT_OPTIONS, x, 0, 0);
    assert Encodes(false, x, 0, end, Decode(DEFAULT_OPTIONS, x, 0, 0).value);
  }

  // ----- streams

  /** A reader gets `vs` and a clean end exactly when the stream is encodings of `vs` within the limits, one after another. */
  lemma StreamMeetsGrammar(o: DecodeOptions, stream: Buf, offset: nat, vs: seq<Value>)
    requires offset <= |stream|
    ensures Readers.StreamItems(o, stream, offset) == (vs, None)
            <==> EncodesMany(o.Det(), stream, offset, |stream|, vs) && FitAll(o, vs, 0)
  {
    hide Readers.StreamItems, EncodesMany, FitAll;
    if Readers.StreamItems(o, stream, offset) == (vs, None) {
      var end := StreamIsEncoded(o, stream, offset);
    }
    if EncodesMany(o.Det(), stream, offset, |stream|, vs) && FitAll(o, vs, 0) {
      EncodedStream(o, stream, offset, vs);
    }
  }

  /** The values before an error are encoded up to the place where decoding fails, with that error. */
  lemma {:induction false} StreamIsEncoded(o: DecodeOptions, stream: Buf, offset: nat) returns (end: nat)
    requires offset <= |stream|
    ensures var (vs, error) := Readers.StreamItems(o, stream, offset);
            offset <= end <= |stream| && EncodesMany(o.Det(), stream, offset, end, vs) && FitAll(o, vs, 0)
            && match error
               case None => end == |stream|
               case Some(e) => end < |stream| && Decode(o, stream, end, 0) == Fail(e)
    decreases |stream| - offset
  {
    hide Decode, Encodes, Fits;
    end := offset;
    if offset < |stream| {
      Sound(o, stream, offset, 0);
      Failures.DecodeFailure(o, stream, offset, 0);
      var d := Decode(o, stream, offset, 0);
      if d.Done? {
        end := StreamIsEncoded(o, stream, d.end);
        var rest := Readers.StreamItems(o, stream, d.end).0;
        assert ([d.value] + rest)[1..] == rest;
        PrependItem(o.Det(), stream, offset, d.end, end, [d.value] + rest);
      }
    }
  }

  lemma {:induction false} EncodedStream(o: DecodeOptions, stream: Buf, offset: nat, vs: seq<Value>)
    requires offset <= |stream| && EncodesMany(o.Det(), stream, offset, |stream|, vs) && FitAll(o, vs, 0)
    ensures Readers.StreamItems(o, stream, offset) == (vs, None)
    decreases vs
  {
    hide Decode, Encodes, Fits;
    if vs != [] {
      var mid :| offset <= mid <= |stream| && Encodes(o.Det(), stream, offset, mid, vs[0]) && EncodesMany(o.Det(), stream, mid, |stream|, vs[1..]);
      Complete(o, stream, offset, mid, vs[0], 0);
      EncodedStream(o, stream, mid, vs[1..]);
      assert vs == [vs[0]] + vs[1..];
    }
  }
}
