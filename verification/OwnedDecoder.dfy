/** Decoding into owned values, `validate` and `validate_deterministic`, as loops over the cursor. */
module OwnedDecoder {
  import opened Core
  import opened Heads
  import opened Values
  import opened Decoding
  import opened SliceDecoders
  import Agreement
  import Deterministic
  import Skipping
  import Floats
  import Utf8

  // ----- the methods

  method DecodeOwnedValueAt(d: SliceDecoder, depth: nat) returns (r: Result<Value>)
    requires d.Valid()
    modifies d
    ensures d.Valid() && old(d.pos) <= d.pos && (r.Ok? ==> old(d.pos) < d.pos)
    ensures Agrees(r, d.pos, Decode(d.options, d.input, old(d.pos), depth))
    decreases |d.input| - d.pos, 1
  {
    hide ReadHead, Utf8.Valid, Floats.HalfToDouble, Floats.SingleToDouble;
    if depth > d.options.maxDepth {
      return Err(NewError(DepthLimit, d.pos));
    }
    HeadAtEnd(d.options.Det(), d.input);
    var initial :- d.Peek();
    var h :- d.ReadHeader();
    if h.major <= 1 {
      if h.arg.None? {
        return Err(NewError(InvalidAdditionalInfo, h.at));
      }
      r := Ok(if h.major == 0 then Unsigned(h.arg.value) else Negative(-1 - h.arg.value));
    } else if h.major <= 3 {
      r := DecodeOwnedString(d, h.major, h.arg, h.at);
    } else if h.major == 4 {
      r := DecodeOwnedArray(d, h.arg, depth, h.at);
    } else if h.major == 5 {
      r := DecodeOwnedMap(d, h.arg, depth, h.at);
    } else if h.major == 6 {
      if h.arg.None? {
        return Err(NewError(InvalidAdditionalInfo, h.at));
      }
      var inner :- DecodeOwnedValueAt(d, depth + 1);
      r := Ok(Tag(h.arg.value, inner));
    } else {
      r := match initial % 32
        case 20 => Ok(Bool(false))
        case 21 => Ok(Bool(true))
        case 22 => Ok(Null)
        case 23 => Ok(Undefined)
        case 24 => if h.arg.value >= 32 then Ok(Simple(h.arg.value)) else Err(NewError(InvalidAdditionalInfo, h.at))
        case 25 => Ok(Float(Floats.HalfToDouble(h.arg.value)))
        case 26 => Ok(Float(Floats.SingleToDouble(h.arg.value)))
        case 27 => Ok(Float(h.arg.value))
        case 31 => Err(NewError(UnexpectedBreak, h.at))
        case n => if n <= 19 then Ok(Simple(n)) else Err(NewError(InvalidAdditionalInfo, h.at));
    }
  }

  lemma HeadAtEnd(det: bool, input: Buf)
    ensures ReadHead(det, input, |input|) == Fail(NewError(Eof, |input|))
  {
  }

  method DecodeOwnedString(d: SliceDecoder, major: nat, length: Option<U64>, at: nat) returns (r: Result<Value>)
    requires d.Valid() && 2 <= major <= 3
    modifies d
    ensures d.Valid() && old(d.pos) <= d.pos
    ensures Agrees(r, d.pos, DecodeString(d.options, d.input, old(d.pos), Head(major, length), at))
  {
    hide ReadHead, Utf8.Valid, DecodeChunks;
    if length.Some? {
      if length.value > d.options.maxLen {
        return Err(NewError(CollectionLimit, at));
      }
      var bytes :- d.Take(length.value);
      if major == 2 {
        return Ok(Bytes(bytes));
      }
      return if Utf8.Valid(bytes) then Ok(Text(bytes)) else Err(NewError(InvalidUtf8, at));
    }
    if d.options.Det() {
      return Err(NewError(NonDeterministic, at));
    }
    var joined :- JoinChunks(d, major);
    return Ok(if major == 3 then Text(joined) else Bytes(joined));
  }

  /** The loops of `decode_owned_string` over the chunks of byte and text strings. */
  method JoinChunks(d: SliceDecoder, major: nat) returns (r: Result<Buf>)
    requires d.Valid()
    modifies d
    ensures d.Valid() && old(d.pos) <= d.pos
    ensures Agrees(r, d.pos, DecodeChunks(d.options, d.input, old(d.pos), major, 0))
  {
    hide ReadHead, Utf8.Valid, DecodeChunks;
    var joined: Buf := [];
    AfterNone(DecodeChunks(d.options, d.input, d.pos, major, 0));
    while true
      invariant d.Valid() && old(d.pos) <= d.pos
      invariant DecodeChunks(d.options, d.input, old(d.pos), major, 0)
                == After(joined, DecodeChunks(d.options, d.input, d.pos, major, |joined|))
      decreases |d.input| - d.pos
    {
      DecodeChunksStep(d.options, d.input, d.pos, major, |joined|);
      var next :- d.Peek();
      if next == 0xff {
        d.pos := d.pos + 1;
        AfterAll(joined, d.pos);
        return Ok(joined);
      }
      var chunkAt := d.pos;
      var c :- d.ReadHeader();
      if c.major != major || c.arg.None? {
        return Err(NewError(UnexpectedType, chunkAt));
      }
      if |joined| + c.arg.value > d.options.maxLen {
        return Err(NewError(CollectionLimit, chunkAt));
      }
      var chunk :- d.Take(c.arg.value);
      if major == 3 && !Utf8.Valid(chunk) {
        return Err(NewError(InvalidUtf8, chunkAt));
      }
      AfterMore(joined, chunk, DecodeChunks(d.options, d.input, d.pos, major, |joined| + |chunk|));
      joined := joined + chunk;
    }
  }

  method DecodeOwnedArray(d: SliceDecoder, length: Option<U64>, depth: nat, at: nat) returns (r: Result<Value>)
    requires d.Valid()
    modifies d
    ensures d.Valid() && old(d.pos) <= d.pos
    ensures match DecodeArray(d.options, d.input, old(d.pos), depth, length, at)
            case Done(vs, end) => r == Ok(Array(vs)) && d.pos == end
            case Fail(e) => r == Err(e)
    decreases |d.input| - d.pos, 2
  {
    hide Decode, DecodeMany, DecodeToBreak;
    var values: seq<Value> := [];
    if length.Some? {
      if length.value > d.options.maxLen {
        return Err(NewError(CollectionLimit, at));
      }
      var count := length.value;
      AfterNone(DecodeMany(d.options, d.input, d.pos, depth + 1, count));
      while |values| < count
        invariant |values| <= count && d.Valid() && old(d.pos) <= d.pos
        invariant DecodeMany(d.options, d.input, old(d.pos), depth + 1, count)
                  == After(values, DecodeMany(d.options, d.input, d.pos, depth + 1, count - |values|))
        decreases count - |values|
      {
        DecodeManyStep(d.options, d.input, d.pos, depth + 1, count - |values|);
        var v :- DecodeOwnedValueAt(d, depth + 1);
        AfterMore(values, [v], DecodeMany(d.options, d.input, d.pos, depth + 1, count - |values| - 1));
        values := values + [v];
      }
      DecodeManyStep(d.options, d.input, d.pos, depth + 1, 0);
      AfterAll(values, d.pos);
    } else {
      if d.options.Det() {
        return Err(NewError(NonDeterministic, at));
      }
      AfterNone(DecodeToBreak(d.options, d.input, d.pos, depth + 1, 0, at));
      while true
        invariant d.Valid() && old(d.pos) <= d.pos
        invariant DecodeToBreak(d.options, d.input, old(d.pos), depth + 1, 0, at)
                  == After(values, DecodeToBreak(d.options, d.input, d.pos, depth + 1, |values|, at))
        decreases |d.input| - d.pos
      {
        DecodeToBreakStep(d.options, d.input, d.pos, depth + 1, |values|, at);
        var next :- d.Peek();
        if next == 0xff {
          d.pos := d.pos + 1;
          AfterAll(values, d.pos);
          break;
        }
        if |values| == d.options.maxLen {
          return Err(NewError(CollectionLimit, at));
        }
        var v :- DecodeOwnedValueAt(d, depth + 1);
        AfterMore(values, [v], DecodeToBreak(d.options, d.input, d.pos, depth + 1, |values| + 1, at));
        values := values + [v];
      }
    }
    return Ok(Array(values));
  }

  method DecodeOwnedMap(d: SliceDecoder, length: Option<U64>, depth: nat, at: nat) returns (r: Result<Value>)
    requires d.Valid()
    modifies d
    ensures d.Valid() && old(d.pos) <= d.pos
    ensures match DecodeMap(d.options, d.input, old(d.pos), depth, length, at)
            case Done(es, end) => r == Ok(Map(es)) && d.pos == end
            case Fail(e) => r == Err(e)
    decreases |d.input| - d.pos, 2
  {
    hide Decode, DecodeEntries, DecodeEntriesToBreak;
    var entries: seq<Entry> := [];
    if length.Some? {
      if length.value > d.options.maxLen {
        return Err(NewError(CollectionLimit, at));
      }
      var count := length.value;
      AfterNone(DecodeEntries(d.options, d.input, d.pos, depth + 1, count));
      while |entries| < count
        invariant |entries| <= count && d.Valid() && old(d.pos) <= d.pos
        invariant DecodeEntries(d.options, d.input, old(d.pos), depth + 1, count)
                  == After(entries, DecodeEntries(d.options, d.input, d.pos, depth + 1, count - |entries|))
        decreases count - |entries|
      {
        DecodeEntriesStep(d.options, d.input, d.pos, depth + 1, count - |entries|);
        var key :- DecodeOwnedValueAt(d, depth + 1);
        var value :- DecodeOwnedValueAt(d, depth + 1);
        AfterMore(entries, [Entry(key, value)], DecodeEntries(d.options, d.input, d.pos, depth + 1, count - |entries| - 1));
        entries := entries + [Entry(key, value)];
      }
      DecodeEntriesStep(d.options, d.input, d.pos, depth + 1, 0);
      AfterAll(entries, d.pos);
    } else {
      if d.options.Det() {
        return Err(NewError(NonDeterministic, at));
      }
      AfterNone(DecodeEntriesToBreak(d.options, d.input, d.pos, depth + 1, 0, at));
      while true
        invariant d.Valid() && old(d.pos) <= d.pos
        invariant DecodeEntriesToBreak(d.options, d.input, old(d.pos), depth + 1, 0, at)
                  == After(entries, DecodeEntriesToBreak(d.options, d.input, d.pos, depth + 1, |entries|, at))
        decreases |d.input| - d.pos
      {
        DecodeEntriesToBreakStep(d.options, d.input, d.pos, depth + 1, |entries|, at);
        var next :- d.Peek();
        if next == 0xff {
          d.pos := d.pos + 1;
          AfterAll(entries, d.pos);
          break;
        }
        if |entries| == d.options.maxLen {
          return Err(NewError(CollectionLimit, at));
        }
        var key :- DecodeOwnedValueAt(d, depth + 1);
        var afterKey :- d.Peek();
        if afterKey == 0xff {
          return Err(NewError(UnexpectedBreak, d.pos));
        }
        var value :- DecodeOwnedValueAt(d, depth + 1);
        AfterMore(entries, [Entry(key, value)], DecodeEntriesToBreak(d.options, d.input, d.pos, depth + 1, |entries| + 1, at));
        entries := entries + [Entry(key, value)];
      }
    }
    return Ok(Map(entries));
  }

  /** `decode_owned_value`, which is `from_slice_value`. */
  method DecodeOwnedValue(input: Buf) returns (r: Result<Value>)
    ensures r == DecodeValue(input)
  {
    hide Decode;
    var d := new SliceDecoder(input, DEFAULT_OPTIONS);
    var v :- DecodeOwnedValueAt(d, 0);
    var _ :- d.Finish();
    return Ok(v);
  }

  /** `validate`. */
  method Validate(input: Buf) returns (r: Result<()>)
    ensures r == Agreement.Validate(Skipping.BASIC, DEFAULT_OPTIONS, input)
  {
    hide Skipping.Skip;
    var d := new SliceDecoder(input, DEFAULT_OPTIONS);
    var _ :- d.Skip();
    r := d.Finish();
  }

  /** `validate_deterministic`. */
  method ValidateDeterministic(input: Buf) returns (r: Result<()>)
    ensures r == Deterministic.ValidateDeterministic(input)
  {
    hide Skipping.Skip;
    var d := new SliceDecoder(input, DEFAULT_OPTIONS.(validation := Validation.Deterministic));
    var _ :- d.Skip();
    r := d.Finish();
  }
}
