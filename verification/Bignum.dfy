/** 128-bit integers: section 3.4.3 of RFC 8949 outside the 64-bit argument range. */
module Bignum {
  import opened Core
  import opened Heads
  import opened Encoding
  import opened Encoders
  import opened Events
  import opened SliceDecoders

  // ----- what is written

  /** A numeral without its leading zeros, of which the last byte is kept. */
  function Trimmed(s: Buf): (t: Buf)
    ensures FromBE(t) == FromBE(s) && |t| <= |s| && (s != [] ==> t != [])
    ensures FromBE(s) > 0 ==> t[0] != 0
  {
    if |s| > 1 && s[0] == 0 then LeadingZero(s); Trimmed(s[1..])
    else
      SingleByte(s);
      s
  }

  lemma SingleByte(s: Buf)
    ensures |s| == 1 ==> FromBE(s) == s[0]
  {
    if |s| == 1 { FromOneByte(s); }
  }

  lemma {:induction false} LeadingZero(s: Buf)
    requires s != [] && s[0] == 0
    ensures FromBE(s) == FromBE(s[1..])
  {
    if |s| == 1 {
      FromOneByte(s);
    } else {
      LeadingZero(s[..|s| - 1]);
      assert s[1..][..|s| - 2] == s[..|s| - 1][1..];
    }
  }

  /** The content of the byte string under tag 2 or 3. */
  function BignumBytes(n: U128): (b: Buf)
    ensures 1 <= |b| <= 16 && FromBE(b) == n && (n > 0 ==> b[0] != 0)
  {
    Pow256Values();
    FromToBE(n, 16);
    Trimmed(ToBE(n, 16))
  }

  function TaggedBignum(tag: U64, n: U128): Buf {
    HeadBytes(6, tag) + (LengthHead(2, |BignumBytes(n)|) + BignumBytes(n))
  }

  /** `serialize_i128`. */
  function I128Bytes(i: I128): (b: Buf) {
    if 0 <= i < USIZE_LIMIT then HeadBytes(0, i)
    else if i >= 0 then TaggedBignum(2, i)
    else if -1 - i < USIZE_LIMIT then HeadBytes(1, -1 - i)
    else TaggedBignum(3, -1 - i)
  }

  /** `serialize_u128`. */
  function U128Bytes(n: U128): (b: Buf) {
    if n < USIZE_LIMIT then HeadBytes(0, n) else TaggedBignum(2, n)
  }

  // ----- the writers

  /** `write_bignum_bytes`: the first of the sixteen bytes that is not zero starts the string. */
  method WriteBignumBytes(e: Encoder, value: U128)
    modifies e
    ensures e.output == old(e.output) + (LengthHead(2, |BignumBytes(value)|) + BignumBytes(value))
  {
    var bytes := ToBE(value, 16);
    var first := 0;
    assert bytes[0..] == bytes;
    while first < 15 && bytes[first] == 0
      invariant first <= 15
      invariant Trimmed(bytes) == Trimmed(bytes[first..])
    {
      assert bytes[first..][1..] == bytes[first + 1..];
      first := first + 1;
    }
    assert Trimmed(bytes[first..]) == bytes[first..];
    e.Bytes(bytes[first..]);
  }

  method SerializeI128(e: Encoder, value: I128)
    modifies e
    ensures e.output == old(e.output) + I128Bytes(value)
  {
    hide HeadBytes, LengthHead, BignumBytes;
    if value >= 0 {
      if value < USIZE_LIMIT {
        e.Head(0, value);
        return;
      }
      e.Head(6, 2);
      WriteBignumBytes(e, value);
      WroteBoth(old(e.output), HeadBytes(6, 2), LengthHead(2, |BignumBytes(value)|) + BignumBytes(value), e.output);
    } else {
      var argument := -1 - value;
      if argument < USIZE_LIMIT {
        e.Head(1, argument);
        return;
      }
      e.Head(6, 3);
      WriteBignumBytes(e, argument);
      WroteBoth(old(e.output), HeadBytes(6, 3), LengthHead(2, |BignumBytes(argument)|) + BignumBytes(argument), e.output);
    }
  }

  method SerializeU128(e: Encoder, value: U128)
    modifies e
    ensures e.output == old(e.output) + U128Bytes(value)
  {
    hide HeadBytes, LengthHead, BignumBytes;
    if value < USIZE_LIMIT {
      e.Head(0, value);
    } else {
      e.Head(6, 2);
      WriteBignumBytes(e, value);
      WroteBoth(old(e.output), HeadBytes(6, 2), LengthHead(2, |BignumBytes(value)|) + BignumBytes(value), e.output);
    }
  }

  // ----- reading them back

  /** Neither the first event nor, under a bignum tag, the second one panics. */
  predicate Readable(o: DecodeOptions, input: Buf, pos: nat)
    requires pos <= |input|
  {
    !Panics(input, pos) &&
    match NextEvent(o, input, pos)
    case Done(Tag(_), p) => !Panics(input, p)
    case _ => true
  }

  /** `direct_biguint`. */
  function DirectBiguint(o: DecodeOptions, input: Buf, pos: nat): (r: Parse<U128>)
    requires pos <= |input| && !Panics(input, pos)
    ensures r.Done? ==> r.end <= |input|
  {
    var (event, end) :- NextEvent(o, input, pos);
    if !event.Bytes? then Fail(NewError(UnexpectedType, end))
    else if event.bytes == [] || |event.bytes| > 16 then Fail(NewError(IntegerOverflow, end))
    else
      FitsU128(event.bytes);
      Done(FromBE(event.bytes), end)
  }

  lemma FitsU128(s: Buf)
    requires |s| <= 16
    ensures 0 <= FromBE(s) < 0x1_0000_0000_0000_0000_0000_0000_0000_0000
  {
    Pow256Values();
    Pow256Monotone(|s|, 16);
  }

  /** `direct_integer`. */
  function DirectInteger(o: DecodeOptions, input: Buf, pos: nat): (r: Parse<I128>)
    requires pos <= |input| && Readable(o, input, pos)
  {
    var (event, p) :- NextEvent(o, input, pos);
    match event
    case Unsigned(n) => Done(n, p)
    case Negative(i) => Done(i, p)
    case Tag(tag) =>
      if tag != 2 && tag != 3 then Fail(NewError(UnexpectedType, p)) else
      var (n, end) :- DirectBiguint(o, input, p);
      if n >= 0x8000_0000_0000_0000_0000_0000_0000_0000 then Fail(NewError(IntegerOverflow, end))
      else Done(if tag == 2 then n else -1 - n, end)
    case _ => Fail(NewError(UnexpectedType, p))
  }

  /** `direct_unsigned`. */
  function DirectUnsigned(o: DecodeOptions, input: Buf, pos: nat): (r: Parse<U128>)
    requires pos <= |input| && Readable(o, input, pos)
  {
    var (event, p) :- NextEvent(o, input, pos);
    match event
    case Unsigned(n) => Done(n, p)
    case Tag(2) => DirectBiguint(o, input, p)
    case _ => Fail(NewError(UnexpectedType, p))
  }

  method ReadDirectBiguint(d: SliceDecoder) returns (r: Result<U128>)
    requires d.Valid() && !Panics(d.input, d.pos)
    modifies d
    ensures d.Valid() && old(d.pos) <= d.pos && Agrees(r, d.pos, DirectBiguint(d.options, d.input, old(d.pos)))
  {
    hide NextEvent;
    var event :- Next(d);
    if !event.Bytes? {
      return Err(NewError(UnexpectedType, d.pos));
    }
    var bytes := event.bytes;
    if bytes == [] || |bytes| > 16 {
      return Err(NewError(IntegerOverflow, d.pos));
    }
    var value: U128, i := 0, 0;
    while i < |bytes|
      modifies {}
      invariant i <= |bytes| && value == FromBE(bytes[..i])
    {
      assert bytes[..i + 1][..i] == bytes[..i];
      FitsU128(bytes[..i + 1]);
      assert FromBE(bytes[..i + 1]) == value * 256 + bytes[i];
      value := value * 256 + bytes[i];
      i := i + 1;
    }
    assert bytes[..i] == bytes;
    return Ok(value);
  }

  method ReadDirectInteger(d: SliceDecoder) returns (r: Result<I128>)
    requires d.Valid() && Readable(d.options, d.input, d.pos)
    modifies d
    ensures d.Valid() && Agrees(r, d.pos, DirectInteger(d.options, d.input, old(d.pos)))
  {
    hide NextEvent, DirectBiguint;
    var event :- Next(d);
    match event {
      case Unsigned(n) => return Ok(n);
      case Negative(i) => return Ok(i);
      case Tag(tag) =>
        if tag != 2 && tag != 3 {
          return Err(NewError(UnexpectedType, d.pos));
        }
        var unsigned :- ReadDirectBiguint(d);
        if unsigned >= 0x8000_0000_0000_0000_0000_0000_0000_0000 {
          return Err(NewError(IntegerOverflow, d.pos));
        }
        var value: I128 := if tag == 2 then unsigned else -1 - (unsigned as int);
        return Ok(value);
      case _ => return Err(NewError(UnexpectedType, d.pos));
    }
  }

  method ReadDirectUnsigned(d: SliceDecoder) returns (r: Result<U128>)
    requires d.Valid() && Readable(d.options, d.input, d.pos)
    modifies d
    ensures d.Valid() && Agrees(r, d.pos, DirectUnsigned(d.options, d.input, old(d.pos)))
  {
    hide NextEvent, DirectBiguint;
    var event :- Next(d);
    match event {
      case Unsigned(n) => return Ok(n);
      case Tag(tag) =>
        if tag == 2 {
          r := ReadDirectBiguint(d);
          return;
        }
        return Err(NewError(UnexpectedType, d.pos));
      case _ => return Err(NewError(UnexpectedType, d.pos));
    }
  }

  // ----- round trips

  lemma WrittenInteger(o: DecodeOptions, input: Buf, pos: nat, major: nat, n: U64)
    requires major <= 1 && At(input, pos, HeadBytes(major, n))
    ensures !Panics(input, pos)
    ensures NextEvent(o, input, pos) == Done(if major == 0 then Unsigned(n) else Negative(-1 - n), pos + |HeadBytes(major, n)|)
  {
    hide HeadBytes, Argument;
    ReadHeadBytes(o.Det(), input, pos, major, n);
  }

  lemma WrittenTag(o: DecodeOptions, input: Buf, pos: nat, tag: U64)
    requires At(input, pos, HeadBytes(6, tag))
    ensures !Panics(input, pos) && NextEvent(o, input, pos) == Done(Tag(tag), pos + |HeadBytes(6, tag)|)
  {
    hide HeadBytes, Argument;
    ReadHeadBytes(o.Det(), input, pos, 6, tag);
  }

  lemma WrittenBytes(o: DecodeOptions, input: Buf, pos: nat, s: Buf)
    requires |s| <= 16 && At(input, pos, LengthHead(2, |s|) + s)
    ensures !Panics(input, pos) && NextEvent(o, input, pos) == Done(Bytes(s), pos + |LengthHead(2, |s|) + s|)
  {
    LengthHeadIsExact(2, |s|);
    hide HeadBytes, LengthHead, Argument;
    AtConcat(input, pos, HeadBytes(2, |s|), s);
    ReadHeadBytes(o.Det(), input, pos, 2, |s|);
  }

  lemma WrittenBignum(o: DecodeOptions, input: Buf, pos: nat, tag: U64, n: U128)
    requires At(input, pos, TaggedBignum(tag, n))
    ensures !Panics(input, pos) && NextEvent(o, input, pos) == Done(Tag(tag), pos + |HeadBytes(6, tag)|)
    ensures var p := pos + |HeadBytes(6, tag)|;
            p <= |input| && !Panics(input, p) && DirectBiguint(o, input, p) == Done(n, pos + |TaggedBignum(tag, n)|)
  {
    hide NextEvent, HeadBytes, LengthHead, BignumBytes;
    var b := BignumBytes(n);
    AtConcat(input, pos, HeadBytes(6, tag), LengthHead(2, |b|) + b);
    WrittenTag(o, input, pos, tag);
    WrittenBytes(o, input, pos + |HeadBytes(6, tag)|, b);
  }

  /** Every `i128` survives, whatever the options and wherever it stands, the least one included. */
  lemma I128RoundTrip(o: DecodeOptions, input: Buf, pos: nat, i: I128)
    requires At(input, pos, I128Bytes(i))
    ensures Readable(o, input, pos) && DirectInteger(o, input, pos) == Done(i, pos + |I128Bytes(i)|)
  {
    hide NextEvent, DirectBiguint, HeadBytes, TaggedBignum;
    if 0 <= i < USIZE_LIMIT {
      WrittenInteger(o, input, pos, 0, i);
    } else if i >= 0 {
      WrittenBignum(o, input, pos, 2, i);
    } else if -1 - i < USIZE_LIMIT {
      WrittenInteger(o, input, pos, 1, -1 - i);
    } else {
      WrittenBignum(o, input, pos, 3, -1 - i);
    }
  }

  lemma U128RoundTrip(o: DecodeOptions, input: Buf, pos: nat, n: U128)
    requires At(input, pos, U128Bytes(n))
    ensures Readable(o, input, pos) && DirectUnsigned(o, input, pos) == Done(n, pos + |U128Bytes(n)|)
  {
    hide NextEvent, DirectBiguint, HeadBytes, TaggedBignum;
    if n < USIZE_LIMIT { WrittenInteger(o, input, pos, 0, n); } else { WrittenBignum(o, input, pos, 2, n); }
  }

  /** A bignum tag appears only outside the 64-bit argument range, over more than eight bytes without a leading zero. */
  lemma BignumOnlyWhenNeeded(i: I128)
    ensures -USIZE_LIMIT <= i < USIZE_LIMIT <==> I128Bytes(i)[0] / 32 <= 1
    ensures !(-USIZE_LIMIT <= i < USIZE_LIMIT) ==>
              var payload := BignumBytes(if i >= 0 then i else -1 - i);
              I128Bytes(i) == [if i >= 0 then 0xc2 else 0xc3, 0x40 + |payload|] + payload
              && 9 <= |payload| <= 16 && payload[0] != 0
  {
    var n := if i >= 0 then i else -1 - i;
    if n >= USIZE_LIMIT { TaggedBignumForm(if i >= 0 then 2 else 3, n); }
  }

  lemma UnsignedBignumOnlyWhenNeeded(n: U128)
    ensures n < USIZE_LIMIT <==> U128Bytes(n)[0] / 32 == 0
    ensures n >= USIZE_LIMIT ==>
              var payload := BignumBytes(n);
              U128Bytes(n) == [0xc2, 0x40 + |payload|] + payload && 9 <= |payload| <= 16 && payload[0] != 0
  {
    if n >= USIZE_LIMIT { TaggedBignumForm(2, n); }
  }

  /** A number of more than 64 bits as a tagged byte string. */
  lemma TaggedBignumForm(tag: U64, n: U128)
    requires 2 <= tag <= 3 && n >= USIZE_LIMIT
    ensures var payload := BignumBytes(n);
            TaggedBignum(tag, n) == [0xc0 + tag, 0x40 + |payload|] + payload && 9 <= |payload| <= 16 && payload[0] != 0
  {
    hide BignumBytes;
    var payload := BignumBytes(n);
    Pow256Values();
    if |payload| <= 8 { FromBEFits(payload); }
    LengthHeadIsExact(2, |payload|);
  }
}
