/** The token stream against the decoder: the first token of an item says what the item is. */
module Tokens {
  import opened Core
  import opened Heads
  import opened Values
  import opened Decoding
  import Bignum
  import Events
  import Floats
  import Utf8

  /** The token that starts an item of this value; a string or a container may announce its length or not. */
  function TokenOf(v: Value, indefinite: bool): Events.Event {
    match v
    case Unsigned(n) => Events.Unsigned(n)
    case Negative(i) => Events.Negative(i)
    case Bytes(s) => if indefinite then Events.IndefiniteBytes else Events.Bytes(s)
    case Text(s) => if indefinite then Events.IndefiniteText else Events.Text(s)
    case Array(vs) => Events.Array(if indefinite || |vs| >= USIZE_LIMIT then None else Some(|vs|))
    case Map(es) => Events.Map(if indefinite || |es| >= USIZE_LIMIT then None else Some(|es|))
    case Tag(t, _) => Events.Tag(t)
    case Simple(s) => Events.Simple(s)
    case Bool(b) => Events.Bool(b)
    case Null => Events.Null
    case Undefined => Events.Undefined
    case Float(bits) => Events.Float(bits)
  }

  /** An item that is one token. */
  predicate OneToken(v: Value, indefinite: bool) {
    !v.Array? && !v.Map? && !v.Tag? && !(indefinite && (v.Bytes? || v.Text?))
  }

  /** Where the decoder finds a value, the token stream does not panic and starts with that value's token. */
  lemma FirstToken(o: DecodeOptions, input: Buf, pos: nat, depth: nat)
    requires !o.Det() && pos <= |input| && Decode(o, input, pos, depth).Done?
    ensures pos < |input| && !Events.Panics(input, pos)
    ensures var d, e := Decode(o, input, pos, depth), Events.NextEvent(o, input, pos);
            var indefinite := input[pos] % 32 == 31;
            e.Done? && e.value == TokenOf(d.value, indefinite)
            && (if OneToken(d.value, indefinite) then e.end == d.end else e.end == HeadEnd(input, pos))
    ensures var v := Decode(o, input, pos, depth).value; v.Negative? ==> v.i < 0
  {
    hide ReadHead, Decode, DecodeString, DecodeArray, DecodeMap, DecodeSimple;
    var h := ReadHead(false, input, pos);
    DecodeRefused(o, input, pos, depth, h);
    DecodeItemStep(o, input, pos, depth, h);
    NoBreak(o, input, pos, depth, h);
    if 2 <= h.value.major <= 3 {
      StringToken(o, input, h.end, h.value, pos);
    } else if h.value.major == 4 {
      ArrayLength(o, input, h.end, depth, h.value.arg, pos);
    } else if h.value.major == 5 {
      MapLength(o, input, h.end, depth, h.value.arg, pos);
    } else if h.value.major == 7 {
      SimpleToken(o, input[pos] % 32, h.value.arg, h.end, pos);
    }
  }

  lemma NoBreak(o: DecodeOptions, input: Buf, pos: nat, depth: nat, h: Parse<Head>)
    requires !o.Det() && pos <= |input| && h == ReadHead(false, input, pos) && depth <= o.maxDepth && h.Done?
    requires Decode(o, input, pos, depth).Done?
    ensures input[pos] != 0xff && input[pos] != 0x1f && input[pos] != 0x3f && h.end == HeadEnd(input, pos)
  {
    hide ReadHead, Decode, DecodeString, DecodeArray, DecodeMap;
    DecodeItemStep(o, input, pos, depth, h);
  }

  lemma StringToken(o: DecodeOptions, input: Buf, pos: nat, h: Head, at: nat)
    requires !o.Det() && pos <= |input| && 2 <= h.major <= 3 && DecodeString(o, input, pos, h, at).Done?
    ensures var d, e := DecodeString(o, input, pos, h, at), Events.StringEvent(input, pos, h, at);
            e.Done? && e.value == TokenOf(d.value, h.arg.None?) && (h.arg.Some? ==> e.end == d.end) && (h.arg.None? ==> e.end == pos)
  {
    hide DecodeChunks, Utf8.Valid;
  }

  lemma ArrayLength(o: DecodeOptions, input: Buf, pos: nat, depth: nat, arg: Option<U64>, at: nat)
    requires pos <= |input| && DecodeArray(o, input, pos, depth, arg, at).Done?
    ensures arg.Some? ==> |DecodeArray(o, input, pos, depth, arg, at).value| == arg.value
  {
    hide DecodeMany, DecodeToBreak;
  }

  lemma MapLength(o: DecodeOptions, input: Buf, pos: nat, depth: nat, arg: Option<U64>, at: nat)
    requires pos <= |input| && DecodeMap(o, input, pos, depth, arg, at).Done?
    ensures arg.Some? ==> |DecodeMap(o, input, pos, depth, arg, at).value| == arg.value
  {
    hide DecodeEntries, DecodeEntriesToBreak;
  }

  lemma SimpleToken(o: DecodeOptions, ai: nat, arg: Option<U64>, end: nat, at: nat)
    requires !o.Det() && ai < 32 && !(28 <= ai <= 30) && (arg.None? <==> ai == 31) && (arg.Some? ==> ArgumentFits(ai, arg.value))
    requires DecodeSimple(ai, arg, end, at).Done?
    ensures ai < 28
    ensures Events.SimpleEvent(o, ai, arg.value, end, at) == Done(TokenOf(DecodeSimple(ai, arg, end, at).value, false), end)
  {
    hide Floats.HalfToDouble, Floats.SingleToDouble;
  }

  /** A token that is a whole item. */
  predicate IsWhole(e: Events.Event) {
    match e
    case Break => false
    case IndefiniteBytes => false
    case IndefiniteText => false
    case Array(_) => false
    case Map(_) => false
    case Tag(_) => false
    case _ => true
  }

  /** Conversely a token that is a whole item is one for the decoder, unless a string is over the limit. */
  lemma WholeTokenIsItem(o: DecodeOptions, input: Buf, pos: nat, depth: nat)
    requires !o.Det() && pos <= |input| && depth <= o.maxDepth && !Events.Panics(input, pos)
    requires var e := Events.NextEvent(o, input, pos); e.Done? && IsWhole(e.value)
    ensures var d, e := Decode(o, input, pos, depth), Events.NextEvent(o, input, pos);
            (d.Done? && e == Done(TokenOf(d.value, false), d.end)) || d == Fail(NewError(CollectionLimit, pos))
  {
    hide ReadHead, Decode, DecodeString, DecodeArray, DecodeMap, DecodeSimple;
    var h := ReadHead(false, input, pos);
    DecodeItemStep(o, input, pos, depth, h);
    if 2 <= h.value.major <= 3 {
      WholeString(o, input, h.end, h.value, pos);
    } else if h.value.major == 7 {
      WholeSimple(o, input[pos] % 32, h.value.arg.value, h.end, pos);
    }
  }

  lemma WholeString(o: DecodeOptions, input: Buf, pos: nat, h: Head, at: nat)
    requires pos <= |input| && 2 <= h.major <= 3
    requires var e := Events.StringEvent(input, pos, h, at); e.Done? && IsWhole(e.value)
    ensures var d, e := DecodeString(o, input, pos, h, at), Events.StringEvent(input, pos, h, at);
            (d.Done? && e == Done(TokenOf(d.value, false), d.end)) || d == Fail(NewError(CollectionLimit, at))
  {
    hide DecodeChunks, Utf8.Valid;
  }

  lemma WholeSimple(o: DecodeOptions, ai: nat, n: U64, end: nat, at: nat)
    requires !o.Det() && ai < 28 && ArgumentFits(ai, n) && Events.SimpleEvent(o, ai, n, end, at).Done?
    ensures var d := DecodeSimple(ai, Some(n), end, at);
            d.Done? && Events.SimpleEvent(o, ai, n, end, at) == Done(TokenOf(d.value, false), d.end)
  {
    hide Floats.HalfToDouble, Floats.SingleToDouble;
  }

  /** The break is a token of its own, and no other byte starts it. */
  lemma BreakToken(o: DecodeOptions, input: Buf, pos: nat)
    requires pos < |input| && !Events.Panics(input, pos)
    ensures Events.NextEvent(o, input, pos) == Done(Events.Break, pos + 1) <==> input[pos] == 0xff
  {
    hide Floats.HalfToDouble, Floats.SingleToDouble, Floats.NonPreferred, Argument, Utf8.Valid;
  }

  // ----- 128-bit integers

  /** The integer that a value denotes: section 3.4.3 of RFC 8949, up to sixteen bytes. */
  function NumberOf(v: Value): Option<int> {
    match v
    case Unsigned(n) => Some(n)
    case Negative(i) => Some(i)
    case Tag(t, Bytes(s)) =>
      if 2 <= t <= 3 && 1 <= |s| <= 16 then Some(if t == 2 then FromBE(s) else -1 - FromBE(s)) else None
    case _ => None
  }

  /** A tagged string that comes in chunks, which the decoder joins and direct reading refuses. */
  predicate Chunked(input: Buf, pos: nat, v: Value)
    requires pos < |input|
  {
    v.Tag? && v.inner.Bytes? && HeadEnd(input, pos) < |input| && input[HeadEnd(input, pos)] % 32 == 31
  }

  /** Reading an `i128` directly gives the number that the decoded value denotes, and refuses every other value. */
  lemma DirectIntegerIsDecoded(o: DecodeOptions, input: Buf, pos: nat, depth: nat)
    requires !o.Det() && pos <= |input| && Decode(o, input, pos, depth).Done?
    ensures pos < |input| && Bignum.Readable(o, input, pos)
    ensures var d, r := Decode(o, input, pos, depth), Bignum.DirectInteger(o, input, pos);
            var number := if Chunked(input, pos, d.value) then None else NumberOf(d.value);
            match number
            case Some(i) =>
              if -0x8000_0000_0000_0000_0000_0000_0000_0000 <= i < 0x8000_0000_0000_0000_0000_0000_0000_0000 then r == Done(i, d.end)
              else r == Fail(NewError(IntegerOverflow, d.end))
            case None => r.Fail?
  {
    hide Decode, Events.NextEvent, FromBE, Bignum.DirectBiguint;
    FirstToken(o, input, pos, depth);
    var d := Decode(o, input, pos, depth);
    if d.value.Tag? {
      TaggedItem(o, input, pos, depth);
      BytesAreDecoded(o, input, HeadEnd(input, pos), depth + 1);
    }
  }

  /** Likewise a `u128`: the naturals and what tag 2 holds. */
  lemma DirectUnsignedIsDecoded(o: DecodeOptions, input: Buf, pos: nat, depth: nat)
    requires !o.Det() && pos <= |input| && Decode(o, input, pos, depth).Done?
    ensures pos < |input| && Bignum.Readable(o, input, pos)
    ensures var d, r := Decode(o, input, pos, depth), Bignum.DirectUnsigned(o, input, pos);
            var number := if Chunked(input, pos, d.value) then None else NumberOf(d.value);
            if number.Some? && number.value >= 0 then r == Done(number.value, d.end) else r.Fail?
  {
    hide Decode, Events.NextEvent, FromBE, Bignum.DirectBiguint;
    FirstToken(o, input, pos, depth);
    var d := Decode(o, input, pos, depth);
    if d.value.Tag? {
      TaggedItem(o, input, pos, depth);
      BytesAreDecoded(o, input, HeadEnd(input, pos), depth + 1);
    }
  }

  /** Under a bignum tag: only a byte string in one piece, of 1 to 16 bytes, is a number. */
  lemma BytesAreDecoded(o: DecodeOptions, input: Buf, pos: nat, depth: nat)
    requires !o.Det() && pos <= |input| && Decode(o, input, pos, depth).Done?
    ensures pos < |input| && !Events.Panics(input, pos)
    ensures var d, r := Decode(o, input, pos, depth), Bignum.DirectBiguint(o, input, pos);
            if d.value.Bytes? && input[pos] % 32 != 31 && 1 <= |d.value.bytes| <= 16
            then r == Done(FromBE(d.value.bytes), d.end)
            else r.Fail?
  {
    hide Decode, Events.NextEvent, FromBE;
    FirstToken(o, input, pos, depth);
  }

  lemma TaggedItem(o: DecodeOptions, input: Buf, pos: nat, depth: nat)
    requires !o.Det() && pos < |input| && Decode(o, input, pos, depth).Done? && Decode(o, input, pos, depth).value.Tag?
    ensures var d, p := Decode(o, input, pos, depth), HeadEnd(input, pos);
            p <= |input| && Decode(o, input, p, depth + 1) == Done(d.value.inner, d.end)
  {
    hide ReadHead, Decode, DecodeChunks, DecodeArray, DecodeMap, Utf8.Valid, Floats.HalfToDouble, Floats.SingleToDouble;
    var h := ReadHead(false, input, pos);
    DecodeRefused(o, input, pos, depth, h);
    DecodeItemStep(o, input, pos, depth, h);
  }
}
