/** The deterministic validator accepts exactly what the deterministic encoder writes: section 4.2.1 of RFC 8949. */
module Deterministic {
  import opened Core
  import opened Heads
  import opened Values
  import opened Decoding
  import opened Skipping
  import opened Encoding
  import opened Canonical
  import Agreement
  import Grammar
  import Floats
  import FloatProofs
  import Utf8

  /** The validator's and the decoder's options: the same limits, and a decoder that is not deterministic. */
  predicate SameLimits(o: DecodeOptions, q: DecodeOptions) {
    o.maxDepth == q.maxDepth && o.maxLen == q.maxLen && !q.Det()
  }

  /** The bytes between `pos` and the end of a parse are the canonical encoding of its value, maps in order. */
  predicate CanonicalItem(input: Buf, pos: nat, d: Parse<Value>)
    requires pos <= |input|
  {
    d.Done? && pos <= d.end <= |input| && Canon(true, d.value) == Ok(input[pos..d.end]) && InOrder(d.value)
  }

  // ----- what is accepted is canonical

  lemma {:induction false} AcceptedIsCanonical(o: DecodeOptions, q: DecodeOptions, input: Buf, pos: nat, depth: nat)
    requires SameLimits(o, q) && pos <= |input|
    ensures var s := Skip(DETERMINISTIC, o, input, pos, depth);
            var d := Decode(q, input, pos, depth);
            s.Done? ==> CanonicalItem(input, pos, d) && d.end == s.end
    decreases |input| - pos, 1
  {
    hide Skip, Decode, ReadHead, SkipString, DecodeString, SkipContainer, DecodeArray, DecodeMap, SkipSimple, DecodeSimple,
         Canon, InOrder, HeadBytes;
    var h := ReadHead(true, input, pos);
    SkipRefused(DETERMINISTIC, o, input, pos, depth, h);
    if Skip(DETERMINISTIC, o, input, pos, depth).Done? {
      DeterministicHeadIsLenient(input, pos);
      SkipItemStep(DETERMINISTIC, o, input, pos, depth, h);
      DecodeItemStep(q, input, pos, depth, h);
      if h.value.major != 7 && h.value.arg.Some? { DeterministicHeadIsShortest(input, pos); }
      if h.value.major <= 1 {
        AcceptedInteger(input, pos, h.end, h.value.major, h.value.arg.value);
      } else if h.value.major <= 3 {
        AcceptedString(o, q, input, pos, h.end, h.value);
      } else if h.value.major == 4 {
        AcceptedArray(o, q, input, pos, depth, h.end, h.value.arg);
      } else if h.value.major == 5 {
        AcceptedMap(o, q, input, pos, depth, h.end, h.value.arg);
      } else if h.value.major == 6 {
        AcceptedIsCanonical(o, q, input, h.end, depth + 1);
        AcceptedTag(input, pos, h.end, h.value.arg.value, Decode(q, input, h.end, depth + 1));
      } else {
        AcceptedSimple(o, q, input, pos, depth);
      }
    }
  }

  lemma AcceptedInteger(input: Buf, pos: nat, p: nat, major: nat, n: U64)
    requires pos <= p <= |input| && major <= 1 && input[pos..p] == HeadBytes(major, n)
    ensures CanonicalItem(input, pos, Done(if major == 0 then Unsigned(n) else Negative(-1 - n), p))
  {
    hide HeadBytes;
    var v := if major == 0 then Unsigned(n) else Negative(-1 - (n as int));
    assert Canon(true, v) == Ok(HeadBytes(major, n));
  }

  lemma AcceptedTag(input: Buf, pos: nat, p: nat, tag: U64, d: Parse<Value>)
    requires pos <= p <= |input| && input[pos..p] == HeadBytes(6, tag) && CanonicalItem(input, p, d)
    ensures CanonicalItem(input, pos, Done(Tag(tag, d.value), d.end))
  {
    hide HeadBytes;
    SliceConcat(input, pos, p, d.end);
    assert Canon(true, Tag(tag, d.value)) == Ok(HeadBytes(6, tag) + input[p..d.end]);
  }

  lemma AcceptedString(o: DecodeOptions, q: DecodeOptions, input: Buf, pos: nat, p: nat, h: Head)
    requires SameLimits(o, q) && pos <= p <= |input| && 2 <= h.major <= 3
    requires h.arg.Some? ==> input[pos..p] == HeadBytes(h.major, h.arg.value)
    requires SkipString(DETERMINISTIC, o, input, p, h, pos).Done?
    ensures var d := DecodeString(q, input, p, h, pos);
            CanonicalItem(input, pos, d) && d.end == SkipString(DETERMINISTIC, o, input, p, h, pos).end
  {
    hide Utf8.Valid, HeadBytes, LengthHead, Canon, InOrder;
    var n := h.arg.value;
    var data := input[p..p + n];
    assert h.major == 3 ==> Utf8.Valid(data);
    var v := if h.major == 2 then Bytes(data) else Text(data);
    assert DecodeString(q, input, p, h, pos) == Done(v, p + n);
    CanonicalStringForm(h.major, data);
    SliceConcat(input, pos, p, p + n);
  }

  lemma CanonicalStringForm(major: nat, s: Buf)
    requires 2 <= major <= 3 && |s| < USIZE_LIMIT && (major == 3 ==> Utf8.Valid(s))
    ensures var v := if major == 2 then Bytes(s) else Text(s);
            Canon(true, v) == Ok(HeadBytes(major, |s|) + s) && InOrder(v)
  {
    hide HeadBytes, LengthHead;
    LengthHeadIsExact(major, |s|);
  }

  lemma AcceptedSimple(o: DecodeOptions, q: DecodeOptions, input: Buf, pos: nat, depth: nat)
    requires SameLimits(o, q) && pos < |input| && depth <= q.maxDepth && input[pos] / 32 == 7
    requires Skip(DETERMINISTIC, o, input, pos, depth).Done?
    ensures var d := Decode(q, input, pos, depth);
            CanonicalItem(input, pos, d) && d.end == Skip(DETERMINISTIC, o, input, pos, depth).end
  {
    hide Skip, Decode, DecodeSimple, Canon, Argument, Floats.NonPreferred;
    var ai, n, end := SkippedSimple(o, q, input, pos, depth);
    var tail := input[pos + 1..end];
    assert input[pos..end] == [0xe0 + ai] + tail;
    if ai == 24 {
      FromOneByte(tail);
      assert [0xe0 + ai] + tail == [0xf8, n];
      OneByteSimple(n, end, pos);
    } else if 25 <= ai <= 27 {
      ToFromBE(tail);
      AcceptedFloat(ai, n, tail, end, pos);
    } else {
      ShortSimple(ai, end, pos);
      assert [0xe0 + ai] + tail == [0xe0 + ai];
    }
  }

  /** What deterministic skipping has checked of an item of major type 7. */
  lemma SkippedSimple(o: DecodeOptions, q: DecodeOptions, input: Buf, pos: nat, depth: nat) returns (ai: nat, n: U64, end: nat)
    requires SameLimits(o, q) && pos < |input| && depth <= q.maxDepth && input[pos] / 32 == 7
    requires Skip(DETERMINISTIC, o, input, pos, depth).Done?
    ensures ai < 28 && input[pos] == 0xe0 + ai && end == pos + 1 + ArgWidth(ai) && end <= |input|
    ensures n == if ArgWidth(ai) == 0 then ai else FromBE(input[pos + 1..end])
    ensures ArgumentFits(ai, n) && (ai == 24 ==> n >= 32) && !Floats.NonPreferred(ai, n)
    ensures Skip(DETERMINISTIC, o, input, pos, depth).end == end
    ensures Decode(q, input, pos, depth) == DecodeSimple(ai, Some(n), end, pos)
  {
    hide Floats.NonPreferred, DecodeSimple;
    var h := ReadHead(true, input, pos);
    DeterministicHeadIsLenient(input, pos);
    ai, n, end := input[pos] % 32, h.value.arg.value, h.end;
  }

  lemma OneByteSimple(n: Byte, end: nat, at: nat)
    requires n >= 32
    ensures var d := DecodeSimple(24, Some(n), end, at);
            d.Done? && d.end == end && Canon(true, d.value) == Ok([0xf8, n]) && InOrder(d.value)
  {
  }

  lemma ShortSimple(ai: nat, end: nat, at: nat)
    requires ai < 24
    ensures var d := DecodeSimple(ai, Some(ai), end, at);
            d.Done? && d.end == end && Canon(true, d.value) == Ok([0xe0 + ai]) && InOrder(d.value)
  {
  }

  lemma AcceptedFloat(ai: nat, n: U64, tail: Buf, end: nat, at: nat)
    requires 25 <= ai <= 27 && ArgumentFits(ai, n) && !Floats.NonPreferred(ai, n) && tail == ToBE(n, ArgWidth(ai))
    ensures var d := DecodeSimple(ai, Some(n), end, at);
            d.Done? && d.end == end && Canon(true, d.value) == Ok([0xe0 + ai] + tail) && InOrder(d.value)
  {
    hide Floats.HalfToDouble, Floats.SingleToDouble, Floats.NonPreferred, Floats.PreferredFloat;
    if ai == 25 {
      FloatProofs.ValidatorAcceptsHalf(n);
    } else if ai == 26 {
      FloatProofs.ValidatorAcceptsSingle(n);
    } else {
      FloatProofs.ValidatorAcceptsDouble(n);
    }
  }

  lemma {:induction false} AcceptedArray(o: DecodeOptions, q: DecodeOptions, input: Buf, pos: nat, depth: nat, p: nat, arg: Option<U64>)
    requires SameLimits(o, q) && pos < p <= |input|
    requires arg.Some? ==> input[pos..p] == HeadBytes(4, arg.value)
    requires SkipContainer(DETERMINISTIC, o, input, p, depth + 1, arg, false, pos).Done?
    ensures var d := ArrayItem(DecodeArray(q, input, p, depth, arg, pos));
            CanonicalItem(input, pos, d) && d.end == SkipContainer(DETERMINISTIC, o, input, p, depth + 1, arg, false, pos).end
    decreases |input| - pos, 0
  {
    hide SkipMany, DecodeMany, Canon, CanonAll, InOrder, InOrderAll, HeadBytes;
    var n := arg.value;
    AcceptedMany(o, q, input, p, depth + 1, n);
    var d := DecodeMany(q, input, p, depth + 1, n);
    CanonicalArrayForm(d.value);
    SliceConcat(input, pos, p, d.end);
  }

  lemma CanonicalArrayForm(vs: seq<Value>)
    requires |vs| < USIZE_LIMIT && CanonAll(true, vs).Ok?
    ensures Canon(true, Array(vs)) == Ok(HeadBytes(4, |vs|) + CanonAll(true, vs).value)
    ensures InOrder(Array(vs)) <==> InOrderAll(vs)
  {
    hide HeadBytes, LengthHead;
    LengthHeadIsExact(4, |vs|);
  }

  lemma {:induction false} AcceptedMap(o: DecodeOptions, q: DecodeOptions, input: Buf, pos: nat, depth: nat, p: nat, arg: Option<U64>)
    requires SameLimits(o, q) && pos < p <= |input|
    requires arg.Some? ==> input[pos..p] == HeadBytes(5, arg.value)
    requires SkipContainer(DETERMINISTIC, o, input, p, depth + 1, arg, true, pos).Done?
    ensures var d := MapItem(DecodeMap(q, input, p, depth, arg, pos));
            CanonicalItem(input, pos, d) && d.end == SkipContainer(DETERMINISTIC, o, input, p, depth + 1, arg, true, pos).end
    decreases |input| - pos, 0
  {
    hide SkipMany, DecodeEntries, Canon, CanonPairs, InOrder, InOrderEntries, HeadBytes, Join, Ascending;
    var n := arg.value;
    AcceptedEntries(o, q, input, p, depth + 1, n, None);
    var d := DecodeEntries(q, input, p, depth + 1, n);
    OrderedMapForm(d.value);
    SliceConcat(input, pos, p, d.end);
  }

  /** A map whose encoded keys increase is encoded in the order in which it stands. */
  lemma OrderedMapForm(es: seq<Entry>)
    requires |es| < USIZE_LIMIT && CanonPairs(true, es).Ok? && Ascending(None, CanonPairs(true, es).value)
    ensures Canon(true, Map(es)) == Ok(HeadBytes(5, |es|) + Join(CanonPairs(true, es).value))
    ensures InOrder(Map(es)) <==> InOrderEntries(es)
  {
    hide HeadBytes, LengthHead, Less;
    AscendingIsSorted(None, CanonPairs(true, es).value);
    LengthHeadIsExact(5, |es|);
  }

  lemma {:induction false} AcceptedMany(o: DecodeOptions, q: DecodeOptions, input: Buf, pos: nat, depth: nat, count: nat)
    requires SameLimits(o, q) && pos <= |input|
    ensures var s := SkipMany(DETERMINISTIC, o, input, pos, depth, false, count, None);
            var d := DecodeMany(q, input, pos, depth, count);
            s.Done? ==> d.Done? && d.end == s.end && CanonAll(true, d.value) == Ok(input[pos..d.end])
                        && InOrderAll(d.value)
    decreases |input| - pos, 2
  {
    hide Skip, Decode, Canon, SkipMany, DecodeMany;
    assert input[pos..pos] == [];
    SkipManyStep(DETERMINISTIC, o, input, pos, depth, false, count, None);
    DecodeManyStep(q, input, pos, depth, count);
    if SkipMany(DETERMINISTIC, o, input, pos, depth, false, count, None).Done? && count > 0 {
      AcceptedIsCanonical(o, q, input, pos, depth);
      var v := Decode(q, input, pos, depth);
      AcceptedMany(o, q, input, v.end, depth, count - 1);
      var vs := DecodeMany(q, input, v.end, depth, count - 1);
      assert ([v.value] + vs.value)[1..] == vs.value;
      SliceConcat(input, pos, v.end, vs.end);
    }
  }

  lemma {:induction false} AcceptedEntries(o: DecodeOptions, q: DecodeOptions, input: Buf, pos: nat, depth: nat, count: nat, previous: Option<Buf>)
    requires SameLimits(o, q) && pos <= |input|
    ensures var s := SkipMany(DETERMINISTIC, o, input, pos, depth, true, 2 * count, previous);
            var d := DecodeEntries(q, input, pos, depth, count);
            s.Done? ==> d.Done? && d.end == s.end && CanonPairs(true, d.value).Ok?
                        && Join(CanonPairs(true, d.value).value) == input[pos..d.end]
                        && Ascending(previous, CanonPairs(true, d.value).value) && InOrderEntries(d.value)
    decreases |input| - pos, 2
  {
    hide Skip, Decode, Less, Canon, SkipMany, DecodeEntries;
    SkipManyStep(DETERMINISTIC, o, input, pos, depth, true, 2 * count, previous);
    DecodeEntriesStep(q, input, pos, depth, count);
    if count == 0 {
      assert input[pos..pos] == [];
    } else if SkipMany(DETERMINISTIC, o, input, pos, depth, true, 2 * count, previous).Done? {
      var p, r := SkippedEntry(o, input, pos, depth, count, previous);
      AcceptedIsCanonical(o, q, input, pos, depth);
      AcceptedIsCanonical(o, q, input, p, depth);
      AcceptedEntries(o, q, input, r, depth, count - 1, Some(input[pos..p]));
      var rest := DecodeEntries(q, input, r, depth, count - 1);
      var ps := CanonPairs(true, rest.value);
      assert ps.Ok? && Join(ps.value) == input[r..rest.end];
      PrependPair(q, input, pos, p, r, depth, count, previous);
    }
  }

  /** Skipping a deterministic entry: the key, which must exceed the one before it, and the value. */
  lemma SkippedEntry(o: DecodeOptions, input: Buf, pos: nat, depth: nat, count: nat, previous: Option<Buf>) returns (p: nat, r: nat)
    requires pos <= |input| && count > 0 && SkipMany(DETERMINISTIC, o, input, pos, depth, true, 2 * count, previous).Done?
    ensures var k := Skip(DETERMINISTIC, o, input, pos, depth); k.Done? && k.end == p && pos < p <= |input|
    ensures var v := Skip(DETERMINISTIC, o, input, p, depth); v.Done? && v.end == r && p < r <= |input|
    ensures previous.Some? ==> Less(previous.value, input[pos..p])
    ensures var rest := SkipMany(DETERMINISTIC, o, input, r, depth, true, 2 * (count - 1), Some(input[pos..p]));
            rest.Done? && rest.end == SkipMany(DETERMINISTIC, o, input, pos, depth, true, 2 * count, previous).end
  {
    hide Skip, SkipMany, Less;
    SkipManyStep(DETERMINISTIC, o, input, pos, depth, true, 2 * count, previous);
    p := Skip(DETERMINISTIC, o, input, pos, depth).end;
    SkipManyStep(DETERMINISTIC, o, input, p, depth, true, 2 * count - 1, Some(input[pos..p]));
    var afterKey := SkipMany(DETERMINISTIC, o, input, p, depth, true, 2 * count - 1, Some(input[pos..p]));
    assert afterKey.Done?;
    r := Skip(DETERMINISTIC, o, input, p, depth).end;
    assert 2 * count - 1 - 1 == 2 * (count - 1);
  }

  lemma PrependPair(q: DecodeOptions, input: Buf, pos: nat, p: nat, r: nat, depth: nat, count: nat, previous: Option<Buf>)
    requires pos <= p <= r <= |input| && count > 0 && (previous.Some? ==> Less(previous.value, input[pos..p]))
    requires var k := Decode(q, input, pos, depth); CanonicalItem(input, pos, k) && k.end == p
    requires var v := Decode(q, input, p, depth); CanonicalItem(input, p, v) && v.end == r
    requires var d := DecodeEntries(q, input, r, depth, count - 1);
             d.Done? && CanonPairs(true, d.value).Ok? && Join(CanonPairs(true, d.value).value) == input[r..d.end]
             && Ascending(Some(input[pos..p]), CanonPairs(true, d.value).value) && InOrderEntries(d.value)
    ensures var d := DecodeEntries(q, input, pos, depth, count);
            d.Done? && d.end == DecodeEntries(q, input, r, depth, count - 1).end && CanonPairs(true, d.value).Ok?
            && Join(CanonPairs(true, d.value).value) == input[pos..d.end]
            && Ascending(previous, CanonPairs(true, d.value).value) && InOrderEntries(d.value)
  {
    hide Decode, DecodeEntries, Canon, InOrder;
    DecodeEntriesStep(q, input, pos, depth, count);
    var rest := DecodeEntries(q, input, r, depth, count - 1);
    var first := Entry(Decode(q, input, pos, depth).value, Decode(q, input, p, depth).value);
    var pair, ps := Pair(input[pos..p], input[p..r]), CanonPairs(true, rest.value).value;
    var d := DecodeEntries(q, input, pos, depth, count);
    assert d == Done([first] + rest.value, rest.end);
    assert d.value[1..] == rest.value;
    assert CanonPair(true, first) == Ok(pair);
    assert CanonPairs(true, d.value) == Ok([pair] + ps);
    assert ([pair] + ps)[1..] == ps;
    SliceConcat(input, pos, p, r);
    SliceConcat(input, pos, r, rest.end);
  }

  // ----- what is canonical is accepted

  /** Wherever these bytes stand, deterministic skipping at `depth` accepts them and stops after them. */
  ghost predicate Accepts(o: DecodeOptions, b: Buf, depth: nat) {
    forall input: Buf, pos: nat | At(input, pos, b) :: AcceptedAt(o, b, input, pos, depth)
  }

  predicate AcceptedAt(o: DecodeOptions, b: Buf, input: Buf, pos: nat, depth: nat)
    requires At(input, pos, b)
  {
    var s := Skip(DETERMINISTIC, o, input, pos, depth);
    s.Done? && s.end == pos + |b|
  }

  ghost predicate AcceptsPairs(o: DecodeOptions, ps: seq<Pair>, depth: nat) {
    forall p | p in ps :: Accepts(o, p.key, depth) && Accepts(o, p.value, depth)
  }

  lemma {:induction false} CanonicalIsAccepted(o: DecodeOptions, v: Value, depth: nat)
    requires Doubles(o) && Fits(o, v, depth) && Canon(true, v).Ok?
    ensures Accepts(o, Canon(true, v).value, depth)
    decreases v, 2
  {
    hide Skip, Canon, Fits;
    var b := Canon(true, v).value;
    forall input: Buf, pos: nat | At(input, pos, b) ensures AcceptedAt(o, b, input, pos, depth) {
      CanonicalAt(o, v, input, pos, depth);
    }
  }

  lemma {:induction false} CanonicalAt(o: DecodeOptions, v: Value, input: Buf, pos: nat, depth: nat)
    requires Doubles(o) && Fits(o, v, depth) && Canon(true, v).Ok? && At(input, pos, Canon(true, v).value)
    ensures AcceptedAt(o, Canon(true, v).value, input, pos, depth)
    decreases v, 1
  {
    hide Skip, Canon, At, AcceptedAt;
    match v {
      case Array(_) => CanonicalArray(o, v, input, pos, depth);
      case Map(_) => CanonicalMap(o, v, input, pos, depth);
      case Tag(_, _) => CanonicalTag(o, v, input, pos, depth);
      case Float(_) => CanonicalFloat(o, v, input, pos, depth);
      case Unsigned(_) => CanonicalInteger(o, v, input, pos, depth);
      case Negative(_) => CanonicalInteger(o, v, input, pos, depth);
      case Bytes(s) => CanonicalString(o, 2, s, input, pos, depth);
      case Text(s) => CanonicalString(o, 3, s, input, pos, depth);
      case _ => CanonicalSimple(o, v, input, pos, depth);
    }
  }

  lemma {:induction false} CanonicalTag(o: DecodeOptions, v: Value, input: Buf, pos: nat, depth: nat)
    requires v.Tag? && Doubles(o) && Fits(o, v, depth) && Canon(true, v).Ok? && At(input, pos, Canon(true, v).value)
    ensures AcceptedAt(o, Canon(true, v).value, input, pos, depth)
    decreases v, 0
  {
    hide Skip, ReadHead, HeadBytes;
    var body := Canon(true, v.inner).value;
    CanonicalIsAccepted(o, v.inner, depth + 1);
    AfterHead(input, pos, 6, v.tag, body);
    assert AcceptedAt(o, body, input, pos + |HeadBytes(6, v.tag)|, depth + 1);
    SkipItemStep(DETERMINISTIC, o, input, pos, depth, ReadHead(true, input, pos));
  }

  lemma AfterHead(input: Buf, pos: nat, major: nat, n: U64, body: Buf)
    requires major < 8 && At(input, pos, HeadBytes(major, n) + body)
    ensures ReadHead(true, input, pos) == Done(Head(major, Some(n)), pos + |HeadBytes(major, n)|)
    ensures At(input, pos + |HeadBytes(major, n)|, body)
  {
    AtConcat(input, pos, HeadBytes(major, n), body);
    ReadHeadBytes(true, input, pos, major, n);
  }

  lemma CanonicalInteger(o: DecodeOptions, v: Value, input: Buf, pos: nat, depth: nat)
    requires (v.Unsigned? || v.Negative?) && Canon(true, v).Ok? && At(input, pos, Canon(true, v).value) && depth <= o.maxDepth
    ensures AcceptedAt(o, Canon(true, v).value, input, pos, depth)
  {
    hide Skip, ReadHead, HeadBytes;
    var i := if v.Unsigned? then v.n else v.i;
    if i >= 0 { ReadHeadBytes(true, input, pos, 0, i); } else { ReadHeadBytes(true, input, pos, 1, -1 - i); }
    SkipItemStep(DETERMINISTIC, o, input, pos, depth, ReadHead(true, input, pos));
  }

  lemma CanonicalString(o: DecodeOptions, major: nat, s: Buf, input: Buf, pos: nat, depth: nat)
    requires 2 <= major <= 3 && |s| <= o.maxLen && depth <= o.maxDepth && (major == 3 ==> Utf8.Valid(s))
    requires var v := if major == 2 then Bytes(s) else Text(s);
             Canon(true, v).Ok? && At(input, pos, Canon(true, v).value)
    ensures AcceptedAt(o, Canon(true, if major == 2 then Bytes(s) else Text(s)).value, input, pos, depth)
  {
    hide Skip, SkipString, ReadHead, HeadBytes, Utf8.Valid, Canon;
    CanonicalStringForm(major, s);
    var head := HeadBytes(major, |s|);
    AfterHead(input, pos, major, |s|, s);
    assert input[pos + |head|..pos + |head| + |s|] == s;
    assert !BadText(DETERMINISTIC, major, s);
    StringSkipped(o, Head(major, Some(|s|)), |s|, input, pos + |head|, pos);
    SkipItemStep(DETERMINISTIC, o, input, pos, depth, ReadHead(true, input, pos));
  }

  lemma StringSkipped(o: DecodeOptions, h: Head, n: U64, input: Buf, pos: nat, at: nat)
    requires h.arg == Some(n) && n <= o.maxLen && pos + n <= |input| && !BadText(DETERMINISTIC, h.major, input[pos..pos + n])
    ensures SkipString(DETERMINISTIC, o, input, pos, h, at) == Done((), pos + n)
  {
    hide BadText, SkipChunks;
  }

  lemma CanonicalFloat(o: DecodeOptions, v: Value, input: Buf, pos: nat, depth: nat)
    requires v.Float? && At(input, pos, Canon(true, v).value) && depth <= o.maxDepth
    ensures AcceptedAt(o, Canon(true, v).value, input, pos, depth)
  {
    hide Skip, Floats.NonPreferred, Floats.PreferredFloat;
    var b := Canon(true, v).value;
    var w := FloatParts(v.bits);
    AtConcat(input, pos, b[..1], b[1..]);
    assert b == b[..1] + b[1..];
    assert input[pos] == b[0] by { assert input[pos..pos + 1][0] == b[0]; }
    assert input[pos + 1..pos + 1 + w] == b[1..];
    SkipItemStep(DETERMINISTIC, o, input, pos, depth, ReadHead(true, input, pos));
  }

  /** The bytes of a preferred float, as a head of major type 7 that the validator accepts. */
  lemma FloatParts(bits: U64) returns (w: nat)
    ensures var b := Floats.PreferredFloat(bits);
            |b| == 1 + w && 0xf9 <= b[0] <= 0xfb && w == ArgWidth(b[0] % 32) && AcceptedArgument(b[0] % 32, FromBE(b[1..]))
  {
    hide Floats.HalfToDouble, Floats.SingleToDouble, Floats.NonPreferred, Floats.PreferredFloat, Floats.IsNaN, FloatProofs.IsHalf, FloatProofs.IsSingle,
         FromBE, ToBE;
    var b := Floats.PreferredFloat(bits);
    FloatProofs.ShortestExactWidth(bits);
    w := |b| - 1;
    ToFromBE(b[1..]);
    assert b == [b[0]] + ToBE(FromBE(b[1..]), w);
    FromBEFits(b[1..]);
    if Floats.IsNaN(bits) {
      assert b[1..] == [0x7e, 0x00];
      NaNHalf();
    } else {
      PreferredIsAccepted(bits, b[0] % 32, FromBE(b[1..]));
    }
  }

  predicate AcceptedArgument(ai: nat, n: nat) {
    n < USIZE_LIMIT && ArgumentFits(ai, n) && !Floats.NonPreferred(ai, n)
  }

  lemma PreferredIsAccepted(bits: U64, ai: nat, n: U64)
    requires 25 <= ai <= 27 && n < Pow256(ArgWidth(ai))
    requires Floats.PreferredFloat(bits) == [0xe0 + ai] + ToBE(n, ArgWidth(ai))
    requires ai == 25 ==> n < 0x1_0000 && Floats.HalfToDouble(n) == bits
    requires ai == 26 ==> n < 0x1_0000_0000 && Floats.SingleToDouble(n) == bits
    requires ai == 27 ==> n == bits
    ensures AcceptedArgument(ai, n)
  {
    Pow256Values();
    if ai == 25 {
      FloatProofs.ValidatorAcceptsHalf(n);
    } else if ai == 26 {
      FloatProofs.ValidatorAcceptsSingle(n);
    } else {
      FloatProofs.ValidatorAcceptsDouble(n);
    }
  }

  lemma NaNHalf()
    ensures FromBE([0x7e, 0x00]) == 0x7e00 && AcceptedArgument(25, 0x7e00)
  {
    assert [0x7e, 0x00][..1] == [0x7e];
    FromOneByte([0x7e]);
  }

  lemma CanonicalSimple(o: DecodeOptions, v: Value, input: Buf, pos: nat, depth: nat)
    requires (v.Simple? || v.Bool? || v.Null? || v.Undefined?) && Canon(true, v).Ok?
    requires At(input, pos, Canon(true, v).value) && depth <= o.maxDepth
    ensures AcceptedAt(o, Canon(true, v).value, input, pos, depth)
  {
    hide AcceptedAt, At;
    var b := Canon(true, v).value;
    if v.Simple? && v.s >= 32 {
      LongSimpleAccepted(o, v.s, input, pos, depth);
    } else {
      ShortSimpleAccepted(o, b[0], input, pos, depth);
    }
  }

  lemma ShortSimpleAccepted(o: DecodeOptions, initial: Byte, input: Buf, pos: nat, depth: nat)
    requires 0xe0 <= initial < 0xf8 && At(input, pos, [initial]) && depth <= o.maxDepth
    ensures AcceptedAt(o, [initial], input, pos, depth)
  {
    hide Skip;
    assert input[pos] == initial by { assert input[pos..pos + 1][0] == initial; }
    assert ReadHead(true, input, pos) == Done(Head(7, Some(initial - 0xe0)), pos + 1);
    SkipItemStep(DETERMINISTIC, o, input, pos, depth, ReadHead(true, input, pos));
  }

  lemma LongSimpleAccepted(o: DecodeOptions, s: Byte, input: Buf, pos: nat, depth: nat)
    requires s >= 32 && At(input, pos, [0xf8, s]) && depth <= o.maxDepth
    ensures AcceptedAt(o, [0xf8, s], input, pos, depth)
  {
    hide Skip;
    assert input[pos] == 0xf8 && input[pos + 1] == s by {
      assert input[pos..pos + 2][0] == 0xf8 && input[pos..pos + 2][1] == s;
    }
    FromOneByte(input[pos + 1..pos + 2]);
    assert ReadHead(true, input, pos) == Done(Head(7, Some(s)), pos + 2);
    SkipItemStep(DETERMINISTIC, o, input, pos, depth, ReadHead(true, input, pos));
  }

  lemma ContainerItemSkipped(o: DecodeOptions, input: Buf, pos: nat, depth: nat, isMap: bool, n: U64, p: nat, s: Parse<nat>)
    requires pos <= |input| && depth <= o.maxDepth && n <= o.maxLen && Doubles(o)
    requires ReadHead(true, input, pos) == Done(Head(if isMap then 5 else 4, Some(n)), p)
    requires s == SkipMany(DETERMINISTIC, o, input, p, depth + 1, isMap, if isMap then 2 * n else n, None) && s.Done?
    ensures Skip(DETERMINISTIC, o, input, pos, depth) == Done(s.value + 1, s.end)
  {
    hide ReadHead, Skip, SkipMany;
    SkipItemStep(DETERMINISTIC, o, input, pos, depth, ReadHead(true, input, pos));
  }

  lemma {:induction false} CanonicalArray(o: DecodeOptions, v: Value, input: Buf, pos: nat, depth: nat)
    requires v.Array? && Doubles(o) && Fits(o, v, depth) && Canon(true, v).Ok? && At(input, pos, Canon(true, v).value)
    ensures AcceptedAt(o, Canon(true, v).value, input, pos, depth)
    decreases v, 0
  {
    hide HeadBytes, ReadHead, Skip, SkipMany, LengthHead, CanonAll, FitAll;
    assert CanonAll(true, v.items).Ok?;
    CanonicalArrayForm(v.items);
    hide Canon;
    var head, body := HeadBytes(4, |v.items|), CanonAll(true, v.items).value;
    AfterHead(input, pos, 4, |v.items|, body);
    ManyAccepted(o, v.items, input, pos + |head|, depth + 1);
    ContainerItemSkipped(o, input, pos, depth, false, |v.items|, pos + |head|,
                         SkipMany(DETERMINISTIC, o, input, pos + |head|, depth + 1, false, |v.items|, None));
  }

  lemma {:induction false} ManyAccepted(o: DecodeOptions, vs: seq<Value>, input: Buf, pos: nat, depth: nat)
    requires Doubles(o) && FitAll(o, vs, depth) && CanonAll(true, vs).Ok? && At(input, pos, CanonAll(true, vs).value)
    ensures var s := SkipMany(DETERMINISTIC, o, input, pos, depth, false, |vs|, None);
            s.Done? && s.end == pos + |CanonAll(true, vs).value|
    decreases vs, 2
  {
    hide Skip, Less, Canon, Fits;
    if vs != [] {
      var first, rest := Canon(true, vs[0]).value, CanonAll(true, vs[1..]).value;
      assert CanonAll(true, vs).value == first + rest;
      AtConcat(input, pos, first, rest);
      CanonicalIsAccepted(o, vs[0], depth);
      assert AcceptedAt(o, first, input, pos, depth);
      ManyAccepted(o, vs[1..], input, pos + |first|, depth);
      ItemSkipped(o, input, pos, depth, false, |vs|, None, Skip(DETERMINISTIC, o, input, pos, depth),
                  SkipMany(DETERMINISTIC, o, input, pos + |first|, depth, false, |vs[1..]|, None));
    }
  }

  lemma {:induction false} CanonicalMap(o: DecodeOptions, v: Value, input: Buf, pos: nat, depth: nat)
    requires v.Map? && Doubles(o) && Fits(o, v, depth) && Canon(true, v).Ok? && At(input, pos, Canon(true, v).value)
    ensures AcceptedAt(o, Canon(true, v).value, input, pos, depth)
    decreases v, 0
  {
    hide HeadBytes, ReadHead, Skip, SkipMany, Canon, CanonPairs, SortByKey, Join, FitEntries, AcceptsPairs, Ascending;
    var es := v.entries;
    CanonicalMapForm(es);
    var ps := CanonPairs(true, es).value;
    PairsAccepted(o, es, depth + 1);
    SortedPairs(o, ps, depth + 1);
    var head := HeadBytes(5, |es|);
    AfterHead(input, pos, 5, |es|, Join(SortByKey(ps)));
    SortedAccepted(o, SortByKey(ps), input, pos + |head|, depth + 1, None);
    ContainerItemSkipped(o, input, pos, depth, true, |es|, pos + |head|,
                         SkipMany(DETERMINISTIC, o, input, pos + |head|, depth + 1, true, 2 * |es|, None));
  }

  lemma CanonicalMapForm(es: seq<Entry>)
    requires Canon(true, Map(es)).Ok? && |es| < USIZE_LIMIT
    ensures CanonPairs(true, es).Ok? && !HasDuplicate(SortByKey(CanonPairs(true, es).value))
    ensures Canon(true, Map(es)) == Ok(HeadBytes(5, |es|) + Join(SortByKey(CanonPairs(true, es).value)))
  {
    hide HeadBytes, LengthHead, SortByKey, HasDuplicate, Join;
    SortSorts(CanonPairs(true, es).value);
    LengthHeadIsExact(5, |es|);
  }

  lemma SortedPairs(o: DecodeOptions, ps: seq<Pair>, depth: nat)
    requires AcceptsPairs(o, ps, depth) && !HasDuplicate(SortByKey(ps))
    ensures var sorted := SortByKey(ps);
            AcceptsPairs(o, sorted, depth) && Ascending(None, sorted) && |sorted| == |ps|
  {
    var sorted := SortByKey(ps);
    SortSorts(ps);
    DistinctIsAscending(None, sorted);
    forall p | p in sorted ensures Accepts(o, p.key, depth) && Accepts(o, p.value, depth) {
      assert p in multiset(sorted);
      assert p in multiset(ps);
    }
  }

  lemma {:induction false} PairsAccepted(o: DecodeOptions, es: seq<Entry>, depth: nat)
    requires Doubles(o) && FitEntries(o, es, depth) && CanonPairs(true, es).Ok?
    ensures AcceptsPairs(o, CanonPairs(true, es).value, depth)
    decreases es, 2
  {
    if es != [] {
      assert es decreases to es[0];
      CanonicalIsAccepted(o, es[0].key, depth);
      CanonicalIsAccepted(o, es[0].value, depth);
      PairsAccepted(o, es[1..], depth);
      var p, ps := CanonPair(true, es[0]).value, CanonPairs(true, es[1..]).value;
      assert CanonPairs(true, es).value == [p] + ps;
    }
  }

  lemma {:induction false} SortedAccepted(o: DecodeOptions, ps: seq<Pair>, input: Buf, pos: nat, depth: nat, previous: Option<Buf>)
    requires AcceptsPairs(o, ps, depth) && Ascending(previous, ps) && At(input, pos, Join(ps))
    ensures var s := SkipMany(DETERMINISTIC, o, input, pos, depth, true, 2 * |ps|, previous);
            s.Done? && s.end == pos + |Join(ps)|
    decreases ps
  {
    hide Skip, Less;
    if ps != [] {
      var key, value, rest := ps[0].key, ps[0].value, Join(ps[1..]);
      var p, q := pos + |key|, pos + |key| + |value|;
      assert Join(ps) == key + value + rest;
      AtConcat(input, pos, key + value, rest);
      AtConcat(input, pos, key, value);
      PairAccepted(o, ps, input, pos, depth);
      assert AcceptsPairs(o, ps[1..], depth);
      SortedAccepted(o, ps[1..], input, q, depth, Some(key));
      assert input[pos..p] == key;
      EntrySkipped(o, input, pos, depth, |ps|, previous,
                   Skip(DETERMINISTIC, o, input, pos, depth), Skip(DETERMINISTIC, o, input, p, depth),
                   SkipMany(DETERMINISTIC, o, input, q, depth, true, 2 * |ps[1..]|, Some(key)));
    }
  }

  lemma PairAccepted(o: DecodeOptions, ps: seq<Pair>, input: Buf, pos: nat, depth: nat)
    requires AcceptsPairs(o, ps, depth) && ps != [] && At(input, pos, ps[0].key) && At(input, pos + |ps[0].key|, ps[0].value)
    ensures AcceptedAt(o, ps[0].key, input, pos, depth)
    ensures AcceptedAt(o, ps[0].value, input, pos + |ps[0].key|, depth)
  {
    assert ps[0] in ps;
  }

  /** One turn of the skipping loop, over the key of a map. */
  lemma KeySkipped(o: DecodeOptions, input: Buf, pos: nat, depth: nat, count: nat, previous: Option<Buf>, k: Parse<nat>, rest: Parse<nat>)
    requires pos <= |input| && count > 0 && count % 2 == 0
    requires k == Skip(DETERMINISTIC, o, input, pos, depth) && k.Done?
    requires previous.Some? ==> Less(previous.value, input[pos..k.end])
    requires rest == SkipMany(DETERMINISTIC, o, input, k.end, depth, true, count - 1, Some(input[pos..k.end])) && rest.Done?
    ensures SkipMany(DETERMINISTIC, o, input, pos, depth, true, count, previous) == Done(k.value + rest.value, rest.end)
  {
    hide Skip, SkipMany, Less;
    SkipManyStep(DETERMINISTIC, o, input, pos, depth, true, count, previous);
  }

  /** One turn of the skipping loop, over an element or the value of a map. */
  lemma ItemSkipped(o: DecodeOptions, input: Buf, pos: nat, depth: nat, isMap: bool, count: nat, previous: Option<Buf>,
                    k: Parse<nat>, rest: Parse<nat>)
    requires pos <= |input| && count > 0 && !(isMap && count % 2 == 0)
    requires k == Skip(DETERMINISTIC, o, input, pos, depth) && k.Done?
    requires rest == SkipMany(DETERMINISTIC, o, input, k.end, depth, isMap, count - 1, previous) && rest.Done?
    ensures SkipMany(DETERMINISTIC, o, input, pos, depth, isMap, count, previous) == Done(k.value + rest.value, rest.end)
  {
    hide Skip, SkipMany, Less;
    SkipManyStep(DETERMINISTIC, o, input, pos, depth, isMap, count, previous);
  }

  lemma EntrySkipped(o: DecodeOptions, input: Buf, pos: nat, depth: nat, count: nat, previous: Option<Buf>,
                     k: Parse<nat>, v: Parse<nat>, rest: Parse<nat>)
    requires pos <= |input| && count > 0
    requires k == Skip(DETERMINISTIC, o, input, pos, depth) && k.Done?
    requires previous.Some? ==> Less(previous.value, input[pos..k.end])
    requires v == Skip(DETERMINISTIC, o, input, k.end, depth) && v.Done?
    requires rest == SkipMany(DETERMINISTIC, o, input, v.end, depth, true, 2 * (count - 1), Some(input[pos..k.end])) && rest.Done?
    ensures SkipMany(DETERMINISTIC, o, input, pos, depth, true, 2 * count, previous)
            == Done(k.value + (v.value + rest.value), rest.end)
  {
    hide Skip, SkipMany;
    ItemSkipped(o, input, k.end, depth, true, 2 * count - 1, Some(input[pos..k.end]), v, rest);
    KeySkipped(o, input, pos, depth, 2 * count, previous, k, Done(v.value + rest.value, rest.end));
  }

  // ----- the characterisation

  /** `validate_deterministic`. */
  function ValidateDeterministic(x: Buf): Result<()> {
    Agreement.Validate(DETERMINISTIC, DETERMINISTIC_OPTIONS, x)
  }

  /**
    * The validator accepts exactly the inputs that decode to a value whose canonical encoding is the input itself.
    */
  lemma ValidatorAcceptsFixedPoints(x: Buf)
    ensures ValidateDeterministic(x).Ok? <==> DecodeValue(x).Ok? && Canon(true, DecodeValue(x).value) == Ok(x)
    ensures ValidateDeterministic(x).Ok? ==> InOrder(DecodeValue(x).value)
  {
    var o, q := DETERMINISTIC_OPTIONS, DEFAULT_OPTIONS;
    AcceptedIsCanonical(o, q, x, 0, 0);
    assert x[0..|x|] == x;
    if DecodeValue(x).Ok? && Canon(true, DecodeValue(x).value) == Ok(x) {
      var v := DecodeValue(x).value;
      Grammar.Sound(q, x, 0, 0);
      FitsEither(q, o, v, 0);
      CanonicalIsAccepted(o, v, 0);
      assert At(x, 0, x);
      assert AcceptedAt(o, x, x, 0, 0);
    }
  }

  lemma {:induction false} FitsEither(q: DecodeOptions, o: DecodeOptions, v: Value, depth: nat)
    requires o.maxDepth == q.maxDepth && o.maxLen == q.maxLen && Fits(q, v, depth)
    ensures Fits(o, v, depth)
    decreases v, 0
  {
    match v {
      case Array(vs) => FitAllEither(q, o, vs, depth + 1);
      case Map(es) => FitEntriesEither(q, o, es, depth + 1);
      case Tag(_, w) => FitsEither(q, o, w, depth + 1);
      case _ =>
    }
  }

  lemma {:induction false} FitAllEither(q: DecodeOptions, o: DecodeOptions, vs: seq<Value>, depth: nat)
    requires o.maxDepth == q.maxDepth && o.maxLen == q.maxLen && FitAll(q, vs, depth)
    ensures FitAll(o, vs, depth)
    decreases vs, 1
  {
    if vs != [] {
      FitsEither(q, o, vs[0], depth);
      FitAllEither(q, o, vs[1..], depth);
    }
  }

  lemma {:induction false} FitEntriesEither(q: DecodeOptions, o: DecodeOptions, es: seq<Entry>, depth: nat)
    requires o.maxDepth == q.maxDepth && o.maxLen == q.maxLen && FitEntries(q, es, depth)
    ensures FitEntries(o, es, depth)
    decreases es, 1
  {
    if es != [] {
      assert es decreases to es[0];
      FitsEither(q, o, es[0].key, depth);
      FitsEither(q, o, es[0].value, depth);
      FitEntriesEither(q, o, es[1..], depth);
    }
  }
}
