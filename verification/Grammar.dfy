/** Well-formed encodings as a grammar over byte ranges, after section 3 and Appendix C of RFC 8949. */
module Grammar {
  import opened Core
  import opened Heads
  import opened Values
  import opened Decoding
  import Utf8
  import Floats

  /**
    * `input[pos..end]` is some well-formed encoding of `v`: any head width, definite or indefinite. When `det`, heads
    * other than those of floats are shortest and nothing is indefinite.
    */
  ghost predicate Encodes(det: bool, input: Buf, pos: nat, end: nat, v: Value)
    requires end <= |input|
    decreases v
  {
    pos < end &&
    match v
    case Unsigned(n) => HeadOf(det, input, pos, 0, n) && end == HeadEnd(input, pos)
    case Negative(i) => HeadOf(det, input, pos, 1, -1 - i) && end == HeadEnd(input, pos)
    case Bytes(s) => EncodesString(det, input, pos, end, 2, s)
    case Text(s) => EncodesString(det, input, pos, end, 3, s)
    case Array(vs) =>
      (HeadOf(det, input, pos, 4, |vs|) && EncodesMany(det, input, HeadEnd(input, pos), end, vs))
      || (!det && input[pos] == 0x9f && input[end - 1] == 0xff && EncodesMany(det, input, pos + 1, end - 1, vs))
    case Map(es) =>
      (HeadOf(det, input, pos, 5, |es|) && EncodesEntries(det, input, HeadEnd(input, pos), end, es))
      || (!det && input[pos] == 0xbf && input[end - 1] == 0xff && EncodesEntries(det, input, pos + 1, end - 1, es))
    case Tag(n, w) => HeadOf(det, input, pos, 6, n) && Encodes(det, input, HeadEnd(input, pos), end, w)
    case Simple(s) =>
      (s < 20 && input[pos] == 0xe0 + s && end == pos + 1)
      || (s >= 32 && input[pos] == 0xf8 && end == pos + 2 && input[pos + 1] == s)
    case Bool(b) => input[pos] == (if b then 0xf5 else 0xf4) && end == pos + 1
    case Null => input[pos] == 0xf6 && end == pos + 1
    case Undefined => input[pos] == 0xf7 && end == pos + 1
    case Float(bits) => EncodesFloat(input, pos, end, bits)
  }

  /** A head with this major type and argument, of any width or, when `det`, of the shortest. */
  predicate HeadOf(det: bool, input: Buf, pos: nat, major: nat, n: int) {
    HeadAt(input, pos, major) && Argument(input, pos) == n && (det ==> ArgWidth(input[pos] % 32) == PreferredWidth(Argument(input, pos)))
  }

  predicate EncodesFloat(input: Buf, pos: nat, end: nat, bits: U64)
    requires pos < end <= |input|
  {
    HeadAt(input, pos, 7) && end == HeadEnd(input, pos) &&
    match input[pos] % 32
    case 25 => Floats.HalfToDouble(Argument(input, pos)) == bits
    case 26 => Floats.SingleToDouble(Argument(input, pos)) == bits
    case 27 => Argument(input, pos) == bits
    case _ => false
  }

  /** One definite string, or chunks between the indefinite head and a break. */
  ghost predicate EncodesString(det: bool, input: Buf, pos: nat, end: nat, major: nat, s: Buf)
    requires pos < end <= |input|
  {
    (HeadOf(det, input, pos, major, |s|) && end == HeadEnd(input, pos) + |s| && At(input, HeadEnd(input, pos), s))
    || (!det && input[pos] == 32 * major + 31 && EncodesChunks(input, pos + 1, end, major, s))
  }

  ghost predicate EncodesChunks(input: Buf, pos: nat, end: nat, major: nat, s: Buf)
    requires end <= |input|
    decreases end - pos
  {
    pos < end &&
    ((input[pos] == 0xff && end == pos + 1 && s == [])
     || (HeadAt(input, pos, major) &&
         var p, n := HeadEnd(input, pos), Argument(input, pos);
         n <= |s| && At(input, p, s[..n]) && (major == 3 ==> Utf8.Valid(s[..n]))
         && p + n <= end && EncodesChunks(input, p + n, end, major, s[n..])))
  }

  ghost predicate EncodesMany(det: bool, input: Buf, pos: nat, end: nat, vs: seq<Value>)
    requires end <= |input|
    decreases vs
  {
    if vs == [] then pos == end
    else exists mid :: pos <= mid <= end && Encodes(det, input, pos, mid, vs[0]) && EncodesMany(det, input, mid, end, vs[1..])
  }

  ghost predicate EncodesEntries(det: bool, input: Buf, pos: nat, end: nat, es: seq<Entry>)
    requires end <= |input|
    decreases es
  {
    if es == [] then pos == end
    else
      exists mid :: pos <= mid <= end && EncodesEntry(det, input, pos, mid, es[0]) && EncodesEntries(det, input, mid, end, es[1..])
  }

  ghost predicate EncodesEntry(det: bool, input: Buf, pos: nat, end: nat, e: Entry)
    requires end <= |input|
    decreases e
  {
    exists mid :: pos <= mid <= end && Encodes(det, input, pos, mid, e.key) && Encodes(det, input, mid, end, e.value)
  }

  lemma PrependItem(det: bool, input: Buf, pos: nat, mid: nat, end: nat, vs: seq<Value>)
    requires vs != [] && mid <= end <= |input| && Encodes(det, input, pos, mid, vs[0]) && EncodesMany(det, input, mid, end, vs[1..])
    ensures EncodesMany(det, input, pos, end, vs)
  {
  }

  lemma PrependEntry(det: bool, input: Buf, pos: nat, mid: nat, end: nat, es: seq<Entry>)
    requires es != [] && mid <= end <= |input| && pos <= mid
    requires EncodesEntry(det, input, pos, mid, es[0]) && EncodesEntries(det, input, mid, end, es[1..])
    ensures EncodesEntries(det, input, pos, end, es)
  {
  }

  // ----- one item, from its parts

  lemma IntegerEncoding(det: bool, input: Buf, pos: nat, major: nat, n: U64)
    requires major <= 1 && HeadOf(det, input, pos, major, n)
    ensures Encodes(det, input, pos, HeadEnd(input, pos), if major == 0 then Unsigned(n) else Negative(-1 - n))
  {
  }

  lemma TaggedEncoding(det: bool, input: Buf, pos: nat, end: nat, v: Value)
    requires v.Tag? && end <= |input| && HeadOf(det, input, pos, 6, v.tag) && Encodes(det, input, HeadEnd(input, pos), end, v.inner)
    ensures Encodes(det, input, pos, end, v)
  {
  }

  lemma DefiniteArray(det: bool, input: Buf, pos: nat, end: nat, vs: seq<Value>)
    requires HeadOf(det, input, pos, 4, |vs|) && HeadEnd(input, pos) <= end <= |input|
    requires EncodesMany(det, input, HeadEnd(input, pos), end, vs)
    ensures Encodes(det, input, pos, end, Array(vs))
  {
  }

  lemma IndefiniteArray(input: Buf, pos: nat, end: nat, vs: seq<Value>)
    requires pos + 1 < end <= |input| && input[pos] == 0x9f && input[end - 1] == 0xff && EncodesMany(false, input, pos + 1, end - 1, vs)
    ensures Encodes(false, input, pos, end, Array(vs))
  {
  }

  lemma DefiniteMap(det: bool, input: Buf, pos: nat, end: nat, es: seq<Entry>)
    requires HeadOf(det, input, pos, 5, |es|) && HeadEnd(input, pos) <= end <= |input|
    requires EncodesEntries(det, input, HeadEnd(input, pos), end, es)
    ensures Encodes(det, input, pos, end, Map(es))
  {
  }

  lemma IndefiniteMap(input: Buf, pos: nat, end: nat, es: seq<Entry>)
    requires pos + 1 < end <= |input| && input[pos] == 0xbf && input[end - 1] == 0xff && EncodesEntries(false, input, pos + 1, end - 1, es)
    ensures Encodes(false, input, pos, end, Map(es))
  {
  }

  /** A head that is read is a head of the grammar. */
  lemma HeadRead(det: bool, input: Buf, pos: nat)
    requires pos <= |input| && ReadHead(det, input, pos).Done?
    ensures var h := ReadHead(det, input, pos);
            match h.value.arg
            case Some(n) => HeadOf(det && h.value.major != 7, input, pos, h.value.major, n) && h.end == HeadEnd(input, pos)
            case None => input[pos] == 32 * h.value.major + 31 && h.end == pos + 1
  {
  }

  /** No item starts with the break byte. */
  lemma NotABreak(det: bool, input: Buf, pos: nat, end: nat, v: Value)
    requires end <= |input| && Encodes(det, input, pos, end, v)
    ensures input[pos] != 0xff
  {
  }

  /** What is well-formed with shortest heads is well-formed. */
  lemma {:induction false} ShortestIsEncoding(det: bool, input: Buf, pos: nat, end: nat, v: Value)
    requires end <= |input| && Encodes(true, input, pos, end, v)
    ensures Encodes(det, input, pos, end, v)
    decreases v, 0
  {
    hide HeadAt, HeadEnd, Argument, EncodesChunks, EncodesFloat;
    match v {
      case Array(vs) => ShortestAreEncodings(det, input, HeadEnd(input, pos), end, vs);
      case Map(es) => ShortestEntries(det, input, HeadEnd(input, pos), end, es);
      case Tag(_, w) => ShortestIsEncoding(det, input, HeadEnd(input, pos), end, w);
      case _ =>
    }
  }

  lemma {:induction false} ShortestAreEncodings(det: bool, input: Buf, pos: nat, end: nat, vs: seq<Value>)
    requires end <= |input| && EncodesMany(true, input, pos, end, vs)
    ensures EncodesMany(det, input, pos, end, vs)
    decreases vs, 1
  {
    hide Encodes;
    if vs != [] {
      var mid: nat :| pos <= mid <= end && Encodes(true, input, pos, mid, vs[0]) && EncodesMany(true, input, mid, end, vs[1..]);
      ShortestIsEncoding(det, input, pos, mid, vs[0]);
      ShortestAreEncodings(det, input, mid, end, vs[1..]);
    }
  }

  lemma {:induction false} ShortestEntries(det: bool, input: Buf, pos: nat, end: nat, es: seq<Entry>)
    requires end <= |input| && EncodesEntries(true, input, pos, end, es)
    ensures EncodesEntries(det, input, pos, end, es)
    decreases es, 1
  {
    hide EncodesEntry;
    if es != [] {
      var mid: nat :| pos <= mid <= end && EncodesEntry(true, input, pos, mid, es[0]) && EncodesEntries(true, input, mid, end, es[1..]);
      ShortestEntry(det, input, pos, mid, es[0]);
      ShortestEntries(det, input, mid, end, es[1..]);
    }
  }

  lemma {:induction false} ShortestEntry(det: bool, input: Buf, pos: nat, end: nat, e: Entry)
    requires end <= |input| && EncodesEntry(true, input, pos, end, e)
    ensures EncodesEntry(det, input, pos, end, e)
    decreases e, 1
  {
    hide Encodes;
    var mid: nat :| pos <= mid <= end && Encodes(true, input, pos, mid, e.key) && Encodes(true, input, mid, end, e.value);
    ShortestIsEncoding(det, input, pos, mid, e.key);
    ShortestIsEncoding(det, input, mid, end, e.value);
  }

  // ----- soundness: what the decoder accepts is an encoding of what it returns

  lemma {:induction false} Sound(o: DecodeOptions, input: Buf, pos: nat, depth: nat)
    requires pos <= |input|
    ensures var r := Decode(o, input, pos, depth);
            r.Done? ==> Encodes(o.Det(), input, pos, r.end, r.value) && Fits(o, r.value, depth) && Encodable(r.value)
    decreases |input| - pos, 1
  {
    hide Decode, ReadHead, DecodeString, DecodeArray, DecodeMap, DecodeSimple, Encodes, HeadOf, HeadEnd;
    var h := ReadHead(o.Det(), input, pos);
    DecodeRefused(o, input, pos, depth, h);
    if Decode(o, input, pos, depth).Done? {
      DecodeItemStep(o, input, pos, depth, h);
      HeadRead(o.Det(), input, pos);
      if h.value.major <= 1 {
        IntegerEncoding(o.Det(), input, pos, h.value.major, h.value.arg.value);
      } else if h.value.major <= 3 {
        SoundString(o, input, pos);
      } else if h.value.major == 4 {
        SoundArray(o, input, pos, depth);
      } else if h.value.major == 5 {
        SoundMap(o, input, pos, depth);
      } else if h.value.major == 6 {
        Sound(o, input, h.end, depth + 1);
        TaggedEncoding(o.Det(), input, pos, Decode(o, input, pos, depth).end, Decode(o, input, pos, depth).value);
      } else {
        SoundSimple(o, input, pos, depth);
      }
    }
  }

  lemma SoundSimple(o: DecodeOptions, input: Buf, pos: nat, depth: nat)
    requires depth <= o.maxDepth
    requires pos <= |input| && ReadHead(o.Det(), input, pos).Done? && input[pos] / 32 == 7
    ensures var h := ReadHead(o.Det(), input, pos);
            var r := DecodeSimple(input[pos] % 32, h.value.arg, h.end, pos);
            r.Done? ==> Encodes(o.Det(), input, pos, r.end, r.value) && Encodable(r.value) && Fits(o, r.value, depth)
  {
    if input[pos] % 32 == 24 {
      FromOneByte(input[pos + 1..pos + 2]);
    }
  }

  lemma SoundString(o: DecodeOptions, input: Buf, pos: nat)
    requires pos <= |input| && ReadHead(o.Det(), input, pos).Done? && 2 <= input[pos] / 32 <= 3
    ensures var h := ReadHead(o.Det(), input, pos);
            var r := DecodeString(o, input, h.end, h.value, pos);
            r.Done? ==> Encodes(o.Det(), input, pos, r.end, r.value)
                        && (if h.value.major == 2 then r.value.Bytes? && |r.value.bytes| <= o.maxLen
                            else r.value.Text? && |r.value.text| <= o.maxLen)
  {
    hide ReadHead, Utf8.Valid, DecodeChunks, EncodesString;
    var h := ReadHead(o.Det(), input, pos);
    if h.value.arg.None? {
      HeadRead(o.Det(), input, pos);
      if !o.Det() { SoundIndefiniteString(o, input, pos); }
    } else {
      SoundDefiniteString(o, input, pos);
    }
  }

  lemma SoundDefiniteString(o: DecodeOptions, input: Buf, pos: nat)
    requires pos <= |input| && ReadHead(o.Det(), input, pos).Done? && 2 <= input[pos] / 32 <= 3
    requires ReadHead(o.Det(), input, pos).value.arg.Some?
    ensures var h := ReadHead(o.Det(), input, pos);
            var p, n := h.end, h.value.arg.value;
            p + n <= |input| ==> EncodesString(o.Det(), input, pos, p + n, h.value.major, input[p..p + n])
  {
    hide Utf8.Valid;
  }

  lemma SoundIndefiniteString(o: DecodeOptions, input: Buf, pos: nat)
    requires !o.Det() && pos <= |input| && ReadHead(o.Det(), input, pos).Done? && 2 <= input[pos] / 32 <= 3
    requires ReadHead(o.Det(), input, pos).value.arg.None?
    ensures var major := input[pos] / 32;
            var r := DecodeChunks(o, input, pos + 1, major, 0);
            r.Done? ==> EncodesString(o.Det(), input, pos, r.end, major, r.value) && |r.value| <= o.maxLen
  {
    SoundChunks(o, input, pos + 1, input[pos] / 32, 0);
  }

  lemma {:induction false} SoundArray(o: DecodeOptions, input: Buf, pos: nat, depth: nat)
    requires pos <= |input| && ReadHead(o.Det(), input, pos).Done? && input[pos] / 32 == 4
    ensures var h := ReadHead(o.Det(), input, pos);
            var r := DecodeArray(o, input, h.end, depth, h.value.arg, pos);
            r.Done? ==> Encodes(o.Det(), input, pos, r.end, Array(r.value)) && |r.value| <= o.maxLen
                        && FitAll(o, r.value, depth + 1) && EncodableAll(r.value)
    decreases |input| - pos, 0
  {
    hide ReadHead, DecodeMany, DecodeToBreak, Encodes, EncodesMany, FitAll, EncodableAll, HeadOf, HeadEnd;
    HeadRead(o.Det(), input, pos);
    var h := ReadHead(o.Det(), input, pos);
    match h.value.arg
    case Some(n) =>
      SoundMany(o, input, h.end, depth + 1, n);
      var r := DecodeMany(o, input, h.end, depth + 1, n);
      if r.Done? { DefiniteArray(o.Det(), input, pos, r.end, r.value); }
    case None =>
      SoundToBreak(o, input, h.end, depth + 1, 0, pos);
      var r := DecodeToBreak(o, input, h.end, depth + 1, 0, pos);
      if r.Done? && !o.Det() { IndefiniteArray(input, pos, r.end, r.value); }
  }

  lemma {:induction false} SoundMap(o: DecodeOptions, input: Buf, pos: nat, depth: nat)
    requires pos <= |input| && ReadHead(o.Det(), input, pos).Done? && input[pos] / 32 == 5
    ensures var h := ReadHead(o.Det(), input, pos);
            var r := DecodeMap(o, input, h.end, depth, h.value.arg, pos);
            r.Done? ==> Encodes(o.Det(), input, pos, r.end, Map(r.value)) && |r.value| <= o.maxLen
                        && FitEntries(o, r.value, depth + 1) && EncodableEntries(r.value)
    decreases |input| - pos, 0
  {
    hide ReadHead, DecodeEntries, DecodeEntriesToBreak, Encodes, EncodesEntries, FitEntries, EncodableEntries, HeadOf, HeadEnd;
    HeadRead(o.Det(), input, pos);
    var h := ReadHead(o.Det(), input, pos);
    match h.value.arg
    case Some(n) =>
      SoundEntries(o, input, h.end, depth + 1, n);
      var r := DecodeEntries(o, input, h.end, depth + 1, n);
      if r.Done? { DefiniteMap(o.Det(), input, pos, r.end, r.value); }
    case None =>
      SoundEntriesToBreak(o, input, h.end, depth + 1, 0, pos);
      var r := DecodeEntriesToBreak(o, input, h.end, depth + 1, 0, pos);
      if r.Done? && !o.Det() { IndefiniteMap(input, pos, r.end, r.value); }
  }

  lemma {:induction false} SoundChunks(o: DecodeOptions, input: Buf, pos: nat, major: nat, length: nat)
    requires pos <= |input| && major < 7
    ensures var r := DecodeChunks(o, input, pos, major, length);
            r.Done? ==> EncodesChunks(input, pos, r.end, major, r.value)
                        && (length <= o.maxLen ==> length + |r.value| <= o.maxLen)
    decreases |input| - pos
  {
    hide DecodeChunks, EncodesChunks, ReadHead, HeadAt, HeadEnd, Argument, Utf8.Valid;
    DecodeChunksStep(o, input, pos, major, length);
    var r := DecodeChunks(o, input, pos, major, length);
    if r.Done? && input[pos] == 0xff {
      NoChunks(input, pos, major);
    } else if r.Done? {
      HeadRead(o.Det(), input, pos);
      var h := ReadHead(o.Det(), input, pos);
      var p, n := h.end, h.value.arg.value;
      SoundChunks(o, input, p + n, major, length + n);
      var chunk, rest := input[p..p + n], DecodeChunks(o, input, p + n, major, length + n).value;
      PrependChunk(input, pos, r.end, major, chunk, rest);
    }
  }

  lemma NoChunks(input: Buf, pos: nat, major: nat)
    requires pos < |input| && input[pos] == 0xff
    ensures EncodesChunks(input, pos, pos + 1, major, [])
  {
  }

  lemma PrependChunk(input: Buf, pos: nat, end: nat, major: nat, chunk: Buf, rest: Buf)
    requires end <= |input| && HeadOf(false, input, pos, major, |chunk|) && At(input, HeadEnd(input, pos), chunk)
    requires EncodesChunks(input, HeadEnd(input, pos) + |chunk|, end, major, rest) && (major == 3 ==> Utf8.Valid(chunk))
    ensures EncodesChunks(input, pos, end, major, chunk + rest)
  {
    assert (chunk + rest)[..|chunk|] == chunk && (chunk + rest)[|chunk|..] == rest;
  }

  lemma {:induction false} SoundMany(o: DecodeOptions, input: Buf, pos: nat, depth: nat, count: nat)
    requires pos <= |input|
    ensures var r := DecodeMany(o, input, pos, depth, count);
            r.Done? ==> EncodesMany(o.Det(), input, pos, r.end, r.value) && FitAll(o, r.value, depth) && EncodableAll(r.value)
    decreases |input| - pos, 2
  {
    hide Decode, DecodeMany, Encodes, Fits, Encodable;
    DecodeManyStep(o, input, pos, depth, count);
    var r := DecodeMany(o, input, pos, depth, count);
    if r.Done? && count > 0 {
      Sound(o, input, pos, depth);
      SoundMany(o, input, Decode(o, input, pos, depth).end, depth, count - 1);
      assert r.value[1..] == DecodeMany(o, input, Decode(o, input, pos, depth).end, depth, count - 1).value;
    }
  }

  lemma {:induction false} SoundToBreak(o: DecodeOptions, input: Buf, pos: nat, depth: nat, count: nat, at: nat)
    requires pos <= |input| && count <= o.maxLen
    ensures var r := DecodeToBreak(o, input, pos, depth, count, at);
            r.Done? ==> input[r.end - 1] == 0xff && EncodesMany(o.Det(), input, pos, r.end - 1, r.value)
                        && FitAll(o, r.value, depth) && EncodableAll(r.value) && |r.value| + count <= o.maxLen
    decreases |input| - pos, 2
  {
    hide Decode, DecodeToBreak, Encodes, Fits, Encodable;
    DecodeToBreakStep(o, input, pos, depth, count, at);
    var r := DecodeToBreak(o, input, pos, depth, count, at);
    if r.Done? && input[pos] != 0xff {
      Sound(o, input, pos, depth);
      SoundToBreak(o, input, Decode(o, input, pos, depth).end, depth, count + 1, at);
      assert r.value[1..] == DecodeToBreak(o, input, Decode(o, input, pos, depth).end, depth, count + 1, at).value;
    }
  }

  lemma {:induction false} SoundEntries(o: DecodeOptions, input: Buf, pos: nat, depth: nat, count: nat)
    requires pos <= |input|
    ensures var r := DecodeEntries(o, input, pos, depth, count);
            r.Done? ==> EncodesEntries(o.Det(), input, pos, r.end, r.value) && FitEntries(o, r.value, depth) && EncodableEntries(r.value)
    decreases |input| - pos, 2
  {
    hide Decode, DecodeEntries, Encodes, Fits, Encodable;
    DecodeEntriesStep(o, input, pos, depth, count);
    var r := DecodeEntries(o, input, pos, depth, count);
    if r.Done? && count > 0 {
      var k := Decode(o, input, pos, depth);
      var v := Decode(o, input, k.end, depth);
      Sound(o, input, pos, depth);
      Sound(o, input, k.end, depth);
      assert EncodesEntry(o.Det(), input, pos, v.end, r.value[0]);
      SoundEntries(o, input, v.end, depth, count - 1);
      assert r.value[1..] == DecodeEntries(o, input, v.end, depth, count - 1).value;
    }
  }

  lemma {:induction false} SoundEntriesToBreak(o: DecodeOptions, input: Buf, pos: nat, depth: nat, count: nat, at: nat)
    requires pos <= |input| && count <= o.maxLen
    ensures var r := DecodeEntriesToBreak(o, input, pos, depth, count, at);
            r.Done? ==> input[r.end - 1] == 0xff && EncodesEntries(o.Det(), input, pos, r.end - 1, r.value)
                        && FitEntries(o, r.value, depth) && EncodableEntries(r.value) && |r.value| + count <= o.maxLen
    decreases |input| - pos, 2
  {
    hide Decode, DecodeEntriesToBreak, Encodes, Fits, Encodable;
    DecodeEntriesToBreakStep(o, input, pos, depth, count, at);
    var r := DecodeEntriesToBreak(o, input, pos, depth, count, at);
    if r.Done? && input[pos] != 0xff {
      var k := Decode(o, input, pos, depth);
      var v := Decode(o, input, k.end, depth);
      Sound(o, input, pos, depth);
      Sound(o, input, k.end, depth);
      assert EncodesEntry(o.Det(), input, pos, v.end, r.value[0]);
      SoundEntriesToBreak(o, input, v.end, depth, count + 1, at);
      assert r.value[1..] == DecodeEntriesToBreak(o, input, v.end, depth, count + 1, at).value;
    }
  }

  // ----- completeness: every encoding within the limits is accepted

  lemma {:induction false} Complete(o: DecodeOptions, input: Buf, pos: nat, end: nat, v: Value, depth: nat)
    requires end <= |input| && Encodes(o.Det(), input, pos, end, v) && Fits(o, v, depth)
    ensures Decode(o, input, pos, depth) == Done(v, end)
    decreases v, 1
  {
    hide Decode, Encodes;
    match v {
      case Unsigned(_) => CompleteInteger(o, input, pos, end, v, depth);
      case Negative(_) => CompleteInteger(o, input, pos, end, v, depth);
      case Bytes(_) => CompleteStringValue(o, input, pos, end, v, depth);
      case Text(_) => CompleteStringValue(o, input, pos, end, v, depth);
      case Array(vs) => CompleteArray(o, input, pos, end, vs, depth);
      case Map(es) => CompleteMap(o, input, pos, end, es, depth);
      case Tag(_, _) => CompleteTag(o, input, pos, end, v, depth);
      case Float(_) => CompleteFloat(o, input, pos, end, v, depth);
      case _ => CompleteSimple(o, input, pos, end, v, depth);
    }
  }

  lemma CompleteInteger(o: DecodeOptions, input: Buf, pos: nat, end: nat, v: Value, depth: nat)
    requires end <= |input| && Encodes(o.Det(), input, pos, end, v) && depth <= o.maxDepth && (v.Unsigned? || v.Negative?)
    ensures Decode(o, input, pos, depth) == Done(v, end)
  {
    hide Decode, ReadHead;
    HeadIsRead(o.Det(), input, pos, if v.Unsigned? then 0 else 1);
    DecodeItemStep(o, input, pos, depth, ReadHead(o.Det(), input, pos));
  }

  lemma {:induction false} CompleteTag(o: DecodeOptions, input: Buf, pos: nat, end: nat, v: Value, depth: nat)
    requires v.Tag? && end <= |input| && Encodes(o.Det(), input, pos, end, v) && Fits(o, v, depth)
    ensures Decode(o, input, pos, depth) == Done(v, end)
    decreases v, 0
  {
    hide Decode, ReadHead, HeadEnd;
    HeadIsRead(o.Det(), input, pos, 6);
    DecodeItemStep(o, input, pos, depth, ReadHead(o.Det(), input, pos));
    Complete(o, input, HeadEnd(input, pos), end, v.inner, depth + 1);
  }

  lemma CompleteFloat(o: DecodeOptions, input: Buf, pos: nat, end: nat, v: Value, depth: nat)
    requires end <= |input| && Encodes(o.Det(), input, pos, end, v) && depth <= o.maxDepth && v.Float?
    ensures Decode(o, input, pos, depth) == Done(v, end)
  {
    hide Decode, ReadHead, Floats.HalfToDouble, Floats.SingleToDouble;
    HeadIsRead(o.Det(), input, pos, 7);
    DecodeItemStep(o, input, pos, depth, ReadHead(o.Det(), input, pos));
  }

  lemma CompleteSimple(o: DecodeOptions, input: Buf, pos: nat, end: nat, v: Value, depth: nat)
    requires end <= |input| && Encodes(o.Det(), input, pos, end, v) && depth <= o.maxDepth
    requires v.Simple? || v.Bool? || v.Null? || v.Undefined?
    ensures Decode(o, input, pos, depth) == Done(v, end)
  {
    hide Decode, ReadHead;
    if v.Simple? && v.s >= 32 { FromOneByte(input[pos + 1..pos + 2]); }
    HeadIsRead(o.Det(), input, pos, 7);
    DecodeItemStep(o, input, pos, depth, ReadHead(o.Det(), input, pos));
  }

  lemma {:induction false} CompleteArray(o: DecodeOptions, input: Buf, pos: nat, end: nat, vs: seq<Value>, depth: nat)
    requires end <= |input| && Encodes(o.Det(), input, pos, end, Array(vs))
    requires depth <= o.maxDepth && |vs| <= o.maxLen && FitAll(o, vs, depth + 1)
    ensures Decode(o, input, pos, depth) == Done(Array(vs), end)
    decreases vs, 2
  {
    hide ReadHead, FitAll, Decode, DecodeMany, DecodeToBreak;
    if HeadOf(o.Det(), input, pos, 4, |vs|) && EncodesMany(o.Det(), input, HeadEnd(input, pos), end, vs) {
      HeadIsRead(o.Det(), input, pos, 4);
      DecodeItemStep(o, input, pos, depth, ReadHead(o.Det(), input, pos));
      CompleteMany(o, input, HeadEnd(input, pos), end, vs, depth + 1);
    } else {
      IndefiniteHead(o.Det(), input, pos, 4);
      DecodeItemStep(o, input, pos, depth, ReadHead(o.Det(), input, pos));
      CompleteToBreak(o, input, pos + 1, end - 1, vs, depth + 1, 0, pos);
    }
  }

  lemma {:induction false} CompleteMap(o: DecodeOptions, input: Buf, pos: nat, end: nat, es: seq<Entry>, depth: nat)
    requires end <= |input| && Encodes(o.Det(), input, pos, end, Map(es))
    requires depth <= o.maxDepth && |es| <= o.maxLen && FitEntries(o, es, depth + 1)
    ensures Decode(o, input, pos, depth) == Done(Map(es), end)
    decreases es, 2
  {
    hide ReadHead, FitEntries, Decode, DecodeEntries, DecodeEntriesToBreak;
    if HeadOf(o.Det(), input, pos, 5, |es|) && EncodesEntries(o.Det(), input, HeadEnd(input, pos), end, es) {
      HeadIsRead(o.Det(), input, pos, 5);
      DecodeItemStep(o, input, pos, depth, ReadHead(o.Det(), input, pos));
      CompleteEntries(o, input, HeadEnd(input, pos), end, es, depth + 1);
    } else {
      IndefiniteHead(o.Det(), input, pos, 5);
      DecodeItemStep(o, input, pos, depth, ReadHead(o.Det(), input, pos));
      CompleteEntriesToBreak(o, input, pos + 1, end - 1, es, depth + 1, 0, pos);
    }
  }

  lemma CompleteStringValue(o: DecodeOptions, input: Buf, pos: nat, end: nat, v: Value, depth: nat)
    requires end <= |input| && Encodes(o.Det(), input, pos, end, v) && Fits(o, v, depth) && (v.Bytes? || v.Text?)
    ensures Decode(o, input, pos, depth) == Done(v, end)
  {
    hide Decode, EncodesString, Utf8.Valid;
    if v.Bytes? { CompleteString(o, input, pos, end, 2, v.bytes, depth); } else { CompleteString(o, input, pos, end, 3, v.text, depth); }
  }

  lemma CompleteString(o: DecodeOptions, input: Buf, pos: nat, end: nat, major: nat, s: Buf, depth: nat)
    requires pos < end <= |input| && EncodesString(o.Det(), input, pos, end, major, s) && depth <= o.maxDepth
    requires 2 <= major <= 3 && |s| <= o.maxLen && (major == 3 ==> Utf8.Valid(s))
    ensures Decode(o, input, pos, depth) == Done(if major == 3 then Text(s) else Bytes(s), end)
  {
    hide Decode, DecodeString, ReadHead, EncodesChunks, Utf8.Valid;
    if input[pos] == 32 * major + 31 {
      IndefiniteString(o, input, pos, end, major, s);
    } else {
      DefiniteString(o, input, pos, major, s);
    }
    DecodeItemStep(o, input, pos, depth, ReadHead(o.Det(), input, pos));
  }

  lemma IndefiniteString(o: DecodeOptions, input: Buf, pos: nat, end: nat, major: nat, s: Buf)
    requires !o.Det() && pos < end <= |input| && input[pos] == 32 * major + 31 && EncodesChunks(input, pos + 1, end, major, s)
    requires 2 <= major <= 3 && |s| <= o.maxLen && (major == 3 ==> Utf8.Valid(s))
    ensures var h := ReadHead(o.Det(), input, pos);
            h == Done(Head(major, None), pos + 1)
    ensures DecodeString(o, input, pos + 1, Head(major, None), pos) == Done(if major == 3 then Text(s) else Bytes(s), end)
  {
    hide ReadHead, DecodeChunks, EncodesChunks, Utf8.Valid;
    IndefiniteHead(o.Det(), input, pos, major);
    CompleteChunks(o, input, pos + 1, end, major, s, 0);
  }

  lemma DefiniteString(o: DecodeOptions, input: Buf, pos: nat, major: nat, s: Buf)
    requires HeadOf(o.Det(), input, pos, major, |s|) && At(input, HeadEnd(input, pos), s)
    requires 2 <= major <= 3 && |s| <= o.maxLen && (major == 3 ==> Utf8.Valid(s))
    ensures var h := ReadHead(o.Det(), input, pos);
            h == Done(Head(major, Some(|s|)), HeadEnd(input, pos))
            && DecodeString(o, input, h.end, h.value, pos) == Done(if major == 3 then Text(s) else Bytes(s), h.end + |s|)
  {
    hide Utf8.Valid, EncodesChunks;
  }

  lemma {:induction false} CompleteChunks(o: DecodeOptions, input: Buf, pos: nat, end: nat, major: nat, s: Buf, length: nat)
    requires !o.Det() && end <= |input| && EncodesChunks(input, pos, end, major, s) && major < 7 && length + |s| <= o.maxLen
    ensures DecodeChunks(o, input, pos, major, length) == Done(s, end)
    decreases end - pos
  {
    hide ReadHead, DecodeChunks, HeadEnd, Argument, Utf8.Valid;
    DecodeChunksStep(o, input, pos, major, length);
    if input[pos] == 0xff {
      assert s == [];
    } else {
      var n := Argument(input, pos);
      CompleteChunks(o, input, HeadEnd(input, pos) + n, end, major, s[n..], length + n);
      AcceptedChunk(o, input, pos, end, major, s, length);
    }
  }

  lemma AcceptedChunk(o: DecodeOptions, input: Buf, pos: nat, end: nat, major: nat, s: Buf, length: nat)
    requires !o.Det() && major < 7 && HeadAt(input, pos, major) && Argument(input, pos) <= |s|
    requires At(input, HeadEnd(input, pos), s[..Argument(input, pos)]) && length + |s| <= o.maxLen
    requires major == 3 ==> Utf8.Valid(s[..Argument(input, pos)])
    requires var n := Argument(input, pos);
             DecodeChunks(o, input, HeadEnd(input, pos) + n, major, length + n) == Done(s[n..], end)
    ensures DecodeChunks(o, input, pos, major, length) == Done(s, end)
  {
    hide ReadHead, Utf8.Valid, DecodeChunks, HeadEnd, Argument;
    HeadIsRead(o.Det(), input, pos, major);
    DecodeChunksStep(o, input, pos, major, length);
    var n := Argument(input, pos);
    assert s[..n] + s[n..] == s;
  }

  lemma {:induction false} CompleteMany(o: DecodeOptions, input: Buf, pos: nat, end: nat, vs: seq<Value>, depth: nat)
    requires pos <= end <= |input| && EncodesMany(o.Det(), input, pos, end, vs) && FitAll(o, vs, depth)
    ensures DecodeMany(o, input, pos, depth, |vs|) == Done(vs, end)
    decreases vs, 1
  {
    hide Decode, DecodeMany, Encodes, Fits;
    DecodeManyStep(o, input, pos, depth, |vs|);
    if vs != [] {
      var mid :| pos <= mid <= end && Encodes(o.Det(), input, pos, mid, vs[0]) && EncodesMany(o.Det(), input, mid, end, vs[1..]);
      Complete(o, input, pos, mid, vs[0], depth);
      CompleteMany(o, input, mid, end, vs[1..], depth);
      assert [vs[0]] + vs[1..] == vs;
    }
  }

  lemma {:induction false} CompleteToBreak(o: DecodeOptions, input: Buf, pos: nat, end: nat, vs: seq<Value>, depth: nat, count: nat, at: nat)
    requires pos <= end < |input| && EncodesMany(o.Det(), input, pos, end, vs) && FitAll(o, vs, depth)
    requires input[end] == 0xff && count + |vs| <= o.maxLen
    ensures DecodeToBreak(o, input, pos, depth, count, at) == Done(vs, end + 1)
    decreases vs, 1
  {
    hide Decode, DecodeToBreak, Encodes, Fits;
    DecodeToBreakStep(o, input, pos, depth, count, at);
    if vs != [] {
      var mid :| pos <= mid <= end && Encodes(o.Det(), input, pos, mid, vs[0]) && EncodesMany(o.Det(), input, mid, end, vs[1..]);
      NotABreak(o.Det(), input, pos, mid, vs[0]);
      Complete(o, input, pos, mid, vs[0], depth);
      CompleteToBreak(o, input, mid, end, vs[1..], depth, count + 1, at);
      assert [vs[0]] + vs[1..] == vs;
    }
  }

  lemma {:induction false} CompleteEntry(o: DecodeOptions, input: Buf, pos: nat, end: nat, e: Entry, depth: nat)
    requires end <= |input| && EncodesEntry(o.Det(), input, pos, end, e)
    requires Fits(o, e.key, depth) && Fits(o, e.value, depth)
    ensures var k := Decode(o, input, pos, depth);
            k.Done? && k.value == e.key && input[pos] != 0xff && k.end < end && input[k.end] != 0xff
            && Decode(o, input, k.end, depth) == Done(e.value, end)
    decreases e, 1
  {
    var mid :| pos <= mid <= end && Encodes(o.Det(), input, pos, mid, e.key) && Encodes(o.Det(), input, mid, end, e.value);
    NotABreak(o.Det(), input, pos, mid, e.key);
    NotABreak(o.Det(), input, mid, end, e.value);
    Complete(o, input, pos, mid, e.key, depth);
    Complete(o, input, mid, end, e.value, depth);
  }

  lemma {:induction false} CompleteEntries(o: DecodeOptions, input: Buf, pos: nat, end: nat, es: seq<Entry>, depth: nat)
    requires pos <= end <= |input| && EncodesEntries(o.Det(), input, pos, end, es) && FitEntries(o, es, depth)
    ensures DecodeEntries(o, input, pos, depth, |es|) == Done(es, end)
    decreases es, 1
  {
    hide Decode, DecodeEntries, Encodes, Fits;
    DecodeEntriesStep(o, input, pos, depth, |es|);
    if es != [] {
      var mid :| pos <= mid <= end && EncodesEntry(o.Det(), input, pos, mid, es[0]) && EncodesEntries(o.Det(), input, mid, end, es[1..]);
      CompleteEntry(o, input, pos, mid, es[0], depth);
      CompleteEntries(o, input, mid, end, es[1..], depth);
      assert [es[0]] + es[1..] == es;
    }
  }

  lemma {:induction false} CompleteEntriesToBreak(o: DecodeOptions, input: Buf, pos: nat, end: nat, es: seq<Entry>, depth: nat, count: nat, at: nat)
    requires pos <= end < |input| && EncodesEntries(o.Det(), input, pos, end, es) && FitEntries(o, es, depth)
    requires input[end] == 0xff && count + |es| <= o.maxLen
    ensures DecodeEntriesToBreak(o, input, pos, depth, count, at) == Done(es, end + 1)
    decreases es, 1
  {
    hide Decode, DecodeEntriesToBreak, EncodesEntry, Fits;
    DecodeEntriesToBreakStep(o, input, pos, depth, count, at);
    if es != [] {
      var mid :| pos <= mid <= end && EncodesEntry(o.Det(), input, pos, mid, es[0]) && EncodesEntries(o.Det(), input, mid, end, es[1..]);
      CompleteEntriesToBreak(o, input, mid, end, es[1..], depth, count + 1, at);
      EntryThenBreak(o, input, pos, mid, end, es, depth, count, at);
    }
  }

  lemma {:induction false} EntryThenBreak(o: DecodeOptions, input: Buf, pos: nat, mid: nat, end: nat, es: seq<Entry>, depth: nat, count: nat, at: nat)
    requires mid <= |input| && es != [] && count < o.maxLen
    requires EncodesEntry(o.Det(), input, pos, mid, es[0]) && Fits(o, es[0].key, depth) && Fits(o, es[0].value, depth)
    requires DecodeEntriesToBreak(o, input, mid, depth, count + 1, at) == Done(es[1..], end + 1)
    ensures pos <= |input| && DecodeEntriesToBreak(o, input, pos, depth, count, at) == Done(es, end + 1)
    decreases es, 0
  {
    hide Decode, DecodeEntriesToBreak, Fits;
    CompleteEntry(o, input, pos, mid, es[0], depth);
    DecodeEntriesToBreakStep(o, input, pos, depth, count, at);
    assert [Entry(es[0].key, es[0].value)] + es[1..] == es;
  }

  /** The decoder accepts exactly the well-formed encodings within its limits, and returns what they encode. */
  lemma DecoderMeetsGrammar(o: DecodeOptions, input: Buf, pos: nat, depth: nat, v: Value, end: nat)
    requires pos <= |input| && end <= |input|
    ensures Decode(o, input, pos, depth) == Done(v, end) <==> Encodes(o.Det(), input, pos, end, v) && Fits(o, v, depth)
  {
    hide Decode, Encodes, Fits;
    Sound(o, input, pos, depth);
    if Encodes(o.Det(), input, pos, end, v) && Fits(o, v, depth) { Complete(o, input, pos, end, v, depth); }
  }
}
