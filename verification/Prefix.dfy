/** Outcomes on a prefix of the input are final, except running out of bytes. */
module Prefix {
  import opened Core
  import opened Heads
  import opened Values
  import opened Decoding
  import opened Skipping
  import Floats

  /** More input can change an outcome only if it was `Eof`. */
  predicate Final<T(==)>(short: Parse<T>, long: Parse<T>) {
    short == long || (short.Fail? && short.error.kind == Eof)
  }

  lemma SliceOfPrefix(input: Buf, longer: Buf, a: nat, b: nat)
    requires input <= longer && a <= b <= |input|
    ensures longer[a..b] == input[a..b]
  {
  }

  lemma FinalHead(det: bool, input: Buf, longer: Buf, pos: nat)
    requires input <= longer && pos <= |input|
    ensures Final(ReadHead(det, input, pos), ReadHead(det, longer, pos))
  {
    if pos < |input| {
      var end := HeadEnd(input, pos);
      if end <= |input| { SliceOfPrefix(input, longer, pos + 1, end); }
    }
  }

  // ----- decoding

  lemma {:induction false} FinalDecode(o: DecodeOptions, input: Buf, longer: Buf, pos: nat, depth: nat)
    requires input <= longer && pos <= |input|
    ensures Final(Decode(o, input, pos, depth), Decode(o, longer, pos, depth))
    decreases |input| - pos, 1
  {
    hide ReadHead, Decode, DecodeString, DecodeArray, DecodeMap, DecodeSimple;
    FinalHead(o.Det(), input, longer, pos);
    var h := ReadHead(o.Det(), input, pos);
    DecodeRefused(o, input, pos, depth, h);
    DecodeRefused(o, longer, pos, depth, ReadHead(o.Det(), longer, pos));
    if depth <= o.maxDepth && h.Done? {
      DecodeItemStep(o, input, pos, depth, h);
      DecodeItemStep(o, longer, pos, depth, h);
      if 2 <= h.value.major <= 3 {
        FinalString(o, input, longer, h.end, h.value, pos);
      } else if h.value.major == 4 {
        FinalArray(o, input, longer, h.end, depth, h.value.arg, pos);
      } else if h.value.major == 5 {
        FinalMap(o, input, longer, h.end, depth, h.value.arg, pos);
      } else if h.value.major == 6 {
        FinalDecode(o, input, longer, h.end, depth + 1);
      }
    }
  }

  lemma {:induction false} FinalArray(o: DecodeOptions, input: Buf, longer: Buf, pos: nat, depth: nat, arg: Option<U64>, at: nat)
    requires input <= longer && pos <= |input|
    ensures Final(DecodeArray(o, input, pos, depth, arg, at), DecodeArray(o, longer, pos, depth, arg, at))
    decreases |input| - pos, 3
  {
    hide DecodeMany, DecodeToBreak;
    match arg
    case Some(n) => FinalMany(o, input, longer, pos, depth + 1, n);
    case None => FinalToBreak(o, input, longer, pos, depth + 1, 0, at);
  }

  lemma {:induction false} FinalMap(o: DecodeOptions, input: Buf, longer: Buf, pos: nat, depth: nat, arg: Option<U64>, at: nat)
    requires input <= longer && pos <= |input|
    ensures Final(DecodeMap(o, input, pos, depth, arg, at), DecodeMap(o, longer, pos, depth, arg, at))
    decreases |input| - pos, 3
  {
    hide DecodeEntries, DecodeEntriesToBreak;
    match arg
    case Some(n) => FinalEntries(o, input, longer, pos, depth + 1, n);
    case None => FinalEntriesToBreak(o, input, longer, pos, depth + 1, 0, at);
  }

  lemma FinalString(o: DecodeOptions, input: Buf, longer: Buf, pos: nat, h: Head, at: nat)
    requires input <= longer && pos <= |input|
    ensures Final(DecodeString(o, input, pos, h, at), DecodeString(o, longer, pos, h, at))
  {
    match h.arg
    case Some(n) => if pos + n <= |input| { SliceOfPrefix(input, longer, pos, pos + n); }
    case None => FinalChunks(o, input, longer, pos, h.major, 0);
  }

  lemma {:induction false} FinalChunks(o: DecodeOptions, input: Buf, longer: Buf, pos: nat, major: nat, length: nat)
    requires input <= longer && pos <= |input|
    ensures Final(DecodeChunks(o, input, pos, major, length), DecodeChunks(o, longer, pos, major, length))
    decreases |input| - pos
  {
    hide ReadHead, Utf8.Valid, DecodeChunks;
    FinalHead(o.Det(), input, longer, pos);
    DecodeChunksStep(o, input, pos, major, length);
    DecodeChunksStep(o, longer, pos, major, length);
    var h := ReadHead(o.Det(), input, pos);
    if h.Done? && h.value.arg.Some? {
      var next := h.end + h.value.arg.value;
      if next <= |input| {
        SliceOfPrefix(input, longer, h.end, next);
        FinalChunks(o, input, longer, next, major, length + h.value.arg.value);
      }
    }
  }

  lemma {:induction false} FinalMany(o: DecodeOptions, input: Buf, longer: Buf, pos: nat, depth: nat, count: nat)
    requires input <= longer && pos <= |input|
    ensures Final(DecodeMany(o, input, pos, depth, count), DecodeMany(o, longer, pos, depth, count))
    decreases |input| - pos, 2
  {
    hide Decode, DecodeMany;
    DecodeManyStep(o, input, pos, depth, count);
    DecodeManyStep(o, longer, pos, depth, count);
    if count > 0 {
      FinalDecode(o, input, longer, pos, depth);
      var d := Decode(o, input, pos, depth);
      if d.Done? { FinalMany(o, input, longer, d.end, depth, count - 1); }
    }
  }

  lemma {:induction false} FinalToBreak(o: DecodeOptions, input: Buf, longer: Buf, pos: nat, depth: nat, count: nat, at: nat)
    requires input <= longer && pos <= |input|
    ensures Final(DecodeToBreak(o, input, pos, depth, count, at), DecodeToBreak(o, longer, pos, depth, count, at))
    decreases |input| - pos, 2
  {
    hide Decode, DecodeToBreak;
    DecodeToBreakStep(o, input, pos, depth, count, at);
    DecodeToBreakStep(o, longer, pos, depth, count, at);
    if pos < |input| && input[pos] != 0xff && count != o.maxLen {
      FinalDecode(o, input, longer, pos, depth);
      var d := Decode(o, input, pos, depth);
      if d.Done? { FinalToBreak(o, input, longer, d.end, depth, count + 1, at); }
    }
  }

  lemma {:induction false} FinalEntries(o: DecodeOptions, input: Buf, longer: Buf, pos: nat, depth: nat, count: nat)
    requires input <= longer && pos <= |input|
    ensures Final(DecodeEntries(o, input, pos, depth, count), DecodeEntries(o, longer, pos, depth, count))
    decreases |input| - pos, 2
  {
    hide Decode, DecodeEntries;
    DecodeEntriesStep(o, input, pos, depth, count);
    DecodeEntriesStep(o, longer, pos, depth, count);
    if count > 0 {
      FinalDecode(o, input, longer, pos, depth);
      var k := Decode(o, input, pos, depth);
      if k.Done? {
        FinalDecode(o, input, longer, k.end, depth);
        var v := Decode(o, input, k.end, depth);
        if v.Done? { FinalEntries(o, input, longer, v.end, depth, count - 1); }
      }
    }
  }

  lemma {:induction false} FinalEntriesToBreak(o: DecodeOptions, input: Buf, longer: Buf, pos: nat, depth: nat, count: nat, at: nat)
    requires input <= longer && pos <= |input|
    ensures Final(DecodeEntriesToBreak(o, input, pos, depth, count, at), DecodeEntriesToBreak(o, longer, pos, depth, count, at))
    decreases |input| - pos, 2
  {
    hide Decode, DecodeEntriesToBreak;
    DecodeEntriesToBreakStep(o, input, pos, depth, count, at);
    DecodeEntriesToBreakStep(o, longer, pos, depth, count, at);
    if pos < |input| && input[pos] != 0xff && count != o.maxLen {
      FinalDecode(o, input, longer, pos, depth);
      var k := Decode(o, input, pos, depth);
      if k.Done? && k.end < |input| && input[k.end] != 0xff {
        FinalDecode(o, input, longer, k.end, depth);
        var v := Decode(o, input, k.end, depth);
        if v.Done? { FinalEntriesToBreak(o, input, longer, v.end, depth, count + 1, at); }
      }
    }
  }

  /** Every proper prefix of an accepted item fails, and with exactly `Eof`. */
  lemma ProperPrefixIsEof(o: DecodeOptions, input: Buf, cut: nat)
    requires var d := Decode(o, input, 0, 0); d.Done? && d.end == |input|
    requires cut < |input|
    ensures var d := Decode(o, input[..cut], 0, 0); d.Fail? && d.error.kind == Eof
  {
    FinalDecode(o, input[..cut], input, 0, 0);
  }

  /** No accepted item is a proper prefix of another: the encoding is self-delimiting. */
  lemma NoProperPrefix(o: DecodeOptions, a: Buf, b: Buf)
    requires a <= b
    requires var d := Decode(o, a, 0, 0); d.Done? && d.end == |a|
    requires var d := Decode(o, b, 0, 0); d.Done? && d.end == |b|
    ensures a == b
  {
    FinalDecode(o, a, b, 0, 0);
  }

  // ----- skipping

  lemma {:induction false} FinalSkip(m: Mode, o: DecodeOptions, input: Buf, longer: Buf, pos: nat, depth: nat)
    requires input <= longer && pos <= |input|
    ensures Final(Skip(m, o, input, pos, depth), Skip(m, o, longer, pos, depth))
    decreases |input| - pos, 0
  {
    hide ReadHead, Skip, SkipString, SkipContainer, SkipSimple;
    FinalHead(m.det, input, longer, pos);
    var h := ReadHead(m.det, input, pos);
    SkipRefused(m, o, input, pos, depth, h);
    SkipRefused(m, o, longer, pos, depth, ReadHead(m.det, longer, pos));
    if depth <= o.maxDepth && h.Done? {
      SkipItemStep(m, o, input, pos, depth, h);
      SkipItemStep(m, o, longer, pos, depth, h);
      if 2 <= h.value.major <= 3 {
        FinalSkipString(m, o, input, longer, h.end, h.value, pos);
      } else if 4 <= h.value.major <= 5 {
        FinalSkipContainer(m, o, input, longer, h.end, depth + 1, h.value.arg, h.value.major == 5, pos);
      } else if h.value.major == 6 {
        FinalSkip(m, o, input, longer, h.end, depth + 1);
      }
    }
  }

  /** Every proper prefix of an item that a skipper accepts fails with exactly `Eof`, whichever the skipper. */
  lemma SkippedPrefixIsEof(m: Mode, o: DecodeOptions, input: Buf, cut: nat)
    requires var s := Skip(m, o, input, 0, 0); s.Done? && s.end == |input|
    requires cut < |input|
    ensures var s := Skip(m, o, input[..cut], 0, 0); s.Fail? && s.error.kind == Eof
  {
    FinalSkip(m, o, input[..cut], input, 0, 0);
  }

  /** No skipper accepts an item and a proper prefix of it. */
  lemma NoSkippedProperPrefix(m: Mode, o: DecodeOptions, a: Buf, b: Buf)
    requires a <= b
    requires var s := Skip(m, o, a, 0, 0); s.Done? && s.end == |a|
    requires var s := Skip(m, o, b, 0, 0); s.Done? && s.end == |b|
    ensures a == b
  {
    FinalSkip(m, o, a, b, 0, 0);
  }

  lemma {:induction false} FinalSkipContainer(m: Mode, o: DecodeOptions, input: Buf, longer: Buf, pos: nat, depth: nat,
                                              arg: Option<U64>, isMap: bool, at: nat)
    requires input <= longer && pos <= |input|
    ensures Final(SkipContainer(m, o, input, pos, depth, arg, isMap, at), SkipContainer(m, o, longer, pos, depth, arg, isMap, at))
    decreases |input| - pos, 2
  {
    match arg
    case Some(n) => FinalSkipMany(m, o, input, longer, pos, depth, isMap, if isMap then 2 * n else n, None);
    case None => FinalSkipToBreak(m, o, input, longer, pos, depth, isMap, 0, at);
  }

  lemma FinalSkipString(m: Mode, o: DecodeOptions, input: Buf, longer: Buf, pos: nat, h: Head, at: nat)
    requires input <= longer && pos <= |input|
    ensures Final(SkipString(m, o, input, pos, h, at), SkipString(m, o, longer, pos, h, at))
  {
    match h.arg
    case Some(n) => if pos + n <= |input| { SliceOfPrefix(input, longer, pos, pos + n); }
    case None => FinalSkipChunks(m, input, longer, pos, h.major);
  }

  lemma {:induction false} FinalSkipChunks(m: Mode, input: Buf, longer: Buf, pos: nat, major: nat)
    requires input <= longer && pos <= |input|
    ensures Final(SkipChunks(m, input, pos, major), SkipChunks(m, longer, pos, major))
    decreases |input| - pos
  {
    hide ReadHead, Utf8.Valid, SkipChunks;
    FinalHead(m.det, input, longer, pos);
    SkipChunksStep(m, input, pos, major);
    SkipChunksStep(m, longer, pos, major);
    var h := ReadHead(m.det, input, pos);
    if h.Done? && h.value.arg.Some? {
      var next := h.end + h.value.arg.value;
      if next <= |input| {
        SliceOfPrefix(input, longer, h.end, next);
        FinalSkipChunks(m, input, longer, next, major);
      }
    }
  }

  lemma FinalVisits(n: nat, short: Parse<nat>, long: Parse<nat>)
    requires Final(short, long)
    ensures Final(AddVisits(n, short), AddVisits(n, long))
  {
  }

  lemma {:induction false} FinalSkipMany(m: Mode, o: DecodeOptions, input: Buf, longer: Buf, pos: nat, depth: nat,
                                         isMap: bool, count: nat, previous: Option<Buf>)
    requires input <= longer && pos <= |input|
    ensures Final(SkipMany(m, o, input, pos, depth, isMap, count, previous),
                  SkipMany(m, o, longer, pos, depth, isMap, count, previous))
    decreases |input| - pos, 1
  {
    if count > 0 {
      hide Skip, SkipMany, Less, AddVisits;
      FinalSkip(m, o, input, longer, pos, depth);
      var s := Skip(m, o, input, pos, depth);
      SkipManyStep(m, o, input, pos, depth, isMap, count, previous);
      SkipManyStep(m, o, longer, pos, depth, isMap, count, previous);
      if s.Done? {
        SliceOfPrefix(input, longer, pos, s.end);
        var next := if isMap && count % 2 == 0 && m.det then Some(input[pos..s.end]) else previous;
        FinalSkipMany(m, o, input, longer, s.end, depth, isMap, count - 1, next);
        FinalVisits(s.value, SkipMany(m, o, input, s.end, depth, isMap, count - 1, next),
                    SkipMany(m, o, longer, s.end, depth, isMap, count - 1, next));
      }
    }
  }

  lemma {:induction false} FinalSkipToBreak(m: Mode, o: DecodeOptions, input: Buf, longer: Buf, pos: nat, depth: nat,
                                            isMap: bool, items: nat, at: nat)
    requires input <= longer && pos <= |input|
    ensures Final(SkipToBreak(m, o, input, pos, depth, isMap, items, at),
                  SkipToBreak(m, o, longer, pos, depth, isMap, items, at))
    decreases |input| - pos, 1
  {
    hide Skip, SkipToBreak;
    SkipToBreakStep(m, o, input, pos, depth, isMap, items, at);
    SkipToBreakStep(m, o, longer, pos, depth, isMap, items, at);
    if pos < |input| && input[pos] != 0xff {
      FinalSkip(m, o, input, longer, pos, depth);
      var s := Skip(m, o, input, pos, depth);
      if s.Done? { FinalSkipToBreak(m, o, input, longer, s.end, depth, isMap, items + 1, at); }
    }
  }
}
