/** Which errors decoding and skipping can report, and where. */
module Failures {
  import opened Core
  import opened Heads
  import opened Values
  import opened Decoding
  import opened Skipping
  import Floats
  import Prefix
  import Utf8

  /** Reserved additional information, an integer or tag without an argument, or a two-byte simple value below 32. */
  predicate Reserved(x: Buf, pos: nat)
    requires pos < |x|
  {
    28 <= x[pos] % 32 <= 30 || x[pos] == 0x1f || x[pos] == 0x3f || x[pos] == 0xdf || (x[pos] == 0xf8 && pos + 1 < |x| && x[pos + 1] < 32)
  }

  /** The byte that is blamed deserves it. */
  predicate Deserved(input: Buf, kind: ErrorKind, at: nat) {
    at < |input| &&
    match kind
    case InvalidAdditionalInfo => Reserved(input, at)
    case UnexpectedBreak => input[at] == 0xff
    case UnexpectedType => input[at] != 0xff
    case InvalidUtf8 => input[at] / 32 == 3
    case CollectionLimit => 2 <= input[at] / 32 <= 5
    case _ => true
  }

  /**
    * An error of reading at `pos`: nothing before `pos` is blamed, and except for missing bytes and for nesting the
    * blamed byte is there and deserves it.
    */
  predicate Placed(det: bool, input: Buf, pos: nat, e: Error) {
    pos <= e.offset <= |input| && e.item == None
    && (e.kind == Eof || e.kind == DepthLimit || Deserved(input, e.kind, e.offset))
    && (e.kind == NonDeterministic ==> det)
    && e.kind in {Eof, InvalidAdditionalInfo, UnexpectedType, UnexpectedBreak, InvalidUtf8, DepthLimit, CollectionLimit, NonDeterministic}
  }

  predicate FailsWell<T>(det: bool, input: Buf, pos: nat, r: Parse<T>) {
    r.Fail? ==> Placed(det, input, pos, r.error)
  }

  /** What blames something before `pos` blames the head at `at`: for its length, its form, or the text it starts. */
  predicate BlamesHead<T>(at: nat, pos: nat, text: bool, r: Parse<T>) {
    r.Fail? && r.error.offset < pos ==>
      r.error.offset == at && (r.error.kind == CollectionLimit || r.error.kind == NonDeterministic || (text && r.error.kind == InvalidUtf8))
  }

  lemma HeadFailure(det: bool, input: Buf, pos: nat)
    requires pos <= |input|
    ensures FailsWell(det, input, pos, ReadHead(det, input, pos))
    ensures pos < |input| && ReadHead(det, input, pos).Fail? ==> ReadHead(det, input, pos).error.kind != DepthLimit
  {
  }

  /** The argument in the second byte of a simple value. */
  lemma SecondByte(det: bool, input: Buf, pos: nat)
    requires pos < |input| && input[pos] == 0xf8 && ReadHead(det, input, pos).Done?
    ensures pos + 1 < |input| && ReadHead(det, input, pos).value.arg == Some(input[pos + 1])
  {
    FromOneByte(input[pos + 1..pos + 2]);
  }

  // ----- decoding

  lemma {:induction false} DecodeFailure(o: DecodeOptions, input: Buf, pos: nat, depth: nat)
    requires pos <= |input|
    ensures FailsWell(o.Det(), input, pos, Decode(o, input, pos, depth))
    decreases |input| - pos, 1
  {
    hide ReadHead, Decode, DecodeString, DecodeArray, DecodeMap;
    HeadFailure(o.Det(), input, pos);
    var h := ReadHead(o.Det(), input, pos);
    DecodeRefused(o, input, pos, depth, h);
    if depth <= o.maxDepth && h.Done? {
      DecodeItemStep(o, input, pos, depth, h);
      if 2 <= h.value.major <= 3 {
        StringFailure(o, input, h.end, h.value, pos);
      } else if h.value.major == 4 {
        ArrayFailure(o, input, h.end, depth, h.value.arg, pos);
      } else if h.value.major == 5 {
        MapFailure(o, input, h.end, depth, h.value.arg, pos);
      } else if h.value.major == 6 {
        DecodeFailure(o, input, h.end, depth + 1);
      } else if input[pos] == 0xf8 {
        SecondByte(o.Det(), input, pos);
      }
    }
  }

  lemma StringFailure(o: DecodeOptions, input: Buf, pos: nat, h: Head, at: nat)
    requires at < pos <= |input| && 2 <= h.major == input[at] / 32 <= 3
    ensures FailsWell(o.Det(), input, at, DecodeString(o, input, pos, h, at)) && BlamesHead(at, pos, true, DecodeString(o, input, pos, h, at))
  {
    hide DecodeChunks, Utf8.Valid;
    if h.arg.None? { ChunksFailure(o, input, pos, h.major, 0); }
  }

  lemma {:induction false} ChunksFailure(o: DecodeOptions, input: Buf, pos: nat, major: nat, length: nat)
    requires pos <= |input| && 2 <= major <= 3
    ensures FailsWell(o.Det(), input, pos, DecodeChunks(o, input, pos, major, length))
    decreases |input| - pos
  {
    hide ReadHead, DecodeChunks, Utf8.Valid;
    DecodeChunksStep(o, input, pos, major, length);
    HeadFailure(o.Det(), input, pos);
    var h := ReadHead(o.Det(), input, pos);
    if h.Done? && h.value.arg.Some? && h.end + h.value.arg.value <= |input| {
      ChunksFailure(o, input, h.end + h.value.arg.value, major, length + h.value.arg.value);
    }
  }

  lemma {:induction false} ArrayFailure(o: DecodeOptions, input: Buf, pos: nat, depth: nat, arg: Option<U64>, at: nat)
    requires at < pos <= |input| && 4 <= input[at] / 32 <= 5
    ensures FailsWell(o.Det(), input, at, DecodeArray(o, input, pos, depth, arg, at)) && BlamesHead(at, pos, false, DecodeArray(o, input, pos, depth, arg, at))
    decreases |input| - pos, 3
  {
    hide DecodeMany, DecodeToBreak;
    match arg
    case Some(n) => ManyFailure(o, input, pos, depth + 1, n);
    case None => ToBreakFailure(o, input, pos, depth + 1, 0, at);
  }

  lemma {:induction false} MapFailure(o: DecodeOptions, input: Buf, pos: nat, depth: nat, arg: Option<U64>, at: nat)
    requires at < pos <= |input| && 4 <= input[at] / 32 <= 5
    ensures FailsWell(o.Det(), input, at, DecodeMap(o, input, pos, depth, arg, at)) && BlamesHead(at, pos, false, DecodeMap(o, input, pos, depth, arg, at))
    decreases |input| - pos, 3
  {
    hide DecodeEntries, DecodeEntriesToBreak;
    match arg
    case Some(n) => EntriesFailure(o, input, pos, depth + 1, n);
    case None => EntriesToBreakFailure(o, input, pos, depth + 1, 0, at);
  }

  lemma {:induction false} ManyFailure(o: DecodeOptions, input: Buf, pos: nat, depth: nat, count: nat)
    requires pos <= |input|
    ensures FailsWell(o.Det(), input, pos, DecodeMany(o, input, pos, depth, count))
    decreases |input| - pos, 2
  {
    hide Decode, DecodeMany;
    DecodeManyStep(o, input, pos, depth, count);
    if count > 0 {
      DecodeFailure(o, input, pos, depth);
      var v := Decode(o, input, pos, depth);
      if v.Done? { ManyFailure(o, input, v.end, depth, count - 1); }
    }
  }

  lemma {:induction false} ToBreakFailure(o: DecodeOptions, input: Buf, pos: nat, depth: nat, count: nat, at: nat)
    requires at < pos <= |input| && 4 <= input[at] / 32 <= 5
    ensures FailsWell(o.Det(), input, at, DecodeToBreak(o, input, pos, depth, count, at)) && BlamesHead(at, pos, false, DecodeToBreak(o, input, pos, depth, count, at))
    decreases |input| - pos, 2
  {
    hide Decode, DecodeToBreak;
    DecodeToBreakStep(o, input, pos, depth, count, at);
    DecodeFailure(o, input, pos, depth);
    var v := Decode(o, input, pos, depth);
    if v.Done? { ToBreakFailure(o, input, v.end, depth, count + 1, at); }
  }

  lemma {:induction false} EntriesFailure(o: DecodeOptions, input: Buf, pos: nat, depth: nat, count: nat)
    requires pos <= |input|
    ensures FailsWell(o.Det(), input, pos, DecodeEntries(o, input, pos, depth, count))
    decreases |input| - pos, 2
  {
    hide Decode, DecodeEntries;
    DecodeEntriesStep(o, input, pos, depth, count);
    if count > 0 {
      DecodeFailure(o, input, pos, depth);
      var k := Decode(o, input, pos, depth);
      if k.Done? {
        DecodeFailure(o, input, k.end, depth);
        var v := Decode(o, input, k.end, depth);
        if v.Done? { EntriesFailure(o, input, v.end, depth, count - 1); }
      }
    }
  }

  lemma {:induction false} EntriesToBreakFailure(o: DecodeOptions, input: Buf, pos: nat, depth: nat, count: nat, at: nat)
    requires at < pos <= |input| && 4 <= input[at] / 32 <= 5
    ensures FailsWell(o.Det(), input, at, DecodeEntriesToBreak(o, input, pos, depth, count, at)) && BlamesHead(at, pos, false, DecodeEntriesToBreak(o, input, pos, depth, count, at))
    decreases |input| - pos, 2
  {
    hide Decode, DecodeEntriesToBreak;
    DecodeEntriesToBreakStep(o, input, pos, depth, count, at);
    DecodeFailure(o, input, pos, depth);
    var k := Decode(o, input, pos, depth);
    if k.Done? {
      DecodeFailure(o, input, k.end, depth);
      var v := Decode(o, input, k.end, depth);
      if v.Done? { EntriesToBreakFailure(o, input, v.end, depth, count + 1, at); }
    }
  }

  // ----- what the first byte of an item can be blamed for

  /** The errors that are reported at the first byte of an item, and exactly when. */
  lemma BlamedFirstByte(o: DecodeOptions, x: Buf, pos: nat, depth: nat)
    requires pos < |x| && depth <= o.maxDepth
    ensures var d := Decode(o, x, pos, depth);
            (d == Fail(NewError(InvalidAdditionalInfo, pos)) <==> Reserved(x, pos))
            && (d == Fail(NewError(UnexpectedBreak, pos)) <==> x[pos] == 0xff)
            && (d.Fail? && d.error.offset == pos ==>
                  d.error.kind in {InvalidAdditionalInfo, UnexpectedBreak, InvalidUtf8, CollectionLimit, NonDeterministic})
  {
    hide ReadHead, Decode, DecodeString, DecodeArray, DecodeMap, DecodeSimple;
    var h := ReadHead(o.Det(), x, pos);
    DecodeRefused(o, x, pos, depth, h);
    FirstByteHead(o.Det(), x, pos);
    if h.Done? {
      DecodeItemStep(o, x, pos, depth, h);
      if 2 <= h.value.major <= 3 {
        StringFailure(o, x, h.end, h.value, pos);
      } else if h.value.major == 4 {
        ArrayFailure(o, x, h.end, depth, h.value.arg, pos);
      } else if h.value.major == 5 {
        MapFailure(o, x, h.end, depth, h.value.arg, pos);
      } else if h.value.major == 6 {
        if h.value.arg.Some? { DecodeFailure(o, x, h.end, depth + 1); }
      } else if h.value.major == 7 {
        FirstByteSimple(o.Det(), x, pos);
      }
    }
  }

  lemma FirstByteHead(det: bool, x: Buf, pos: nat)
    requires pos < |x|
    ensures var h := ReadHead(det, x, pos);
            (h == Fail(NewError(InvalidAdditionalInfo, pos)) <==> 28 <= x[pos] % 32 <= 30)
            && (h.Fail? && h.error.offset == pos ==> h.error.kind == InvalidAdditionalInfo || h.error.kind == NonDeterministic)
            && (h.Fail? ==> h.error.kind != UnexpectedBreak && x[pos] % 32 != 31)
            && (h.Fail? && x[pos] == 0xf8 ==> pos + 1 == |x|)
  {
  }

  lemma FirstByteSimple(det: bool, x: Buf, pos: nat)
    requires pos < |x| && ReadHead(det, x, pos).Done? && x[pos] / 32 == 7
    ensures var h := ReadHead(det, x, pos);
            var d := DecodeSimple(x[pos] % 32, h.value.arg, h.end, pos);
            (d == Fail(NewError(InvalidAdditionalInfo, pos)) <==> x[pos] == 0xf8 && pos + 1 < |x| && x[pos + 1] < 32)
            && (d == Fail(NewError(UnexpectedBreak, pos)) <==> x[pos] == 0xff)
            && (d.Fail? ==> d.error.kind == InvalidAdditionalInfo || d.error.kind == UnexpectedBreak)
  {
    hide Floats.HalfToDouble, Floats.SingleToDouble;
    if x[pos] == 0xf8 { SecondByte(det, x, pos); }
  }

  // ----- skipping

  lemma {:induction false} SkipFailure(m: Mode, o: DecodeOptions, input: Buf, pos: nat, depth: nat)
    requires pos <= |input|
    ensures FailsWell(m.det, input, pos, Skip(m, o, input, pos, depth))
    ensures var s := Skip(m, o, input, pos, depth); s.Fail? && s.error.kind == InvalidUtf8 ==> m.utf8
    decreases |input| - pos, 1
  {
    hide ReadHead, Skip, SkipString, SkipContainer, Floats.NonPreferred;
    HeadFailure(m.det, input, pos);
    HeadIsNoText(m.det, input, pos);
    var h := ReadHead(m.det, input, pos);
    SkipRefused(m, o, input, pos, depth, h);
    if depth <= o.maxDepth && h.Done? {
      SkipItemStep(m, o, input, pos, depth, h);
      if 2 <= h.value.major <= 3 {
        SkipStringFailure(m, o, input, h.end, h.value, pos);
      } else if 4 <= h.value.major <= 5 {
        SkipContainerFailure(m, o, input, h.end, depth + 1, h.value.arg, h.value.major == 5, pos);
      } else if h.value.major == 6 {
        SkipFailure(m, o, input, h.end, depth + 1);
      } else if input[pos] == 0xf8 {
        SecondByte(m.det, input, pos);
      }
    }
  }

  lemma HeadIsNoText(det: bool, input: Buf, pos: nat)
    requires pos <= |input|
    ensures var h := ReadHead(det, input, pos); h.Fail? ==> h.error.kind != InvalidUtf8
  {
  }

  /** Text is blamed by a skipper that checks it, and not before `pos`; other errors may blame a head as early as `at`. */
  predicate SkipFailsWell<T>(m: Mode, input: Buf, at: nat, pos: nat, r: Parse<T>) {
    FailsWell(m.det, input, at, r) && (r.Fail? && r.error.kind == InvalidUtf8 ==> m.utf8 && pos <= r.error.offset)
  }

  lemma SkipStringFailure(m: Mode, o: DecodeOptions, input: Buf, pos: nat, h: Head, at: nat)
    requires at < pos <= |input| && 2 <= h.major == input[at] / 32 <= 3
    ensures SkipFailsWell(m, input, at, if h.arg.None? then pos else at, SkipString(m, o, input, pos, h, at))
  {
    hide SkipChunks, Utf8.Valid;
    if h.arg.None? { SkipChunksFailure(m, input, pos, h.major); }
  }

  lemma {:induction false} SkipChunksFailure(m: Mode, input: Buf, pos: nat, major: nat)
    requires pos <= |input| && 2 <= major <= 3
    ensures SkipFailsWell(m, input, pos, pos, SkipChunks(m, input, pos, major))
    decreases |input| - pos
  {
    hide ReadHead, SkipChunks, Utf8.Valid;
    SkipChunksStep(m, input, pos, major);
    HeadFailure(m.det, input, pos);
    HeadIsNoText(m.det, input, pos);
    var h := ReadHead(m.det, input, pos);
    if h.Done? && h.value.arg.Some? && h.end + h.value.arg.value <= |input| {
      SkipChunksFailure(m, input, h.end + h.value.arg.value, major);
    }
  }

  lemma {:induction false} SkipContainerFailure(m: Mode, o: DecodeOptions, input: Buf, pos: nat, depth: nat,
                                                arg: Option<U64>, isMap: bool, at: nat)
    requires at < pos <= |input| && 4 <= input[at] / 32 <= 5
    ensures SkipFailsWell(m, input, at, pos, SkipContainer(m, o, input, pos, depth, arg, isMap, at))
    decreases |input| - pos, 3
  {
    hide SkipMany, SkipToBreak;
    match arg
    case Some(n) => SkipManyFailure(m, o, input, pos, depth, isMap, if isMap then 2 * n else n, None);
    case None => SkipToBreakFailure(m, o, input, pos, depth, isMap, 0, at);
  }

  lemma {:induction false} SkipManyFailure(m: Mode, o: DecodeOptions, input: Buf, pos: nat, depth: nat,
                                           isMap: bool, count: nat, previous: Option<Buf>)
    requires pos <= |input|
    ensures SkipFailsWell(m, input, pos, pos, SkipMany(m, o, input, pos, depth, isMap, count, previous))
    decreases |input| - pos, 2
  {
    hide Skip, SkipMany, Less;
    SkipManyStep(m, o, input, pos, depth, isMap, count, previous);
    if count > 0 {
      SkipFailure(m, o, input, pos, depth);
      var s := Skip(m, o, input, pos, depth);
      if s.Done? {
        SkipManyFailure(m, o, input, s.end, depth, isMap, count - 1,
                        if isMap && count % 2 == 0 && m.det then Some(input[pos..s.end]) else previous);
      }
    }
  }

  lemma {:induction false} SkipToBreakFailure(m: Mode, o: DecodeOptions, input: Buf, pos: nat, depth: nat,
                                              isMap: bool, items: nat, at: nat)
    requires at < pos <= |input| && 4 <= input[at] / 32 <= 5
    ensures SkipFailsWell(m, input, at, pos, SkipToBreak(m, o, input, pos, depth, isMap, items, at))
    decreases |input| - pos, 2
  {
    hide Skip, SkipToBreak;
    SkipToBreakStep(m, o, input, pos, depth, isMap, items, at);
    SkipFailure(m, o, input, pos, depth);
    var s := Skip(m, o, input, pos, depth);
    if s.Done? { SkipToBreakFailure(m, o, input, s.end, depth, isMap, items + 1, at); }
  }

  // ----- nothing is wrong before the offset of an error

  /** Cut off where an error points, the input is only unfinished; nesting too deep is the one exception. */
  lemma NothingWrongBefore(o: DecodeOptions, input: Buf)
    requires var d := Decode(o, input, 0, 0); d.Fail? && d.error.kind != DepthLimit
    ensures var e := Decode(o, input, 0, 0).error;
            e.offset <= |input| && (var cut := Decode(o, input[..e.offset], 0, 0); cut.Fail? && cut.error.kind == Eof)
  {
    hide Decode;
    DecodeFailure(o, input, 0, 0);
    var e := Decode(o, input, 0, 0).error;
    var cut := input[..e.offset];
    DecodeFailure(o, cut, 0, 0);
    Prefix.FinalDecode(o, cut, input, 0, 0);
  }

  lemma NothingWrongBeforeSkip(m: Mode, o: DecodeOptions, input: Buf)
    requires var s := Skip(m, o, input, 0, 0); s.Fail? && s.error.kind != DepthLimit
    ensures var e := Skip(m, o, input, 0, 0).error;
            e.offset <= |input| && (var cut := Skip(m, o, input[..e.offset], 0, 0); cut.Fail? && cut.error.kind == Eof)
  {
    hide Skip;
    SkipFailure(m, o, input, 0, 0);
    var e := Skip(m, o, input, 0, 0).error;
    var cut := input[..e.offset];
    SkipFailure(m, o, cut, 0, 0);
    Prefix.FinalSkip(m, o, cut, input, 0, 0);
  }
}
