/** `Eof` means that bytes are missing: it is exactly the outcome that more input can change. */
module MissingBytes {
  import opened Core
  import opened Heads
  import opened Values
  import opened Decoding
  import opened Skipping
  import Floats
  import Prefix
  import Readers
  import Utf8

  /** Further than any string that starts in the first `n` bytes can reach. */
  function Reach(n: nat): nat { n + USIZE_LIMIT + 9 }

  /** From `n` on nothing but heads with reserved additional information, and enough of them. */
  predicate Padded(y: Buf, n: nat) {
    Reach(n) < |y| && forall i :: n <= i < |y| ==> y[i] == 0x1c
  }

  function Padding(): (p: Buf) {
    seq(Reach(0) + 1, _ => 0x1c)
  }

  lemma PaddingPads(x: Buf)
    ensures Padded(x + Padding(), |x|)
  {
  }

  /** No byte is missing, and what was read ends before the padding does. */
  predicate Complete<T>(n: nat, r: Parse<T>) {
    match r case Done(_, end) => end <= Reach(n) case Fail(e) => e.kind != Eof
  }

  lemma PaddedHead(det: bool, y: Buf, n: nat, pos: nat)
    requires Padded(y, n) && pos <= Reach(n)
    ensures var h := ReadHead(det, y, pos);
            (h.Fail? ==> h.error.kind != Eof) && (h.Done? ==> pos < n && h.end <= n + 8 && y[pos] != 0x1c)
  {
  }

  // ----- decoding

  lemma {:induction false} PaddedDecode(o: DecodeOptions, y: Buf, n: nat, pos: nat, depth: nat)
    requires Padded(y, n) && pos <= Reach(n)
    ensures Complete(n, Decode(o, y, pos, depth))
    decreases |y| - pos, 1
  {
    hide Padded, ReadHead, Decode, DecodeString, DecodeArray, DecodeMap;
    PaddedLength(y, n);
    PaddedHead(o.Det(), y, n, pos);
    var h := ReadHead(o.Det(), y, pos);
    DecodeRefused(o, y, pos, depth, h);
    if depth <= o.maxDepth && h.Done? {
      DecodeItemStep(o, y, pos, depth, h);
      if 2 <= h.value.major <= 3 {
        PaddedString(o, y, n, h.end, h.value, pos);
      } else if h.value.major == 4 {
        PaddedArray(o, y, n, h.end, depth, h.value.arg, pos);
      } else if h.value.major == 5 {
        PaddedMap(o, y, n, h.end, depth, h.value.arg, pos);
      } else if h.value.major == 6 {
        PaddedDecode(o, y, n, h.end, depth + 1);
      }
    }
  }

  lemma PaddedLength(y: Buf, n: nat)
    requires Padded(y, n)
    ensures Reach(n) < |y|
  {
  }

  lemma NoBreakInPadding(y: Buf, n: nat, pos: nat)
    requires Padded(y, n) && pos <= Reach(n)
    ensures pos < |y| && (y[pos] == 0xff ==> pos < n)
  {
  }

  lemma PaddedString(o: DecodeOptions, y: Buf, n: nat, pos: nat, h: Head, at: nat)
    requires Padded(y, n) && pos <= n + 8
    ensures Complete(n, DecodeString(o, y, pos, h, at))
  {
    hide Padded, DecodeChunks, Utf8.Valid;
    PaddedLength(y, n);
    if h.arg.None? { PaddedChunks(o, y, n, pos, h.major, 0); }
  }

  lemma {:induction false} PaddedChunks(o: DecodeOptions, y: Buf, n: nat, pos: nat, major: nat, length: nat)
    requires Padded(y, n) && pos <= Reach(n)
    ensures Complete(n, DecodeChunks(o, y, pos, major, length))
    decreases |y| - pos
  {
    hide Padded, ReadHead, DecodeChunks, Utf8.Valid;
    PaddedLength(y, n);
    NoBreakInPadding(y, n, pos);
    PaddedHead(o.Det(), y, n, pos);
    DecodeChunksStep(o, y, pos, major, length);
    var h := ReadHead(o.Det(), y, pos);
    if h.Done? && h.value.arg.Some? {
      PaddedChunks(o, y, n, h.end + h.value.arg.value, major, length + h.value.arg.value);
    }
  }

  lemma {:induction false} PaddedArray(o: DecodeOptions, y: Buf, n: nat, pos: nat, depth: nat, arg: Option<U64>, at: nat)
    requires Padded(y, n) && pos <= Reach(n)
    ensures Complete(n, DecodeArray(o, y, pos, depth, arg, at))
    decreases |y| - pos, 3
  {
    hide Padded, DecodeMany, DecodeToBreak;
    PaddedLength(y, n);
    match arg
    case Some(k) => PaddedMany(o, y, n, pos, depth + 1, k);
    case None => PaddedToBreak(o, y, n, pos, depth + 1, 0, at);
  }

  lemma {:induction false} PaddedMap(o: DecodeOptions, y: Buf, n: nat, pos: nat, depth: nat, arg: Option<U64>, at: nat)
    requires Padded(y, n) && pos <= Reach(n)
    ensures Complete(n, DecodeMap(o, y, pos, depth, arg, at))
    decreases |y| - pos, 3
  {
    hide Padded, DecodeEntries, DecodeEntriesToBreak;
    PaddedLength(y, n);
    match arg
    case Some(k) => PaddedEntries(o, y, n, pos, depth + 1, k);
    case None => PaddedEntriesToBreak(o, y, n, pos, depth + 1, 0, at);
  }

  lemma {:induction false} PaddedMany(o: DecodeOptions, y: Buf, n: nat, pos: nat, depth: nat, count: nat)
    requires Padded(y, n) && pos <= Reach(n)
    ensures Complete(n, DecodeMany(o, y, pos, depth, count))
    decreases |y| - pos, 2
  {
    hide Padded, Decode, DecodeMany;
    PaddedLength(y, n);
    DecodeManyStep(o, y, pos, depth, count);
    if count > 0 {
      PaddedDecode(o, y, n, pos, depth);
      var v := Decode(o, y, pos, depth);
      if v.Done? { PaddedMany(o, y, n, v.end, depth, count - 1); }
    }
  }

  lemma {:induction false} PaddedToBreak(o: DecodeOptions, y: Buf, n: nat, pos: nat, depth: nat, count: nat, at: nat)
    requires Padded(y, n) && pos <= Reach(n)
    ensures Complete(n, DecodeToBreak(o, y, pos, depth, count, at))
    decreases |y| - pos, 2
  {
    hide Padded, Decode, DecodeToBreak;
    NoBreakInPadding(y, n, pos);
    DecodeToBreakStep(o, y, pos, depth, count, at);
    PaddedDecode(o, y, n, pos, depth);
    var v := Decode(o, y, pos, depth);
    if v.Done? { PaddedToBreak(o, y, n, v.end, depth, count + 1, at); }
  }

  lemma {:induction false} PaddedEntries(o: DecodeOptions, y: Buf, n: nat, pos: nat, depth: nat, count: nat)
    requires Padded(y, n) && pos <= Reach(n)
    ensures Complete(n, DecodeEntries(o, y, pos, depth, count))
    decreases |y| - pos, 2
  {
    hide Padded, Decode, DecodeEntries;
    PaddedLength(y, n);
    DecodeEntriesStep(o, y, pos, depth, count);
    if count > 0 {
      PaddedDecode(o, y, n, pos, depth);
      var k := Decode(o, y, pos, depth);
      if k.Done? {
        PaddedDecode(o, y, n, k.end, depth);
        var v := Decode(o, y, k.end, depth);
        if v.Done? { PaddedEntries(o, y, n, v.end, depth, count - 1); }
      }
    }
  }

  lemma {:induction false} PaddedEntriesToBreak(o: DecodeOptions, y: Buf, n: nat, pos: nat, depth: nat, count: nat, at: nat)
    requires Padded(y, n) && pos <= Reach(n)
    ensures Complete(n, DecodeEntriesToBreak(o, y, pos, depth, count, at))
    decreases |y| - pos, 2
  {
    hide Padded, Decode, DecodeEntriesToBreak;
    NoBreakInPadding(y, n, pos);
    DecodeEntriesToBreakStep(o, y, pos, depth, count, at);
    PaddedDecode(o, y, n, pos, depth);
    var k := Decode(o, y, pos, depth);
    if k.Done? {
      NoBreakInPadding(y, n, k.end);
      PaddedDecode(o, y, n, k.end, depth);
      var v := Decode(o, y, k.end, depth);
      if v.Done? { PaddedEntriesToBreak(o, y, n, v.end, depth, count + 1, at); }
    }
  }

  // ----- skipping

  lemma {:induction false} PaddedSkip(m: Mode, o: DecodeOptions, y: Buf, n: nat, pos: nat, depth: nat)
    requires Padded(y, n) && pos <= Reach(n)
    ensures Complete(n, Skip(m, o, y, pos, depth))
    decreases |y| - pos, 1
  {
    hide Padded, ReadHead, Skip, SkipString, SkipContainer, Floats.NonPreferred;
    PaddedLength(y, n);
    PaddedHead(m.det, y, n, pos);
    var h := ReadHead(m.det, y, pos);
    SkipRefused(m, o, y, pos, depth, h);
    if depth <= o.maxDepth && h.Done? {
      SkipItemStep(m, o, y, pos, depth, h);
      if 2 <= h.value.major <= 3 {
        PaddedSkipString(m, o, y, n, h.end, h.value, pos);
      } else if 4 <= h.value.major <= 5 {
        PaddedSkipContainer(m, o, y, n, h.end, depth + 1, h.value.arg, h.value.major == 5, pos);
      } else if h.value.major == 6 {
        PaddedSkip(m, o, y, n, h.end, depth + 1);
      }
    }
  }

  lemma PaddedSkipString(m: Mode, o: DecodeOptions, y: Buf, n: nat, pos: nat, h: Head, at: nat)
    requires Padded(y, n) && pos <= n + 8
    ensures Complete(n, SkipString(m, o, y, pos, h, at))
  {
    hide Padded, SkipChunks, Utf8.Valid;
    PaddedLength(y, n);
    if h.arg.None? { PaddedSkipChunks(m, y, n, pos, h.major); }
  }

  lemma {:induction false} PaddedSkipChunks(m: Mode, y: Buf, n: nat, pos: nat, major: nat)
    requires Padded(y, n) && pos <= Reach(n)
    ensures Complete(n, SkipChunks(m, y, pos, major))
    decreases |y| - pos
  {
    hide Padded, ReadHead, SkipChunks, Utf8.Valid;
    PaddedLength(y, n);
    NoBreakInPadding(y, n, pos);
    PaddedHead(m.det, y, n, pos);
    SkipChunksStep(m, y, pos, major);
    var h := ReadHead(m.det, y, pos);
    if h.Done? && h.value.arg.Some? {
      PaddedSkipChunks(m, y, n, h.end + h.value.arg.value, major);
    }
  }

  lemma {:induction false} PaddedSkipContainer(m: Mode, o: DecodeOptions, y: Buf, n: nat, pos: nat, depth: nat,
                                               arg: Option<U64>, isMap: bool, at: nat)
    requires Padded(y, n) && pos <= Reach(n)
    ensures pos <= |y| && Complete(n, SkipContainer(m, o, y, pos, depth, arg, isMap, at))
    decreases |y| - pos, 3
  {
    hide Padded, SkipMany, SkipToBreak;
    PaddedLength(y, n);
    match arg
    case Some(k) => PaddedSkipMany(m, o, y, n, pos, depth, isMap, if isMap then 2 * k else k, None);
    case None => PaddedSkipToBreak(m, o, y, n, pos, depth, isMap, 0, at);
  }

  lemma {:induction false} PaddedSkipMany(m: Mode, o: DecodeOptions, y: Buf, n: nat, pos: nat, depth: nat,
                                          isMap: bool, count: nat, previous: Option<Buf>)
    requires Padded(y, n) && pos <= Reach(n)
    ensures Complete(n, SkipMany(m, o, y, pos, depth, isMap, count, previous))
    decreases |y| - pos, 2
  {
    hide Padded, Skip, SkipMany, Less;
    PaddedLength(y, n);
    SkipManyStep(m, o, y, pos, depth, isMap, count, previous);
    if count > 0 {
      PaddedSkip(m, o, y, n, pos, depth);
      var s := Skip(m, o, y, pos, depth);
      if s.Done? {
        PaddedSkipMany(m, o, y, n, s.end, depth, isMap, count - 1,
                       if isMap && count % 2 == 0 && m.det then Some(y[pos..s.end]) else previous);
      }
    }
  }

  lemma {:induction false} PaddedSkipToBreak(m: Mode, o: DecodeOptions, y: Buf, n: nat, pos: nat, depth: nat,
                                             isMap: bool, items: nat, at: nat)
    requires Padded(y, n) && pos <= Reach(n)
    ensures Complete(n, SkipToBreak(m, o, y, pos, depth, isMap, items, at))
    decreases |y| - pos, 2
  {
    hide Padded, Skip, SkipToBreak;
    NoBreakInPadding(y, n, pos);
    SkipToBreakStep(m, o, y, pos, depth, isMap, items, at);
    PaddedSkip(m, o, y, n, pos, depth);
    var s := Skip(m, o, y, pos, depth);
    if s.Done? { PaddedSkipToBreak(m, o, y, n, s.end, depth, isMap, items + 1, at); }
  }

  // ----- what `Eof` means

  predicate IsEof<T>(r: Parse<T>) {
    r.Fail? && r.error.kind == Eof
  }

  /** Decoding fails with `Eof` exactly when some continuation of the input gives another outcome, one that is not `Eof`. */
  lemma EofIsCurable(o: DecodeOptions, x: Buf, pos: nat, depth: nat)
    requires pos <= |x|
    ensures IsEof(Decode(o, x, pos, depth)) <==> exists more: Buf :: Decode(o, x + more, pos, depth) != Decode(o, x, pos, depth)
    ensures exists more: Buf :: !IsEof(Decode(o, x + more, pos, depth))
  {
    hide Decode, Padding, Padded;
    PaddingPads(x);
    PaddedDecode(o, x + Padding(), |x|, pos, depth);
    assert !IsEof(Decode(o, x + Padding(), pos, depth));
    if !IsEof(Decode(o, x, pos, depth)) {
      forall more: Buf ensures Decode(o, x + more, pos, depth) == Decode(o, x, pos, depth) {
        Prefix.FinalDecode(o, x, x + more, pos, depth);
      }
    }
  }

  /** So do all three skippers. */
  lemma SkippedEofIsCurable(m: Mode, o: DecodeOptions, x: Buf, pos: nat, depth: nat)
    requires pos <= |x|
    ensures IsEof(Skip(m, o, x, pos, depth)) <==> exists more: Buf :: Skip(m, o, x + more, pos, depth) != Skip(m, o, x, pos, depth)
    ensures exists more: Buf :: !IsEof(Skip(m, o, x + more, pos, depth))
  {
    hide Skip, Padding, Padded;
    PaddingPads(x);
    PaddedSkip(m, o, x + Padding(), |x|, pos, depth);
    assert !IsEof(Skip(m, o, x + Padding(), pos, depth));
    if !IsEof(Skip(m, o, x, pos, depth)) {
      forall more: Buf ensures Skip(m, o, x + more, pos, depth) == Skip(m, o, x, pos, depth) {
        Prefix.FinalSkip(m, o, x, x + more, pos, depth);
      }
    }
  }

  // ----- readers

  /** A stream that ends with `Eof` would have ended otherwise had it gone on. */
  lemma StreamEofIsCurable(o: DecodeOptions, stream: Buf, offset: nat)
    requires offset <= |stream|
    ensures exists more: Buf ::
              var error := Readers.StreamItems(o, stream + more, offset).1;
              error == None || error.value.kind != Eof
  {
    hide Padding, Padded, Readers.StreamItems;
    PaddingPads(stream);
    PaddedStream(o, stream + Padding(), |stream|, offset);
    var error := Readers.StreamItems(o, stream + Padding(), offset).1;
    assert error == None || error.value.kind != Eof;
  }

  lemma {:induction false} PaddedStream(o: DecodeOptions, y: Buf, n: nat, offset: nat)
    requires Padded(y, n) && offset <= Reach(n)
    ensures var error := Readers.StreamItems(o, y, offset).1;
            error == None || error.value.kind != Eof
    decreases |y| - offset
  {
    hide Padded, Decode;
    PaddedLength(y, n);
    PaddedDecode(o, y, n, offset, 0);
    var d := Decode(o, y, offset, 0);
    if d.Done? { PaddedStream(o, y, n, d.end); }
  }
}
