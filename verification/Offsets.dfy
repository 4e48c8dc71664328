/** Decoding does not depend on where an item stands: positions and error offsets move with it. */
module Offsets {
  import opened Core
  import opened Heads
  import opened Values
  import opened Decoding
  import Utf8
  import Floats

  /** An outcome in a suffix, in the coordinates of the whole input. */
  function Shift<T>(base: nat, r: Parse<T>): Parse<T> {
    match r case Done(v, end) => Done(v, base + end) case Fail(e) => Fail(e.(offset := base + e.offset))
  }

  predicate IsSuffix(input: Buf, base: nat, s: Buf) {
    base <= |input| && s == input[base..]
  }

  lemma SuffixSlice(input: Buf, base: nat, s: Buf, a: nat, b: nat)
    requires IsSuffix(input, base, s) && a <= b <= |s|
    ensures input[base + a..base + b] == s[a..b]
  {
    forall i | 0 <= i < b - a ensures input[base + a..base + b][i] == s[a..b][i] {
    }
  }

  lemma ShiftHead(det: bool, input: Buf, base: nat, s: Buf, pos: nat)
    requires IsSuffix(input, base, s) && pos <= |s|
    ensures ReadHead(det, input, base + pos) == Shift(base, ReadHead(det, s, pos))
  {
    hide FromBE;
    if pos < |s| {
      assert input[base + pos] == s[pos];
      var w := ArgWidth(s[pos] % 32);
      if pos + 1 + w <= |s| { SuffixSlice(input, base, s, pos + 1, pos + 1 + w); }
    }
  }

  lemma {:induction false} ShiftDecode(o: DecodeOptions, input: Buf, base: nat, s: Buf, pos: nat, depth: nat)
    requires IsSuffix(input, base, s) && pos <= |s|
    ensures Decode(o, input, base + pos, depth) == Shift(base, Decode(o, s, pos, depth))
    decreases |s| - pos, 1
  {
    hide ReadHead, Decode, DecodeString, DecodeArray, DecodeMap;
    ShiftHead(o.Det(), input, base, s, pos);
    var h := ReadHead(o.Det(), s, pos);
    if depth > o.maxDepth || h.Fail? {
      DecodeRefused(o, s, pos, depth, h);
      DecodeRefused(o, input, base + pos, depth, Shift(base, h));
    } else if h.value.major <= 1 {
      ShiftInteger(o, input, base, s, pos, depth, h);
    } else if h.value.major <= 3 {
      ShiftString(o, input, base, s, h.end, h.value, pos);
      ShiftStringItem(o, input, base, s, pos, depth, h);
    } else if h.value.major == 4 {
      ShiftArray(o, input, base, s, h.end, depth, h.value.arg, pos);
      ShiftArrayItem(o, input, base, s, pos, depth, h);
    } else if h.value.major == 5 {
      ShiftMap(o, input, base, s, h.end, depth, h.value.arg, pos);
      ShiftMapItem(o, input, base, s, pos, depth, h);
    } else if h.value.major == 6 {
      ShiftDecode(o, input, base, s, h.end, depth + 1);
      ShiftTagItem(o, input, base, s, pos, depth, h);
    } else {
      ShiftSimpleItem(o, input, base, s, pos, depth, h);
    }
  }

  // ----- one item, given its head

  lemma ShiftInteger(o: DecodeOptions, input: Buf, base: nat, s: Buf, pos: nat, depth: nat, h: Parse<Head>)
    requires IsSuffix(input, base, s) && pos <= |s| && depth <= o.maxDepth
    requires h == ReadHead(o.Det(), s, pos) && h.Done? && ReadHead(o.Det(), input, base + pos) == Shift(base, h)
    requires h.value.major <= 1
    ensures Decode(o, input, base + pos, depth) == Shift(base, Decode(o, s, pos, depth))
  {
    hide ReadHead, Decode, DecodeString, DecodeArray, DecodeMap, DecodeSimple;
    DecodeItemStep(o, s, pos, depth, h);
    DecodeItemStep(o, input, base + pos, depth, Shift(base, h));
  }

  lemma ShiftStringItem(o: DecodeOptions, input: Buf, base: nat, s: Buf, pos: nat, depth: nat, h: Parse<Head>)
    requires IsSuffix(input, base, s) && pos <= |s| && depth <= o.maxDepth
    requires h == ReadHead(o.Det(), s, pos) && h.Done? && ReadHead(o.Det(), input, base + pos) == Shift(base, h)
    requires 2 <= h.value.major <= 3
    requires DecodeString(o, input, base + h.end, h.value, base + pos) == Shift(base, DecodeString(o, s, h.end, h.value, pos))
    ensures Decode(o, input, base + pos, depth) == Shift(base, Decode(o, s, pos, depth))
  {
    hide ReadHead, Decode, DecodeString, DecodeArray, DecodeMap, DecodeSimple;
    DecodeItemStep(o, s, pos, depth, h);
    DecodeItemStep(o, input, base + pos, depth, Shift(base, h));
  }

  lemma ShiftArrayItem(o: DecodeOptions, input: Buf, base: nat, s: Buf, pos: nat, depth: nat, h: Parse<Head>)
    requires IsSuffix(input, base, s) && pos <= |s| && depth <= o.maxDepth
    requires h == ReadHead(o.Det(), s, pos) && h.Done? && ReadHead(o.Det(), input, base + pos) == Shift(base, h)
    requires h.value.major == 4
    requires DecodeArray(o, input, base + h.end, depth, h.value.arg, base + pos)
             == Shift(base, DecodeArray(o, s, h.end, depth, h.value.arg, pos))
    ensures Decode(o, input, base + pos, depth) == Shift(base, Decode(o, s, pos, depth))
  {
    hide ReadHead, Decode, DecodeString, DecodeArray, DecodeMap, DecodeSimple;
    DecodeItemStep(o, s, pos, depth, h);
    DecodeItemStep(o, input, base + pos, depth, Shift(base, h));
  }

  lemma ShiftMapItem(o: DecodeOptions, input: Buf, base: nat, s: Buf, pos: nat, depth: nat, h: Parse<Head>)
    requires IsSuffix(input, base, s) && pos <= |s| && depth <= o.maxDepth
    requires h == ReadHead(o.Det(), s, pos) && h.Done? && ReadHead(o.Det(), input, base + pos) == Shift(base, h)
    requires h.value.major == 5
    requires DecodeMap(o, input, base + h.end, depth, h.value.arg, base + pos)
             == Shift(base, DecodeMap(o, s, h.end, depth, h.value.arg, pos))
    ensures Decode(o, input, base + pos, depth) == Shift(base, Decode(o, s, pos, depth))
  {
    hide ReadHead, Decode, DecodeString, DecodeArray, DecodeMap, DecodeSimple;
    DecodeItemStep(o, s, pos, depth, h);
    DecodeItemStep(o, input, base + pos, depth, Shift(base, h));
  }

  lemma ShiftTagItem(o: DecodeOptions, input: Buf, base: nat, s: Buf, pos: nat, depth: nat, h: Parse<Head>)
    requires IsSuffix(input, base, s) && pos <= |s| && depth <= o.maxDepth
    requires h == ReadHead(o.Det(), s, pos) && h.Done? && ReadHead(o.Det(), input, base + pos) == Shift(base, h)
    requires h.value.major == 6
    requires Decode(o, input, base + h.end, depth + 1) == Shift(base, Decode(o, s, h.end, depth + 1))
    ensures Decode(o, input, base + pos, depth) == Shift(base, Decode(o, s, pos, depth))
  {
    hide ReadHead, Decode, DecodeString, DecodeArray, DecodeMap, DecodeSimple;
    DecodeItemStep(o, s, pos, depth, h);
    DecodeItemStep(o, input, base + pos, depth, Shift(base, h));
  }

  lemma ShiftSimpleItem(o: DecodeOptions, input: Buf, base: nat, s: Buf, pos: nat, depth: nat, h: Parse<Head>)
    requires IsSuffix(input, base, s) && pos <= |s| && depth <= o.maxDepth
    requires h == ReadHead(o.Det(), s, pos) && h.Done? && ReadHead(o.Det(), input, base + pos) == Shift(base, h)
    requires h.value.major == 7
    ensures Decode(o, input, base + pos, depth) == Shift(base, Decode(o, s, pos, depth))
  {
    hide ReadHead, Decode, DecodeString, DecodeArray, DecodeMap, DecodeSimple;
    DecodeItemStep(o, s, pos, depth, h);
    DecodeItemStep(o, input, base + pos, depth, Shift(base, h));
    assert input[base + pos] == s[pos];
    ShiftSimple(s[pos] % 32, h.value.arg, base, h.end, pos);
  }

  lemma ShiftSimple(ai: nat, arg: Option<U64>, base: nat, end: nat, at: nat)
    requires arg.Some? ==> ArgumentFits(ai, arg.value)
    ensures DecodeSimple(ai, arg, base + end, base + at) == Shift(base, DecodeSimple(ai, arg, end, at))
  {
    hide Floats.HalfToDouble, Floats.SingleToDouble;
  }

  lemma ShiftString(o: DecodeOptions, input: Buf, base: nat, s: Buf, pos: nat, h: Head, at: nat)
    requires IsSuffix(input, base, s) && pos <= |s|
    ensures DecodeString(o, input, base + pos, h, base + at) == Shift(base, DecodeString(o, s, pos, h, at))
  {
    hide Utf8.Valid, DecodeChunks;
    match h.arg
    case Some(n) => if pos + n <= |s| { SuffixSlice(input, base, s, pos, pos + n); }
    case None => ShiftChunks(o, input, base, s, pos, h.major, 0);
  }

  lemma ShiftAfter<T>(base: nat, done: seq<T>, rest: Parse<seq<T>>)
    ensures Shift(base, After(done, rest)) == After(done, Shift(base, rest))
  {
  }

  lemma {:induction false} ShiftChunks(o: DecodeOptions, input: Buf, base: nat, s: Buf, pos: nat, major: nat, length: nat)
    requires IsSuffix(input, base, s) && pos <= |s|
    ensures DecodeChunks(o, input, base + pos, major, length) == Shift(base, DecodeChunks(o, s, pos, major, length))
    decreases |s| - pos
  {
    hide ReadHead, Utf8.Valid, DecodeChunks, After;
    DecodeChunksStep(o, input, base + pos, major, length);
    DecodeChunksStep(o, s, pos, major, length);
    ShiftHead(o.Det(), input, base, s, pos);
    var h := ReadHead(o.Det(), s, pos);
    if h.Done? && h.value.arg.Some? {
      var next := h.end + h.value.arg.value;
      if next <= |s| {
        SuffixSlice(input, base, s, h.end, next);
        ShiftChunks(o, input, base, s, next, major, length + h.value.arg.value);
        ShiftAfter(base, s[h.end..next], DecodeChunks(o, s, next, major, length + h.value.arg.value));
      }
    }
  }

  lemma {:induction false} ShiftArray(o: DecodeOptions, input: Buf, base: nat, s: Buf, pos: nat, depth: nat, arg: Option<U64>, at: nat)
    requires IsSuffix(input, base, s) && pos <= |s|
    ensures DecodeArray(o, input, base + pos, depth, arg, base + at) == Shift(base, DecodeArray(o, s, pos, depth, arg, at))
    decreases |s| - pos, 3
  {
    match arg
    case Some(n) => ShiftMany(o, input, base, s, pos, depth + 1, n);
    case None => ShiftToBreak(o, input, base, s, pos, depth + 1, 0, at);
  }

  lemma {:induction false} ShiftMap(o: DecodeOptions, input: Buf, base: nat, s: Buf, pos: nat, depth: nat, arg: Option<U64>, at: nat)
    requires IsSuffix(input, base, s) && pos <= |s|
    ensures DecodeMap(o, input, base + pos, depth, arg, base + at) == Shift(base, DecodeMap(o, s, pos, depth, arg, at))
    decreases |s| - pos, 3
  {
    match arg
    case Some(n) => ShiftEntries(o, input, base, s, pos, depth + 1, n);
    case None => ShiftEntriesToBreak(o, input, base, s, pos, depth + 1, 0, at);
  }

  lemma {:induction false} ShiftMany(o: DecodeOptions, input: Buf, base: nat, s: Buf, pos: nat, depth: nat, count: nat)
    requires IsSuffix(input, base, s) && pos <= |s|
    ensures DecodeMany(o, input, base + pos, depth, count) == Shift(base, DecodeMany(o, s, pos, depth, count))
    decreases |s| - pos, 2
  {
    hide Decode, DecodeMany;
    DecodeManyStep(o, input, base + pos, depth, count);
    DecodeManyStep(o, s, pos, depth, count);
    if count > 0 {
      ShiftDecode(o, input, base, s, pos, depth);
      var d := Decode(o, s, pos, depth);
      if d.Done? { ShiftMany(o, input, base, s, d.end, depth, count - 1); }
    }
  }

  lemma {:induction false} ShiftToBreak(o: DecodeOptions, input: Buf, base: nat, s: Buf, pos: nat, depth: nat, count: nat, at: nat)
    requires IsSuffix(input, base, s) && pos <= |s|
    ensures DecodeToBreak(o, input, base + pos, depth, count, base + at) == Shift(base, DecodeToBreak(o, s, pos, depth, count, at))
    decreases |s| - pos, 2
  {
    hide Decode, DecodeToBreak;
    DecodeToBreakStep(o, input, base + pos, depth, count, base + at);
    DecodeToBreakStep(o, s, pos, depth, count, at);
    if pos < |s| {
      assert input[base + pos] == s[pos];
      ShiftDecode(o, input, base, s, pos, depth);
      var d := Decode(o, s, pos, depth);
      if d.Done? { ShiftToBreak(o, input, base, s, d.end, depth, count + 1, at); }
    }
  }

  lemma {:induction false} ShiftEntries(o: DecodeOptions, input: Buf, base: nat, s: Buf, pos: nat, depth: nat, count: nat)
    requires IsSuffix(input, base, s) && pos <= |s|
    ensures DecodeEntries(o, input, base + pos, depth, count) == Shift(base, DecodeEntries(o, s, pos, depth, count))
    decreases |s| - pos, 2
  {
    hide Decode, DecodeEntries;
    DecodeEntriesStep(o, input, base + pos, depth, count);
    DecodeEntriesStep(o, s, pos, depth, count);
    if count > 0 {
      ShiftDecode(o, input, base, s, pos, depth);
      var k := Decode(o, s, pos, depth);
      if k.Done? {
        ShiftDecode(o, input, base, s, k.end, depth);
        var v := Decode(o, s, k.end, depth);
        if v.Done? { ShiftEntries(o, input, base, s, v.end, depth, count - 1); }
      }
    }
  }

  lemma {:induction false} ShiftEntriesToBreak(o: DecodeOptions, input: Buf, base: nat, s: Buf, pos: nat, depth: nat, count: nat, at: nat)
    requires IsSuffix(input, base, s) && pos <= |s|
    ensures DecodeEntriesToBreak(o, input, base + pos, depth, count, base + at)
            == Shift(base, DecodeEntriesToBreak(o, s, pos, depth, count, at))
    decreases |s| - pos, 2
  {
    hide Decode, DecodeEntriesToBreak;
    DecodeEntriesToBreakStep(o, input, base + pos, depth, count, base + at);
    DecodeEntriesToBreakStep(o, s, pos, depth, count, at);
    if pos < |s| {
      assert input[base + pos] == s[pos];
      ShiftDecode(o, input, base, s, pos, depth);
      var k := Decode(o, s, pos, depth);
      if k.Done? && k.end < |s| {
        assert input[base + k.end] == s[k.end];
        ShiftDecode(o, input, base, s, k.end, depth);
        var v := Decode(o, s, k.end, depth);
        if v.Done? { ShiftEntriesToBreak(o, input, base, s, v.end, depth, count + 1, at); }
      }
    }
  }

  /** Decoding the rest of a stream on its own is decoding the stream at that offset, errors included. */
  lemma DecodeRest(o: DecodeOptions, input: Buf, offset: nat, depth: nat)
    requires offset <= |input|
    ensures Decode(o, input, offset, depth) == Shift(offset, Decode(o, input[offset..], 0, depth))
  {
    hide Decode;
    ShiftDecode(o, input, offset, input[offset..], 0, depth);
  }
}
