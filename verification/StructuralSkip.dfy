/** Structural skipping leaves text alone: it is basic skipping of the input with every offending text made ASCII. */
module StructuralSkip {
  import opened Core
  import opened Heads
  import opened Skipping
  import Agreement
  import Failures
  import Floats
  import Utf8

  // ----- skipping looks at nothing but what it skips

  predicate SameBytes(x: Buf, y: Buf, lo: nat, hi: nat) {
    |x| == |y| && lo <= hi <= |x| && x[lo..hi] == y[lo..hi]
  }

  lemma SameBytesFrom(x: Buf, y: Buf, lo: nat, hi: nat, a: nat, b: nat)
    requires SameBytes(x, y, lo, hi) && lo <= a <= b <= hi
    ensures SameBytes(x, y, a, b) && (a < b ==> x[a] == y[a])
  {
    SliceOfSlice(x, lo, hi, a - lo, b - lo);
    SliceOfSlice(y, lo, hi, a - lo, b - lo);
    if a < b { assert x[a..b][0] == y[a..b][0]; }
  }

  /** Two outcomes agree unless the first depends on bytes from `hi` on. */
  predicate Local<T(==)>(s: Parse<T>, t: Parse<T>, hi: nat, length: nat) {
    s == t || (s.Done? && s.end > hi) || (s.Fail? && hi < length)
  }

  lemma LocalHead(det: bool, x: Buf, y: Buf, pos: nat, hi: nat)
    requires SameBytes(x, y, pos, hi)
    ensures Local(ReadHead(det, x, pos), ReadHead(det, y, pos), hi, |x|)
    ensures pos < hi ==> x[pos] == y[pos]
  {
    hide FromBE;
    if pos < hi {
      SameBytesFrom(x, y, pos, hi, pos, hi);
      var end := HeadEnd(x, pos);
      if end <= hi { SameBytesFrom(x, y, pos, hi, pos + 1, end); }
    }
  }

  lemma {:induction false} LocalSkip(m: Mode, o: DecodeOptions, x: Buf, y: Buf, pos: nat, hi: nat, depth: nat)
    requires SameBytes(x, y, pos, hi)
    ensures Local(Skip(m, o, x, pos, depth), Skip(m, o, y, pos, depth), hi, |x|)
    decreases |x| - pos, 1
  {
    hide SameBytes, ReadHead, Skip, SkipString, SkipContainer, SkipSimple;
    LocalHead(m.det, x, y, pos, hi);
    Lengths(x, y, pos, hi);
    var h := ReadHead(m.det, x, pos);
    SkipRefused(m, o, x, pos, depth, h);
    SkipRefused(m, o, y, pos, depth, ReadHead(m.det, y, pos));
    if depth <= o.maxDepth && h.Done? {
      SkipItemStep(m, o, x, pos, depth, h);
      if h.end <= hi {
        SkipItemStep(m, o, y, pos, depth, h);
        SameBytesFrom(x, y, pos, hi, h.end, hi);
        if 2 <= h.value.major <= 3 {
          LocalString(m, o, x, y, h.end, hi, h.value, pos);
        } else if 4 <= h.value.major <= 5 {
          LocalContainer(m, o, x, y, h.end, hi, depth + 1, h.value.arg, h.value.major == 5, pos);
        } else if h.value.major == 6 {
          LocalSkip(m, o, x, y, h.end, hi, depth + 1);
        }
      }
    }
  }

  lemma Lengths(x: Buf, y: Buf, lo: nat, hi: nat)
    requires SameBytes(x, y, lo, hi)
    ensures |x| == |y| && lo <= hi <= |x|
  {
  }

  lemma LocalString(m: Mode, o: DecodeOptions, x: Buf, y: Buf, pos: nat, hi: nat, h: Head, at: nat)
    requires SameBytes(x, y, pos, hi)
    ensures Local(SkipString(m, o, x, pos, h, at), SkipString(m, o, y, pos, h, at), hi, |x|)
  {
    hide SkipChunks, Utf8.Valid;
    match h.arg
    case Some(n) => if pos + n <= hi { SameBytesFrom(x, y, pos, hi, pos, pos + n); }
    case None => LocalChunks(m, x, y, pos, hi, h.major);
  }

  lemma {:induction false} LocalChunks(m: Mode, x: Buf, y: Buf, pos: nat, hi: nat, major: nat)
    requires SameBytes(x, y, pos, hi)
    ensures Local(SkipChunks(m, x, pos, major), SkipChunks(m, y, pos, major), hi, |x|)
    decreases |x| - pos
  {
    hide SameBytes, ReadHead, SkipChunks, Utf8.Valid;
    LocalHead(m.det, x, y, pos, hi);
    Lengths(x, y, pos, hi);
    SkipChunksStep(m, x, pos, major);
    SkipChunksStep(m, y, pos, major);
    var h := ReadHead(m.det, x, pos);
    if h.Done? && h.value.arg.Some? {
      var next := h.end + h.value.arg.value;
      if next <= hi {
        SameBytesFrom(x, y, pos, hi, h.end, next);
        SliceIsSame(x, y, h.end, next);
        SameBytesFrom(x, y, pos, hi, next, hi);
        LocalChunks(m, x, y, next, hi, major);
      }
    }
  }

  lemma SliceIsSame(x: Buf, y: Buf, lo: nat, hi: nat)
    requires SameBytes(x, y, lo, hi)
    ensures |x| == |y| && lo <= hi <= |x| && x[lo..hi] == y[lo..hi]
  {
  }

  lemma {:induction false} LocalContainer(m: Mode, o: DecodeOptions, x: Buf, y: Buf, pos: nat, hi: nat, depth: nat,
                                          arg: Option<U64>, isMap: bool, at: nat)
    requires SameBytes(x, y, pos, hi)
    ensures Local(SkipContainer(m, o, x, pos, depth, arg, isMap, at), SkipContainer(m, o, y, pos, depth, arg, isMap, at), hi, |x|)
    decreases |x| - pos, 3
  {
    hide SameBytes, SkipMany, SkipToBreak;
    Lengths(x, y, pos, hi);
    match arg
    case Some(n) => LocalMany(m, o, x, y, pos, hi, depth, isMap, if isMap then 2 * n else n, None);
    case None => LocalToBreak(m, o, x, y, pos, hi, depth, isMap, 0, at);
  }

  lemma {:induction false} LocalMany(m: Mode, o: DecodeOptions, x: Buf, y: Buf, pos: nat, hi: nat, depth: nat,
                                     isMap: bool, count: nat, previous: Option<Buf>)
    requires SameBytes(x, y, pos, hi)
    ensures Local(SkipMany(m, o, x, pos, depth, isMap, count, previous), SkipMany(m, o, y, pos, depth, isMap, count, previous), hi, |x|)
    decreases |x| - pos, 2
  {
    hide SameBytes, Skip, SkipMany, Less;
    Lengths(x, y, pos, hi);
    SkipManyStep(m, o, x, pos, depth, isMap, count, previous);
    SkipManyStep(m, o, y, pos, depth, isMap, count, previous);
    if count > 0 {
      LocalSkip(m, o, x, y, pos, hi, depth);
      var s := Skip(m, o, x, pos, depth);
      if s.Done? && s.end <= hi {
        SameBytesFrom(x, y, pos, hi, pos, s.end);
        SliceIsSame(x, y, pos, s.end);
        SameBytesFrom(x, y, pos, hi, s.end, hi);
        LocalMany(m, o, x, y, s.end, hi, depth, isMap, count - 1,
                  if isMap && count % 2 == 0 && m.det then Some(x[pos..s.end]) else previous);
      }
    }
  }

  lemma {:induction false} LocalToBreak(m: Mode, o: DecodeOptions, x: Buf, y: Buf, pos: nat, hi: nat, depth: nat,
                                        isMap: bool, items: nat, at: nat)
    requires SameBytes(x, y, pos, hi)
    ensures Local(SkipToBreak(m, o, x, pos, depth, isMap, items, at), SkipToBreak(m, o, y, pos, depth, isMap, items, at), hi, |x|)
    decreases |x| - pos, 2
  {
    hide SameBytes, Skip, SkipToBreak;
    Lengths(x, y, pos, hi);
    if pos < hi { SameBytesFrom(x, y, pos, hi, pos, hi); }
    SkipToBreakStep(m, o, x, pos, depth, isMap, items, at);
    SkipToBreakStep(m, o, y, pos, depth, isMap, items, at);
    LocalSkip(m, o, x, y, pos, hi, depth);
    var s := Skip(m, o, x, pos, depth);
    if s.Done? && s.end <= hi {
      SameBytesFrom(x, y, pos, hi, s.end, hi);
      LocalToBreak(m, o, x, y, s.end, hi, depth, isMap, items + 1, at);
    }
  }

  // ----- text that is not UTF-8

  /** At `a` stands the head of a text whose content goes from `lo` to `hi`. */
  predicate TextHead(x: Buf, a: nat, lo: nat, hi: nat) {
    a < lo <= hi <= |x| &&
    var h := ReadHead(false, x, a);
    h.Done? && h.end == lo && h.value.major == 3 && h.value.arg.Some? && h.value.arg.value == hi - lo
  }

  /** At `a` stands a definite text whose content, from `lo` to `hi`, is not UTF-8. */
  predicate BadTextAt(x: Buf, a: nat, lo: nat, hi: nat) {
    TextHead(x, a, lo, hi) && !Utf8.Valid(x[lo..hi])
  }

  predicate BlamesText<T>(r: Parse<T>) {
    r.Fail? && r.error.kind == InvalidUtf8
  }

  /** Where the text stands that basic skipping blames. */
  lemma {:induction false} BlamedText(o: DecodeOptions, x: Buf, pos: nat, depth: nat) returns (lo: nat, hi: nat)
    requires pos <= |x| && BlamesText(Skip(BASIC, o, x, pos, depth))
    ensures BadTextAt(x, Skip(BASIC, o, x, pos, depth).error.offset, lo, hi)
    decreases |x| - pos, 1
  {
    hide ReadHead, Skip, SkipString, SkipContainer, Floats.NonPreferred, BadTextAt;
    var h := ReadHead(false, x, pos);
    Failures.HeadIsNoText(false, x, pos);
    SkipRefused(BASIC, o, x, pos, depth, h);
    SkipItemStep(BASIC, o, x, pos, depth, h);
    lo, hi := 0, 0;
    if 2 <= h.value.major <= 3 {
      lo, hi := BlamedString(o, x, pos, h.end, h.value);
    } else if 4 <= h.value.major <= 5 {
      lo, hi := BlamedInContainer(o, x, h.end, depth + 1, h.value.arg, h.value.major == 5, pos);
    } else if h.value.major == 6 {
      lo, hi := BlamedText(o, x, h.end, depth + 1);
    }
  }

  lemma BlamedString(o: DecodeOptions, x: Buf, at: nat, pos: nat, h: Head) returns (lo: nat, hi: nat)
    requires at < pos <= |x| && ReadHead(false, x, at) == Done(h, pos) && 2 <= h.major <= 3
    requires BlamesText(SkipString(BASIC, o, x, pos, h, at))
    ensures BadTextAt(x, SkipString(BASIC, o, x, pos, h, at).error.offset, lo, hi)
  {
    hide ReadHead, SkipChunks, Utf8.Valid;
    if h.arg.None? {
      lo, hi := BlamedChunk(x, pos, h.major);
    } else {
      lo, hi := pos, pos + h.arg.value;
    }
  }

  lemma {:induction false} BlamedChunk(x: Buf, pos: nat, major: nat) returns (lo: nat, hi: nat)
    requires pos <= |x| && BlamesText(SkipChunks(BASIC, x, pos, major))
    ensures BadTextAt(x, SkipChunks(BASIC, x, pos, major).error.offset, lo, hi)
    decreases |x| - pos
  {
    hide ReadHead, SkipChunks, Utf8.Valid;
    SkipChunksStep(BASIC, x, pos, major);
    Failures.HeadIsNoText(false, x, pos);
    var h := ReadHead(false, x, pos);
    lo, hi := h.end, h.end + h.value.arg.value;
    if !BadText(BASIC, major, x[lo..hi]) {
      lo, hi := BlamedChunk(x, hi, major);
    }
  }

  lemma {:induction false} BlamedInContainer(o: DecodeOptions, x: Buf, pos: nat, depth: nat, arg: Option<U64>, isMap: bool, at: nat)
    returns (lo: nat, hi: nat)
    requires pos <= |x| && BlamesText(SkipContainer(BASIC, o, x, pos, depth, arg, isMap, at))
    ensures BadTextAt(x, SkipContainer(BASIC, o, x, pos, depth, arg, isMap, at).error.offset, lo, hi)
    decreases |x| - pos, 3
  {
    hide SkipMany, SkipToBreak, BadTextAt;
    match arg
    case Some(n) => lo, hi := BlamedInMany(o, x, pos, depth, isMap, if isMap then 2 * n else n);
    case None => lo, hi := BlamedInToBreak(o, x, pos, depth, isMap, 0, at);
  }

  lemma {:induction false} BlamedInMany(o: DecodeOptions, x: Buf, pos: nat, depth: nat, isMap: bool, count: nat)
    returns (lo: nat, hi: nat)
    requires pos <= |x| && BlamesText(SkipMany(BASIC, o, x, pos, depth, isMap, count, None))
    ensures BadTextAt(x, SkipMany(BASIC, o, x, pos, depth, isMap, count, None).error.offset, lo, hi)
    decreases |x| - pos, 2
  {
    hide Skip, SkipMany, Less, BadTextAt;
    SkipManyStep(BASIC, o, x, pos, depth, isMap, count, None);
    var s := Skip(BASIC, o, x, pos, depth);
    if s.Fail? { lo, hi := BlamedText(o, x, pos, depth); } else { lo, hi := BlamedInMany(o, x, s.end, depth, isMap, count - 1); }
  }

  lemma {:induction false} BlamedInToBreak(o: DecodeOptions, x: Buf, pos: nat, depth: nat, isMap: bool, items: nat, at: nat)
    returns (lo: nat, hi: nat)
    requires pos <= |x| && BlamesText(SkipToBreak(BASIC, o, x, pos, depth, isMap, items, at))
    ensures BadTextAt(x, SkipToBreak(BASIC, o, x, pos, depth, isMap, items, at).error.offset, lo, hi)
    decreases |x| - pos, 2
  {
    hide Skip, SkipToBreak, BadTextAt;
    SkipToBreakStep(BASIC, o, x, pos, depth, isMap, items, at);
    var s := Skip(BASIC, o, x, pos, depth);
    if s.Fail? { lo, hi := BlamedText(o, x, pos, depth); } else { lo, hi := BlamedInToBreak(o, x, s.end, depth, isMap, items + 1, at); }
  }

  // ----- replacing the content of a text

  /** `x` and `y` differ at most in the content, from `lo` to `hi`, of a text that stands at `a` and is not UTF-8 in `x`. */
  predicate Repairs(x: Buf, y: Buf, a: nat, lo: nat, hi: nat) {
    BadTextAt(x, a, lo, hi) && SameBytes(x, y, 0, lo) && SameBytes(x, y, hi, |x|)
  }

  /** Structural skipping does not notice, and is past the text when it is done. */
  predicate Unnoticed<T(==)>(s: Parse<T>, t: Parse<T>, hi: nat) {
    s == t && (s.Done? ==> hi <= s.end)
  }

  lemma SamePrefix(x: Buf, y: Buf, a: nat, lo: nat, hi: nat, from: nat, to: nat)
    requires Repairs(x, y, a, lo, hi) && from <= to <= lo
    ensures SameBytes(x, y, from, to) && to <= |x|
  {
    hide ReadHead, Utf8.Valid;
    SameBytesFrom(x, y, 0, lo, from, to);
  }

  lemma SameSuffix(x: Buf, y: Buf, a: nat, lo: nat, hi: nat, from: nat)
    requires Repairs(x, y, a, lo, hi) && hi <= from <= |x|
    ensures SameBytes(x, y, from, |x|)
  {
    hide ReadHead, Utf8.Valid;
    SameBytesFrom(x, y, hi, |x|, from, |x|);
  }

  /** A head that ends before the content is the same in both. */
  lemma SameHead(x: Buf, y: Buf, a: nat, lo: nat, hi: nat, pos: nat)
    requires Repairs(x, y, a, lo, hi) && pos <= a && ReadHead(false, x, pos).Done? && ReadHead(false, x, pos).end <= lo
    ensures |x| == |y| && ReadHead(false, y, pos) == ReadHead(false, x, pos) && x[pos] == y[pos]
    ensures hi <= |x| && (pos == a ==> TextHead(x, pos, lo, hi))
  {
    hide ReadHead, Utf8.Valid;
    SamePrefix(x, y, a, lo, hi, pos, lo);
    LocalHead(false, x, y, pos, lo);
  }

  lemma {:induction false} TextIsLeftAlone(o: DecodeOptions, x: Buf, y: Buf, lo: nat, hi: nat, pos: nat, depth: nat)
    requires pos <= |x| && BlamesText(Skip(BASIC, o, x, pos, depth))
    requires Repairs(x, y, Skip(BASIC, o, x, pos, depth).error.offset, lo, hi)
    ensures |x| == |y| && Unnoticed(Skip(STRUCTURAL, o, x, pos, depth), Skip(STRUCTURAL, o, y, pos, depth), hi)
    decreases |x| - pos, 1
  {
    hide ReadHead, Skip, SkipString, SkipContainer, Floats.NonPreferred, Repairs;
    var h := ReadHead(false, x, pos);
    var a := Skip(BASIC, o, x, pos, depth).error.offset;
    Failures.HeadIsNoText(false, x, pos);
    Failures.SkipFailure(BASIC, o, x, pos, depth);
    SkipRefused(BASIC, o, x, pos, depth, h);
    SkipItemStep(BASIC, o, x, pos, depth, h);
    SkipItemStep(STRUCTURAL, o, x, pos, depth, h);
    HeadBeforeContent(x, y, a, lo, hi);
    if 2 <= h.value.major <= 3 {
      Failures.SkipStringFailure(BASIC, o, x, h.end, h.value, pos);
      if h.value.arg.Some? { StringBlame(o, x, h.end, h.value, pos); }
      SameHead(x, y, a, lo, hi, pos);
      SkipItemStep(STRUCTURAL, o, y, pos, depth, h);
      StringIsLeftAlone(o, x, y, lo, hi, h.end, h.value, pos);
    } else if 4 <= h.value.major <= 5 {
      Failures.SkipContainerFailure(BASIC, o, x, h.end, depth + 1, h.value.arg, h.value.major == 5, pos);
      SameHead(x, y, a, lo, hi, pos);
      SkipItemStep(STRUCTURAL, o, y, pos, depth, h);
      ContainerIsLeftAlone(o, x, y, lo, hi, h.end, depth + 1, h.value.arg, h.value.major == 5, pos);
    } else if h.value.major == 6 {
      Failures.SkipFailure(BASIC, o, x, h.end, depth + 1);
      SameHead(x, y, a, lo, hi, pos);
      SkipItemStep(STRUCTURAL, o, y, pos, depth, h);
      TextIsLeftAlone(o, x, y, lo, hi, h.end, depth + 1);
    }
  }

  lemma HeadBeforeContent(x: Buf, y: Buf, a: nat, lo: nat, hi: nat)
    requires Repairs(x, y, a, lo, hi)
    ensures |x| == |y| && TextHead(x, a, lo, hi)
  {
  }

  lemma StringBlame(o: DecodeOptions, x: Buf, pos: nat, h: Head, at: nat)
    requires pos <= |x| && BlamesText(SkipString(BASIC, o, x, pos, h, at)) && h.arg.Some?
    ensures SkipString(BASIC, o, x, pos, h, at).error.offset == at
  {
  }

  lemma StringIsLeftAlone(o: DecodeOptions, x: Buf, y: Buf, lo: nat, hi: nat, pos: nat, h: Head, at: nat)
    requires at < pos <= |x| && ReadHead(false, x, at) == Done(h, pos) && 2 <= h.major <= 3
    requires BlamesText(SkipString(BASIC, o, x, pos, h, at)) && Repairs(x, y, SkipString(BASIC, o, x, pos, h, at).error.offset, lo, hi)
    ensures |x| == |y| && Unnoticed(SkipString(STRUCTURAL, o, x, pos, h, at), SkipString(STRUCTURAL, o, y, pos, h, at), hi)
  {
    hide ReadHead, SkipChunks, Utf8.Valid;
    if h.arg.None? { ChunksAreLeftAlone(x, y, lo, hi, pos, h.major); }
  }

  lemma {:induction false} ChunksAreLeftAlone(x: Buf, y: Buf, lo: nat, hi: nat, pos: nat, major: nat)
    requires pos <= |x| && 2 <= major <= 3 && BlamesText(SkipChunks(BASIC, x, pos, major))
    requires Repairs(x, y, SkipChunks(BASIC, x, pos, major).error.offset, lo, hi)
    ensures |x| == |y| && Unnoticed(SkipChunks(STRUCTURAL, x, pos, major), SkipChunks(STRUCTURAL, y, pos, major), hi)
    decreases |x| - pos
  {
    hide ReadHead, SkipChunks, Utf8.Valid, Repairs;
    SkipChunksStep(BASIC, x, pos, major);
    SkipChunksStep(STRUCTURAL, x, pos, major);
    Failures.HeadIsNoText(false, x, pos);
    var a := SkipChunks(BASIC, x, pos, major).error.offset;
    var h := ReadHead(false, x, pos);
    var next := h.end + h.value.arg.value;
    HeadBeforeContent(x, y, a, lo, hi);
    if BadText(BASIC, major, x[h.end..next]) {
      SameHead(x, y, a, lo, hi, pos);
      SkipChunksStep(STRUCTURAL, y, pos, major);
      SameSuffix(x, y, a, lo, hi, hi);
      LocalChunks(STRUCTURAL, x, y, hi, |x|, major);
    } else {
      Failures.SkipChunksFailure(BASIC, x, next, major);
      SameHead(x, y, a, lo, hi, pos);
      SkipChunksStep(STRUCTURAL, y, pos, major);
      ChunksAreLeftAlone(x, y, lo, hi, next, major);
    }
  }

  lemma {:induction false} ContainerIsLeftAlone(o: DecodeOptions, x: Buf, y: Buf, lo: nat, hi: nat, pos: nat, depth: nat,
                                                arg: Option<U64>, isMap: bool, at: nat)
    requires at < pos <= |x| && 4 <= x[at] / 32 <= 5 && BlamesText(SkipContainer(BASIC, o, x, pos, depth, arg, isMap, at))
    requires Repairs(x, y, SkipContainer(BASIC, o, x, pos, depth, arg, isMap, at).error.offset, lo, hi)
    ensures |x| == |y|
    ensures Unnoticed(SkipContainer(STRUCTURAL, o, x, pos, depth, arg, isMap, at), SkipContainer(STRUCTURAL, o, y, pos, depth, arg, isMap, at), hi)
    decreases |x| - pos, 4
  {
    hide SkipMany, SkipToBreak, Repairs;
    match arg
    case Some(n) => ManyAreLeftAlone(o, x, y, lo, hi, pos, depth, isMap, if isMap then 2 * n else n);
    case None => LeftAloneToBreak(o, x, y, lo, hi, pos, depth, isMap, 0, at);
  }

  /** One of several items, where no key is compared with the one before it. */
  lemma PlainManyStep(m: Mode, o: DecodeOptions, input: Buf, pos: nat, depth: nat, isMap: bool, count: nat)
    requires pos <= |input| && !m.det
    ensures var all := SkipMany(m, o, input, pos, depth, isMap, count, None);
            var s := Skip(m, o, input, pos, depth);
            if count == 0 then all == Done(0, pos)
            else if s.Fail? then all == Fail(s.error)
            else all == AddVisits(s.value, SkipMany(m, o, input, s.end, depth, isMap, count - 1, None))
  {
    hide Skip, SkipMany, Less;
    SkipManyStep(m, o, input, pos, depth, isMap, count, None);
  }

  lemma {:induction false} ManyAreLeftAlone(o: DecodeOptions, x: Buf, y: Buf, lo: nat, hi: nat, pos: nat, depth: nat, isMap: bool, count: nat)
    requires pos <= |x| && BlamesText(SkipMany(BASIC, o, x, pos, depth, isMap, count, None))
    requires Repairs(x, y, SkipMany(BASIC, o, x, pos, depth, isMap, count, None).error.offset, lo, hi)
    ensures |x| == |y|
    ensures Unnoticed(SkipMany(STRUCTURAL, o, x, pos, depth, isMap, count, None), SkipMany(STRUCTURAL, o, y, pos, depth, isMap, count, None), hi)
    decreases |x| - pos, 3
  {
    hide Skip, SkipMany, Less, Repairs;
    var a := SkipMany(BASIC, o, x, pos, depth, isMap, count, None).error.offset;
    HeadBeforeContent(x, y, a, lo, hi);
    PlainManyStep(BASIC, o, x, pos, depth, isMap, count);
    var s := Skip(BASIC, o, x, pos, depth);
    if s.Fail? {
      FirstIsLeftAlone(o, x, y, lo, hi, pos, depth, isMap, count);
    } else {
      PlainManyStep(STRUCTURAL, o, x, pos, depth, isMap, count);
      PlainManyStep(STRUCTURAL, o, y, pos, depth, isMap, count);
      Failures.SkipManyFailure(BASIC, o, x, s.end, depth, isMap, count - 1, None);
      ItemBeforeText(o, x, y, a, lo, hi, pos, depth);
      ManyAreLeftAlone(o, x, y, lo, hi, s.end, depth, isMap, count - 1);
    }
  }

  /** The blamed text is in the first of several items. */
  lemma {:induction false} FirstIsLeftAlone(o: DecodeOptions, x: Buf, y: Buf, lo: nat, hi: nat, pos: nat, depth: nat, isMap: bool, count: nat)
    requires pos <= |x| == |y| && count > 0 && BlamesText(Skip(BASIC, o, x, pos, depth))
    requires Repairs(x, y, Skip(BASIC, o, x, pos, depth).error.offset, lo, hi)
    ensures Unnoticed(SkipMany(STRUCTURAL, o, x, pos, depth, isMap, count, None), SkipMany(STRUCTURAL, o, y, pos, depth, isMap, count, None), hi)
    decreases |x| - pos, 2
  {
    hide Skip, SkipMany, Less, Repairs;
    PlainManyStep(STRUCTURAL, o, x, pos, depth, isMap, count);
    PlainManyStep(STRUCTURAL, o, y, pos, depth, isMap, count);
    TextIsLeftAlone(o, x, y, lo, hi, pos, depth);
    var t := Skip(STRUCTURAL, o, x, pos, depth);
    if t.Done? {
      SameSuffix(x, y, Skip(BASIC, o, x, pos, depth).error.offset, lo, hi, t.end);
      LocalMany(STRUCTURAL, o, x, y, t.end, |x|, depth, isMap, count - 1, None);
    }
  }

  /** An item before the blamed text is skipped alike. */
  lemma ItemBeforeText(o: DecodeOptions, x: Buf, y: Buf, a: nat, lo: nat, hi: nat, pos: nat, depth: nat)
    requires Repairs(x, y, a, lo, hi) && pos <= |x| == |y| && Skip(BASIC, o, x, pos, depth).Done? && Skip(BASIC, o, x, pos, depth).end <= lo
    ensures Skip(STRUCTURAL, o, x, pos, depth) == Skip(BASIC, o, x, pos, depth) == Skip(STRUCTURAL, o, y, pos, depth)
  {
    hide Skip, Repairs;
    var end := Skip(BASIC, o, x, pos, depth).end;
    SamePrefix(x, y, a, lo, hi, pos, end);
    LocalSkip(STRUCTURAL, o, x, y, pos, end, depth);
    Agreement.BasicRefinesStructural(o, x, pos, depth);
  }

  lemma {:induction false} LeftAloneToBreak(o: DecodeOptions, x: Buf, y: Buf, lo: nat, hi: nat, pos: nat, depth: nat,
                                            isMap: bool, items: nat, at: nat)
    requires at < pos <= |x| && 4 <= x[at] / 32 <= 5 && BlamesText(SkipToBreak(BASIC, o, x, pos, depth, isMap, items, at))
    requires Repairs(x, y, SkipToBreak(BASIC, o, x, pos, depth, isMap, items, at).error.offset, lo, hi)
    ensures |x| == |y|
    ensures Unnoticed(SkipToBreak(STRUCTURAL, o, x, pos, depth, isMap, items, at), SkipToBreak(STRUCTURAL, o, y, pos, depth, isMap, items, at), hi)
    decreases |x| - pos, 2
  {
    hide Skip, SkipToBreak, Repairs;
    var a := SkipToBreak(BASIC, o, x, pos, depth, isMap, items, at).error.offset;
    HeadBeforeContent(x, y, a, lo, hi);
    SkipToBreakStep(BASIC, o, x, pos, depth, isMap, items, at);
    SkipToBreakStep(STRUCTURAL, o, x, pos, depth, isMap, items, at);
    SkipToBreakStep(STRUCTURAL, o, y, pos, depth, isMap, items, at);
    var s := Skip(BASIC, o, x, pos, depth);
    if s.Fail? {
      Failures.SkipFailure(BASIC, o, x, pos, depth);
      SamePrefix(x, y, a, lo, hi, pos, lo);
      SameBytesFrom(x, y, pos, lo, pos, lo);
      TextIsLeftAlone(o, x, y, lo, hi, pos, depth);
      var t := Skip(STRUCTURAL, o, x, pos, depth);
      if t.Done? {
        SameSuffix(x, y, a, lo, hi, t.end);
        LocalToBreak(STRUCTURAL, o, x, y, t.end, |x|, depth, isMap, items + 1, at);
      }
    } else {
      Failures.SkipToBreakFailure(BASIC, o, x, s.end, depth, isMap, items + 1, at);
      SamePrefix(x, y, a, lo, hi, pos, lo);
      SameBytesFrom(x, y, pos, lo, pos, lo);
      ItemBeforeText(o, x, y, a, lo, hi, pos, depth);
      LeftAloneToBreak(o, x, y, lo, hi, s.end, depth, isMap, items + 1, at);
    }
  }

  // ----- the theorem

  function NonAscii(x: Buf): nat {
    if x == [] then 0 else (if x[0] >= 0x80 then 1 else 0) + NonAscii(x[1..])
  }

  lemma {:induction false} NonAsciiConcat(a: Buf, b: Buf)
    ensures NonAscii(a + b) == NonAscii(a) + NonAscii(b)
  {
    if a == [] {
      assert a + b == b;
    } else {
      assert (a + b)[1..] == a[1..] + b;
      NonAsciiConcat(a[1..], b);
    }
  }

  lemma {:induction false} NonAsciiZero(a: Buf)
    ensures NonAscii(a) == 0 <==> forall i :: 0 <= i < |a| ==> a[i] < 0x80
  {
    if a != [] {
      NonAsciiZero(a[1..]);
      if NonAscii(a) == 0 {
        forall i | 0 <= i < |a| ensures a[i] < 0x80 { if i > 0 { assert a[i] == a[1..][i - 1]; } }
      }
    }
  }

  function Ascii(n: nat): (s: Buf)
    ensures |s| == n && NonAscii(s) == 0
  {
    var s: Buf := seq(n, _ => 0x61);
    NonAsciiZero(s);
    s
  }

  function Replaced(x: Buf, lo: nat, hi: nat): (y: Buf)
    requires lo <= hi <= |x|
    ensures |y| == |x|
  {
    x[..lo] + Ascii(hi - lo) + x[hi..]
  }

  lemma ReplacedRepairs(x: Buf, a: nat, lo: nat, hi: nat)
    requires BadTextAt(x, a, lo, hi)
    ensures Repairs(x, Replaced(x, lo, hi), a, lo, hi) && NonAscii(Replaced(x, lo, hi)) < NonAscii(x)
  {
    hide ReadHead, Utf8.Valid, NonAscii;
    var s := x[lo..hi];
    assert x == x[..lo] + s + x[hi..];
    NonAsciiConcat(x[..lo] + s, x[hi..]);
    NonAsciiConcat(x[..lo], s);
    NonAsciiConcat(x[..lo] + Ascii(hi - lo), x[hi..]);
    NonAsciiConcat(x[..lo], Ascii(hi - lo));
    NonAsciiZero(s);
    if NonAscii(s) == 0 { Utf8.AsciiIsValid(s); }
  }

  /** Where the content of the text that stands at `a` begins and ends. */
  function ContentAt(x: Buf, a: nat): (c: (nat, nat))
    requires a <= |x| && ReadHead(false, x, a).Done? && ReadHead(false, x, a).value.arg.Some?
  {
    var h := ReadHead(false, x, a);
    (h.end, h.end + h.value.arg.value)
  }

  lemma Blamed(o: DecodeOptions, x: Buf)
    requires BlamesText(Skip(BASIC, o, x, 0, 0))
    ensures var a := Skip(BASIC, o, x, 0, 0).error.offset;
            a <= |x| && ReadHead(false, x, a).Done? && ReadHead(false, x, a).value.arg.Some?
            && BadTextAt(x, a, ContentAt(x, a).0, ContentAt(x, a).1)
  {
    hide Skip;
    var lo, hi := BlamedText(o, x, 0, 0);
  }

  /** The input with the content of every text that basic skipping would blame made ASCII, one after another. */
  function Repaired(o: DecodeOptions, x: Buf): (y: Buf)
    ensures |y| == |x|
    decreases NonAscii(x)
  {
    var s := Skip(BASIC, o, x, 0, 0);
    if !BlamesText(s) then x else
    Blamed(o, x);
    var a := s.error.offset;
    var (lo, hi) := ContentAt(x, a);
    ReplacedRepairs(x, a, lo, hi);
    Repaired(o, Replaced(x, lo, hi))
  }

  /** Structural skipping is basic skipping of the repaired input: the same end, the same number of items, the same error. */
  lemma {:induction false} StructuralIsBasicOfRepaired(o: DecodeOptions, x: Buf)
    ensures Skip(STRUCTURAL, o, x, 0, 0) == Skip(BASIC, o, Repaired(o, x), 0, 0)
    decreases NonAscii(x)
  {
    hide Skip, NonAscii, Repairs, Replaced, ReadHead, Utf8.Valid;
    Agreement.BasicRefinesStructural(o, x, 0, 0);
    var s := Skip(BASIC, o, x, 0, 0);
    if BlamesText(s) {
      Blamed(o, x);
      var (lo, hi) := ContentAt(x, s.error.offset);
      ReplacedRepairs(x, s.error.offset, lo, hi);
      TextIsLeftAlone(o, x, Replaced(x, lo, hi), lo, hi, 0, 0);
      StructuralIsBasicOfRepaired(o, Replaced(x, lo, hi));
    }
  }

  /** It never blames text. */
  lemma StructuralBlamesNoText(o: DecodeOptions, x: Buf, pos: nat, depth: nat)
    requires pos <= |x|
    ensures !BlamesText(Skip(STRUCTURAL, o, x, pos, depth))
  {
    hide Skip;
    Failures.SkipFailure(STRUCTURAL, o, x, pos, depth);
  }
}
