/** The limits on nesting and length: what they change, and what validation lets through. */
module Limits {
  import opened Core
  import opened Heads
  import opened Values
  import opened Decoding
  import opened Skipping
  import Agreement
  import Floats
  import Grammar
  import Utf8

  /** The same validation with limits at least as high. */
  predicate Raised(o: DecodeOptions, q: DecodeOptions) {
    o.validation == q.validation && o.maxDepth <= q.maxDepth && o.maxLen <= q.maxLen
  }

  /** Only an error about a limit that was raised can give way to something else. */
  predicate SameUnlessLimited<T(==)>(o: DecodeOptions, q: DecodeOptions, r: Parse<T>, raised: Parse<T>) {
    r == raised
    || (r.Fail? && r.error.kind == DepthLimit && o.maxDepth < q.maxDepth)
    || (r.Fail? && r.error.kind == CollectionLimit && o.maxLen < q.maxLen)
  }

  lemma {:induction false} RaisingLimits(o: DecodeOptions, q: DecodeOptions, input: Buf, pos: nat, depth: nat)
    requires Raised(o, q) && pos <= |input|
    ensures SameUnlessLimited(o, q, Decode(o, input, pos, depth), Decode(q, input, pos, depth))
    decreases |input| - pos, 1
  {
    hide ReadHead, Decode, DecodeString, DecodeArray, DecodeMap, DecodeSimple;
    var h := ReadHead(o.Det(), input, pos);
    DecodeRefused(o, input, pos, depth, h);
    DecodeRefused(q, input, pos, depth, h);
    if depth <= o.maxDepth && h.Done? {
      DecodeItemStep(o, input, pos, depth, h);
      DecodeItemStep(q, input, pos, depth, h);
      if 2 <= h.value.major <= 3 {
        RaisingForString(o, q, input, h.end, h.value, pos);
      } else if h.value.major == 4 {
        RaisingForArray(o, q, input, h.end, depth, h.value.arg, pos);
      } else if h.value.major == 5 {
        RaisingForMap(o, q, input, h.end, depth, h.value.arg, pos);
      } else if h.value.major == 6 {
        RaisingLimits(o, q, input, h.end, depth + 1);
      }
    }
  }

  lemma RaisingForString(o: DecodeOptions, q: DecodeOptions, input: Buf, pos: nat, h: Head, at: nat)
    requires Raised(o, q) && pos <= |input|
    ensures SameUnlessLimited(o, q, DecodeString(o, input, pos, h, at), DecodeString(q, input, pos, h, at))
  {
    hide DecodeChunks, Utf8.Valid;
    if h.arg.None? { RaisingForChunks(o, q, input, pos, h.major, 0); }
  }

  lemma {:induction false} RaisingForChunks(o: DecodeOptions, q: DecodeOptions, input: Buf, pos: nat, major: nat, length: nat)
    requires Raised(o, q) && pos <= |input|
    ensures SameUnlessLimited(o, q, DecodeChunks(o, input, pos, major, length), DecodeChunks(q, input, pos, major, length))
    decreases |input| - pos
  {
    hide ReadHead, DecodeChunks, Utf8.Valid;
    DecodeChunksStep(o, input, pos, major, length);
    DecodeChunksStep(q, input, pos, major, length);
    var h := ReadHead(o.Det(), input, pos);
    if h.Done? && h.value.arg.Some? && h.end + h.value.arg.value <= |input| {
      RaisingForChunks(o, q, input, h.end + h.value.arg.value, major, length + h.value.arg.value);
    }
  }

  lemma {:induction false} RaisingForArray(o: DecodeOptions, q: DecodeOptions, input: Buf, pos: nat, depth: nat, arg: Option<U64>, at: nat)
    requires Raised(o, q) && pos <= |input|
    ensures SameUnlessLimited(o, q, DecodeArray(o, input, pos, depth, arg, at), DecodeArray(q, input, pos, depth, arg, at))
    decreases |input| - pos, 3
  {
    hide DecodeMany, DecodeToBreak;
    match arg
    case Some(n) => RaisingForMany(o, q, input, pos, depth + 1, n);
    case None => RaisingForToBreak(o, q, input, pos, depth + 1, 0, at);
  }

  lemma {:induction false} RaisingForMap(o: DecodeOptions, q: DecodeOptions, input: Buf, pos: nat, depth: nat, arg: Option<U64>, at: nat)
    requires Raised(o, q) && pos <= |input|
    ensures SameUnlessLimited(o, q, DecodeMap(o, input, pos, depth, arg, at), DecodeMap(q, input, pos, depth, arg, at))
    decreases |input| - pos, 3
  {
    hide DecodeEntries, DecodeEntriesToBreak;
    match arg
    case Some(n) => RaisingForEntries(o, q, input, pos, depth + 1, n);
    case None => RaisingForEntriesToBreak(o, q, input, pos, depth + 1, 0, at);
  }

  lemma {:induction false} RaisingForMany(o: DecodeOptions, q: DecodeOptions, input: Buf, pos: nat, depth: nat, count: nat)
    requires Raised(o, q) && pos <= |input|
    ensures SameUnlessLimited(o, q, DecodeMany(o, input, pos, depth, count), DecodeMany(q, input, pos, depth, count))
    decreases |input| - pos, 2
  {
    hide Decode, DecodeMany;
    DecodeManyStep(o, input, pos, depth, count);
    DecodeManyStep(q, input, pos, depth, count);
    if count > 0 {
      RaisingLimits(o, q, input, pos, depth);
      var v := Decode(o, input, pos, depth);
      if v.Done? { RaisingForMany(o, q, input, v.end, depth, count - 1); }
    }
  }

  lemma {:induction false} RaisingForToBreak(o: DecodeOptions, q: DecodeOptions, input: Buf, pos: nat, depth: nat, count: nat, at: nat)
    requires Raised(o, q) && pos <= |input| && count <= o.maxLen
    ensures SameUnlessLimited(o, q, DecodeToBreak(o, input, pos, depth, count, at), DecodeToBreak(q, input, pos, depth, count, at))
    decreases |input| - pos, 2
  {
    hide Decode, DecodeToBreak;
    DecodeToBreakStep(o, input, pos, depth, count, at);
    DecodeToBreakStep(q, input, pos, depth, count, at);
    if count < o.maxLen {
      RaisingLimits(o, q, input, pos, depth);
      var v := Decode(o, input, pos, depth);
      if v.Done? { RaisingForToBreak(o, q, input, v.end, depth, count + 1, at); }
    }
  }

  lemma {:induction false} RaisingForEntries(o: DecodeOptions, q: DecodeOptions, input: Buf, pos: nat, depth: nat, count: nat)
    requires Raised(o, q) && pos <= |input|
    ensures SameUnlessLimited(o, q, DecodeEntries(o, input, pos, depth, count), DecodeEntries(q, input, pos, depth, count))
    decreases |input| - pos, 2
  {
    hide Decode, DecodeEntries;
    DecodeEntriesStep(o, input, pos, depth, count);
    DecodeEntriesStep(q, input, pos, depth, count);
    if count > 0 {
      RaisingLimits(o, q, input, pos, depth);
      var k := Decode(o, input, pos, depth);
      if k.Done? {
        RaisingLimits(o, q, input, k.end, depth);
        var v := Decode(o, input, k.end, depth);
        if v.Done? { RaisingForEntries(o, q, input, v.end, depth, count - 1); }
      }
    }
  }

  lemma {:induction false} RaisingForEntriesToBreak(o: DecodeOptions, q: DecodeOptions, input: Buf, pos: nat, depth: nat, count: nat, at: nat)
    requires Raised(o, q) && pos <= |input| && count <= o.maxLen
    ensures SameUnlessLimited(o, q, DecodeEntriesToBreak(o, input, pos, depth, count, at),
                              DecodeEntriesToBreak(q, input, pos, depth, count, at))
    decreases |input| - pos, 2
  {
    hide Decode, DecodeEntriesToBreak;
    DecodeEntriesToBreakStep(o, input, pos, depth, count, at);
    DecodeEntriesToBreakStep(q, input, pos, depth, count, at);
    if count < o.maxLen {
      RaisingLimits(o, q, input, pos, depth);
      var k := Decode(o, input, pos, depth);
      if k.Done? {
        RaisingLimits(o, q, input, k.end, depth);
        var v := Decode(o, input, k.end, depth);
        if v.Done? { RaisingForEntriesToBreak(o, q, input, v.end, depth, count + 1, at); }
      }
    }
  }

  // ----- nesting that cannot be too deep

  /** Every level of nesting takes a byte. */
  predicate Deep(o: DecodeOptions, input: Buf, pos: nat, depth: nat) {
    depth + |input| <= o.maxDepth + pos
  }

  predicate NotTooDeep<T>(r: Parse<T>) {
    r.Fail? ==> r.error.kind != DepthLimit
  }

  lemma {:induction false} DeepEnough(o: DecodeOptions, input: Buf, pos: nat, depth: nat)
    requires pos <= |input| && Deep(o, input, pos, depth)
    ensures NotTooDeep(Decode(o, input, pos, depth))
    decreases |input| - pos, 1
  {
    hide ReadHead, Decode, DecodeString, DecodeArray, DecodeMap;
    var h := ReadHead(o.Det(), input, pos);
    HeadHasNoDepth(o.Det(), input, pos);
    DecodeRefused(o, input, pos, depth, h);
    if h.Done? {
      DecodeItemStep(o, input, pos, depth, h);
      if 2 <= h.value.major <= 3 {
        StringHasNoDepth(o, input, h.end, h.value, pos);
      } else if h.value.major == 4 {
        match h.value.arg
        case Some(n) => ArrayCounted(o, input, h.end, depth, n, pos);
        case None => ArrayToBreak(o, input, h.end, depth, pos);
      } else if h.value.major == 5 {
        match h.value.arg
        case Some(n) => MapCounted(o, input, h.end, depth, n, pos);
        case None => MapToBreak(o, input, h.end, depth, pos);
      } else if h.value.major == 6 {
        DeepEnough(o, input, h.end, depth + 1);
      }
    }
  }

  lemma HeadHasNoDepth(det: bool, input: Buf, pos: nat)
    requires pos <= |input|
    ensures NotTooDeep(ReadHead(det, input, pos))
  {
  }

  lemma StringHasNoDepth(o: DecodeOptions, input: Buf, pos: nat, h: Head, at: nat)
    requires pos <= |input|
    ensures NotTooDeep(DecodeString(o, input, pos, h, at))
  {
    hide DecodeChunks, Utf8.Valid;
    if h.arg.None? { ChunksHaveNoDepth(o, input, pos, h.major, 0); }
  }

  lemma {:induction false} ChunksHaveNoDepth(o: DecodeOptions, input: Buf, pos: nat, major: nat, length: nat)
    requires pos <= |input|
    ensures NotTooDeep(DecodeChunks(o, input, pos, major, length))
    decreases |input| - pos
  {
    hide ReadHead, DecodeChunks, Utf8.Valid;
    DecodeChunksStep(o, input, pos, major, length);
    HeadHasNoDepth(o.Det(), input, pos);
    var h := ReadHead(o.Det(), input, pos);
    if h.Done? && h.value.arg.Some? && h.end + h.value.arg.value <= |input| {
      ChunksHaveNoDepth(o, input, h.end + h.value.arg.value, major, length + h.value.arg.value);
    }
  }

  lemma {:induction false} ArrayCounted(o: DecodeOptions, input: Buf, pos: nat, depth: nat, n: U64, at: nat)
    requires pos <= |input| && Deep(o, input, pos, depth + 1)
    ensures NotTooDeep(DecodeArray(o, input, pos, depth, Some(n), at))
    decreases |input| - pos, 3
  {
    hide DecodeMany;
    ManyDeepEnough(o, input, pos, depth + 1, n);
  }

  lemma {:induction false} ArrayToBreak(o: DecodeOptions, input: Buf, pos: nat, depth: nat, at: nat)
    requires pos <= |input| && Deep(o, input, pos, depth + 1)
    ensures NotTooDeep(DecodeArray(o, input, pos, depth, None, at))
    decreases |input| - pos, 3
  {
    hide DecodeToBreak;
    ToBreakDeepEnough(o, input, pos, depth + 1, 0, at);
  }

  lemma {:induction false} MapCounted(o: DecodeOptions, input: Buf, pos: nat, depth: nat, n: U64, at: nat)
    requires pos <= |input| && Deep(o, input, pos, depth + 1)
    ensures NotTooDeep(DecodeMap(o, input, pos, depth, Some(n), at))
    decreases |input| - pos, 3
  {
    hide DecodeEntries;
    EntriesDeepEnough(o, input, pos, depth + 1, n);
  }

  lemma {:induction false} MapToBreak(o: DecodeOptions, input: Buf, pos: nat, depth: nat, at: nat)
    requires pos <= |input| && Deep(o, input, pos, depth + 1)
    ensures NotTooDeep(DecodeMap(o, input, pos, depth, None, at))
    decreases |input| - pos, 3
  {
    hide DecodeEntriesToBreak;
    EntriesToBreakDeepEnough(o, input, pos, depth + 1, 0, at);
  }

  lemma {:induction false} ManyDeepEnough(o: DecodeOptions, input: Buf, pos: nat, depth: nat, count: nat)
    requires pos <= |input| && Deep(o, input, pos, depth)
    ensures NotTooDeep(DecodeMany(o, input, pos, depth, count))
    decreases |input| - pos, 2
  {
    hide Decode, DecodeMany;
    DecodeManyStep(o, input, pos, depth, count);
    if count > 0 {
      DeepEnough(o, input, pos, depth);
      var v := Decode(o, input, pos, depth);
      if v.Done? { ManyDeepEnough(o, input, v.end, depth, count - 1); }
    }
  }

  lemma {:induction false} ToBreakDeepEnough(o: DecodeOptions, input: Buf, pos: nat, depth: nat, count: nat, at: nat)
    requires pos <= |input| && Deep(o, input, pos, depth)
    ensures NotTooDeep(DecodeToBreak(o, input, pos, depth, count, at))
    decreases |input| - pos, 2
  {
    hide Decode, DecodeToBreak;
    DecodeToBreakStep(o, input, pos, depth, count, at);
    DeepEnough(o, input, pos, depth);
    var v := Decode(o, input, pos, depth);
    if v.Done? { ToBreakDeepEnough(o, input, v.end, depth, count + 1, at); }
  }

  lemma {:induction false} EntriesDeepEnough(o: DecodeOptions, input: Buf, pos: nat, depth: nat, count: nat)
    requires pos <= |input| && Deep(o, input, pos, depth)
    ensures NotTooDeep(DecodeEntries(o, input, pos, depth, count))
    decreases |input| - pos, 2
  {
    hide Decode, DecodeEntries;
    DecodeEntriesStep(o, input, pos, depth, count);
    if count > 0 {
      DeepEnough(o, input, pos, depth);
      var k := Decode(o, input, pos, depth);
      if k.Done? {
        DeepEnough(o, input, k.end, depth);
        var v := Decode(o, input, k.end, depth);
        if v.Done? { EntriesDeepEnough(o, input, v.end, depth, count - 1); }
      }
    }
  }

  lemma {:induction false} EntriesToBreakDeepEnough(o: DecodeOptions, input: Buf, pos: nat, depth: nat, count: nat, at: nat)
    requires pos <= |input| && Deep(o, input, pos, depth)
    ensures NotTooDeep(DecodeEntriesToBreak(o, input, pos, depth, count, at))
    decreases |input| - pos, 2
  {
    hide Decode, DecodeEntriesToBreak;
    DecodeEntriesToBreakStep(o, input, pos, depth, count, at);
    DeepEnough(o, input, pos, depth);
    var k := Decode(o, input, pos, depth);
    if k.Done? {
      DeepEnough(o, input, k.end, depth);
      var v := Decode(o, input, k.end, depth);
      if v.Done? { EntriesToBreakDeepEnough(o, input, v.end, depth, count + 1, at); }
    }
  }

  // ----- the limits and the values

  /** `DepthLimit` is exactly what a higher nesting limit would change. */
  lemma DepthLimitIsAboutDepth(o: DecodeOptions, q: DecodeOptions, input: Buf)
    requires q == o.(maxDepth := q.maxDepth) && o.maxDepth <= q.maxDepth && |input| <= q.maxDepth
    ensures var d := Decode(o, input, 0, 0);
            (d.Fail? && d.error.kind == DepthLimit) <==> d != Decode(q, input, 0, 0)
  {
    hide Decode;
    RaisingLimits(o, q, input, 0, 0);
    DeepEnough(q, input, 0, 0);
  }

  /**
    * A well-formed encoding of a value that exceeds the limits is refused: with `DepthLimit` if only its nesting
    * does, with `CollectionLimit` if only its lengths do.
    */
  lemma BeyondTheLimits(o: DecodeOptions, q: DecodeOptions, input: Buf, pos: nat, end: nat, v: Value, depth: nat)
    requires Raised(o, q) && pos <= end <= |input|
    requires Grammar.Encodes(o.Det(), input, pos, end, v) && Fits(q, v, depth) && !Fits(o, v, depth)
    ensures var d := Decode(o, input, pos, depth);
            d.Fail? && (d.error.kind == DepthLimit || d.error.kind == CollectionLimit)
            && (o.maxLen == q.maxLen ==> d.error.kind == DepthLimit)
            && (o.maxDepth == q.maxDepth ==> d.error.kind == CollectionLimit)
  {
    hide Decode, Fits, Grammar.Encodes;
    Grammar.Complete(q, input, pos, end, v, depth);
    Grammar.Sound(o, input, pos, depth);
    RaisingLimits(o, q, input, pos, depth);
  }

  // ----- what basic skipping lets through

  /** No array and no map of the tree has more than `limit` elements. */
  predicate ContainersFit(limit: nat, v: Value) {
    match v
    case Array(vs) => |vs| <= limit && AllContainersFit(limit, vs)
    case Map(es) => |es| <= limit && EntryContainersFit(limit, es)
    case Tag(_, w) => ContainersFit(limit, w)
    case _ => true
  }

  predicate AllContainersFit(limit: nat, vs: seq<Value>) {
    vs == [] || (ContainersFit(limit, vs[0]) && AllContainersFit(limit, vs[1..]))
  }

  predicate EntryContainersFit(limit: nat, es: seq<Entry>) {
    es == [] ||
    (assert es decreases to es[0];
     ContainersFit(limit, es[0].key) && ContainersFit(limit, es[0].value) && EntryContainersFit(limit, es[1..]))
  }

  /** Options that differ from `o` in a length limit that the input cannot reach. */
  predicate Roomy(o: DecodeOptions, q: DecodeOptions, input: Buf) {
    !o.Det() && q == o.(maxLen := q.maxLen) && o.maxLen <= q.maxLen && |input| <= q.maxLen && Doubles(o)
  }

  lemma {:induction false} SkippedIsDecoded(o: DecodeOptions, q: DecodeOptions, input: Buf, pos: nat, depth: nat)
    requires Roomy(o, q, input) && pos <= |input| && Skip(BASIC, o, input, pos, depth).Done?
    ensures var s, d := Skip(BASIC, o, input, pos, depth), Decode(q, input, pos, depth);
            d.Done? && d.end == s.end && ContainersFit(o.maxLen, d.value)
    decreases |input| - pos, 1
  {
    hide ReadHead, Skip, Decode, SkipString, DecodeString, SkipContainer, DecodeArray, DecodeMap, SkipSimple, DecodeSimple;
    var h := ReadHead(false, input, pos);
    SkipRefused(BASIC, o, input, pos, depth, h);
    SkipItemStep(BASIC, o, input, pos, depth, h);
    DecodeItemStep(q, input, pos, depth, h);
    if 2 <= h.value.major <= 3 {
      SkippedString(o, q, input, h.end, h.value, pos);
    } else if h.value.major == 4 {
      SkippedArray(o, q, input, h.end, depth, h.value.arg, pos);
    } else if h.value.major == 5 {
      SkippedMap(o, q, input, h.end, depth, h.value.arg, pos);
    } else if h.value.major == 6 {
      SkippedIsDecoded(o, q, input, h.end, depth + 1);
    } else if h.value.major == 7 {
      Agreement.SimpleFollows(input[pos] % 32, h.value.arg, h.end, pos);
      SimpleHasNoElements(o.maxLen, input[pos] % 32, h.value.arg, h.end, pos);
    }
  }

  lemma SimpleHasNoElements(limit: nat, ai: nat, arg: Option<U64>, end: nat, at: nat)
    requires arg.Some? ==> ArgumentFits(ai, arg.value)
    ensures var d := DecodeSimple(ai, arg, end, at); d.Done? ==> ContainersFit(limit, d.value)
  {
  }

  lemma SkippedString(o: DecodeOptions, q: DecodeOptions, input: Buf, pos: nat, h: Head, at: nat)
    requires Roomy(o, q, input) && pos <= |input| && 2 <= h.major <= 3 && SkipString(BASIC, o, input, pos, h, at).Done?
    ensures var s, d := SkipString(BASIC, o, input, pos, h, at), DecodeString(q, input, pos, h, at);
            d.Done? && d.end == s.end && ContainersFit(o.maxLen, d.value)
  {
    hide SkipChunks, DecodeChunks, Utf8.Valid;
    if h.arg.None? { SkippedChunks(q, input, pos, h.major, 0); }
  }

  lemma {:induction false} SkippedChunks(q: DecodeOptions, input: Buf, pos: nat, major: nat, length: nat)
    requires !q.Det() && length <= pos <= |input| <= q.maxLen && 2 <= major <= 3 && SkipChunks(BASIC, input, pos, major).Done?
    ensures var s, d := SkipChunks(BASIC, input, pos, major), DecodeChunks(q, input, pos, major, length);
            d.Done? && d.end == s.end
    decreases |input| - pos
  {
    hide ReadHead, SkipChunks, DecodeChunks, Utf8.Valid;
    SkipChunksStep(BASIC, input, pos, major);
    DecodeChunksStep(q, input, pos, major, length);
    if input[pos] != 0xff {
      var h := ReadHead(false, input, pos);
      SkippedChunks(q, input, h.end + h.value.arg.value, major, length + h.value.arg.value);
    }
  }

  lemma {:induction false} SkippedArray(o: DecodeOptions, q: DecodeOptions, input: Buf, pos: nat, depth: nat, arg: Option<U64>, at: nat)
    requires Roomy(o, q, input) && at < pos <= |input| && SkipContainer(BASIC, o, input, pos, depth + 1, arg, false, at).Done?
    ensures var s, d := SkipContainer(BASIC, o, input, pos, depth + 1, arg, false, at), DecodeArray(q, input, pos, depth, arg, at);
            d.Done? && d.end == s.end && |d.value| <= o.maxLen && AllContainersFit(o.maxLen, d.value)
    decreases |input| - pos, 3
  {
    hide SkipMany, SkipToBreak, DecodeMany, DecodeToBreak, AllContainersFit;
    match arg
    case Some(n) => SkippedMany(o, q, input, pos, depth + 1, n);
    case None => SkippedToBreak(o, q, input, pos, depth + 1, 0, at);
  }

  lemma {:induction false} SkippedMap(o: DecodeOptions, q: DecodeOptions, input: Buf, pos: nat, depth: nat, arg: Option<U64>, at: nat)
    requires Roomy(o, q, input) && at < pos <= |input| && SkipContainer(BASIC, o, input, pos, depth + 1, arg, true, at).Done?
    ensures var s, d := SkipContainer(BASIC, o, input, pos, depth + 1, arg, true, at), DecodeMap(q, input, pos, depth, arg, at);
            d.Done? && d.end == s.end && |d.value| <= o.maxLen && EntryContainersFit(o.maxLen, d.value)
    decreases |input| - pos, 3
  {
    hide SkipMany, SkipToBreak, DecodeEntries, DecodeEntriesToBreak, EntryContainersFit;
    match arg
    case Some(n) => SkippedEntries(o, q, input, pos, depth + 1, n);
    case None => SkippedEntriesToBreak(o, q, input, pos, depth + 1, 0, at);
  }

  lemma {:induction false} SkippedMany(o: DecodeOptions, q: DecodeOptions, input: Buf, pos: nat, depth: nat, count: nat)
    requires Roomy(o, q, input) && pos <= |input| && SkipMany(BASIC, o, input, pos, depth, false, count, None).Done?
    ensures var s, d := SkipMany(BASIC, o, input, pos, depth, false, count, None), DecodeMany(q, input, pos, depth, count);
            d.Done? && d.end == s.end && AllContainersFit(o.maxLen, d.value)
    decreases |input| - pos, 2
  {
    hide Skip, Decode, SkipMany, DecodeMany;
    SkipManyStep(BASIC, o, input, pos, depth, false, count, None);
    DecodeManyStep(q, input, pos, depth, count);
    if count > 0 {
      SkippedIsDecoded(o, q, input, pos, depth);
      var v := Decode(q, input, pos, depth);
      SkippedMany(o, q, input, v.end, depth, count - 1);
      FitCons(o.maxLen, v.value, DecodeMany(q, input, v.end, depth, count - 1).value);
    }
  }

  lemma FitCons(limit: nat, v: Value, vs: seq<Value>)
    ensures AllContainersFit(limit, [v] + vs) <==> ContainersFit(limit, v) && AllContainersFit(limit, vs)
  {
    assert ([v] + vs)[1..] == vs;
  }

  lemma EntryFitCons(limit: nat, e: Entry, es: seq<Entry>)
    ensures EntryContainersFit(limit, [e] + es)
            <==> ContainersFit(limit, e.key) && ContainersFit(limit, e.value) && EntryContainersFit(limit, es)
  {
    assert ([e] + es)[1..] == es;
  }

  lemma {:induction false} SkippedToBreak(o: DecodeOptions, q: DecodeOptions, input: Buf, pos: nat, depth: nat, count: nat, at: nat)
    requires Roomy(o, q, input) && count < pos <= |input| && count <= o.maxLen
    requires SkipToBreak(BASIC, o, input, pos, depth, false, count, at).Done?
    ensures var s, d := SkipToBreak(BASIC, o, input, pos, depth, false, count, at), DecodeToBreak(q, input, pos, depth, count, at);
            d.Done? && d.end == s.end && |d.value| + count <= o.maxLen && AllContainersFit(o.maxLen, d.value)
    decreases |input| - pos, 2
  {
    hide Skip, Decode, SkipToBreak, DecodeToBreak;
    SkipToBreakStep(BASIC, o, input, pos, depth, false, count, at);
    DecodeToBreakStep(q, input, pos, depth, count, at);
    if input[pos] != 0xff {
      SkippedIsDecoded(o, q, input, pos, depth);
      var v := Decode(q, input, pos, depth);
      SkippedToBreak(o, q, input, v.end, depth, count + 1, at);
      FitCons(o.maxLen, v.value, DecodeToBreak(q, input, v.end, depth, count + 1, at).value);
    }
  }

  lemma {:induction false} SkippedEntries(o: DecodeOptions, q: DecodeOptions, input: Buf, pos: nat, depth: nat, count: nat)
    requires Roomy(o, q, input) && pos <= |input| && SkipMany(BASIC, o, input, pos, depth, true, 2 * count, None).Done?
    ensures var s, d := SkipMany(BASIC, o, input, pos, depth, true, 2 * count, None), DecodeEntries(q, input, pos, depth, count);
            d.Done? && d.end == s.end && EntryContainersFit(o.maxLen, d.value)
    decreases |input| - pos, 2
  {
    hide Skip, Decode, SkipMany, DecodeEntries;
    SkipManyStep(BASIC, o, input, pos, depth, true, 2 * count, None);
    DecodeEntriesStep(q, input, pos, depth, count);
    if count > 0 {
      SkippedIsDecoded(o, q, input, pos, depth);
      var k := Decode(q, input, pos, depth);
      SkipManyStep(BASIC, o, input, k.end, depth, true, 2 * count - 1, None);
      SkippedIsDecoded(o, q, input, k.end, depth);
      var v := Decode(q, input, k.end, depth);
      SkippedEntries(o, q, input, v.end, depth, count - 1);
      EntryFitCons(o.maxLen, Entry(k.value, v.value), DecodeEntries(q, input, v.end, depth, count - 1).value);
    }
  }

  lemma {:induction false} SkippedEntriesToBreak(o: DecodeOptions, q: DecodeOptions, input: Buf, pos: nat, depth: nat, count: nat, at: nat)
    requires Roomy(o, q, input) && count < pos <= |input| && count <= o.maxLen
    requires SkipToBreak(BASIC, o, input, pos, depth, true, 2 * count, at).Done?
    ensures var s, d := SkipToBreak(BASIC, o, input, pos, depth, true, 2 * count, at),
                        DecodeEntriesToBreak(q, input, pos, depth, count, at);
            d.Done? && d.end == s.end && |d.value| + count <= o.maxLen && EntryContainersFit(o.maxLen, d.value)
    decreases |input| - pos, 2
  {
    hide Skip, Decode, SkipToBreak, DecodeEntriesToBreak;
    SkipToBreakStep(BASIC, o, input, pos, depth, true, 2 * count, at);
    DecodeEntriesToBreakStep(q, input, pos, depth, count, at);
    if input[pos] != 0xff {
      SkippedIsDecoded(o, q, input, pos, depth);
      var k := Decode(q, input, pos, depth);
      SkipToBreakStep(BASIC, o, input, k.end, depth, true, 2 * count + 1, at);
      SkippedIsDecoded(o, q, input, k.end, depth);
      var v := Decode(q, input, k.end, depth);
      SkippedEntriesToBreak(o, q, input, v.end, depth, count + 1, at);
      EntryFitCons(o.maxLen, Entry(k.value, v.value), DecodeEntriesToBreak(q, input, v.end, depth, count + 1, at).value);
    }
  }

  /** Basic skipping accepts only encodings of values within the limits on nesting and on the size of containers. */
  lemma SkippedIsEncoded(o: DecodeOptions, input: Buf, pos: nat, depth: nat) returns (v: Value)
    requires !o.Det() && Doubles(o) && pos <= |input| <= USIZE_MAX && Skip(BASIC, o, input, pos, depth).Done?
    ensures Grammar.Encodes(false, input, pos, Skip(BASIC, o, input, pos, depth).end, v) && ContainersFit(o.maxLen, v)
    ensures Fits(o.(maxLen := USIZE_MAX), v, depth)
  {
    hide Skip, Decode, Grammar.Encodes, Fits, ContainersFit;
    var q := o.(maxLen := USIZE_MAX);
    SkippedIsDecoded(o, q, input, pos, depth);
    Grammar.Sound(q, input, pos, depth);
    v := Decode(q, input, pos, depth).value;
  }

  /** A string, array or map that announces more than the limit is refused at its head by every skipper and by the decoder. */
  lemma AnnouncedTooLong(m: Mode, o: DecodeOptions, input: Buf, pos: nat, depth: nat)
    requires pos <= |input| && depth <= o.maxDepth
    requires var h := ReadHead(m.det, input, pos);
             h.Done? && 2 <= h.value.major <= 5 && h.value.arg.Some? && h.value.arg.value > o.maxLen
    ensures Skip(m, o, input, pos, depth) == Fail(NewError(CollectionLimit, pos))
    ensures m.det == o.Det() ==> Decode(o, input, pos, depth) == Fail(NewError(CollectionLimit, pos))
  {
    hide ReadHead, Skip, Decode;
    var h := ReadHead(m.det, input, pos);
    SkipItemStep(m, o, input, pos, depth, h);
    if m.det == o.Det() { DecodeItemStep(o, input, pos, depth, h); }
  }
}
