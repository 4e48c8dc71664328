/** The skippers agree with one another and with the decoder. */
module Agreement {
  import opened Core
  import opened Heads
  import opened Values
  import opened Decoding
  import opened Skipping
  import Utf8
  import Floats

  // ----- validation against decoding

  /** A skip that visits the decoded items, or fails the same way unless a limit stopped the decoder. */
  predicate Follows(s: Parse<nat>, d: Parse<nat>) {
    s == d || (d.Fail? && d.error.kind == CollectionLimit)
  }

  function ItemSize(d: Parse<Value>): Parse<nat> {
    match d case Done(v, end) => Done(Size(v), end) case Fail(e) => Fail(e)
  }

  function ItemsSize(d: Parse<seq<Value>>): Parse<nat> {
    match d case Done(vs, end) => Done(SizeAll(vs), end) case Fail(e) => Fail(e)
  }

  function EntriesSize(d: Parse<seq<Entry>>): Parse<nat> {
    match d case Done(es, end) => Done(SizeEntries(es), end) case Fail(e) => Fail(e)
  }

  /** Basic validation follows decoding: same end, same error kind and offset, one visit per decoded item. */
  lemma {:induction false} SkipFollowsDecode(o: DecodeOptions, input: Buf, pos: nat, depth: nat)
    requires !o.Det() && Doubles(o) && pos <= |input|
    ensures Follows(Skip(BASIC, o, input, pos, depth), ItemSize(Decode(o, input, pos, depth)))
    decreases |input| - pos, 1
  {
    hide ReadHead, Skip, Decode, SkipString, DecodeString, SkipContainer, DecodeArray, DecodeMap, SkipSimple, DecodeSimple;
    var h := ReadHead(false, input, pos);
    DecodeRefused(o, input, pos, depth, h);
    SkipRefused(BASIC, o, input, pos, depth, h);
    if depth <= o.maxDepth && h.Done? {
      DecodeItemStep(o, input, pos, depth, h);
      SkipItemStep(BASIC, o, input, pos, depth, h);
      if h.value.major <= 1 {
      } else if h.value.major <= 3 {
        StringFollows(o, input, h.end, h.value, pos);
      } else if h.value.major == 4 {
        ArrayFollows(o, input, h.end, depth, h.value.arg, pos);
      } else if h.value.major == 5 {
        MapFollows(o, input, h.end, depth, h.value.arg, pos);
      } else if h.value.major == 6 {
        if h.value.arg.Some? { SkipFollowsDecode(o, input, h.end, depth + 1); }
      } else {
        SimpleFollows(input[pos] % 32, h.value.arg, h.end, pos);
      }
    }
  }

  lemma SimpleFollows(ai: nat, arg: Option<U64>, end: nat, at: nat)
    requires ai < 32 && !(28 <= ai <= 30) && (arg.None? <==> ai == 31) && (arg.Some? ==> ArgumentFits(ai, arg.value))
    ensures SkipSimple(BASIC, ai, arg, end, at) == ItemSize(DecodeSimple(ai, arg, end, at))
  {
    hide Floats.HalfToDouble, Floats.SingleToDouble;
  }

  lemma StringFollows(o: DecodeOptions, input: Buf, pos: nat, h: Head, at: nat)
    requires !o.Det() && pos <= |input| && 2 <= h.major <= 3
    ensures var s := SkipString(BASIC, o, input, pos, h, at);
            var d := DecodeString(o, input, pos, h, at);
            (d.Done? ==> s == Done((), d.end) && Size(d.value) == 1)
            && (d.Fail? ==> s == Fail(d.error) || d.error.kind == CollectionLimit)
  {
    if h.arg.None? { ChunksFollow(o, input, pos, h.major, 0); }
  }

  lemma {:induction false} ChunksFollow(o: DecodeOptions, input: Buf, pos: nat, major: nat, length: nat)
    requires !o.Det() && pos <= |input| && 2 <= major <= 3
    ensures var s := SkipChunks(BASIC, input, pos, major);
            var d := DecodeChunks(o, input, pos, major, length);
            (d.Done? ==> s == Done((), d.end)) && (d.Fail? ==> s == Fail(d.error) || d.error.kind == CollectionLimit)
    decreases |input| - pos
  {
    hide ReadHead, Utf8.Valid, SkipChunks, DecodeChunks;
    SkipChunksStep(BASIC, input, pos, major);
    DecodeChunksStep(o, input, pos, major, length);
    var h := ReadHead(false, input, pos);
    if h.Done? && h.value.arg.Some? {
      var next := h.end + h.value.arg.value;
      if next <= |input| { ChunksFollow(o, input, next, major, length + h.value.arg.value); }
    }
  }

  lemma {:induction false} ArrayFollows(o: DecodeOptions, input: Buf, pos: nat, depth: nat, arg: Option<U64>, at: nat)
    requires !o.Det() && Doubles(o) && pos <= |input|
    ensures Follows(AddVisits(1, SkipContainer(BASIC, o, input, pos, depth + 1, arg, false, at)),
                    ItemSize(ArrayItem(DecodeArray(o, input, pos, depth, arg, at))))
    decreases |input| - pos, 3
  {
    hide SkipMany, SkipToBreak, DecodeMany, DecodeToBreak;
    match arg
    case Some(n) => ManyFollow(o, input, pos, depth + 1, n);
    case None => ToBreakFollows(o, input, pos, depth + 1, 0, at);
  }

  lemma {:induction false} MapFollows(o: DecodeOptions, input: Buf, pos: nat, depth: nat, arg: Option<U64>, at: nat)
    requires !o.Det() && Doubles(o) && pos <= |input|
    ensures Follows(AddVisits(1, SkipContainer(BASIC, o, input, pos, depth + 1, arg, true, at)),
                    ItemSize(MapItem(DecodeMap(o, input, pos, depth, arg, at))))
    decreases |input| - pos, 3
  {
    hide SkipMany, SkipToBreak, DecodeEntries, DecodeEntriesToBreak;
    match arg
    case Some(n) => EntriesFollow(o, input, pos, depth + 1, n);
    case None => EntriesToBreakFollow(o, input, pos, depth + 1, 0, at);
  }

  lemma ItemsCons(v: Value, rest: Parse<seq<Value>>)
    ensures ItemsSize(After([v], rest)) == AddVisits(Size(v), ItemsSize(rest))
  {
    if rest.Done? { assert ([v] + rest.value)[1..] == rest.value; }
  }

  lemma EntriesCons(k: Value, v: Value, rest: Parse<seq<Entry>>)
    ensures EntriesSize(After([Entry(k, v)], rest)) == AddVisits(Size(k), AddVisits(Size(v), EntriesSize(rest)))
  {
    hide Size;
    if rest.Done? { assert ([Entry(k, v)] + rest.value)[1..] == rest.value; }
  }

  lemma {:induction false} ManyFollow(o: DecodeOptions, input: Buf, pos: nat, depth: nat, count: nat)
    requires !o.Det() && Doubles(o) && pos <= |input|
    ensures Follows(SkipMany(BASIC, o, input, pos, depth, false, count, None), ItemsSize(DecodeMany(o, input, pos, depth, count)))
    decreases |input| - pos, 2
  {
    hide Skip, Decode, SkipMany, DecodeMany;
    SkipManyStep(BASIC, o, input, pos, depth, false, count, None);
    DecodeManyStep(o, input, pos, depth, count);
    if count > 0 {
      SkipFollowsDecode(o, input, pos, depth);
      var d := Decode(o, input, pos, depth);
      if d.Done? {
        ManyFollow(o, input, d.end, depth, count - 1);
        ItemsCons(d.value, DecodeMany(o, input, d.end, depth, count - 1));
      }
    }
  }

  lemma {:induction false} ToBreakFollows(o: DecodeOptions, input: Buf, pos: nat, depth: nat, count: nat, at: nat)
    requires !o.Det() && Doubles(o) && pos <= |input| && count <= o.maxLen
    ensures Follows(SkipToBreak(BASIC, o, input, pos, depth, false, count, at),
                    ItemsSize(DecodeToBreak(o, input, pos, depth, count, at)))
    decreases |input| - pos, 2
  {
    hide Skip, Decode, SkipToBreak, DecodeToBreak;
    SkipToBreakStep(BASIC, o, input, pos, depth, false, count, at);
    DecodeToBreakStep(o, input, pos, depth, count, at);
    if pos < |input| && input[pos] != 0xff && count < o.maxLen {
      SkipFollowsDecode(o, input, pos, depth);
      var d := Decode(o, input, pos, depth);
      if d.Done? {
        ToBreakFollows(o, input, d.end, depth, count + 1, at);
        ItemsCons(d.value, DecodeToBreak(o, input, d.end, depth, count + 1, at));
      }
    }
  }

  lemma {:induction false} EntriesFollow(o: DecodeOptions, input: Buf, pos: nat, depth: nat, count: nat)
    requires !o.Det() && Doubles(o) && pos <= |input|
    ensures Follows(SkipMany(BASIC, o, input, pos, depth, true, 2 * count, None),
                    EntriesSize(DecodeEntries(o, input, pos, depth, count)))
    decreases |input| - pos, 2
  {
    hide Skip, Decode, SkipMany, DecodeEntries;
    SkipManyStep(BASIC, o, input, pos, depth, true, 2 * count, None);
    DecodeEntriesStep(o, input, pos, depth, count);
    if count > 0 {
      SkipFollowsDecode(o, input, pos, depth);
      var k := Decode(o, input, pos, depth);
      if k.Done? {
        SkipManyStep(BASIC, o, input, k.end, depth, true, 2 * count - 1, None);
        SkipFollowsDecode(o, input, k.end, depth);
        var v := Decode(o, input, k.end, depth);
        if v.Done? {
          EntriesFollow(o, input, v.end, depth, count - 1);
          EntriesCons(k.value, v.value, DecodeEntries(o, input, v.end, depth, count - 1));
        }
      }
    }
  }

  lemma {:induction false} EntriesToBreakFollow(o: DecodeOptions, input: Buf, pos: nat, depth: nat, count: nat, at: nat)
    requires !o.Det() && Doubles(o) && pos <= |input| && count <= o.maxLen
    ensures Follows(SkipToBreak(BASIC, o, input, pos, depth, true, 2 * count, at),
                    EntriesSize(DecodeEntriesToBreak(o, input, pos, depth, count, at)))
    decreases |input| - pos, 2
  {
    hide Skip, Decode, SkipToBreak, DecodeEntriesToBreak;
    SkipToBreakStep(BASIC, o, input, pos, depth, true, 2 * count, at);
    DecodeEntriesToBreakStep(o, input, pos, depth, count, at);
    if pos < |input| && input[pos] != 0xff && count < o.maxLen {
      SkipFollowsDecode(o, input, pos, depth);
      var k := Decode(o, input, pos, depth);
      if k.Done? {
        SkipToBreakStep(BASIC, o, input, k.end, depth, true, 2 * count + 1, at);
        if k.end < |input| && input[k.end] != 0xff {
          SkipFollowsDecode(o, input, k.end, depth);
          var v := Decode(o, input, k.end, depth);
          if v.Done? {
            EntriesToBreakFollow(o, input, v.end, depth, count + 1, at);
            EntriesCons(k.value, v.value, DecodeEntriesToBreak(o, input, v.end, depth, count + 1, at));
          }
        }
      }
    }
  }

  /** `validate`, `validate_deterministic`: one item and nothing after it. */
  function Validate(m: Mode, o: DecodeOptions, input: Buf): (r: Result<()>) {
    match Skip(m, o, input, 0, 0)
    case Done(_, end) => if end == |input| then Ok(()) else Err(NewError(TrailingData, end))
    case Fail(e) => Err(e)
  }

  /** `validate` gives `from_slice_value`'s verdict, except where a length limit stopped the decoder. */
  lemma ValidateFollowsDecode(input: Buf)
    ensures var d := DecodeValue(input);
            var s := Validate(BASIC, DEFAULT_OPTIONS, input);
            (d.Ok? ==> s.Ok?) && (d.Err? && d.error.kind != CollectionLimit ==> s == Err(d.error))
  {
    SkipFollowsDecode(DEFAULT_OPTIONS, input, 0, 0);
  }

  // ----- the skippers against each other

  /** Basic skipping is structural skipping, except where it stops at text that is not UTF-8. */
  predicate OnlyTextDiffers<T(==)>(basic: Parse<T>, structural: Parse<T>) {
    basic == structural || (basic.Fail? && basic.error.kind == InvalidUtf8)
  }

  lemma {:induction false} BasicRefinesStructural(o: DecodeOptions, input: Buf, pos: nat, depth: nat)
    requires pos <= |input|
    ensures OnlyTextDiffers(Skip(BASIC, o, input, pos, depth), Skip(STRUCTURAL, o, input, pos, depth))
    decreases |input| - pos, 0
  {
    hide ReadHead, Skip, SkipContainer, SkipChunks, SkipSimple, Utf8.Valid;
    var h := ReadHead(false, input, pos);
    SkipRefused(BASIC, o, input, pos, depth, h);
    SkipRefused(STRUCTURAL, o, input, pos, depth, h);
    if depth <= o.maxDepth && h.Done? {
      SkipItemStep(BASIC, o, input, pos, depth, h);
      SkipItemStep(STRUCTURAL, o, input, pos, depth, h);
      if 2 <= h.value.major <= 3 {
        if h.value.arg.None? { ChunksDifferOnlyInText(input, h.end, h.value.major); }
      } else if 4 <= h.value.major <= 5 {
        ContainerDiffersOnlyInText(o, input, h.end, depth + 1, h.value.arg, h.value.major == 5, pos);
      } else if h.value.major == 6 {
        BasicRefinesStructural(o, input, h.end, depth + 1);
      } else if h.value.major == 7 {
        SimpleHasNoText(input[pos] % 32, h.value.arg, h.end, pos);
      }
    }
  }

  lemma SimpleHasNoText(ai: nat, arg: Option<U64>, end: nat, at: nat)
    requires arg.Some? ==> ArgumentFits(ai, arg.value)
    ensures SkipSimple(BASIC, ai, arg, end, at) == SkipSimple(STRUCTURAL, ai, arg, end, at)
  {
  }

  lemma {:induction false} ContainerDiffersOnlyInText(o: DecodeOptions, input: Buf, pos: nat, depth: nat, arg: Option<U64>, isMap: bool, at: nat)
    requires pos <= |input|
    ensures OnlyTextDiffers(SkipContainer(BASIC, o, input, pos, depth, arg, isMap, at),
                            SkipContainer(STRUCTURAL, o, input, pos, depth, arg, isMap, at))
    decreases |input| - pos, 2
  {
    match arg
    case Some(n) => ManyDifferOnlyInText(o, input, pos, depth, isMap, if isMap then 2 * n else n);
    case None => ToBreakDiffersOnlyInText(o, input, pos, depth, isMap, 0, at);
  }

  lemma {:induction false} ChunksDifferOnlyInText(input: Buf, pos: nat, major: nat)
    requires pos <= |input|
    ensures OnlyTextDiffers(SkipChunks(BASIC, input, pos, major), SkipChunks(STRUCTURAL, input, pos, major))
    decreases |input| - pos
  {
    hide ReadHead, SkipChunks, Utf8.Valid;
    SkipChunksStep(BASIC, input, pos, major);
    SkipChunksStep(STRUCTURAL, input, pos, major);
    var h := ReadHead(false, input, pos);
    if h.Done? && h.value.arg.Some? {
      var next := h.end + h.value.arg.value;
      if next <= |input| { ChunksDifferOnlyInText(input, next, major); }
    }
  }

  lemma {:induction false} ManyDifferOnlyInText(o: DecodeOptions, input: Buf, pos: nat, depth: nat, isMap: bool, count: nat)
    requires pos <= |input|
    ensures OnlyTextDiffers(SkipMany(BASIC, o, input, pos, depth, isMap, count, None),
                            SkipMany(STRUCTURAL, o, input, pos, depth, isMap, count, None))
    decreases |input| - pos, 1
  {
    hide Skip, SkipMany, Less;
    SkipManyStep(BASIC, o, input, pos, depth, isMap, count, None);
    SkipManyStep(STRUCTURAL, o, input, pos, depth, isMap, count, None);
    if count > 0 {
      BasicRefinesStructural(o, input, pos, depth);
      var s := Skip(STRUCTURAL, o, input, pos, depth);
      if s.Done? { ManyDifferOnlyInText(o, input, s.end, depth, isMap, count - 1); }
    }
  }

  lemma {:induction false} ToBreakDiffersOnlyInText(o: DecodeOptions, input: Buf, pos: nat, depth: nat, isMap: bool, items: nat, at: nat)
    requires pos <= |input|
    ensures OnlyTextDiffers(SkipToBreak(BASIC, o, input, pos, depth, isMap, items, at),
                            SkipToBreak(STRUCTURAL, o, input, pos, depth, isMap, items, at))
    decreases |input| - pos, 1
  {
    hide Skip, SkipToBreak;
    SkipToBreakStep(BASIC, o, input, pos, depth, isMap, items, at);
    SkipToBreakStep(STRUCTURAL, o, input, pos, depth, isMap, items, at);
    if pos < |input| && input[pos] != 0xff {
      BasicRefinesStructural(o, input, pos, depth);
      var s := Skip(STRUCTURAL, o, input, pos, depth);
      if s.Done? { ToBreakDiffersOnlyInText(o, input, s.end, depth, isMap, items + 1, at); }
    }
  }

  /** Deterministic skipping is basic skipping, except where it stops at a form that is not deterministic. */
  predicate OnlyFormDiffers<T(==)>(det: Parse<T>, basic: Parse<T>) {
    det == basic || (det.Fail? && det.error.kind == NonDeterministic)
  }

  lemma {:induction false} DeterministicRefinesBasic(o: DecodeOptions, input: Buf, pos: nat, depth: nat)
    requires pos <= |input|
    ensures OnlyFormDiffers(Skip(DETERMINISTIC, o, input, pos, depth), Skip(BASIC, o, input, pos, depth))
    decreases |input| - pos, 0
  {
    hide ReadHead, Skip, SkipString, SkipContainer, SkipSimple;
    DeterministicHeadIsLenient(input, pos);
    var h, b := ReadHead(true, input, pos), ReadHead(false, input, pos);
    SkipRefused(DETERMINISTIC, o, input, pos, depth, h);
    SkipRefused(BASIC, o, input, pos, depth, b);
    if depth <= o.maxDepth && h.Done? {
      SkipItemStep(DETERMINISTIC, o, input, pos, depth, h);
      SkipItemStep(BASIC, o, input, pos, depth, h);
      if 2 <= h.value.major <= 3 {
        StringRefinesBasic(o, input, h.end, h.value, pos);
      } else if 4 <= h.value.major <= 5 {
        ContainerRefinesBasic(o, input, h.end, depth + 1, h.value.arg, h.value.major == 5, pos);
      } else if h.value.major == 6 {
        DeterministicRefinesBasic(o, input, h.end, depth + 1);
      } else if h.value.major == 7 {
        SimpleRefinesBasic(input[pos] % 32, h.value.arg, h.end, pos);
      }
    }
  }

  lemma StringRefinesBasic(o: DecodeOptions, input: Buf, pos: nat, h: Head, at: nat)
    requires pos <= |input|
    ensures OnlyFormDiffers(SkipString(DETERMINISTIC, o, input, pos, h, at), SkipString(BASIC, o, input, pos, h, at))
  {
    hide SkipChunks, Utf8.Valid;
  }

  lemma SimpleRefinesBasic(ai: nat, arg: Option<U64>, end: nat, at: nat)
    requires arg.Some? ==> ArgumentFits(ai, arg.value)
    ensures OnlyFormDiffers(SkipSimple(DETERMINISTIC, ai, arg, end, at), SkipSimple(BASIC, ai, arg, end, at))
  {
    hide Floats.NonPreferred;
  }

  lemma {:induction false} ContainerRefinesBasic(o: DecodeOptions, input: Buf, pos: nat, depth: nat, arg: Option<U64>, isMap: bool, at: nat)
    requires pos <= |input|
    ensures OnlyFormDiffers(SkipContainer(DETERMINISTIC, o, input, pos, depth, arg, isMap, at),
                            SkipContainer(BASIC, o, input, pos, depth, arg, isMap, at))
    decreases |input| - pos, 2
  {
    hide SkipMany, SkipToBreak;
    if arg.Some? { ManyRefineBasic(o, input, pos, depth, isMap, if isMap then 2 * arg.value else arg.value, None); }
  }

  lemma {:induction false} ManyRefineBasic(o: DecodeOptions, input: Buf, pos: nat, depth: nat, isMap: bool, count: nat, previous: Option<Buf>)
    requires pos <= |input|
    ensures OnlyFormDiffers(SkipMany(DETERMINISTIC, o, input, pos, depth, isMap, count, previous),
                            SkipMany(BASIC, o, input, pos, depth, isMap, count, None))
    decreases |input| - pos, 1
  {
    hide Skip, SkipMany, Less;
    SkipManyStep(DETERMINISTIC, o, input, pos, depth, isMap, count, previous);
    SkipManyStep(BASIC, o, input, pos, depth, isMap, count, None);
    if count > 0 {
      DeterministicRefinesBasic(o, input, pos, depth);
      var s := Skip(DETERMINISTIC, o, input, pos, depth);
      if s.Done? {
        ManyRefineBasic(o, input, s.end, depth, isMap, count - 1,
                        if isMap && count % 2 == 0 then Some(input[pos..s.end]) else previous);
      }
    }
  }
}
