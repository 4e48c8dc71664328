/** What skipping one data item without building a value does, for all three skippers. */
module Skipping {
  import opened Core
  import opened Heads
  import Utf8
  import Floats

  /** The checks that tell the skippers apart: UTF-8 in text, and deterministic encoding. */
  datatype Mode = Mode(utf8: bool, det: bool)

  const STRUCTURAL := Mode(false, false)
  const BASIC := Mode(true, false)
  const DETERMINISTIC := Mode(true, true)

  /** How `skip` validates: deterministic options choose the deterministic skipper and all others the basic one. */
  function ModeOf(o: DecodeOptions): Mode {
    if o.Det() then DETERMINISTIC else BASIC
  }

  predicate BadText(m: Mode, major: nat, data: Buf) {
    m.utf8 && major == 3 && !Utf8.Valid(data)
  }

  /** Skips the item at `pos`; the value is the number of items visited. */
  function Skip(m: Mode, o: DecodeOptions, input: Buf, pos: nat, depth: nat): (r: Parse<nat>)
    requires pos <= |input|
    ensures r.Done? ==> pos < r.end <= |input| && 1 <= r.value <= r.end - pos
    decreases |input| - pos, 0
  {
    if depth > o.maxDepth then Fail(NewError(DepthLimit, pos)) else
    var (h, p) :- ReadHead(m.det, input, pos);
    if h.major <= 1 then
      if h.arg.None? then Fail(NewError(InvalidAdditionalInfo, pos)) else Done(1, p)
    else if h.major <= 3 then
      var (_, end) :- SkipString(m, o, input, p, h, pos);
      Done(1, end)
    else if h.major <= 5 then
      var (n, end) :- SkipContainer(m, o, input, p, depth + 1, h.arg, h.major == 5, pos);
      Done(n + 1, end)
    else if h.major == 6 then
      if h.arg.None? then Fail(NewError(InvalidAdditionalInfo, pos)) else
      var (n, end) :- Skip(m, o, input, p, depth + 1);
      Done(n + 1, end)
    else SkipSimple(m, input[pos] % 32, h.arg, p, pos)
  }

  /** Major type 7, whose head with additional information `ai` ends at `end`. */
  function SkipSimple(m: Mode, ai: nat, arg: Option<U64>, end: nat, at: nat): (r: Parse<nat>)
    requires arg.Some? ==> ArgumentFits(ai, arg.value)
    ensures r.Done? ==> r == Done(1, end)
  {
    match arg
    case None => Fail(NewError(UnexpectedBreak, at))
    case Some(n) =>
      if ai == 24 && n < 32 then Fail(NewError(InvalidAdditionalInfo, at))
      else if m.det && Floats.NonPreferred(ai, n) then Fail(NewError(NonDeterministic, at))
      else Done(1, end)
  }

  /** Skips a string whose head, read at `at`, ends at `pos`. */
  function SkipString(m: Mode, o: DecodeOptions, input: Buf, pos: nat, h: Head, at: nat): (r: Parse<()>)
    requires pos <= |input|
    ensures r.Done? ==> pos <= r.end <= |input|
  {
    match h.arg
    case Some(n) =>
      if n > o.maxLen then Fail(NewError(CollectionLimit, at))
      else if pos + n > |input| then Fail(NewError(Eof, pos))
      else if BadText(m, h.major, input[pos..pos + n]) then Fail(NewError(InvalidUtf8, at))
      else Done((), pos + n)
    case None =>
      if m.det then Fail(NewError(NonDeterministic, at)) else SkipChunks(m, input, pos, h.major)
  }

  /** Skips the chunks of an indefinite-length string and its break. */
  function SkipChunks(m: Mode, input: Buf, pos: nat, major: nat): (r: Parse<()>)
    requires pos <= |input|
    ensures r.Done? ==> pos <= r.end <= |input|
    decreases |input| - pos
  {
    if pos == |input| then Fail(NewError(Eof, pos))
    else if input[pos] == 0xff then Done((), pos + 1)
    else
      var (h, p) :- ReadHead(m.det, input, pos);
      if h.major != major || h.arg.None? then Fail(NewError(UnexpectedType, pos))
      else if p + h.arg.value > |input| then Fail(NewError(Eof, p))
      else if BadText(m, major, input[p..p + h.arg.value]) then Fail(NewError(InvalidUtf8, pos))
      else SkipChunks(m, input, p + h.arg.value, major)
  }

  /** Skips the elements of an array or map whose head, read at `at`, ends at `pos`. */
  function SkipContainer(m: Mode, o: DecodeOptions, input: Buf, pos: nat, depth: nat,
                         arg: Option<U64>, isMap: bool, at: nat): (r: Parse<nat>)
    requires pos <= |input|
    ensures r.Done? ==> pos <= r.end <= |input| && r.value <= r.end - pos
    decreases |input| - pos, 2
  {
    match arg
    case Some(n) =>
      if n > o.maxLen || (isMap && 2 * n >= USIZE_LIMIT) then Fail(NewError(CollectionLimit, at))
      else SkipMany(m, o, input, pos, depth, isMap, if isMap then 2 * n else n, None)
    case None =>
      if m.det then Fail(NewError(NonDeterministic, at)) else SkipToBreak(m, o, input, pos, depth, isMap, 0, at)
  }

  /** Skips `count` items; in a deterministic map each key must exceed `previous`, the key before it. */
  function SkipMany(m: Mode, o: DecodeOptions, input: Buf, pos: nat, depth: nat,
                    isMap: bool, count: nat, previous: Option<Buf>): (r: Parse<nat>)
    requires pos <= |input|
    ensures r.Done? ==> pos <= r.end <= |input| && r.value <= r.end - pos
    decreases |input| - pos, 1
  {
    if count == 0 then Done(0, pos) else
    var (n, p) :- Skip(m, o, input, pos, depth);
    var isKey := isMap && count % 2 == 0 && m.det;
    if isKey && previous.Some? && !Less(previous.value, input[pos..p]) then Fail(NewError(NonDeterministic, pos))
    else
      var (k, end) :- SkipMany(m, o, input, p, depth, isMap, count - 1,
                               if isKey then Some(input[pos..p]) else previous);
      Done(n + k, end)
  }

  /** Skips items up to a break; `items` of them have been skipped since the head at `at`. */
  function SkipToBreak(m: Mode, o: DecodeOptions, input: Buf, pos: nat, depth: nat,
                       isMap: bool, items: nat, at: nat): (r: Parse<nat>)
    requires pos <= |input|
    ensures r.Done? ==> pos < r.end <= |input| && r.value < r.end - pos
    decreases |input| - pos, 1
  {
    if pos == |input| then Fail(NewError(Eof, pos))
    else if input[pos] == 0xff then
      if isMap && items % 2 != 0 then Fail(NewError(UnexpectedBreak, pos)) else Done(0, pos + 1)
    else
      var (n, p) :- Skip(m, o, input, pos, depth);
      if items + 1 > ItemLimit(o, isMap) then Fail(NewError(CollectionLimit, at))
      else
        var (k, end) :- SkipToBreak(m, o, input, p, depth, isMap, items + 1, at);
        Done(n + k, end)
  }

  /** `max_collection_len.saturating_mul(2)` for maps. */
  function ItemLimit(o: DecodeOptions, isMap: bool): nat {
    if isMap then Min(2 * o.maxLen, USIZE_MAX) else o.maxLen
  }

  // ----- one turn of each loop

  /** A skip that continues as `rest` after `n` items. */
  function AddVisits(n: nat, rest: Parse<nat>): Parse<nat> {
    match rest case Done(k, end) => Done(n + k, end) case Fail(e) => Fail(e)
  }

  lemma SkipManyStep(m: Mode, o: DecodeOptions, input: Buf, pos: nat, depth: nat, isMap: bool, count: nat, previous: Option<Buf>)
    requires pos <= |input|
    ensures var all := SkipMany(m, o, input, pos, depth, isMap, count, previous);
            var s := Skip(m, o, input, pos, depth);
            var isKey := isMap && count % 2 == 0 && m.det;
            if count == 0 then all == Done(0, pos)
            else if s.Fail? then all == Fail(s.error)
            else if isKey && previous.Some? && !Less(previous.value, input[pos..s.end]) then all == Fail(NewError(NonDeterministic, pos))
            else all == AddVisits(s.value, SkipMany(m, o, input, s.end, depth, isMap, count - 1,
                                                    if isKey then Some(input[pos..s.end]) else previous))
  {
    hide Skip, Less;
  }

  lemma SkipToBreakStep(m: Mode, o: DecodeOptions, input: Buf, pos: nat, depth: nat, isMap: bool, items: nat, at: nat)
    requires pos <= |input|
    ensures var all := SkipToBreak(m, o, input, pos, depth, isMap, items, at);
            var s := Skip(m, o, input, pos, depth);
            if pos == |input| then all == Fail(NewError(Eof, pos))
            else if input[pos] == 0xff then
              all == if isMap && items % 2 != 0 then Fail(NewError(UnexpectedBreak, pos)) else Done(0, pos + 1)
            else if s.Fail? then all == Fail(s.error)
            else if items + 1 > ItemLimit(o, isMap) then all == Fail(NewError(CollectionLimit, at))
            else all == AddVisits(s.value, SkipToBreak(m, o, input, s.end, depth, isMap, items + 1, at))
  {
    hide Skip;
  }

  lemma SkipChunksStep(m: Mode, input: Buf, pos: nat, major: nat)
    requires pos <= |input|
    ensures var all := SkipChunks(m, input, pos, major);
            var h := ReadHead(m.det, input, pos);
            if pos == |input| then all == Fail(NewError(Eof, pos))
            else if input[pos] == 0xff then all == Done((), pos + 1)
            else if h.Fail? then all == Fail(h.error)
            else if h.value.major != major || h.value.arg.None? then all == Fail(NewError(UnexpectedType, pos))
            else
              var next := h.end + h.value.arg.value;
              if next > |input| then all == Fail(NewError(Eof, h.end))
              else if BadText(m, major, input[h.end..next]) then all == Fail(NewError(InvalidUtf8, pos))
              else all == SkipChunks(m, input, next, major)
  {
    hide ReadHead, BadText;
  }

  // ----- one item, given its head

  lemma SkipRefused(m: Mode, o: DecodeOptions, input: Buf, pos: nat, depth: nat, h: Parse<Head>)
    requires pos <= |input| && h == ReadHead(m.det, input, pos)
    ensures depth > o.maxDepth ==> Skip(m, o, input, pos, depth) == Fail(NewError(DepthLimit, pos))
    ensures depth <= o.maxDepth && h.Fail? ==> Skip(m, o, input, pos, depth) == Fail(h.error)
  {
    hide ReadHead;
  }

  lemma SkipItemStep(m: Mode, o: DecodeOptions, input: Buf, pos: nat, depth: nat, h: Parse<Head>)
    requires pos <= |input| && depth <= o.maxDepth && h == ReadHead(m.det, input, pos) && h.Done?
    ensures var r := Skip(m, o, input, pos, depth);
            var arg := h.value.arg;
            if h.value.major <= 1 then r == if arg.None? then Fail(NewError(InvalidAdditionalInfo, pos)) else Done(1, h.end)
            else if h.value.major <= 3 then
              var s := SkipString(m, o, input, h.end, h.value, pos);
              r == if s.Fail? then Fail(s.error) else Done(1, s.end)
            else if h.value.major <= 5 then r == AddVisits(1, SkipContainer(m, o, input, h.end, depth + 1, arg, h.value.major == 5, pos))
            else if h.value.major == 6 then
              r == if arg.None? then Fail(NewError(InvalidAdditionalInfo, pos)) else AddVisits(1, Skip(m, o, input, h.end, depth + 1))
            else r == SkipSimple(m, input[pos] % 32, arg, h.end, pos)
  {
    hide ReadHead, SkipString;
  }
}
