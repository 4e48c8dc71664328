/** What decoding one data item into a value tree does: `decode_owned_value_at` and its helpers. */
module Decoding {
  import opened Core
  import opened Heads
  import opened Values
  import Utf8
  import Floats

  function Decode(o: DecodeOptions, input: Buf, pos: nat, depth: nat): (r: Parse<Value>)
    requires pos <= |input|
    ensures r.Done? ==> pos < r.end <= |input|
    decreases |input| - pos, 0
  {
    if depth > o.maxDepth then Fail(NewError(DepthLimit, pos)) else
    var (h, p) :- ReadHead(o.Det(), input, pos);
    if h.major <= 1 then
      match h.arg
      case None => Fail(NewError(InvalidAdditionalInfo, pos))
      case Some(n) => Done(if h.major == 0 then Unsigned(n) else Negative(-1 - n), p)
    else if h.major <= 3 then DecodeString(o, input, p, h, pos)
    else if h.major == 4 then
      var (vs, end) :- DecodeArray(o, input, p, depth, h.arg, pos);
      Done(Array(vs), end)
    else if h.major == 5 then
      var (es, end) :- DecodeMap(o, input, p, depth, h.arg, pos);
      Done(Map(es), end)
    else if h.major == 6 then
      match h.arg
      case None => Fail(NewError(InvalidAdditionalInfo, pos))
      case Some(n) =>
        var (v, end) :- Decode(o, input, p, depth + 1);
        Done(Tag(n, v), end)
    else DecodeSimple(input[pos] % 32, h.arg, p, pos)
  }

  /** Major type 7, whose head with additional information `ai` ends at `end`. */
  function DecodeSimple(ai: nat, arg: Option<U64>, end: nat, at: nat): (r: Parse<Value>)
    requires arg.Some? ==> ArgumentFits(ai, arg.value)
    ensures r.Done? ==> r.end == end
  {
    match arg
    case None => Fail(NewError(UnexpectedBreak, at))
    case Some(n) =>
      if ai == 20 || ai == 21 then Done(Bool(ai == 21), end)
      else if ai == 22 then Done(Null, end)
      else if ai == 23 then Done(Undefined, end)
      else if ai == 24 then
        if n >= 32 then Done(Simple(n), end) else Fail(NewError(InvalidAdditionalInfo, at))
      else if ai == 25 then Done(Float(Floats.HalfToDouble(n)), end)
      else if ai == 26 then Done(Float(Floats.SingleToDouble(n)), end)
      else if ai == 27 then Done(Float(n), end)
      else if ai < 20 then Done(Simple(ai), end)
      else Fail(NewError(InvalidAdditionalInfo, at))
  }

  /** Bytes or text, whose head read at `at` ends at `pos`. */
  function DecodeString(o: DecodeOptions, input: Buf, pos: nat, h: Head, at: nat): (r: Parse<Value>)
    requires pos <= |input|
    ensures r.Done? ==> pos <= r.end <= |input|
  {
    match h.arg
    case Some(n) =>
      if n > o.maxLen then Fail(NewError(CollectionLimit, at))
      else if pos + n > |input| then Fail(NewError(Eof, pos))
      else
        var data := input[pos..pos + n];
        if h.major == 2 then Done(Bytes(data), pos + n)
        else if Utf8.Valid(data) then Done(Text(data), pos + n)
        else Fail(NewError(InvalidUtf8, at))
    case None =>
      if o.Det() then Fail(NewError(NonDeterministic, at)) else
      var (data, end) :- DecodeChunks(o, input, pos, h.major, 0);
      Done(if h.major == 3 then Text(data) else Bytes(data), end)
  }

  /** The chunks of an indefinite-length string up to its break, when `length` bytes precede them. */
  function DecodeChunks(o: DecodeOptions, input: Buf, pos: nat, major: nat, length: nat): (r: Parse<Buf>)
    requires pos <= |input|
    ensures r.Done? ==> pos <= r.end <= |input| && (major == 3 ==> Utf8.Valid(r.value))
    decreases |input| - pos
  {
    if pos == |input| then Fail(NewError(Eof, pos))
    else if input[pos] == 0xff then Done([], pos + 1)
    else
      var (h, p) :- ReadHead(o.Det(), input, pos);
      if h.major != major || h.arg.None? then Fail(NewError(UnexpectedType, pos)) else
      var n := h.arg.value;
      if length + n > o.maxLen then Fail(NewError(CollectionLimit, pos))
      else if p + n > |input| then Fail(NewError(Eof, p))
      else if major == 3 && !Utf8.Valid(input[p..p + n]) then Fail(NewError(InvalidUtf8, pos))
      else
        var (rest, end) :- DecodeChunks(o, input, p + n, major, length + n);
        assert major == 3 ==> Utf8.Valid(input[p..p + n] + rest) by {
          if major == 3 { Utf8.ValidConcat(input[p..p + n], rest); }
        }
        Done(input[p..p + n] + rest, end)
  }

  function DecodeArray(o: DecodeOptions, input: Buf, pos: nat, depth: nat, arg: Option<U64>, at: nat): (r: Parse<seq<Value>>)
    requires pos <= |input|
    ensures r.Done? ==> pos <= r.end <= |input|
    decreases |input| - pos, 2
  {
    match arg
    case Some(n) =>
      if n > o.maxLen then Fail(NewError(CollectionLimit, at)) else DecodeMany(o, input, pos, depth + 1, n)
    case None =>
      if o.Det() then Fail(NewError(NonDeterministic, at)) else DecodeToBreak(o, input, pos, depth + 1, 0, at)
  }

  /** Exactly `count` items. */
  function DecodeMany(o: DecodeOptions, input: Buf, pos: nat, depth: nat, count: nat): (r: Parse<seq<Value>>)
    requires pos <= |input|
    ensures r.Done? ==> pos <= r.end <= |input| && |r.value| == count
    decreases |input| - pos, 1
  {
    if count == 0 then Done([], pos) else
    var (v, p) :- Decode(o, input, pos, depth);
    var (vs, end) :- DecodeMany(o, input, p, depth, count - 1);
    Done([v] + vs, end)
  }

  /** Items up to a break, when `count` of them have been decoded since the head at `at`. */
  function DecodeToBreak(o: DecodeOptions, input: Buf, pos: nat, depth: nat, count: nat, at: nat): (r: Parse<seq<Value>>)
    requires pos <= |input|
    ensures r.Done? ==> pos < r.end <= |input|
    decreases |input| - pos, 1
  {
    if pos == |input| then Fail(NewError(Eof, pos))
    else if input[pos] == 0xff then Done([], pos + 1)
    else if count == o.maxLen then Fail(NewError(CollectionLimit, at))
    else
      var (v, p) :- Decode(o, input, pos, depth);
      var (vs, end) :- DecodeToBreak(o, input, p, depth, count + 1, at);
      Done([v] + vs, end)
  }

  function DecodeMap(o: DecodeOptions, input: Buf, pos: nat, depth: nat, arg: Option<U64>, at: nat): (r: Parse<seq<Entry>>)
    requires pos <= |input|
    ensures r.Done? ==> pos <= r.end <= |input|
    decreases |input| - pos, 2
  {
    match arg
    case Some(n) =>
      if n > o.maxLen then Fail(NewError(CollectionLimit, at)) else DecodeEntries(o, input, pos, depth + 1, n)
    case None =>
      if o.Det() then Fail(NewError(NonDeterministic, at))
      else DecodeEntriesToBreak(o, input, pos, depth + 1, 0, at)
  }

  function DecodeEntries(o: DecodeOptions, input: Buf, pos: nat, depth: nat, count: nat): (r: Parse<seq<Entry>>)
    requires pos <= |input|
    ensures r.Done? ==> pos <= r.end <= |input| && |r.value| == count
    decreases |input| - pos, 1
  {
    if count == 0 then Done([], pos) else
    var (k, p) :- Decode(o, input, pos, depth);
    var (v, q) :- Decode(o, input, p, depth);
    var (es, end) :- DecodeEntries(o, input, q, depth, count - 1);
    Done([Entry(k, v)] + es, end)
  }

  function DecodeEntriesToBreak(o: DecodeOptions, input: Buf, pos: nat, depth: nat, count: nat, at: nat): (r: Parse<seq<Entry>>)
    requires pos <= |input|
    ensures r.Done? ==> pos < r.end <= |input|
    decreases |input| - pos, 1
  {
    if pos == |input| then Fail(NewError(Eof, pos))
    else if input[pos] == 0xff then Done([], pos + 1)
    else if count == o.maxLen then Fail(NewError(CollectionLimit, at))
    else
      var (k, p) :- Decode(o, input, pos, depth);
      if p == |input| then Fail(NewError(Eof, p))
      else if input[p] == 0xff then Fail(NewError(UnexpectedBreak, p))
      else
        var (v, q) :- Decode(o, input, p, depth);
        var (es, end) :- DecodeEntriesToBreak(o, input, q, depth, count + 1, at);
        Done([Entry(k, v)] + es, end)
  }

  /** `from_slice_value`: one item and nothing after it. */
  function DecodeValue(input: Buf): (r: Result<Value>) {
    Whole(input, Decode(DEFAULT_OPTIONS, input, 0, 0))
  }

  // ----- one item, given its head

  function ArrayItem(vs: Parse<seq<Value>>): Parse<Value> {
    match vs case Done(items, end) => Done(Array(items), end) case Fail(e) => Fail(e)
  }

  function MapItem(es: Parse<seq<Entry>>): Parse<Value> {
    match es case Done(entries, end) => Done(Map(entries), end) case Fail(e) => Fail(e)
  }

  function TagItem(tag: U64, v: Parse<Value>): Parse<Value> {
    match v case Done(inner, end) => Done(Tag(tag, inner), end) case Fail(e) => Fail(e)
  }

  lemma DecodeItemStep(o: DecodeOptions, input: Buf, pos: nat, depth: nat, h: Parse<Head>)
    requires pos <= |input| && depth <= o.maxDepth && h == ReadHead(o.Det(), input, pos) && h.Done?
    ensures var r := Decode(o, input, pos, depth);
            var arg := h.value.arg;
            if h.value.major <= 1 then
              r == if arg.None? then Fail(NewError(InvalidAdditionalInfo, pos))
                   else Done(if h.value.major == 0 then Unsigned(arg.value) else Negative(-1 - arg.value), h.end)
            else if h.value.major <= 3 then r == DecodeString(o, input, h.end, h.value, pos)
            else if h.value.major == 4 then r == ArrayItem(DecodeArray(o, input, h.end, depth, arg, pos))
            else if h.value.major == 5 then r == MapItem(DecodeMap(o, input, h.end, depth, arg, pos))
            else if h.value.major == 6 then
              r == if arg.None? then Fail(NewError(InvalidAdditionalInfo, pos))
                   else TagItem(arg.value, Decode(o, input, h.end, depth + 1))
            else r == DecodeSimple(input[pos] % 32, arg, h.end, pos)
  {
    hide ReadHead, DecodeString, DecodeSimple;
  }

  lemma DecodeRefused(o: DecodeOptions, input: Buf, pos: nat, depth: nat, h: Parse<Head>)
    requires pos <= |input| && h == ReadHead(o.Det(), input, pos)
    ensures depth > o.maxDepth ==> Decode(o, input, pos, depth) == Fail(NewError(DepthLimit, pos))
    ensures depth <= o.maxDepth && h.Fail? ==> Decode(o, input, pos, depth) == Fail(h.error)
  {
    hide ReadHead;
  }

  // ----- one turn of each loop

  lemma DecodeManyStep(o: DecodeOptions, input: Buf, pos: nat, depth: nat, count: nat)
    requires pos <= |input|
    ensures var all := DecodeMany(o, input, pos, depth, count);
            var v := Decode(o, input, pos, depth);
            if count == 0 then all == Done([], pos)
            else if v.Fail? then all == Fail(v.error)
            else all == After([v.value], DecodeMany(o, input, v.end, depth, count - 1))
  {
    hide Decode;
  }

  lemma DecodeToBreakStep(o: DecodeOptions, input: Buf, pos: nat, depth: nat, count: nat, at: nat)
    requires pos <= |input|
    ensures var all := DecodeToBreak(o, input, pos, depth, count, at);
            var v := Decode(o, input, pos, depth);
            if pos == |input| then all == Fail(NewError(Eof, pos))
            else if input[pos] == 0xff then all == Done([], pos + 1)
            else if count == o.maxLen then all == Fail(NewError(CollectionLimit, at))
            else if v.Fail? then all == Fail(v.error)
            else all == After([v.value], DecodeToBreak(o, input, v.end, depth, count + 1, at))
  {
    hide Decode;
  }

  lemma DecodeEntriesStep(o: DecodeOptions, input: Buf, pos: nat, depth: nat, count: nat)
    requires pos <= |input|
    ensures var all := DecodeEntries(o, input, pos, depth, count);
            var k := Decode(o, input, pos, depth);
            if count == 0 then all == Done([], pos)
            else if k.Fail? then all == Fail(k.error)
            else
              var v := Decode(o, input, k.end, depth);
              if v.Fail? then all == Fail(v.error)
              else all == After([Entry(k.value, v.value)], DecodeEntries(o, input, v.end, depth, count - 1))
  {
    hide Decode;
  }

  lemma DecodeEntriesToBreakStep(o: DecodeOptions, input: Buf, pos: nat, depth: nat, count: nat, at: nat)
    requires pos <= |input|
    ensures var all := DecodeEntriesToBreak(o, input, pos, depth, count, at);
            var k := Decode(o, input, pos, depth);
            if pos == |input| then all == Fail(NewError(Eof, pos))
            else if input[pos] == 0xff then all == Done([], pos + 1)
            else if count == o.maxLen then all == Fail(NewError(CollectionLimit, at))
            else if k.Fail? then all == Fail(k.error)
            else if k.end == |input| then all == Fail(NewError(Eof, k.end))
            else if input[k.end] == 0xff then all == Fail(NewError(UnexpectedBreak, k.end))
            else
              var v := Decode(o, input, k.end, depth);
              if v.Fail? then all == Fail(v.error)
              else all == After([Entry(k.value, v.value)], DecodeEntriesToBreak(o, input, v.end, depth, count + 1, at))
  {
    hide Decode;
  }

  lemma DecodeChunksStep(o: DecodeOptions, input: Buf, pos: nat, major: nat, length: nat)
    requires pos <= |input|
    ensures var all := DecodeChunks(o, input, pos, major, length);
            var h := ReadHead(o.Det(), input, pos);
            if pos == |input| then all == Fail(NewError(Eof, pos))
            else if input[pos] == 0xff then all == Done([], pos + 1)
            else if h.Fail? then all == Fail(h.error)
            else if h.value.major != major || h.value.arg.None? then all == Fail(NewError(UnexpectedType, pos))
            else
              var n := h.value.arg.value;
              if length + n > o.maxLen then all == Fail(NewError(CollectionLimit, pos))
              else if h.end + n > |input| then all == Fail(NewError(Eof, h.end))
              else if major == 3 && !Utf8.Valid(input[h.end..h.end + n]) then all == Fail(NewError(InvalidUtf8, pos))
              else all == After(input[h.end..h.end + n], DecodeChunks(o, input, h.end + n, major, length + n))
  {
    hide ReadHead, Utf8.Valid;
  }
}
