/** The cursor of src/decode.rs and its three skippers, step by step as they move. */
module SliceDecoders {
  import opened Core
  import opened Heads
  import opened Skipping
  import Floats
  import Utf8

  /** The three parts of a head as `header` returns them. */
  datatype Header = Header(major: nat, arg: Option<U64>, at: nat)

  /** A head was read as specified; `r` also says where it started. */
  predicate HeaderAgrees(r: Result<Header>, at: nat, pos: nat, spec: Parse<Head>) {
    match spec
    case Done(h, end) => r == Ok(Header(h.major, h.arg, at)) && pos == end
    case Fail(e) => r == Err(e)
  }

  /** An argument was read as specified for the whole head. */
  predicate ArgumentAgrees(r: Result<Option<U64>>, pos: nat, spec: Parse<Head>) {
    match spec
    case Done(h, end) => r == Ok(h.arg) && pos == end
    case Fail(e) => r == Err(e)
  }

  /** A skip ended where, or failed as, specified; the number of visited items is not returned. */
  predicate SkipAgrees<T>(r: Result<()>, pos: nat, spec: Parse<T>) {
    match spec
    case Done(_, end) => r == Ok(()) && pos == end
    case Fail(e) => r == Err(e)
  }

  /** Two skips end alike. */
  predicate SameEnd(a: Parse<nat>, b: Parse<nat>) {
    match a
    case Done(_, end) => b.Done? && b.end == end
    case Fail(e) => b == Fail(e)
  }

  lemma EndsAlike(all: Parse<nat>)
    ensures SameEnd(all, all)
  {
  }

  /** One turn of a counted skipping loop, when the whole loop ends as what is left of it. */
  lemma ManyTurn(all: Parse<nat>, m: Mode, o: DecodeOptions, input: Buf, pos: nat, depth: nat,
                 isMap: bool, count: nat, previous: Option<Buf>)
    requires pos <= |input| && SameEnd(all, SkipMany(m, o, input, pos, depth, isMap, count, previous))
    ensures var s := Skip(m, o, input, pos, depth);
            var isKey := isMap && count % 2 == 0 && m.det;
            if count == 0 then all.Done? && all.end == pos
            else if s.Fail? then all == Fail(s.error)
            else if isKey && previous.Some? && !Less(previous.value, input[pos..s.end]) then all == Fail(NewError(NonDeterministic, pos))
            else SameEnd(all, SkipMany(m, o, input, s.end, depth, isMap, count - 1, if isKey then Some(input[pos..s.end]) else previous))
  {
    hide Skip, SkipMany, Less;
    SkipManyStep(m, o, input, pos, depth, isMap, count, previous);
  }

  /** One turn of a skipping loop that looks for the break. */
  lemma ToBreakTurn(all: Parse<nat>, m: Mode, o: DecodeOptions, input: Buf, pos: nat, depth: nat, isMap: bool, items: nat, at: nat)
    requires pos <= |input| && SameEnd(all, SkipToBreak(m, o, input, pos, depth, isMap, items, at))
    ensures var s := Skip(m, o, input, pos, depth);
            if pos == |input| then all == Fail(NewError(Eof, pos))
            else if input[pos] == 0xff then
              if isMap && items % 2 != 0 then all == Fail(NewError(UnexpectedBreak, pos)) else all.Done? && all.end == pos + 1
            else if s.Fail? then all == Fail(s.error)
            else if items + 1 > ItemLimit(o, isMap) then all == Fail(NewError(CollectionLimit, at))
            else SameEnd(all, SkipToBreak(m, o, input, s.end, depth, isMap, items + 1, at))
  {
    hide Skip, SkipToBreak;
    SkipToBreakStep(m, o, input, pos, depth, isMap, items, at);
  }

  class SliceDecoder {
    const input: Buf
    const options: DecodeOptions
    var pos: nat

    predicate Valid()
      reads this
    {
      pos <= |input|
    }

    constructor (input: Buf, options: DecodeOptions)
      ensures Valid() && pos == 0 && this.input == input && this.options == options
    {
      this.input := input;
      this.options := options;
      pos := 0;
    }

    function Peek(): Result<Byte>
      requires Valid()
      reads this
    {
      if pos < |input| then Ok(input[pos]) else Err(NewError(Eof, pos))
    }

    function Finish(): Result<()>
      reads this
    {
      if options.allowTrailing || pos == |input| then Ok(()) else Err(NewError(TrailingData, pos))
    }

    method ReadByte() returns (r: Result<Byte>)
      requires Valid()
      modifies this
      ensures Valid() && old(pos) <= pos
      ensures Agrees(r, pos, if old(pos) < |input| then Done(input[old(pos)], old(pos) + 1) else Fail(NewError(Eof, old(pos))))
    {
      var b :- Peek();
      pos := pos + 1;
      return Ok(b);
    }

    method Take(n: U64) returns (r: Result<Buf>)
      requires Valid()
      modifies this
      ensures Valid() && old(pos) <= pos
      ensures Agrees(r, pos, if old(pos) + n <= |input| then Done(input[old(pos)..old(pos) + n], old(pos) + n)
                             else Fail(NewError(Eof, old(pos))))
    {
      // A sum that overflows is past the end as well.
      if pos + n > |input| {
        return Err(NewError(Eof, pos));
      }
      r := Ok(input[pos..pos + n]);
      pos := pos + n;
    }

    /** The argument that additional information `ai` announces, for the head that starts at `head`. */
    method ReadArgument(ai: nat, head: nat) returns (r: Result<Option<U64>>)
      requires Valid() && head < |input| && pos == head + 1 && ai == input[head] % 32
      modifies this
      ensures Valid() && old(pos) <= pos
      ensures ArgumentAgrees(r, pos, ReadHead(options.Det(), input, head))
    {
      hide FromBE, Pow256;
      Pow256Values();
      var value: U64, width := 0, 0;
      if ai <= 23 {
        value := ai;
      } else if ai <= 27 {
        width := if ai == 24 then 1 else if ai == 25 then 2 else if ai == 26 then 4 else 8;
        var bytes :- Take(width);
        FromBEFits(bytes);
        value := FromBE(bytes);
      } else if ai == 31 {
        return Ok(None);
      } else {
        return Err(NewError(InvalidAdditionalInfo, head));
      }
      if options.Det() && input[head] / 32 != 7 {
        var preferred := if value <= 23 then 0 else if value <= 255 then 1
                         else if value <= 65535 then 2 else if value <= 4_294_967_295 then 4 else 8;
        if width != preferred {
          return Err(NewError(NonDeterministic, head));
        }
      }
      return Ok(Some(value));
    }

    method ReadHeader() returns (r: Result<Header>)
      requires Valid()
      modifies this
      ensures Valid() && old(pos) <= pos && (r.Ok? ==> old(pos) < pos && r.value.major < 8)
      ensures HeaderAgrees(r, old(pos), pos, ReadHead(options.Det(), input, old(pos)))
    {
      var offset := pos;
      var initial :- ReadByte();
      var arg :- ReadArgument(initial % 32, offset);
      return Ok(Header(initial / 32, arg, offset));
    }

    /** `raw`. */
    method Raw() returns (r: Result<Buf>)
      requires Valid()
      modifies this
      ensures Valid() && old(pos) <= pos
      ensures match Skipping.Skip(ModeOf(options), options, input, old(pos), 0)
              case Done(_, end) => r == Ok(input[old(pos)..end]) && pos == end
              case Fail(e) => r == Err(e)
    {
      hide Skipping.Skip;
      var start := pos;
      var _ :- Skip();
      return Ok(input[start..pos]);
    }

    /** `raw_structural`. */
    method RawStructural() returns (r: Result<Buf>)
      requires Valid()
      modifies this
      ensures Valid() && old(pos) <= pos
      ensures match Skipping.Skip(STRUCTURAL, options, input, old(pos), 0)
              case Done(_, end) => r == Ok(input[old(pos)..end]) && pos == end
              case Fail(e) => r == Err(e)
    {
      hide Skipping.Skip;
      var start := pos;
      var _ :- SkipStructuralAt(0);
      return Ok(input[start..pos]);
    }

    /** `skip`. */
    method Skip() returns (r: Result<()>)
      requires Valid()
      modifies this
      ensures Valid() && old(pos) <= pos
      ensures SkipAgrees(r, pos, Skipping.Skip(ModeOf(options), options, input, old(pos), 0))
    {
      hide Skipping.Skip;
      if options.Det() {
        r := SkipAt(0, true);
      } else {
        r := SkipBasicAt(0);
      }
    }

    // ----- well-formedness and UTF-8

    method BasicHeader() returns (r: Result<Header>)
      requires Valid()
      modifies this
      ensures Valid() && old(pos) <= pos && (r.Ok? ==> old(pos) < pos && r.value.major < 8)
      ensures HeaderAgrees(r, old(pos), pos, ReadHead(false, input, old(pos)))
    {
      var at := pos;
      var initial :- ReadByte();
      var ai := initial % 32;
      var argument: Option<U64> := None;
      if ai <= 23 {
        argument := Some(ai);
      } else if ai <= 27 {
        var bytes :- Take(if ai == 24 then 1 else if ai == 25 then 2 else if ai == 26 then 4 else 8);
        FromBEFits(bytes);
        argument := Some(FromBE(bytes));
      } else if ai != 31 {
        return Err(NewError(InvalidAdditionalInfo, at));
      }
      return Ok(Header(initial / 32, argument, at));
    }

    method SkipBasicAt(depth: nat) returns (r: Result<()>)
      requires Valid()
      modifies this
      ensures Valid() && old(pos) <= pos && (r.Ok? ==> old(pos) < pos)
      ensures SkipAgrees(r, pos, Skipping.Skip(BASIC, options, input, old(pos), depth))
      decreases |input| - pos, 1
    {
      hide ReadHead, Utf8.Valid, Floats.NonPreferred;
      if depth > options.maxDepth {
        return Err(NewError(DepthLimit, pos));
      }
      var h :- BasicHeader();
      if h.major <= 1 {
        if h.arg.None? {
          return Err(NewError(InvalidAdditionalInfo, h.at));
        }
        r := Ok(());
      } else if h.major <= 3 {
        r := SkipBasicString(h);
      } else if h.major <= 5 {
        r := SkipBasicContainer(h.arg, h.major == 5, depth, h.at);
      } else if h.major == 6 {
        if h.arg.None? {
          return Err(NewError(InvalidAdditionalInfo, h.at));
        }
        r := SkipBasicAt(depth + 1);
      } else {
        if h.arg.None? {
          return Err(NewError(UnexpectedBreak, h.at));
        }
        if input[h.at] % 32 == 24 && h.arg.value < 32 {
          return Err(NewError(InvalidAdditionalInfo, h.at));
        }
        r := Ok(());
      }
    }

    /** The arm of `skip_basic_at` for byte and text strings. */
    method SkipBasicString(h: Header) returns (r: Result<()>)
      requires Valid() && 2 <= h.major <= 3
      modifies this
      ensures Valid() && old(pos) <= pos
      ensures SkipAgrees(r, pos, SkipString(BASIC, options, input, old(pos), Head(h.major, h.arg), h.at))
    {
      hide ReadHead, Utf8.Valid, SkipChunks;
      if h.arg.Some? {
        if h.arg.value > options.maxLen {
          return Err(NewError(CollectionLimit, h.at));
        }
        var data :- Take(h.arg.value);
        if h.major == 3 && !Utf8.Valid(data) {
          return Err(NewError(InvalidUtf8, h.at));
        }
        return Ok(());
      }
      while true
        invariant Valid() && old(pos) <= pos
        invariant SkipChunks(BASIC, input, old(pos), h.major) == SkipChunks(BASIC, input, pos, h.major)
        decreases |input| - pos
      {
        SkipChunksStep(BASIC, input, pos, h.major);
        var next :- Peek();
        if next == 0xff {
          pos := pos + 1;
          return Ok(());
        }
        var chunkAt := pos;
        var c :- BasicHeader();
        if c.major != h.major || c.arg.None? {
          return Err(NewError(UnexpectedType, chunkAt));
        }
        var data :- Take(c.arg.value);
        if h.major == 3 && !Utf8.Valid(data) {
          return Err(NewError(InvalidUtf8, chunkAt));
        }
      }
    }

    method SkipBasicContainer(length: Option<U64>, isMap: bool, depth: nat, at: nat) returns (r: Result<()>)
      requires Valid()
      modifies this
      ensures Valid() && old(pos) <= pos
      ensures SkipAgrees(r, pos, SkipContainer(BASIC, options, input, old(pos), depth + 1, length, isMap, at))
      decreases |input| - pos, 2
    {
      hide Skipping.Skip, SkipMany, SkipToBreak, ItemLimit, SameEnd;
      if length.Some? {
        if length.value > options.maxLen {
          return Err(NewError(CollectionLimit, at));
        }
        var count := if isMap then 2 * length.value else length.value;
        if count >= USIZE_LIMIT {
          return Err(NewError(CollectionLimit, at));
        }
        ghost var all := SkipMany(BASIC, options, input, pos, depth + 1, isMap, count, None);
        EndsAlike(all);
        var i := 0;
        while i < count
          invariant i <= count && Valid() && old(pos) <= pos
          invariant SameEnd(all, SkipMany(BASIC, options, input, pos, depth + 1, isMap, count - i, None))
        {
          ManyTurn(all, BASIC, options, input, pos, depth + 1, isMap, count - i, None);
          var _ :- SkipBasicAt(depth + 1);
          i := i + 1;
        }
        ManyTurn(all, BASIC, options, input, pos, depth + 1, isMap, 0, None);
        return Ok(());
      }
      ghost var all := SkipToBreak(BASIC, options, input, pos, depth + 1, isMap, 0, at);
      EndsAlike(all);
      var items := 0;
      while true
        invariant Valid() && old(pos) <= pos
        invariant SameEnd(all, SkipToBreak(BASIC, options, input, pos, depth + 1, isMap, items, at))
        decreases |input| - pos
      {
        ToBreakTurn(all, BASIC, options, input, pos, depth + 1, isMap, items, at);
        var next :- Peek();
        if next == 0xff {
          pos := pos + 1;
          if isMap && items % 2 != 0 {
            return Err(NewError(UnexpectedBreak, pos - 1));
          }
          return Ok(());
        }
        var _ :- SkipBasicAt(depth + 1);
        items := items + 1;
        if items > ItemLimit(options, isMap) {
          return Err(NewError(CollectionLimit, at));
        }
      }
    }

    // ----- the deterministic rules as well

    method SkipAt(depth: nat, validateUtf8: bool) returns (r: Result<()>)
      requires Valid()
      modifies this
      ensures Valid() && old(pos) <= pos && (r.Ok? ==> old(pos) < pos)
      ensures SkipAgrees(r, pos, Skipping.Skip(Mode(validateUtf8, options.Det()), options, input, old(pos), depth))
      decreases |input| - pos, 1
    {
      hide ReadHead, Utf8.Valid, Floats.NonPreferred;
      if depth > options.maxDepth {
        return Err(NewError(DepthLimit, pos));
      }
      var h :- ReadHeader();
      if h.major <= 1 {
        if h.arg.None? {
          return Err(NewError(InvalidAdditionalInfo, h.at));
        }
        r := Ok(());
      } else if h.major <= 3 {
        r := SkipStringAt(h, validateUtf8);
      } else if h.major <= 5 {
        r := SkipContainerAt(h.arg, h.major == 5, depth, h.at, validateUtf8);
      } else if h.major == 6 {
        if h.arg.None? {
          return Err(NewError(InvalidAdditionalInfo, h.at));
        }
        r := SkipAt(depth + 1, validateUtf8);
      } else {
        if h.arg.None? {
          return Err(NewError(UnexpectedBreak, h.at));
        }
        var ai := input[h.at] % 32;
        if ai == 24 && h.arg.value < 32 {
          return Err(NewError(InvalidAdditionalInfo, h.at));
        }
        if options.Det() && Floats.NonPreferred(ai, h.arg.value) {
          return Err(NewError(NonDeterministic, h.at));
        }
        r := Ok(());
      }
    }

    /** The arm of `skip_at` for byte and text strings. */
    method SkipStringAt(h: Header, validateUtf8: bool) returns (r: Result<()>)
      requires Valid() && 2 <= h.major <= 3
      modifies this
      ensures Valid() && old(pos) <= pos
      ensures SkipAgrees(r, pos, SkipString(Mode(validateUtf8, options.Det()), options, input, old(pos), Head(h.major, h.arg), h.at))
    {
      hide ReadHead, Utf8.Valid, SkipChunks;
      if h.arg.Some? {
        if h.arg.value > options.maxLen {
          return Err(NewError(CollectionLimit, h.at));
        }
        var data :- Take(h.arg.value);
        if validateUtf8 && h.major == 3 && !Utf8.Valid(data) {
          return Err(NewError(InvalidUtf8, h.at));
        }
        return Ok(());
      }
      if options.Det() {
        return Err(NewError(NonDeterministic, h.at));
      }
      ghost var m := Mode(validateUtf8, false);
      while true
        invariant Valid() && old(pos) <= pos
        invariant SkipChunks(m, input, old(pos), h.major) == SkipChunks(m, input, pos, h.major)
        decreases |input| - pos
      {
        SkipChunksStep(m, input, pos, h.major);
        var next :- Peek();
        if next == 0xff {
          pos := pos + 1;
          return Ok(());
        }
        var chunkAt := pos;
        var c :- ReadHeader();
        if c.major != h.major || c.arg.None? {
          return Err(NewError(UnexpectedType, chunkAt));
        }
        var data :- Take(c.arg.value);
        if validateUtf8 && h.major == 3 && !Utf8.Valid(data) {
          return Err(NewError(InvalidUtf8, chunkAt));
        }
      }
    }

    method SkipContainerAt(length: Option<U64>, isMap: bool, depth: nat, at: nat, validateUtf8: bool) returns (r: Result<()>)
      requires Valid()
      modifies this
      ensures Valid() && old(pos) <= pos
      ensures SkipAgrees(r, pos, SkipContainer(Mode(validateUtf8, options.Det()), options, input, old(pos), depth + 1, length, isMap, at))
      decreases |input| - pos, 2
    {
      hide Skipping.Skip, Less, SkipMany, SkipToBreak, ItemLimit, SameEnd;
      if length.None? && options.Det() {
        return Err(NewError(NonDeterministic, at));
      }
      ghost var m := Mode(validateUtf8, options.Det());
      if length.Some? {
        if length.value > options.maxLen {
          return Err(NewError(CollectionLimit, at));
        }
        var count := if isMap then 2 * length.value else length.value;
        if count >= USIZE_LIMIT {
          return Err(NewError(CollectionLimit, at));
        }
        var previous: Option<Buf> := None;
        ghost var all := SkipMany(m, options, input, pos, depth + 1, isMap, count, None);
        EndsAlike(all);
        var i := 0;
        while i < count
          invariant i <= count && Valid() && old(pos) <= pos
          invariant SameEnd(all, SkipMany(m, options, input, pos, depth + 1, isMap, count - i, previous))
        {
          ManyTurn(all, m, options, input, pos, depth + 1, isMap, count - i, previous);
          var start := pos;
          var _ :- SkipAt(depth + 1, validateUtf8);
          if isMap && i % 2 == 0 && options.Det() {
            var key := input[start..pos];
            if previous.Some? && !Less(previous.value, key) {
              return Err(NewError(NonDeterministic, start));
            }
            previous := Some(key);
          }
          i := i + 1;
        }
        ManyTurn(all, m, options, input, pos, depth + 1, isMap, 0, previous);
        return Ok(());
      }
      ghost var all := SkipToBreak(m, options, input, pos, depth + 1, isMap, 0, at);
      EndsAlike(all);
      var items := 0;
      while true
        invariant Valid() && old(pos) <= pos
        invariant SameEnd(all, SkipToBreak(m, options, input, pos, depth + 1, isMap, items, at))
        decreases |input| - pos
      {
        ToBreakTurn(all, m, options, input, pos, depth + 1, isMap, items, at);
        var next :- Peek();
        if next == 0xff {
          pos := pos + 1;
          if isMap && items % 2 != 0 {
            return Err(NewError(UnexpectedBreak, pos - 1));
          }
          return Ok(());
        }
        var _ :- SkipAt(depth + 1, validateUtf8);
        items := items + 1;
        if items > ItemLimit(options, isMap) {
          return Err(NewError(CollectionLimit, at));
        }
      }
    }

    // ----- structure alone

    method StructuralHeader() returns (r: Result<Header>)
      requires Valid()
      modifies this
      ensures Valid() && old(pos) <= pos && (r.Ok? ==> old(pos) < pos && r.value.major < 8)
      ensures HeaderAgrees(r, old(pos), pos, ReadHead(false, input, old(pos)))
    {
      var at := pos;
      var initial :- ReadByte();
      var argument :- StructuralArgument(initial % 32, at);
      return Ok(Header(initial / 32, argument, at));
    }

    method StructuralArgument(ai: nat, head: nat) returns (r: Result<Option<U64>>)
      requires Valid() && head < |input| && pos == head + 1 && ai == input[head] % 32
      modifies this
      ensures Valid() && old(pos) <= pos
      ensures ArgumentAgrees(r, pos, ReadHead(false, input, head))
    {
      if ai <= 23 {
        return Ok(Some(ai));
      } else if ai <= 27 {
        var bytes :- Take(if ai == 24 then 1 else if ai == 25 then 2 else if ai == 26 then 4 else 8);
        FromBEFits(bytes);
        return Ok(Some(FromBE(bytes)));
      } else if ai == 31 {
        return Ok(None);
      } else {
        return Err(NewError(InvalidAdditionalInfo, head));
      }
    }

    method SkipStructuralAt(depth: nat) returns (r: Result<()>)
      requires Valid()
      modifies this
      ensures Valid() && old(pos) <= pos && (r.Ok? ==> old(pos) < pos)
      ensures SkipAgrees(r, pos, Skipping.Skip(STRUCTURAL, options, input, old(pos), depth))
      decreases |input| - pos, 1
    {
      hide ReadHead, Utf8.Valid, Floats.NonPreferred;
      if depth > options.maxDepth {
        return Err(NewError(DepthLimit, pos));
      }
      var h :- StructuralHeader();
      if h.major <= 1 {
        if h.arg.None? {
          return Err(NewError(InvalidAdditionalInfo, h.at));
        }
        r := Ok(());
      } else if h.major <= 3 {
        r := SkipStructuralString(h);
      } else if h.major <= 5 {
        r := SkipStructuralContainer(h.arg, h.major == 5, depth, h.at);
      } else if h.major == 6 {
        if h.arg.None? {
          return Err(NewError(InvalidAdditionalInfo, h.at));
        }
        r := SkipStructuralAt(depth + 1);
      } else {
        if h.arg.None? {
          return Err(NewError(UnexpectedBreak, h.at));
        }
        if input[h.at] % 32 == 24 && h.arg.value < 32 {
          return Err(NewError(InvalidAdditionalInfo, h.at));
        }
        r := Ok(());
      }
    }

    /** The arm of `skip_structural_at` for byte and text strings, whose content it does not look at. */
    method SkipStructuralString(h: Header) returns (r: Result<()>)
      requires Valid() && 2 <= h.major <= 3
      modifies this
      ensures Valid() && old(pos) <= pos
      ensures SkipAgrees(r, pos, SkipString(STRUCTURAL, options, input, old(pos), Head(h.major, h.arg), h.at))
    {
      hide ReadHead, Utf8.Valid, SkipChunks;
      if h.arg.Some? {
        if h.arg.value > options.maxLen {
          return Err(NewError(CollectionLimit, h.at));
        }
        var _ :- Take(h.arg.value);
        return Ok(());
      }
      while true
        invariant Valid() && old(pos) <= pos
        invariant SkipChunks(STRUCTURAL, input, old(pos), h.major) == SkipChunks(STRUCTURAL, input, pos, h.major)
        decreases |input| - pos
      {
        SkipChunksStep(STRUCTURAL, input, pos, h.major);
        var next :- Peek();
        if next == 0xff {
          pos := pos + 1;
          return Ok(());
        }
        var chunkAt := pos;
        var c :- StructuralHeader();
        if c.major != h.major || c.arg.None? {
          return Err(NewError(UnexpectedType, chunkAt));
        }
        var _ :- Take(c.arg.value);
      }
    }

    method SkipStructuralContainer(length: Option<U64>, isMap: bool, depth: nat, at: nat) returns (r: Result<()>)
      requires Valid()
      modifies this
      ensures Valid() && old(pos) <= pos
      ensures SkipAgrees(r, pos, SkipContainer(STRUCTURAL, options, input, old(pos), depth + 1, length, isMap, at))
      decreases |input| - pos, 2
    {
      hide Skipping.Skip, SkipMany, SkipToBreak, ItemLimit, SameEnd;
      if length.Some? {
        if length.value > options.maxLen {
          return Err(NewError(CollectionLimit, at));
        }
        var count := if isMap then 2 * length.value else length.value;
        if count >= USIZE_LIMIT {
          return Err(NewError(CollectionLimit, at));
        }
        ghost var all := SkipMany(STRUCTURAL, options, input, pos, depth + 1, isMap, count, None);
        EndsAlike(all);
        var i := 0;
        while i < count
          invariant i <= count && Valid() && old(pos) <= pos
          invariant SameEnd(all, SkipMany(STRUCTURAL, options, input, pos, depth + 1, isMap, count - i, None))
        {
          ManyTurn(all, STRUCTURAL, options, input, pos, depth + 1, isMap, count - i, None);
          var _ :- SkipStructuralAt(depth + 1);
          i := i + 1;
        }
        ManyTurn(all, STRUCTURAL, options, input, pos, depth + 1, isMap, 0, None);
        return Ok(());
      }
      ghost var all := SkipToBreak(STRUCTURAL, options, input, pos, depth + 1, isMap, 0, at);
      EndsAlike(all);
      var items := 0;
      while true
        invariant Valid() && old(pos) <= pos
        invariant SameEnd(all, SkipToBreak(STRUCTURAL, options, input, pos, depth + 1, isMap, items, at))
        decreases |input| - pos
      {
        ToBreakTurn(all, STRUCTURAL, options, input, pos, depth + 1, isMap, items, at);
        var next :- Peek();
        if next == 0xff {
          pos := pos + 1;
          if isMap && items % 2 != 0 {
            return Err(NewError(UnexpectedBreak, pos - 1));
          }
          return Ok(());
        }
        var _ :- SkipStructuralAt(depth + 1);
        items := items + 1;
        if items > ItemLimit(options, isMap) {
          return Err(NewError(CollectionLimit, at));
        }
      }
    }
  }
}
