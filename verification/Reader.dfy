/** Decoding from a reader that hands out its stream in pieces of any size: src/lib.rs. */
module Readers {
  import opened Core
  import opened Values
  import Decoding
  import Offsets
  import Prefix

  // ----- item decoders whose failures are final, except for want of bytes

  /**
    * What decoding an item from the start of a slice must satisfy: it consumes a byte at least, and more input
    * changes an outcome only if it was `Eof`.
    */
  ghost predicate Stable<T(!new)>(decode: Buf -> Parse<T>) {
    (forall s: Buf :: decode(s).Done? ==> 0 < decode(s).end <= |s|)
    && (forall s: Buf, more: Buf :: Extends(decode, s, more))
  }

  ghost predicate Extends<T>(decode: Buf -> Parse<T>, s: Buf, more: Buf) {
    Settled(decode(s)) ==> decode(s + more) == decode(s)
  }

  predicate Settled<T>(r: Parse<T>) {
    r.Fail? ==> r.error.kind != Eof
  }

  /** The value decoder is one, under any options. */
  lemma DecoderIsStable(o: DecodeOptions)
    ensures Stable((s: Buf) => Decoding.Decode(o, s, 0, 0))
  {
    hide Decoding.Decode;
    var decode := (s: Buf) => Decoding.Decode(o, s, 0, 0);
    forall s: Buf, more: Buf ensures Extends(decode, s, more) {
      Prefix.FinalDecode(o, s, s + more, 0, 0);
    }
  }

  // ----- the stream

  class ByteReader {
    const stream: Buf
    var pos: nat

    predicate Valid()
      reads this
    {
      pos <= |stream|
    }

    constructor (stream: Buf)
      ensures Valid() && pos == 0 && this.stream == stream
    {
      this.stream := stream;
      pos := 0;
    }

    /** Any number of bytes up to `limit`, but none only at the end of the stream. */
    method Read(limit: nat) returns (chunk: Buf)
      requires Valid() && limit > 0
      modifies this
      ensures Valid() && |chunk| <= limit && pos == old(pos) + |chunk| && chunk == stream[old(pos)..pos]
      ensures chunk == [] <==> old(pos) == |stream|
    {
      if pos == |stream| {
        return [];
      }
      var k :| 1 <= k <= limit && pos + k <= |stream|;
      chunk := stream[pos..pos + k];
      pos := pos + k;
    }

    /** `take(limit).read_to_end`. */
    method ReadToEnd(limit: nat) returns (bytes: Buf)
      requires Valid()
      modifies this
      ensures Valid() && |bytes| <= limit && pos == old(pos) + |bytes| && bytes == stream[old(pos)..pos]
      ensures |bytes| < limit ==> pos == |stream|
    {
      bytes := [];
      while |bytes| < limit
        invariant Valid() && |bytes| <= limit && pos == old(pos) + |bytes| && bytes == stream[old(pos)..pos]
        decreases limit - |bytes|
      {
        var chunk := Read(limit - |bytes|);
        if chunk == [] {
          return;
        }
        bytes := bytes + chunk;
      }
    }
  }

  // ----- item after item

  /** The next item of a stream at `offset`, with errors in stream offsets; nothing at a clean end. */
  function NextItem<T>(decode: Buf -> Parse<T>, stream: Buf, offset: nat): (r: Parse<Option<T>>)
    requires offset <= |stream|
  {
    if offset == |stream| then Done(None, offset) else
    match decode(stream[offset..])
    case Done(v, end) => Done(Some(v), offset + end)
    case Fail(e) => Fail(NewError(e.kind, offset + e.offset))
  }

  /** All items from `offset` on, and how the stream ends. */
  ghost function AllItems<T(!new)>(decode: Buf -> Parse<T>, stream: Buf, offset: nat): (r: (seq<T>, Option<Error>))
    requires Stable(decode) && offset <= |stream|
    decreases |stream| - offset
  {
    match NextItem(decode, stream, offset)
    case Done(None, _) => ([], None)
    case Done(Some(v), end) =>
      var (vs, e) := AllItems(decode, stream, end);
      ([v] + vs, e)
    case Fail(e) => ([], Some(e))
  }

  /** What lies between `from` and `p` is no whole item: nothing at all, or too few bytes. */
  predicate Starved<T>(decode: Buf -> Parse<T>, stream: Buf, from: nat, p: nat) {
    from <= p <= |stream| && (p == from || !Settled(decode(stream[from..p])))
  }

  /** At most one read, of at most 8 KiB, goes beyond bytes that are no whole item. */
  ghost predicate OneReadAfterStarving<T>(decode: Buf -> Parse<T>, stream: Buf, from: nat, pos: nat) {
    exists p: nat :: Starved(decode, stream, from, p) && p <= pos <= p + 8 * 1024
  }

  class ReaderDeserializer<T(!new, ==)> {
    const reader: ByteReader
    const decode: Buf -> Parse<T>
    var buffer: Buf
    var start: nat
    var offset: nat
    var eof: bool

    /** What is buffered and what is still unread make up the stream from `offset` on. */
    ghost predicate Valid()
      reads this, reader
    {
      reader.Valid() && Stable(decode)
      && start <= |buffer| && offset + (|buffer| - start) == reader.pos
      && buffer[start..] == reader.stream[offset..reader.pos]
      && (eof ==> reader.pos == |reader.stream|)
    }

    constructor (reader: ByteReader, decode: Buf -> Parse<T>)
      requires reader.pos == 0 && Stable(decode)
      ensures Valid() && offset == 0 && this.reader == reader && this.decode == decode
    {
      this.reader, this.decode := reader, decode;
      buffer, start, offset, eof := [], 0, 0, false;
    }

    /** The next item, whatever the sizes of the reads. */
    method DeserializeNext() returns (r: Result<Option<T>>)
      requires Valid()
      modifies this, reader
      ensures Valid()
      ensures match NextItem(decode, reader.stream, old(offset))
              case Done(v, end) => r == Ok(v) && offset == end
              case Fail(e) => r == Err(e) && offset == old(offset)
      ensures r.Ok? && r.value.Some? ==> old(offset) < offset
      ensures reader.pos == old(reader.pos) || OneReadAfterStarving(decode, reader.stream, old(offset), reader.pos)
    {
      hide Stable, Extends, NextItem, OneReadAfterStarving;
      while true
        invariant Valid() && offset == old(offset)
        invariant reader.pos == old(reader.pos) || OneReadAfterStarving(decode, reader.stream, offset, reader.pos)
        decreases |reader.stream| - reader.pos, if eof then 0 else 1
      {
        if start < |buffer| {
          var pending := buffer[start..];
          BufferedOutcome(pending, eof);
          match decode(pending) {
            case Done(value, consumed) =>
              Consume(consumed);
              return Ok(Some(value));
            case Fail(error) =>
              if !(error.kind == Eof && !eof) {
                return Err(NewError(error.kind, offset + error.offset));
              }
          }
        } else if eof {
          CleanEnd();
          return Ok(None);
        }
        ghost var p := reader.pos;
        assert Starved(decode, reader.stream, offset, p);
        Refill();
        ReadOnce(p);
      }
    }

    /** Moves past an item; a buffer that is used up is emptied. */
    method Consume(consumed: nat)
      requires Valid() && consumed <= |buffer| - start
      modifies this
      ensures Valid() && offset == old(offset) + consumed
    {
      hide Stable;
      ghost var rest := buffer[start..][consumed..];
      SliceOfSlice(reader.stream, offset, reader.pos, consumed, |buffer| - start);
      start := start + consumed;
      offset := offset + consumed;
      assert buffer[start..] == rest;
      if start == |buffer| {
        buffer, start := [], 0;
        assert rest == [];
      }
    }

    /** The end of the loop: unread bytes move to the front, and one read appends to them. */
    method Refill()
      requires Valid() && !eof
      modifies this, reader
      ensures Valid() && offset == old(offset) && (eof <==> reader.pos == old(reader.pos))
      ensures old(reader.pos) <= reader.pos <= old(reader.pos) + 8 * 1024
    {
      hide Stable;
      if start != 0 {
        buffer, start := buffer[start..], 0;
      }
      var chunk := reader.Read(8 * 1024);
      SliceConcat(reader.stream, offset, reader.pos - |chunk|, reader.pos);
      buffer := buffer + chunk;
      eof := chunk == [];
    }

    /** A read is only made where the buffer holds no whole item. */
    lemma ReadOnce(p: nat)
      requires Starved(decode, reader.stream, offset, p) && p <= reader.pos <= p + 8 * 1024
      ensures OneReadAfterStarving(decode, reader.stream, offset, reader.pos)
    {
    }

    lemma CleanEnd()
      requires Valid() && start == |buffer| && eof
      ensures NextItem(decode, reader.stream, offset) == Done(None, offset)
    {
    }

    /** Decoding what is buffered is decoding the next item of the stream, unless bytes are missing. */
    lemma BufferedOutcome(pending: Buf, eof: bool)
      requires Valid() && pending == buffer[start..] && pending != [] && (eof ==> reader.pos == |reader.stream|)
      ensures match decode(pending)
              case Done(v, end) => 0 < end <= |pending| && NextItem(decode, reader.stream, offset) == Done(Some(v), offset + end)
              case Fail(e) =>
                e.kind != Eof || eof ==> NextItem(decode, reader.stream, offset) == Fail(NewError(e.kind, offset + e.offset))
    {
      hide Extends;
      StableExtends(decode, pending, reader.stream[reader.pos..]);
      var more := reader.stream[reader.pos..];
      assert reader.stream[offset..] == pending + more;
      if eof { assert pending + more == pending; }
    }

    /** Reading on until the end or an error. */
    method Drain() returns (items: seq<T>, error: Option<Error>)
      requires Valid()
      modifies this, reader
      ensures (items, error) == AllItems(decode, reader.stream, old(offset))
    {
      hide Stable, NextItem;
      items := [];
      ghost var all := AllItems(decode, reader.stream, offset);
      assert [] + all.0 == all.0;
      while true
        invariant Valid()
        invariant var rest := AllItems(decode, reader.stream, offset); all == (items + rest.0, rest.1)
        decreases |reader.stream| - offset
      {
        var next := DeserializeNext();
        assert items + [] == items;
        match next
        case Err(e) => return items, Some(e);
        case Ok(None) => return items, None;
        case Ok(Some(v)) =>
          ghost var rest := AllItems(decode, reader.stream, offset);
          assert items + ([v] + rest.0) == items + [v] + rest.0;
          items := items + [v];
      }
    }
  }

  // ----- one item, read to the end

  /** `from_slice`: one item and nothing after it. */
  function FromSlice<T>(decode: Buf -> Parse<T>, s: Buf): Result<T> {
    Whole(s, decode(s))
  }

  lemma StableExtends<T(!new)>(decode: Buf -> Parse<T>, s: Buf, more: Buf)
    requires Stable(decode)
    ensures Settled(decode(s)) ==> decode(s + more) == decode(s)
    ensures decode(s).Done? ==> decode(s).end <= |s|
  {
    assert Extends(decode, s, more);
  }

  /** `from_reader_with_buffer` decodes the whole stream, offsets of trailing data included. */
  method FromReaderWithBuffer<T(!new, ==)>(reader: ByteReader, decode: Buf -> Parse<T>) returns (r: Result<T>)
    requires reader.Valid() && Stable(decode)
    modifies reader
    ensures r == FromSlice(decode, reader.stream[old(reader.pos)..])
  {
    hide Stable, Extends;
    var buffer: Buf := [];
    ghost var whole := reader.stream[reader.pos..];
    while true
      invariant reader.Valid() && old(reader.pos) <= reader.pos && buffer == reader.stream[old(reader.pos)..reader.pos]
      decreases |reader.stream| - reader.pos
    {
      var before := |buffer|;
      var chunk := reader.ReadToEnd(if before > 8 * 1024 then before else 8 * 1024);
      SliceConcat(reader.stream, old(reader.pos), reader.pos - |chunk|, reader.pos);
      buffer := buffer + chunk;
      if |buffer| == before {
        assert buffer == whole;
        return FromSlice(decode, buffer);
      }
      ghost var more := reader.stream[reader.pos..];
      assert whole == buffer + more;
      StableExtends(decode, buffer, more);
      var attempt := FromSlice(decode, buffer);
      if attempt.Ok? {
        var trailing := reader.Read(1);
        return if trailing == [] then attempt else Err(NewError(TrailingData, |buffer|));
      }
      if attempt.error.kind != Eof {
        return attempt;
      }
    }
  }

  /** The values of a stream decoded in place, one after another, and how it ends. */
  function StreamItems(o: DecodeOptions, stream: Buf, offset: nat): (r: (seq<Value>, Option<Error>))
    requires offset <= |stream|
    decreases |stream| - offset
  {
    if offset == |stream| then ([], None) else
    match Decoding.Decode(o, stream, offset, 0)
    case Done(v, end) =>
      var (vs, e) := StreamItems(o, stream, end);
      ([v] + vs, e)
    case Fail(e) => ([], Some(NewError(e.kind, e.offset)))
  }

  /** Restarting the decoder on the unread rest, item by item, is decoding the stream in place. */
  lemma {:induction false} RestartingIsInPlace(o: DecodeOptions, stream: Buf, offset: nat)
    requires offset <= |stream|
    requires Stable((s: Buf) => Decoding.Decode(o, s, 0, 0))
    ensures AllItems((s: Buf) => Decoding.Decode(o, s, 0, 0), stream, offset) == StreamItems(o, stream, offset)
    decreases |stream| - offset
  {
    hide Decoding.Decode, Stable;
    Offsets.DecodeRest(o, stream, offset, 0);
    var d := Decoding.Decode(o, stream, offset, 0);
    if offset < |stream| && d.Done? { RestartingIsInPlace(o, stream, d.end); }
  }

  /** One value read to the end of the stream. */
  method ReadValue(reader: ByteReader) returns (r: Result<Value>)
    requires reader.Valid()
    modifies reader
    ensures r == Decoding.DecodeValue(reader.stream[old(reader.pos)..])
  {
    hide Stable, Decoding.Decode;
    DecoderIsStable(DEFAULT_OPTIONS);
    r := FromReaderWithBuffer(reader, (s: Buf) => Decoding.Decode(DEFAULT_OPTIONS, s, 0, 0));
  }

  /** All values of a stream, however it is cut into reads. */
  method ReadValues(o: DecodeOptions, reader: ByteReader) returns (items: seq<Value>, error: Option<Error>)
    requires reader.pos == 0
    modifies reader
    ensures (items, error) == StreamItems(o, reader.stream, 0)
  {
    hide Stable, AllItems, StreamItems;
    DecoderIsStable(o);
    RestartingIsInPlace(o, reader.stream, 0);
    var d := new ReaderDeserializer<Value>(reader, (s: Buf) => Decoding.Decode(o, s, 0, 0));
    items, error := d.Drain();
  }
}
