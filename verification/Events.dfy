/** The token stream of src/decode.rs, on heads that `parse_event` does not panic on. */
module Events {
  import opened Core
  import opened Heads
  import opened SliceDecoders
  import Floats
  import Utf8

  datatype Event =
    | Unsigned(n: U64)
    | Negative(i: I128)
    | Bytes(bytes: Buf)
    | IndefiniteBytes
    | Text(text: Buf)
    | IndefiniteText
    | Array(length: Option<U64>)
    | Map(length: Option<U64>)
    | Tag(tag: U64)
    | Simple(s: Byte)
    | Bool(b: bool)
    | Null
    | Undefined
    | Float(bits: U64)
    | Break

  /** Integer heads without an argument, which `parse_event` unwraps. */
  predicate Panics(input: Buf, pos: nat) {
    pos < |input| && (input[pos] == 0x1f || input[pos] == 0x3f)
  }

  /** The next event: `parse_event`, and `Eof` when no byte is left. */
  function NextEvent(o: DecodeOptions, input: Buf, pos: nat): (r: Parse<Event>)
    requires pos <= |input| && !Panics(input, pos)
    ensures r.Done? ==> pos < r.end <= |input|
  {
    if pos == |input| then Fail(NewError(Eof, pos))
    else if input[pos] == 0xff then Done(Break, pos + 1)
    else
      var (h, p) :- ReadHead(o.Det(), input, pos);
      if h.major == 0 then Done(Unsigned(h.arg.value), p)
      else if h.major == 1 then Done(Negative(-1 - h.arg.value), p)
      else if h.major <= 3 then StringEvent(input, p, h, pos)
      else if h.major == 4 then Done(Array(h.arg), p)
      else if h.major == 5 then Done(Map(h.arg), p)
      else if h.major == 6 then
        if h.arg.None? then Fail(NewError(InvalidAdditionalInfo, pos)) else Done(Tag(h.arg.value), p)
      else SimpleEvent(o, input[pos] % 32, h.arg.value, p, pos)
  }

  function StringEvent(input: Buf, p: nat, h: Head, at: nat): (r: Parse<Event>)
    requires p <= |input|
    ensures r.Done? ==> p <= r.end <= |input|
  {
    match h.arg
    case None => Done(if h.major == 2 then IndefiniteBytes else IndefiniteText, p)
    case Some(n) =>
      if p + n > |input| then Fail(NewError(Eof, p))
      else if h.major == 2 then Done(Bytes(input[p..p + n]), p + n)
      else if Utf8.Valid(input[p..p + n]) then Done(Text(input[p..p + n]), p + n)
      else Fail(NewError(InvalidUtf8, at))
  }

  function SimpleEvent(o: DecodeOptions, ai: nat, n: U64, end: nat, at: nat): (r: Parse<Event>)
    requires ai < 28 && ArgumentFits(ai, n)
    ensures r.Done? ==> r.end == end
  {
    if o.Det() && Floats.NonPreferred(ai, n) then Fail(NewError(NonDeterministic, at))
    else if ai == 20 || ai == 21 then Done(Bool(ai == 21), end)
    else if ai == 22 then Done(Null, end)
    else if ai == 23 then Done(Undefined, end)
    else if ai == 24 then
      if n >= 32 then Done(Simple(n), end) else Fail(NewError(InvalidAdditionalInfo, at))
    else if ai == 25 then Done(Float(Floats.HalfToDouble(n)), end)
    else if ai == 26 then Done(Float(Floats.SingleToDouble(n)), end)
    else if ai == 27 then Done(Float(n), end)
    else Done(Simple(ai), end)
  }

  method Next(d: SliceDecoder) returns (r: Result<Event>)
    requires d.Valid() && !Panics(d.input, d.pos)
    modifies d
    ensures d.Valid() && old(d.pos) <= d.pos
    ensures Agrees(r, d.pos, NextEvent(d.options, d.input, old(d.pos)))
  {
    hide Utf8.Valid, Floats.NonPreferred, Floats.HalfToDouble, Floats.SingleToDouble, Argument;
    var initial :- d.Peek();
    if initial == 0xff {
      d.pos := d.pos + 1;
      return Ok(Break);
    }
    var h :- d.ReadHeader();
    if h.major <= 1 {
      return Ok(if h.major == 0 then Unsigned(h.arg.value) else Negative(-1 - h.arg.value));
    } else if h.major <= 3 {
      if h.arg.None? {
        return Ok(if h.major == 2 then IndefiniteBytes else IndefiniteText);
      }
      var bytes :- d.Take(h.arg.value);
      if h.major == 2 {
        return Ok(Bytes(bytes));
      }
      return if Utf8.Valid(bytes) then Ok(Text(bytes)) else Err(NewError(InvalidUtf8, h.at));
    } else if h.major <= 5 {
      return Ok(if h.major == 4 then Array(h.arg) else Map(h.arg));
    } else if h.major == 6 {
      return if h.arg.Some? then Ok(Tag(h.arg.value)) else Err(NewError(InvalidAdditionalInfo, h.at));
    }
    var ai, n := initial % 32, h.arg.value;
    if d.options.Det() && Floats.NonPreferred(ai, n) {
      return Err(NewError(NonDeterministic, h.at));
    }
    r := match ai
      case 20 => Ok(Bool(false))
      case 21 => Ok(Bool(true))
      case 22 => Ok(Null)
      case 23 => Ok(Undefined)
      case 24 => if n >= 32 then Ok(Simple(n)) else Err(NewError(InvalidAdditionalInfo, h.at))
      case 25 => Ok(Float(Floats.HalfToDouble(n)))
      case 26 => Ok(Float(Floats.SingleToDouble(n)))
      case 27 => Ok(Float(n))
      case _ => Ok(Simple(ai));
  }
}
