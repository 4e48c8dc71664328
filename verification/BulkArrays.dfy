/** The bulk array decoders of src/decode.rs accept exactly the arrays that the general decoder gives. */
module BulkArrays {
  import opened Core
  import opened Heads
  import opened Values
  import opened Decoding
  import opened Arrays
  import opened SliceDecoders
  import ArrayBodies
  import Floats
  import Utf8

  // ----- what the integer decoders return

  /** An element of an indefinite array: `unsigned` with a range check, or `integer_iN_basic`. */
  function LooseElement(ty: IntType, input: Buf, pos: nat): (r: Parse<int>)
    requires pos <= |input|
    ensures r.Done? ==> pos < r.end <= |input|
  {
    if ty.signed then
      if pos == |input| then Fail(NewError(Eof, pos)) else
      var (n, end) :- IntegerArgument(input, pos);
      if n > ty.max then Fail(NewError(IntegerOverflow, end))
      else if input[pos] / 32 > 1 then Fail(NewError(UnexpectedType, pos))
      else Done(if input[pos] / 32 == 0 then n else -1 - n, end)
    else
      var (h, end) :- ReadHead(false, input, pos);
      if h.major != 0 || h.arg.None? then Fail(NewError(UnexpectedType, pos))
      else if h.arg.value > ty.max then Fail(NewError(IntegerOverflow, end))
      else Done(h.arg.value, end)
  }

  /** Elements up to a break, when `count` precede them. */
  function BodyToBreak(ty: IntType, input: Buf, pos: nat, count: nat): (r: Parse<seq<int>>)
    requires pos <= |input|
    ensures r.Done? ==> pos < r.end <= |input|
    decreases |input| - pos
  {
    if pos == |input| then Fail(NewError(Eof, pos))
    else if input[pos] == 0xff then Done([], pos + 1)
    else if count == DEFAULT_OPTIONS.maxLen then Fail(NewError(CollectionLimit, 0))
    else
      var (v, p) :- LooseElement(ty, input, pos);
      After([v], BodyToBreak(ty, input, p, count + 1))
  }

  /** The array whose head ends at `p`. */
  function ArrayBody(ty: IntType, input: Buf, p: nat, length: Option<U64>): (r: Parse<seq<int>>)
    requires p <= |input|
    ensures r.Done? ==> r.end <= |input|
  {
    match length
    case Some(n) =>
      if n > DEFAULT_OPTIONS.maxLen then Fail(NewError(CollectionLimit, 0)) else Body(ty, input, p, n)
    case None => BodyToBreak(ty, input, p, 0)
  }

  /** `from_slice_u8_array` and its seven siblings. */
  function FromSlice(ty: IntType, input: Buf): Result<seq<int>> {
    match ReadHead(false, input, 0)
    case Fail(e) => Err(e)
    case Done(h, p) =>
      if h.major != 4 then Err(NewError(UnexpectedType, 0)) else Whole(input, ArrayBody(ty, input, p, h.arg))
  }

  // ----- elements against the general decoder

  /** The integer in a value that is one. */
  function IntOf(v: Value): Option<int> {
    match v case Unsigned(n) => Some(n) case Negative(i) => if i < 0 then Some(i) else None case _ => None
  }

  function ValueOf(v: int): Value
    requires -USIZE_LIMIT <= v < USIZE_LIMIT
  {
    if v >= 0 then Unsigned(v) else Negative(v)
  }

  /** An integer of the type was decoded. */
  predicate Holds(ty: IntType, d: Parse<Value>) {
    d.Done? && IntOf(d.value).Some? && InRange(ty, IntOf(d.value).value)
  }

  /** An element is accepted exactly when the general decoder finds an integer of the type, and it is that integer. */
  lemma ElementAgrees(ty: IntType, input: Buf, pos: nat)
    requires pos <= |input|
    ensures var d := Decode(DEFAULT_OPTIONS, input, pos, 1);
            (Element(ty, input, pos).Done? <==> Holds(ty, d))
            && (Holds(ty, d) ==> Element(ty, input, pos) == Done(IntOf(d.value).value, d.end))
  {
    hide Argument, Floats.HalfToDouble, Floats.SingleToDouble, Utf8.Valid;
  }

  /**
    * What an element that is refused is: an integer outside the type is `IntegerOverflow` after it, unless a
    * negative one meets an unsigned type; that, and any other item, is `UnexpectedType` where it stands.
    */
  lemma RefusedElement(ty: IntType, input: Buf, pos: nat)
    requires pos <= |input|
    requires var d := Decode(DEFAULT_OPTIONS, input, pos, 1); d.Done? && !Holds(ty, d)
    ensures var d := Decode(DEFAULT_OPTIONS, input, pos, 1);
            Element(ty, input, pos)
            == if IntOf(d.value).Some? && (ty.signed || IntOf(d.value).value >= 0) then Fail(NewError(IntegerOverflow, d.end))
               else Fail(NewError(UnexpectedType, pos))
  {
    hide ReadHead, Decode, DecodeString, DecodeArray, DecodeMap, DecodeSimple, Argument;
    var h := ReadHead(false, input, pos);
    DecodeRefused(DEFAULT_OPTIONS, input, pos, 1, h);
    DecodeItemStep(DEFAULT_OPTIONS, input, pos, 1, h);
    if h.value.major <= 1 { IntegerHead(input, pos); } else { OtherIsNoInteger(input, pos); }
  }

  lemma IntegerHead(input: Buf, pos: nat)
    requires pos <= |input|
    requires var h := ReadHead(false, input, pos); h.Done? && h.value.arg.Some?
    ensures var h := ReadHead(false, input, pos); IntegerArgument(input, pos) == Done(h.value.arg.value, h.end)
  {
    hide Argument;
  }

  lemma OtherIsNoInteger(input: Buf, pos: nat)
    requires pos < |input| && input[pos] / 32 > 1
    requires Decode(DEFAULT_OPTIONS, input, pos, 1).Done?
    ensures IntOf(Decode(DEFAULT_OPTIONS, input, pos, 1).value) == None
  {
    hide ReadHead, Decode, DecodeArray, DecodeMap;
    var h := ReadHead(false, input, pos);
    DecodeRefused(DEFAULT_OPTIONS, input, pos, 1, h);
    DecodeItemStep(DEFAULT_OPTIONS, input, pos, 1, h);
  }

  lemma LooseElementAgrees(ty: IntType, input: Buf, pos: nat)
    requires pos <= |input|
    ensures LooseElement(ty, input, pos).Done? <==> Element(ty, input, pos).Done?
    ensures LooseElement(ty, input, pos).Done? ==> LooseElement(ty, input, pos) == Element(ty, input, pos)
  {
    hide Argument;
  }

  /** All of `ws` are integers of the type, and `vs` are those. */
  predicate AreInts(ty: IntType, ws: seq<Value>, vs: seq<int>) {
    |ws| == |vs| && forall i :: 0 <= i < |ws| ==> IntOf(ws[i]) == Some(vs[i]) && InRange(ty, vs[i])
  }

  /** One list is accepted with the integers of the other, or neither is. */
  predicate ListAgrees(ty: IntType, b: Parse<seq<int>>, d: Parse<seq<Value>>) {
    match b
    case Done(vs, end) => d.Done? && d.end == end && AreInts(ty, d.value, vs)
    case Fail(_) => d.Done? ==> exists i :: 0 <= i < |d.value| && NotOfType(ty, d.value[i])
  }

  predicate NotOfType(ty: IntType, v: Value) {
    IntOf(v).Some? ==> !InRange(ty, IntOf(v).value)
  }

  lemma StepAgrees(ty: IntType, e: Parse<int>, v: Parse<Value>, b: Parse<seq<int>>, d: Parse<seq<Value>>)
    requires e.Done? <==> Holds(ty, v)
    requires e.Done? ==> e == Done(IntOf(v.value).value, v.end) && ListAgrees(ty, b, d)
    ensures ListAgrees(ty, if e.Fail? then Fail(e.error) else After([e.value], b),
                       if v.Fail? then Fail(v.error) else if d.Fail? then Fail(d.error) else Done([v.value] + d.value, d.end))
  {
    if e.Done? && b.Fail? && d.Done? {
      var i :| 0 <= i < |d.value| && NotOfType(ty, d.value[i]);
      assert ([v.value] + d.value)[i + 1] == d.value[i];
    } else if e.Fail? && v.Done? && d.Done? {
      assert NotOfType(ty, ([v.value] + d.value)[0]);
    }
  }

  lemma {:induction false} BodyAgrees(ty: IntType, input: Buf, pos: nat, count: nat)
    requires pos <= |input|
    ensures ListAgrees(ty, Body(ty, input, pos, count), DecodeMany(DEFAULT_OPTIONS, input, pos, 1, count))
    decreases count
  {
    hide Element, Decode, ListAgrees;
    if count == 0 {
      EmptyAgrees(ty, pos);
    } else {
      ElementAgrees(ty, input, pos);
      var e, v := Element(ty, input, pos), Decode(DEFAULT_OPTIONS, input, pos, 1);
      if e.Done? { BodyAgrees(ty, input, e.end, count - 1); }
      StepAgrees(ty, e, v, if e.Done? then Body(ty, input, e.end, count - 1) else Fail(e.error),
                 if v.Done? then DecodeMany(DEFAULT_OPTIONS, input, v.end, 1, count - 1) else Fail(v.error));
    }
  }

  lemma EmptyAgrees(ty: IntType, end: nat)
    ensures ListAgrees(ty, Done([], end), Done([], end))
  {
  }

  lemma {:induction false} BodyToBreakAgrees(ty: IntType, input: Buf, pos: nat, count: nat)
    requires pos <= |input|
    ensures ListAgrees(ty, BodyToBreak(ty, input, pos, count), DecodeToBreak(DEFAULT_OPTIONS, input, pos, 1, count, 0))
    decreases |input| - pos
  {
    hide Element, LooseElement, Decode;
    if pos < |input| && input[pos] != 0xff && count != DEFAULT_OPTIONS.maxLen {
      ElementAgrees(ty, input, pos);
      LooseElementAgrees(ty, input, pos);
      var e, v := LooseElement(ty, input, pos), Decode(DEFAULT_OPTIONS, input, pos, 1);
      if e.Done? { BodyToBreakAgrees(ty, input, e.end, count + 1); }
      StepAgrees(ty, e, v, if e.Done? then BodyToBreak(ty, input, e.end, count + 1) else Fail(e.error),
                 if v.Done? then DecodeToBreak(DEFAULT_OPTIONS, input, v.end, 1, count + 1, 0) else Fail(v.error));
    }
  }

  // ----- the theorem

  function ValuesOf(vs: seq<int>): (ws: seq<Value>)
    requires AllFit(vs)
    ensures |ws| == |vs|
  {
    seq(|vs|, i requires 0 <= i < |vs| => ValueOf(vs[i]))
  }

  predicate AllFit(vs: seq<int>) {
    forall i :: 0 <= i < |vs| ==> -USIZE_LIMIT <= vs[i] < USIZE_LIMIT
  }

  predicate AllInRange(ty: IntType, vs: seq<int>) {
    forall i :: 0 <= i < |vs| ==> InRange(ty, vs[i])
  }

  function AsArray(r: Result<seq<Value>>): Result<Value> {
    match r case Ok(ws) => Ok(Array(ws)) case Err(e) => Err(e)
  }

  /** The general decoder on an input that starts with an array head, and on any other. */
  lemma GeneralArray(x: Buf)
    ensures var h := ReadHead(false, x, 0);
            if h.Done? && h.value.major == 4
            then DecodeValue(x) == AsArray(Whole(x, DecodeArray(DEFAULT_OPTIONS, x, h.end, 0, h.value.arg, 0)))
            else DecodeValue(x).Ok? ==> !DecodeValue(x).value.Array?
  {
    hide ReadHead, Floats.HalfToDouble, Floats.SingleToDouble, Utf8.Valid;
  }

  lemma ArrayBodyAgrees(ty: IntType, input: Buf, p: nat, length: Option<U64>)
    requires p <= |input|
    ensures ListAgrees(ty, ArrayBody(ty, input, p, length), DecodeArray(DEFAULT_OPTIONS, input, p, 0, length, 0))
  {
    hide ListAgrees, Body, BodyToBreak, DecodeMany, DecodeToBreak;
    match length
    case Some(n) =>
      BodyAgrees(ty, input, p, n);
      BothFail(ty, NewError(CollectionLimit, 0));
    case None => BodyToBreakAgrees(ty, input, p, 0);
  }

  lemma BothFail(ty: IntType, e: Error)
    ensures ListAgrees(ty, Fail(e), Fail(e))
  {
  }

  lemma AreIntsMeans(ty: IntType, ws: seq<Value>, vs: seq<int>)
    ensures AreInts(ty, ws, vs) <==> AllInRange(ty, vs) && AllFit(vs) && ws == ValuesOf(vs)
  {
  }

  lemma AllOfType(ty: IntType, vs: seq<int>, b: Parse<seq<int>>, d: Parse<seq<Value>>)
    requires ListAgrees(ty, b, d) && d.Done? && AreInts(ty, d.value, vs)
    ensures b == Done(vs, d.end)
  {
    if b.Done? {
      forall i | 0 <= i < |vs| ensures b.value[i] == vs[i] {
        assert IntOf(d.value[i]) == Some(vs[i]);
      }
      assert b.value == vs;
    }
  }

  /**
    * A bulk decoder returns `vs` exactly when the general decoder returns the array of those integers and all of
    * them are in range, for definite and indefinite arrays.
    */
  lemma BulkAgreesWithDecoder(ty: IntType, x: Buf, vs: seq<int>)
    ensures FromSlice(ty, x) == Ok(vs) <==>
              AllInRange(ty, vs) && AllFit(vs) && DecodeValue(x) == Ok(Array(ValuesOf(vs)))
  {
    hide ReadHead, ListAgrees, AreInts, ArrayBody, DecodeArray, ValuesOf;
    GeneralArray(x);
    var h := ReadHead(false, x, 0);
    if h.Done? && h.value.major == 4 {
      ArrayBodyAgrees(ty, x, h.end, h.value.arg);
      var b, d := ArrayBody(ty, x, h.end, h.value.arg), DecodeArray(DEFAULT_OPTIONS, x, h.end, 0, h.value.arg, 0);
      BothOk(ty, x, vs, b, d);
    }
  }

  lemma BothOk(ty: IntType, x: Buf, vs: seq<int>, b: Parse<seq<int>>, d: Parse<seq<Value>>)
    requires ListAgrees(ty, b, d)
    ensures Whole(x, b) == Ok(vs) <==> AllInRange(ty, vs) && AllFit(vs) && AsArray(Whole(x, d)) == Ok(Array(ValuesOf(vs)))
  {
    hide AreInts, ValuesOf;
    if d.Done? {
      AreIntsMeans(ty, d.value, vs);
      if AreInts(ty, d.value, vs) { AllOfType(ty, vs, b, d); }
    }
  }

  // ----- the decoders themselves

  /** `basic_integer_argument`, just after the head at `at`. */
  method BasicIntegerArgument(d: SliceDecoder, additional: nat, at: nat) returns (r: Result<U64>)
    requires d.Valid() && at < |d.input| && d.pos == at + 1 && additional == d.input[at] % 32
    modifies d
    ensures d.Valid() && old(d.pos) <= d.pos && Agrees(r, d.pos, IntegerArgument(d.input, at))
  {
    if additional <= 23 {
      return Ok(additional);
    } else if additional <= 27 {
      var bytes :- d.Take(if additional == 24 then 1 else if additional == 25 then 2 else if additional == 26 then 4 else 8);
      FromBEFits(bytes);
      return Ok(FromBE(bytes));
    }
    return Err(NewError(if additional <= 30 then InvalidAdditionalInfo else UnexpectedType, at));
  }

  /** `decode_iN_array_element`: the argument is read and checked before the major type is. */
  method ReadSigned(d: SliceDecoder, ty: IntType) returns (r: Result<int>)
    requires d.Valid() && ty.signed
    modifies d
    ensures d.Valid() && old(d.pos) <= d.pos && Agrees(r, d.pos, LooseElement(ty, d.input, old(d.pos)))
  {
    hide IntegerArgument;
    var initial :- d.Peek();
    var at := d.pos;
    d.pos := d.pos + 1;
    var argument :- BasicIntegerArgument(d, initial % 32, at);
    if argument > ty.max {
      return Err(NewError(IntegerOverflow, d.pos));
    }
    match initial / 32
    case 0 => return Ok(argument);
    case 1 => return Ok(ArrayBodies.Not(argument));
    case _ => return Err(NewError(UnexpectedType, at));
  }

  /** `unsigned`, and the conversion to the element type. */
  method ReadUnsigned(d: SliceDecoder, ty: IntType) returns (r: Result<int>)
    requires d.Valid() && !ty.signed && !d.options.Det()
    modifies d
    ensures d.Valid() && old(d.pos) <= d.pos && Agrees(r, d.pos, LooseElement(ty, d.input, old(d.pos)))
  {
    hide ReadHead;
    var h :- d.ReadHeader();
    if h.major != 0 || h.arg.None? {
      return Err(NewError(UnexpectedType, h.at));
    }
    if h.arg.value > ty.max {
      return Err(NewError(IntegerOverflow, d.pos));
    }
    return Ok(h.arg.value);
  }

  /** The body decoder of each type. */
  method DecodeBody(ty: IntType, input: Buf, start: nat, length: nat) returns (values: seq<int>, r: Result<nat>)
    requires start <= |input| && ty in {U8, U16, U32, U64_TYPE, I8, I16, I32, I64}
    ensures ArrayBodies.Decodes(values, r, Body(ty, input, start, length))
  {
    hide Body;
    if ty == U8 {
      values, r := ArrayBodies.DecodeU8Body(input, start, length);
    } else if ty == U16 {
      values, r := ArrayBodies.DecodeU16Body(input, start, length);
    } else if ty == U32 {
      values, r := ArrayBodies.DecodeU32Body(input, start, length);
    } else if ty == U64_TYPE {
      values, r := ArrayBodies.DecodeU64Body(input, start, length);
    } else if ty == I8 {
      values, r := ArrayBodies.DecodeI8Body(input, start, length);
    } else if ty == I16 {
      values, r := ArrayBodies.DecodeI16Body(input, start, length);
    } else if ty == I32 {
      values, r := ArrayBodies.DecodeI32Body(input, start, length);
    } else {
      values, r := ArrayBodies.DecodeI64Body(input, start, length);
    }
  }

  lemma BodyToBreakStep(ty: IntType, input: Buf, pos: nat, count: nat)
    requires pos <= |input|
    ensures var all := BodyToBreak(ty, input, pos, count);
            var e := LooseElement(ty, input, pos);
            if pos == |input| then all == Fail(NewError(Eof, pos))
            else if input[pos] == 0xff then all == Done([], pos + 1)
            else if count == DEFAULT_OPTIONS.maxLen then all == Fail(NewError(CollectionLimit, 0))
            else if e.Fail? then all == Fail(e.error)
            else all == After([e.value], BodyToBreak(ty, input, e.end, count + 1))
  {
    hide LooseElement;
  }

  /** `from_slice_u8_array` to `from_slice_i64_array`, which differ in the type alone. */
  method FromSliceArray(ty: IntType, input: Buf) returns (r: Result<seq<int>>)
    requires ty in {U8, U16, U32, U64_TYPE, I8, I16, I32, I64}
    ensures r == FromSlice(ty, input)
  {
    hide ReadHead, Body, BodyToBreak, LooseElement;
    var d := new SliceDecoder(input, DEFAULT_OPTIONS);
    var h :- d.ReadHeader();
    if h.major != 4 {
      return Err(NewError(UnexpectedType, h.at));
    }
    if h.arg.Some? {
      if h.arg.value > d.options.maxLen {
        return Err(NewError(CollectionLimit, h.at));
      }
      var values, end := DecodeBody(ty, input, d.pos, h.arg.value);
      if end.Err? {
        return Err(end.error);
      }
      d.pos := end.value;
      var _ :- d.Finish();
      return Ok(values);
    }
    var values :- DecodeIndefinite(ty, d, h.at);
    var _ :- d.Finish();
    return Ok(values);
  }

  /** The loop over the elements of an indefinite array. */
  method DecodeIndefinite(ty: IntType, d: SliceDecoder, at: nat) returns (r: Result<seq<int>>)
    requires d.Valid() && d.options == DEFAULT_OPTIONS && at == 0
    modifies d
    ensures d.Valid() && Agrees(r, d.pos, BodyToBreak(ty, d.input, old(d.pos), 0))
  {
    hide ReadHead, BodyToBreak, LooseElement;
    var values: seq<int> := [];
    AfterNone(BodyToBreak(ty, d.input, d.pos, 0));
    while true
      invariant d.Valid()
      invariant BodyToBreak(ty, d.input, old(d.pos), 0) == After(values, BodyToBreak(ty, d.input, d.pos, |values|))
      decreases |d.input| - d.pos
    {
      BodyToBreakStep(ty, d.input, d.pos, |values|);
      var next :- d.Peek();
      if next == 0xff {
        d.pos := d.pos + 1;
        AfterAll(values, d.pos);
        return Ok(values);
      }
      if |values| == d.options.maxLen {
        return Err(NewError(CollectionLimit, at));
      }
      var v: int;
      if ty.signed {
        v :- ReadSigned(d, ty);
      } else {
        v :- ReadUnsigned(d, ty);
      }
      AfterMore(values, [v], BodyToBreak(ty, d.input, d.pos, |values| + 1));
      values := values + [v];
    }
  }

  /** `from_slice_u8_array_into` and its siblings: on failure the output is empty. */
  method FromSliceArrayInto(ty: IntType, input: Buf) returns (output: seq<int>, r: Result<()>)
    requires ty in {U8, U16, U32, U64_TYPE, I8, I16, I32, I64}
    ensures match FromSlice(ty, input)
            case Ok(vs) => r == Ok(()) && output == vs
            case Err(e) => r == Err(e) && output == []
  {
    hide ReadHead, Body, BodyToBreak;
    output := [];
    var d := new SliceDecoder(input, DEFAULT_OPTIONS);
    var h := d.ReadHeader();
    if h.Err? {
      return [], Err(h.error);
    }
    if h.value.major != 4 {
      return [], Err(NewError(UnexpectedType, h.value.at));
    }
    if h.value.arg.Some? {
      if h.value.arg.value > d.options.maxLen {
        return [], Err(NewError(CollectionLimit, h.value.at));
      }
      var end;
      output, end := DecodeBody(ty, input, d.pos, h.value.arg.value);
      if end.Err? {
        return [], Err(end.error);
      }
      d.pos := end.value;
      r := d.Finish();
    } else {
      var owned := FromSliceArray(ty, input);
      if owned.Err? {
        return [], Err(owned.error);
      }
      output := owned.value;
      r := Ok(());
    }
    if r.Err? {
      output := [];
    }
  }
}
