/** Boolean arrays: eight bytes at a time, then the rest. */
module BoolArrays {
  import opened Core
  import opened Heads
  import opened Values
  import opened Decoding
  import opened SliceDecoders
  import BulkArrays

  /** `initial & 0xfe == 0xf4`. */
  predicate IsBool(b: Byte) { b == 0xf4 || b == 0xf5 }

  predicate AllBools(s: Buf) {
    forall i :: 0 <= i < |s| ==> IsBool(s[i])
  }

  function Bools(s: Buf): (bs: seq<bool>)
    ensures |bs| == |s|
  {
    seq(|s|, i requires 0 <= i < |s| => s[i] == 0xf5)
  }

  /** More booleans after those of a prefix. */
  lemma MoreBools(s: Buf, index: nat, k: nat)
    requires index + k <= |s| && AllBools(s[..index]) && AllBools(s[index..index + k])
    ensures AllBools(s[..index + k]) && Bools(s[..index + k]) == Bools(s[..index]) + Bools(s[index..index + k])
  {
    assert s[..index + k] == s[..index] + s[index..index + k];
  }

  lemma EightBools(e: Buf)
    requires |e| == 8
    ensures AllBools(e) <==> IsBool(e[0]) && IsBool(e[1]) && IsBool(e[2]) && IsBool(e[3])
                             && IsBool(e[4]) && IsBool(e[5]) && IsBool(e[6]) && IsBool(e[7])
    ensures Bools(e) == [e[0] == 0xf5, e[1] == 0xf5, e[2] == 0xf5, e[3] == 0xf5,
                         e[4] == 0xf5, e[5] == 0xf5, e[6] == 0xf5, e[7] == 0xf5]
  {
  }

  /** `p` is the first position from `start` on that holds no boolean. */
  predicate FirstInvalid(input: Buf, start: nat, p: nat) {
    start <= p < |input| && !IsBool(input[p]) && forall q :: start <= q < p ==> IsBool(input[q])
  }

  /**
    * `decode_bool_body`. The length is checked against the whole input first, so a short input is `Eof` at its
    * end even when an element before is no boolean; otherwise the first such element is reported.
    */
  method DecodeBoolBody(input: Buf, start: nat, length: nat) returns (values: seq<bool>, r: Result<nat>)
    requires start <= |input|
    ensures start + length > |input| ==> r == Err(NewError(Eof, |input|))
    ensures start + length <= |input| && r.Ok? ==>
              r == Ok(start + length) && AllBools(input[start..start + length])
              && values == Bools(input[start..start + length])
    ensures start + length <= |input| && r.Err? ==>
              r.error.offset < start + length && FirstInvalid(input, start, r.error.offset)
              && r.error == NewError(UnexpectedType, r.error.offset)
  {
    hide AllBools, Bools, FirstInvalid, IsBool;
    var end := start + length;
    if end > |input| {
      return [], Err(NewError(Eof, |input|));
    }
    var body := input[start..end];
    var index: nat := 0;
    values := [];
    NoBools(body);
    while index + 8 <= |body|
      invariant index <= |body| && AllBools(body[..index]) && values == Bools(body[..index])
    {
      var e := body[index..index + 8];
      EightBools(e);
      if !IsBool(e[0]) || !IsBool(e[1]) || !IsBool(e[2]) || !IsBool(e[3])
         || !IsBool(e[4]) || !IsBool(e[5]) || !IsBool(e[6]) || !IsBool(e[7])
      {
        var invalid := Position(e);
        InvalidInBlock(input, start, end, index, index + 8, invalid);
        return [], Err(NewError(UnexpectedType, start + index + invalid));
      }
      var block := [e[0] == 0xf5, e[1] == 0xf5, e[2] == 0xf5, e[3] == 0xf5, e[4] == 0xf5, e[5] == 0xf5, e[6] == 0xf5, e[7] == 0xf5];
      MoreBools(body, index, 8);
      values := values + block;
      index := index + 8;
    }
    var tail := index;
    while tail < |body|
      invariant tail <= |body| && AllBools(body[..tail]) && values == Bools(body[..tail])
    {
      var initial := body[tail];
      OneBool(body[tail..tail + 1]);
      if initial == 0xf4 {
        values := values + [false];
      } else if initial == 0xf5 {
        values := values + [true];
      } else {
        InvalidInBlock(input, start, end, tail, tail + 1, 0);
        return [], Err(NewError(UnexpectedType, start + tail));
      }
      MoreBools(body, tail, 1);
      tail := tail + 1;
    }
    assert body[..tail] == body;
    return values, Ok(end);
  }

  lemma NoBools(s: Buf)
    ensures AllBools(s[..0]) && Bools(s[..0]) == []
  {
  }

  lemma OneBool(s: Buf)
    requires |s| == 1
    ensures (AllBools(s) <==> IsBool(s[0])) && (IsBool(s[0]) <==> s[0] == 0xf4 || s[0] == 0xf5) && Bools(s) == [s[0] == 0xf5]
  {
  }

  /** `encoded.iter().position(..)`. */
  method Position(e: Buf) returns (k: nat)
    requires !AllBools(e)
    ensures k < |e| && !IsBool(e[k]) && AllBools(e[..k])
  {
    k := 0;
    while IsBool(e[k])
      invariant k < |e| && forall i :: 0 <= i < k ==> IsBool(e[i])
      decreases |e| - k
    {
      k := k + 1;
    }
  }

  lemma InvalidInBlock(input: Buf, start: nat, end: nat, index: nat, next: nat, invalid: nat)
    requires start <= end <= |input| && index <= next <= end - start && index + invalid < next
    requires var body := input[start..end];
             AllBools(body[..index]) && AllBools(body[index..next][..invalid]) && !IsBool(body[index..next][invalid])
    ensures FirstInvalid(input, start, start + index + invalid)
  {
    var body := input[start..end];
    forall q | start <= q < start + index + invalid ensures IsBool(input[q]) {
      if q < start + index {
        assert IsBool(body[..index][q - start]);
      } else {
        assert IsBool(body[index..next][..invalid][q - start - index]);
      }
    }
  }

  // ----- whole arrays

  /** The loop of `from_slice_bool_array` over an indefinite array, when `count` elements precede. */
  function BoolsToBreak(input: Buf, pos: nat, count: nat): (r: Parse<seq<bool>>)
    requires pos <= |input|
    ensures r.Done? ==> pos < r.end <= |input|
    decreases |input| - pos
  {
    if pos == |input| then Fail(NewError(Eof, pos))
    else if input[pos] == 0xff then Done([], pos + 1)
    else if count == DEFAULT_OPTIONS.maxLen then Fail(NewError(CollectionLimit, 0))
    else if !IsBool(input[pos]) then Fail(NewError(UnexpectedType, pos))
    else
      After([input[pos] == 0xf5], BoolsToBreak(input, pos + 1, count + 1))
  }

  lemma BoolsToBreakStep(input: Buf, pos: nat, count: nat)
    requires pos <= |input|
    ensures var all := BoolsToBreak(input, pos, count);
            if pos == |input| then all == Fail(NewError(Eof, pos))
            else if input[pos] == 0xff then all == Done([], pos + 1)
            else if count == DEFAULT_OPTIONS.maxLen then all == Fail(NewError(CollectionLimit, 0))
            else if input[pos] != 0xf4 && input[pos] != 0xf5 then all == Fail(NewError(UnexpectedType, pos))
            else all == After([input[pos] == 0xf5], BoolsToBreak(input, pos + 1, count + 1))
  {
  }

  /** Exactly `length` booleans, or the first byte that is none. */
  function BoolRun(input: Buf, pos: nat, length: nat): (r: Parse<seq<bool>>)
    requires pos + length <= |input|
    decreases length
  {
    if length == 0 then Done([], pos)
    else if !IsBool(input[pos]) then Fail(NewError(UnexpectedType, pos))
    else After([input[pos] == 0xf5], BoolRun(input, pos + 1, length - 1))
  }

  /** The values of a definite array, whose length is checked against the whole input first. */
  function BoolBody(input: Buf, pos: nat, length: nat): (r: Parse<seq<bool>>)
    requires pos <= |input|
  {
    if pos + length > |input| then Fail(NewError(Eof, |input|)) else BoolRun(input, pos, length)
  }

  /** `from_slice_bool_array`, its errors included. */
  function BoolArray(input: Buf): (r: Result<seq<bool>>) {
    match ReadHead(false, input, 0)
    case Fail(e) => Err(e)
    case Done(h, p) =>
      if h.major != 4 then Err(NewError(UnexpectedType, 0)) else
      match h.arg
      case Some(n) =>
        if n > DEFAULT_OPTIONS.maxLen then Err(NewError(CollectionLimit, 0)) else Whole(input, BoolBody(input, p, n))
      case None => Whole(input, BoolsToBreak(input, p, 0))
  }

  lemma {:induction false} RunOfBools(input: Buf, pos: nat, length: nat)
    requires pos + length <= |input| && AllBools(input[pos..pos + length])
    ensures BoolRun(input, pos, length) == Done(Bools(input[pos..pos + length]), pos + length)
    decreases length
  {
    if length == 0 {
      assert input[pos..pos] == [];
    } else {
      hide IsBool;
      var s := input[pos..pos + length];
      assert s[0] == input[pos] && s[1..] == input[pos + 1..pos + length];
      BoolsCons(s[0], s[1..]);
      assert s == [s[0]] + s[1..];
      RunOfBools(input, pos + 1, length - 1);
    }
  }

  lemma {:induction false} RunToInvalid(input: Buf, pos: nat, length: nat, p: nat)
    requires pos + length <= |input| && FirstInvalid(input, pos, p) && p < pos + length
    ensures BoolRun(input, pos, length) == Fail(NewError(UnexpectedType, p))
    decreases length
  {
    if p > pos { RunToInvalid(input, pos + 1, length - 1, p); }
  }

  /** What the block-wise loop decodes is the run, one element at a time. */
  lemma BodyIsRun(input: Buf, start: nat, length: nat, values: seq<bool>, r: Result<nat>)
    requires start <= |input|
    requires start + length > |input| ==> r == Err(NewError(Eof, |input|))
    requires start + length <= |input| && r.Ok? ==>
               r == Ok(start + length) && AllBools(input[start..start + length])
               && values == Bools(input[start..start + length])
    requires start + length <= |input| && r.Err? ==>
               r.error.offset < start + length && FirstInvalid(input, start, r.error.offset)
               && r.error == NewError(UnexpectedType, r.error.offset)
    ensures BoolBody(input, start, length) == match r case Ok(end) => Done(values, end) case Err(e) => Fail(e)
  {
    hide BoolRun, AllBools, Bools, FirstInvalid;
    if start + length <= |input| {
      if r.Ok? { RunOfBools(input, start, length); } else { RunToInvalid(input, start, length, r.error.offset); }
    }
  }

  function BoolValues(bs: seq<bool>): (ws: seq<Value>)
    ensures |ws| == |bs|
  {
    seq(|bs|, i requires 0 <= i < |bs| => Bool(bs[i]))
  }

  /** `d` holds the booleans `bs`. */
  predicate HoldsBools(d: Parse<seq<Value>>, bs: seq<bool>, end: nat) {
    d == Done(BoolValues(bs), end)
  }

  /** One byte is one boolean, and nothing else is. */
  lemma OneElement(input: Buf, pos: nat)
    requires pos < |input|
    ensures var d := Decode(DEFAULT_OPTIONS, input, pos, 1);
            if IsBool(input[pos]) then d == Done(Bool(input[pos] == 0xf5), pos + 1) else d.Done? ==> !d.value.Bool?
  {
    hide Argument;
  }

  /** Exactly the bodies of booleans decode to booleans. */
  lemma {:induction false} BodyAgrees(input: Buf, pos: nat, count: nat)
    requires pos <= |input|
    ensures var d := DecodeMany(DEFAULT_OPTIONS, input, pos, 1, count);
            if pos + count <= |input| && AllBools(input[pos..pos + count])
            then HoldsBools(d, Bools(input[pos..pos + count]), pos + count)
            else d.Done? ==> exists i :: 0 <= i < |d.value| && !d.value[i].Bool?
    decreases count
  {
    hide Decode, IsBool;
    if count == 0 {
      assert input[pos..pos] == [];
    } else if pos < |input| {
      OneElement(input, pos);
      var v := Decode(DEFAULT_OPTIONS, input, pos, 1);
      if v.Done? {
        BodyAgrees(input, v.end, count - 1);
        PrependBool(input, pos, count, v, DecodeMany(DEFAULT_OPTIONS, input, v.end, 1, count - 1));
      }
    }
  }

  lemma PrependBool(input: Buf, pos: nat, count: nat, v: Parse<Value>, rest: Parse<seq<Value>>)
    requires pos < |input| && count > 0 && v.Done?
    requires if IsBool(input[pos]) then v == Done(Bool(input[pos] == 0xf5), pos + 1) else !v.value.Bool?
    requires v.end + (count - 1) <= |input| && AllBools(input[v.end..v.end + (count - 1)]) ==>
               HoldsBools(rest, Bools(input[v.end..v.end + (count - 1)]), v.end + (count - 1))
    requires !(v.end + (count - 1) <= |input| && AllBools(input[v.end..v.end + (count - 1)])) ==>
               rest.Done? ==> exists i :: 0 <= i < |rest.value| && !rest.value[i].Bool?
    ensures var d := if rest.Done? then Done([v.value] + rest.value, rest.end) else Fail(rest.error);
            if pos + count <= |input| && AllBools(input[pos..pos + count])
            then HoldsBools(d, Bools(input[pos..pos + count]), pos + count)
            else d.Done? ==> exists i :: 0 <= i < |d.value| && !d.value[i].Bool?
  {
    if pos + count <= |input| && IsBool(input[pos]) {
      ConsBools(input, pos, count);
    }
    if rest.Done? {
      var all := [v.value] + rest.value;
      if !IsBool(input[pos]) {
        assert !all[0].Bool?;
      } else if pos + count > |input| || !AllBools(input[pos + 1..pos + count]) {
        var i :| 0 <= i < |rest.value| && !rest.value[i].Bool?;
        assert !all[i + 1].Bool?;
      }
    }
    if pos + count <= |input| && !IsBool(input[pos]) {
      assert !IsBool(input[pos..pos + count][0]);
    }
  }

  lemma ConsBools(input: Buf, pos: nat, count: nat)
    requires count > 0 && pos + count <= |input| && IsBool(input[pos])
    ensures AllBools(input[pos..pos + count]) <==> AllBools(input[pos + 1..pos + count])
    ensures BoolValues(Bools(input[pos..pos + count]))
            == [Bool(input[pos] == 0xf5)] + BoolValues(Bools(input[pos + 1..pos + count]))
  {
    hide AllBools, Bools, BoolValues;
    var tail := input[pos + 1..pos + count];
    assert input[pos..pos + count] == [input[pos]] + tail;
    AllBoolsCons(input[pos], tail);
    BoolsCons(input[pos], tail);
    BoolValuesCons(input[pos] == 0xf5, Bools(tail));
  }

  lemma AllBoolsCons(b: Byte, tail: Buf)
    requires IsBool(b)
    ensures AllBools([b] + tail) <==> AllBools(tail)
  {
    forall k | 0 <= k < |tail| ensures ([b] + tail)[k + 1] == tail[k] {
    }
  }

  lemma BoolsCons(b: Byte, tail: Buf)
    ensures Bools([b] + tail) == [b == 0xf5] + Bools(tail)
  {
  }

  lemma BoolValuesCons(b: bool, bs: seq<bool>)
    ensures BoolValues([b] + bs) == [Bool(b)] + BoolValues(bs)
  {
  }

  lemma {:induction false} ToBreakAgrees(input: Buf, pos: nat, count: nat)
    requires pos <= |input|
    ensures var d := DecodeToBreak(DEFAULT_OPTIONS, input, pos, 1, count, 0);
            match BoolsToBreak(input, pos, count)
            case Done(bs, end) => HoldsBools(d, bs, end)
            case Fail(_) => d.Done? ==> exists i :: 0 <= i < |d.value| && !d.value[i].Bool?
    decreases |input| - pos
  {
    hide Decode, IsBool;
    if pos < |input| && input[pos] != 0xff && count != DEFAULT_OPTIONS.maxLen {
      OneElement(input, pos);
      var v := Decode(DEFAULT_OPTIONS, input, pos, 1);
      if v.Done? {
        var rest := DecodeToBreak(DEFAULT_OPTIONS, input, v.end, 1, count + 1, 0);
        if IsBool(input[pos]) {
          ToBreakAgrees(input, pos + 1, count + 1);
          PrependToBreak(v.value, BoolsToBreak(input, pos + 1, count + 1), rest);
        } else if rest.Done? {
          assert !([v.value] + rest.value)[0].Bool?;
        }
      }
    }
  }

  lemma PrependToBreak(v: Value, bs: Parse<seq<bool>>, rest: Parse<seq<Value>>)
    requires v.Bool?
    requires match bs
             case Done(more, end) => HoldsBools(rest, more, end)
             case Fail(_) => rest.Done? ==> exists i :: 0 <= i < |rest.value| && !rest.value[i].Bool?
    ensures match bs
            case Done(more, end) => rest.Done? && HoldsBools(Done([v] + rest.value, rest.end), [v.b] + more, end)
            case Fail(_) => rest.Done? ==> exists i :: 0 <= i < |[v] + rest.value| && !([v] + rest.value)[i].Bool?
  {
    match bs {
      case Done(more, end) => assert [v] + BoolValues(more) == BoolValues([v.b] + more);
      case Fail(_) =>
        if rest.Done? {
          var i :| 0 <= i < |rest.value| && !rest.value[i].Bool?;
          assert !([v] + rest.value)[i + 1].Bool?;
        }
    }
  }

  method FromSliceBoolArray(input: Buf) returns (r: Result<seq<bool>>)
    ensures r == BoolArray(input)
    ensures r.Ok? <==> DecodeValue(input).Ok? && DecodeValue(input).value.Array?
                       && forall i :: 0 <= i < |DecodeValue(input).value.items| ==> DecodeValue(input).value.items[i].Bool?
    ensures r.Ok? ==> DecodeValue(input) == Ok(Array(BoolValues(r.value)))
  {
    hide ReadHead, DecodeMany, DecodeToBreak, BoolsToBreak, BoolBody, Bools, BoolValues, DecodeValue, IsBool, AllBools, FirstInvalid;
    var d := new SliceDecoder(input, DEFAULT_OPTIONS);
    BulkArrays.GeneralArray(input);
    var h :- d.ReadHeader();
    if h.major != 4 {
      return Err(NewError(UnexpectedType, h.at));
    }
    if h.arg.Some? {
      if h.arg.value > d.options.maxLen {
        return Err(NewError(CollectionLimit, h.at));
      }
      var values, end := DecodeBoolBody(input, d.pos, h.arg.value);
      BodyAgrees(input, d.pos, h.arg.value);
      BodyVerdict(input, d.pos, h.arg.value, end);
      BodyIsRun(input, d.pos, h.arg.value, values, end);
      if end.Err? {
        return Err(end.error);
      }
      d.pos := end.value;
      var _ :- d.Finish();
      AllAreBools(values);
      return Ok(values);
    }
    ToBreakAgrees(input, d.pos, 0);
    var values :- DecodeBoolsToBreak(d, h.at);
    var _ :- d.Finish();
    AllAreBools(values);
    return Ok(values);
  }

  /** A failing body is one that is too short or holds something else. */
  lemma BodyVerdict(input: Buf, start: nat, length: nat, r: Result<nat>)
    requires start <= |input|
    requires start + length <= |input| && r.Err? ==>
               r.error.offset < start + length && FirstInvalid(input, start, r.error.offset)
    ensures start + length <= |input| && r.Err? ==> !AllBools(input[start..start + length])
  {
    if start + length <= |input| && r.Err? {
      assert !IsBool(input[start..start + length][r.error.offset - start]);
    }
  }

  lemma AllAreBools(bs: seq<bool>)
    ensures forall i :: 0 <= i < |BoolValues(bs)| ==> BoolValues(bs)[i].Bool?
  {
  }

  method DecodeBoolsToBreak(d: SliceDecoder, at: nat) returns (r: Result<seq<bool>>)
    requires d.Valid() && d.options == DEFAULT_OPTIONS && at == 0
    modifies d
    ensures d.Valid() && Agrees(r, d.pos, BoolsToBreak(d.input, old(d.pos), 0))
  {
    hide BoolsToBreak;
    var values: seq<bool> := [];
    AfterNone(BoolsToBreak(d.input, d.pos, 0));
    while true
      invariant d.Valid()
      invariant BoolsToBreak(d.input, old(d.pos), 0) == After(values, BoolsToBreak(d.input, d.pos, |values|))
      decreases |d.input| - d.pos
    {
      BoolsToBreakStep(d.input, d.pos, |values|);
      var initial :- d.Peek();
      if initial == 0xff {
        d.pos := d.pos + 1;
        AfterAll(values, d.pos);
        return Ok(values);
      }
      if |values| == d.options.maxLen {
        return Err(NewError(CollectionLimit, at));
      }
      d.pos := d.pos + 1;
      if initial != 0xf4 && initial != 0xf5 {
        return Err(NewError(UnexpectedType, d.pos - 1));
      }
      var value := initial == 0xf5;
      AfterMore(values, [value], BoolsToBreak(d.input, d.pos, |values| + 1));
      values := values + [value];
    }
  }
}
