/** What decoding the body of an integer array means, one element at a time. */
module Arrays {
  import opened Core
  import opened Heads

  /** A native integer type: whether it is signed, and the greatest argument it can hold. */
  datatype IntType = IntType(signed: bool, max: U64)

  const U8 := IntType(false, 0xff)
  const U16 := IntType(false, 0xffff)
  const U32 := IntType(false, 0xffff_ffff)
  const U64_TYPE := IntType(false, 0xffff_ffff_ffff_ffff)
  const I8 := IntType(true, 0x7f)
  const I16 := IntType(true, 0x7fff)
  const I32 := IntType(true, 0x7fff_ffff)
  const I64 := IntType(true, 0x7fff_ffff_ffff_ffff)

  predicate InRange(ty: IntType, v: int) {
    (if ty.signed then -1 - ty.max else 0) <= v <= ty.max
  }

  /** `decode_integer_argument!` for the head at `pos`. */
  function IntegerArgument(input: Buf, pos: nat): (r: Parse<U64>)
    requires pos < |input|
    ensures r.Done? ==> pos < r.end <= |input|
  {
    var ai := input[pos] % 32;
    if 28 <= ai <= 30 then Fail(NewError(InvalidAdditionalInfo, pos))
    else if ai == 31 then Fail(NewError(UnexpectedType, pos))
    else if HeadEnd(input, pos) > |input| then Fail(NewError(Eof, pos + 1))
    else Done(Argument(input, pos), HeadEnd(input, pos))
  }

  /** The one-element step. */
  function Element(ty: IntType, input: Buf, pos: nat): (r: Parse<int>)
    requires pos <= |input|
    ensures r.Done? ==> pos < r.end <= |input| && InRange(ty, r.value)
  {
    if pos == |input| then Fail(NewError(Eof, pos))
    else if input[pos] / 32 > (if ty.signed then 1 else 0) then Fail(NewError(UnexpectedType, pos))
    else
      var (n, end) :- IntegerArgument(input, pos);
      if n > ty.max then Fail(NewError(IntegerOverflow, end))
      else Done(if input[pos] / 32 == 0 then n else -1 - n, end)
  }

  /** `count` elements. */
  function Body(ty: IntType, input: Buf, pos: nat, count: nat): (r: Parse<seq<int>>)
    requires pos <= |input|
    ensures r.Done? ==> pos <= r.end <= |input| && |r.value| == count
    decreases count
  {
    if count == 0 then Done([], pos) else
    var (v, p) :- Element(ty, input, pos);
    After([v], Body(ty, input, p, count - 1))
  }

  lemma NoElement(ty: IntType, input: Buf)
    ensures Element(ty, input, |input|) == Fail(NewError(Eof, |input|))
  {
  }

  lemma BodyStep(ty: IntType, input: Buf, pos: nat, count: nat)
    requires pos <= |input|
    ensures var e := Element(ty, input, pos);
            if count == 0 then Body(ty, input, pos, count) == Done([], pos)
            else if e.Fail? then Body(ty, input, pos, count) == Fail(e.error)
            else Body(ty, input, pos, count) == After([e.value], Body(ty, input, e.end, count - 1))
  {
    hide Element;
  }

  // ----- blocks of elements with heads of one kind

  /** An element at `pos` whose argument takes `w` further bytes and is in range. */
  predicate Fast(ty: IntType, input: Buf, pos: nat, w: nat) {
    pos + 1 + w <= |input| && input[pos] / 32 <= (if ty.signed then 1 else 0)
    && (if w == 0 then input[pos] % 32 < 24 else 24 <= input[pos] % 32 < 28 && ArgWidth(input[pos] % 32) == w)
    && FastArgument(input, pos, w) <= ty.max
  }

  function FastArgument(input: Buf, pos: nat, w: nat): nat
    requires pos + 1 + w <= |input|
  {
    if w == 0 then input[pos] % 32 else FromBE(input[pos + 1..pos + 1 + w])
  }

  function FastValue(input: Buf, pos: nat, w: nat): int
    requires pos + 1 + w <= |input|
  {
    if input[pos] / 32 == 0 then FastArgument(input, pos, w) else -1 - FastArgument(input, pos, w)
  }

  lemma FastElement(ty: IntType, input: Buf, pos: nat, w: nat)
    requires Fast(ty, input, pos, w)
    ensures Element(ty, input, pos) == Done(FastValue(input, pos, w), pos + 1 + w)
  {
  }

  /** Four elements at once. */
  lemma FourAtOnce(ty: IntType, input: Buf, pos: nat, w: nat, count: nat)
    requires count >= 4 && Fast(ty, input, pos, w) && Fast(ty, input, pos + 1 + w, w)
    requires Fast(ty, input, pos + 2 + 2 * w, w) && Fast(ty, input, pos + 3 + 3 * w, w)
    ensures Body(ty, input, pos, count)
            == After([FastValue(input, pos, w), FastValue(input, pos + 1 + w, w),
                      FastValue(input, pos + 2 + 2 * w, w), FastValue(input, pos + 3 + 3 * w, w)],
                     Body(ty, input, pos + 4 + 4 * w, count - 4))
  {
    hide Element, Body, FastValue, FastArgument;
    var a, b, c, d := pos, pos + 1 + w, pos + 2 + 2 * w, pos + 3 + 3 * w;
    FastElement(ty, input, a, w);
    FastElement(ty, input, b, w);
    FastElement(ty, input, c, w);
    FastElement(ty, input, d, w);
    BodyStep(ty, input, a, count);
    BodyStep(ty, input, b, count - 1);
    BodyStep(ty, input, c, count - 2);
    BodyStep(ty, input, d, count - 3);
    var rest := Body(ty, input, pos + 4 + 4 * w, count - 4);
    var x, y, z := FastValue(input, a, w), FastValue(input, b, w), FastValue(input, c, w);
    AfterMore([z], [FastValue(input, d, w)], rest);
    AfterMore([y], [z] + [FastValue(input, d, w)], rest);
    AfterMore([x], [y] + ([z] + [FastValue(input, d, w)]), rest);
    assert [x] + ([y] + ([z] + [FastValue(input, d, w)])) == [x, y, z, FastValue(input, d, w)];
  }

  /** The values of `k` one-byte elements. */
  function TinyValues(input: Buf, pos: nat, k: nat): (vs: seq<int>)
    requires pos + k <= |input|
    ensures |vs| == k
    decreases k
  {
    if k == 0 then [] else [FastValue(input, pos, 0)] + TinyValues(input, pos + 1, k - 1)
  }

  /** Any number of one-byte elements at once. */
  lemma {:induction false} TinyAtOnce(ty: IntType, input: Buf, pos: nat, k: nat, count: nat)
    requires k <= count && pos + k <= |input| && forall p :: pos <= p < pos + k ==> Fast(ty, input, p, 0)
    ensures Body(ty, input, pos, count)
            == After(TinyValues(input, pos, k), Body(ty, input, pos + k, count - k))
    decreases k
  {
    hide Element, Body, FastValue;
    if k == 0 {
      AfterNone(Body(ty, input, pos, count));
    } else {
      FastElement(ty, input, pos, 0);
      BodyStep(ty, input, pos, count);
      TinyAtOnce(ty, input, pos + 1, k - 1, count - 1);
      AfterMore([FastValue(input, pos, 0)], TinyValues(input, pos + 1, k - 1), Body(ty, input, pos + k, count - k));
    }
  }
}
