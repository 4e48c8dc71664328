/**
  * The unrolled array bodies of src/decode.rs. Whatever mixture of blocks is taken, each equals the
  * one-element loop: the same values, the same end, the same error at the same offset.
  */
module ArrayBodies {
  import opened Core
  import opened Heads
  import opened Arrays

  /** `values` and the end of the body, or the error. */
  predicate Decodes(values: seq<int>, r: Result<nat>, spec: Parse<seq<int>>) {
    match spec
    case Done(vs, end) => r == Ok(end) && values == vs
    case Fail(e) => r == Err(e)
  }

  /** `!x` on a two's complement integer. */
  function Not(x: int): int { -1 - x }

  /** Reinterpreting an unsigned integer below `2 * half` as a signed one: `as i8`, `as i16`, `as i32`, `as i64`. */
  function AsSigned(n: nat, half: nat): int
    requires n < 2 * half
  {
    if n < half then n else n - 2 * half
  }

  const HALF8 := 0x80
  const HALF16 := 0x8000
  const HALF32 := 0x8000_0000
  const HALF64 := 0x8000_0000_0000_0000

  /** A clear top bit halves the range. */
  lemma TopBitClear(s: Buf)
    requires s != [] && s[0] < 0x80
    ensures FromBE(s) < 0x80 * Pow256(|s| - 1)
    decreases |s|
  {
    if |s| == 1 {
      FromOneByte(s);
    } else {
      TopBitClear(s[..|s| - 1]);
      assert Pow256(|s| - 1) == 256 * Pow256(|s| - 2);
    }
  }

  // ----- heads of blocks

  /** Additional information 24 to 27 for 1, 2, 4 and 8 argument bytes. */
  function InfoOf(w: nat): nat {
    if w == 1 then 24 else if w == 2 then 25 else if w == 4 then 26 else 27
  }

  predicate BlockHead(signed: bool, b: Byte, w: nat) {
    b == InfoOf(w) || (signed && b == 0x20 + InfoOf(w))
  }

  /** The value a block computes for the element at `pos`. */
  function BlockValue(input: Buf, pos: nat, w: nat): int
    requires pos + 1 + w <= |input|
  {
    Signed(input[pos], w, FromBE(input[pos + 1..pos + 1 + w]))
  }

  /** The value of an argument `n` under the head `b`. */
  function Signed(b: Byte, w: nat, n: nat): int {
    if b == InfoOf(w) then n else Not(n)
  }

  lemma BlockElement(ty: IntType, input: Buf, pos: nat, w: nat)
    requires w in {1, 2, 4, 8} && pos + 1 + w <= |input| && BlockHead(ty.signed, input[pos], w)
    requires FromBE(input[pos + 1..pos + 1 + w]) <= ty.max
    ensures Fast(ty, input, pos, w) && FastValue(input, pos, w) == BlockValue(input, pos, w)
  {
  }

  /** The four values a block with `w` argument bytes computes. */
  function BlockValues(input: Buf, pos: nat, w: nat): (vs: seq<int>)
    requires pos + 4 + 4 * w <= |input|
    ensures |vs| == 4
  {
    [BlockValue(input, pos, w), BlockValue(input, pos + 1 + w, w),
     BlockValue(input, pos + 2 + 2 * w, w), BlockValue(input, pos + 3 + 3 * w, w)]
  }

  predicate BlockHeads(ty: IntType, input: Buf, pos: nat, w: nat) {
    w in {1, 2, 4, 8} && pos + 4 + 4 * w <= |input|
    && BlockHead(ty.signed, input[pos], w) && BlockHead(ty.signed, input[pos + 1 + w], w)
    && BlockHead(ty.signed, input[pos + 2 + 2 * w], w) && BlockHead(ty.signed, input[pos + 3 + 3 * w], w)
  }

  /** Four elements whose heads announce `w` argument bytes. */
  lemma Block(ty: IntType, input: Buf, pos: nat, w: nat, count: nat)
    requires BlockHeads(ty, input, pos, w) && count >= 4
    requires FromBE(input[pos + 1..pos + 1 + w]) <= ty.max
    requires FromBE(input[pos + 2 + w..pos + 2 + 2 * w]) <= ty.max
    requires FromBE(input[pos + 3 + 2 * w..pos + 3 + 3 * w]) <= ty.max
    requires FromBE(input[pos + 4 + 3 * w..pos + 4 + 4 * w]) <= ty.max
    ensures Body(ty, input, pos, count) == After(BlockValues(input, pos, w), Body(ty, input, pos + 4 + 4 * w, count - 4))
  {
    hide Body, Fast, FastValue, BlockValue, BlockHead, FromBE;
    BlockElement(ty, input, pos, w);
    BlockElement(ty, input, pos + 1 + w, w);
    BlockElement(ty, input, pos + 2 + 2 * w, w);
    BlockElement(ty, input, pos + 3 + 3 * w, w);
    FourAtOnce(ty, input, pos, w, count);
  }

  /** A block whose arguments always fit the type. */
  lemma FittingBlock(ty: IntType, input: Buf, pos: nat, w: nat, count: nat)
    requires BlockHeads(ty, input, pos, w) && count >= 4 && Pow256(w) <= ty.max + 1
    ensures Body(ty, input, pos, count) == After(BlockValues(input, pos, w), Body(ty, input, pos + 4 + 4 * w, count - 4))
  {
    hide Body, BlockValues, BlockHead, FromBE;
    Block(ty, input, pos, w, count);
  }

  /** A block of a signed type whose arguments fit because their top bits are clear. */
  lemma ClearBlock(ty: IntType, input: Buf, pos: nat, w: nat, count: nat)
    requires BlockHeads(ty, input, pos, w) && count >= 4 && ty.max + 1 == 0x80 * Pow256(w - 1)
    requires input[pos + 1] < 0x80 && input[pos + 2 + w] < 0x80 && input[pos + 3 + 2 * w] < 0x80 && input[pos + 4 + 3 * w] < 0x80
    ensures Body(ty, input, pos, count) == After(BlockValues(input, pos, w), Body(ty, input, pos + 4 + 4 * w, count - 4))
  {
    hide Body, BlockValues, FromBE;
    TopBitClear(input[pos + 1..pos + 1 + w]);
    TopBitClear(input[pos + 2 + w..pos + 2 + 2 * w]);
    TopBitClear(input[pos + 3 + 2 * w..pos + 3 + 3 * w]);
    TopBitClear(input[pos + 4 + 3 * w..pos + 4 + 4 * w]);
    Block(ty, input, pos, w, count);
  }

  lemma ClearEights(input: Buf, pos: nat, count: nat)
    requires BlockHeads(I64, input, pos, 8) && count >= 4
    requires input[pos + 1] < 0x80 && input[pos + 10] < 0x80 && input[pos + 19] < 0x80 && input[pos + 28] < 0x80
    ensures Body(I64, input, pos, count) == After(BlockValues(input, pos, 8), Body(I64, input, pos + 36, count - 4))
  {
    hide Body, BlockValues, BlockHeads;
    Pow256Values();
    ClearBlock(I64, input, pos, 8, count);
  }

  lemma ClearTwos(input: Buf, pos: nat, count: nat)
    requires BlockHeads(I16, input, pos, 2) && count >= 4
    requires input[pos + 1] < 0x80 && input[pos + 4] < 0x80 && input[pos + 7] < 0x80 && input[pos + 10] < 0x80
    ensures Body(I16, input, pos, count) == After(BlockValues(input, pos, 2), Body(I16, input, pos + 12, count - 4))
  {
    hide Body, BlockValues, BlockHeads;
    Pow256Values();
    ClearBlock(I16, input, pos, 2, count);
  }

  /** Eight bytes, and two, with a clear top bit keep their value as a signed integer. */
  lemma SignedEight(s: Buf)
    requires |s| == 8 && s[0] < 0x80
    ensures FromBE(s) < HALF64
  {
    hide FromBE;
    Pow256Values();
    TopBitClear(s);
  }

  lemma SignedTwo(s: Buf)
    requires |s| == 2 && s[0] < 0x80
    ensures FromBE(s) < HALF16
  {
    hide FromBE;
    Pow256Values();
    TopBitClear(s);
  }

  /** The values can be computed from the bytes of the block alone. */
  lemma BlockAlone(input: Buf, pos: nat, w: nat)
    requires pos + 4 + 4 * w <= |input|
    ensures BlockValues(input[pos..pos + 4 + 4 * w], 0, w) == BlockValues(input, pos, w)
  {
    hide FromBE, BlockValue;
    ElementAlone(input, pos, pos + 4 + 4 * w, 0, w);
    ElementAlone(input, pos, pos + 4 + 4 * w, 1 + w, w);
    ElementAlone(input, pos, pos + 4 + 4 * w, 2 + 2 * w, w);
    ElementAlone(input, pos, pos + 4 + 4 * w, 3 + 3 * w, w);
  }

  /** A block's values, spelt out. */
  lemma BlockSpelt(e: Buf, w: nat)
    requires |e| == 4 + 4 * w
    ensures BlockValues(e, 0, w)
            == [Signed(e[0], w, FromBE(e[1..1 + w])), Signed(e[1 + w], w, FromBE(e[2 + w..2 + 2 * w])),
                Signed(e[2 + 2 * w], w, FromBE(e[3 + 2 * w..3 + 3 * w])), Signed(e[3 + 3 * w], w, FromBE(e[4 + 3 * w..4 + 4 * w]))]
  {
    hide FromBE;
  }

  /** A block of one-byte arguments, spelt out. */
  lemma OnesSpelt(e: Buf)
    requires |e| == 8
    ensures BlockValues(e, 0, 1) == [Signed(e[0], 1, e[1]), Signed(e[2], 1, e[3]), Signed(e[4], 1, e[5]), Signed(e[6], 1, e[7])]
  {
    hide BlockValues, Signed;
    BlockSpelt(e, 1);
    FromOneByte(e[1..2]);
    FromOneByte(e[3..4]);
    FromOneByte(e[5..6]);
    FromOneByte(e[7..8]);
  }

  /** A block of eight-byte arguments with clear top bits, spelt out with the conversions of the code. */
  lemma EightsSpelt(e: Buf)
    requires |e| == 36 && e[1] < 0x80 && e[10] < 0x80 && e[19] < 0x80 && e[28] < 0x80
    ensures FromBE(e[1..9]) < HALF64 && FromBE(e[10..18]) < HALF64 && FromBE(e[19..27]) < HALF64 && FromBE(e[28..36]) < HALF64
    ensures BlockValues(e, 0, 8)
            == [if e[0] == 0x1b then AsSigned(FromBE(e[1..9]), HALF64) else Not(AsSigned(FromBE(e[1..9]), HALF64)),
                if e[9] == 0x1b then AsSigned(FromBE(e[10..18]), HALF64) else Not(AsSigned(FromBE(e[10..18]), HALF64)),
                if e[18] == 0x1b then AsSigned(FromBE(e[19..27]), HALF64) else Not(AsSigned(FromBE(e[19..27]), HALF64)),
                if e[27] == 0x1b then AsSigned(FromBE(e[28..36]), HALF64) else Not(AsSigned(FromBE(e[28..36]), HALF64))]
  {
    hide FromBE, BlockValues;
    SignedEight(e[1..9]);
    SignedEight(e[10..18]);
    SignedEight(e[19..27]);
    SignedEight(e[28..36]);
    BlockSpelt(e, 8);
  }

  lemma ElementAlone(input: Buf, pos: nat, end: nat, k: nat, w: nat)
    requires pos <= end <= |input| && k + 1 + w <= end - pos
    ensures BlockValue(input[pos..end], k, w) == BlockValue(input, pos + k, w)
  {
    hide FromBE;
    SliceOfSlice(input, pos, end, k + 1, k + 1 + w);
  }

  /** `block`, when not empty, is what the next elements decode to, and they end at `next`. */
  predicate Advances(ty: IntType, input: Buf, pos: nat, remaining: nat, block: seq<int>, next: nat)
    requires pos <= |input|
  {
    |block| <= remaining && next <= |input| && (block == [] ==> next == pos)
    && Body(ty, input, pos, remaining) == After(block, Body(ty, input, next, remaining - |block|))
  }

  // ----- one-byte elements

  lemma {:induction false} TinyBlockUnsigned(input: Buf, pos: nat, block: seq<int>)
    requires pos + |block| <= |input|
    requires forall p :: pos <= p < pos + |block| ==> input[p] <= 0x17 && block[p - pos] == input[p]
    ensures block == TinyValues(input, pos, |block|)
    decreases |block|
  {
    if block != [] {
      TinyBlockUnsigned(input, pos + 1, block[1..]);
      assert block == [block[0]] + block[1..];
    }
  }

  lemma {:induction false} TinyBlockSigned(input: Buf, pos: nat, block: seq<int>)
    requires pos + |block| <= |input|
    requires forall p :: pos <= p < pos + |block| ==>
               (input[p] <= 0x17 || 0x20 <= input[p] <= 0x37)
               && block[p - pos] == if input[p] / 32 == 0 then input[p] % 32 else Not(input[p] % 32)
    ensures block == TinyValues(input, pos, |block|)
    decreases |block|
  {
    if block != [] {
      TinyBlockSigned(input, pos + 1, block[1..]);
      assert block == [block[0]] + block[1..];
    }
  }

  // ----- the argument of one element

  /** `decode_integer_argument!`, with the cursor just after the head at `at`. */
  method DecodeArgument(input: Buf, pos: nat, additional: nat, at: nat) returns (r: Result<U64>, next: nat)
    requires at < |input| && pos == at + 1 && additional == input[at] % 32
    ensures Agrees(r, next, IntegerArgument(input, at))
  {
    next := pos;
    if additional <= 23 {
      r := Ok(additional);
    } else if additional == 24 {
      if pos == |input| {
        return Err(NewError(Eof, pos)), pos;
      }
      FromOneByte(input[pos..pos + 1]);
      r, next := Ok(input[pos]), pos + 1;
    } else if additional <= 27 {
      r, next := TakeArgument(input, pos, if additional == 25 then 2 else if additional == 26 then 4 else 8);
    } else if additional <= 30 {
      r := Err(NewError(InvalidAdditionalInfo, at));
    } else {
      r := Err(NewError(UnexpectedType, at));
    }
  }

  /** `input.get(pos..pos + w)` as a big-endian number. */
  method TakeArgument(input: Buf, pos: nat, w: nat) returns (r: Result<U64>, next: nat)
    requires pos <= |input| && w in {2, 4, 8}
    ensures if pos + w <= |input| then next == pos + w && r == Ok(FromBE(input[pos..pos + w]))
            else r == Err(NewError(Eof, pos))
  {
    if pos + w > |input| {
      return Err(NewError(Eof, pos)), pos;
    }
    FromBEFits(input[pos..pos + w]);
    return Ok(FromBE(input[pos..pos + w])), pos + w;
  }

  // ----- unsigned bodies

  /** The block of four at the head of the loop of `decode_u8_body`. */
  method U8Ones(input: Buf, pos: nat, remaining: nat) returns (block: seq<int>, next: nat)
    requires pos <= |input|
    ensures Advances(U8, input, pos, remaining, block, next)
  {
    hide Body, BlockValues, FromBE, TinyValues, Not;
    Pow256Values();
    if remaining >= 4 && pos + 8 <= |input| {
      var e := input[pos..pos + 8];
      if e[0] == 0x18 && e[2] == 0x18 && e[4] == 0x18 && e[6] == 0x18
      {
        FittingBlock(U8, input, pos, 1, remaining);
        BlockAlone(input, pos, 1);
        OnesSpelt(e);
        block := [e[1], e[3], e[5], e[7]];
        assert block == BlockValues(input, pos, 1);
        return block, pos + 8;
      }
    }
    AfterNone(Body(U8, input, pos, remaining));
    return [], pos;
  }

  method DecodeU8Body(input: Buf, start: nat, length: nat) returns (values: seq<int>, r: Result<nat>)
    requires start <= |input|
    ensures Decodes(values, r, Body(U8, input, start, length))
  {
    hide Body, FromBE;
    values := [];
    var pos: nat, remaining: nat := start, length;
    AfterNone(Body(U8, input, start, length));
    while remaining != 0
      invariant pos <= |input|
      invariant Body(U8, input, start, length) == After(values, Body(U8, input, pos, remaining))
    {
      var block, next := U8Ones(input, pos, remaining);
      if block != [] {
        AfterMore(values, block, Body(U8, input, next, remaining - |block|));
        values, pos, remaining := values + block, next, remaining - |block|;
        continue;
      }
      var at := pos;
      BodyStep(U8, input, pos, remaining);
      if pos == |input| {
        r := Err(NewError(Eof, pos));
        return;
      }
      var initial := input[pos];
      var value: int;
      if initial <= 0x17 {
        pos := pos + 1;
        value := initial;
      } else if initial == 0x18 {
        if pos + 1 == |input| {
          r := Err(NewError(Eof, pos + 1));
          return;
        }
        FromOneByte(input[pos + 1..pos + 2]);
        value := input[pos + 1];
        pos := pos + 2;
      } else {
        var uncommon, afterUncommon := DecodeU8Uncommon(input, pos, initial, at);
        if uncommon.Err? {
          r := Err(uncommon.error);
          return;
        }
        value, pos := uncommon.value, afterUncommon;
      }
      AfterMore(values, [value], Body(U8, input, pos, remaining - 1));
      values, remaining := values + [value], remaining - 1;
    }
    BodyStep(U8, input, pos, 0);
    AfterAll(values, pos);
    r := Ok(pos);
  }

  /** The wider arguments and the errors of an unsigned byte. */
  method DecodeU8Uncommon(input: Buf, pos: nat, initial: Byte, at: nat) returns (r: Result<int>, next: nat)
    requires pos < |input| && at == pos && initial == input[pos] && initial > 0x18
    ensures Agrees(r, next, Element(U8, input, pos))
  {
    hide FromBE;
    next := pos + 1;
    if 0x19 <= initial <= 0x1b {
      var wide, end := TakeArgument(input, next, if initial == 0x19 then 2 else if initial == 0x1a then 4 else 8);
      if wide.Err? {
        r := Err(wide.error);
        return;
      }
      next := end;
      r := if wide.value <= 0xff then Ok(wide.value) else Err(NewError(IntegerOverflow, next));
    } else if 0x1c <= initial <= 0x1e {
      r := Err(NewError(InvalidAdditionalInfo, at));
    } else {
      r := Err(NewError(UnexpectedType, at));
    }
  }

  /** The block of four at the head of the loop of `decode_u16_body`. */
  method U16Twos(input: Buf, pos: nat, remaining: nat) returns (block: seq<int>, next: nat)
    requires pos <= |input|
    ensures Advances(U16, input, pos, remaining, block, next)
  {
    hide Body, BlockValues, FromBE, TinyValues, Not;
    Pow256Values();
    if remaining >= 4 && pos + 12 <= |input| {
      var e := input[pos..pos + 12];
      if e[0] == 0x19 && e[3] == 0x19 && e[6] == 0x19 && e[9] == 0x19
      {
        FittingBlock(U16, input, pos, 2, remaining);
        BlockAlone(input, pos, 2);
        BlockSpelt(e, 2);
        block := [FromBE(e[1..3]), FromBE(e[4..6]), FromBE(e[7..9]), FromBE(e[10..12])];
        assert block == BlockValues(input, pos, 2);
        return block, pos + 12;
      }
    }
    AfterNone(Body(U16, input, pos, remaining));
    return [], pos;
  }

  /** The element at `at`, whose initial byte is matched by width. */
  method DecodeU16Element(input: Buf, pos: nat, initial: Byte, at: nat) returns (r: Result<int>, next: nat)
    requires pos < |input| && at == pos && initial == input[pos]
    ensures Agrees(r, next, Element(U16, input, pos))
  {
    hide FromBE;
    next := pos + 1;
    if initial <= 0x17 {
      r := Ok(initial);
    } else if initial == 0x18 {
      if next == |input| {
        r := Err(NewError(Eof, next));
        return;
      }
      FromOneByte(input[next..next + 1]);
      r, next := Ok(input[next]), next + 1;
    } else if initial <= 0x1b {
      var wide, end := TakeArgument(input, next, if initial == 0x19 then 2 else if initial == 0x1a then 4 else 8);
      if wide.Err? {
        r := Err(wide.error);
        return;
      }
      next := end;
      r := if wide.value <= 0xffff then Ok(wide.value) else Err(NewError(IntegerOverflow, next));
    } else if initial <= 0x1e {
      r := Err(NewError(InvalidAdditionalInfo, at));
    } else {
      r := Err(NewError(UnexpectedType, at));
    }
  }

  method DecodeU16Body(input: Buf, start: nat, length: nat) returns (values: seq<int>, r: Result<nat>)
    requires start <= |input|
    ensures Decodes(values, r, Body(U16, input, start, length))
  {
    hide Body, Element, FromBE;
    values := [];
    var pos: nat, remaining: nat := start, length;
    AfterNone(Body(U16, input, start, length));
    while remaining != 0
      invariant pos <= |input|
      invariant Body(U16, input, start, length) == After(values, Body(U16, input, pos, remaining))
    {
      var block, next := U16Twos(input, pos, remaining);
      if block != [] {
        AfterMore(values, block, Body(U16, input, next, remaining - |block|));
        values, pos, remaining := values + block, next, remaining - |block|;
        continue;
      }
      var at := pos;
      BodyStep(U16, input, pos, remaining);
      if pos == |input| {
        NoElement(U16, input);
        r := Err(NewError(Eof, pos));
        return;
      }
      var element, afterElement := DecodeU16Element(input, pos, input[pos], at);
      if element.Err? {
        r := Err(element.error);
        return;
      }
      var value := element.value;
      pos := afterElement;
      AfterMore(values, [value], Body(U16, input, pos, remaining - 1));
      values, remaining := values + [value], remaining - 1;
    }
    BodyStep(U16, input, pos, 0);
    AfterAll(values, pos);
    r := Ok(pos);
  }

  /** The block of four at the head of the loop of `decode_u32_body`. */
  method U32Fours(input: Buf, pos: nat, remaining: nat) returns (block: seq<int>, next: nat)
    requires pos <= |input|
    ensures Advances(U32, input, pos, remaining, block, next)
  {
    hide Body, BlockValues, FromBE, TinyValues, Not;
    Pow256Values();
    if remaining >= 4 && pos + 20 <= |input| {
      var e := input[pos..pos + 20];
      if e[0] == 0x1a && e[5] == 0x1a && e[10] == 0x1a && e[15] == 0x1a
      {
        FittingBlock(U32, input, pos, 4, remaining);
        BlockAlone(input, pos, 4);
        BlockSpelt(e, 4);
        block := [FromBE(e[1..5]), FromBE(e[6..10]), FromBE(e[11..15]), FromBE(e[16..20])];
        assert block == BlockValues(input, pos, 4);
        return block, pos + 20;
      }
    }
    AfterNone(Body(U32, input, pos, remaining));
    return [], pos;
  }

  method DecodeU32Body(input: Buf, start: nat, length: nat) returns (values: seq<int>, r: Result<nat>)
    requires start <= |input|
    ensures Decodes(values, r, Body(U32, input, start, length))
  {
    hide Body, FromBE;
    values := [];
    var pos: nat, remaining: nat := start, length;
    AfterNone(Body(U32, input, start, length));
    while remaining != 0
      invariant pos <= |input|
      invariant Body(U32, input, start, length) == After(values, Body(U32, input, pos, remaining))
    {
      var block, next := U32Fours(input, pos, remaining);
      if block != [] {
        AfterMore(values, block, Body(U32, input, next, remaining - |block|));
        values, pos, remaining := values + block, next, remaining - |block|;
        continue;
      }
      var at := pos;
      BodyStep(U32, input, pos, remaining);
      if pos == |input| {
        r := Err(NewError(Eof, pos));
        return;
      }
      var initial := input[pos];
      pos := pos + 1;
      if initial / 32 != 0 {
        r := Err(NewError(UnexpectedType, at));
        return;
      }
      var argument, afterArgument := DecodeArgument(input, pos, initial % 32, at);
      if argument.Err? {
        r := Err(argument.error);
        return;
      }
      pos := afterArgument;
      if argument.value > 0xffff_ffff {
        r := Err(NewError(IntegerOverflow, pos));
        return;
      }
      var value := argument.value;
      AfterMore(values, [value], Body(U32, input, pos, remaining - 1));
      values, remaining := values + [value], remaining - 1;
    }
    BodyStep(U32, input, pos, 0);
    AfterAll(values, pos);
    r := Ok(pos);
  }

  /** Four elements with eight argument bytes. */
  method U64Eights(input: Buf, pos: nat, remaining: nat) returns (block: seq<int>, next: nat)
    requires pos <= |input|
    ensures Advances(U64_TYPE, input, pos, remaining, block, next)
  {
    hide Body, BlockValues, FromBE, TinyValues, Not;
    Pow256Values();
    if remaining >= 4 && pos + 36 <= |input| {
      var e := input[pos..pos + 36];
      if e[0] == 0x1b && e[9] == 0x1b && e[18] == 0x1b && e[27] == 0x1b
      {
        FittingBlock(U64_TYPE, input, pos, 8, remaining);
        BlockAlone(input, pos, 8);
        BlockSpelt(e, 8);
        block := [FromBE(e[1..9]), FromBE(e[10..18]), FromBE(e[19..27]), FromBE(e[28..36])];
        assert block == BlockValues(input, pos, 8);
        return block, pos + 36;
      }
    }
    AfterNone(Body(U64_TYPE, input, pos, remaining));
    return [], pos;
  }

  /** Eight elements without argument bytes. */
  method U64Tinies(input: Buf, pos: nat, remaining: nat) returns (block: seq<int>, next: nat)
    requires pos <= |input|
    ensures Advances(U64_TYPE, input, pos, remaining, block, next)
  {
    hide Body, BlockValues, FromBE, TinyValues, Not;
    Pow256Values();
    if remaining >= 8 && pos + 8 <= |input| && forall p :: pos <= p < pos + 8 ==> input[p] <= 0x17 {
      forall p | pos <= p < pos + 8 ensures Fast(U64_TYPE, input, p, 0) {
      }
      TinyAtOnce(U64_TYPE, input, pos, 8, remaining);
      block := seq(8, i requires 0 <= i < 8 => var p := pos + i; input[p]);
      TinyBlockUnsigned(input, pos, block);
      return block, pos + 8;
    }
    AfterNone(Body(U64_TYPE, input, pos, remaining));
    return [], pos;
  }

  /** Four elements with one argument byte. */
  method U64Ones(input: Buf, pos: nat, remaining: nat) returns (block: seq<int>, next: nat)
    requires pos <= |input|
    ensures Advances(U64_TYPE, input, pos, remaining, block, next)
  {
    hide Body, BlockValues, FromBE, TinyValues, Not;
    Pow256Values();
    if remaining >= 4 && pos + 8 <= |input| {
      var e := input[pos..pos + 8];
      if e[0] == 0x18 && e[2] == 0x18 && e[4] == 0x18 && e[6] == 0x18
      {
        FittingBlock(U64_TYPE, input, pos, 1, remaining);
        BlockAlone(input, pos, 1);
        OnesSpelt(e);
        block := [e[1], e[3], e[5], e[7]];
        assert block == BlockValues(input, pos, 1);
        return block, pos + 8;
      }
    }
    AfterNone(Body(U64_TYPE, input, pos, remaining));
    return [], pos;
  }

  /** Four elements with two argument bytes. */
  method U64Twos(input: Buf, pos: nat, remaining: nat) returns (block: seq<int>, next: nat)
    requires pos <= |input|
    ensures Advances(U64_TYPE, input, pos, remaining, block, next)
  {
    hide Body, BlockValues, FromBE, TinyValues, Not;
    Pow256Values();
    if remaining >= 4 && pos + 12 <= |input| {
      var e := input[pos..pos + 12];
      if e[0] == 0x19 && e[3] == 0x19 && e[6] == 0x19 && e[9] == 0x19
      {
        FittingBlock(U64_TYPE, input, pos, 2, remaining);
        BlockAlone(input, pos, 2);
        BlockSpelt(e, 2);
        block := [FromBE(e[1..3]), FromBE(e[4..6]), FromBE(e[7..9]), FromBE(e[10..12])];
        assert block == BlockValues(input, pos, 2);
        return block, pos + 12;
      }
    }
    AfterNone(Body(U64_TYPE, input, pos, remaining));
    return [], pos;
  }

  /** Four elements with four argument bytes. */
  method U64Fours(input: Buf, pos: nat, remaining: nat) returns (block: seq<int>, next: nat)
    requires pos <= |input|
    ensures Advances(U64_TYPE, input, pos, remaining, block, next)
  {
    hide Body, BlockValues, FromBE, TinyValues, Not;
    Pow256Values();
    if remaining >= 4 && pos + 20 <= |input| {
      var e := input[pos..pos + 20];
      if e[0] == 0x1a && e[5] == 0x1a && e[10] == 0x1a && e[15] == 0x1a
      {
        FittingBlock(U64_TYPE, input, pos, 4, remaining);
        BlockAlone(input, pos, 4);
        BlockSpelt(e, 4);
        block := [FromBE(e[1..5]), FromBE(e[6..10]), FromBE(e[11..15]), FromBE(e[16..20])];
        assert block == BlockValues(input, pos, 4);
        return block, pos + 20;
      }
    }
    AfterNone(Body(U64_TYPE, input, pos, remaining));
    return [], pos;
  }

  /** The five blocks at the head of the loop of `decode_u64_body`, tried in their order. */
  method NextU64Block(input: Buf, pos: nat, remaining: nat) returns (block: seq<int>, next: nat)
    requires pos <= |input|
    ensures Advances(U64_TYPE, input, pos, remaining, block, next)
  {
    hide Body;
    block, next := U64Eights(input, pos, remaining);
    if block != [] {
      return;
    }
    block, next := U64Tinies(input, pos, remaining);
    if block != [] {
      return;
    }
    block, next := U64Ones(input, pos, remaining);
    if block != [] {
      return;
    }
    block, next := U64Twos(input, pos, remaining);
    if block != [] {
      return;
    }
    block, next := U64Fours(input, pos, remaining);
  }

  method DecodeU64Body(input: Buf, start: nat, length: nat) returns (values: seq<int>, r: Result<nat>)
    requires start <= |input|
    ensures Decodes(values, r, Body(U64_TYPE, input, start, length))
  {
    hide Body, FromBE;
    values := [];
    var pos: nat, remaining: nat := start, length;
    AfterNone(Body(U64_TYPE, input, start, length));
    while remaining != 0
      invariant pos <= |input|
      invariant Body(U64_TYPE, input, start, length) == After(values, Body(U64_TYPE, input, pos, remaining))
    {
      var block, next := NextU64Block(input, pos, remaining);
      if block != [] {
        AfterMore(values, block, Body(U64_TYPE, input, next, remaining - |block|));
        values, pos, remaining := values + block, next, remaining - |block|;
        continue;
      }
      var at := pos;
      BodyStep(U64_TYPE, input, pos, remaining);
      if pos == |input| {
        r := Err(NewError(Eof, pos));
        return;
      }
      var initial := input[pos];
      pos := pos + 1;
      if initial / 32 != 0 {
        r := Err(NewError(UnexpectedType, at));
        return;
      }
      var argument, afterArgument := DecodeArgument(input, pos, initial % 32, at);
      if argument.Err? {
        r := Err(argument.error);
        return;
      }
      pos := afterArgument;
      var value := argument.value;
      AfterMore(values, [value], Body(U64_TYPE, input, pos, remaining - 1));
      values, remaining := values + [value], remaining - 1;
    }
    BodyStep(U64_TYPE, input, pos, 0);
    AfterAll(values, pos);
    r := Ok(pos);
  }

  // ----- signed bodies

  /** The block of four at the head of the loop of `decode_i8_body`. */
  method I8Ones(input: Buf, pos: nat, remaining: nat) returns (block: seq<int>, next: nat)
    requires pos <= |input|
    ensures Advances(I8, input, pos, remaining, block, next)
  {
    hide Body, BlockValues, FromBE, TinyValues, Not;
    Pow256Values();
    if remaining >= 4 && pos + 8 <= |input| {
      var e := input[pos..pos + 8];
      if (e[0] == 0x18 || e[0] == 0x38) && (e[2] == 0x18 || e[2] == 0x38)
          && (e[4] == 0x18 || e[4] == 0x38) && (e[6] == 0x18 || e[6] == 0x38)
          && e[1] < 0x80 && e[3] < 0x80 && e[5] < 0x80 && e[7] < 0x80
      {
        ClearBlock(I8, input, pos, 1, remaining);
        BlockAlone(input, pos, 1);
        OnesSpelt(e);
        block := [
          if e[0] == 0x18 then AsSigned(e[1], HALF8) else Not(AsSigned(e[1], HALF8)),
          if e[2] == 0x18 then AsSigned(e[3], HALF8) else Not(AsSigned(e[3], HALF8)),
          if e[4] == 0x18 then AsSigned(e[5], HALF8) else Not(AsSigned(e[5], HALF8)),
          if e[6] == 0x18 then AsSigned(e[7], HALF8) else Not(AsSigned(e[7], HALF8))];
        assert block == BlockValues(input, pos, 1);
        return block, pos + 8;
      }
    }
    AfterNone(Body(I8, input, pos, remaining));
    return [], pos;
  }

  method DecodeI8Body(input: Buf, start: nat, length: nat) returns (values: seq<int>, r: Result<nat>)
    requires start <= |input|
    ensures Decodes(values, r, Body(I8, input, start, length))
  {
    hide Body, FromBE;
    values := [];
    var pos: nat, remaining: nat := start, length;
    AfterNone(Body(I8, input, start, length));
    while remaining != 0
      invariant pos <= |input|
      invariant Body(I8, input, start, length) == After(values, Body(I8, input, pos, remaining))
    {
      var block, next := I8Ones(input, pos, remaining);
      if block != [] {
        AfterMore(values, block, Body(I8, input, next, remaining - |block|));
        values, pos, remaining := values + block, next, remaining - |block|;
        continue;
      }
      var at := pos;
      BodyStep(I8, input, pos, remaining);
      if pos == |input| {
        r := Err(NewError(Eof, pos));
        return;
      }
      var initial := input[pos];
      pos := pos + 1;
      var major := initial / 32;
      if major > 1 {
        r := Err(NewError(UnexpectedType, at));
        return;
      }
      var argument, afterArgument := DecodeArgument(input, pos, initial % 32, at);
      if argument.Err? {
        r := Err(argument.error);
        return;
      }
      pos := afterArgument;
      if argument.value > I8.max {
        r := Err(NewError(IntegerOverflow, pos));
        return;
      }
      var value := if major == 0 then AsSigned(argument.value, HALF8) else Not(AsSigned(argument.value, HALF8));
      AfterMore(values, [value], Body(I8, input, pos, remaining - 1));
      values, remaining := values + [value], remaining - 1;
    }
    BodyStep(I8, input, pos, 0);
    AfterAll(values, pos);
    r := Ok(pos);
  }

  /** The block of four at the head of the loop of `decode_i16_body`. */
  method I16Twos(input: Buf, pos: nat, remaining: nat) returns (block: seq<int>, next: nat)
    requires pos <= |input|
    ensures Advances(I16, input, pos, remaining, block, next)
  {
    hide Body, BlockValues, FromBE, TinyValues, Not;
    if remaining >= 4 && pos + 12 <= |input| {
      var e := input[pos..pos + 12];
      if (e[0] == 0x19 || e[0] == 0x39) && (e[3] == 0x19 || e[3] == 0x39)
          && (e[6] == 0x19 || e[6] == 0x39) && (e[9] == 0x19 || e[9] == 0x39)
          && e[1] < 0x80 && e[4] < 0x80 && e[7] < 0x80 && e[10] < 0x80
      {
        ClearTwos(input, pos, remaining);
        BlockAlone(input, pos, 2);
        BlockSpelt(e, 2);
        SignedTwo(e[1..3]);
        SignedTwo(e[4..6]);
        SignedTwo(e[7..9]);
        SignedTwo(e[10..12]);
        block := [
          if e[0] == 0x19 then AsSigned(FromBE(e[1..3]), HALF16) else Not(AsSigned(FromBE(e[1..3]), HALF16)),
          if e[3] == 0x19 then AsSigned(FromBE(e[4..6]), HALF16) else Not(AsSigned(FromBE(e[4..6]), HALF16)),
          if e[6] == 0x19 then AsSigned(FromBE(e[7..9]), HALF16) else Not(AsSigned(FromBE(e[7..9]), HALF16)),
          if e[9] == 0x19 then AsSigned(FromBE(e[10..12]), HALF16) else Not(AsSigned(FromBE(e[10..12]), HALF16))];
        assert block == BlockValues(input, pos, 2);
        return block, pos + 12;
      }
    }
    AfterNone(Body(I16, input, pos, remaining));
    return [], pos;
  }

  method DecodeI16Body(input: Buf, start: nat, length: nat) returns (values: seq<int>, r: Result<nat>)
    requires start <= |input|
    ensures Decodes(values, r, Body(I16, input, start, length))
  {
    hide Body, FromBE;
    values := [];
    var pos: nat, remaining: nat := start, length;
    AfterNone(Body(I16, input, start, length));
    while remaining != 0
      invariant pos <= |input|
      invariant Body(I16, input, start, length) == After(values, Body(I16, input, pos, remaining))
    {
      var block, next := I16Twos(input, pos, remaining);
      if block != [] {
        AfterMore(values, block, Body(I16, input, next, remaining - |block|));
        values, pos, remaining := values + block, next, remaining - |block|;
        continue;
      }
      var at := pos;
      BodyStep(I16, input, pos, remaining);
      if pos == |input| {
        r := Err(NewError(Eof, pos));
        return;
      }
      var initial := input[pos];
      pos := pos + 1;
      var major := initial / 32;
      if major > 1 {
        r := Err(NewError(UnexpectedType, at));
        return;
      }
      var argument, afterArgument := DecodeArgument(input, pos, initial % 32, at);
      if argument.Err? {
        r := Err(argument.error);
        return;
      }
      pos := afterArgument;
      if argument.value > I16.max {
        r := Err(NewError(IntegerOverflow, pos));
        return;
      }
      var value := if major == 0 then AsSigned(argument.value, HALF16) else Not(AsSigned(argument.value, HALF16));
      AfterMore(values, [value], Body(I16, input, pos, remaining - 1));
      values, remaining := values + [value], remaining - 1;
    }
    BodyStep(I16, input, pos, 0);
    AfterAll(values, pos);
    r := Ok(pos);
  }

  /** The block of four at the head of the loop of `decode_i32_body`. */
  method I32Twos(input: Buf, pos: nat, remaining: nat) returns (block: seq<int>, next: nat)
    requires pos <= |input|
    ensures Advances(I32, input, pos, remaining, block, next)
  {
    hide Body, BlockValues, FromBE, TinyValues, Not;
    Pow256Values();
    if remaining >= 4 && pos + 12 <= |input| {
      var e := input[pos..pos + 12];
      if (e[0] == 0x19 || e[0] == 0x39) && (e[3] == 0x19 || e[3] == 0x39)
          && (e[6] == 0x19 || e[6] == 0x39) && (e[9] == 0x19 || e[9] == 0x39)
      {
        FittingBlock(I32, input, pos, 2, remaining);
        BlockAlone(input, pos, 2);
        BlockSpelt(e, 2);
        block := [
          if e[0] == 0x19 then FromBE(e[1..3]) else Not(FromBE(e[1..3])),
          if e[3] == 0x19 then FromBE(e[4..6]) else Not(FromBE(e[4..6])),
          if e[6] == 0x19 then FromBE(e[7..9]) else Not(FromBE(e[7..9])),
          if e[9] == 0x19 then FromBE(e[10..12]) else Not(FromBE(e[10..12]))];
        assert block == BlockValues(input, pos, 2);
        return block, pos + 12;
      }
    }
    AfterNone(Body(I32, input, pos, remaining));
    return [], pos;
  }

  method DecodeI32Body(input: Buf, start: nat, length: nat) returns (values: seq<int>, r: Result<nat>)
    requires start <= |input|
    ensures Decodes(values, r, Body(I32, input, start, length))
  {
    hide Body, FromBE;
    values := [];
    var pos: nat, remaining: nat := start, length;
    AfterNone(Body(I32, input, start, length));
    while remaining != 0
      invariant pos <= |input|
      invariant Body(I32, input, start, length) == After(values, Body(I32, input, pos, remaining))
    {
      var block, next := I32Twos(input, pos, remaining);
      if block != [] {
        AfterMore(values, block, Body(I32, input, next, remaining - |block|));
        values, pos, remaining := values + block, next, remaining - |block|;
        continue;
      }
      var at := pos;
      BodyStep(I32, input, pos, remaining);
      if pos == |input| {
        r := Err(NewError(Eof, pos));
        return;
      }
      var initial := input[pos];
      pos := pos + 1;
      var major := initial / 32;
      if major > 1 {
        r := Err(NewError(UnexpectedType, at));
        return;
      }
      var argument, afterArgument := DecodeArgument(input, pos, initial % 32, at);
      if argument.Err? {
        r := Err(argument.error);
        return;
      }
      pos := afterArgument;
      if argument.value > I32.max {
        r := Err(NewError(IntegerOverflow, pos));
        return;
      }
      var value := if major == 0 then AsSigned(argument.value, HALF32) else Not(AsSigned(argument.value, HALF32));
      AfterMore(values, [value], Body(I32, input, pos, remaining - 1));
      values, remaining := values + [value], remaining - 1;
    }
    BodyStep(I32, input, pos, 0);
    AfterAll(values, pos);
    r := Ok(pos);
  }

  /** Four elements with eight argument bytes. */
  method I64Eights(input: Buf, pos: nat, remaining: nat) returns (block: seq<int>, next: nat)
    requires pos <= |input|
    ensures Advances(I64, input, pos, remaining, block, next)
  {
    hide Body, BlockValues, FromBE, TinyValues, AsSigned, Not;
    if remaining >= 4 && pos + 36 <= |input| {
      var e := input[pos..pos + 36];
      if (e[0] == 0x1b || e[0] == 0x3b) && (e[9] == 0x1b || e[9] == 0x3b)
          && (e[18] == 0x1b || e[18] == 0x3b) && (e[27] == 0x1b || e[27] == 0x3b)
          && e[1] < 0x80 && e[10] < 0x80 && e[19] < 0x80 && e[28] < 0x80
      {
        ClearEights(input, pos, remaining);
        BlockAlone(input, pos, 8);
        EightsSpelt(e);
        block := [
          if e[0] == 0x1b then AsSigned(FromBE(e[1..9]), HALF64) else Not(AsSigned(FromBE(e[1..9]), HALF64)),
          if e[9] == 0x1b then AsSigned(FromBE(e[10..18]), HALF64) else Not(AsSigned(FromBE(e[10..18]), HALF64)),
          if e[18] == 0x1b then AsSigned(FromBE(e[19..27]), HALF64) else Not(AsSigned(FromBE(e[19..27]), HALF64)),
          if e[27] == 0x1b then AsSigned(FromBE(e[28..36]), HALF64) else Not(AsSigned(FromBE(e[28..36]), HALF64))];
        assert block == BlockValues(input, pos, 8);
        return block, pos + 36;
      }
    }
    AfterNone(Body(I64, input, pos, remaining));
    return [], pos;
  }

  /** Eight elements without argument bytes. */
  method I64Tinies(input: Buf, pos: nat, remaining: nat) returns (block: seq<int>, next: nat)
    requires pos <= |input|
    ensures Advances(I64, input, pos, remaining, block, next)
  {
    hide Body, BlockValues, FromBE, TinyValues, Not;
    Pow256Values();
    if remaining >= 8 && pos + 8 <= |input| && forall p :: pos <= p < pos + 8 ==> input[p] <= 0x17 || 0x20 <= input[p] <= 0x37 {
      forall p | pos <= p < pos + 8 ensures Fast(I64, input, p, 0) {
      }
      TinyAtOnce(I64, input, pos, 8, remaining);
      block := seq(8, i requires 0 <= i < 8 => var p := pos + i; if input[p] / 32 == 0 then input[p] % 32 else Not(input[p] % 32));
      TinyBlockSigned(input, pos, block);
      return block, pos + 8;
    }
    AfterNone(Body(I64, input, pos, remaining));
    return [], pos;
  }

  /** Four elements with one argument byte. */
  method I64Ones(input: Buf, pos: nat, remaining: nat) returns (block: seq<int>, next: nat)
    requires pos <= |input|
    ensures Advances(I64, input, pos, remaining, block, next)
  {
    hide Body, BlockValues, FromBE, TinyValues, Not;
    Pow256Values();
    if remaining >= 4 && pos + 8 <= |input| {
      var e := input[pos..pos + 8];
      if (e[0] == 0x18 || e[0] == 0x38) && (e[2] == 0x18 || e[2] == 0x38)
          && (e[4] == 0x18 || e[4] == 0x38) && (e[6] == 0x18 || e[6] == 0x38)
      {
        FittingBlock(I64, input, pos, 1, remaining);
        BlockAlone(input, pos, 1);
        OnesSpelt(e);
        block := [
          if e[0] == 0x18 then e[1] else Not(e[1]),
          if e[2] == 0x18 then e[3] else Not(e[3]),
          if e[4] == 0x18 then e[5] else Not(e[5]),
          if e[6] == 0x18 then e[7] else Not(e[7])];
        assert block == BlockValues(input, pos, 1);
        return block, pos + 8;
      }
    }
    AfterNone(Body(I64, input, pos, remaining));
    return [], pos;
  }

  /** Four elements with two argument bytes. */
  method I64Twos(input: Buf, pos: nat, remaining: nat) returns (block: seq<int>, next: nat)
    requires pos <= |input|
    ensures Advances(I64, input, pos, remaining, block, next)
  {
    hide Body, BlockValues, FromBE, TinyValues, Not;
    Pow256Values();
    if remaining >= 4 && pos + 12 <= |input| {
      var e := input[pos..pos + 12];
      if (e[0] == 0x19 || e[0] == 0x39) && (e[3] == 0x19 || e[3] == 0x39)
          && (e[6] == 0x19 || e[6] == 0x39) && (e[9] == 0x19 || e[9] == 0x39)
      {
        FittingBlock(I64, input, pos, 2, remaining);
        BlockAlone(input, pos, 2);
        BlockSpelt(e, 2);
        block := [
          if e[0] == 0x19 then FromBE(e[1..3]) else Not(FromBE(e[1..3])),
          if e[3] == 0x19 then FromBE(e[4..6]) else Not(FromBE(e[4..6])),
          if e[6] == 0x19 then FromBE(e[7..9]) else Not(FromBE(e[7..9])),
          if e[9] == 0x19 then FromBE(e[10..12]) else Not(FromBE(e[10..12]))];
        assert block == BlockValues(input, pos, 2);
        return block, pos + 12;
      }
    }
    AfterNone(Body(I64, input, pos, remaining));
    return [], pos;
  }

  /** Four elements with four argument bytes. */
  method I64Fours(input: Buf, pos: nat, remaining: nat) returns (block: seq<int>, next: nat)
    requires pos <= |input|
    ensures Advances(I64, input, pos, remaining, block, next)
  {
    hide Body, BlockValues, FromBE, TinyValues, Not;
    Pow256Values();
    if remaining >= 4 && pos + 20 <= |input| {
      var e := input[pos..pos + 20];
      if (e[0] == 0x1a || e[0] == 0x3a) && (e[5] == 0x1a || e[5] == 0x3a)
          && (e[10] == 0x1a || e[10] == 0x3a) && (e[15] == 0x1a || e[15] == 0x3a)
      {
        FittingBlock(I64, input, pos, 4, remaining);
        BlockAlone(input, pos, 4);
        BlockSpelt(e, 4);
        block := [
          if e[0] == 0x1a then FromBE(e[1..5]) else Not(FromBE(e[1..5])),
          if e[5] == 0x1a then FromBE(e[6..10]) else Not(FromBE(e[6..10])),
          if e[10] == 0x1a then FromBE(e[11..15]) else Not(FromBE(e[11..15])),
          if e[15] == 0x1a then FromBE(e[16..20]) else Not(FromBE(e[16..20]))];
        assert block == BlockValues(input, pos, 4);
        return block, pos + 20;
      }
    }
    AfterNone(Body(I64, input, pos, remaining));
    return [], pos;
  }

  /** The five blocks at the head of the loop of `decode_i64_body`, tried in their order. */
  method NextI64Block(input: Buf, pos: nat, remaining: nat) returns (block: seq<int>, next: nat)
    requires pos <= |input|
    ensures Advances(I64, input, pos, remaining, block, next)
  {
    hide Body;
    block, next := I64Eights(input, pos, remaining);
    if block != [] {
      return;
    }
    block, next := I64Tinies(input, pos, remaining);
    if block != [] {
      return;
    }
    block, next := I64Ones(input, pos, remaining);
    if block != [] {
      return;
    }
    block, next := I64Twos(input, pos, remaining);
    if block != [] {
      return;
    }
    block, next := I64Fours(input, pos, remaining);
  }

  method DecodeI64Body(input: Buf, start: nat, length: nat) returns (values: seq<int>, r: Result<nat>)
    requires start <= |input|
    ensures Decodes(values, r, Body(I64, input, start, length))
  {
    hide Body, FromBE;
    values := [];
    var pos: nat, remaining: nat := start, length;
    AfterNone(Body(I64, input, start, length));
    while remaining != 0
      invariant pos <= |input|
      invariant Body(I64, input, start, length) == After(values, Body(I64, input, pos, remaining))
    {
      var block, next := NextI64Block(input, pos, remaining);
      if block != [] {
        AfterMore(values, block, Body(I64, input, next, remaining - |block|));
        values, pos, remaining := values + block, next, remaining - |block|;
        continue;
      }
      var at := pos;
      BodyStep(I64, input, pos, remaining);
      if pos == |input| {
        r := Err(NewError(Eof, pos));
        return;
      }
      var initial := input[pos];
      pos := pos + 1;
      var major := initial / 32;
      if major > 1 {
        r := Err(NewError(UnexpectedType, at));
        return;
      }
      var argument, afterArgument := DecodeArgument(input, pos, initial % 32, at);
      if argument.Err? {
        r := Err(argument.error);
        return;
      }
      pos := afterArgument;
      if argument.value > I64.max {
        r := Err(NewError(IntegerOverflow, pos));
        return;
      }
      var value := if major == 0 then AsSigned(argument.value, HALF64) else Not(AsSigned(argument.value, HALF64));
      AfterMore(values, [value], Body(I64, input, pos, remaining - 1));
      values, remaining := values + [value], remaining - 1;
    }
    BodyStep(I64, input, pos, 0);
    AfterAll(values, pos);
    r := Ok(pos);
  }
}
