/** The initial byte and argument of a data item: section 3 of RFC 8949. */
module Heads {
  import opened Core

  /** A major type and its argument, absent for additional information 31. */
  datatype Head = Head(major: nat, arg: Option<U64>)

  /** How many argument bytes follow an initial byte with additional information `ai`. */
  function ArgWidth(ai: nat): (w: nat) {
    if ai == 24 then 1 else if ai == 25 then 2 else if ai == 26 then 4 else if ai == 27 then 8 else 0
  }

  /** The fewest argument bytes that can hold `n`. */
  function PreferredWidth(n: nat): (w: nat) {
    if n < 24 then 0 else if n < 0x100 then 1 else if n < 0x1_0000 then 2 else if n < 0x1_0000_0000 then 4 else 8
  }

  /** `FromBE` of at most eight bytes is a 64-bit number. */
  lemma FromBEFits(s: Buf)
    requires |s| <= 8
    ensures FromBE(s) < 0x1_0000_0000_0000_0000
  {
    Pow256Values();
    Pow256Monotone(|s|, 8);
  }

  lemma {:induction false} Pow256Monotone(a: nat, b: nat)
    requires a <= b
    ensures Pow256(a) <= Pow256(b)
  {
    if a < b { Pow256Monotone(a, b - 1); }
  }

  predicate ArgumentFits(ai: nat, n: U64) {
    (ai == 24 ==> n < 0x100) && (ai == 25 ==> n < 0x1_0000) && (ai == 26 ==> n < 0x1_0000_0000)
  }

  /** The argument held by the additional information and the bytes after the initial byte. */
  function Argument(input: Buf, pos: nat): (n: U64)
    requires pos < |input| && pos + 1 + ArgWidth(input[pos] % 32) <= |input|
    ensures ArgumentFits(input[pos] % 32, n)
  {
    var w := ArgWidth(input[pos] % 32);
    Pow256Values();
    FromBEFits(input[pos + 1..pos + 1 + w]);
    if w == 0 then input[pos] % 32 else FromBE(input[pos + 1..pos + 1 + w])
  }

  /** What reading a head at `pos` yields; `det` insists on the shortest argument. */
  function ReadHead(det: bool, input: Buf, pos: nat): (r: Parse<Head>)
    requires pos <= |input|
    ensures r.Done? ==> pos < r.end <= |input| && r.value.major < 8
    ensures r.Done? ==> r.value.major == input[pos] / 32 && r.end == pos + 1 + ArgWidth(input[pos] % 32)
                        && !(28 <= input[pos] % 32 <= 30) && (r.value.arg.None? <==> input[pos] % 32 == 31)
    ensures r.Done? && r.value.arg.Some? ==> ArgumentFits(input[pos] % 32, r.value.arg.value)
  {
    if pos == |input| then Fail(NewError(Eof, pos)) else
    var ai := input[pos] % 32;
    var major := input[pos] / 32;
    var w := ArgWidth(ai);
    if 28 <= ai <= 30 then Fail(NewError(InvalidAdditionalInfo, pos))
    else if ai == 31 then Done(Head(major, None), pos + 1)
    else if |input| < pos + 1 + w then Fail(NewError(Eof, pos + 1))
    else
      var n := Argument(input, pos);
      if det && major != 7 && w != PreferredWidth(n) then Fail(NewError(NonDeterministic, pos))
      else Done(Head(major, Some(n)), pos + 1 + w)
  }

  // ----- the grammar of heads

  /** A head of the given major type with an argument, of any width, stands at `pos`. */
  predicate HeadAt(input: Buf, pos: nat, major: nat) {
    pos < |input| && input[pos] / 32 == major && input[pos] % 32 < 28
    && pos + 1 + ArgWidth(input[pos] % 32) <= |input|
  }

  function HeadEnd(input: Buf, pos: nat): (end: nat)
    requires pos < |input|
    ensures pos < end
  {
    pos + 1 + ArgWidth(input[pos] % 32)
  }

  lemma IndefiniteHead(det: bool, input: Buf, pos: nat, major: nat)
    requires pos < |input| && input[pos] == 32 * major + 31
    ensures ReadHead(det, input, pos) == Done(Head(major, None), pos + 1)
  {
    assert input[pos] / 32 == major && input[pos] % 32 == 31;
  }

  /** The readers follow the grammar: the lenient one takes any width, the deterministic one the shortest. */
  lemma HeadIsRead(det: bool, input: Buf, pos: nat, major: nat)
    requires HeadAt(input, pos, major) && (det && major != 7 ==> ArgWidth(input[pos] % 32) == PreferredWidth(Argument(input, pos)))
    ensures ReadHead(det, input, pos) == Done(Head(major, Some(Argument(input, pos))), HeadEnd(input, pos))
  {
  }

  // ----- writing heads

  /** The shortest head of `major` with argument `n`. */
  function HeadBytes(major: nat, n: U64): (b: Buf)
    requires major < 8
    ensures |b| == 1 + PreferredWidth(n)
  {
    var w := PreferredWidth(n);
    if w == 0 then [major * 32 + n]
    else [major * 32 + (if w == 1 then 24 else if w == 2 then 25 else if w == 4 then 26 else 27)] + ToBE(n, w)
  }

  /** Any reader, lenient or deterministic, gets back what was written. */
  lemma ReadHeadBytes(det: bool, input: Buf, pos: nat, major: nat, n: U64)
    requires major < 8 && At(input, pos, HeadBytes(major, n))
    ensures ReadHead(det, input, pos) == Done(Head(major, Some(n)), pos + |HeadBytes(major, n)|)
    ensures HeadAt(input, pos, major) && HeadEnd(input, pos) == pos + |HeadBytes(major, n)|
    ensures Argument(input, pos) == n
  {
    hide HeadBytes, FromBE, ToBE;
    var w := PreferredWidth(n);
    HeadShape(major, n);
    var first, rest := [HeadBytes(major, n)[0]], ToBE(n, w);
    AtConcat(input, pos, first, rest);
    assert input[pos] == first[0] by { assert input[pos..pos + 1][0] == first[0]; }
    WrittenArgument(n, w);
  }

  /** The initial byte of a written head announces exactly the bytes after it. */
  lemma HeadShape(major: nat, n: U64)
    requires major < 8
    ensures var b, w := HeadBytes(major, n), PreferredWidth(n);
            b == [b[0]] + ToBE(n, w) && b[0] / 32 == major && b[0] % 32 < 28 && ArgWidth(b[0] % 32) == w
            && (w == 0 ==> b[0] % 32 == n)
  {
    hide ToBE;
    var w := PreferredWidth(n);
    if w == 0 {
      assert (major * 32 + n) / 32 == major && (major * 32 + n) % 32 == n;
      NoBytes(n);
    }
  }

  lemma NoBytes(n: nat)
    ensures ToBE(n, 0) == []
  {
  }

  /** No head with the same argument is shorter than the one written. */
  lemma HeadIsShortest(input: Buf, pos: nat, major: nat)
    requires major < 8 && HeadAt(input, pos, major)
    ensures |HeadBytes(major, Argument(input, pos))| <= HeadEnd(input, pos) - pos
  {
  }

  lemma WrittenArgument(n: U64, w: nat)
    requires w == PreferredWidth(n)
    ensures w > 0 ==> FromBE(ToBE(n, w)) == n
  {
    Pow256Values();
    if w > 0 { FromToBE(n, w); }
  }

  /** A deterministic reader accepts only the shortest head, outside major type 7. */
  lemma DeterministicHeadIsShortest(input: Buf, pos: nat)
    requires pos <= |input|
    requires var r := ReadHead(true, input, pos); r.Done? && r.value.major != 7 && r.value.arg.Some?
    ensures var r := ReadHead(true, input, pos);
            input[pos..r.end] == HeadBytes(r.value.major, r.value.arg.value)
  {
    hide FromBE, ToBE, HeadBytes;
    var r := ReadHead(true, input, pos);
    var w := ArgWidth(input[pos] % 32);
    var tail := input[pos + 1..r.end];
    assert input[pos..r.end] == [input[pos]] + tail;
    HeadShape(r.value.major, r.value.arg.value);
    if w > 0 { ToFromBE(tail); }
  }

  /** What a deterministic reader accepts, the lenient one reads the same way. */
  lemma DeterministicHeadIsLenient(input: Buf, pos: nat)
    requires pos <= |input|
    ensures var r := ReadHead(true, input, pos);
            r == ReadHead(false, input, pos) || r == Fail(NewError(NonDeterministic, pos))
  {
  }
}
