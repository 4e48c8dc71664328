/** Bytes, errors, results and big-endian integers shared by every part of the codec. */
module Core {
  type Byte = b: int | 0 <= b < 256
  type U64 = n: int | 0 <= n < 0x1_0000_0000_0000_0000
  type I128 = i: int | -0x8000_0000_0000_0000_0000_0000_0000_0000 <= i < 0x8000_0000_0000_0000_0000_0000_0000_0000
  type U128 = n: int | 0 <= n < 0x1_0000_0000_0000_0000_0000_0000_0000_0000
  type Buf = seq<Byte>

  datatype Option<+T> = None | Some(value: T)

  datatype ErrorKind =
    | Eof
    | InvalidAdditionalInfo
    | UnexpectedType
    | UnexpectedBreak
    | InvalidUtf8
    | IntegerOverflow
    | DepthLimit
    | CollectionLimit
    | TrailingData
    | NonDeterministic
    | DuplicateKey
    | Message

  /** A failure with its byte offset and, for items of a sequence, the item's index. */
  datatype Error = Error(kind: ErrorKind, offset: nat, item: Option<nat>)

  function NewError(kind: ErrorKind, offset: nat): Error {
    Error(kind, offset, None)
  }

  function WithItem(e: Error, item: nat): Error {
    e.(item := Some(item))
  }

  /** The outcome of an operation that moves the cursor of the object it is called on. */
  datatype Result<+T> = Ok(value: T) | Err(error: Error) {
    predicate IsFailure() { Err? }
    function PropagateFailure<U>(): Result<U> requires Err? { Err(error) }
    function Extract(): T requires Ok? { value }
  }

  /** The outcome of reading from a position: a value and the position after it, or an error. */
  datatype Parse<+T> = Done(value: T, end: nat) | Fail(error: Error) {
    predicate IsFailure() { Fail? }
    function PropagateFailure<U>(): Parse<U> requires Fail? { Fail(error) }
    function Extract(): (T, nat) requires Done? { (value, end) }
  }

  /** A method outcome and a cursor agree with a specified parse. */
  predicate Agrees<T(==)>(r: Result<T>, pos: nat, spec: Parse<T>) {
    match spec
    case Done(v, end) => r == Ok(v) && pos == end
    case Fail(e) => r == Err(e)
  }

  /** One item and nothing after it. */
  function Whole<T>(input: Buf, r: Parse<T>): Result<T> {
    match r
    case Done(v, end) => if end == |input| then Ok(v) else Err(NewError(TrailingData, end))
    case Fail(e) => Err(e)
  }

  // ----- lists that are parsed piece by piece

  /** What a list parses to when `done` has been parsed already and `rest` follows. */
  function After<T>(done: seq<T>, rest: Parse<seq<T>>): Parse<seq<T>> {
    match rest case Done(more, end) => Done(done + more, end) case Fail(e) => Fail(e)
  }

  lemma AfterMore<T>(done: seq<T>, more: seq<T>, rest: Parse<seq<T>>)
    ensures After(done, After(more, rest)) == After(done + more, rest)
  {
    if rest.Done? { assert done + (more + rest.value) == done + more + rest.value; }
  }

  lemma AfterNone<T>(rest: Parse<seq<T>>)
    ensures After([], rest) == rest
  {
    if rest.Done? { assert [] + rest.value == rest.value; }
  }

  lemma AfterAll<T>(done: seq<T>, end: nat)
    ensures After(done, Done([], end)) == Done(done, end)
  {
    assert done + [] == done;
  }

  // ----- options

  datatype Validation = Basic | Strict | Deterministic

  const USIZE_LIMIT := 0x1_0000_0000_0000_0000
  const USIZE_MAX := 0xffff_ffff_ffff_ffff

  datatype DecodeOptions = DecodeOptions(validation: Validation, maxDepth: U64, maxLen: U64, allowTrailing: bool) {
    predicate Det() { validation == Deterministic }
  }

  const DEFAULT_OPTIONS := DecodeOptions(Basic, 128, 16 * 1024 * 1024, false)
  const DETERMINISTIC_OPTIONS := DEFAULT_OPTIONS.(validation := Deterministic)

  /** Limits under which doubling a map length cannot overflow; the default options are such. */
  predicate Doubles(o: DecodeOptions) {
    2 * o.maxLen < USIZE_LIMIT
  }

  function Min(a: int, b: int): int { if a <= b then a else b }

  // ----- big-endian integers

  function Pow256(w: nat): (r: nat)
    ensures r > 0
  {
    if w == 0 then 1 else 256 * Pow256(w - 1)
  }

  lemma Pow256Values()
    ensures Pow256(0) == 1 && Pow256(1) == 0x100 && Pow256(2) == 0x1_0000
    ensures Pow256(4) == 0x1_0000_0000
    ensures Pow256(8) == 0x1_0000_0000_0000_0000
    ensures Pow256(16) == 0x1_0000_0000_0000_0000_0000_0000_0000_0000
  {
    assert Pow256(3) == 256 * Pow256(2);
    assert Pow256(5) == 256 * Pow256(4);
    assert Pow256(7) == 256 * Pow256(6);
    assert Pow256(9) == 256 * Pow256(8);
    assert Pow256(11) == 256 * Pow256(10);
    assert Pow256(13) == 256 * Pow256(12);
    assert Pow256(15) == 256 * Pow256(14);
  }

  /** The number written big-endian in `s`. */
  function FromBE(s: Buf): (n: nat)
    ensures n < Pow256(|s|)
  {
    if s == [] then 0 else FromBE(s[..|s| - 1]) * 256 + s[|s| - 1]
  }

  /** The low `w` bytes of `n`, most significant first. */
  function ToBE(n: nat, w: nat): (s: Buf)
    ensures |s| == w
  {
    if w == 0 then [] else ToBE(n / 256, w - 1) + [n % 256]
  }

  lemma {:induction false} FromToBE(n: nat, w: nat)
    requires n < Pow256(w)
    ensures FromBE(ToBE(n, w)) == n
  {
    if w > 0 {
      FromToBE(n / 256, w - 1);
      assert ToBE(n, w)[..w - 1] == ToBE(n / 256, w - 1);
    }
  }

  lemma {:induction false} ToFromBE(s: Buf)
    ensures ToBE(FromBE(s), |s|) == s
  {
    if s != [] {
      ToFromBE(s[..|s| - 1]);
    }
  }

  lemma FromOneByte(s: Buf)
    requires |s| == 1
    ensures FromBE(s) == s[0]
  {
    assert FromBE(s[..0]) == 0;
  }

  // ----- slices of a buffer

  /** `part` stands in `input` at `pos`. */
  predicate At(input: Buf, pos: nat, part: Buf) {
    pos + |part| <= |input| && input[pos..pos + |part|] == part
  }

  lemma AtConcat(input: Buf, pos: nat, a: Buf, b: Buf)
    ensures At(input, pos, a + b) <==> At(input, pos, a) && At(input, pos + |a|, b)
  {
    if At(input, pos, a + b) {
      assert input[pos..pos + |a + b|][..|a|] == input[pos..pos + |a|];
      assert input[pos..pos + |a + b|][|a|..] == input[pos + |a|..pos + |a| + |b|];
    }
    if At(input, pos, a) && At(input, pos + |a|, b) {
      assert input[pos..pos + |a + b|] == input[pos..pos + |a|] + input[pos + |a|..pos + |a| + |b|];
    }
  }

  lemma SliceConcat<T>(s: seq<T>, a: nat, b: nat, c: nat)
    requires a <= b <= c <= |s|
    ensures s[a..b] + s[b..c] == s[a..c]
  {
  }

  lemma SliceOfSlice<T>(s: seq<T>, start: nat, end: nat, a: nat, b: nat)
    requires start <= end <= |s| && a <= b <= end - start
    ensures s[start..end][a..b] == s[start + a..start + b]
  {
    forall i | 0 <= i < b - a ensures s[start..end][a..b][i] == s[start + a..start + b][i] {
    }
  }

  // ----- rearranged sequences

  lemma SameSize<T>(a: seq<T>, b: seq<T>)
    requires multiset(a) == multiset(b)
    ensures |a| == |b|
  {
    assert |multiset(a)| == |a| && |multiset(b)| == |b|;
  }

  lemma TailOfMultiset<T>(a: seq<T>, b: seq<T>)
    requires a != [] && b != [] && a[0] == b[0] && multiset(a) == multiset(b)
    ensures multiset(a[1..]) == multiset(b[1..])
  {
    assert a == [a[0]] + a[1..] && b == [b[0]] + b[1..];
    assert multiset(a[1..]) == multiset(a) - multiset{a[0]};
    assert multiset(b[1..]) == multiset(b) - multiset{b[0]};
  }

  // ----- the order on encoded bytes

  /** Strict bytewise lexicographic order, a proper prefix first. */
  predicate Less(a: Buf, b: Buf) {
    if b == [] then false
    else if a == [] then true
    else a[0] < b[0] || (a[0] == b[0] && Less(a[1..], b[1..]))
  }

  lemma {:induction false} LessTrichotomy(a: Buf, b: Buf)
    ensures a == b || Less(a, b) || Less(b, a)
    ensures !(Less(a, b) && Less(b, a))
    ensures !Less(a, a)
  {
    if a != [] && b != [] {
      LessTrichotomy(a[1..], b[1..]);
      if a[0] == b[0] && a[1..] == b[1..] {
        assert a == [a[0]] + a[1..] == b;
      }
    }
    if a != [] { LessIrreflexive(a); }
  }

  lemma LessIrreflexive(a: Buf)
    ensures !Less(a, a)
  {
  }

  lemma {:induction false} LessTransitive(a: Buf, b: Buf, c: Buf)
    requires Less(a, b) && Less(b, c)
    ensures Less(a, c)
  {
    if a != [] && a[0] == b[0] == c[0] {
      LessTransitive(a[1..], b[1..], c[1..]);
    }
  }
}
