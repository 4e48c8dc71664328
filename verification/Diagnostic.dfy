/** Diagnostic notation, section 8 of RFC 8949: the printer and the parser of src/diagnostic.rs, over ASCII bytes. */
module Diagnostic {
  import opened Core
  import opened Values
  import Decoding
  import Encoding
  import RoundTrip
  import Utf8

  const QUOTE: Byte := 0x22
  const BACKSLASH: Byte := 0x5c
  const SPACE: Byte := 0x20
  const COMMA: Byte := 0x2c
  const COLON: Byte := 0x3a
  const MINUS: Byte := 0x2d
  const PLUS: Byte := 0x2b
  const OPEN_BRACKET: Byte := 0x5b
  const CLOSE_BRACKET: Byte := 0x5d
  const OPEN_BRACE: Byte := 0x7b
  const CLOSE_BRACE: Byte := 0x7d
  const TRUE: Buf := [0x74, 0x72, 0x75, 0x65]
  const FALSE: Buf := [0x66, 0x61, 0x6c, 0x73, 0x65]
  const NULL: Buf := [0x6e, 0x75, 0x6c, 0x6c]
  const UNDEFINED: Buf := [0x75, 0x6e, 0x64, 0x65, 0x66, 0x69, 0x6e, 0x65, 0x64]
  const SIMPLE: Buf := [0x73, 0x69, 0x6d, 0x70, 0x6c, 0x65]
  const SEPARATOR: Buf := [COMMA, SPACE]

  // ----- what is printed

  predicate IsDigit(b: Byte) { 0x30 <= b <= 0x39 }

  function Decimal(n: nat): (s: Buf)
    ensures s != [] && forall i :: 0 <= i < |s| ==> IsDigit(s[i])
  {
    if n < 10 then [0x30 + n] else Decimal(n / 10) + [0x30 + n % 10]
  }

  function DecimalInteger(i: int): Buf {
    if i >= 0 then Decimal(i) else [MINUS] + Decimal(-i)
  }

  function HexDigit(n: nat): Byte
    requires n < 16
  {
    if n < 10 then 0x30 + n else 0x57 + n
  }

  function Hex(s: Buf): Buf {
    if s == [] then [] else [HexDigit(s[0] / 16), HexDigit(s[0] % 16)] + Hex(s[1..])
  }

  /** A character of a string; those of several bytes are printed as they are. */
  function Escaped(b: Byte): Buf {
    if b == QUOTE then [BACKSLASH, QUOTE]
    else if b == BACKSLASH then [BACKSLASH, BACKSLASH]
    else if b == 0x0a then [BACKSLASH, 0x6e]
    else if b == 0x0d then [BACKSLASH, 0x72]
    else if b == 0x09 then [BACKSLASH, 0x74]
    else [b]
  }

  function EscapedAll(s: Buf): Buf {
    if s == [] then [] else Escaped(s[0]) + EscapedAll(s[1..])
  }

  /** `write_value`; the text of floats is a parameter. */
  function Printed(floatText: U64 -> Buf, v: Value): Buf {
    match v
    case Unsigned(n) => Decimal(n)
    case Negative(i) => DecimalInteger(i)
    case Bytes(s) => [0x68, 0x27] + Hex(s) + [0x27]
    case Text(s) => [QUOTE] + EscapedAll(s) + [QUOTE]
    case Array(vs) => [OPEN_BRACKET] + (PrintedAll(floatText, vs, false) + [CLOSE_BRACKET])
    case Map(es) => [OPEN_BRACE] + (PrintedEntries(floatText, es, false) + [CLOSE_BRACE])
    case Tag(t, w) => Decimal(t) + [0x28] + Printed(floatText, w) + [0x29]
    case Simple(s) => SIMPLE + [0x28] + Decimal(s) + [0x29]
    case Bool(b) => if b then TRUE else FALSE
    case Null => NULL
    case Undefined => UNDEFINED
    case Float(bits) => floatText(bits)
  }

  /** The elements with separators between them, and before the first when others precede. */
  function PrintedAll(floatText: U64 -> Buf, vs: seq<Value>, others: bool): Buf {
    if vs == [] then []
    else (if others then SEPARATOR else []) + (Printed(floatText, vs[0]) + PrintedAll(floatText, vs[1..], true))
  }

  function PrintedEntries(floatText: U64 -> Buf, es: seq<Entry>, others: bool): Buf {
    if es == [] then []
    else
      assert es decreases to es[0];
      (if others then SEPARATOR else [])
      + (Printed(floatText, es[0].key) + ([COLON, SPACE] + (Printed(floatText, es[0].value) + PrintedEntries(floatText, es[1..], true))))
  }

  // ----- what is parsed

  /** `u8::is_ascii_whitespace`. */
  predicate IsWhitespace(b: Byte) { b == 0x20 || b == 0x09 || b == 0x0a || b == 0x0c || b == 0x0d }

  function White(s: Buf, pos: nat): (p: nat)
    requires pos <= |s|
    ensures pos <= p <= |s|
    decreases |s| - pos
  {
    if pos < |s| && IsWhitespace(s[pos]) then White(s, pos + 1) else pos
  }

  /** `take`: the position after `b`, or the position where something else stands. */
  function Taken(s: Buf, pos: nat, b: Byte): (r: Parse<()>)
    requires pos <= |s|
    ensures r.Done? ==> pos < r.end <= |s|
    ensures r.Fail? ==> pos <= r.error.offset <= |s| && r.error == NewError(Message, r.error.offset)
  {
    var p := White(s, pos);
    if p < |s| && s[p] == b then Done((), p + 1) else Fail(NewError(Message, p))
  }

  function Unescaped(b: Byte): Option<Byte> {
    if b == QUOTE || b == BACKSLASH then Some(b)
    else if b == 0x6e then Some(0x0a)
    else if b == 0x72 then Some(0x0d)
    else if b == 0x74 then Some(0x09)
    else None
  }

  /** The characters of a string up to its closing quote. */
  function StringAt(s: Buf, pos: nat): (r: Parse<Buf>)
    requires pos <= |s|
    ensures r.Done? ==> pos < r.end <= |s| && Utf8.Valid(r.value)
    decreases |s| - pos
  {
    if pos == |s| then Fail(NewError(Message, pos))
    else if s[pos] == QUOTE then Done([], pos + 1)
    else if s[pos] == BACKSLASH then
      if pos + 1 == |s| then Fail(NewError(Message, pos + 1))
      else if Unescaped(s[pos + 1]) == None then Fail(NewError(Message, pos + 2))
      else AfterChar(Unescaped(s[pos + 1]).value, StringAt(s, pos + 2))
    else if s[pos] <= 0x7f then AfterChar(s[pos], StringAt(s, pos + 1))
    else Fail(NewError(Message, pos + 1))
  }

  function AfterChar(c: Byte, rest: Parse<Buf>): (r: Parse<Buf>)
    requires c < 0x80 && (rest.Done? ==> Utf8.Valid(rest.value))
    ensures r.Done? <==> rest.Done?
    ensures r.Done? ==> r.end == rest.end && r.value == [c] + rest.value && Utf8.Valid(r.value)
    ensures r.Fail? ==> rest == Fail(r.error)
  {
    match rest
    case Done(more, end) =>
      Utf8.AsciiIsValid([c]);
      Utf8.ValidConcat([c], more);
      Done([c] + more, end)
    case Fail(e) => Fail(e)
  }

  predicate IsNumberByte(b: Byte) {
    b == MINUS || b == PLUS || b == 0x2e || b == 0x65 || b == 0x45 || IsDigit(b)
  }

  function NumberEnd(s: Buf, pos: nat): (p: nat)
    requires pos <= |s|
    ensures pos <= p <= |s| && forall i :: pos <= i < p ==> IsNumberByte(s[i])
    decreases |s| - pos
  {
    if pos < |s| && IsNumberByte(s[pos]) then NumberEnd(s, pos + 1) else pos
  }

  predicate LooksLikeFloat(text: Buf) {
    exists i :: 0 <= i < |text| && (text[i] == 0x2e || text[i] == 0x65 || text[i] == 0x45)
  }

  predicate AllDigits(s: Buf) {
    forall i :: 0 <= i < |s| ==> IsDigit(s[i])
  }

  function DigitsValue(s: Buf): nat
    requires AllDigits(s)
  {
    if s == [] then 0 else DigitsValue(s[..|s| - 1]) * 10 + (s[|s| - 1] - 0x30)
  }

  /** `str::parse::<i128>`: an optional sign and digits, within the type. */
  function ParseI128(text: Buf): Option<I128> {
    var signed := text != [] && (text[0] == MINUS || text[0] == PLUS);
    var digits := if signed then text[1..] else text;
    if digits == [] || !AllDigits(digits) then None else
    var magnitude: int := DigitsValue(digits);
    var value := if signed && text[0] == MINUS then -magnitude else magnitude;
    if -0x8000_0000_0000_0000_0000_0000_0000_0000 <= value < 0x8000_0000_0000_0000_0000_0000_0000_0000
    then Some(value) else None
  }

  /** `number`; how floats are read is a parameter. */
  function NumberAt(parseFloat: Buf -> Option<U64>, s: Buf, pos: nat): (r: Parse<Value>)
    requires pos <= |s|
    ensures r.Done? ==> pos <= r.end <= |s|
  {
    var end := NumberEnd(s, pos);
    var text := s[pos..end];
    if LooksLikeFloat(text) then
      match parseFloat(text) case Some(bits) => Done(Float(bits), end) case None => Fail(NewError(Message, end))
    else
      match ParseI128(text)
      case None => Fail(NewError(Message, end))
      case Some(value) =>
        if value < 0 then Done(Negative(value), end)
        else if value < USIZE_LIMIT then Done(Unsigned(value), end)
        else Fail(NewError(Message, end))
  }

  /** `keyword`. */
  predicate KeywordAt(s: Buf, pos: nat, word: Buf) {
    At(s, pos, word)
  }

  function ValueAt(parseFloat: Buf -> Option<U64>, s: Buf, pos: nat): (r: Parse<Value>)
    requires pos <= |s|
    ensures r.Done? ==> pos < r.end <= |s|
    decreases |s| - pos, 0
  {
    var p := White(s, pos);
    if p == |s| then Fail(NewError(Message, p))
    else if s[p] == QUOTE then
      var (text, end) :- StringAt(s, p + 1);
      Done(Text(text), end)
    else if s[p] == OPEN_BRACKET then
      var (vs, end) :- ArrayAt(parseFloat, s, p + 1);
      Done(Array(vs), end)
    else if s[p] == OPEN_BRACE then
      var (es, end) :- MapAt(parseFloat, s, p + 1);
      Done(Map(es), end)
    else if s[p] == TRUE[0] && KeywordAt(s, p, TRUE) then Done(Bool(true), p + |TRUE|)
    else if s[p] == FALSE[0] && KeywordAt(s, p, FALSE) then Done(Bool(false), p + |FALSE|)
    else if s[p] == NULL[0] && KeywordAt(s, p, NULL) then Done(Null, p + |NULL|)
    else if s[p] == UNDEFINED[0] && KeywordAt(s, p, UNDEFINED) then Done(Undefined, p + |UNDEFINED|)
    else if s[p] == MINUS || IsDigit(s[p]) then NumberAt(parseFloat, s, p)
    else Fail(NewError(Message, p))
  }

  /** After the opening bracket. */
  function ArrayAt(parseFloat: Buf -> Option<U64>, s: Buf, pos: nat): (r: Parse<seq<Value>>)
    requires pos <= |s|
    ensures r.Done? ==> pos < r.end <= |s|
    decreases |s| - pos, 2
  {
    match Taken(s, pos, CLOSE_BRACKET)
    case Done(_, end) => Done([], end)
    case Fail(e) => ElementsAt(parseFloat, s, e.offset)
  }

  /** One element, then the end or a comma and more. */
  function ElementsAt(parseFloat: Buf -> Option<U64>, s: Buf, pos: nat): (r: Parse<seq<Value>>)
    requires pos <= |s|
    ensures r.Done? ==> pos < r.end <= |s|
    decreases |s| - pos, 1
  {
    var (v, p) :- ValueAt(parseFloat, s, pos);
    match Taken(s, p, CLOSE_BRACKET)
    case Done(_, end) => Done([v], end)
    case Fail(e) =>
      var (_, q) :- Taken(s, e.offset, COMMA);
      var (vs, end) :- ElementsAt(parseFloat, s, q);
      Done([v] + vs, end)
  }

  /** After the opening brace. */
  function MapAt(parseFloat: Buf -> Option<U64>, s: Buf, pos: nat): (r: Parse<seq<Entry>>)
    requires pos <= |s|
    ensures r.Done? ==> pos < r.end <= |s|
    decreases |s| - pos, 2
  {
    match Taken(s, pos, CLOSE_BRACE)
    case Done(_, end) => Done([], end)
    case Fail(e) => EntriesAt(parseFloat, s, e.offset)
  }

  function EntriesAt(parseFloat: Buf -> Option<U64>, s: Buf, pos: nat): (r: Parse<seq<Entry>>)
    requires pos <= |s|
    ensures r.Done? ==> pos < r.end <= |s|
    decreases |s| - pos, 1
  {
    var (k, p) :- ValueAt(parseFloat, s, pos);
    var (_, q) :- Taken(s, p, COLON);
    var (v, t) :- ValueAt(parseFloat, s, q);
    match Taken(s, t, CLOSE_BRACE)
    case Done(_, end) => Done([Entry(k, v)], end)
    case Fail(e) =>
      var (_, u) :- Taken(s, e.offset, COMMA);
      var (es, end) :- EntriesAt(parseFloat, s, u);
      Done([Entry(k, v)] + es, end)
  }

  /** `parse`: one value and nothing but whitespace after it. */
  function ParseNotation(parseFloat: Buf -> Option<U64>, s: Buf): Result<Value> {
    match ValueAt(parseFloat, s, 0)
    case Fail(e) => Err(e)
    case Done(v, end) => if White(s, end) == |s| then Ok(v) else Err(NewError(Message, White(s, end)))
  }

  // ----- the shared subset

  predicate IsAscii(s: Buf) {
    forall i :: 0 <= i < |s| ==> s[i] < 0x80
  }

  /** Built from 64-bit naturals, negative integers, ASCII text, arrays, maps, booleans, null and undefined. */
  predicate Printable(v: Value) {
    match v
    case Unsigned(_) => true
    case Negative(i) => i < 0
    case Text(s) => IsAscii(s)
    case Array(vs) => AllPrintable(vs)
    case Map(es) => EntriesPrintable(es)
    case Bool(_) => true
    case Null => true
    case Undefined => true
    case _ => false
  }

  predicate AllPrintable(vs: seq<Value>) {
    vs == [] || (Printable(vs[0]) && AllPrintable(vs[1..]))
  }

  predicate EntriesPrintable(es: seq<Entry>) {
    es == [] ||
    (assert es decreases to es[0];
     Printable(es[0].key) && Printable(es[0].value) && EntriesPrintable(es[1..]))
  }

  // ----- numbers

  lemma {:induction false} DecimalValue(n: nat)
    ensures AllDigits(Decimal(n)) && DigitsValue(Decimal(n)) == n
  {
    if n >= 10 {
      DecimalValue(n / 10);
      var s := Decimal(n);
      assert s[..|s| - 1] == Decimal(n / 10);
    } else {
      assert Decimal(n)[..0] == [];
    }
  }

  lemma DecimalIntegerValue(i: I128)
    ensures ParseI128(DecimalInteger(i)) == Some(i) && !LooksLikeFloat(DecimalInteger(i))
    ensures DecimalInteger(i) != [] && forall k :: 0 <= k < |DecimalInteger(i)| ==> IsNumberByte(DecimalInteger(i)[k])
  {
    hide Decimal, DigitsValue;
    var n: int := if i >= 0 then i else -(i as int);
    var digits := Decimal(n);
    DecimalValue(n);
    if i >= 0 {
      assert IsDigit(digits[0]);
      OnlyDigitsAndSign(digits);
    } else {
      assert ([MINUS] + digits)[1..] == digits;
      OnlyDigitsAndSign([MINUS] + digits);
    }
  }

  lemma OnlyDigitsAndSign(text: Buf)
    requires forall k :: 0 <= k < |text| ==> text[k] == MINUS || IsDigit(text[k])
    ensures !LooksLikeFloat(text) && forall k :: 0 <= k < |text| ==> IsNumberByte(text[k])
  {
  }

  /** No number goes on here. */
  predicate Stops(s: Buf, pos: nat) {
    pos >= |s| || !IsNumberByte(s[pos])
  }

  lemma {:induction false} NumberEndsAt(s: Buf, pos: nat, text: Buf)
    requires At(s, pos, text) && Stops(s, pos + |text|) && forall k :: 0 <= k < |text| ==> IsNumberByte(text[k])
    ensures NumberEnd(s, pos) == pos + |text|
    decreases |text|
  {
    if text != [] {
      assert s[pos] == text[0] by { assert s[pos..pos + |text|][0] == text[0]; }
      assert text == [text[0]] + text[1..];
      AtConcat(s, pos, [text[0]], text[1..]);
      NumberEndsAt(s, pos + 1, text[1..]);
    }
  }

  lemma NumberParses(parseFloat: Buf -> Option<U64>, s: Buf, pos: nat, i: I128)
    requires i < USIZE_LIMIT && At(s, pos, DecimalInteger(i)) && Stops(s, pos + |DecimalInteger(i)|)
    ensures NumberAt(parseFloat, s, pos)
            == Done(if i < 0 then Negative(i) else Unsigned(i), pos + |DecimalInteger(i)|)
  {
    hide DecimalInteger, ParseI128, LooksLikeFloat, NumberEnd;
    DecimalIntegerValue(i);
    NumberEndsAt(s, pos, DecimalInteger(i));
  }

  // ----- strings

  lemma {:induction false} StringParses(s: Buf, pos: nat, text: Buf)
    requires IsAscii(text) && At(s, pos, EscapedAll(text) + [QUOTE])
    ensures StringAt(s, pos) == Done(text, pos + |EscapedAll(text)| + 1)
    decreases |text|
  {
    hide Escaped, StringAt, AfterChar, EscapedAll;
    EscapedParts(text);
    if text == [] {
      FirstByte(s, pos, [QUOTE]);
      ClosingQuote(s, pos);
    } else {
      var c, rest := text[0], EscapedAll(text[1..]) + [QUOTE];
      AtConcat(s, pos, Escaped(c), rest);
      StringParses(s, pos + |Escaped(c)|, text[1..]);
      CharacterParses(s, pos, c);
      assert text == [c] + text[1..];
    }
  }

  lemma EscapedParts(text: Buf)
    ensures text == [] ==> EscapedAll(text) + [QUOTE] == [QUOTE]
    ensures text != [] ==> EscapedAll(text) + [QUOTE] == Escaped(text[0]) + (EscapedAll(text[1..]) + [QUOTE])
    ensures text != [] ==> |EscapedAll(text)| == |Escaped(text[0])| + |EscapedAll(text[1..])|
    ensures text == [] ==> EscapedAll(text) == []
  {
    hide Escaped;
  }

  lemma ClosingQuote(s: Buf, pos: nat)
    requires pos < |s| && s[pos] == QUOTE
    ensures StringAt(s, pos) == Done([], pos + 1)
  {
  }

  lemma CharacterParses(s: Buf, pos: nat, c: Byte)
    requires c < 0x80 && At(s, pos, Escaped(c)) && StringAt(s, pos + |Escaped(c)|).Done?
    ensures StringAt(s, pos) == AfterChar(c, StringAt(s, pos + |Escaped(c)|))
  {
    hide AfterChar;
    assert s[pos..pos + |Escaped(c)|] == Escaped(c);
    assert s[pos] == Escaped(c)[0];
    if |Escaped(c)| == 2 { assert s[pos + 1] == Escaped(c)[1]; }
  }

  // ----- values

  /** What is printed starts with no whitespace and no closing bracket or brace. */
  lemma StartsWell(floatText: U64 -> Buf, v: Value)
    requires Printable(v)
    ensures var b := Printed(floatText, v);
            b != [] && !IsWhitespace(b[0]) && b[0] != CLOSE_BRACKET && b[0] != CLOSE_BRACE
  {
    hide PrintedAll, PrintedEntries, EscapedAll, Decimal;
    if v.Unsigned? { assert IsDigit(Decimal(v.n)[0]); }
  }

  lemma FirstByte(s: Buf, pos: nat, part: Buf)
    requires At(s, pos, part) && part != []
    ensures pos < |s| && s[pos] == part[0]
  {
    assert s[pos..pos + |part|][0] == part[0];
  }

  lemma AfterSeparator(s: Buf, pos: nat, tail: Buf)
    requires At(s, pos, SEPARATOR + tail)
    ensures pos + 2 <= |s| && s[pos] == COMMA && s[pos + 1] == SPACE && At(s, pos + 2, tail)
  {
    AtConcat(s, pos, SEPARATOR, tail);
    assert s[pos..pos + 2] == SEPARATOR;
    assert s[pos] == SEPARATOR[0] && s[pos + 1] == SEPARATOR[1];
  }

  /** A token that is no whitespace is taken where it stands, or seen not to be there. */
  lemma TakenHere(s: Buf, pos: nat, b: Byte)
    requires pos < |s| && !IsWhitespace(s[pos])
    ensures Taken(s, pos, b) == if s[pos] == b then Done((), pos + 1) else Fail(NewError(Message, pos))
  {
  }

  lemma SpaceBefore(parseFloat: Buf -> Option<U64>, s: Buf, pos: nat)
    requires pos < |s| && s[pos] == SPACE
    ensures ValueAt(parseFloat, s, pos) == ValueAt(parseFloat, s, pos + 1)
    ensures ElementsAt(parseFloat, s, pos) == ElementsAt(parseFloat, s, pos + 1)
    ensures EntriesAt(parseFloat, s, pos) == EntriesAt(parseFloat, s, pos + 1)
  {
    hide StringAt, NumberAt, ArrayAt, MapAt, KeywordAt;
    assert White(s, pos) == White(s, pos + 1);
  }

  /** A printed value, wherever it stands and whatever follows that does not prolong a number, is read back. */
  lemma {:induction false} ValueParses(floatText: U64 -> Buf, parseFloat: Buf -> Option<U64>, s: Buf, pos: nat, v: Value)
    requires Printable(v) && At(s, pos, Printed(floatText, v)) && Stops(s, pos + |Printed(floatText, v)|)
    ensures ValueAt(parseFloat, s, pos) == Done(v, pos + |Printed(floatText, v)|)
    decreases v, 0
  {
    StartsWell(floatText, v);
    FirstByte(s, pos, Printed(floatText, v));
    match v {
      case Unsigned(n) => NumberValue(parseFloat, s, pos, n);
      case Negative(i) => NumberValue(parseFloat, s, pos, i);
      case Text(text) => TextParses(floatText, parseFloat, s, pos, v);
      case Array(vs) => ArrayParses(floatText, parseFloat, s, pos, vs);
      case Map(es) => MapParses(floatText, parseFloat, s, pos, es);
      case _ => KeywordParses(floatText, parseFloat, s, pos, v);
    }
  }

  lemma NumberValue(parseFloat: Buf -> Option<U64>, s: Buf, pos: nat, i: I128)
    requires i < USIZE_LIMIT && At(s, pos, DecimalInteger(i)) && Stops(s, pos + |DecimalInteger(i)|)
    ensures ValueAt(parseFloat, s, pos) == Done(if i < 0 then Negative(i) else Unsigned(i), pos + |DecimalInteger(i)|)
  {
    hide NumberAt, StringAt;
    FirstByte(s, pos, DecimalInteger(i));
    assert s[pos] == MINUS || IsDigit(s[pos]);
    NumberParses(parseFloat, s, pos, i);
  }

  lemma TextParses(floatText: U64 -> Buf, parseFloat: Buf -> Option<U64>, s: Buf, pos: nat, v: Value)
    requires v.Text? && Printable(v) && At(s, pos, Printed(floatText, v))
    ensures ValueAt(parseFloat, s, pos) == Done(v, pos + |Printed(floatText, v)|)
  {
    hide StringAt, EscapedAll, NumberAt;
    var rest := EscapedAll(v.text) + [QUOTE];
    assert Printed(floatText, v) == [QUOTE] + rest;
    AtConcat(s, pos, [QUOTE], rest);
    FirstByte(s, pos, [QUOTE]);
    StringParses(s, pos + 1, v.text);
  }

  lemma KeywordParses(floatText: U64 -> Buf, parseFloat: Buf -> Option<U64>, s: Buf, pos: nat, v: Value)
    requires (v.Bool? || v.Null? || v.Undefined?) && At(s, pos, Printed(floatText, v))
    ensures ValueAt(parseFloat, s, pos) == Done(v, pos + |Printed(floatText, v)|)
  {
    hide StringAt, NumberAt;
    FirstByte(s, pos, Printed(floatText, v));
  }

  lemma {:induction false} ArrayParses(floatText: U64 -> Buf, parseFloat: Buf -> Option<U64>, s: Buf, pos: nat, vs: seq<Value>)
    requires AllPrintable(vs) && At(s, pos, Printed(floatText, Array(vs)))
    ensures ValueAt(parseFloat, s, pos) == Done(Array(vs), pos + |Printed(floatText, Array(vs))|)
    decreases vs, 2
  {
    hide StringAt, NumberAt, ElementsAt;
    var rest := PrintedAll(floatText, vs, false) + [CLOSE_BRACKET];
    AtConcat(s, pos, [OPEN_BRACKET], rest);
    FirstByte(s, pos, [OPEN_BRACKET]);
    FirstByte(s, pos + 1, rest);
    if vs == [] {
      TakenHere(s, pos + 1, CLOSE_BRACKET);
    } else {
      StartsWell(floatText, vs[0]);
      TakenHere(s, pos + 1, CLOSE_BRACKET);
      ElementsParse(floatText, parseFloat, s, pos + 1, vs);
    }
    assert ArrayAt(parseFloat, s, pos + 1) == Done(vs, pos + 1 + |rest|);
  }

  /** What follows the first element of an array. */
  function AfterFirst(floatText: U64 -> Buf, vs: seq<Value>): (b: Buf)
    requires vs != []
  {
    PrintedAll(floatText, vs[1..], true) + [CLOSE_BRACKET]
  }

  lemma UnfoldAll(floatText: U64 -> Buf, vs: seq<Value>)
    requires vs != []
    ensures PrintedAll(floatText, vs, false) == Printed(floatText, vs[0]) + PrintedAll(floatText, vs[1..], true)
  {
    hide Printed;
    NothingBefore(Printed(floatText, vs[0]) + PrintedAll(floatText, vs[1..], true));
  }

  lemma Regroup(a: Buf, b: Buf, c: Buf)
    ensures a + b + c == a + (b + c)
  {
  }

  lemma NothingBefore(a: Buf)
    ensures [] + a == a
  {
  }

  lemma FirstElementThen(floatText: U64 -> Buf, vs: seq<Value>)
    requires vs != []
    ensures PrintedAll(floatText, vs, false) + [CLOSE_BRACKET] == Printed(floatText, vs[0]) + AfterFirst(floatText, vs)
  {
    hide Printed, PrintedAll;
    var first, rest := Printed(floatText, vs[0]), PrintedAll(floatText, vs[1..], true);
    UnfoldAll(floatText, vs);
    Regroup(first, rest, [CLOSE_BRACKET]);
  }

  lemma AfterFirstForm(floatText: U64 -> Buf, vs: seq<Value>)
    requires vs != []
    ensures AfterFirst(floatText, vs)
            == if |vs| == 1 then [CLOSE_BRACKET] else SEPARATOR + (PrintedAll(floatText, vs[1..], false) + [CLOSE_BRACKET])
  {
    hide Printed;
  }

  /** One element of a list, and the bracket or the comma after it. */
  lemma ElementStep(parseFloat: Buf -> Option<U64>, s: Buf, pos: nat, v: Value, p: nat, rest: Parse<seq<Value>>)
    requires pos <= |s| && p < |s| && ValueAt(parseFloat, s, pos) == Done(v, p)
    requires s[p] == COMMA ==> rest == ElementsAt(parseFloat, s, p + 1) && rest.Done?
    ensures s[p] == CLOSE_BRACKET ==> ElementsAt(parseFloat, s, pos) == Done([v], p + 1)
    ensures s[p] == COMMA ==> ElementsAt(parseFloat, s, pos) == Done([v] + rest.value, rest.end)
  {
    hide ValueAt;
    if s[p] == CLOSE_BRACKET || s[p] == COMMA {
      TakenHere(s, p, CLOSE_BRACKET);
      TakenHere(s, p, COMMA);
    }
  }

  /** An element, where it is followed by what ends it. */
  lemma {:induction false} ElementParses(floatText: U64 -> Buf, parseFloat: Buf -> Option<U64>, s: Buf, pos: nat, v: Value, more: Buf)
    requires Printable(v) && more != [] && !IsNumberByte(more[0]) && At(s, pos, Printed(floatText, v) + more)
    ensures var p := pos + |Printed(floatText, v)|;
            pos <= |s| && ValueAt(parseFloat, s, pos) == Done(v, p) && At(s, p, more)
    decreases v, 3
  {
    hide At, ValueAt, Printed;
    AtConcat(s, pos, Printed(floatText, v), more);
    FirstByte(s, pos + |Printed(floatText, v)|, more);
    ValueParses(floatText, parseFloat, s, pos, v);
  }

  /** The bytes of the first element and the rest. */
  lemma ElementAndRest(floatText: U64 -> Buf, s: Buf, pos: nat, vs: seq<Value>) returns (more: Buf)
    requires vs != [] && At(s, pos, PrintedAll(floatText, vs, false) + [CLOSE_BRACKET])
    ensures At(s, pos, Printed(floatText, vs[0]) + more)
    ensures |PrintedAll(floatText, vs, false)| + 1 == |Printed(floatText, vs[0])| + |more|
    ensures more == if |vs| == 1 then [CLOSE_BRACKET] else SEPARATOR + (PrintedAll(floatText, vs[1..], false) + [CLOSE_BRACKET])
  {
    hide At, Printed, PrintedAll, AfterFirst;
    more := AfterFirst(floatText, vs);
    FirstElementThen(floatText, vs);
    AfterFirstForm(floatText, vs);
  }

  /** What stands after an element or an entry that ends at `q`. */
  lemma ListLayout(s: Buf, q: nat, close: Byte, last: bool, rest: Buf, more: Buf)
    requires At(s, q, more) && more == if last then [close] else SEPARATOR + (rest + [close])
    ensures q < |s| && s[q] == if last then close else COMMA
    ensures !last ==> q + 2 <= |s| && s[q + 1] == SPACE && At(s, q + 2, rest + [close])
  {
    hide At;
    FirstByte(s, q, more);
    if !last { AfterSeparator(s, q, rest + [close]); }
  }

  /** The first of several elements, and what stands after it. */
  lemma {:induction false} FirstElementParses(floatText: U64 -> Buf, parseFloat: Buf -> Option<U64>, s: Buf, pos: nat, vs: seq<Value>)
    returns (p: nat)
    requires vs != [] && AllPrintable(vs) && At(s, pos, PrintedAll(floatText, vs, false) + [CLOSE_BRACKET])
    ensures AllPrintable(vs[1..]) && pos <= |s| && p < |s|
    ensures ValueAt(parseFloat, s, pos) == Done(vs[0], p) && s[p] == if |vs| == 1 then CLOSE_BRACKET else COMMA
    ensures var end := pos + |PrintedAll(floatText, vs, false)| + 1;
            if |vs| == 1 then end == p + 1
            else var rest := PrintedAll(floatText, vs[1..], false);
                 p + 2 <= |s| && s[p + 1] == SPACE && At(s, p + 2, rest + [CLOSE_BRACKET]) && end == p + 2 + |rest| + 1
    decreases vs, 0
  {
    hide At, ValueAt, Printed, PrintedAll, Printable;
    p := pos + |Printed(floatText, vs[0])|;
    var more := ElementAndRest(floatText, s, pos, vs);
    ElementParses(floatText, parseFloat, s, pos, vs[0], more);
    ListLayout(s, p, CLOSE_BRACKET, |vs| == 1, PrintedAll(floatText, vs[1..], false), more);
  }

  lemma {:induction false} ElementsParse(floatText: U64 -> Buf, parseFloat: Buf -> Option<U64>, s: Buf, pos: nat, vs: seq<Value>)
    requires vs != [] && AllPrintable(vs) && At(s, pos, PrintedAll(floatText, vs, false) + [CLOSE_BRACKET])
    ensures ElementsAt(parseFloat, s, pos) == Done(vs, pos + |PrintedAll(floatText, vs, false)| + 1)
    decreases vs, 1
  {
    hide At, ValueAt, ElementsAt, PrintedAll, AllPrintable;
    var p := FirstElementParses(floatText, parseFloat, s, pos, vs);
    if |vs| == 1 {
      ElementStep(parseFloat, s, pos, vs[0], p, Done([], p));
      assert vs == [vs[0]];
    } else {
      SpaceBefore(parseFloat, s, p + 1);
      ElementsParse(floatText, parseFloat, s, p + 2, vs[1..]);
      ElementStep(parseFloat, s, pos, vs[0], p, ElementsAt(parseFloat, s, p + 1));
      assert vs == [vs[0]] + vs[1..];
    }
  }

  lemma {:induction false} MapParses(floatText: U64 -> Buf, parseFloat: Buf -> Option<U64>, s: Buf, pos: nat, es: seq<Entry>)
    requires EntriesPrintable(es) && At(s, pos, Printed(floatText, Map(es)))
    ensures ValueAt(parseFloat, s, pos) == Done(Map(es), pos + |Printed(floatText, Map(es))|)
    decreases es, 2
  {
    hide StringAt, NumberAt, EntriesAt;
    var rest := PrintedEntries(floatText, es, false) + [CLOSE_BRACE];
    AtConcat(s, pos, [OPEN_BRACE], rest);
    FirstByte(s, pos, [OPEN_BRACE]);
    FirstByte(s, pos + 1, rest);
    if es == [] {
      TakenHere(s, pos + 1, CLOSE_BRACE);
    } else {
      StartsWell(floatText, es[0].key);
      TakenHere(s, pos + 1, CLOSE_BRACE);
      EntriesParse(floatText, parseFloat, s, pos + 1, es);
    }
    assert MapAt(parseFloat, s, pos + 1) == Done(es, pos + 1 + |rest|);
  }

  /** Where the parts of an entry stand. */
  lemma EntryBytes(s: Buf, pos: nat, key: Buf, value: Buf, more: Buf)
    requires more != [] && At(s, pos, key + ([COLON, SPACE] + (value + more)))
    ensures var p, q := pos + |key|, pos + |key| + 2 + |value|;
            q < |s| && At(s, pos, key) && s[p] == COLON && s[p + 1] == SPACE
            && At(s, p + 2, value) && At(s, q, more) && s[q] == more[0]
  {
    var p := pos + |key|;
    AtConcat(s, pos, key, [COLON, SPACE] + (value + more));
    AtConcat(s, p, [COLON, SPACE], value + more);
    AtConcat(s, p + 2, value, more);
    assert s[p..p + 2] == [COLON, SPACE];
    assert s[p] == [COLON, SPACE][0] && s[p + 1] == [COLON, SPACE][1];
    FirstByte(s, p + 2 + |value|, more);
  }

  /** The key and the value of an entry, where each is followed by what ends it. */
  lemma {:induction false} EntryParses(floatText: U64 -> Buf, parseFloat: Buf -> Option<U64>, s: Buf, pos: nat, e: Entry, more: Buf)
    requires Printable(e.key) && Printable(e.value) && more != [] && !IsNumberByte(more[0])
    requires At(s, pos, Printed(floatText, e.key) + ([COLON, SPACE] + (Printed(floatText, e.value) + more)))
    ensures var p := pos + |Printed(floatText, e.key)|;
            var q := p + 2 + |Printed(floatText, e.value)|;
            ValueAt(parseFloat, s, pos) == Done(e.key, p) && p <= |s| && Taken(s, p, COLON) == Done((), p + 1)
            && ValueAt(parseFloat, s, p + 1) == Done(e.value, q) && At(s, q, more)
    decreases e, 0
  {
    hide At, ValueAt, Printed, Taken;
    var p := pos + |Printed(floatText, e.key)|;
    EntryBytes(s, pos, Printed(floatText, e.key), Printed(floatText, e.value), more);
    ValueParses(floatText, parseFloat, s, pos, e.key);
    TakenHere(s, p, COLON);
    SpaceBefore(parseFloat, s, p + 1);
    ValueParses(floatText, parseFloat, s, p + 2, e.value);
  }

  /** What follows the first entry of a map. */
  function AfterFirstEntry(floatText: U64 -> Buf, es: seq<Entry>): (b: Buf)
    requires es != []
  {
    PrintedEntries(floatText, es[1..], true) + [CLOSE_BRACE]
  }

  lemma UnfoldEntries(floatText: U64 -> Buf, es: seq<Entry>)
    requires es != []
    ensures PrintedEntries(floatText, es, false)
            == Printed(floatText, es[0].key)
               + ([COLON, SPACE] + (Printed(floatText, es[0].value) + PrintedEntries(floatText, es[1..], true)))
  {
    hide Printed;
    NothingBefore(Printed(floatText, es[0].key)
                  + ([COLON, SPACE] + (Printed(floatText, es[0].value) + PrintedEntries(floatText, es[1..], true))));
  }

  lemma FirstEntryThen(floatText: U64 -> Buf, es: seq<Entry>)
    requires es != []
    ensures PrintedEntries(floatText, es, false) + [CLOSE_BRACE]
            == Printed(floatText, es[0].key) + ([COLON, SPACE] + (Printed(floatText, es[0].value) + AfterFirstEntry(floatText, es)))
  {
    hide Printed, PrintedEntries;
    var key, value, rest := Printed(floatText, es[0].key), Printed(floatText, es[0].value), PrintedEntries(floatText, es[1..], true);
    UnfoldEntries(floatText, es);
    Regroup(key, [COLON, SPACE] + (value + rest), [CLOSE_BRACE]);
    Regroup([COLON, SPACE], value + rest, [CLOSE_BRACE]);
    Regroup(value, rest, [CLOSE_BRACE]);
  }

  lemma AfterFirstEntryForm(floatText: U64 -> Buf, es: seq<Entry>)
    requires es != []
    ensures AfterFirstEntry(floatText, es)
            == if |es| == 1 then [CLOSE_BRACE] else SEPARATOR + (PrintedEntries(floatText, es[1..], false) + [CLOSE_BRACE])
  {
    hide Printed;
  }

  /** One entry of a map, and the brace or the comma after it. */
  lemma EntryStep(parseFloat: Buf -> Option<U64>, s: Buf, pos: nat, e: Entry, p: nat, q: nat, rest: Parse<seq<Entry>>)
    requires pos <= |s| && p <= |s| && ValueAt(parseFloat, s, pos) == Done(e.key, p) && Taken(s, p, COLON) == Done((), p + 1)
    requires ValueAt(parseFloat, s, p + 1) == Done(e.value, q) && q < |s|
    requires s[q] == COMMA ==> rest == EntriesAt(parseFloat, s, q + 1) && rest.Done?
    ensures s[q] == CLOSE_BRACE ==> EntriesAt(parseFloat, s, pos) == Done([e], q + 1)
    ensures s[q] == COMMA ==> EntriesAt(parseFloat, s, pos) == Done([e] + rest.value, rest.end)
  {
    hide ValueAt;
    if s[q] == CLOSE_BRACE || s[q] == COMMA {
      TakenHere(s, q, CLOSE_BRACE);
      TakenHere(s, q, COMMA);
    }
  }

  /** The bytes of the first entry and the rest. */
  lemma EntryAndRest(floatText: U64 -> Buf, s: Buf, pos: nat, es: seq<Entry>) returns (more: Buf)
    requires es != [] && At(s, pos, PrintedEntries(floatText, es, false) + [CLOSE_BRACE])
    ensures At(s, pos, Printed(floatText, es[0].key) + ([COLON, SPACE] + (Printed(floatText, es[0].value) + more)))
    ensures |PrintedEntries(floatText, es, false)| + 1 == |Printed(floatText, es[0].key)| + 2 + |Printed(floatText, es[0].value)| + |more|
    ensures more == if |es| == 1 then [CLOSE_BRACE] else SEPARATOR + (PrintedEntries(floatText, es[1..], false) + [CLOSE_BRACE])
  {
    hide At, Printed, PrintedEntries, AfterFirstEntry;
    more := AfterFirstEntry(floatText, es);
    FirstEntryThen(floatText, es);
    AfterFirstEntryForm(floatText, es);
  }

  /** The key and the value of the first of several entries, and what stands after them. */
  lemma {:induction false} FirstEntryParses(floatText: U64 -> Buf, parseFloat: Buf -> Option<U64>, s: Buf, pos: nat, es: seq<Entry>)
    returns (p: nat, q: nat)
    requires es != [] && EntriesPrintable(es) && At(s, pos, PrintedEntries(floatText, es, false) + [CLOSE_BRACE])
    ensures EntriesPrintable(es[1..]) && pos <= |s| && p <= |s| && q < |s|
    ensures ValueAt(parseFloat, s, pos) == Done(es[0].key, p) && Taken(s, p, COLON) == Done((), p + 1)
    ensures ValueAt(parseFloat, s, p + 1) == Done(es[0].value, q) && s[q] == if |es| == 1 then CLOSE_BRACE else COMMA
    ensures var end := pos + |PrintedEntries(floatText, es, false)| + 1;
            if |es| == 1 then end == q + 1
            else var rest := PrintedEntries(floatText, es[1..], false);
                 q + 2 <= |s| && s[q + 1] == SPACE && At(s, q + 2, rest + [CLOSE_BRACE]) && end == q + 2 + |rest| + 1
    decreases es, 0
  {
    hide At, ValueAt, Printed, PrintedEntries, Taken, Printable;
    assert es decreases to es[0];
    p := pos + |Printed(floatText, es[0].key)|;
    q := p + 2 + |Printed(floatText, es[0].value)|;
    var more := EntryAndRest(floatText, s, pos, es);
    EntryParses(floatText, parseFloat, s, pos, es[0], more);
    ListLayout(s, q, CLOSE_BRACE, |es| == 1, PrintedEntries(floatText, es[1..], false), more);
  }

  /** Entries after the first, joined to it. */
  lemma EntriesJoin(parseFloat: Buf -> Option<U64>, s: Buf, pos: nat, es: seq<Entry>, p: nat, q: nat, end: nat)
    requires es != [] && pos <= |s| && p <= |s| && q < |s|
    requires ValueAt(parseFloat, s, pos) == Done(es[0].key, p) && Taken(s, p, COLON) == Done((), p + 1)
    requires ValueAt(parseFloat, s, p + 1) == Done(es[0].value, q)
    requires if |es| == 1 then s[q] == CLOSE_BRACE && end == q + 1
             else s[q] == COMMA && EntriesAt(parseFloat, s, q + 1) == Done(es[1..], end)
    ensures EntriesAt(parseFloat, s, pos) == Done(es, end)
  {
    hide ValueAt, EntriesAt, Taken;
    var e := es[0];
    if |es| == 1 {
      EntryStep(parseFloat, s, pos, e, p, q, Done([], q));
      assert es == [e];
    } else {
      EntryStep(parseFloat, s, pos, e, p, q, EntriesAt(parseFloat, s, q + 1));
      assert es == [e] + es[1..];
    }
  }

  lemma {:induction false} EntriesParse(floatText: U64 -> Buf, parseFloat: Buf -> Option<U64>, s: Buf, pos: nat, es: seq<Entry>)
    requires es != [] && EntriesPrintable(es) && At(s, pos, PrintedEntries(floatText, es, false) + [CLOSE_BRACE])
    ensures EntriesAt(parseFloat, s, pos) == Done(es, pos + |PrintedEntries(floatText, es, false)| + 1)
    decreases es, 1
  {
    hide At, ValueAt, EntriesAt, PrintedEntries, Taken, EntriesPrintable;
    var p, q := FirstEntryParses(floatText, parseFloat, s, pos, es);
    if |es| > 1 {
      SpaceBefore(parseFloat, s, q + 1);
      EntriesParse(floatText, parseFloat, s, q + 2, es[1..]);
    }
    EntriesJoin(parseFloat, s, pos, es, p, q, pos + |PrintedEntries(floatText, es, false)| + 1);
  }

  /** parse(write_value(v)) = v. */
  lemma PrintedIsParsed(floatText: U64 -> Buf, parseFloat: Buf -> Option<U64>, v: Value)
    requires Printable(v)
    ensures ParseNotation(parseFloat, Printed(floatText, v)) == Ok(v)
  {
    hide Printed, ValueAt, Printable;
    var s := Printed(floatText, v);
    assert s[0..|s|] == s;
    ValueParses(floatText, parseFloat, s, 0, v);
  }

  /** Formatting an encoding and parsing the notation gives the value that was encoded. */
  lemma EncodedFormattedParsed(floatText: U64 -> Buf, parseFloat: Buf -> Option<U64>, v: Value)
    requires Printable(v) && Encodable(v) && Fits(DEFAULT_OPTIONS, v, 0)
    ensures Encoding.Encode(v).Ok?
    ensures var d := Decoding.DecodeValue(Encoding.Encode(v).value);
            d.Ok? && ParseNotation(parseFloat, Printed(floatText, d.value)) == Ok(v)
  {
    hide Printed, Printable, Encodable, Fits, Encoding.Encode, ParseNotation;
    RoundTrip.DecodeEncoded(v);
    PrintedIsParsed(floatText, parseFloat, v);
  }

  // ----- what follows a value

  predicate AllWhite(s: Buf) {
    forall i :: 0 <= i < |s| ==> IsWhitespace(s[i])
  }

  lemma {:induction false} WhiteToEnd(s: Buf, pos: nat)
    requires pos <= |s| && forall i :: pos <= i < |s| ==> IsWhitespace(s[i])
    ensures White(s, pos) == |s|
    decreases |s| - pos
  {
    if pos < |s| { WhiteToEnd(s, pos + 1); }
  }

  lemma {:induction false} WhiteStops(s: Buf, pos: nat, p: nat)
    requires pos <= p < |s| && !IsWhitespace(s[p]) && forall i :: pos <= i < p ==> IsWhitespace(s[i])
    ensures White(s, pos) == p
    decreases p - pos
  {
    if pos < p { WhiteStops(s, pos + 1, p); }
  }

  /** Whitespace may follow a value; anything else is an error where it stands. */
  lemma AfterTheValue(floatText: U64 -> Buf, parseFloat: Buf -> Option<U64>, v: Value, white: Buf, more: Buf)
    requires Printable(v) && AllWhite(white) && (more != [] ==> !IsWhitespace(more[0])) && (white == [] && more != [] ==> !IsNumberByte(more[0]))
    ensures var s := Printed(floatText, v) + (white + more);
            ParseNotation(parseFloat, s)
            == if more == [] then Ok(v) else Err(NewError(Message, |Printed(floatText, v)| + |white|))
  {
    hide Printed, ValueAt, Printable, White, AllWhite;
    var first := Printed(floatText, v);
    var s := first + (white + more);
    AtConcat(s, 0, first, white + more);
    assert At(s, 0, s);
    AfterIsNoNumber(white, more);
    assert |first| < |s| ==> s[|first|] == (white + more)[0];
    ValueParses(floatText, parseFloat, s, 0, v);
    WhiteAfter(s, |first|, white, more);
  }

  lemma AfterIsNoNumber(white: Buf, more: Buf)
    requires AllWhite(white) && (white == [] && more != [] ==> !IsNumberByte(more[0]))
    ensures white + more != [] ==> !IsNumberByte((white + more)[0])
  {
    if white != [] { assert IsWhitespace(white[0]); }
  }

  lemma WhiteAfter(s: Buf, pos: nat, white: Buf, more: Buf)
    requires pos <= |s| && s[pos..] == white + more && AllWhite(white) && (more != [] ==> !IsWhitespace(more[0]))
    ensures White(s, pos) == pos + |white| && |s| == pos + |white| + |more|
  {
    hide White;
    assert forall i :: pos <= i < |s| ==> s[i] == (white + more)[i - pos];
    forall i | pos <= i < pos + |white| ensures IsWhitespace(s[i]) {
      assert s[i] == white[i - pos];
    }
    if more == [] {
      WhiteToEnd(s, pos);
    } else {
      assert s[pos + |white|] == more[0];
      WhiteStops(s, pos, pos + |white|);
    }
  }

  // ----- notation outside the shared subset

  /** The number that a hexadecimal digit stands for. */
  function HexValue(b: Byte): nat {
    if IsDigit(b) then b - 0x30 else if 0x61 <= b <= 0x66 then b - 0x57 else 16
  }

  /** Two digits for each byte, the higher half first. */
  lemma {:induction false} HexSpells(s: Buf, i: nat)
    requires i < |s|
    ensures |Hex(s)| == 2 * |s|
    ensures HexValue(Hex(s)[2 * i]) < 16 && HexValue(Hex(s)[2 * i + 1]) < 16
    ensures 16 * HexValue(Hex(s)[2 * i]) + HexValue(Hex(s)[2 * i + 1]) == s[i]
    decreases s
  {
    var rest := Hex(s[1..]);
    assert Hex(s)[2..] == rest;
    if i > 0 {
      HexSpells(s[1..], i - 1);
      assert Hex(s)[2 * i] == rest[2 * (i - 1)] && Hex(s)[2 * i + 1] == rest[2 * (i - 1) + 1];
    } else if |s| > 1 {
      HexSpells(s[1..], 0);
    }
  }

  /** As in section 8 of RFC 8949: `h'01ff'`, `1(-2)` and `simple(16)`. */
  lemma ByteStringExample(floatText: U64 -> Buf)
    ensures Printed(floatText, Bytes([0x01, 0xff])) == [0x68, 0x27, 0x30, 0x31, 0x66, 0x66, 0x27]
  {
    assert Hex([0xff]) == [0x66, 0x66];
    assert ([0x01, 0xff])[1..] == [0xff];
    assert Hex([0x01, 0xff]) == [0x30, 0x31, 0x66, 0x66];
  }

  lemma TagExample(floatText: U64 -> Buf)
    ensures Printed(floatText, Tag(1, Negative(-2))) == [0x31, 0x28, 0x2d, 0x32, 0x29]
  {
    assert Decimal(1) == [0x31] && DecimalInteger(-2) == [0x2d, 0x32];
    assert Printed(floatText, Negative(-2)) == [0x2d, 0x32];
  }

  lemma SimpleExample(floatText: U64 -> Buf)
    ensures Printed(floatText, Simple(16)) == [0x73, 0x69, 0x6d, 0x70, 0x6c, 0x65, 0x28, 0x31, 0x36, 0x29]
  {
    assert Decimal(16) == [0x31, 0x36] by { assert Decimal(1) == [0x31]; }
  }
}
