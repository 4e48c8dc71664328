/** Well-formed UTF-8 as the syntax of section 4 of RFC 3629 gives it. */
module Utf8 {
  import opened Core

  predicate Tail(b: Byte) {
    0x80 <= b <= 0xbf
  }

  /** The length of the character that starts `s`, or 0 when none does. */
  function CharLength(s: Buf): (k: nat)
    ensures k <= |s| && k <= 4
  {
    if s == [] then 0
    else if s[0] <= 0x7f then 1
    else if |s| >= 2 && 0xc2 <= s[0] <= 0xdf && Tail(s[1]) then 2
    else if |s| >= 3 && Tail(s[2])
      && ((s[0] == 0xe0 && 0xa0 <= s[1] <= 0xbf)
          || (0xe1 <= s[0] <= 0xec && Tail(s[1]))
          || (s[0] == 0xed && 0x80 <= s[1] <= 0x9f)
          || (0xee <= s[0] <= 0xef && Tail(s[1]))) then 3
    else if |s| >= 4 && Tail(s[2]) && Tail(s[3])
      && ((s[0] == 0xf0 && 0x90 <= s[1] <= 0xbf)
          || (0xf1 <= s[0] <= 0xf3 && Tail(s[1]))
          || (s[0] == 0xf4 && 0x80 <= s[1] <= 0x8f)) then 4
    else 0
  }

  predicate Valid(s: Buf) {
    s == [] || (CharLength(s) > 0 && Valid(s[CharLength(s)..]))
  }

  /** The text of a `String`. */
  type Text = s: Buf | Valid(s) witness []

  /** The first character does not depend on what follows it. */
  lemma CharLengthPrefix(a: Buf, b: Buf)
    requires CharLength(a) > 0
    ensures CharLength(a + b) == CharLength(a)
  {
  }

  /** Text chunks may be validated one by one: well-formedness is closed under concatenation. */
  lemma {:induction false} ValidConcat(a: Buf, b: Buf)
    requires Valid(a) && Valid(b)
    ensures Valid(a + b)
  {
    if a == [] {
      assert a + b == b;
    } else {
      hide CharLength;
      var k := CharLength(a);
      CharLengthPrefix(a, b);
      assert (a + b)[k..] == a[k..] + b;
      ValidConcat(a[k..], b);
    }
  }

  lemma {:induction false} AsciiIsValid(s: Buf)
    requires forall i :: 0 <= i < |s| ==> s[i] < 0x80
    ensures Valid(s)
  {
    if s != [] {
      AsciiIsValid(s[1..]);
    }
  }

  // ----- the characters behind the bytes

  /** A Unicode scalar value: a code point that is no surrogate. */
  predicate IsScalar(c: nat) {
    c < 0x11_0000 && !(0xd800 <= c < 0xe000)
  }

  predicate AllScalars(cs: seq<nat>) {
    cs == [] || (IsScalar(cs[0]) && AllScalars(cs[1..]))
  }

  /** Section 3 of RFC 3629: the bits of a code point, six to a byte after the first. */
  function EncodeChar(c: nat): (s: Buf)
    requires c < 0x11_0000
    ensures 1 <= |s| <= 4
  {
    var c1 := c / 0x40;
    var c2 := c1 / 0x40;
    if c < 0x80 then [c]
    else if c < 0x800 then [0xc0 + c1, 0x80 + c % 0x40]
    else if c < 0x1_0000 then [0xe0 + c2, 0x80 + c1 % 0x40, 0x80 + c % 0x40]
    else [0xf0 + c2 / 0x40, 0x80 + c2 % 0x40, 0x80 + c1 % 0x40, 0x80 + c % 0x40]
  }

  function EncodeChars(cs: seq<nat>): (s: Buf)
    requires AllScalars(cs)
  {
    if cs == [] then [] else EncodeChar(cs[0]) + EncodeChars(cs[1..])
  }

  /** Six more bits. */
  function Shifted(c: nat, b: Byte): nat
    requires Tail(b)
  {
    c * 0x40 + (b - 0x80)
  }

  lemma ShiftedBack(c: nat, b: Byte)
    requires Tail(b)
    ensures Shifted(c, b) / 0x40 == c && Shifted(c, b) % 0x40 + 0x80 == b
  {
  }

  /** The first character of well-formed bytes. */
  lemma FirstChar(s: Buf) returns (c: nat)
    requires CharLength(s) > 0
    ensures IsScalar(c) && EncodeChar(c) == s[..CharLength(s)]
  {
    var k := CharLength(s);
    if k == 1 {
      c := s[0];
    } else if k == 2 {
      c := Shifted(s[0] as int - 0xc0, s[1]);
      ShiftedBack(s[0] as int - 0xc0, s[1]);
    } else if k == 3 {
      c := ThreeBytes(s);
    } else {
      c := FourBytes(s);
    }
  }

  lemma ThreeBytes(s: Buf) returns (c: nat)
    requires CharLength(s) == 3
    ensures IsScalar(c) && EncodeChar(c) == s[..3]
  {
    var top: nat := s[0] as int - 0xe0;
    var c1 := Shifted(top, s[1]);
    c := Shifted(c1, s[2]);
    ShiftedBack(top, s[1]);
    ShiftedBack(c1, s[2]);
  }

  lemma FourBytes(s: Buf) returns (c: nat)
    requires CharLength(s) == 4
    ensures IsScalar(c) && EncodeChar(c) == s[..4]
  {
    var top: nat := s[0] as int - 0xf0;
    var c2 := Shifted(top, s[1]);
    var c1 := Shifted(c2, s[2]);
    c := Shifted(c1, s[3]);
    FourShifts(top, s[1], s[2], s[3]);
    assert s[..4] == [s[0], s[1], s[2], s[3]];
  }

  /** A leading part and three times six bits. */
  lemma FourShifts(top: nat, a: Byte, b: Byte, d: Byte)
    requires Tail(a) && Tail(b) && Tail(d) && 0x10 <= Shifted(top, a) < 0x110
    ensures var c := Shifted(Shifted(Shifted(top, a), b), d);
            0x1_0000 <= c < 0x11_0000 && EncodeChar(c) == [0xf0 + top, a, b, d]
  {
    var c2 := Shifted(top, a);
    var c1 := Shifted(c2, b);
    ShiftedBack(top, a);
    ShiftedBack(c2, b);
    ShiftedBack(c1, d);
  }

  lemma CharIsWellFormed(c: nat, rest: Buf)
    requires IsScalar(c)
    ensures CharLength(EncodeChar(c) + rest) == |EncodeChar(c)|
  {
    hide CharLength;
    AloneIsWellFormed(c);
    CharLengthPrefix(EncodeChar(c), rest);
  }

  lemma AloneIsWellFormed(c: nat)
    requires IsScalar(c)
    ensures CharLength(EncodeChar(c)) == |EncodeChar(c)|
  {
  }

  /** Well-formed UTF-8 is exactly what sequences of scalar values are encoded to. */
  lemma ValidIsEncoded(s: Buf)
    ensures Valid(s) <==> exists cs :: AllScalars(cs) && s == EncodeChars(cs)
  {
    hide Valid, AllScalars, EncodeChars;
    if Valid(s) { var cs := CharsOf(s); }
    if cs :| AllScalars(cs) && s == EncodeChars(cs) { EncodedIsValid(cs); }
  }

  lemma {:induction false} CharsOf(s: Buf) returns (cs: seq<nat>)
    requires Valid(s)
    ensures AllScalars(cs) && s == EncodeChars(cs)
    decreases |s|
  {
    hide Valid, CharLength, EncodeChar, IsScalar;
    if s == [] { return []; }
    var first, after := SplitFirst(s);
    var rest := CharsOf(after);
    cs := [first] + rest;
    CharsCons(first, rest);
  }

  lemma SplitFirst(s: Buf) returns (first: nat, after: Buf)
    requires Valid(s) && s != []
    ensures IsScalar(first) && s == EncodeChar(first) + after && Valid(after) && |after| < |s|
  {
    hide CharLength, EncodeChar, IsScalar;
    first := FirstChar(s);
    after := s[CharLength(s)..];
  }

  lemma CharsCons(c: nat, cs: seq<nat>)
    requires IsScalar(c) && AllScalars(cs)
    ensures AllScalars([c] + cs) && EncodeChars([c] + cs) == EncodeChar(c) + EncodeChars(cs)
  {
    hide EncodeChar, IsScalar;
    assert ([c] + cs)[1..] == cs;
  }

  lemma {:induction false} EncodedIsValid(cs: seq<nat>)
    requires AllScalars(cs)
    ensures Valid(EncodeChars(cs))
  {
    if cs != [] {
      hide CharLength, EncodeChar;
      var rest := EncodeChars(cs[1..]);
      CharIsWellFormed(cs[0], rest);
      EncodedIsValid(cs[1..]);
      assert (EncodeChar(cs[0]) + rest)[|EncodeChar(cs[0])|..] == rest;
    }
  }
}
