/** `write_value` appending to a string, and the `DiagnosticParser` that moves over one. */
module DiagnosticText {
  import opened Core
  import opened Values
  import opened Diagnostic
  import OwnedDecoder
  import Decoding
  import Utf8

  // ----- the printer

  class Output {
    var text: Buf

    constructor ()
      ensures text == []
    {
      text := [];
    }

    method Push(s: Buf)
      modifies this
      ensures text == old(text) + s
    {
      text := text + s;
    }
  }

  /** Three pieces pushed one after another. */
  lemma Enclosed(before: Buf, open: Buf, body: Buf, close: Buf)
    ensures before + open + body + close == before + (open + (body + close))
    ensures open + (body + close) == open + body + close
  {
    Regroup(before + open, body, close);
    Regroup(before, open, body + close);
    Regroup(open, body, close);
  }

  /** `write_value`. */
  method WriteValue(floatText: U64 -> Buf, v: Value, output: Output)
    modifies output
    ensures output.text == old(output.text) + Printed(floatText, v)
    decreases v, 0
  {
    hide Decimal, DecimalInteger, Hex, EscapedAll, PrintedAll, PrintedEntries;
    match v {
      case Unsigned(n) => output.Push(Decimal(n));
      case Negative(i) => output.Push(DecimalInteger(i));
      case Bytes(s) =>
        output.Push([0x68, 0x27]);
        WriteHex(s, output);
        output.Push([0x27]);
        Enclosed(old(output.text), [0x68, 0x27], Hex(s), [0x27]);
      case Text(s) =>
        output.Push([QUOTE]);
        WriteEscaped(s, output);
        output.Push([QUOTE]);
        Enclosed(old(output.text), [QUOTE], EscapedAll(s), [QUOTE]);
      case Array(vs) =>
        output.Push([OPEN_BRACKET]);
        WriteElements(floatText, vs, output);
        output.Push([CLOSE_BRACKET]);
        Enclosed(old(output.text), [OPEN_BRACKET], PrintedAll(floatText, vs, false), [CLOSE_BRACKET]);
      case Map(es) =>
        output.Push([OPEN_BRACE]);
        WriteEntries(floatText, es, output);
        output.Push([CLOSE_BRACE]);
        Enclosed(old(output.text), [OPEN_BRACE], PrintedEntries(floatText, es, false), [CLOSE_BRACE]);
      case Tag(t, w) =>
        output.Push(Decimal(t) + [0x28]);
        WriteValue(floatText, w, output);
        output.Push([0x29]);
        Enclosed(old(output.text), Decimal(t) + [0x28], Printed(floatText, w), [0x29]);
      case Simple(s) => output.Push(SIMPLE + [0x28] + Decimal(s) + [0x29]);
      case Bool(b) => output.Push(if b then TRUE else FALSE);
      case Null => output.Push(NULL);
      case Undefined => output.Push(UNDEFINED);
      case Float(bits) => output.Push(floatText(bits));
    }
  }

  method WriteHex(s: Buf, output: Output)
    modifies output
    ensures output.text == old(output.text) + Hex(s)
  {
    assert s[0..] == s;
    for i := 0 to |s|
      invariant output.text + Hex(s[i..]) == old(output.text) + Hex(s)
    {
      assert s[i..][0] == s[i] && s[i..][1..] == s[i + 1..];
      Regroup(output.text, [HexDigit(s[i] / 16), HexDigit(s[i] % 16)], Hex(s[i + 1..]));
      output.Push([HexDigit(s[i] / 16), HexDigit(s[i] % 16)]);
    }
    assert output.text + [] == output.text;
  }

  method WriteEscaped(s: Buf, output: Output)
    modifies output
    ensures output.text == old(output.text) + EscapedAll(s)
  {
    hide Escaped;
    assert s[0..] == s;
    for i := 0 to |s|
      invariant output.text + EscapedAll(s[i..]) == old(output.text) + EscapedAll(s)
    {
      assert s[i..][0] == s[i] && s[i..][1..] == s[i + 1..];
      Regroup(output.text, Escaped(s[i]), EscapedAll(s[i + 1..]));
      output.Push(Escaped(s[i]));
    }
    assert output.text + [] == output.text;
  }

  lemma ElementsStep(floatText: U64 -> Buf, vs: seq<Value>, i: nat, before: Buf)
    requires i < |vs|
    ensures before + PrintedAll(floatText, vs[i..], i > 0)
            == before + (if i > 0 then SEPARATOR else []) + Printed(floatText, vs[i]) + PrintedAll(floatText, vs[i + 1..], true)
  {
    hide Printed;
    assert vs[i..][0] == vs[i] && vs[i..][1..] == vs[i + 1..];
  }

  /** `separated` over the elements of an array. */
  method WriteElements(floatText: U64 -> Buf, vs: seq<Value>, output: Output)
    modifies output
    ensures output.text == old(output.text) + PrintedAll(floatText, vs, false)
    decreases vs, 1
  {
    hide Printed;
    assert vs[0..] == vs;
    for i := 0 to |vs|
      invariant output.text + PrintedAll(floatText, vs[i..], i > 0) == old(output.text) + PrintedAll(floatText, vs, false)
    {
      ElementsStep(floatText, vs, i, output.text);
      assert output.text + [] == output.text;
      if i != 0 {
        output.Push(SEPARATOR);
      }
      WriteValue(floatText, vs[i], output);
    }
    assert vs[|vs|..] == [] && output.text + [] == output.text;
  }

  lemma EntriesStep(floatText: U64 -> Buf, es: seq<Entry>, i: nat, before: Buf)
    requires i < |es|
    ensures before + PrintedEntries(floatText, es[i..], i > 0)
            == before + (if i > 0 then SEPARATOR else []) + Printed(floatText, es[i].key) + [COLON, SPACE]
               + Printed(floatText, es[i].value) + PrintedEntries(floatText, es[i + 1..], true)
  {
    hide Printed;
    assert es[i..][0] == es[i] && es[i..][1..] == es[i + 1..];
  }

  /** `separated` over the entries of a map. */
  method WriteEntries(floatText: U64 -> Buf, es: seq<Entry>, output: Output)
    modifies output
    ensures output.text == old(output.text) + PrintedEntries(floatText, es, false)
    decreases es, 1
  {
    hide Printed;
    assert es[0..] == es;
    for i := 0 to |es|
      invariant output.text + PrintedEntries(floatText, es[i..], i > 0) == old(output.text) + PrintedEntries(floatText, es, false)
    {
      assert es decreases to es[i];
      EntriesStep(floatText, es, i, output.text);
      assert output.text + [] == output.text;
      if i != 0 {
        output.Push(SEPARATOR);
      }
      WriteValue(floatText, es[i].key, output);
      output.Push([COLON, SPACE]);
      WriteValue(floatText, es[i].value, output);
    }
    assert es[|es|..] == [] && output.text + [] == output.text;
  }

  /** `format`. */
  method Format(floatText: U64 -> Buf, input: Buf) returns (r: Result<Buf>)
    ensures match Decoding.DecodeValue(input)
            case Ok(v) => r == Ok(Printed(floatText, v))
            case Err(e) => r == Err(e)
  {
    hide Printed, Decoding.DecodeValue;
    var v :- OwnedDecoder.DecodeOwnedValue(input);
    var output := new Output();
    WriteValue(floatText, v, output);
    assert [] + Printed(floatText, v) == Printed(floatText, v);
    return Ok(output.text);
  }

  // ----- the parser

  /** One character of a string. */
  lemma StringStep(s: Buf, pos: nat)
    requires pos <= |s|
    ensures var all := StringAt(s, pos);
            if pos == |s| then all == Fail(NewError(Message, pos))
            else if s[pos] == QUOTE then all == Done([], pos + 1)
            else if s[pos] == BACKSLASH then
              if pos + 1 == |s| then all == Fail(NewError(Message, pos + 1))
              else if Unescaped(s[pos + 1]) == None then all == Fail(NewError(Message, pos + 2))
              else all == After([Unescaped(s[pos + 1]).value], StringAt(s, pos + 2))
            else if s[pos] <= 0x7f then all == After([s[pos]], StringAt(s, pos + 1))
            else all == Fail(NewError(Message, pos + 1))
  {
    hide Utf8.Valid, AfterChar;
  }

  /** One turn of the loop over a string of which `done` has been read. */
  lemma StringTurn(all: Parse<Buf>, done: Buf, s: Buf, pos: nat)
    requires pos <= |s| && all == After(done, StringAt(s, pos))
    ensures if pos == |s| then all == Fail(NewError(Message, pos))
            else if s[pos] == QUOTE then all == Done(done, pos + 1)
            else if s[pos] == BACKSLASH then
              if pos + 1 == |s| then all == Fail(NewError(Message, pos + 1))
              else if Unescaped(s[pos + 1]) == None then all == Fail(NewError(Message, pos + 2))
              else all == After(done + [Unescaped(s[pos + 1]).value], StringAt(s, pos + 2))
            else if s[pos] <= 0x7f then all == After(done + [s[pos]], StringAt(s, pos + 1))
            else all == Fail(NewError(Message, pos + 1))
  {
    hide StringAt, Unescaped, Utf8.Valid;
    StringStep(s, pos);
    if pos < |s| {
      AfterAll(done, pos + 1);
      if s[pos] == BACKSLASH {
        if pos + 1 < |s| && Unescaped(s[pos + 1]).Some? { AfterMore(done, [Unescaped(s[pos + 1]).value], StringAt(s, pos + 2)); }
      } else {
        AfterMore(done, [s[pos]], StringAt(s, pos + 1));
      }
    }
  }

  lemma ListStep(parseFloat: Buf -> Option<U64>, s: Buf, pos: nat)
    requires pos <= |s|
    ensures var all, v := ElementsAt(parseFloat, s, pos), ValueAt(parseFloat, s, pos);
            if v.Fail? then all == Fail(v.error)
            else
              var closed := Taken(s, v.end, CLOSE_BRACKET);
              if closed.Done? then all == Done([v.value], closed.end)
              else
                var comma := Taken(s, closed.error.offset, COMMA);
                if comma.Fail? then all == Fail(comma.error) else all == After([v.value], ElementsAt(parseFloat, s, comma.end))
  {
    hide ValueAt, Taken;
  }

  lemma MapStep(parseFloat: Buf -> Option<U64>, s: Buf, pos: nat)
    requires pos <= |s|
    ensures var all, k := EntriesAt(parseFloat, s, pos), ValueAt(parseFloat, s, pos);
            if k.Fail? then all == Fail(k.error)
            else
              var colon := Taken(s, k.end, COLON);
              if colon.Fail? then all == Fail(colon.error)
              else
                var v := ValueAt(parseFloat, s, colon.end);
                if v.Fail? then all == Fail(v.error)
                else
                  var closed := Taken(s, v.end, CLOSE_BRACE);
                  if closed.Done? then all == Done([Entry(k.value, v.value)], closed.end)
                  else
                    var comma := Taken(s, closed.error.offset, COMMA);
                    if comma.Fail? then all == Fail(comma.error)
                    else all == After([Entry(k.value, v.value)], EntriesAt(parseFloat, s, comma.end))
  {
    hide ValueAt, Taken;
  }

  class DiagnosticParser {
    const bytes: Buf
    const parseFloat: Buf -> Option<U64>
    var position: nat

    predicate Valid()
      reads this
    {
      position <= |bytes|
    }

    constructor (bytes: Buf, parseFloat: Buf -> Option<U64>)
      ensures Valid() && position == 0 && this.bytes == bytes && this.parseFloat == parseFloat
    {
      this.bytes, this.parseFloat, position := bytes, parseFloat, 0;
    }

    function ErrorHere(): Error
      reads this
    {
      NewError(Message, position)
    }

    method Whitespace()
      requires Valid()
      modifies this
      ensures Valid() && position == White(bytes, old(position))
    {
      while position < |bytes| && IsWhitespace(bytes[position])
        invariant Valid() && White(bytes, position) == White(bytes, old(position))
      {
        position := position + 1;
      }
    }

    method Take(b: Byte) returns (taken: bool)
      requires Valid()
      modifies this
      ensures Valid() && old(position) <= position && (taken ==> old(position) < position)
      ensures match Taken(bytes, old(position), b)
              case Done(_, end) => taken && position == end
              case Fail(e) => !taken && position == e.offset
    {
      Whitespace();
      if position < |bytes| && bytes[position] == b {
        position := position + 1;
        return true;
      }
      return false;
    }

    method Keyword(word: Buf) returns (found: bool)
      requires Valid()
      modifies this
      ensures Valid() && found == KeywordAt(bytes, old(position), word)
      ensures position == old(position) + (if found then |word| else 0)
    {
      if position + |word| <= |bytes| && bytes[position..position + |word|] == word {
        position := position + |word|;
        return true;
      }
      return false;
    }

    method ParseValue() returns (r: Result<Value>)
      requires Valid()
      modifies this
      ensures Valid() && old(position) <= position && Agrees(r, position, ValueAt(parseFloat, bytes, old(position)))
      decreases |bytes| - position, 0
    {
      hide NumberAt, StringAt, KeywordAt;
      Whitespace();
      if position == |bytes| {
        return Err(ErrorHere());
      }
      var b := bytes[position];
      if b == QUOTE {
        var text :- ParseString();
        return Ok(Text(text));
      } else if b == OPEN_BRACKET {
        var vs :- ParseArray();
        return Ok(Array(vs));
      } else if b == OPEN_BRACE {
        var es :- ParseMap();
        return Ok(Map(es));
      } else if b == TRUE[0] {
        var found := Keyword(TRUE);
        return if found then Ok(Bool(true)) else Err(ErrorHere());
      } else if b == FALSE[0] {
        var found := Keyword(FALSE);
        return if found then Ok(Bool(false)) else Err(ErrorHere());
      } else if b == NULL[0] {
        var found := Keyword(NULL);
        return if found then Ok(Null) else Err(ErrorHere());
      } else if b == UNDEFINED[0] {
        var found := Keyword(UNDEFINED);
        return if found then Ok(Undefined) else Err(ErrorHere());
      } else if b == MINUS || IsDigit(b) {
        r := Number();
      } else {
        r := Err(ErrorHere());
      }
    }

    /** From the opening quote on. */
    method ParseString() returns (r: Result<Buf>)
      requires Valid() && position < |bytes|
      modifies this
      ensures Valid() && old(position) < position && Agrees(r, position, StringAt(bytes, old(position) + 1))
    {
      hide StringAt, Unescaped, After, Utf8.Valid;
      position := position + 1;
      var result: Buf := [];
      ghost var all := StringAt(bytes, position);
      AfterNone(all);
      while true
        invariant Valid() && old(position) < position
        invariant all == After(result, StringAt(bytes, position))
        decreases |bytes| - position
      {
        StringTurn(all, result, bytes, position);
        if position == |bytes| {
          return Err(ErrorHere());
        }
        var b := bytes[position];
        position := position + 1;
        var c: Byte;
        if b == QUOTE {
          return Ok(result);
        } else if b == BACKSLASH {
          if position == |bytes| {
            return Err(ErrorHere());
          }
          var escaped := Unescaped(bytes[position]);
          position := position + 1;
          if escaped == None {
            return Err(ErrorHere());
          }
          c := escaped.value;
        } else if b <= 0x7f {
          c := b;
        } else {
          return Err(ErrorHere());
        }
        result := result + [c];
      }
    }

    /** From the opening bracket on. */
    method ParseArray() returns (r: Result<seq<Value>>)
      requires Valid() && position < |bytes|
      modifies this
      ensures Valid() && old(position) < position && Agrees(r, position, ArrayAt(parseFloat, bytes, old(position) + 1))
      decreases |bytes| - position - 1, 3
    {
      hide ValueAt, ElementsAt, Taken;
      position := position + 1;
      var values: seq<Value> := [];
      var empty := Take(CLOSE_BRACKET);
      if empty {
        return Ok(values);
      }
      ghost var all := ElementsAt(parseFloat, bytes, position);
      AfterNone(all);
      while true
        invariant Valid() && old(position) < position
        invariant all == After(values, ElementsAt(parseFloat, bytes, position))
        decreases |bytes| - position
      {
        ListStep(parseFloat, bytes, position);
        ghost var before := values;
        var v :- ParseValue();
        values := values + [v];
        var closed := Take(CLOSE_BRACKET);
        if closed {
          return Ok(values);
        }
        var more := Take(COMMA);
        if !more {
          return Err(ErrorHere());
        }
        AfterMore(before, [v], ElementsAt(parseFloat, bytes, position));
      }
    }

    /** From the opening brace on. */
    method ParseMap() returns (r: Result<seq<Entry>>)
      requires Valid() && position < |bytes|
      modifies this
      ensures Valid() && old(position) < position && Agrees(r, position, MapAt(parseFloat, bytes, old(position) + 1))
      decreases |bytes| - position - 1, 3
    {
      hide ValueAt, EntriesAt, Taken;
      position := position + 1;
      var entries: seq<Entry> := [];
      var empty := Take(CLOSE_BRACE);
      if empty {
        return Ok(entries);
      }
      ghost var all := EntriesAt(parseFloat, bytes, position);
      AfterNone(all);
      while true
        invariant Valid() && old(position) < position
        invariant all == After(entries, EntriesAt(parseFloat, bytes, position))
        decreases |bytes| - position
      {
        MapStep(parseFloat, bytes, position);
        ghost var before := entries;
        var key :- ParseValue();
        var colon := Take(COLON);
        if !colon {
          return Err(ErrorHere());
        }
        var value :- ParseValue();
        entries := entries + [Entry(key, value)];
        var closed := Take(CLOSE_BRACE);
        if closed {
          return Ok(entries);
        }
        var more := Take(COMMA);
        if !more {
          return Err(ErrorHere());
        }
        AfterMore(before, [Entry(key, value)], EntriesAt(parseFloat, bytes, position));
      }
    }

    method Number() returns (r: Result<Value>)
      requires Valid()
      modifies this
      ensures Valid() && old(position) <= position && Agrees(r, position, NumberAt(parseFloat, bytes, old(position)))
    {
      hide ParseI128, LooksLikeFloat;
      var start := position;
      while position < |bytes| && IsNumberByte(bytes[position])
        invariant Valid() && start <= position && NumberEnd(bytes, position) == NumberEnd(bytes, start)
      {
        position := position + 1;
      }
      var text := bytes[start..position];
      if LooksLikeFloat(text) {
        var float := parseFloat(text);
        return if float.Some? then Ok(Float(float.value)) else Err(ErrorHere());
      }
      var value := ParseI128(text);
      if value == None {
        return Err(ErrorHere());
      }
      if value.value >= 0 {
        return if value.value < USIZE_LIMIT then Ok(Unsigned(value.value)) else Err(ErrorHere());
      }
      return Ok(Negative(value.value));
    }
  }

  /** `parse`. */
  method ParseText(parseFloat: Buf -> Option<U64>, input: Buf) returns (r: Result<Value>)
    ensures r == ParseNotation(parseFloat, input)
  {
    hide ValueAt;
    var parser := new DiagnosticParser(input, parseFloat);
    var value :- parser.ParseValue();
    parser.Whitespace();
    if parser.position != |input| {
      return Err(parser.ErrorHere());
    }
    return Ok(value);
  }
}
