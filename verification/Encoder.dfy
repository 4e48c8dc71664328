/** The low-level encoder of src/encode.rs and `Value::encode`, appending to an output vector. */
module Encoders {
  import opened Core
  import opened Heads
  import opened Values
  import opened Encoding
  import Floats
  import FloatProofs

  /** The specified bytes were appended, or the specified error came back; nothing is ever taken away. */
  predicate Wrote(r: Result<()>, before: Buf, after: Buf, spec: Result<Buf>) {
    match spec
    case Ok(bytes) => r == Ok(()) && after == before + bytes
    case Err(e) => r == Err(e) && before <= after
  }

  lemma WroteBoth(before: Buf, a: Buf, b: Buf, after: Buf)
    requires after == (before + a) + b
    ensures after == before + (a + b)
  {
  }

  /** Appending to a vector cannot fail, so only the operations with errors of their own return a result. */
  class Encoder {
    var output: Buf

    constructor ()
      ensures output == []
    {
      output := [];
    }

    method WriteAll(bytes: Buf)
      modifies this
      ensures output == old(output) + bytes
    {
      output := output + bytes;
    }

    /** The shortest head, assembled in a nine-byte buffer. */
    method Head(major: nat, n: U64)
      requires major < 8
      modifies this
      ensures output == old(output) + HeadBytes(major, n)
    {
      var b := new Byte[9](_ => 0);
      var len;
      if n < 24 {
        b[0] := major * 32 + n;
        len := 1;
      } else if n <= 0xff {
        b[0] := major * 32 + 24;
        PutBE(b, n, 1);
        len := 2;
      } else if n <= 0xffff {
        b[0] := major * 32 + 25;
        PutBE(b, n, 2);
        len := 3;
      } else if n <= 0xffff_ffff {
        b[0] := major * 32 + 26;
        PutBE(b, n, 4);
        len := 5;
      } else {
        b[0] := major * 32 + 27;
        PutBE(b, n, 8);
        len := 9;
      }
      assert b[..len] == HeadBytes(major, n);
      WriteAll(b[..len]);
    }

    /** `b[1..1 + w].copy_from_slice(&n.to_be_bytes())`. */
    static method PutBE(b: array<Byte>, n: U64, w: nat)
      requires b.Length == 9 && w <= 8
      modifies b
      ensures b[..1 + w] == old(b[..1]) + ToBE(n, w)
    {
      forall i | 0 <= i < w {
        b[1 + i] := ToBE(n, w)[i];
      }
      assert b[0] == old(b[..1])[0];
    }

    method Unsigned(n: U64)
      modifies this
      ensures output == old(output) + HeadBytes(0, n)
    {
      Head(0, n);
    }

    /** `signed`: complementing an `i64` is subtracting it from -1. */
    method Signed(n: int)
      requires -0x8000_0000_0000_0000 <= n < 0x8000_0000_0000_0000
      modifies this
      ensures EncodeInteger(n).Ok? && output == old(output) + EncodeInteger(n).value
    {
      if n >= 0 {
        Head(0, n);
      } else {
        Head(1, -1 - n);
      }
    }

    /** `integer`; on an `i128`, `-1 - n` cannot overflow. */
    method Integer(n: I128) returns (r: Result<()>)
      modifies this
      ensures Wrote(r, old(output), output, EncodeInteger(n))
    {
      if n >= 0 {
        if n >= USIZE_LIMIT {
          return Err(NewError(IntegerOverflow, 0));
        }
        Unsigned(n);
      } else {
        var arg := -1 - n;
        if arg >= USIZE_LIMIT {
          return Err(NewError(IntegerOverflow, 0));
        }
        Head(1, arg);
      }
      return Ok(());
    }

    method String(major: nat, s: Buf)
      requires major < 8
      modifies this
      ensures output == old(output) + (LengthHead(major, |s|) + s)
    {
      Head(major, |s| % USIZE_LIMIT);
      WriteAll(s);
      WroteBoth(old(output), LengthHead(major, |s|), s, output);
    }

    method Bytes(s: Buf)
      modifies this
      ensures output == old(output) + (LengthHead(2, |s|) + s)
    {
      String(2, s);
    }

    method Text(s: Buf)
      modifies this
      ensures output == old(output) + (LengthHead(3, |s|) + s)
    {
      String(3, s);
    }

    method Array(len: nat)
      modifies this
      ensures output == old(output) + LengthHead(4, len)
    {
      Head(4, len % USIZE_LIMIT);
    }

    method Map(len: nat)
      modifies this
      ensures output == old(output) + LengthHead(5, len)
    {
      Head(5, len % USIZE_LIMIT);
    }

    method Tag(tag: U64)
      modifies this
      ensures output == old(output) + HeadBytes(6, tag)
    {
      Head(6, tag);
    }

    method Simple(value: Byte) returns (r: Result<()>)
      modifies this
      ensures Wrote(r, old(output), output, EncodeSimple(value))
    {
      if value < 20 {
        WriteAll([0xe0 + value]);
      } else if value < 32 {
        return Err(NewError(InvalidAdditionalInfo, 0));
      } else {
        WriteAll([0xf8, value]);
      }
      return Ok(());
    }

    method F64(bits: U64)
      modifies this
      ensures output == old(output) + ([0xfb] + ToBE(bits, 8))
    {
      WriteAll([0xfb] + ToBE(bits, 8));
    }

    /** The float is written as `write_float_preferred` writes it. */
    method F64Preferred(bits: U64)
      modifies this
      ensures output == old(output) + Floats.PreferredFloat(bits)
    {
      hide Floats.PreferredFloat, Floats.IsNaN, Floats.DoubleToSingle, Floats.SingleToDouble, Floats.FloatEq, Floats.ExactHalf;
      FloatProofs.EncodersAgree(bits);
      if Floats.IsNaN(bits) {
        WriteAll([0xf9, 0x7e, 0x00]);
        return;
      }
      var narrowed := Floats.DoubleToSingle(bits);
      if Floats.FloatEq(Floats.SingleToDouble(narrowed), bits) {
        var half := Floats.ExactHalf(narrowed);
        if half.Some? {
          WriteAll([0xf9] + ToBE(half.value, 2));
          return;
        }
        WriteAll([0xfa] + ToBE(narrowed, 4));
        return;
      }
      WriteAll([0xfb] + ToBE(bits, 8));
    }

    // ----- `Value::encode`

    method EncodeValue(v: Value) returns (r: Result<()>)
      modifies this
      ensures Wrote(r, old(output), output, Encode(v))
      decreases v, 0
    {
      hide HeadBytes, LengthHead;
      r := Ok(());
      match v {
        case Unsigned(n) => Unsigned(n);
        case Negative(i) => r := Integer(i);
        case Bytes(s) => Bytes(s);
        case Text(s) => Text(s);
        case Array(vs) => r := ArrayValue(vs);
        case Map(es) => r := MapValue(es);
        case Tag(t, w) =>
          Tag(t);
          r := EncodeValue(w);
          if r.Ok? { WroteBoth(old(output), HeadBytes(6, t), Encode(w).value, output); }
        case Simple(s) => r := Simple(s);
        case Bool(b) => WriteAll([if b then 0xf5 else 0xf4]);
        case Null => WriteAll([0xf6]);
        case Undefined => WriteAll([0xf7]);
        case Float(bits) => F64(bits);
      }
    }

    method ArrayValue(vs: seq<Value>) returns (r: Result<()>)
      modifies this
      ensures Wrote(r, old(output), output, Encode(Value.Array(vs)))
      decreases vs, 1
    {
      hide HeadBytes, LengthHead, Encode, EncodeAll;
      ArraySpec(vs);
      Array(|vs|);
      ghost var start := output;
      assert output[|start|..] == [];
      var i := 0;
      while i < |vs|
        invariant i <= |vs| && start <= output
        invariant EncodeAll(vs) == Prepend(output[|start|..], EncodeAll(vs[i..]))
      {
        ghost var before := output;
        AllStep(vs, i, before[|start|..]);
        var _ :- EncodeValue(vs[i]);
        assert output[|start|..] == before[|start|..] + Encode(vs[i]).value;
        i := i + 1;
      }
      assert output == start + output[|start|..];
      WroteBoth(old(output), LengthHead(4, |vs|), output[|start|..], output);
      return Ok(());
    }

    method MapValue(es: seq<Entry>) returns (r: Result<()>)
      modifies this
      ensures Wrote(r, old(output), output, Encode(Value.Map(es)))
      decreases es, 1
    {
      hide HeadBytes, LengthHead, Encode, EncodeEntries;
      MapSpec(es);
      Map(|es|);
      ghost var start := output;
      assert output[|start|..] == [];
      var i := 0;
      while i < |es|
        invariant i <= |es| && start <= output
        invariant EncodeEntries(es) == Prepend(output[|start|..], EncodeEntries(es[i..]))
      {
        ghost var before := output;
        EntriesStep(es, i, before[|start|..]);
        assert es decreases to es[i];
        var _ :- EncodeValue(es[i].key);
        ghost var middle := output;
        var _ :- EncodeValue(es[i].value);
        WroteTwo(start, before, middle, output, Encode(es[i].key).value, Encode(es[i].value).value);
        i := i + 1;
      }
      assert output == start + output[|start|..];
      WroteBoth(old(output), LengthHead(5, |es|), output[|start|..], output);
      return Ok(());
    }
  }

  /** What is written when `done` has been written and `rest` is still to come. */
  function Prepend(done: Buf, rest: Result<Buf>): Result<Buf> {
    match rest case Ok(more) => Ok(done + more) case Err(e) => Err(e)
  }

  lemma ArraySpec(vs: seq<Value>)
    ensures Encode(Array(vs)) == Prepend(LengthHead(4, |vs|), EncodeAll(vs))
    ensures EncodeAll(vs) == Prepend([], EncodeAll(vs[0..]))
    ensures EncodeAll(vs[|vs|..]) == Ok([])
  {
    hide HeadBytes, LengthHead;
    assert vs[0..] == vs;
    if EncodeAll(vs).Ok? { assert [] + EncodeAll(vs).value == EncodeAll(vs).value; }
  }

  lemma AllStep(vs: seq<Value>, i: nat, done: Buf)
    requires i < |vs|
    ensures match Encode(vs[i])
            case Ok(b) => Prepend(done, EncodeAll(vs[i..])) == Prepend(done + b, EncodeAll(vs[i + 1..]))
            case Err(e) => Prepend(done, EncodeAll(vs[i..])) == Err(e)
  {
    hide Encode;
    assert vs[i..][0] == vs[i] && vs[i..][1..] == vs[i + 1..];
    var rest := EncodeAll(vs[i + 1..]);
    if Encode(vs[i]).Ok? && rest.Ok? {
      assert done + (Encode(vs[i]).value + rest.value) == done + Encode(vs[i]).value + rest.value;
    }
  }

  lemma MapSpec(es: seq<Entry>)
    ensures Encode(Map(es)) == Prepend(LengthHead(5, |es|), EncodeEntries(es))
    ensures EncodeEntries(es) == Prepend([], EncodeEntries(es[0..]))
    ensures EncodeEntries(es[|es|..]) == Ok([])
  {
    hide HeadBytes, LengthHead;
    assert es[0..] == es;
    if EncodeEntries(es).Ok? { assert [] + EncodeEntries(es).value == EncodeEntries(es).value; }
  }

  lemma WroteTwo(start: Buf, before: Buf, middle: Buf, after: Buf, a: Buf, b: Buf)
    requires start <= before && middle == before + a && after == middle + b
    ensures start <= after && after[|start|..] == before[|start|..] + (a + b)
  {
  }

  lemma EntriesStep(es: seq<Entry>, i: nat, done: Buf)
    requires i < |es|
    ensures match EncodeEntry(es[i])
            case Ok(b) => Prepend(done, EncodeEntries(es[i..])) == Prepend(done + b, EncodeEntries(es[i + 1..]))
            case Err(e) => Prepend(done, EncodeEntries(es[i..])) == Err(e)
  {
    hide Encode;
    assert es[i..][0] == es[i] && es[i..][1..] == es[i + 1..];
    var rest := EncodeEntries(es[i + 1..]);
    if EncodeEntry(es[i]).Ok? && rest.Ok? {
      assert done + (EncodeEntry(es[i]).value + rest.value) == done + EncodeEntry(es[i]).value + rest.value;
    }
  }

  /** `to_vec_value`. */
  method ToVecValue(v: Value) returns (r: Result<Buf>)
    ensures r == Encode(v)
  {
    var e := new Encoder();
    var _ :- e.EncodeValue(v);
    assert [] + Encode(v).value == Encode(v).value;
    return Ok(e.output);
  }
}
