/** What `Value::encode` and the deterministic encoders write. */
module Encoding {
  import opened Core
  import opened Heads
  import opened Values
  import Floats

  /** A head whose argument is a length; `len() as u64` never truncates a real length. */
  function LengthHead(major: nat, n: nat): (b: Buf)
    requires major < 8
  {
    HeadBytes(major, n % USIZE_LIMIT)
  }

  lemma LengthHeadIsExact(major: nat, n: U64)
    requires major < 8
    ensures LengthHead(major, n) == HeadBytes(major, n)
  {
  }

  /** `Encoder::integer`. */
  function EncodeInteger(i: int): (r: Result<Buf>) {
    if 0 <= i < USIZE_LIMIT then Ok(HeadBytes(0, i))
    else if -USIZE_LIMIT <= i < 0 then Ok(HeadBytes(1, -1 - i))
    else Err(NewError(IntegerOverflow, 0))
  }

  /** `Encoder::simple`. */
  function EncodeSimple(s: Byte): (r: Result<Buf>) {
    if s < 20 then Ok([0xe0 + s])
    else if s < 32 then Err(NewError(InvalidAdditionalInfo, 0))
    else Ok([0xf8, s])
  }

  /** `Value::encode`. */
  function Encode(v: Value): (r: Result<Buf>) {
    match v
    case Unsigned(n) => Ok(HeadBytes(0, n))
    case Negative(i) => EncodeInteger(i)
    case Bytes(s) => Ok(LengthHead(2, |s|) + s)
    case Text(s) => Ok(LengthHead(3, |s|) + s)
    case Array(vs) =>
      var body :- EncodeAll(vs);
      Ok(LengthHead(4, |vs|) + body)
    case Map(es) =>
      var body :- EncodeEntries(es);
      Ok(LengthHead(5, |es|) + body)
    case Tag(t, w) =>
      var body :- Encode(w);
      Ok(HeadBytes(6, t) + body)
    case Simple(s) => EncodeSimple(s)
    case Bool(b) => Ok([if b then 0xf5 else 0xf4])
    case Null => Ok([0xf6])
    case Undefined => Ok([0xf7])
    case Float(bits) => Ok([0xfb] + ToBE(bits, 8))
  }

  function EncodeAll(vs: seq<Value>): (r: Result<Buf>) {
    if vs == [] then Ok([]) else
    var first :- Encode(vs[0]);
    var rest :- EncodeAll(vs[1..]);
    Ok(first + rest)
  }

  function EncodeEntries(es: seq<Entry>): (r: Result<Buf>) {
    if es == [] then Ok([]) else
    var first :- EncodeEntry(es[0]);
    var rest :- EncodeEntries(es[1..]);
    Ok(first + rest)
  }

  function EncodeEntry(e: Entry): (r: Result<Buf>) {
    var key :- Encode(e.key);
    var value :- Encode(e.value);
    Ok(key + value)
  }
}
