/** `encode_deterministic` as it runs: entries are encoded aside, sorted, and appended. */
module DeterministicEncoder {
  import opened Core
  import opened Heads
  import opened Values
  import opened Encoding
  import opened Canonical
  import opened Encoders
  import Floats

  lemma ArraySteps(vs: seq<Value>)
    ensures Canon(false, Array(vs)) == Prepend(LengthHead(4, |vs|), CanonAll(false, vs))
    ensures CanonAll(false, vs) == Prepend([], CanonAll(false, vs[0..])) && CanonAll(false, vs[|vs|..]) == Ok([])
  {
    hide LengthHead;
    assert vs[0..] == vs;
    if CanonAll(false, vs).Ok? { assert [] + CanonAll(false, vs).value == CanonAll(false, vs).value; }
  }

  lemma ArrayStep(vs: seq<Value>, i: nat, done: Buf)
    requires i < |vs|
    ensures match Canon(false, vs[i])
            case Ok(b) => Prepend(done, CanonAll(false, vs[i..])) == Prepend(done + b, CanonAll(false, vs[i + 1..]))
            case Err(e) => Prepend(done, CanonAll(false, vs[i..])) == Err(e)
  {
    hide Canon;
    assert vs[i..][0] == vs[i] && vs[i..][1..] == vs[i + 1..];
    var rest := CanonAll(false, vs[i + 1..]);
    if Canon(false, vs[i]).Ok? && rest.Ok? {
      assert done + (Canon(false, vs[i]).value + rest.value) == done + Canon(false, vs[i]).value + rest.value;
    }
  }

  lemma PairsStep(es: seq<Entry>, i: nat, done: seq<Pair>)
    requires i < |es|
    ensures match CanonPair(false, es[i])
            case Ok(p) => AfterPairs(done, CanonPairs(false, es[i..])) == AfterPairs(done + [p], CanonPairs(false, es[i + 1..]))
            case Err(e) => AfterPairs(done, CanonPairs(false, es[i..])) == Err(e)
  {
    hide CanonPair;
    assert es[i..][0] == es[i] && es[i..][1..] == es[i + 1..];
    var rest := CanonPairs(false, es[i + 1..]);
    if CanonPair(false, es[i]).Ok? && rest.Ok? {
      assert done + ([CanonPair(false, es[i]).value] + rest.value) == done + [CanonPair(false, es[i]).value] + rest.value;
    }
  }

  method EncodeDeterministic(v: Value) returns (r: Result<Buf>)
    ensures r == Canonical.EncodeDeterministic(v)
    decreases v, 1
  {
    hide Canon;
    var out := new Encoder();
    var _ :- Go(v, out);
    assert [] + Canon(false, v).value == Canon(false, v).value;
    return Ok(out.output);
  }

  method Go(v: Value, out: Encoder) returns (r: Result<()>)
    modifies out
    ensures Wrote(r, old(out.output), out.output, Canon(false, v))
    decreases v, 0
  {
    hide LengthHead, SortByKey, Floats.PreferredFloat, Encode;
    match v {
      case Array(vs) => r := GoArray(vs, out);
      case Map(es) => r := GoMap(es, out);
      case Float(bits) =>
        out.F64Preferred(bits);
        r := Ok(());
      case _ => r := out.EncodeValue(v);
    }
  }

  method GoArray(vs: seq<Value>, out: Encoder) returns (r: Result<()>)
    modifies out
    ensures Wrote(r, old(out.output), out.output, Canon(false, Array(vs)))
    decreases vs, 2
  {
    hide LengthHead, Canon, CanonAll;
    ArraySteps(vs);
    out.Array(|vs|);
    ghost var start := out.output;
    assert out.output[|start|..] == [];
    var i := 0;
    while i < |vs|
      invariant i <= |vs| && start <= out.output
      invariant CanonAll(false, vs) == Prepend(out.output[|start|..], CanonAll(false, vs[i..]))
    {
      ghost var before := out.output;
      ArrayStep(vs, i, before[|start|..]);
      var _ :- Go(vs[i], out);
      assert out.output[|start|..] == before[|start|..] + Canon(false, vs[i]).value;
      i := i + 1;
    }
    assert out.output == start + out.output[|start|..];
    WroteBoth(old(out.output), LengthHead(4, |vs|), out.output[|start|..], out.output);
    return Ok(());
  }

  method GoMap(es: seq<Entry>, out: Encoder) returns (r: Result<()>)
    modifies out
    ensures Wrote(r, old(out.output), out.output, Canon(false, Map(es)))
    decreases es, 2
  {
    hide LengthHead, SortByKey, HasDuplicate, Join;
    var entries :- EncodePairs(es);
    entries := SortByKey(entries);
    if HasDuplicate(entries) {
      return Err(NewError(DuplicateKey, 0));
    }
    out.Map(|entries|);
    ghost var start := out.output;
    WritePairs(entries, out);
    WroteBoth(old(out.output), LengthHead(5, |entries|), Join(entries), out.output);
    return Ok(());
  }

  /** The loop that encodes keys and values aside. */
  method EncodePairs(es: seq<Entry>) returns (r: Result<seq<Pair>>)
    ensures r == CanonPairs(false, es)
    decreases es, 1
  {
    hide Canon, CanonPairs;
    var pairs: seq<Pair> := [];
    NoPairs(es);
    var i := 0;
    while i < |es|
      invariant i <= |es| && CanonPairs(false, es) == AfterPairs(pairs, CanonPairs(false, es[i..]))
    {
      PairsStep(es, i, pairs);
      assert es decreases to es[i];
      var key :- EncodeDeterministic(es[i].key);
      var value :- EncodeDeterministic(es[i].value);
      pairs := pairs + [Pair(key, value)];
      i := i + 1;
    }
    assert pairs + [] == pairs;
    return Ok(pairs);
  }

  lemma NoPairs(es: seq<Entry>)
    ensures CanonPairs(false, es) == AfterPairs([], CanonPairs(false, es[0..])) && CanonPairs(false, es[|es|..]) == Ok([])
  {
    hide Canon;
    assert es[0..] == es;
    if CanonPairs(false, es).Ok? { assert [] + CanonPairs(false, es).value == CanonPairs(false, es).value; }
  }

  /** The loop that appends the sorted entries. */
  method WritePairs(pairs: seq<Pair>, out: Encoder)
    modifies out
    ensures out.output == old(out.output) + Join(pairs)
  {
    assert pairs[0..] == pairs;
    for i := 0 to |pairs|
      invariant out.output + Join(pairs[i..]) == old(out.output) + Join(pairs)
    {
      assert pairs[i..][0] == pairs[i] && pairs[i..][1..] == pairs[i + 1..];
      assert out.output + Join(pairs[i..]) == out.output + pairs[i].key + pairs[i].value + Join(pairs[i + 1..]);
      out.WriteAll(pairs[i].key);
      out.WriteAll(pairs[i].value);
    }
    assert out.output + [] == out.output;
  }
}
