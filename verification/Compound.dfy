/**
  * The deterministic serializer of src/serde_codec.rs: maps are collected in one arena, with an index of
  * ranges that is sorted at the end.
  */
module Compound {
  import opened Core
  import opened Heads
  import opened Values
  import opened Encoding
  import opened Canonical
  import opened Encoders
  import Bignum
  import Floats
  import RoundTrip

  /** What a `Serialize` implementation is to the serializer: a value tree, or anything that writes bytes and may then fail. */
  datatype Item = OfValue(v: Value) | OfOther(written: Buf, failure: Option<ErrorKind>)

  function ItemSize(item: Item): nat {
    match item case OfValue(v) => Size(v) case OfOther(_, _) => 0
  }

  /** What serializing an item appends. */
  function ItemBytes(item: Item): Result<Buf> {
    match item
    case OfValue(v) => Serialized(v)
    case OfOther(written, None) => Ok(written)
    case OfOther(_, Some(kind)) => Err(NewError(kind, 0))
  }

  /** What `Serialize for Value` makes the deterministic serializer append. */
  function Serialized(v: Value): (r: Result<Buf>) {
    match v
    case Negative(i) => Ok(Bignum.I128Bytes(i))
    case Array(vs) =>
      var body :- SerializedAll(vs);
      Ok(LengthHead(4, |vs|) + body)
    case Map(es) =>
      var ps :- SerializedPairs(es);
      FinishMap(SortByKey(ps))
    case Float(bits) => Ok(Floats.PreferredFloat(bits))
    case Tag(_, _) => Copied(Encode(v))
    case Simple(_) => Copied(Encode(v))
    case _ => Encode(v)
  }

  /** A value outside Serde's data model is encoded aside and copied; its errors lose their kind. */
  function Copied(r: Result<Buf>): Result<Buf> {
    if r.Ok? then r else Err(NewError(Message, 0))
  }

  function SerializedAll(vs: seq<Value>): (r: Result<Buf>) {
    if vs == [] then Ok([]) else
    var first :- Serialized(vs[0]);
    var rest :- SerializedAll(vs[1..]);
    Ok(first + rest)
  }

  function SerializedPairs(es: seq<Entry>): (r: Result<seq<Pair>>) {
    if es == [] then Ok([]) else
    assert es decreases to es[0];
    var key :- Serialized(es[0].key);
    var value :- Serialized(es[0].value);
    var rest :- SerializedPairs(es[1..]);
    Ok([Pair(key, value)] + rest)
  }

  // ----- it refines the simple recursive encoder

  /** For every value that CBOR can carry, the bytes, or the duplicate key, are those of `encode_deterministic`. */
  lemma {:induction false} SerializedIsDeterministic(v: Value)
    requires Encodable(v)
    ensures Serialized(v) == EncodeDeterministic(v)
    decreases v, 0
  {
    match v {
      case Array(vs) => SerializedAllIsDeterministic(vs);
      case Map(es) => SerializedPairsAreDeterministic(es);
      case Tag(_, w) => RoundTrip.EncodeSucceeds(w);
      case _ =>
    }
  }

  lemma {:induction false} SerializedAllIsDeterministic(vs: seq<Value>)
    requires EncodableAll(vs)
    ensures SerializedAll(vs) == CanonAll(false, vs)
    decreases vs, 1
  {
    if vs != [] {
      SerializedIsDeterministic(vs[0]);
      SerializedAllIsDeterministic(vs[1..]);
    }
  }

  lemma {:induction false} SerializedPairsAreDeterministic(es: seq<Entry>)
    requires EncodableEntries(es)
    ensures SerializedPairs(es) == CanonPairs(false, es)
    decreases es, 1
  {
    if es != [] {
      assert es decreases to es[0];
      SerializedIsDeterministic(es[0].key);
      SerializedIsDeterministic(es[0].value);
      SerializedPairsAreDeterministic(es[1..]);
    }
  }

  // ----- ranges of the arena

  datatype EncodedEntry = EncodedEntry(keyStart: nat, keyEnd: nat, valueStart: nat, valueEnd: nat)

  predicate Within(e: EncodedEntry, end: nat) {
    e.keyStart <= e.keyEnd && e.keyEnd == e.valueStart && e.valueStart <= e.valueEnd <= end
  }

  predicate AllWithin(es: seq<EncodedEntry>, end: nat) {
    forall i :: 0 <= i < |es| ==> Within(es[i], end)
  }

  /** The ranges follow one another without a gap, from 0 to `end`. */
  predicate Tiles(es: seq<EncodedEntry>, end: nat) {
    AllWithin(es, end)
    && (if es == [] then end == 0 else es[0].keyStart == 0 && es[|es| - 1].valueEnd == end)
    && forall i :: 0 < i < |es| ==> es[i - 1].valueEnd == es[i].keyStart
  }

  function PairOf(arena: Buf, e: EncodedEntry): Pair
    requires Within(e, |arena|)
  {
    Pair(arena[e.keyStart..e.keyEnd], arena[e.valueStart..e.valueEnd])
  }

  function PairsOf(arena: Buf, es: seq<EncodedEntry>): (ps: seq<Pair>)
    requires AllWithin(es, |arena|)
    ensures |ps| == |es|
  {
    if es == [] then [] else [PairOf(arena, es[0])] + PairsOf(arena, es[1..])
  }

  lemma {:induction false} PairsOfLonger(arena: Buf, longer: Buf, es: seq<EncodedEntry>)
    requires arena <= longer && AllWithin(es, |arena|)
    ensures PairsOf(longer, es) == PairsOf(arena, es)
    decreases es
  {
    if es != [] {
      var e := es[0];
      assert longer[e.keyStart..e.keyEnd] == arena[e.keyStart..e.keyEnd];
      assert longer[e.valueStart..e.valueEnd] == arena[e.valueStart..e.valueEnd];
      PairsOfLonger(arena, longer, es[1..]);
    }
  }

  lemma {:induction false} PairsOfAppend(arena: Buf, es: seq<EncodedEntry>, e: EncodedEntry)
    requires AllWithin(es, |arena|) && Within(e, |arena|)
    ensures PairsOf(arena, es + [e]) == PairsOf(arena, es) + [PairOf(arena, e)]
    decreases es
  {
    if es != [] {
      PairsOfAppend(arena, es[1..], e);
      assert (es + [e])[1..] == es[1..] + [e];
    } else {
      assert ([] + [e])[1..] == [];
    }
  }

  lemma {:induction false} JoinAppend(ps: seq<Pair>, p: Pair)
    ensures Join(ps + [p]) == Join(ps) + p.key + p.value
    decreases ps
  {
    if ps != [] {
      JoinAppend(ps[1..], p);
      assert (ps + [p])[1..] == ps[1..] + [p];
    } else {
      assert ([] + [p])[1..] == [];
    }
  }

  /** Tiling ranges hold every byte of the arena, once and in order. */
  lemma {:induction false} TilesJoin(arena: Buf, es: seq<EncodedEntry>)
    requires Tiles(es, |arena|)
    ensures Join(PairsOf(arena, es)) == arena
    decreases |es|
  {
    if es == [] {
      assert arena == [];
    } else {
      var init, last := es[..|es| - 1], es[|es| - 1];
      var before := arena[..last.keyStart];
      assert es == init + [last];
      assert Tiles(init, |before|) by { InitTiles(es, |arena|); }
      TilesJoin(before, init);
      PairsOfLonger(before, arena, init);
      PairsOfAppend(arena, init, last);
      JoinAppend(PairsOf(arena, init), PairOf(arena, last));
      assert arena == before + arena[last.keyStart..last.keyEnd] + arena[last.valueStart..last.valueEnd];
    }
  }

  lemma InitTiles(es: seq<EncodedEntry>, end: nat)
    requires Tiles(es, end) && es != []
    ensures Tiles(es[..|es| - 1], es[|es| - 1].keyStart)
  {
    TilesBelow(es, end);
  }

  /** In a tiling every range but the last ends at or before the start of the last. */
  lemma {:induction false} TilesBelow(es: seq<EncodedEntry>, end: nat)
    requires Tiles(es, end) && es != []
    ensures AllWithin(es[..|es| - 1], es[|es| - 1].keyStart)
  {
    var n := |es| - 1;
    var i := n;
    while i > 0
      invariant 0 <= i <= n
      invariant es[i].keyStart <= es[n].keyStart
      invariant forall j :: i <= j < n ==> es[j].valueEnd <= es[n].keyStart
    {
      i := i - 1;
    }
  }

  // ----- sorting ranges by their keys

  function InsertEntry(arena: Buf, e: EncodedEntry, es: seq<EncodedEntry>): (r: seq<EncodedEntry>)
    requires Within(e, |arena|) && AllWithin(es, |arena|)
    ensures AllWithin(r, |arena|) && PairsOf(arena, r) == InsertByKey(PairOf(arena, e), PairsOf(arena, es))
  {
    if es == [] || !Less(PairOf(arena, es[0]).key, PairOf(arena, e).key) then
      assert ([e] + es)[1..] == es;
      [e] + es
    else
      var rest := InsertEntry(arena, e, es[1..]);
      assert ([es[0]] + rest)[1..] == rest;
      [es[0]] + rest
  }

  function SortEntries(arena: Buf, es: seq<EncodedEntry>): (r: seq<EncodedEntry>)
    requires AllWithin(es, |arena|)
    ensures AllWithin(r, |arena|) && PairsOf(arena, r) == SortByKey(PairsOf(arena, es))
  {
    if es == [] then [] else InsertEntry(arena, es[0], SortEntries(arena, es[1..]))
  }

  /** `sort_unstable_by`: some arrangement in which no key is less than the key before it. */
  method SortUnstable(arena: Buf, es: seq<EncodedEntry>) returns (r: seq<EncodedEntry>)
    requires AllWithin(es, |arena|)
    ensures AllWithin(r, |arena|) && NonDescending(PairsOf(arena, r))
    ensures multiset(PairsOf(arena, r)) == multiset(PairsOf(arena, es))
  {
    SortSorts(PairsOf(arena, es));
    r := SortEntries(arena, es);
  }

  /** Any sorted arrangement serves: it is the stable one unless two keys are equal, and then both show it. */
  lemma AnySortServes(ps: seq<Pair>, sorted: seq<Pair>)
    requires NonDescending(sorted) && multiset(sorted) == multiset(ps)
    ensures FinishMap(sorted) == FinishMap(SortByKey(ps))
  {
    hide Less;
    SortSorts(ps);
    if !HasDuplicate(sorted) {
      DistinctIsAscending(None, sorted);
      AscendingIsOnly(None, sorted, SortByKey(ps));
    }
    if !HasDuplicate(SortByKey(ps)) {
      DistinctIsAscending(None, SortByKey(ps));
      AscendingIsOnly(None, SortByKey(ps), sorted);
    }
  }

  /** A strictly increasing arrangement is the only sorted one. */
  lemma {:induction false} AscendingIsOnly(previous: Option<Buf>, ps: seq<Pair>, qs: seq<Pair>)
    requires Ascending(previous, ps) && NonDescending(qs) && multiset(ps) == multiset(qs)
    ensures ps == qs
    decreases ps
  {
    SameSize(ps, qs);
    if ps != [] {
      SameHead(previous, ps, qs);
      TailOfMultiset(ps, qs);
      AscendingIsOnly(Some(ps[0].key), ps[1..], qs[1..]);
    }
  }

  lemma SameHead(previous: Option<Buf>, ps: seq<Pair>, qs: seq<Pair>)
    requires Ascending(previous, ps) && NonDescending(qs) && multiset(ps) == multiset(qs) && ps != [] && qs != []
    ensures ps[0] == qs[0]
  {
    hide Less;
    assert qs[0] in multiset(ps) && ps[0] in multiset(qs);
    var i :| 0 <= i < |ps| && ps[i] == qs[0];
    var j :| 0 <= j < |qs| && qs[j] == ps[0];
    if i > 0 {
      AboveHead(previous, ps, i);
      NotBelowHead(qs, j);
    }
  }

  lemma {:induction false} NotBelowHead(qs: seq<Pair>, j: nat)
    requires NonDescending(qs) && j < |qs|
    ensures !Less(qs[j].key, qs[0].key)
    decreases qs
  {
    LessTrichotomy(qs[0].key, qs[0].key);
    if j > 0 {
      NotBelowHead(qs[1..], j - 1);
      if Less(qs[j].key, qs[0].key) {
        LessTrichotomy(qs[0].key, qs[1].key);
        if qs[0].key != qs[1].key { LessTransitive(qs[j].key, qs[0].key, qs[1].key); }
      }
    }
  }

  // ----- the compound serializer

  /** `DeterministicScratch`. */
  class Scratch {
    var arena: Buf
    var entries: seq<EncodedEntry>

    constructor ()
      ensures arena == [] && entries == []
    {
      arena, entries := [], [];
    }
  }

  datatype State = DirectSequence | BufferedSequence | Mapping

  class DeterministicCompound {
    const output: Encoder
    const state: State
    /** The body of a buffered sequence, or the arena of a map. */
    const buffer: Encoder
    const scratch: Scratch?
    var count: nat
    var entries: seq<EncodedEntry>
    var pendingKey: Option<(nat, nat)>
    /** No key or value has failed half-way. */
    ghost var whole: bool

    /** Where the ranges of finished entries have to end. */
    function Front(): nat
      reads this, buffer
    {
      if pendingKey.Some? then pendingKey.value.0 else |buffer.output|
    }

    ghost predicate Valid()
      reads this, buffer
    {
      output != buffer
      && (state != Mapping ==> entries == [] && pendingKey == None)
      && (state == Mapping ==> EntriesValid())
    }

    ghost predicate EntriesValid()
      reads this, buffer
    {
      (pendingKey.Some? ==> pendingKey.value.0 <= pendingKey.value.1 == |buffer.output|)
      && AllWithin(entries, Front())
      && (whole ==> Tiles(entries, Front()))
    }

    /** The entries so far, in the order of the calls. */
    function Pairs(): seq<Pair>
      requires AllWithin(entries, |buffer.output|)
      reads this, buffer
    {
      PairsOf(buffer.output, entries)
    }

    /** `sequence`. */
    constructor Sequence(output: Encoder, len: Option<nat>)
      modifies output
      ensures Valid() && this.output == output && fresh(buffer) && buffer.output == [] && count == 0 && scratch == null
      ensures state == (if len.Some? then DirectSequence else BufferedSequence)
      ensures output.output == old(output.output) + (if len.Some? then LengthHead(4, len.value) else [])
    {
      this.output, this.scratch := output, null;
      state := if len.Some? then DirectSequence else BufferedSequence;
      buffer := new Encoder();
      count, entries, pendingKey, whole := 0, [], None, true;
      new;
      if len.Some? {
        output.Array(len.value);
      }
    }

    /** `map`: whatever the scratch held is dropped. */
    constructor Map(output: Encoder, len: Option<nat>, scratch: Scratch?)
      modifies if scratch == null then {} else {scratch}
      ensures Valid() && this.output == output && fresh(buffer) && buffer.output == [] && this.scratch == scratch
      ensures state == Mapping && whole && pendingKey == None && Pairs() == []
      ensures scratch != null ==> scratch.arena == [] && scratch.entries == []
    {
      this.output, this.scratch, state := output, scratch, Mapping;
      buffer := new Encoder();
      count, entries, pendingKey, whole := 0, [], None, true;
      new;
      if scratch != null {
        buffer.output, entries := scratch.arena, scratch.entries;
        scratch.arena, scratch.entries := [], [];
      }
      buffer.output, entries := [], [];
    }

    method SerializeElement(item: Item) returns (r: Result<()>)
      requires Valid()
      modifies this, output, buffer
      ensures Valid()
      ensures state == DirectSequence ==>
                Wrote(r, old(output.output), output.output, ItemBytes(item)) && unchanged(this, buffer)
      ensures state == BufferedSequence ==>
                Wrote(r, old(buffer.output), buffer.output, ItemBytes(item)) && unchanged(output)
                && count == old(count) + (if r.Ok? then 1 else 0)
      ensures state == Mapping ==> r == Err(NewError(Message, 0)) && unchanged(this, output, buffer)
      decreases ItemSize(item), 3
    {
      hide ItemBytes;
      match state
      case DirectSequence =>
        r := SerializeItem(item, output);
      case BufferedSequence =>
        var _ :- SerializeItem(item, buffer);
        count := count + 1;
        return Ok(());
      case Mapping =>
        return Err(NewError(Message, 0));
    }

    /** A key goes to the end of the arena and waits for its value. */
    method SerializeKey(key: Item) returns (r: Result<()>)
      requires Valid()
      modifies this, buffer
      ensures Valid() && entries == old(entries) && Pairs() == old(Pairs())
      ensures state != Mapping || old(pendingKey).Some? ==> r == Err(NewError(Message, 0)) && unchanged(this, buffer)
      ensures state == Mapping && old(pendingKey).None? ==>
                Wrote(r, old(buffer.output), buffer.output, ItemBytes(key)) && whole == (old(whole) && r.Ok?)
                && pendingKey == (if r.Ok? then Some((|old(buffer.output)|, |buffer.output|)) else None)
      decreases ItemSize(key), 3
    {
      hide ItemBytes, PairsOf;
      if state != Mapping || pendingKey.Some? {
        return Err(NewError(Message, 0));
      }
      var start := |buffer.output|;
      r := SerializeItem(key, buffer);
      PairsOfLonger(old(buffer.output), buffer.output, entries);
      whole := whole && r.Ok?;
      if r.Ok? {
        pendingKey := Some((start, |buffer.output|));
      }
    }

    /** A value completes the entry of the pending key. */
    method SerializeValue(value: Item) returns (r: Result<()>)
      requires Valid()
      modifies this, buffer
      ensures Valid()
      ensures old(pendingKey).None? ==> r == Err(NewError(Message, 0)) && unchanged(this, buffer)
      ensures old(pendingKey).Some? ==>
                pendingKey == None && whole == (old(whole) && r.Ok?)
                && Wrote(r, old(buffer.output), buffer.output, ItemBytes(value))
                && Pairs() == (if r.Ok? then old(Pairs()) + [Pair(old(PendingBytes()), ItemBytes(value).value)] else old(Pairs()))
      decreases ItemSize(value), 3
    {
      hide ItemBytes, PairsOf;
      if pendingKey.None? {
        return Err(NewError(Message, 0));
      }
      var (keyStart, keyEnd) := pendingKey.value;
      pendingKey := None;
      var valueStart := |buffer.output|;
      r := SerializeItem(value, buffer);
      PairsOfLonger(old(buffer.output), buffer.output, entries);
      whole := whole && r.Ok?;
      if r.Ok? {
        var e := EncodedEntry(keyStart, keyEnd, valueStart, |buffer.output|);
        PairsOfAppend(buffer.output, entries, e);
        assert buffer.output[keyStart..keyEnd] == old(buffer.output)[keyStart..keyEnd];
        assert buffer.output[valueStart..|buffer.output|] == ItemBytes(value).value;
        entries := entries + [e];
      }
    }

    /** The bytes of the key that waits for its value. */
    function PendingBytes(): Buf
      requires pendingKey.Some? && pendingKey.value.0 <= pendingKey.value.1 <= |buffer.output|
      reads this, buffer
    {
      buffer.output[pendingKey.value.0..pendingKey.value.1]
    }

    /** If no call failed half-way, the arena is the finished entries and nothing else. */
    lemma NothingLost()
      requires Valid() && state == Mapping && whole && pendingKey == None
      ensures Join(Pairs()) == buffer.output
    {
      TilesJoin(buffer.output, entries);
    }

    /** `serialize_field` of a struct. */
    method SerializeField(key: Item, value: Item) returns (r: Result<()>)
      requires Valid() && state == Mapping && pendingKey == None
      modifies this, buffer
      ensures Valid() && pendingKey == None
      ensures match (ItemBytes(key), ItemBytes(value))
              case (Ok(k), Ok(v)) => r == Ok(()) && Pairs() == old(Pairs()) + [Pair(k, v)] && whole == old(whole)
              case (Err(e), _) => r == Err(e) && Pairs() == old(Pairs())
              case (_, Err(e)) => r == Err(e) && Pairs() == old(Pairs())
      decreases ItemSize(key) + ItemSize(value), 4
    {
      hide ItemBytes, PairsOf;
      var _ :- SerializeKey(key);
      assert PendingBytes() == ItemBytes(key).value;
      r := SerializeValue(value);
    }

    /** The head and the entries in the order of their keys, or the reason there is none; the scratch is left empty. */
    method Finish() returns (r: Result<()>)
      requires Valid()
      modifies output, if scratch == null then {} else {scratch}
      ensures state == DirectSequence ==> r == Ok(()) && output.output == old(output.output)
      ensures state == BufferedSequence ==>
                r == Ok(()) && output.output == old(output.output) + (LengthHead(4, count) + buffer.output)
      ensures state == Mapping && pendingKey.Some? ==>
                r == Err(NewError(Message, 0)) && output.output == old(output.output)
      ensures state == Mapping && pendingKey == None ==>
                Wrote(r, old(output.output), output.output, FinishMap(SortByKey(Pairs())))
      ensures scratch != null && state == Mapping ==> scratch.arena == [] && scratch.entries == []
    {
      hide PairsOf, LengthHead, SortByKey, HasDuplicate;
      match state
      case DirectSequence =>
        return Ok(());
      case BufferedSequence =>
        output.Array(count);
        output.WriteAll(buffer.output);
        WroteBoth(old(output.output), LengthHead(4, count), buffer.output, output.output);
        return Ok(());
      case Mapping =>
        if pendingKey.Some? {
          r := Err(NewError(Message, 0));
        } else {
          r := FinishEntries();
        }
        if scratch != null {
          scratch.arena, scratch.entries := [], [];
        }
    }

    method FinishEntries() returns (r: Result<()>)
      requires Valid() && state == Mapping && pendingKey == None
      modifies output
      ensures Wrote(r, old(output.output), output.output, FinishMap(SortByKey(Pairs())))
    {
      hide PairsOf, LengthHead, SortByKey, HasDuplicate, Join;
      var arena := buffer.output;
      var sorted := SortUnstable(arena, entries);
      AnySortServes(Pairs(), PairsOf(arena, sorted));
      if HasDuplicate(PairsOf(arena, sorted)) {
        return Err(NewError(DuplicateKey, 0));
      }
      output.Map(|sorted|);
      ghost var start := output.output;
      JoinNothing(arena, sorted);
      var i := 0;
      while i < |sorted|
        invariant i <= |sorted| && AllWithin(sorted[..i], |arena|)
        invariant output.output == start + Join(PairsOf(arena, sorted[..i]))
      {
        var e := sorted[i];
        output.WriteAll(arena[e.keyStart..e.keyEnd]);
        output.WriteAll(arena[e.valueStart..e.valueEnd]);
        JoinOneMore(arena, sorted, i, start);
        i := i + 1;
      }
      assert sorted[..i] == sorted;
      WroteBoth(old(output.output), LengthHead(5, |sorted|), Join(PairsOf(arena, sorted)), output.output);
      return Ok(());
    }
  }

  lemma JoinNothing(arena: Buf, es: seq<EncodedEntry>)
    ensures es[..0] == [] && Join(PairsOf(arena, [])) == []
  {
  }

  lemma JoinOneMore(arena: Buf, es: seq<EncodedEntry>, i: nat, start: Buf)
    requires i < |es| && AllWithin(es, |arena|)
    ensures var e := es[i];
            start + Join(PairsOf(arena, es[..i])) + arena[e.keyStart..e.keyEnd] + arena[e.valueStart..e.valueEnd]
            == start + Join(PairsOf(arena, es[..i + 1]))
  {
    hide PairsOf, Join;
    assert es[..i + 1] == es[..i] + [es[i]];
    PairsOfAppend(arena, es[..i], es[i]);
    JoinAppend(PairsOf(arena, es[..i]), PairOf(arena, es[i]));
  }

  // ----- serializing a value tree

  /** `write_float_preferred`. */
  method WriteFloatPreferred(bits: U64, out: Encoder)
    modifies out
    ensures out.output == old(out.output) + Floats.PreferredFloat(bits)
  {
    hide Floats.IsNaN, Floats.DoubleToSingle, Floats.SingleToDouble, Floats.FloatEq, Floats.ExactHalfOfDouble;
    if bits / Floats.P52 % 2048 != 2047 && bits % Floats.P29 != 0 {
      out.WriteAll([0xfb] + ToBE(bits, 8));
      return;
    }
    if Floats.IsNaN(bits) {
      out.WriteAll([0xf9, 0x7e, 0x00]);
      return;
    }
    if bits % Floats.P42 == 0 {
      var half := Floats.ExactHalfOfDouble(bits);
      if half.Some? {
        out.WriteAll([0xf9] + ToBE(half.value, 2));
        return;
      }
    }
    var narrowed := Floats.DoubleToSingle(bits);
    if Floats.FloatEq(Floats.SingleToDouble(narrowed), bits) {
      out.WriteAll([0xfa] + ToBE(narrowed, 4));
    } else {
      out.WriteAll([0xfb] + ToBE(bits, 8));
    }
  }

  method SerializeItem(item: Item, out: Encoder) returns (r: Result<()>)
    modifies out
    ensures Wrote(r, old(out.output), out.output, ItemBytes(item))
    decreases ItemSize(item), 2
  {
    hide Serialized;
    match item
    case OfValue(v) =>
      r := SerializeInto(v, out, null);
    case OfOther(written, failure) =>
      out.WriteAll(written);
      return if failure.Some? then Err(NewError(failure.value, 0)) else Ok(());
  }

  /** `Serialize for Value` over the deterministic serializer. */
  method SerializeInto(v: Value, out: Encoder, scratch: Scratch?) returns (r: Result<()>)
    modifies out, if scratch == null then {} else {scratch}
    ensures Wrote(r, old(out.output), out.output, Serialized(v))
    decreases Size(v), 1
  {
    hide LengthHead, HeadBytes, SortByKey, Floats.PreferredFloat, Bignum.I128Bytes;
    r := Ok(());
    match v {
      case Unsigned(n) => out.Head(0, n);
      case Negative(i) => Bignum.SerializeI128(out, i);
      case Bytes(s) => out.Bytes(s);
      case Text(s) => out.Text(s);
      case Array(vs) => r := SerializeArray(vs, out);
      case Map(es) => r := SerializeMap(es, out, scratch);
      case Bool(b) => out.WriteAll([if b then 0xf5 else 0xf4]);
      case Null => out.WriteAll([0xf6]);
      case Float(bits) => WriteFloatPreferred(bits, out);
      case _ =>
        var aside := new Encoder();
        var copied := aside.EncodeValue(v);
        r := Err(NewError(Message, 0));
        if copied.Err? {
          return;
        }
        r := Ok(());
        assert [] + Encode(v).value == Encode(v).value;
        out.WriteAll(aside.output);
    }
  }

  lemma SizeAt(vs: seq<Value>, i: nat)
    requires i < |vs|
    ensures Size(vs[i]) <= SizeAll(vs)
  {
    if i > 0 { SizeAt(vs[1..], i - 1); }
  }

  lemma SizeOfEntry(es: seq<Entry>, i: nat)
    requires i < |es|
    ensures Size(es[i].key) + Size(es[i].value) <= SizeEntries(es)
  {
    if i > 0 { SizeOfEntry(es[1..], i - 1); }
  }

  lemma SerializedAllStep(vs: seq<Value>, i: nat, done: Buf)
    requires i < |vs|
    ensures match Serialized(vs[i])
            case Ok(b) => Prepend(done, SerializedAll(vs[i..])) == Prepend(done + b, SerializedAll(vs[i + 1..]))
            case Err(e) => Prepend(done, SerializedAll(vs[i..])) == Err(e)
  {
    hide Serialized;
    assert vs[i..][0] == vs[i] && vs[i..][1..] == vs[i + 1..];
    var rest := SerializedAll(vs[i + 1..]);
    if Serialized(vs[i]).Ok? && rest.Ok? {
      assert done + (Serialized(vs[i]).value + rest.value) == done + Serialized(vs[i]).value + rest.value;
    }
  }

  lemma SerializedArray(vs: seq<Value>)
    ensures Serialized(Array(vs)) == Prepend(LengthHead(4, |vs|), SerializedAll(vs))
    ensures SerializedAll(vs) == Prepend([], SerializedAll(vs[0..])) && SerializedAll(vs[|vs|..]) == Ok([])
  {
    hide LengthHead;
    assert vs[0..] == vs;
    if SerializedAll(vs).Ok? { assert [] + SerializedAll(vs).value == SerializedAll(vs).value; }
  }

  method SerializeArray(vs: seq<Value>, out: Encoder) returns (r: Result<()>)
    modifies out
    ensures Wrote(r, old(out.output), out.output, Serialized(Array(vs)))
    decreases Size(Array(vs)), 0
  {
    hide LengthHead, Serialized, SerializedAll;
    SerializedArray(vs);
    var c := new DeterministicCompound.Sequence(out, Some(|vs|));
    ghost var start := out.output;
    assert out.output[|start|..] == [];
    var i := 0;
    while i < |vs|
      invariant i <= |vs| && start <= out.output && c.Valid() && fresh(c) && fresh(c.buffer)
      invariant SerializedAll(vs) == Prepend(out.output[|start|..], SerializedAll(vs[i..]))
    {
      ghost var before := out.output;
      SerializedAllStep(vs, i, before[|start|..]);
      SizeAt(vs, i);
      var _ :- c.SerializeElement(OfValue(vs[i]));
      assert out.output[|start|..] == before[|start|..] + Serialized(vs[i]).value;
      i := i + 1;
    }
    r := c.Finish();
    assert out.output == start + out.output[|start|..];
    WroteBoth(old(out.output), LengthHead(4, |vs|), out.output[|start|..], out.output);
  }

  lemma SerializedPairsStep(es: seq<Entry>, i: nat, done: seq<Pair>)
    requires i < |es|
    ensures match (Serialized(es[i].key), Serialized(es[i].value))
            case (Ok(k), Ok(v)) =>
              AfterPairs(done, SerializedPairs(es[i..])) == AfterPairs(done + [Pair(k, v)], SerializedPairs(es[i + 1..]))
            case (Err(e), _) => SerializedPairs(es[i..]) == Err(e)
            case (_, Err(e)) => SerializedPairs(es[i..]) == Err(e)
  {
    hide Serialized;
    assert es[i..][0] == es[i] && es[i..][1..] == es[i + 1..];
    var k, v, rest := Serialized(es[i].key), Serialized(es[i].value), SerializedPairs(es[i + 1..]);
    if k.Ok? && v.Ok? && rest.Ok? {
      assert done + ([Pair(k.value, v.value)] + rest.value) == done + [Pair(k.value, v.value)] + rest.value;
    }
  }

  lemma SerializedMap(es: seq<Entry>)
    ensures Serialized(Map(es)) == match SerializedPairs(es) case Ok(ps) => FinishMap(SortByKey(ps)) case Err(e) => Err(e)
    ensures SerializedPairs(es) == AfterPairs([], SerializedPairs(es[0..])) && SerializedPairs(es[|es|..]) == Ok([])
  {
    hide FinishMap, SortByKey;
    assert es[0..] == es;
    if SerializedPairs(es).Ok? { assert [] + SerializedPairs(es).value == SerializedPairs(es).value; }
  }

  method SerializeMap(es: seq<Entry>, out: Encoder, scratch: Scratch?) returns (r: Result<()>)
    modifies out, if scratch == null then {} else {scratch}
    ensures Wrote(r, old(out.output), out.output, Serialized(Map(es)))
    decreases Size(Map(es)), 0
  {
    hide Serialized, SerializedPairs, FinishMap, SortByKey, PairsOf;
    SerializedMap(es);
    var c := new DeterministicCompound.Map(out, Some(|es|), scratch);
    var i := 0;
    while i < |es|
      modifies c, c.buffer
      invariant i <= |es| && c.Valid() && fresh(c) && fresh(c.buffer) && c.pendingKey == None
      invariant SerializedPairs(es) == AfterPairs(c.Pairs(), SerializedPairs(es[i..]))
    {
      SerializedPairsStep(es, i, c.Pairs());
      SizeOfEntry(es, i);
      var _ :- c.SerializeField(OfValue(es[i].key), OfValue(es[i].value));
      i := i + 1;
    }
    assert c.Pairs() + [] == c.Pairs();
    r := c.Finish();
  }

  /** `to_vec_deterministic_impl`: on failure the output is empty. */
  method ToVecDeterministic(v: Value, output: Encoder, scratch: Scratch?) returns (r: Result<()>)
    modifies output, if scratch == null then {} else {scratch}
    ensures match Serialized(v)
            case Ok(b) => r == Ok(()) && output.output == b
            case Err(e) => r == Err(e) && output.output == []
  {
    hide Serialized;
    output.output := [];
    r := SerializeInto(v, output, scratch);
    if r.Err? {
      output.output := [];
    } else {
      assert [] + Serialized(v).value == Serialized(v).value;
    }
  }
}
