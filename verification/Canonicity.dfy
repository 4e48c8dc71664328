/** Canonicity: a value, up to the order of map entries, has one accepted deterministic encoding. */
module Canonicity {
  import opened Core
  import opened Values
  import opened Decoding
  import opened Encoding
  import opened Canonical
  import opened Deterministic

  /** Equality up to reordering map entries at every level; floats are compared by their bits. */
  ghost predicate Equivalent(a: Value, b: Value)
    decreases a
  {
    match (a, b)
    case (Array(vs), Array(ws)) => EquivalentAll(vs, ws)
    case (Map(es), Map(fs)) => EquivalentEntries(es, fs)
    case (Tag(t, v), Tag(u, w)) => t == u && Equivalent(v, w)
    case _ => a == b
  }

  ghost predicate EquivalentAll(vs: seq<Value>, ws: seq<Value>)
    decreases vs
  {
    |vs| == |ws| && (vs == [] || (Equivalent(vs[0], ws[0]) && EquivalentAll(vs[1..], ws[1..])))
  }

  /** Each entry on the left is matched with one on the right, and none is left over. */
  ghost predicate EquivalentEntries(es: seq<Entry>, fs: seq<Entry>)
    decreases es
  {
    if es == [] then fs == []
    else
      assert es decreases to es[0];
      exists j :: 0 <= j < |fs| && Equivalent(es[0].key, fs[j].key) && Equivalent(es[0].value, fs[j].value)
                  && EquivalentEntries(es[1..], Without(fs, j))
  }

  function Without<T>(s: seq<T>, j: nat): (r: seq<T>)
    requires j < |s|
    ensures |r| == |s| - 1
  {
    s[..j] + s[j + 1..]
  }

  lemma {:induction false} EquivalentToItself(v: Value)
    ensures Equivalent(v, v)
    decreases v, 0
  {
    match v {
      case Array(vs) => ListEquivalentToItself(vs);
      case Map(es) => EntriesEquivalentToThemselves(es);
      case Tag(_, w) => EquivalentToItself(w);
      case _ =>
    }
  }

  lemma {:induction false} ListEquivalentToItself(vs: seq<Value>)
    ensures EquivalentAll(vs, vs)
    decreases vs, 1
  {
    if vs != [] {
      EquivalentToItself(vs[0]);
      ListEquivalentToItself(vs[1..]);
    }
  }

  lemma {:induction false} EntriesEquivalentToThemselves(es: seq<Entry>)
    ensures EquivalentEntries(es, es)
    decreases es, 1
  {
    if es != [] {
      assert es decreases to es[0];
      EquivalentToItself(es[0].key);
      EquivalentToItself(es[0].value);
      EntriesEquivalentToThemselves(es[1..]);
      assert Without(es, 0) == es[1..];
    }
  }

  /** The canonical encoding forgets the order of map entries. */
  lemma {:induction false} EquivalentAreEncodedAlike(a: Value, b: Value)
    requires Equivalent(a, b) && Canon(true, a).Ok? && Canon(true, b).Ok?
    ensures Canon(true, a) == Canon(true, b)
    decreases a, 0
  {
    match (a, b) {
      case (Array(vs), Array(ws)) => EquivalentListsAlike(vs, ws);
      case (Map(es), Map(fs)) =>
        EquivalentEntriesAlike(es, fs);
        SortForgetsOrder(CanonPairs(true, es).value, CanonPairs(true, fs).value);
      case (Tag(_, v), Tag(_, w)) => EquivalentAreEncodedAlike(v, w);
      case _ =>
    }
  }

  lemma {:induction false} EquivalentListsAlike(vs: seq<Value>, ws: seq<Value>)
    requires EquivalentAll(vs, ws) && CanonAll(true, vs).Ok? && CanonAll(true, ws).Ok?
    ensures CanonAll(true, vs) == CanonAll(true, ws)
    decreases vs, 1
  {
    if vs != [] {
      EquivalentAreEncodedAlike(vs[0], ws[0]);
      EquivalentListsAlike(vs[1..], ws[1..]);
    }
  }

  lemma {:induction false} EquivalentEntriesAlike(es: seq<Entry>, fs: seq<Entry>)
    requires EquivalentEntries(es, fs) && CanonPairs(true, es).Ok? && CanonPairs(true, fs).Ok?
    ensures multiset(CanonPairs(true, es).value) == multiset(CanonPairs(true, fs).value)
    decreases es, 1
  {
    if es != [] {
      assert es decreases to es[0];
      var j :| 0 <= j < |fs| && Equivalent(es[0].key, fs[j].key) && Equivalent(es[0].value, fs[j].value)
               && EquivalentEntries(es[1..], Without(fs, j));
      PairsWithout(fs, j);
      EquivalentAreEncodedAlike(es[0].key, fs[j].key);
      EquivalentAreEncodedAlike(es[0].value, fs[j].value);
      EquivalentEntriesAlike(es[1..], Without(fs, j));
      assert CanonPair(true, es[0]) == CanonPair(true, fs[j]);
      assert CanonPairs(true, es).value == [CanonPair(true, es[0]).value] + CanonPairs(true, es[1..]).value;
    }
  }

  lemma {:induction false} PairsWithout(fs: seq<Entry>, j: nat)
    requires j < |fs| && CanonPairs(true, fs).Ok?
    ensures CanonPair(true, fs[j]).Ok? && CanonPairs(true, Without(fs, j)).Ok?
    ensures multiset(CanonPairs(true, fs).value)
            == multiset{CanonPair(true, fs[j]).value} + multiset(CanonPairs(true, Without(fs, j)).value)
    decreases fs
  {
    hide Canon, CanonPairs, CanonPair;
    assert fs == [fs[0]] + fs[1..];
    PairsCons(fs[0], fs[1..]);
    if j == 0 {
      assert Without(fs, 0) == fs[1..];
    } else {
      PairsWithout(fs[1..], j - 1);
      assert Without(fs, j) == [fs[0]] + Without(fs[1..], j - 1);
      PairsCons(fs[0], Without(fs[1..], j - 1));
    }
  }

  lemma PairsCons(e: Entry, es: seq<Entry>)
    ensures CanonPairs(true, [e] + es).Ok? <==> CanonPair(true, e).Ok? && CanonPairs(true, es).Ok?
    ensures CanonPairs(true, [e] + es).Ok? ==>
              CanonPairs(true, [e] + es).value == [CanonPair(true, e).value] + CanonPairs(true, es).value
  {
    hide Canon;
    assert ([e] + es)[1..] == es;
  }

  /**
    * Two inputs that both pass deterministic validation and decode to the same value, up to the order of map
    * entries, are the same bytes. Tags are included.
    */
  lemma AcceptedEncodingIsUnique(x: Buf, y: Buf)
    requires ValidateDeterministic(x).Ok? && ValidateDeterministic(y).Ok?
    ensures DecodeValue(x).Ok? && DecodeValue(y).Ok?
    ensures Equivalent(DecodeValue(x).value, DecodeValue(y).value) ==> x == y
  {
    hide Decode, Canon;
    ValidatorAcceptsFixedPoints(x);
    ValidatorAcceptsFixedPoints(y);
    if Equivalent(DecodeValue(x).value, DecodeValue(y).value) {
      EquivalentAreEncodedAlike(DecodeValue(x).value, DecodeValue(y).value);
    }
  }
}
