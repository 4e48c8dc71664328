/** Deterministic encoding: shortest heads and floats, map entries in the order of their encoded keys. */
module Canonical {
  import opened Core
  import opened Heads
  import opened Values
  import opened Encoding
  import Floats

  /** An encoded map entry. */
  datatype Pair = Pair(key: Buf, value: Buf)

  function InsertByKey(p: Pair, ps: seq<Pair>): (r: seq<Pair>) {
    if ps == [] || !Less(ps[0].key, p.key) then [p] + ps else [ps[0]] + InsertByKey(p, ps[1..])
  }

  /** `entries.sort_by(|a, b| a.0.cmp(&b.0))`: stable. */
  function SortByKey(ps: seq<Pair>): (r: seq<Pair>) {
    if ps == [] then [] else InsertByKey(ps[0], SortByKey(ps[1..]))
  }

  /** `windows(2).any(|pair| pair[0].0 == pair[1].0)`. */
  predicate HasDuplicate(ps: seq<Pair>) {
    |ps| >= 2 && (ps[0].key == ps[1].key || HasDuplicate(ps[1..]))
  }

  /** All pairs, keys and values in turn. */
  function Join(ps: seq<Pair>): (b: Buf) {
    if ps == [] then [] else ps[0].key + ps[0].value + Join(ps[1..])
  }

  /**
    * The deterministic encoding of `v`. The library's `encode_deterministic` copies the inside of a tag with
    * plain `Value::encode` and is `Canon(false, v)`; `Canon(true, v)` is deterministic inside tags as well.
    */
  function Canon(deep: bool, v: Value): (r: Result<Buf>) {
    match v
    case Array(vs) =>
      var body :- CanonAll(deep, vs);
      Ok(LengthHead(4, |vs|) + body)
    case Map(es) =>
      var ps :- CanonPairs(deep, es);
      FinishMap(SortByKey(ps))
    case Tag(t, w) =>
      if deep then
        var body :- Canon(deep, w);
        Ok(HeadBytes(6, t) + body)
      else Encode(v)
    case Float(bits) => Ok(Floats.PreferredFloat(bits))
    case _ => Encode(v)
  }

  function FinishMap(sorted: seq<Pair>): (r: Result<Buf>) {
    if HasDuplicate(sorted) then Err(NewError(DuplicateKey, 0)) else Ok(LengthHead(5, |sorted|) + Join(sorted))
  }

  /** The pairs when `done` are finished and `rest` is still to come. */
  function AfterPairs(done: seq<Pair>, rest: Result<seq<Pair>>): Result<seq<Pair>> {
    match rest case Ok(more) => Ok(done + more) case Err(e) => Err(e)
  }

  function CanonAll(deep: bool, vs: seq<Value>): (r: Result<Buf>) {
    if vs == [] then Ok([]) else
    var first :- Canon(deep, vs[0]);
    var rest :- CanonAll(deep, vs[1..]);
    Ok(first + rest)
  }

  function CanonPairs(deep: bool, es: seq<Entry>): (r: Result<seq<Pair>>)
    ensures r.Ok? ==> |r.value| == |es|
  {
    if es == [] then Ok([]) else
    var first :- CanonPair(deep, es[0]);
    var rest :- CanonPairs(deep, es[1..]);
    Ok([first] + rest)
  }

  function CanonPair(deep: bool, e: Entry): (r: Result<Pair>) {
    var key :- Canon(deep, e.key);
    var value :- Canon(deep, e.value);
    Ok(Pair(key, value))
  }

  /** `encode_deterministic`. */
  function EncodeDeterministic(v: Value): Result<Buf> { Canon(false, v) }

  // ----- values whose maps are in order

  /** Every map lists its entries with strictly increasing encoded keys. */
  predicate InOrder(v: Value) {
    match v
    case Array(vs) => InOrderAll(vs)
    case Map(es) => InOrderEntries(es) && CanonPairs(true, es).Ok? && Ascending(None, CanonPairs(true, es).value)
    case Tag(_, w) => InOrder(w)
    case _ => true
  }

  predicate InOrderAll(vs: seq<Value>) {
    vs == [] || (InOrder(vs[0]) && InOrderAll(vs[1..]))
  }

  predicate InOrderEntries(es: seq<Entry>) {
    es == [] ||
    (assert es decreases to es[0];
     InOrder(es[0].key) && InOrder(es[0].value) && InOrderEntries(es[1..]))
  }

  // ----- sorting

  /** Keys strictly increase, starting above `previous`. */
  predicate Ascending(previous: Option<Buf>, ps: seq<Pair>)
    decreases ps
  {
    ps == [] || ((previous.Some? ==> Less(previous.value, ps[0].key)) && Ascending(Some(ps[0].key), ps[1..]))
  }

  predicate NonDescending(ps: seq<Pair>) {
    |ps| < 2 || (!Less(ps[1].key, ps[0].key) && NonDescending(ps[1..]))
  }

  lemma {:induction false} InsertSorts(p: Pair, ps: seq<Pair>)
    requires NonDescending(ps)
    ensures NonDescending(InsertByKey(p, ps)) && multiset(InsertByKey(p, ps)) == multiset{p} + multiset(ps)
  {
    if ps == [] || !Less(ps[0].key, p.key) {
      assert ([p] + ps)[1..] == ps;
    } else {
      InsertSorts(p, ps[1..]);
      var r := InsertByKey(p, ps[1..]);
      assert ([ps[0]] + r)[1..] == r;
      assert ps == [ps[0]] + ps[1..];
      LessTrichotomy(p.key, ps[0].key);
    }
  }

  /** Sorting loses, adds and duplicates nothing. */
  lemma {:induction false} SortSorts(ps: seq<Pair>)
    ensures NonDescending(SortByKey(ps)) && multiset(SortByKey(ps)) == multiset(ps) && |SortByKey(ps)| == |ps|
  {
    if ps != [] {
      SortSorts(ps[1..]);
      InsertSorts(ps[0], SortByKey(ps[1..]));
      assert ps == [ps[0]] + ps[1..];
      SameSize(SortByKey(ps), ps);
    }
  }

  lemma {:induction false} DistinctIsAscending(previous: Option<Buf>, ps: seq<Pair>)
    requires NonDescending(ps) && !HasDuplicate(ps) && (previous.Some? && ps != [] ==> Less(previous.value, ps[0].key))
    ensures Ascending(previous, ps)
    decreases ps
  {
    if |ps| >= 2 {
      LessTrichotomy(ps[0].key, ps[1].key);
      DistinctIsAscending(Some(ps[0].key), ps[1..]);
    }
  }

  /** What is in order already, sorting leaves alone. */
  lemma {:induction false} AscendingIsSorted(previous: Option<Buf>, ps: seq<Pair>)
    requires Ascending(previous, ps)
    ensures SortByKey(ps) == ps && !HasDuplicate(ps)
    decreases ps
  {
    if ps != [] {
      AscendingIsSorted(Some(ps[0].key), ps[1..]);
      assert ps == [ps[0]] + ps[1..];
      if |ps| >= 2 { LessTrichotomy(ps[0].key, ps[1].key); }
    }
  }

  lemma {:induction false} AboveHead(previous: Option<Buf>, ps: seq<Pair>, i: nat)
    requires Ascending(previous, ps) && 0 < i < |ps|
    ensures Less(ps[0].key, ps[i].key)
    decreases ps
  {
    if i > 1 {
      AboveHead(Some(ps[0].key), ps[1..], i - 1);
      LessTransitive(ps[0].key, ps[1].key, ps[i].key);
    }
  }

  /** There is one strictly increasing arrangement of given pairs. */
  lemma {:induction false} AscendingUnique(p: Option<Buf>, q: Option<Buf>, ps: seq<Pair>, qs: seq<Pair>)
    requires Ascending(p, ps) && Ascending(q, qs) && multiset(ps) == multiset(qs)
    ensures ps == qs
    decreases ps
  {
    SameSize(ps, qs);
    if ps != [] {
      HeadIsLeast(p, q, ps, qs);
      TailOfMultiset(ps, qs);
      AscendingUnique(Some(ps[0].key), Some(qs[0].key), ps[1..], qs[1..]);
    }
  }

  lemma HeadIsLeast(p: Option<Buf>, q: Option<Buf>, ps: seq<Pair>, qs: seq<Pair>)
    requires Ascending(p, ps) && Ascending(q, qs) && multiset(ps) == multiset(qs) && ps != [] && qs != []
    ensures ps[0] == qs[0]
  {
    assert ps[0] in multiset(qs) && qs[0] in multiset(ps);
    var i :| 0 <= i < |ps| && ps[i] == qs[0];
    var j :| 0 <= j < |qs| && qs[j] == ps[0];
    if i > 0 && j > 0 {
      AboveHead(p, ps, i);
      AboveHead(q, qs, j);
      LessTrichotomy(ps[0].key, qs[0].key);
    }
  }

  /** Sorting forgets the original order. */
  lemma SortForgetsOrder(ps: seq<Pair>, qs: seq<Pair>)
    requires multiset(ps) == multiset(qs) && !HasDuplicate(SortByKey(ps)) && !HasDuplicate(SortByKey(qs))
    ensures SortByKey(ps) == SortByKey(qs)
  {
    SortSorts(ps);
    SortSorts(qs);
    DistinctIsAscending(None, SortByKey(ps));
    DistinctIsAscending(None, SortByKey(qs));
    AscendingUnique(None, None, SortByKey(ps), SortByKey(qs));
  }
}
