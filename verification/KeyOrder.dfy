/** The order of encoded keys: bytewise, position by position, and what it means for integers and strings. */
module KeyOrder {
  import opened Core
  import opened Heads
  import opened Values
  import opened Encoding
  import opened Canonical
  import Utf8

  /** At position `k` the first difference, or the end of `a` where `b` goes on. */
  predicate DiffersAt(a: Buf, b: Buf, k: nat) {
    k <= |a| && k < |b| && a[..k] == b[..k] && (k == |a| || a[k] < b[k])
  }

  /** `Less` is the order of byte slices: the smaller byte at the first difference, or a proper prefix. */
  lemma {:induction false} LessIsLexicographic(a: Buf, b: Buf)
    ensures Less(a, b) <==> exists k: nat :: DiffersAt(a, b, k)
    decreases a
  {
    if Less(a, b) {
      var k := FirstDifference(a, b);
      assert DiffersAt(a, b, k);
    }
    if k: nat :| DiffersAt(a, b, k) {
      DifferenceDecides(a, b, k);
    }
  }

  lemma {:induction false} FirstDifference(a: Buf, b: Buf) returns (k: nat)
    requires Less(a, b)
    ensures DiffersAt(a, b, k)
    decreases a
  {
    if a == [] || a[0] < b[0] {
      k := 0;
    } else {
      var j := FirstDifference(a[1..], b[1..]);
      k := j + 1;
      assert a[..k] == [a[0]] + a[1..][..j] && b[..k] == [b[0]] + b[1..][..j];
    }
  }

  lemma {:induction false} DifferenceDecides(a: Buf, b: Buf, k: nat)
    requires DiffersAt(a, b, k)
    ensures Less(a, b)
    decreases k
  {
    if k > 0 {
      assert a[0] == a[..k][0] && b[0] == b[..k][0];
      assert a[1..][..k - 1] == a[..k][1..] && b[1..][..k - 1] == b[..k][1..];
      DifferenceDecides(a[1..], b[1..], k - 1);
    }
  }

  // ----- bytes that differ before either ends

  /** `a` is smaller at a position that both have, so whatever follows. */
  ghost predicate Apart(a: Buf, b: Buf) {
    exists k: nat :: k < |a| && DiffersAt(a, b, k)
  }

  lemma ApartIsLess(a: Buf, b: Buf, x: Buf, y: Buf)
    requires Apart(a, b)
    ensures Less(a + x, b + y) && Apart(a + x, b + y)
  {
    var k: nat :| k < |a| && DiffersAt(a, b, k);
    assert (a + x)[..k] == a[..k] && (b + y)[..k] == b[..k];
    assert DiffersAt(a + x, b + y, k);
    DifferenceDecides(a + x, b + y, k);
  }

  lemma ApartAfter(p: Buf, a: Buf, b: Buf)
    requires Apart(a, b)
    ensures Apart(p + a, p + b)
  {
    var k: nat :| k < |a| && DiffersAt(a, b, k);
    assert (p + a)[..|p| + k] == p + a[..k] && (p + b)[..|p| + k] == p + b[..k];
    assert DiffersAt(p + a, p + b, |p| + k);
  }

  lemma ApartAtOnce(a: Buf, b: Buf)
    requires a != [] && b != [] && a[0] < b[0]
    ensures Apart(a, b)
  {
    assert a[..0] == b[..0];
    assert DiffersAt(a, b, 0);
  }

  lemma {:induction false} LessAfter(p: Buf, a: Buf, b: Buf)
    ensures Less(p + a, p + b) <==> Less(a, b)
    decreases p
  {
    if p == [] {
      assert p + a == a && p + b == b;
    } else {
      assert (p + a)[1..] == p[1..] + a && (p + b)[1..] == p[1..] + b;
      LessAfter(p[1..], a, b);
    }
  }

  // ----- heads

  /** Big-endian numbers of one width are ordered as numbers. */
  lemma {:induction false} NumbersAscend(m: nat, n: nat, w: nat)
    requires m < n < Pow256(w)
    ensures Apart(ToBE(m, w), ToBE(n, w))
    decreases w
  {
    var a, b := ToBE(m / 256, w - 1), ToBE(n / 256, w - 1);
    if m / 256 < n / 256 {
      NumbersAscend(m / 256, n / 256, w - 1);
      ApartIsLess(a, b, [m % 256], [n % 256]);
    } else {
      ApartAtOnce([m % 256], [n % 256]);
      ApartAfter(a, [m % 256], [n % 256]);
    }
  }

  /** Heads are ordered by major type, and then by argument. */
  lemma HeadsAscend(major: nat, m: U64, other: nat, n: U64)
    requires major < 8 && other < 8 && (major < other || (major == other && m < n))
    ensures Apart(HeadBytes(major, m), HeadBytes(other, n))
  {
    hide ToBE;
    HeadShape(major, m);
    HeadShape(other, n);
    var a, b := HeadBytes(major, m), HeadBytes(other, n);
    var v, w := PreferredWidth(m), PreferredWidth(n);
    if major < other || v != w || w == 0 {
      HeadShapeOrder(major, m, other, n);
      ApartAtOnce(a, b);
    } else {
      Pow256Values();
      NumbersAscend(m, n, w);
      ApartAfter([a[0]], ToBE(m, w), ToBE(n, w));
    }
  }

  lemma HeadShapeOrder(major: nat, m: U64, other: nat, n: U64)
    requires major < 8 && other < 8 && (major < other || (major == other && m < n))
    requires major < other || PreferredWidth(m) != PreferredWidth(n) || PreferredWidth(n) == 0
    ensures HeadBytes(major, m)[0] < HeadBytes(other, n)[0]
  {
    hide ToBE;
  }

  // ----- keys

  /** Integer keys ascend by size, and all naturals come before all negative integers. */
  lemma IntegerKeysAscend(m: U64, n: U64)
    ensures Less(HeadBytes(0, m), HeadBytes(0, n)) <==> m < n
    ensures Less(HeadBytes(1, m), HeadBytes(1, n)) <==> m < n
    ensures Less(HeadBytes(0, m), HeadBytes(1, n))
  {
    hide HeadBytes, Less;
    HeadsAreLess(0, m, 1, n);
    for major := 0 to 2
      invariant forall i :: 0 <= i < major ==> (Less(HeadBytes(i, m), HeadBytes(i, n)) <==> m < n)
    {
      if m < n { HeadsAreLess(major, m, major, n); }
      if n < m { HeadsAreLess(major, n, major, m); }
      LessTrichotomy(HeadBytes(major, m), HeadBytes(major, n));
    }
  }

  lemma HeadsAreLess(major: nat, m: U64, other: nat, n: U64)
    requires major < 8 && other < 8 && (major < other || (major == other && m < n))
    ensures Less(HeadBytes(major, m), HeadBytes(other, n))
  {
    var a, b := HeadBytes(major, m), HeadBytes(other, n);
    HeadsAscend(major, m, other, n);
    ApartIsLess(a, b, [], []);
    assert a + [] == a && b + [] == b;
  }

  /** String keys ascend by length, and strings of one length bytewise. */
  lemma StringKeysAscend(major: nat, s: Buf, t: Buf)
    requires 2 <= major <= 3 && |s| < USIZE_LIMIT && |t| < USIZE_LIMIT
    ensures Less(LengthHead(major, |s|) + s, LengthHead(major, |t|) + t) <==> |s| < |t| || (|s| == |t| && Less(s, t))
  {
    hide HeadBytes, LengthHead, Less, Apart;
    LengthHeadIsExact(major, |s|);
    LengthHeadIsExact(major, |t|);
    if |s| == |t| {
      LessAfter(LengthHead(major, |s|), s, t);
    } else if |s| < |t| {
      HeadsAscend(major, |s|, major, |t|);
      ApartIsLess(HeadBytes(major, |s|), HeadBytes(major, |t|), s, t);
    } else {
      HeadsAscend(major, |t|, major, |s|);
      ApartIsLess(HeadBytes(major, |t|), HeadBytes(major, |s|), t, s);
      LessTrichotomy(LengthHead(major, |s|) + s, LengthHead(major, |t|) + t);
    }
  }

  /** Keys that are naturals in increasing order. */
  predicate NaturalKeys(es: seq<Entry>) {
    forall i :: 0 <= i < |es| ==> es[i].key.Unsigned? && (i > 0 ==> es[i - 1].key.Unsigned? && es[i - 1].key.n < es[i].key.n)
  }

  /** A map with natural keys in increasing order is encoded in that order by the deterministic encoder. */
  lemma NaturalKeysStay(es: seq<Entry>)
    requires NaturalKeys(es) && CanonPairs(false, es).Ok?
    ensures EncodeDeterministic(Map(es)) == Ok(LengthHead(5, |es|) + Join(CanonPairs(false, es).value))
  {
    hide LengthHead;
    NaturalKeysAscend(None, es);
    AscendingIsSorted(None, CanonPairs(false, es).value);
  }

  lemma {:induction false} NaturalKeysAscend(previous: Option<U64>, es: seq<Entry>)
    requires NaturalKeys(es) && CanonPairs(false, es).Ok? && (previous.Some? && es != [] ==> previous.value < es[0].key.n)
    ensures Ascending(if previous.Some? then Some(HeadBytes(0, previous.value)) else None, CanonPairs(false, es).value)
    decreases es
  {
    hide HeadBytes, Less;
    if es != [] {
      var ps := CanonPairs(false, es).value;
      assert Canon(false, es[0].key) == Ok(HeadBytes(0, es[0].key.n));
      assert ps[0] == CanonPair(false, es[0]).value;
      if previous.Some? { HeadsAreLess(0, previous.value, 0, es[0].key.n); }
      NaturalKeysAscend(Some(es[0].key.n), es[1..]);
      assert ps[1..] == CanonPairs(false, es[1..]).value;
    }
  }

  // ----- duplicate keys

  predicate HasKey(ps: seq<Pair>, key: Buf) {
    exists i :: 0 <= i < |ps| && ps[i].key == key
  }

  /** No key occurs twice. */
  predicate Distinct(ps: seq<Pair>) {
    forall i, j :: 0 <= i < j < |ps| ==> ps[i].key != ps[j].key
  }

  lemma DistinctCons(p: Pair, ps: seq<Pair>)
    ensures Distinct([p] + ps) <==> !HasKey(ps, p.key) && Distinct(ps)
  {
    hide Distinct, HasKey;
    if Distinct([p] + ps) { DistinctParts(p, ps); }
    if !HasKey(ps, p.key) && Distinct(ps) { DistinctWhole(p, ps); }
  }

  lemma DistinctParts(p: Pair, ps: seq<Pair>)
    requires Distinct([p] + ps)
    ensures !HasKey(ps, p.key) && Distinct(ps)
  {
    var all := [p] + ps;
    forall i, j | 0 <= i < j < |ps| ensures ps[i].key != ps[j].key {
      assert all[i + 1] == ps[i] && all[j + 1] == ps[j];
    }
    forall i | 0 <= i < |ps| ensures ps[i].key != p.key {
      assert all[0] == p && all[i + 1] == ps[i];
    }
  }

  lemma DistinctWhole(p: Pair, ps: seq<Pair>)
    requires !HasKey(ps, p.key) && Distinct(ps)
    ensures Distinct([p] + ps)
  {
    var all := [p] + ps;
    forall i, j | 0 <= i < j < |all| ensures all[i].key != all[j].key {
      assert all[j] == ps[j - 1];
      if i > 0 { assert all[i] == ps[i - 1]; }
    }
  }

  lemma HasKeyCons(p: Pair, ps: seq<Pair>, key: Buf)
    ensures HasKey([p] + ps, key) <==> p.key == key || HasKey(ps, key)
  {
    var all := [p] + ps;
    assert forall i :: 0 <= i < |ps| ==> all[i + 1] == ps[i];
    if HasKey(ps, key) {
      var i :| 0 <= i < |ps| && ps[i].key == key;
      assert all[i + 1].key == key;
    }
    assert all[0] == p;
  }

  lemma {:induction false} InsertKeepsKeys(p: Pair, ps: seq<Pair>, key: Buf)
    ensures HasKey(InsertByKey(p, ps), key) <==> p.key == key || HasKey(ps, key)
    ensures Distinct(InsertByKey(p, ps)) <==> !HasKey(ps, p.key) && Distinct(ps)
    decreases ps
  {
    hide HasKey, Distinct, Less;
    if ps == [] || !Less(ps[0].key, p.key) {
      DistinctCons(p, ps);
      HasKeyCons(p, ps, key);
    } else {
      var rest := InsertByKey(p, ps[1..]);
      assert ps == [ps[0]] + ps[1..];
      InsertKeepsKeys(p, ps[1..], key);
      InsertKeepsKeys(p, ps[1..], ps[0].key);
      HasKeyCons(ps[0], ps[1..], key);
      HasKeyCons(ps[0], ps[1..], p.key);
      HasKeyCons(ps[0], rest, key);
      DistinctCons(ps[0], ps[1..]);
      DistinctCons(ps[0], rest);
    }
  }

  lemma {:induction false} SortKeepsKeys(ps: seq<Pair>, key: Buf)
    ensures HasKey(SortByKey(ps), key) <==> HasKey(ps, key)
    ensures Distinct(SortByKey(ps)) <==> Distinct(ps)
    decreases ps
  {
    hide InsertByKey;
    if ps != [] {
      hide HasKey, Distinct;
      assert ps == [ps[0]] + ps[1..];
      SortKeepsKeys(ps[1..], key);
      SortKeepsKeys(ps[1..], ps[0].key);
      InsertKeepsKeys(ps[0], SortByKey(ps[1..]), key);
      HasKeyCons(ps[0], ps[1..], key);
      DistinctCons(ps[0], ps[1..]);
    }
  }

  lemma {:induction false} NeighboursRepeat(ps: seq<Pair>)
    requires HasDuplicate(ps)
    ensures !Distinct(ps)
    decreases ps
  {
    if ps[0].key != ps[1].key {
      NeighboursRepeat(ps[1..]);
      DistinctCons(ps[0], ps[1..]);
      assert ps == [ps[0]] + ps[1..];
    }
  }

  lemma {:induction false} AscendingIsDistinct(previous: Option<Buf>, ps: seq<Pair>)
    requires Ascending(previous, ps)
    ensures Distinct(ps)
    decreases ps
  {
    if ps != [] {
      AscendingIsDistinct(Some(ps[0].key), ps[1..]);
      forall i | 0 <= i < |ps[1..]| ensures ps[1..][i].key != ps[0].key {
        AboveHead(previous, ps, i + 1);
        LessIrreflexive(ps[0].key);
      }
      DistinctCons(ps[0], ps[1..]);
      assert ps == [ps[0]] + ps[1..];
    }
  }

  /** The deterministic encoders refuse a map, with `DuplicateKey`, exactly when two of its encoded keys are equal. */
  lemma DuplicateKeysAreRefused(deep: bool, es: seq<Entry>)
    requires CanonPairs(deep, es).Ok?
    ensures Canon(deep, Map(es)).Ok? <==> Distinct(CanonPairs(deep, es).value)
    ensures Canon(deep, Map(es)).Err? ==> Canon(deep, Map(es)) == Err(NewError(DuplicateKey, 0))
  {
    hide Distinct, SortByKey, LengthHead, Less;
    var ps := CanonPairs(deep, es).value;
    var sorted := SortByKey(ps);
    SortKeepsKeys(ps, []);
    SortSorts(ps);
    if HasDuplicate(sorted) {
      NeighboursRepeat(sorted);
    } else {
      DistinctIsAscending(None, sorted);
      AscendingIsDistinct(None, sorted);
    }
  }
}
