/** Parallel decoding of a sequence: src/parallel.rs. Tasks may finish in any order. */
module Parallel {
  import opened Core
  import opened Skipping
  import opened SliceDecoders
  import opened Sequences

  // ----- decoding one item after another

  /** The values of the items, or the error of the first item that fails, which carries its index. */
  function DecodeItems<T>(decode: Buf -> Result<T>, items: seq<Buf>, index: nat): (r: Result<seq<T>>) {
    if items == [] then Ok([]) else
    match decode(items[0])
    case Err(e) => Err(WithItem(e, index))
    case Ok(v) =>
      var rest :- DecodeItems(decode, items[1..], index + 1);
      Ok([v] + rest)
  }

  /** What sequential decoding gives: an item without a boundary comes before any item that does not decode. */
  function Sequential<T>(decode: Buf -> Result<T>, input: Buf): Result<seq<T>> {
    var (items, error) := Split(STRUCTURAL, DEFAULT_OPTIONS, input, 0, 0);
    if error.Some? then Err(error.value) else DecodeItems(decode, items, 0)
  }

  /** An error of the items is that of the lowest failing index, and there is none if no item fails. */
  lemma {:induction false} LowestFailure<T>(decode: Buf -> Result<T>, items: seq<Buf>, index: nat)
    ensures match DecodeItems(decode, items, index)
            case Ok(vs) => |vs| == |items| && forall i :: 0 <= i < |items| ==> decode(items[i]) == Ok(vs[i])
            case Err(e) =>
              e.item.Some? && index <= e.item.value < index + |items|
              && (var k := e.item.value - index;
                  decode(items[k]).Err? && e == WithItem(decode(items[k]).error, e.item.value)
                  && forall i :: 0 <= i < k ==> decode(items[i]).Ok?)
    decreases items
  {
    if items != [] && decode(items[0]).Ok? {
      LowestFailure(decode, items[1..], index + 1);
    }
  }

  /** The result is `vs` exactly when the whole input is items that decode, in wire order, to those values. */
  lemma SequentialSucceeds<T>(decode: Buf -> Result<T>, input: Buf, vs: seq<T>)
    ensures Sequential(decode, input) == Ok(vs) <==>
              exists items: seq<Buf> ::
                Sequences.Items(STRUCTURAL, DEFAULT_OPTIONS, input, 0, items) && Concat(items) == input && Decoded(decode, items, vs)
  {
    hide Skip, Split, DecodeItems, Sequences.Items, Concat;
    var (items, error) := Split(STRUCTURAL, DEFAULT_OPTIONS, input, 0, 0);
    if Sequential(decode, input) == Ok(vs) {
      LowestFailure(decode, items, 0);
      SplitsWhole(STRUCTURAL, DEFAULT_OPTIONS, input, 0, 0, items);
      ItemsPartition(STRUCTURAL, DEFAULT_OPTIONS, input, 0, 0);
      WholeSlice(input, Concat(items));
      assert Decoded(decode, items, vs);
    }
    if all: seq<Buf> :| Sequences.Items(STRUCTURAL, DEFAULT_OPTIONS, input, 0, all) && Concat(all) == input && Decoded(decode, all, vs) {
      SplitsWhole(STRUCTURAL, DEFAULT_OPTIONS, input, 0, 0, all);
      LowestFailure(decode, all, 0);
      SameValues(decode, all, vs);
    }
  }

  predicate Decoded<T(==)>(decode: Buf -> Result<T>, items: seq<Buf>, vs: seq<T>) {
    |items| == |vs| && forall i :: 0 <= i < |items| ==> decode(items[i]) == Ok(vs[i])
  }

  lemma WholeSlice(input: Buf, part: Buf)
    requires At(input, 0, part) && |part| == |input|
    ensures part == input
  {
  }

  lemma SameValues<T>(decode: Buf -> Result<T>, items: seq<Buf>, vs: seq<T>)
    requires Decoded(decode, items, vs)
    ensures DecodeItems(decode, items, 0) == Ok(vs)
  {
    hide DecodeItems;
    LowestFailure(decode, items, 0);
    var r := DecodeItems(decode, items, 0);
    if r.Ok? {
      forall i | 0 <= i < |vs| ensures r.value[i] == vs[i] {
        assert decode(items[i]) == Ok(r.value[i]) == Ok(vs[i]);
      }
      assert r.value == vs;
    }
  }

  /** Where skipping fails after some items, the result is that error with their number, whatever they decode to. */
  lemma BoundaryErrorWins<T>(decode: Buf -> Result<T>, input: Buf, items: seq<Buf>, e: Error)
    requires Sequences.Items(STRUCTURAL, DEFAULT_OPTIONS, input, 0, items)
    requires |Concat(items)| < |input| && Skip(STRUCTURAL, DEFAULT_OPTIONS, input, |Concat(items)|, 0) == Fail(e)
    ensures Sequential(decode, input) == Err(WithItem(e, |items|))
  {
    hide Skip, Split, DecodeItems, Sequences.Items, Concat;
    SplitsUpToFailure(STRUCTURAL, DEFAULT_OPTIONS, input, 0, 0, items, e);
  }

  /** Where all boundaries are found, the result is the error of the first item that does not decode. */
  lemma FirstItemErrorWins<T>(decode: Buf -> Result<T>, input: Buf, items: seq<Buf>, k: nat)
    requires Sequences.Items(STRUCTURAL, DEFAULT_OPTIONS, input, 0, items) && Concat(items) == input
    requires k < |items| && decode(items[k]).Err? && forall i :: 0 <= i < k ==> decode(items[i]).Ok?
    ensures Sequential(decode, input) == Err(WithItem(decode(items[k]).error, k))
  {
    hide Skip, Split, DecodeItems, Sequences.Items, Concat;
    SplitsWhole(STRUCTURAL, DEFAULT_OPTIONS, input, 0, 0, items);
    LowestFailure(decode, items, 0);
    var r := DecodeItems(decode, items, 0);
    assert decode(items[k]).Err?;
    assert r.Err?;
    assert decode(items[r.error.item.value]).Err?;
  }

  function Append<T>(a: Result<seq<T>>, b: Result<seq<T>>): Result<seq<T>> {
    if a.Err? then a else if b.Err? then b else Ok(a.value + b.value)
  }

  lemma {:induction false} DecodeConcat<T>(decode: Buf -> Result<T>, a: seq<Buf>, b: seq<Buf>, index: nat)
    ensures DecodeItems(decode, a + b, index) == Append(DecodeItems(decode, a, index), DecodeItems(decode, b, index + |a|))
    decreases a
  {
    if a == [] {
      assert a + b == b;
      if DecodeItems(decode, b, index).Ok? { assert [] + DecodeItems(decode, b, index).value == DecodeItems(decode, b, index).value; }
    } else {
      assert (a + b)[0] == a[0] && (a + b)[1..] == a[1..] + b;
      DecodeConcat(decode, a[1..], b, index + 1);
      var first, rest, more := decode(a[0]), DecodeItems(decode, a[1..], index + 1), DecodeItems(decode, b, index + |a|);
      if first.Ok? && rest.Ok? && more.Ok? {
        assert [first.value] + (rest.value + more.value) == [first.value] + rest.value + more.value;
      }
    }
  }

  // ----- tasks and their replies

  datatype Task = Task(start: nat, items: seq<Buf>)
  datatype Reply<+T> = Reply(start: nat, values: Result<seq<T>>)

  function Run<T>(decode: Buf -> Result<T>, task: Task): Reply<T> {
    Reply(task.start, DecodeItems(decode, task.items, task.start))
  }

  function Replies<T>(decode: Buf -> Result<T>, tasks: seq<Task>): (ms: seq<Reply<T>>)
    ensures |ms| == |tasks|
  {
    if tasks == [] then [] else [Run(decode, tasks[0])] + Replies(decode, tasks[1..])
  }

  /** The tasks hold the items from `start` on, one chunk after another, none of them empty. */
  predicate Consecutive(tasks: seq<Task>, start: nat)
    decreases tasks
  {
    tasks == [] || (tasks[0].start == start && tasks[0].items != [] && Consecutive(tasks[1..], start + |tasks[0].items|))
  }

  function Items(tasks: seq<Task>): seq<Buf> {
    if tasks == [] then [] else tasks[0].items + Items(tasks[1..])
  }

  lemma RepliesCons<T>(decode: Buf -> Result<T>, t: Task, tasks: seq<Task>)
    ensures Replies(decode, [t] + tasks) == [Run(decode, t)] + Replies(decode, tasks)
  {
    hide DecodeItems;
    assert ([t] + tasks)[1..] == tasks;
  }

  lemma PrependSwap<T>(x: T, a: seq<T>, y: T, b: seq<T>)
    requires multiset(a) == multiset{y} + multiset(b)
    ensures multiset([x] + a) == multiset{y} + multiset([x] + b)
  {
  }

  lemma {:induction false} RepliesSwap<T>(decode: Buf -> Result<T>, tasks: seq<Task>, k: nat)
    requires k < |tasks|
    ensures multiset(Replies(decode, tasks)) == multiset{Run(decode, tasks[k])} + multiset(Replies(decode, tasks[..k] + tasks[k + 1..]))
    decreases tasks
  {
    hide Replies, Run;
    assert tasks == [tasks[0]] + tasks[1..];
    RepliesCons(decode, tasks[0], tasks[1..]);
    if k == 0 {
      assert tasks[..0] + tasks[1..] == tasks[1..];
    } else {
      RepliesSwap(decode, tasks[1..], k - 1);
      var others := tasks[1..][..k - 1] + tasks[1..][k..];
      assert tasks[..k] + tasks[k + 1..] == [tasks[0]] + others;
      RepliesCons(decode, tasks[0], others);
      PrependSwap(Run(decode, tasks[0]), Replies(decode, tasks[1..]), Run(decode, tasks[k]), Replies(decode, others));
    }
  }

  lemma {:induction false} RepliesSnoc<T>(decode: Buf -> Result<T>, tasks: seq<Task>, t: Task)
    ensures Replies(decode, tasks + [t]) == Replies(decode, tasks) + [Run(decode, t)]
    decreases tasks
  {
    if tasks != [] {
      assert (tasks + [t])[1..] == tasks[1..] + [t];
      RepliesSnoc(decode, tasks[1..], t);
    } else {
      assert ([] + [t])[1..] == [];
    }
  }

  lemma {:induction false} ConsecutiveSnoc(tasks: seq<Task>, t: Task, start: nat)
    requires Consecutive(tasks, start) && t.start == start + |Items(tasks)| && t.items != []
    ensures Consecutive(tasks + [t], start) && Items(tasks + [t]) == Items(tasks) + t.items
    decreases tasks
  {
    if tasks != [] {
      assert (tasks + [t])[1..] == tasks[1..] + [t];
      ConsecutiveSnoc(tasks[1..], t, start + |tasks[0].items|);
    } else {
      assert ([] + [t])[1..] == [];
      assert [t][1..] == [];
    }
  }

  /** The thread pool and the channel: spawned tasks finish at any time and in any order. */
  class Pool<T(!new, ==)> {
    const decode: Buf -> Result<T>
    ghost var spawned: seq<Task>
    var pending: seq<Task>
    var channel: seq<Reply<T>>

    /** Every spawned task is still pending or has sent its reply, once. */
    ghost predicate Valid()
      reads this
    {
      multiset(channel) + multiset(Replies(decode, pending)) == multiset(Replies(decode, spawned))
    }

    constructor (decode: Buf -> Result<T>)
      ensures Valid() && this.decode == decode && spawned == []
    {
      this.decode := decode;
      spawned, pending, channel := [], [], [];
    }

    method Spawn(task: Task)
      requires Valid()
      modifies this
      ensures Valid() && spawned == old(spawned) + [task]
    {
      hide Replies, Run;
      RepliesSnoc(decode, spawned, task);
      RepliesSnoc(decode, pending, task);
      spawned := spawned + [task];
      pending := pending + [task];
    }

    /** Some task, whichever, finishes and sends. */
    method Finish()
      requires Valid() && pending != []
      modifies this
      ensures Valid() && spawned == old(spawned) && |pending| == |old(pending)| - 1
    {
      hide Replies, DecodeItems;
      var k :| 0 <= k < |pending|;
      RepliesSwap(decode, pending, k);
      channel := channel + [Run(decode, pending[k])];
      pending := pending[..k] + pending[k + 1..];
    }

    /** Any number of tasks finish while the scope goes on. */
    method Progress()
      requires Valid()
      modifies this
      ensures Valid() && spawned == old(spawned)
    {
      var left :| 0 <= left <= |pending|;
      while left < |pending|
        invariant Valid() && spawned == old(spawned)
        decreases |pending|
      {
        Finish();
      }
    }

    /** The end of the scope waits for all tasks; the receiver then gets what was sent, in the order of sending. */
    method Join() returns (received: seq<Reply<T>>)
      requires Valid()
      modifies this
      ensures multiset(received) == multiset(Replies(decode, old(spawned)))
    {
      while pending != []
        invariant Valid() && spawned == old(spawned)
        decreases |pending|
      {
        Finish();
      }
      received := channel;
    }
  }

  // ----- restoring wire order

  predicate InOrder<T>(ms: seq<Reply<T>>) {
    forall i :: 0 < i < |ms| ==> ms[i - 1].start <= ms[i].start
  }

  function InsertReply<T>(m: Reply<T>, ms: seq<Reply<T>>): (r: seq<Reply<T>>) {
    if ms == [] || m.start <= ms[0].start then [m] + ms else [ms[0]] + InsertReply(m, ms[1..])
  }

  function SortReplies<T>(ms: seq<Reply<T>>): (r: seq<Reply<T>>) {
    if ms == [] then [] else InsertReply(ms[0], SortReplies(ms[1..]))
  }

  lemma InOrderCons<T>(m: Reply<T>, ms: seq<Reply<T>>)
    requires InOrder(ms) && (ms != [] ==> m.start <= ms[0].start)
    ensures InOrder([m] + ms)
  {
    var all := [m] + ms;
    forall i | 0 < i < |all| ensures all[i - 1].start <= all[i].start {
      assert all[i] == ms[i - 1];
      if i > 1 { assert all[i - 1] == ms[i - 2] && ms[i - 2].start <= ms[i - 1].start; }
    }
  }

  lemma TailInOrder<T>(ms: seq<Reply<T>>)
    requires InOrder(ms) && ms != []
    ensures InOrder(ms[1..]) && (|ms| > 1 ==> ms[0].start <= ms[1].start)
  {
    forall i | 0 < i < |ms| - 1 ensures ms[1..][i - 1].start <= ms[1..][i].start {
      assert ms[i].start <= ms[i + 1].start;
    }
  }

  lemma {:induction false} InsertReplySorts<T>(m: Reply<T>, ms: seq<Reply<T>>)
    requires InOrder(ms)
    ensures var r := InsertReply(m, ms);
            multiset(r) == multiset{m} + multiset(ms) && InOrder(r) && r != [] && (r[0] == m || (ms != [] && r[0] == ms[0]))
  {
    if ms == [] || m.start <= ms[0].start {
      InOrderCons(m, ms);
    } else {
      hide InOrder;
      TailInOrder(ms);
      InsertReplySorts(m, ms[1..]);
      assert ms == [ms[0]] + ms[1..];
      InOrderCons(ms[0], InsertReply(m, ms[1..]));
    }
  }

  lemma {:induction false} SortRepliesSorts<T>(ms: seq<Reply<T>>)
    ensures multiset(SortReplies(ms)) == multiset(ms) && InOrder(SortReplies(ms))
  {
    if ms != [] {
      hide InOrder, InsertReply;
      SortRepliesSorts(ms[1..]);
      InsertReplySorts(ms[0], SortReplies(ms[1..]));
      assert ms == [ms[0]] + ms[1..];
    }
  }

  /** `sort_unstable_by_key(|(start, _)| *start)`: some arrangement by start. */
  method SortUnstable<T(==)>(ms: seq<Reply<T>>) returns (r: seq<Reply<T>>)
    ensures multiset(r) == multiset(ms) && InOrder(r)
  {
    SortRepliesSorts(ms);
    r := SortReplies(ms);
  }

  lemma {:induction false} StartsAscend<T>(decode: Buf -> Result<T>, tasks: seq<Task>, start: nat, m: Reply<T>)
    requires Consecutive(tasks, start) && m in Replies(decode, tasks)
    ensures start <= m.start && (m.start == start ==> m == Replies(decode, tasks)[0])
    decreases tasks
  {
    if tasks != [] && m != Run(decode, tasks[0]) {
      assert m in Replies(decode, tasks[1..]);
      StartsAscend(decode, tasks[1..], start + |tasks[0].items|, m);
    }
  }

  lemma {:induction false} HeadIsLeast<T>(ms: seq<Reply<T>>, i: nat)
    requires InOrder(ms) && i < |ms|
    ensures ms[0].start <= ms[i].start
  {
    if i > 0 { HeadIsLeast(ms, i - 1); }
  }

  lemma FirstIsRestored<T>(decode: Buf -> Result<T>, tasks: seq<Task>, start: nat, sorted: seq<Reply<T>>)
    requires Consecutive(tasks, start) && tasks != [] && InOrder(sorted) && multiset(sorted) == multiset(Replies(decode, tasks))
    ensures sorted != [] && sorted[0] == Replies(decode, tasks)[0]
  {
    hide Consecutive, InOrder;
    var first := Run(decode, tasks[0]);
    assert Replies(decode, tasks)[0] == first && first in multiset(Replies(decode, tasks));
    var i :| 0 <= i < |sorted| && sorted[i] == first;
    HeadIsLeast(sorted, i);
    assert sorted[0] in multiset(sorted);
    FirstStart(tasks, start);
    StartsAscend(decode, tasks, start, sorted[0]);
  }

  lemma FirstStart(tasks: seq<Task>, start: nat)
    requires Consecutive(tasks, start) && tasks != []
    ensures tasks[0].start == start && Consecutive(tasks[1..], start + |tasks[0].items|)
  {
  }

  /** Sorting by start restores the order of the tasks, whatever the order of completion. */
  lemma {:induction false} WireOrderRestored<T>(decode: Buf -> Result<T>, tasks: seq<Task>, start: nat, sorted: seq<Reply<T>>)
    requires Consecutive(tasks, start) && InOrder(sorted) && multiset(sorted) == multiset(Replies(decode, tasks))
    ensures sorted == Replies(decode, tasks)
    decreases tasks
  {
    hide Consecutive;
    SameSize(sorted, Replies(decode, tasks));
    if tasks != [] {
      FirstIsRestored(decode, tasks, start, sorted);
      FirstStart(tasks, start);
      TailOfMultiset(sorted, Replies(decode, tasks));
      WireOrderRestored(decode, tasks[1..], start + |tasks[0].items|, sorted[1..]);
      assert sorted == [sorted[0]] + sorted[1..];
    }
  }

  /** The chunks one after another, or the first error among them. */
  function Gather<T>(ms: seq<Reply<T>>): Result<seq<T>> {
    if ms == [] then Ok([]) else Append(ms[0].values, Gather(ms[1..]))
  }

  lemma {:induction false} GatherReplies<T>(decode: Buf -> Result<T>, tasks: seq<Task>, start: nat)
    requires Consecutive(tasks, start)
    ensures Gather(Replies(decode, tasks)) == DecodeItems(decode, Items(tasks), start)
    decreases tasks
  {
    if tasks != [] {
      GatherReplies(decode, tasks[1..], start + |tasks[0].items|);
      DecodeConcat(decode, tasks[0].items, Items(tasks[1..]), start);
    }
  }

  // ----- the decoders

  /** The options of `raw_structural`: a cursor over `input` with the default options. */
  predicate CursorOn(d: SliceDecoder, input: Buf)
    reads d
  {
    d.Valid() && d.input == input && d.options == DEFAULT_OPTIONS
  }

  /** The items that are known, and those still ahead of the cursor, are all items. */
  predicate Ahead(input: Buf, known: seq<Buf>, pos: nat) {
    pos <= |input| &&
    var (rest, error) := Split(STRUCTURAL, DEFAULT_OPTIONS, input, pos, |known|);
    Split(STRUCTURAL, DEFAULT_OPTIONS, input, 0, 0) == (known + rest, error)
  }

  lemma NothingKnown(input: Buf)
    ensures Ahead(input, [], 0)
  {
    hide Split;
    var all := Split(STRUCTURAL, DEFAULT_OPTIONS, input, 0, 0);
    assert [] + all.0 == all.0;
  }

  /** One boundary further, or the error that ends the sequence. */
  lemma OneMore(input: Buf, known: seq<Buf>, pos: nat)
    requires Ahead(input, known, pos) && pos < |input|
    ensures var s := Skip(STRUCTURAL, DEFAULT_OPTIONS, input, pos, 0);
            if s.Done? then Ahead(input, known + [input[pos..s.end]], s.end)
            else Split(STRUCTURAL, DEFAULT_OPTIONS, input, 0, 0).1 == Some(WithItem(s.error, |known|))
  {
    hide Skip;
    var s := Skip(STRUCTURAL, DEFAULT_OPTIONS, input, pos, 0);
    if s.Done? {
      var rest := Split(STRUCTURAL, DEFAULT_OPTIONS, input, s.end, |known| + 1);
      assert known + ([input[pos..s.end]] + rest.0) == known + [input[pos..s.end]] + rest.0;
    }
  }

  lemma AllKnown(input: Buf, known: seq<Buf>)
    requires Ahead(input, known, |input|)
    ensures Split(STRUCTURAL, DEFAULT_OPTIONS, input, 0, 0) == (known, None)
  {
    assert known + [] == known;
  }

  /** `decode_raw` below its thresholds. */
  method DecodeRaw<T>(decode: Buf -> Result<T>, items: seq<Buf>) returns (r: Result<seq<T>>)
    ensures r == DecodeItems(decode, items, 0)
  {
    var values: seq<T> := [];
    var i := 0;
    assert items[0..] == items;
    if DecodeItems(decode, items, 0).Ok? { assert [] + DecodeItems(decode, items, 0).value == DecodeItems(decode, items, 0).value; }
    while i < |items|
      invariant i <= |items| && |values| == i
      invariant DecodeItems(decode, items, 0) == Append(Ok(values), DecodeItems(decode, items[i..], i))
    {
      assert items[i..][0] == items[i] && items[i..][1..] == items[i + 1..];
      var value := decode(items[i]);
      if value.Err? {
        return Err(WithItem(value.error, i));
      }
      var rest := DecodeItems(decode, items[i + 1..], i + 1);
      if rest.Ok? { assert values + ([value.value] + rest.value) == values + [value.value] + rest.value; }
      values := values + [value.value];
      i := i + 1;
    }
    assert items[i..] == [] && values + [] == values;
    return Ok(values);
  }

  /** `from_sequence_with_options`: the same result as decoding item by item, parallel or not. */
  method FromSequenceWithOptions<T(!new, ==)>(decode: Buf -> Result<T>, input: Buf, minBytes: nat, minItems: nat)
    returns (r: Result<seq<T>>)
    ensures r == Sequential(decode, input)
  {
    hide Skip, Split, Ahead;
    var decoder := new SliceDecoder(input, DEFAULT_OPTIONS);
    var items: seq<Buf> := [];
    NothingKnown(input);
    while decoder.pos != |input| && (|input| < minBytes || |items| < minItems)
      invariant CursorOn(decoder, input) && fresh(decoder) && Ahead(input, items, decoder.pos)
      decreases |input| - decoder.pos
    {
      OneMore(input, items, decoder.pos);
      var item := decoder.RawStructural();
      if item.Err? {
        return Err(WithItem(item.error, |items|));
      }
      items := items + [item.value];
    }
    if |input| < minBytes || |items| < minItems {
      AllKnown(input, items);
      r := DecodeRaw(decode, items);
    } else {
      r := DecodeRawPipelined(decode, decoder, input, items);
    }
  }

  /** `decode_raw_pipelined`. */
  method DecodeRawPipelined<T(!new, ==)>(decode: Buf -> Result<T>, decoder: SliceDecoder, input: Buf, initial: seq<Buf>)
    returns (r: Result<seq<T>>)
    requires CursorOn(decoder, input) && Ahead(input, initial, decoder.pos)
    modifies decoder
    ensures r == Sequential(decode, input)
  {
    hide Skip, Split, Ahead, Consecutive, Items, Replies, DecodeItems;
    NoTasks();
    var pool := new Pool<T>(decode);
    var rest := initial;
    ghost var known := initial;
    var itemCount := 0;
    var boundaryError: Option<Error> := None;
    while true
      invariant CursorOn(decoder, input) && Ahead(input, known, decoder.pos) && boundaryError == None
      invariant pool.Valid() && fresh(pool) && pool.decode == decode && Consecutive(pool.spawned, 0)
      invariant known == Items(pool.spawned) + rest && itemCount == |Items(pool.spawned)|
      decreases |input| - decoder.pos + |rest|
    {
      var start := itemCount;
      var chunk;
      chunk, rest, itemCount, boundaryError, known := NextChunk(decoder, input, known, Items(pool.spawned), rest, itemCount);
      if boundaryError.Some? || chunk == [] {
        break;
      }
      ConsecutiveSnoc(pool.spawned, Task(start, chunk), 0);
      pool.Spawn(Task(start, chunk));
      pool.Progress();
    }
    ghost var tasks := pool.spawned;
    var received := pool.Join();
    if boundaryError.Some? {
      return Err(boundaryError.value);
    }
    assert Items(tasks) + [] == Items(tasks);
    AllKnown(input, known);
    r := Restore(decode, tasks, received);
  }

  lemma NoTasks()
    ensures Consecutive([], 0) && Items([]) == []
  {
  }

  /** The end of `decode_raw_pipelined`: the replies in wire order, one after another. */
  method Restore<T(!new, ==)>(ghost decode: Buf -> Result<T>, ghost tasks: seq<Task>, received: seq<Reply<T>>)
    returns (r: Result<seq<T>>)
    requires Consecutive(tasks, 0) && multiset(received) == multiset(Replies(decode, tasks))
    ensures r == DecodeItems(decode, Items(tasks), 0)
  {
    hide Consecutive, InOrder, Replies, Gather, Items, DecodeItems;
    var chunks := SortUnstable(received);
    WireOrderRestored(decode, tasks, 0, chunks);
    GatherReplies(decode, tasks, 0);
    r := AppendAll(chunks);
  }

  const CHUNK_ITEMS := 8

  /** The inner loop: up to eight items, those already known first. */
  method NextChunk(decoder: SliceDecoder, input: Buf, ghost known: seq<Buf>, ghost spawned: seq<Buf>, initial: seq<Buf>, count: nat)
    returns (chunk: seq<Buf>, rest: seq<Buf>, itemCount: nat, boundaryError: Option<Error>, ghost nowKnown: seq<Buf>)
    requires CursorOn(decoder, input) && Ahead(input, known, decoder.pos)
    requires known == spawned + initial && count == |spawned|
    modifies decoder
    ensures CursorOn(decoder, input)
    ensures boundaryError == None ==>
              Ahead(input, nowKnown, decoder.pos) && nowKnown == spawned + chunk + rest && itemCount == count + |chunk|
              && |input| - decoder.pos + |rest| + |chunk| <= |input| - old(decoder.pos) + |initial|
              && (chunk == [] ==> rest == [] && decoder.pos == |input|)
    ensures boundaryError.Some? ==> Split(STRUCTURAL, DEFAULT_OPTIONS, input, 0, 0).1 == boundaryError
  {
    hide Skip, Split, Ahead;
    chunk, rest, itemCount, boundaryError, nowKnown := [], initial, count, None, known;
    while |chunk| < CHUNK_ITEMS
      invariant CursorOn(decoder, input) && Ahead(input, nowKnown, decoder.pos) && boundaryError == None
      invariant nowKnown == spawned + chunk + rest && itemCount == count + |chunk|
      invariant |input| - decoder.pos + |rest| + |chunk| <= |input| - old(decoder.pos) + |initial|
      decreases CHUNK_ITEMS - |chunk|
    {
      if rest != [] {
        chunk, rest := chunk + [rest[0]], rest[1..];
        itemCount := itemCount + 1;
        continue;
      }
      if decoder.pos == |input| {
        return;
      }
      OneMore(input, nowKnown, decoder.pos);
      var item := decoder.RawStructural();
      if item.Err? {
        boundaryError := Some(WithItem(item.error, itemCount));
        return;
      }
      nowKnown := nowKnown + [item.value];
      chunk, itemCount := chunk + [item.value], itemCount + 1;
    }
  }

  /** Appends the values of the chunks in turn, up to the first error. */
  method AppendAll<T>(chunks: seq<Reply<T>>) returns (r: Result<seq<T>>)
    ensures r == Gather(chunks)
  {
    var output: seq<T> := [];
    var i := 0;
    assert chunks[0..] == chunks;
    if Gather(chunks).Ok? { assert [] + Gather(chunks).value == Gather(chunks).value; }
    while i < |chunks|
      invariant i <= |chunks|
      invariant Gather(chunks) == Append(Ok(output), Gather(chunks[i..]))
    {
      assert chunks[i..][0] == chunks[i] && chunks[i..][1..] == chunks[i + 1..];
      var values :- chunks[i].values;
      var rest := Gather(chunks[i + 1..]);
      if rest.Ok? { assert output + (values + rest.value) == output + values + rest.value; }
      output := output + values;
      i := i + 1;
    }
    assert chunks[i..] == [] && output + [] == output;
    return Ok(output);
  }
}
