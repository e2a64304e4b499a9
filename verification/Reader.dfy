/**
 The blocking reader of a scan: one batch pulled to learn the schema, then one
 at a time; and draining it from R, with a limit on the rows.
 */
module Reader {
  import opened Outcomes

  datatype Batch<S, R> = Batch(schema: S, rows: seq<R>)

  /** What polling the scan gives. */
  datatype Event<S, R> = Ready(batch: Batch<S, R>) | Fault | Panic | End

  datatype Failure = ScanFailed | ScanPanicked

  type Item<S, R> = Result<Batch<S, R>, Failure>

  /** What a call under the guard comes to. */
  datatype Guarded<S, R> = Returned(item: Option<Item<S, R>>) | Panicked

  // ---- the scan upstream ----

  /** A scan that must not be polled again once it has ended, failed or panicked. */
  class Scan<S, R> {
    const script: seq<Event<S, R>>
    var polls: nat

    constructor (script: seq<Event<S, R>>)
      ensures this.script == script && polls == 0
    {
      this.script := script;
      polls := 0;
    }

    ghost predicate Over()
      reads this
    {
      polls > |script| || exists i :: 0 <= i < polls && i < |script| && !script[i].Ready?
    }

    method Poll() returns (e: Event<S, R>)
      requires !Over()
      modifies this
      ensures polls == old(polls) + 1
      ensures e == if old(polls) < |script| then script[old(polls)] else End
    {
      e := if polls < |script| then script[polls] else End;
      polls := polls + 1;
    }
  }

  /** What a reader yields: the batches in order, then at most one error. */
  function Yields<S, R>(events: seq<Event<S, R>>): seq<Item<S, R>> {
    if events == [] then []
    else match events[0] {
      case Ready(b) => [Ok(b)] + Yields(events[1..])
      case Fault => [Err(ScanFailed)]
      case Panic => [Err(ScanPanicked)]
      case End => []
    }
  }

  /** What one more poll yields, and what is left to yield. */
  lemma FirstYield<S, R>(script: seq<Event<S, R>>, polls: nat, e: Event<S, R>)
    requires polls <= |script| && e == if polls < |script| then script[polls] else End
    ensures var before := script[polls..];
            match e
            case Ready(b) => polls < |script| && Yields(before) == [Ok(b)] + Yields(script[polls + 1..])
            case Fault => Yields(before) == [Err(ScanFailed)]
            case Panic => Yields(before) == [Err(ScanPanicked)]
            case End => Yields(before) == []
  {
    if polls < |script| {
      assert script[polls..][1..] == script[polls + 1..];
    }
  }

  // ---- the reader ----

  class BlockingBatchReader<S, R> {
    var schema: S
    var pending: Option<Batch<S, R>>
    var stream: Option<Scan<S, R>>

    /** Another poll is allowed, as long as there is a stream to poll. */
    ghost predicate Valid()
      reads this, if stream.Some? then {stream.value} else {}
    {
      stream.Some? ==> !stream.value.Over()
    }

    /** What is still to come. */
    ghost function Rest(): seq<Item<S, R>>
      reads this, if stream.Some? then {stream.value} else {}
      requires Valid()
    {
      (if pending.Some? then [Ok(pending.value)] else [])
      + (if stream.Some? then Yields(stream.value.script[stream.value.polls..]) else [])
    }

    constructor (schema: S, pending: Option<Batch<S, R>>, stream: Option<Scan<S, R>>)
      ensures this.schema == schema && this.pending == pending && this.stream == stream
    {
      this.schema, this.pending, this.stream := schema, pending, stream;
    }

    /** The next batch or error, without the guard around panics. */
    method NextBatch() returns (guarded: Guarded<S, R>)
      requires Valid()
      modifies this, if stream.Some? then {stream.value} else {}
      ensures stream == old(stream) || stream == None
      ensures guarded.Panicked? ==> stream.Some? && pending == None && old(Rest()) == [Err(ScanPanicked)]
      ensures guarded.Returned? ==> Valid()
      ensures guarded == Returned(None) ==> old(Rest()) == [] && Rest() == []
      ensures guarded.Returned? && guarded.item.Some? ==> old(Rest()) == [guarded.item.value] + Rest()
    {
      if pending.Some? {
        guarded := Returned(Some(Ok(pending.value)));
        pending := None;
        return;
      }
      if stream.None? {
        return Returned(None);
      }
      ghost var s := stream.value;
      var e := stream.value.Poll();
      FirstYield(s.script, s.polls - 1, e);
      match e {
        case Ready(b) =>
          guarded := Returned(Some(Ok(b)));
        case Fault =>
          stream := None;
          guarded := Returned(Some(Err(ScanFailed)));
        case Panic =>
          guarded := Panicked;
        case End =>
          stream := None;
          guarded := Returned(None);
      }
    }

    /** The next item, in order; nothing more once it has been an error, or there are none left. */
    method Next() returns (item: Option<Item<S, R>>)
      requires Valid()
      modifies this, if stream.Some? then {stream.value} else {}
      ensures Valid() && (stream == old(stream) || stream == None)
      ensures item == if old(Rest()) == [] then None else Some(old(Rest())[0])
      ensures Rest() == if old(Rest()) == [] then [] else old(Rest())[1..]
    {
      var guarded := NextBatch();
      match guarded {
        case Returned(i) =>
          item := i;
        case Panicked =>
          stream, pending := None, None;
          item := Some(Err(ScanPanicked));
      }
    }
  }

  /** A reader on a scan: its schema is the first batch's, which is kept to be yielded. */
  method Open<S, R>(scan: Scan<S, R>, fallback: S) returns (reader: Result<BlockingBatchReader<S, R>, Failure>)
    requires scan.polls == 0
    modifies scan
    ensures reader.Ok? ==> fresh(reader.value) && reader.value.Valid()
    ensures reader.Ok? ==> reader.value.stream == None || reader.value.stream == Some(scan)
    ensures reader.Ok? ==> reader.value.Rest() == Yields(scan.script)
    ensures reader.Ok? ==> reader.value.schema ==
                           if Yields(scan.script) != [] && Yields(scan.script)[0].Ok? then Yields(scan.script)[0].value.schema else fallback
    ensures reader.Err? <==> Yields(scan.script) != [] && Yields(scan.script)[0].Err?
    ensures reader.Err? ==> Yields(scan.script) == [Err(reader.error)]
  {
    assert scan.script[0..] == scan.script;
    var e := scan.Poll();
    match e {
      case Ready(b) =>
        var r := new BlockingBatchReader(b.schema, Some(b), Some(scan));
        reader := Ok(r);
      case Fault =>
        reader := Err(ScanFailed);
      case Panic =>
        reader := Err(ScanPanicked);
      case End =>
        var r := new BlockingBatchReader(fallback, None, None);
        reader := Ok(r);
    }
  }

  // ---- what the reader yields ----

  /** Only the last thing yielded can be an error. */
  lemma {:induction false} AtMostOneErrorLast<S, R>(events: seq<Event<S, R>>)
    ensures forall i :: 0 <= i < |Yields(events)| - 1 ==> Yields(events)[i].Ok?
    ensures |Yields(events)| <= |events|
  {
    if events != [] && events[0].Ready? {
      AtMostOneErrorLast(events[1..]);
    }
  }

  /** The batches yielded are those the scan gives before it ends, fails or panics. */
  lemma {:induction false} YieldsTheBatches<S, R>(events: seq<Event<S, R>>, k: nat)
    requires k <= |events| && forall i :: 0 <= i < k ==> events[i].Ready?
    ensures k <= |Yields(events)| && forall i :: 0 <= i < k ==> Yields(events)[i] == Ok(events[i].batch)
    ensures k < |events| && events[k].End? ==> |Yields(events)| == k
    ensures k < |events| && events[k].Fault? ==> |Yields(events)| == k + 1 && Yields(events)[k] == Err(ScanFailed)
    ensures k < |events| && events[k].Panic? ==> |Yields(events)| == k + 1 && Yields(events)[k] == Err(ScanPanicked)
    ensures k == |events| ==> |Yields(events)| == k
  {
    if k > 0 {
      YieldsTheBatches(events[1..], k - 1);
    }
  }

  // ---- draining it ----

  /** The rows of the batches, in order. */
  function RowsOf<S, R>(items: seq<Item<S, R>>): seq<R> {
    if items == [] then [] else RowsIn(items[0]) + RowsOf(items[1..])
  }

  function RowsIn<S, R>(item: Item<S, R>): seq<R> { if item.Ok? then item.value.rows else [] }

  function FirstN<T>(xs: seq<T>, n: nat): seq<T> { if |xs| <= n then xs else xs[..n] }

  ghost predicate NoErrors<S, R>(items: seq<Item<S, R>>) { forall i :: 0 <= i < |items| ==> items[i].Ok? }

  lemma {:induction false} RowsConcat<S, R>(a: seq<Item<S, R>>, b: seq<Item<S, R>>)
    ensures RowsOf(a + b) == RowsOf(a) + RowsOf(b)
  {
    if a == [] {
      assert a + b == b;
    } else {
      RowsConcat(a[1..], b);
      assert (a + b)[0] == a[0] && (a + b)[1..] == a[1..] + b;
      Reassociate(RowsIn(a[0]), RowsOf(a[1..]), RowsOf(b));
    }
  }

  lemma Reassociate<T>(a: seq<T>, b: seq<T>, c: seq<T>)
    ensures a + (b + c) == a + b + c
  {
  }

  /** The rows of a batch come right after those of the items before it, and before those of the rest; an error has none. */
  lemma RowsInPlace<S, R>(before: seq<Item<S, R>>, item: Item<S, R>, after: seq<Item<S, R>>)
    ensures RowsOf(before + [item] + after) ==
            RowsOf(before) + (match item case Ok(b) => b.rows case Err(_) => []) + RowsOf(after)
  {
    RowsConcat(before + [item], after);
    RowsConcat(before, [item]);
    RowsOfOne(item);
  }

  lemma RowsOfOne<S, R>(item: Item<S, R>)
    ensures RowsOf([item]) == match item case Ok(b) => b.rows case Err(_) => []
  {
    assert [item][1..] == [];
  }

  /** What a drained reader gives, `k` items pulled: the rows asked for, or the error it met. */
  ghost predicate Drained<S, R>(items: seq<Item<S, R>>, limit: Option<nat>, k: nat, result: Result<seq<R>, Failure>) {
    && k <= |items|
    && match result {
         case Err(e) => 0 < k && NoErrors(items[..k - 1]) && items[k - 1] == Err(e) && Wanting(items, limit, k - 1)
         case Ok(rows) =>
           && NoErrors(items[..k])
           && (k > 0 ==> Wanting(items, limit, k - 1))
           && (k == |items| || !Wanting(items, limit, k))
           && rows == (if limit.Some? then FirstN(RowsOf(items[..k]), limit.value) else RowsOf(items[..k]))
       }
  }

  /** After `k` items there are still fewer rows than asked for. */
  ghost predicate Wanting<S, R>(items: seq<Item<S, R>>, limit: Option<nat>, k: nat)
    requires k <= |items|
  {
    limit.Some? ==> |RowsOf(items[..k])| < limit.value
  }

  /** The rows of the first `k` items, not enough before the last of them. */
  ghost predicate Collecting<S, R>(items: seq<Item<S, R>>, limit: Option<nat>, k: nat, rows: seq<R>) {
    && k <= |items| && NoErrors(items[..k]) && rows == RowsOf(items[..k])
    && (k > 0 ==> Wanting(items, limit, k - 1))
  }

  lemma OneMore<S, R>(items: seq<Item<S, R>>, limit: Option<nat>, k: nat, rows: seq<R>)
    requires Collecting(items, limit, k, rows) && k < |items| && Wanting(items, limit, k)
    ensures items[k].Ok? ==> Collecting(items, limit, k + 1, rows + items[k].value.rows)
    ensures items[k].Err? ==> Drained(items, limit, k + 1, Err(items[k].error))
  {
    assert items[..k + 1] == items[..k] + [items[k]];
    assert items[..k + 1][..k] == items[..k];
    RowsConcat(items[..k], [items[k]]);
    assert RowsOf([items[k]]) == RowsIn(items[k]) + RowsOf([items[k]][1..]);
  }

  lemma Enough<S, R>(items: seq<Item<S, R>>, limit: Option<nat>, k: nat, rows: seq<R>)
    requires Collecting(items, limit, k, rows) && (k == |items| || !Wanting(items, limit, k))
    ensures Drained(items, limit, k, Ok(if limit.Some? then FirstN(rows, limit.value) else rows))
  {
  }

  /** One pull, of the `k`-th item. */
  method Pull<S, R>(reader: BlockingBatchReader<S, R>, ghost items: seq<Item<S, R>>, ghost k: nat) returns (next: Option<Item<S, R>>)
    requires reader.Valid() && k <= |items| && reader.Rest() == items[k..]
    modifies reader, if reader.stream.Some? then {reader.stream.value} else {}
    ensures reader.Valid() && (reader.stream == old(reader.stream) || reader.stream == None)
    ensures next == if k < |items| then Some(items[k]) else None
    ensures reader.Rest() == items[if k < |items| then k + 1 else k..]
  {
    next := reader.Next();
    assert k < |items| ==> items[k..][0] == items[k] && items[k..][1..] == items[k + 1..];
  }

  /** Into one table: stops as soon as enough rows have been seen. */
  method CollectStream<S, R>(reader: BlockingBatchReader<S, R>, limit: Option<nat>)
    returns (result: Result<seq<R>, Failure>, pulled: nat)
    requires reader.Valid()
    modifies reader, if reader.stream.Some? then {reader.stream.value} else {}
    ensures reader.Valid()
    ensures Drained(old(reader.Rest()), limit, pulled, result) && reader.Rest() == old(reader.Rest())[pulled..]
  {
    ghost var items := reader.Rest();
    ghost var scan := reader.stream;
    pulled := 0;
    if limit == Some(0) {
      Enough(items, limit, 0, []);
      return Ok([]), 0;
    }
    var rows: seq<R> := [];
    var ended := false;
    while !ended && (limit.None? || |rows| < limit.value)
      invariant Collecting(items, limit, pulled, rows) && (ended ==> pulled == |items|)
      invariant reader.Valid() && reader.Rest() == items[pulled..]
      invariant reader.stream == scan || reader.stream == None
      decreases |items| - pulled, if ended then 0 else 1
    {
      var next := Pull(reader, items, pulled);
      ended := next.None?;
      if next.Some? {
        OneMore(items, limit, pulled, rows);
        pulled := pulled + 1;
        if next.value.Err? {
          return Err(next.value.error), pulled;
        }
        rows := rows + next.value.value.rows;
      }
    }
    Enough(items, limit, pulled, rows);
    result := Ok(if limit.Some? then FirstN(rows, limit.value) else rows);
  }

  lemma {:induction false} LongerHasMore<S, R>(items: seq<Item<S, R>>, j: nat, k: nat)
    requires j <= k <= |items|
    ensures RowsOf(items[..j]) <= RowsOf(items[..k])
  {
    assert items[..k] == items[..j] + items[j..k];
    RowsConcat(items[..j], items[j..k]);
  }

  /**
   A limit gives exactly the first rows of what the scan yields, pulling the
   fewest batches that reach it, or everything when nothing does: a start of all the
   rows, as many as asked for or as there are.
   */
  lemma LimitGivesTheFirstRows<S, R>(items: seq<Item<S, R>>, n: nat, k: nat, rows: seq<R>)
    requires Drained(items, Some(n), k, Ok(rows))
    ensures NoErrors(items[..k]) && rows <= RowsOf(items)
    ensures |rows| == if |RowsOf(items)| < n then |RowsOf(items)| else n
    ensures forall j :: 0 <= j < k ==> |RowsOf(items[..j])| < n
    ensures k < |items| ==> |RowsOf(items[..k])| >= n
  {
    assert items[..|items|] == items;
    LongerHasMore(items, k, |items|);
    forall j | 0 <= j < k
      ensures |RowsOf(items[..j])| < n
    {
      LongerHasMore(items, j, k - 1);
    }
  }

  /** Without a limit, every row; any error is the result. */
  lemma NoLimitGivesEveryRow<S, R>(items: seq<Item<S, R>>, k: nat, result: Result<seq<R>, Failure>)
    requires Drained(items, None, k, result)
    ensures result.Ok? <==> NoErrors(items)
    ensures result.Ok? ==> result.value == RowsOf(items)
  {
    assert items[..|items|] == items;
    if result.Err? {
      assert items[k - 1].Err?;
    }
  }

  /** Draining fails exactly when an error comes before enough rows have. */
  lemma FailsExactly<S, R>(items: seq<Item<S, R>>, n: nat, k: nat, result: Result<seq<R>, Failure>)
    requires Drained(items, Some(n), k, result)
    ensures result.Err? <==> exists j :: 0 <= j < |items| && items[j].Err? && |RowsOf(items[..j])| < n
  {
    if result.Err? {
      assert items[k - 1].Err? && |RowsOf(items[..k - 1])| < n;
    } else {
      forall j | 0 <= j < |items| && items[j].Err?
        ensures |RowsOf(items[..j])| >= n
      {
        assert forall i :: 0 <= i < k ==> items[i] == items[..k][i];
        LongerHasMore(items, k, j);
      }
    }
  }
}
