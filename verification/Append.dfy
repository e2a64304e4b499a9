/**
 Appending to a table: every check, then the writes slice by slice, then the
 commit. The warehouse is the rows handed to its writers and its snapshots.
 */
module Append {
  import opened Outcomes
  import opened Align
  import opened MetadataNames

  /** Rows handed to the writer per call. */
  const WRITE_SLICE_ROWS: nat := 65536

  type Row<V> = seq<Option<V>>

  datatype Snapshot<V> = Snapshot(rows: seq<Row<V>>, properties: map<string, string>)

  datatype Table<K> = Table(partitionFields: nat, location: Option<string>, schema: Option<seq<Field<K>>>)

  /**
   What the caller passes. The stream is what the data yields: batches, or an
   error in reading one.
   */
  datatype Request<K, V> = Request(
    keys: seq<string>,
    values: seq<string>,
    catalogKind: string,
    stream: seq<Option<Batch<K, V>>>,
    compressionKnown: bool
  )

  /** How the writer, and the catalog, fare: which calls succeed. */
  datatype Upstream = Upstream(locates: bool, opens: bool, writes: nat -> bool, closes: bool, commits: bool)

  datatype Failure =
    | PropertyLengths | Partitioned | Uncommittable(why: Reason) | NoArrowSchema
    | Unreadable | Misaligned(misfit: Misfit) | UnknownCompression
    | NoLocation | WriteFailed | CommitFailed

  datatype Library<!K, !V> = Library(cast: Cast<K, V>, uuid: string -> bool)

  // ---- the checks ----

  /** What refuses the table before any data is read. */
  function TableRefusal<K, V>(lib: Library<K, V>, table: Table<K>, q: Request<K, V>): Option<Failure> {
    if |q.keys| != |q.values| then Some(PropertyLengths)
    else if table.partitionFields > 0 then Some(Partitioned)
    else if DerivesNextLocation(q.catalogKind) && table.location.Some?
            && UncommittableBecause(table.location.value, lib.uuid).Some?
    then Some(Uncommittable(UncommittableBecause(table.location.value, lib.uuid).value))
    else if table.schema.None? then Some(NoArrowSchema)
    else None
  }

  ghost predicate StreamValid<K, V>(stream: seq<Option<Batch<K, V>>>) {
    forall i :: 0 <= i < |stream| && stream[i].Some? ==> stream[i].value.Valid()
  }

  /** The batches that have rows, aligned, or the first failure among them. */
  ghost function AlignedStream<K, V>(cast: Cast<K, V>, stream: seq<Option<Batch<K, V>>>, target: seq<Field<K>>):
    Result<seq<Batch<K, V>>, Failure>
    requires StreamValid(stream)
    decreases |stream|
  {
    if stream == [] then Ok([])
    else
      var last := |stream| - 1;
      match AlignedStream(cast, stream[..last], target)
      case Err(e) => Err(e)
      case Ok(before) =>
        if stream[last].None? then Err(Unreadable)
        else if stream[last].value.rows == 0 then Ok(before)
        else
          match Aligned(cast, stream[last].value, target)
          case Err(e) => Err(Misaligned(e))
          case Ok(b) => Ok(before + [b])
  }

  // ---- slices ----

  /** The rows of a batch, one by one. */
  function RowsOf<K, V>(b: Batch<K, V>): (r: seq<Row<V>>)
    requires b.Valid()
    ensures |r| == b.rows
  {
    seq(b.rows, i requires 0 <= i < b.rows => seq(|b.columns|, c requires 0 <= c < |b.columns| => b.columns[c].cells[i]))
  }

  function SliceOf<K, V>(b: Batch<K, V>, offset: nat, len: nat): (s: Batch<K, V>)
    requires b.Valid() && offset + len <= b.rows
    ensures s.Valid()
  {
    Batch(b.names, seq(|b.columns|, c requires 0 <= c < |b.columns| =>
      Column(b.columns[c].kind, b.columns[c].cells[offset..offset + len])), len)
  }

  /** A slice is some of the rows. */
  lemma SliceRows<K, V>(b: Batch<K, V>, offset: nat, len: nat)
    requires b.Valid() && offset + len <= b.rows
    ensures RowsOf(SliceOf(b, offset, len)) == RowsOf(b)[offset..offset + len]
  {
    var s := SliceOf(b, offset, len);
    forall i | 0 <= i < len
      ensures RowsOf(s)[i] == RowsOf(b)[offset + i]
    {
      assert forall c :: 0 <= c < |b.columns| ==> s.columns[c].cells[i] == b.columns[c].cells[offset + i];
    }
  }

  function Len(rows: nat): nat { if rows < WRITE_SLICE_ROWS then rows else WRITE_SLICE_ROWS }

  /** The slices of some rows: as long as they may be, and none empty. */
  ghost function Slices<V>(rows: seq<Row<V>>): seq<seq<Row<V>>> {
    if rows == [] then [] else [rows[..Len(|rows|)]] + Slices(rows[Len(|rows|)..])
  }

  ghost predicate AllValid<K, V>(batches: seq<Batch<K, V>>) { forall i :: 0 <= i < |batches| ==> batches[i].Valid() }

  ghost function SlicesOf<K, V>(batches: seq<Batch<K, V>>): seq<seq<Row<V>>>
    requires AllValid(batches)
  {
    if batches == [] then [] else Slices(RowsOf(batches[0])) + SlicesOf(batches[1..])
  }

  ghost function AllRows<K, V>(batches: seq<Batch<K, V>>): seq<Row<V>>
    requires AllValid(batches)
  {
    if batches == [] then [] else RowsOf(batches[0]) + AllRows(batches[1..])
  }

  function Flatten<T>(xs: seq<seq<T>>): seq<T> { if xs == [] then [] else xs[0] + Flatten(xs[1..]) }

  ghost predicate GoodSlices<V>(slices: seq<seq<Row<V>>>) {
    forall i :: 0 <= i < |slices| ==> 0 < |slices[i]| <= WRITE_SLICE_ROWS
  }

  lemma {:induction false} FlattenConcat<T>(xs: seq<seq<T>>, ys: seq<seq<T>>)
    ensures Flatten(xs + ys) == Flatten(xs) + Flatten(ys)
  {
    if xs == [] {
      assert xs + ys == ys;
    } else {
      FlattenConcat(xs[1..], ys);
      assert (xs + ys)[0] == xs[0] && (xs + ys)[1..] == xs[1..] + ys;
      Reassociate(xs[0], Flatten(xs[1..]), Flatten(ys));
    }
  }

  lemma {:induction false} SlicesJoin<V>(rows: seq<Row<V>>)
    ensures Flatten(Slices(rows)) == rows && GoodSlices(Slices(rows))
    decreases |rows|
  {
    if rows != [] {
      var n := Len(|rows|);
      SlicesJoin(rows[n..]);
      assert rows == rows[..n] + rows[n..];
      assert Slices(rows)[1..] == Slices(rows[n..]);
    }
  }

  /** The slices, each non-empty and no longer than allowed, make up the rows in order. */
  lemma {:induction false} SlicesAreTheRows<K, V>(batches: seq<Batch<K, V>>)
    requires AllValid(batches)
    ensures Flatten(SlicesOf(batches)) == AllRows(batches) && GoodSlices(SlicesOf(batches))
  {
    if batches != [] {
      SlicesAreTheRows(batches[1..]);
      SlicesJoin(RowsOf(batches[0]));
      FlattenConcat(Slices(RowsOf(batches[0])), SlicesOf(batches[1..]));
    }
  }

  // ---- what it computes ----

  datatype State<V> = State(slices: seq<seq<Row<V>>>, snapshots: seq<Snapshot<V>>)

  function Total<K, V>(batches: seq<Batch<K, V>>): nat {
    if batches == [] then 0 else batches[0].rows + Total(batches[1..])
  }

  /** The pairs as a map, a later value replacing an earlier one. */
  function Zip(keys: seq<string>, values: seq<string>): map<string, string>
    requires |keys| == |values|
  {
    if keys == [] then map[]
    else
      var last := |keys| - 1;
      Zip(keys[..last], values[..last])[keys[last] := values[last]]
  }

  /** How many of the writes succeed before one fails. */
  ghost function Accepted(writes: nat -> bool, n: nat): (k: nat)
    ensures k <= n && (forall i :: 0 <= i < k ==> writes(i)) && (k < n ==> !writes(k))
  {
    if n == 0 then 0
    else if Accepted(writes, n - 1) == n - 1 && writes(n - 1) then n
    else Accepted(writes, n - 1)
  }

  /** The batches to write, or what refuses the append before anything is written. */
  ghost function Checked<K, V>(lib: Library<K, V>, table: Table<K>, q: Request<K, V>): Result<seq<Batch<K, V>>, Failure>
    requires StreamValid(q.stream)
  {
    var refusal := TableRefusal(lib, table, q);
    if refusal.Some? then Err(refusal.value) else AlignedStream(lib.cast, q.stream, table.schema.value)
  }

  /** From opening the writer to the commit. */
  ghost function Written<K, V>(batches: seq<Batch<K, V>>, properties: map<string, string>, up: Upstream, s: State<V>):
    (State<V>, Result<bool, Failure>)
    requires AllValid(batches)
  {
    if !up.locates then (s, Err(NoLocation))
    else if !up.opens then (s, Err(WriteFailed))
    else
      var slices := SlicesOf(batches);
      var k := Accepted(up.writes, |slices|);
      var after := s.(slices := s.slices + slices[..k]);
      if k < |slices| || !up.closes then (after, Err(WriteFailed))
      else if !up.commits then (after, Err(CommitFailed))
      else (after.(snapshots := s.snapshots + [Snapshot(AllRows(batches), properties)]), Ok(true))
  }

  /** The state after an append; its result says whether a snapshot was added. */
  ghost function Appended<K(!new), V(!new)>(lib: Library<K, V>, table: Table<K>, q: Request<K, V>, up: Upstream, s: State<V>):
    (State<V>, Result<bool, Failure>)
    requires KeepsRows(lib.cast) && StreamValid(q.stream)
  {
    match Checked(lib, table, q)
    case Err(e) => (s, Err(e))
    case Ok(batches) =>
      CheckedIsValid(lib, table, q);
      if Total(batches) == 0 then (s, Ok(false))
      else if !q.compressionKnown then (s, Err(UnknownCompression))
      else Written(batches, Zip(q.keys, q.values), up, s)
  }

  lemma {:induction false} StreamIsValid<K(!new), V(!new)>(cast: Cast<K, V>, stream: seq<Option<Batch<K, V>>>, target: seq<Field<K>>)
    requires KeepsRows(cast) && StreamValid(stream) && AlignedStream(cast, stream, target).Ok?
    ensures AllValid(AlignedStream(cast, stream, target).value)
    decreases |stream|
  {
    if stream != [] {
      var last := |stream| - 1;
      StreamIsValid(cast, stream[..last], target);
      if stream[last].value.rows > 0 {
        AcceptedIsValid(cast, stream[last].value, target);
      }
    }
  }

  lemma CheckedIsValid<K(!new), V(!new)>(lib: Library<K, V>, table: Table<K>, q: Request<K, V>)
    requires KeepsRows(lib.cast) && StreamValid(q.stream) && Checked(lib, table, q).Ok?
    ensures AllValid(Checked(lib, table, q).value) && |q.keys| == |q.values|
  {
    StreamIsValid(lib.cast, q.stream, table.schema.value);
  }

  lemma {:induction false} FailureStays<K, V>(cast: Cast<K, V>, stream: seq<Option<Batch<K, V>>>, target: seq<Field<K>>, k: nat)
    requires StreamValid(stream) && k <= |stream| && AlignedStream(cast, stream[..k], target).Err?
    ensures AlignedStream(cast, stream, target) == AlignedStream(cast, stream[..k], target)
    decreases |stream|
  {
    if k == |stream| {
      assert stream[..k] == stream;
    } else {
      assert stream[..|stream| - 1][..k] == stream[..k];
      FailureStays(cast, stream[..|stream| - 1], target, k);
    }
  }

  // ---- the procedure ----

  class Warehouse<K(==, !new), V(==, !new)> {
    var slices: seq<seq<Row<V>>>
    var snapshots: seq<Snapshot<V>>

    ghost function Contents(): State<V>
      reads this
    {
      State(slices, snapshots)
    }

    constructor ()
      ensures Contents() == State([], [])
    {
      slices, snapshots := [], [];
    }

    /** Every batch with rows, aligned; nothing is written. */
    method ReadAll(cast: Cast<K, V>, stream: seq<Option<Batch<K, V>>>, target: seq<Field<K>>)
      returns (result: Result<seq<Batch<K, V>>, Failure>, rows: nat)
      requires KeepsRows(cast) && StreamValid(stream)
      ensures result == AlignedStream(cast, stream, target)
      ensures result.Ok? ==> rows == Total(result.value)
    {
      var batches := [];
      rows := 0;
      for i := 0 to |stream|
        invariant AlignedStream(cast, stream[..i], target) == Ok(batches) && rows == Total(batches)
      {
        assert stream[..i + 1][..i] == stream[..i];
        if stream[i].None? {
          FailureStays(cast, stream, target, i + 1);
          return Err(Unreadable), rows;
        }
        var batch := stream[i].value;
        if batch.rows > 0 {
          var aligned := AlignBatch(cast, batch, target);
          if aligned.Err? {
            FailureStays(cast, stream, target, i + 1);
            return Err(Misaligned(aligned.error)), rows;
          }
          AcceptedIsValid(cast, batch, target);
          TotalPush(batches, aligned.value);
          rows := rows + aligned.value.rows;
          batches := batches + [aligned.value];
        }
      }
      assert stream[..|stream|] == stream;
      result := Ok(batches);
    }

    /** One batch, slice by slice; `calls` counts the calls of the writer. */
    method WriteBatch(batch: Batch<K, V>, writes: nat -> bool, calls: nat) returns (ok: bool, more: nat)
      requires batch.Valid()
      modifies this
      ensures snapshots == old(snapshots)
      ensures var all := Slices(RowsOf(batch));
              && more <= |all| && slices == old(slices) + all[..more]
              && (forall i :: calls <= i < calls + more ==> writes(i))
              && if ok then more == |all| else more < |all| && !writes(calls + more)
    {
      var offset := 0;
      ghost var all := Slices(RowsOf(batch));
      more := 0;
      while offset < batch.rows
        invariant offset <= batch.rows && snapshots == old(snapshots)
        invariant more <= |all| && all[more..] == Slices(RowsOf(batch)[offset..])
        invariant slices == old(slices) + all[..more]
        invariant forall i :: calls <= i < calls + more ==> writes(i)
        decreases batch.rows - offset
      {
        var len := if WRITE_SLICE_ROWS < batch.rows - offset then WRITE_SLICE_ROWS else batch.rows - offset;
        NextSlice(RowsOf(batch), all, more, offset, len);
        SliceRows(batch, offset, len);
        if !writes(calls + more) {
          return false, more;
        }
        slices := slices + [RowsOf(SliceOf(batch, offset, len))];
        offset := offset + len;
        more := more + 1;
      }
      assert RowsOf(batch)[offset..] == [];
      ok := true;
    }

    /** Every batch in order, until a write fails. */
    method WriteAll(batches: seq<Batch<K, V>>, writes: nat -> bool) returns (ok: bool)
      requires AllValid(batches)
      modifies this
      ensures snapshots == old(snapshots)
      ensures var all := SlicesOf(batches);
              var k := Accepted(writes, |all|);
              slices == old(slices) + all[..k] && (ok <==> k == |all|)
    {
      var calls := 0;
      for i := 0 to |batches|
        invariant snapshots == old(snapshots) && calls == |SlicesOf(batches[..i])|
        invariant slices == old(slices) + SlicesOf(batches[..i])
        invariant forall c :: 0 <= c < calls ==> writes(c)
      {
        SlicesThrough(batches, i);
        var done, more := WriteBatch(batches[i], writes, calls);
        if !done {
          StoppedAt(batches, i, writes, more);
          return false;
        }
        calls := calls + more;
      }
      assert batches[..|batches|] == batches;
      AcceptedIs(writes, calls, calls);
      ok := true;
    }

    /** An append: the checks, the writes, the commit. */
    method Append(lib: Library<K, V>, table: Table<K>, q: Request<K, V>, up: Upstream) returns (result: Result<bool, Failure>)
      requires KeepsRows(lib.cast) && StreamValid(q.stream)
      modifies this
      ensures (Contents(), result) == Appended(lib, table, q, up, old(Contents()))
    {
      var refusal := TableRefusal(lib, table, q);
      if refusal.Some? {
        return Err(refusal.value);
      }
      var read, rows := ReadAll(lib.cast, q.stream, table.schema.value);
      if read.Err? {
        return Err(read.error);
      }
      var batches := read.value;
      CheckedIsValid(lib, table, q);
      if rows == 0 {
        return Ok(false);
      }
      if !q.compressionKnown {
        return Err(UnknownCompression);
      }
      if !up.locates {
        return Err(NoLocation);
      }
      if !up.opens {
        return Err(WriteFailed);
      }
      var written := WriteAll(batches, up.writes);
      if !written || !up.closes {
        return Err(WriteFailed);
      }
      if !up.commits {
        return Err(CommitFailed);
      }
      var all := CollectRows(batches);
      snapshots := snapshots + [Snapshot(all, Zip(q.keys, q.values))];
      result := Ok(true);
    }

    /** The rows that the closed data files hold. */
    method CollectRows(batches: seq<Batch<K, V>>) returns (rows: seq<Row<V>>)
      requires AllValid(batches)
      ensures rows == AllRows(batches)
    {
      rows := [];
      for i := 0 to |batches|
        invariant rows + AllRows(batches[i..]) == AllRows(batches)
      {
        assert batches[i..][1..] == batches[i + 1..];
        rows := rows + RowsOf(batches[i]);
      }
    }
  }

  lemma {:induction false} SlicesConcat<K, V>(a: seq<Batch<K, V>>, b: seq<Batch<K, V>>)
    requires AllValid(a) && AllValid(b)
    ensures AllValid(a + b) && SlicesOf(a + b) == SlicesOf(a) + SlicesOf(b)
  {
    if a == [] {
      assert a + b == b;
    } else {
      SlicesConcat(a[1..], b);
      assert (a + b)[1..] == a[1..] + b;
      Reassociate(Slices(RowsOf(a[0])), SlicesOf(a[1..]), SlicesOf(b));
    }
  }

  lemma Reassociate<T>(a: seq<T>, b: seq<T>, c: seq<T>)
    ensures a + (b + c) == a + b + c
  {
  }

  lemma SlicesOfOne<K, V>(b: Batch<K, V>)
    requires b.Valid()
    ensures SlicesOf([b]) == Slices(RowsOf(b))
  {
    assert [b][1..] == [];
  }

  lemma SlicesThrough<K, V>(batches: seq<Batch<K, V>>, i: nat)
    requires AllValid(batches) && i < |batches|
    ensures SlicesOf(batches[..i + 1]) == SlicesOf(batches[..i]) + Slices(RowsOf(batches[i]))
  {
    SlicesOfOne(batches[i]);
    SlicesConcat(batches[..i], [batches[i]]);
    assert batches[..i + 1] == batches[..i] + [batches[i]];
  }

  lemma SlicesAround<K, V>(batches: seq<Batch<K, V>>, i: nat)
    requires AllValid(batches) && i < |batches|
    ensures SlicesOf(batches[..i + 1]) == SlicesOf(batches[..i]) + Slices(RowsOf(batches[i]))
    ensures SlicesOf(batches) == SlicesOf(batches[..i]) + Slices(RowsOf(batches[i])) + SlicesOf(batches[i + 1..])
  {
    SlicesThrough(batches, i);
    SlicesJoined(batches, batches[..i + 1], batches[i + 1..]);
  }

  lemma SlicesJoined<K, V>(batches: seq<Batch<K, V>>, before: seq<Batch<K, V>>, after: seq<Batch<K, V>>)
    requires AllValid(batches) && AllValid(before) && AllValid(after) && batches == before + after
    ensures SlicesOf(batches) == SlicesOf(before) + SlicesOf(after)
  {
    SlicesConcat(before, after);
  }

  lemma {:induction false} AcceptedIs(writes: nat -> bool, n: nat, k: nat)
    requires k <= n && (forall i :: 0 <= i < k ==> writes(i)) && (k < n ==> !writes(k))
    ensures Accepted(writes, n) == k
  {
    if n > 0 {
      AcceptedIs(writes, n - 1, if k == n then n - 1 else k);
    }
  }

  /** Where the writes stop when one of a batch's fails. */
  lemma StoppedAt<K, V>(batches: seq<Batch<K, V>>, i: nat, writes: nat -> bool, more: nat)
    requires AllValid(batches) && i < |batches| && more < |Slices(RowsOf(batches[i]))|
    requires var k := |SlicesOf(batches[..i])| + more; (forall c :: 0 <= c < k ==> writes(c)) && !writes(k)
    ensures var k := |SlicesOf(batches[..i])| + more;
            && k < |SlicesOf(batches)| && Accepted(writes, |SlicesOf(batches)|) == k
            && SlicesOf(batches)[..k] == SlicesOf(batches[..i]) + Slices(RowsOf(batches[i]))[..more]
  {
    SlicesAround(batches, i);
    AcceptedIs(writes, |SlicesOf(batches)|, |SlicesOf(batches[..i])| + more);
    TakeThrough(SlicesOf(batches[..i]), Slices(RowsOf(batches[i])), SlicesOf(batches[i + 1..]), more);
  }

  lemma TakeThrough<T>(a: seq<T>, b: seq<T>, c: seq<T>, k: nat)
    requires k <= |b|
    ensures (a + b + c)[..|a| + k] == a + b[..k]
  {
  }

  lemma {:induction false} TotalPush<K, V>(batches: seq<Batch<K, V>>, b: Batch<K, V>)
    ensures Total(batches + [b]) == Total(batches) + b.rows
  {
    if batches == [] {
      assert batches + [b] == [b];
    } else {
      TotalPush(batches[1..], b);
      assert (batches + [b])[1..] == batches[1..] + [b];
    }
  }

  lemma NextSlice<V>(rows: seq<Row<V>>, all: seq<seq<Row<V>>>, k: nat, offset: nat, len: nat)
    requires k <= |all| && offset < |rows| && all[k..] == Slices(rows[offset..]) && len == Len(|rows| - offset)
    ensures k < |all| && all[k] == rows[offset..offset + len] && all[..k + 1] == all[..k] + [all[k]]
    ensures all[k + 1..] == Slices(rows[offset + len..])
  {
    var rest := rows[offset..];
    assert rest[..len] == rows[offset..offset + len] && rest[len..] == rows[offset + len..];
    assert all[k..][0] == all[k] && all[k..][1..] == all[k + 1..];
  }

  // ---- what every append keeps ----

  /** Nothing is written for a table, or for data, that any check refuses; and nothing is for no rows. */
  lemma WritesNeedEveryCheck<K(!new), V(!new)>(lib: Library<K, V>, table: Table<K>, q: Request<K, V>, up: Upstream, s: State<V>)
    requires KeepsRows(lib.cast) && StreamValid(q.stream)
    requires Appended(lib, table, q, up, s).0 != s
    ensures table.partitionFields == 0 && |q.keys| == |q.values| && q.compressionKnown
    ensures DerivesNextLocation(q.catalogKind) && table.location.Some? ==> ConformingLocation(table.location.value, lib.uuid)
    ensures table.schema.Some? && forall i :: 0 <= i < |q.stream| ==>
              q.stream[i].Some? && (q.stream[i].value.rows > 0 ==> Aligned(lib.cast, q.stream[i].value, table.schema.value).Ok?)
    ensures exists i :: 0 <= i < |q.stream| && q.stream[i].Some? && q.stream[i].value.rows > 0
  {
    if table.location.Some? {
      CommittableLocations(table.location.value, lib.uuid);
    }
    StreamIsAligned(lib.cast, q.stream, table.schema.value);
  }

  lemma {:induction false} StreamIsAligned<K(!new), V(!new)>(cast: Cast<K, V>, stream: seq<Option<Batch<K, V>>>, target: seq<Field<K>>)
    requires KeepsRows(cast) && StreamValid(stream) && AlignedStream(cast, stream, target).Ok?
    ensures forall i :: 0 <= i < |stream| ==>
              stream[i].Some? && (stream[i].value.rows > 0 ==> Aligned(cast, stream[i].value, target).Ok?)
    ensures Total(AlignedStream(cast, stream, target).value) > 0 ==>
              exists i :: 0 <= i < |stream| && stream[i].Some? && stream[i].value.rows > 0
    decreases |stream|
  {
    if stream != [] {
      var last := |stream| - 1;
      StreamIsAligned(cast, stream[..last], target);
      assert forall i :: 0 <= i < last ==> stream[..last][i] == stream[i];
    }
  }

  /** How an append leaves the warehouse: what it adds to the files, and to the snapshots. */
  ghost predicate Extends<V>(s: State<V>, after: State<V>, result: Result<bool, Failure>) {
    && s.slices <= after.slices && s.snapshots <= after.snapshots
    && var added := after.slices[|s.slices|..];
       && GoodSlices(added)
       && if result == Ok(true) then
            && |after.snapshots| == |s.snapshots| + 1
            && after.snapshots[|s.snapshots|].rows == Flatten(added) != []
          else after.snapshots == s.snapshots
  }

  /** Only success adds a snapshot, of the rows whose slices were written; what was there stays. */
  lemma AppendExtends<K(!new), V(!new)>(lib: Library<K, V>, table: Table<K>, q: Request<K, V>, up: Upstream, s: State<V>)
    requires KeepsRows(lib.cast) && StreamValid(q.stream)
    ensures var (after, result) := Appended(lib, table, q, up, s); Extends(s, after, result)
  {
    var (after, result) := Appended(lib, table, q, up, s);
    if after != s {
      CheckedIsValid(lib, table, q);
      var batches := Checked(lib, table, q).value;
      var all := SlicesOf(batches);
      var k := Accepted(up.writes, |all|);
      SlicesAreTheRows(batches);
      assert all[..|all|] == all;
      assert (s.slices + all[..k])[|s.slices|..] == all[..k];
      TotalIsRows(batches);
    }
  }

  lemma {:induction false} TotalIsRows<K, V>(batches: seq<Batch<K, V>>)
    requires AllValid(batches)
    ensures |AllRows(batches)| == Total(batches)
  {
    if batches != [] {
      TotalIsRows(batches[1..]);
    }
  }

  /** On success the new slices join to the rows of the aligned batches, in order, and the new snapshot holds them. */
  lemma SuccessAppendsEveryRow<K(!new), V(!new)>(lib: Library<K, V>, table: Table<K>, q: Request<K, V>, up: Upstream, s: State<V>)
    requires KeepsRows(lib.cast) && StreamValid(q.stream)
    requires Appended(lib, table, q, up, s).1 == Ok(true)
    ensures var after := Appended(lib, table, q, up, s).0;
            var batches := Checked(lib, table, q).value;
            && AllValid(batches)
            && Flatten(after.slices[|s.slices|..]) == AllRows(batches)
            && after.snapshots == s.snapshots + [Snapshot(AllRows(batches), Zip(q.keys, q.values))]
  {
    CheckedIsValid(lib, table, q);
    var batches := Checked(lib, table, q).value;
    var all := SlicesOf(batches);
    SlicesAreTheRows(batches);
    assert all[..|all|] == all && (s.slices + all)[|s.slices|..] == all;
  }

  // ---- every run ----

  datatype Call<K, V> = Call(table: Table<K>, q: Request<K, V>, up: Upstream)

  ghost predicate CallsValid<K, V>(calls: seq<Call<K, V>>) {
    forall i :: 0 <= i < |calls| ==> StreamValid(calls[i].q.stream)
  }

  ghost function AfterRun<K(!new), V(!new)>(lib: Library<K, V>, calls: seq<Call<K, V>>): State<V>
    requires KeepsRows(lib.cast) && CallsValid(calls)
    decreases |calls|
  {
    if calls == [] then State([], [])
    else
      var last := |calls| - 1;
      Appended(lib, calls[last].table, calls[last].q, calls[last].up, AfterRun(lib, calls[..last])).0
  }

  /** The rows of a snapshot are those of slices that were written one after another. */
  ghost predicate Stored<V>(snapshot: Snapshot<V>, slices: seq<seq<Row<V>>>) {
    exists i, j :: 0 <= i <= j <= |slices| && snapshot.rows == Flatten(slices[i..j]) && snapshot.rows != []
  }

  ghost predicate Consistent<V>(s: State<V>) {
    GoodSlices(s.slices) && forall i :: 0 <= i < |s.snapshots| ==> Stored(s.snapshots[i], s.slices)
  }

  lemma ExtendingKeepsConsistent<V>(s: State<V>, after: State<V>, result: Result<bool, Failure>)
    requires Consistent(s) && Extends(s, after, result)
    ensures Consistent(after)
  {
    var n := |s.slices|;
    var added := after.slices[n..];
    assert after.slices == s.slices + added;
    forall i | 0 <= i < |after.snapshots|
      ensures Stored(after.snapshots[i], after.slices)
    {
      if i < |s.snapshots| {
        assert after.snapshots[i] == s.snapshots[i];
        var a, b :| 0 <= a <= b <= n && s.snapshots[i].rows == Flatten(s.slices[a..b]) && s.snapshots[i].rows != [];
        assert after.slices[a..b] == s.slices[a..b];
      } else {
        assert after.slices[n..|after.slices|] == added;
      }
    }
  }

  /** After every run of appends, failed and successful, each snapshot's rows are stored whole and in order. */
  lemma {:induction false} EveryRunIsConsistent<K(!new), V(!new)>(lib: Library<K, V>, calls: seq<Call<K, V>>)
    requires KeepsRows(lib.cast) && CallsValid(calls)
    ensures Consistent(AfterRun(lib, calls))
    decreases |calls|
  {
    if calls != [] {
      var last := |calls| - 1;
      var s := AfterRun(lib, calls[..last]);
      EveryRunIsConsistent(lib, calls[..last]);
      AppendExtends(lib, calls[last].table, calls[last].q, calls[last].up, s);
      ExtendingKeepsConsistent(s, AfterRun(lib, calls), Appended(lib, calls[last].table, calls[last].q, calls[last].up, s).1);
    }
  }
}
