/**
 What an append comes to, told from the request alone: when it succeeds, when there
 is nothing to do, and what each failure says.
 */
module AppendResults {
  import opened Outcomes
  import opened Align
  import opened MetadataNames
  import opened Append

  // ---- the request ----

  /** A batch that has rows can be aligned, and every batch can be read. */
  ghost predicate Sound<K, V>(cast: Cast<K, V>, batch: Option<Batch<K, V>>, target: seq<Field<K>>)
    requires batch.Some? ==> batch.value.Valid()
  {
    batch.Some? && (batch.value.rows > 0 ==> Aligned(cast, batch.value, target).Ok?)
  }

  ghost predicate AllSound<K, V>(cast: Cast<K, V>, stream: seq<Option<Batch<K, V>>>, target: seq<Field<K>>)
    requires StreamValid(stream)
  {
    forall i :: 0 <= i < |stream| ==> Sound(cast, stream[i], target)
  }

  predicate HasRows<K, V>(batch: Option<Batch<K, V>>) { batch.Some? && batch.value.rows > 0 }

  ghost predicate SomeRows<K, V>(stream: seq<Option<Batch<K, V>>>) { exists i :: 0 <= i < |stream| && HasRows(stream[i]) }

  /** A property for each of the values, and a table without partitions. */
  predicate Plain<K, V>(table: Table<K>, q: Request<K, V>) { |q.keys| == |q.values| && table.partitionFields == 0 }

  /** Where the catalog works out the next location from the current one, that follows the convention. */
  ghost predicate Locatable<K, V>(lib: Library<K, V>, table: Table<K>, q: Request<K, V>) {
    (q.catalogKind == "memory" || q.catalogKind == "glue") && table.location.Some? ==>
      ConformingLocation(table.location.value, lib.uuid)
  }

  /** Everything an append checks before it writes, but for the compression. */
  ghost predicate Passes<K, V>(lib: Library<K, V>, table: Table<K>, q: Request<K, V>)
    requires StreamValid(q.stream)
  {
    Plain(table, q) && Locatable(lib, table, q) && table.schema.Some? && AllSound(lib.cast, q.stream, table.schema.value)
  }

  /** How many calls of the writer the rows of a batch take: 65536 rows a call. */
  function CallsFor(rows: nat): nat { (rows + 65535) / 65536 }

  function CallsNeeded<K, V>(stream: seq<Option<Batch<K, V>>>): nat {
    if stream == [] then 0
    else (if HasRows(stream[0]) then CallsFor(stream[0].value.rows) else 0) + CallsNeeded(stream[1..])
  }

  ghost predicate AllWrite(up: Upstream, calls: nat) { forall i :: 0 <= i < calls ==> up.writes(i) }

  // ---- the stream ----

  lemma {:induction false} StreamSound<K, V>(cast: Cast<K, V>, stream: seq<Option<Batch<K, V>>>, target: seq<Field<K>>)
    requires StreamValid(stream)
    ensures AlignedStream(cast, stream, target).Ok? <==> AllSound(cast, stream, target)
    decreases |stream|
  {
    if stream != [] {
      var last := |stream| - 1;
      StreamSound(cast, stream[..last], target);
      assert AllSound(cast, stream, target) <==> AllSound(cast, stream[..last], target) && Sound(cast, stream[last], target);
    }
  }

  /** The batches that have rows, each in the place its number among them gives it. */
  lemma {:induction false} BatchesInOrder<K, V>(cast: Cast<K, V>, stream: seq<Option<Batch<K, V>>>, target: seq<Field<K>>)
    requires StreamValid(stream) && AlignedStream(cast, stream, target).Ok?
    ensures var batches := AlignedStream(cast, stream, target).value;
            && |batches| == Filled(stream)
            && forall i :: 0 <= i < |stream| && HasRows(stream[i]) ==>
                 Filled(stream[..i]) < |batches| && Aligned(cast, stream[i].value, target) == Ok(batches[Filled(stream[..i])])
    decreases |stream|
  {
    if stream != [] {
      var last := |stream| - 1;
      BatchesInOrder(cast, stream[..last], target);
      FilledLast(stream);
      forall i | 0 <= i < last
        ensures stream[..last][..i] == stream[..i] && stream[..last][i] == stream[i]
      {
      }
    }
  }

  /** How many of the batches have rows. */
  function Filled<K, V>(stream: seq<Option<Batch<K, V>>>): nat {
    if stream == [] then 0 else (if HasRows(stream[0]) then 1 else 0) + Filled(stream[1..])
  }

  lemma {:induction false} FilledLast<K, V>(stream: seq<Option<Batch<K, V>>>)
    requires stream != []
    ensures var last := |stream| - 1; Filled(stream) == Filled(stream[..last]) + if HasRows(stream[last]) then 1 else 0
  {
    var last := |stream| - 1;
    if last > 0 {
      FilledLast(stream[1..]);
      assert stream[1..][..last - 1] == stream[..last][1..];
    }
  }

  lemma {:induction false} CallsLast<K, V>(stream: seq<Option<Batch<K, V>>>)
    requires stream != []
    ensures var last := |stream| - 1;
            CallsNeeded(stream) == CallsNeeded(stream[..last]) + if HasRows(stream[last]) then CallsFor(stream[last].value.rows) else 0
  {
    var last := |stream| - 1;
    if last > 0 {
      CallsLast(stream[1..]);
      assert stream[1..][..last - 1] == stream[..last][1..];
    }
  }

  lemma {:induction false} SlicesCounted<V>(rows: seq<Row<V>>)
    ensures |Slices(rows)| == CallsFor(|rows|)
    ensures forall i :: 0 <= i < |Slices(rows)| - 1 ==> |Slices(rows)[i]| == 65536
    decreases |rows|
  {
    if rows != [] {
      var n := Len(|rows|);
      SlicesCounted(rows[n..]);
      assert Slices(rows)[1..] == Slices(rows[n..]);
    }
  }

  lemma {:induction false} StreamCounted<K(!new), V(!new)>(cast: Cast<K, V>, stream: seq<Option<Batch<K, V>>>, target: seq<Field<K>>)
    requires KeepsRows(cast) && StreamValid(stream) && AlignedStream(cast, stream, target).Ok?
    ensures AllValid(AlignedStream(cast, stream, target).value)
    ensures |SlicesOf(AlignedStream(cast, stream, target).value)| == CallsNeeded(stream)
    decreases |stream|
  {
    if stream != [] {
      var last := |stream| - 1;
      StreamCounted(cast, stream[..last], target);
      CallsLast(stream);
      if HasRows(stream[last]) {
        LastCounted(AlignedStream(cast, stream[..last], target).value, Aligned(cast, stream[last].value, target).value,
                    cast, stream[last].value, target);
      }
    }
  }

  lemma {:induction false} StreamTotal<K(!new), V(!new)>(cast: Cast<K, V>, stream: seq<Option<Batch<K, V>>>, target: seq<Field<K>>)
    requires KeepsRows(cast) && StreamValid(stream) && AlignedStream(cast, stream, target).Ok?
    ensures Total(AlignedStream(cast, stream, target).value) > 0 <==> SomeRows(stream)
    decreases |stream|
  {
    if stream != [] {
      var last := |stream| - 1;
      StreamTotal(cast, stream[..last], target);
      SomeRowsLast(stream);
      if HasRows(stream[last]) {
        AcceptedIsValid(cast, stream[last].value, target);
        TotalPush(AlignedStream(cast, stream[..last], target).value, Aligned(cast, stream[last].value, target).value);
      }
    }
  }

  lemma SomeRowsLast<K, V>(stream: seq<Option<Batch<K, V>>>)
    requires stream != []
    ensures SomeRows(stream) <==> SomeRows(stream[..|stream| - 1]) || HasRows(stream[|stream| - 1])
  {
    var before := stream[..|stream| - 1];
    if i :| 0 <= i < |before| && HasRows(before[i]) {
      assert HasRows(stream[i]);
    }
    if i :| 0 <= i < |stream| && HasRows(stream[i]) {
      assert i < |before| ==> HasRows(before[i]);
    }
  }

  lemma LastCounted<K(!new), V(!new)>(batches: seq<Batch<K, V>>, b: Batch<K, V>, cast: Cast<K, V>, batch: Batch<K, V>, target: seq<Field<K>>)
    requires KeepsRows(cast) && AllValid(batches) && batch.Valid() && Aligned(cast, batch, target) == Ok(b)
    ensures AllValid(batches + [b]) && |SlicesOf(batches + [b])| == |SlicesOf(batches)| + CallsFor(batch.rows)
  {
    AcceptedIsValid(cast, batch, target);
    SlicesConcat(batches, [b]);
    SlicesOfOne(b);
    SlicesCounted(RowsOf(b));
  }

  // ---- the outcome ----

  lemma LocationChecked<K, V>(lib: Library<K, V>, table: Table<K>, q: Request<K, V>)
    ensures Locatable(lib, table, q) <==>
            !(DerivesNextLocation(q.catalogKind) && table.location.Some? && UncommittableBecause(table.location.value, lib.uuid).Some?)
  {
    if table.location.Some? {
      CommittableLocations(table.location.value, lib.uuid);
    }
  }

  lemma ChecksPassed<K, V>(lib: Library<K, V>, table: Table<K>, q: Request<K, V>)
    requires StreamValid(q.stream)
    ensures Checked(lib, table, q).Ok? <==> Passes(lib, table, q)
  {
    LocationChecked(lib, table, q);
    if table.schema.Some? {
      StreamSound(lib.cast, q.stream, table.schema.value);
    }
  }

  lemma WritesCounted<V>(writes: nat -> bool, calls: nat)
    ensures Append.Accepted(writes, calls) == calls <==> forall i :: 0 <= i < calls ==> writes(i)
  {
  }

  lemma AfterChecks<K(!new), V(!new)>(lib: Library<K, V>, table: Table<K>, q: Request<K, V>, up: Upstream, s: State<V>)
    requires KeepsRows(lib.cast) && StreamValid(q.stream) && Passes(lib, table, q)
    ensures Checked(lib, table, q).Ok? && AllValid(Checked(lib, table, q).value) && |q.keys| == |q.values|
    ensures |SlicesOf(Checked(lib, table, q).value)| == CallsNeeded(q.stream)
    ensures Appended(lib, table, q, up, s) ==
            if !SomeRows(q.stream) then (s, Ok(false))
            else if !q.compressionKnown then (s, Err(UnknownCompression))
            else Written(Checked(lib, table, q).value, Zip(q.keys, q.values), up, s)
  {
    ChecksPassed(lib, table, q);
    StreamCounted(lib.cast, q.stream, table.schema.value);
    StreamTotal(lib.cast, q.stream, table.schema.value);
  }

  /**
   An append succeeds exactly if the keys and the values are as many, the table has no
   partitions and a schema, its location conforms where that matters, every batch can
   be read and every batch with rows aligned, some batch has rows, the compression is
   known, and every call upstream succeeds.
   */
  lemma SucceedsExactly<K(!new), V(!new)>(lib: Library<K, V>, table: Table<K>, q: Request<K, V>, up: Upstream, s: State<V>)
    requires KeepsRows(lib.cast) && StreamValid(q.stream)
    ensures Appended(lib, table, q, up, s).1 == Ok(true) <==>
            && Passes(lib, table, q) && SomeRows(q.stream) && q.compressionKnown
            && up.locates && up.opens && AllWrite(up, CallsNeeded(q.stream)) && up.closes && up.commits
  {
    ChecksPassed(lib, table, q);
    if Passes(lib, table, q) {
      AfterChecks(lib, table, q, up, s);
      WritesCounted<V>(up.writes, CallsNeeded(q.stream));
    }
  }

  /** There is nothing to append exactly if every check passes, and no batch has rows; nothing is then written. */
  lemma NothingToAppendExactly<K(!new), V(!new)>(lib: Library<K, V>, table: Table<K>, q: Request<K, V>, up: Upstream, s: State<V>)
    requires KeepsRows(lib.cast) && StreamValid(q.stream)
    ensures Appended(lib, table, q, up, s).1 == Ok(false) <==> Passes(lib, table, q) && !SomeRows(q.stream)
    ensures Appended(lib, table, q, up, s).1 == Ok(false) ==> Appended(lib, table, q, up, s).0 == s
  {
    ChecksPassed(lib, table, q);
    if Passes(lib, table, q) {
      AfterChecks(lib, table, q, up, s);
    }
  }

  // ---- the failures ----

  /** The first batch of the stream that cannot be read, or cannot be aligned. */
  ghost predicate FirstUnsound<K, V>(cast: Cast<K, V>, stream: seq<Option<Batch<K, V>>>, target: seq<Field<K>>, i: int)
    requires StreamValid(stream)
  {
    0 <= i < |stream| && !Sound(cast, stream[i], target) && forall j :: 0 <= j < i ==> Sound(cast, stream[j], target)
  }

  lemma UnsoundFails<K, V>(cast: Cast<K, V>, stream: seq<Option<Batch<K, V>>>, target: seq<Field<K>>, i: nat)
    requires StreamValid(stream) && FirstUnsound(cast, stream, target, i)
    ensures AlignedStream(cast, stream, target) ==
            match stream[i] case None => Err(Unreadable) case Some(b) => Err(Misaligned(Aligned(cast, b, target).error))
  {
    StreamSound(cast, stream[..i], target);
    assert stream[..i + 1][..i] == stream[..i];
    FailureStays(cast, stream, target, i + 1);
  }

  lemma {:induction false} SomeUnsound<K, V>(cast: Cast<K, V>, stream: seq<Option<Batch<K, V>>>, target: seq<Field<K>>) returns (i: nat)
    requires StreamValid(stream) && !AllSound(cast, stream, target)
    ensures FirstUnsound(cast, stream, target, i)
  {
    var last := |stream| - 1;
    if AllSound(cast, stream[..last], target) {
      assert forall j :: 0 <= j < last ==> Sound(cast, stream[..last][j], target) && stream[..last][j] == stream[j];
      i := last;
    } else {
      i := SomeUnsound(cast, stream[..last], target);
      assert forall j :: 0 <= j <= i ==> stream[..last][j] == stream[j];
    }
  }

  /** What each failure says: of the request, or of the calls upstream. */
  ghost predicate Explains<K, V>(lib: Library<K, V>, table: Table<K>, q: Request<K, V>, up: Upstream, e: Failure)
    requires StreamValid(q.stream)
  {
    match e
    case PropertyLengths => |q.keys| != |q.values|
    case Partitioned => |q.keys| == |q.values| && table.partitionFields > 0
    case Uncommittable(why) =>
      && Plain(table, q) && !Locatable(lib, table, q)
      && UncommittableBecause(table.location.value, lib.uuid) == Some(why)
    case NoArrowSchema => Plain(table, q) && Locatable(lib, table, q) && table.schema.None?
    case Unreadable =>
      && Plain(table, q) && Locatable(lib, table, q) && table.schema.Some?
      && exists i :: FirstUnsound(lib.cast, q.stream, table.schema.value, i) && q.stream[i].None?
    case Misaligned(misfit) =>
      && Plain(table, q) && Locatable(lib, table, q) && table.schema.Some?
      && exists i :: FirstUnsound(lib.cast, q.stream, table.schema.value, i) && q.stream[i].Some?
                     && Aligned(lib.cast, q.stream[i].value, table.schema.value) == Err(misfit)
    case UnknownCompression => Passes(lib, table, q) && SomeRows(q.stream) && !q.compressionKnown
    case NoLocation => Passes(lib, table, q) && SomeRows(q.stream) && q.compressionKnown && !up.locates
    case WriteFailed =>
      && Passes(lib, table, q) && SomeRows(q.stream) && q.compressionKnown && up.locates
      && !(up.opens && AllWrite(up, CallsNeeded(q.stream)) && up.closes)
    case CommitFailed =>
      && Passes(lib, table, q) && SomeRows(q.stream) && q.compressionKnown && up.locates
      && up.opens && AllWrite(up, CallsNeeded(q.stream)) && up.closes && !up.commits
  }

  lemma ChecksFail<K, V>(lib: Library<K, V>, table: Table<K>, q: Request<K, V>, up: Upstream)
    requires StreamValid(q.stream) && Checked(lib, table, q).Err?
    ensures Explains(lib, table, q, up, Checked(lib, table, q).error)
  {
    LocationChecked(lib, table, q);
    if Plain(table, q) && Locatable(lib, table, q) && table.schema.Some? {
      StreamSound(lib.cast, q.stream, table.schema.value);
      var i := SomeUnsound(lib.cast, q.stream, table.schema.value);
      UnsoundFails(lib.cast, q.stream, table.schema.value, i);
    }
  }

  /** An append that fails fails for the first reason there is, and for no other. */
  lemma FailsFor<K(!new), V(!new)>(lib: Library<K, V>, table: Table<K>, q: Request<K, V>, up: Upstream, s: State<V>)
    requires KeepsRows(lib.cast) && StreamValid(q.stream) && Appended(lib, table, q, up, s).1.Err?
    ensures Explains(lib, table, q, up, Appended(lib, table, q, up, s).1.error)
  {
    ChecksPassed(lib, table, q);
    if Passes(lib, table, q) {
      AfterChecks(lib, table, q, up, s);
      WritesCounted<V>(up.writes, CallsNeeded(q.stream));
    } else {
      ChecksFail(lib, table, q, up);
    }
  }

  /** The writer is reached. */
  ghost predicate Starts<K, V>(lib: Library<K, V>, table: Table<K>, q: Request<K, V>, up: Upstream)
    requires StreamValid(q.stream)
  {
    Passes(lib, table, q) && SomeRows(q.stream) && q.compressionKnown && up.locates && up.opens
  }

  /** The slices handed over are those before the first call that fails, and there are none if the writer is not reached. */
  lemma LeavesBehind<K(!new), V(!new)>(lib: Library<K, V>, table: Table<K>, q: Request<K, V>, up: Upstream, s: State<V>) returns (k: nat)
    requires KeepsRows(lib.cast) && StreamValid(q.stream)
    ensures |Appended(lib, table, q, up, s).0.slices| == |s.slices| + k
    ensures if Starts(lib, table, q, up) then k <= CallsNeeded(q.stream) && AllWrite(up, k) && (k < CallsNeeded(q.stream) ==> !up.writes(k))
            else k == 0
  {
    ChecksPassed(lib, table, q);
    k := 0;
    if Passes(lib, table, q) {
      AfterChecks(lib, table, q, up, s);
      if Starts(lib, table, q, up) {
        k := Append.Accepted(up.writes, CallsNeeded(q.stream));
      }
    }
  }

  // ---- the rows ----

  lemma RowsOfFirst<K, V>(a: seq<Batch<K, V>>, b: seq<Batch<K, V>>)
    requires a != [] && AllValid(a) && AllValid(b)
    ensures AllValid(a + b) && AllValid(a[1..] + b) && AllRows(a + b) == RowsOf(a[0]) + AllRows(a[1..] + b)
  {
    assert (a + b)[0] == a[0] && (a + b)[1..] == a[1..] + b;
  }

  lemma {:induction false} AllRowsConcat<K, V>(a: seq<Batch<K, V>>, b: seq<Batch<K, V>>)
    requires AllValid(a) && AllValid(b)
    ensures AllValid(a + b) && AllRows(a + b) == AllRows(a) + AllRows(b)
  {
    if a == [] {
      assert a + b == b;
    } else {
      AllRowsConcat(a[1..], b);
      RowsOfFirst(a, b);
      Reassociate(RowsOf(a[0]), AllRows(a[1..]), AllRows(b));
    }
  }

  lemma RowsOfOne<K, V>(b: Batch<K, V>)
    requires b.Valid()
    ensures AllRows([b]) == RowsOf(b)
  {
    assert [b][1..] == [];
  }

  lemma RowsAround<K, V>(before: seq<Batch<K, V>>, b: Batch<K, V>, after: seq<Batch<K, V>>)
    requires AllValid(before) && AllValid(after) && b.Valid()
    ensures AllValid(before + [b] + after) && AllRows(before + [b] + after) == AllRows(before) + RowsOf(b) + AllRows(after)
  {
    AllRowsConcat(before, [b]);
    AllRowsConcat(before + [b], after);
    RowsOfOne(b);
  }

  /** The r-th row of a batch has the r-th cell of each column, and comes after every row of the batches before. */
  lemma RowsInPlace<K, V>(before: seq<Batch<K, V>>, b: Batch<K, V>, after: seq<Batch<K, V>>, r: nat, c: nat)
    requires AllValid(before) && AllValid(after) && b.Valid() && r < b.rows && c < |b.columns|
    ensures AllValid(before + [b] + after)
    ensures var n := |AllRows(before)| + r;
            var rows := AllRows(before + [b] + after);
            n < |rows| && |rows[n]| == |b.columns| && rows[n][c] == b.columns[c].cells[r]
  {
    RowsAround(before, b, after);
  }

  // ---- the properties ----

  /** The value a key comes with last, and nothing but the keys. */
  lemma {:induction false} LastValueWins(keys: seq<string>, values: seq<string>, key: string)
    requires |keys| == |values|
    ensures key in Zip(keys, values) <==> key in keys
    ensures forall i :: 0 <= i < |keys| && keys[i] == key && key !in keys[i + 1..] ==> Zip(keys, values)[key] == values[i]
  {
    if keys != [] {
      var last := |keys| - 1;
      LastValueWins(keys[..last], values[..last], key);
      assert keys == keys[..last] + [keys[last]];
      forall i | 0 <= i < last && keys[i] == key && key !in keys[i + 1..]
        ensures Zip(keys, values)[key] == values[i]
      {
        assert keys[i + 1..] == keys[..last][i + 1..] + [keys[last]];
      }
    }
  }
}
