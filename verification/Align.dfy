/** Reshaping a batch of data onto the table's own columns, matched by name. */
module Align {
  import opened Outcomes

  /** A column of data: its type, and its cells, null or not. */
  datatype Column<K, V> = Column(kind: K, cells: seq<Option<V>>)

  /** Named columns of one length. */
  datatype Batch<K, V> = Batch(names: seq<string>, columns: seq<Column<K, V>>, rows: nat) {
    ghost predicate Valid() {
      |names| == |columns| && forall i :: 0 <= i < |columns| ==> |columns[i].cells| == rows
    }
  }

  datatype Field<K> = Field(name: string, kind: K, required: bool)

  datatype Misfit =
    | Repeated(names: set<string>)
    | Unexpected(names: set<string>)
    | Missing(name: string)
    | NoCast(name: string)
    | DoesNotFit

  /** Casting a column to another type, refused when some value cannot be represented. */
  type Cast<!K, !V> = (Column<K, V>, K) -> Option<Column<K, V>>

  ghost predicate KeepsRows<K(!new), V(!new)>(cast: Cast<K, V>) {
    forall c, k :: cast(c, k).Some? ==> cast(c, k).value.kind == k && |cast(c, k).value.cells| == |c.cells|
  }

  // ---- what it computes ----

  /** The names that come more than once. */
  ghost function RepeatedNames(names: seq<string>): set<string> {
    set i, j | 0 <= i < j < |names| && names[i] == names[j] :: names[i]
  }

  ghost function FieldNames<K>(target: seq<Field<K>>): set<string> { set f | f in target :: f.name }

  ghost function UnexpectedNames<K>(names: seq<string>, target: seq<Field<K>>): set<string> {
    set n | n in names && n !in FieldNames(target)
  }

  /** Where a name comes first. */
  function IndexOf(names: seq<string>, name: string): (i: Option<nat>)
    ensures i.Some? ==> i.value < |names| && names[i.value] == name && name !in names[..i.value]
    ensures i.None? ==> name !in names
  {
    if names == [] then None
    else if names[0] == name then Some(0)
    else match IndexOf(names[1..], name) case Some(i) => Some(i + 1) case None => None
  }

  function ColumnFor<K(==), V>(cast: Cast<K, V>, batch: Batch<K, V>, field: Field<K>): Result<Column<K, V>, Misfit>
    requires |batch.names| == |batch.columns|
  {
    match IndexOf(batch.names, field.name)
    case None => Err(Missing(field.name))
    case Some(i) =>
      var column := batch.columns[i];
      if column.kind == field.kind then Ok(column)
      else match cast(column, field.kind) case Some(c) => Ok(c) case None => Err(NoCast(field.name))
  }

  /** The columns of the table's first fields, or the first misfit among them. */
  function ColumnsFor<K(==), V>(cast: Cast<K, V>, batch: Batch<K, V>, fields: seq<Field<K>>): Result<seq<Column<K, V>>, Misfit>
    requires |batch.names| == |batch.columns|
    decreases |fields|
  {
    if fields == [] then Ok([])
    else
      var last := |fields| - 1;
      var before :- ColumnsFor(cast, batch, fields[..last]);
      var column :- ColumnFor(cast, batch, fields[last]);
      Ok(before + [column])
  }

  /** A batch has some column, and no null where the table requires a value. */
  predicate Fits<K, V(==)>(fields: seq<Field<K>>, columns: seq<Column<K, V>>)
    requires |fields| == |columns|
  {
    columns != [] && forall i :: 0 <= i < |fields| ==> !(fields[i].required && None in columns[i].cells)
  }

  lemma {:induction false} ColumnsForLength<K, V>(cast: Cast<K, V>, batch: Batch<K, V>, fields: seq<Field<K>>)
    requires |batch.names| == |batch.columns| && ColumnsFor(cast, batch, fields).Ok?
    ensures |ColumnsFor(cast, batch, fields).value| == |fields|
    decreases |fields|
  {
    if fields != [] {
      ColumnsForLength(cast, batch, fields[..|fields| - 1]);
    }
  }

  ghost function Names<K>(fields: seq<Field<K>>): (r: seq<string>)
    ensures |r| == |fields|
  {
    seq(|fields|, i requires 0 <= i < |fields| => fields[i].name)
  }

  ghost function Aligned<K, V>(cast: Cast<K, V>, batch: Batch<K, V>, target: seq<Field<K>>): Result<Batch<K, V>, Misfit>
    requires batch.Valid()
  {
    if RepeatedNames(batch.names) != {} then Err(Repeated(RepeatedNames(batch.names)))
    else if UnexpectedNames(batch.names, target) != {} then Err(Unexpected(UnexpectedNames(batch.names, target)))
    else
      match ColumnsFor(cast, batch, target)
      case Err(e) => Err(e)
      case Ok(columns) =>
        ColumnsForLength(cast, batch, target);
        if Fits(target, columns) then Ok(Batch(Names(target), columns, batch.rows)) else Err(DoesNotFit)
  }

  // ---- the loops ----

  method AlignBatch<K(==), V(==)>(cast: Cast<K, V>, batch: Batch<K, V>, target: seq<Field<K>>)
    returns (result: Result<Batch<K, V>, Misfit>)
    requires batch.Valid()
    ensures result == Aligned(cast, batch, target)
  {
    var repeated := CollectRepeated(batch.names);
    if repeated != {} {
      return Err(Repeated(repeated));
    }
    var unexpected := CollectUnexpected(batch.names, target);
    if unexpected != {} {
      return Err(Unexpected(unexpected));
    }
    var columns: seq<Column<K, V>> := [];
    for i := 0 to |target|
      invariant ColumnsFor(cast, batch, target[..i]) == Ok(columns)
    {
      assert target[..i + 1][..i] == target[..i];
      var found := ColumnFor(cast, batch, target[i]);
      if found.Err? {
        FirstMisfit(cast, batch, target, i + 1);
        return Err(found.error);
      }
      columns := columns + [found.value];
    }
    assert target[..|target|] == target;
    ColumnsForLength(cast, batch, target);
    var names := [];
    for i := 0 to |target|
      invariant names == Names(target)[..i]
    {
      names := names + [target[i].name];
    }
    assert names == Names(target);
    result := if Fits(target, columns) then Ok(Batch(names, columns, batch.rows)) else Err(DoesNotFit);
  }

  lemma {:induction false} FirstMisfit<K, V>(cast: Cast<K, V>, batch: Batch<K, V>, fields: seq<Field<K>>, k: nat)
    requires |batch.names| == |batch.columns| && k <= |fields| && ColumnsFor(cast, batch, fields[..k]).Err?
    ensures ColumnsFor(cast, batch, fields) == ColumnsFor(cast, batch, fields[..k])
    decreases |fields|
  {
    if k == |fields| {
      assert fields[..k] == fields;
    } else {
      var before := fields[..|fields| - 1];
      assert before[..k] == fields[..k];
      FirstMisfit(cast, batch, before, k);
    }
  }

  method CollectRepeated(names: seq<string>) returns (repeated: set<string>)
    ensures repeated == RepeatedNames(names)
  {
    var seen := {};
    repeated := {};
    for k := 0 to |names|
      invariant seen == set n | n in names[..k]
      invariant repeated == RepeatedNames(names[..k])
    {
      OneMoreName(names, k);
      if names[k] in seen {
        repeated := repeated + {names[k]};
      }
      seen := seen + {names[k]};
    }
    assert names[..|names|] == names;
  }

  lemma OneMoreName(names: seq<string>, k: nat)
    requires k < |names|
    ensures names[..k + 1] == names[..k] + [names[k]]
    ensures RepeatedNames(names[..k + 1]) == RepeatedNames(names[..k]) + (if names[k] in names[..k] then {names[k]} else {})
  {
    var before, after := names[..k], names[..k + 1];
    forall n | n in RepeatedNames(after)
      ensures n in RepeatedNames(before) || (n == names[k] && n in before)
    {
      var i, j :| 0 <= i < j < |after| && after[i] == after[j] && after[i] == n;
      if j < k {
        assert before[i] == before[j];
      } else {
        assert before[i] == n;
      }
    }
    forall n | n in RepeatedNames(before)
      ensures n in RepeatedNames(after)
    {
      var i, j :| 0 <= i < j < |before| && before[i] == before[j] && before[i] == n;
      assert after[i] == after[j] == n;
    }
    if names[k] in before {
      var i :| 0 <= i < |before| && before[i] == names[k];
      assert after[i] == after[k];
    }
  }

  method CollectUnexpected<K>(names: seq<string>, target: seq<Field<K>>) returns (unexpected: set<string>)
    ensures unexpected == UnexpectedNames(names, target)
  {
    unexpected := {};
    for k := 0 to |names|
      invariant unexpected == UnexpectedNames(names[..k], target)
    {
      assert names[..k + 1] == names[..k] + [names[k]];
      var known := HasField(target, names[k]);
      if !known {
        unexpected := unexpected + {names[k]};
      }
    }
    assert names[..|names|] == names;
  }

  method HasField<K>(target: seq<Field<K>>, name: string) returns (found: bool)
    ensures found <==> name in FieldNames(target)
  {
    for i := 0 to |target|
      invariant forall j :: 0 <= j < i ==> target[j].name != name
    {
      if target[i].name == name {
        return true;
      }
    }
    found := false;
  }

  // ---- when a batch is accepted ----

  /** What a field of the table takes from the batch. */
  ghost predicate Supplies<K, V>(cast: Cast<K, V>, batch: Batch<K, V>, field: Field<K>, column: Column<K, V>)
    requires |batch.names| == |batch.columns|
  {
    exists i :: 0 <= i < |batch.names| && batch.names[i] == field.name &&
      if batch.columns[i].kind == field.kind then column == batch.columns[i]
      else cast(batch.columns[i], field.kind) == Some(column)
  }

  lemma ColumnForIs<K, V>(cast: Cast<K, V>, batch: Batch<K, V>, field: Field<K>, column: Column<K, V>)
    requires |batch.names| == |batch.columns| && RepeatedNames(batch.names) == {}
    ensures ColumnFor(cast, batch, field) == Ok(column) <==> Supplies(cast, batch, field, column)
  {
    if Supplies(cast, batch, field, column) {
      var i :| 0 <= i < |batch.names| && batch.names[i] == field.name &&
        if batch.columns[i].kind == field.kind then column == batch.columns[i]
        else cast(batch.columns[i], field.kind) == Some(column);
      var j := IndexOf(batch.names, field.name);
      assert field.name in batch.names;
      SameIndex(batch.names, i, j.value);
    }
  }

  lemma SameIndex(names: seq<string>, i: nat, j: nat)
    requires RepeatedNames(names) == {} && i < |names| && j < |names| && names[i] == names[j]
    ensures i == j
  {
    if i != j {
      AtBoth(names, i, j);
    }
  }

  lemma {:induction false} ColumnsForAre<K, V>(cast: Cast<K, V>, batch: Batch<K, V>, fields: seq<Field<K>>, columns: seq<Column<K, V>>)
    requires |batch.names| == |batch.columns| && RepeatedNames(batch.names) == {} && |columns| == |fields|
    ensures ColumnsFor(cast, batch, fields) == Ok(columns) <==>
            forall i :: 0 <= i < |fields| ==> Supplies(cast, batch, fields[i], columns[i])
    decreases |fields|
  {
    if fields != [] {
      var last := |fields| - 1;
      ColumnsForAre(cast, batch, fields[..last], columns[..last]);
      ColumnForIs(cast, batch, fields[last], columns[last]);
      assert columns == columns[..last] + [columns[last]];
      if ColumnsFor(cast, batch, fields) == Ok(columns) {
        var before := ColumnsFor(cast, batch, fields[..last]).value;
        assert columns[..last] == before;
      }
    }
  }

  /**
   A batch is accepted exactly when its names are the table's, each once, every
   column can be supplied, there is one, and none that is required has a null; the
   result is in table order, under the table's names.
   */
  lemma AcceptedExactly<K, V>(cast: Cast<K, V>, batch: Batch<K, V>, target: seq<Field<K>>, columns: seq<Column<K, V>>)
    requires batch.Valid() && |columns| == |target|
    ensures Aligned(cast, batch, target) == Ok(Batch(Names(target), columns, batch.rows)) <==>
            && EachOnce(batch.names)
            && (forall n :: n in batch.names <==> exists f :: f in target && f.name == n)
            && (forall i :: 0 <= i < |target| ==> Supplies(cast, batch, target[i], columns[i]))
            && target != [] && forall i :: 0 <= i < |target| && target[i].required ==> None !in columns[i].cells
    ensures forall i :: 0 <= i < |target| ==> Names(target)[i] == target[i].name
  {
    EachOnceIs(batch.names);
    assert (set n | n in batch.names) == FieldNames(target) <==>
           forall n :: n in batch.names <==> exists f :: f in target && f.name == n by {
      SameSets(batch.names, target);
    }
    if RepeatedNames(batch.names) == {} {
      ColumnsForAre(cast, batch, target, columns);
      if forall i :: 0 <= i < |target| ==> Supplies(cast, batch, target[i], columns[i]) {
        SuppliedNames(cast, batch, target, columns);
      }
    }
  }

  predicate EachOnce(names: seq<string>) { forall i, j :: 0 <= i < j < |names| ==> names[i] != names[j] }

  lemma EachOnceIs(names: seq<string>)
    ensures RepeatedNames(names) == {} <==> EachOnce(names)
    ensures forall n :: n in RepeatedNames(names) <==> exists i, j :: 0 <= i < j < |names| && names[i] == names[j] == n
  {
    if !EachOnce(names) {
      var i, j :| 0 <= i < j < |names| && names[i] == names[j];
      AtBoth(names, i, j);
    }
  }

  lemma SameSets<K>(names: seq<string>, target: seq<Field<K>>)
    ensures (set n | n in names) == FieldNames(target) <==> forall n :: n in names <==> exists f :: f in target && f.name == n
  {
    forall n
      ensures n in FieldNames(target) <==> exists f :: f in target && f.name == n
      ensures n in (set m | m in names) <==> n in names
    {
    }
  }

  /** When every field is supplied, the names are the table's unless one is unexpected. */
  lemma SuppliedNames<K, V>(cast: Cast<K, V>, batch: Batch<K, V>, target: seq<Field<K>>, columns: seq<Column<K, V>>)
    requires |batch.names| == |batch.columns| && |columns| == |target|
    requires forall i :: 0 <= i < |target| ==> Supplies(cast, batch, target[i], columns[i])
    ensures (set n | n in batch.names) == FieldNames(target) <==> UnexpectedNames(batch.names, target) == {}
  {
    var names := set n | n in batch.names;
    forall n | n in FieldNames(target)
      ensures n in names
    {
      var f :| f in target && f.name == n;
      var i :| 0 <= i < |target| && target[i] == f;
      assert Supplies(cast, batch, target[i], columns[i]);
    }
    if UnexpectedNames(batch.names, target) == {} {
      forall n | n in names
        ensures n in FieldNames(target)
      {
        assert n !in UnexpectedNames(batch.names, target);
      }
    }
  }

  /** An accepted batch has the table's names and types, and as many rows as before. */
  lemma AcceptedIsValid<K(!new), V(!new)>(cast: Cast<K, V>, batch: Batch<K, V>, target: seq<Field<K>>)
    requires KeepsRows(cast) && batch.Valid() && Aligned(cast, batch, target).Ok?
    ensures var b := Aligned(cast, batch, target).value;
            && b.Valid() && b.rows == batch.rows && b.names == Names(target)
            && forall i :: 0 <= i < |target| ==> b.columns[i].kind == target[i].kind
  {
    var b := Aligned(cast, batch, target).value;
    ColumnsForLength(cast, batch, target);
    AcceptedExactly(cast, batch, target, b.columns);
    forall i | 0 <= i < |target|
      ensures b.columns[i].kind == target[i].kind && |b.columns[i].cells| == batch.rows
    {
      assert Supplies(cast, batch, target[i], b.columns[i]);
    }
  }

  // ---- why a batch is refused ----

  /** The batch has a column of the field's name, of its type or that can be cast to it. */
  ghost predicate Supplied<K, V>(cast: Cast<K, V>, batch: Batch<K, V>, field: Field<K>)
    requires |batch.names| == |batch.columns|
  {
    exists i :: 0 <= i < |batch.names| && batch.names[i] == field.name &&
      (batch.columns[i].kind == field.kind || cast(batch.columns[i], field.kind).Some?)
  }

  /** The first field that the batch does not supply. */
  ghost predicate Lacks<K, V>(cast: Cast<K, V>, batch: Batch<K, V>, target: seq<Field<K>>, k: int)
    requires |batch.names| == |batch.columns|
  {
    0 <= k < |target| && !Supplied(cast, batch, target[k]) && forall i :: 0 <= i < k ==> Supplied(cast, batch, target[i])
  }

  ghost predicate Named<K>(target: seq<Field<K>>, n: string) { exists f :: f in target && f.name == n }

  ghost predicate AllNamed<K>(names: seq<string>, target: seq<Field<K>>) { forall n :: n in names ==> Named(target, n) }

  /** What each refusal says of the batch. */
  ghost predicate Refuses<K, V>(cast: Cast<K, V>, batch: Batch<K, V>, target: seq<Field<K>>, e: Misfit)
    requires |batch.names| == |batch.columns|
  {
    match e
    case Repeated(ns) => ns != {} && forall n :: n in ns <==> exists i, j :: 0 <= i < j < |batch.names| && batch.names[i] == batch.names[j] == n
    case Unexpected(ns) =>
      EachOnce(batch.names) && ns != {} && forall n :: n in ns <==> n in batch.names && !Named(target, n)
    case Missing(name) =>
      && EachOnce(batch.names) && AllNamed(batch.names, target) && name !in batch.names
      && exists k :: Lacks(cast, batch, target, k) && target[k].name == name
    case NoCast(name) =>
      && EachOnce(batch.names) && AllNamed(batch.names, target) && name in batch.names
      && exists k :: Lacks(cast, batch, target, k) && target[k].name == name
    case DoesNotFit =>
      && EachOnce(batch.names) && AllNamed(batch.names, target)
      && (forall i :: 0 <= i < |target| ==> Supplied(cast, batch, target[i]))
      && var columns := ColumnsFor(cast, batch, target);
         columns.Ok? && |columns.value| == |target|
         && (target == [] || exists i :: 0 <= i < |target| && target[i].required && None in columns.value[i].cells)
  }

  lemma SuppliedIs<K, V>(cast: Cast<K, V>, batch: Batch<K, V>, field: Field<K>)
    requires |batch.names| == |batch.columns| && EachOnce(batch.names)
    ensures Supplied(cast, batch, field) <==> ColumnFor(cast, batch, field).Ok?
    ensures !Supplied(cast, batch, field) ==>
              ColumnFor(cast, batch, field) == Err(if field.name in batch.names then NoCast(field.name) else Missing(field.name))
  {
    var at := IndexOf(batch.names, field.name);
    if at.Some? {
      forall i | 0 <= i < |batch.names| && batch.names[i] == field.name
        ensures i == at.value
      {
      }
    }
  }

  lemma {:induction false} AllFound<K, V>(cast: Cast<K, V>, batch: Batch<K, V>, fields: seq<Field<K>>)
    requires |batch.names| == |batch.columns|
    ensures ColumnsFor(cast, batch, fields).Ok? <==> forall i :: 0 <= i < |fields| ==> ColumnFor(cast, batch, fields[i]).Ok?
    decreases |fields|
  {
    if fields != [] {
      AllFound(cast, batch, fields[..|fields| - 1]);
    }
  }

  lemma FirstNotFound<K, V>(cast: Cast<K, V>, batch: Batch<K, V>, fields: seq<Field<K>>, k: nat)
    requires |batch.names| == |batch.columns| && k < |fields| && ColumnFor(cast, batch, fields[k]).Err?
    requires forall i :: 0 <= i < k ==> ColumnFor(cast, batch, fields[i]).Ok?
    ensures ColumnsFor(cast, batch, fields) == Err(ColumnFor(cast, batch, fields[k]).error)
  {
    AllFound(cast, batch, fields[..k]);
    assert fields[..k + 1][..k] == fields[..k];
    FirstMisfit(cast, batch, fields, k + 1);
  }

  lemma LacksFirst<K, V>(cast: Cast<K, V>, batch: Batch<K, V>, fields: seq<Field<K>>, k: nat)
    requires |batch.names| == |batch.columns| && EachOnce(batch.names) && Lacks(cast, batch, fields, k)
    ensures ColumnsFor(cast, batch, fields) == Err(ColumnFor(cast, batch, fields[k]).error)
  {
    forall i | 0 <= i <= k
      ensures ColumnFor(cast, batch, fields[i]).Ok? <==> i < k
    {
      SuppliedIs(cast, batch, fields[i]);
    }
    FirstNotFound(cast, batch, fields, k);
  }

  lemma AllSupplied<K, V>(cast: Cast<K, V>, batch: Batch<K, V>, fields: seq<Field<K>>)
    requires |batch.names| == |batch.columns| && EachOnce(batch.names)
    ensures ColumnsFor(cast, batch, fields).Ok? <==> forall i :: 0 <= i < |fields| ==> Supplied(cast, batch, fields[i])
  {
    forall i | 0 <= i < |fields|
      ensures Supplied(cast, batch, fields[i]) <==> ColumnFor(cast, batch, fields[i]).Ok?
    {
      SuppliedIs(cast, batch, fields[i]);
    }
    AllFound(cast, batch, fields);
  }

  lemma {:induction false} SomeLacks<K, V>(cast: Cast<K, V>, batch: Batch<K, V>, fields: seq<Field<K>>) returns (k: nat)
    requires |batch.names| == |batch.columns| && exists i :: 0 <= i < |fields| && !Supplied(cast, batch, fields[i])
    ensures Lacks(cast, batch, fields, k)
  {
    var last := |fields| - 1;
    if exists i :: 0 <= i < last && !Supplied(cast, batch, fields[i]) {
      var i :| 0 <= i < last && !Supplied(cast, batch, fields[i]);
      assert fields[..last][i] == fields[i];
      k := SomeLacks(cast, batch, fields[..last]);
    } else {
      k := last;
    }
  }

  lemma UnexpectedAre<K>(names: seq<string>, target: seq<Field<K>>)
    ensures forall n :: n in UnexpectedNames(names, target) <==> n in names && !Named(target, n)
    ensures UnexpectedNames(names, target) == {} <==> AllNamed(names, target)
  {
    forall n
      ensures n in FieldNames(target) <==> Named(target, n)
    {
    }
    if AllNamed(names, target) {
      assert forall n :: n !in UnexpectedNames(names, target);
    }
  }

  /** A batch that is refused is refused for the first reason there is, and for no other. */
  lemma RefusedFor<K, V>(cast: Cast<K, V>, batch: Batch<K, V>, target: seq<Field<K>>)
    requires batch.Valid() && Aligned(cast, batch, target).Err?
    ensures Refuses(cast, batch, target, Aligned(cast, batch, target).error)
  {
    EachOnceIs(batch.names);
    UnexpectedAre(batch.names, target);
    if EachOnce(batch.names) && AllNamed(batch.names, target) {
      AllSupplied(cast, batch, target);
      if ColumnsFor(cast, batch, target).Err? {
        var k := SomeLacks(cast, batch, target);
        LacksFirst(cast, batch, target, k);
        SuppliedIs(cast, batch, target[k]);
      } else {
        ColumnsForLength(cast, batch, target);
      }
    }
  }

  // ---- the order of the columns ----

  /** The same named columns, in another order. */
  ghost predicate Reordered<K, V>(batch: Batch<K, V>, other: Batch<K, V>) {
    && |batch.names| == |batch.columns| && |other.names| == |other.columns| && batch.rows == other.rows
    && multiset(Pairs(batch)) == multiset(Pairs(other))
  }

  ghost function Pairs<K, V>(batch: Batch<K, V>): (r: seq<(string, Column<K, V>)>)
    requires |batch.names| == |batch.columns|
    ensures |r| == |batch.names|
  {
    seq(|batch.names|, i requires 0 <= i < |batch.names| => (batch.names[i], batch.columns[i]))
  }

  lemma {:induction false} CountedTwice<T>(xs: seq<T>, x: T)
    ensures multiset(xs)[x] >= 2 <==> exists i, j :: 0 <= i < j < |xs| && xs[i] == x && xs[j] == x
  {
    if multiset(xs)[x] >= 2 {
      var last := |xs| - 1;
      assert xs == xs[..last] + [xs[last]];
      if xs[last] == x {
        assert x in multiset(xs[..last]);
        var i :| 0 <= i < last && xs[..last][i] == x;
        assert xs[i] == x;
      } else {
        CountedTwice(xs[..last], x);
        var i, j :| 0 <= i < j < last && xs[..last][i] == x && xs[..last][j] == x;
        assert xs[i] == x && xs[j] == x;
      }
    }
    if i, j :| 0 <= i < j < |xs| && xs[i] == x && xs[j] == x {
      assert xs == xs[..j] + xs[j..];
      assert xs[..j][i] == x && xs[j..][0] == x;
      assert x in multiset(xs[..j]) && x in multiset(xs[j..]);
    }
  }

  /** A name comes twice: with one column, or with two. */
  ghost predicate Twice<K, V>(pairs: multiset<(string, Column<K, V>)>, name: string) {
    || (exists p :: p in pairs && p.0 == name && pairs[p] >= 2)
    || (exists p, q :: p in pairs && q in pairs && p != q && p.0 == name && q.0 == name)
  }

  lemma RepeatedIsTwice<K, V>(batch: Batch<K, V>, name: string)
    requires |batch.names| == |batch.columns| && name in RepeatedNames(batch.names)
    ensures Twice(multiset(Pairs(batch)), name)
  {
    var pairs := Pairs(batch);
    var i, j :| 0 <= i < j < |batch.names| && batch.names[i] == batch.names[j] && batch.names[i] == name;
    assert pairs[i] in multiset(pairs) && pairs[j] in multiset(pairs);
    if pairs[i] == pairs[j] {
      CountedTwice(pairs, pairs[i]);
    }
  }

  lemma AtBoth(names: seq<string>, i: nat, j: nat)
    requires i < |names| && j < |names| && i != j && names[i] == names[j]
    ensures names[i] in RepeatedNames(names)
  {
    var a, b := if i < j then i else j, if i < j then j else i;
    assert 0 <= a < b < |names| && names[a] == names[b];
  }

  lemma TwiceIsRepeated<K, V>(batch: Batch<K, V>, name: string)
    requires |batch.names| == |batch.columns| && Twice(multiset(Pairs(batch)), name)
    ensures name in RepeatedNames(batch.names)
  {
    var pairs := Pairs(batch);
    if p: (string, Column<K, V>) :| p in multiset(pairs) && p.0 == name && multiset(pairs)[p] >= 2 {
      CountedTwice(pairs, p);
      var i, j :| 0 <= i < j < |pairs| && pairs[i] == p && pairs[j] == p;
      AtBoth(batch.names, i, j);
    } else {
      var p: (string, Column<K, V>), q: (string, Column<K, V>) :| p in multiset(pairs) && q in multiset(pairs) && p != q && p.0 == name && q.0 == name;
      var i :| 0 <= i < |pairs| && pairs[i] == p;
      var j :| 0 <= j < |pairs| && pairs[j] == q;
      AtBoth(batch.names, i, j);
    }
  }

  lemma NamesFromPairs<K, V>(batch: Batch<K, V>, other: Batch<K, V>, i: nat) returns (j: nat)
    requires Reordered(batch, other) && i < |batch.names|
    ensures j < |other.names| && other.names[j] == batch.names[i] && other.columns[j] == batch.columns[i]
  {
    var pairs := Pairs(other);
    assert Pairs(batch)[i] in multiset(pairs);
    j :| 0 <= j < |pairs| && pairs[j] == Pairs(batch)[i];
  }

  lemma SameNames<K, V>(batch: Batch<K, V>, other: Batch<K, V>, name: string)
    requires Reordered(batch, other) && name in batch.names
    ensures name in other.names
  {
    var i :| 0 <= i < |batch.names| && batch.names[i] == name;
    var j := NamesFromPairs(batch, other, i);
  }

  lemma SameColumn<K, V>(cast: Cast<K, V>, batch: Batch<K, V>, other: Batch<K, V>, field: Field<K>)
    requires Reordered(batch, other) && RepeatedNames(batch.names) == {} && RepeatedNames(other.names) == {}
    ensures ColumnFor(cast, batch, field) == ColumnFor(cast, other, field)
  {
    var i := IndexOf(batch.names, field.name);
    if i.Some? {
      var j := NamesFromPairs(batch, other, i.value);
      var k := IndexOf(other.names, field.name);
      assert field.name in other.names;
      SameIndex(other.names, j, k.value);
    } else if field.name in other.names {
      SameNames(other, batch, field.name);
    }
  }

  lemma {:induction false} SameColumns<K, V>(cast: Cast<K, V>, batch: Batch<K, V>, other: Batch<K, V>, fields: seq<Field<K>>)
    requires Reordered(batch, other) && RepeatedNames(batch.names) == {} && RepeatedNames(other.names) == {}
    ensures ColumnsFor(cast, batch, fields) == ColumnsFor(cast, other, fields)
    decreases |fields|
  {
    if fields != [] {
      var last := |fields| - 1;
      SameColumns(cast, batch, other, fields[..last]);
      SameColumn(cast, batch, other, fields[last]);
    }
  }

  lemma SameRepeats<K, V>(batch: Batch<K, V>, other: Batch<K, V>)
    requires Reordered(batch, other)
    ensures RepeatedNames(batch.names) == RepeatedNames(other.names)
  {
    forall n
      ensures n in RepeatedNames(batch.names) <==> n in RepeatedNames(other.names)
    {
      if n in RepeatedNames(batch.names) {
        RepeatedIsTwice(batch, n);
        TwiceIsRepeated(other, n);
      }
      if n in RepeatedNames(other.names) {
        RepeatedIsTwice(other, n);
        TwiceIsRepeated(batch, n);
      }
    }
  }

  /** The order of the columns makes no difference to the result, nor to a refusal. */
  lemma OrderMakesNoDifference<K, V>(cast: Cast<K, V>, batch: Batch<K, V>, other: Batch<K, V>, target: seq<Field<K>>)
    requires batch.Valid() && other.Valid() && Reordered(batch, other)
    ensures Aligned(cast, batch, target) == Aligned(cast, other, target)
  {
    SameRepeats(batch, other);
    assert UnexpectedNames(batch.names, target) == UnexpectedNames(other.names, target) by {
      forall n
        ensures n in batch.names <==> n in other.names
      {
        if n in batch.names {
          SameNames(batch, other, n);
        }
        if n in other.names {
          SameNames(other, batch, n);
        }
      }
    }
    if RepeatedNames(batch.names) == {} {
      SameColumns(cast, batch, other, target);
    }
  }
}
