/**
 Resolving the name a caller wrote to a column of the table: once in R, and again
 when the predicate is built.
 */
module Names {
  import opened Outcomes
  import opened Values

  datatype FieldType = Plain(ty: Primitive) | Nested

  datatype Field = Field(name: string, ty: FieldType)

  /**
   The schema of the snapshot being read. `folded` is the upstream index for
   case-insensitive lookups: whatever it answers for a name it was not built
   with, it is not relied on for more than being an index into the fields.
   */
  datatype Schema = Schema(fields: seq<Field>, folded: map<string, nat>) {
    ghost predicate Valid() {
      && (forall i, j :: 0 <= i < j < |fields| ==> fields[i].name != fields[j].name)
      && (forall k :: k in folded ==> folded[k] < |fields|)
    }

    function Columns(): (names: seq<string>)
      ensures |names| == |fields|
      ensures forall i :: 0 <= i < |names| ==> names[i] == fields[i].name
    {
      seq(|fields|, i requires 0 <= i < |fields| => fields[i].name)
    }
  }

  // ---- R: column_index ----

  datatype Hit = NoColumn | At(index: nat) | Ambiguous

  /** The first position holding `name`, as R's match() finds it. */
  function Position(name: string, columns: seq<string>): (r: Option<nat>)
    ensures r.Some? ==> r.value < |columns| && columns[r.value] == name
    ensures r.Some? ==> forall i :: 0 <= i < r.value ==> columns[i] != name
    ensures r.None? ==> name !in columns
  {
    if columns == [] then None
    else if columns[0] == name then Some(0)
    else
      match Position(name, columns[1..])
      case Some(k) => Some(k + 1)
      case None => None
  }

  /** Every position whose column equals `name` once both are lowercased. */
  function Candidates(name: string, columns: seq<string>, lower: string -> string, from: nat): (r: seq<nat>)
    requires from <= |columns|
    ensures forall k :: k in r <==> from <= k < |columns| && lower(columns[k]) == lower(name)
    ensures forall i, j :: 0 <= i < j < |r| ==> r[i] < r[j]
    decreases |columns| - from
  {
    if from == |columns| then []
    else if lower(columns[from]) == lower(name) then
      var rest := Candidates(name, columns, lower, from + 1);
      assert forall k :: 0 <= k < |rest| ==> rest[k] in rest;
      [from] + rest
    else Candidates(name, columns, lower, from + 1)
  }

  function ColumnIndex(name: string, columns: seq<string>, caseSensitive: bool, lower: string -> string): (h: Hit)
    ensures h.At? ==> h.index < |columns|
  {
    var exact := Position(name, columns);
    if exact.Some? then At(exact.value)
    else if caseSensitive then NoColumn
    else
      var candidates := Candidates(name, columns, lower, 0);
      if candidates == [] then NoColumn
      else if |candidates| > 1 then Ambiguous
      else
        assert candidates[0] in candidates;
        At(candidates[0])
  }

  /** The first column spelled so, or else, when case is ignored, the only one that differs in case alone. */
  ghost predicate Means(name: string, k: nat, columns: seq<string>, caseSensitive: bool, lower: string -> string) {
    && k < |columns|
    && if name in columns then columns[k] == name && forall j :: 0 <= j < k ==> columns[j] != name
       else !caseSensitive && lower(columns[k]) == lower(name)
            && forall j :: 0 <= j < |columns| && lower(columns[j]) == lower(name) ==> j == k
  }

  /** A name resolves to a column exactly if it means that one, and to none exactly if it is spelled as none is. */
  lemma ColumnIndexExactly(name: string, columns: seq<string>, caseSensitive: bool, lower: string -> string)
    ensures var h := ColumnIndex(name, columns, caseSensitive, lower);
            && (forall k: nat :: Means(name, k, columns, caseSensitive, lower) <==> h == At(k))
            && (h.NoColumn? <==> name !in columns && (caseSensitive || forall c :: c in columns ==> lower(c) != lower(name)))
  {
    var c := Candidates(name, columns, lower, 0);
    if name !in columns && !caseSensitive {
      forall k: nat | k < |columns| && lower(columns[k]) == lower(name)
        ensures k in c
      {
      }
      if |c| == 1 {
        assert c[0] in c;
      } else if |c| > 1 {
        assert c[0] in c && c[1] in c;
      }
    }
  }

  /** A refusal as ambiguous means no exact match and two or more candidates, and nothing else does. */
  lemma AmbiguousExactly(name: string, columns: seq<string>, caseSensitive: bool, lower: string -> string)
    ensures ColumnIndex(name, columns, caseSensitive, lower).Ambiguous? <==>
            !caseSensitive && name !in columns &&
            exists i, j :: 0 <= i < j < |columns| && lower(columns[i]) == lower(name) == lower(columns[j])
  {
    var c := Candidates(name, columns, lower, 0);
    if |c| > 1 {
      assert c[0] in c && c[1] in c;
    }
    if i, j :| 0 <= i < j < |columns| && lower(columns[i]) == lower(name) == lower(columns[j]) {
      assert i in c && j in c;
    }
  }

  /** The spelling a resolved name takes, the table's own, resolves to itself whatever the setting. */
  lemma ResolvedNameIsStable(name: string, columns: seq<string>, caseSensitive: bool, lower: string -> string)
    requires forall i, j :: 0 <= i < j < |columns| ==> columns[i] != columns[j]
    requires ColumnIndex(name, columns, caseSensitive, lower).At?
    ensures forall again: bool, fold: string -> string ::
              var k := ColumnIndex(name, columns, caseSensitive, lower).index;
              ColumnIndex(columns[k], columns, again, fold) == At(k)
  {
    var k := ColumnIndex(name, columns, caseSensitive, lower).index;
    assert columns[k] in columns;
    var exact := Position(columns[k], columns);
    assert exact.value == k;
  }

  // ---- Rust: reference ----

  datatype LookupError = NoSuchColumn(name: string) | NotPrimitive(name: string)

  /** The field a predicate's column binds to, with the type its literals take. */
  function Reference(col: string, schema: Schema, caseSensitive: bool): (r: Result<(string, Primitive), LookupError>)
    requires schema.Valid()
    ensures r.Ok? ==> Field(r.value.0, Plain(r.value.1)) in schema.fields
  {
    var exact := Position(col, schema.Columns());
    var found :=
      if caseSensitive || exact.Some? then exact
      else if col in schema.folded then Some(schema.folded[col])
      else None;
    if found.None? then Err(NoSuchColumn(col))
    else
      var f := schema.fields[found.value];
      if f.ty.Plain? then Ok((f.name, f.ty.ty)) else Err(NotPrimitive(col))
  }

  /** A field of the schema, named exactly, is what the name binds to: the upstream index is never consulted. */
  lemma ReferenceBindsExactName(schema: Schema, k: nat, caseSensitive: bool)
    requires schema.Valid() && k < |schema.fields|
    ensures var f := schema.fields[k];
            Reference(f.name, schema, caseSensitive) ==
            if f.ty.Plain? then Ok((f.name, f.ty.ty)) else Err(NotPrimitive(f.name))
  {
    assert schema.Columns()[k] in schema.Columns();
    var exact := Position(schema.fields[k].name, schema.Columns());
    assert exact.value == k;
  }

  /** A name no field has is looked up in the upstream index, and only when case is ignored. */
  lemma ReferenceFolds(col: string, schema: Schema, caseSensitive: bool)
    requires schema.Valid() && forall f :: f in schema.fields ==> f.name != col
    ensures caseSensitive || col !in schema.folded ==> Reference(col, schema, caseSensitive) == Err(NoSuchColumn(col))
    ensures !caseSensitive && col in schema.folded ==>
              var f := schema.fields[schema.folded[col]];
              Reference(col, schema, caseSensitive) == if f.ty.Plain? then Ok((f.name, f.ty.ty)) else Err(NotPrimitive(col))
  {
    assert forall k :: 0 <= k < |schema.fields| ==> schema.fields[k] in schema.fields;
  }

  /**
   The whole chain for a filter's column: what R resolves a name to is the very
   field the predicate binds, in either mode and for any upstream index.
   */
  lemma ResolutionAgrees(name: string, schema: Schema, caseSensitive: bool, lower: string -> string)
    requires schema.Valid()
    requires ColumnIndex(name, schema.Columns(), caseSensitive, lower).At?
    ensures var f := schema.fields[ColumnIndex(name, schema.Columns(), caseSensitive, lower).index];
            && (caseSensitive ==> f.name == name)
            && (name in schema.Columns() ==> f.name == name)
            && (lower(f.name) == lower(name))
            && Reference(f.name, schema, caseSensitive) ==
               if f.ty.Plain? then Ok((f.name, f.ty.ty)) else Err(NotPrimitive(f.name))
  {
    var k := ColumnIndex(name, schema.Columns(), caseSensitive, lower).index;
    var c := Candidates(name, schema.Columns(), lower, 0);
    if Position(name, schema.Columns()).None? {
      assert c[0] in c;
    }
    ReferenceBindsExactName(schema, k, caseSensitive);
  }

  // ---- select: icebergr_scan, then fallback_schema ----

  datatype SelectError = EmptySelect | NotInTable(missing: seq<string>) | AmbiguousName(name: string) | Repeated

  /** Where a name resolves, ambiguous or not. */
  function HitAt(name: string, columns: seq<string>, caseSensitive: bool, lower: string -> string): Option<nat> {
    match ColumnIndex(name, columns, caseSensitive, lower)
    case At(k) => Some(k)
    case _ => None
  }

  function Hits(select: seq<string>, columns: seq<string>, caseSensitive: bool, lower: string -> string)
    : (r: Result<seq<Option<nat>>, SelectError>)
    ensures r.Ok? <==> forall i :: 0 <= i < |select| ==> !ColumnIndex(select[i], columns, caseSensitive, lower).Ambiguous?
    ensures r.Ok? ==> |r.value| == |select|
    ensures r.Ok? ==> forall i :: 0 <= i < |select| ==> r.value[i] == HitAt(select[i], columns, caseSensitive, lower)
  {
    if select == [] then Ok([])
    else if ColumnIndex(select[0], columns, caseSensitive, lower).Ambiguous? then Err(AmbiguousName(select[0]))
    else
      var rest :- Hits(select[1..], columns, caseSensitive, lower);
      Ok([HitAt(select[0], columns, caseSensitive, lower)] + rest)
  }

  /** The names that resolved to no column, in order. */
  function Unresolved(select: seq<string>, hits: seq<Option<nat>>): (names: seq<string>)
    requires |select| == |hits|
    ensures names == [] <==> forall i :: 0 <= i < |hits| ==> hits[i].Some?
  {
    if select == [] then []
    else
      var rest := Unresolved(select[1..], hits[1..]);
      assert forall i :: 1 <= i < |hits| ==> hits[i] == hits[1..][i - 1];
      if hits[0].None? then [select[0]] + rest else rest
  }

  /** The projection in the table's own spelling, or why it is refused. */
  function ResolveSelect(select: seq<string>, columns: seq<string>, caseSensitive: bool, lower: string -> string)
    : (r: Result<seq<string>, SelectError>)
  {
    if select == [] then Err(EmptySelect)
    else
      var hits :- Hits(select, columns, caseSensitive, lower);
      var missing := Unresolved(select, hits);
      if missing != [] then Err(NotInTable(missing))
      else if exists i, j :: 0 <= i < j < |hits| && hits[i] == hits[j] then Err(Repeated)
      else
        assert forall i :: 0 <= i < |hits| ==> ColumnIndex(select[i], columns, caseSensitive, lower).At?;
        Ok(seq(|hits|, i requires 0 <= i < |hits| => columns[hits[i].value]))
  }

  /** Every name means a column. */
  ghost predicate AllMean(select: seq<string>, columns: seq<string>, caseSensitive: bool, lower: string -> string) {
    forall i :: 0 <= i < |select| ==> MeansSome(select[i], columns, caseSensitive, lower)
  }

  ghost predicate MeansSome(name: string, columns: seq<string>, caseSensitive: bool, lower: string -> string) {
    exists k: nat :: Means(name, k, columns, caseSensitive, lower)
  }

  /** No two names mean the same column. */
  ghost predicate NoneTwice(select: seq<string>, columns: seq<string>, caseSensitive: bool, lower: string -> string) {
    forall i, j, k: nat :: 0 <= i < j < |select| && Means(select[i], k, columns, caseSensitive, lower) ==>
      !Means(select[j], k, columns, caseSensitive, lower)
  }

  ghost predicate SomeAmbiguous(select: seq<string>, columns: seq<string>, caseSensitive: bool, lower: string -> string) {
    exists i :: 0 <= i < |select| && ColumnIndex(select[i], columns, caseSensitive, lower).Ambiguous?
  }

  /**
   A projection is accepted exactly if it names something, every name means a
   column, and no two the same; and each refusal is given exactly for its reason.
   */
  lemma SelectAcceptedExactly(select: seq<string>, columns: seq<string>, caseSensitive: bool, lower: string -> string)
    ensures var r := ResolveSelect(select, columns, caseSensitive, lower);
            var mean, once := AllMean(select, columns, caseSensitive, lower), NoneTwice(select, columns, caseSensitive, lower);
            && (r.Ok? <==> select != [] && mean && once)
            && (r == Err(EmptySelect) <==> select == [])
            && (r == Err(Repeated) <==> select != [] && mean && !once)
            && ((r.Err? && r.error.AmbiguousName?) <==> SomeAmbiguous(select, columns, caseSensitive, lower))
            && (r.Err? && r.error.NotInTable? ==>
                  forall x :: x in r.error.missing <==> x in select && ColumnIndex(x, columns, caseSensitive, lower).NoColumn?)
  {
    var hits := Hits(select, columns, caseSensitive, lower);
    HitsFail(select, columns, caseSensitive, lower);
    if hits.Ok? {
      HitsAreMeant(select, hits.value, columns, caseSensitive, lower);
      UnresolvedAre(select, hits.value, columns, caseSensitive, lower);
    } else {
      AmbiguousMeansNone(select, columns, caseSensitive, lower);
    }
  }

  lemma {:induction false} HitsFail(select: seq<string>, columns: seq<string>, caseSensitive: bool, lower: string -> string)
    ensures Hits(select, columns, caseSensitive, lower).Err? ==> Hits(select, columns, caseSensitive, lower).error.AmbiguousName?
  {
    if select != [] {
      HitsFail(select[1..], columns, caseSensitive, lower);
    }
  }

  lemma AmbiguousMeansNone(select: seq<string>, columns: seq<string>, caseSensitive: bool, lower: string -> string)
    requires SomeAmbiguous(select, columns, caseSensitive, lower)
    ensures !AllMean(select, columns, caseSensitive, lower)
  {
    var i :| 0 <= i < |select| && ColumnIndex(select[i], columns, caseSensitive, lower).Ambiguous?;
    ColumnIndexExactly(select[i], columns, caseSensitive, lower);
  }

  lemma {:induction false} UnresolvedAre(select: seq<string>, hits: seq<Option<nat>>, columns: seq<string>, caseSensitive: bool, lower: string -> string)
    requires |hits| == |select| && forall i :: 0 <= i < |select| ==> hits[i] == HitAt(select[i], columns, caseSensitive, lower)
    requires forall i :: 0 <= i < |select| ==> !ColumnIndex(select[i], columns, caseSensitive, lower).Ambiguous?
    ensures forall x :: x in Unresolved(select, hits) <==> x in select && ColumnIndex(x, columns, caseSensitive, lower).NoColumn?
  {
    if select != [] {
      UnresolvedAre(select[1..], hits[1..], columns, caseSensitive, lower);
      assert select == [select[0]] + select[1..];
    }
  }

  lemma MeansAColumn(name: string, columns: seq<string>, caseSensitive: bool, lower: string -> string)
    ensures MeansSome(name, columns, caseSensitive, lower) <==> HitAt(name, columns, caseSensitive, lower).Some?
  {
    ColumnIndexExactly(name, columns, caseSensitive, lower);
    var h := HitAt(name, columns, caseSensitive, lower);
    if h.Some? {
      assert Means(name, h.value, columns, caseSensitive, lower);
    }
  }

  lemma HitsAreMeant(select: seq<string>, hits: seq<Option<nat>>, columns: seq<string>, caseSensitive: bool, lower: string -> string)
    requires |hits| == |select| && forall i :: 0 <= i < |select| ==> hits[i] == HitAt(select[i], columns, caseSensitive, lower)
    ensures AllMean(select, columns, caseSensitive, lower) <==> forall i :: 0 <= i < |hits| ==> hits[i].Some?
    ensures AllMean(select, columns, caseSensitive, lower) ==>
              (NoneTwice(select, columns, caseSensitive, lower) <==> !exists i, j :: 0 <= i < j < |hits| && hits[i] == hits[j])
  {
    forall i | 0 <= i < |select|
      ensures MeansSome(select[i], columns, caseSensitive, lower) <==> hits[i].Some?
      ensures forall k: nat :: Means(select[i], k, columns, caseSensitive, lower) <==> hits[i] == Some(k)
    {
      MeansAColumn(select[i], columns, caseSensitive, lower);
      ColumnIndexExactly(select[i], columns, caseSensitive, lower);
    }
  }

  /**
   The fields an empty result reports: one per projected name, in order. A name
   that matches no field exactly fails the call.
   */
  method FallbackSchema(full: seq<Field>, select: Option<seq<string>>) returns (r: Result<seq<Field>, LookupError>)
    ensures select.None? || select.value == [] ==> r == Ok(full)
    ensures select.Some? && select.value != [] ==>
              (r.Ok? <==> forall c :: c in select.value ==> exists f :: f in full && f.name == c)
    ensures select.Some? && select.value != [] && r.Ok? ==>
              |r.value| == |select.value| &&
              forall i :: 0 <= i < |r.value| ==> r.value[i] in full && r.value[i].name == select.value[i]
    ensures select.Some? && select.value != [] && r.Err? ==>
              exists n :: 0 <= n < |select.value| && r.error == NoSuchColumn(select.value[n])
                          && forall f :: f in full ==> f.name != select.value[n]
  {
    if select.None? || select.value == [] {
      return Ok(full);
    }
    var fields: seq<Field> := [];
    for n := 0 to |select.value|
      invariant |fields| == n
      invariant forall i :: 0 <= i < n ==> fields[i] in full && fields[i].name == select.value[i]
    {
      var k := 0;
      while k < |full| && full[k].name != select.value[n]
        invariant 0 <= k <= |full|
        invariant forall i :: 0 <= i < k ==> full[i].name != select.value[n]
      {
        k := k + 1;
      }
      if k == |full| {
        assert select.value[n] in select.value;
        return Err(NoSuchColumn(select.value[n]));
      }
      fields := fields + [full[k]];
    }
    return Ok(fields);
  }

  /** Where each name of an accepted projection went. */
  lemma SelectedColumns(select: seq<string>, columns: seq<string>, caseSensitive: bool, lower: string -> string)
    requires ResolveSelect(select, columns, caseSensitive, lower).Ok?
    ensures var names := ResolveSelect(select, columns, caseSensitive, lower).value;
            && |names| == |select| > 0
            && (forall i :: 0 <= i < |names| ==>
                  var h := ColumnIndex(select[i], columns, caseSensitive, lower);
                  h.At? && names[i] == columns[h.index])
            && (forall i, j :: 0 <= i < j < |names| ==>
                  ColumnIndex(select[i], columns, caseSensitive, lower) != ColumnIndex(select[j], columns, caseSensitive, lower))
  {
    var hits := Hits(select, columns, caseSensitive, lower).value;
    assert Unresolved(select, hits) == [];
    assert forall i :: 0 <= i < |hits| ==> hits[i].Some?;
    forall i, j | 0 <= i < j < |select|
      ensures ColumnIndex(select[i], columns, caseSensitive, lower) != ColumnIndex(select[j], columns, caseSensitive, lower)
    {
      assert hits[i] != hits[j];
    }
  }

  /**
   A projection R accepts is never refused later, and an empty result lists
   exactly the resolved columns, in the order they were asked for, none twice.
   */
  lemma AcceptedSelectIsListed(select: seq<string>, schema: Schema, caseSensitive: bool, lower: string -> string)
    requires schema.Valid()
    requires ResolveSelect(select, schema.Columns(), caseSensitive, lower).Ok?
    ensures var names := ResolveSelect(select, schema.Columns(), caseSensitive, lower).value;
            && |names| == |select| > 0
            && (forall i :: 0 <= i < |names| ==> lower(names[i]) == lower(select[i]))
            && (forall i :: 0 <= i < |names| && select[i] in schema.Columns() ==> names[i] == select[i])
            && (forall i, j :: 0 <= i < j < |names| ==> names[i] != names[j])
            && (forall c :: c in names ==> exists f :: f in schema.fields && f.name == c)
  {
    var columns := schema.Columns();
    var names := ResolveSelect(select, columns, caseSensitive, lower).value;
    SelectedColumns(select, columns, caseSensitive, lower);
    forall i | 0 <= i < |names|
      ensures lower(names[i]) == lower(select[i])
      ensures select[i] in columns ==> names[i] == select[i]
    {
      ResolutionAgrees(select[i], schema, caseSensitive, lower);
    }
    forall c | c in names
      ensures exists f :: f in schema.fields && f.name == c
    {
      var i :| 0 <= i < |names| && names[i] == c;
      assert schema.fields[ColumnIndex(select[i], columns, caseSensitive, lower).index] in schema.fields;
    }
  }
}
