/**
 Whole filters under R's own comparisons: when each literal answers as R's value
 does, the rows a scan returns are the rows R's evaluation of the expression keeps.
 */
module OwnFilters {
  import opened Outcomes
  import opened Values
  import opened FilterTree
  import opened Names
  import opened Literals
  import opened Iceberg
  import opened Compiler
  import opened RLogic
  import opened Wire
  import opened OwnText
  import opened OwnValues
  import opened OwnCases
  import opened OwnSets
  import opened Translate
  import opened Pushdown
  import Pruning

  /** R's side of the same table: its library is the scan's, its calendar the session's. */
  ghost predicate Beside(w: World, s: Session, ctx: Context) {
    w.Valid() && w.lib == ctx.lib && w.calendar == s.calendar
  }

  // ---- R's own reading ----

  /** R's answer to a symbol between a cell and a value, or between a value and a cell. */
  ghost function OwnSays(fn: string, v: Scalar, order: Option<Order>): Truth3 {
    match order
    case Some(o) => if v.Factor? && fn != "==" && fn != "!=" then Unknown else Known(Says(fn, o))
    case None => Unknown
  }

  ghost function OwnWritten(fn: string, cell: Value, v: Scalar, ty: Primitive, w: World): Truth3 {
    OwnSays(fn, v, OwnOrder(OwnCell(cell, v, ty, w), OwnLiteral(v, ty, w)))
  }

  ghost function OwnReversed(fn: string, v: Scalar, cell: Value, ty: Primitive, w: World): Truth3 {
    OwnSays(fn, v, OwnOrder(OwnLiteral(v, ty, w), OwnCell(cell, v, ty, w)))
  }

  /** R's comparisons of what a column holds with the values themselves. */
  ghost function OwnReading(ctx: Context, w: World): Reading
    requires ctx.Valid()
  {
    Reading(
      (op, col, v, row) => InCell(col, (cell, ty) => OwnAnswer(op, cell, v, ty, w), ctx, row),
      (fn, col, v, row) => InCell(col, (cell, ty) => OwnWritten(fn, cell, v, ty, w), ctx, row),
      (fn, v, col, row) => InCell(col, (cell, ty) => OwnReversed(fn, v, cell, ty, w), ctx, row),
      (col, vs, row) => Known(InCell(col, (cell, ty) => Known(OwnIn(cell, vs, ty, w)), ctx, row).True?),
      (col, v, row) => InCell(col, (cell, ty) => OwnStarts(cell, v, w), ctx, row))
  }

  /** An answer about the value a row has in the column; NA if it has none. */
  ghost function InCell(col: string, answer: (Value, Primitive) -> Truth3, ctx: Context, row: Row): Truth3
    requires ctx.Valid()
  {
    match Column(col, ctx)
    case Ok((c, ty)) => if IsNA(c, row) then Unknown else answer(row[c].v, ty)
    case Err(_) => Unknown
  }

  ghost function OwnStarts(cell: Value, v: Scalar, w: World): Truth3 {
    if v.Character? && cell.BytesV? then Known(w.lib.utf8(v.s) <= cell.s) else Unknown
  }

  /** Of equality and its negation, and of no other, R has an answer for factors. */
  lemma EqualityStands(op: Cmp, fn: string)
    requires Stands(op, fn) || StandsReversed(op, fn)
    ensures op.Eq? || op.Ne? <==> fn == "==" || fn == "!="
  {
    assert Less.Reverse() == More && More.Reverse() == Less;
    assert op.Holds(Less) == op.Holds(More) <==> Says(fn, Less) == Says(fn, More);
  }

  lemma OwnWrittenIs(op: Cmp, fn: string, v: Scalar, cell: Value, ty: Primitive, w: World)
    requires Stands(op, fn)
    ensures OwnWritten(fn, cell, v, ty, w) == OwnAnswer(op, cell, v, ty, w)
  {
    EqualityStands(op, fn);
  }

  lemma OwnReversedIsFlipped(op: Cmp, fn: string, v: Scalar, cell: Value, ty: Primitive, w: World)
    requires StandsReversed(op, fn)
    ensures OwnReversed(fn, v, cell, ty, w) == OwnAnswer(op, cell, v, ty, w)
  {
    EqualityStands(op, fn);
    OwnOrderReverses(OwnCell(cell, v, ty, w), OwnLiteral(v, ty, w));
  }

  lemma OwnOrderReverses(a: Own, b: Own)
    ensures OwnOrder(b, a) == match OwnOrder(a, b) case Some(o) => Some(o.Reverse()) case None => None
  {
    if a.Word? && b.Word? {
      BytesOrderReverses(a.codes, b.codes);
    }
  }

  lemma OwnIsMirrored(ctx: Context, w: World)
    requires ctx.Valid()
    ensures Mirrored(OwnReading(ctx, w))
  {
    var r := OwnReading(ctx, w);
    forall op, fn, v: Scalar, col: string, row: Row | Stands(op, fn)
      ensures r.written(fn, col, v, row) == r.compare(op, col, v, row)
    {
      if Column(col, ctx).Ok? && !IsNA(Column(col, ctx).value.0, row) {
        var (c, ty) := Column(col, ctx).value;
        OwnWrittenIs(op, fn, v, row[c].v, ty, w);
      }
    }
    forall op, fn, v: Scalar, col: string, row: Row | StandsReversed(op, fn)
      ensures r.reversed(fn, v, col, row) == r.compare(op, col, v, row)
    {
      if Column(col, ctx).Ok? && !IsNA(Column(col, ctx).value.0, row) {
        var (c, ty) := Column(col, ctx).value;
        OwnReversedIsFlipped(op, fn, v, row[c].v, ty, w);
      }
    }
  }

  // ---- leaves ----

  /** What the row holds, its columns can hold. */
  ghost predicate Stored(row: Row, ctx: Context) {
    forall f :: f in ctx.schema.fields && f.ty.Plain? && f.name in row && row[f.name].Has? && !IsNaN(row[f.name].v) ==>
      Held(row[f.name].v, f.ty.ty, ctx.lib)
  }

  /** Each literal of the tree, typed by its column, answers as R's value does. */
  ghost predicate LiteralsAgree(n: Node<Scalar>, ctx: Context, w: World)
    requires ctx.Valid()
  {
    match n
    case And(args) => forall i :: 0 <= i < |args| ==> LiteralsAgree(args[i], ctx, w)
    case Or(args) => forall i :: 0 <= i < |args| ==> LiteralsAgree(args[i], ctx, w)
    case Not(arg) => LiteralsAgree(arg, ctx, w)
    case Compare(op, col, v) => ComparisonAgrees(op, col, v, ctx, w)
    case In(col, vs) => SetAgrees(col, vs, ctx, w)
    case NotIn(col, vs) => SetAgrees(col, vs, ctx, w)
    case StartsWith(_, v) => v.Character?
    case NotStartsWith(_, v) => v.Character?
    case _ => true
  }

  ghost predicate ComparisonAgrees(op: Cmp, col: string, v: Scalar, ctx: Context, w: World)
    requires ctx.Valid()
  {
    forall c, ty, d :: Column(col, ctx) == Ok((c, ty)) && TypedAs(v, ty, d, w) ==> AnswersAlike(op, v, d, ty, w)
  }

  ghost predicate SetAgrees(col: string, vs: seq<Scalar>, ctx: Context, w: World)
    requires ctx.Valid()
  {
    forall c, ty, ds :: Column(col, ctx) == Ok((c, ty)) && AllTyped(vs, ds, ty, w) ==> SetsAlike(vs, ds, ty, w)
  }

  lemma StoredCell(col: string, ctx: Context, row: Row)
    requires ctx.Valid() && Stored(row, ctx) && Column(col, ctx).Ok? && !IsNA(Column(col, ctx).value.0, row)
    ensures Held(row[Column(col, ctx).value.0].v, Column(col, ctx).value.1, ctx.lib)
  {
    var (c, ty) := Column(col, ctx).value;
    assert Field(c, Plain(ty)) in ctx.schema.fields;
  }

  lemma ValueOfCompare(op: Cmp, col: string, j: Json, d: Value, ctx: Context, row: Row)
    requires ctx.Valid() && Column(col, ctx).Ok? && TypedLiteral(j, Column(col, ctx).value.1, ctx.lib) == Ok(d)
    ensures RValue(Node.Compare(op, col, j), ctx, row) == RCompare(op, Column(col, ctx).value.0, d, row)
  {
    ComparedValue(op, col, j, ctx, row);
  }

  lemma TypedCompare(op: Cmp, col: string, v: Scalar, d: Value, ctx: Context, w: World, row: Row)
    requires ctx.Valid() && w.lib == ctx.lib && Column(col, ctx).Ok? && TypedAs(v, Column(col, ctx).value.1, d, w)
    ensures TypedReading(ctx, w.calendar).compare(op, col, v, row) == RCompare(op, Column(col, ctx).value.0, d, row)
  {
    var j := ToJson(v, w.calendar).value;
    ReadingIs(op, col, v, [], ctx, w.calendar, row);
    ValueOfCompare(op, col, j, d, ctx, row);
  }

  lemma OwnCompareIs(op: Cmp, col: string, v: Scalar, ctx: Context, w: World, row: Row)
    requires ctx.Valid() && Column(col, ctx).Ok?
    ensures var (c, ty) := Column(col, ctx).value;
            OwnReading(ctx, w).compare(op, col, v, row) == if IsNA(c, row) then Unknown else OwnAnswer(op, row[c].v, v, ty, w)
  {
  }

  /** The two readings of a comparison agree of the row. */
  ghost predicate SameOnRow(op: Cmp, col: string, v: Scalar, ctx: Context, w: World, row: Row)
    requires ctx.Valid()
  {
    OwnReading(ctx, w).compare(op, col, v, row) == TypedReading(ctx, w.calendar).compare(op, col, v, row)
  }

  /** On one comparison, the two readings agree of every row exactly if the literal answers alike. */
  lemma ComparisonExactly(op: Cmp, col: string, v: Scalar, d: Value, ctx: Context, w: World)
    requires ctx.Valid() && w.lib == ctx.lib
    requires Column(col, ctx).Ok? && TypedAs(v, Column(col, ctx).value.1, d, w)
    ensures AnswersAlike(op, v, d, Column(col, ctx).value.1, w) <==>
            forall row :: Stored(row, ctx) ==> SameOnRow(op, col, v, ctx, w, row)
  {
    var (c, ty) := Column(col, ctx).value;
    if AnswersAlike(op, v, d, ty, w) {
      forall row | Stored(row, ctx)
        ensures SameOnRow(op, col, v, ctx, w, row)
      {
        ComparisonOnRow(op, col, v, d, ctx, w, row);
      }
    }
    if forall row :: Stored(row, ctx) ==> SameOnRow(op, col, v, ctx, w, row) {
      forall cell | Held(cell, ty, w.lib)
        ensures CellAgrees(op, cell, v, d, ty, w)
      {
        RowOf(op, col, v, d, cell, ctx, w);
      }
    }
  }

  lemma ComparisonOnRow(op: Cmp, col: string, v: Scalar, d: Value, ctx: Context, w: World, row: Row)
    requires ctx.Valid() && w.lib == ctx.lib && Stored(row, ctx)
    requires Column(col, ctx).Ok? && TypedAs(v, Column(col, ctx).value.1, d, w)
    requires AnswersAlike(op, v, d, Column(col, ctx).value.1, w)
    ensures SameOnRow(op, col, v, ctx, w, row)
  {
    TypedCompare(op, col, v, d, ctx, w, row);
    OwnCompareIs(op, col, v, ctx, w, row);
    if !IsNA(Column(col, ctx).value.0, row) {
      StoredCell(col, ctx, row);
    }
  }

  /** The row with just that value. */
  lemma RowOf(op: Cmp, col: string, v: Scalar, d: Value, cell: Value, ctx: Context, w: World)
    requires ctx.Valid() && w.lib == ctx.lib && Column(col, ctx).Ok?
    requires TypedAs(v, Column(col, ctx).value.1, d, w) && Held(cell, Column(col, ctx).value.1, w.lib)
    ensures var row: Row := map[Column(col, ctx).value.0 := Has(cell)];
            && Stored(row, ctx)
            && (SameOnRow(op, col, v, ctx, w, row) <==> CellAgrees(op, cell, v, d, Column(col, ctx).value.1, w))
  {
    var (c, ty) := Column(col, ctx).value;
    var row: Row := map[c := Has(cell)];
    assert Field(c, Plain(ty)) in ctx.schema.fields;
    TypedCompare(op, col, v, d, ctx, w, row);
    OwnCompareIs(op, col, v, ctx, w, row);
  }

  lemma TypedMember(col: string, vs: seq<Scalar>, ds: seq<Value>, ctx: Context, w: World, row: Row)
    requires ctx.Valid() && w.lib == ctx.lib && Column(col, ctx).Ok? && AllTyped(vs, ds, Column(col, ctx).value.1, w)
    ensures var c := Column(col, ctx).value.0;
            TypedReading(ctx, w.calendar).member(col, vs, row) == Known(!IsNA(c, row) && Among(row[c].v, ds))
  {
    var (c, ty) := Column(col, ctx).value;
    AllAreSent(vs, ds, ty, w);
    MemberValue(col, ToJsons(vs, w.calendar).value, c, ty, ctx, row);
  }

  lemma AllAreSent(vs: seq<Scalar>, ds: seq<Value>, ty: Primitive, w: World)
    requires AllTyped(vs, ds, ty, w)
    ensures ToJsons(vs, w.calendar).Ok? && TypedLiterals(ToJsons(vs, w.calendar).value, ty, w.lib) == Ok(ds)
  {
    assert forall k :: 0 <= k < |vs| ==> TypedAs(vs[k], ty, ds[k], w);
    EachIsSent(vs, w.calendar);
    var js := ToJsons(vs, w.calendar).value;
    assert forall k :: 0 <= k < |vs| ==> ToJson(vs[k], w.calendar) == Ok(js[k]);
    EachIsTyped(js, ds, ty, w.lib);
  }

  lemma {:induction false} EachIsSent(vs: seq<Scalar>, calendar: Calendar)
    requires forall k :: 0 <= k < |vs| ==> ToJson(vs[k], calendar).Ok?
    ensures ToJsons(vs, calendar).Ok?
  {
    if vs != [] {
      EachIsSent(vs[1..], calendar);
    }
  }

  lemma {:induction false} EachIsTyped(js: seq<Json>, ds: seq<Value>, ty: Primitive, lib: Library)
    requires |js| == |ds| && forall k :: 0 <= k < |js| ==> TypedLiteral(js[k], ty, lib) == Ok(ds[k])
    ensures TypedLiterals(js, ty, lib) == Ok(ds)
  {
    if js != [] {
      EachIsTyped(js[1..], ds[1..], ty, lib);
      assert ds == [ds[0]] + ds[1..];
      FirstIsTyped(js, ds, ty, lib);
    }
  }

  lemma FirstIsTyped(js: seq<Json>, ds: seq<Value>, ty: Primitive, lib: Library)
    requires js != [] && ds != [] && TypedLiteral(js[0], ty, lib) == Ok(ds[0]) && TypedLiterals(js[1..], ty, lib) == Ok(ds[1..])
    ensures TypedLiterals(js, ty, lib) == Ok([ds[0]] + ds[1..])
  {
  }

  lemma SentAreTyped(vs: seq<Scalar>, ty: Primitive, w: World) returns (ds: seq<Value>)
    requires ToJsons(vs, w.calendar).Ok? && TypedLiterals(ToJsons(vs, w.calendar).value, ty, w.lib).Ok?
    ensures AllTyped(vs, ds, ty, w)
  {
    var js := ToJsons(vs, w.calendar).value;
    ds := TypedLiterals(js, ty, w.lib).value;
    forall k | 0 <= k < |vs|
      ensures TypedAs(vs[k], ty, ds[k], w)
    {
      assert ToJson(vs[k], w.calendar) == Ok(js[k]);
    }
  }

  /** A set, on a row: the two readings agree if the sets are alike. */
  lemma SetOnRow(col: string, vs: seq<Scalar>, ds: seq<Value>, ctx: Context, w: World, row: Row)
    requires ctx.Valid() && w.lib == ctx.lib && Stored(row, ctx)
    requires Column(col, ctx).Ok? && AllTyped(vs, ds, Column(col, ctx).value.1, w)
    requires SetsAlike(vs, ds, Column(col, ctx).value.1, w)
    ensures OwnReading(ctx, w).member(col, vs, row) == TypedReading(ctx, w.calendar).member(col, vs, row)
  {
    TypedMember(col, vs, ds, ctx, w, row);
    if !IsNA(Column(col, ctx).value.0, row) {
      StoredCell(col, ctx, row);
    }
  }

  lemma TypedStarts(col: string, v: Scalar, ctx: Context, calendar: Calendar, row: Row)
    requires ctx.Valid() && v.Character? && Column(col, ctx).Ok? && Column(col, ctx).value.1.Text?
    ensures TypedReading(ctx, calendar).starts(col, v, row) ==
            RStartsWith(Column(col, ctx).value.0, BytesV(ctx.lib.utf8(v.s)), row)
  {
    assert TypedLiteral(JString(v.s), Text, ctx.lib) == Ok(BytesV(ctx.lib.utf8(v.s)));
    ReadingIs(Eq, col, v, [], ctx, calendar, row);
  }

  lemma OwnStartsIs(col: string, v: Scalar, ctx: Context, w: World, row: Row)
    requires ctx.Valid() && Column(col, ctx).Ok?
    ensures var c := Column(col, ctx).value.0;
            OwnReading(ctx, w).starts(col, v, row) == if IsNA(c, row) then Unknown else OwnStarts(row[c].v, v, w)
  {
  }

  lemma PrefixOnRow(col: string, v: Scalar, ctx: Context, w: World, row: Row)
    requires ctx.Valid() && w.lib == ctx.lib && Stored(row, ctx) && v.Character?
    requires Column(col, ctx).Ok? && Column(col, ctx).value.1.Text?
    ensures OwnReading(ctx, w).starts(col, v, row) == TypedReading(ctx, w.calendar).starts(col, v, row)
  {
    var c := Column(col, ctx).value.0;
    TypedStarts(col, v, ctx, w.calendar, row);
    OwnStartsIs(col, v, ctx, w, row);
    if !IsNA(c, row) {
      StoredCell(col, ctx, row);
    }
  }

  /** On one set, the two readings agree of every row exactly if the sets are alike. */
  lemma SetExactly(col: string, vs: seq<Scalar>, ds: seq<Value>, ctx: Context, w: World)
    requires ctx.Valid() && w.lib == ctx.lib
    requires Column(col, ctx).Ok? && AllTyped(vs, ds, Column(col, ctx).value.1, w)
    ensures SetsAlike(vs, ds, Column(col, ctx).value.1, w) <==>
            forall row :: Stored(row, ctx) ==> SameSetOnRow(col, vs, ctx, w, row)
  {
    var (c, ty) := Column(col, ctx).value;
    if SetsAlike(vs, ds, ty, w) {
      forall row | Stored(row, ctx)
        ensures SameSetOnRow(col, vs, ctx, w, row)
      {
        SetOnRow(col, vs, ds, ctx, w, row);
      }
    }
    if forall row :: Stored(row, ctx) ==> SameSetOnRow(col, vs, ctx, w, row) {
      forall cell | Held(cell, ty, w.lib)
        ensures OwnIn(cell, vs, ty, w) <==> Among(cell, ds)
      {
        RowInSet(col, vs, ds, cell, ctx, w);
      }
    }
  }

  ghost predicate SameSetOnRow(col: string, vs: seq<Scalar>, ctx: Context, w: World, row: Row)
    requires ctx.Valid()
  {
    OwnReading(ctx, w).member(col, vs, row) == TypedReading(ctx, w.calendar).member(col, vs, row)
  }

  lemma RowInSet(col: string, vs: seq<Scalar>, ds: seq<Value>, cell: Value, ctx: Context, w: World)
    requires ctx.Valid() && w.lib == ctx.lib && Column(col, ctx).Ok?
    requires AllTyped(vs, ds, Column(col, ctx).value.1, w) && Held(cell, Column(col, ctx).value.1, w.lib)
    ensures var row: Row := map[Column(col, ctx).value.0 := Has(cell)];
            && Stored(row, ctx)
            && (SameSetOnRow(col, vs, ctx, w, row) <==> (OwnIn(cell, vs, Column(col, ctx).value.1, w) <==> Among(cell, ds)))
  {
    var (c, ty) := Column(col, ctx).value;
    var row: Row := map[c := Has(cell)];
    assert Field(c, Plain(ty)) in ctx.schema.fields;
    TypedMember(col, vs, ds, ctx, w, row);
  }

  // ---- whole filters ----

  /** Each literal and each set of the tree lies where its exact condition asks. */
  ghost predicate LiteralsPlaced(n: Node<Scalar>, ctx: Context, w: World)
    requires ctx.Valid()
  {
    match n
    case And(args) => forall i :: 0 <= i < |args| ==> LiteralsPlaced(args[i], ctx, w)
    case Or(args) => forall i :: 0 <= i < |args| ==> LiteralsPlaced(args[i], ctx, w)
    case Not(arg) => LiteralsPlaced(arg, ctx, w)
    case Compare(op, col, v) => ValuePlaced(op, col, v, ctx, w)
    case In(col, vs) => ValuesPlaced(col, vs, ctx, w)
    case NotIn(col, vs) => ValuesPlaced(col, vs, ctx, w)
    case StartsWith(_, v) => v.Character?
    case NotStartsWith(_, v) => v.Character?
    case _ => true
  }

  ghost predicate ValuePlaced(op: Cmp, col: string, v: Scalar, ctx: Context, w: World)
    requires ctx.Valid()
  {
    forall c, ty, d :: Column(col, ctx) == Ok((c, ty)) && TypedAs(v, ty, d, w) ==>
      Rendered(op, v, ty, w) && Placed(op, v, d, ty, w)
  }

  /** The values are of one class, and as a set lie where its own exact condition asks. */
  ghost predicate ValuesPlaced(col: string, vs: seq<Scalar>, ctx: Context, w: World)
    requires ctx.Valid()
  {
    forall c, ty, ds :: Column(col, ctx) == Ok((c, ty)) && AllTyped(vs, ds, ty, w) ==>
      OneClass(vs) && SetRendered(vs, ty, w) && SetPlaced(vs, ds, ty, w)
  }

  lemma PlacedSetAgrees(col: string, vs: seq<Scalar>, ctx: Context, w: World)
    requires ctx.Valid() && w.Valid() && ValuesPlaced(col, vs, ctx, w)
    ensures SetAgrees(col, vs, ctx, w)
  {
    forall c, ty, ds | Column(col, ctx) == Ok((c, ty)) && AllTyped(vs, ds, ty, w)
      ensures SetsAlike(vs, ds, ty, w)
    {
      SetsAlikeExactly(vs, ds, ty, w);
    }
  }

  lemma PlacedComparisonAgrees(op: Cmp, col: string, v: Scalar, ctx: Context, w: World)
    requires ctx.Valid() && w.Valid() && ValuePlaced(op, col, v, ctx, w)
    ensures ComparisonAgrees(op, col, v, ctx, w)
  {
    forall c, ty, d | Column(col, ctx) == Ok((c, ty)) && TypedAs(v, ty, d, w)
      ensures AnswersAlike(op, v, d, ty, w)
    {
      AgreesExactly(op, v, d, ty, w);
    }
  }

  /** Literals placed as the exact conditions ask agree, in every comparison and every set of the filter. */
  lemma {:induction false} PlacedLiteralsAgree(n: Node<Scalar>, ctx: Context, w: World)
    requires ctx.Valid() && w.Valid() && LiteralsPlaced(n, ctx, w)
    ensures LiteralsAgree(n, ctx, w)
    decreases n
  {
    if n.And? || n.Or? {
      forall i | 0 <= i < |n.args|
        ensures LiteralsAgree(n.args[i], ctx, w)
      {
        PlacedLiteralsAgree(n.args[i], ctx, w);
      }
    } else if n.Not? {
      PlacedLiteralsAgree(n.arg, ctx, w);
    } else if n.Compare? {
      PlacedComparisonAgrees(n.op, n.col, n.value, ctx, w);
    } else if n.In? || n.NotIn? {
      PlacedSetAgrees(n.col, n.values, ctx, w);
    }
  }

  lemma LeafOnRow(n: Node<Scalar>, ctx: Context, w: World, row: Row)
    requires ctx.Valid() && w.lib == ctx.lib && Stored(row, ctx) && LiteralsAgree(n, ctx, w)
    requires Sent(n, w.calendar).Ok? && Built(Sent(n, w.calendar).value, ctx).Ok?
    requires !n.And? && !n.Or? && !n.Not?
    ensures ValueOf(n, OwnReading(ctx, w), row) == ValueOf(n, TypedReading(ctx, w.calendar), row)
  {
    if n.Compare? {
      var ty := Column(n.col, ctx).value.1;
      var d := TypedLiteral(ToJson(n.value, w.calendar).value, ty, w.lib).value;
      assert TypedAs(n.value, ty, d, w);
      ComparisonOnRow(n.op, n.col, n.value, d, ctx, w, row);
    } else if n.In? || n.NotIn? {
      SetLeafOnRow(n, ctx, w, row);
    } else if n.StartsWith? || n.NotStartsWith? {
      PrefixOnRow(n.col, n.value, ctx, w, row);
    }
  }

  lemma SetLeafOnRow(n: Node<Scalar>, ctx: Context, w: World, row: Row)
    requires ctx.Valid() && w.lib == ctx.lib && Stored(row, ctx) && LiteralsAgree(n, ctx, w) && (n.In? || n.NotIn?)
    requires Sent(n, w.calendar).Ok? && Built(Sent(n, w.calendar).value, ctx).Ok?
    ensures OwnReading(ctx, w).member(n.col, n.values, row) == TypedReading(ctx, w.calendar).member(n.col, n.values, row)
  {
    var ty := Column(n.col, ctx).value.1;
    var ds := SentAreTyped(n.values, ty, w);
    SetOnRow(n.col, n.values, ds, ctx, w, row);
  }

  /** With literals that agree, the two readings give the tree one value on every row. */
  lemma {:induction false} AgreeingTree(n: Node<Scalar>, ctx: Context, w: World, row: Row)
    requires ctx.Valid() && w.lib == ctx.lib && Stored(row, ctx) && LiteralsAgree(n, ctx, w)
    requires Sent(n, w.calendar).Ok? && Built(Sent(n, w.calendar).value, ctx).Ok?
    ensures ValueOf(n, OwnReading(ctx, w), row) == ValueOf(n, TypedReading(ctx, w.calendar), row)
    decreases n
  {
    if n.And? || n.Or? {
      var ms := AllSent(n.args, w.calendar).value;
      forall i | 0 <= i < |ms|
        ensures ValueOf(n.args[i], OwnReading(ctx, w), row) == ValueOf(n.args[i], TypedReading(ctx, w.calendar), row)
      {
        SentPart(n.args, w.calendar, i);
        BuiltPart(ms, n.And?, ctx, i);
        AgreeingTree(n.args[i], ctx, w, row);
      }
      SameArguments(n, OwnReading(ctx, w), TypedReading(ctx, w.calendar), row);
    } else if n.Not? {
      AgreeingTree(n.arg, ctx, w, row);
    } else {
      LeafOnRow(n, ctx, w, row);
    }
  }

  lemma SameArguments(n: Node<Scalar>, r: Reading, r': Reading, row: Row)
    requires (n.And? || n.Or?) && forall i :: 0 <= i < |n.args| ==> ValueOf(n.args[i], r, row) == ValueOf(n.args[i], r', row)
    ensures ValueOf(n, r, row) == ValueOf(n, r', row)
  {
    assert seq(|n.args|, i requires 0 <= i < |n.args| => ValueOf(n.args[i], r, row)) ==
           seq(|n.args|, i requires 0 <= i < |n.args| => ValueOf(n.args[i], r', row));
  }

  /** The expression means the same on the row to R and, with typed literals, to the filter. */
  lemma AgreeingMeaning(e: Expr, s: Session, ctx: Context, w: World, row: Row)
    requires SameTable(s, ctx) && Beside(w, s, ctx) && Stored(row, ctx)
    requires TranslateFilter(e, s).Ok? && Accepted(TranslateFilter(e, s).value, s, ctx)
    requires LiteralsAgree(TranslateFilter(e, s).value, ctx, w)
    ensures Meaning(e, s, OwnReading(ctx, w), row) == Meaning(e, s, TypedReading(ctx, s.calendar), row)
  {
    OwnIsMirrored(ctx, w);
    TypedIsMirrored(ctx, s.calendar);
    TranslationIsFaithful(e, s, OwnReading(ctx, w), row);
    TranslationIsFaithful(e, s, TypedReading(ctx, s.calendar), row);
    AgreeingTree(TranslateFilter(e, s).value, ctx, w, row);
  }

  lemma {:induction false} SameRowsKeptOwn(rows: seq<Row>, e: Expr, s: Session, ctx: Context, w: World)
    requires SameTable(s, ctx) && Beside(w, s, ctx) && forall row :: row in rows ==> Stored(row, ctx)
    requires TranslateFilter(e, s).Ok? && Accepted(TranslateFilter(e, s).value, s, ctx)
    requires LiteralsAgree(TranslateFilter(e, s).value, ctx, w)
    ensures RowsKept(rows, e, s, OwnReading(ctx, w)) == RowsKept(rows, e, s, TypedReading(ctx, s.calendar))
  {
    if rows != [] {
      assert rows[0] in rows && forall r :: r in rows[1..] ==> r in rows;
      AgreeingMeaning(e, s, ctx, w, rows[0]);
      SameRowsKeptOwn(rows[1..], e, s, ctx, w);
    }
  }

  /**
   End to end, under R's own comparisons: an accepted filter whose literals agree
   returns, from any files and in order, exactly the rows R's own evaluation of
   the expression would keep.
   */
  lemma PushedFilterKeepsOwnRows(e: Expr, s: Session, ctx: Context, w: World, files: seq<Pruning.DataFile>, zeros: ZeroRule)
    requires SameTable(s, ctx) && Beside(w, s, ctx) && Pushed(e, s, ctx).Some?
    requires LiteralsAgree(TranslateFilter(e, s).value, ctx, w)
    requires forall f :: f in files ==> Pruning.Sound(f, ctx)
    requires forall row :: row in Pruning.AllRows(files) ==> Stored(row, ctx)
    ensures Pruning.Scan(files, Pushed(e, s, ctx).value, zeros) ==
            RowsKept(Pruning.AllRows(files), e, s, OwnReading(ctx, w))
  {
    PushedExactly(e, s, ctx);
    PushedFilterKeepsRsRows(e, s, ctx, files, zeros);
    SameRowsKeptOwn(Pruning.AllRows(files), e, s, ctx, w);
  }
}
