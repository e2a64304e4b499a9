/**
 The whole chain, from a quoted expression to the rows a scan returns: translated,
 written, read back, compiled, and evaluated over pruned files.
 */
module Pushdown {
  import opened Outcomes
  import opened Values
  import opened FilterTree
  import opened Names
  import opened Iceberg
  import opened Compiler
  import opened RLogic
  import opened Wire
  import opened Translate
  import Pruning

  /** The session and the scan look at one table, and R formats the numbers it sends. */
  ghost predicate SameTable(s: Session, ctx: Context) {
    && ctx.Valid() && s.columns == ctx.schema.Columns() && s.caseSensitive == ctx.caseSensitive
    && forall x, v :: s.Value(x).Some? && v in s.Value(x).value ==> FormattedScalar(v)
  }

  // ---- literals as their column types them ----

  /** Values that have an order: neither is NaN. */
  type Comparable = v: Value | !IsNaN(v) witness IntV(0)

  /** R's comparisons, of the value a column holds with the literal its type makes of a value. */
  ghost function TypedReading(ctx: Context, calendar: Calendar): Reading
    requires ctx.Valid()
  {
    Reading(
      (op, col, v, row) => OfSent(ToJson(v, calendar), j => Node.Compare(op, col, j), ctx, row),
      (fn, col, v, row) => OfTyped(ToJson(v, calendar), (cell: Comparable, d: Comparable) => Says(fn, NumericOrder(cell, d)), col, ctx, row),
      (fn, v, col, row) => OfTyped(ToJson(v, calendar), (cell: Comparable, d: Comparable) => Says(fn, NumericOrder(d, cell)), col, ctx, row),
      (col, vs, row) => OfSent(ToJsons(vs, calendar), js => Node.In(col, js), ctx, row),
      (col, v, row) => OfSent(ToJson(v, calendar), j => Node.StartsWith(col, j), ctx, row))
  }

  ghost function OfSent<T>(sent: Result<T, WriteError>, node: T -> Node<Json>, ctx: Context, row: Row): Truth3
    requires ctx.Valid()
  {
    match sent
    case Ok(j) => RValue(node(j), ctx, row)
    case Err(_) => Unknown
  }

  /** What is said of the value a row has in the column and the value sent, typed. */
  ghost function OfTyped(sent: Result<Json, WriteError>, says: (Comparable, Comparable) -> bool, col: string, ctx: Context, row: Row): Truth3
    requires ctx.Valid()
  {
    match (sent, Column(col, ctx))
    case (Ok(j), Ok((c, ty))) =>
      (match TypedLiteral(j, ty, ctx.lib)
       case Ok(d) => if IsNA(c, row) then Unknown else Known(says(row[c].v, d))
       case Err(_) => Unknown)
    case _ => Unknown
  }

  /** The value of a comparison in the tree. */
  function ComparedWith(op: Cmp, j: Json, col: string, ctx: Context, row: Row): Truth3
    requires ctx.Valid()
  {
    if Column(col, ctx).Ok? then RCompared(op, j, Column(col, ctx).value.0, Column(col, ctx).value.1, ctx.lib, row) else Unknown
  }

  lemma ComparedValue(op: Cmp, col: string, j: Json, ctx: Context, row: Row)
    requires ctx.Valid()
    ensures RValue(Node.Compare(op, col, j), ctx, row) == ComparedWith(op, j, col, ctx, row)
  {
  }

  lemma ComparedAsTyped(op: Cmp, j: Json, col: string, ctx: Context, row: Row)
    requires ctx.Valid()
    ensures OfTyped(Ok(j), (cell: Comparable, d: Comparable) => op.Holds(NumericOrder(cell, d)), col, ctx, row) ==
            ComparedWith(op, j, col, ctx, row)
  {
  }

  lemma ComparedIs(op: Cmp, v: Scalar, col: string, ctx: Context, calendar: Calendar, row: Row)
    requires ctx.Valid()
    ensures TypedReading(ctx, calendar).compare(op, col, v, row) ==
            OfTyped(ToJson(v, calendar), (cell: Comparable, d: Comparable) => op.Holds(NumericOrder(cell, d)), col, ctx, row)
  {
    var sent := ToJson(v, calendar);
    if sent.Ok? {
      ComparedValue(op, col, sent.value, ctx, row);
      ComparedAsTyped(op, sent.value, col, ctx, row);
    }
  }

  lemma SaidAlike(sent: Result<Json, WriteError>, says: (Comparable, Comparable) -> bool, theirs: (Comparable, Comparable) -> bool,
                  col: string, ctx: Context, row: Row)
    requires ctx.Valid() && forall cell, d :: says(cell, d) == theirs(cell, d)
    ensures OfTyped(sent, says, col, ctx, row) == OfTyped(sent, theirs, col, ctx, row)
  {
  }

  /** A symbol between a column and a value, as written, is the operator that stands for it. */
  lemma WrittenIsCompared(op: Cmp, fn: string, v: Scalar, col: string, ctx: Context, calendar: Calendar, row: Row)
    requires ctx.Valid() && Stands(op, fn)
    ensures var r := TypedReading(ctx, calendar); r.written(fn, col, v, row) == r.compare(op, col, v, row)
  {
    ComparedIs(op, v, col, ctx, calendar, row);
    SaidAlike(ToJson(v, calendar), (cell: Comparable, d: Comparable) => Says(fn, NumericOrder(cell, d)),
              (cell: Comparable, d: Comparable) => op.Holds(NumericOrder(cell, d)), col, ctx, row);
  }

  /** And between a value and a column, the operator that stands for it reversed. */
  lemma ReversedIsFlipped(op: Cmp, fn: string, v: Scalar, col: string, ctx: Context, calendar: Calendar, row: Row)
    requires ctx.Valid() && StandsReversed(op, fn)
    ensures var r := TypedReading(ctx, calendar); r.reversed(fn, v, col, row) == r.compare(op, col, v, row)
  {
    ComparedIs(op, v, col, ctx, calendar, row);
    forall cell: Comparable, d: Comparable
      ensures Says(fn, NumericOrder(d, cell)) <==> op.Holds(NumericOrder(cell, d))
    {
      ReversedSays(op, fn, cell, d);
    }
    SaidAlike(ToJson(v, calendar), (cell: Comparable, d: Comparable) => Says(fn, NumericOrder(d, cell)),
              (cell: Comparable, d: Comparable) => op.Holds(NumericOrder(cell, d)), col, ctx, row);
  }

  lemma ReversedSays(op: Cmp, fn: string, cell: Comparable, d: Comparable)
    requires StandsReversed(op, fn)
    ensures Says(fn, NumericOrder(d, cell)) <==> op.Holds(NumericOrder(cell, d))
  {
    NumericOrderReverses(cell, d);
  }

  lemma TypedIsMirrored(ctx: Context, calendar: Calendar)
    requires ctx.Valid()
    ensures Mirrored(TypedReading(ctx, calendar))
  {
    var r := TypedReading(ctx, calendar);
    forall op, fn, v, col, row | Stands(op, fn)
      ensures r.written(fn, col, v, row) == r.compare(op, col, v, row)
    {
      WrittenIsCompared(op, fn, v, col, ctx, calendar, row);
    }
    forall op, fn, v, col, row | StandsReversed(op, fn)
      ensures r.reversed(fn, v, col, row) == r.compare(op, col, v, row)
    {
      ReversedIsFlipped(op, fn, v, col, ctx, calendar, row);
    }
  }

  /** The symbol, of two values of which either may be below the other. */
  ghost predicate Compare(fn: string, a: Value, b: Value) {
    || (fn == "<" && Below(a, b)) || (fn == "<=" && !Below(b, a))
    || (fn == ">" && Below(b, a)) || (fn == ">=" && !Below(a, b))
    || (fn == "==" && !Below(a, b) && !Below(b, a)) || (fn == "!=" && (Below(a, b) || Below(b, a)))
  }

  /** A column and a value of one element, which the column types as `d`. */
  ghost predicate Against(col: Expr, value: Expr, c: string, d: Value, s: Session, ctx: Context)
    requires ctx.Valid()
  {
    && NamedColumn(col, s).Some? && s.Value(value).Some? && |s.Value(value).value| == 1
    && Column(NamedColumn(col, s).value, ctx).Ok? && Column(NamedColumn(col, s).value, ctx).value.0 == c
    && ToJson(s.Value(value).value[0], s.calendar).Ok?
    && TypedLiteral(ToJson(s.Value(value).value[0], s.calendar).value, Column(NamedColumn(col, s).value, ctx).value.1, ctx.lib) == Ok(d)
  }

  lemma SaidOf(sent: Result<Json, WriteError>, says: (Comparable, Comparable) -> bool, col: string, c: string, d: Comparable, ctx: Context, row: Row)
    requires ctx.Valid() && sent.Ok? && Column(col, ctx).Ok? && Column(col, ctx).value.0 == c
    requires TypedLiteral(sent.value, Column(col, ctx).value.1, ctx.lib) == Ok(d)
    ensures OfTyped(sent, says, col, ctx, row) == if IsNA(c, row) then Unknown else Known(says(row[c].v, d))
  {
  }

  /** A comparison written column first means what its symbol says of the value in the row and the literal; NA without a value. */
  lemma MeaningOfComparison(fn: string, x: Expr, y: Expr, c: string, d: Value, s: Session, ctx: Context, row: Row)
    requires ctx.Valid() && Relational(fn) && !IsNaN(d) && Against(x, y, c, d, s, ctx)
    ensures Meaning(Call(Symbol(fn), [x, y]), s, TypedReading(ctx, s.calendar), row) ==
            if IsNA(c, row) then Unknown else Known(Compare(fn, row[c].v, d))
  {
    MeaningOfPair(Call(Symbol(fn), [x, y]), s, TypedReading(ctx, s.calendar), row);
    SaidOf(ToJson(s.Value(y).value[0], s.calendar), (cell: Comparable, d: Comparable) => Says(fn, NumericOrder(cell, d)),
           NamedColumn(x, s).value, c, d, ctx, row);
    if !IsNA(c, row) {
      SymbolIs(fn, row[c].v, d);
    }
  }

  /** And written value first, of the literal and the value in the row. */
  lemma MeaningOfReversed(fn: string, x: Expr, y: Expr, c: string, d: Value, s: Session, ctx: Context, row: Row)
    requires ctx.Valid() && Relational(fn) && !IsNaN(d) && Against(y, x, c, d, s, ctx) && NamedColumn(x, s).None?
    ensures Meaning(Call(Symbol(fn), [x, y]), s, TypedReading(ctx, s.calendar), row) ==
            if IsNA(c, row) then Unknown else Known(Compare(fn, d, row[c].v))
  {
    MeaningOfPair(Call(Symbol(fn), [x, y]), s, TypedReading(ctx, s.calendar), row);
    SaidOf(ToJson(s.Value(x).value[0], s.calendar), (cell: Comparable, d: Comparable) => Says(fn, NumericOrder(d, cell)),
           NamedColumn(y, s).value, c, d, ctx, row);
    if !IsNA(c, row) {
      SymbolIs(fn, d, row[c].v);
    }
  }

  lemma SymbolIs(fn: string, a: Comparable, b: Comparable)
    requires Relational(fn)
    ensures Says(fn, NumericOrder(a, b)) <==> Compare(fn, a, b)
  {
    NumericOrderIs(a, b);
  }

  // ---- what is sent has the same value ----

  /** Each column of the tree is bound under the name the tree has for it. */
  ghost predicate NamesOwn(n: Node<Scalar>, ctx: Context)
    requires ctx.Valid()
  {
    match n
    case And(args) => forall i :: 0 <= i < |args| ==> NamesOwn(args[i], ctx)
    case Or(args) => forall i :: 0 <= i < |args| ==> NamesOwn(args[i], ctx)
    case Not(arg) => NamesOwn(arg, ctx)
    case Always(_) => true
    case _ => Column(n.col, ctx).Ok? ==> Column(n.col, ctx).value.0 == n.col
  }

  lemma {:induction false} SentPart(args: seq<Node<Scalar>>, calendar: Calendar, i: nat)
    requires AllSent(args, calendar).Ok? && i < |args|
    ensures Sent(args[i], calendar) == Ok(AllSent(args, calendar).value[i])
  {
    if i > 0 {
      SentPart(args[1..], calendar, i - 1);
    }
  }

  lemma {:induction false} BuiltPart(args: seq<Node<Json>>, conjunction: bool, ctx: Context, i: nat)
    requires ctx.Valid() && BuiltAll(args, conjunction, ctx).Ok? && i < |args|
    ensures Built(args[i], ctx).Ok?
    decreases |args|
  {
    if i < |args| - 1 {
      BuiltPart(args[..|args| - 1], conjunction, ctx, i);
    }
  }

  lemma ColumnLeafIsSent(n: Node<Scalar>, m: Node<Json>, ctx: Context, calendar: Calendar, r: Reading, row: Row)
    requires ctx.Valid() && Built(m, ctx).Ok? && NamesOwn(n, ctx)
    requires (n.IsNull? || n.IsNotNull? || n.IsNan? || n.IsNotNan?) && Sent(n, calendar) == Ok(m)
    ensures ValueOf(n, r, row) == RValue(m, ctx, row)
  {
  }

  /** The negated forms are the negations of the others. */
  lemma NegatedSet(col: string, js: seq<Json>, ctx: Context, row: Row)
    requires ctx.Valid()
    ensures RValue(Node.NotIn(col, js), ctx, row) == RValue(Node.In(col, js), ctx, row).Not()
  {
  }

  lemma NegatedPrefix(col: string, j: Json, ctx: Context, row: Row)
    requires ctx.Valid()
    ensures RValue(Node.NotStartsWith(col, j), ctx, row) == RValue(Node.StartsWith(col, j), ctx, row).Not()
  {
  }

  lemma ReadingIs(op: Cmp, col: string, v: Scalar, vs: seq<Scalar>, ctx: Context, calendar: Calendar, row: Row)
    requires ctx.Valid()
    ensures var r := TypedReading(ctx, calendar);
            && (ToJson(v, calendar).Ok? ==>
                  && r.compare(op, col, v, row) == RValue(Node.Compare(op, col, ToJson(v, calendar).value), ctx, row)
                  && r.starts(col, v, row) == RValue(Node.StartsWith(col, ToJson(v, calendar).value), ctx, row))
            && (ToJsons(vs, calendar).Ok? ==>
                  r.member(col, vs, row) == RValue(Node.In(col, ToJsons(vs, calendar).value), ctx, row))
  {
  }

  lemma SetLeafIsSent(n: Node<Scalar>, ctx: Context, calendar: Calendar, row: Row)
    requires ctx.Valid() && (n.In? || n.NotIn?)
    requires Sent(n, calendar).Ok? && Built(Sent(n, calendar).value, ctx).Ok?
    ensures ValueOf(n, TypedReading(ctx, calendar), row) == RValue(Sent(n, calendar).value, ctx, row)
  {
    ReadingIs(Eq, n.col, NotAvailable, n.values, ctx, calendar, row);
    if n.NotIn? {
      NegatedSet(n.col, ToJsons(n.values, calendar).value, ctx, row);
    }
  }

  lemma ValueLeafIsSent(n: Node<Scalar>, ctx: Context, calendar: Calendar, row: Row)
    requires ctx.Valid() && (n.Compare? || n.StartsWith? || n.NotStartsWith?)
    requires Sent(n, calendar).Ok? && Built(Sent(n, calendar).value, ctx).Ok?
    ensures ValueOf(n, TypedReading(ctx, calendar), row) == RValue(Sent(n, calendar).value, ctx, row)
  {
    ReadingIs(if n.Compare? then n.op else Eq, n.col, n.value, [], ctx, calendar, row);
    if n.NotStartsWith? {
      NegatedPrefix(n.col, ToJson(n.value, calendar).value, ctx, row);
    }
  }

  lemma LeafIsSent(n: Node<Scalar>, ctx: Context, calendar: Calendar, row: Row)
    requires ctx.Valid() && Sent(n, calendar).Ok? && Built(Sent(n, calendar).value, ctx).Ok? && NamesOwn(n, ctx)
    requires !n.And? && !n.Or? && !n.Not?
    ensures ValueOf(n, TypedReading(ctx, calendar), row) == RValue(Sent(n, calendar).value, ctx, row)
  {
    if n.In? || n.NotIn? {
      SetLeafIsSent(n, ctx, calendar, row);
    } else if n.Compare? || n.StartsWith? || n.NotStartsWith? {
      ValueLeafIsSent(n, ctx, calendar, row);
    } else if !n.Always? {
      ColumnLeafIsSent(n, Sent(n, calendar).value, ctx, calendar, TypedReading(ctx, calendar), row);
    }
  }

  /** The tree that is sent has, with typed literals, the value of the tree it is sent for. */
  lemma {:induction false} SentKeepsValue(n: Node<Scalar>, ctx: Context, calendar: Calendar, row: Row)
    requires ctx.Valid() && Sent(n, calendar).Ok? && Built(Sent(n, calendar).value, ctx).Ok? && NamesOwn(n, ctx)
    ensures ValueOf(n, TypedReading(ctx, calendar), row) == RValue(Sent(n, calendar).value, ctx, row)
    decreases n
  {
    if n.And? || n.Or? {
      var ms := AllSent(n.args, calendar).value;
      forall i | 0 <= i < |ms|
        ensures ValueOf(n.args[i], TypedReading(ctx, calendar), row) == RValue(ms[i], ctx, row)
      {
        SentPart(n.args, calendar, i);
        BuiltPart(ms, n.And?, ctx, i);
        SentKeepsValue(n.args[i], ctx, calendar, row);
      }
      ConnectiveIsSent(n, ms, ctx, calendar, row);
    } else if n.Not? {
      SentKeepsValue(n.arg, ctx, calendar, row);
    } else {
      LeafIsSent(n, ctx, calendar, row);
    }
  }

  lemma ConnectiveIsSent(n: Node<Scalar>, ms: seq<Node<Json>>, ctx: Context, calendar: Calendar, row: Row)
    requires ctx.Valid() && (n.And? || n.Or?) && AllSent(n.args, calendar) == Ok(ms)
    requires forall i :: 0 <= i < |ms| ==> ValueOf(n.args[i], TypedReading(ctx, calendar), row) == RValue(ms[i], ctx, row)
    ensures ValueOf(n, TypedReading(ctx, calendar), row) == RValue(Sent(n, calendar).value, ctx, row)
  {
    var r := TypedReading(ctx, calendar);
    assert seq(|n.args|, i requires 0 <= i < |n.args| => ValueOf(n.args[i], r, row)) ==
           seq(|ms|, i requires 0 <= i < |ms| => RValue(ms[i], ctx, row));
  }

  // ---- what translation produces ----

  lemma NamedColumnBinds(e: Expr, s: Session, ctx: Context)
    requires SameTable(s, ctx) && NamedColumn(e, s).Some?
    ensures var col := NamedColumn(e, s).value; Column(col, ctx).Ok? ==> Column(col, ctx).value.0 == col
  {
    ResolutionAgrees(e.name, ctx.schema, s.caseSensitive, s.lower);
  }

  /** A leaf is named after the column that one of the operands is. */
  lemma LeafIsNamed(e: Expr, s: Session)
    requires e.Call? && TranslateFilter(e, s).Ok?
    requires var n := TranslateFilter(e, s).value; !n.And? && !n.Or? && !n.Not? && !n.Always? && CalledName(e) != "("
    ensures exists x :: NamedColumn(x, s) == Some(TranslateFilter(e, s).value.col)
  {
    var n := TranslateFilter(e, s).value;
    if CalledName(e) == "!" {
      assert NamedColumn(e.args[0].args[0], s) == Some(n.col);
    } else if NamedColumn(e.args[0], s).Some? {
      assert NamedColumn(e.args[0], s) == Some(n.col);
    } else {
      assert NamedColumn(e.args[1], s) == Some(n.col);
    }
  }

  lemma LeafNamesOwn(e: Expr, s: Session, ctx: Context)
    requires SameTable(s, ctx) && e.Call? && TranslateFilter(e, s).Ok?
    requires var n := TranslateFilter(e, s).value; !n.And? && !n.Or? && !n.Not? && !n.Always? && CalledName(e) != "("
    ensures NamesOwn(TranslateFilter(e, s).value, ctx)
  {
    LeafIsNamed(e, s);
    var x :| NamedColumn(x, s) == Some(TranslateFilter(e, s).value.col);
    NamedColumnBinds(x, s, ctx);
  }

  lemma PairNamesOwn(a: Node<Scalar>, b: Node<Scalar>, ctx: Context)
    requires ctx.Valid() && NamesOwn(a, ctx) && NamesOwn(b, ctx)
    ensures NamesOwn(And([a, b]), ctx) && NamesOwn(Or([a, b]), ctx)
  {
  }

  lemma {:induction false} TranslatedNamesOwn(e: Expr, s: Session, ctx: Context)
    requires SameTable(s, ctx) && TranslateFilter(e, s).Ok?
    ensures NamesOwn(TranslateFilter(e, s).value, ctx)
    decreases e
  {
    if e.Call? {
      var fn := CalledName(e);
      if fn == "(" || (fn == "!" && Direct(e.args[0], s).value.None?) {
        TranslatedNamesOwn(e.args[0], s, ctx);
      } else if IsAnd(fn) || IsOr(fn) {
        TranslatedNamesOwn(e.args[0], s, ctx);
        TranslatedNamesOwn(e.args[1], s, ctx);
        PairNamesOwn(TranslateFilter(e.args[0], s).value, TranslateFilter(e.args[1], s).value, ctx);
      } else {
        LeafNamesOwn(e, s, ctx);
      }
    }
  }

  /** Every number a translated tree carries is one R formatted. */
  lemma {:induction false} TranslatedIsFormatted(e: Expr, s: Session)
    requires forall x, v :: s.Value(x).Some? && v in s.Value(x).value ==> FormattedScalar(v)
    requires TranslateFilter(e, s).Ok?
    ensures Formatted(TranslateFilter(e, s).value)
    decreases e
  {
    if e.Call? {
      var fn := CalledName(e);
      if fn == "(" || (fn == "!" && Direct(e.args[0], s).value.None?) {
        TranslatedIsFormatted(e.args[0], s);
      } else if IsAnd(fn) || IsOr(fn) {
        TranslatedIsFormatted(e.args[0], s);
        TranslatedIsFormatted(e.args[1], s);
      }
    }
  }

  // ---- the whole chain ----

  /** The predicate a scan is given for an expression: translated, written, read back, compiled. */
  function Pushed(e: Expr, s: Session, ctx: Context): Option<Predicate>
    requires ctx.Valid()
  {
    match TranslateFilter(e, s)
    case Err(_) => None
    case Ok(n) =>
      match FilterToJson(n, s.calendar)
      case Err(_) => None
      case Ok(text) =>
        match ReadFilter(text)
        case None => None
        case Some(m) =>
          match Built(m, ctx)
          case Err(_) => None
          case Ok(truth) => Some(truth.t)
  }

  /** The tree of an expression that is accepted, as it is sent. */
  ghost predicate Accepted(n: Node<Scalar>, s: Session, ctx: Context)
    requires ctx.Valid()
  {
    && Sent(n, s.calendar).Ok? && Nesting(n) <= 127
    && Built(Sent(n, s.calendar).value, ctx).Ok?
  }

  /**
   A filter is pushed down exactly if it translates, its values can be sent, it is
   nested no deeper than the reader allows, and what is sent compiles; and what a
   scan is given is then the first half of the pair.
   */
  lemma PushedExactly(e: Expr, s: Session, ctx: Context)
    requires SameTable(s, ctx)
    ensures Pushed(e, s, ctx).Some? <==> TranslateFilter(e, s).Ok? && Accepted(TranslateFilter(e, s).value, s, ctx)
    ensures Pushed(e, s, ctx).Some? ==>
              Pushed(e, s, ctx).value == Built(Sent(TranslateFilter(e, s).value, s.calendar).value, ctx).value.t
  {
    if TranslateFilter(e, s).Ok? {
      var n := TranslateFilter(e, s).value;
      TranslatedIsFormatted(e, s);
      FilterToJsonAgrees(n, s.calendar);
      if FilterToJson(n, s.calendar).Ok? {
        ReaderUndoesPrinter(n, s.calendar);
      }
    }
  }

  /** The rows on which the expression is TRUE. */
  ghost function RowsKept(rows: seq<Row>, e: Expr, s: Session, r: Reading): seq<Row> {
    if rows == [] then []
    else (if Meaning(e, s, r, rows[0]).True? then [rows[0]] else []) + RowsKept(rows[1..], e, s, r)
  }

  lemma MeaningIsSent(e: Expr, s: Session, ctx: Context, row: Row)
    requires SameTable(s, ctx) && TranslateFilter(e, s).Ok? && Accepted(TranslateFilter(e, s).value, s, ctx)
    ensures RValue(Sent(TranslateFilter(e, s).value, s.calendar).value, ctx, row) ==
            Meaning(e, s, TypedReading(ctx, s.calendar), row)
  {
    TypedIsMirrored(ctx, s.calendar);
    TranslationIsFaithful(e, s, TypedReading(ctx, s.calendar), row);
    TranslatedNamesOwn(e, s, ctx);
    SentKeepsValue(TranslateFilter(e, s).value, ctx, s.calendar, row);
  }

  lemma {:induction false} SameRowsKept(rows: seq<Row>, e: Expr, s: Session, ctx: Context)
    requires SameTable(s, ctx) && TranslateFilter(e, s).Ok? && Accepted(TranslateFilter(e, s).value, s, ctx)
    ensures Pruning.KeptByR(rows, Sent(TranslateFilter(e, s).value, s.calendar).value, ctx) ==
            RowsKept(rows, e, s, TypedReading(ctx, s.calendar))
  {
    if rows != [] {
      MeaningIsSent(e, s, ctx, rows[0]);
      SameRowsKept(rows[1..], e, s, ctx);
    }
  }

  /**
   End to end: a filter that is accepted returns, from any set of files and in
   order, exactly the rows on which R, given the literals as their columns type
   them, evaluates the original expression to TRUE.
   */
  lemma PushedFilterKeepsRsRows(e: Expr, s: Session, ctx: Context, files: seq<Pruning.DataFile>, zeros: ZeroRule)
    requires SameTable(s, ctx) && Pushed(e, s, ctx).Some? && forall f :: f in files ==> Pruning.Sound(f, ctx)
    ensures Pruning.Scan(files, Pushed(e, s, ctx).value, zeros) ==
            RowsKept(Pruning.AllRows(files), e, s, TypedReading(ctx, s.calendar))
  {
    PushedExactly(e, s, ctx);
    Pruning.ScanReturnsRsRows(files, Sent(TranslateFilter(e, s).value, s.calendar).value, ctx, zeros);
    SameRowsKept(Pruning.AllRows(files), e, s, ctx);
  }
}
