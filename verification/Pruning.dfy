/**
 Skipping a file on its statistics is invisible. A single leaf such as `x > v`
 is not safe to prune on, since it holds of a NaN that no bound covers; what is
 safe is every pair the compiler builds, because of the tests it puts beside
 each leaf.
 */
module Pruning {
  import opened Outcomes
  import opened Values
  import opened FilterTree
  import opened Names
  import opened Iceberg
  import opened Compiler
  import opened RLogic
  import opened Preservation

  /** The statistics keep the file, if the predicate is TRUE of a row of it. */
  ghost predicate Keeps(p: Predicate, row: Row, file: FileStats, zeros: ZeroRule) {
    Eval(p, row).True? ==> MightMatch(p, file, zeros)
  }

  // ---- bounds ----

  lemma BetweenIsOrdered(a: Value, b: Value, c: Value)
    requires !IsNaN(a) && !IsNaN(b) && !IsNaN(c) && SameKind(a, b) && SameKind(b, c)
    requires !NumericOrder(a, b).More? && !NumericOrder(b, c).More?
    ensures !NumericOrder(a, c).More?
    ensures NumericOrder(a, c).Same? ==> NumericOrder(a, b).Same? && NumericOrder(b, c).Same?
  {
    if a.BytesV? {
      BytesOrderTransitive(a.s, b.s, c.s);
    }
  }

  /** A literal the compiler compares a float with: not a zero, or the zero on the operator's own side. */
  predicate OnItsSide(op: Cmp, d: Value) {
    IsZero(d) ==> if op.Lt? || op.Gte? then d.f.NegZero? else (op.Gt? || op.Lte?) && d.f.Finite?
  }

  /** Bounds that bracket a value up to the sign of a zero do not exclude a comparison it satisfies. */
  lemma BoundsAdmit(op: Cmp, v: Value, d: Value, s: ColumnStats, zeros: ZeroRule)
    requires Describes(s, v) && !IsNaN(v) && !IsNaN(d) && SameKind(v, d) && OnItsSide(op, d)
    requires op.Holds(TotalOrder(v, d))
    ensures MightHold(Test.Compare(op, d), s, zeros)
  {
    if s.lower.Some? {
      BoundIsOrdered(s.lower.value, v, d);
    }
    if s.upper.Some? {
      NumericOrderReverses(v, s.upper.value);
      BoundIsOrdered(s.upper.value, v, d);
    }
  }

  /** How a bound compares with a literal, given where the value lies between them. */
  lemma BoundIsOrdered(bound: Value, v: Value, d: Value)
    requires !IsNaN(bound) && !IsNaN(v) && !IsNaN(d) && SameKind(bound, v) && SameKind(v, d)
    ensures !IsZero(d) ==> TotalOrder(v, d) == NumericOrder(v, d) && TotalOrder(bound, d) == NumericOrder(bound, d)
    ensures !NumericOrder(bound, v).More? && NumericOrder(v, d).Less? ==> NumericOrder(bound, d).Less?
    ensures !NumericOrder(bound, v).More? && !NumericOrder(v, d).More? ==> !NumericOrder(bound, d).More?
    ensures !NumericOrder(bound, v).Less? && NumericOrder(v, d).More? ==> NumericOrder(bound, d).More?
    ensures !NumericOrder(bound, v).Less? && !NumericOrder(v, d).Less? ==> !NumericOrder(bound, d).Less?
    ensures NumericOrder(d, bound) == NumericOrder(bound, d).Reverse()
    ensures TotalOrder(d, bound) == TotalOrder(bound, d).Reverse()
  {
    if !IsZero(d) {
      OrdersAgree(v, d);
      OrdersAgree(bound, d);
    }
    NumericOrderReverses(bound, v);
    NumericOrderReverses(v, d);
    NumericOrderReverses(bound, d);
    if !NumericOrder(bound, v).More? && !NumericOrder(v, d).More? {
      BetweenIsOrdered(bound, v, d);
    }
    if !NumericOrder(bound, v).Less? && !NumericOrder(v, d).Less? {
      BetweenIsOrdered(d, v, bound);
    }
  }

  lemma SetAdmits(v: Value, ds: seq<Value>, s: ColumnStats, zeros: ZeroRule)
    requires Describes(s, v) && !IsNaN(v)
    requires forall d :: d in ds ==> !IsNaN(d) && !IsZero(d) && SameKind(v, d)
    requires AmongSet(v, ds)
    ensures MightHold(Test.In(ds), s, zeros)
  {
    var i :| 0 <= i < |ds| && TotalOrder(v, ds[i]).Same?;
    assert ds[i] in ds;
    BoundsAdmit(Eq, v, ds[i], s, zeros);
  }

  // ---- prefixes ----

  function Short(s: seq<int>, n: nat): seq<int> { if |s| > n then s[..n] else s }

  lemma {:induction false} ShorteningKeepsOrder(a: seq<int>, b: seq<int>, n: nat)
    requires !BytesOrder(a, b).More?
    ensures !BytesOrder(Short(a, n), Short(b, n)).More?
  {
    if a != [] && b != [] && n > 0 && a[0] == b[0] {
      ShorteningKeepsOrder(a[1..], b[1..], n - 1);
      assert Short(a, n)[1..] == Short(a[1..], n - 1);
      assert Short(b, n)[1..] == Short(b[1..], n - 1);
    }
  }

  lemma PrefixAdmits(p: Value, v: Value, s: ColumnStats, zeros: ZeroRule)
    requires p.BytesV? && v.BytesV? && Describes(s, v)
    ensures IsPrefix(p, v) ==> MightHold(Test.StartsWith(p), s, zeros)
    ensures !IsPrefix(p, v) ==> MightHold(Test.NotStartsWith(p), s, zeros)
  {
    var n := |p.s|;
    if s.lower.Some? {
      ShorteningKeepsOrder(s.lower.value.s, v.s, n);
    }
    if s.upper.Some? {
      ShorteningKeepsOrder(v.s, s.upper.value.s, n);
      BytesOrderReverses(Short(v.s, n), Short(s.upper.value.s, n));
    }
    assert IsPrefix(p, v) ==> Short(v.s, n) == p.s;
    if s.lower.Some? && s.upper.Some? && IsPrefix(p, s.lower.value) && IsPrefix(p, s.upper.value) {
      assert Short(s.lower.value.s, n) == p.s == Short(s.upper.value.s, n);
      BytesOrderReverses(Short(v.s, n), p.s);
      BytesOrderSame(Short(v.s, n), p.s);
    }
  }

  // ---- leaves ----

  lemma AppliedKeeps(op: Cmp, col: string, d: Value, ty: Primitive, row: Row, file: FileStats, zeros: ZeroRule)
    requires CellFits(col, ty, row) && Typed(d, ty) && !IsNaN(d) && !IsNA(col, row) && Covers(file, row)
    ensures Keeps(Applied(op, col, d, ty), row, file, zeros)
  {
    var p := Applied(op, col, d, ty);
    if Eval(p, row).True? && col in file {
      var v, s := row[col].v, file[col];
      if IsZero(d) {
        ZeroKeeps(op, col, d, row, file, zeros);
      } else {
        BoundsAdmit(op, v, d, s, zeros);
      }
    }
  }

  lemma ZeroKeeps(op: Cmp, col: string, d: Value, row: Row, file: FileStats, zeros: ZeroRule)
    requires IsZero(d) && !IsNA(col, row) && row[col].v.FloatV? && Covers(file, row)
    ensures Keeps(FloatCompare(op, col, d), row, file, zeros)
  {
    var v := row[col].v;
    var neg, pos := FloatV(NegZero), FloatV(Finite(0.0));
    if Eval(FloatCompare(op, col, d), row).True? {
      forall o: Cmp, z: Value | z.FloatV? && IsZero(z) && OnItsSide(o, z) && o.Holds(TotalOrder(v, z))
        ensures MightMatch(Leaf(col, Test.Compare(o, z)), file, zeros)
      {
        if col in file {
          BoundsAdmit(o, v, z, file[col], zeros);
        }
      }
      EvalConnectives(Leaf(col, Test.Compare(Gte, neg)), Leaf(col, Test.Compare(Lte, pos)), row);
      EvalConnectives(Leaf(col, Test.Compare(Lt, neg)), Leaf(col, Test.Compare(Gt, pos)), row);
    }
  }

  lemma GuardKeeps(col: string, ty: Primitive, row: Row, file: FileStats, zeros: ZeroRule)
    requires CellFits(col, ty, row) && !IsNA(col, row) && Covers(file, row)
    ensures MightMatch(Comparable(col, ty), file, zeros)
  {
  }

  lemma MissingKeeps(col: string, ty: Primitive, row: Row, file: FileStats, zeros: ZeroRule)
    requires CellFits(col, ty, row) && Covers(file, row)
    ensures Keeps(Missing(col, ty).t, row, file, zeros)
    ensures Keeps(Missing(col, ty).f, row, file, zeros)
  {
    assert forall t: Test | t.IsNull? || t.NotNull? || t.IsNan? || t.NotNan? :: Keeps(Leaf(col, t), row, file, zeros);
    EvalConnectives(Leaf(col, Test.IsNull), Leaf(col, Test.IsNan), row);
    EvalConnectives(Leaf(col, NotNull), Leaf(col, NotNan), row);
    MightMatchConnectives(Leaf(col, Test.IsNull), Leaf(col, Test.IsNan), file, zeros);
    MightMatchConnectives(Leaf(col, NotNull), Leaf(col, NotNan), file, zeros);
  }

  lemma GuardedKeeps(p: Predicate, col: string, ty: Primitive, row: Row, file: FileStats, zeros: ZeroRule)
    requires CellFits(col, ty, row) && Covers(file, row)
    requires !IsNA(col, row) ==> Keeps(p, row, file, zeros)
    ensures Keeps(p.And(Comparable(col, ty)), row, file, zeros)
  {
    EvalConnectives(p, Comparable(col, ty), row);
    GuardIsComparable(col, ty, row);
    if !IsNA(col, row) {
      GuardKeeps(col, ty, row, file, zeros);
      MightMatchConnectives(p, Comparable(col, ty), file, zeros);
    }
  }

  lemma ComparisonKeeps(op: Cmp, col: string, d: Value, ty: Primitive, row: Row, file: FileStats, zeros: ZeroRule)
    requires CellFits(col, ty, row) && Typed(d, ty) && !IsNaN(d) && Covers(file, row)
    ensures Keeps(Comparison(op, col, d, ty).t, row, file, zeros)
    ensures Keeps(Comparison(op, col, d, ty).f, row, file, zeros)
  {
    if !IsNA(col, row) {
      AppliedKeeps(op, col, d, ty, row, file, zeros);
      AppliedKeeps(op.Negate(), col, d, ty, row, file, zeros);
    }
    GuardedKeeps(Applied(op, col, d, ty), col, ty, row, file, zeros);
    GuardedKeeps(Applied(op.Negate(), col, d, ty), col, ty, row, file, zeros);
  }

  lemma PrefixKeeps(col: string, d: Value, row: Row, file: FileStats, zeros: ZeroRule)
    requires CellFits(col, Text, row) && d.BytesV? && Covers(file, row)
    ensures Keeps(Prefix(col, d, Text).t, row, file, zeros)
    ensures Keeps(Prefix(col, d, Text).f, row, file, zeros)
  {
    if !IsNA(col, row) && col in file {
      PrefixAdmits(d, row[col].v, file[col], zeros);
    }
    GuardedKeeps(Leaf(col, Test.StartsWith(d)), col, Text, row, file, zeros);
    GuardedKeeps(Leaf(col, Test.NotStartsWith(d)), col, Text, row, file, zeros);
  }

  lemma OrKeeps(p: Predicate, q: Predicate, row: Row, file: FileStats, zeros: ZeroRule)
    requires Keeps(p, row, file, zeros) && Keeps(q, row, file, zeros)
    ensures Keeps(p.Or(q), row, file, zeros)
    ensures Keeps(p.And(q), row, file, zeros)
  {
    EvalConnectives(p, q, row);
    MightMatchConnectives(p, q, file, zeros);
  }

  /** The range that stands for equality with zero is TRUE only of a value R can compare. */
  lemma ZeroTestKeeps(col: string, d: Value, row: Row, file: FileStats, zeros: ZeroRule)
    requires IsZero(d) && Covers(file, row)
    requires col in row && row[col].Has? ==> row[col].v.FloatV?
    ensures Keeps(FloatCompare(Eq, col, d), row, file, zeros)
  {
    ZeroRangeOutside(col, d, row);
    if !IsNA(col, row) {
      ZeroKeeps(Eq, col, d, row, file, zeros);
    }
  }

  /** The set test alone: without zeros in it, neither half rules out a file it must keep. */
  lemma SetTestKeeps(col: string, rest: seq<Value>, ty: Primitive, row: Row, file: FileStats, zeros: ZeroRule)
    requires CellFits(col, ty, row) && Covers(file, row)
    requires forall d :: d in rest ==> Typed(d, ty) && !IsNaN(d) && !IsZero(d)
    ensures Keeps(if rest == [] then Predicate.AlwaysFalse else Leaf(col, Test.In(rest)), row, file, zeros)
    ensures Keeps(if rest == [] then Predicate.AlwaysTrue else Leaf(col, Test.NotIn(rest)), row, file, zeros)
  {
    SetTestHalves(col, rest, row);
    if !IsNA(col, row) && col in file && AmongSet(row[col].v, rest) {
      SetAdmits(row[col].v, rest, file[col], zeros);
    }
  }

  lemma MembershipKeeps(col: string, ds: seq<Value>, ty: Primitive, row: Row, file: FileStats, zeros: ZeroRule)
    requires CellFits(col, ty, row) && Covers(file, row)
    requires forall d :: d in ds ==> Typed(d, ty) && !IsNaN(d)
    ensures Keeps(MembershipTruth(col, ds, ty).t, row, file, zeros)
    ensures Keeps(MembershipTruth(col, ds, ty).f, row, file, zeros)
  {
    var rest, zero := Partition(ds, false), Partition(ds, true);
    var t := if rest == [] then Predicate.AlwaysFalse else Leaf(col, Test.In(rest));
    var f := if rest == [] then Predicate.AlwaysTrue else Leaf(col, Test.NotIn(rest));
    SetTestKeeps(col, rest, ty, row, file, zeros);
    MissingKeeps(col, ty, row, file, zeros);
    if zero == [] {
      OrKeeps(f, Missing(col, ty).t, row, file, zeros);
    } else {
      assert zero[0] in zero;
      ZeroTestKeeps(col, zero[0], row, file, zeros);
      OrKeeps(t, FloatCompare(Eq, col, zero[0]), row, file, zeros);
      ComplementKeeps(f, col, zero[0], ty, row, file, zeros);
    }
  }

  /** The complement of a set with a zero in it: where R can compare, the range keeps the file; elsewhere `absent` does. */
  lemma ComplementKeeps(f: Predicate, col: string, z: Value, ty: Primitive, row: Row, file: FileStats, zeros: ZeroRule)
    requires CellFits(col, ty, row) && Typed(z, ty) && IsZero(z) && Covers(file, row)
    requires Keeps(f, row, file, zeros)
    ensures Keeps(f.And(FloatCompare(Ne, col, z)).Or(Missing(col, ty).t), row, file, zeros)
  {
    var n, absent := FloatCompare(Ne, col, z), Missing(col, ty).t;
    MissingKeeps(col, ty, row, file, zeros);
    if IsNA(col, row) {
      MissingCaptures(col, ty, row);
      MightMatchConnectives(f.And(n), absent, file, zeros);
    } else {
      ZeroKeeps(Ne, col, z, row, file, zeros);
      OrKeeps(f, n, row, file, zeros);
      OrKeeps(f.And(n), absent, row, file, zeros);
    }
  }

  lemma LeafKeeps(node: Node<Json>, ctx: Context, row: Row, file: FileStats, zeros: ZeroRule)
    requires ctx.Valid() && Built(node, ctx).Ok? && Fits(row, ctx.schema) && Covers(file, row)
    requires !node.And? && !node.Or? && !node.Not? && !node.Always?
    ensures Keeps(Built(node, ctx).value.t, row, file, zeros) && Keeps(Built(node, ctx).value.f, row, file, zeros)
  {
    var (col, ty) := Column(node.col, ctx).value;
    assert Field(col, Plain(ty)) in ctx.schema.fields;
    match node {
      case Compare(op, _, value) => ComparisonKeeps(op, col, TypedLiteral(value, ty, ctx.lib).value, ty, row, file, zeros);
      case StartsWith(_, value) => PrefixKeeps(col, TypedLiteral(value, ty, ctx.lib).value, row, file, zeros);
      case NotStartsWith(_, value) => PrefixKeeps(col, TypedLiteral(value, ty, ctx.lib).value, row, file, zeros);
      case In(_, values) => MembershipKeeps(col, TypedLiterals(values, ty, ctx.lib).value, ty, row, file, zeros);
      case NotIn(_, values) => MembershipKeeps(col, TypedLiterals(values, ty, ctx.lib).value, ty, row, file, zeros);
      case _ => TestOfMissingKeeps(node, col, ty, ctx, row, file, zeros);
    }
  }

  lemma TestOfMissingKeeps(node: Node<Json>, col: string, ty: Primitive, ctx: Context, row: Row, file: FileStats, zeros: ZeroRule)
    requires node.IsNull? || node.IsNotNull? || node.IsNan? || node.IsNotNan?
    requires ctx.Valid() && Built(node, ctx).Ok? && Column(node.col, ctx) == Ok((col, ty))
    requires Field(col, Plain(ty)) in ctx.schema.fields && Fits(row, ctx.schema) && Covers(file, row)
    ensures Keeps(Built(node, ctx).value.t, row, file, zeros) && Keeps(Built(node, ctx).value.f, row, file, zeros)
  {
    MissingKeeps(col, ty, row, file, zeros);
  }

  // ---- every tree, and a scan of many files ----

  /** Whatever half of a built pair is TRUE of a row, no statistics true of that row rule the file out. */
  lemma {:induction false} PruningIsInvisible(node: Node<Json>, ctx: Context, row: Row, file: FileStats, zeros: ZeroRule)
    requires ctx.Valid() && Built(node, ctx).Ok? && Fits(row, ctx.schema) && Covers(file, row)
    ensures Keeps(Built(node, ctx).value.t, row, file, zeros)
    ensures Keeps(Built(node, ctx).value.f, row, file, zeros)
    decreases node, 1
  {
    match node
    case And(args) =>
      FoldKeeps(args, true, ctx, row, file, zeros);
    case Or(args) =>
      FoldKeeps(args, false, ctx, row, file, zeros);
    case Not(arg) =>
      PruningIsInvisible(arg, ctx, row, file, zeros);
    case Always(_) =>
    case _ =>
      LeafKeeps(node, ctx, row, file, zeros);
  }

  lemma {:induction false} FoldKeeps(args: seq<Node<Json>>, conjunction: bool, ctx: Context, row: Row, file: FileStats, zeros: ZeroRule)
    requires ctx.Valid() && BuiltAll(args, conjunction, ctx).Ok? && Fits(row, ctx.schema) && Covers(file, row)
    ensures Keeps(BuiltAll(args, conjunction, ctx).value.t, row, file, zeros)
    ensures Keeps(BuiltAll(args, conjunction, ctx).value.f, row, file, zeros)
    decreases args, 0
  {
    if args != [] {
      var n := |args| - 1;
      FoldKeeps(args[..n], conjunction, ctx, row, file, zeros);
      PruningIsInvisible(args[n], ctx, row, file, zeros);
      var front, part := BuiltAll(args[..n], conjunction, ctx).value, Built(args[n], ctx).value;
      OrKeeps(front.t, part.t, row, file, zeros);
      OrKeeps(front.f, part.f, row, file, zeros);
    }
  }

  datatype DataFile = DataFile(rows: seq<Row>, stats: FileStats)

  ghost predicate Sound(file: DataFile, ctx: Context) {
    forall row :: row in file.rows ==> Fits(row, ctx.schema) && Covers(file.stats, row)
  }

  function Matching(rows: seq<Row>, p: Predicate): seq<Row> {
    if rows == [] then []
    else (if Eval(p, rows[0]).True? then [rows[0]] else []) + Matching(rows[1..], p)
  }

  /** What a scan returns: the files its statistics keep, filtered row by row. */
  function Scan(files: seq<DataFile>, p: Predicate, zeros: ZeroRule): seq<Row> {
    if files == [] then []
    else (if MightMatch(p, files[0].stats, zeros) then Matching(files[0].rows, p) else []) + Scan(files[1..], p, zeros)
  }

  /** What R would keep, having read everything. */
  ghost function KeptByR(rows: seq<Row>, node: Node<Json>, ctx: Context): seq<Row>
    requires ctx.Valid()
  {
    Filtered(rows, (r: Row) => RValue(node, ctx, r).True?)
  }

  ghost function Filtered(rows: seq<Row>, keep: Row -> bool): seq<Row> {
    if rows == [] then [] else (if keep(rows[0]) then [rows[0]] else []) + Filtered(rows[1..], keep)
  }

  ghost function AllRows(files: seq<DataFile>): seq<Row> {
    if files == [] then [] else files[0].rows + AllRows(files[1..])
  }

  lemma {:induction false} FilteredConcat(a: seq<Row>, b: seq<Row>, keep: Row -> bool)
    ensures Filtered(a + b, keep) == Filtered(a, keep) + Filtered(b, keep)
  {
    if a == [] {
      assert a + b == b;
    } else {
      assert (a + b)[0] == a[0] && (a + b)[1..] == a[1..] + b;
      FilteredConcat(a[1..], b, keep);
      Reassociate(if keep(a[0]) then [a[0]] else [], Filtered(a[1..], keep), Filtered(b, keep));
    }
  }

  lemma Reassociate<T>(a: seq<T>, b: seq<T>, c: seq<T>)
    ensures a + (b + c) == a + b + c
  {
  }

  lemma {:induction false} AllRowsConcat(files: seq<DataFile>, more: seq<DataFile>)
    ensures AllRows(files + more) == AllRows(files) + AllRows(more)
  {
    if files == [] {
      assert files + more == more;
    } else {
      AllRowsConcat(files[1..], more);
      assert (files + more)[0] == files[0] && (files + more)[1..] == files[1..] + more;
      Reassociate(files[0].rows, AllRows(files[1..]), AllRows(more));
    }
  }

  /** The rows of a file come after those of the files before it, and what is kept of some rows before what is kept of later ones. */
  lemma RowsInOrder(files: seq<DataFile>, file: DataFile, rows: seq<Row>, row: Row, keep: Row -> bool)
    ensures AllRows(files + [file]) == AllRows(files) + file.rows
    ensures Filtered(rows + [row], keep) == Filtered(rows, keep) + if keep(row) then [row] else []
  {
    AllRowsConcat(files, [file]);
    assert AllRows([file]) == file.rows + AllRows([file][1..]) == file.rows;
    FilteredConcat(rows, [row], keep);
    assert Filtered([row], keep) == (if keep(row) then [row] else []) + Filtered([row][1..], keep);
  }

  lemma {:induction false} FileIsFiltered(rows: seq<Row>, stats: FileStats, node: Node<Json>, ctx: Context, zeros: ZeroRule)
    requires ctx.Valid() && Built(node, ctx).Ok? && Sound(DataFile(rows, stats), ctx)
    ensures var p := Built(node, ctx).value.t;
            && Matching(rows, p) == KeptByR(rows, node, ctx)
            && (!MightMatch(p, stats, zeros) ==> Matching(rows, p) == [])
  {
    if rows != [] {
      assert rows[0] in rows && forall r :: r in rows[1..] ==> r in rows;
      CompilerIsCorrect(node, ctx, rows[0]);
      PruningIsInvisible(node, ctx, rows[0], stats, zeros);
      FileIsFiltered(rows[1..], stats, node, ctx, zeros);
    }
  }

  /** A filtered scan of any files returns, in order, exactly the rows R would have kept of them all. */
  lemma {:induction false} ScanReturnsRsRows(files: seq<DataFile>, node: Node<Json>, ctx: Context, zeros: ZeroRule)
    requires ctx.Valid() && Built(node, ctx).Ok? && forall f :: f in files ==> Sound(f, ctx)
    ensures Scan(files, Built(node, ctx).value.t, zeros) == KeptByR(AllRows(files), node, ctx)
  {
    if files != [] {
      assert files[0] in files && forall f :: f in files[1..] ==> f in files;
      FileIsFiltered(files[0].rows, files[0].stats, node, ctx, zeros);
      ScanReturnsRsRows(files[1..], node, ctx, zeros);
      FilteredConcat(files[0].rows, AllRows(files[1..]), (r: Row) => RValue(node, ctx, r).True?);
    }
  }

  /** A lone comparison is not safe to prune on: the file of one NaN row matches `x > 1`, and its bounds rule it out. */
  lemma LoneLeafIsUnsafe()
    ensures exists p: Predicate, row: Row, file: FileStats ::
              Covers(file, row) && Eval(p, row).True? && !MightMatch(p, file, SignedZeros)
  {
    var one := FloatV(Finite(1.0));
    var p := Leaf("x", Test.Compare(Gt, one));
    var row: Row := map["x" := Has(FloatV(NaN(false)))];
    var file: FileStats := map["x" := ColumnStats(false, false, false, false, Some(one), Some(one))];
    assert Covers(file, row);
    assert Eval(p, row).True? && !MightMatch(p, file, SignedZeros);
  }
}
