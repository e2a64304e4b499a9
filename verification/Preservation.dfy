/**
 The compiler is right: on every row, the two predicates are TRUE exactly where
 R says TRUE and exactly where R says FALSE; and skipping files on their
 statistics never changes that.
 */
module Preservation {
  import opened Outcomes
  import opened Values
  import opened FilterTree
  import opened Names
  import opened Iceberg
  import opened Compiler
  import opened RLogic

  /** The pair picks out the rows where a three-valued answer is TRUE, and those where it is FALSE. */
  ghost predicate Captures(truth: Truth, answer: Truth3, row: Row) {
    && (Eval(truth.t, row).True? <==> answer.True?)
    && (Eval(truth.f, row).True? <==> answer.False?)
  }

  /** The row's value in the column, if it has one, is of the column's type. */
  ghost predicate CellFits(col: string, ty: Primitive, row: Row) {
    col in row && row[col].Has? ==> Typed(row[col].v, ty)
  }

  // ---- leaves ----

  lemma FloatCompareIsNumeric(op: Cmp, col: string, d: Value, row: Row)
    requires d.FloatV? && !IsNaN(d)
    requires col in row && row[col].Has? && row[col].v.FloatV? && !IsNaN(row[col].v)
    ensures Eval(FloatCompare(op, col, d), row) == Known(op.Holds(NumericOrder(row[col].v, d)))
  {
    var v := row[col].v;
    if IsZero(d) {
      var neg, pos := FloatV(NegZero), FloatV(Finite(0.0));
      assert TotalOrder(v, neg).Less? <==> NumericOrder(v, d).Less?;
      assert TotalOrder(v, pos).More? <==> NumericOrder(v, d).More?;
      EvalConnectives(Leaf(col, Test.Compare(Gte, neg)), Leaf(col, Test.Compare(Lte, pos)), row);
      EvalConnectives(Leaf(col, Test.Compare(Lt, neg)), Leaf(col, Test.Compare(Gt, pos)), row);
    } else {
      OrdersAgree(v, d);
    }
  }

  lemma GuardIsComparable(col: string, ty: Primitive, row: Row)
    requires CellFits(col, ty, row)
    ensures Eval(Comparable(col, ty), row).True? <==> !IsNA(col, row)
  {
  }

  lemma AppliedIsNumeric(op: Cmp, col: string, d: Value, ty: Primitive, row: Row)
    requires CellFits(col, ty, row) && Typed(d, ty) && !IsNaN(d) && !IsNA(col, row)
    ensures Eval(Applied(op, col, d, ty), row) == Known(op.Holds(NumericOrder(row[col].v, d)))
  {
    if IsFloat(ty) {
      FloatCompareIsNumeric(op, col, d, row);
    }
  }

  lemma ComparisonCaptures(op: Cmp, col: string, d: Value, ty: Primitive, row: Row)
    requires CellFits(col, ty, row) && Typed(d, ty) && !IsNaN(d)
    ensures Captures(Comparison(op, col, d, ty), RCompare(op, col, d, row), row)
  {
    var guard := Comparable(col, ty);
    EvalConnectives(Applied(op, col, d, ty), guard, row);
    EvalConnectives(Applied(op.Negate(), col, d, ty), guard, row);
    GuardIsComparable(col, ty, row);
    if !IsNA(col, row) {
      AppliedIsNumeric(op, col, d, ty, row);
      AppliedIsNumeric(op.Negate(), col, d, ty, row);
    }
  }

  lemma MissingCaptures(col: string, ty: Primitive, row: Row)
    requires CellFits(col, ty, row)
    ensures Captures(Missing(col, ty), Known(IsNA(col, row)), row)
  {
  }

  lemma PrefixCaptures(col: string, d: Value, ty: Primitive, row: Row)
    requires CellFits(col, ty, row)
    ensures Captures(Prefix(col, d, ty), RStartsWith(col, d, row), row)
  {
    EvalConnectives(Leaf(col, Test.StartsWith(d)), Comparable(col, ty), row);
    EvalConnectives(Leaf(col, Test.NotStartsWith(d)), Comparable(col, ty), row);
    GuardIsComparable(col, ty, row);
  }

  /** A value is among the literals exactly if it is among those kept, or is zero and a zero was taken out. */
  lemma MemberSplit(v: Value, ds: seq<Value>, ty: Primitive)
    requires Typed(v, ty) && !IsNaN(v)
    requires forall d :: d in ds ==> Typed(d, ty) && !IsNaN(d)
    ensures (exists d :: d in ds && NumericOrder(v, d).Same?) <==>
            AmongSet(v, Partition(ds, false)) || (Partition(ds, true) != [] && IsZero(v))
  {
    var rest, zero := Partition(ds, false), Partition(ds, true);
    forall d | d in ds
      ensures IsZero(d) ==> (NumericOrder(v, d).Same? <==> IsZero(v))
      ensures !IsZero(d) ==> TotalOrder(v, d) == NumericOrder(v, d)
    {
      if !IsZero(d) {
        OrdersAgree(v, d);
      }
    }
    if d :| d in ds && NumericOrder(v, d).Same? && !IsZero(d) {
      var i :| 0 <= i < |rest| && rest[i] == d;
    }
    if i :| 0 <= i < |rest| && TotalOrder(v, rest[i]).Same? {
      assert rest[i] in ds;
    }
    if zero != [] {
      assert zero[0] in zero;
    }
  }

  /** The set test alone, with its two constants for an empty set. */
  lemma SetTestHalves(col: string, rest: seq<Value>, row: Row)
    requires forall d :: d in rest ==> !IsNaN(d)
    requires col in row && row[col].Has? && row[col].v.FloatV? ==> forall d :: d in rest ==> d.FloatV?
    ensures var t := if rest == [] then Predicate.AlwaysFalse else Leaf(col, Test.In(rest));
            var f := if rest == [] then Predicate.AlwaysTrue else Leaf(col, Test.NotIn(rest));
            && (!IsNA(col, row) ==> Eval(t, row) == Known(AmongSet(row[col].v, rest)))
            && (!IsNA(col, row) ==> Eval(f, row) == Known(!AmongSet(row[col].v, rest)))
            && (IsNA(col, row) ==> !Eval(t, row).True?)
  {
    if col in row && row[col].Has? && IsNaN(row[col].v) {
      forall i | 0 <= i < |rest|
        ensures !TotalOrder(row[col].v, rest[i]).Same?
      {
        assert rest[i] in rest;
      }
    }
  }

  lemma MembershipCaptures(col: string, ds: seq<Value>, ty: Primitive, row: Row)
    requires CellFits(col, ty, row)
    requires forall d :: d in ds ==> Typed(d, ty) && !IsNaN(d)
    ensures Captures(MembershipTruth(col, ds, ty), Known(RIn(col, ds, row)), row)
  {
    var rest, zero := Partition(ds, false), Partition(ds, true);
    var t := if rest == [] then Predicate.AlwaysFalse else Leaf(col, Test.In(rest));
    var f := if rest == [] then Predicate.AlwaysTrue else Leaf(col, Test.NotIn(rest));
    MissingCaptures(col, ty, row);
    SetTestHalves(col, rest, row);
    if !IsNA(col, row) {
      MemberSplit(row[col].v, ds, ty);
    }
    if zero == [] {
      EvalConnectives(f, Missing(col, ty).t, row);
    } else {
      assert zero[0] in zero;
      ZeroTestCaptures(col, t, f, zero[0], ty, row);
    }
  }

  /** Adding the zero range to a pair that captures the rest of the set. */
  lemma ZeroTestCaptures(col: string, t: Predicate, f: Predicate, z: Value, ty: Primitive, row: Row)
    requires CellFits(col, ty, row) && Typed(z, ty) && IsZero(z)
    requires IsNA(col, row) ==> !Eval(t, row).True?
    requires !IsNA(col, row) ==> Eval(t, row) == Eval(f, row).Not() && !Eval(t, row).Unknown?
    ensures var absent := Missing(col, ty).t;
            var both := Truth(t.Or(FloatCompare(Eq, col, z)), f.And(FloatCompare(Ne, col, z)).Or(absent));
            Captures(both, Known(!IsNA(col, row) && (Eval(t, row).True? || IsZero(row[col].v))), row)
  {
    var e, n := FloatCompare(Eq, col, z), FloatCompare(Ne, col, z);
    EvalConnectives(t, e, row);
    EvalConnectives(f, n, row);
    EvalConnectives(f.And(n), Missing(col, ty).t, row);
    MissingCaptures(col, ty, row);
    ZeroRangeOutside(col, z, row);
    if !IsNA(col, row) {
      FloatCompareIsNumeric(Eq, col, z, row);
      FloatCompareIsNumeric(Ne, col, z, row);
    }
  }

  /** The zero range holds of no NaN and of no missing value, in any file. */
  lemma ZeroRangeOutside(col: string, z: Value, row: Row)
    requires IsZero(z)
    requires col in row && row[col].Has? ==> row[col].v.FloatV?
    ensures IsNA(col, row) ==> !Eval(FloatCompare(Eq, col, z), row).True?
  {
    EvalConnectives(Leaf(col, Test.Compare(Gte, FloatV(NegZero))), Leaf(col, Test.Compare(Lte, FloatV(Finite(0.0)))), row);
  }

  lemma LeafCaptures(node: Node<Json>, ctx: Context, row: Row)
    requires ctx.Valid() && Built(node, ctx).Ok? && Fits(row, ctx.schema)
    requires !node.And? && !node.Or? && !node.Not? && !node.Always?
    ensures Captures(Built(node, ctx).value, RValue(node, ctx, row), row)
  {
    var (col, ty) := Column(node.col, ctx).value;
    assert Field(col, Plain(ty)) in ctx.schema.fields;
    assert CellFits(col, ty, row);
    match node {
      case Compare(op, _, value) => ComparisonCaptures(op, col, TypedLiteral(value, ty, ctx.lib).value, ty, row);
      case StartsWith(_, value) => PrefixCaptures(col, TypedLiteral(value, ty, ctx.lib).value, ty, row);
      case NotStartsWith(_, value) => PrefixCaptures(col, TypedLiteral(value, ty, ctx.lib).value, ty, row);
      case In(_, values) => MembershipCaptures(col, TypedLiterals(values, ty, ctx.lib).value, ty, row);
      case NotIn(_, values) => MembershipCaptures(col, TypedLiterals(values, ty, ctx.lib).value, ty, row);
      case _ => TestOfMissingCaptures(node, col, ty, ctx, row);
    }
  }

  lemma TestOfMissingCaptures(node: Node<Json>, col: string, ty: Primitive, ctx: Context, row: Row)
    requires ctx.Valid() && Built(node, ctx).Ok? && CellFits(col, ty, row)
    requires node.IsNull? || node.IsNotNull? || node.IsNan? || node.IsNotNan?
    requires Column(node.col, ctx) == Ok((col, ty))
    ensures Captures(Built(node, ctx).value, RValue(node, ctx, row), row)
  {
    MissingCaptures(col, ty, row);
  }

  // ---- every tree ----

  /** The meaning of a run of arguments, joined by the connective. */
  ghost function RFold(args: seq<Node<Json>>, conjunction: bool, ctx: Context, row: Row): Truth3
    requires ctx.Valid()
  {
    var vs := seq(|args|, i requires 0 <= i < |args| => RValue(args[i], ctx, row));
    if conjunction then RAll(vs) else RAny(vs)
  }

  lemma RFoldLast(args: seq<Node<Json>>, conjunction: bool, ctx: Context, row: Row)
    requires ctx.Valid() && args != []
    ensures var front, last := RFold(args[..|args| - 1], conjunction, ctx, row), RValue(args[|args| - 1], ctx, row);
            RFold(args, conjunction, ctx, row) == if conjunction then front.And(last) else front.Or(last)
  {
    var n := |args| - 1;
    var vs := seq(|args|, i requires 0 <= i < |args| => RValue(args[i], ctx, row));
    var init := seq(n, i requires 0 <= i < n => RValue(args[..n][i], ctx, row));
    assert vs == init + [RValue(args[n], ctx, row)];
  }

  /**
   Meaning is preserved: for every tree, schema and row -- value present, null,
   NaN, either zero, or the column absent from the file.
   */
  lemma {:induction false} CompilerIsCorrect(node: Node<Json>, ctx: Context, row: Row)
    requires ctx.Valid() && Built(node, ctx).Ok? && Fits(row, ctx.schema)
    ensures Captures(Built(node, ctx).value, RValue(node, ctx, row), row)
    decreases node, 1
  {
    match node
    case And(args) =>
      FoldIsCorrect(args, true, ctx, row);
    case Or(args) =>
      FoldIsCorrect(args, false, ctx, row);
    case Not(arg) =>
      CompilerIsCorrect(arg, ctx, row);
    case Always(_) =>
    case _ =>
      LeafCaptures(node, ctx, row);
  }

  lemma {:induction false} FoldIsCorrect(args: seq<Node<Json>>, conjunction: bool, ctx: Context, row: Row)
    requires ctx.Valid() && BuiltAll(args, conjunction, ctx).Ok? && Fits(row, ctx.schema)
    ensures Captures(BuiltAll(args, conjunction, ctx).value, RFold(args, conjunction, ctx, row), row)
    decreases args, 0
  {
    if args != [] {
      var n := |args| - 1;
      FoldIsCorrect(args[..n], conjunction, ctx, row);
      CompilerIsCorrect(args[n], ctx, row);
      RFoldLast(args, conjunction, ctx, row);
      var front, part := BuiltAll(args[..n], conjunction, ctx).value, Built(args[n], ctx).value;
      EvalConnectives(front.t, part.t, row);
      EvalConnectives(front.f, part.f, row);
    }
  }
}
