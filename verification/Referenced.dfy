/** The columns a filter refers to, and what they say about the predicates built from it. */
module Referenced {
  import opened Outcomes
  import opened Values
  import opened FilterTree
  import opened Names
  import opened Literals
  import opened Iceberg
  import opened Compiler

  /** Every column the tree names, in order. */
  function ColumnsOf(node: Node<Json>): seq<string>
    decreases node, 1
  {
    match node
    case And(args) => ColumnsOfAll(args)
    case Or(args) => ColumnsOfAll(args)
    case Not(arg) => ColumnsOf(arg)
    case Always(_) => []
    case Compare(_, col, _) => [col]
    case StartsWith(col, _) => [col]
    case NotStartsWith(col, _) => [col]
    case IsNull(col) => [col]
    case IsNotNull(col) => [col]
    case IsNan(col) => [col]
    case IsNotNan(col) => [col]
    case In(col, _) => [col]
    case NotIn(col, _) => [col]
  }

  function ColumnsOfAll(args: seq<Node<Json>>): seq<string>
    decreases args, 0
  {
    if args == [] then [] else ColumnsOfAll(args[..|args| - 1]) + ColumnsOf(args[|args| - 1])
  }

  /** The tree names the column somewhere. */
  ghost predicate NamedIn(node: Node<Json>, col: string) {
    match node
    case And(args) => exists i :: 0 <= i < |args| && NamedIn(args[i], col)
    case Or(args) => exists i :: 0 <= i < |args| && NamedIn(args[i], col)
    case Not(arg) => NamedIn(arg, col)
    case Always(_) => false
    case _ => node.col == col
  }

  /** The columns collected are just those the tree names. */
  lemma {:induction false} CollectedExactly(node: Node<Json>, col: string)
    ensures col in ColumnsOf(node) <==> NamedIn(node, col)
    decreases node, 1
  {
    match node
    case And(args) => CollectedOfAll(args, col);
    case Or(args) => CollectedOfAll(args, col);
    case Not(arg) => CollectedExactly(arg, col);
    case _ =>
  }

  lemma {:induction false} CollectedOfAll(args: seq<Node<Json>>, col: string)
    ensures col in ColumnsOfAll(args) <==> SomeNames(args, col)
    decreases args, 0
  {
    if args != [] {
      var last := |args| - 1;
      CollectedOfAll(args[..last], col);
      CollectedExactly(args[last], col);
      LastNames(args, col);
    }
  }

  ghost predicate SomeNames(args: seq<Node<Json>>, col: string) { exists i :: 0 <= i < |args| && NamedIn(args[i], col) }

  lemma LastNames(args: seq<Node<Json>>, col: string)
    requires args != []
    ensures SomeNames(args, col) <==> SomeNames(args[..|args| - 1], col) || NamedIn(args[|args| - 1], col)
  {
    var front := args[..|args| - 1];
    if i :| 0 <= i < |front| && NamedIn(front[i], col) {
      assert NamedIn(args[i], col);
    }
    if i :| 0 <= i < |args| && NamedIn(args[i], col) {
      assert i < |front| ==> NamedIn(front[i], col);
    }
  }

  /** Those of the first arguments come first. */
  lemma {:induction false} CollectedInOrder(args: seq<Node<Json>>, more: seq<Node<Json>>)
    ensures ColumnsOf(And(args + more)) == ColumnsOf(And(args)) + ColumnsOf(And(more))
    ensures ColumnsOf(Or(args + more)) == ColumnsOf(Or(args)) + ColumnsOf(Or(more))
    decreases |more|
  {
    if more == [] {
      assert args + more == args;
    } else {
      var last := |more| - 1;
      CollectedInOrder(args, more[..last]);
      assert (args + more)[..|args| + last] == args + more[..last];
    }
  }

  method ReferencedColumns(node: Node<Json>, out: seq<string>) returns (longer: seq<string>)
    ensures longer == out + ColumnsOf(node)
    decreases node
  {
    longer := out;
    match node {
      case And(args) =>
        longer := PushAll(args, out);
      case Or(args) =>
        longer := PushAll(args, out);
      case Not(arg) =>
        longer := ReferencedColumns(arg, out);
      case Always(_) =>
      case _ =>
        longer := out + ColumnsOf(node);
    }
  }

  method PushAll(args: seq<Node<Json>>, out: seq<string>) returns (longer: seq<string>)
    ensures longer == out + ColumnsOfAll(args)
    decreases args
  {
    longer := out;
    for k := 0 to |args|
      invariant longer == out + ColumnsOfAll(args[..k])
    {
      assert args[..k + 1][..k] == args[..k];
      longer := ReferencedColumns(args[k], longer);
    }
    assert args[..|args|] == args;
  }

  /** The columns a predicate tests. */
  function Tested(p: Predicate): set<string> {
    match p
    case AlwaysTrue => {}
    case AlwaysFalse => {}
    case Both(l, r) => Tested(l) + Tested(r)
    case Either(l, r) => Tested(l) + Tested(r)
    case Leaf(col, _) => {col}
  }

  function TestedBy(truth: Truth): set<string> { Tested(truth.t) + Tested(truth.f) }

  /** The fields the named columns resolve to. */
  ghost function Fields(cols: seq<string>, ctx: Context): set<string>
    requires ctx.Valid()
  {
    set col | col in cols && Column(col, ctx).Ok? :: Column(col, ctx).value.0
  }

  ghost predicate AllResolve(cols: seq<string>, ctx: Context)
    requires ctx.Valid()
  {
    forall col :: col in cols ==> Column(col, ctx).Ok?
  }

  // ---- what is built tests only what is named ----

  lemma AndTests(p: Predicate, q: Predicate)
    ensures Tested(p.And(q)) <= Tested(p) + Tested(q) && Tested(p.Or(q)) <= Tested(p) + Tested(q)
  {
  }

  lemma ComparedTests(op: Cmp, col: string, d: Value, ty: Primitive)
    ensures Tested(Applied(op, col, d, ty)) <= {col} && Tested(FloatCompare(op, col, d)) <= {col}
    ensures Tested(Comparable(col, ty)) <= {col}
  {
  }

  lemma MissingTests(col: string, ty: Primitive)
    ensures TestedBy(Missing(col, ty)) <= {col} && Tested(Missing(col, ty).t) <= {col}
  {
    AndTests(Leaf(col, Test.IsNull), Leaf(col, Test.IsNan));
    AndTests(Leaf(col, NotNull), Leaf(col, NotNan));
  }

  lemma ComparisonTests(op: Cmp, col: string, d: Value, ty: Primitive)
    ensures TestedBy(Comparison(op, col, d, ty)) <= {col}
  {
    ComparedTests(op, col, d, ty);
    ComparedTests(op.Negate(), col, d, ty);
    AndTests(Applied(op, col, d, ty), Comparable(col, ty));
    AndTests(Applied(op.Negate(), col, d, ty), Comparable(col, ty));
  }

  lemma PrefixTests(col: string, d: Value, ty: Primitive)
    ensures TestedBy(Prefix(col, d, ty)) <= {col}
  {
    ComparedTests(Eq, col, d, ty);
    AndTests(Leaf(col, Test.StartsWith(d)), Comparable(col, ty));
    AndTests(Leaf(col, Test.NotStartsWith(d)), Comparable(col, ty));
  }

  lemma MembershipTests(col: string, ds: seq<Value>, ty: Primitive)
    ensures TestedBy(MembershipTruth(col, ds, ty)) <= {col}
  {
    var rest, zero := Partition(ds, false), Partition(ds, true);
    var t := if rest == [] then Predicate.AlwaysFalse else Leaf(col, Test.In(rest));
    var f := if rest == [] then Predicate.AlwaysTrue else Leaf(col, Test.NotIn(rest));
    var absent := Missing(col, ty).t;
    assert Tested(t) <= {col} && Tested(f) <= {col};
    MissingTests(col, ty);
    AndTests(f, absent);
    if zero != [] {
      ComparedTests(Eq, col, zero[0], ty);
      ComparedTests(Ne, col, zero[0], ty);
      AndTests(t, FloatCompare(Eq, col, zero[0]));
      AndTests(f, FloatCompare(Ne, col, zero[0]));
      AndTests(f.And(FloatCompare(Ne, col, zero[0])), absent);
    }
  }

  ghost predicate Covered(cols: seq<string>, truth: Truth, ctx: Context)
    requires ctx.Valid()
  {
    AllResolve(cols, ctx) && TestedBy(truth) <= Fields(cols, ctx)
  }

  lemma OneColumn(col: string, truth: Truth, ctx: Context)
    requires ctx.Valid() && Column(col, ctx).Ok? && TestedBy(truth) <= {Column(col, ctx).value.0}
    ensures Covered([col], truth, ctx)
  {
    assert Column(col, ctx).value.0 in Fields([col], ctx);
  }

  lemma MoreColumns(cols: seq<string>, more: seq<string>, ctx: Context)
    requires ctx.Valid()
    ensures Fields(cols + more, ctx) == Fields(cols, ctx) + Fields(more, ctx)
  {
  }

  /**
   Every column a filter names was resolved while it was built, and the built
   pair tests no field but those: a predicate that reads a column of some type
   comes from a filter that names one.
   */
  lemma {:induction false} BuiltTestsWhatIsNamed(node: Node<Json>, ctx: Context)
    requires ctx.Valid() && Built(node, ctx).Ok?
    ensures Covered(ColumnsOf(node), Built(node, ctx).value, ctx)
    decreases node, 1
  {
    var truth := Built(node, ctx).value;
    match node
    case And(args) => AllTestWhatIsNamed(args, true, ctx);
    case Or(args) => AllTestWhatIsNamed(args, false, ctx);
    case Not(arg) => BuiltTestsWhatIsNamed(arg, ctx);
    case Always(_) =>
    case Compare(op, col, value) =>
      var c := Column(col, ctx).value;
      ComparisonTests(op, c.0, TypedLiteral(value, c.1, ctx.lib).value, c.1);
      OneColumn(col, truth, ctx);
    case StartsWith(col, value) =>
      PrefixIsCovered(col, value, ctx);
    case NotStartsWith(col, value) =>
      PrefixIsCovered(col, value, ctx);
    case IsNull(col) =>
      MissingTests(Column(col, ctx).value.0, Column(col, ctx).value.1);
      OneColumn(col, truth, ctx);
    case IsNotNull(col) =>
      MissingTests(Column(col, ctx).value.0, Column(col, ctx).value.1);
      OneColumn(col, truth, ctx);
    case IsNan(col) => OneColumn(col, truth, ctx);
    case IsNotNan(col) => OneColumn(col, truth, ctx);
    case In(col, values) =>
      MembershipIsCovered(col, values, ctx);
    case NotIn(col, values) =>
      MembershipIsCovered(col, values, ctx);
  }

  lemma PrefixIsCovered(col: string, value: Json, ctx: Context)
    requires ctx.Valid() && BuiltPrefix(col, value, ctx).Ok?
    ensures Covered([col], BuiltPrefix(col, value, ctx).value, ctx)
    ensures Covered([col], BuiltPrefix(col, value, ctx).value.Not(), ctx)
  {
    var c := Column(col, ctx).value;
    PrefixTests(c.0, TypedLiteral(value, c.1, ctx.lib).value, c.1);
    OneColumn(col, BuiltPrefix(col, value, ctx).value, ctx);
    OneColumn(col, BuiltPrefix(col, value, ctx).value.Not(), ctx);
  }

  lemma MembershipIsCovered(col: string, values: seq<Json>, ctx: Context)
    requires ctx.Valid() && BuiltMembership(col, values, ctx).Ok?
    ensures Covered([col], BuiltMembership(col, values, ctx).value, ctx)
    ensures Covered([col], BuiltMembership(col, values, ctx).value.Not(), ctx)
  {
    var c := Column(col, ctx).value;
    MembershipTests(c.0, TypedLiterals(values, c.1, ctx.lib).value, c.1);
    OneColumn(col, BuiltMembership(col, values, ctx).value, ctx);
    OneColumn(col, BuiltMembership(col, values, ctx).value.Not(), ctx);
  }

  lemma {:induction false} AllTestWhatIsNamed(args: seq<Node<Json>>, conjunction: bool, ctx: Context)
    requires ctx.Valid() && BuiltAll(args, conjunction, ctx).Ok?
    ensures Covered(ColumnsOfAll(args), BuiltAll(args, conjunction, ctx).value, ctx)
    decreases args, 0
  {
    if args != [] {
      var front, last := args[..|args| - 1], args[|args| - 1];
      AllTestWhatIsNamed(front, conjunction, ctx);
      BuiltTestsWhatIsNamed(last, ctx);
      MoreColumns(ColumnsOfAll(front), ColumnsOf(last), ctx);
      var a, b := BuiltAll(front, conjunction, ctx).value, Built(last, ctx).value;
      AndTests(a.t, b.t);
      AndTests(a.f, b.f);
    }
  }

  // ---- the decimal switch ----

  ghost predicate IsDecimal(ty: Primitive) { ty.Decimal? }

  /** Some column the filter names is a decimal. */
  ghost predicate HasDecimal(node: Node<Json>, ctx: Context)
    requires ctx.Valid()
  {
    exists col :: col in ColumnsOf(node) && Column(col, ctx).Ok? && IsDecimal(Column(col, ctx).value.1)
  }

  /** A predicate that reads a decimal column always comes with the decimal switch. */
  lemma DecimalsAreSeen(node: Node<Json>, ctx: Context, name: string)
    requires ctx.Valid() && Built(node, ctx).Ok? && name in TestedBy(Built(node, ctx).value)
    requires forall f :: f in ctx.schema.fields && f.name == name ==> f.ty.Plain? && IsDecimal(f.ty.ty)
    ensures HasDecimal(node, ctx)
  {
    BuiltTestsWhatIsNamed(node, ctx);
    var col :| col in ColumnsOf(node) && Column(col, ctx).Ok? && Column(col, ctx).value.0 == name;
    assert Field(name, Plain(Column(col, ctx).value.1)) in ctx.schema.fields;
  }
}
