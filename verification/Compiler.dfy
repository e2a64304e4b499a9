/**
 The filter compiler: a tree becomes a pair of Iceberg predicates, one for the
 rows where R says TRUE and one for the rows where R says FALSE.
 */
module Compiler {
  import opened Outcomes
  import opened Values
  import opened FilterTree
  import opened Names
  import opened Literals
  import opened Iceberg

  datatype Truth = Truth(t: Predicate, f: Predicate) {
    function Not(): Truth { Truth(f, t) }
  }

  datatype BuildError = BadColumn(lookup: LookupError) | BadLiteral(literal: LiteralError) | PrefixNeedsString(col: string)

  datatype Context = Context(schema: Schema, caseSensitive: bool, lib: Library) {
    ghost predicate Valid() { schema.Valid() && lib.Valid() }
  }

  function Column(col: string, ctx: Context): (r: Result<(string, Primitive), BuildError>)
    requires ctx.Valid()
    ensures r.Ok? ==> Field(r.value.0, Plain(r.value.1)) in ctx.schema.fields
  {
    match Reference(col, ctx.schema, ctx.caseSensitive)
    case Ok(f) => Ok(f)
    case Err(e) => Err(BadColumn(e))
  }

  function TypedLiteral(value: Json, ty: Primitive, lib: Library): (r: Result<Value, BuildError>)
    ensures r.Ok? ==> Typed(r.value, ty) && !IsNaN(r.value)
  {
    match Datum(value, ty, lib)
    case Ok(d) => Ok(d)
    case Err(e) => Err(BadLiteral(e))
  }

  function TypedLiterals(values: seq<Json>, ty: Primitive, lib: Library): (r: Result<seq<Value>, BuildError>)
    ensures r.Ok? ==> |r.value| == |values|
    ensures r.Ok? ==> forall i :: 0 <= i < |values| ==> TypedLiteral(values[i], ty, lib) == Ok(r.value[i])
  {
    if values == [] then Ok([])
    else
      var d :- TypedLiteral(values[0], ty, lib);
      var rest :- TypedLiterals(values[1..], ty, lib);
      Ok([d] + rest)
  }

  /** A comparison on a float column, restated against a zero so that both zeros fall on one side. */
  function FloatCompare(op: Cmp, col: string, d: Value): Predicate {
    var neg, pos := FloatV(NegZero), FloatV(Finite(0.0));
    if !IsZero(d) then Leaf(col, Test.Compare(op, d))
    else
      match op
      case Eq => Leaf(col, Test.Compare(Gte, neg)).And(Leaf(col, Test.Compare(Lte, pos)))
      case Ne => Leaf(col, Test.Compare(Lt, neg)).Or(Leaf(col, Test.Compare(Gt, pos)))
      case Lt => Leaf(col, Test.Compare(Lt, neg))
      case Lte => Leaf(col, Test.Compare(Lte, pos))
      case Gt => Leaf(col, Test.Compare(Gt, pos))
      case Gte => Leaf(col, Test.Compare(Gte, neg))
  }

  function Applied(op: Cmp, col: string, d: Value, ty: Primitive): Predicate {
    if IsFloat(ty) then FloatCompare(op, col, d) else Leaf(col, Test.Compare(op, d))
  }

  /** The rows holding a value R can compare. */
  function Comparable(col: string, ty: Primitive): Predicate {
    if IsFloat(ty) then Leaf(col, NotNull).And(Leaf(col, NotNan)) else Leaf(col, NotNull)
  }

  function Comparison(op: Cmp, col: string, d: Value, ty: Primitive): Truth {
    var guard := Comparable(col, ty);
    Truth(Applied(op, col, d, ty).And(guard), Applied(op.Negate(), col, d, ty).And(guard))
  }

  function Missing(col: string, ty: Primitive): Truth {
    if IsFloat(ty) then
      Truth(Leaf(col, Test.IsNull).Or(Leaf(col, Test.IsNan)), Leaf(col, NotNull).And(Leaf(col, NotNan)))
    else
      Truth(Leaf(col, Test.IsNull), Leaf(col, NotNull))
  }

  function Prefix(col: string, d: Value, ty: Primitive): Truth {
    var guard := Comparable(col, ty);
    Truth(Leaf(col, Test.StartsWith(d)).And(guard), Leaf(col, Test.NotStartsWith(d)).And(guard))
  }

  /** The literals kept in the set, and the zeros taken out of it, each in order. */
  function Partition(ds: seq<Value>, zeros: bool): (r: seq<Value>)
    ensures forall d :: d in r <==> d in ds && IsZero(d) == zeros
  {
    if ds == [] then []
    else
      var rest := Partition(ds[1..], zeros);
      assert ds == [ds[0]] + ds[1..];
      if IsZero(ds[0]) == zeros then [ds[0]] + rest else rest
  }

  /** `col %in% values`; a zero of a float column leaves the set for a range test. */
  function MembershipTruth(col: string, ds: seq<Value>, ty: Primitive): Truth {
    var rest := Partition(ds, false);
    var t := if rest == [] then Predicate.AlwaysFalse else Leaf(col, Test.In(rest));
    var f := if rest == [] then Predicate.AlwaysTrue else Leaf(col, Test.NotIn(rest));
    var zero := Partition(ds, true);
    var absent := Missing(col, ty).t;
    if zero == [] then Truth(t, f.Or(absent))
    else Truth(t.Or(FloatCompare(Eq, col, zero[0])), f.And(FloatCompare(Ne, col, zero[0])).Or(absent))
  }

  /** The pair for a tree; an n-ary connective is folded from the left. */
  function Built(node: Node<Json>, ctx: Context): Result<Truth, BuildError>
    requires ctx.Valid()
    decreases node, 1
  {
    match node
    case And(args) => BuiltAll(args, true, ctx)
    case Or(args) => BuiltAll(args, false, ctx)
    case Not(arg) =>
      var part :- Built(arg, ctx);
      Ok(part.Not())
    case Always(holds) =>
      Ok(if holds then Truth(Predicate.AlwaysTrue, Predicate.AlwaysFalse)
         else Truth(Predicate.AlwaysFalse, Predicate.AlwaysTrue))
    case IsNull(col) =>
      var c :- Column(col, ctx);
      Ok(Missing(c.0, c.1))
    case IsNotNull(col) =>
      var c :- Column(col, ctx);
      Ok(Missing(c.0, c.1).Not())
    case IsNan(col) =>
      var c :- Column(col, ctx);
      Ok(Truth(Leaf(c.0, Test.IsNan), Leaf(c.0, NotNan)))
    case IsNotNan(col) =>
      var c :- Column(col, ctx);
      Ok(Truth(Leaf(c.0, NotNan), Leaf(c.0, Test.IsNan)))
    case Compare(op, col, value) =>
      var c :- Column(col, ctx);
      var d :- TypedLiteral(value, c.1, ctx.lib);
      Ok(Comparison(op, c.0, d, c.1))
    case StartsWith(col, value) => BuiltPrefix(col, value, ctx)
    case NotStartsWith(col, value) =>
      var p :- BuiltPrefix(col, value, ctx);
      Ok(p.Not())
    case In(col, values) => BuiltMembership(col, values, ctx)
    case NotIn(col, values) =>
      var m :- BuiltMembership(col, values, ctx);
      Ok(m.Not())
  }

  function BuiltAll(args: seq<Node<Json>>, conjunction: bool, ctx: Context): Result<Truth, BuildError>
    requires ctx.Valid()
    decreases args, 0
  {
    if args == [] then
      Ok(if conjunction then Truth(Predicate.AlwaysTrue, Predicate.AlwaysFalse)
         else Truth(Predicate.AlwaysFalse, Predicate.AlwaysTrue))
    else
      var front :- BuiltAll(args[..|args| - 1], conjunction, ctx);
      var part :- Built(args[|args| - 1], ctx);
      Ok(if conjunction then Truth(front.t.And(part.t), front.f.Or(part.f))
         else Truth(front.t.Or(part.t), front.f.And(part.f)))
  }

  function BuiltPrefix(col: string, value: Json, ctx: Context): Result<Truth, BuildError>
    requires ctx.Valid()
  {
    var c :- Column(col, ctx);
    if !c.1.Text? then Err(PrefixNeedsString(col))
    else
      var d :- TypedLiteral(value, c.1, ctx.lib);
      Ok(Prefix(c.0, d, c.1))
  }

  function BuiltMembership(col: string, values: seq<Json>, ctx: Context): Result<Truth, BuildError>
    requires ctx.Valid()
  {
    var c :- Column(col, ctx);
    var ds :- TypedLiterals(values, c.1, ctx.lib);
    Ok(MembershipTruth(c.0, ds, c.1))
  }

  // ---- the loops ----

  /** An error among the first arguments is an error of the whole, and the same one. */
  lemma {:induction false} FirstErrorWins(args: seq<Node<Json>>, k: nat, conjunction: bool, ctx: Context)
    requires ctx.Valid() && k <= |args|
    requires BuiltAll(args[..k], conjunction, ctx).Err?
    ensures BuiltAll(args, conjunction, ctx) == BuiltAll(args[..k], conjunction, ctx)
  {
    if k == |args| {
      assert args[..k] == args;
    } else {
      var front := args[..|args| - 1];
      assert front[..k] == args[..k];
      FirstErrorWins(front, k, conjunction, ctx);
    }
  }

  method Membership(col: string, values: seq<Json>, ctx: Context) returns (r: Result<Truth, BuildError>)
    requires ctx.Valid()
    ensures r == BuiltMembership(col, values, ctx)
  {
    var c :- Column(col, ctx);
    var datums :- TypedLiterals(values, c.1, ctx.lib);
    var zero, rest := Partition(datums, true), Partition(datums, false);
    var t, f := Predicate.AlwaysFalse, Predicate.AlwaysTrue;
    if rest != [] {
      t, f := Leaf(c.0, Test.In(rest)), Leaf(c.0, Test.NotIn(rest));
    }
    if zero != [] {
      t := t.Or(FloatCompare(Eq, c.0, zero[0]));
      f := f.And(FloatCompare(Ne, c.0, zero[0]));
    }
    return Ok(Truth(t, f.Or(Missing(c.0, c.1).t)));
  }

  method Build(node: Node<Json>, ctx: Context) returns (r: Result<Truth, BuildError>)
    requires ctx.Valid()
    ensures r == Built(node, ctx)
    decreases node
  {
    match node {
      case And(args) =>
        var t, f := Predicate.AlwaysTrue, Predicate.AlwaysFalse;
        for k := 0 to |args|
          invariant BuiltAll(args[..k], true, ctx) == Ok(Truth(t, f))
        {
          var part := Build(args[k], ctx);
          assert args[..k + 1][..k] == args[..k];
          if part.Err? {
            FirstErrorWins(args, k + 1, true, ctx);
            return Err(part.error);
          }
          t := t.And(part.value.t);
          f := f.Or(part.value.f);
        }
        assert args[..|args|] == args;
        return Ok(Truth(t, f));
      case Or(args) =>
        var t, f := Predicate.AlwaysFalse, Predicate.AlwaysTrue;
        for k := 0 to |args|
          invariant BuiltAll(args[..k], false, ctx) == Ok(Truth(t, f))
        {
          var part := Build(args[k], ctx);
          assert args[..k + 1][..k] == args[..k];
          if part.Err? {
            FirstErrorWins(args, k + 1, false, ctx);
            return Err(part.error);
          }
          t := t.Or(part.value.t);
          f := f.And(part.value.f);
        }
        assert args[..|args|] == args;
        return Ok(Truth(t, f));
      case Not(arg) =>
        var part := Build(arg, ctx);
        if part.Err? {
          return Err(part.error);
        }
        return Ok(part.value.Not());
      case In(col, values) =>
        r := Membership(col, values, ctx);
      case NotIn(col, values) =>
        var m := Membership(col, values, ctx);
        if m.Err? {
          return Err(m.error);
        }
        return Ok(m.value.Not());
      case _ =>
        r := Built(node, ctx);
    }
  }
}
