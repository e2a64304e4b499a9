/**
 What R makes of a filter tree on one row: Kleene's three truth values, a
 comparison with NA or NaN is NA, `%in%` is never NA, `is.na(NaN)` is TRUE, and
 the two zeros are equal. Literals are the ones the column's type gave them.
 */
module RLogic {
  import opened Outcomes
  import opened Values
  import opened FilterTree
  import opened Names
  import opened Iceberg
  import opened Compiler
  import opened Literals

  /** is.na() of the row's value. A column the file lacks reads as NA throughout. */
  predicate IsNA(col: string, row: Row) {
    col !in row || row[col].Null? || IsNaN(row[col].v)
  }

  predicate IsNaNValue(col: string, row: Row) {
    col in row && row[col].Has? && IsNaN(row[col].v)
  }

  function RCompare(op: Cmp, col: string, d: Value, row: Row): Truth3
    requires !IsNaN(d)
  {
    if IsNA(col, row) then Unknown else Known(op.Holds(NumericOrder(row[col].v, d)))
  }

  ghost predicate RIn(col: string, ds: seq<Value>, row: Row)
    requires forall d :: d in ds ==> !IsNaN(d)
  {
    !IsNA(col, row) && exists d :: d in ds && NumericOrder(row[col].v, d).Same?
  }

  function RStartsWith(col: string, p: Value, row: Row): Truth3 {
    if IsNA(col, row) then Unknown else Known(IsPrefix(p, row[col].v))
  }

  /** All of the values: FALSE if one is FALSE, TRUE if all are TRUE, NA otherwise. */
  ghost function RAll(vs: seq<Truth3>): Truth3 {
    if False in vs then False else if forall v :: v in vs ==> v.True? then True else Unknown
  }

  ghost function RAny(vs: seq<Truth3>): Truth3 {
    if True in vs then True else if forall v :: v in vs ==> v.False? then False else Unknown
  }

  /** R's value of a tree that compiles. A tree that does not has no meaning, and NA stands for that. */
  ghost function RValue(node: Node<Json>, ctx: Context, row: Row): Truth3
    requires ctx.Valid()
  {
    match node
    case And(args) => RAll(seq(|args|, i requires 0 <= i < |args| => RValue(args[i], ctx, row)))
    case Or(args) => RAny(seq(|args|, i requires 0 <= i < |args| => RValue(args[i], ctx, row)))
    case Not(arg) => RValue(arg, ctx, row).Not()
    case Always(holds) => Known(holds)
    case _ =>
      match Column(node.col, ctx)
      case Err(_) => Unknown
      case Ok((col, ty)) => RLeaf(node, col, ty, ctx, row)
  }

  /** A leaf of the tree, on the column it names. */
  ghost function RLeaf(node: Node<Json>, col: string, ty: Primitive, ctx: Context, row: Row): Truth3
    requires !node.And? && !node.Or? && !node.Not? && !node.Always?
  {
    match node
    case IsNull(_) => Known(IsNA(col, row))
    case IsNotNull(_) => Known(!IsNA(col, row))
    case IsNan(_) => Known(IsNaNValue(col, row))
    case IsNotNan(_) => Known(!IsNaNValue(col, row))
    case Compare(op, _, value) => RCompared(op, value, col, ty, ctx.lib, row)
    case StartsWith(_, value) =>
      (match TypedLiteral(value, ty, ctx.lib)
       case Ok(d) => RStartsWith(col, d, row)
       case Err(_) => Unknown)
    case NotStartsWith(_, value) =>
      (match TypedLiteral(value, ty, ctx.lib)
       case Ok(d) => RStartsWith(col, d, row).Not()
       case Err(_) => Unknown)
    case In(_, values) => RMember(values, col, ty, ctx.lib, row)
    case NotIn(_, values) => RMember(values, col, ty, ctx.lib, row).Not()
  }

  function RCompared(op: Cmp, value: Json, col: string, ty: Primitive, lib: Library, row: Row): Truth3 {
    match TypedLiteral(value, ty, lib)
    case Ok(d) => RCompare(op, col, d, row)
    case Err(_) => Unknown
  }

  ghost function RMember(values: seq<Json>, col: string, ty: Primitive, lib: Library, row: Row): Truth3 {
    match TypedLiterals(values, ty, lib)
    case Ok(ds) => Known(RIn(col, ds, row))
    case Err(_) => Unknown
  }

  lemma MemberValue(col: string, js: seq<Json>, c: string, ty: Primitive, ctx: Context, row: Row)
    requires ctx.Valid() && Column(col, ctx) == Ok((c, ty))
    ensures RValue(Node.In(col, js), ctx, row) == RMember(js, c, ty, ctx.lib, row)
  {
    assert RValue(Node.In(col, js), ctx, row) == RLeaf(Node.In(col, js), c, ty, ctx, row);
  }

  /** The row holds values of the schema's types. */
  ghost predicate Fits(row: Row, schema: Schema) {
    forall f :: f in schema.fields && f.ty.Plain? && f.name in row && row[f.name].Has? ==> Typed(row[f.name].v, f.ty.ty)
  }
}
