/**
 Which filters are pushed down, told from the expression, the table and what the
 values stand for: no filter is refused that could be sent and compiled.
 */
module Acceptance {
  import opened Outcomes
  import opened Values
  import opened FilterTree
  import opened Names
  import opened Literals
  import opened Iceberg
  import opened Compiler
  import opened Wire
  import opened Translate
  import opened Pushdown

  // ---- what can be sent ----

  /** Neither NA, NaN nor infinite, and of a class that has a form in JSON. */
  predicate Sendable(v: Scalar) { !v.NotAvailable? && !v.NotANumber? && !v.Infinite? && !v.OtherClass? }

  ghost predicate AllSendable(n: Node<Scalar>) {
    match n
    case And(args) => forall i :: 0 <= i < |args| ==> AllSendable(args[i])
    case Or(args) => forall i :: 0 <= i < |args| ==> AllSendable(args[i])
    case Not(arg) => AllSendable(arg)
    case Compare(_, _, v) => Sendable(v)
    case StartsWith(_, v) => Sendable(v)
    case NotStartsWith(_, v) => Sendable(v)
    case In(_, vs) => forall v :: v in vs ==> Sendable(v)
    case NotIn(_, vs) => forall v :: v in vs ==> Sendable(v)
    case _ => true
  }

  lemma {:induction false} ValuesAreSent(vs: seq<Scalar>, calendar: Calendar)
    ensures ToJsons(vs, calendar).Ok? <==> forall v :: v in vs ==> Sendable(v)
  {
    if vs != [] {
      ValuesAreSent(vs[1..], calendar);
      assert vs == [vs[0]] + vs[1..] && vs[0] in vs;
      assert (forall v :: v in vs ==> Sendable(v)) <==> Sendable(vs[0]) && forall v :: v in vs[1..] ==> Sendable(v);
    }
  }

  lemma {:induction false} ArgumentsAreSent(args: seq<Node<Scalar>>, calendar: Calendar)
    ensures AllSent(args, calendar).Ok? <==> forall i :: 0 <= i < |args| ==> Sent(args[i], calendar).Ok?
    decreases |args|
  {
    if args != [] {
      ArgumentsAreSent(args[1..], calendar);
      assert forall i :: 1 <= i < |args| ==> args[i] == args[1..][i - 1];
    }
  }

  /** A tree is sent exactly if every value in it is sendable. */
  lemma {:induction false} SendsExactly(n: Node<Scalar>, calendar: Calendar)
    ensures Sent(n, calendar).Ok? <==> AllSendable(n)
    decreases n
  {
    match n
    case And(args) => SendsEach(args, calendar);
    case Or(args) => SendsEach(args, calendar);
    case Not(arg) => SendsExactly(arg, calendar);
    case In(_, vs) => ValuesAreSent(vs, calendar);
    case NotIn(_, vs) => ValuesAreSent(vs, calendar);
    case _ =>
  }

  lemma {:induction false} SendsEach(args: seq<Node<Scalar>>, calendar: Calendar)
    ensures AllSent(args, calendar).Ok? <==> forall i :: 0 <= i < |args| ==> AllSendable(args[i])
    decreases args
  {
    forall i | 0 <= i < |args|
      ensures Sent(args[i], calendar).Ok? <==> AllSendable(args[i])
    {
      SendsExactly(args[i], calendar);
    }
    ArgumentsAreSent(args, calendar);
  }

  // ---- what can be compiled ----

  /** The field a name is for: the one of that name, or else, with case ignored, the one upstream finds. */
  ghost predicate IsFor(col: string, f: Field, ctx: Context)
    requires ctx.Valid()
  {
    var fields := ctx.schema.fields;
    (f in fields && f.name == col)
    || ((forall g :: g in fields ==> g.name != col) && !ctx.caseSensitive && col in ctx.schema.folded && f == fields[ctx.schema.folded[col]])
  }

  ghost predicate Binds(col: string, name: string, ty: Primitive, ctx: Context)
    requires ctx.Valid()
  {
    IsFor(col, Field(name, Plain(ty)), ctx)
  }

  lemma BindsExactName(col: string, name: string, ty: Primitive, k: nat, ctx: Context)
    requires ctx.Valid() && k < |ctx.schema.fields| && ctx.schema.fields[k].name == col
    ensures Column(col, ctx) == Ok((name, ty)) <==> ctx.schema.fields[k] == Field(name, Plain(ty))
  {
    ReferenceBindsExactName(ctx.schema, k, ctx.caseSensitive);
  }

  lemma BindsFolded(col: string, name: string, ty: Primitive, ctx: Context)
    requires ctx.Valid() && forall f :: f in ctx.schema.fields ==> f.name != col
    ensures Column(col, ctx) == Ok((name, ty)) <==>
            !ctx.caseSensitive && col in ctx.schema.folded && ctx.schema.fields[ctx.schema.folded[col]] == Field(name, Plain(ty))
  {
    ReferenceFolds(col, ctx.schema, ctx.caseSensitive);
  }

  lemma NamedOnce(fields: seq<Field>, f: Field, k: nat)
    requires forall i, j :: 0 <= i < j < |fields| ==> fields[i].name != fields[j].name
    requires k < |fields| && f in fields && f.name == fields[k].name
    ensures f == fields[k]
  {
    var i :| 0 <= i < |fields| && fields[i] == f;
    assert i == k;
  }

  lemma BindsExactly(col: string, name: string, ty: Primitive, ctx: Context)
    requires ctx.Valid()
    ensures Column(col, ctx) == Ok((name, ty)) <==> Binds(col, name, ty, ctx)
  {
    var fields, f := ctx.schema.fields, Field(name, Plain(ty));
    if k :| 0 <= k < |fields| && fields[k].name == col {
      BindsExactName(col, name, ty, k, ctx);
      assert fields[k] in fields;
      if f in fields && f.name == col {
        NamedOnce(fields, f, k);
      }
    } else {
      BindsFolded(col, name, ty, ctx);
    }
  }

  ghost predicate Stands(value: Json, ty: Primitive, lib: Library) { exists d :: StandsFor(value, ty, d, lib) }

  lemma TypedExactly(value: Json, ty: Primitive, lib: Library)
    requires lib.Valid()
    ensures TypedLiteral(value, ty, lib).Ok? <==> Stands(value, ty, lib)
  {
    forall d
      ensures TypedLiteral(value, ty, lib) == Ok(d) <==> StandsFor(value, ty, d, lib)
    {
      DatumExactly(value, ty, d, lib);
    }
    if TypedLiteral(value, ty, lib).Ok? {
      assert StandsFor(value, ty, TypedLiteral(value, ty, lib).value, lib);
    }
  }

  lemma {:induction false} AllTypedExactly(values: seq<Json>, ty: Primitive, lib: Library)
    requires lib.Valid()
    ensures TypedLiterals(values, ty, lib).Ok? <==> forall v :: v in values ==> Stands(v, ty, lib)
  {
    if values != [] {
      TypedExactly(values[0], ty, lib);
      AllTypedExactly(values[1..], ty, lib);
      assert values == [values[0]] + values[1..];
    }
  }

  ghost predicate HasField(col: string, ctx: Context)
    requires ctx.Valid()
  {
    exists name, ty :: Binds(col, name, ty, ctx)
  }

  /** A leaf of the tree: its column is there, and its values stand for something in it; a prefix, in a text. */
  ghost predicate BuildableLeaf(node: Node<Json>, ctx: Context)
    requires ctx.Valid() && !node.And? && !node.Or? && !node.Not? && !node.Always?
  {
    match node
    case Compare(_, col, v) => exists name, ty :: Binds(col, name, ty, ctx) && Stands(v, ty, ctx.lib)
    case StartsWith(col, v) => v.JString? && exists name :: Binds(col, name, Text, ctx)
    case NotStartsWith(col, v) => v.JString? && exists name :: Binds(col, name, Text, ctx)
    case In(col, vs) => exists name, ty :: Binds(col, name, ty, ctx) && forall v :: v in vs ==> Stands(v, ty, ctx.lib)
    case NotIn(col, vs) => exists name, ty :: Binds(col, name, ty, ctx) && forall v :: v in vs ==> Stands(v, ty, ctx.lib)
    case IsNull(col) => HasField(col, ctx)
    case IsNotNull(col) => HasField(col, ctx)
    case IsNan(col) => HasField(col, ctx)
    case IsNotNan(col) => HasField(col, ctx)
  }

  ghost predicate Buildable(node: Node<Json>, ctx: Context)
    requires ctx.Valid()
  {
    match node
    case And(args) => forall i :: 0 <= i < |args| ==> Buildable(args[i], ctx)
    case Or(args) => forall i :: 0 <= i < |args| ==> Buildable(args[i], ctx)
    case Not(arg) => Buildable(arg, ctx)
    case Always(_) => true
    case _ => BuildableLeaf(node, ctx)
  }

  /** The one field and type a name is bound to, if there is one. */
  lemma BoundOnce(col: string, ctx: Context)
    requires ctx.Valid()
    ensures forall name, ty :: Binds(col, name, ty, ctx) <==> Column(col, ctx) == Ok((name, ty))
    ensures HasField(col, ctx) <==> Column(col, ctx).Ok?
  {
    forall name, ty
      ensures Binds(col, name, ty, ctx) <==> Column(col, ctx) == Ok((name, ty))
    {
      BindsExactly(col, name, ty, ctx);
    }
    if Column(col, ctx).Ok? {
      var (name, ty) := Column(col, ctx).value;
      assert Binds(col, name, ty, ctx);
    }
  }

  lemma ComparisonBuilds(op: Cmp, col: string, v: Json, ctx: Context)
    requires ctx.Valid()
    ensures Built(Node.Compare(op, col, v), ctx).Ok? <==> BuildableLeaf(Node.Compare(op, col, v), ctx)
  {
    BoundOnce(col, ctx);
    if Column(col, ctx).Ok? {
      TypedExactly(v, Column(col, ctx).value.1, ctx.lib);
    }
  }

  lemma PrefixBuilds(col: string, v: Json, ctx: Context)
    requires ctx.Valid()
    ensures BuiltPrefix(col, v, ctx).Ok? <==> v.JString? && exists name :: Binds(col, name, Text, ctx)
  {
    BoundOnce(col, ctx);
    if Column(col, ctx).Ok? {
      var (name, ty) := Column(col, ctx).value;
      assert Binds(col, name, ty, ctx);
    }
  }

  lemma SetBuilds(col: string, vs: seq<Json>, ctx: Context)
    requires ctx.Valid()
    ensures BuiltMembership(col, vs, ctx).Ok? <==>
            exists name, ty :: Binds(col, name, ty, ctx) && forall v :: v in vs ==> Stands(v, ty, ctx.lib)
  {
    BoundOnce(col, ctx);
    if Column(col, ctx).Ok? {
      AllTypedExactly(vs, Column(col, ctx).value.1, ctx.lib);
    }
  }

  lemma LeafBuilds(node: Node<Json>, ctx: Context)
    requires ctx.Valid() && !node.And? && !node.Or? && !node.Not? && !node.Always?
    ensures Built(node, ctx).Ok? <==> BuildableLeaf(node, ctx)
  {
    match node
    case Compare(op, col, v) => ComparisonBuilds(op, col, v, ctx);
    case StartsWith(col, v) => PrefixBuilds(col, v, ctx);
    case NotStartsWith(col, v) => PrefixBuilds(col, v, ctx);
    case In(col, vs) => SetBuilds(col, vs, ctx);
    case NotIn(col, vs) => SetBuilds(col, vs, ctx);
    case IsNull(col) => BoundOnce(col, ctx);
    case IsNotNull(col) => BoundOnce(col, ctx);
    case IsNan(col) => BoundOnce(col, ctx);
    case IsNotNan(col) => BoundOnce(col, ctx);
  }

  /** A tree compiles exactly if every column it names is there, and every value stands for something in its column. */
  lemma {:induction false} BuildsExactly(node: Node<Json>, ctx: Context)
    requires ctx.Valid()
    ensures Built(node, ctx).Ok? <==> Buildable(node, ctx)
    decreases node, 1
  {
    match node
    case And(args) => BuildsEach(args, true, ctx);
    case Or(args) => BuildsEach(args, false, ctx);
    case Not(arg) => BuildsExactly(arg, ctx);
    case Always(_) =>
    case _ => LeafBuilds(node, ctx);
  }

  lemma {:induction false} BuildsEach(args: seq<Node<Json>>, conjunction: bool, ctx: Context)
    requires ctx.Valid()
    ensures BuiltAll(args, conjunction, ctx).Ok? <==> forall i :: 0 <= i < |args| ==> Buildable(args[i], ctx)
    decreases args, 0
  {
    if args != [] {
      var last := |args| - 1;
      BuildsEach(args[..last], conjunction, ctx);
      BuildsExactly(args[last], ctx);
      assert forall i :: 0 <= i < last ==> args[..last][i] == args[i];
    }
  }

  // ---- the whole chain ----

  /**
   A filter is pushed down exactly if it is one of the language, its values can be
   sent, it is nested at most 127 deep, and its columns and values can be compiled.
   */
  lemma AcceptedExactly(e: Expr, s: Session, ctx: Context)
    requires SameTable(s, ctx)
    ensures Pushed(e, s, ctx).Some? <==>
            && Supported(e, s)
            && var tree := TranslateFilter(e, s);
               && tree.Ok? && AllSendable(tree.value) && Nesting(tree.value) <= 127
               && Sent(tree.value, s.calendar).Ok? && Buildable(Sent(tree.value, s.calendar).value, ctx)
  {
    PushedExactly(e, s, ctx);
    TranslatesExactly(e, s);
    if TranslateFilter(e, s).Ok? {
      SendsExactly(TranslateFilter(e, s).value, s.calendar);
      if Sent(TranslateFilter(e, s).value, s.calendar).Ok? {
        BuildsExactly(Sent(TranslateFilter(e, s).value, s.calendar).value, ctx);
      }
    }
  }
}
