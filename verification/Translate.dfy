/**
 From a quoted R expression to the filter tree, and what either means on a row.
 */
module Translate {
  import opened Outcomes
  import opened Values
  import opened FilterTree
  import opened Names
  import opened Iceberg
  import opened Compiler
  import opened RLogic
  import opened Wire

  /** A quoted expression: a constant, a name, or a call. */
  datatype Expr = Constant(v: Scalar) | Symbol(name: string) | Call(head: Expr, args: seq<Expr>)

  /** The variables of the calling environment. */
  type Env = map<string, seq<Scalar>>

  /**
   What translation reads: the columns of the table, how names are matched, the
   calling environment and how a value expression is evaluated in it, and how
   days and seconds are written.
   */
  datatype Session = Session(
    columns: seq<string>,
    caseSensitive: bool,
    lower: string -> string,
    env: Env,
    eval: (Expr, Env) -> Option<seq<Scalar>>,
    calendar: Calendar)
  {
    function Value(e: Expr): Option<seq<Scalar>> { eval(e, env) }
  }

  datatype TranslateError =
    | AmbiguousColumn(name: string) | ColumnAsValue | NotAFilter | WrongArity(fn: string) | EvaluationFailed
    | NotOneValue | NotAString | MissingInSet

  // ---- names ----

  /** The table column a symbol names, spelled as the table has it. */
  function ColumnRef(e: Expr, s: Session): Result<Option<string>, TranslateError> {
    if !e.Symbol? then Ok(None)
    else
      match ColumnIndex(e.name, s.columns, s.caseSensitive, s.lower)
      case At(k) => Ok(Some(s.columns[k]))
      case NoColumn => Ok(None)
      case Ambiguous => Err(AmbiguousColumn(e.name))
  }

  /** The variables an expression reads: not the field of `x$f`, not a function's name. */
  function ExpressionVars(e: Expr): set<string> {
    match e
    case Constant(_) => {}
    case Symbol(name) => if name == "" then {} else {name}
    case Call(head, args) =>
      var read := if (head == Symbol("$") || head == Symbol("@")) && args != [] then args[..1] else args;
      (if head.Call? then ExpressionVars(head) else {})
      + (set i: nat, x | i < |read| && x in ExpressionVars(args[i]) :: x)
  }

  predicate NamesColumn(x: string, s: Session) {
    if s.caseSensitive then x in s.columns
    else exists k :: 0 <= k < |s.columns| && s.lower(s.columns[k]) == s.lower(x)
  }

  predicate ReadsColumn(e: Expr, s: Session) {
    exists x :: x in ExpressionVars(e) && NamesColumn(x, s)
  }

  /** The value side of a comparison: evaluated in the caller, unless it names a column. */
  function Literal(e: Expr, s: Session): Result<seq<Scalar>, TranslateError> {
    if ReadsColumn(e, s) then Err(ColumnAsValue)
    else
      match s.Value(e)
      case Some(values) => Ok(values)
      case None => Err(EvaluationFailed)
  }

  // ---- translate_filter ----

  /** The function a call names; a call of anything but a name is none of those supported. */
  function CalledName(e: Expr): string {
    if e.Call? && e.head.Symbol? then e.head.name else ""
  }

  function Comparison(fn: string): Option<Cmp> {
    match fn
    case "==" => Some(Eq)
    case "!=" => Some(Ne)
    case "<" => Some(Lt)
    case "<=" => Some(Lte)
    case ">" => Some(Gt)
    case ">=" => Some(Gte)
    case _ => None
  }

  predicate IsAnd(fn: string) { fn == "&" || fn == "&&" }

  predicate IsOr(fn: string) { fn == "|" || fn == "||" }

  function Arity(fn: string): Option<nat> {
    if fn == "(" || fn == "!" || fn == "is.na" || fn == "is.nan" then Some(1)
    else if fn == "startsWith" || fn == "%in%" || IsAnd(fn) || IsOr(fn) || Comparison(fn).Some? then Some(2)
    else None
  }

  /** anyNA() of a set of values, which is TRUE for NaN as well. */
  predicate AnyNA(values: seq<Scalar>) { NotAvailable in values || NotANumber in values }

  function ColumnOperand(e: Expr, s: Session): Result<string, TranslateError> {
    var c :- ColumnRef(e, s);
    match c
    case Some(col) => Ok(col)
    case None => Err(NotAFilter)
  }

  function OneValue(e: Expr, s: Session): Result<Scalar, TranslateError> {
    var values :- Literal(e, s);
    if |values| == 1 then Ok(values[0]) else Err(NotOneValue)
  }

  function Compared(op: Cmp, lhs: Expr, rhs: Expr, s: Session): Result<Node<Scalar>, TranslateError> {
    var left :- ColumnRef(lhs, s);
    if left.Some? then
      var v :- OneValue(rhs, s);
      Ok(Node.Compare(op, left.value, v))
    else
      var right :- ColumnOperand(rhs, s);
      var v :- OneValue(lhs, s);
      Ok(Node.Compare(op.Flip(), right, v))
  }

  /** `!is.na(x)` and `!is.nan(x)` of a column have nodes of their own. */
  function Direct(inner: Expr, s: Session): Result<Option<Node<Scalar>>, TranslateError> {
    if !inner.Call? || |inner.args| != 1 then Ok(None)
    else
      var c :- ColumnRef(inner.args[0], s);
      if c.Some? && CalledName(inner) == "is.na" then Ok(Some(IsNotNull(c.value)))
      else if c.Some? && CalledName(inner) == "is.nan" then Ok(Some(IsNotNan(c.value)))
      else Ok(None)
  }

  function TranslateFilter(e: Expr, s: Session): Result<Node<Scalar>, TranslateError> {
    if e.Constant? && e.v.Logical? then Ok(Always(e.v.b))
    else if e.Symbol? then
      var _ :- ColumnRef(e, s);
      Err(NotAFilter)
    else if !e.Call? then Err(NotAFilter)
    else
      var fn := CalledName(e);
      if Arity(fn).None? then Err(NotAFilter)
      else if |e.args| != Arity(fn).value then Err(WrongArity(fn))
      else if fn == "(" then TranslateFilter(e.args[0], s)
      else if IsAnd(fn) then
        var a :- TranslateFilter(e.args[0], s);
        var b :- TranslateFilter(e.args[1], s);
        Ok(And([a, b]))
      else if IsOr(fn) then
        var a :- TranslateFilter(e.args[0], s);
        var b :- TranslateFilter(e.args[1], s);
        Ok(Or([a, b]))
      else if fn == "!" then
        var direct :- Direct(e.args[0], s);
        if direct.Some? then Ok(direct.value)
        else
          var a :- TranslateFilter(e.args[0], s);
          Ok(Not(a))
      else if fn == "is.na" then
        var c :- ColumnOperand(e.args[0], s);
        Ok(Node.IsNull(c))
      else if fn == "is.nan" then
        var c :- ColumnOperand(e.args[0], s);
        Ok(Node.IsNan(c))
      else if fn == "startsWith" then
        var c :- ColumnOperand(e.args[0], s);
        var values :- Literal(e.args[1], s);
        if |values| == 1 && values[0].Character? then Ok(Node.StartsWith(c, values[0])) else Err(NotAString)
      else if fn == "%in%" then
        var c :- ColumnOperand(e.args[0], s);
        var values :- Literal(e.args[1], s);
        if AnyNA(values) then Err(MissingInSet) else Ok(Node.In(c, values))
      else Compared(Comparison(fn).value, e.args[0], e.args[1], s)
  }

  // ---- what R itself makes of the expression ----

  predicate Relational(fn: string) {
    fn == "==" || fn == "!=" || fn == "<" || fn == "<=" || fn == ">" || fn == ">="
  }

  /** What R's symbol says of two values: how the left one stands to the right one. */
  ghost predicate Says(fn: string, o: Order) {
    || (o == Less && (fn == "<" || fn == "<=" || fn == "!="))
    || (o == Same && (fn == "==" || fn == "<=" || fn == ">="))
    || (o == More && (fn == ">" || fn == ">=" || fn == "!="))
  }

  /** The operator of the tree holds of two values exactly where the symbol says so. */
  ghost predicate Stands(op: Cmp, fn: string) {
    Relational(fn) && forall o: Order :: op.Holds(o) <==> Says(fn, o)
  }

  /** The same of the values the other way round. */
  ghost predicate StandsReversed(op: Cmp, fn: string) {
    Relational(fn) && forall o: Order :: op.Holds(o) <==> Says(fn, o.Reverse())
  }

  /**
   How a column is compared with values, row by row: by the tree's operator, by R's
   symbol with the column first or the value first, as a member of a set, and by
   its prefix.
   */
  datatype Reading = Reading(
    compare: (Cmp, string, Scalar, Row) -> Truth3,
    written: (string, string, Scalar, Row) -> Truth3,
    reversed: (string, Scalar, string, Row) -> Truth3,
    member: (string, seq<Scalar>, Row) -> Truth3,
    starts: (string, Scalar, Row) -> Truth3)

  /** An operator that stands for a symbol answers as the symbol does, whichever operand comes first. */
  ghost predicate Mirrored(r: Reading) {
    && (forall op, fn, v, col, row :: Stands(op, fn) ==> r.written(fn, col, v, row) == r.compare(op, col, v, row))
    && (forall op, fn, v, col, row :: StandsReversed(op, fn) ==> r.reversed(fn, v, col, row) == r.compare(op, col, v, row))
  }

  function NamedColumn(e: Expr, s: Session): Option<string> {
    match ColumnRef(e, s)
    case Ok(c) => c
    case Err(_) => None
  }

  /** R's value of the expression on a row; a form the language does not have is NA. */
  ghost function Meaning(e: Expr, s: Session, r: Reading, row: Row): Truth3 {
    if e.Constant? && e.v.Logical? then Known(e.v.b)
    else if !e.Call? then Unknown
    else
      var fn := CalledName(e);
      if |e.args| == 1 then
        if fn == "(" then Meaning(e.args[0], s, r, row)
        else if fn == "!" then Meaning(e.args[0], s, r, row).Not()
        else OfColumn(fn, e.args[0], s, row)
      else if |e.args| == 2 then
        if fn == "&" || fn == "&&" then Meaning(e.args[0], s, r, row).And(Meaning(e.args[1], s, r, row))
        else if fn == "|" || fn == "||" then Meaning(e.args[0], s, r, row).Or(Meaning(e.args[1], s, r, row))
        else OfColumnAndValue(fn, e.args[0], e.args[1], s, r, row)
      else Unknown
  }

  ghost function OfColumn(fn: string, x: Expr, s: Session, row: Row): Truth3 {
    match NamedColumn(x, s)
    case Some(col) =>
      if fn == "is.na" then Known(IsNA(col, row)) else if fn == "is.nan" then Known(IsNaNValue(col, row)) else Unknown
    case None => Unknown
  }

  ghost function OfColumnAndValue(fn: string, x: Expr, y: Expr, s: Session, r: Reading, row: Row): Truth3 {
    match NamedColumn(x, s)
    case Some(col) =>
      (match s.Value(y)
       case None => Unknown
       case Some(vs) =>
         if fn == "%in%" then r.member(col, vs, row)
         else if fn == "startsWith" && |vs| == 1 then r.starts(col, vs[0], row)
         else if Relational(fn) && |vs| == 1 then r.written(fn, col, vs[0], row)
         else Unknown)
    case None =>
      match (NamedColumn(y, s), s.Value(x))
      case (Some(col), Some(vs)) =>
        if Relational(fn) && |vs| == 1 then r.reversed(fn, vs[0], col, row) else Unknown
      case _ => Unknown
  }

  /** The value of a tree on a row, under the same reading. */
  ghost function ValueOf(n: Node<Scalar>, r: Reading, row: Row): Truth3 {
    match n
    case And(args) => RAll(seq(|args|, i requires 0 <= i < |args| => ValueOf(args[i], r, row)))
    case Or(args) => RAny(seq(|args|, i requires 0 <= i < |args| => ValueOf(args[i], r, row)))
    case Not(arg) => ValueOf(arg, r, row).Not()
    case Always(holds) => Known(holds)
    case Compare(op, col, v) => r.compare(op, col, v, row)
    case StartsWith(col, v) => r.starts(col, v, row)
    case NotStartsWith(col, v) => r.starts(col, v, row).Not()
    case IsNull(col) => Known(IsNA(col, row))
    case IsNotNull(col) => Known(!IsNA(col, row))
    case IsNan(col) => Known(IsNaNValue(col, row))
    case IsNotNan(col) => Known(!IsNaNValue(col, row))
    case In(col, vs) => r.member(col, vs, row)
    case NotIn(col, vs) => r.member(col, vs, row).Not()
  }

  // ---- translation keeps the meaning ----

  lemma ComparisonNames(fn: string)
    requires Comparison(fn).Some?
    ensures fn != "%in%" && fn != "startsWith" && !IsAnd(fn) && !IsOr(fn)
    ensures fn != "(" && fn != "!" && fn != "is.na" && fn != "is.nan"
  {
  }

  /** The operator a symbol is translated to stands for it, and its flipped form for the symbol reversed. */
  lemma SymbolsAreOperators(fn: string)
    ensures Comparison(fn).Some? <==> Relational(fn)
    ensures Comparison(fn).Some? ==> Stands(Comparison(fn).value, fn) && StandsReversed(Comparison(fn).value.Flip(), fn)
  {
  }

  lemma MeaningOfPair(e: Expr, s: Session, r: Reading, row: Row)
    requires e.Call? && |e.args| == 2 && !IsAnd(CalledName(e)) && !IsOr(CalledName(e))
    ensures Meaning(e, s, r, row) == OfColumnAndValue(CalledName(e), e.args[0], e.args[1], s, r, row)
  {
  }

  lemma ComparedIsFaithful(e: Expr, s: Session, r: Reading, row: Row)
    requires Mirrored(r) && e.Call? && |e.args| == 2 && Comparison(CalledName(e)).Some?
    requires Compared(Comparison(CalledName(e)).value, e.args[0], e.args[1], s).Ok?
    ensures ValueOf(Compared(Comparison(CalledName(e)).value, e.args[0], e.args[1], s).value, r, row) == Meaning(e, s, r, row)
  {
    ComparisonNames(CalledName(e));
    SymbolsAreOperators(CalledName(e));
    MeaningOfPair(e, s, r, row);
  }

  lemma RPair(x: Truth3, y: Truth3)
    ensures RAll([x, y]) == x.And(y) && RAny([x, y]) == x.Or(y)
  {
    assert x in [x, y] && y in [x, y];
  }

  lemma PairHasValue(a: Node<Scalar>, b: Node<Scalar>, r: Reading, row: Row)
    ensures ValueOf(And([a, b]), r, row) == ValueOf(a, r, row).And(ValueOf(b, r, row))
    ensures ValueOf(Or([a, b]), r, row) == ValueOf(a, r, row).Or(ValueOf(b, r, row))
  {
    var args := [a, b];
    assert seq(|args|, i requires 0 <= i < |args| => ValueOf(args[i], r, row)) == [ValueOf(a, r, row), ValueOf(b, r, row)];
    RPair(ValueOf(a, r, row), ValueOf(b, r, row));
  }

  lemma DirectIsFaithful(inner: Expr, s: Session, r: Reading, row: Row)
    requires Direct(inner, s).Ok? && Direct(inner, s).value.Some?
    ensures ValueOf(Direct(inner, s).value.value, r, row) == Meaning(inner, s, r, row).Not()
  {
  }

  lemma LeafIsFaithful(e: Expr, s: Session, r: Reading, row: Row)
    requires Mirrored(r) && TranslateFilter(e, s).Ok? && e.Call?
    requires var fn := CalledName(e);
             fn != "(" && !IsAnd(fn) && !IsOr(fn) && (fn == "!" ==> Direct(e.args[0], s).value.Some?)
    ensures ValueOf(TranslateFilter(e, s).value, r, row) == Meaning(e, s, r, row)
  {
    var fn := CalledName(e);
    if fn == "!" {
      DirectIsFaithful(e.args[0], s, r, row);
    } else if fn == "startsWith" || fn == "%in%" {
      MeaningOfPair(e, s, r, row);
    } else if Comparison(fn).Some? {
      ComparisonNames(fn);
      ComparedIsFaithful(e, s, r, row);
    }
  }

  /**
   Translation keeps the meaning of the expression, however columns are compared
   with values: with the operands either way round, in parentheses, and through
   the direct forms of `!is.na` and `!is.nan`.
   */
  lemma {:induction false} TranslationIsFaithful(e: Expr, s: Session, r: Reading, row: Row)
    requires Mirrored(r) && TranslateFilter(e, s).Ok?
    ensures ValueOf(TranslateFilter(e, s).value, r, row) == Meaning(e, s, r, row)
    decreases e
  {
    if e.Call? {
      var fn := CalledName(e);
      if fn == "(" {
        TranslationIsFaithful(e.args[0], s, r, row);
      } else if IsAnd(fn) || IsOr(fn) {
        TranslationIsFaithful(e.args[0], s, r, row);
        TranslationIsFaithful(e.args[1], s, r, row);
        PairHasValue(TranslateFilter(e.args[0], s).value, TranslateFilter(e.args[1], s).value, r, row);
      } else if fn == "!" && Direct(e.args[0], s).value.None? {
        TranslationIsFaithful(e.args[0], s, r, row);
      } else {
        LeafIsFaithful(e, s, r, row);
      }
    }
  }

  // ---- what is accepted ----

  /** The name is read somewhere in the expression: not as a field, nor as the function that is called. */
  ghost predicate Mentions(e: Expr, x: string) {
    match e
    case Constant(_) => false
    case Symbol(name) => name == x != ""
    case Call(head, args) =>
      (head.Call? && Mentions(head, x))
      || exists i :: 0 <= i < |args| && (i > 0 ==> head != Symbol("$") && head != Symbol("@")) && Mentions(args[i], x)
  }

  lemma {:induction false} VariablesAreMentioned(e: Expr, x: string)
    ensures x in ExpressionVars(e) <==> Mentions(e, x)
    decreases e
  {
    if e.Call? {
      if e.head.Call? {
        VariablesAreMentioned(e.head, x);
      }
      forall i | 0 <= i < |e.args|
        ensures x in ExpressionVars(e.args[i]) <==> Mentions(e.args[i], x)
      {
        VariablesAreMentioned(e.args[i], x);
      }
      CallMentions(e, x);
    }
  }

  lemma CallMentions(e: Expr, x: string)
    requires e.Call? && (e.head.Call? ==> (x in ExpressionVars(e.head) <==> Mentions(e.head, x)))
    requires forall i :: 0 <= i < |e.args| ==> (x in ExpressionVars(e.args[i]) <==> Mentions(e.args[i], x))
    ensures x in ExpressionVars(e) <==> Mentions(e, x)
  {
    var read := if (e.head == Symbol("$") || e.head == Symbol("@")) && e.args != [] then e.args[..1] else e.args;
    assert forall i :: 0 <= i < |read| ==> read[i] == e.args[i];
    assert x in ExpressionVars(e) <==>
           (e.head.Call? && x in ExpressionVars(e.head)) || exists i: nat :: i < |read| && x in ExpressionVars(read[i]);
  }

  /** A name that means one column of the table. */
  ghost predicate IsColumn(e: Expr, s: Session) {
    e.Symbol? && MeansSome(e.name, s.columns, s.caseSensitive, s.lower)
  }

  /** A name that is no column's, even with case ignored where it is, or no name at all. */
  ghost predicate IsNoColumn(e: Expr, s: Session) {
    e.Symbol? ==> e.name !in s.columns && (s.caseSensitive || forall c :: c in s.columns ==> s.lower(c) != s.lower(e.name))
  }

  /** A value expression: it has a value, and mentions no column. */
  ghost predicate IsValue(e: Expr, s: Session) {
    s.Value(e).Some? && forall x :: Mentions(e, x) ==> IsNoColumn(Symbol(x), s)
  }

  ghost predicate IsOneValue(e: Expr, s: Session) { IsValue(e, s) && |s.Value(e).value| == 1 }

  /** The filters of the language. */
  ghost predicate Supported(e: Expr, s: Session) {
    if !e.Call? then e.Constant? && e.v.Logical?
    else if !e.head.Symbol? then false
    else
      var fn := e.head.name;
      if |e.args| == 1 then
        if fn == "(" || fn == "!" then Supported(e.args[0], s) else (fn == "is.na" || fn == "is.nan") && IsColumn(e.args[0], s)
      else if |e.args| == 2 then
        if fn == "&" || fn == "&&" || fn == "|" || fn == "||" then Supported(e.args[0], s) && Supported(e.args[1], s)
        else SupportedPair(fn, e.args[0], e.args[1], s)
      else false
  }

  /** A column and a value, in the order the function takes them. */
  ghost predicate SupportedPair(fn: string, x: Expr, y: Expr, s: Session) {
    if fn == "startsWith" then IsColumn(x, s) && IsOneValue(y, s) && s.Value(y).value[0].Character?
    else if fn == "%in%" then IsColumn(x, s) && IsValue(y, s) && NotAvailable !in s.Value(y).value && NotANumber !in s.Value(y).value
    else if Relational(fn) then (IsColumn(x, s) && IsOneValue(y, s)) || (IsNoColumn(x, s) && IsColumn(y, s) && IsOneValue(x, s))
    else false
  }

  lemma ColumnsAreRead(e: Expr, s: Session)
    ensures IsColumn(e, s) <==> ColumnRef(e, s).Ok? && ColumnRef(e, s).value.Some?
    ensures IsNoColumn(e, s) <==> ColumnRef(e, s) == Ok(None)
  {
    if e.Symbol? {
      MeansAColumn(e.name, s.columns, s.caseSensitive, s.lower);
      ColumnIndexExactly(e.name, s.columns, s.caseSensitive, s.lower);
    }
  }

  lemma NamesAreRead(x: string, s: Session)
    ensures NamesColumn(x, s) <==> !IsNoColumn(Symbol(x), s)
  {
    if !s.caseSensitive && NamesColumn(x, s) {
      var k :| 0 <= k < |s.columns| && s.lower(s.columns[k]) == s.lower(x);
      assert s.columns[k] in s.columns;
    }
  }

  lemma ValuesAreRead(e: Expr, s: Session)
    ensures IsValue(e, s) <==> Literal(e, s).Ok?
    ensures Literal(e, s).Ok? ==> Literal(e, s).value == s.Value(e).value
  {
    forall x
      ensures x in ExpressionVars(e) <==> Mentions(e, x)
      ensures NamesColumn(x, s) <==> !IsNoColumn(Symbol(x), s)
    {
      VariablesAreMentioned(e, x);
      NamesAreRead(x, s);
    }
  }

  lemma PairIsTranslated(e: Expr, s: Session)
    requires e.Call? && e.head.Symbol? && |e.args| == 2
    requires !IsAnd(e.head.name) && !IsOr(e.head.name)
    ensures TranslateFilter(e, s).Ok? <==> SupportedPair(e.head.name, e.args[0], e.args[1], s)
  {
    ColumnsAreRead(e.args[0], s);
    ColumnsAreRead(e.args[1], s);
    ValuesAreRead(e.args[0], s);
    ValuesAreRead(e.args[1], s);
    SymbolsAreOperators(e.head.name);
  }

  lemma DirectIsSupported(inner: Expr, s: Session)
    ensures Direct(inner, s).Err? ==> !Supported(inner, s)
    ensures Direct(inner, s).Ok? && Direct(inner, s).value.Some? ==> Supported(inner, s)
  {
    if inner.Call? && |inner.args| == 1 {
      ColumnsAreRead(inner.args[0], s);
    }
  }

  /** Under a negation, the test of a column that is missing or NaN has a node of its own. */
  lemma NegatedIsTranslated(e: Expr, s: Session)
    requires e.Call? && e.head == Symbol("!") && |e.args| == 1
    requires TranslateFilter(e.args[0], s).Ok? <==> Supported(e.args[0], s)
    ensures TranslateFilter(e, s).Ok? <==> Supported(e.args[0], s)
  {
    DirectIsSupported(e.args[0], s);
  }

  lemma ColumnTestIsTranslated(e: Expr, s: Session)
    requires e.Call? && e.head.Symbol? && |e.args| == 1 && e.head.name != "(" && e.head.name != "!"
    ensures TranslateFilter(e, s).Ok? <==> (e.head.name == "is.na" || e.head.name == "is.nan") && IsColumn(e.args[0], s)
  {
    ColumnsAreRead(e.args[0], s);
  }

  /** An expression is translated exactly if it is a filter of the language. */
  lemma {:induction false} TranslatesExactly(e: Expr, s: Session)
    ensures TranslateFilter(e, s).Ok? <==> Supported(e, s)
    decreases e
  {
    if e.Call? && e.head.Symbol? {
      var fn := e.head.name;
      if |e.args| == 1 {
        TranslatesExactly(e.args[0], s);
        if fn == "!" {
          NegatedIsTranslated(e, s);
        } else if fn != "(" {
          ColumnTestIsTranslated(e, s);
        }
      } else if |e.args| == 2 {
        TranslatesExactly(e.args[0], s);
        TranslatesExactly(e.args[1], s);
        if !IsAnd(fn) && !IsOr(fn) {
          PairIsTranslated(e, s);
        }
      }
    }
  }

  // ---- variables ----

  /** Two environments give a name the same value, or neither has it. */
  predicate SameVariable(x: string, a: Env, b: Env) {
    (x in a <==> x in b) && (x in a ==> a[x] == b[x])
  }

  /** What an expression evaluates to depends on the variables it reads by name. */
  ghost predicate ReadsItsVariables(s: Session) {
    forall e, a, b :: (forall x :: x in ExpressionVars(e) ==> SameVariable(x, a, b)) ==> s.eval(e, a) == s.eval(e, b)
  }

  /**
   A column is never read as a variable: binding, rebinding or removing variables
   that have the names of columns changes no translation.
   */
  lemma ColumnsAreNotLocals(e: Expr, s: Session, env: Env)
    requires ReadsItsVariables(s) && forall x :: IsNoColumn(Symbol(x), s) ==> SameVariable(x, s.env, env)
    ensures TranslateFilter(e, s.(env := env)) == TranslateFilter(e, s)
  {
    LiteralsAreSame(s, env);
    TranslatesAlike(e, s, s.(env := env));
  }

  /** The two sessions read every name and every value alike. */
  ghost predicate Alike(s: Session, s': Session) {
    forall e :: ColumnRef(e, s') == ColumnRef(e, s) && Literal(e, s') == Literal(e, s)
  }

  lemma LeavesAlike(e: Expr, s: Session, s': Session)
    requires Alike(s, s')
    ensures Direct(e, s') == Direct(e, s) && ColumnOperand(e, s') == ColumnOperand(e, s) && OneValue(e, s') == OneValue(e, s)
  {
  }

  lemma ComparedAlike(op: Cmp, lhs: Expr, rhs: Expr, s: Session, s': Session)
    requires Alike(s, s')
    ensures Compared(op, lhs, rhs, s') == Compared(op, lhs, rhs, s)
  {
    LeavesAlike(lhs, s, s');
    LeavesAlike(rhs, s, s');
  }

  lemma {:induction false} TranslatesAlike(e: Expr, s: Session, s': Session)
    requires Alike(s, s')
    ensures TranslateFilter(e, s') == TranslateFilter(e, s)
    decreases e
  {
    if e.Call? && Arity(CalledName(e)) == Some(|e.args|) {
      var fn := CalledName(e);
      LeavesAlike(e.args[0], s, s');
      if fn == "(" || fn == "!" {
        TranslatesAlike(e.args[0], s, s');
      } else if IsAnd(fn) || IsOr(fn) {
        TranslatesAlike(e.args[0], s, s');
        TranslatesAlike(e.args[1], s, s');
      } else if Comparison(fn).Some? {
        ComparedAlike(Comparison(fn).value, e.args[0], e.args[1], s, s');
      }
    }
  }

  lemma LiteralsAreSame(s: Session, env: Env)
    requires ReadsItsVariables(s) && forall x :: IsNoColumn(Symbol(x), s) ==> SameVariable(x, s.env, env)
    ensures Alike(s, s.(env := env))
  {
    var s' := s.(env := env);
    forall x
      ensures NamesColumn(x, s') <==> NamesColumn(x, s)
      ensures NamesColumn(x, s) <==> !IsNoColumn(Symbol(x), s)
    {
      NamesAreRead(x, s);
    }
    forall e
      ensures ColumnRef(e, s') == ColumnRef(e, s) && Literal(e, s') == Literal(e, s)
    {
      if !ReadsColumn(e, s) {
        assert forall x :: x in ExpressionVars(e) ==> SameVariable(x, s.env, env);
        assert s.eval(e, s.env) == s.eval(e, env);
      }
    }
  }
}
