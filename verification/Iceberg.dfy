/**
 Iceberg predicates: how a row filter evaluates them, with three truth values
 and its own constants for a column the file does not have, and how file
 statistics decide that no row of a file can match.
 */
module Iceberg {
  import opened Outcomes
  import opened Values

  datatype Truth3 = True | False | Unknown {
    function And(b: Truth3): Truth3 {
      if False? || b.False? then False else if True? && b.True? then True else Unknown
    }

    function Or(b: Truth3): Truth3 {
      if True? || b.True? then True else if False? && b.False? then False else Unknown
    }

    function Not(): Truth3 {
      match this
      case True => False
      case False => True
      case Unknown => Unknown
    }
  }

  function Known(b: bool): Truth3 { if b then True else False }

  datatype Test =
    | IsNull | NotNull | IsNan | NotNan
    | Compare(op: Cmp, literal: Value)
    | StartsWith(prefix: Value)
    | NotStartsWith(prefix: Value)
    | In(set_: seq<Value>)
    | NotIn(set_: seq<Value>)

  datatype Predicate =
    | AlwaysTrue
    | AlwaysFalse
    | Both(l: Predicate, r: Predicate)
    | Either(l: Predicate, r: Predicate)
    | Leaf(col: string, test: Test)
  {
    /** Conjunction, dropping a constant operand. */
    function And(p: Predicate): Predicate {
      if AlwaysFalse? || p.AlwaysFalse? then AlwaysFalse
      else if AlwaysTrue? then p
      else if p.AlwaysTrue? then this
      else Both(this, p)
    }

    /** Disjunction, dropping a constant operand. */
    function Or(p: Predicate): Predicate {
      if AlwaysTrue? || p.AlwaysTrue? then AlwaysTrue
      else if AlwaysFalse? then p
      else if p.AlwaysFalse? then this
      else Either(this, p)
    }
  }

  predicate IsPrefix(p: Value, v: Value) {
    p.BytesV? && v.BytesV? && p.s <= v.s
  }

  /** Whether some literal of the set is the value, as the row filter compares them. */
  predicate AmongSet(v: Value, literals: seq<Value>) {
    exists i :: 0 <= i < |literals| && TotalOrder(v, literals[i]).Same?
  }

  /** A test of a value the file holds. */
  function OnValue(t: Test, v: Value): Truth3 {
    match t
    case IsNull => False
    case NotNull => True
    case IsNan => Known(IsNaN(v))
    case NotNan => Known(!IsNaN(v))
    case Compare(op, d) => Known(op.Holds(TotalOrder(v, d)))
    case StartsWith(p) => Known(IsPrefix(p, v))
    case NotStartsWith(p) => Known(!IsPrefix(p, v))
    case In(ds) => Known(AmongSet(v, ds))
    case NotIn(ds) => Known(!AmongSet(v, ds))
  }

  /** A test of a null. */
  function OnNull(t: Test): Truth3 {
    match t
    case IsNull => True
    case NotNull => False
    case IsNan => False
    case NotNan => True
    case _ => Unknown
  }

  /** A test of a column the file does not have: a table of constants. */
  function OnAbsent(t: Test): Truth3 {
    match t
    case Compare(op, _) => Known(op.Lt? || op.Lte?)
    case NotStartsWith(_) => True
    case NotIn(_) => True
    case NotNan => True
    case IsNull => True
    case _ => False
  }

  function OnRow(col: string, t: Test, row: Row): Truth3 {
    if col !in row then OnAbsent(t)
    else
      match row[col]
      case Null => OnNull(t)
      case Has(v) => OnValue(t, v)
  }

  function Eval(p: Predicate, row: Row): Truth3 {
    match p
    case AlwaysTrue => True
    case AlwaysFalse => False
    case Both(l, r) => Eval(l, row).And(Eval(r, row))
    case Either(l, r) => Eval(l, row).Or(Eval(r, row))
    case Leaf(col, t) => OnRow(col, t, row)
  }

  lemma EvalConnectives(p: Predicate, q: Predicate, row: Row)
    ensures Eval(p.And(q), row) == Eval(p, row).And(Eval(q, row))
    ensures Eval(p.Or(q), row) == Eval(p, row).Or(Eval(q, row))
  {
  }

  // ---- pruning ----

  /**
   What the statistics of a file establish about one of its columns. Bounds are
   over the values that are neither null nor NaN; those of a string may be
   shortened, those of a float may have lost the sign of a zero.
   */
  datatype ColumnStats = ColumnStats(
    noNulls: bool, onlyNulls: bool, noNans: bool, onlyNans: bool,
    lower: Option<Value>, upper: Option<Value>)

  /** A column with no entry has no statistics. */
  type FileStats = map<string, ColumnStats>

  /** Whether an evaluator tells the two zeros apart when it reads bounds. */
  datatype ZeroRule = SignedZeros | EqualZeros

  function BoundOrder(a: Value, b: Value, zeros: ZeroRule): Order {
    if zeros.EqualZeros? && !IsNaN(a) && !IsNaN(b) then NumericOrder(a, b) else TotalOrder(a, b)
  }

  predicate AtLeastLower(d: Value, s: ColumnStats, zeros: ZeroRule) {
    s.lower.Some? ==> !BoundOrder(d, s.lower.value, zeros).Less?
  }

  predicate AtMostUpper(d: Value, s: ColumnStats, zeros: ZeroRule) {
    s.upper.Some? ==> !BoundOrder(d, s.upper.value, zeros).More?
  }

  /** Cut a string bound to the length of a prefix. */
  function Cut(v: Value, n: nat): Value {
    if v.BytesV? && |v.s| > n then BytesV(v.s[..n]) else v
  }

  /** The inclusive test: false only when the statistics rule the leaf out. */
  predicate MightHold(t: Test, s: ColumnStats, zeros: ZeroRule) {
    match t
    case IsNull => !s.noNulls
    case NotNull => !s.onlyNulls
    case IsNan => !s.noNans && !s.onlyNulls
    case NotNan => !s.onlyNans
    case Compare(op, d) =>
      op.Ne? ||
      (!s.onlyNulls && !s.onlyNans &&
       match op
       case Eq => AtLeastLower(d, s, zeros) && AtMostUpper(d, s, zeros)
       case Lt => s.lower.Some? ==> BoundOrder(s.lower.value, d, zeros).Less?
       case Lte => s.lower.Some? ==> !BoundOrder(s.lower.value, d, zeros).More?
       case Gt => s.upper.Some? ==> BoundOrder(s.upper.value, d, zeros).More?
       case Gte => s.upper.Some? ==> !BoundOrder(s.upper.value, d, zeros).Less?)
    case In(ds) =>
      !s.onlyNulls && !s.onlyNans &&
      exists i :: 0 <= i < |ds| && AtLeastLower(ds[i], s, zeros) && AtMostUpper(ds[i], s, zeros)
    case NotIn(_) => true
    case StartsWith(p) =>
      !s.onlyNulls &&
      (p.BytesV? ==>
         && (s.lower.Some? ==> !TotalOrder(Cut(s.lower.value, |p.s|), p).More?)
         && (s.upper.Some? ==> !TotalOrder(Cut(s.upper.value, |p.s|), p).Less?))
    case NotStartsWith(p) =>
      !(s.noNulls && s.lower.Some? && s.upper.Some? && IsPrefix(p, s.lower.value) && IsPrefix(p, s.upper.value))
  }

  predicate MightMatch(p: Predicate, file: FileStats, zeros: ZeroRule) {
    match p
    case AlwaysTrue => true
    case AlwaysFalse => false
    case Both(l, r) => MightMatch(l, file, zeros) && MightMatch(r, file, zeros)
    case Either(l, r) => MightMatch(l, file, zeros) || MightMatch(r, file, zeros)
    case Leaf(col, t) => col in file ==> MightHold(t, file[col], zeros)
  }

  lemma MightMatchConnectives(p: Predicate, q: Predicate, file: FileStats, zeros: ZeroRule)
    ensures MightMatch(p, file, zeros) && MightMatch(q, file, zeros) ==> MightMatch(p.And(q), file, zeros)
    ensures MightMatch(p, file, zeros) || MightMatch(q, file, zeros) ==> MightMatch(p.Or(q), file, zeros)
  {
  }

  /** The statistics are true of a value a row of the file holds. */
  ghost predicate Describes(s: ColumnStats, v: Value) {
    && !s.onlyNulls
    && (s.noNans ==> !IsNaN(v))
    && (s.onlyNans ==> IsNaN(v))
    && (!IsNaN(v) && s.lower.Some? ==> SameKind(s.lower.value, v) && !NumericOrder(s.lower.value, v).More?)
    && (!IsNaN(v) && s.upper.Some? ==> SameKind(s.upper.value, v) && !NumericOrder(v, s.upper.value).More?)
  }

  /** Statistics never carry NaN, and hold values of the column's kind. */
  predicate SameKind(bound: Value, v: Value) {
    !IsNaN(bound) && (bound.BoolV? <==> v.BoolV?) && (bound.IntV? <==> v.IntV?) && (bound.BytesV? <==> v.BytesV?)
  }

  /** The statistics of a file are true of one of its rows; there are none for a column the file lacks. */
  ghost predicate Covers(file: FileStats, row: Row) {
    forall col :: col in file ==>
      (if col !in row then false
       else if row[col].Null? then !file[col].noNulls && !file[col].onlyNans
       else Describes(file[col], row[col].v))
  }
}
