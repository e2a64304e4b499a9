/**
 R's own answer for one value of a column and one literal, each as R holds it: a
 number of days, of seconds or of rows stays a number, a text stays a text. And
 for each class of literal and type of column, when the literal the filter is
 compiled with answers the same.
 */
module OwnValues {
  import opened Outcomes
  import opened Values
  import opened FilterTree
  import opened DecimalText
  import opened Literals
  import opened Iceberg
  import opened Compiler
  import opened Wire
  import opened OwnText

  // ---- R's side ----

  predicate IsInstant(ty: Primitive) { ty.Timestamp? || ty.Timestamptz? || ty.TimestampNs? || ty.TimestamptzNs? }

  /** How many of the units an instant is stored in make a second. */
  function PerSecond(ty: Primitive): real { if ty.Timestamp? || ty.Timestamptz? then 1000000.0 else 1000000000.0 }

  /**
   How R holds what a column stores as integers, as a number and as text; how it
   reads a text beside a date, an instant or an integer64 column; and how it reads
   a text column beside a literal of one of those classes.
   */
  datatype RSide = RSide(
    bit64: bool,
    number: (Primitive, int) -> real,
    text: (Primitive, int) -> string,
    asDate: string -> Option<real>,
    asInstant: string -> Option<real>,
    asInteger64: string -> Option<real>,
    inText: (Scalar, seq<int>) -> Option<real>
  ) {
    /**
     Integers and days are exact, and so are 64-bit integers with bit64; the rest
     are doubles, in order, an instant within half its distance from the epoch.
     Integers of 32 bits are written in digits; of 64 bits, and decimals, those
     written the same are next to each other. `x` is read as no number.
     */
    ghost predicate Valid() {
      && (forall i :: number(Int, i) == i as real)
      && (forall i :: number(Primitive.Date, i) == i as real)
      && (forall i :: bit64 ==> number(Long, i) == i as real)
      && (forall ty, i, j :: i <= j ==> number(ty, i) <= number(ty, j))
      && (forall ty, i :: IsInstant(ty) ==> Near(number(ty, i) * PerSecond(ty), i))
      && (forall i :: text(Int, i) == IntText(i))
      && TextsOf(Long, this).Written() && TextsOf(Long, this).Contiguous()
      && (forall precision, scale :: TextsOf(Decimal(precision, scale), this).Contiguous())
      && (forall v :: inText(v, Codes("x")) == None)
    }
  }

  /** How R writes what the column stores as integers. */
  function TextsOf(ty: Primitive, r: RSide): Texts { Texts((i: int) => r.text(ty, i), Low(ty), High(ty)) }

  /** Within half the distance from zero. */
  predicate Near(x: real, i: int) {
    var d := 2.0 * (x - i as real);
    if i >= 0 then -(i as real) <= d <= i as real else i as real <= d <= -(i as real)
  }

  /** Both sides, and how R writes days and seconds. */
  datatype World = World(r: RSide, lib: Library, calendar: Calendar) {
    ghost predicate Valid() { r.Valid() && lib.Valid() }
  }

  /** A column of integers that comes to R as integer64, which has comparisons of its own. */
  predicate IsInteger64(ty: Primitive, w: World) { ty.Long? && w.r.bit64 }

  /** What R compares: a number, the characters of a text, or nothing it can. */
  datatype Own = At(x: Number) | Word(codes: seq<int>) | Nothing

  /** An integer64 beside decimals: its comparisons make integer64 of them first, dropping what is after the point. */
  predicate Truncates(v: Scalar, ty: Primitive) { v.Integer64? && ty.Decimal? }

  function Truncated(x: real): real { if x >= 0.0 then x.Floor as real else -((-x).Floor as real) }

  /** What as.integer64 makes of a number; past 64 bits it is NA. */
  predicate InInteger64(x: real) { -(INT64_LIMIT as real) < x < INT64_LIMIT as real }

  function AsInteger64(x: real): Own { if InInteger64(x) then At(Finite(Truncated(x))) else Nothing }

  function AtNumber(x: Option<real>): (o: Own)
    ensures o.At? ==> o.x.Finite?
  {
    match x
    case Some(x) => At(Finite(x))
    case None => Nothing
  }

  /**
   The literal, beside a column: a number is the double its token stands for.
   Classes with comparisons of their own do not mix.
   */
  ghost function OwnLiteral(v: Scalar, ty: Primitive, w: World): (o: Own)
    ensures o.At? ==> o.x.Finite? && !v.Factor?
  {
    match v
    case Logical(b) => At(Finite(if b then 1.0 else 0.0))
    case Numeric(token) => At(Finite(DoubleOf(w.lib.number(token), w.lib)))
    case Integer64(digits) => if ty.Date? || IsInstant(ty) then Nothing else AtNumber(Integer64Number(digits, w.lib))
    case Date(days) => if IsInteger64(ty, w) || IsInstant(ty) then Nothing else At(Finite(days))
    case Instant(seconds) => if IsInteger64(ty, w) || ty.Date? then Nothing else At(Finite(seconds))
    case Character(s) =>
      if ty.Text? then Word(w.lib.utf8(s))
      else if ty.Date? then AtNumber(w.r.asDate(s))
      else if IsInstant(ty) then AtNumber(w.r.asInstant(s))
      else if IsInteger64(ty, w) then AtNumber(w.r.asInteger64(s))
      else Word(Codes(s))
    case Factor(level) =>
      if ty.Text? then Word(w.lib.utf8(level))
      else if ty.Date? || IsInstant(ty) || IsInteger64(ty, w) then Nothing
      else Word(Codes(level))
    case _ => Nothing
  }

  ghost function Integer64Number(digits: string, lib: Library): (x: Option<real>)
    ensures x.Some? ==> -(INT64_LIMIT as real) <= x.value < INT64_LIMIT as real
  {
    match Denotes(JString(digits), lib)
    case Some(x) => if -(INT64_LIMIT as real) <= x < INT64_LIMIT as real then Some(x) else None
    case None => None
  }

  /** A value of the column, as it is compared with the literal. */
  ghost function OwnCell(cell: Value, v: Scalar, ty: Primitive, w: World): Own {
    match (OwnLiteral(v, ty, w), cell)
    case (At(_), BoolV(b)) => At(Finite(if b then 1.0 else 0.0))
    case (At(_), IntV(i)) =>
      if ty.Uuid? then Nothing
      else if Truncates(v, ty) then AsInteger64(w.r.number(ty, i))
      else At(Finite(w.r.number(ty, i)))
    case (At(_), FloatV(f)) => if f.NaN? then Nothing else At(f)
    case (At(_), BytesV(s)) => AtNumber(w.r.inText(v, s))
    case (Word(_), BytesV(s)) => Word(s)
    case (Word(_), IntV(i)) => if ty.Uuid? then Nothing else Word(Codes(w.r.text(ty, i)))
    case _ => Nothing
  }

  function OwnOrder(a: Own, b: Own): Option<Order> {
    match (a, b)
    case (At(x), At(y)) => Some(NumericFloat(x, y))
    case (Word(x), Word(y)) => Some(BytesOrder(x, y))
    case _ => None
  }

  /** Factors are equal or not, and have no order. */
  predicate Compares(op: Cmp, v: Scalar) { v.Factor? ==> op.Eq? || op.Ne? }

  ghost function OwnAnswer(op: Cmp, cell: Value, v: Scalar, ty: Primitive, w: World): Truth3 {
    match OwnOrder(OwnCell(cell, v, ty, w), OwnLiteral(v, ty, w))
    case Some(o) => if Compares(op, v) then Known(op.Holds(o)) else Unknown
    case None => Unknown
  }

  // ---- the compiled literal beside it ----

  /** A value, neither null nor NaN, that a column of the type can hold. */
  ghost predicate Held(cell: Value, ty: Primitive, lib: Library) {
    && Typed(cell, ty) && !IsNaN(cell)
    && (cell.IntV? ==> InRange(cell.i, ty))
    && (ty.Float? ==> lib.single(cell.f))
  }

  ghost predicate TypedAs(v: Scalar, ty: Primitive, d: Value, w: World) {
    ToJson(v, w.calendar).Ok? && TypedLiteral(ToJson(v, w.calendar).value, ty, w.lib) == Ok(d)
  }

  /** Whatever the column holds, the compiled literal answers as R does. */
  ghost predicate AnswersAlike(op: Cmp, v: Scalar, d: Value, ty: Primitive, w: World)
    requires !IsNaN(d)
  {
    forall cell :: Held(cell, ty, w.lib) ==> OwnAnswer(op, cell, v, ty, w) == Known(op.Holds(NumericOrder(cell, d)))
  }

  /** The numbers R holds for the integers of a range. */
  datatype Ruler = Ruler(number: int -> real, low: int, high: int) {
    ghost predicate Ordered() { forall i, j :: i <= j ==> number(i) <= number(j) }
  }

  /** The numbers of a column, as they are compared with the literal. */
  function RulerOf(v: Scalar, ty: Primitive, r: RSide): Ruler {
    Ruler((i: int) => if Truncates(v, ty) then Truncated(r.number(ty, i)) else r.number(ty, i), Low(ty), High(ty))
  }

  /** Every number of the column can be compared: if made an integer64, it is one. */
  predicate AllCompared(v: Scalar, ty: Primitive, r: RSide) {
    Truncates(v, ty) ==> InInteger64(r.number(ty, Low(ty))) && InInteger64(r.number(ty, High(ty)))
  }

  function Low(ty: Primitive): int {
    match ty
    case Int => -INT32_LIMIT
    case Date => -INT32_LIMIT
    case Decimal(precision, _) => 1 - Pow10(precision)
    case _ => -INT64_LIMIT
  }

  function High(ty: Primitive): int {
    match ty
    case Int => INT32_LIMIT - 1
    case Date => INT32_LIMIT - 1
    case Decimal(precision, _) => Pow10(precision) - 1
    case _ => INT64_LIMIT - 1
  }

  /**
   Where R's number must lie for the integer `n` to stand for it: between the
   numbers of `n` and of the integer next to it, on the side the operator needs.
   */
  predicate NumberPlaced(op: Cmp, n: int, x: real, ruler: Ruler) {
    var above := n > ruler.low ==> ruler.number(n - 1) < x;
    var below := n < ruler.high ==> x < ruler.number(n + 1);
    match op
    case Eq => above && x == ruler.number(n) && below
    case Ne => above && x == ruler.number(n) && below
    case Lt => above && x <= ruler.number(n)
    case Gte => above && x <= ruler.number(n)
    case Lte => ruler.number(n) <= x && below
    case Gt => ruler.number(n) <= x && below
  }

  /** A number and the single it was rounded to: on which side the operator allows it. */
  predicate SinglePlaced(op: Cmp, o: Order) {
    match o
    case Same => true
    case More => op.Lt? || op.Gte?
    case Less => op.Gt? || op.Lte?
  }

  function TextOf(v: Scalar): string {
    match v
    case Character(s) => s
    case Factor(level) => level
    case _ => ""
  }

  /** The condition, by the literal as R holds it and the one the column's type gave it. */
  ghost predicate Placed(op: Cmp, v: Scalar, d: Value, ty: Primitive, w: World)
    requires !IsNaN(d)
  {
    Compares(op, v) &&
    match (OwnLiteral(v, ty, w), d)
    case (At(x), BoolV(_)) => true
    case (At(x), FloatV(f)) => if ty.Float? then SinglePlaced(op, NumericFloat(f, x)) else NumericFloat(f, x).Same?
    case (At(x), IntV(n)) => !ty.Uuid? && AllCompared(v, ty, w.r) && NumberPlaced(op, n, Magnitude(x), RulerOf(v, ty, w.r))
    case (Word(_), BytesV(_)) => true
    case (Word(_), IntV(n)) => !ty.Uuid? && TextPlaced(op, TextOf(v), n, TextsOf(ty, w.r))
    case _ => false
  }

  // ---- when they agree ----

  /** How the texts of decimals are ordered is not modelled. */
  ghost predicate Rendered(op: Cmp, v: Scalar, ty: Primitive, w: World) {
    OwnLiteral(v, ty, w).Word? && ty.Decimal? ==> op.Eq? || op.Ne?
  }

  /** A typed literal is a value the column can hold. */
  lemma TypedIsHeld(v: Scalar, ty: Primitive, d: Value, w: World)
    requires w.Valid() && TypedAs(v, ty, d, w)
    ensures Held(d, ty, w.lib)
  {
    DatumFits(ToJson(v, w.calendar).value, ty, w.lib);
  }

  /** The numbers of the range lie about `x` as its integers lie about `n`. */
  ghost predicate Tracks(op: Cmp, n: int, x: real, ruler: Ruler) {
    forall i :: ruler.low <= i <= ruler.high ==> (op.Holds(RealOrder(ruler.number(i), x)) <==> op.Holds(IntOrder(i, n)))
  }

  lemma NumberPlacedExactly(op: Cmp, n: int, x: real, ruler: Ruler)
    requires ruler.Ordered() && ruler.low <= n <= ruler.high
    ensures NumberPlaced(op, n, x, ruler) <==> Tracks(op, n, x, ruler)
  {
    forall i
      ensures i < n ==> ruler.number(i) <= ruler.number(n - 1)
      ensures i > n ==> ruler.number(i) >= ruler.number(n + 1)
      ensures (i < n ==> ruler.number(i) <= ruler.number(n)) && (i > n ==> ruler.number(n) <= ruler.number(i))
    {
    }
  }

  /** The integer types that are compared as numbers; what a column of one holds is its range. */
  predicate IsCounted(ty: Primitive) { ty.Int? || ty.Long? || ty.Date? || IsInstant(ty) || ty.Decimal? }

  lemma CountedIsHeld(i: int, ty: Primitive, lib: Library)
    requires IsCounted(ty)
    ensures Held(IntV(i), ty, lib) <==> Low(ty) <= i <= High(ty)
  {
  }

  lemma FloorKeepsOrder(x: real, y: real)
    requires x <= y
    ensures x.Floor <= y.Floor
  {
    assert x.Floor as real <= x && y < y.Floor as real + 1.0;
  }

  lemma TruncationKeepsOrder(x: real, y: real)
    requires x <= y
    ensures Truncated(x) <= Truncated(y)
  {
    if x >= 0.0 {
      FloorKeepsOrder(x, y);
    } else if y < 0.0 {
      FloorKeepsOrder(-y, -x);
    } else {
      FloorKeepsOrder(0.0, -x);
      FloorKeepsOrder(0.0, y);
    }
  }

  lemma RulerIsOrdered(v: Scalar, ty: Primitive, r: RSide)
    requires r.Valid()
    ensures RulerOf(v, ty, r).Ordered()
  {
    forall i, j | i <= j
      ensures RulerOf(v, ty, r).number(i) <= RulerOf(v, ty, r).number(j)
    {
      TruncationKeepsOrder(r.number(ty, i), r.number(ty, j));
    }
  }

  /** Between two numbers that can be compared, every number can. */
  lemma HeldIsCompared(i: int, v: Scalar, ty: Primitive, r: RSide)
    requires r.Valid() && AllCompared(v, ty, r) && Low(ty) <= i <= High(ty)
    ensures Truncates(v, ty) ==> InInteger64(r.number(ty, i))
  {
    assert r.number(ty, Low(ty)) <= r.number(ty, i) <= r.number(ty, High(ty));
  }

  lemma CountedCell(op: Cmp, i: int, v: Scalar, n: int, ty: Primitive, w: World)
    requires IsCounted(ty) && OwnLiteral(v, ty, w).At? && (Truncates(v, ty) ==> InInteger64(w.r.number(ty, i)))
    ensures OwnAnswer(op, IntV(i), v, ty, w) == Known(op.Holds(NumericOrder(IntV(i), IntV(n)))) <==>
            (op.Holds(RealOrder(RulerOf(v, ty, w.r).number(i), OwnLiteral(v, ty, w).x.v)) <==> op.Holds(IntOrder(i, n)))
  {
    CountedAnswer(op, i, v, ty, w);
  }

  lemma CountedAnswer(op: Cmp, i: int, v: Scalar, ty: Primitive, w: World)
    requires IsCounted(ty) && OwnLiteral(v, ty, w).At?
    ensures OwnAnswer(op, IntV(i), v, ty, w) ==
            if Truncates(v, ty) && !InInteger64(w.r.number(ty, i)) then Unknown
            else Known(op.Holds(RealOrder(RulerOf(v, ty, w.r).number(i), OwnLiteral(v, ty, w).x.v)))
  {
  }

  /** A cell of the type, compared as its integer. */
  ghost predicate CellAgrees(op: Cmp, cell: Value, v: Scalar, d: Value, ty: Primitive, w: World)
    requires !IsNaN(cell) && !IsNaN(d)
  {
    OwnAnswer(op, cell, v, ty, w) == Known(op.Holds(NumericOrder(cell, d)))
  }

  /** Where the literal answers alike, R answers of every value. */
  lemma AgreementCompares(op: Cmp, i: int, v: Scalar, n: int, ty: Primitive, w: World)
    requires IsCounted(ty) && OwnLiteral(v, ty, w).At? && AnswersAlike(op, v, IntV(n), ty, w)
    requires Low(ty) <= i <= High(ty)
    ensures Truncates(v, ty) ==> InInteger64(w.r.number(ty, i))
  {
    CountedIsHeld(i, ty, w.lib);
    CountedAnswer(op, i, v, ty, w);
  }

  lemma AgreementTracks(op: Cmp, v: Scalar, n: int, ty: Primitive, w: World)
    requires IsCounted(ty) && OwnLiteral(v, ty, w).At? && AnswersAlike(op, v, IntV(n), ty, w)
    ensures Tracks(op, n, OwnLiteral(v, ty, w).x.v, RulerOf(v, ty, w.r))
  {
    var ruler, x := RulerOf(v, ty, w.r), OwnLiteral(v, ty, w).x.v;
    forall i | ruler.low <= i <= ruler.high
      ensures op.Holds(RealOrder(ruler.number(i), x)) <==> op.Holds(IntOrder(i, n))
    {
      CountedIsHeld(i, ty, w.lib);
      AgreementCompares(op, i, v, n, ty, w);
      CountedCell(op, i, v, n, ty, w);
    }
  }

  lemma TrackingAgrees(op: Cmp, v: Scalar, n: int, ty: Primitive, w: World)
    requires w.Valid() && IsCounted(ty) && OwnLiteral(v, ty, w).At? && AllCompared(v, ty, w.r)
    requires Tracks(op, n, OwnLiteral(v, ty, w).x.v, RulerOf(v, ty, w.r))
    ensures AnswersAlike(op, v, IntV(n), ty, w)
  {
    forall cell | Held(cell, ty, w.lib)
      ensures CellAgrees(op, cell, v, IntV(n), ty, w)
    {
      CountedIsHeld(cell.i, ty, w.lib);
      HeldIsCompared(cell.i, v, ty, w.r);
      CountedCell(op, cell.i, v, n, ty, w);
    }
  }

  lemma RangeHolds(n: int, ty: Primitive, lib: Library)
    requires IsCounted(ty) && Held(IntV(n), ty, lib)
    ensures Low(ty) <= n <= High(ty)
  {
  }

  lemma CountedExactly(op: Cmp, v: Scalar, n: int, ty: Primitive, w: World)
    requires w.Valid() && IsCounted(ty) && OwnLiteral(v, ty, w).At? && Held(IntV(n), ty, w.lib)
    ensures AnswersAlike(op, v, IntV(n), ty, w) <==>
            AllCompared(v, ty, w.r) && NumberPlaced(op, n, OwnLiteral(v, ty, w).x.v, RulerOf(v, ty, w.r))
  {
    RangeHolds(n, ty, w.lib);
    RulerIsOrdered(v, ty, w.r);
    NumberPlacedExactly(op, n, OwnLiteral(v, ty, w).x.v, RulerOf(v, ty, w.r));
    if AnswersAlike(op, v, IntV(n), ty, w) {
      AgreementTracks(op, v, n, ty, w);
      AgreementCompares(op, Low(ty), v, n, ty, w);
      AgreementCompares(op, High(ty), v, n, ty, w);
    }
    if AllCompared(v, ty, w.r) && NumberPlaced(op, n, OwnLiteral(v, ty, w).x.v, RulerOf(v, ty, w.r)) {
      TrackingAgrees(op, v, n, ty, w);
    }
  }

  lemma SingleCell(op: Cmp, f: Number, v: Scalar, ty: Primitive, w: World)
    requires IsFloat(ty) && OwnLiteral(v, ty, w).At?
    ensures OwnAnswer(op, FloatV(f), v, ty, w) == Known(op.Holds(NumericFloat(f, OwnLiteral(v, ty, w).x)))
  {
  }

  lemma TypedFloat(v: Scalar, ty: Primitive, d: Value, w: World)
    requires IsFloat(ty) && TypedAs(v, ty, d, w)
    ensures OwnLiteral(v, ty, w).At?
    ensures d == FloatV(if ty.Float? then w.lib.narrow(OwnLiteral(v, ty, w).x.v) else OwnLiteral(v, ty, w).x)
  {
  }

  lemma SinglesExactly(op: Cmp, v: Scalar, d: Value, w: World)
    requires w.Valid() && TypedAs(v, Float, d, w) && OwnLiteral(v, Float, w).At?
    ensures AnswersAlike(op, v, d, Float, w) <==> SinglePlaced(op, NumericFloat(d.f, OwnLiteral(v, Float, w).x))
  {
    var x := OwnLiteral(v, Float, w).x;
    TypedFloat(v, Float, d, w);
    NarrowedComparison(op, x.v, w.lib);
    if AnswersAlike(op, v, d, Float, w) {
      forall f: Number | w.lib.single(f)
        ensures op.Holds(NumericFloat(f, d.f)) <==> op.Holds(NumericFloat(f, x))
      {
        assert Held(FloatV(f), Float, w.lib);
        SingleCell(op, f, v, Float, w);
      }
    }
    if SinglePlaced(op, NumericFloat(d.f, x)) {
      forall cell | Held(cell, Float, w.lib)
        ensures CellAgrees(op, cell, v, d, Float, w)
      {
        SingleCell(op, cell.f, v, Float, w);
      }
    }
  }

  lemma DoublesAgree(op: Cmp, v: Scalar, d: Value, w: World)
    requires TypedAs(v, Primitive.Double, d, w)
    ensures AnswersAlike(op, v, d, Primitive.Double, w)
    ensures OwnLiteral(v, Primitive.Double, w).At? && NumericFloat(d.f, OwnLiteral(v, Primitive.Double, w).x).Same?
  {
    TypedFloat(v, Primitive.Double, d, w);
    forall cell | Held(cell, Primitive.Double, w.lib)
      ensures CellAgrees(op, cell, v, d, Primitive.Double, w)
    {
      SingleCell(op, cell.f, v, Primitive.Double, w);
    }
  }

  lemma BooleansAgree(op: Cmp, v: Scalar, d: Value, w: World)
    requires TypedAs(v, Boolean, d, w)
    ensures AnswersAlike(op, v, d, Boolean, w) && OwnLiteral(v, Boolean, w).At? && d.BoolV?
  {
    assert v.Logical? && d == BoolV(v.b);
    forall cell | Held(cell, Boolean, w.lib)
      ensures CellAgrees(op, cell, v, d, Boolean, w)
    {
    }
  }

  /** A text column and a text: byte by byte on both sides. */
  lemma WordsExactly(op: Cmp, v: Scalar, d: Value, w: World)
    requires w.Valid() && TypedAs(v, Text, d, w)
    ensures AnswersAlike(op, v, d, Text, w) <==> Compares(op, v) && OwnLiteral(v, Text, w).Word?
    ensures d.BytesV?
  {
    TypedText(v, d, w);
    if Compares(op, v) && OwnLiteral(v, Text, w).Word? {
      WordsAgree(op, v, d, w);
    } else {
      UnreadText(op, v, w);
      XIsHeld(w.lib);
    }
  }

  lemma XIsHeld(lib: Library)
    ensures Held(BytesV(Codes("x")), Text, lib)
  {
  }

  lemma WordsAgree(op: Cmp, v: Scalar, d: Value, w: World)
    requires Compares(op, v) && d.BytesV? && OwnLiteral(v, Text, w) == Word(d.s)
    ensures AnswersAlike(op, v, d, Text, w)
  {
    forall cell | Held(cell, Text, w.lib)
      ensures CellAgrees(op, cell, v, d, Text, w)
    {
      WordCell(op, cell.s, v, w);
    }
  }

  lemma TypedText(v: Scalar, d: Value, w: World)
    requires TypedAs(v, Text, d, w)
    ensures d.BytesV? && (OwnLiteral(v, Text, w).Word? ==> OwnLiteral(v, Text, w) == Word(d.s))
  {
  }

  lemma UnreadText(op: Cmp, v: Scalar, w: World)
    requires w.Valid() && !(Compares(op, v) && OwnLiteral(v, Text, w).Word?)
    ensures OwnAnswer(op, BytesV(Codes("x")), v, Text, w).Unknown?
  {
  }

  lemma WordCell(op: Cmp, s: seq<int>, v: Scalar, w: World)
    requires Compares(op, v) && OwnLiteral(v, Text, w).Word?
    ensures OwnAnswer(op, BytesV(s), v, Text, w) == Known(op.Holds(BytesOrder(s, OwnLiteral(v, Text, w).codes)))
  {
  }

  /** A column of integers beside a text, which R compares as texts. */
  ghost predicate ComparesTexts(v: Scalar, ty: Primitive, w: World) {
    IsCounted(ty) && OwnLiteral(v, ty, w).Word?
  }

  lemma TextAnswer(op: Cmp, i: int, v: Scalar, ty: Primitive, w: World)
    requires ComparesTexts(v, ty, w)
    ensures OwnAnswer(op, IntV(i), v, ty, w) ==
            if Compares(op, v) then Known(op.Holds(TextOrder(TextsOf(ty, w.r).of(i), TextOf(v)))) else Unknown
  {
    assert OwnLiteral(v, ty, w) == Word(Codes(TextOf(v)));
  }

  lemma TextIsRead(v: Scalar, n: int, ty: Primitive, w: World)
    requires TypedAs(v, ty, IntV(n), w) && ComparesTexts(v, ty, w) && !ty.Decimal?
    ensures ReadsAs(TextOf(v), n)
  {
  }

  lemma TextsAreKnown(v: Scalar, ty: Primitive, w: World)
    requires w.r.Valid() && ComparesTexts(v, ty, w)
    ensures TextsOf(ty, w.r).Contiguous() && (!ty.Decimal? ==> TextsOf(ty, w.r).Written())
  {
    TextsKnown(ty, w.r);
  }

  lemma TextsKnown(ty: Primitive, r: RSide)
    requires r.Valid() && (ty.Int? || ty.Long? || ty.Decimal?)
    ensures TextsOf(ty, r).Contiguous() && (!ty.Decimal? ==> TextsOf(ty, r).Written())
  {
    if ty.Int? {
      DigitsAreWritten(TextsOf(ty, r));
    }
  }

  lemma AgreementOfTexts(op: Cmp, v: Scalar, n: int, ty: Primitive, w: World)
    requires ComparesTexts(v, ty, w) && Held(IntV(n), ty, w.lib) && AnswersAlike(op, v, IntV(n), ty, w)
    ensures Compares(op, v) && TextAnswers(op, TextOf(v), n, TextsOf(ty, w.r))
  {
    TextAnswer(op, n, v, ty, w);
    forall i | TextsOf(ty, w.r).Holds(i)
      ensures op.Holds(TextOrder(TextsOf(ty, w.r).of(i), TextOf(v))) <==> op.Holds(IntOrder(i, n))
    {
      CountedIsHeld(i, ty, w.lib);
      TextAnswer(op, i, v, ty, w);
    }
  }

  lemma TextsAgree(op: Cmp, v: Scalar, n: int, ty: Primitive, w: World)
    requires ComparesTexts(v, ty, w) && Compares(op, v) && TextAnswers(op, TextOf(v), n, TextsOf(ty, w.r))
    ensures AnswersAlike(op, v, IntV(n), ty, w)
  {
    forall cell | Held(cell, ty, w.lib)
      ensures CellAgrees(op, cell, v, IntV(n), ty, w)
    {
      TextCell(op, cell, v, n, ty, w);
    }
  }

  lemma TextCell(op: Cmp, cell: Value, v: Scalar, n: int, ty: Primitive, w: World)
    requires ComparesTexts(v, ty, w) && Compares(op, v) && TextAnswers(op, TextOf(v), n, TextsOf(ty, w.r))
    requires Held(cell, ty, w.lib)
    ensures CellAgrees(op, cell, v, IntV(n), ty, w)
  {
    CountedIsHeld(cell.i, ty, w.lib);
    assert TextsOf(ty, w.r).Holds(cell.i);
    TextAnswer(op, cell.i, v, ty, w);
  }

  /** A column of integers that R compares as texts. */
  lemma TextsExactly(op: Cmp, v: Scalar, n: int, ty: Primitive, w: World)
    requires w.Valid() && TypedAs(v, ty, IntV(n), w) && ComparesTexts(v, ty, w) && Rendered(op, v, ty, w)
    ensures AnswersAlike(op, v, IntV(n), ty, w) <==> Compares(op, v) && TextPlaced(op, TextOf(v), n, TextsOf(ty, w.r))
  {
    TypedIsHeld(v, ty, IntV(n), w);
    RangeHolds(n, ty, w.lib);
    TextsAreKnown(v, ty, w);
    if !ty.Decimal? {
      TextIsRead(v, n, ty, w);
    }
    TextAnswersExactly(op, TextOf(v), n, TextsOf(ty, w.r));
    if AnswersAlike(op, v, IntV(n), ty, w) {
      AgreementOfTexts(op, v, n, ty, w);
    }
    if Compares(op, v) && TextAnswers(op, TextOf(v), n, TextsOf(ty, w.r)) {
      TextsAgree(op, v, n, ty, w);
    }
  }

  /** Two classes R has no comparison for, or a UUID column: R answers NA of everything. */
  lemma NothingAgrees(op: Cmp, v: Scalar, d: Value, ty: Primitive, w: World)
    requires Held(d, ty, w.lib) && (OwnLiteral(v, ty, w).Nothing? || ty.Uuid? || !Compares(op, v))
    ensures !AnswersAlike(op, v, d, ty, w)
  {
    assert OwnAnswer(op, d, v, ty, w).Unknown?;
  }

  lemma PlacedCases(op: Cmp, v: Scalar, d: Value, ty: Primitive, w: World)
    requires !IsNaN(d)
    ensures var own := OwnLiteral(v, ty, w);
            Placed(op, v, d, ty, w) <==>
            Compares(op, v) &&
            if own.At? && d.IntV? then
              !ty.Uuid? && AllCompared(v, ty, w.r) && NumberPlaced(op, d.i, own.x.v, RulerOf(v, ty, w.r))
            else if own.Word? && d.IntV? then !ty.Uuid? && TextPlaced(op, TextOf(v), d.i, TextsOf(ty, w.r))
            else if own.Word? then d.BytesV?
            else if own.At? && d.FloatV? then
              (if ty.Float? then SinglePlaced(op, NumericFloat(d.f, own.x)) else NumericFloat(d.f, own.x).Same?)
            else own.At? && d.BoolV?
  {
  }

  /**
   For every class of literal and type of column, whatever the operator: the
   compiled literal answers as R does of every value the column can hold exactly
   under the condition.
   */
  lemma AgreesExactly(op: Cmp, v: Scalar, d: Value, ty: Primitive, w: World)
    requires w.Valid() && TypedAs(v, ty, d, w) && Rendered(op, v, ty, w)
    ensures AnswersAlike(op, v, d, ty, w) <==> Placed(op, v, d, ty, w)
  {
    TypedIsHeld(v, ty, d, w);
    PlacedCases(op, v, d, ty, w);
    var own := OwnLiteral(v, ty, w);
    if own.Nothing? || ty.Uuid? || !Compares(op, v) {
      NothingAgrees(op, v, d, ty, w);
    } else if ty.Boolean? {
      BooleansAgree(op, v, d, w);
    } else if ty.Float? {
      TypedFloat(v, ty, d, w);
      SinglesExactly(op, v, d, w);
    } else if ty.Double? {
      DoublesAgree(op, v, d, w);
    } else if ty.Text? {
      WordsExactly(op, v, d, w);
    } else {
      IntegersExactly(op, v, d, ty, w);
    }
  }

  lemma IntegersExactly(op: Cmp, v: Scalar, d: Value, ty: Primitive, w: World)
    requires w.Valid() && TypedAs(v, ty, d, w) && Held(d, ty, w.lib) && Rendered(op, v, ty, w) && Compares(op, v)
    requires !OwnLiteral(v, ty, w).Nothing? && !ty.Boolean? && !IsFloat(ty) && !ty.Text? && !ty.Uuid?
    ensures d.IntV?
    ensures AnswersAlike(op, v, d, ty, w) <==>
            if OwnLiteral(v, ty, w).At? then
              AllCompared(v, ty, w.r) && NumberPlaced(op, d.i, OwnLiteral(v, ty, w).x.v, RulerOf(v, ty, w.r))
            else TextPlaced(op, TextOf(v), d.i, TextsOf(ty, w.r))
  {
    TypedIsCounted(v, ty, d, w);
    if OwnLiteral(v, ty, w).At? {
      CountedExactly(op, v, d.i, ty, w);
    } else {
      TextsExactly(op, v, d.i, ty, w);
    }
  }

  lemma TypedIsCounted(v: Scalar, ty: Primitive, d: Value, w: World)
    requires TypedAs(v, ty, d, w) && !ty.Boolean? && !IsFloat(ty) && !ty.Text? && !ty.Uuid?
    ensures IsCounted(ty) && d.IntV?
  {
  }
}
