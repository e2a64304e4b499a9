/**
 What the exact condition comes to for the literals people write: numbers, dates,
 instants, texts; sets of them; and inputs on which R and the compiled filter
 answer differently.
 */
module OwnCases {
  import opened Outcomes
  import opened Values
  import opened FilterTree
  import opened DecimalText
  import opened Literals
  import opened Iceberg
  import opened Compiler
  import opened Wire
  import opened OwnText
  import opened OwnValues

  // ---- numbers ----

  /** A number R wrote is a double, so the token of a whole one stands for a double too. */
  ghost predicate FromR(v: Scalar, lib: Library) {
    v.Numeric? && lib.number(v.token).Whole? ==> lib.toDouble(lib.number(v.token).n) == lib.number(v.token).n as real
  }

  /** A number for a column that is compared as integers, and has no other form, is typed as itself. */
  lemma NumberIsItself(v: Scalar, ty: Primitive, n: int, w: World)
    requires w.Valid() && FromR(v, w.lib) && TypedAs(v, ty, IntV(n), w)
    requires v.Numeric? && (ty.Int? || ty.Long? || ty.Date? || IsInstant(ty))
    ensures OwnLiteral(v, ty, w) == At(Finite(n as real))
  {
    AsInt64IsExact(JNumber(v.token), w.lib);
  }

  /** Numbers agree with whole columns, and with dates as numbers of days, whatever the operator. */
  lemma NumbersAgree(op: Cmp, v: Scalar, d: Value, ty: Primitive, w: World)
    requires w.Valid() && FromR(v, w.lib) && TypedAs(v, ty, d, w)
    requires v.Numeric? && (ty.Int? || ty.Date? || IsInteger64(ty, w))
    ensures AnswersAlike(op, v, d, ty, w)
  {
    NumberIsItself(v, ty, d.i, w);
    TypedIsHeld(v, ty, d, w);
    CountedExactly(op, v, d.i, ty, w);
  }

  /** R holds a decimal as the double nearest to it. */
  ghost predicate HoldsDecimals(ty: Primitive, w: World) {
    ty.Decimal? && forall i :: w.r.number(ty, i) == w.lib.nearest(Quotient(i, ty.scale))
  }

  /**
   A number for a decimal column is typed as the integer that its decimal is at the
   column's scale, exactly if there is one of the column's precision; and then it
   is that many tenths, hundredths and so on: itself if it is whole, and otherwise
   the double nearest to it.
   */
  lemma NumberIsScaled(v: Scalar, ty: Primitive, n: int, w: World)
    requires w.Valid() && v.Numeric? && ty.Decimal?
    ensures TypedAs(v, ty, IntV(n), w) <==> InRange(n, ty) && SpelledAt(w.lib.display(v.token), n, ty.scale)
    ensures TypedAs(v, ty, IntV(n), w) ==>
              match w.lib.number(v.token)
              case Whole(m) => n == m * Pow10(ty.scale)
              case Double(x) => x == w.lib.nearest(Quotient(n, ty.scale))
  {
    DatumExactly(JNumber(v.token), ty, IntV(n), w.lib);
    if TypedAs(v, ty, IntV(n), w) {
      DisplayedIsScaled(w.lib.display(v.token), w.lib.number(v.token), n, ty.scale, w.lib.nearest);
    }
  }

  lemma DisplayedIsScaled(text: string, x: Num, n: int, scale: nat, nearest: real -> real)
    requires Displayed(text, x, nearest) && SpelledAt(text, n, scale)
    ensures match x
            case Whole(m) => n == m * Pow10(scale)
            case Double(v) => v == nearest(Quotient(n, scale))
  {
    var d: Plain :| Displays(text, d, x, nearest);
    var e: Plain :| Spells(text, e) && IsAtScale(e, n, scale);
    SpellsIsRead(text, d);
    SpellsIsRead(text, e);
    SameQuotient(n, scale, d.Mantissa(), |d.frac|);
    if x.Whole? {
      WholeAtScale(x.n, n, scale, d.Mantissa(), |d.frac|);
    }
  }

  lemma WholeAtScale(m: int, n: int, scale: nat, mantissa: int, places: nat)
    requires SameNumber(m, 0, mantissa, places) && SameNumber(n, scale, mantissa, places)
    ensures n == m * Pow10(scale)
  {
    var s, p := Pow10(scale), Pow10(places);
    assert mantissa == m * p && n * p == mantissa * s;
    Swapped(m, p, s);
    Cancelled(n, m * s, p);
  }

  lemma Swapped(m: int, p: int, s: int)
    ensures (m * p) * s == (m * s) * p
  {
  }

  lemma ScaledIsOwn(v: Scalar, ty: Primitive, n: int, w: World)
    requires w.Valid() && HoldsDecimals(ty, w) && v.Numeric? && TypedAs(v, ty, IntV(n), w)
    ensures OwnLiteral(v, ty, w) == At(Finite(w.r.number(ty, n)))
  {
    NumberIsScaled(v, ty, n, w);
    ScaledIsNearest(w.lib.number(v.token), n, ty.scale, w.lib);
  }

  lemma ScaledIsNearest(x: Num, n: int, scale: nat, lib: Library)
    requires lib.Valid()
    requires match x case Whole(m) => n == m * Pow10(scale) case Double(v) => v == lib.nearest(Quotient(n, scale))
    ensures DoubleOf(x, lib) == lib.nearest(Quotient(n, scale))
  {
    if x.Whole? {
      assert Pow10(0) == 1;
      SameQuotient(x.n, 0, n, scale);
      assert Quotient(x.n, 0) == x.n as real;
    }
  }

  /**
   Numbers beside decimals, which R holds as doubles: equality agrees exactly if no
   neighbouring decimal of the column has the same double, and an order if none on
   the side it needs has.
   */
  lemma NumbersOfDecimals(op: Cmp, v: Scalar, n: int, ty: Primitive, w: World)
    requires w.Valid() && HoldsDecimals(ty, w) && v.Numeric? && TypedAs(v, ty, IntV(n), w)
    ensures AnswersAlike(op, v, IntV(n), ty, w) <==> SentBack(op, n, n, RulerOf(v, ty, w.r))
  {
    ScaledIsOwn(v, ty, n, w);
    TypedIsHeld(v, ty, IntV(n), w);
    RangeHolds(n, ty, w.lib);
    CountedExactly(op, v, n, ty, w);
    RulerIsOrdered(v, ty, w.r);
    PlacedIsSentBack(op, n, n, RulerOf(v, ty, w.r));
  }

  lemma Integer64IsItself(v: Scalar, ty: Primitive, n: int, w: World)
    requires w.Valid() && TypedAs(v, ty, IntV(n), w) && v.Integer64? && (ty.Int? || ty.Long?)
    ensures OwnLiteral(v, ty, w) == At(Finite(n as real))
  {
    AsInt64IsExact(JString(v.digits), w.lib);
  }

  /** An integer64 agrees with columns of integers. */
  lemma Integers64Agree(op: Cmp, v: Scalar, d: Value, ty: Primitive, w: World)
    requires w.Valid() && TypedAs(v, ty, d, w)
    requires v.Integer64? && (ty.Int? || IsInteger64(ty, w))
    ensures AnswersAlike(op, v, d, ty, w)
  {
    Integer64IsItself(v, ty, d.i, w);
    TypedIsHeld(v, ty, d, w);
    CountedExactly(op, v, d.i, ty, w);
  }

  /** No value of the column is on the far side of the number. */
  predicate Beyond(op: Cmp, n: int, ty: Primitive) {
    (n == Low(ty) && (op.Lt? || op.Gte?)) || (n == High(ty) && (op.Lte? || op.Gt?))
  }

  /**
   A bare number beside an instant is seconds to R, and is compiled as the unit the
   column is stored in: the two answer alike of every instant only if it is zero,
   or lies beyond them all.
   */
  lemma BareNumbersOfInstants(op: Cmp, v: Scalar, n: int, ty: Primitive, w: World)
    requires w.Valid() && FromR(v, w.lib) && TypedAs(v, ty, IntV(n), w)
    requires v.Numeric? && IsInstant(ty)
    ensures AnswersAlike(op, v, IntV(n), ty, w) <==> n == 0 || Beyond(op, n, ty)
  {
    NumberIsItself(v, ty, n, w);
    TypedIsHeld(v, ty, IntV(n), w);
    CountedExactly(op, v, n, ty, w);
    CountedIsHeld(n, ty, w.lib);
    RulerIsSmall(n, v, ty, w.r);
    SmallIsFar(op, n, RulerOf(v, ty, w.r));
  }

  /** The number of seconds of an instant is on its side of the epoch, and far smaller than its number of units. */
  predicate Small(x: real, i: int) {
    if i > 0 then 0.0 < 2.0 * x < i as real else if i < 0 then i as real < 2.0 * x < 0.0 else x == 0.0
  }

  lemma InstantIsSmall(i: int, ty: Primitive, r: RSide)
    requires r.Valid() && IsInstant(ty)
    ensures Small(r.number(ty, i), i)
  {
    assert Near(r.number(ty, i) * PerSecond(ty), i);
  }

  lemma RulerIsSmall(n: int, v: Scalar, ty: Primitive, r: RSide)
    requires r.Valid() && IsInstant(ty)
    ensures var number := RulerOf(v, ty, r).number;
            Small(number(n - 1), n - 1) && Small(number(n), n) && Small(number(n + 1), n + 1)
  {
    InstantIsSmall(n - 1, ty, r);
    InstantIsSmall(n, ty, r);
    InstantIsSmall(n + 1, ty, r);
  }

  lemma SmallIsFar(op: Cmp, n: int, ruler: Ruler)
    requires Small(ruler.number(n - 1), n - 1) && Small(ruler.number(n), n) && Small(ruler.number(n + 1), n + 1)
    requires ruler.low < 0 < ruler.high && ruler.low <= n <= ruler.high
    ensures NumberPlaced(op, n, n as real, ruler) <==>
            n == 0 || (n == ruler.low && (op.Lt? || op.Gte?)) || (n == ruler.high && (op.Lte? || op.Gt?))
  {
  }

  // ---- dates and instants ----

  /** The library reads the days and the seconds that R writes. */
  ghost predicate ReadsDays(w: World) {
    forall k :: FitsInt32(k) ==> w.lib.parse(Primitive.Date, w.calendar.day(k)) == Some(k)
  }

  /** How many of the units an instant is stored in make a microsecond. */
  function PerMicro(ty: Primitive): int { if ty.Timestamp? || ty.Timestamptz? then 1 else 1000 }

  /** What the instant sent for a number of seconds stands for: whole microseconds, in the column's units. */
  function Stored(seconds: real, ty: Primitive): int { Micros(seconds) * PerMicro(ty) }

  /** With the mark of its zone, and for a column without zones without it. */
  ghost predicate ReadsInstants(ty: Primitive, w: World) {
    forall seconds: real :: FitsInt64(Stored(seconds, ty)) ==> w.lib.parse(ty, Marked(seconds, ty, w)) == Some(Stored(seconds, ty))
  }

  function Marked(seconds: real, ty: Primitive, w: World): string {
    var text := IsoUtc(seconds, w.calendar);
    if ty.Timestamp? || ty.TimestampNs? then text[..|text| - 1] else text
  }

  lemma MarkIsTrimmed(seconds: real, calendar: Calendar)
    ensures var text := IsoUtc(seconds, calendar); TrimZ(text) == text[..|text| - 1]
  {
    IsoUtcIsNearest(seconds, calendar);
    var text := IsoUtc(seconds, calendar);
    var whole: int, frac: string :| Wire.Writes(text, whole, frac, Micros(seconds), calendar);
    var bare := calendar.second(whole) + "." + frac;
    assert bare[|bare| - 1] == frac[5];
    TrimZIs(bare);
    assert text == bare + "Z" && text[..|text| - 1] == bare;
  }

  /** A date is compiled as the day it falls in: that answers alike of `<=` and `>`, and of the rest if it is a whole day. */
  lemma DatesExactly(op: Cmp, days: real, w: World)
    requires w.Valid() && ReadsDays(w) && FitsInt32(days.Floor)
    ensures TypedAs(Scalar.Date(days), Primitive.Date, IntV(days.Floor), w)
    ensures AnswersAlike(op, Scalar.Date(days), IntV(days.Floor), Primitive.Date, w) <==>
            op.Lte? || op.Gt? || IsWhole(days)
  {
    var v, ty, n := Scalar.Date(days), Primitive.Date, days.Floor;
    DateIsTyped(days, w);
    CountedExactly(op, v, n, ty, w);
    DayPlaced(op, days, w.r);
  }

  lemma DateIsTyped(days: real, w: World)
    requires ReadsDays(w) && FitsInt32(days.Floor)
    ensures TypedAs(Scalar.Date(days), Primitive.Date, IntV(days.Floor), w)
    ensures OwnLiteral(Scalar.Date(days), Primitive.Date, w) == At(Finite(days))
  {
  }

  lemma DayPlaced(op: Cmp, days: real, r: RSide)
    requires r.Valid()
    ensures NumberPlaced(op, days.Floor, days, RulerOf(Scalar.Date(days), Primitive.Date, r)) <==>
            op.Lte? || op.Gt? || IsWhole(days)
  {
  }

  /** No neighbour of the integer has its number, in the range. */
  predicate AloneIn(n: int, ruler: Ruler) {
    (n > ruler.low ==> ruler.number(n - 1) < ruler.number(n)) && (n < ruler.high ==> ruler.number(n) < ruler.number(n + 1))
  }

  /** Where the integer sent back for one that was read must lie of it. */
  predicate SentBack(op: Cmp, n: int, i: int, ruler: Ruler) {
    match op
    case Eq => n == i && AloneIn(i, ruler)
    case Ne => n == i && AloneIn(i, ruler)
    case Lt => ruler.number(n) == ruler.number(i) && (n > ruler.low ==> ruler.number(n - 1) < ruler.number(n))
    case Gte => ruler.number(n) == ruler.number(i) && (n > ruler.low ==> ruler.number(n - 1) < ruler.number(n))
    case Lte => ruler.number(n) == ruler.number(i) && (n < ruler.high ==> ruler.number(n) < ruler.number(n + 1))
    case Gt => ruler.number(n) == ruler.number(i) && (n < ruler.high ==> ruler.number(n) < ruler.number(n + 1))
  }

  lemma PlacedIsSentBack(op: Cmp, n: int, i: int, ruler: Ruler)
    requires ruler.Ordered() && ruler.low <= n <= ruler.high && ruler.low <= i <= ruler.high
    ensures NumberPlaced(op, n, ruler.number(i), ruler) <==> SentBack(op, n, i, ruler)
  {
    assert n - 1 >= i ==> ruler.number(i) <= ruler.number(n - 1);
    assert n + 1 <= i ==> ruler.number(n + 1) <= ruler.number(i);
    assert (n <= i ==> ruler.number(n) <= ruler.number(i)) && (i <= n ==> ruler.number(i) <= ruler.number(n));
  }

  /**
   An instant read out of a table and compared with its column, of any resolution:
   equality agrees exactly if the instant sent is the one stored and R tells it
   from its neighbours; an order, if the one sent is the first or the last that R
   holds as that number.
   */
  lemma ReadBackInstantsExactly(op: Cmp, i: int, ty: Primitive, w: World)
    requires w.Valid() && IsInstant(ty) && ReadsInstants(ty, w)
    requires FitsInt64(i) && FitsInt64(Stored(w.r.number(ty, i), ty))
    ensures var v, n := Scalar.Instant(w.r.number(ty, i)), Stored(w.r.number(ty, i), ty);
            && TypedAs(v, ty, IntV(n), w)
            && (AnswersAlike(op, v, IntV(n), ty, w) <==> SentBack(op, n, i, RulerOf(v, ty, w.r)))
  {
    var x := w.r.number(ty, i);
    InstantIsTyped(x, ty, w);
    InstantsExactly(op, x, Stored(x, ty), ty, w);
    InstantIsSentBack(op, Stored(x, ty), i, ty, w.r);
  }

  lemma InstantsExactly(op: Cmp, x: real, n: int, ty: Primitive, w: World)
    requires w.Valid() && IsInstant(ty) && FitsInt64(n)
    ensures AnswersAlike(op, Scalar.Instant(x), IntV(n), ty, w) <==>
            NumberPlaced(op, n, x, RulerOf(Scalar.Instant(x), ty, w.r))
  {
    CountedExactly(op, Scalar.Instant(x), n, ty, w);
  }

  lemma InstantIsSentBack(op: Cmp, n: int, i: int, ty: Primitive, r: RSide)
    requires r.Valid() && IsInstant(ty) && FitsInt64(n) && FitsInt64(i)
    ensures var x := r.number(ty, i);
            var ruler := RulerOf(Scalar.Instant(x), ty, r);
            NumberPlaced(op, n, x, ruler) <==> SentBack(op, n, i, ruler)
  {
    var v := Scalar.Instant(r.number(ty, i));
    RulerIsOrdered(v, ty, r);
    PlacedIsSentBack(op, n, i, RulerOf(v, ty, r));
  }

  lemma InstantIsTyped(seconds: real, ty: Primitive, w: World)
    requires IsInstant(ty) && ReadsInstants(ty, w) && FitsInt64(Stored(seconds, ty))
    ensures TypedAs(Scalar.Instant(seconds), ty, IntV(Stored(seconds, ty)), w)
  {
    MarkIsTrimmed(seconds, w.calendar);
    TextForInstants(IsoUtc(seconds, w.calendar), ty, Stored(seconds, ty), w.lib);
  }

  lemma TextForInstants(s: string, ty: Primitive, n: int, lib: Library)
    requires IsInstant(ty) && lib.parse(ty, if ty.Timestamp? || ty.TimestampNs? then TrimZ(s) else s) == Some(n)
    ensures TypedLiteral(JString(s), ty, lib) == Ok(IntV(n))
  {
    assert Datum(JString(s), ty, lib) == Literals.Instant(JString(s), ty, lib);
  }

  /** A whole number of microseconds that R holds to within half a microsecond and tells from its neighbours. */
  ghost predicate Sharp(i: int, ty: Primitive, r: RSide) {
    && i % PerMicro(ty) == 0
    && -1.0 < 2.0 * (r.number(ty, i) * 1000000.0 - (i / PerMicro(ty)) as real) < 1.0
    && r.number(ty, i - 1) < r.number(ty, i) < r.number(ty, i + 1)
  }

  /** Such an instant is compiled as the very value stored, and answers alike whatever the operator. */
  lemma ReadBackInstantsAgree(op: Cmp, i: int, ty: Primitive, w: World)
    requires w.Valid() && IsInstant(ty) && ReadsInstants(ty, w) && FitsInt64(i) && Sharp(i, ty, w.r)
    ensures var v := Scalar.Instant(w.r.number(ty, i));
            TypedAs(v, ty, IntV(i), w) && AnswersAlike(op, v, IntV(i), ty, w)
  {
    SharpIsRounded(i, ty, w.r);
    ReadBackInstantsExactly(op, i, ty, w);
  }

  lemma SharpIsRounded(i: int, ty: Primitive, r: RSide)
    requires Sharp(i, ty, r)
    ensures Stored(r.number(ty, i), ty) == i
  {
    assert Micros(r.number(ty, i)) == i / PerMicro(ty);
  }

  /** On a nanosecond column the instant one nanosecond after the epoch, read and sent back, is the epoch: `ts == x` loses its row. */
  lemma NanosecondIsLost(ty: Primitive, w: World)
    requires w.Valid() && (ty.TimestampNs? || ty.TimestamptzNs?) && ReadsInstants(ty, w)
    ensures var v, d, cell := Scalar.Instant(w.r.number(ty, 1)), IntV(0), IntV(1);
            && TypedAs(v, ty, d, w) && Held(cell, ty, w.lib)
            && !Eq.Holds(NumericOrder(cell, d)) && OwnAnswer(Eq, cell, v, ty, w) == True
  {
    FirstNanosecond(ty, w.r);
    InstantIsTyped(w.r.number(ty, 1), ty, w);
    EqualsItself(1, ty, w);
  }

  /** To R an instant is equal to its own number of seconds. */
  lemma EqualsItself(i: int, ty: Primitive, w: World)
    requires IsInstant(ty)
    ensures OwnAnswer(Eq, IntV(i), Scalar.Instant(w.r.number(ty, i)), ty, w) == True
  {
    CountedAnswer(Eq, i, Scalar.Instant(w.r.number(ty, i)), ty, w);
  }

  lemma FirstNanosecond(ty: Primitive, r: RSide)
    requires r.Valid() && (ty.TimestampNs? || ty.TimestamptzNs?)
    ensures Stored(r.number(ty, 1), ty) == 0
  {
    assert Near(r.number(ty, 1) * PerSecond(ty), 1);
    FarUnderAMicrosecond(r.number(ty, 1));
  }

  lemma FarUnderAMicrosecond(x: real)
    requires 0.0 < x * 1000000000.0 < 2.0
    ensures Micros(x) == 0
  {
    assert 0.0 < x * 1000000.0 < 0.5;
  }

  // ---- sets ----

  /** `cell %in% values`: some value is equal to it. */
  ghost predicate OwnIn(cell: Value, vs: seq<Scalar>, ty: Primitive, w: World) {
    exists v :: v in vs && OwnAnswer(Eq, cell, v, ty, w).True?
  }

  ghost predicate Among(cell: Value, ds: seq<Value>) {
    exists d :: d in ds && !IsNaN(cell) && !IsNaN(d) && NumericOrder(cell, d).Same?
  }

  /** Whatever the column holds, it is in R's set exactly if it is in the compiled one. */
  ghost predicate SetsAlike(vs: seq<Scalar>, ds: seq<Value>, ty: Primitive, w: World) {
    forall cell :: Held(cell, ty, w.lib) ==> (OwnIn(cell, vs, ty, w) <==> Among(cell, ds))
  }

  ghost predicate AllTyped(vs: seq<Scalar>, ds: seq<Value>, ty: Primitive, w: World) {
    |vs| == |ds| && forall k :: 0 <= k < |vs| ==> TypedAs(vs[k], ty, ds[k], w)
  }

  /** Values that compare the same are answered the same. */
  lemma SameIsAnsweredSame(a: Value, b: Value, v: Scalar, ty: Primitive, w: World)
    requires Held(a, ty, w.lib) && Held(b, ty, w.lib) && NumericOrder(a, b).Same?
    ensures OwnAnswer(Eq, a, v, ty, w) == OwnAnswer(Eq, b, v, ty, w)
  {
    if a.BytesV? {
      BytesOrderSame(a.s, b.s);
    }
  }

  /** Each compiled literal is, to R, one of the values. */
  ghost predicate EachIsIn(vs: seq<Scalar>, ds: seq<Value>, ty: Primitive, w: World) {
    forall d :: d in ds ==> OwnIn(d, vs, ty, w)
  }

  /** Nothing the column holds that R counts among the values is missing. */
  ghost predicate NoneMissing(vs: seq<Scalar>, ds: seq<Value>, ty: Primitive, w: World) {
    forall cell :: Held(cell, ty, w.lib) && OwnIn(cell, vs, ty, w) ==> Among(cell, ds)
  }

  /**
   A set agrees exactly if each compiled literal is, to R, one of the values, and
   nothing the column holds that R counts among the values is missing from it.
   */
  lemma SetsExactly(vs: seq<Scalar>, ds: seq<Value>, ty: Primitive, w: World)
    requires w.Valid() && AllTyped(vs, ds, ty, w)
    ensures SetsAlike(vs, ds, ty, w) <==> EachIsIn(vs, ds, ty, w) && NoneMissing(vs, ds, ty, w)
  {
    LiteralsAreHeld(vs, ds, ty, w);
    if EachIsIn(vs, ds, ty, w) && NoneMissing(vs, ds, ty, w) {
      SetsSuffice(vs, ds, ty, w);
    }
  }

  lemma SetsSuffice(vs: seq<Scalar>, ds: seq<Value>, ty: Primitive, w: World)
    requires (forall d :: d in ds ==> Held(d, ty, w.lib)) && EachIsIn(vs, ds, ty, w) && NoneMissing(vs, ds, ty, w)
    ensures SetsAlike(vs, ds, ty, w)
  {
    forall cell | Held(cell, ty, w.lib)
      ensures OwnIn(cell, vs, ty, w) <==> Among(cell, ds)
    {
      if Among(cell, ds) {
        AmongIsIn(cell, vs, ds, ty, w);
      }
    }
  }

  lemma LiteralsAreHeld(vs: seq<Scalar>, ds: seq<Value>, ty: Primitive, w: World)
    requires w.Valid() && AllTyped(vs, ds, ty, w)
    ensures forall d :: d in ds ==> Held(d, ty, w.lib) && Among(d, ds)
  {
    forall d | d in ds
      ensures Held(d, ty, w.lib) && Among(d, ds)
    {
      var k :| 0 <= k < |ds| && ds[k] == d;
      TypedIsHeld(vs[k], ty, d, w);
      HeldIsItself(d, ty, w.lib);
    }
  }

  lemma AmongIsIn(cell: Value, vs: seq<Scalar>, ds: seq<Value>, ty: Primitive, w: World)
    requires Held(cell, ty, w.lib) && forall d :: d in ds ==> Held(d, ty, w.lib)
    requires EachIsIn(vs, ds, ty, w) && Among(cell, ds)
    ensures OwnIn(cell, vs, ty, w)
  {
    var d :| d in ds && !IsNaN(cell) && !IsNaN(d) && NumericOrder(cell, d).Same?;
    var v :| v in vs && OwnAnswer(Eq, d, v, ty, w).True?;
    SameIsAnsweredSame(cell, d, v, ty, w);
  }

  lemma HeldIsItself(d: Value, ty: Primitive, lib: Library)
    requires Held(d, ty, lib)
    ensures NumericOrder(d, d).Same?
  {
    if d.BytesV? {
      BytesOrderSame(d.s, d.s);
    }
  }

  /** Of numbers for singles: exactly if each, rounded, is itself one of the numbers. */
  lemma SetsOfSinglesExactly(vs: seq<Scalar>, ds: seq<Value>, w: World)
    requires w.Valid() && AllTyped(vs, ds, Float, w)
    ensures SetsAlike(vs, ds, Float, w) <==> EachIsIn(vs, ds, Float, w)
  {
    SetsExactly(vs, ds, Float, w);
    forall cell | Held(cell, Float, w.lib) && OwnIn(cell, vs, Float, w)
      ensures Among(cell, ds)
    {
      var v :| v in vs && OwnAnswer(Eq, cell, v, Float, w).True?;
      var k :| 0 <= k < |vs| && vs[k] == v;
      SingleIsNarrowed(cell, v, ds[k], w);
      assert ds[k] in ds;
    }
  }

  /** A single that equals a number equals the number rounded. */
  lemma SingleIsNarrowed(cell: Value, v: Scalar, d: Value, w: World)
    requires w.Valid() && TypedAs(v, Float, d, w) && Held(cell, Float, w.lib) && OwnAnswer(Eq, cell, v, Float, w).True?
    ensures NumericOrder(cell, d).Same?
  {
    TypedFloat(v, Float, d, w);
    SingleCell(Eq, cell.f, v, Float, w);
  }

  /** Values each of which agrees make a set that does. */
  lemma EqualsMakeSets(vs: seq<Scalar>, ds: seq<Value>, ty: Primitive, w: World)
    requires w.Valid() && AllTyped(vs, ds, ty, w)
    requires forall k :: 0 <= k < |vs| ==> AnswersAlike(Eq, vs[k], ds[k], ty, w)
    ensures SetsAlike(vs, ds, ty, w)
  {
    forall cell | Held(cell, ty, w.lib)
      ensures OwnIn(cell, vs, ty, w) <==> Among(cell, ds)
    {
      forall k | 0 <= k < |vs|
        ensures OwnAnswer(Eq, cell, vs[k], ty, w).True? <==> NumericOrder(cell, ds[k]).Same?
      {
        assert AnswersAlike(Eq, vs[k], ds[k], ty, w);
      }
      SameMembers(vs, ds, v => OwnAnswer(Eq, cell, v, ty, w).True?, d => !IsNaN(d) && NumericOrder(cell, d).Same?);
    }
  }

  lemma SameMembers(vs: seq<Scalar>, ds: seq<Value>, mine: Scalar -> bool, theirs: Value -> bool)
    requires |vs| == |ds| && forall k :: 0 <= k < |vs| ==> (mine(vs[k]) <==> theirs(ds[k]))
    ensures (exists v :: v in vs && mine(v)) <==> (exists d :: d in ds && theirs(d))
  {
    if v :| v in vs && mine(v) {
      var k :| 0 <= k < |vs| && vs[k] == v;
      assert ds[k] in ds;
    }
    if d :| d in ds && theirs(d) {
      var k :| 0 <= k < |ds| && ds[k] == d;
      assert vs[k] in vs;
    }
  }

  // ---- where they differ ----

  /** `ts > 1700000000`: 2001-09-09 is later than that many microseconds, and earlier than that many seconds. */
  lemma SecondsAgainstMicroseconds(token: string, w: World)
    requires w.Valid() && w.lib.number(token) == Whole(1700000000) && w.lib.toDouble(1700000000) == 1700000000.0
    ensures var v, d, cell := Numeric(token), IntV(1700000000), IntV(1000000000000000);
            && TypedAs(v, Timestamp, d, w) && Held(cell, Timestamp, w.lib)
            && Gt.Holds(NumericOrder(cell, d)) && OwnAnswer(Gt, cell, v, Timestamp, w) == False
  {
    LongAgo(w.r);
    SecondsOf2023(token, w);
    CountedAnswer(Gt, 1000000000000000, Numeric(token), Timestamp, w);
  }

  lemma SecondsOf2023(token: string, w: World)
    requires w.lib.number(token) == Whole(1700000000) && w.lib.toDouble(1700000000) == 1700000000.0
    ensures TypedAs(Numeric(token), Timestamp, IntV(1700000000), w)
    ensures OwnLiteral(Numeric(token), Timestamp, w) == At(Finite(1700000000.0))
  {
  }

  lemma LongAgo(r: RSide)
    requires r.Valid()
    ensures r.number(Timestamp, 1000000000000000) < 1700000000.0
  {
    assert Near(r.number(Timestamp, 1000000000000000) * PerSecond(Timestamp), 1000000000000000);
  }

  /** `id < "10"`: 9 is less than 10, and its text does not come before that of 10. */
  lemma TextAgainstNumber(ty: Primitive, w: World)
    requires w.Valid() && (ty.Int? || (ty.Long? && !w.r.bit64))
    ensures var v, d, cell := Character("10"), IntV(10), IntV(9);
            && TypedAs(v, ty, d, w) && Held(cell, ty, w.lib)
            && Lt.Holds(NumericOrder(cell, d)) && OwnAnswer(Lt, cell, v, ty, w) == False
  {
    NineIsWritten(ty, w.r);
    NineAgainstTen(ty, w);
  }

  lemma NineAgainstTen(ty: Primitive, w: World)
    requires w.r.text(ty, 9) == IntText(9) && (ty.Int? || (ty.Long? && !w.r.bit64))
    ensures TypedAs(Character("10"), ty, IntV(10), w) && OwnAnswer(Lt, IntV(9), Character("10"), ty, w) == False
  {
    SmallTexts();
    TenIsTyped(ty, w);
    FirstDecides("9", "10");
    WordAnswer(Lt, 9, Character("10"), ty, w);
  }

  lemma NineIsWritten(ty: Primitive, r: RSide)
    requires r.Valid() && (ty.Int? || ty.Long?)
    ensures r.text(ty, 9) == IntText(9)
  {
    if ty.Long? {
      WrittenIs(TextsOf(Long, r), 9);
    }
  }

  lemma TenIsTyped(ty: Primitive, w: World)
    requires ty.Int? || ty.Long?
    ensures TypedAs(Character("10"), ty, IntV(10), w)
  {
    SmallTexts();
    IntTextIsRead(10);
  }

  lemma WordAnswer(op: Cmp, i: int, v: Scalar, ty: Primitive, w: World)
    requires (ty.Int? || (ty.Long? && !w.r.bit64)) && v.Character?
    ensures OwnAnswer(op, IntV(i), v, ty, w) == Known(op.Holds(TextOrder(w.r.text(ty, i), v.s)))
  {
  }

  /** `x == 1 + 2^-30` on singles: the compiled literal equals a single that the number does not. */
  lemma NumberBetweenSingles(token: string, w: World)
    requires w.Valid() && w.lib.number(token) == Num.Double(1.0 + 1.0 / 1073741824.0)
    ensures var v, d := Numeric(token), FloatV(w.lib.narrow(1.0 + 1.0 / 1073741824.0));
            && TypedAs(v, Float, d, w) && Held(d, Float, w.lib)
            && Eq.Holds(NumericOrder(d, d)) && OwnAnswer(Eq, d, v, Float, w) == False
  {
    var x := 1.0 + 1.0 / 1073741824.0;
    var f := w.lib.narrow(x);
    assert OwnLiteral(Numeric(token), Float, w) == At(Finite(x));
    var steps := x * 8388608.0;
    assert steps == 8388608.0 + 1.0 / 128.0 && steps.Floor == 8388608;
    assert !w.lib.single(Finite(x));
    SingleCell(Eq, f, Numeric(token), Float, w);
  }

  /** `price == as.integer64(5)` of decimals with two places: R makes 5 of 5.25 before it compares. */
  lemma DecimalAgainstInteger64(precision: nat, w: World)
    requires precision > 2 && w.r.number(Decimal(precision, 2), 525) == 5.25
    ensures var v, ty, d, cell := Integer64("5"), Decimal(precision, 2), IntV(500), IntV(525);
            && TypedAs(v, ty, d, w) && Held(cell, ty, w.lib)
            && !Eq.Holds(NumericOrder(cell, d)) && OwnAnswer(Eq, cell, v, ty, w) == True
  {
    FiveIsTyped(precision, w);
    CountedAnswer(Eq, 525, Integer64("5"), Decimal(precision, 2), w);
    assert Truncated(5.25) == 5.0;
  }

  lemma FiveIsTyped(precision: nat, w: World)
    requires precision > 2
    ensures TypedAs(Integer64("5"), Decimal(precision, 2), IntV(500), w)
    ensures Held(IntV(525), Decimal(precision, 2), w.lib)
    ensures OwnLiteral(Integer64("5"), Decimal(precision, 2), w) == At(Finite(5.0))
  {
    FiveIsFive();
    FiveIsDecimal(precision, w.lib);
    InThreeDigits(precision);
    DecimalIsTyped("5", 500, precision, 2, w);
    Integer64IsRead("5", 5, Decimal(precision, 2), w);
  }

  lemma DecimalIsTyped(s: string, m: int, precision: nat, scale: nat, w: World)
    requires DecimalDatum(JString(s), precision, scale, w.lib) == Ok(IntV(m))
    ensures TypedAs(Integer64(s), Decimal(precision, scale), IntV(m), w)
  {
    TextForDecimals(s, m, precision, scale, w.lib);
    assert ToJson(Integer64(s), w.calendar) == Ok(JString(s));
  }

  lemma TextForDecimals(s: string, m: int, precision: nat, scale: nat, lib: Library)
    requires DecimalDatum(JString(s), precision, scale, lib) == Ok(IntV(m))
    ensures TypedLiteral(JString(s), Decimal(precision, scale), lib) == Ok(IntV(m))
  {
    assert Datum(JString(s), Decimal(precision, scale), lib) == DecimalDatum(JString(s), precision, scale, lib);
  }

  lemma Integer64IsRead(s: string, n: int, ty: Primitive, w: World)
    requires ParseInteger(Trim(s)) == Some(n) && FitsInt64(n) && ty.Decimal?
    ensures OwnLiteral(Integer64(s), ty, w) == At(Finite(n as real))
  {
    assert Integer64Number(s, w.lib) == Some(n as real);
  }

  lemma FiveIsDecimal(precision: nat, lib: Library)
    requires precision > 2
    ensures DecimalDatum(JString("5"), precision, 2, lib) == Ok(IntV(500))
  {
    FiveIsSpelled();
    FiveIsNatural();
    InThreeDigits(precision);
    WholeIsRescaled("5", "5", 2);
    Mantissas("5", precision, 2, lib);
  }

  lemma Mantissas(s: string, precision: nat, scale: nat, lib: Library)
    requires Rescale(s, scale).Ok?
    ensures var m := RescaledMantissa(s, scale);
            -Pow10(precision) < m < Pow10(precision) ==> DecimalDatum(JString(s), precision, scale, lib) == Ok(IntV(m))
  {
  }

  /** A text of digits is as many at any scale. */
  lemma WholeIsRescaled(s: string, digits: string, scale: nat)
    requires Spells(Trim(s), Plain(false, digits, "")) && Digits(digits)
    ensures Rescale(s, scale).Ok? && RescaledMantissa(s, scale) == Natural(digits) * Pow10(scale)
  {
    var d := Plain(false, digits, "");
    RescaleSucceedsExactly(s, scale);
    RescaledDenotesTheSame(s, scale, d);
    assert digits + "" == digits && Pow10(0) == 1;
  }

  lemma InThreeDigits(precision: nat)
    requires precision > 2
    ensures 525 < Pow10(precision) && Pow10(2) == 100
  {
    PowersGrow(3, precision);
    assert Pow10(2) == 100 && Pow10(3) == 1000;
  }

  lemma FiveIsFive()
    ensures ParseInteger(Trim("5")) == Some(5)
  {
    DigitText(5);
    assert IntText(5) == "5";
    IntTextIsRead(5);
  }

  lemma FiveIsSpelled()
    ensures Spells(Trim("5"), Plain(false, "5", ""))
  {
    var t := Trim("5");
    assert t == "5" && "" + ("5" + "" + "") == t;
    assert SpelledWith(t, Plain(false, "5", ""), "", "");
  }

  lemma FiveIsNatural()
    ensures Natural("5") == 5
  {
    DigitText(5);
    assert "5" == IntText(5) == NatText(5);
  }
}
