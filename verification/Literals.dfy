/** Typing a JSON value by the column it is compared with. */
module Literals {
  import opened Outcomes
  import opened Values
  import opened FilterTree
  import opened DecimalText

  const INT64_LIMIT: int := 0x8000_0000_0000_0000
  const INT32_LIMIT: int := 0x8000_0000

  datatype LiteralError =
    | AgainstNA | Mismatch | OutsideInt64 | OutsideInt32 | Unparsable
    | BadDecimal(why: DecimalError) | TooPrecise | Unsupported

  /** A JSON number as the parser holds it: an integer of 64 bits, or a double. */
  datatype Num = Whole(n: int) | Double(v: real)

  /**
   The library code the compiler calls. `nearest` rounds a number to a double and
   `toDouble` an integer, `narrow` rounds a double to a single, `single` recognises
   the singles, `display` is a number's decimal text, and `parse` reads dates,
   instants and UUIDs in the unit of the column type.
   */
  datatype Library = Library(
    number: string -> Num,
    nearest: real -> real,
    toDouble: int -> real,
    narrow: real -> Number,
    single: Number -> bool,
    display: string -> string,
    parse: (Primitive, string) -> Option<int>,
    utf8: string -> seq<int>
  ) {
    ghost predicate Valid() {
      && (forall t :: number(t).Whole? ==> -INT64_LIMIT <= number(t).n < 2 * INT64_LIMIT)
      && (forall n :: n >= INT64_LIMIT ==> toDouble(n) >= INT64_LIMIT as real)
      && (forall n :: toDouble(n) == nearest(n as real))
      && (forall t :: Displayed(display(t), number(t), nearest))
      && (forall v :: single(narrow(v)))
      && (forall v, x: Number :: single(x) ==> !Between(x, Finite(v), narrow(v)))
      && (forall v, x: Number :: single(x) && NumericFloat(x, Finite(v)).Same? ==> NumericFloat(narrow(v), Finite(v)).Same?)
      && (forall x: real :: 1.0 <= x < 2.0 && single(Finite(x)) ==> IsWhole(x * 8388608.0))
      && (forall ty, t :: parse(ty, t).Some? ==> InRange(parse(ty, t).value, ty))
    }
  }

  ghost predicate Displayed(text: string, x: Num, nearest: real -> real) {
    exists d: Plain :: Displays(text, d, x, nearest)
  }

  /** The text is a decimal: the integer itself, or one that the double is the nearest to. */
  ghost predicate Displays(text: string, d: Plain, x: Num, nearest: real -> real) {
    && Digits(d.whole) && Digits(d.frac) && Spells(text, d)
    && match x
       case Whole(n) => SameNumber(n, 0, d.Mantissa(), |d.frac|)
       case Double(v) => nearest(Quotient(d.Mantissa(), |d.frac|)) == v
  }

  /** m / 10^k */
  function Quotient(m: int, k: nat): real { m as real / Pow10(k) as real }

  lemma SameQuotient(m1: int, k1: nat, m2: int, k2: nat)
    ensures SameNumber(m1, k1, m2, k2) <==> Quotient(m1, k1) == Quotient(m2, k2)
  {
    var p1, p2 := Pow10(k1) as real, Pow10(k2) as real;
    assert (m1 * Pow10(k2)) as real == m1 as real * p2 && (m2 * Pow10(k1)) as real == m2 as real * p1;
    CrossMultiply(m1 as real, p1, m2 as real, p2);
  }

  lemma CrossMultiply(m1: real, p1: real, m2: real, p2: real)
    requires p1 > 0.0 && p2 > 0.0
    ensures m1 * p2 == m2 * p1 <==> m1 / p1 == m2 / p2
  {
    var q1, q2 := m1 / p1, m2 / p2;
    assert q1 * p1 == m1 && q2 * p2 == m2;
    assert m1 * p2 == q1 * (p1 * p2) && m2 * p1 == q2 * (p1 * p2);
    assert p1 * p2 > 0.0;
    SameFactor(q1, q2, p1 * p2);
  }

  lemma SameFactor(q1: real, q2: real, p: real)
    requires p > 0.0
    ensures q1 * p == q2 * p <==> q1 == q2
  {
    assert (q1 - q2) * p == q1 * p - q2 * p;
    assert q1 - q2 > 0.0 ==> (q1 - q2) * p > 0.0;
    assert q1 - q2 < 0.0 ==> (q1 - q2) * p < 0.0;
  }

  predicate IsWhole(x: real) { x == x.Floor as real }

  predicate FitsInt64(n: int) { -INT64_LIMIT <= n < INT64_LIMIT }

  predicate FitsInt32(n: int) { -INT32_LIMIT <= n < INT32_LIMIT }

  /** What a column stored as integers can hold. */
  predicate InRange(n: int, ty: Primitive) {
    match ty
    case Int => FitsInt32(n)
    case Date => FitsInt32(n)
    case Decimal(precision, _) => -Pow10(precision) < n < Pow10(precision)
    case Uuid => true
    case _ => FitsInt64(n)
  }

  /** Strictly between a and b, whichever is the larger. */
  predicate Between(x: Number, a: Number, b: Number) {
    || (NumericFloat(x, a).More? && NumericFloat(x, b).Less?)
    || (NumericFloat(x, a).Less? && NumericFloat(x, b).More?)
  }

  /** Rust's str::parse for a signed integer, before its range check. */
  function ParseInteger(s: string): (r: Option<int>) {
    if Unsigned(s) != "" && Digits(Unsigned(s)) then Some(Signed(Minus(s), Natural(Unsigned(s)))) else None
  }

  /** An optional sign, then digits, and nothing else. */
  ghost predicate Writes(s: string, n: int, sign: string, digits: string) {
    && (sign == "" || sign == "+" || sign == "-") && digits != "" && Digits(digits)
    && s == sign + digits && n == (if sign == "-" then -1 else 1) * Natural(digits)
  }

  ghost predicate IsWritten(s: string, n: int) { exists sign, digits :: Writes(s, n, sign, digits) }

  /** A text is read as an integer exactly if that is what it writes. */
  lemma ParsesExactly(s: string, n: int)
    ensures ParseInteger(s) == Some(n) <==> IsWritten(s, n)
  {
    if ParseInteger(s) == Some(n) {
      assert Writes(s, n, if Unsigned(s) == s then "" else [s[0]], Unsigned(s));
    }
    if sign, digits :| Writes(s, n, sign, digits) {
      SignIsRead(sign, digits);
    }
  }

  /** What Rust's parse makes of an integer as it is written. */
  lemma IntTextIsRead(n: int)
    ensures ParseInteger(Trim(IntText(n))) == Some(n)
  {
    var s := IntText(n);
    if n < 0 {
      assert s[1..] == NatText(-n);
      assert s[|s| - 1] == NatText(-n)[|s| - 2];
    }
  }

  function AsDouble(value: Json, lib: Library): Result<real, LiteralError> {
    match value
    case JNumber(t) => Ok(match lib.number(t) case Whole(n) => lib.toDouble(n) case Double(v) => v)
    case _ => Err(Mismatch)
  }

  function AsString(value: Json): Result<string, LiteralError> {
    if value.JString? then Ok(value.s) else Err(Mismatch)
  }

  function AsInt64(value: Json, lib: Library): (r: Result<int, LiteralError>)
    ensures r.Ok? ==> FitsInt64(r.value)
  {
    if value.JNumber? && lib.number(value.token).Whole? && FitsInt64(lib.number(value.token).n) then
      Ok(lib.number(value.token).n)
    else if value.JString? && ParseInteger(Trim(value.s)).Some? && FitsInt64(ParseInteger(Trim(value.s)).value) then
      Ok(ParseInteger(Trim(value.s)).value)
    else
      var f :- AsDouble(value, lib);
      if f != f.Floor as real then Err(Mismatch)
      else if -(INT64_LIMIT as real) <= f < INT64_LIMIT as real then Ok(f.Floor)
      else Err(OutsideInt64)
  }

  /** The number a JSON value stands for, before any column has typed it. */
  ghost function Denotes(value: Json, lib: Library): Option<real> {
    match value
    case JNumber(t) => Some(match lib.number(t) case Whole(n) => n as real case Double(v) => v)
    case JString(s) =>
      (match ParseInteger(Trim(s)) case Some(n) => Some(n as real) case None => None)
    case _ => None
  }

  /** Conversion to a 64-bit integer succeeds exactly on the integers that fit, and changes none of them. */
  lemma AsInt64IsExact(value: Json, lib: Library)
    requires lib.Valid()
    ensures AsInt64(value, lib).Ok? <==>
            exists n: int :: FitsInt64(n) && Denotes(value, lib) == Some(n as real)
    ensures AsInt64(value, lib).Ok? ==> Denotes(value, lib) == Some(AsInt64(value, lib).value as real)
  {
    if n: int :| FitsInt64(n) && Denotes(value, lib) == Some(n as real) {
      assert (n as real).Floor == n;
    }
  }

  /** The literal of the column's own type, or why there is none. */
  function Datum(value: Json, ty: Primitive, lib: Library): (r: Result<Value, LiteralError>)
    ensures r.Ok? ==> Typed(r.value, ty) && !IsNaN(r.value)
  {
    if value.JNull? then Err(AgainstNA)
    else
      match ty
      case Boolean => if value.JBool? then Ok(BoolV(value.b)) else Err(Mismatch)
      case Int =>
        var n :- AsInt64(value, lib);
        if FitsInt32(n) then Ok(IntV(n)) else Err(OutsideInt32)
      case Long =>
        var n :- AsInt64(value, lib);
        Ok(IntV(n))
      case Float =>
        var v :- AsDouble(value, lib);
        Ok(FloatV(lib.narrow(v)))
      case Double =>
        var v :- AsDouble(value, lib);
        Ok(FloatV(Finite(v)))
      case Date =>
        if value.JString? then Parsed(ty, value.s, lib)
        else
          var n :- AsInt64(value, lib);
          if FitsInt32(n) then Ok(IntV(n)) else Err(Mismatch)
      case Timestamp => Instant(value, ty, lib)
      case TimestampNs => Instant(value, ty, lib)
      case Timestamptz => Instant(value, ty, lib)
      case TimestamptzNs => Instant(value, ty, lib)
      case Text =>
        var s :- AsString(value);
        Ok(BytesV(lib.utf8(s)))
      case Uuid =>
        var s :- AsString(value);
        Parsed(ty, s, lib)
      case Decimal(precision, scale) => DecimalDatum(value, precision, scale, lib)
      case _ => Err(Unsupported)
  }

  function Parsed(ty: Primitive, s: string, lib: Library): (r: Result<Value, LiteralError>)
    ensures r.Ok? ==> r.value.IntV?
  {
    match lib.parse(ty, s)
    case Some(n) => Ok(IntV(n))
    case None => Err(Unparsable)
  }

  /** A zone-less column drops the trailing Z that R marks an instant with. */
  function Instant(value: Json, ty: Primitive, lib: Library): (r: Result<Value, LiteralError>)
    ensures r.Ok? ==> r.value.IntV?
  {
    if value.JString? then
      if (ty.Timestamp? || ty.TimestampNs?) && Parsed(ty, TrimZ(value.s), lib).Ok? then Parsed(ty, TrimZ(value.s), lib)
      else Parsed(ty, value.s, lib)
    else
      var n :- AsInt64(value, lib);
      Ok(IntV(n))
  }

  function TrimZ(s: string): string {
    if s != "" && s[|s| - 1] == 'Z' then TrimZ(s[..|s| - 1]) else s
  }

  function DecimalDatum(value: Json, precision: nat, scale: nat, lib: Library): (r: Result<Value, LiteralError>)
    ensures r.Ok? ==> r.value.IntV? && -Pow10(precision) < r.value.i < Pow10(precision)
  {
    var text :- match value
                case JString(s) => Ok(s)
                case JNumber(t) => Ok(lib.display(t))
                case JBool(b) => Ok(if b then "true" else "false")
                case _ => Err(BadDecimal(NotDecimal));
    ScaledDatum(text, precision, scale)
  }

  /** The text at the column's scale, if it has no more digits than the column does. */
  function ScaledDatum(text: string, precision: nat, scale: nat): (r: Result<Value, LiteralError>)
    ensures r.Ok? ==> r.value.IntV? && -Pow10(precision) < r.value.i < Pow10(precision)
  {
    match Rescale(text, scale)
    case Err(why) => Err(BadDecimal(why))
    case Ok(_) =>
      var m := RescaledMantissa(text, scale);
      if -Pow10(precision) < m < Pow10(precision) then Ok(IntV(m)) else Err(TooPrecise)
  }

  // ---- what a literal stands for ----

  /** The double that R holds for a number. */
  ghost function DoubleOf(x: Num, lib: Library): real {
    match x
    case Whole(n) => lib.toDouble(n)
    case Double(v) => v
  }

  /** A text as it is written, or a number as it is displayed, spells the integer at the scale. */
  ghost predicate SpellsAt(value: Json, n: int, scale: nat, lib: Library) {
    (value.JString? && SpelledAt(Trim(value.s), n, scale)) || (value.JNumber? && SpelledAt(lib.display(value.token), n, scale))
  }

  /** What typing a value for a column has to come to. */
  ghost predicate StandsFor(value: Json, ty: Primitive, d: Value, lib: Library) {
    match ty
    case Boolean => value.JBool? && d == BoolV(value.b)
    case Float => value.JNumber? && d == FloatV(lib.narrow(DoubleOf(lib.number(value.token), lib)))
    case Double => value.JNumber? && d == FloatV(Finite(DoubleOf(lib.number(value.token), lib)))
    case Text => value.JString? && d == BytesV(lib.utf8(value.s))
    case Uuid => value.JString? && d.IntV? && lib.parse(Uuid, value.s) == Some(d.i)
    case Decimal(_, scale) => d.IntV? && InRange(d.i, ty) && SpellsAt(value, d.i, scale, lib)
    case Time => false
    case Binary => false
    case Fixed(_) => false
    case _ =>
      d.IntV? && if value.JString? && !ty.Int? && !ty.Long? then ParsesAs(value.s, d.i, ty, lib)
                 else InRange(d.i, ty) && Denotes(value, lib) == Some(d.i as real)
  }

  /** A date or an instant as the library reads it; without the `Z` at its end, if that reads, where the column has no zone. */
  ghost predicate ParsesAs(s: string, n: int, ty: Primitive, lib: Library) {
    var bare := lib.parse(ty, TrimZ(s));
    if (ty.Timestamp? || ty.TimestampNs?) && bare.Some? then n == bare.value else lib.parse(ty, s) == Some(n)
  }

  /** The end of a text that is marked with one `Z`, and the whole of one that is not. */
  lemma TrimZIs(s: string)
    ensures s == "" || s[|s| - 1] != 'Z' ==> TrimZ(s) == s && TrimZ(s + "Z") == s
  {
    assert (s + "Z")[..|s|] == s;
  }

  lemma DisplaysTrimmed(t: string, lib: Library)
    requires Displayed(lib.display(t), lib.number(t), lib.nearest)
    ensures Trim(lib.display(t)) == lib.display(t)
  {
    var d: Plain :| Displays(lib.display(t), d, lib.number(t), lib.nearest);
    SpellsIsTrimmed(lib.display(t), d);
  }

  lemma MantissaInRange(text: string, precision: nat, scale: nat, n: int)
    ensures ScaledDatum(text, precision, scale) == Ok(IntV(n)) <==>
            InRange(n, Decimal(precision, scale)) && Rescale(text, scale).Ok? && RescaledMantissa(text, scale) == n
  {
  }

  lemma ScaledExactly(text: string, precision: nat, scale: nat, n: int)
    ensures ScaledDatum(text, precision, scale) == Ok(IntV(n)) <==>
            InRange(n, Decimal(precision, scale)) && SpelledAt(Trim(text), n, scale)
  {
    MantissaInRange(text, precision, scale, n);
    RescaledExactly(text, scale, n);
  }

  lemma BooleanIsNoDecimal(b: bool, precision: nat, scale: nat, lib: Library)
    ensures DecimalDatum(JBool(b), precision, scale, lib).Err?
  {
    UntrimmedIsItself("true");
    UntrimmedIsItself("false");
    assert 'e' in "true" && 'e' in "false";
  }

  /** What a value is for a decimal column: nothing, but for texts and numbers. */
  lemma DecimalExactly(value: Json, precision: nat, scale: nat, n: int, lib: Library)
    requires lib.Valid()
    ensures DecimalDatum(value, precision, scale, lib) == Ok(IntV(n)) <==>
            InRange(n, Decimal(precision, scale)) && SpellsAt(value, n, scale, lib)
  {
    if value.JString? {
      ScaledExactly(value.s, precision, scale, n);
    } else if value.JNumber? {
      DisplaysTrimmed(value.token, lib);
      ScaledExactly(lib.display(value.token), precision, scale, n);
    } else if value.JBool? {
      BooleanIsNoDecimal(value.b, precision, scale, lib);
    }
  }

  lemma WholeExactly(value: Json, n: int, lib: Library)
    requires lib.Valid()
    ensures AsInt64(value, lib) == Ok(n) <==> FitsInt64(n) && Denotes(value, lib) == Some(n as real)
  {
    AsInt64IsExact(value, lib);
  }

  lemma IntegerExactly(value: Json, ty: Primitive, d: Value, lib: Library)
    requires lib.Valid() && (ty.Int? || ty.Long?)
    ensures Datum(value, ty, lib) == Ok(d) <==> StandsFor(value, ty, d, lib)
  {
    if d.IntV? {
      WholeExactly(value, d.i, lib);
    }
  }

  lemma DateExactly(value: Json, d: Value, lib: Library)
    requires lib.Valid()
    ensures Datum(value, Date, lib) == Ok(d) <==> StandsFor(value, Date, d, lib)
  {
    if d.IntV? {
      WholeExactly(value, d.i, lib);
    }
  }

  lemma InstantExactly(value: Json, ty: Primitive, d: Value, lib: Library)
    requires lib.Valid() && (ty.Timestamp? || ty.Timestamptz? || ty.TimestampNs? || ty.TimestamptzNs?)
    ensures Datum(value, ty, lib) == Ok(d) <==> StandsFor(value, ty, d, lib)
  {
    assert Datum(value, ty, lib) == if value.JNull? then Err(AgainstNA) else Instant(value, ty, lib);
    if d.IntV? {
      WholeExactly(value, d.i, lib);
    }
  }

  /** A value is typed for a column as `d` exactly if `d` is what it stands for there; and so not at all exactly if it stands for nothing. */
  lemma DatumExactly(value: Json, ty: Primitive, d: Value, lib: Library)
    requires lib.Valid()
    ensures Datum(value, ty, lib) == Ok(d) <==> StandsFor(value, ty, d, lib)
  {
    if ty.Int? || ty.Long? {
      IntegerExactly(value, ty, d, lib);
    } else if ty.Decimal? {
      if d.IntV? {
        DecimalExactly(value, ty.precision, ty.scale, d.i, lib);
      }
    } else if ty.Date? {
      DateExactly(value, d, lib);
    } else if ty.Timestamp? || ty.Timestamptz? || ty.TimestampNs? || ty.TimestamptzNs? {
      InstantExactly(value, ty, d, lib);
    }
  }

  /** What a literal is typed as fits the column. */
  lemma DatumFits(value: Json, ty: Primitive, lib: Library)
    requires lib.Valid() && Datum(value, ty, lib).Ok?
    ensures Datum(value, ty, lib).value.IntV? ==> InRange(Datum(value, ty, lib).value.i, ty)
    ensures ty.Float? ==> Datum(value, ty, lib).value.FloatV? && lib.single(Datum(value, ty, lib).value.f)
  {
  }

  /**
   A literal for a float column is compared as the nearest single. For the
   values such a column can hold, that answers as comparing with the literal
   itself would exactly when the literal is a single, or was rounded away from
   the side the operator includes.
   */
  lemma NarrowedComparison(op: Cmp, v: real, lib: Library)
    requires lib.Valid()
    ensures (forall x: Number :: lib.single(x) ==>
               (op.Holds(NumericFloat(x, lib.narrow(v))) <==> op.Holds(NumericFloat(x, Finite(v)))))
            <==> match NumericFloat(lib.narrow(v), Finite(v))
                 case Same => true
                 case More => op.Lt? || op.Gte?
                 case Less => op.Gt? || op.Lte?
  {
    var n := lib.narrow(v);
    assert lib.single(n);
    forall x: Number | lib.single(x)
      ensures NumericFloat(n, Finite(v)).Same? ==> NumericFloat(x, n) == NumericFloat(x, Finite(v))
      ensures NumericFloat(n, Finite(v)).More? ==> (NumericFloat(x, n).Less? <==> NumericFloat(x, Finite(v)).Less?)
      ensures NumericFloat(n, Finite(v)).Less? ==> (NumericFloat(x, n).More? <==> NumericFloat(x, Finite(v)).More?)
    {
      assert !Between(x, Finite(v), n);
    }
    assert op.Holds(NumericFloat(n, n)) <==> op.Holds(Same);
  }
}
