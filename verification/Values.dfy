/**
 Column types, the values rows hold, and the two orders the filter compiler has
 to reconcile: R's, in which the two zeros are equal and NaN is not comparable,
 and the IEEE 754 total order (section 5.10 of IEEE 754-2019) that Iceberg's row
 filter uses for floats.
 */
module Values {

  /** The primitive Iceberg types. */
  datatype Primitive =
    | Boolean | Int | Long | Float | Double | Date
    | Timestamp | Timestamptz | TimestampNs | TimestamptzNs
    | Text | Uuid | Decimal(precision: nat, scale: nat)
    | Time | Binary | Fixed(length: nat)

  /** A floating-point value. `Finite(0.0)` is positive zero. */
  datatype Flt = NaN(negative: bool) | NegInf | Finite(v: real) | NegZero | PosInf

  /** A float that is a number: what a literal can be. */
  type Number = f: Flt | !f.NaN? witness NegZero

  /** Dates, instants, decimals (as unscaled mantissas) and UUIDs are integers;
      a string is the sequence of its UTF-8 bytes. */
  datatype Value = BoolV(b: bool) | IntV(i: int) | BytesV(s: seq<int>) | FloatV(f: Flt)

  /** What a row holds in a column its file has. */
  datatype Cell = Null | Has(v: Value)

  /** A column that is not a key of the row is absent from the row's file. */
  type Row = map<string, Cell>

  datatype Order = Less | Same | More {
    function Reverse(): Order {
      match this
      case Less => More
      case Same => Same
      case More => Less
    }
  }

  predicate IsFloat(ty: Primitive) { ty.Float? || ty.Double? }

  predicate Typed(v: Value, ty: Primitive) {
    match ty
    case Boolean => v.BoolV?
    case Float => v.FloatV?
    case Double => v.FloatV?
    case Text => v.BytesV?
    case Binary => v.BytesV?
    case Fixed(_) => v.BytesV?
    case _ => v.IntV?
  }

  predicate IsNaN(v: Value) { v.FloatV? && v.f.NaN? }

  predicate IsZero(v: Value) { v.FloatV? && (v.f.NegZero? || v.f == Finite(0.0)) }

  // ---- orders ----

  function IntOrder(a: int, b: int): Order {
    if a < b then Less else if a == b then Same else More
  }

  function RealOrder(a: real, b: real): Order {
    if a < b then Less else if a == b then Same else More
  }

  function BytesOrder(a: seq<int>, b: seq<int>): Order {
    if a == [] && b == [] then Same
    else if a == [] then Less
    else if b == [] then More
    else if a[0] != b[0] then IntOrder(a[0], b[0])
    else BytesOrder(a[1..], b[1..])
  }

  /** The block of the total order a float falls in, lowest first. */
  function TotalBlock(f: Flt): int {
    match f
    case NaN(negative) => if negative then 0 else 7
    case NegInf => 1
    case NegZero => 3
    case PosInf => 6
    case Finite(v) => if v < 0.0 then 2 else if v == 0.0 then 4 else 5
  }

  function TotalFloat(a: Flt, b: Flt): Order {
    if a.Finite? && b.Finite? then RealOrder(a.v, b.v) else IntOrder(TotalBlock(a), TotalBlock(b))
  }

  /** A number's place on the extended real line, where the zeros coincide. */
  function NumericBlock(f: Number): int {
    match f
    case NegInf => -1
    case PosInf => 1
    case _ => 0
  }

  function Magnitude(f: Number): real { if f.Finite? then f.v else 0.0 }

  function NumericFloat(a: Number, b: Number): Order {
    if NumericBlock(a) == NumericBlock(b) then RealOrder(Magnitude(a), Magnitude(b))
    else IntOrder(NumericBlock(a), NumericBlock(b))
  }

  /** Values of one type, as Iceberg's row filter orders them. */
  function TotalOrder(a: Value, b: Value): Order {
    match (a, b)
    case (BoolV(x), BoolV(y)) => IntOrder(if x then 1 else 0, if y then 1 else 0)
    case (IntV(x), IntV(y)) => IntOrder(x, y)
    case (BytesV(x), BytesV(y)) => BytesOrder(x, y)
    case (FloatV(x), FloatV(y)) => TotalFloat(x, y)
    case _ => Same
  }

  /** Values of one type, neither of them NaN, as R orders them. */
  function NumericOrder(a: Value, b: Value): Order
    requires !IsNaN(a) && !IsNaN(b)
  {
    if a.FloatV? && b.FloatV? then NumericFloat(a.f, b.f) else TotalOrder(a, b)
  }

  // ---- comparison operators ----

  datatype Cmp = Eq | Ne | Lt | Lte | Gt | Gte {
    predicate Holds(o: Order) {
      match this
      case Eq => o.Same?
      case Ne => !o.Same?
      case Lt => o.Less?
      case Lte => !o.More?
      case Gt => o.More?
      case Gte => !o.Less?
    }

    /** The operator that holds exactly where this one does not. */
    function Negate(): (r: Cmp)
      ensures forall o: Order :: r.Holds(o) <==> !Holds(o)
    {
      match this
      case Eq => Ne
      case Ne => Eq
      case Lt => Gte
      case Gte => Lt
      case Lte => Gt
      case Gt => Lte
    }

    /** The operator for the same comparison with its operands exchanged. */
    function Flip(): (r: Cmp)
      ensures forall o: Order :: r.Holds(o) <==> Holds(o.Reverse())
    {
      match this
      case Lt => Gt
      case Lte => Gte
      case Gt => Lt
      case Gte => Lte
      case Eq => Eq
      case Ne => Ne
    }
  }

  // ---- facts about the orders ----

  lemma {:induction false} BytesOrderReverses(a: seq<int>, b: seq<int>)
    ensures BytesOrder(b, a) == BytesOrder(a, b).Reverse()
  {
    if a != [] && b != [] && a[0] == b[0] {
      BytesOrderReverses(a[1..], b[1..]);
    }
  }

  lemma {:induction false} BytesOrderSame(a: seq<int>, b: seq<int>)
    ensures BytesOrder(a, b).Same? <==> a == b
  {
    if a != [] && b != [] && a[0] == b[0] {
      BytesOrderSame(a[1..], b[1..]);
      assert a == [a[0]] + a[1..] && b == [b[0]] + b[1..];
    }
  }

  /** The first is a start of the second and shorter, or is smaller where they first differ. */
  ghost predicate BytesBefore(a: seq<int>, b: seq<int>) { exists k: nat :: FirstDiffer(a, b, k) }

  predicate FirstDiffer(a: seq<int>, b: seq<int>, k: nat) {
    k <= |a| && k < |b| && (forall i :: 0 <= i < k ==> a[i] == b[i]) && (k < |a| ==> a[k] < b[k])
  }

  lemma {:induction false} BytesOrderIs(a: seq<int>, b: seq<int>)
    ensures BytesOrder(a, b).Less? <==> BytesBefore(a, b)
  {
    if a != [] && b != [] && a[0] == b[0] {
      BytesOrderIs(a[1..], b[1..]);
      if k: nat :| FirstDiffer(a[1..], b[1..], k) {
        assert FirstDiffer(a, b, k + 1);
      }
      if k: nat :| FirstDiffer(a, b, k) {
        assert FirstDiffer(a[1..], b[1..], k - 1);
      }
    } else if BytesOrder(a, b).Less? {
      assert FirstDiffer(a, b, 0);
    }
  }

  /** Smaller, as numbers are: the infinities outside, the zeros one; FALSE before TRUE; and texts byte by byte. */
  ghost predicate Below(a: Value, b: Value) {
    match (a, b)
    case (BoolV(x), BoolV(y)) => !x && y
    case (IntV(x), IntV(y)) => x < y
    case (BytesV(x), BytesV(y)) => BytesBefore(x, y)
    case (FloatV(x), FloatV(y)) =>
      (match (x, y)
       case (NegInf, _) => !y.NegInf?
       case (_, PosInf) => !x.PosInf?
       case (Finite(v), Finite(u)) => v < u
       case (Finite(v), NegZero) => v < 0.0
       case (NegZero, Finite(u)) => 0.0 < u
       case _ => false)
    case _ => false
  }

  /** What the order of two values of one type says: less if the first is below, more if the second is. */
  lemma NumericOrderIs(a: Value, b: Value)
    requires !IsNaN(a) && !IsNaN(b)
    ensures NumericOrder(a, b).Less? <==> Below(a, b)
    ensures NumericOrder(a, b).More? <==> Below(b, a)
  {
    if a.BytesV? && b.BytesV? {
      BytesOrderIs(a.s, b.s);
      BytesOrderIs(b.s, a.s);
      BytesOrderReverses(a.s, b.s);
    }
  }

  lemma {:induction false} BytesOrderTransitive(a: seq<int>, b: seq<int>, c: seq<int>)
    requires !BytesOrder(a, b).More? && !BytesOrder(b, c).More?
    ensures !BytesOrder(a, c).More?
    ensures BytesOrder(a, c).Same? ==> BytesOrder(a, b).Same? && BytesOrder(b, c).Same?
  {
    if a != [] && b != [] && c != [] && a[0] == b[0] && b[0] == c[0] {
      BytesOrderTransitive(a[1..], b[1..], c[1..]);
    }
  }

  lemma NumericOrderReverses(a: Value, b: Value)
    requires !IsNaN(a) && !IsNaN(b)
    ensures NumericOrder(b, a) == NumericOrder(a, b).Reverse()
  {
    if a.BytesV? && b.BytesV? {
      BytesOrderReverses(a.s, b.s);
    }
  }

  /** Away from NaN, and with no zero on the right, the two orders agree. */
  lemma OrdersAgree(a: Value, b: Value)
    requires !IsNaN(a) && !IsNaN(b) && !IsZero(b)
    ensures TotalOrder(a, b) == NumericOrder(a, b)
  {
  }
}
