/**
 `%in%`: exactly when the compiled set and R's own are one, column type by column
 type, in terms of the values and the literals alone.
 */
module OwnSets {
  import opened Outcomes
  import opened Values
  import opened FilterTree
  import opened DecimalText
  import opened Literals
  import opened Iceberg
  import opened Compiler
  import opened Wire
  import opened OwnText
  import opened OwnValues
  import opened OwnCases

  // ---- integers known by a key ----

  /** What the integers of a range are known by: a number, or a text. */
  datatype Keys<!T> = Keys(of: int -> T, low: int, high: int) {
    predicate Holds(i: int) { low <= i <= high }
  }

  /** Integers with the same key are next to each other. */
  ghost predicate Contiguous<T>(keys: Keys<T>) {
    forall i, j, k :: keys.low <= i <= j <= k <= keys.high && keys.of(i) == keys.of(k) ==> keys.of(j) == keys.of(i)
  }

  /** Each integer of the list has the key of some value. */
  ghost predicate EachNamed<T>(names: seq<T>, ns: seq<int>, keys: Keys<T>) {
    forall n :: n in ns ==> keys.of(n) in names
  }

  /** With an integer, the list has any neighbour of the same key. */
  ghost predicate Full<T>(ns: seq<int>, keys: Keys<T>) {
    forall n :: n in ns ==>
      && (keys.Holds(n - 1) && keys.of(n - 1) == keys.of(n) ==> n - 1 in ns)
      && (keys.Holds(n + 1) && keys.of(n + 1) == keys.of(n) ==> n + 1 in ns)
  }

  /** Each value is the key of an integer of the list, or of no integer of the range. */
  ghost predicate Met<T>(names: seq<T>, ns: seq<int>, keys: Keys<T>) {
    forall x :: x in names ==> (exists n :: n in ns && keys.of(n) == x) || forall i :: keys.Holds(i) ==> keys.of(i) != x
  }

  /** From an integer of a full list, every integer of its key is in the list. */
  lemma {:induction false} Reached<T>(n: int, i: int, ns: seq<int>, keys: Keys<T>)
    requires Contiguous(keys) && Full(ns, keys) && n in ns && keys.Holds(n) && keys.Holds(i) && keys.of(i) == keys.of(n)
    ensures i in ns
    decreases if i < n then n - i else i - n
  {
    if i < n {
      assert keys.of(n - 1) == keys.of(i);
      Reached(n - 1, i, ns, keys);
    } else if i > n {
      assert keys.of(n + 1) == keys.of(n);
      Reached(n + 1, i, ns, keys);
    }
  }

  /** The integers with the key of a value are those of the list exactly if it is named, full and met. */
  lemma KeyedExactly<T>(names: seq<T>, ns: seq<int>, keys: Keys<T>)
    requires Contiguous(keys) && forall n :: n in ns ==> keys.Holds(n)
    ensures (forall i :: keys.Holds(i) ==> (keys.of(i) in names <==> i in ns)) <==>
            EachNamed(names, ns, keys) && Full(ns, keys) && Met(names, ns, keys)
  {
    if EachNamed(names, ns, keys) && Full(ns, keys) && Met(names, ns, keys) {
      forall i | keys.Holds(i) && keys.of(i) in names
        ensures i in ns
      {
        var n :| n in ns && keys.of(n) == keys.of(i);
        Reached(n, i, ns, keys);
      }
    }
  }

  // ---- the compiled set, as integers ----

  predicate AllInts(ds: seq<Value>) { forall k :: 0 <= k < |ds| ==> ds[k].IntV? }

  function IntsOf(ds: seq<Value>): (ns: seq<int>)
    requires AllInts(ds)
    ensures |ns| == |ds| && forall k :: 0 <= k < |ns| ==> ns[k] == ds[k].i
  {
    seq(|ds|, k requires 0 <= k < |ds| => ds[k].i)
  }

  lemma AmongInts(i: int, ds: seq<Value>)
    requires AllInts(ds)
    ensures Among(IntV(i), ds) <==> i in IntsOf(ds)
  {
    if d :| d in ds && NumericOrder(IntV(i), d).Same? {
      var k :| 0 <= k < |ds| && ds[k] == d;
      assert IntsOf(ds)[k] == i;
    }
    if i in IntsOf(ds) {
      var k :| 0 <= k < |ds| && IntsOf(ds)[k] == i;
      assert ds[k] in ds;
    }
  }

  lemma TypedAreInts(vs: seq<Scalar>, ds: seq<Value>, ty: Primitive, w: World)
    requires w.Valid() && AllTyped(vs, ds, ty, w) && IsCounted(ty)
    ensures AllInts(ds) && forall n :: n in IntsOf(ds) ==> Low(ty) <= n <= High(ty)
  {
    forall k | 0 <= k < |ds|
      ensures ds[k].IntV? && Low(ty) <= ds[k].i <= High(ty)
    {
      TypedIsHeld(vs[k], ty, ds[k], w);
      CountedIsHeld(ds[k].i, ty, w.lib);
    }
  }

  /** On a column of integers, sets are alike exactly if R's set holds just the integers of the list. */
  lemma AlikeOnInts(vs: seq<Scalar>, ds: seq<Value>, ty: Primitive, w: World)
    requires IsCounted(ty) && AllInts(ds)
    ensures SetsAlike(vs, ds, ty, w) <==>
            forall i :: Low(ty) <= i <= High(ty) ==> (OwnIn(IntV(i), vs, ty, w) <==> i in IntsOf(ds))
  {
    forall i
      ensures Held(IntV(i), ty, w.lib) <==> Low(ty) <= i <= High(ty)
      ensures Among(IntV(i), ds) <==> i in IntsOf(ds)
    {
      CountedIsHeld(i, ty, w.lib);
      AmongInts(i, ds);
    }
    if forall i :: Low(ty) <= i <= High(ty) ==> (OwnIn(IntV(i), vs, ty, w) <==> i in IntsOf(ds)) {
      forall cell | Held(cell, ty, w.lib)
        ensures OwnIn(cell, vs, ty, w) <==> Among(cell, ds)
      {
        assert cell == IntV(cell.i);
      }
    }
  }

  // ---- values that are numbers ----

  /** The numbers R compares a column with; a value it cannot compare has none. */
  ghost function NumbersOf(vs: seq<Scalar>, ty: Primitive, w: World): seq<real> {
    if vs == [] then []
    else (if OwnLiteral(vs[0], ty, w).At? then [OwnLiteral(vs[0], ty, w).x.v] else []) + NumbersOf(vs[1..], ty, w)
  }

  lemma {:induction false} NumbersAre(vs: seq<Scalar>, ty: Primitive, w: World, x: real)
    ensures x in NumbersOf(vs, ty, w) <==> exists v :: v in vs && OwnLiteral(v, ty, w) == At(Finite(x))
  {
    if vs != [] {
      NumbersAre(vs[1..], ty, w, x);
      assert vs == [vs[0]] + vs[1..];
    }
  }

  /** As an integer64, or past all of them on its own side. */
  function Clamped(x: real): real {
    if InInteger64(x) then Truncated(x) else if x < 0.0 then -(INT64_LIMIT as real) - 1.0 else INT64_LIMIT as real
  }

  /** The numbers by which a column is known to values of one class. */
  function NumberKeys(truncates: bool, ty: Primitive, r: RSide): Keys<real> {
    Keys((i: int) => if truncates then Clamped(r.number(ty, i)) else r.number(ty, i), Low(ty), High(ty))
  }

  lemma ClampingKeepsOrder(x: real, y: real)
    requires x <= y
    ensures Clamped(x) <= Clamped(y)
  {
    TruncationKeepsOrder(x, y);
    if InInteger64(x) {
      TruncationStays(x);
    }
    if InInteger64(y) {
      TruncationStays(y);
    }
  }

  lemma TruncationStays(x: real)
    requires InInteger64(x)
    ensures InInteger64(Truncated(x))
  {
    if x >= 0.0 {
      assert 0.0 <= Truncated(x) <= x;
    } else {
      assert x <= Truncated(x) <= 0.0;
    }
  }

  lemma NumberKeysAreContiguous(truncates: bool, ty: Primitive, r: RSide)
    requires r.Valid()
    ensures Contiguous(NumberKeys(truncates, ty, r))
  {
    var keys := NumberKeys(truncates, ty, r);
    forall i, j | i <= j
      ensures keys.of(i) <= keys.of(j)
    {
      ClampingKeepsOrder(r.number(ty, i), r.number(ty, j));
    }
  }

  /** No value is a text, and all are of integer64 beside decimals or none is: an R vector is of one class. */
  ghost predicate AreNumbers(vs: seq<Scalar>, truncates: bool, ty: Primitive, w: World) {
    forall v :: v in vs ==> !OwnLiteral(v, ty, w).Word? && Truncates(v, ty) == truncates
  }

  lemma NumberIsKey(v: Scalar, i: int, truncates: bool, ty: Primitive, w: World)
    requires IsCounted(ty) && !OwnLiteral(v, ty, w).Word? && Truncates(v, ty) == truncates
    ensures OwnAnswer(Eq, IntV(i), v, ty, w).True? <==>
            OwnLiteral(v, ty, w) == At(Finite(NumberKeys(truncates, ty, w.r).of(i)))
  {
    if OwnLiteral(v, ty, w).At? {
      CountedAnswer(Eq, i, v, ty, w);
    }
  }

  lemma NumberIsIn(vs: seq<Scalar>, i: int, truncates: bool, ty: Primitive, w: World)
    requires IsCounted(ty) && AreNumbers(vs, truncates, ty, w)
    ensures OwnIn(IntV(i), vs, ty, w) <==> NumberKeys(truncates, ty, w.r).of(i) in NumbersOf(vs, ty, w)
  {
    var x := NumberKeys(truncates, ty, w.r).of(i);
    NumbersAre(vs, ty, w, x);
    forall v | v in vs
      ensures OwnAnswer(Eq, IntV(i), v, ty, w).True? <==> OwnLiteral(v, ty, w) == At(Finite(x))
    {
      NumberIsKey(v, i, truncates, ty, w);
    }
  }

  /** The condition on numbers and the integers they were compiled to. */
  ghost predicate NumbersPlaced(vs: seq<Scalar>, ns: seq<int>, truncates: bool, ty: Primitive, w: World) {
    var keys, names := NumberKeys(truncates, ty, w.r), NumbersOf(vs, ty, w);
    EachNamed(names, ns, keys) && Full(ns, keys) && Met(names, ns, keys)
  }

  /**
   Numbers, dates and instants: the sets are one exactly if each compiled integer
   has the number of some value, with any neighbour of the same number the list has
   that too, and each value is the number of an integer of the list or of none.
   */
  lemma SetsOfNumbersExactly(vs: seq<Scalar>, ds: seq<Value>, truncates: bool, ty: Primitive, w: World)
    requires w.Valid() && AllTyped(vs, ds, ty, w) && IsCounted(ty) && AreNumbers(vs, truncates, ty, w)
    ensures AllInts(ds)
    ensures SetsAlike(vs, ds, ty, w) <==> NumbersPlaced(vs, IntsOf(ds), truncates, ty, w)
  {
    var keys, names := NumberKeys(truncates, ty, w.r), NumbersOf(vs, ty, w);
    TypedAreInts(vs, ds, ty, w);
    AlikeOnInts(vs, ds, ty, w);
    NumberKeysAreContiguous(truncates, ty, w.r);
    KeyedExactly(names, IntsOf(ds), keys);
    forall i
      ensures OwnIn(IntV(i), vs, ty, w) <==> keys.of(i) in names
    {
      NumberIsIn(vs, i, truncates, ty, w);
    }
  }

  // ---- values that are texts ----

  function NamesOf(vs: seq<Scalar>): (names: seq<string>)
    ensures |names| == |vs| && forall k :: 0 <= k < |vs| ==> names[k] == TextOf(vs[k])
  {
    seq(|vs|, k requires 0 <= k < |vs| => TextOf(vs[k]))
  }

  function TextKeys(ty: Primitive, r: RSide): Keys<string> { Keys((i: int) => r.text(ty, i), Low(ty), High(ty)) }

  ghost predicate AreTexts(vs: seq<Scalar>, ty: Primitive, w: World) {
    forall v :: v in vs ==> OwnLiteral(v, ty, w).Word?
  }

  lemma TextIsKey(v: Scalar, i: int, ty: Primitive, w: World)
    requires ComparesTexts(v, ty, w)
    ensures OwnAnswer(Eq, IntV(i), v, ty, w).True? <==> TextKeys(ty, w.r).of(i) == TextOf(v)
  {
    TextAnswer(Eq, i, v, ty, w);
    TextsDiffer(w.r.text(ty, i), TextOf(v));
  }

  lemma TextIsIn(vs: seq<Scalar>, i: int, ty: Primitive, w: World)
    requires IsCounted(ty) && AreTexts(vs, ty, w)
    ensures OwnIn(IntV(i), vs, ty, w) <==> TextKeys(ty, w.r).of(i) in NamesOf(vs)
  {
    var t := TextKeys(ty, w.r).of(i);
    forall v | v in vs
      ensures OwnAnswer(Eq, IntV(i), v, ty, w).True? <==> t == TextOf(v)
    {
      TextIsKey(v, i, ty, w);
    }
    if v :| v in vs && t == TextOf(v) {
      var k :| 0 <= k < |vs| && vs[k] == v;
      assert NamesOf(vs)[k] == t;
    }
    if t in NamesOf(vs) {
      var k :| 0 <= k < |vs| && NamesOf(vs)[k] == t;
      assert vs[k] in vs;
    }
  }

  ghost predicate TextsPlaced(vs: seq<Scalar>, ns: seq<int>, ty: Primitive, r: RSide) {
    var keys, names := TextKeys(ty, r), NamesOf(vs);
    EachNamed(names, ns, keys) && Full(ns, keys) && Met(names, ns, keys)
  }

  /** The same of texts beside integers, which R compares as texts. */
  lemma SetsOfTextsExactly(vs: seq<Scalar>, ds: seq<Value>, ty: Primitive, w: World)
    requires w.Valid() && AllTyped(vs, ds, ty, w) && IsCounted(ty) && AreTexts(vs, ty, w)
    ensures AllInts(ds)
    ensures SetsAlike(vs, ds, ty, w) <==> TextsPlaced(vs, IntsOf(ds), ty, w.r)
  {
    TypedAreInts(vs, ds, ty, w);
    TextKeysAreContiguous(vs, ty, w);
    KeyedTexts(vs, ds, ty, w);
  }

  lemma KeyedTexts(vs: seq<Scalar>, ds: seq<Value>, ty: Primitive, w: World)
    requires IsCounted(ty) && AreTexts(vs, ty, w) && |ds| == |vs| && AllInts(ds)
    requires (forall n :: n in IntsOf(ds) ==> Low(ty) <= n <= High(ty)) && (vs == [] || Contiguous(TextKeys(ty, w.r)))
    ensures SetsAlike(vs, ds, ty, w) <==> TextsPlaced(vs, IntsOf(ds), ty, w.r)
  {
    AlikeOnInts(vs, ds, ty, w);
    forall i
      ensures OwnIn(IntV(i), vs, ty, w) <==> TextKeys(ty, w.r).of(i) in NamesOf(vs)
    {
      TextIsIn(vs, i, ty, w);
    }
    if vs == [] {
      assert IntsOf(ds) == [] && NamesOf(vs) == [];
    } else {
      KeyedExactly(NamesOf(vs), IntsOf(ds), TextKeys(ty, w.r));
    }
  }

  lemma TextKeysAreContiguous(vs: seq<Scalar>, ty: Primitive, w: World)
    requires w.r.Valid() && IsCounted(ty) && AreTexts(vs, ty, w)
    ensures vs == [] || Contiguous(TextKeys(ty, w.r))
  {
    if vs != [] {
      assert vs[0] in vs;
      TextsAreKnown(vs[0], ty, w);
      KeysOfTexts(ty, w.r);
    }
  }

  lemma KeysOfTexts(ty: Primitive, r: RSide)
    requires TextsOf(ty, r).Contiguous()
    ensures Contiguous(TextKeys(ty, r))
  {
    var ts, keys := TextsOf(ty, r), TextKeys(ty, r);
    forall i, j, k | keys.low <= i <= j <= k <= keys.high && keys.of(i) == keys.of(k)
      ensures keys.of(j) == keys.of(i)
    {
      assert ts.of(i) == ts.of(k);
      assert ts.of(j) == ts.of(i);
    }
  }

  // ---- the sets people write ----

  /** Numbers that R wrote, with what they are typed as beside an instant. */
  ghost predicate BareNumbers(vs: seq<Scalar>, ds: seq<Value>, ty: Primitive, w: World) {
    && AllTyped(vs, ds, ty, w) && IsInstant(ty)
    && forall v :: v in vs ==> v.Numeric? && FromR(v, w.lib)
  }

  lemma BareNumberIs(vs: seq<Scalar>, ds: seq<Value>, k: nat, ty: Primitive, w: World)
    requires w.Valid() && BareNumbers(vs, ds, ty, w) && k < |vs|
    ensures ds[k].IntV? && TypedAs(vs[k], ty, ds[k], w) && OwnLiteral(vs[k], ty, w) == At(Finite(ds[k].i as real))
  {
    TypedIsCounted(vs[k], ty, ds[k], w);
    NumberIsItself(vs[k], ty, ds[k].i, w);
  }

  function Size(n: int): nat { if n < 0 then -n else n }

  /** Beside an instant each literal but zero needs another, nearer to zero, to be counted among R's values. */
  lemma NearerLiteral(vs: seq<Scalar>, ds: seq<Value>, n: int, ty: Primitive, w: World) returns (e: int)
    requires w.Valid() && BareNumbers(vs, ds, ty, w) && n != 0 && OwnIn(IntV(n), vs, ty, w)
    ensures IntV(e) in ds && e != 0 && Size(e) < Size(n)
  {
    var v :| v in vs && OwnAnswer(Eq, IntV(n), v, ty, w).True?;
    var k :| 0 <= k < |vs| && vs[k] == v;
    BareNumberIs(vs, ds, k, ty, w);
    e := ds[k].i;
    EqualIsNearer(n, v, e, ty, w);
    assert ds[k] in ds;
  }

  lemma EqualIsNearer(n: int, v: Scalar, e: int, ty: Primitive, w: World)
    requires w.r.Valid() && IsInstant(ty) && n != 0
    requires OwnLiteral(v, ty, w) == At(Finite(e as real)) && OwnAnswer(Eq, IntV(n), v, ty, w).True?
    ensures e != 0 && Size(e) < Size(n)
  {
    CountedAnswer(Eq, n, v, ty, w);
    InstantIsSmall(n, ty, w.r);
  }

  lemma {:induction false} NoneButZero(vs: seq<Scalar>, ds: seq<Value>, n: int, ty: Primitive, w: World)
    requires w.Valid() && BareNumbers(vs, ds, ty, w) && EachIsIn(vs, ds, ty, w) && IntV(n) in ds
    ensures n == 0
    decreases Size(n)
  {
    if n != 0 {
      var e := NearerLiteral(vs, ds, n, ty, w);
      NoneButZero(vs, ds, e, ty, w);
    }
  }

  /** Bare numbers beside an instant: the sets are one exactly if every number is zero. */
  lemma SetsOfBareNumbers(vs: seq<Scalar>, ds: seq<Value>, ty: Primitive, w: World)
    requires w.Valid() && BareNumbers(vs, ds, ty, w)
    ensures SetsAlike(vs, ds, ty, w) <==> forall d :: d in ds ==> d == IntV(0)
  {
    if SetsAlike(vs, ds, ty, w) {
      SetsExactly(vs, ds, ty, w);
      forall d | d in ds
        ensures d == IntV(0)
      {
        var k :| 0 <= k < |ds| && ds[k] == d;
        BareNumberIs(vs, ds, k, ty, w);
        NoneButZero(vs, ds, d.i, ty, w);
      }
    }
    if forall d :: d in ds ==> d == IntV(0) {
      forall k | 0 <= k < |vs|
        ensures AnswersAlike(Eq, vs[k], ds[k], ty, w)
      {
        assert ds[k] in ds && vs[k] in vs;
        BareNumbersOfInstants(Eq, vs[k], 0, ty, w);
      }
      EqualsMakeSets(vs, ds, ty, w);
    }
  }

  /** Dates, and the days they are compiled as. */
  ghost predicate AreDates(vs: seq<Scalar>, ns: seq<int>) {
    |ns| == |vs| && forall k :: 0 <= k < |vs| ==> vs[k].Date? && ns[k] == vs[k].days.Floor
  }

  /** The day of each date is itself among the dates. */
  ghost predicate WithTheirDays(vs: seq<Scalar>) {
    forall v :: v in vs && v.Date? ==> Scalar.Date(v.days.Floor as real) in vs
  }

  /** Dates: exactly if the day of each date that has a part of one is itself among the dates. */
  lemma SetsOfDatesExactly(vs: seq<Scalar>, ds: seq<Value>, w: World)
    requires w.Valid() && ReadsDays(w) && AllTyped(vs, ds, Primitive.Date, w)
    requires forall v :: v in vs ==> v.Date? && FitsInt32(v.days.Floor)
    ensures SetsAlike(vs, ds, Primitive.Date, w) <==> WithTheirDays(vs)
  {
    DatesAreNumbers(vs, w);
    SetsOfNumbersExactly(vs, ds, false, Primitive.Date, w);
    DatesAreDays(vs, ds, w);
    DaysArePlaced(vs, IntsOf(ds), w);
  }

  lemma DatesAreNumbers(vs: seq<Scalar>, w: World)
    requires forall v :: v in vs ==> v.Date?
    ensures AreNumbers(vs, false, Primitive.Date, w)
  {
  }

  lemma DaysArePlaced(vs: seq<Scalar>, ns: seq<int>, w: World)
    requires w.r.Valid() && AreDates(vs, ns)
    ensures NumbersPlaced(vs, ns, false, Primitive.Date, w) <==> WithTheirDays(vs)
  {
    DaysAreMet(vs, ns, w);
    DaysAreNamed(vs, ns, w);
  }

  lemma DatesAreDays(vs: seq<Scalar>, ds: seq<Value>, w: World)
    requires ReadsDays(w) && AllTyped(vs, ds, Primitive.Date, w) && AllInts(ds)
    requires forall v :: v in vs ==> v.Date? && FitsInt32(v.days.Floor)
    ensures AreDates(vs, IntsOf(ds))
  {
    forall k | 0 <= k < |vs|
      ensures vs[k].Date? && IntsOf(ds)[k] == vs[k].days.Floor
    {
      assert vs[k] in vs && TypedAs(vs[k], Primitive.Date, ds[k], w);
    }
  }

  lemma DateIsNumber(vs: seq<Scalar>, ns: seq<int>, x: real, w: World)
    requires AreDates(vs, ns)
    ensures x in NumbersOf(vs, Primitive.Date, w) <==> Scalar.Date(x) in vs
  {
    NumbersAre(vs, Primitive.Date, w, x);
    assert OwnLiteral(Scalar.Date(x), Primitive.Date, w) == At(Finite(x));
    if v :| v in vs && OwnLiteral(v, Primitive.Date, w) == At(Finite(x)) {
      var k :| 0 <= k < |vs| && vs[k] == v;
    }
  }

  lemma DayIsItself(n: int, r: RSide)
    requires r.Valid()
    ensures NumberKeys(false, Primitive.Date, r).of(n) == n as real
  {
  }

  lemma DaysAreNamed(vs: seq<Scalar>, ns: seq<int>, w: World)
    requires w.r.Valid() && AreDates(vs, ns)
    ensures EachNamed(NumbersOf(vs, Primitive.Date, w), ns, NumberKeys(false, Primitive.Date, w.r)) <==> WithTheirDays(vs)
  {
    forall k | 0 <= k < |vs|
      ensures NumberKeys(false, Primitive.Date, w.r).of(ns[k]) in NumbersOf(vs, Primitive.Date, w) <==>
              Scalar.Date(vs[k].days.Floor as real) in vs
    {
      DayIsItself(ns[k], w.r);
      DateIsNumber(vs, ns, ns[k] as real, w);
    }
    EachByIndex(vs, ns, n => NumberKeys(false, Primitive.Date, w.r).of(n) in NumbersOf(vs, Primitive.Date, w),
                (v: Scalar) => v.Date? ==> Scalar.Date(v.days.Floor as real) in vs);
  }

  lemma EachByIndex(vs: seq<Scalar>, ns: seq<int>, theirs: int -> bool, mine: Scalar -> bool)
    requires |ns| == |vs| && forall k :: 0 <= k < |vs| ==> (theirs(ns[k]) <==> mine(vs[k]))
    ensures (forall n :: n in ns ==> theirs(n)) <==> (forall v :: v in vs ==> mine(v))
  {
    if forall n :: n in ns ==> theirs(n) {
      forall v | v in vs
        ensures mine(v)
      {
        var k :| 0 <= k < |vs| && vs[k] == v;
        assert ns[k] in ns;
      }
    }
    if forall v :: v in vs ==> mine(v) {
      forall n | n in ns
        ensures theirs(n)
      {
        var k :| 0 <= k < |ns| && ns[k] == n;
        assert vs[k] in vs;
      }
    }
  }

  /** Days are numbers of their own, so no list of them lacks a neighbour or misses a whole day. */
  lemma DaysAreMet(vs: seq<Scalar>, ns: seq<int>, w: World)
    requires w.r.Valid() && AreDates(vs, ns)
    ensures Full(ns, NumberKeys(false, Primitive.Date, w.r))
    ensures Met(NumbersOf(vs, Primitive.Date, w), ns, NumberKeys(false, Primitive.Date, w.r))
  {
    var keys := NumberKeys(false, Primitive.Date, w.r);
    forall n
      ensures keys.of(n) == n as real
    {
      DayIsItself(n, w.r);
    }
    forall x | x in NumbersOf(vs, Primitive.Date, w)
      ensures (exists n :: n in ns && keys.of(n) == x) || forall i :: keys.Holds(i) ==> keys.of(i) != x
    {
      DateIsNumber(vs, ns, x, w);
      var k :| 0 <= k < |vs| && vs[k] == Scalar.Date(x);
      assert ns[k] in ns && keys.of(ns[k]) == x.Floor as real;
    }
  }

  /** Texts beside 32-bit integers: exactly if each integer they read as, written out, is one of the texts. */
  lemma SetsOfDigitsExactly(vs: seq<Scalar>, ds: seq<Value>, w: World)
    requires w.Valid() && AllTyped(vs, ds, Int, w) && AreTexts(vs, Int, w)
    ensures AllInts(ds)
    ensures SetsAlike(vs, ds, Int, w) <==> forall n :: n in IntsOf(ds) ==> IntText(n) in NamesOf(vs)
  {
    SetsOfTextsExactly(vs, ds, Int, w);
    forall k | 0 <= k < |vs|
      ensures ReadsAs(NamesOf(vs)[k], IntsOf(ds)[k])
    {
      assert vs[k] in vs;
      TextIsRead(vs[k], IntsOf(ds)[k], Int, w);
    }
    DigitsAreMet(NamesOf(vs), IntsOf(ds), w.r);
  }

  /** Integers are written in texts of their own, so no list of them lacks a neighbour or misses one. */
  lemma DigitsAreMet(names: seq<string>, ns: seq<int>, r: RSide)
    requires r.Valid() && |names| == |ns| && forall k :: 0 <= k < |names| ==> ReadsAs(names[k], ns[k])
    ensures Full(ns, TextKeys(Int, r)) && Met(names, ns, TextKeys(Int, r))
    ensures EachNamed(names, ns, TextKeys(Int, r)) <==> forall n :: n in ns ==> IntText(n) in names
  {
    var keys := TextKeys(Int, r);
    forall i
      ensures keys.of(i) == IntText(i) && ReadsAs(keys.of(i), i)
    {
      IntTextIsRead(i);
    }
    forall x | x in names
      ensures (exists n :: n in ns && keys.of(n) == x) || forall i :: keys.Holds(i) ==> keys.of(i) != x
    {
      var k :| 0 <= k < |names| && names[k] == x;
      assert ns[k] in ns;
    }
  }

  // ---- any column, any class ----

  /** The elements of an R vector; a list can mix classes. */
  ghost predicate OneClass(vs: seq<Scalar>) {
    forall u, v :: u in vs && v in vs ==> SameClass(u, v)
  }

  predicate SameClass(u: Scalar, v: Scalar) {
    && (u.Logical? <==> v.Logical?) && (u.Numeric? <==> v.Numeric?) && (u.Integer64? <==> v.Integer64?)
    && (u.Character? <==> v.Character?) && (u.Factor? <==> v.Factor?)
    && (u.Date? <==> v.Date?) && (u.Instant? <==> v.Instant?)
  }

  /** Which texts R reads as dates, instants or integer64s is not modelled. */
  ghost predicate SetRendered(vs: seq<Scalar>, ty: Primitive, w: World) {
    ty.Text? ==> forall v :: v in vs ==> !OwnLiteral(v, ty, w).At?
  }

  /** The exact condition on a set, by the column's type. */
  ghost predicate SetPlaced(vs: seq<Scalar>, ds: seq<Value>, ty: Primitive, w: World) {
    match ty
    case Boolean => true
    case Double => true
    case Float => EachIsIn(vs, ds, ty, w)
    case Text => AreTexts(vs, ty, w)
    case Uuid => vs == []
    case _ =>
      AllInts(ds) && vs != [] ==>
        if OwnLiteral(vs[0], ty, w).Word? then TextsPlaced(vs, IntsOf(ds), ty, w.r)
        else NumbersPlaced(vs, IntsOf(ds), Truncates(vs[0], ty), ty, w)
  }

  /** For every class of values and type of column: the sets are one exactly under the condition. */
  lemma SetsAlikeExactly(vs: seq<Scalar>, ds: seq<Value>, ty: Primitive, w: World)
    requires w.Valid() && AllTyped(vs, ds, ty, w) && OneClass(vs) && SetRendered(vs, ty, w)
    ensures SetsAlike(vs, ds, ty, w) <==> SetPlaced(vs, ds, ty, w)
  {
    if vs == [] {
      EmptySets(ds, ty, w);
    } else if ty.Boolean? || ty.Double? {
      AlwaysAlike(vs, ds, ty, w);
    } else if ty.Float? {
      SetsOfSinglesExactly(vs, ds, w);
    } else if ty.Text? || ty.Uuid? {
      WordSetsExactly(vs, ds, ty, w);
    } else {
      CountedSetsExactly(vs, ds, ty, w);
    }
  }

  lemma EmptySets(ds: seq<Value>, ty: Primitive, w: World)
    requires ds == []
    ensures SetsAlike([], ds, ty, w) && SetPlaced([], ds, ty, w)
  {
  }

  lemma AlwaysAlike(vs: seq<Scalar>, ds: seq<Value>, ty: Primitive, w: World)
    requires w.Valid() && AllTyped(vs, ds, ty, w) && (ty.Boolean? || ty.Double?)
    ensures SetsAlike(vs, ds, ty, w)
  {
    forall k | 0 <= k < |vs|
      ensures AnswersAlike(Eq, vs[k], ds[k], ty, w)
    {
      if ty.Boolean? {
        BooleansAgree(Eq, vs[k], ds[k], w);
      } else {
        DoublesAgree(Eq, vs[k], ds[k], w);
      }
    }
    EqualsMakeSets(vs, ds, ty, w);
  }

  lemma WordSetsExactly(vs: seq<Scalar>, ds: seq<Value>, ty: Primitive, w: World)
    requires w.Valid() && AllTyped(vs, ds, ty, w) && OneClass(vs) && SetRendered(vs, ty, w)
    requires vs != [] && (ty.Text? || ty.Uuid?)
    ensures SetsAlike(vs, ds, ty, w) <==> ty.Text? && AreTexts(vs, ty, w)
  {
    assert vs[0] in vs && ds[0] in ds;
    if ty.Text? && AreTexts(vs, ty, w) {
      WordSetsAgree(vs, ds, w);
    } else {
      SetsExactly(vs, ds, ty, w);
      TypedIsHeld(vs[0], ty, ds[0], w);
      NoneIsIn(vs, ds[0], ty, w);
    }
  }

  lemma WordSetsAgree(vs: seq<Scalar>, ds: seq<Value>, w: World)
    requires w.Valid() && AllTyped(vs, ds, Text, w) && AreTexts(vs, Text, w)
    ensures SetsAlike(vs, ds, Text, w)
  {
    forall k | 0 <= k < |vs|
      ensures AnswersAlike(Eq, vs[k], ds[k], Text, w)
    {
      assert vs[k] in vs;
      WordsExactly(Eq, vs[k], ds[k], w);
    }
    EqualsMakeSets(vs, ds, Text, w);
  }

  lemma NoneIsIn(vs: seq<Scalar>, d: Value, ty: Primitive, w: World)
    requires OneClass(vs) && SetRendered(vs, ty, w) && (ty.Uuid? || (ty.Text? && !AreTexts(vs, ty, w)))
    requires Held(d, ty, w.lib)
    ensures !OwnIn(d, vs, ty, w)
  {
    forall v | v in vs
      ensures !OwnAnswer(Eq, d, v, ty, w).True?
    {
      if ty.Text? {
        AllOrNone(vs, v, ty, w);
      }
    }
  }

  /** Values of one class are all texts beside the column, or none is. */
  lemma AllOrNone(vs: seq<Scalar>, v: Scalar, ty: Primitive, w: World)
    requires OneClass(vs) && v in vs
    ensures if OwnLiteral(v, ty, w).Word? then AreTexts(vs, ty, w) else AreNumbers(vs, Truncates(v, ty), ty, w)
  {
    forall u | u in vs
      ensures (OwnLiteral(u, ty, w).Word? <==> OwnLiteral(v, ty, w).Word?) && Truncates(u, ty) == Truncates(v, ty)
    {
      assert SameClass(u, v);
    }
  }

  lemma CountedSetsExactly(vs: seq<Scalar>, ds: seq<Value>, ty: Primitive, w: World)
    requires w.Valid() && AllTyped(vs, ds, ty, w) && OneClass(vs) && vs != []
    requires !ty.Boolean? && !IsFloat(ty) && !ty.Text? && !ty.Uuid?
    ensures AllInts(ds)
    ensures SetsAlike(vs, ds, ty, w) <==>
            if OwnLiteral(vs[0], ty, w).Word? then TextsPlaced(vs, IntsOf(ds), ty, w.r)
            else NumbersPlaced(vs, IntsOf(ds), Truncates(vs[0], ty), ty, w)
  {
    TypedIsCounted(vs[0], ty, ds[0], w);
    AllOrNone(vs, vs[0], ty, w);
    if OwnLiteral(vs[0], ty, w).Word? {
      SetsOfTextsExactly(vs, ds, ty, w);
    } else {
      SetsOfNumbersExactly(vs, ds, Truncates(vs[0], ty), ty, w);
    }
  }

  /** `ts %in% 1700000000`: the filter keeps the instant of that many microseconds, which R does not count in the set. */
  lemma SecondsInASet(token: string, w: World)
    requires w.Valid() && w.lib.number(token) == Whole(1700000000) && w.lib.toDouble(1700000000) == 1700000000.0
    ensures var vs, ds, cell := [Numeric(token)], [IntV(1700000000)], IntV(1700000000);
            && AllTyped(vs, ds, Timestamp, w) && Held(cell, Timestamp, w.lib)
            && Among(cell, ds) && !OwnIn(cell, vs, Timestamp, w)
  {
    var v := Numeric(token);
    SecondsOf2023(token, w);
    AmongInts(1700000000, [IntV(1700000000)]);
    InstantIsSmall(1700000000, Timestamp, w.r);
    CountedAnswer(Eq, 1700000000, v, Timestamp, w);
  }
}
