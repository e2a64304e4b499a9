/**
 Rewriting a decimal literal to a column's scale. Iceberg compares unscaled
 mantissas, so a literal at another scale is another number.
 */
module DecimalText {
  import opened Outcomes

  datatype DecimalError = Exponent | NotDecimal | TooManyPlaces(places: nat)

  predicate IsDigit(c: char) { '0' <= c <= '9' }

  predicate Digits(s: string) { forall i :: 0 <= i < |s| ==> IsDigit(s[i]) }

  predicate AllZero(s: string) { forall i :: 0 <= i < |s| ==> s[i] == '0' }

  function Zeros(n: nat): (s: string)
    ensures |s| == n && AllZero(s) && Digits(s)
  {
    seq(n, i => '0')
  }

  /** Unicode White_Space, what Rust's trim() removes. */
  predicate IsSpace(c: char) {
    '\t' <= c <= '\r' || c == ' ' || c == '\U{85}' || c == '\U{A0}' || c == '\U{1680}'
    || '\U{2000}' <= c <= '\U{200A}' || c == '\U{2028}' || c == '\U{2029}' || c == '\U{202F}'
    || c == '\U{205F}' || c == '\U{3000}'
  }

  function TrimStart(s: string): string {
    if s != "" && IsSpace(s[0]) then TrimStart(s[1..]) else s
  }

  function Trim(s: string): string {
    if s != "" && IsSpace(s[|s| - 1]) then Trim(s[..|s| - 1]) else TrimStart(s)
  }

  /** The text either side of the first `.`; nothing after it when there is none. */
  function SplitPoint(s: string): (r: (string, string, bool))
    ensures '.' !in r.0
    ensures s == r.0 + (if r.2 then "." else "") + r.1
    ensures !r.2 ==> r.1 == ""
  {
    if s == "" then ("", "", false)
    else if s[0] == '.' then ("", s[1..], true)
    else
      var r := SplitPoint(s[1..]);
      ([s[0]] + r.0, r.1, r.2)
  }

  predicate Minus(s: string) { s != "" && s[0] == '-' }

  function Unsigned(s: string): string {
    if Minus(s) || (s != "" && s[0] == '+') then s[1..] else s
  }

  /** The sign, and the digits either side of the point; none when it is not a plain decimal. */
  function Read(s: string): (r: Option<Plain>)
    ensures r.Some? ==> Digits(r.value.whole) && Digits(r.value.frac)
  {
    var (whole, frac, _) := SplitPoint(Unsigned(s));
    if (whole == "" && frac == "") || !Digits(whole) || !Digits(frac) then None
    else Some(Plain(Minus(s), whole, frac))
  }

  function Rescale(text: string, scale: nat): Result<string, DecimalError> {
    var s := Trim(text);
    if 'e' in s || 'E' in s then Err(Exponent)
    else
      match Read(s)
      case None => Err(NotDecimal)
      case Some(d) =>
        if |d.frac| > scale && !AllZero(d.frac[scale..]) then Err(TooManyPlaces(|d.frac|))
        else Ok(Fitted(d, scale).Render())
  }

  /** The same decimal with exactly `scale` places, and a digit before the point. */
  function Fitted(d: Plain, scale: nat): Plain {
    Plain(d.negative, if d.whole == "" then "0" else d.whole, Places(d.frac, scale))
  }

  /** The fraction cut or padded to `scale` digits. */
  function Places(frac: string, scale: nat): (p: string)
    ensures |p| == scale
  {
    if |frac| > scale then frac[..scale] else frac + Zeros(scale - |frac|)
  }

  // ---- the grammar, and what a decimal denotes ----

  /** A plain decimal: the number +-whole.frac, with `|frac|` places. */
  datatype Plain = Plain(negative: bool, whole: string, frac: string) {
    function Render(): string {
      (if negative then "-" else "") + whole + if frac == "" then "" else "." + frac
    }

    /** The unscaled integer Iceberg stores for it at `|frac|` places. */
    function Mantissa(): int
      requires Digits(whole) && Digits(frac)
    {
      Signed(negative, Natural(whole + frac))
    }
  }

  function Signed(negative: bool, n: int): int { if negative then -n else n }

  /** An optional sign, digits, and optionally a point and more digits; some digit is there. */
  ghost predicate SpelledWith(s: string, d: Plain, sign: string, point: string) {
    && Digits(d.whole) && Digits(d.frac) && d.whole + d.frac != ""
    && (if d.negative then sign == "-" else sign == "" || sign == "+")
    && (point == "." || (point == "" && d.frac == ""))
    && s == sign + (d.whole + point + d.frac)
  }

  ghost predicate Spells(s: string, d: Plain) {
    exists sign: string, point: string :: SpelledWith(s, d, sign, point)
  }

  function Digit(c: char): nat
    requires IsDigit(c)
  {
    c as int - '0' as int
  }

  function Natural(s: string): nat
    requires Digits(s)
  {
    if s == "" then 0 else 10 * Natural(s[..|s| - 1]) + Digit(s[|s| - 1])
  }

  function DigitChar(d: nat): (c: char)
    requires d < 10
    ensures IsDigit(c) && Digit(c) == d
  {
    (d + '0' as int) as char
  }

  /** A number in decimal, without a zero in front. */
  function NatText(n: nat): (s: string)
    ensures s != "" && Digits(s) && Natural(s) == n
    ensures n > 0 ==> s[0] != '0'
  {
    if n < 10 then
      assert [DigitChar(n)][..0] == "";
      [DigitChar(n)]
    else
      var s := NatText(n / 10) + [DigitChar(n % 10)];
      assert s[..|s| - 1] == NatText(n / 10);
      s
  }

  /** An integer as it is written. */
  function IntText(n: int): (s: string)
    ensures s != "" && s[0] <= '9' && (n < 0 <==> s[0] == '-') && (n >= 0 <==> '0' <= s[0])
  {
    if n < 0 then "-" + NatText(-n) else NatText(n)
  }

  function Pow10(k: nat): (p: int)
    ensures p > 0
  {
    if k == 0 then 1 else 10 * Pow10(k - 1)
  }

  /** m1 / 10^k1 == m2 / 10^k2 */
  ghost predicate SameNumber(m1: int, k1: nat, m2: int, k2: nat) {
    m1 * Pow10(k2) == m2 * Pow10(k1)
  }

  /** m1 / 10^k1 < m2 / 10^k2 */
  ghost predicate LessNumber(m1: int, k1: nat, m2: int, k2: nat) {
    m1 * Pow10(k2) < m2 * Pow10(k1)
  }

  // ---- lemmas ----

  predicate AllSpace(s: string) { forall i :: 0 <= i < |s| ==> IsSpace(s[i]) }

  /** The code points that are spaces. */
  lemma SpacesAre(c: char)
    ensures IsSpace(c) <==> c as int in [
      9, 10, 11, 12, 13, 32, 133, 160, 5760, 8192, 8193, 8194, 8195, 8196, 8197, 8198, 8199, 8200, 8201, 8202,
      8232, 8233, 8239, 8287, 12288]
  {
  }

  /** Trimming takes away the spaces at either end, and all of them. */
  lemma {:induction false} TrimIs(s: string) returns (before: string, after: string)
    ensures AllSpace(before) && AllSpace(after) && s == before + Trim(s) + after
    ensures Trim(s) == "" || (!IsSpace(Trim(s)[0]) && !IsSpace(Trim(s)[|Trim(s)| - 1]))
    decreases |s|
  {
    if s != "" && IsSpace(s[|s| - 1]) {
      before, after := TrimIs(s[..|s| - 1]);
      after := after + [s[|s| - 1]];
      assert s == s[..|s| - 1] + [s[|s| - 1]];
    } else {
      before := TrimStartIs(s);
      after := "";
    }
  }

  lemma {:induction false} TrimStartIs(s: string) returns (before: string)
    ensures AllSpace(before) && s == before + TrimStart(s)
    ensures TrimStart(s) == "" || !IsSpace(TrimStart(s)[0])
  {
    if s != "" && IsSpace(s[0]) {
      before := TrimStartIs(s[1..]);
      before := [s[0]] + before;
      assert s == [s[0]] + s[1..];
    } else {
      before := "";
    }
  }

  lemma UntrimmedIsItself(s: string)
    requires s != "" && !IsSpace(s[0]) && !IsSpace(s[|s| - 1])
    ensures Trim(s) == s
  {
  }

  /** A text that spells a decimal has no spaces about it. */
  lemma SpellsIsTrimmed(s: string, d: Plain)
    requires Spells(s, d)
    ensures Trim(s) == s
  {
    var sign: string, point: string :| SpelledWith(s, d, sign, point);
    forall c | c in s
      ensures IsDigit(c) || c in "+-."
    {
      assert c in sign || c in d.whole || c in point || c in d.frac;
    }
    assert s[0] in s && s[|s| - 1] in s;
    UntrimmedIsItself(s);
  }

  /** A text spells at most one decimal: the one the code reads. */
  lemma SpellsIsRead(s: string, d: Plain)
    requires Spells(s, d)
    ensures Read(s) == Some(d)
  {
    var sign: string, point: string :| SpelledWith(s, d, sign, point);
    SignIsRead(sign, d.whole + point + d.frac);
    SplitDigits(d.whole, point, d.frac);
  }

  lemma SignIsRead(sign: string, body: string)
    requires sign == "" || sign == "+" || sign == "-"
    requires body != "" && body[0] != '+' && body[0] != '-'
    ensures Minus(sign + body) <==> sign == "-"
    ensures Unsigned(sign + body) == body
  {
    assert sign != "" ==> (sign + body)[1..] == body;
    assert sign == "" ==> sign + body == body;
  }

  lemma SpellsHasNoExponent(s: string, d: Plain)
    requires Spells(s, d)
    ensures 'e' !in s && 'E' !in s
  {
    var sign: string, point: string :| SpelledWith(s, d, sign, point);
    forall c | c in s
      ensures IsDigit(c) || c in "+-."
    {
      assert c in sign || c in d.whole || c in point || c in d.frac;
    }
  }

  lemma ReadIsSpelled(s: string)
    ensures Read(s).Some? ==> Spells(s, Read(s).value)
  {
    var rest := Unsigned(s);
    var (whole, frac, pointed) := SplitPoint(rest);
    if Read(s).Some? {
      var sign := if rest == s then "" else [s[0]];
      var point := if pointed then "." else "";
      assert SpelledWith(s, Read(s).value, sign, point);
    }
  }

  lemma {:induction false} SplitDigits(whole: string, point: string, frac: string)
    requires Digits(whole) && Digits(frac)
    requires point == "." || (point == "" && frac == "")
    ensures SplitPoint(whole + point + frac).0 == whole
    ensures SplitPoint(whole + point + frac).1 == frac
  {
    var s := whole + point + frac;
    if whole == "" {
      assert point == "." ==> s[1..] == frac;
    } else {
      assert s[0] == whole[0];
      assert s[1..] == whole[1..] + point + frac;
      SplitDigits(whole[1..], point, frac);
    }
  }

  lemma {:induction false} NaturalConcat(a: string, zeros: string)
    requires Digits(a) && AllZero(zeros)
    ensures Natural(a + zeros) == Natural(a) * Pow10(|zeros|)
  {
    if zeros == "" {
      assert a + zeros == a;
    } else {
      var init := zeros[..|zeros| - 1];
      assert (a + zeros)[..|a + zeros| - 1] == a + init;
      NaturalConcat(a, init);
      var n, p := Natural(a), Pow10(|init|);
      assert 10 * (n * p) == n * (10 * p);
    }
  }

  lemma {:induction false} NaturalLeadingZero(s: string)
    requires Digits(s)
    ensures Natural("0" + s) == Natural(s)
  {
    if s != "" {
      assert ("0" + s)[..|s|] == "0" + s[..|s| - 1];
      NaturalLeadingZero(s[..|s| - 1]);
    } else {
      assert "0" + s == "0";
      assert "0"[..0] == "";
    }
  }

  lemma {:induction false} Pow10Adds(a: nat, b: nat)
    ensures Pow10(a + b) == Pow10(a) * Pow10(b)
  {
    if a > 0 {
      Pow10Adds(a - 1, b);
      var x, y := Pow10(a - 1), Pow10(b);
      assert 10 * (x * y) == (10 * x) * y;
    }
  }

  /** Fitting a decimal to a scale it fits keeps the number. */
  lemma FittedIsSame(d: Plain, scale: nat)
    requires Digits(d.whole) && Digits(d.frac)
    requires |d.frac| > scale ==> AllZero(d.frac[scale..])
    ensures var e := Fitted(d, scale);
            && Digits(e.whole) && Digits(e.frac) && |e.frac| == scale
            && Spells(e.Render(), e)
            && SameNumber(e.Mantissa(), scale, d.Mantissa(), |d.frac|)
  {
    var e := Fitted(d, scale);
    RenderSpells(e);
    if d.whole == "" {
      NaturalLeadingZero(e.frac);
      assert d.whole + e.frac == e.frac;
    }
    SameDigits(d.whole, d.frac, e.frac, scale);
    SameSigned(d.negative, Natural(e.whole + e.frac), scale, Natural(d.whole + d.frac), |d.frac|);
  }

  lemma SameSigned(negative: bool, m1: int, k1: nat, m2: int, k2: nat)
    requires SameNumber(m1, k1, m2, k2)
    ensures SameNumber(Signed(negative, m1), k1, Signed(negative, m2), k2)
  {
    assert -m1 * Pow10(k2) == -(m1 * Pow10(k2));
    assert -m2 * Pow10(k1) == -(m2 * Pow10(k1));
  }

  lemma RenderSpells(d: Plain)
    requires Digits(d.whole) && Digits(d.frac) && d.whole != ""
    ensures Spells(d.Render(), d)
  {
    var sign := if d.negative then "-" else "";
    var point := if d.frac == "" then "" else ".";
    assert SpelledWith(d.Render(), d, sign, point);
  }

  lemma SameDigits(whole: string, frac: string, places: string, scale: nat)
    requires Digits(whole) && Digits(frac) && Digits(places) && |places| == scale
    requires places == Places(frac, scale) && (|frac| > scale ==> AllZero(frac[scale..]))
    ensures SameNumber(Natural(whole + places), scale, Natural(whole + frac), |frac|)
  {
    if |frac| > scale {
      var z := frac[scale..];
      assert whole + frac == (whole + places) + z;
      NaturalConcat(whole + places, z);
      Pow10Adds(scale, |z|);
      Regroup(Natural(whole + places), Pow10(scale), Pow10(|z|));
    } else {
      var z := Zeros(scale - |frac|);
      assert whole + places == (whole + frac) + z;
      NaturalConcat(whole + frac, z);
      Pow10Adds(|frac|, |z|);
      Regroup(Natural(whole + frac), Pow10(|frac|), Pow10(|z|));
    }
  }

  lemma Regroup(n: nat, p: nat, q: nat)
    ensures n * (p * q) == (n * q) * p
  {
  }

  /**
   Rescaling succeeds exactly when the trimmed text is a plain decimal with
   nothing but zeros past the column's scale.
   */
  lemma RescaleSucceedsExactly(text: string, scale: nat)
    ensures Rescale(text, scale).Ok? <==>
            exists d: Plain :: Spells(Trim(text), d) && (|d.frac| <= scale || AllZero(d.frac[scale..]))
  {
    ReadIsSpelled(Trim(text));
    if d: Plain :| Spells(Trim(text), d) && (|d.frac| <= scale || AllZero(d.frac[scale..])) {
      SpellsIsRead(Trim(text), d);
      SpellsHasNoExponent(Trim(text), d);
    }
  }

  /** The mantissa Iceberg compares for an accepted literal: its digits at the column's scale. */
  function RescaledMantissa(text: string, scale: nat): int
    requires Rescale(text, scale).Ok?
  {
    Fitted(Read(Trim(text)).value, scale).Mantissa()
  }

  /** The answer spells that mantissa with exactly `scale` places, and denotes the number that was written. */
  lemma RescaledDenotesTheSame(text: string, scale: nat, d: Plain)
    requires Spells(Trim(text), d) && Rescale(text, scale).Ok?
    ensures exists e: Plain :: Spells(Rescale(text, scale).value, e) && |e.frac| == scale
                               && e.Mantissa() == RescaledMantissa(text, scale)
    ensures SameNumber(RescaledMantissa(text, scale), scale, d.Mantissa(), |d.frac|)
  {
    SpellsIsRead(Trim(text), d);
    FittedIsSame(d, scale);
  }

  lemma {:induction false} NaturalAppend(a: string, b: string)
    requires Digits(a) && Digits(b)
    ensures Natural(a + b) == Natural(a) * Pow10(|b|) + Natural(b)
  {
    if b == "" {
      assert a + b == a;
    } else {
      var init := b[..|b| - 1];
      assert (a + b)[..|a + b| - 1] == a + init;
      NaturalAppend(a, init);
      OneDigitMore(Natural(a + init), Natural(a), Pow10(|init|), Natural(init), Digit(b[|b| - 1]));
    }
  }

  lemma OneDigitMore(x: int, n: int, p: int, c: int, digit: int)
    requires x == n * p + c
    ensures 10 * x + digit == n * (10 * p) + (10 * c + digit)
  {
    assert n * (10 * p) == 10 * (n * p);
  }

  lemma {:induction false} NaturalIsBelow(b: string)
    requires Digits(b)
    ensures Natural(b) < Pow10(|b|)
    ensures Natural(b) == 0 ==> AllZero(b)
  {
    if b != "" {
      NaturalIsBelow(b[..|b| - 1]);
    }
  }

  lemma ProductsGrow(x: int, y: int, p: int)
    requires p > 0
    ensures x < y ==> x * p + p <= y * p
  {
    if x < y {
      assert (y - x) * p == y * p - x * p;
      AtLeastOnce(y - x, p);
    }
  }

  lemma AtLeastOnce(d: int, p: int)
    requires p > 0 && d >= 1
    ensures d * p >= p
  {
  }

  lemma Cancelled(x: int, y: int, p: int)
    requires p > 0 && x * p == y * p
    ensures x == y
  {
    ProductsGrow(x, y, p);
    ProductsGrow(y, x, p);
  }

  lemma RestIsZero(n: int, a: int, b: nat, p: int)
    requires b < p && n * p == a * p + b
    ensures b == 0
  {
    ProductsGrow(a, n, p);
    ProductsGrow(n, a, p);
  }

  /** A number that has only so many places has zeros past them, however it is written. */
  lemma PlacesAreZeros(d: Plain, n: int, scale: nat)
    requires Digits(d.whole) && Digits(d.frac) && |d.frac| > scale && SameNumber(n, scale, d.Mantissa(), |d.frac|)
    ensures AllZero(d.frac[scale..])
  {
    var z, a := d.frac[scale..], d.whole + d.frac[..scale];
    assert d.whole + d.frac == a + z;
    NaturalAppend(a, z);
    NaturalIsBelow(z);
    Pow10Adds(scale, |z|);
    var m, p := Signed(d.negative, n), Pow10(|z|);
    Unscaled(d.Mantissa(), n, scale, |z|);
    assert m * p == Natural(a) * p + Natural(z);
    RestIsZero(m, Natural(a), Natural(z), p);
  }

  lemma Unscaled(mantissa: int, n: int, scale: nat, more: nat)
    requires SameNumber(n, scale, mantissa, scale + more)
    ensures mantissa == n * Pow10(more) && -mantissa == -n * Pow10(more)
  {
    Pow10Adds(scale, more);
    var s, p := Pow10(scale), Pow10(more);
    Shuffled(n, s, p);
    Cancelled(n * p, mantissa, s);
    Negated(n, p);
  }

  lemma Shuffled(n: int, s: int, p: int)
    ensures n * (s * p) == (n * p) * s
  {
  }

  lemma Negated(n: int, p: int)
    ensures -n * p == -(n * p)
  {
  }

  /** A text is the integer `n` at a scale exactly if what it spells is `n` tenths, hundredths and so on. */
  lemma RescaledExactly(text: string, scale: nat, n: int)
    ensures Rescale(text, scale).Ok? && RescaledMantissa(text, scale) == n <==>
            SpelledAt(Trim(text), n, scale)
  {
    if Rescale(text, scale).Ok? {
      RescaleSucceedsExactly(text, scale);
      var d: Plain :| Spells(Trim(text), d) && (|d.frac| <= scale || AllZero(d.frac[scale..]));
      RescaledDenotesTheSame(text, scale, d);
      assert IsAtScale(d, RescaledMantissa(text, scale), scale);
    }
    if d: Plain :| Spells(Trim(text), d) && IsAtScale(d, n, scale) {
      if |d.frac| > scale {
        PlacesAreZeros(d, n, scale);
      }
      RescaleSucceedsExactly(text, scale);
      RescaledDenotesTheSame(text, scale, d);
      Cancelled(RescaledMantissa(text, scale), n, Pow10(|d.frac|));
    }
  }

  /** The text spells `n` over ten to the scale, in however many places. */
  ghost predicate SpelledAt(text: string, n: int, scale: nat) {
    exists d: Plain :: Spells(text, d) && IsAtScale(d, n, scale)
  }

  /** The decimal is `n` over ten to the scale. */
  ghost predicate IsAtScale(d: Plain, n: int, scale: nat) {
    Digits(d.whole) && Digits(d.frac) && SameNumber(n, scale, d.Mantissa(), |d.frac|)
  }

  /** At one scale, comparing mantissas compares the numbers as written. */
  lemma MantissasOrderAsNumbers(a: string, b: string, scale: nat, da: Plain, db: Plain)
    requires Spells(Trim(a), da) && Rescale(a, scale).Ok?
    requires Spells(Trim(b), db) && Rescale(b, scale).Ok?
    ensures RescaledMantissa(a, scale) < RescaledMantissa(b, scale) <==>
            LessNumber(da.Mantissa(), |da.frac|, db.Mantissa(), |db.frac|)
  {
    RescaledDenotesTheSame(a, scale, da);
    RescaledDenotesTheSame(b, scale, db);
    CrossMultiplied(RescaledMantissa(a, scale), RescaledMantissa(b, scale), Pow10(scale),
                    da.Mantissa(), Pow10(|da.frac|), db.Mantissa(), Pow10(|db.frac|));
  }

  lemma CrossMultiplied(ma: int, mb: int, s: nat, na: int, pa: nat, nb: int, pb: nat)
    requires s > 0 && pa > 0 && pb > 0
    requires ma * pa == na * s && mb * pb == nb * s
    ensures ma < mb <==> na * pb < nb * pa
  {
    var p := pa * pb;
    calc {
      (mb - ma) * p;
      (mb * pb) * pa - (ma * pa) * pb;
      (nb * s) * pa - (na * s) * pb;
      s * (nb * pa - na * pb);
    }
    assert p > 0;
    SignOfProduct(mb - ma, p);
    SignOfProduct(nb * pa - na * pb, s);
    assert s * (nb * pa - na * pb) == (nb * pa - na * pb) * s;
  }

  lemma SignOfProduct(x: int, p: nat)
    requires p > 0
    ensures x * p > 0 <==> x > 0
  {
    if x <= 0 {
      assert x * p <= 0;
    }
  }
}
