/**
 A column of integers compared with a text: R writes the integers out and compares
 texts, byte by byte in the C locale, where the compiled filter reads the text as
 an integer. When the two answer alike, operator by operator.
 */
module OwnText {
  import opened Outcomes
  import opened Values
  import opened DecimalText
  import opened Literals

  function Codes(s: string): (codes: seq<int>)
    ensures |codes| == |s| && forall i :: 0 <= i < |s| ==> codes[i] == s[i] as int
  {
    seq(|s|, i requires 0 <= i < |s| => s[i] as int)
  }

  function TextOrder(a: string, b: string): Order { BytesOrder(Codes(a), Codes(b)) }

  /** How the integers of a range are written. */
  datatype Texts = Texts(of: int -> string, low: int, high: int) {
    predicate Holds(i: int) { low <= i <= high }

    /** Integers that are written the same are next to each other. */
    ghost predicate Contiguous() {
      forall i, j, k :: low <= i <= j <= k <= high && of(i) == of(k) ==> of(j) == of(i)
    }

    /**
     The integers of 32 or of 64 bits: small ones in digits, all of them with their
     sign and first digit in front, and the two ends neither short nor out of order.
     */
    ghost predicate Written() {
      && low < -100 && (high == INT32_LIMIT - 1 || high == INT64_LIMIT - 1)
      && (forall i :: -100 < i < 100000 ==> of(i) == IntText(i))
      && (forall i :: Holds(i) ==> StartsAsInteger(of(i), i))
      && of(low)[1] > '1' && (of(high)[0] < '9' || (|of(high)| > 1 && of(high)[1] < '3'))
    }

    /** No neighbour is written the same. */
    predicate Alone(n: int) { (n > low ==> of(n - 1) != of(n)) && (n < high ==> of(n + 1) != of(n)) }
  }

  predicate StartsAsInteger(t: string, i: int) {
    && t != ""
    && (i < 0 ==> |t| > 1 && t[0] == '-' && '1' <= t[1] <= '9')
    && (i > 0 ==> '1' <= t[0] <= '9')
    && (i > 1 && t[0] == '1' ==> |t| > 1 && t[1] >= '.')
  }

  /** Comparing the text of every integer with `s` answers as comparing the integer with `n` does. */
  ghost predicate TextAnswers(op: Cmp, s: string, n: int, ts: Texts) {
    forall i :: ts.Holds(i) ==> (op.Holds(TextOrder(ts.of(i), s)) <==> op.Holds(IntOrder(i, n)))
  }

  /** The condition on a text that reads as `n`: but for zero, one and the two ends of the range, no order agrees. */
  predicate TextPlaced(op: Cmp, s: string, n: int, ts: Texts) {
    match op
    case Eq => s == ts.of(n) && ts.Alone(n)
    case Ne => s == ts.of(n) && ts.Alone(n)
    case Lt => PlacedBelow(s, n, ts.low)
    case Gte => PlacedBelow(s, n, ts.low)
    case Lte => PlacedUpTo(s, n, ts.high)
    case Gt => PlacedUpTo(s, n, ts.high)
  }

  predicate PlacedBelow(s: string, n: int, low: int) {
    || (n == 0 && s == "0")
    || (n == 1 && s != "" && (s == "1" || s[0] == '0'))
    || (n == low && !TextOrder("-1", s).Less?)
  }

  predicate PlacedUpTo(s: string, n: int, high: int) {
    s != "" &&
    (|| (n == 0 && s[0] == '0')
     || (n == 1 && s[0] == '1' && (|s| == 1 || s[1] < '0'))
     || (n == high && s[0] > '9'))
  }

  // ---- the order of texts ----

  lemma FirstDecides(a: string, b: string)
    requires a != "" && b != "" && a[0] != b[0]
    ensures TextOrder(a, b) == if a[0] < b[0] then Less else More
  {
    assert Codes(a)[0] != Codes(b)[0];
  }

  lemma SecondDecides(a: string, b: string)
    requires |a| > 1 && |b| > 1 && a[0] == b[0] && a[1] != b[1]
    ensures TextOrder(a, b) == if a[1] < b[1] then Less else More
  {
    assert Codes(a)[1..][0] != Codes(b)[1..][0];
    assert BytesOrder(Codes(a), Codes(b)) == BytesOrder(Codes(a)[1..], Codes(b)[1..]);
  }

  /** A text of one character, against one that starts with it. */
  lemma StartComesFirst(a: string, b: string)
    requires |a| == 1 && b != "" && b[0] == a[0]
    ensures TextOrder(a, b) == (if |b| == 1 then Same else Less)
    ensures TextOrder(b, a) == (if |b| == 1 then Same else More)
  {
    assert Codes(a)[1..] == [];
    assert |b| == 1 <==> Codes(b)[1..] == [];
    assert BytesOrder(Codes(a), Codes(b)) == BytesOrder([], Codes(b)[1..]);
    assert BytesOrder(Codes(b), Codes(a)) == BytesOrder(Codes(b)[1..], []);
  }

  lemma TextsDiffer(a: string, b: string)
    ensures TextOrder(a, b).Same? <==> a == b
    ensures TextOrder(b, a) == TextOrder(a, b).Reverse()
  {
    BytesOrderSame(Codes(a), Codes(b));
    BytesOrderReverses(Codes(a), Codes(b));
    if Codes(a) == Codes(b) {
      forall i | 0 <= i < |a|
        ensures a[i] == b[i]
      {
        assert Codes(a)[i] == Codes(b)[i];
      }
    }
  }

  /** Two texts in order, and one between them. */
  lemma TextsChain(a: string, b: string, c: string)
    requires !TextOrder(a, b).More? && !TextOrder(b, c).More?
    ensures !TextOrder(a, c).More?
    ensures TextOrder(a, b).Less? || TextOrder(b, c).Less? ==> TextOrder(a, c).Less?
  {
    BytesOrderTransitive(Codes(a), Codes(b), Codes(c));
  }

  // ---- the texts of integers ----

  lemma Leads(n: nat)
    requires n >= 10
    ensures |NatText(n)| > 1 && NatText(n)[0] == NatText(n / 10)[0] && '0' <= NatText(n)[1] <= '9'
  {
    assert NatText(n / 10) != "";
  }

  lemma DigitText(n: nat)
    requires n < 10
    ensures IntText(n) == [DigitChar(n)]
  {
  }

  /** The text of an integer starts with its sign or with a digit, not a zero unless it is zero. */
  lemma IntTextStarts(i: int)
    ensures i == 0 ==> IntText(i) == "0"
    ensures i == 1 ==> IntText(i) == "1"
    ensures i > 0 ==> '1' <= IntText(i)[0] <= '9'
    ensures i > 1 && IntText(i)[0] == '1' ==> |IntText(i)| > 1 && '0' <= IntText(i)[1]
  {
    if i >= 10 {
      Leads(i);
    } else if i >= 0 {
      DigitText(i);
    }
  }

  lemma SmallTexts()
    ensures IntText(-1) == "-1" && IntText(0) == "0" && IntText(1) == "1" && IntText(2) == "2" && IntText(3) == "3"
    ensures IntText(9) == "9" && IntText(10) == "10" && IntText(93) == "93"
  {
    DigitText(0);
    DigitText(1);
    DigitText(2);
    DigitText(3);
    DigitText(9);
    assert NatText(10) == NatText(1) + [DigitChar(0)];
    assert NatText(93) == NatText(9) + [DigitChar(3)];
  }

  lemma ManyStartWithTwo()
    ensures IntText(29999)[0] == '2'
  {
    DigitText(2);
    Leads(29);
    Leads(299);
    Leads(2999);
    Leads(29999);
  }

  lemma NegativeStarts(i: int)
    requires i < 0
    ensures |IntText(i)| > 1 && '1' <= IntText(i)[1] <= '9'
  {
    assert IntText(i)[1] == NatText(-i)[0];
  }

  lemma EndsStartWithTwo()
    ensures IntText(INT32_LIMIT - 1)[0] == '2' && |IntText(-INT32_LIMIT)| > 1 && IntText(-INT32_LIMIT)[1] == '2'
  {
    DigitText(2);
    Leads(21);
    Leads(214);
    Leads(2147);
    Leads(21474);
    Leads(214748);
    Leads(2147483);
    Leads(21474836);
    Leads(214748364);
    Leads(2147483647);
    Leads(2147483648);
  }

  /** 32-bit integers written in digits are such texts. */
  lemma DigitsAreWritten(ts: Texts)
    requires ts.low == -INT32_LIMIT && ts.high == INT32_LIMIT - 1 && forall i :: ts.of(i) == IntText(i)
    ensures ts.Written() && ts.Contiguous()
    ensures forall n :: ts.Alone(n)
  {
    EndsStartWithTwo();
    forall i
      ensures StartsAsInteger(IntText(i), i)
    {
      IntTextStarts(i);
      if i < 0 {
        NegativeStarts(i);
      }
    }
    forall i, k | IntText(i) == IntText(k)
      ensures i == k
    {
      IntTextIsRead(i);
      IntTextIsRead(k);
    }
  }

  // ---- facts about the texts ----

  lemma WrittenIs(ts: Texts, i: int)
    requires ts.Written() && ts.Holds(i)
    ensures StartsAsInteger(ts.of(i), i) && (-100 < i < 100000 ==> ts.of(i) == IntText(i))
  {
  }

  /** Pairs of integers whose texts are in the other order. */
  lemma Inverted(ts: Texts)
    requires ts.Written()
    ensures TextOrder(ts.of(10), ts.of(2)).Less? && TextOrder(ts.of(29999), ts.of(3)).Less?
    ensures TextOrder(ts.of(ts.high), ts.of(93)).Less? && TextOrder(ts.of(-1), ts.of(ts.low)).Less?
  {
    SmallTexts();
    ManyStartWithTwo();
    FirstDecides(IntText(10), IntText(2));
    FirstDecides(IntText(29999), IntText(3));
    WrittenIs(ts, ts.high);
    if ts.of(ts.high)[0] < '9' {
      FirstDecides(ts.of(ts.high), "93");
    } else {
      SecondDecides(ts.of(ts.high), "93");
    }
    WrittenIs(ts, ts.low);
    SecondDecides("-1", ts.of(ts.low));
  }

  // ---- a text that reads as an integer ----

  ghost predicate ReadsAs(s: string, n: int) { ParseInteger(Trim(s)) == Some(n) }

  lemma {:induction false} TrimKeepsStart(s: string)
    requires s != "" && !IsSpace(s[0])
    ensures Trim(s) != "" && Trim(s) <= s
    ensures |Trim(s)| < |s| ==> IsSpace(s[|Trim(s)|])
    decreases |s|
  {
    if IsSpace(s[|s| - 1]) {
      TrimKeepsStart(s[..|s| - 1]);
    }
  }

  lemma {:induction false} NaturalSize(s: string)
    requires s != "" && Digits(s)
    ensures Digit(s[0]) * Pow10(|s| - 1) <= Natural(s) < (Digit(s[0]) + 1) * Pow10(|s| - 1)
    decreases |s|
  {
    var front := s[..|s| - 1];
    if front == "" {
      assert Natural(s) == 10 * Natural(front) + Digit(s[0]);
    } else {
      NaturalSize(front);
      Tenfold(Digit(s[0]), Pow10(|s| - 2));
    }
  }

  lemma Tenfold(d: nat, p: int)
    ensures d * (10 * p) == 10 * (d * p) && (d + 1) * (10 * p) == 10 * ((d + 1) * p)
  {
  }

  lemma {:induction false} PowersGrow(j: nat, k: nat)
    requires j <= k
    ensures Pow10(j) <= Pow10(k)
    decreases k
  {
    if j < k {
      PowersGrow(j, k - 1);
    }
  }

  /** A number that starts with a digit other than zero is at least ten, or that digit. */
  lemma FirstDigitCounts(s: string)
    requires s != "" && Digits(s) && s[0] != '0'
    ensures if |s| == 1 then Natural(s) == Digit(s[0]) else Natural(s) >= 10
  {
    NaturalSize(s);
    assert Pow10(0) == 1 && Pow10(1) == 10;
    if |s| > 1 {
      PowersGrow(1, |s| - 1);
    }
  }

  lemma {:induction false} SecondDigitCounts(s: string)
    requires |s| >= 2 && Digits(s)
    ensures (10 * Digit(s[0]) + Digit(s[1])) * Pow10(|s| - 2) <= Natural(s)
    decreases |s|
  {
    var front := s[..|s| - 1];
    if |s| == 2 {
      assert front[..0] == "" && Natural(front) == 10 * Natural(front[..0]) + Digit(s[0]);
    } else {
      SecondDigitCounts(front);
      Tenfold(10 * Digit(s[0]) + Digit(s[1]), Pow10(|s| - 3));
    }
  }

  /** The largest integers of 32 and of 64 bits do not start with a nine and a digit above two. */
  lemma NinesAreOther(s: string)
    requires s != "" && Digits(s) && s[0] == '9'
    ensures Natural(s) != INT32_LIMIT - 1
    ensures Natural(s) == INT64_LIMIT - 1 ==> |s| > 1 && s[1] < '3'
  {
    NaturalSize(s);
    NinePowers();
    if |s| <= 9 {
      PowersGrow(|s| - 1, 8);
    } else {
      PowersGrow(9, |s| - 1);
    }
    if |s| <= 18 {
      PowersGrow(|s| - 1, 17);
    } else if |s| == 19 {
      SecondDigitCounts(s);
    } else {
      PowersGrow(19, |s| - 1);
    }
  }

  lemma NinePowers()
    ensures Pow10(8) == 100000000 && Pow10(9) == 1000000000
    ensures Pow10(17) == 100000000000000000 && Pow10(18) == 1000000000000000000 && Pow10(19) == 10000000000000000000
  {
    assert Pow10(2) == 100;
    assert Pow10(4) == 10000;
    assert Pow10(6) == 1000000;
    Pow10Adds(8, 9);
    Pow10Adds(9, 9);
    Pow10Adds(1, 18);
    assert Pow10(1) == 10;
  }

  /** How a text that reads as an integer can start. */
  ghost predicate Starts(s: string, n: int) {
    && s != ""
    && (s[0] <= ' ' || s[0] > '9' || s[0] == '+' || s[0] == '-' || IsDigit(s[0]))
    && (s[0] == '+' ==> n >= 0)
    && (s[0] == '-' ==> n <= 0 && |s| > 1 && IsDigit(s[1]) && (n > -10 && s[1] != '0' ==> -n == Digit(s[1])))
    && (IsDigit(s[0]) ==> n >= 0 && (|s| == 1 ==> n == Digit(s[0])))
    && (IsDigit(s[0]) && s[0] != '0' && n < 10 ==> n == Digit(s[0]) && (|s| > 1 ==> IsSpace(s[1])))
    && (s[0] == '9' ==> n != INT32_LIMIT - 1 && (n == INT64_LIMIT - 1 ==> |s| > 1 && s[1] < '3'))
  }

  lemma ReadStarts(s: string, n: int)
    requires ReadsAs(s, n)
    ensures Starts(s, n)
  {
    if !IsSpace(s[0]) {
      TrimKeepsStart(s);
      var t := Trim(s);
      if IsDigit(s[0]) {
        assert Unsigned(t) == t;
        if s[0] != '0' {
          FirstDigitCounts(t);
        }
        if s[0] == '9' {
          NinesAreOther(t);
        }
        if |s| == 1 {
          assert t[..0] == "" && Natural(t) == 10 * Natural(t[..0]) + Digit(t[0]);
        }
      } else if s[0] == '-' {
        assert t[1..][0] == s[1];
        if s[1] != '0' {
          FirstDigitCounts(t[1..]);
        }
      }
    }
  }

  // ---- when the two answer alike ----

  ghost predicate Below(s: string, n: int, ts: Texts) {
    forall i :: ts.Holds(i) ==> (TextOrder(ts.of(i), s).Less? <==> i < n)
  }

  ghost predicate UpTo(s: string, n: int, ts: Texts) {
    forall i :: ts.Holds(i) ==> (!TextOrder(ts.of(i), s).More? <==> i <= n)
  }

  ghost predicate Equal(s: string, n: int, ts: Texts) {
    forall i :: ts.Holds(i) ==> (TextOrder(ts.of(i), s).Same? <==> i == n)
  }

  lemma AnswersAre(op: Cmp, s: string, n: int, ts: Texts)
    ensures TextAnswers(op, s, n, ts) <==>
            if op.Eq? || op.Ne? then Equal(s, n, ts) else if op.Lt? || op.Gte? then Below(s, n, ts) else UpTo(s, n, ts)
  {
    forall i | ts.Holds(i)
      ensures op.Holds(IntOrder(i, n)) <==>
              if op.Eq? then i == n else if op.Ne? then i != n else if op.Lt? then i < n
              else if op.Gte? then !(i < n) else if op.Lte? then i <= n else !(i <= n)
    {
    }
  }

  /** Integers whose texts are in the other order leave only the two ends, zero, one and two. */
  lemma BelowIsNarrow(s: string, n: int, ts: Texts)
    requires ts.Written() && ts.Holds(n) && Below(s, n, ts)
    ensures n == ts.low || n == 0 || n == 1 || n == 2
  {
    Inverted(ts);
    BelowSkips(s, n, ts, 2, 10);
    BelowSkips(s, n, ts, 3, 29999);
    BelowSkips(s, n, ts, 93, ts.high);
    BelowSkips(s, n, ts, ts.low, -1);
  }

  lemma BelowSkips(s: string, n: int, ts: Texts, i: int, k: int)
    requires Below(s, n, ts) && ts.Holds(i) && ts.Holds(k) && TextOrder(ts.of(k), ts.of(i)).Less?
    ensures i < n ==> k < n
  {
    if TextOrder(ts.of(i), s).Less? {
      TextsChain(ts.of(k), ts.of(i), s);
    }
  }

  lemma UpToIsNarrow(s: string, n: int, ts: Texts)
    requires ts.Written() && ts.Holds(n) && UpTo(s, n, ts)
    ensures n == ts.high || n == 0 || n == 1 || n == -1
  {
    Inverted(ts);
    UpToSkips(s, n, ts, 2, 10);
    UpToSkips(s, n, ts, 3, 29999);
    UpToSkips(s, n, ts, 93, ts.high);
    UpToSkips(s, n, ts, ts.low, -1);
  }

  lemma UpToSkips(s: string, n: int, ts: Texts, i: int, k: int)
    requires UpTo(s, n, ts) && ts.Holds(i) && ts.Holds(k) && TextOrder(ts.of(k), ts.of(i)).Less?
    ensures i <= n ==> k <= n
  {
    if !TextOrder(ts.of(i), s).More? {
      TextsChain(ts.of(k), ts.of(i), s);
    }
  }

  /** The texts of small integers, as they are written. */
  lemma SmallWritten(ts: Texts)
    requires ts.Written()
    ensures ts.of(-1) == "-1" && ts.of(0) == "0" && ts.of(1) == "1" && ts.of(9) == "9" && ts.of(10) == "10" && ts.of(93) == "93"
    ensures ts.Holds(-1) && ts.Holds(0) && ts.Holds(1) && ts.Holds(9) && ts.Holds(10) && ts.Holds(93)
  {
    SmallTexts();
  }

  lemma TwoIsNoBound(s: string, ts: Texts)
    requires ts.Written() && Starts(s, 2)
    ensures !Below(s, 2, ts)
  {
    SmallWritten(ts);
    if s[0] < '1' {
      FirstDecides(ts.of(1), s);
    } else {
      FirstDecides(ts.of(10), s);
    }
  }

  lemma BelowOne(s: string, ts: Texts)
    requires ts.Written() && Starts(s, 1) && Below(s, 1, ts)
    ensures s == "1" || s[0] == '0'
  {
    SmallWritten(ts);
    if s[0] == '1' {
      StartComesFirst(ts.of(1), s);
    } else if s[0] != '0' {
      if s[0] != '-' {
        FirstDecides(ts.of(-1), s);
      }
      FirstDecides(ts.of(1), s);
    }
  }

  lemma BelowZero(s: string, ts: Texts)
    requires ts.Written() && Starts(s, 0) && Below(s, 0, ts)
    ensures s == "0"
  {
    SmallWritten(ts);
    if s[0] == '0' {
      StartComesFirst(ts.of(0), s);
    } else if s[0] == '-' {
      SecondDecides(ts.of(-1), s);
    } else {
      FirstDecides(ts.of(-1), s);
      FirstDecides(ts.of(0), s);
    }
  }

  lemma UpToZero(s: string, ts: Texts)
    requires ts.Written() && Starts(s, 0) && UpTo(s, 0, ts)
    ensures s[0] == '0'
  {
    SmallWritten(ts);
    if s[0] == '-' {
      SecondDecides(ts.of(-1), s);
    } else if s[0] > '9' {
      FirstDecides(ts.of(10), s);
    } else if s[0] != '0' {
      FirstDecides(ts.of(0), s);
    }
  }

  lemma UpToOne(s: string, ts: Texts)
    requires ts.Written() && Starts(s, 1) && UpTo(s, 1, ts)
    ensures s[0] == '1' && (|s| == 1 || s[1] < '0')
  {
    SmallWritten(ts);
    if s[0] == '1' {
      if |s| > 1 && s[1] >= '0' {
        SecondDecides(ts.of(10), s);
      }
    } else if s[0] > '9' {
      FirstDecides(ts.of(10), s);
    } else {
      FirstDecides(ts.of(1), s);
    }
  }

  lemma MinusOneOrLess(s: string, ts: Texts)
    requires ts.Written() && Starts(s, -1) && s[0] == '-'
    ensures TextOrder(ts.of(-1), s).More? || TextOrder(ts.of(ts.low), s).More?
  {
    SmallWritten(ts);
    if s[1] == '0' {
      SecondDecides(ts.of(-1), s);
    } else {
      assert Digit(s[1]) == 1;
      WrittenIs(ts, ts.low);
      SecondDecides(ts.of(ts.low), s);
    }
  }

  lemma MinusOneIsNoBound(s: string, ts: Texts)
    requires ts.Written() && Starts(s, -1)
    ensures !UpTo(s, -1, ts)
  {
    SmallWritten(ts);
    if s[0] == '-' {
      MinusOneOrLess(s, ts);
      assert ts.Holds(ts.low);
    } else if s[0] > '9' {
      FirstDecides(ts.of(10), s);
    } else {
      FirstDecides(ts.of(-1), s);
    }
  }

  lemma UpToHigh(s: string, ts: Texts)
    requires ts.Written() && Starts(s, ts.high) && UpTo(s, ts.high, ts)
    ensures s[0] > '9'
  {
    SmallWritten(ts);
    if s[0] < '9' {
      FirstDecides(ts.of(9), s);
    } else if s[0] == '9' {
      SecondDecides(ts.of(93), s);
    }
  }

  /** The placed texts do order as the integers. */
  lemma PlacedIsBelow(s: string, n: int, i: int, ts: Texts)
    requires ts.Written() && Starts(s, n) && PlacedBelow(s, n, ts.low) && n != ts.low && ts.Holds(i)
    ensures TextOrder(ts.of(i), s).Less? <==> i < n
  {
    SmallWritten(ts);
    WrittenIs(ts, i);
    if s[0] != ts.of(i)[0] {
      FirstDecides(ts.of(i), s);
    } else if s[0] == '0' {
      StartComesFirst(ts.of(i), s);
    } else {
      StartComesFirst(s, ts.of(i));
    }
  }

  lemma AfterTheSign(a: string, b: string)
    ensures TextOrder("-" + a, "-" + b) == TextOrder(a, b)
  {
    var x, y := Codes("-" + a), Codes("-" + b);
    assert x[1..] == Codes(a) && y[1..] == Codes(b);
    assert BytesOrder(x, y) == BytesOrder(x[1..], y[1..]);
  }

  /** No text of an integer comes before that of -1. */
  lemma MinusOneComesFirst(t: string, i: int)
    requires StartsAsInteger(t, i) && (i == 0 ==> t == "0")
    ensures !TextOrder("-1", t).More?
  {
    if i >= 0 {
      FirstDecides("-1", t);
    } else {
      var digits := t[1..];
      assert t == "-" + digits && "-" + "1" == "-1";
      AfterTheSign("1", digits);
      if digits[0] != '1' {
        FirstDecides("1", digits);
      } else {
        StartComesFirst("1", digits);
      }
    }
  }

  lemma LeastIsBelow(s: string, i: int, ts: Texts)
    requires ts.Written() && !TextOrder("-1", s).Less? && ts.Holds(i)
    ensures !TextOrder(ts.of(i), s).Less?
  {
    SmallWritten(ts);
    WrittenIs(ts, i);
    MinusOneComesFirst(ts.of(i), i);
    if TextOrder(ts.of(i), s).Less? {
      TextsChain("-1", ts.of(i), s);
    }
  }

  lemma PlacedIsUpTo(s: string, n: int, i: int, ts: Texts)
    requires ts.Written() && Starts(s, n) && PlacedUpTo(s, n, ts.high) && ts.Holds(i)
    ensures !TextOrder(ts.of(i), s).More? <==> i <= n
  {
    SmallWritten(ts);
    WrittenIs(ts, i);
    if s[0] != ts.of(i)[0] {
      FirstDecides(ts.of(i), s);
    } else if s[0] == '0' || i == 1 {
      StartComesFirst(ts.of(i), s);
    } else if |s| == 1 {
      StartComesFirst(s, ts.of(i));
    } else {
      SecondDecides(ts.of(i), s);
    }
  }

  lemma BelowExactly(s: string, n: int, ts: Texts)
    requires ts.Written() && Starts(s, n) && ts.Holds(n)
    ensures Below(s, n, ts) <==> PlacedBelow(s, n, ts.low)
  {
    if Below(s, n, ts) {
      BelowIsNarrow(s, n, ts);
      if n == 0 {
        BelowZero(s, ts);
      } else if n == 1 {
        BelowOne(s, ts);
      } else if n == 2 {
        TwoIsNoBound(s, ts);
      } else {
        SmallWritten(ts);
      }
    }
    if PlacedBelow(s, n, ts.low) {
      forall i | ts.Holds(i)
        ensures TextOrder(ts.of(i), s).Less? <==> i < n
      {
        if n == ts.low {
          LeastIsBelow(s, i, ts);
        } else {
          PlacedIsBelow(s, n, i, ts);
        }
      }
    }
  }

  lemma UpToExactly(s: string, n: int, ts: Texts)
    requires ts.Written() && Starts(s, n) && ts.Holds(n)
    ensures UpTo(s, n, ts) <==> PlacedUpTo(s, n, ts.high)
  {
    if UpTo(s, n, ts) {
      UpToIsNarrow(s, n, ts);
      if n == 0 {
        UpToZero(s, ts);
      } else if n == 1 {
        UpToOne(s, ts);
      } else if n == -1 {
        MinusOneIsNoBound(s, ts);
      } else {
        UpToHigh(s, ts);
      }
    }
    if PlacedUpTo(s, n, ts.high) {
      forall i | ts.Holds(i)
        ensures !TextOrder(ts.of(i), s).More? <==> i <= n
      {
        PlacedIsUpTo(s, n, i, ts);
      }
    }
  }

  lemma EqualExactly(s: string, n: int, ts: Texts)
    requires ts.Contiguous() && ts.Holds(n)
    ensures Equal(s, n, ts) <==> s == ts.of(n) && ts.Alone(n)
  {
    forall i
      ensures TextOrder(ts.of(i), s).Same? <==> ts.of(i) == s
    {
      TextsDiffer(ts.of(i), s);
    }
    if Equal(s, n, ts) {
      assert ts.Holds(n - 1) || n == ts.low;
      assert ts.Holds(n + 1) || n == ts.high;
    }
    if s == ts.of(n) && ts.Alone(n) {
      forall i | ts.Holds(i) && ts.of(i) == s
        ensures i == n
      {
        assert i < n ==> ts.of(n - 1) == ts.of(i);
        assert i > n ==> ts.of(n + 1) == ts.of(n);
      }
    }
  }

  /**
   For a text that reads as `n`, the texts of all the integers compare with it as
   the integers do with `n` exactly under the condition. Equality needs no more of
   the texts than that those that are alike are next to each other.
   */
  lemma TextAnswersExactly(op: Cmp, s: string, n: int, ts: Texts)
    requires ts.Contiguous() && ts.Holds(n)
    requires op.Eq? || op.Ne? || (ts.Written() && ReadsAs(s, n))
    ensures TextAnswers(op, s, n, ts) <==> TextPlaced(op, s, n, ts)
  {
    AnswersAre(op, s, n, ts);
    if op.Eq? || op.Ne? {
      EqualExactly(s, n, ts);
    } else {
      ReadStarts(s, n);
      if op.Lt? || op.Gte? {
        BelowExactly(s, n, ts);
      } else {
        UpToExactly(s, n, ts);
      }
    }
  }
}
