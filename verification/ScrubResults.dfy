/**
 What scrubbing `key=value` secrets gives: no secret's value is left where the
 scrubber would find it, the text stays UTF-8, and a text that scrubbing twice
 changes again.
 */
module ScrubResults {
  import opened Outcomes
  import opened Gathering
  import opened Utf8
  import opened ScrubText
  import opened ScrubTwice
  import opened ScrubSpans
  import ScrubSecrets

  // ---- nothing is left to find ----

  /** Wherever the rule finds a value in the text, the value starts with the placeholder. */
  ghost predicate Shielded(cut: Scrubber, prev: Option<char>, u: string) {
    forall i :: 0 <= i < |u| ==> ShieldedAt(cut, Before(prev, u, i), u[i..])
  }

  ghost predicate ShieldedAt(cut: Scrubber, prev: Option<char>, u: string) {
    cut.at(prev, u).Some? ==> cut.mark <= u[cut.at(prev, u).value.0..]
  }

  lemma ShieldedCons(cut: Scrubber, prev: Option<char>, c: char, v: string)
    requires ShieldedAt(cut, prev, [c] + v) && Shielded(cut, Some(c), v)
    ensures Shielded(cut, prev, [c] + v)
  {
    var u := [c] + v;
    forall i | 0 <= i < |u|
      ensures ShieldedAt(cut, Before(prev, u, i), u[i..])
    {
      if i == 0 {
        assert u[0..] == u;
      } else {
        assert u[i..] == v[i - 1..];
        assert Before(prev, u, i) == Before(Some(c), v, i - 1);
      }
    }
  }

  lemma {:induction false} ShieldedAfter(cut: Scrubber, prev: Option<char>, x: string, w: string)
    requires NoCuts(cut, prev, x, w) && Shielded(cut, Last(prev, x), w)
    ensures Shielded(cut, prev, x + w)
    decreases |x|
  {
    if x == "" {
      assert x + w == w;
    } else {
      NoCutsTail(cut, prev, x, w);
      assert Last(Some(x[0]), x[1..]) == Last(prev, x);
      ShieldedAfter(cut, Some(x[0]), x[1..], w);
      assert x + w == [x[0]] + (x[1..] + w);
      ShieldedCons(cut, prev, x[0], x[1..] + w);
    }
  }

  lemma SilentHasNoCuts(cut: Scrubber, prev: Option<char>, x: string, w: string)
    requires Silent(prev, x)
    ensures NoCuts(cut, prev, x, w)
  {
    forall i | 0 <= i < |x|
      ensures cut.at(Before(prev, x, i), x[i..] + w) == None
    {
      assert Blocked(Before(prev, x, i), x[i]);
      assert (x[i..] + w)[0] == x[i];
    }
  }

  lemma ShieldedPastMark(cut: Scrubber, prev: Option<char>, w: string)
    requires SparesMark(cut) && Shielded(cut, MarkEnd(cut), w)
    ensures Shielded(cut, prev, cut.mark + w)
  {
    assert NoCuts(cut, prev, cut.mark, w);
    ShieldedAfter(cut, prev, cut.mark, w);
  }

  lemma ShieldedTrail(cut: Scrubber, s: string, a: nat, w: string)
    requires SparesMark(cut) && 0 < a && QuietUpTo(s, a) && Shielded(cut, MarkEnd(cut), w)
    ensures Shielded(cut, Some(s[0]), s[1..a] + (cut.mark + w))
  {
    QuietIsSilent(s, a);
    SilentHasNoCuts(cut, Some(s[0]), s[1..a], cut.mark + w);
    ShieldedPastMark(cut, Last(Some(s[0]), s[1..a]), w);
    ShieldedAfter(cut, Some(s[0]), s[1..a], cut.mark + w);
  }

  /** A replaced value whose key stays in the text. */
  lemma ShieldedLive(cut: Scrubber, prev: Option<char>, s: string, w: string)
    requires Steady(cut) && s != "" && cut.at(prev, s).Some? && Shielded(cut, MarkEnd(cut), w)
    ensures Shielded(cut, prev, s[0..cut.at(prev, s).value.0] + (cut.mark + w))
  {
    var (a, n) := cut.at(prev, s).value;
    var u := Redacted(cut, s, a, w);
    assert ReplacedValue(cut, prev, s, a, n, w);
    RedactedParts(cut, s, a, w);
    assert cut.mark <= u[a..];
    ShieldedTrail(cut, s, a, w);
    var v := s[1..a] + (cut.mark + w);
    assert u == [s[0]] + v && u == s[0..a] + (cut.mark + w);
    ShieldedCons(cut, prev, s[0], v);
  }

  /** A replaced value whose key was itself inside a replaced value. */
  lemma ShieldedDead(cut: Scrubber, again: Option<char>, prev: Option<char>, s: string, hold: nat, w: string)
    requires Steady(cut) && 0 < hold <= |s| && Follows(again, prev, s, hold) && cut.at(prev, s).Some?
    requires hold <= cut.at(prev, s).value.0 && Shielded(cut, MarkEnd(cut), w)
    ensures Shielded(cut, again, s[hold..cut.at(prev, s).value.0] + (cut.mark + w))
  {
    var a := cut.at(prev, s).value.0;
    DeadIsSilent(again, s, hold, a);
    SilentHasNoCuts(cut, again, s[hold..a], cut.mark + w);
    ShieldedPastMark(cut, Last(again, s[hold..a]), w);
    ShieldedAfter(cut, again, s[hold..a], cut.mark + w);
  }

  lemma {:induction false} ScanShields(cut: Scrubber, again: Option<char>, prev: Option<char>, s: string, hold: nat)
    requires Steady(cut) && hold <= |s| && Follows(again, prev, s, hold)
    ensures Shielded(cut, again, Scan(cut, prev, s, hold))
    decreases |s|
  {
    if s != "" {
      if cut.at(prev, s).Some? && cut.at(prev, s).value.0 >= hold {
        var (a, n) := cut.at(prev, s).value;
        var w := Scan(cut, Some(s[a - 1]), s[a..], n);
        AfterCutFollows(cut, prev, s);
        ScanShields(cut, MarkEnd(cut), Some(s[a - 1]), s[a..], n);
        ScanOfCut(cut, prev, s, hold);
        if hold == 0 {
          ShieldedLive(cut, prev, s, w);
        } else {
          ShieldedDead(cut, again, prev, s, hold, w);
        }
      } else {
        FollowsStep(again, prev, s, hold);
        if hold > 0 {
          ScanShields(cut, again, Some(s[0]), s[1..], hold - 1);
        } else {
          var u' := Scan(cut, Some(s[0]), s[1..], 0);
          ScanShields(cut, Some(s[0]), Some(s[0]), s[1..], 0);
          NotFoundAgain(cut, again, prev, s);
          ShieldedCons(cut, again, s[0], u');
        }
      }
    }
  }

  lemma NotFoundAgain(cut: Scrubber, again: Option<char>, prev: Option<char>, s: string)
    requires Steady(cut) && s != "" && cut.at(prev, s).None? && Follows(again, prev, s, 0)
    ensures cut.at(again, [s[0]] + Scan(cut, Some(s[0]), s[1..], 0)).None?
  {
    if cut.at(again, [s[0]] + Scan(cut, Some(s[0]), s[1..], 0)).Some? && again == prev {
      CutWasThere(cut, prev, s);
    }
  }

  /** Wherever a key and a separator are left in scrubbed text, the placeholder comes next. */
  lemma NoSecretSurvives(keys: Keys, text: string)
    ensures Shielded(ScrubberFor(keys), None, Scrubbed(keys, text))
  {
    ScrubSecrets.SecretIsSteady(keys);
    ScanShields(ScrubberFor(keys), None, None, text, 0);
  }

  // ---- UTF-8 ----

  ghost predicate OnBoundaries(text: string, cuts: seq<Span>) {
    forall i :: 0 <= i < |cuts| ==> Boundary(text, cuts[i].first) && Boundary(text, cuts[i].past)
  }

  /** A value starts after an ASCII byte, and ends at one, at a space, or at the end of the text. */
  lemma CutEnds(keys: Keys, prev: Option<char>, s: string)
    requires CutAt(keys, prev, s).Some?
    ensures var (a, n) := CutAt(keys, prev, s).value;
            s[a - 1] < '\U{80}' && (a + n < |s| ==> !Continuation(s[a + n]))
  {
    var a, quote := ScrubSecrets.CutParts(keys, prev, s);
    KeyAndTrailBytes(keys, s);
    ValueEndsCharacter(s[a..], quote);
    var n := ValueLength(s[a..], quote);
    assert a + n < |s| ==> s[a..][n] == s[a + n];
  }

  /** What ends on ASCII and at no continuation byte, in a part of the text. */
  ghost predicate Clean(s: string, c: Option<(nat, nat)>) {
    c.Some? ==> 0 < c.value.0 && c.value.0 + c.value.1 <= |s| && s[c.value.0 - 1] < '\U{80}' && Boundary(s, c.value.0 + c.value.1)
  }

  lemma CleanSpan(text: string, p: nat, c: Option<(nat, nat)>)
    requires Whole(text) && p <= |text| && Clean(text[p..], c) && c.Some?
    ensures var span := Shifted(c, p).value; Boundary(text, span.first) && Boundary(text, span.past)
  {
    AfterAscii(text, 0, p + c.value.0 - 1);
  }

  lemma SecretIsClean(keys: Keys, prev: Option<char>, s: string)
    ensures Clean(s, ScrubberFor(keys).at(prev, s))
  {
    if CutAt(keys, prev, s).Some? {
      CutEnds(keys, prev, s);
    }
  }

  lemma SecretOnBoundaries(cut: Scrubber, text: string, p: nat)
    requires Whole(text) && p <= |text| && SpanAt(cut, text, p).Some? && Clean(text[p..], cut.at(Prev(text, p), text[p..]))
    ensures var c := SpanAt(cut, text, p).value;
            Boundary(text, c.first) && Boundary(text, c.past)
  {
    CleanSpan(text, p, cut.at(Prev(text, p), text[p..]));
  }

  lemma ValueEndsCharacter(s: string, quote: Option<char>)
    requires quote.Some? ==> QuoteMark(quote.value)
    ensures ValueLength(s, quote) < |s| ==> !Continuation(s[ValueLength(s, quote)])
  {
    if quote.None? && UnquotedLength(s) < |s| {
      assert s[UnquotedLength(s)..][0] == s[UnquotedLength(s)];
    }
  }

  /** Every span is on character boundaries, after backslash skips too. */
  lemma {:induction false} SpansOnBoundaries(keys: Keys, text: string, p: nat)
    requires Whole(text) && p <= |text|
    ensures OnBoundaries(text, Spans(ScrubberFor(keys), text, p))
    decreases |text| - p
  {
    if p < |text| {
      SpansOnBoundaries(keys, text, p + 1);
      if SpanAt(ScrubberFor(keys), text, p).Some? {
        SecretIsClean(keys, Prev(text, p), text[p..]);
        SecretOnBoundaries(ScrubberFor(keys), text, p);
      }
    }
  }

  lemma {:induction false} AppliedOnBoundaries(text: string, cuts: seq<Span>, at: nat)
    requires OnBoundaries(text, cuts)
    ensures OnBoundaries(text, Applied(cuts, at))
    decreases |cuts|
  {
    if cuts != [] {
      AppliedOnBoundaries(text, cuts[1..], if cuts[0].first < at then at else cuts[0].past);
    }
  }

  lemma {:induction false} SplicedIsWhole(mark: string, text: string, at: nat, cuts: seq<Span>)
    requires Whole(mark) && Whole(text) && Boundary(text, at) && InOrder(cuts, at, |text|) && OnBoundaries(text, cuts)
    ensures Whole(Splice(mark, text, at, cuts))
    decreases |cuts|
  {
    if cuts == [] {
      WholeSlice(text, at, |text|, "");
      assert text[at..|text|] + "" == text[at..];
    } else {
      InOrderFits(cuts, at, |text|);
      var rest := Splice(mark, text, cuts[0].past, cuts[1..]);
      SplicedIsWhole(mark, text, cuts[0].past, cuts[1..]);
      WholeSlice(mark, 0, |mark|, rest);
      assert mark[0..|mark|] == mark;
      WholeSlice(text, at, cuts[0].first, mark + rest);
    }
  }

  lemma PlaceholderIsWhole()
    ensures Whole(PLACEHOLDER)
  {
    assert forall i :: 0 <= i < |PLACEHOLDER| ==> LeadLength(PLACEHOLDER[i]) == 1;
    AsciiIsWhole(PLACEHOLDER, 0);
  }

  /** Of every occurrence of a key, where it starts and ends, and where the trail after it does, value or not. */
  ghost predicate KeysOnBoundaries(keys: Keys, text: string) {
    forall p {:trigger KeyLength(keys, text[p..])} :: 0 <= p <= |text| && KeyLength(keys, text[p..]).Some? ==>
      var n := KeyLength(keys, text[p..]).value;
      && Boundary(text, p) && Boundary(text, p + n)
      && (Trail(text[p..], n).Some? ==> Boundary(text, p + Trail(text[p..], n).value.0))
  }

  lemma KeyIsOnBoundaries(keys: Keys, text: string, p: nat)
    requires Whole(text) && p <= |text| && KeyLength(keys, text[p..]).Some?
    ensures var n := KeyLength(keys, text[p..]).value;
            && Boundary(text, p) && Boundary(text, p + n)
            && (Trail(text[p..], n).Some? ==> Boundary(text, p + Trail(text[p..], n).value.0))
  {
    var s, n := text[p..], KeyLength(keys, text[p..]).value;
    KeyBytes(keys, s, KeyAt(keys, s).value);
    assert s[0] == text[p] && s[n - 1] == text[p + n - 1];
    AfterAscii(text, 0, p + n - 1);
    if Trail(s, n).Some? {
      var a := Trail(s, n).value.0;
      TrailBytes(s, n);
      assert s[a - 1] == text[p + a - 1];
      AfterAscii(text, 0, p + a - 1);
    }
  }

  /**
   No slice of UTF-8 text is taken inside a character: not where a key starts or
   ends, nor after what follows a key, nor at either end of a value. And scrubbed
   text is UTF-8.
   */
  lemma ScrubbedIsUtf8(keys: Keys, text: string)
    requires Whole(text)
    ensures KeysOnBoundaries(keys, text)
    ensures OnBoundaries(text, Spans(ScrubberFor(keys), text, 0))
    ensures Whole(Scrubbed(keys, text))
  {
    var cuts := Spans(ScrubberFor(keys), text, 0);
    forall p | 0 <= p <= |text| && KeyLength(keys, text[p..]).Some?
      ensures var n := KeyLength(keys, text[p..]).value;
              && Boundary(text, p) && Boundary(text, p + n)
              && (Trail(text[p..], n).Some? ==> Boundary(text, p + Trail(text[p..], n).value.0))
    {
      KeyIsOnBoundaries(keys, text, p);
    }
    ScrubSecrets.SecretIsSteady(keys);
    ScrubbingSplices(ScrubberFor(keys), text);
    SpansOnBoundaries(keys, text, 0);
    AppliedOnBoundaries(text, cuts, 0);
    PlaceholderIsWhole();
    SplicedIsWhole(PLACEHOLDER, text, 0, Applied(cuts, 0));
  }

  // ---- scrubbing twice can differ ----

  const TOUCHING: string := "password='client_id=\"'xyz\""

  /** The first value ends exactly where the second starts, so the second pass takes the closing quote too. */
  lemma TwiceCanDiffer()
    ensures Scrubbed(Secrets(), Scrubbed(Secrets(), TOUCHING)) != Scrubbed(Secrets(), TOUCHING)
  {
    var cut := ScrubberFor(Secrets());
    var inner := "client_id=\"'xyz\"";
    assert TOUCHING[10..] == inner;
    FirstCut(inner);
    SecondCut(inner);
    assert Adjacent(cut, Some('\''), inner, 11);
    assert Clash(cut, None, TOUCHING, 0);
    ScrubSecrets.ScrubbingTwice(Secrets(), TOUCHING);
  }

  lemma KeyIs(keys: Keys, s: string, k: nat)
    requires k < |keys| && Matches(s, keys[k])
    ensures KeyAt(keys, s) == Some(k) && |keys[k]| <= |s| && KeyAndTrail(keys, s) == Trail(s, |keys[k]|)
  {
    KeysAreDistinct(keys, s, k, KeyAt(keys, s).value);
  }

  /** A key, a separator right after it, and a quoted value right after that. */
  lemma KnownCut(keys: Keys, s: string, prev: Option<char>, k: nat, value: string, n: nat)
    requires k < |keys| && Matches(s, keys[k]) && (prev.Some? ==> !WordByte(prev.value))
    requires |keys[k]| + 2 <= |s| && s[|keys[k]|] == '=' && QuoteMark(s[|keys[k]| + 1])
    requires value == s[|keys[k]| + 2..] && QuotedLength(value, s[|keys[k]| + 1]) == n > 0
    ensures CutAt(keys, prev, s) == Some((|keys[k]| + 2, n))
  {
    var key := |keys[k]|;
    QuotedTrail(s, key);
    KeyIs(keys, s, k);
    ScrubSecrets.CutFromParts(keys, prev, s, key + 2, Some(s[key + 1]));
  }

  /** A separator right after a key, and a quote right after that. */
  lemma QuotedTrail(s: string, key: nat)
    requires key + 2 <= |s| && s[key] == '=' && QuoteMark(s[key + 1])
    ensures Trail(s, key) == Some((key + 2, Some(s[key + 1])))
  {
    assert Separator(s, key) == Some(key);
    assert SpacesEnd(s, key + 1) == key + 1;
  }

  lemma TouchingStart()
    ensures |TOUCHING| == 26 && Matches(TOUCHING, "password") && TOUCHING[8] == '=' && TOUCHING[9] == '\''
  {
  }

  lemma FirstCut(inner: string)
    requires inner == "client_id=\"'xyz\"" && TOUCHING[10..] == inner
    ensures CutAt(Secrets(), None, TOUCHING) == Some((10, 11))
  {
    TouchingStart();
    FirstValue(inner);
    NinthKey();
    KnownCut(Secrets(), TOUCHING, None, 9, inner, 11);
  }

  lemma FirstValue(inner: string)
    requires inner == "client_id=\"'xyz\""
    ensures QuotedLength(inner, '\'') == 11
  {
    assert inner == "client_id=\"" + "'xyz\"";
    RunsToQuote("client_id=\"", "'xyz\"", '\'');
  }

  lemma {:induction false} RunsToQuote(x: string, w: string, quote: char)
    requires forall i :: 0 <= i < |x| ==> x[i] != '\\' && x[i] != quote
    requires w != "" && w[0] == quote && quote != '\\'
    ensures QuotedLength(x + w, quote) == |x|
  {
    if x == "" {
      assert x + w == w;
    } else {
      assert (x + w)[0] == x[0] && (x + w)[1..] == x[1..] + w;
      RunsToQuote(x[1..], w, quote);
    }
  }

  lemma NinthKey()
    ensures |Secrets()| == 11 && Secrets()[9] == "password"
  {
  }

  lemma SecondCut(inner: string)
    requires inner == "client_id=\"'xyz\""
    ensures CutAt(Secrets(), Some('\''), inner) == Some((11, 4))
  {
    assert Secrets()[4] == "client_id";
    assert inner[11..] == "'xyz\"";
    assert QuotedLength("'xyz\"", '"') == 4;
    KnownCut(Secrets(), inner, Some('\''), 4, "'xyz\"", 4);
  }

  /** Two replaced values with nothing between them. */
  predicate Touching(cuts: seq<Span>) {
    exists i :: 0 < i < |cuts| && cuts[i - 1].past == cuts[i].first
  }

  lemma TouchingLater(c: Span, cuts: seq<Span>)
    requires Touching(cuts) || (cuts != [] && c.past == cuts[0].first)
    ensures Touching([c] + cuts)
  {
    var all := [c] + cuts;
    if Touching(cuts) {
      var i :| 0 < i < |cuts| && cuts[i - 1].past == cuts[i].first;
      assert all[i].past == all[i + 1].first;
    } else {
      assert all[0].past == all[1].first;
    }
  }

  lemma NextPosition(text: string, p: nat)
    requires p < |text|
    ensures text[p..] != "" && text[p..][0] == text[p] && text[p..][1..] == text[p + 1..] && Prev(text, p + 1) == Some(text[p])
  {
  }

  /** A position without a value, or with one that is skipped. */
  lemma PassedSpan(cut: Scrubber, text: string, at: nat, p: nat)
    requires p < |text| && (SpanAt(cut, text, p).Some? ==> SpanAt(cut, text, p).value.first < at)
    ensures Applied(Spans(cut, text, p), at) == Applied(Spans(cut, text, p + 1), at)
  {
    if SpanAt(cut, text, p).Some? {
      assert Spans(cut, text, p)[1..] == Spans(cut, text, p + 1);
    } else {
      SpansSkip(cut, text, p, p + 1);
    }
  }

  lemma AppliedSpan(cut: Scrubber, text: string, at: nat, p: nat)
    requires WellShaped(cut) && p < |text| && SpanAt(cut, text, p).Some? && at <= SpanAt(cut, text, p).value.first
    ensures var c := SpanAt(cut, text, p).value;
            Applied(Spans(cut, text, p), at) == [c] + Applied(Spans(cut, text, c.first), c.past)
  {
    SpansAfterFirst(cut, text, p);
    assert Spans(cut, text, p)[1..] == Spans(cut, text, SpanAt(cut, text, p).value.first);
  }

  lemma AdjacentHere(cut: Scrubber, prev: Option<char>, s: string, hold: nat)
    requires hold <= |s| && Adjacent(cut, prev, s, hold)
    ensures hold > 0
    ensures if cut.at(prev, s).Some? && cut.at(prev, s).value.0 >= hold then cut.at(prev, s).value.0 == hold
            else Adjacent(cut, Some(s[0]), s[1..], hold - 1)
  {
  }

  lemma ClashHere(cut: Scrubber, prev: Option<char>, s: string, hold: nat)
    requires hold <= |s| && Clash(cut, prev, s, hold)
    ensures s != ""
    ensures if cut.at(prev, s).Some? && cut.at(prev, s).value.0 >= hold then
              var (a, n) := cut.at(prev, s).value;
              Adjacent(cut, Some(s[a - 1]), s[a..], n) || Clash(cut, Some(s[a - 1]), s[a..], n)
            else Clash(cut, Some(s[0]), s[1..], if hold == 0 then 0 else hold - 1)
  {
  }

  lemma {:induction false} AdjacentTouches(cut: Scrubber, text: string, at: nat, p: nat)
    requires WellShaped(cut) && p <= at <= |text| && Adjacent(cut, Prev(text, p), text[p..], at - p)
    ensures var applied := Applied(Spans(cut, text, p), at);
            applied != [] && applied[0].first == at
    decreases |text| - p
  {
    AdjacentHere(cut, Prev(text, p), text[p..], at - p);
    var c := SpanAt(cut, text, p);
    if c.Some? && c.value.first >= at {
      AppliedSpan(cut, text, at, p);
    } else {
      NextPosition(text, p);
      AdjacentTouches(cut, text, at, p + 1);
      PassedSpan(cut, text, at, p);
    }
  }

  ghost predicate ClashFrom(cut: Scrubber, text: string, at: nat, p: nat) {
    at <= |text| && p <= |text| && Clash(cut, Prev(text, p), text[p..], if at <= p then 0 else at - p)
  }

  ghost predicate AdjacentFrom(cut: Scrubber, text: string, at: nat, p: nat) {
    p <= at <= |text| && Adjacent(cut, Prev(text, p), text[p..], at - p)
  }

  lemma {:induction false} ClashTouches(cut: Scrubber, text: string, at: nat, p: nat)
    requires WellShaped(cut) && ClashFrom(cut, text, at, p)
    ensures Touching(Applied(Spans(cut, text, p), at))
    decreases |text| - p, 1
  {
    ClashAt(cut, text, at, p);
    var c := SpanAt(cut, text, p);
    if c.Some? && c.value.first >= at {
      ClashTouchesAfter(cut, text, c.value, p);
      TouchingFrom(cut, text, at, p);
    } else {
      ClashTouches(cut, text, at, p + 1);
      PassedSpan(cut, text, at, p);
    }
  }

  lemma {:induction false} ClashTouchesAfter(cut: Scrubber, text: string, c: Span, p: nat)
    requires WellShaped(cut) && p < c.first < c.past <= |text|
    requires AdjacentFrom(cut, text, c.past, c.first) || ClashFrom(cut, text, c.past, c.first)
    ensures var rest := Applied(Spans(cut, text, c.first), c.past);
            Touching(rest) || (rest != [] && c.past == rest[0].first)
    decreases |text| - p, 0
  {
    if ClashFrom(cut, text, c.past, c.first) {
      ClashTouches(cut, text, c.past, c.first);
    } else {
      AdjacentTouches(cut, text, c.past, c.first);
    }
  }

  lemma ClashAt(cut: Scrubber, text: string, at: nat, p: nat)
    requires ClashFrom(cut, text, at, p)
    ensures p < |text|
    ensures var c := SpanAt(cut, text, p);
            if c.Some? && c.value.first >= at then
              AdjacentFrom(cut, text, c.value.past, c.value.first) || ClashFrom(cut, text, c.value.past, c.value.first)
            else ClashFrom(cut, text, at, p + 1)
  {
    ClashHere(cut, Prev(text, p), text[p..], if at <= p then 0 else at - p);
    NextPosition(text, p);
    var c := SpanAt(cut, text, p);
    if c.Some? {
      AfterCut(text, p, c.value.first - p);
    }
  }

  lemma TouchingFrom(cut: Scrubber, text: string, at: nat, p: nat)
    requires WellShaped(cut) && p < |text| && SpanAt(cut, text, p).Some? && at <= SpanAt(cut, text, p).value.first
    requires var c := SpanAt(cut, text, p).value;
             var rest := Applied(Spans(cut, text, c.first), c.past);
             Touching(rest) || (rest != [] && c.past == rest[0].first)
    ensures Touching(Applied(Spans(cut, text, p), at))
  {
    var c := SpanAt(cut, text, p).value;
    TouchingLater(c, Applied(Spans(cut, text, c.first), c.past));
    AppliedSpan(cut, text, at, p);
  }

  /** In particular, a second pass changes nothing when no two replaced values touch. */
  lemma ApartIsSettled(keys: Keys, text: string)
    requires !Touching(Applied(Spans(ScrubberFor(keys), text, 0), 0))
    ensures Scrubbed(keys, Scrubbed(keys, text)) == Scrubbed(keys, text)
  {
    ScrubSecrets.SecretIsSteady(keys);
    ScrubSecrets.ScrubbingTwice(keys, text);
    assert text[0..] == text;
    if Clash(ScrubberFor(keys), None, text, 0) {
      ClashTouches(ScrubberFor(keys), text, 0, 0);
    }
  }

  // ---- a skipped value can outrun the one it starts in ----

  ghost predicate CoveredBy(c: Span, applied: seq<Span>) {
    exists i :: 0 <= i < |applied| && applied[i].first <= c.first && c.past <= applied[i].past
  }

  /** Some skipped value ends after the replaced one it starts in. */
  predicate Outruns(cuts: seq<Span>, at: nat) {
    cuts != [] &&
    if cuts[0].first < at then cuts[0].past > at || Outruns(cuts[1..], at) else Outruns(cuts[1..], cuts[0].past)
  }

  ghost predicate AllCovered(cuts: seq<Span>, at: nat, applied: seq<Span>) {
    forall i :: 0 <= i < |cuts| ==> (cuts[i].first < at && cuts[i].past <= at) || CoveredBy(cuts[i], applied)
  }

  lemma {:induction false} AppliedStartLater(cuts: seq<Span>, at: nat)
    requires forall i :: 0 <= i < |cuts| ==> cuts[i].first < cuts[i].past
    ensures forall i :: 0 <= i < |Applied(cuts, at)| ==> at <= Applied(cuts, at)[i].first
    decreases |cuts|
  {
    if cuts != [] {
      AppliedStartLater(cuts[1..], if cuts[0].first < at then at else cuts[0].past);
    }
  }

  lemma AllCoveredAfterApplied(cuts: seq<Span>, at: nat)
    requires cuts != [] && at <= cuts[0].first < cuts[0].past
    requires forall i :: 0 < i < |cuts| ==> cuts[0].first <= cuts[i].first < cuts[i].past
    ensures AllCovered(cuts, at, Applied(cuts, at)) <==> AllCovered(cuts[1..], cuts[0].past, Applied(cuts[1..], cuts[0].past))
  {
    var c, rest := cuts[0], Applied(cuts[1..], cuts[0].past);
    var applied := [c] + rest;
    AppliedStartLater(cuts[1..], c.past);
    forall i | 0 < i < |cuts|
      ensures CoveredBy(cuts[i], applied) <==> (cuts[i].first < c.past && cuts[i].past <= c.past) || CoveredBy(cuts[i], rest)
    {
      assert cuts[i] == cuts[1..][i - 1];
      if CoveredBy(cuts[i], rest) {
        var j :| 0 <= j < |rest| && rest[j].first <= cuts[i].first && cuts[i].past <= rest[j].past;
        assert applied[j + 1] == rest[j];
      }
      if CoveredBy(cuts[i], applied) {
        var j :| 0 <= j < |applied| && applied[j].first <= cuts[i].first && cuts[i].past <= applied[j].past;
        assert j > 0 ==> applied[j] == rest[j - 1];
      }
      assert applied[0] == c;
    }
    assert CoveredBy(c, applied) by { assert applied[0] == c; }
    assert forall i :: 0 <= i < |cuts[1..]| ==> cuts[1..][i] == cuts[i + 1];
    assert forall i :: 0 < i < |cuts| ==> cuts[i] == cuts[1..][i - 1];
  }

  /** Every value found is inside a replaced one exactly when no skipped value outruns the one it starts in. */
  lemma {:induction false} CoveredExactly(cuts: seq<Span>, at: nat)
    requires forall i :: 0 <= i < |cuts| ==> cuts[i].first < cuts[i].past
    requires forall i, j :: 0 <= i < j < |cuts| ==> cuts[i].first <= cuts[j].first
    ensures AllCovered(cuts, at, Applied(cuts, at)) <==> !Outruns(cuts, at)
    decreases |cuts|
  {
    if cuts != [] {
      if cuts[0].first < at {
        CoveredExactly(cuts[1..], at);
        AppliedStartLater(cuts[1..], at);
        assert forall i :: 0 <= i < |cuts[1..]| ==> cuts[1..][i] == cuts[i + 1];
        assert forall i :: 0 < i < |cuts| ==> cuts[i] == cuts[1..][i - 1];
      } else {
        CoveredExactly(cuts[1..], cuts[0].past);
        AllCoveredAfterApplied(cuts, at);
      }
    }
  }

  /** The same, of a text. */
  lemma SecretsCoveredExactly(keys: Keys, text: string)
    ensures var cuts := Spans(ScrubberFor(keys), text, 0);
            (forall i :: 0 <= i < |cuts| ==> CoveredBy(cuts[i], Applied(cuts, 0))) <==> !Outruns(cuts, 0)
  {
    var cuts := Spans(ScrubberFor(keys), text, 0);
    ScrubSecrets.SecretIsSteady(keys);
    SpansAreSorted(ScrubberFor(keys), text, 0);
    forall i, j | 0 <= i < j < |cuts|
      ensures cuts[i].first <= cuts[j].first
    {
      assert SpanLeq(cuts[i], cuts[j]);
    }
    CoveredExactly(cuts, 0);
  }

  const OVERLAPPING: string := "password='client_id=\"a'rest\""

  /** The second value starts inside the first and ends after it. */
  lemma SkippedCanOutrun()
    ensures Outruns(Spans(ScrubberFor(Secrets()), OVERLAPPING, 0), 0)
  {
    var cut := ScrubberFor(Secrets());
    var inner := "client_id=\"a'rest\"";
    OverlappingStart();
    assert OVERLAPPING[10..] == inner && OVERLAPPING[0..] == OVERLAPPING;
    NinthKey();
    OuterCut(inner);
    InnerCut(inner);
    ScrubSecrets.SecretIsSteady(Secrets());
    SpansAfterFirst(cut, OVERLAPPING, 0);
    SpansAfterFirst(cut, OVERLAPPING, 10);
    var cuts := Spans(cut, OVERLAPPING, 0);
    assert cuts[0] == Span(10, 22) && cuts[1..] == Spans(cut, OVERLAPPING, 10);
    assert cuts[1..][0] == Span(21, 27);
  }

  lemma OverlappingStart()
    ensures |OVERLAPPING| == 28 && Matches(OVERLAPPING, "password") && OVERLAPPING[8] == '=' && OVERLAPPING[9] == '\''
  {
  }

  lemma OuterCut(inner: string)
    requires inner == "client_id=\"a'rest\"" && OVERLAPPING[10..] == inner
    ensures CutAt(Secrets(), None, OVERLAPPING) == Some((10, 12))
  {
    OverlappingStart();
    OuterValue(inner);
    NinthKey();
    KnownCut(Secrets(), OVERLAPPING, None, 9, inner, 12);
  }

  lemma OuterValue(inner: string)
    requires inner == "client_id=\"a'rest\""
    ensures QuotedLength(inner, '\'') == 12
  {
    assert inner == "client_id=\"a" + "'rest\"";
    RunsToQuote("client_id=\"a", "'rest\"", '\'');
  }

  lemma InnerCut(inner: string)
    requires inner == "client_id=\"a'rest\""
    ensures CutAt(Secrets(), Some('\''), inner) == Some((11, 6))
  {
    assert Secrets()[4] == "client_id";
    assert inner[11..] == "a'rest" + "\"";
    RunsToQuote("a'rest", "\"", '"');
    KnownCut(Secrets(), inner, Some('\''), 4, "a'rest\"", 6);
  }
}
