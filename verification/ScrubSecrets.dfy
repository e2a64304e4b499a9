/**
 The rule for secrets meets what the scan relies on, so the parameter scrubber
 is idempotent exactly where no replaced value touches the next; and what it
 leaves never shows a secret's value.
 */
module ScrubSecrets {
  import opened Outcomes
  import opened ScrubText
  import opened ScrubTwice

  // ---- what a reading of key and trail depends on ----

  ghost predicate SameTo(s: string, t: string, n: nat) {
    n <= |s| && n <= |t| && forall i :: 0 <= i < n ==> s[i] == t[i]
  }

  lemma {:induction false} SpacesEndLocal(s: string, t: string, i: nat, e: nat)
    requires i <= e <= |s| && SpacesEnd(s, i) == e && SameTo(s, t, e)
    requires e < |t| ==> !AsciiSpace(t[e])
    ensures SpacesEnd(t, i) == e
    decreases e - i
  {
    if i < e {
      SpacesEndLocal(s, t, i + 1, e);
    }
  }

  lemma SeparatorLocal(s: string, t: string, key: nat, i: nat)
    requires key <= i < |s| && Separator(s, key) == Some(i) && SameTo(s, t, i + 1)
    ensures Separator(t, key) == Some(i) && (QuoteAt(t, key) <==> QuoteAt(s, key))
  {
    SpacesEndLocal(s, t, if QuoteAt(s, key) then key + 1 else key, i);
  }

  /** The byte after a trail leaves it as it is: no quote, and no space. */
  predicate LeavesTrail(t: string, v: nat, quote: Option<char>) {
    quote.None? && v < |t| ==> !QuoteMark(t[v]) && !AsciiSpace(t[v])
  }

  lemma TrailLocal(s: string, t: string, key: nat, v: nat, quote: Option<char>)
    requires key <= |s| && Trail(s, key) == Some((v, quote)) && SameTo(s, t, v) && LeavesTrail(t, v, quote)
    ensures Trail(t, key) == Some((v, quote))
  {
    var i := Separator(s, key).value;
    SeparatorLocal(s, t, key, i);
    if s[i] == '=' || QuoteAt(s, key) {
      SpacesEndLocal(s, t, i + 1, PastSeparator(s, key, i));
    }
  }

  lemma KeyLocal(keys: Keys, s: string, t: string)
    requires KeyLength(keys, s).Some? && SameTo(s, t, KeyLength(keys, s).value)
    ensures KeyLength(keys, t) == KeyLength(keys, s)
  {
    var k := KeyAt(keys, s).value;
    MatchesLocal(keys, s, t, k);
    KeysAreDistinct(keys, t, k, KeyAt(keys, t).value);
  }

  lemma MatchesLocal(keys: Keys, s: string, t: string, k: nat)
    requires k < |keys| && Matches(s, keys[k]) && |keys[k]| <= |t|
    requires forall i :: 0 <= i < |keys[k]| ==> s[i] == t[i]
    ensures Matches(t, keys[k])
  {
  }

  lemma KeyAndTrailLocal(keys: Keys, s: string, t: string, a: nat, quote: Option<char>)
    requires KeyAndTrail(keys, s) == Some((a, quote)) && SameTo(s, t, a) && LeavesTrail(t, a, quote)
    ensures KeyAndTrail(keys, t) == Some((a, quote))
  {
    KeyLocal(keys, s, t);
    TrailLocal(s, t, KeyLength(keys, s).value, a, quote);
  }

  lemma SamePrefix(s: string, t: string, n: nat)
    requires n <= |s| && n <= |t| && s[..n] == t[..n]
    ensures SameTo(s, t, n)
  {
    forall i | 0 <= i < n
      ensures s[i] == t[i]
    {
      assert s[..n][i] == t[..n][i];
    }
  }

  // ---- values ----

  /** There is no value: the text has ended, or starts with what ends a value. */
  predicate Ended(w: string, quote: Option<char>) {
    w == "" || (match quote case Some(q) => w[0] == q case None => DelimiterAt(w))
  }

  lemma EndedIsEmpty(w: string, quote: Option<char>)
    requires quote.Some? ==> QuoteMark(quote.value)
    ensures ValueLength(w, quote) == 0 <==> Ended(w, quote)
  {
  }

  /** A value's own end is one. */
  lemma ValueIsEnded(s: string, quote: Option<char>)
    ensures Ended(s[ValueLength(s, quote)..], quote)
  {
  }

  lemma {:induction false} ValueRunsThrough(x: string, w: string, quote: Option<char>)
    requires forall i :: 0 <= i < |x| ==> 'a' <= x[i] <= 'z' || x[i] == '<' || x[i] == '>'
    requires quote.Some? ==> QuoteMark(quote.value)
    ensures ValueLength(x + w, quote) == |x| + ValueLength(w, quote)
  {
    if x == "" {
      assert x + w == w;
    } else {
      assert (x + w)[0] == x[0] && (x + w)[1..] == x[1..] + w;
      ValueRunsThrough(x[1..], w, quote);
    }
  }

  // ---- the rule is steady ----

  lemma SecretShape(keys: Keys, p: Option<char>, s: string)
    requires CutAt(keys, p, s).Some?
    ensures var (a, n) := CutAt(keys, p, s).value; QuietUpTo(s, a) && (a + n < |s| ==> !WordByte(s[a + n]))
  {
    var (a, n) := CutAt(keys, p, s).value;
    KeyAndTrailBytes(keys, s);
    assert a + n < |s| ==> s[a..][n] == s[a + n];
    if a + n < |s| {
      ValueEnds(s[a..], KeyAndTrail(keys, s).value.1);
    }
  }

  lemma SecretSparesPlaceholder(keys: Keys, w: string)
    ensures CutAt(keys, Some('<'), "redacted>" + w) == None
  {
    var x := "redacted>";
    var s := x + w;
    if KeyAt(keys, s).Some? {
      var key := keys[KeyAt(keys, s).value];
      MatchedAgree(s, key, x);
      assert false;
    }
  }

  /** A text does not start with a key and with a lower-case word that differs from it. */
  lemma MatchedAgree(s: string, key: string, x: string)
    requires Matches(s, key) && |x| <= |s| && forall i :: 0 <= i < |x| ==> s[i] == x[i] == LowerByte(x[i])
    ensures !Differ(key, x)
  {
  }

  lemma SecretReadsLocally(keys: Keys, p: Option<char>, s: string, t: string, a: nat)
    requires Resembles(s, t, a) && CutAt(keys, p, s).Some? && CutAt(keys, p, s).value.0 == a
    ensures CutAt(keys, p, t).Some?
  {
    var quote := KeyAndTrail(keys, s).value.1;
    EndedIsEmpty(s[a..], quote);
    EndedIsEmpty(t[a..], quote);
    assert a < |t| ==> t[a..][0] == t[a];
    SamePrefix(s, t, a);
    KeyAndTrailLocal(keys, s, t, a, quote);
  }

  /** The key and the trail of a replaced value are read as before. */
  lemma SecretKeyStays(keys: Keys, s: string, w: string, a: nat, quote: Option<char>)
    requires KeyAndTrail(keys, s) == Some((a, quote))
    ensures KeyAndTrail(keys, Redacted(ScrubberFor(keys), s, a, w)) == Some((a, quote))
  {
    var u := Redacted(ScrubberFor(keys), s, a, w);
    RedactedParts(ScrubberFor(keys), s, a, w);
    assert u[a] == u[a..][0] == '<';
    assert SameTo(s, u, a);
    KeyAndTrailLocal(keys, s, u, a, quote);
  }

  /** The placeholder is read as the value, or as the start of a longer one. */
  ghost predicate ReadsPlaceholder(quote: Option<char>, x: string, n: nat, w: string)
    requires n <= |x|
  {
    var m := ValueLength(PLACEHOLDER + w, quote);
    m >= |PLACEHOLDER| && (Alike(w, x[n..]) ==> m == |PLACEHOLDER|) && (StartsAsMark(ScrubberFor([]), w) ==> m > |PLACEHOLDER|)
  }

  lemma PlaceholderIsRead(quote: Option<char>, x: string, w: string)
    requires quote.Some? ==> QuoteMark(quote.value)
    ensures ReadsPlaceholder(quote, x, ValueLength(x, quote), w)
  {
    ValueRunsThrough(PLACEHOLDER, w, quote);
    EndedIsEmpty(w, quote);
    ValueIsEnded(x, quote);
  }

  lemma CutParts(keys: Keys, p: Option<char>, s: string) returns (a: nat, quote: Option<char>)
    requires CutAt(keys, p, s).Some?
    ensures KeyAndTrail(keys, s) == Some((a, quote)) && CutAt(keys, p, s) == Some((a, ValueLength(s[a..], quote)))
    ensures p.Some? ==> !WordByte(p.value)
  {
    a, quote := KeyAndTrail(keys, s).value.0, KeyAndTrail(keys, s).value.1;
  }

  lemma CutFromParts(keys: Keys, p: Option<char>, u: string, a: nat, quote: Option<char>)
    requires KeyAndTrail(keys, u) == Some((a, quote)) && (p.Some? ==> !WordByte(p.value)) && ValueLength(u[a..], quote) > 0
    ensures CutAt(keys, p, u) == Some((a, ValueLength(u[a..], quote)))
  {
  }

  lemma SecretFindsReplaced(keys: Keys, p: Option<char>, s: string, w: string)
    requires CutAt(keys, p, s).Some?
    ensures var (a, n) := CutAt(keys, p, s).value; ReplacedValue(ScrubberFor(keys), p, s, a, n, w)
  {
    var a, quote := CutParts(keys, p, s);
    var x := s[a..];
    SecretKeyStays(keys, s, w, a, quote);
    PlaceholderIsRead(quote, x, w);
    RedactedParts(ScrubberFor(keys), s, a, w);
    assert x[ValueLength(x, quote)..] == s[a + ValueLength(x, quote)..];
    CutFromParts(keys, p, Redacted(ScrubberFor(keys), s, a, w), a, quote);
  }

  lemma SecretIsSteady(keys: Keys)
    ensures Steady(ScrubberFor(keys))
  {
    SecretIsWellShaped(keys);
    SecretSparesMark(keys);
    SecretIsLocal(keys);
    SecretIsFoundAgain(keys);
  }

  lemma SecretIsWellShaped(keys: Keys)
    ensures WellShaped(ScrubberFor(keys))
  {
    forall p, s | ScrubberFor(keys).at(p, s).Some?
      ensures var (a, n) := ScrubberFor(keys).at(p, s).value; QuietUpTo(s, a) && (a + n < |s| ==> !WordByte(s[a + n]))
    {
      SecretShape(keys, p, s);
    }
  }

  lemma SecretSparesMark(keys: Keys)
    ensures SparesMark(ScrubberFor(keys))
  {
    forall prev, w
      ensures NoCuts(ScrubberFor(keys), prev, PLACEHOLDER, w)
    {
      NoSecretInPlaceholder(keys, prev, w);
    }
  }

  lemma NoSecretInPlaceholder(keys: Keys, prev: Option<char>, w: string)
    ensures NoCuts(ScrubberFor(keys), prev, PLACEHOLDER, w)
  {
    var x := PLACEHOLDER;
    forall i | 0 <= i < |x|
      ensures CutAt(keys, Before(prev, x, i), x[i..] + w) == None
    {
      assert (x[i..] + w)[0] == x[i];
      if i == 1 {
        assert x[1..] == "redacted>";
        SecretSparesPlaceholder(keys, w);
      } else {
        PlaceholderIsBlocked(prev, i);
      }
    }
  }

  lemma PlaceholderIsBlocked(prev: Option<char>, i: nat)
    requires i < |PLACEHOLDER| && i != 1
    ensures Blocked(Before(prev, PLACEHOLDER, i), PLACEHOLDER[i])
  {
  }

  lemma SecretIsLocal(keys: Keys)
    ensures ReadsLocally(ScrubberFor(keys))
  {
    forall p, s, t, a | Resembles(s, t, a) && ScrubberFor(keys).at(p, s).Some? && ScrubberFor(keys).at(p, s).value.0 == a
      ensures ScrubberFor(keys).at(p, t).Some?
    {
      SecretReadsLocally(keys, p, s, t, a);
    }
  }

  lemma SecretIsFoundAgain(keys: Keys)
    ensures FindsReplaced(ScrubberFor(keys))
  {
    forall p, s, w, a, n | a <= |s| && ScrubberFor(keys).at(p, s) == Some((a, n))
      ensures ReplacedValue(ScrubberFor(keys), p, s, a, n, w)
    {
      SecretFindsReplaced(keys, p, s, w);
    }
  }

  /**
   A second pass changes nothing exactly when no replaced value, with its key
   left in the text, ends where the next replaced value starts.
   */
  lemma ScrubbingTwice(keys: Keys, text: string)
    ensures Scrubbed(keys, Scrubbed(keys, text)) == Scrubbed(keys, text) <==> !Clash(ScrubberFor(keys), None, text, 0)
  {
    SecretIsSteady(keys);
    SecondPass(ScrubberFor(keys), None, None, text, 0, 0);
  }
}
