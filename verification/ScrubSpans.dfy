/**
 The parameter scrubber as it is written: key by key over the whole text,
 collecting cuts, sorting them, and copying what lies between. First, what the
 sorted cuts come to, for any rule for cuts.
 */
module ScrubSpans {
  import opened Outcomes
  import opened Sorting
  import opened Gathering
  import opened ScrubText
  import opened ScrubTwice

  /** From the first byte of a value to just past its last. */
  datatype Span = Span(first: nat, past: nat)

  // ---- every cut of a text ----

  function Prev(text: string, p: nat): Option<char>
    requires p <= |text|
  {
    if p == 0 then None else Some(text[p - 1])
  }

  function Shifted(c: Option<(nat, nat)>, p: nat): (r: Option<Span>) {
    if c.Some? then Some(Span(p + c.value.0, p + c.value.0 + c.value.1)) else None
  }

  /** The value of the key that starts at a position, as a span of the text. */
  function SpanAt(cut: Scrubber, text: string, p: nat): (c: Option<Span>)
    requires p <= |text|
    ensures c.Some? ==> p + 8 < c.value.first < c.value.past <= |text|
  {
    Shifted(cut.at(Prev(text, p), text[p..]), p)
  }

  /** The spans of the keys from a position on, in order. */
  function Spans(cut: Scrubber, text: string, p: nat): seq<Span>
    requires p <= |text|
    decreases |text| - p
  {
    if p == |text| then [] else AsSeq(SpanAt(cut, text, p)) + Spans(cut, text, p + 1)
  }

  /** The spans to replace: those that start inside one already replaced are skipped. */
  function Applied(cuts: seq<Span>, at: nat): seq<Span> {
    if cuts == [] then []
    else if cuts[0].first < at then Applied(cuts[1..], at)
    else [cuts[0]] + Applied(cuts[1..], cuts[0].past)
  }

  /** One after another, and inside the text. */
  predicate InOrder(cuts: seq<Span>, at: nat, end: nat) {
    at <= end && (cuts != [] ==> at <= cuts[0].first <= cuts[0].past && InOrder(cuts[1..], cuts[0].past, end))
  }

  lemma {:induction false} InOrderFits(cuts: seq<Span>, at: nat, end: nat)
    requires InOrder(cuts, at, end) && cuts != []
    ensures cuts[0].past <= end
  {
  }

  /** The text from a position on, with each span replaced and every other byte kept. */
  function Splice(mark: string, text: string, at: nat, cuts: seq<Span>): string
    requires InOrder(cuts, at, |text|)
    decreases |cuts|
  {
    if cuts == [] then text[at..]
    else
      InOrderFits(cuts, at, |text|);
      text[at..cuts[0].first] + (mark + Splice(mark, text, cuts[0].past, cuts[1..]))
  }

  // ---- order ----

  lemma Quiet(cut: Scrubber, text: string, p: nat)
    requires WellShaped(cut) && p <= |text| && SpanAt(cut, text, p).Some?
    ensures forall q :: p < q < SpanAt(cut, text, p).value.first ==> SpanAt(cut, text, q).None?
  {
    var s := text[p..];
    assert QuietUpTo(s, SpanAt(cut, text, p).value.first - p);
    forall q | p < q < SpanAt(cut, text, p).value.first
      ensures SpanAt(cut, text, q).None?
    {
      assert Blocked(Some(s[q - p - 1]), s[q - p]);
      assert s[q - p] == text[q] && s[q - p - 1] == text[q - 1] && text[q..][0] == text[q];
    }
  }

  /** Positions without spans make no difference. */
  lemma {:induction false} SpansSkip(cut: Scrubber, text: string, p: nat, q: nat)
    requires p <= q <= |text| && forall r :: p <= r < q ==> SpanAt(cut, text, r).None?
    ensures Spans(cut, text, p) == Spans(cut, text, q)
    decreases q - p
  {
    if p < q {
      SpansSkip(cut, text, p + 1, q);
    }
  }

  lemma SpansAfterFirst(cut: Scrubber, text: string, p: nat)
    requires WellShaped(cut) && p < |text| && SpanAt(cut, text, p).Some?
    ensures var c := SpanAt(cut, text, p).value;
            Spans(cut, text, p) == [c] + Spans(cut, text, c.first)
  {
    Quiet(cut, text, p);
    SpansSkip(cut, text, p + 1, SpanAt(cut, text, p).value.first);
  }

  predicate SpanLeq(x: Span, y: Span) { x.first < y.first || (x.first == y.first && x.past <= y.past) }

  lemma SpansAreOrdered()
    ensures Order(SpanLeq) && forall xs :: Tells(SpanLeq, xs)
  {
  }

  ghost predicate Within(cuts: seq<Span>, p: nat, end: nat) {
    forall i :: 0 <= i < |cuts| ==> p < cuts[i].first < cuts[i].past <= end
  }

  lemma SortedCons(c: Span, cuts: seq<Span>, p: nat, end: nat)
    requires p < c.first < c.past <= end && Sorted(SpanLeq, cuts) && Within(cuts, c.first, end)
    ensures Sorted(SpanLeq, [c] + cuts) && Within([c] + cuts, p, end)
  {
  }

  /** In the order of the text is in the order of the sort. */
  lemma {:induction false} SpansAreSorted(cut: Scrubber, text: string, p: nat)
    requires WellShaped(cut) && p <= |text|
    ensures Sorted(SpanLeq, Spans(cut, text, p)) && Within(Spans(cut, text, p), p, |text|)
    decreases |text| - p
  {
    if p < |text| {
      var c := SpanAt(cut, text, p);
      if c.Some? {
        SpansAfterFirst(cut, text, p);
        SpansAreSorted(cut, text, c.value.first);
        SortedCons(c.value, Spans(cut, text, c.value.first), p, |text|);
      } else {
        SpansAreSorted(cut, text, p + 1);
        SpansSkip(cut, text, p, p + 1);
      }
    }
  }

  // ---- splicing is scanning ----

  /** What the scan still has to emit at a position, when all but what follows `at` is emitted. */
  function Unscanned(cut: Scrubber, text: string, at: nat, p: nat): string
    requires at <= |text| && p <= |text|
  {
    if at <= p then text[at..p] + Scan(cut, Prev(text, p), text[p..], 0)
    else Scan(cut, Prev(text, p), text[p..], at - p)
  }

  lemma PassOver(cut: Scrubber, text: string, at: nat, p: nat)
    requires p < |text| && at <= |text|
    requires SpanAt(cut, text, p).Some? ==> SpanAt(cut, text, p).value.first < at
    ensures Unscanned(cut, text, at, p) == Unscanned(cut, text, at, p + 1)
  {
    var s := text[p..];
    var z := Scan(cut, Some(s[0]), s[1..], if at <= p then 0 else at - p - 1);
    assert s[0] == text[p] && s[1..] == text[p + 1..];
    if at <= p {
      assert text[at..p + 1] + z == text[at..p] + ([text[p]] + z);
    } else if at == p + 1 {
      assert text[at..at] + z == z;
    }
  }

  /** What the scan emits from a cut on, in terms of the text. */
  lemma ScanAtCut(cut: Scrubber, text: string, hold: nat, p: nat)
    requires p < |text| && cut.at(Prev(text, p), text[p..]).Some?
    requires hold <= cut.at(Prev(text, p), text[p..]).value.0
    ensures var (a, n) := cut.at(Prev(text, p), text[p..]).value;
            Scan(cut, Prev(text, p), text[p..], hold) ==
            text[p + hold..p + a] + (cut.mark + Scan(cut, Prev(text, p + a), text[p + a..], n))
  {
    var (a, n) := cut.at(Prev(text, p), text[p..]).value;
    ScanOfCut(cut, Prev(text, p), text[p..], hold);
    AfterCut(text, p, a);
    SliceOfSuffix(text, p, hold, a);
  }

  lemma SliceOfSuffix(text: string, p: nat, i: nat, j: nat)
    requires i <= j && p + j <= |text|
    ensures text[p..][i..j] == text[p + i..p + j]
  {
  }

  lemma JoinSlices(text: string, i: nat, j: nat, k: nat, z: string)
    requires i <= j <= k <= |text|
    ensures text[i..j] + (text[j..k] + z) == text[i..k] + z
  {
  }

  lemma ReplaceFrom(cut: Scrubber, text: string, at: nat, p: nat)
    requires p < |text| && at <= |text| && cut.at(Prev(text, p), text[p..]).Some?
    requires at <= p + cut.at(Prev(text, p), text[p..]).value.0
    ensures var (a, n) := cut.at(Prev(text, p), text[p..]).value;
            Unscanned(cut, text, at, p) == text[at..p + a] + (cut.mark + Scan(cut, Prev(text, p + a), text[p + a..], n))
  {
    var (a, n) := cut.at(Prev(text, p), text[p..]).value;
    if at <= p {
      ScanAtCut(cut, text, 0, p);
      JoinSlices(text, at, p, p + a, cut.mark + Scan(cut, Prev(text, p + a), text[p + a..], n));
    } else {
      ScanAtCut(cut, text, at - p, p);
    }
  }

  lemma Replace(cut: Scrubber, text: string, at: nat, p: nat)
    requires p < |text| && at <= |text| && SpanAt(cut, text, p).Some? && at <= SpanAt(cut, text, p).value.first
    ensures var c := SpanAt(cut, text, p).value;
            Unscanned(cut, text, at, p) == text[at..c.first] + (cut.mark + Unscanned(cut, text, c.past, c.first))
  {
    ReplaceFrom(cut, text, at, p);
  }

  lemma AfterCut(text: string, p: nat, a: nat)
    requires 0 < a && p + a <= |text|
    ensures text[p..][a..] == text[p + a..] && Prev(text, p + a) == Some(text[p..][a - 1])
  {
  }

  lemma ScanOfCut(cut: Scrubber, prev: Option<char>, s: string, hold: nat)
    requires s != "" && cut.at(prev, s).Some? && hold <= cut.at(prev, s).value.0
    ensures var (a, n) := cut.at(prev, s).value;
            Scan(cut, prev, s, hold) == s[hold..a] + (cut.mark + Scan(cut, Some(s[a - 1]), s[a..], n))
  {
    var (a, n) := cut.at(prev, s).value;
    var z := Scan(cut, Some(s[a - 1]), s[a..], n);
    assert s[hold..a] + cut.mark + z == s[hold..a] + (cut.mark + z);
  }

  ghost predicate SplicesFrom(cut: Scrubber, text: string, at: nat, p: nat)
    requires at <= |text| && p <= |text|
  {
    var cuts := Applied(Spans(cut, text, p), at);
    InOrder(cuts, at, |text|) && Splice(cut.mark, text, at, cuts) == Unscanned(cut, text, at, p)
  }

  lemma {:induction false} ScanIsSplice(cut: Scrubber, text: string, at: nat, p: nat)
    requires WellShaped(cut) && at <= |text| && p <= |text|
    ensures SplicesFrom(cut, text, at, p)
    decreases |text| - p
  {
    if p == |text| {
      assert text[at..] + "" == text[at..p];
    } else {
      var c := SpanAt(cut, text, p);
      if c.Some? && c.value.first >= at {
        SpansAfterFirst(cut, text, p);
        ScanIsSplice(cut, text, c.value.past, c.value.first);
        Replace(cut, text, at, p);
        assert Spans(cut, text, p)[1..] == Spans(cut, text, c.value.first);
        SpliceFirst(cut.mark, text, at, c.value, Applied(Spans(cut, text, c.value.first), c.value.past));
      } else {
        ScanIsSplice(cut, text, at, p + 1);
        PassOver(cut, text, at, p);
        assert c.Some? ==> Spans(cut, text, p)[1..] == Spans(cut, text, p + 1);
        assert c.None? ==> Spans(cut, text, p) == Spans(cut, text, p + 1);
      }
    }
  }

  lemma SpliceFirst(mark: string, text: string, at: nat, c: Span, cuts: seq<Span>)
    requires at <= c.first <= c.past && InOrder(cuts, c.past, |text|)
    ensures InOrder([c] + cuts, at, |text|) && c.past <= |text|
    ensures Splice(mark, text, at, [c] + cuts) == text[at..c.first] + (mark + Splice(mark, text, c.past, cuts))
  {
    assert ([c] + cuts)[1..] == cuts;
  }

  /**
   Scanning replaces the applied spans, which are in range, in order and
   disjoint, and keeps every other byte where it stands between them.
   */
  lemma ScrubbingSplices(cut: Scrubber, text: string)
    requires WellShaped(cut)
    ensures var cuts := Applied(Spans(cut, text, 0), 0);
            InOrder(cuts, 0, |text|) && Scan(cut, None, text, 0) == Splice(cut.mark, text, 0, cuts)
  {
    ScanIsSplice(cut, text, 0, 0);
    assert text[0..] == text;
    assert text[0..0] + Scan(cut, None, text, 0) == Scan(cut, None, text, 0);
  }
}
