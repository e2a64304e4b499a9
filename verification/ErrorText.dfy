/**
 The scrubber of `key=value` secrets, loop by loop: each key is looked for over
 the whole text, the cuts are sorted, and what lies between them is copied. It
 computes what one scan from the left does.
 */
module ErrorText {
  import opened Outcomes
  import opened Sorting
  import opened Gathering
  import opened ScrubText
  import opened ScrubSpans
  import ScrubTwice
  import ScrubSecrets

  // ---- library searches ----

  function Lowered(text: string): string { seq(|text|, i requires 0 <= i < |text| => LowerByte(text[i])) }

  ghost predicate IsLowered(lower: string, text: string) {
    |lower| == |text| && forall i :: 0 <= i < |lower| ==> lower[i] == LowerByte(text[i])
  }

  predicate StartsAt(text: string, part: string, p: nat) {
    p + |part| <= |text| && forall i :: 0 <= i < |part| ==> text[p + i] == part[i]
  }

  /** Where the first occurrence at or after a position is. */
  function Find(text: string, part: string, from: nat): (r: Option<nat>)
    requires from <= |text|
    decreases |text| - from
  {
    if StartsAt(text, part, from) then Some(from)
    else if from == |text| then None
    else Find(text, part, from + 1)
  }

  lemma {:induction false} FindsFirst(text: string, part: string, from: nat)
    requires from <= |text|
    ensures var r := Find(text, part, from);
            && (r.Some? ==> from <= r.value && StartsAt(text, part, r.value))
            && forall q :: from <= q < (if r.Some? then r.value else |text|) ==> !StartsAt(text, part, q)
    decreases |text| - from
  {
    if !StartsAt(text, part, from) && from < |text| {
      FindsFirst(text, part, from + 1);
    }
  }

  function AsciiSpaces(bytes: string): (n: nat)
    ensures n <= |bytes|
  {
    if bytes != "" && AsciiSpace(bytes[0]) then 1 + AsciiSpaces(bytes[1..]) else 0
  }

  lemma {:induction false} SpacesCounted(s: string, i: nat)
    requires i <= |s|
    ensures SpacesEnd(s, i) == i + AsciiSpaces(s[i..])
    decreases |s| - i
  {
    if i < |s| {
      assert s[i..][0] == s[i] && s[i..][1..] == s[i + 1..];
      SpacesCounted(s, i + 1);
    }
  }

  // ---- the same key and trail, seen from the start of the text ----

  lemma {:induction false} SpacesShift(text: string, p: nat, i: nat)
    requires p + i <= |text|
    ensures SpacesEnd(text, p + i) == p + SpacesEnd(text[p..], i)
    decreases |text| - i
  {
    if p + i < |text| {
      assert text[p..][i] == text[p + i];
      SpacesShift(text, p, i + 1);
    }
  }

  lemma SeparatorShift(text: string, p: nat, key: nat)
    requires p + key <= |text|
    ensures var i := Separator(text[p..], key);
            Separator(text, p + key) == if i.Some? then Some(p + i.value) else None
  {
    var s := text[p..];
    assert QuoteAt(s, key) == QuoteAt(text, p + key);
    var at := if QuoteAt(s, key) then key + 1 else key;
    SpacesShift(text, p, at);
    var e := SpacesEnd(s, at);
    assert e < |s| ==> s[e] == text[p + e];
  }

  lemma PastSeparatorShift(text: string, p: nat, key: nat, i: nat)
    requires key <= i && p + i < |text|
    ensures PastSeparator(text, p + key, p + i) == p + PastSeparator(text[p..], key, i)
  {
    var s := text[p..];
    assert s[i] == text[p + i] && QuoteAt(s, key) == QuoteAt(text, p + key);
    SpacesShift(text, p, i + 1);
  }

  lemma TrailShift(text: string, p: nat, key: nat)
    requires p + key <= |text|
    ensures Trail(text, p + key) == TrailFrom(Trail(text[p..], key), p)
  {
    var s := text[p..];
    SeparatorShift(text, p, key);
    var i := Separator(s, key);
    if i.Some? {
      PastSeparatorShift(text, p, key, i.value);
      var v := PastSeparator(s, key, i.value);
      assert QuoteAt(s, v) == QuoteAt(text, p + v);
    }
  }

  // ---- loops ----

  method QuotedLen(value: string, quote: char) returns (n: nat)
    ensures n == QuotedLength(value, quote)
  {
    var i := 0;
    while i < |value|
      invariant QuotedLength(value, quote) == if i <= |value| then i + QuotedLength(value[i..], quote) else |value|
      decreases |value| - i
    {
      var rest := value[i..];
      assert rest[0] == value[i] && rest[1..] == value[i + 1..];
      assert |rest| > 1 ==> rest[2..] == value[i + 2..];
      if value[i] == '\\' {
        i := i + 2;
      } else if value[i] == quote {
        return i;
      } else {
        i := i + 1;
      }
    }
    n := |value|;
  }

  method SkipSpaces(text: string, i: nat) returns (e: nat)
    requires i <= |text|
    ensures e == SpacesEnd(text, i)
  {
    SpacesCounted(text, i);
    e := i + AsciiSpaces(text[i..]);
  }

  /** After a key: past the separator and the opening quote, if there is a separator. */
  method SkipTrail(text: string, from: nat) returns (trail: Option<(nat, Option<char>)>)
    requires from <= |text|
    ensures trail == Trail(text, from)
  {
    var i := from;
    var quotedKey := i < |text| && QuoteMark(text[i]);
    if quotedKey {
      i := i + 1;
    }
    i := SkipSpaces(text, i);
    if !(i < |text| && (text[i] == '=' || text[i] == ':')) {
      return None;
    }
    var separator := text[i];
    i := i + 1;
    if separator == '=' || quotedKey {
      i := SkipSpaces(text, i);
    }
    var quote := None;
    if i < |text| && QuoteMark(text[i]) {
      quote := Some(text[i]);
      i := i + 1;
    }
    trail := Some((i, quote));
  }

  /** A way to measure the value that starts a text. */
  type Measure = (string, Option<char>) -> nat

  ghost predicate Measures(measure: Measure) {
    forall s, q {:trigger ValueLength(s, q)} :: measure(s, q) == ValueLength(s, q)
  }

  function CutOfTrail(measure: Measure, text: string, trail: Option<(nat, Option<char>)>): Option<Span>
    requires trail.Some? ==> trail.value.0 <= |text|
  {
    if trail.None? then None else CutOfValue(trail.value.0, measure(text[trail.value.0..], trail.value.1))
  }

  function CutOfValue(first: nat, n: nat): Option<Span> { if n > 0 then Some(Span(first, first + n)) else None }

  /** The cut that an occurrence of a key adds. */
  function CutAfter(measure: Measure, text: string, start: nat, from: nat): Option<Span>
    requires start <= from <= |text|
  {
    if start > 0 && WordByte(text[start - 1]) then None else CutOfTrail(measure, text, Trail(text, from))
  }

  function TrailFrom(trail: Option<(nat, Option<char>)>, p: nat): Option<(nat, Option<char>)> {
    if trail.Some? then Some((p + trail.value.0, trail.value.1)) else None
  }

  function SpanFrom(c: Option<Span>, p: nat): Option<Span> {
    if c.Some? then Some(Span(p + c.value.first, p + c.value.past)) else None
  }

  lemma CutOfTrailShift(measure: Measure, text: string, start: nat, trail: Option<(nat, Option<char>)>)
    requires start <= |text| && (trail.Some? ==> trail.value.0 <= |text| - start)
    ensures CutOfTrail(measure, text, TrailFrom(trail, start)) == SpanFrom(CutOfTrail(measure, text[start..], trail), start)
  {
    if trail.Some? {
      SuffixOfSuffix(text, start, trail.value.0);
    }
  }

  lemma SuffixOfSuffix(text: string, p: nat, q: nat)
    requires p + q <= |text|
    ensures text[p..][q..] == text[p + q..]
  {
  }

  lemma TrailOfKey(keys: Keys, s: string, k: nat)
    requires KeyAt(keys, s) == Some(k)
    ensures |keys[k]| <= |s| && KeyAndTrail(keys, s) == Trail(s, |keys[k]|)
  {
    assert KeyLength(keys, s) == Some(|keys[k]|);
  }

  lemma CutOfItsTrail(keys: Keys, measure: Measure, prev: Option<char>, s: string)
    requires Measures(measure)
    ensures Shifted(CutAt(keys, prev, s), 0) ==
            if prev.Some? && WordByte(prev.value) then None else CutOfTrail(measure, s, KeyAndTrail(keys, s))
  {
    var trail := KeyAndTrail(keys, s);
    if trail.Some? {
      var (a, quote) := trail.value;
      assert measure(s[a..], quote) == ValueLength(s[a..], quote);
    }
  }

  /** The cut of a key, seen from the start of the text. */
  lemma CutAfterShift(measure: Measure, text: string, start: nat, key: nat, c: Option<(nat, nat)>)
    requires start + key <= |text|
    requires Shifted(c, 0) ==
             if start > 0 && WordByte(text[start - 1]) then None else CutOfTrail(measure, text[start..], Trail(text[start..], key))
    ensures Shifted(c, start) == CutAfter(measure, text, start, start + key)
  {
    TrailShift(text, start, key);
    CutOfTrailShift(measure, text, start, Trail(text[start..], key));
  }

  /** The length of a value, to its closing quote or to what ends it. */
  method ValueLen(value: string, quote: Option<char>) returns (n: nat)
    ensures n == ValueLength(value, quote)
  {
    match quote {
      case Some(q) => n := QuotedLen(value, q);
      case None => n := UnquotedLength(value);
    }
  }

  predicate InsideWord(text: string, start: nat)
    requires start <= |text|
  {
    start > 0 && WordByte(text[start - 1])
  }

  /** Nothing more of a value: the text ends, or the quote it opened with closes, or something ends a value without one. */
  predicate EndsValue(text: string, i: nat, quote: Option<char>)
    requires i <= |text|
  {
    i == |text| || (if quote.Some? then text[i] == quote.value else DelimiterAt(text[i..]))
  }

  /** A separator after the key, with nothing but quotes and spaces about it up to the value. */
  ghost predicate Separated(text: string, from: nat, first: nat) {
    && from < first <= |text|
    && (exists i :: from <= i < first && (text[i] == '=' || text[i] == ':'))
    && (forall i :: from <= i < first ==> TrailByte(text[i]))
  }

  /** The byte before a value tells the quote it opened with, if any. */
  ghost predicate OpenedBy(text: string, first: nat, quote: Option<char>)
    requires 0 < first <= |text|
  {
    match quote
    case Some(q) => QuoteMark(q) && text[first - 1] == q
    case None => first < |text| ==> !QuoteMark(text[first])
  }

  /**
   A cut is the value of a key that does not end a longer word, past a separator, to
   where a value ends; there is none inside a word, without a separator, or where
   the value ends at once.
   */
  ghost predicate CutOfKey(text: string, start: nat, from: nat, cut: Option<Span>)
    requires start <= from <= |text|
  {
    match cut
    case Some(c) =>
      && !InsideWord(text, start) && Separated(text, from, c.first) && c.first < c.past <= |text|
      && exists quote :: OpenedBy(text, c.first, quote) && EndsValue(text, c.past, quote)
    case None =>
      InsideWord(text, start) || Separator(text, from).None?
      || exists first, quote :: Separated(text, from, first) && OpenedBy(text, first, quote) && EndsValue(text, first, quote)
  }

  lemma ValueEndsThere(text: string, first: nat, quote: Option<char>)
    requires first <= |text|
    ensures EndsValue(text, first + ValueLength(text[first..], quote), quote)
  {
    var s, n := text[first..], ValueLength(text[first..], quote);
    assert s[n..] == text[first + n..];
  }

  lemma TrailIsSeparated(text: string, from: nat)
    requires from <= |text| && Trail(text, from).Some?
    ensures Separated(text, from, Trail(text, from).value.0)
    ensures OpenedBy(text, Trail(text, from).value.0, Trail(text, from).value.1)
  {
    TrailBytes(text, from);
    var i := Separator(text, from).value;
    assert from <= i < Trail(text, from).value.0 && (text[i] == '=' || text[i] == ':');
  }

  lemma CutAfterIsOfKey(measure: Measure, text: string, start: nat, from: nat)
    requires Measures(measure) && start <= from <= |text|
    ensures CutOfKey(text, start, from, CutAfter(measure, text, start, from))
  {
    if !InsideWord(text, start) && Trail(text, from).Some? {
      var (first, quote) := Trail(text, from).value;
      TrailIsSeparated(text, from);
      ValueEndsThere(text, first, quote);
      assert measure(text[first..], quote) == ValueLength(text[first..], quote);
      ValueIsCut(text, start, from, first, quote, ValueLength(text[first..], quote));
    }
  }

  lemma ValueIsCut(text: string, start: nat, from: nat, first: nat, quote: Option<char>, n: nat)
    requires start <= from <= first && first + n <= |text| && !InsideWord(text, start)
    requires Separated(text, from, first) && OpenedBy(text, first, quote) && EndsValue(text, first + n, quote)
    ensures CutOfKey(text, start, from, CutOfValue(first, n))
  {
  }

  /** What an occurrence of a key adds to the cuts. */
  method CutAfterKey(ghost measure: Measure, text: string, start: nat, from: nat) returns (cut: Option<Span>)
    requires Measures(measure) && start <= from <= |text|
    ensures CutOfKey(text, start, from, cut)
    ensures cut == CutAfter(measure, text, start, from)
  {
    CutAfterIsOfKey(measure, text, start, from);
    if start > 0 && WordByte(text[start - 1]) {
      return None;
    }
    var trail := SkipTrail(text, from);
    if trail.None? {
      return None;
    }
    var (first, quote) := trail.value;
    var value := text[first..];
    var length := ValueLen(value, quote);
    cut := if length > 0 then Some(Span(first, first + length)) else None;
  }

  // ---- the cuts of every key are the spans of the text ----

  /** Position by position, what to cut there and which key is there; and how values are measured. */
  datatype Chart = Chart(here: nat -> Option<Span>, kind: nat -> Option<nat>, measure: Measure)

  ghost predicate Charts(keys: Keys, text: string, chart: Chart) {
    && (forall p {:trigger CutAt(keys, Prev(text, p), text[p..])} :: 0 <= p <= |text| ==>
          chart.here(p) == Shifted(CutAt(keys, Prev(text, p), text[p..]), p))
    && (forall p {:trigger KeyAt(keys, text[p..])} :: 0 <= p <= |text| ==> chart.kind(p) == KeyAt(keys, text[p..]))
    && Measures(chart.measure)
  }

  function ChartOf(keys: Keys, text: string): Chart {
    Chart((p: nat) => if p <= |text| then SpanAt(ScrubberFor(keys), text, p) else None,
          (p: nat) => if p <= |text| then KeyAt(keys, text[p..]) else None,
          ValueLength)
  }

  lemma {:induction false} SpansInPlace(cut: Scrubber, text: string, here: nat -> Option<Span>, p: nat)
    requires p <= |text| && forall q :: 0 <= q <= |text| ==> here(q) == SpanAt(cut, text, q)
    ensures Spans(cut, text, p) == InPlace(here, p, |text|)
    decreases |text| - p
  {
    if p < |text| {
      SpansInPlace(cut, text, here, p + 1);
    }
  }

  /** Key by key, the spans of the text are collected. */
  lemma EveryKeyTogether(keys: Keys, text: string)
    ensures var chart := ChartOf(keys, text);
            multiset(ByKind(chart.here, chart.kind, 0, |keys|, 0, |text|)) == multiset(Spans(ScrubberFor(keys), text, 0))
  {
    var chart := ChartOf(keys, text);
    forall p: nat | chart.here(p).Some?
      ensures chart.kind(p).Some? && chart.kind(p).value < |keys|
    {
      assert CutAt(keys, Prev(text, p), text[p..]).Some?;
      assert KeyAt(keys, text[p..]).Some?;
    }
    GatherEither(chart.here, chart.kind, |keys|, 0, |text|);
    SpansInPlace(ScrubberFor(keys), text, chart.here, 0);
  }

  // ---- between two occurrences of a key ----

  lemma KeyStartsWhere(keys: Keys, lower: string, text: string, k: nat, p: nat)
    requires IsLowered(lower, text) && p <= |text| && k < |keys|
    ensures StartsAt(lower, keys[k], p) <==> KeyAt(keys, text[p..]) == Some(k)
  {
    var key := keys[k];
    var s := text[p..];
    if StartsAt(lower, key, p) {
      forall i | 0 <= i < |key|
        ensures LowerByte(s[i]) == key[i]
      {
        assert lower[p + i] == key[i];
      }
      KeysAreDistinct(keys, s, k, KeyAt(keys, s).value);
    }
    if KeyAt(keys, s) == Some(k) {
      forall i | 0 <= i < |key|
        ensures lower[p + i] == key[i]
      {
        assert LowerByte(s[i]) == key[i];
      }
    }
  }

  /** A key is made of word bytes. */
  lemma InsideKey(keys: Keys, text: string, k: nat, p: nat)
    requires p <= |text| && k < |keys| && KeyAt(keys, text[p..]) == Some(k)
    ensures p < p + |keys[k]| <= |text|
    ensures forall r :: p <= r < p + |keys[k]| ==> WordByte(text[r])
  {
    var s := text[p..];
    KeyBytes(keys, s, k);
    forall r | p <= r < p + |keys[k]|
      ensures WordByte(text[r])
    {
      assert s[r - p] == text[r];
    }
  }

  // ---- scrub_params ----

  /** The spans of one key, from a position on. */
  function SpansOf(chart: Chart, text: string, k: nat, p: nat): seq<Span>
    requires p <= |text|
  {
    OfKind(chart.here, chart.kind, k, p, |text|)
  }

  lemma BeforeFound(keys: Keys, lower: string, chart: Chart, text: string, k: nat, from: nat, found: nat)
    requires IsLowered(lower, text) && Charts(keys, text, chart) && k < |keys| && from <= found <= |text|
    requires forall q :: from <= q < found ==> !StartsAt(lower, keys[k], q)
    ensures SpansOf(chart, text, k, from) == SpansOf(chart, text, k, found)
  {
    var here, kind := chart.here, chart.kind;
    forall r | from <= r < found
      ensures OfKindAt(here, kind, k, r) == []
    {
      KeyStartsWhere(keys, lower, text, k, r);
    }
    NothingBetween(here, kind, k, from, found, |text|);
  }

  lemma NoMoreOfKey(keys: Keys, lower: string, chart: Chart, text: string, k: nat, from: nat)
    requires IsLowered(lower, text) && Charts(keys, text, chart) && k < |keys| && from <= |text| && Find(lower, keys[k], from) == None
    ensures SpansOf(chart, text, k, from) == []
  {
    FindsFirst(lower, keys[k], from);
    BeforeFound(keys, lower, chart, text, k, from, |text|);
  }

  lemma PastKey(keys: Keys, chart: Chart, text: string, k: nat, start: nat)
    requires Charts(keys, text, chart) && k < |keys| && start <= |text| && KeyAt(keys, text[start..]) == Some(k)
    ensures start < start + |keys[k]| <= |text|
    ensures SpansOf(chart, text, k, start) == AsSeq(chart.here(start)) + SpansOf(chart, text, k, start + |keys[k]|)
  {
    var here, kind := chart.here, chart.kind;
    InsideKey(keys, text, k, start);
    forall r | start < r < start + |keys[k]|
      ensures OfKindAt(here, kind, k, r) == []
    {
      AfterWordByte(keys, chart, text, r);
    }
    NothingBetween(here, kind, k, start + 1, start + |keys[k]|, |text|);
  }

  lemma AfterWordByte(keys: Keys, chart: Chart, text: string, r: nat)
    requires Charts(keys, text, chart) && 0 < r <= |text| && WordByte(text[r - 1])
    ensures chart.here(r) == None
  {
    assert CutAt(keys, Prev(text, r), text[r..]).None?;
  }

  lemma SpanOfTrail(keys: Keys, chart: Chart, text: string, start: nat, key: nat)
    requires Charts(keys, text, chart) && start + key <= |text| && KeyAndTrail(keys, text[start..]) == Trail(text[start..], key)
    ensures chart.here(start) == CutAfter(chart.measure, text, start, start + key)
  {
    var c := CutAt(keys, Prev(text, start), text[start..]);
    CutOfItsTrail(keys, chart.measure, Prev(text, start), text[start..]);
    CutAfterShift(chart.measure, text, start, key, c);
  }

  lemma SpanOfKey(keys: Keys, chart: Chart, text: string, start: nat, k: nat)
    requires Charts(keys, text, chart) && start <= |text| && KeyAt(keys, text[start..]) == Some(k) && start + |keys[k]| <= |text|
    ensures chart.here(start) == CutAfter(chart.measure, text, start, start + |keys[k]|)
  {
    TrailOfKey(keys, text[start..], k);
    SpanOfTrail(keys, chart, text, start, |keys[k]|);
  }

  lemma FoundKey(keys: Keys, lower: string, chart: Chart, text: string, k: nat, from: nat, start: nat)
    requires IsLowered(lower, text) && Charts(keys, text, chart) && k < |keys| && from <= |text| && Find(lower, keys[k], from) == Some(start)
    ensures from <= start < start + |keys[k]| <= |text| && KeyAt(keys, text[start..]) == Some(k)
    ensures SpansOf(chart, text, k, from) == AsSeq(chart.here(start)) + SpansOf(chart, text, k, start + |keys[k]|)
  {
    FindsFirst(lower, keys[k], from);
    BeforeFound(keys, lower, chart, text, k, from, start);
    KeyStartsWhere(keys, lower, text, k, start);
    PastKey(keys, chart, text, k, start);
  }

  lemma OneMore(cuts: seq<Span>, c: Option<Span>, before: seq<Span>, after: seq<Span>)
    requires before == AsSeq(c) + after
    ensures cuts + before == Pushed(cuts, c) + after
  {
  }

  function Pushed(cuts: seq<Span>, c: Option<Span>): seq<Span> { if c.Some? then cuts + [c.value] else cuts }

  lemma FoundMore(keys: Keys, lower: string, chart: Chart, text: string, k: nat, from: nat, start: nat, cuts: seq<Span>)
    requires IsLowered(lower, text) && Charts(keys, text, chart) && k < |keys| && from <= |text| && Find(lower, keys[k], from) == Some(start)
    ensures from <= start < start + |keys[k]| <= |text| && KeyAt(keys, text[start..]) == Some(k)
    ensures cuts + SpansOf(chart, text, k, from) ==
            Pushed(cuts, chart.here(start)) + SpansOf(chart, text, k, start + |keys[k]|)
  {
    FoundKey(keys, lower, chart, text, k, from, start);
    OneMore(cuts, chart.here(start), SpansOf(chart, text, k, from), SpansOf(chart, text, k, start + |keys[k]|));
  }

  /** What the next occurrence of a key adds to the cuts. */
  method NextCut(keys: Keys, ghost chart: Chart, text: string, k: nat, start: nat) returns (c: Option<Span>)
    requires Charts(keys, text, chart) && k < |keys| && start <= |text| && start + |keys[k]| <= |text|
    requires KeyAt(keys, text[start..]) == Some(k)
    ensures c == chart.here(start)
  {
    SpanOfKey(keys, chart, text, start, k);
    c := CutAfterKey(chart.measure, text, start, start + |keys[k]|);
  }

  /** One occurrence of a key, cut and passed. */
  method PushNext(keys: Keys, lower: string, ghost chart: Chart, text: string, k: nat, cuts: seq<Span>, from: nat, start: nat)
    returns (more: seq<Span>)
    requires IsLowered(lower, text) && Charts(keys, text, chart) && k < |keys| && from <= |text| && Find(lower, keys[k], from) == Some(start)
    ensures from <= start < start + |keys[k]| <= |text|
    ensures cuts + SpansOf(chart, text, k, from) == more + SpansOf(chart, text, k, start + |keys[k]|)
  {
    FoundMore(keys, lower, chart, text, k, from, start, cuts);
    var c := NextCut(keys, chart, text, k, start);
    more := cuts;
    if c.Some? {
      more := more + [c.value];
    }
  }

  /** Every cut of one key. */
  method CutsOfKey(keys: Keys, lower: string, ghost chart: Chart, text: string, k: nat) returns (cuts: seq<Span>)
    requires IsLowered(lower, text) && Charts(keys, text, chart) && k < |keys|
    ensures cuts == SpansOf(chart, text, k, 0)
  {
    cuts := [];
    var from := 0;
    var found := Find(lower, keys[k], from);
    while found.Some?
      invariant from <= |text| && found == Find(lower, keys[k], from)
      invariant cuts + SpansOf(chart, text, k, from) == SpansOf(chart, text, k, 0)
      decreases |text| - from
    {
      cuts := PushNext(keys, lower, chart, text, k, cuts, from, found.value);
      from := found.value + |keys[k]|;
      found := Find(lower, keys[k], from);
    }
    NoMoreOfKey(keys, lower, chart, text, k, from);
  }

  method AllCuts(keys: Keys, ghost chart: Chart, text: string) returns (cuts: seq<Span>)
    requires Charts(keys, text, chart)
    ensures cuts == ByKind(chart.here, chart.kind, 0, |keys|, 0, |text|)
  {
    var lower := Lowered(text);
    cuts := [];
    for k := 0 to |keys|
      invariant cuts + ByKind(chart.here, chart.kind, k, |keys|, 0, |text|) == ByKind(chart.here, chart.kind, 0, |keys|, 0, |text|)
    {
      var more := CutsOfKey(keys, lower, chart, text, k);
      cuts := cuts + more;
    }
  }

  method ScrubParams(text: string) returns (out: string)
    ensures out == Scrubbed(Secrets(), text)
  {
    ghost var keys := Secrets();
    ghost var chart := ChartOf(keys, text);
    var cuts := AllCuts(Secrets(), chart, text);
    EveryKeyTogether(keys, text);
    SortedCuts(keys, text, cuts);
    if cuts == [] {
      return text;
    }
    cuts := Sort(SpanLeq, cuts);
    out := Rejoin(text, cuts);
  }

  /** The text with the cuts replaced, left to right. */
  method Rejoin(text: string, cuts: seq<Span>) returns (out: string)
    requires InOrder(Applied(cuts, 0), 0, |text|)
    ensures out == Splice(PLACEHOLDER, text, 0, Applied(cuts, 0))
  {
    out := "";
    var at := 0;
    for i := 0 to |cuts|
      invariant at <= |text| && InOrder(Applied(cuts[i..], at), at, |text|)
      invariant out + Splice(PLACEHOLDER, text, at, Applied(cuts[i..], at)) == Splice(PLACEHOLDER, text, 0, Applied(cuts, 0))
    {
      var Span(start, end) := cuts[i];
      assert cuts[i..][1..] == cuts[i + 1..];
      if start >= at {
        InOrderFits(Applied(cuts[i..], at), at, |text|);
        out := out + text[at..start];
        out := out + PLACEHOLDER;
        at := end;
      }
    }
    out := out + text[at..];
  }

  lemma SortedCuts(keys: Keys, text: string, cuts: seq<Span>)
    requires multiset(cuts) == multiset(Spans(ScrubberFor(keys), text, 0))
    ensures InOrder(Applied(Sort(SpanLeq, cuts), 0), 0, |text|)
    ensures Splice(PLACEHOLDER, text, 0, Applied(Sort(SpanLeq, cuts), 0)) == Scrubbed(keys, text)
    ensures cuts == [] ==> Scrubbed(keys, text) == text
  {
    ScrubSecrets.SecretIsSteady(keys);
    SpansAreOrdered();
    SpansAreSorted(ScrubberFor(keys), text, 0);
    SortOfSorted(SpanLeq, cuts, Spans(ScrubberFor(keys), text, 0));
    ScrubbingSplices(ScrubberFor(keys), text);
  }
}
