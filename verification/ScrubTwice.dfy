/**
 What a second pass of a left-to-right scrubber does to the output of a first: it
 changes nothing, unless a replaced value ended exactly where the next began.
 Stated for any rule for cuts that depends only on what is near a value.
 */
module ScrubTwice {
  import opened Outcomes
  import opened ScrubText

  // ---- what the scan relies on ----

  /** Two texts that start with the same byte, or the same end of a value, or are both empty. */
  ghost predicate Alike(x: string, y: string) {
    (x == "" <==> y == "") && (x != "" && y != "" ==> x[0] == y[0] && (DelimiterAt(x) <==> DelimiterAt(y)))
  }

  ghost predicate Resembles(s: string, t: string, a: nat) {
    a <= |s| && a <= |t| && s[..a] == t[..a] && Alike(s[a..], t[a..])
  }

  function Redacted(cut: Scrubber, s: string, a: nat, w: string): string
    requires a <= |s|
  {
    s[..a] + cut.mark + w
  }

  /** Before a value: bytes on which no other cut can start, all of them ASCII. */
  ghost predicate QuietUpTo(s: string, a: nat) {
    && a <= |s|
    && (forall i :: 0 < i < a ==> Blocked(Some(s[i - 1]), s[i]))
    && (forall i :: 0 <= i < a ==> s[i] < '\U{80}')
  }

  /** What a cut is preceded and followed by. */
  ghost predicate WellShaped(cut: Scrubber) {
    forall p, s :: cut.at(p, s).Some? ==>
      var (a, n) := cut.at(p, s).value;
      QuietUpTo(s, a) && (a + n < |s| ==> !WordByte(s[a + n]))
  }

  function MarkEnd(cut: Scrubber): Option<char> { Last(None, cut.mark) }

  predicate StartsAsMark(cut: Scrubber, w: string) { w != "" && cut.mark != "" && w[0] == cut.mark[0] }

  /** No cut starts in what values are replaced with. */
  ghost predicate SparesMark(cut: Scrubber) {
    cut.mark != "" && forall prev, w :: NoCuts(cut, prev, cut.mark, w)
  }

  /** Whether there is a cut depends on the bytes up to the value, and on how the value starts. */
  ghost predicate ReadsLocally(cut: Scrubber) {
    forall p, s, t, a :: Resembles(s, t, a) && cut.at(p, s).Some? && cut.at(p, s).value.0 == a ==> cut.at(p, t).Some?
  }

  ghost predicate FindsReplaced(cut: Scrubber) {
    forall p, s, w, a, n :: a <= |s| && cut.at(p, s) == Some((a, n)) ==> ReplacedValue(cut, p, s, a, n, w)
  }

  ghost predicate Steady(cut: Scrubber) {
    WellShaped(cut) && SparesMark(cut) && ReadsLocally(cut) && FindsReplaced(cut)
  }

  /**
   The value of a key, once replaced: found again, as the placeholder and no more
   when what follows still ends it, and as more when another placeholder follows.
   */
  ghost predicate ReplacedValue(cut: Scrubber, p: Option<char>, s: string, a: nat, n: nat, w: string)
    requires a <= |s|
  {
    var c := cut.at(p, Redacted(cut, s, a, w));
    && c.Some? && c.value.0 == a && c.value.1 >= |cut.mark|
    && (a + n <= |s| && Alike(w, s[a + n..]) ==> c.value.1 == |cut.mark|)
    && (StartsAsMark(cut, w) ==> c.value.1 > |cut.mark|)
  }

  // ---- walking through text where no key can start ----

  function Before(prev: Option<char>, x: string, i: nat): Option<char>
    requires i < |x|
  {
    if i == 0 then prev else Some(x[i - 1])
  }

  predicate Silent(prev: Option<char>, x: string) {
    forall i :: 0 <= i < |x| ==> Blocked(Before(prev, x, i), x[i])
  }

  lemma SilentTail(prev: Option<char>, x: string)
    requires x != "" && Silent(prev, x)
    ensures Blocked(prev, x[0]) && Silent(Some(x[0]), x[1..])
  {
    assert Blocked(Before(prev, x, 0), x[0]);
    forall i | 0 <= i < |x[1..]|
      ensures Blocked(Before(Some(x[0]), x[1..], i), x[1..][i])
    {
      assert Blocked(Before(prev, x, i + 1), x[i + 1]);
    }
  }

  function Last(prev: Option<char>, x: string): Option<char> { if x == "" then prev else Some(x[|x| - 1]) }

  /** The scan of a text whose first part no key starts in. */
  function Walked(cut: Scrubber, prev: Option<char>, x: string, w: string, hold: nat): string
    requires hold <= |x| + |w|
  {
    if hold <= |x| then x[hold..] + Scan(cut, Last(prev, x), w, 0) else Scan(cut, Last(prev, x), w, hold - |x|)
  }

  /** No cut starts in the first part of a text. */
  ghost predicate NoCuts(cut: Scrubber, prev: Option<char>, x: string, w: string) {
    forall i :: 0 <= i < |x| ==> cut.at(Before(prev, x, i), x[i..] + w) == None
  }

  lemma NoCutsTail(cut: Scrubber, prev: Option<char>, x: string, w: string)
    requires x != "" && NoCuts(cut, prev, x, w)
    ensures cut.at(prev, x + w) == None && NoCuts(cut, Some(x[0]), x[1..], w)
  {
    assert x[0..] == x && cut.at(Before(prev, x, 0), x[0..] + w) == None;
    forall i | 0 <= i < |x[1..]|
      ensures cut.at(Before(Some(x[0]), x[1..], i), x[1..][i..] + w) == None
    {
      assert x[1..][i..] == x[i + 1..];
      assert cut.at(Before(prev, x, i + 1), x[i + 1..] + w) == None;
    }
  }

  lemma {:induction false} Walk(cut: Scrubber, prev: Option<char>, x: string, w: string, hold: nat)
    requires NoCuts(cut, prev, x, w) && hold <= |x| + |w|
    ensures Scan(cut, prev, x + w, hold) == Walked(cut, prev, x, w, hold)
    decreases |x|
  {
    if x == "" {
      assert x + w == w;
    } else {
      NoCutsTail(cut, prev, x, w);
      assert (x + w)[0] == x[0] && (x + w)[1..] == x[1..] + w;
      Walk(cut, Some(x[0]), x[1..], w, if hold == 0 then 0 else hold - 1);
      WalkedOne(cut, prev, x, w, hold);
    }
  }

  lemma WalkSilent(cut: Scrubber, prev: Option<char>, x: string, w: string, hold: nat)
    requires Silent(prev, x) && hold <= |x| + |w|
    ensures Scan(cut, prev, x + w, hold) == Walked(cut, prev, x, w, hold)
  {
    forall i | 0 <= i < |x|
      ensures cut.at(Before(prev, x, i), x[i..] + w) == None
    {
      assert Blocked(Before(prev, x, i), x[i]);
      assert (x[i..] + w)[0] == x[i];
    }
    Walk(cut, prev, x, w, hold);
  }

  lemma WalkedOne(cut: Scrubber, prev: Option<char>, x: string, w: string, hold: nat)
    requires x != "" && hold <= |x| + |w|
    ensures Walked(cut, prev, x, w, hold) ==
            if hold == 0 then [x[0]] + Walked(cut, Some(x[0]), x[1..], w, 0)
            else Walked(cut, Some(x[0]), x[1..], w, hold - 1)
  {
    assert Last(Some(x[0]), x[1..]) == Last(prev, x);
    if hold == 0 {
      assert x[0..] == [x[0]] + x[1..][0..];
    } else if hold <= |x| {
      assert x[hold..] == x[1..][hold - 1..];
    }
  }

  /** The placeholder holds no key. */
  lemma WalkPlaceholder(cut: Scrubber, prev: Option<char>, w: string, hold: nat)
    requires SparesMark(cut) && hold <= |cut.mark| + |w|
    ensures Scan(cut, prev, cut.mark + w, hold) == Walked(cut, prev, cut.mark, w, hold)
    ensures Last(prev, cut.mark) == MarkEnd(cut)
  {
    assert NoCuts(cut, prev, cut.mark, w);
    Walk(cut, prev, cut.mark, w, hold);
  }

  // ---- what the scan leaves as it was ----

  lemma ScanKeepsFirst(cut: Scrubber, prev: Option<char>, x: string)
    ensures Scan(cut, prev, x, 0) == "" <==> x == ""
    ensures x != "" ==> Scan(cut, prev, x, 0)[0] == x[0]
  {
  }

  /** What the scan emits is what it read, for as long as what it emits can start no key. */
  lemma {:induction false} EmittedWhileSilent(cut: Scrubber, prev: Option<char>, x: string, k: nat)
    requires k <= |Scan(cut, prev, x, 0)| && Silent(prev, Scan(cut, prev, x, 0)[..k])
    ensures k <= |x| && Scan(cut, prev, x, 0) == x[..k] + Scan(cut, Last(prev, x[..k]), x[k..], 0)
    decreases k
  {
    var y := Scan(cut, prev, x, 0);
    if k == 0 {
      assert x[..k] + y == y && x[k..] == x;
    } else {
      var y' := Scan(cut, Some(x[0]), x[1..], 0);
      SilentStep(cut, prev, x, k);
      EmittedWhileSilent(cut, Some(x[0]), x[1..], k - 1);
      var p := Last(Some(x[0]), x[1..][..k - 1]);
      assert p == Last(prev, x[..k]);
      Prepend(x, y, y', k, Scan(cut, p, x[1..][k - 1..], 0));
    }
  }

  lemma SilentStep(cut: Scrubber, prev: Option<char>, x: string, k: nat)
    requires 0 < k <= |Scan(cut, prev, x, 0)| && Silent(prev, Scan(cut, prev, x, 0)[..k])
    ensures x != "" && Blocked(prev, x[0])
    ensures var y' := Scan(cut, Some(x[0]), x[1..], 0);
            Scan(cut, prev, x, 0) == [x[0]] + y' && k <= 1 + |y'| && Silent(Some(x[0]), y'[..k - 1])
  {
    var y := Scan(cut, prev, x, 0);
    SilentTail(prev, y[..k]);
    ScanKeepsFirst(cut, prev, x);
    FirstEmitted(cut, prev, x);
    assert y[..k][1..] == Scan(cut, Some(x[0]), x[1..], 0)[..k - 1];
  }

  lemma FirstEmitted(cut: Scrubber, prev: Option<char>, x: string)
    requires x != "" && Blocked(prev, x[0])
    ensures Scan(cut, prev, x, 0) == [x[0]] + Scan(cut, Some(x[0]), x[1..], 0)
  {
  }

  lemma Prepend(x: string, y: string, y': string, k: nat, z: string)
    requires 0 < k <= |x| && y == [x[0]] + y' && y' == x[1..][..k - 1] + z
    ensures y == x[..k] + z && x[1..][k - 1..] == x[k..]
  {
    assert x[..k] == [x[0]] + x[1..][..k - 1];
  }

  /** A delimiter is one to three bytes, none of them a letter; its own bytes decide it. */
  function DelimiterWidth(s: string): (k: nat)
    requires DelimiterAt(s)
    ensures 1 <= k <= 3 && k <= |s| && forall i :: 0 <= i < k ==> !Letter(s[i])
  {
    if s[0] < '\U{80}' then 1 else if s[0] == '\U{C2}' then 2 else 3
  }

  lemma DelimiterLocal(s: string, t: string)
    requires DelimiterAt(s) && DelimiterWidth(s) <= |t| && t[..DelimiterWidth(s)] == s[..DelimiterWidth(s)]
    ensures DelimiterAt(t)
  {
    var k := DelimiterWidth(s);
    forall i | 0 <= i < k
      ensures t[i] == s[i]
    {
      assert t[..k][i] == s[..k][i];
    }
  }

  lemma AsciiIsAlike(x: string, y: string)
    requires x != "" && y != "" && x[0] == y[0] && x[0] < '\U{80}'
    ensures Alike(x, y)
  {
  }

  /** Scrubbing a text keeps how it starts. */
  lemma ScanIsAlike(cut: Scrubber, prev: Option<char>, x: string)
    ensures Alike(Scan(cut, prev, x, 0), x)
  {
    var z := Scan(cut, prev, x, 0);
    ScanKeepsFirst(cut, prev, x);
    if x != "" {
      if DelimiterAt(x) {
        var k := DelimiterWidth(x);
        assert x == x[..k] + x[k..];
        WalkSilent(cut, prev, x[..k], x[k..], 0);
        assert z[..k] == x[..k];
        DelimiterLocal(x, z);
      }
      if DelimiterAt(z) {
        EmittedWhileSilent(cut, prev, x, DelimiterWidth(z));
        DelimiterLocal(z, x);
      }
    }
  }

  lemma QuietIsSilent(u: string, a: nat)
    requires 0 < a && QuietUpTo(u, a)
    ensures Silent(Some(u[0]), u[1..a])
  {
    forall i | 0 <= i < a - 1
      ensures Blocked(Before(Some(u[0]), u[1..a], i), u[1..a][i])
    {
      assert Blocked(Some(u[i]), u[i + 1]);
      assert u[1..a][i] == u[i + 1] && Before(Some(u[0]), u[1..a], i) == Some(u[i]);
    }
  }

  /** A cut at a byte of the output that the scan passed over was a cut in the text. */
  lemma CutWasThere(cut: Scrubber, prev: Option<char>, s: string)
    requires WellShaped(cut) && ReadsLocally(cut) && s != ""
    requires cut.at(prev, [s[0]] + Scan(cut, Some(s[0]), s[1..], 0)).Some?
    ensures cut.at(prev, s).Some?
  {
    var u' := Scan(cut, Some(s[0]), s[1..], 0);
    var u := [s[0]] + u';
    var (a, n) := cut.at(prev, u).value;
    assert QuietUpTo(u, a);
    QuietIsSilent(u, a);
    assert u[1..a] == u'[..a - 1];
    EmittedWhileSilent(cut, Some(s[0]), s[1..], a - 1);
    var p := Last(Some(s[0]), s[1..][..a - 1]);
    ScanIsAlike(cut, p, s[a..]);
    SplitAfterFirst(s, u, u', a, Scan(cut, p, s[a..], 0));
    assert Resembles(u, s, a);
  }

  lemma SplitAfterFirst(s: string, u: string, u': string, a: nat, z: string)
    requires 0 < a <= |s| && u == [s[0]] + u' && u' == s[1..][..a - 1] + z
    ensures a <= |u| && u[..a] == s[..a] && u[a..] == z && s[1..][a - 1..] == s[a..]
  {
    assert s[..a] == [s[0]] + s[1..][..a - 1];
    assert u == s[..a] + z;
  }

  // ---- adjacent cuts ----

  /** Inside a cut being replaced, the next cut to be replaced starts exactly at its end. */
  predicate Adjacent(cut: Scrubber, prev: Option<char>, x: string, hold: nat)
    requires hold <= |x|
    decreases |x|
  {
    hold > 0 &&
    if cut.at(prev, x).Some? && cut.at(prev, x).value.0 >= hold then cut.at(prev, x).value.0 == hold
    else Adjacent(cut, Some(x[0]), x[1..], hold - 1)
  }

  /** Some replaced value, whose key stays in the text, ends exactly where the next replaced value starts. */
  predicate Clash(cut: Scrubber, prev: Option<char>, s: string, hold: nat)
    requires hold <= |s|
    decreases |s|
  {
    s != "" &&
    if cut.at(prev, s).Some? && cut.at(prev, s).value.0 >= hold then
      var (a, n) := cut.at(prev, s).value;
      (hold == 0 && Adjacent(cut, Some(s[a - 1]), s[a..], n)) || Clash(cut, Some(s[a - 1]), s[a..], n)
    else Clash(cut, Some(s[0]), s[1..], if hold == 0 then 0 else hold - 1)
  }

  /** How the text after a replaced value starts: as it did, unless another placeholder comes first. */
  lemma {:induction false} HeldStarts(cut: Scrubber, prev: Option<char>, x: string, hold: nat)
    requires WellShaped(cut) && cut.mark != "" && hold <= |x|
    ensures !Adjacent(cut, prev, x, hold) ==> Alike(Scan(cut, prev, x, hold), x[hold..])
    ensures Adjacent(cut, prev, x, hold) ==> StartsAsMark(cut, Scan(cut, prev, x, hold))
    decreases |x|
  {
    if hold == 0 {
      ScanIsAlike(cut, prev, x);
      assert x[0..] == x;
    } else if cut.at(prev, x).Some? && cut.at(prev, x).value.0 >= hold {
      var (a, n) := cut.at(prev, x).value;
      var z := Scan(cut, prev, x, hold);
      assert QuietUpTo(x, a);
      if a > hold {
        assert z[0] == x[hold] == x[hold..][0];
        AsciiIsAlike(z, x[hold..]);
      } else {
        assert x[hold..a] == "";
      }
    } else {
      HeldStarts(cut, Some(x[0]), x[1..], hold - 1);
      assert x[1..][hold - 1..] == x[hold..];
    }
  }

  // ---- the second pass ----

  /** The output of a second pass that has come to the placeholder, `drop` bytes of what follows held. */
  function AfterPlaceholder(cut: Scrubber, w: string, hold: nat): string
    requires hold <= |cut.mark| + |w|
  {
    if hold <= |cut.mark| then cut.mark[hold..] + Scan(cut, MarkEnd(cut), w, 0)
    else Scan(cut, MarkEnd(cut), w, hold - |cut.mark|)
  }

  lemma FromPlaceholder(cut: Scrubber, prev: Option<char>, x: string, w: string, hold: nat)
    requires SparesMark(cut) && Silent(prev, x) && hold <= |x| + |cut.mark| + |w|
    ensures Scan(cut, prev, x + (cut.mark + w), hold) ==
            if hold <= |x| then x[hold..] + (cut.mark + Scan(cut, MarkEnd(cut), w, 0))
            else AfterPlaceholder(cut, w, hold - |x|)
  {
    WalkSilent(cut, prev, x, cut.mark + w, hold);
    WalkPlaceholder(cut, Last(prev, x), w, if hold <= |x| then 0 else hold - |x|);
    assert cut.mark[0..] == cut.mark;
  }

  lemma RedactedParts(cut: Scrubber, s: string, a: nat, w: string)
    requires 0 < a <= |s|
    ensures var u := Redacted(cut, s, a, w);
            && |u| == a + |cut.mark| + |w| && u[0] == s[0] && u[a - 1] == s[a - 1]
            && u[a..] == cut.mark + w && u[1..] == s[1..a] + (cut.mark + w)
            && forall hold :: 0 <= hold <= a ==> u[hold..a] == s[hold..a]
  {
    var u := Redacted(cut, s, a, w);
    assert u[..a] == s[..a];
    forall hold | 0 <= hold <= a
      ensures u[hold..a] == s[hold..a]
    {
      assert u[hold..a] == u[..a][hold..] && s[hold..a] == s[..a][hold..];
    }
    assert u == u[..a] + u[a..] && u[..a][1..] == s[1..a];
  }

  /** The text starts with a key; the scan has come to it. */
  lemma ScanFromKey(cut: Scrubber, prev: Option<char>, u: string, hold: nat)
    requires u != "" && cut.at(prev, u).Some? && hold <= |u|
    ensures var (a, n) := cut.at(prev, u).value;
            Scan(cut, prev, u, hold) ==
            if hold <= a then u[hold..a] + cut.mark + Scan(cut, Some(u[a - 1]), u[a..], n)
            else Scan(cut, Some(u[0]), u[1..], hold - 1)
  {
  }

  /** A second pass over a value that was replaced and whose key is still there, the scan having reached the key. */
  lemma LiveAgain(cut: Scrubber, prev: Option<char>, s: string, a: nat, n: nat, w: string, hold: nat)
    requires SparesMark(cut) && 0 < a <= |s| && hold <= a
    requires ReplacedValue(cut, prev, s, a, n, w)
    ensures var u := Redacted(cut, s, a, w);
            && cut.at(prev, u).Some? && |cut.mark| <= cut.at(prev, u).value.1 <= |cut.mark| + |w|
            && Scan(cut, prev, u, hold) ==
               s[hold..a] + cut.mark + Scan(cut, MarkEnd(cut), w, cut.at(prev, u).value.1 - |cut.mark|)
  {
    var u := Redacted(cut, s, a, w);
    var m := cut.at(prev, u).value.1;
    RedactedParts(cut, s, a, w);
    ScanFromKey(cut, prev, u, hold);
    PlaceholderHeld(cut, Some(u[a - 1]), w, m);
  }

  lemma PlaceholderHeld(cut: Scrubber, prev: Option<char>, w: string, m: nat)
    requires SparesMark(cut) && |cut.mark| <= m <= |cut.mark| + |w|
    ensures Scan(cut, prev, cut.mark + w, m) == Scan(cut, MarkEnd(cut), w, m - |cut.mark|)
  {
    WalkPlaceholder(cut, prev, w, m);
    if m == |cut.mark| {
      assert cut.mark[m..] + Scan(cut, MarkEnd(cut), w, 0) == Scan(cut, MarkEnd(cut), w, 0);
    }
  }

  /** The same, with the whole key and trail held. */
  lemma LiveHeld(cut: Scrubber, prev: Option<char>, s: string, a: nat, n: nat, w: string, hold: nat)
    requires SparesMark(cut) && 0 < a <= |s| && QuietUpTo(s, a)
    requires ReplacedValue(cut, prev, s, a, n, w)
    requires a < hold <= a + |cut.mark| + |w|
    ensures Scan(cut, prev, Redacted(cut, s, a, w), hold) == AfterPlaceholder(cut, w, hold - a)
  {
    PastKey(cut, prev, s, a, n, w, hold);
    QuietIsSilent(s, a);
    TrailHeld(cut, Some(s[0]), s[1..a], w, hold - 1);
  }

  lemma PastKey(cut: Scrubber, prev: Option<char>, s: string, a: nat, n: nat, w: string, hold: nat)
    requires 0 < a <= |s| && ReplacedValue(cut, prev, s, a, n, w) && a < hold <= a + |cut.mark| + |w|
    ensures Scan(cut, prev, Redacted(cut, s, a, w), hold) == Scan(cut, Some(s[0]), s[1..a] + (cut.mark + w), hold - 1)
  {
    RedactedParts(cut, s, a, w);
    ScanFromKey(cut, prev, Redacted(cut, s, a, w), hold);
  }

  /** Held past what the scan passes over, it comes out within the placeholder. */
  lemma TrailHeld(cut: Scrubber, prev: Option<char>, x: string, w: string, hold: nat)
    requires SparesMark(cut) && Silent(prev, x) && |x| <= hold <= |x| + |cut.mark| + |w|
    ensures Scan(cut, prev, x + (cut.mark + w), hold) == AfterPlaceholder(cut, w, hold - |x|)
  {
    WalkSilent(cut, prev, x, cut.mark + w, hold);
    WalkPlaceholder(cut, Last(prev, x), w, hold - |x|);
  }

  lemma DeadIsSilent(prev: Option<char>, s: string, hold: nat, a: nat)
    requires QuietUpTo(s, a) && hold <= a && (hold < |s| ==> !WordByte(s[hold]))
    ensures Silent(prev, s[hold..a])
  {
    var x := s[hold..a];
    forall i | 0 <= i < |x|
      ensures Blocked(Before(prev, x, i), x[i])
    {
      assert x[i] == s[hold + i];
      if i > 0 {
        assert Blocked(Some(s[hold + i - 1]), s[hold + i]);
        assert x[i - 1] == s[hold + i - 1];
      }
    }
  }

  /** How the second pass stands to the first: at the same byte, with what it has just read making no difference. */
  predicate Follows(again: Option<char>, prev: Option<char>, s: string, hold: nat) {
    if hold == 0 then again == prev || s == "" || !Letter(s[0]) else hold < |s| ==> !WordByte(s[hold])
  }

  lemma FollowsStep(again: Option<char>, prev: Option<char>, s: string, hold: nat)
    requires s != "" && hold <= |s| && Follows(again, prev, s, hold)
    ensures Follows(if hold == 0 then Some(s[0]) else again, Some(s[0]), s[1..], if hold == 0 then 0 else hold - 1)
  {
    if hold > 0 && hold < |s| {
      assert s[1..][hold - 1] == s[hold];
    }
  }

  /** The second pass, with `held` bytes of the output held: never longer, and the same exactly without a clash. */
  ghost predicate Settles(cut: Scrubber, again: Option<char>, prev: Option<char>, s: string, hold: nat, held: nat)
    requires hold <= |s|
  {
    var u := Scan(cut, prev, s, hold);
    held <= |u| &&
    var v := Scan(cut, again, u, held);
    |v| <= |u| - held && (held == 0 ==> if Clash(cut, prev, s, hold) then |v| < |u| else v == u)
  }

  /**
   Scanning the output of a scan never lengthens it, and gives it back exactly
   when no replaced value with its key in the text ended where the next began.
   */
  lemma {:induction false} SecondPass(cut: Scrubber, again: Option<char>, prev: Option<char>, s: string, hold: nat, held: nat)
    requires Steady(cut) && hold <= |s| && Follows(again, prev, s, hold)
    requires held <= |Scan(cut, prev, s, hold)|
    ensures Settles(cut, again, prev, s, hold, held)
    decreases |s|, 1
  {
    if s != "" {
      if cut.at(prev, s).Some? && cut.at(prev, s).value.0 >= hold {
        SecondPassOfCut(cut, again, prev, s, hold, held);
      } else {
        var next := if hold == 0 then 0 else hold - 1;
        var u' := Scan(cut, Some(s[0]), s[1..], next);
        FollowsStep(again, prev, s, hold);
        if hold > 0 {
          SecondPass(cut, again, Some(s[0]), s[1..], next, held);
        } else {
          SecondPass(cut, Some(s[0]), Some(s[0]), s[1..], 0, if held == 0 then 0 else held - 1);
          PassedOverAgain(cut, again, prev, s, held);
        }
      }
    }
  }

  lemma PassedOverAgain(cut: Scrubber, again: Option<char>, prev: Option<char>, s: string, held: nat)
    requires WellShaped(cut) && ReadsLocally(cut) && s != "" && cut.at(prev, s) == None && Follows(again, prev, s, 0)
    requires held <= 1 + |Scan(cut, Some(s[0]), s[1..], 0)|
    ensures var u' := Scan(cut, Some(s[0]), s[1..], 0);
            Scan(cut, again, [s[0]] + u', held) ==
            if held == 0 then [s[0]] + Scan(cut, Some(s[0]), u', 0) else Scan(cut, Some(s[0]), u', held - 1)
  {
    var u' := Scan(cut, Some(s[0]), s[1..], 0);
    var u := [s[0]] + u';
    assert u[0] == s[0] && u[1..] == u';
    if cut.at(prev, u).Some? {
      CutWasThere(cut, prev, s);
    }
  }

  /** The second pass over a live value: the placeholder, and what is held of the text after it. */
  lemma LivePass(cut: Scrubber, prev: Option<char>, s: string, held: nat) returns (w: string, more: nat)
    requires Steady(cut) && s != "" && cut.at(prev, s).Some? && held <= |Scan(cut, prev, s, 0)|
    ensures var (a, n) := cut.at(prev, s).value;
            && w == Scan(cut, Some(s[a - 1]), s[a..], n) && more <= |w|
            && Scan(cut, prev, s, 0) == s[..a] + cut.mark + w
            && Scan(cut, prev, Scan(cut, prev, s, 0), held) ==
               (if held <= a then s[held..a] + cut.mark + Scan(cut, MarkEnd(cut), w, more)
                else AfterPlaceholder(cut, w, held - a))
            && (more > 0 <==> Adjacent(cut, Some(s[a - 1]), s[a..], n))
  {
    var (a, n) := cut.at(prev, s).value;
    w := Scan(cut, Some(s[a - 1]), s[a..], n);
    var u := Redacted(cut, s, a, w);
    assert s[0..a] == s[..a];
    assert ReplacedValue(cut, prev, s, a, n, w);
    more := cut.at(prev, u).value.1 - |cut.mark|;
    HeldStarts(cut, Some(s[a - 1]), s[a..], n);
    assert s[a..][n..] == s[a + n..];
    if held <= a {
      LiveAgain(cut, prev, s, a, n, w, held);
    } else {
      LiveHeld(cut, prev, s, a, n, w, held);
    }
  }

  /** The second pass over a value whose key was itself inside a replaced one: only its trail is still there. */
  lemma DeadPass(cut: Scrubber, again: Option<char>, prev: Option<char>, s: string, hold: nat, held: nat) returns (w: string)
    requires Steady(cut) && 0 < hold <= |s| && Follows(again, prev, s, hold)
    requires cut.at(prev, s).Some? && cut.at(prev, s).value.0 >= hold && held <= |Scan(cut, prev, s, hold)|
    ensures var (a, n) := cut.at(prev, s).value;
            && w == Scan(cut, Some(s[a - 1]), s[a..], n)
            && Scan(cut, prev, s, hold) == s[hold..a] + cut.mark + w
            && Scan(cut, again, Scan(cut, prev, s, hold), held) ==
               if held <= a - hold then s[hold..a][held..] + (cut.mark + Scan(cut, MarkEnd(cut), w, 0))
               else AfterPlaceholder(cut, w, held - (a - hold))
  {
    var (a, n) := cut.at(prev, s).value;
    w := Scan(cut, Some(s[a - 1]), s[a..], n);
    var x := s[hold..a];
    DeadIsSilent(again, s, hold, a);
    assert Scan(cut, prev, s, hold) == x + (cut.mark + w);
    FromPlaceholder(cut, again, x, w, held);
  }

  lemma {:induction false} SecondPassOfCut(cut: Scrubber, again: Option<char>, prev: Option<char>, s: string, hold: nat, held: nat)
    requires Steady(cut) && s != "" && hold <= |s| && Follows(again, prev, s, hold)
    requires cut.at(prev, s).Some? && cut.at(prev, s).value.0 >= hold
    requires held <= |Scan(cut, prev, s, hold)|
    ensures Settles(cut, again, prev, s, hold, held)
    decreases |s|, 0
  {
    var (a, n) := cut.at(prev, s).value;
    AfterCutFollows(cut, prev, s);
    if hold == 0 {
      var w, more := LivePass(cut, prev, s, held);
      SecondPass(cut, MarkEnd(cut), Some(s[a - 1]), s[a..], n, StillHeld(cut, held, a, more));
      LiveSettles(cut, prev, s, held, w, more);
    } else {
      var w := DeadPass(cut, again, prev, s, hold, held);
      SecondPass(cut, MarkEnd(cut), Some(s[a - 1]), s[a..], n, StillHeld(cut, held, a - hold, 0));
      DeadSettles(cut, again, prev, s, hold, held, w);
    }
  }

  lemma LiveSettles(cut: Scrubber, prev: Option<char>, s: string, held: nat, w: string, more: nat)
    requires s != "" && cut.at(prev, s).Some? && held <= |Scan(cut, prev, s, 0)|
    requires var (a, n) := cut.at(prev, s).value;
             && w == Scan(cut, Some(s[a - 1]), s[a..], n) && more <= |w|
             && Scan(cut, prev, s, 0) == s[..a] + cut.mark + w
             && Scan(cut, prev, Scan(cut, prev, s, 0), held) ==
                (if held <= a then s[held..a] + cut.mark + Scan(cut, MarkEnd(cut), w, more)
                 else AfterPlaceholder(cut, w, held - a))
             && (more > 0 <==> Adjacent(cut, Some(s[a - 1]), s[a..], n))
             && Settles(cut, MarkEnd(cut), Some(s[a - 1]), s[a..], n, StillHeld(cut, held, a, more))
    ensures Settles(cut, prev, prev, s, 0, held)
  {
    var (a, n) := cut.at(prev, s).value;
    assert s[0..a] == s[..a];
  }

  lemma ClashOfDead(cut: Scrubber, prev: Option<char>, s: string, hold: nat)
    requires 0 < hold <= |s| && cut.at(prev, s).Some? && cut.at(prev, s).value.0 >= hold
    ensures var (a, n) := cut.at(prev, s).value;
            Clash(cut, prev, s, hold) == Clash(cut, Some(s[a - 1]), s[a..], n)
  {
  }

  lemma DeadSettles(cut: Scrubber, again: Option<char>, prev: Option<char>, s: string, hold: nat, held: nat, w: string)
    requires 0 < hold <= |s| && cut.at(prev, s).Some? && cut.at(prev, s).value.0 >= hold && held <= |Scan(cut, prev, s, hold)|
    requires var (a, n) := cut.at(prev, s).value;
             && w == Scan(cut, Some(s[a - 1]), s[a..], n)
             && Scan(cut, prev, s, hold) == s[hold..a] + cut.mark + w
             && Scan(cut, again, Scan(cut, prev, s, hold), held) ==
                (if held <= a - hold then s[hold..a][held..] + (cut.mark + Scan(cut, MarkEnd(cut), w, 0))
                 else AfterPlaceholder(cut, w, held - (a - hold)))
             && Settles(cut, MarkEnd(cut), Some(s[a - 1]), s[a..], n, StillHeld(cut, held, a - hold, 0))
    ensures Settles(cut, again, prev, s, hold, held)
  {
    var (a, n) := cut.at(prev, s).value;
    ClashOfDead(cut, prev, s, hold);
    var gap := s[hold..a];
    assert gap[0..] == gap;
    SettledParts(cut, gap, w, held);
  }

  lemma SettledParts(cut: Scrubber, gap: string, w: string, held: nat)
    requires held <= |gap| + |cut.mark| + |w|
    ensures held <= |gap| ==> gap[held..] + (cut.mark + Scan(cut, MarkEnd(cut), w, 0)) == (gap[held..] + cut.mark) + Scan(cut, MarkEnd(cut), w, 0)
    ensures held > |gap| ==>
      |AfterPlaceholder(cut, w, held - |gap|)| ==
      |Scan(cut, MarkEnd(cut), w, StillHeld(cut, held, |gap|, 0))|
      + if held - |gap| <= |cut.mark| then |cut.mark| - (held - |gap|) else 0
  {
  }

  /** What is still held past a placeholder that comes after `gap` bytes. */
  function StillHeld(cut: Scrubber, held: nat, gap: nat, more: nat): nat {
    if held <= gap then more else if held - gap <= |cut.mark| then 0 else held - gap - |cut.mark|
  }

  lemma AfterCutFollows(cut: Scrubber, prev: Option<char>, s: string)
    requires Steady(cut) && cut.at(prev, s).Some?
    ensures var (a, n) := cut.at(prev, s).value; Follows(MarkEnd(cut), Some(s[a - 1]), s[a..], n)
  {
    var (a, n) := cut.at(prev, s).value;
    assert a + n < |s| ==> s[a..][n] == s[a + n];
  }
}
