/**
 The shape of UTF-8 text (section 3 of RFC 3629), byte by byte: which indexes a
 text may be cut at.
 */
module Utf8 {
  predicate Continuation(c: char) { '\U{80}' <= c <= '\U{BF}' }

  /** The length of the character that a lead byte starts; zero for any other byte. */
  function LeadLength(c: char): nat {
    if c < '\U{80}' then 1
    else if '\U{C2}' <= c <= '\U{DF}' then 2
    else if '\U{E0}' <= c <= '\U{EF}' then 3
    else if '\U{F0}' <= c <= '\U{F4}' then 4
    else 0
  }

  /** The text is a whole number of characters from a byte on. */
  predicate WholeFrom(s: string, i: nat)
    requires i <= |s|
    decreases |s| - i
  {
    i == |s| ||
    var n := LeadLength(s[i]);
    n > 0 && i + n <= |s| && (forall j :: i < j < i + n ==> Continuation(s[j])) && WholeFrom(s, i + n)
  }

  predicate Whole(s: string) { WholeFrom(s, 0) }

  /** Where the text can be cut: no character goes across. */
  predicate Boundary(s: string, i: nat) { i <= |s| && (i < |s| ==> !Continuation(s[i])) }

  /** From a character on, every boundary starts a character. */
  lemma {:induction false} WholeAtBoundary(s: string, i: nat, b: nat)
    requires i <= b <= |s| && WholeFrom(s, i) && Boundary(s, b)
    ensures WholeFrom(s, b)
    decreases |s| - i
  {
    if i < b {
      WholeAtBoundary(s, i + LeadLength(s[i]), b);
    }
  }

  /** ASCII text is whole. */
  lemma {:induction false} AsciiIsWhole(s: string, i: nat)
    requires i <= |s| && forall j :: 0 <= j < |s| ==> LeadLength(s[j]) == 1
    ensures WholeFrom(s, i)
    decreases |s| - i
  {
    if i < |s| {
      AsciiIsWhole(s, i + 1);
    }
  }

  /** An ASCII byte is a character of its own. */
  lemma {:induction false} AfterAscii(s: string, i: nat, k: nat)
    requires i <= k < |s| && WholeFrom(s, i) && s[k] < '\U{80}'
    ensures Boundary(s, k + 1)
    decreases |s| - i
  {
    var n := LeadLength(s[i]);
    if i < k {
      AfterAscii(s, i + n, k);
    } else {
      assert WholeFrom(s, i + 1);
    }
  }

  /** What starts and ends on a boundary is whole, wherever it is put. */
  lemma {:induction false} WholeMoved(s: string, i: nat, e: nat, t: string, at: nat)
    requires i <= e <= |s| && WholeFrom(s, i) && Boundary(s, e)
    requires at + (e - i) <= |t| && t[at..at + (e - i)] == s[i..e] && WholeFrom(t, at + (e - i))
    ensures WholeFrom(t, at)
    decreases |s| - i
  {
    if i < e {
      var n := LeadLength(s[i]);
      forall j | at <= j < at + (e - i)
        ensures t[j] == s[i + (j - at)]
      {
        assert t[at..at + (e - i)][j - at] == s[i..e][j - at];
      }
      assert i + n <= e;
      assert t[at + n..at + (e - i)] == s[i + n..e];
      WholeMoved(s, i + n, e, t, at + n);
    }
  }

  /** A piece between two boundaries of a whole text, before whole text, is whole text. */
  lemma WholeSlice(s: string, i: nat, e: nat, rest: string)
    requires i <= e <= |s| && Whole(s) && Boundary(s, i) && Boundary(s, e) && Whole(rest)
    ensures Whole(s[i..e] + rest)
  {
    var t := s[i..e] + rest;
    WholeAtBoundary(s, 0, i);
    WholeMoved(rest, 0, |rest|, t, e - i);
    WholeMoved(s, i, e, t, 0);
  }

  /** A whole text cut at a boundary is two whole texts. */
  lemma WholeSplits(s: string, i: nat)
    requires Whole(s) && Boundary(s, i)
    ensures Whole(s[..i]) && Whole(s[i..])
  {
    WholeSlice(s, 0, i, "");
    assert s[0..i] + "" == s[..i];
    WholeSlice(s, i, |s|, "");
    assert s[i..|s|] + "" == s[i..];
  }

  lemma WholeJoins(a: string, b: string)
    requires Whole(a) && Whole(b)
    ensures Whole(a + b)
  {
    WholeSlice(a, 0, |a|, b);
    assert a[0..|a|] == a;
  }
}
