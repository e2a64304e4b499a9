/**
 The scrubber of `user:password@` in the URLs of a text, byte by byte: the text
 is read as URL after URL, each up to the end of its authority. A byte is the
 character of the same code.
 */
module ScrubUserinfo {
  import opened Outcomes
  import opened ScrubText
  import opened Utf8

  const SCHEME_END: string := "://"

  // ---- library searches ----

  /** Where the text first has a part. */
  function Find(s: string, part: string): (i: Option<nat>)
    ensures i.Some? ==> i.value + |part| <= |s|
  {
    if part <= s then Some(0)
    else if s == "" then None
    else match Find(s[1..], part) case Some(i) => Some(i + 1) case None => None
  }

  /** What ends the authority of a URL. */
  predicate AuthorityEndAt(s: string) { s != "" && (s[0] == '/' || s[0] == '?' || s[0] == '#' || SpaceAt(s)) }

  /** The length of what the rule does not end. */
  function LengthTo(ends: string -> bool, s: string): (n: nat)
    ensures n <= |s|
  {
    if s == "" || ends(s) then 0 else 1 + LengthTo(ends, s[1..])
  }

  /** Where the last byte of its kind is. */
  function FindLast(s: string, c: char): (i: Option<nat>)
    ensures i.Some? ==> i.value < |s| && s[i.value] == c
  {
    if s == "" then None
    else if s[|s| - 1] == c then Some(|s| - 1)
    else FindLast(s[..|s| - 1], c)
  }

  // ---- a text as its URLs ----

  /** Text up to and with `://`, the authority after it, and what follows; or text without a URL. */
  datatype Urls = Text(text: string) | Url(head: string, authority: string, more: Urls)

  function Unread(u: Urls): string {
    match u
    case Text(text) => text
    case Url(head, authority, more) => head + (authority + Unread(more))
  }

  function Read(ends: string -> bool, text: string): Urls
    decreases |text|
  {
    match Find(text, SCHEME_END)
    case None => Text(text)
    case Some(i) =>
      var tail := text[i + 3..];
      var n := LengthTo(ends, tail);
      Url(text[..i + 3], tail[..n], Read(ends, tail[n..]))
  }

  /** No byte of an authority ends it, with what follows it. */
  ghost predicate EndsNowhere(ends: string -> bool, authority: string, after: string) {
    forall j :: 0 <= j < |authority| ==> !ends(authority[j..] + after)
  }

  /** The head ends with the only `://`, and the authority runs to the first byte that ends it. */
  ghost predicate WellRead(ends: string -> bool, u: Urls) {
    match u
    case Text(text) => Find(text, SCHEME_END) == None
    case Url(head, authority, more) =>
      && |head| >= 3 && Find(head, SCHEME_END) == Some(|head| - 3)
      && EndsNowhere(ends, authority, Unread(more)) && (Unread(more) == "" || ends(Unread(more)))
      && WellRead(ends, more)
  }

  /** An authority without the user and the password, which end at its last `@`. */
  function Clean(authority: string): string {
    match FindLast(authority, '@')
    case Some(at) => PLACEHOLDER + authority[at..]
    case None => authority
  }

  function Cleaned(clean: string -> string, u: Urls): Urls {
    match u
    case Text(_) => u
    case Url(head, authority, more) => Url(head, clean(authority), Cleaned(clean, more))
  }

  function Ends(): string -> bool { (s: string) => AuthorityEndAt(s) }

  function Cleaner(): string -> string { (s: string) => Clean(s) }

  function Scrubbed(text: string): string { Unread(Cleaned(Cleaner(), Read(Ends(), text))) }

  // ---- the loop ----

  lemma AuthorityCut(authority: string, at: nat)
    requires at < |authority| && authority[at] == '@'
    ensures PLACEHOLDER + authority[at..] == "<redacted>@" + authority[at + 1..]
  {
    assert authority[at..] == ['@'] + authority[at + 1..];
    assert PLACEHOLDER + ['@'] == "<redacted>@";
  }

  /** One authority, pushed onto the output. */
  method PushAuthority(out: string, authority: string) returns (longer: string)
    ensures longer == out + Clean(authority)
  {
    match FindLast(authority, '@') {
      case Some(at) =>
        AuthorityCut(authority, at);
        longer := out + "<redacted>@";
        longer := longer + authority[at + 1..];
        assert longer == out + ("<redacted>@" + authority[at + 1..]);
      case None =>
        longer := out + authority;
    }
  }

  lemma Joined(out: string, a: string, b: string, c: string)
    ensures out + (a + (b + c)) == ((out + a) + b) + c
  {
  }

  lemma Round(out: string, rest: string, i: nat, n: nat)
    requires Find(rest, SCHEME_END) == Some(i) && n == LengthTo(Ends(), rest[i + 3..])
    ensures var tail := rest[i + 3..];
            out + Scrubbed(rest) == ((out + rest[..i + 3]) + Clean(tail[..n])) + Scrubbed(tail[n..])
  {
    var tail := rest[i + 3..];
    Joined(out, rest[..i + 3], Clean(tail[..n]), Scrubbed(tail[n..]));
  }

  method ScrubUserinfo(text: string) returns (out: string)
    ensures out == Scrubbed(text)
  {
    out := "";
    var rest := text;
    var found := Find(rest, SCHEME_END);
    while found.Some?
      invariant found == Find(rest, SCHEME_END)
      invariant out + Scrubbed(rest) == Scrubbed(text)
      decreases |rest|
    {
      var i := found.value;
      var head, tail := rest[..i + 3], rest[i + 3..];
      var end := LengthTo(Ends(), tail);
      var authority, after := tail[..end], tail[end..];
      Round(out, rest, i, end);
      out := out + head;
      out := PushAuthority(out, authority);
      rest := after;
      found := Find(rest, SCHEME_END);
    }
    out := out + rest;
  }

  // ---- reading is exact ----

  /** The part is there. */
  predicate Has(s: string, part: string, i: nat) { i + |part| <= |s| && s[i..i + |part|] == part }

  lemma HasLater(s: string, part: string, i: nat)
    requires s != "" && i > 0
    ensures Has(s, part, i) <==> Has(s[1..], part, i - 1)
  {
    if i + |part| <= |s| {
      assert s[1..][i - 1..i - 1 + |part|] == s[i..i + |part|];
    }
  }

  /** The part is found where it is first. */
  lemma {:induction false} FindsFirst(s: string, part: string, i: nat)
    ensures Find(s, part) == Some(i) <==> Has(s, part, i) && forall j :: 0 <= j < i ==> !Has(s, part, j)
  {
    assert part <= s <==> Has(s, part, 0);
    if !(part <= s) && s != "" && i > 0 {
      FindsFirst(s[1..], part, i - 1);
      forall j | 0 < j <= i
        ensures Has(s, part, j) <==> Has(s[1..], part, j - 1)
      {
        HasLater(s, part, j);
      }
      assert forall j :: 0 <= j < i - 1 ==> (Has(s[1..], part, j) <==> Has(s, part, j + 1));
    }
  }

  lemma FindIsThere(s: string, part: string)
    requires Find(s, part).Some?
    ensures var i := Find(s, part).value; s[i..i + |part|] == part
  {
    FindsFirst(s, part, Find(s, part).value);
  }

  lemma StartsSame(s: string, z: string, i: nat)
    requires i + 3 <= |s|
    ensures SCHEME_END <= s[..i + 3] + z <==> SCHEME_END <= s
  {
    assert (s[..i + 3] + z)[..3] == s[..3];
  }

  /** The first occurrence depends on nothing after it. */
  lemma {:induction false} FindLocal(s: string, z: string, i: nat)
    requires Find(s, SCHEME_END) == Some(i)
    ensures Find(s[..i + 3] + z, SCHEME_END) == Some(i)
    decreases i
  {
    var t := s[..i + 3] + z;
    StartsSame(s, z, i);
    if i > 0 {
      assert s[1..][..i + 2] + z == t[1..];
      FindLocal(s[1..], z, i - 1);
    }
  }

  lemma {:induction false} LengthIsTo(ends: string -> bool, s: string)
    ensures var n := LengthTo(ends, s);
            EndsNowhere(ends, s[..n], s[n..]) && (s[n..] == "" || ends(s[n..]))
  {
    var n := LengthTo(ends, s);
    if s == "" || ends(s) {
      assert s[0..] == s;
    } else {
      LengthIsTo(ends, s[1..]);
      assert s[n..] == s[1..][n - 1..];
      forall j | 0 <= j < n
        ensures !ends(s[..n][j..] + s[n..])
      {
        assert s[..n][j..] + s[n..] == s[j..];
        if j > 0 {
          assert s[1..][..n - 1][j - 1..] + s[1..][n - 1..] == s[j..];
        } else {
          assert s[0..] == s;
        }
      }
    }
  }

  lemma {:induction false} LengthIs(ends: string -> bool, c: string, z: string)
    requires EndsNowhere(ends, c, z) && (z == "" || ends(z))
    ensures LengthTo(ends, c + z) == |c|
    decreases |c|
  {
    if c == "" {
      assert c + z == z;
    } else {
      assert c[0..] == c;
      assert (c + z)[1..] == c[1..] + z;
      forall j | 0 <= j < |c[1..]|
        ensures !ends(c[1..][j..] + z)
      {
        assert c[1..][j..] == c[j + 1..];
      }
      LengthIs(ends, c[1..], z);
    }
  }

  lemma SplitTwice(text: string, i: nat, n: nat)
    requires i <= |text| && n <= |text[i..]|
    ensures text[..i] + (text[i..][..n] + text[i..][n..]) == text
  {
  }

  lemma HeadIsFound(text: string, i: nat)
    requires Find(text, SCHEME_END) == Some(i)
    ensures Find(text[..i + 3], SCHEME_END) == Some(i)
  {
    FindLocal(text, "", i);
    assert text[..i + 3] + "" == text[..i + 3];
  }

  /** A text is its URLs in order, each read to the end of its authority. */
  lemma {:induction false} ReadingIsExact(ends: string -> bool, text: string)
    ensures Unread(Read(ends, text)) == text && WellRead(ends, Read(ends, text))
    decreases |text|
  {
    var found := Find(text, SCHEME_END);
    if found.Some? {
      var tail := text[found.value + 3..];
      var n := LengthTo(ends, tail);
      ReadingIsExact(ends, tail[n..]);
      LengthIsTo(ends, tail);
      HeadIsFound(text, found.value);
      SplitTwice(text, found.value + 3, n);
    }
  }

  /** There is one way to read a text. */
  lemma {:induction false} ReadingIsUnique(ends: string -> bool, u: Urls)
    requires WellRead(ends, u)
    ensures Read(ends, Unread(u)) == u
  {
    if u.Url? {
      var z := u.authority + Unread(u.more);
      var i := |u.head| - 3;
      ReadingIsUnique(ends, u.more);
      FindLocal(u.head, z, i);
      assert u.head[..i + 3] == u.head;
      var t := u.head + z;
      assert t[i + 3..] == z && t[..i + 3] == u.head;
      LengthIs(ends, u.authority, Unread(u.more));
      assert z[..|u.authority|] == u.authority && z[|u.authority|..] == Unread(u.more);
    }
  }

  // ---- what is cleaned ----

  lemma {:induction false} FindsLast(s: string, c: char)
    ensures match FindLast(s, c)
            case Some(at) => s[at] == c && forall j :: at < j < |s| ==> s[j] != c
            case None => forall j :: 0 <= j < |s| ==> s[j] != c
    decreases |s|
  {
    if s != "" && s[|s| - 1] != c {
      FindsLast(s[..|s| - 1], c);
    }
  }

  /** Everything up to the last `@` is replaced, and an authority without one is kept. */
  lemma CleanIs(authority: string, at: nat)
    requires at < |authority| ==> authority[at] == '@'
    requires forall j :: at < j < |authority| ==> authority[j] != '@'
    ensures at < |authority| ==> Clean(authority) == PLACEHOLDER + authority[at..]
    ensures '@' !in authority ==> Clean(authority) == authority
  {
    FindsLast(authority, '@');
  }

  lemma CleanTwice(authority: string)
    ensures Clean(Clean(authority)) == Clean(authority)
  {
    FindsLast(authority, '@');
    var at := FindLast(authority, '@');
    if at.Some? {
      var y := authority[at.value..];
      var c := PLACEHOLDER + y;
      assert forall j :: |PLACEHOLDER| < j < |c| ==> c[j] == authority[at.value + j - |PLACEHOLDER|];
      CleanIs(c, |PLACEHOLDER|);
      assert c[|PLACEHOLDER|..] == y;
    }
  }

  // ---- scrubbing twice ----

  /** What comes after an authority still ends it. */
  ghost predicate StillEnds(ends: string -> bool, rest: string, z: string) {
    if rest == "" then z == "" else ends(rest) && ends(z)
  }

  /** Cleaning puts nothing into an authority that would end it. */
  ghost predicate CleansWithin(ends: string -> bool, clean: string -> string) {
    forall authority, rest, z ::
      EndsNowhere(ends, authority, rest) && StillEnds(ends, rest, z) ==> EndsNowhere(ends, clean(authority), z)
  }

  /** What ends an authority is not part of the next `://`. */
  ghost predicate EndsBeforeHead(ends: string -> bool) {
    forall head, x, y :: |head| >= 3 && Find(head, SCHEME_END) == Some(|head| - 3) && ends(head + x) ==> ends(head + y)
  }

  lemma {:induction false} CleanedIsRead(ends: string -> bool, clean: string -> string, u: Urls)
    requires CleansWithin(ends, clean) && EndsBeforeHead(ends) && WellRead(ends, u)
    ensures WellRead(ends, Cleaned(clean, u))
    ensures Unread(u) == "" || ends(Unread(u)) ==> StillEnds(ends, Unread(u), Unread(Cleaned(clean, u)))
  {
    if u.Url? {
      CleanedIsRead(ends, clean, u.more);
      var z := Unread(Cleaned(clean, u.more));
      assert EndsNowhere(ends, clean(u.authority), z);
      assert ends(u.head + (u.authority + Unread(u.more))) ==> ends(u.head + (clean(u.authority) + z));
    }
  }

  lemma {:induction false} CleanedTwice(clean: string -> string, u: Urls)
    requires forall a :: clean(clean(a)) == clean(a)
    ensures Cleaned(clean, Cleaned(clean, u)) == Cleaned(clean, u)
  {
    if u.Url? {
      CleanedTwice(clean, u.more);
    }
  }

  /** A byte that ends no authority ends none when what follows the authority changes. */
  lemma EndIsLocal(x: string, rest: string, z: string)
    requires x != "" && StillEnds(Ends(), rest, z) && !AuthorityEndAt(x + rest)
    ensures !AuthorityEndAt(x + z)
  {
  }

  lemma PlaceholderEndsNothing(j: nat)
    requires j < |PLACEHOLDER|
    ensures ' ' < PLACEHOLDER[j] < '\U{80}' && PLACEHOLDER[j] != '/' && PLACEHOLDER[j] != '?' && PLACEHOLDER[j] != '#'
  {
  }

  lemma CleanEndsNowhere(authority: string, rest: string, z: string)
    requires EndsNowhere(Ends(), authority, rest) && StillEnds(Ends(), rest, z)
    ensures EndsNowhere(Ends(), authority, z) && EndsNowhere(Ends(), Clean(authority), z)
  {
    forall j | 0 <= j < |authority|
      ensures !AuthorityEndAt(authority[j..] + z)
    {
      EndIsLocal(authority[j..], rest, z);
    }
    var at := FindLast(authority, '@');
    if at.Some? {
      var c := PLACEHOLDER + authority[at.value..];
      forall j | 0 <= j < |c|
        ensures !AuthorityEndAt(c[j..] + z)
      {
        if j < |PLACEHOLDER| {
          PlaceholderEndsNothing(j);
          assert (c[j..] + z)[0] == PLACEHOLDER[j];
        } else {
          assert c[j..] == authority[at.value + j - |PLACEHOLDER|..];
        }
      }
    }
  }

  lemma HeadEnds(head: string, x: string, y: string)
    requires |head| >= 3 && Find(head, SCHEME_END) == Some(|head| - 3) && AuthorityEndAt(head + x)
    ensures AuthorityEndAt(head + y)
  {
    FindIsThere(head, SCHEME_END);
    assert head[|head| - 3] == head[|head| - 3..][0] == ':';
    var s := head + x;
    assert s[|head| - 3] == ':';
    assert forall i :: 0 <= i < EndWidth(s) ==> s[i] == head[i] == (head + y)[i];
  }

  /** How many bytes end the authority, none of them a colon. */
  function EndWidth(s: string): (k: nat)
    requires AuthorityEndAt(s)
    ensures 1 <= k <= 3 && k <= |s| && forall i :: 0 <= i < k ==> s[i] != ':'
  {
    if s[0] < '\U{80}' then 1 else if s[0] == '\U{C2}' then 2 else 3
  }

  /** A second pass changes nothing. */
  lemma ScrubbingTwice(text: string)
    ensures Scrubbed(Scrubbed(text)) == Scrubbed(text)
  {
    var u := Read(Ends(), text);
    ReadingIsExact(Ends(), text);
    CleansWhatEnds();
    CleanedIsRead(Ends(), Cleaner(), u);
    ReadingIsUnique(Ends(), Cleaned(Cleaner(), u));
    CleanedTwice(Cleaner(), u);
  }

  lemma CleansWhatEnds()
    ensures CleansWithin(Ends(), Cleaner()) && EndsBeforeHead(Ends())
    ensures forall a :: Cleaner()(Cleaner()(a)) == Cleaner()(a)
  {
    forall authority, rest, z | EndsNowhere(Ends(), authority, rest) && StillEnds(Ends(), rest, z)
      ensures EndsNowhere(Ends(), Cleaner()(authority), z)
    {
      CleanEndsNowhere(authority, rest, z);
    }
    forall head, x, y | |head| >= 3 && Find(head, SCHEME_END) == Some(|head| - 3) && Ends()(head + x)
      ensures Ends()(head + y)
    {
      HeadEnds(head, x, y);
    }
    forall a
      ensures Cleaner()(Cleaner()(a)) == Cleaner()(a)
    {
      CleanTwice(a);
    }
  }

  // ---- UTF-8 ----

  /** Every piece is whole, and so are both sides of the `@` an authority is cut at. */
  ghost predicate WholeUrls(u: Urls) {
    match u
    case Text(text) => Whole(text)
    case Url(head, authority, more) =>
      && Whole(head) && Whole(authority)
      && (forall at :: FindLast(authority, '@') == Some(at) ==> Boundary(authority, at) && Boundary(authority, at + 1))
      && WholeUrls(more)
  }

  lemma AroundAscii(s: string, at: nat)
    requires Whole(s) && at < |s| && s[at] < '\U{80}'
    ensures Boundary(s, at) && Boundary(s, at + 1)
  {
    AfterAscii(s, 0, at);
  }

  lemma HeadIsWhole(text: string, i: nat)
    requires Whole(text) && Find(text, SCHEME_END) == Some(i)
    ensures Whole(text[..i + 3]) && Whole(text[i + 3..])
  {
    FindIsThere(text, SCHEME_END);
    assert text[i..i + 3][2] == '/' == text[i + 2];
    AroundAscii(text, i + 2);
    WholeSplits(text, i + 3);
  }

  lemma AuthorityIsWhole(tail: string)
    requires Whole(tail)
    ensures var n := LengthTo(Ends(), tail); Whole(tail[..n]) && Whole(tail[n..])
  {
    var n := LengthTo(Ends(), tail);
    LengthIsTo(Ends(), tail);
    assert n < |tail| ==> AuthorityEndAt(tail[n..]) && tail[n..][0] == tail[n];
    WholeSplits(tail, n);
  }

  /** UTF-8 text is split only between characters: past `://`, where an authority ends, and about an `@`. */
  lemma {:induction false} ReadingIsWhole(text: string)
    requires Whole(text)
    ensures WholeUrls(Read(Ends(), text))
    decreases |text|
  {
    var found := Find(text, SCHEME_END);
    if found.Some? {
      var tail := text[found.value + 3..];
      var n := LengthTo(Ends(), tail);
      HeadIsWhole(text, found.value);
      AuthorityIsWhole(tail);
      ReadingIsWhole(tail[n..]);
      var at := FindLast(tail[..n], '@');
      if at.Some? {
        AroundAscii(tail[..n], at.value);
      }
    }
  }

  lemma CleanIsWhole(authority: string)
    requires Whole(authority)
    ensures Whole(Clean(authority))
  {
    var at := FindLast(authority, '@');
    if at.Some? {
      AroundAscii(authority, at.value);
      WholeSplits(authority, at.value);
      assert forall j :: 0 <= j < |PLACEHOLDER| ==> LeadLength(PLACEHOLDER[j]) == 1;
      AsciiIsWhole(PLACEHOLDER, 0);
      WholeJoins(PLACEHOLDER, authority[at.value..]);
    }
  }

  lemma {:induction false} CleanedIsWhole(u: Urls)
    requires WholeUrls(u)
    ensures Whole(Unread(Cleaned(Cleaner(), u)))
  {
    if u.Url? {
      CleanedIsWhole(u.more);
      CleanIsWhole(u.authority);
      var rest := Unread(Cleaned(Cleaner(), u.more));
      WholeJoins(Clean(u.authority), rest);
      WholeJoins(u.head, Clean(u.authority) + rest);
    }
  }

  /** No split of UTF-8 text is inside a character, and scrubbed text is UTF-8. */
  lemma ScrubbedIsUtf8(text: string)
    requires Whole(text)
    ensures WholeUrls(Read(Ends(), text)) && Whole(Scrubbed(text))
  {
    ReadingIsWhole(text);
    CleanedIsWhole(Read(Ends(), text));
  }
}
