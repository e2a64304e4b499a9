/**
 What is a secret, by the codes of the bytes and nothing else: a key in either
 case, what may stand between it and its value, and where the value ends.
 */
module ScrubExactly {
  import opened Outcomes
  import opened ScrubText
  import DecimalText
  import ScrubUserinfo

  // ---- bytes ----

  predicate Wordy(c: char) {
    var b := c as int;
    48 <= b <= 57 || 65 <= b <= 90 || 97 <= b <= 122 || b == 95 || b == 45
  }

  predicate Spacing(c: char) { c as int in [9, 10, 12, 13, 32] }

  predicate Quoting(c: char) { c as int == 34 || c as int == 39 }

  /** The bytes of a character in UTF-8 (section 3 of RFC 3629). */
  function Encoded(c: char): string {
    var p := c as int;
    if p < 0x80 then [p as char]
    else if p < 0x800 then [(0xC0 + p / 64) as char, (0x80 + p % 64) as char]
    else if p < 0x1_0000 then [(0xE0 + p / 4096) as char, (0x80 + p / 64 % 64) as char, (0x80 + p % 64) as char]
    else [(0xF0 + p / 262144) as char, (0x80 + p / 4096 % 64) as char, (0x80 + p / 64 % 64) as char, (0x80 + p % 64) as char]
  }

  /** The text starts with the character, which Unicode calls White_Space. */
  predicate SpaceStarts(c: char, s: string) { DecimalText.IsSpace(c) && Encoded(c) <= s }

  ghost predicate StartsWithSpace(s: string) { exists c: char :: SpaceStarts(c, s) }

  /** One of `&"'),;}` or a character that Unicode calls White_Space. */
  ghost predicate Ending(s: string) { s != "" && (s[0] as int in [38, 34, 39, 41, 44, 59, 125] || StartsWithSpace(s)) }

  lemma BytesAre(c: char)
    ensures WordByte(c) <==> Wordy(c)
    ensures AsciiSpace(c) <==> Spacing(c)
    ensures QuoteMark(c) <==> Quoting(c)
  {
  }

  lemma SpacesEncoded(c: char, s: string)
    requires SpaceStarts(c, s)
    ensures SpaceAt(s)
  {
    var e := Encoded(c);
    assert forall i :: 0 <= i < |e| ==> s[i] == e[i];
    if c as int >= 0x800 {
      assert c as int / 4096 <= 3 && s[2] == (0x80 + c as int % 64) as char;
    }
  }

  /** A space of one, two or three bytes. */
  function SpaceOf(s: string): char
    requires SpaceAt(s)
  {
    if s[0] < '\U{80}' then s[0]
    else if s[0] == '\U{C2}' then s[1]
    else if s[0] == '\U{E1}' then '\U{1680}'
    else if s[0] == '\U{E3}' then '\U{3000}'
    else if s[1] == '\U{81}' then '\U{205F}'
    else (0x2000 + (s[2] as int - 0x80)) as char
  }

  lemma SpaceIsEncoded(s: string)
    requires SpaceAt(s)
    ensures SpaceStarts(SpaceOf(s), s)
  {
  }

  /** What the scrubbers take for spaces are the spaces of Unicode, in UTF-8. */
  lemma SpacesExactly(s: string)
    ensures SpaceAt(s) <==> StartsWithSpace(s)
  {
    if SpaceAt(s) {
      SpaceIsEncoded(s);
    }
    if StartsWithSpace(s) {
      var c: char :| SpaceStarts(c, s);
      SpacesEncoded(c, s);
    }
  }

  lemma EndingExactly(s: string)
    ensures DelimiterAt(s) <==> Ending(s)
  {
    SpacesExactly(s);
  }

  // ---- keys ----

  /** The byte of the key, or if that is a letter the one 32 codes below. */
  predicate Cased(c: char, k: char) { c == k || (97 <= k as int <= 122 && c as int == k as int - 32) }

  predicate SpelledAs(x: string, key: string) { |x| == |key| && forall i :: 0 <= i < |x| ==> Cased(x[i], key[i]) }

  lemma SecretNames()
    ensures Secrets() == [
      "x-amz-signature", "x-amz-credential", "x-amz-security-token", "client_secret", "client_id",
      "access_token", "refresh_token", "id_token", "assertion", "password", "signature"]
  {
  }

  /** A text starts with a key exactly if each byte there is the key's, in either case. */
  lemma MatchesExactly(keys: Keys, s: string, k: nat)
    requires k < |keys|
    ensures Matches(s, keys[k]) <==> |keys[k]| <= |s| && SpelledAs(s[..|keys[k]|], keys[k])
  {
    var key := keys[k];
    assert KeyShape(key);
    if |key| <= |s| {
      forall i | 0 <= i < |key|
        ensures LowerByte(s[i]) == key[i] <==> Cased(s[..|key|][i], key[i])
      {
      }
    }
  }

  lemma KeyAtExactly(keys: Keys, s: string, k: nat)
    requires k < |keys|
    ensures KeyAt(keys, s) == Some(k) <==> |keys[k]| <= |s| && SpelledAs(s[..|keys[k]|], keys[k])
  {
    MatchesExactly(keys, s, k);
    if Matches(s, keys[k]) {
      KeysAreDistinct(keys, s, k, KeyAt(keys, s).value);
    }
  }

  // ---- between a key and its value ----

  predicate AllSpacing(s: string, i: nat, e: nat)
    requires e <= |s|
  {
    forall j :: i <= j < e ==> Spacing(s[j])
  }

  predicate QuotedAt(s: string, i: nat) { i < |s| && Quoting(s[i]) }

  /**
   From the end of a key: a quote that closes it, if there is one, spaces, and at `i`
   an equals sign or a colon; then spaces up to `v`, after a colon only if the key
   was quoted.
   */
  ghost predicate Separates(s: string, key: nat, i: nat, v: nat) {
    var quoted := QuotedAt(s, key);
    var from := if quoted then key + 1 else key;
    && from <= i < v <= |s| && AllSpacing(s, from, i) && (s[i] == '=' || s[i] == ':')
    && if s[i] == '=' || quoted then AllSpacing(s, i + 1, v) && (v < |s| ==> !Spacing(s[v])) else v == i + 1
  }

  lemma {:induction false} SpacesRun(s: string, i: nat, e: nat)
    requires i <= e <= |s| && AllSpacing(s, i, e) && (e < |s| ==> !Spacing(s[e]))
    ensures SpacesEnd(s, i) == e
    decreases e - i
  {
    if i < e {
      SpacesRun(s, i + 1, e);
    }
  }

  lemma {:induction false} SpacesStop(s: string, i: nat)
    requires i <= |s|
    ensures var e := SpacesEnd(s, i); AllSpacing(s, i, e) && (e < |s| ==> !Spacing(s[e]))
    decreases |s| - i
  {
    if i < |s| && AsciiSpace(s[i]) {
      SpacesStop(s, i + 1);
    }
  }

  /** Where the value is, once a separator is past. */
  function ValueAt(s: string, v: nat): (nat, Option<char>) { if QuotedAt(s, v) then (v + 1, Some(s[v])) else (v, None) }

  lemma SeparatesIsTrail(s: string, key: nat, i: nat, v: nat)
    requires key <= |s| && Separates(s, key, i, v)
    ensures Trail(s, key) == Some(ValueAt(s, v))
  {
    var from := if QuotedAt(s, key) then key + 1 else key;
    assert QuoteAt(s, key) == QuotedAt(s, key) && QuoteAt(s, v) == QuotedAt(s, v);
    SpacesRun(s, from, i);
    if s[i] == '=' || QuotedAt(s, key) {
      SpacesRun(s, i + 1, v);
    }
  }

  lemma TrailSeparates(s: string, key: nat) returns (i: nat, v: nat)
    requires key <= |s| && Trail(s, key).Some?
    ensures Separates(s, key, i, v) && Trail(s, key) == Some(ValueAt(s, v))
  {
    i := Separator(s, key).value;
    v := PastSeparator(s, key, i);
    SpacesStop(s, if QuotedAt(s, key) then key + 1 else key);
    SpacesStop(s, i + 1);
  }

  /** After a key a value starts exactly where a separator is past. */
  lemma TrailExactly(s: string, key: nat, value: (nat, Option<char>))
    requires key <= |s|
    ensures Trail(s, key) == Some(value) <==> exists i: nat, v: nat :: Separates(s, key, i, v) && value == ValueAt(s, v)
  {
    if Trail(s, key) == Some(value) {
      var i, v := TrailSeparates(s, key);
    }
    if i: nat, v: nat :| Separates(s, key, i, v) && value == ValueAt(s, v) {
      SeparatesIsTrail(s, key, i, v);
    }
  }

  // ---- values ----

  /** How many backslashes come right before an index. */
  function Escapes(s: string, j: nat): (n: nat)
    requires j <= |s|
  {
    if j > 0 && s[j - 1] == '\\' then 1 + Escapes(s, j - 1) else 0
  }

  /** The quote, not escaped: an even number of backslashes come before it. */
  predicate Closes(s: string, j: nat, quote: char) { j < |s| && s[j] == quote && Escapes(s, j) % 2 == 0 }

  /** The value runs to the first quote that closes it, or byte that ends it, or else to the end of the text. */
  ghost predicate RunsTo(s: string, quote: Option<char>, n: nat) {
    && n <= |s|
    && match quote
       case Some(q) => (n < |s| ==> Closes(s, n, q)) && forall j :: 0 <= j < n ==> !Closes(s, j, q)
       case None => (n < |s| ==> Ending(s[n..])) && forall j :: 0 <= j < n ==> !Ending(s[j..])
  }

  lemma {:induction false} EscapesDropOne(s: string, j: nat)
    requires 0 < j <= |s| && s[0] != '\\'
    ensures Escapes(s, j) == Escapes(s[1..], j - 1)
    decreases j
  {
    if j > 1 {
      EscapesDropOne(s, j - 1);
    }
  }

  lemma {:induction false} EscapesDropTwo(s: string, j: nat)
    requires 2 <= j <= |s| && s[0] == '\\'
    ensures Escapes(s, j) % 2 == Escapes(s[2..], j - 2) % 2
    decreases j
  {
    if j == 2 {
      assert Escapes(s, 0) == 0 && Escapes(s, 1) == 1;
    } else {
      assert s[2..][j - 3] == s[j - 1];
      EscapesDropTwo(s, j - 1);
    }
  }

  lemma {:induction false} QuotedRuns(s: string, quote: char)
    requires quote != '\\'
    ensures RunsTo(s, Some(quote), QuotedLength(s, quote))
    decreases |s|
  {
    var n := QuotedLength(s, quote);
    if s == "" {
    } else if s[0] == '\\' {
      if |s| > 1 {
        QuotedRuns(s[2..], quote);
        forall j | 0 <= j < |s|
          ensures Closes(s, j, quote) <==> j >= 2 && Closes(s[2..], j - 2, quote)
        {
          ClosesPastEscape(s, j, quote);
        }
      }
    } else if s[0] != quote {
      QuotedRuns(s[1..], quote);
      forall j | 0 <= j < |s|
        ensures Closes(s, j, quote) <==> j >= 1 && Closes(s[1..], j - 1, quote)
      {
        if j > 0 {
          EscapesDropOne(s, j);
        }
      }
    }
  }

  lemma ClosesPastEscape(s: string, j: nat, quote: char)
    requires |s| > 1 && s[0] == '\\' && quote != '\\' && j < |s|
    ensures Closes(s, j, quote) <==> j >= 2 && Closes(s[2..], j - 2, quote)
  {
    if j >= 2 {
      EscapesDropTwo(s, j);
    } else {
      assert Escapes(s, 0) == 0 && Escapes(s, 1) == 1;
    }
  }

  lemma {:induction false} UnquotedRuns(s: string)
    ensures RunsTo(s, None, UnquotedLength(s))
  {
    EndingExactly(s);
    assert s[0..] == s;
    if s != "" && !DelimiterAt(s) {
      UnquotedRuns(s[1..]);
      var n := UnquotedLength(s);
      assert s[n..] == s[1..][n - 1..];
      forall j | 0 <= j < n
        ensures !Ending(s[j..])
      {
        if j > 0 {
          assert s[j..] == s[1..][j - 1..];
        }
      }
    }
  }

  lemma RunsOneWay(s: string, quote: Option<char>, m: nat, n: nat)
    requires RunsTo(s, quote, m) && RunsTo(s, quote, n)
    ensures m == n
  {
  }

  /** How long a value is. */
  lemma ValueExactly(s: string, quote: Option<char>, n: nat)
    requires quote.Some? ==> Quoting(quote.value)
    ensures ValueLength(s, quote) == n <==> RunsTo(s, quote, n)
  {
    if quote.Some? {
      QuotedRuns(s, quote.value);
    } else {
      UnquotedRuns(s);
    }
    if RunsTo(s, quote, n) {
      RunsOneWay(s, quote, ValueLength(s, quote), n);
    }
  }

  // ---- secrets ----

  /** The text starts with the k-th key, in either case, a separator is past at `v`, and its value has `n` bytes. */
  ghost predicate IsSecret(keys: Keys, prev: Option<char>, s: string, k: nat, i: nat, v: nat, n: nat) {
    && (prev.None? || !Wordy(prev.value))
    && k < |keys| && |keys[k]| <= |s| && SpelledAs(s[..|keys[k]|], keys[k])
    && Separates(s, |keys[k]|, i, v)
    && var (a, quote) := ValueAt(s, v); 0 < n && a <= |s| && RunsTo(s[a..], quote, n)
  }

  lemma SecretIsCut(keys: Keys, prev: Option<char>, s: string, k: nat, i: nat, v: nat, n: nat)
    requires IsSecret(keys, prev, s, k, i, v, n)
    ensures CutAt(keys, prev, s) == Some((ValueAt(s, v).0, n))
  {
    KeyAtExactly(keys, s, k);
    SeparatesIsTrail(s, |keys[k]|, i, v);
    var (a, quote) := ValueAt(s, v);
    ValueExactly(s[a..], quote, n);
  }

  lemma CutIsSecret(keys: Keys, prev: Option<char>, s: string) returns (k: nat, i: nat, v: nat)
    requires CutAt(keys, prev, s).Some?
    ensures IsSecret(keys, prev, s, k, i, v, CutAt(keys, prev, s).value.1) && ValueAt(s, v).0 == CutAt(keys, prev, s).value.0
  {
    k := KeyAt(keys, s).value;
    KeyAtExactly(keys, s, k);
    i, v := TrailSeparates(s, |keys[k]|);
    var (a, quote) := ValueAt(s, v);
    ValueExactly(s[a..], quote, CutAt(keys, prev, s).value.1);
  }

  /** What is cut out at a byte is exactly the value of a secret there. */
  lemma CutsExactly(keys: Keys, prev: Option<char>, s: string, a: nat, n: nat)
    ensures CutAt(keys, prev, s) == Some((a, n)) <==>
            exists k: nat, i: nat, v: nat :: IsSecret(keys, prev, s, k, i, v, n) && ValueAt(s, v).0 == a
  {
    if CutAt(keys, prev, s) == Some((a, n)) {
      var k, i, v := CutIsSecret(keys, prev, s);
    }
    if k: nat, i: nat, v: nat :| IsSecret(keys, prev, s, k, i, v, n) && ValueAt(s, v).0 == a {
      SecretIsCut(keys, prev, s, k, i, v, n);
    }
  }

  // ---- addresses ----

  /** One of `/?#` or a character that Unicode calls White_Space ends an authority. */
  lemma AuthorityEndExactly(s: string)
    ensures ScrubUserinfo.AuthorityEndAt(s) <==> s != "" && (s[0] as int in [47, 63, 35] || StartsWithSpace(s))
  {
    SpacesExactly(s);
  }

  /** Printable bytes other than `/?#`. */
  predicate InAuthority(s: string) { forall i :: 0 <= i < |s| ==> 33 <= s[i] as int <= 126 && s[i] !in "/?#" }

  lemma AuthorityEndsNowhere(s: string, j: nat, rest: string)
    requires InAuthority(s) && j < |s|
    ensures !ScrubUserinfo.AuthorityEndAt(s[j..] + rest)
  {
    assert (s[j..] + rest)[0] == s[j];
  }

  lemma SchemeIsFound(scheme: string)
    requires ':' !in scheme
    ensures ScrubUserinfo.Find(scheme + "://", ScrubUserinfo.SCHEME_END) == Some(|scheme|)
  {
    var s := scheme + "://";
    forall j | 0 <= j < |scheme|
      ensures !ScrubUserinfo.Has(s, "://", j)
    {
      assert s[j] == scheme[j] != ':';
      assert j + 3 <= |s| ==> s[j..j + 3][0] == s[j];
    }
    assert s[|scheme|..|scheme| + 3] == "://";
    ScrubUserinfo.FindsFirst(s, "://", |scheme|);
  }

  lemma LastAt(user: string, host: string)
    requires '@' !in host
    ensures ScrubUserinfo.Clean(user + "@" + host) == "<redacted>" + "@" + host
  {
    var authority := user + "@" + host;
    ScrubUserinfo.CleanIs(authority, |user|);
    assert authority[|user|..] == "@" + host;
  }

  /** An address: a scheme, a user with or without a password, and the host. */
  function Address(scheme: string, user: string, host: string, rest: string): ScrubUserinfo.Urls {
    ScrubUserinfo.Url(scheme + "://", user + "@" + host, ScrubUserinfo.Text(rest))
  }

  lemma AddressIsRead(scheme: string, user: string, host: string, rest: string)
    requires ':' !in scheme && InAuthority(user + "@" + host)
    requires (rest == "" || rest[0] in "/?#") && ScrubUserinfo.Find(rest, "://") == None
    ensures ScrubUserinfo.WellRead(ScrubUserinfo.Ends(), Address(scheme, user, host, rest))
  {
    SchemeIsFound(scheme);
    var authority := user + "@" + host;
    forall j | 0 <= j < |authority|
      ensures !ScrubUserinfo.Ends()(authority[j..] + rest)
    {
      AuthorityEndsNowhere(authority, j, rest);
    }
  }

  lemma ReadIsCleaned(u: ScrubUserinfo.Urls)
    requires ScrubUserinfo.WellRead(ScrubUserinfo.Ends(), u)
    ensures ScrubUserinfo.Scrubbed(ScrubUserinfo.Unread(u)) == ScrubUserinfo.Unread(ScrubUserinfo.Cleaned(ScrubUserinfo.Cleaner(), u))
  {
    ScrubUserinfo.ReadingIsUnique(ScrubUserinfo.Ends(), u);
  }

  /** Of an address everything between the scheme and the last `@` of its authority is replaced. */
  lemma UserinfoIsRedacted(scheme: string, user: string, host: string, rest: string)
    requires ':' !in scheme && InAuthority(user + "@" + host) && '@' !in host
    requires (rest == "" || rest[0] in "/?#") && ScrubUserinfo.Find(rest, "://") == None
    ensures ScrubUserinfo.Scrubbed(scheme + "://" + (user + "@" + host + rest)) ==
            scheme + "://" + ("<redacted>" + "@" + host + rest)
  {
    AddressIsRead(scheme, user, host, rest);
    ReadIsCleaned(Address(scheme, user, host, rest));
    AddressIsCleaned(scheme, user, host, rest);
  }

  lemma AddressIsCleaned(scheme: string, user: string, host: string, rest: string)
    requires '@' !in host
    ensures var u := Address(scheme, user, host, rest);
            && ScrubUserinfo.Unread(u) == scheme + "://" + (user + "@" + host + rest)
            && ScrubUserinfo.Unread(ScrubUserinfo.Cleaned(ScrubUserinfo.Cleaner(), u)) ==
               scheme + "://" + ("<redacted>" + "@" + host + rest)
  {
    LastAt(user, host);
  }

  // ---- whole texts ----

  lemma {:induction false} HeldToTheEnd(cut: Scrubber, prev: Option<char>, s: string)
    ensures Scan(cut, prev, s, |s|) == ""
    decreases |s|
  {
    if s != "" {
      HeldToTheEnd(cut, Some(s[0]), s[1..]);
    }
  }

  /** Printable bytes, none of which quotes or ends a value. */
  predicate Ordinary(s: string) { forall i :: 0 <= i < |s| ==> 33 <= s[i] as int <= 126 && s[i] !in "&\"'),;}" }

  lemma OrdinaryEndsNowhere(s: string, j: nat)
    requires Ordinary(s) && j < |s|
    ensures !Ending(s[j..])
  {
    assert s[j..][0] == s[j];
    EndingExactly(s[j..]);
  }

  lemma Pieces(x: string, value: string)
    requires value != ""
    ensures var s, a := x + "=" + value, |x| + 1;
            && |s| == a + |value| && s[..|x|] == x && s[|x|] == '=' && s[a..] == value && s[a] == value[0] && s[..a] == x + "="
  {
  }

  lemma ValueIsSecret(keys: Keys, k: nat, x: string, value: string)
    requires k < |keys| && SpelledAs(x, keys[k]) && value != "" && Ordinary(value)
    ensures CutAt(keys, None, x + "=" + value) == Some((|x| + 1, |value|))
  {
    var s := x + "=" + value;
    Pieces(x, value);
    forall j | 0 <= j < |value|
      ensures !Ending(value[j..])
    {
      OrdinaryEndsNowhere(value, j);
    }
    assert Separates(s, |x|, |x|, |x| + 1) && ValueAt(s, |x| + 1) == (|x| + 1, None);
    SecretIsCut(keys, None, s, k, |x|, |x| + 1, |value|);
  }

  lemma CutToTheEnd(cut: Scrubber, s: string, a: nat)
    requires a < |s| && cut.at(None, s) == Some((a, |s| - a))
    ensures Scan(cut, None, s, 0) == s[..a] + cut.mark
  {
    HeldToTheEnd(cut, Some(s[a - 1]), s[a..]);
    assert s[0..a] == s[..a];
  }

  /** Whatever the case of its letters, a key, an equals sign and a value come out with the value replaced. */
  lemma SecretIsRedacted(keys: Keys, k: nat, x: string, value: string)
    requires k < |keys| && SpelledAs(x, keys[k]) && value != "" && Ordinary(value)
    ensures Scrubbed(keys, x + "=" + value) == x + "=" + "<redacted>"
  {
    Pieces(x, value);
    ValueIsSecret(keys, k, x, value);
    CutToTheEnd(ScrubberFor(keys), x + "=" + value, |x| + 1);
  }

  lemma SignatureSpelled()
    ensures SpelledAs("X-Amz-Signature", "x-amz-signature") && Ordinary("deadbeef")
  {
  }

  lemma SignatureIsFirst(keys: Keys)
    requires keys == Secrets()
    ensures 0 < |keys| && keys[0] == "x-amz-signature"
  {
  }

  lemma WrittenTogether(x: string, y: string, z: string)
    requires x == "X-Amz-Signature" && y == "deadbeef" && z == "<redacted>"
    ensures x + "=" + y == "X-Amz-Signature=deadbeef" && x + "=" + z == "X-Amz-Signature=<redacted>"
  {
  }

  /** A signature as it comes in the address of a signed request. */
  lemma SignatureIsRedacted()
    ensures Scrubbed(Secrets(), "X-Amz-Signature=deadbeef") == "X-Amz-Signature=<redacted>"
  {
    SignatureSpelled();
    SignatureIsFirst(Secrets());
    WrittenTogether("X-Amz-Signature", "deadbeef", "<redacted>");
    SecretIsRedacted(Secrets(), 0, "X-Amz-Signature", "deadbeef");
  }
}
