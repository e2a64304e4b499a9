/**
 Credentials in error text: where a secret's value is, byte by byte. A byte is
 the character of the same code.
 */
module ScrubText {
  import opened Outcomes

  const PLACEHOLDER: string := "<redacted>"

  const SECRET_PARAMS: seq<string> := [
    "x-amz-signature", "x-amz-credential", "x-amz-security-token", "client_secret", "client_id",
    "access_token", "refresh_token", "id_token", "assertion", "password", "signature"]

  // ---- bytes ----

  function LowerByte(c: char): char { if 'A' <= c <= 'Z' then (c as int + 32) as char else c }

  predicate Letter(c: char) { 'a' <= LowerByte(c) <= 'z' }

  /** A byte that makes what follows it part of a longer word. */
  predicate WordByte(c: char) { Letter(c) || '0' <= c <= '9' || c == '_' || c == '-' }

  predicate AsciiSpace(c: char) { c == ' ' || c == '\t' || c == '\n' || c == '\U{C}' || c == '\r' }

  predicate QuoteMark(c: char) { c == '"' || c == '\'' }

  /** A byte that can stand between a key and its value. */
  predicate TrailByte(c: char) { QuoteMark(c) || AsciiSpace(c) || c == '=' || c == ':' }

  /** The text starts with a character Unicode calls White_Space, in UTF-8. */
  predicate SpaceAt(s: string) {
    s != "" &&
    (('\t' <= s[0] <= '\r') || s[0] == ' '
     || (|s| >= 2 && s[0] == '\U{C2}' && (s[1] == '\U{85}' || s[1] == '\U{A0}'))
     || (|s| >= 3 && s[0] == '\U{E1}' && s[1] == '\U{9A}' && s[2] == '\U{80}')
     || (|s| >= 3 && s[0] == '\U{E2}' && s[1] == '\U{80}' &&
         ('\U{80}' <= s[2] <= '\U{8A}' || s[2] == '\U{A8}' || s[2] == '\U{A9}' || s[2] == '\U{AF}'))
     || (|s| >= 3 && s[0] == '\U{E2}' && s[1] == '\U{81}' && s[2] == '\U{9F}')
     || (|s| >= 3 && s[0] == '\U{E3}' && s[1] == '\U{80}' && s[2] == '\U{80}'))
  }

  /** The text starts with a character that ends an unquoted value. */
  predicate DelimiterAt(s: string) {
    s != "" && (s[0] == '&' || QuoteMark(s[0]) || s[0] == ')' || s[0] == ',' || s[0] == ';' || s[0] == '}' || SpaceAt(s))
  }

  // ---- a key, what stands between it and its value, and the value ----

  predicate Matches(s: string, key: string) {
    |key| <= |s| && forall i {:trigger LowerByte(s[i])} :: 0 <= i < |key| ==> LowerByte(s[i]) == key[i]
  }

  /** A lower-case word of at least eight bytes. */
  predicate KeyShape(key: string) {
    |key| >= 8 && Letter(key[0]) && forall i :: 0 <= i < |key| ==> 'a' <= key[i] <= 'z' || key[i] == '_' || key[i] == '-'
  }

  predicate Differ(x: string, y: string) { exists i :: 0 <= i < |x| && i < |y| && x[i] != y[i] }

  /** Keys no two of which can start the same text, nor any of them the placeholder. */
  ghost predicate AreKeys(keys: seq<string>) {
    && (forall k :: 0 <= k < |keys| ==> KeyShape(keys[k]) && Differ(keys[k], "redacted>"))
    && (forall j, k :: 0 <= j < k < |keys| ==> Differ(keys[j], keys[k]))
  }

  type Keys = keys: seq<string> | AreKeys(keys) witness []

  /** Which key the text starts with, in any case. */
  function KeyAt(keys: Keys, s: string, from: nat := 0): (k: Option<nat>)
    ensures k.Some? ==> from <= k.value < |keys| && Matches(s, keys[k.value])
    ensures k.None? ==> forall j :: from <= j < |keys| ==> !Matches(s, keys[j])
    decreases |keys| - from
  {
    if from >= |keys| then None
    else if Matches(s, keys[from]) then Some(from)
    else KeyAt(keys, s, from + 1)
  }

  /** The length of the key the text starts with. */
  function KeyLength(keys: Keys, s: string): (n: Option<nat>)
    ensures n.Some? ==> 8 <= n.value <= |s| && Letter(s[0])
  {
    match KeyAt(keys, s)
    case None => None
    case Some(k) =>
      KeyBytes(keys, s, k);
      Some(|keys[k]|)
  }

  /** The end of the spaces that start at an index. */
  function SpacesEnd(s: string, i: nat): (e: nat)
    requires i <= |s|
    ensures i <= e <= |s|
    decreases |s| - i
  {
    if i < |s| && AsciiSpace(s[i]) then SpacesEnd(s, i + 1) else i
  }

  /** How far a quoted value runs: to its closing quote, which a backslash escapes, or to the end. */
  function QuotedLength(s: string, quote: char): (n: nat)
    ensures n <= |s|
    ensures n < |s| ==> s[n] == quote
  {
    if s == "" then 0
    else if s[0] == '\\' then (if |s| == 1 then 1 else 2 + QuotedLength(s[2..], quote))
    else if s[0] == quote then 0
    else 1 + QuotedLength(s[1..], quote)
  }

  function UnquotedLength(s: string): (n: nat)
    ensures n <= |s|
    ensures n < |s| ==> DelimiterAt(s[n..])
  {
    if s == "" || DelimiterAt(s) then 0 else 1 + UnquotedLength(s[1..])
  }

  function ValueLength(s: string, quote: Option<char>): (n: nat)
    ensures n <= |s|
  {
    match quote
    case Some(q) => QuotedLength(s, q)
    case None => UnquotedLength(s)
  }

  predicate QuoteAt(s: string, i: nat) { i < |s| && QuoteMark(s[i]) }

  /** After a key: where the separator is. A quoted key closes its quote first. */
  function Separator(s: string, key: nat): (r: Option<nat>)
    requires key <= |s|
    ensures r.Some? ==> key <= r.value < |s|
  {
    var i := SpacesEnd(s, if QuoteAt(s, key) then key + 1 else key);
    if i < |s| && (s[i] == '=' || s[i] == ':') then Some(i) else None
  }

  /** Past the separator. Spaces are skipped after `=`, and after `:` only for a quoted key. */
  function PastSeparator(s: string, key: nat, i: nat): (v: nat)
    requires i < |s|
    ensures i < v <= |s|
  {
    if s[i] == '=' || QuoteAt(s, key) then SpacesEnd(s, i + 1) else i + 1
  }

  /** After a key: where its value starts, and the quote it opens with. */
  function Trail(s: string, key: nat): (r: Option<(nat, Option<char>)>)
    requires key <= |s|
    ensures r.Some? ==> key < r.value.0 <= |s| && (r.value.1.Some? ==> QuoteMark(r.value.1.value))
  {
    var i :- Separator(s, key);
    var v := PastSeparator(s, key, i);
    if QuoteAt(s, v) then Some((v + 1, Some(s[v]))) else Some((v, None))
  }

  /** The key and the trail the text starts with: where its value starts, and the quote it opens with. */
  function KeyAndTrail(keys: Keys, s: string): (r: Option<(nat, Option<char>)>)
    ensures r.Some? ==> 8 < r.value.0 <= |s| && Letter(s[0]) && (r.value.1.Some? ==> QuoteMark(r.value.1.value))
  {
    var key :- KeyLength(keys, s);
    Trail(s, key)
  }

  /** The value of a secret whose key starts the text: its offset and length, if it has one. */
  function CutAt(keys: Keys, prev: Option<char>, s: string): (c: Option<(nat, nat)>)
    ensures c.Some? ==> CutShape(prev, s, c.value.0, c.value.1)
  {
    if prev.Some? && WordByte(prev.value) then None
    else
      var (a, quote) :- KeyAndTrail(keys, s);
      var n := ValueLength(s[a..], quote);
      if n == 0 then None else Some((a, n))
  }

  // ---- scrub_params in one pass ----

  /** No key can start on the byte: it follows a word byte, or is no letter. */
  predicate Blocked(prev: Option<char>, c: char) { !Letter(c) || (prev.Some? && WordByte(prev.value)) }

  predicate CutShape(prev: Option<char>, s: string, a: nat, n: nat) {
    8 < a && 0 < n && a + n <= |s| && !Blocked(prev, s[0])
  }

  /** A rule for where values to replace are. */
  type Cut = c: (Option<char>, string) -> Option<(nat, nat)> |
      forall p, s :: c(p, s).Some? ==> CutShape(p, s, c(p, s).value.0, c(p, s).value.1)
    witness (p: Option<char>, s: string) => None

  /** A rule for where values to replace are, and what replaces them. */
  datatype Scrubber = Scrubber(at: Cut, mark: string)

  /**
   The text with every cut replaced, scanning once from the left. The first
   `hold` bytes are inside a cut already replaced; a cut that starts among them
   is skipped.
   */
  function Scan(cut: Scrubber, prev: Option<char>, s: string, hold: nat): string
    requires hold <= |s|
    decreases |s|
  {
    if s == "" then ""
    else if cut.at(prev, s).Some? && cut.at(prev, s).value.0 >= hold then
      var (a, n) := cut.at(prev, s).value;
      s[hold..a] + cut.mark + Scan(cut, Some(s[a - 1]), s[a..], n)
    else if hold == 0 then [s[0]] + Scan(cut, Some(s[0]), s[1..], 0)
    else Scan(cut, Some(s[0]), s[1..], hold - 1)
  }

  /** The rule for the values of some keys. */
  function CutFor(keys: Keys): Cut { (p: Option<char>, s: string) => CutAt(keys, p, s) }

  function ScrubberFor(keys: Keys): Scrubber { Scrubber(CutFor(keys), PLACEHOLDER) }

  function Scrubbed(keys: Keys, text: string): string { Scan(ScrubberFor(keys), None, text, 0) }

  function Secrets(): Keys {
    SecretsAreKeys();
    SECRET_PARAMS
  }

  // ---- the keys ----

  lemma SecretFacts(k: nat)
    requires k < |SECRET_PARAMS|
    ensures KeyShape(SECRET_PARAMS[k])
    ensures Differ(SECRET_PARAMS[k], "redacted>")
  {
    assert SECRET_PARAMS[k][0] != 'r' || SECRET_PARAMS[k][2] != 'd';
  }

  lemma SecretsAreKeys()
    ensures AreKeys(SECRET_PARAMS)
  {
    forall k | 0 <= k < |SECRET_PARAMS|
      ensures KeyShape(SECRET_PARAMS[k]) && Differ(SECRET_PARAMS[k], "redacted>")
    {
      SecretFacts(k);
    }
    forall j, k | 0 <= j < k < |SECRET_PARAMS|
      ensures Differ(SECRET_PARAMS[j], SECRET_PARAMS[k])
    {
      SecretsDiffer(j, k);
    }
  }

  lemma SecretBytes(j: nat, k: nat)
    requires j < k < |SECRET_PARAMS|
    ensures |SECRET_PARAMS[j]| >= 8 && |SECRET_PARAMS[k]| >= 8
    ensures SECRET_PARAMS[j][0] != SECRET_PARAMS[k][0] || SECRET_PARAMS[j][7] != SECRET_PARAMS[k][7]
  {
  }

  lemma SecretsDiffer(j: nat, k: nat)
    requires j < k < |SECRET_PARAMS|
    ensures Differ(SECRET_PARAMS[j], SECRET_PARAMS[k])
  {
    SecretFacts(j);
    SecretFacts(k);
    var x, y := SECRET_PARAMS[j], SECRET_PARAMS[k];
    SecretBytes(j, k);
    assert if x[0] != y[0] then true else x[7] != y[7];
  }

  /** No text starts with two of the keys. */
  lemma KeysAreDistinct(keys: Keys, s: string, j: nat, k: nat)
    requires j < |keys| && k < |keys| && Matches(s, keys[j]) && Matches(s, keys[k])
    ensures j == k
  {
    if j < k {
      NotBoth(s, keys[j], keys[k]);
    } else if k < j {
      NotBoth(s, keys[k], keys[j]);
    }
  }

  lemma NotBoth(s: string, x: string, y: string)
    requires Matches(s, x) && Differ(x, y)
    ensures !Matches(s, y)
  {
    var i :| 0 <= i < |x| && i < |y| && x[i] != y[i];
    assert |s| > i ==> LowerByte(s[i]) == x[i];
  }

  /** A matched key is made of word bytes. */
  lemma KeyBytes(keys: Keys, s: string, k: nat)
    requires k < |keys| && Matches(s, keys[k])
    ensures 8 <= |keys[k]| <= |s| && Letter(s[0])
    ensures forall i :: 0 <= i < |keys[k]| ==> WordByte(s[i])
  {
    assert KeyShape(keys[k]);
    forall i | 0 <= i < |keys[k]|
      ensures WordByte(s[i])
    {
      assert LowerByte(s[i]) == keys[k][i];
    }
  }

  lemma {:induction false} SpacesAreSpaces(s: string, i: nat)
    requires i <= |s|
    ensures forall j :: i <= j < SpacesEnd(s, i) ==> AsciiSpace(s[j])
    decreases |s| - i
  {
    if i < |s| {
      SpacesAreSpaces(s, i + 1);
    }
  }

  /** Every byte between a key and its value is a quote, a space or a separator. */
  lemma TrailBytes(s: string, key: nat)
    requires key <= |s| && Trail(s, key).Some?
    ensures forall j :: key <= j < Trail(s, key).value.0 ==> TrailByte(s[j])
  {
    var i := Separator(s, key).value;
    SpacesAreSpaces(s, if QuoteAt(s, key) then key + 1 else key);
    SpacesAreSpaces(s, i + 1);
  }

  /** No key can start between a key and its value. */
  lemma KeyAndTrailBytes(keys: Keys, s: string)
    requires KeyAndTrail(keys, s).Some?
    ensures var a := KeyAndTrail(keys, s).value.0;
            && TrailByte(s[a - 1])
            && (forall i :: 0 < i < a ==> Blocked(Some(s[i - 1]), s[i]))
            && (forall i :: 0 <= i < a ==> s[i] < '\U{80}')
  {
    var key := KeyLength(keys, s).value;
    KeyBytes(keys, s, KeyAt(keys, s).value);
    TrailBytes(s, key);
    QuietBytes(s, key, KeyAndTrail(keys, s).value.0);
  }

  lemma QuietBytes(s: string, key: nat, a: nat)
    requires key < a <= |s|
    requires forall i :: 0 <= i < key ==> WordByte(s[i])
    requires forall i :: key <= i < a ==> TrailByte(s[i])
    ensures forall i :: 0 < i < a ==> Blocked(Some(s[i - 1]), s[i])
    ensures forall i :: 0 <= i < a ==> s[i] < '\U{80}'
  {
  }

  /** What ends a value is no word byte. */
  lemma ValueEnds(s: string, quote: Option<char>)
    requires quote.Some? ==> QuoteMark(quote.value)
    requires ValueLength(s, quote) < |s|
    ensures !WordByte(s[ValueLength(s, quote)])
  {
    if quote.None? {
      assert s[UnquotedLength(s)..][0] == s[UnquotedLength(s)];
    }
  }
}
