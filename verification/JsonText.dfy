/**
 JSON text: the compact form the R side writes, and the reader on the Rust side
 (the grammar of RFC 8259, with a number kept as its token).
 */
module JsonText {
  import opened Outcomes
  import opened FilterTree
  import opened DecimalText

  // ---- writing ----

  const HEX: string := "0123456789abcdef"

  /** One character of a JSON string, escaped as section 7 of RFC 8259 requires. */
  function EscapeChar(c: char): (e: string)
    ensures e != ""
  {
    if c == '\\' then "\\\\"
    else if c == '"' then "\\\""
    else if c == '\U{8}' then "\\b"
    else if c == '\U{C}' then "\\f"
    else if c == '\n' then "\\n"
    else if c == '\r' then "\\r"
    else if c == '\t' then "\\t"
    else if c < ' ' then "\\u00" + [HEX[c as int / 16], HEX[c as int % 16]]
    else [c]
  }

  function Escape(s: string): string {
    if s == "" then "" else EscapeChar(s[0]) + Escape(s[1..])
  }

  function Quote(s: string): string { "\"" + Escape(s) + "\"" }

  function Show(j: Json): string {
    match j
    case JNull => "null"
    case JBool(b) => if b then "true" else "false"
    case JNumber(token) => token
    case JString(s) => Quote(s)
    case JArray(items) => "[" + ShowItems(items) + "]"
    case JObject(members) => "{" + ShowMembers(members) + "}"
  }

  function ShowItems(items: seq<Json>): string {
    if items == [] then ""
    else if |items| == 1 then Show(items[0])
    else Show(items[0]) + "," + ShowItems(items[1..])
  }

  function ShowMembers(members: seq<Member>): string {
    if members == [] then ""
    else if |members| == 1 then Quote(members[0].key) + ":" + Show(members[0].val)
    else Quote(members[0].key) + ":" + Show(members[0].val) + "," + ShowMembers(members[1..])
  }

  // ---- numbers ----

  predicate NumberChar(c: char) { IsDigit(c) || c == '-' || c == '+' || c == '.' || c == 'e' || c == 'E' }

  function DigitSpan(s: string): (n: nat)
    ensures n <= |s|
  {
    if s != "" && IsDigit(s[0]) then 1 + DigitSpan(s[1..]) else 0
  }

  predicate ExponentPart(s: string) {
    s == "" ||
    ((s[0] == 'e' || s[0] == 'E') &&
     var digits := if |s| > 1 && (s[1] == '+' || s[1] == '-') then s[2..] else s[1..];
     digits != "" && DigitSpan(digits) == |digits|)
  }

  predicate FractionPart(s: string) {
    if s == "" || s[0] != '.' then ExponentPart(s)
    else DigitSpan(s[1..]) > 0 && ExponentPart(s[1 + DigitSpan(s[1..])..])
  }

  /** The number grammar of section 6 of RFC 8259. */
  predicate IsNumber(t: string) {
    && (forall i :: 0 <= i < |t| ==> NumberChar(t[i]))
    && var s := Unsigned(t);
       t != "" && t[0] != '+' && DigitSpan(s) > 0 && (s[0] == '0' ==> DigitSpan(s) == 1) && FractionPart(s[DigitSpan(s)..])
  }

  function NumberSpan(s: string): (n: nat)
    ensures n <= |s|
  {
    if s != "" && NumberChar(s[0]) then 1 + NumberSpan(s[1..]) else 0
  }

  // ---- reading ----

  predicate JsonSpace(c: char) { c == ' ' || c == '\t' || c == '\n' || c == '\r' }

  function Skip(s: string): (r: string)
    ensures |r| <= |s|
    ensures s != "" && !JsonSpace(s[0]) ==> r == s
  {
    if s != "" && JsonSpace(s[0]) then Skip(s[1..]) else s
  }

  function HexDigit(c: char): (v: Option<nat>)
    ensures v.Some? ==> v.value < 16
  {
    if IsDigit(c) then Some(c as int - '0' as int)
    else if 'a' <= c <= 'f' then Some(c as int - 'a' as int + 10)
    else if 'A' <= c <= 'F' then Some(c as int - 'A' as int + 10)
    else None
  }

  function Hex4(s: string): (v: Option<nat>)
    ensures v.Some? ==> v.value < 0x10000
  {
    if |s| < 4 then None
    else
      var a :- HexDigit(s[0]);
      var b :- HexDigit(s[1]);
      var c :- HexDigit(s[2]);
      var d :- HexDigit(s[3]);
      Some(((a * 16 + b) * 16 + c) * 16 + d)
  }

  /** What follows a backslash: the character it stands for, and how much of the text it takes. */
  function Unescape(s: string): (r: Option<(char, nat)>)
    ensures r.Some? ==> 0 < r.value.1 <= |s|
  {
    if s == "" then None
    else
      match s[0]
      case '"' => Some(('"', 1))
      case '\\' => Some(('\\', 1))
      case '/' => Some(('/', 1))
      case 'b' => Some(('\U{8}', 1))
      case 'f' => Some(('\U{C}', 1))
      case 'n' => Some(('\n', 1))
      case 'r' => Some(('\r', 1))
      case 't' => Some(('\t', 1))
      case 'u' =>
        var u :- Hex4(s[1..]);
        if u < 0xD800 || u > 0xDFFF then Some((u as char, 5))
        else if u > 0xDBFF || |s| < 11 || s[5] != '\\' || s[6] != 'u' then None
        else
          var low :- Hex4(s[7..]);
          if 0xDC00 <= low <= 0xDFFF then
            Some(((0x10000 + (u - 0xD800) * 0x400 + (low - 0xDC00)) as char, 11))
          else None
      case _ => None
  }

  /** The rest of a string whose opening quote has been read. */
  function ReadString(s: string): (r: Option<(string, string)>)
    ensures r.Some? ==> |r.value.1| < |s|
    decreases |s|
  {
    if s == "" then None
    else if s[0] == '"' then Some(("", s[1..]))
    else if s[0] == '\\' then
      var (c, n) :- Unescape(s[1..]);
      var (text, rest) :- ReadString(s[1 + n..]);
      Some(([c] + text, rest))
    else if s[0] < ' ' then None
    else
      var (text, rest) :- ReadString(s[1..]);
      Some(([s[0]] + text, rest))
  }

  /**
   One value. Entering an array or an object takes one of the levels that are
   `left`, and the last of them is refused.
   */
  function ReadValue(s: string, left: nat): (r: Option<(Json, string)>)
    ensures r.Some? ==> |r.value.1| < |s|
    decreases |s|, 0
  {
    var t := Skip(s);
    if t == "" then None
    else if t[0] == '"' then
      var (text, rest) :- ReadString(t[1..]);
      Some((JString(text), rest))
    else if (t[0] == '[' || t[0] == '{') && left <= 1 then None
    else if t[0] == '[' then
      var u := Skip(t[1..]);
      if u != "" && u[0] == ']' then Some((JArray([]), u[1..]))
      else
        var (items, rest) :- ReadItems(t[1..], left - 1);
        Some((JArray(items), rest))
    else if t[0] == '{' then
      var u := Skip(t[1..]);
      if u != "" && u[0] == '}' then Some((JObject([]), u[1..]))
      else
        var (members, rest) :- ReadMembers(t[1..], left - 1);
        Some((JObject(members), rest))
    else if "true" <= t then Some((JBool(true), t[4..]))
    else if "false" <= t then Some((JBool(false), t[5..]))
    else if "null" <= t then Some((JNull, t[4..]))
    else if IsNumber(t[..NumberSpan(t)]) then Some((JNumber(t[..NumberSpan(t)]), t[NumberSpan(t)..]))
    else None
  }

  function ReadItems(s: string, left: nat): (r: Option<(seq<Json>, string)>)
    ensures r.Some? ==> |r.value.1| < |s|
    decreases |s|, 1
  {
    var (v, after) :- ReadValue(s, left);
    var t := Skip(after);
    if t == "" then None
    else if t[0] == ']' then Some(([v], t[1..]))
    else if t[0] == ',' then
      var (more, rest) :- ReadItems(t[1..], left);
      Some(([v] + more, rest))
    else None
  }

  function ReadMembers(s: string, left: nat): (r: Option<(seq<Member>, string)>)
    ensures r.Some? ==> |r.value.1| < |s|
    decreases |s|, 1
  {
    var k := Skip(s);
    if k == "" || k[0] != '"' then None
    else
      var (key, afterKey) :- ReadString(k[1..]);
      var c := Skip(afterKey);
      if c == "" || c[0] != ':' then None
      else
        var (v, after) :- ReadValue(c[1..], left);
        var t := Skip(after);
        if t == "" then None
        else if t[0] == '}' then Some(([Member(key, v)], t[1..]))
        else if t[0] == ',' then
          var (more, rest) :- ReadMembers(t[1..], left);
          Some(([Member(key, v)] + more, rest))
        else None
  }

  /** The levels the parser starts with, so that the innermost value may be 127 deep. */
  const LEVELS: nat := 128

  function ReadDocument(s: string): Option<Json> {
    var (v, rest) :- ReadValue(s, LEVELS);
    if Skip(rest) == "" then Some(v) else None
  }

  // ---- nesting ----

  /** How many arrays and objects the innermost value is in, itself included. */
  function Depth(j: Json): nat
    decreases j, 1
  {
    match j
    case JArray(items) => 1 + DepthOfItems(items)
    case JObject(members) => 1 + DepthOfMembers(members)
    case _ => 0
  }

  function Max(a: nat, b: nat): nat { if a < b then b else a }

  function DepthOfItems(items: seq<Json>): nat
    decreases items, 0
  {
    if items == [] then 0 else Max(Depth(items[0]), DepthOfItems(items[1..]))
  }

  function DepthOfMembers(members: seq<Member>): nat
    decreases members, 0
  {
    if members == [] then 0 else Max(Depth(members[0].val), DepthOfMembers(members[1..]))
  }

  /** What is read, if it is not nested too deep. */
  function Within<T>(fits: bool, x: T): Option<T> { if fits then Some(x) else None }

  // ---- the reader undoes the writer ----

  ghost predicate NumbersAreNumbers(j: Json) {
    match j
    case JNumber(token) => IsNumber(token)
    case JArray(items) => forall i :: 0 <= i < |items| ==> NumbersAreNumbers(items[i])
    case JObject(members) => forall i :: 0 <= i < |members| ==> NumbersAreNumbers(members[i].val)
    case _ => true
  }

  /** What may follow a value: not something a number would run on into. */
  predicate Ends(rest: string) { rest == "" || !NumberChar(rest[0]) }

  lemma UnescapeUndoesEscape(c: char, rest: string)
    ensures (EscapeChar(c) == [c] && c != '"' && c != '\\' && c >= ' ') ||
            (EscapeChar(c)[0] == '\\' &&
             Unescape((EscapeChar(c) + rest)[1..]) == Some((c, |EscapeChar(c)| - 1)))
  {
    var e := EscapeChar(c);
    if e != [c] {
      var s := (e + rest)[1..];
      assert s == e[1..] + rest;
      if e[1] == 'u' {
        var hi, lo := c as int / 16, c as int % 16;
        assert s[1..][0] == '0' && s[1..][1] == '0' && s[1..][2] == HEX[hi] && s[1..][3] == HEX[lo];
        assert HexDigit(HEX[hi]) == Some(hi) && HexDigit(HEX[lo]) == Some(lo);
      }
    }
  }

  lemma {:induction false} ReadStringUndoesEscape(s: string, rest: string)
    ensures ReadString(Escape(s) + "\"" + rest) == Some((s, rest))
  {
    if s != "" {
      var e, tail := EscapeChar(s[0]), Escape(s[1..]) + "\"" + rest;
      FirstEscape(e, Escape(s[1..]), "\"", rest);
      UnescapeUndoesEscape(s[0], tail);
      assert (e + tail)[|e|..] == tail;
      ReadStringUndoesEscape(s[1..], rest);
      assert [s[0]] + s[1..] == s;
    } else {
      assert Escape(s) + "\"" + rest == "\"" + rest;
    }
  }

  lemma FirstEscape(a: string, b: string, c: string, d: string)
    ensures (a + b) + c + d == a + (b + c + d)
  {
  }

  lemma ReadQuoted(s: string, rest: string)
    ensures Quote(s) + rest != "" && (Quote(s) + rest)[0] == '"'
    ensures ReadString((Quote(s) + rest)[1..]) == Some((s, rest))
  {
    assert (Quote(s) + rest)[1..] == Escape(s) + "\"" + rest;
    ReadStringUndoesEscape(s, rest);
  }

  lemma {:induction false} SpanStops(t: string, rest: string)
    requires (forall i :: 0 <= i < |t| ==> NumberChar(t[i])) && Ends(rest)
    ensures NumberSpan(t + rest) == |t|
  {
    if t == "" {
      assert t + rest == rest;
    } else {
      assert (t + rest)[1..] == t[1..] + rest;
      SpanStops(t[1..], rest);
    }
  }

  lemma ReadNumber(t: string, rest: string, left: nat)
    requires IsNumber(t) && Ends(rest)
    ensures ReadValue(t + rest, left) == Some((JNumber(t), rest))
  {
    SpanStops(t, rest);
    assert (t + rest)[..|t|] == t && (t + rest)[|t|..] == rest;
    assert (t + rest)[0] == t[0] && NumberChar(t[0]);
    assert t[0] != 'e' && t[0] != 'E' && t[0] != '.';
  }

  lemma FirstOfShown(j: Json)
    requires NumbersAreNumbers(j)
    ensures Show(j) != "" && !JsonSpace(Show(j)[0]) && Show(j)[0] != ']' && Show(j)[0] != '}'
  {
  }

  lemma ReadWord(word: string, j: Json, rest: string, left: nat)
    requires (word, j) in [("null", JNull), ("true", JBool(true)), ("false", JBool(false))]
    ensures ReadValue(word + rest, left) == Some((j, rest))
  {
    assert (word + rest)[0] == word[0];
    assert (word + rest)[|word|..] == rest;
    assert word <= word + rest;
  }

  /** A text between two delimiters, once the first has been read. */
  lemma Peel(open: string, body: string, close: string, rest: string)
    requires |open| == 1
    ensures var t := open + body + close + rest;
            t != "" && t[0] == open[0] && t[1..] == body + (close + rest)
  {
    var t := open + body + close + rest;
    assert t == open + (body + (close + rest));
  }

  lemma FirstOf(a: string, b: string)
    requires a != ""
    ensures a + b != "" && (a + b)[0] == a[0]
  {
  }

  lemma ReadArray(items: seq<Json>, rest: string, left: nat)
    requires left > 0 && forall i :: 0 <= i < |items| ==> NumbersAreNumbers(items[i])
    requires items != [] && left > 1 ==>
               ReadItems(ShowItems(items) + ("]" + rest), left - 1) == Within(DepthOfItems(items) < left - 1, (items, rest))
    ensures ReadValue("[" + ShowItems(items) + "]" + rest, left) == Within(Depth(JArray(items)) < left, (JArray(items), rest))
  {
    Peel("[", ShowItems(items), "]", rest);
    if items != [] {
      FirstOfShown(items[0]);
      FirstOfItems(items);
      FirstOf(ShowItems(items), "]" + rest);
    } else {
      assert "" + ("]" + rest) == "]" + rest;
      assert ("]" + rest)[1..] == rest;
    }
  }

  lemma FirstOfItems(items: seq<Json>)
    requires items != [] && Show(items[0]) != ""
    ensures ShowItems(items) != "" && ShowItems(items)[0] == Show(items[0])[0]
  {
  }

  lemma ReadObject(members: seq<Member>, rest: string, left: nat)
    requires left > 0
    requires members != [] && left > 1 ==>
               ReadMembers(ShowMembers(members) + ("}" + rest), left - 1) == Within(DepthOfMembers(members) < left - 1, (members, rest))
    ensures ReadValue("{" + ShowMembers(members) + "}" + rest, left) ==
            Within(Depth(JObject(members)) < left, (JObject(members), rest))
  {
    Peel("{", ShowMembers(members), "}", rest);
    if members != [] {
      FirstOf(ShowMembers(members), "}" + rest);
    } else {
      assert "" + ("}" + rest) == "}" + rest;
      assert ("}" + rest)[1..] == rest;
    }
  }

  /** One member, whatever follows it; a value that is not read leaves nothing read. */
  lemma ReadMember(m: Member, tail: string, left: nat, fits: bool)
    requires tail != "" && (tail[0] == '}' || tail[0] == ',')
    requires ReadValue(Show(m.val) + tail, left) == Within(fits, (m.val, tail))
    ensures ReadMembers(Quote(m.key) + (":" + (Show(m.val) + tail)), left) ==
            if !fits then None
            else if tail[0] == '}' then Some(([m], tail[1..]))
            else match ReadMembers(tail[1..], left)
                 case Some((more, rest)) => Some(([m] + more, rest))
                 case None => None
  {
    var value := Show(m.val) + tail;
    ReadQuoted(m.key, ":" + value);
    FirstOf(":", value);
    assert (":" + value)[1..] == value;
    ReadAfterKey(Quote(m.key) + (":" + value), m, ":" + value, tail, left, fits);
  }

  /** A member whose key and value are read. */
  lemma ReadAfterKey(s: string, m: Member, afterKey: string, tail: string, left: nat, fits: bool)
    requires s != "" && s[0] == '"' && ReadString(s[1..]) == Some((m.key, afterKey))
    requires afterKey != "" && afterKey[0] == ':' && ReadValue(afterKey[1..], left) == Within(fits, (m.val, tail))
    requires tail != "" && (tail[0] == '}' || tail[0] == ',')
    ensures ReadMembers(s, left) ==
            if !fits then None
            else if tail[0] == '}' then Some(([m], tail[1..]))
            else match ReadMembers(tail[1..], left)
                 case Some((more, rest)) => Some(([m] + more, rest))
                 case None => None
  {
    assert Skip(s) == s && Skip(afterKey) == afterKey && Skip(tail) == tail;
  }

  /** Reading what was written gives it back, for every JSON value that is not nested too deep, and for no other. */
  lemma {:induction false} ReadUndoesShow(j: Json, rest: string, left: nat)
    requires NumbersAreNumbers(j) && Ends(rest) && left > 0
    ensures ReadValue(Show(j) + rest, left) == Within(Depth(j) < left, (j, rest))
    decreases j, 0
  {
    match j
    case JNull => ReadWord("null", j, rest, left);
    case JBool(b) => ReadWord(Show(j), j, rest, left);
    case JNumber(t) => ReadNumber(t, rest, left);
    case JString(s) => ReadQuoted(s, rest);
    case JArray(items) =>
      if items != [] && left > 1 {
        ReadUndoesItems(items, rest, left - 1);
      }
      ReadArray(items, rest, left);
    case JObject(members) =>
      if members != [] && left > 1 {
        ReadUndoesMembers(members, rest, left - 1);
      }
      ReadObject(members, rest, left);
  }

  /** What follows a first item: the close, or a comma and the rest. */
  function AfterItem(items: seq<Json>, rest: string): string
    requires items != []
  {
    if |items| == 1 then "]" + rest else "," + (ShowItems(items[1..]) + ("]" + rest))
  }

  lemma ShownFirstItem(items: seq<Json>, rest: string)
    requires items != []
    ensures ShowItems(items) + ("]" + rest) == Show(items[0]) + AfterItem(items, rest)
  {
    if |items| > 1 {
      Regrouped(Show(items[0]), ",", ShowItems(items[1..]), "]" + rest);
    }
  }

  lemma {:induction false} ReadUndoesItems(items: seq<Json>, rest: string, left: nat)
    requires items != [] && left > 0 && forall i :: 0 <= i < |items| ==> NumbersAreNumbers(items[i])
    ensures ReadItems(ShowItems(items) + ("]" + rest), left) == Within(DepthOfItems(items) < left, (items, rest))
    decreases items, 1
  {
    ReadUndoesShow(items[0], AfterItem(items, rest), left);
    FirstItemRead(items, rest, left);
    if |items| > 1 {
      ReadUndoesItems(items[1..], rest, left);
      assert items == [items[0]] + items[1..];
    }
  }

  /** Reading the items is reading the first of them, then the rest. */
  lemma FirstItemRead(items: seq<Json>, rest: string, left: nat)
    requires items != []
    requires ReadValue(Show(items[0]) + AfterItem(items, rest), left) == Within(Depth(items[0]) < left, (items[0], AfterItem(items, rest)))
    ensures ReadItems(ShowItems(items) + ("]" + rest), left) ==
            if Depth(items[0]) >= left then None
            else if |items| == 1 then Some((items, rest))
            else match ReadItems(ShowItems(items[1..]) + ("]" + rest), left)
                 case Some((more, after)) => Some(([items[0]] + more, after))
                 case None => None
  {
    var tail := AfterItem(items, rest);
    ShownFirstItem(items, rest);
    assert tail[1..] == if |items| == 1 then rest else ShowItems(items[1..]) + ("]" + rest);
    if |items| == 1 {
      assert items == [items[0]];
    }
  }

  /** What follows a first member: the close, or a comma and the rest. */
  function AfterFirst(members: seq<Member>, rest: string): string
    requires members != []
  {
    if |members| == 1 then "}" + rest else "," + (ShowMembers(members[1..]) + ("}" + rest))
  }

  lemma ShownFirst(members: seq<Member>, rest: string)
    requires members != []
    ensures ShowMembers(members) + ("}" + rest) ==
            Quote(members[0].key) + (":" + (Show(members[0].val) + AfterFirst(members, rest)))
  {
    var key, value := Quote(members[0].key), Show(members[0].val);
    if |members| == 1 {
      Regrouped(key, ":", value, "}" + rest);
    } else {
      Regrouped6(key, ":", value, ",", ShowMembers(members[1..]), "}" + rest);
    }
  }

  lemma Regrouped6(a: string, b: string, c: string, d: string, e: string, f: string)
    ensures a + b + c + d + e + f == a + (b + (c + (d + (e + f))))
  {
  }

  lemma Regrouped(a: string, b: string, c: string, d: string)
    ensures a + b + c + d == a + (b + (c + d))
  {
  }

  lemma {:induction false} ReadUndoesMembers(members: seq<Member>, rest: string, left: nat)
    requires members != [] && left > 0 && forall i :: 0 <= i < |members| ==> NumbersAreNumbers(members[i].val)
    ensures ReadMembers(ShowMembers(members) + ("}" + rest), left) == Within(DepthOfMembers(members) < left, (members, rest))
    decreases members, 1
  {
    ReadUndoesShow(members[0].val, AfterFirst(members, rest), left);
    FirstMemberRead(members, rest, left);
    if |members| > 1 {
      ReadUndoesMembers(members[1..], rest, left);
      assert members == [members[0]] + members[1..];
    }
  }

  /** Reading the members is reading the first of them, then the rest. */
  lemma FirstMemberRead(members: seq<Member>, rest: string, left: nat)
    requires members != []
    requires ReadValue(Show(members[0].val) + AfterFirst(members, rest), left) ==
             Within(Depth(members[0].val) < left, (members[0].val, AfterFirst(members, rest)))
    ensures ReadMembers(ShowMembers(members) + ("}" + rest), left) ==
            if Depth(members[0].val) >= left then None
            else if |members| == 1 then Some((members, rest))
            else match ReadMembers(ShowMembers(members[1..]) + ("}" + rest), left)
                 case Some((more, after)) => Some(([members[0]] + more, after))
                 case None => None
  {
    ShownFirst(members, rest);
    AfterFirstIs(members, rest);
    ReadMember(members[0], AfterFirst(members, rest), left, Depth(members[0].val) < left);
    if |members| == 1 {
      assert members == [members[0]];
    }
  }

  lemma AfterFirstIs(members: seq<Member>, rest: string)
    requires members != []
    ensures var tail := AfterFirst(members, rest);
            && tail != "" && tail[0] == (if |members| == 1 then '}' else ',')
            && tail[1..] == if |members| == 1 then rest else ShowMembers(members[1..]) + ("}" + rest)
  {
  }

  /** A document is read back exactly when nothing in it is in more than 127 arrays and objects. */
  lemma ReadDocumentUndoesShow(j: Json)
    requires NumbersAreNumbers(j)
    ensures ReadDocument(Show(j)) == Within(Depth(j) <= 127, j)
  {
    ReadUndoesShow(j, "", LEVELS);
    assert Show(j) + "" == Show(j);
  }

  // ---- json_string: the escapes as the code applies them ----

  /** gsub(fixed = TRUE) of a single character. */
  function Replace(s: string, c: char, with: string): string {
    if s == "" then "" else (if s[0] == c then with else [s[0]]) + Replace(s[1..], c, with)
  }

  /** The escape with only some characters' turn come. */
  function EscapeSome(s: string, done: set<char>): string {
    if s == "" then "" else (if s[0] in done then EscapeChar(s[0]) else [s[0]]) + EscapeSome(s[1..], done)
  }

  lemma {:induction false} ReplaceConcat(a: string, b: string, c: char, with: string)
    ensures Replace(a + b, c, with) == Replace(a, c, with) + Replace(b, c, with)
  {
    if a == "" {
      assert a + b == b;
    } else {
      assert (a + b)[1..] == a[1..] + b;
      ReplaceConcat(a[1..], b, c, with);
    }
  }

  lemma {:induction false} ReplaceAbsent(s: string, c: char, with: string)
    requires c !in s
    ensures Replace(s, c, with) == s
  {
    if s != "" {
      ReplaceAbsent(s[1..], c, with);
    }
  }

  /** One more substitution escapes one more character, if no earlier escape wrote that character. */
  lemma {:induction false} ReplaceEscapesOneMore(s: string, done: set<char>, c: char)
    requires c !in done && forall d :: d in done ==> c !in EscapeChar(d)
    ensures Replace(EscapeSome(s, done), c, EscapeChar(c)) == EscapeSome(s, done + {c})
  {
    if s != "" {
      var head := if s[0] in done then EscapeChar(s[0]) else [s[0]];
      ReplaceConcat(head, EscapeSome(s[1..], done), c, EscapeChar(c));
      ReplaceEscapesOneMore(s[1..], done, c);
      if c !in head {
        ReplaceAbsent(head, c, EscapeChar(c));
      } else {
        assert head == [c];
        assert Replace([c], c, EscapeChar(c)) == EscapeChar(c) + Replace("", c, EscapeChar(c));
      }
    }
  }

  lemma {:induction false} EscapeSomeIsEscape(s: string, done: set<char>)
    requires forall i :: 0 <= i < |s| ==> s[i] !in done ==> EscapeChar(s[i]) == [s[i]]
    ensures EscapeSome(s, done) == Escape(s)
  {
    if s != "" {
      EscapeSomeIsEscape(s[1..], done);
    }
  }

  lemma EscapesArePrintable(d: char)
    requires d == '\\' || d == '"' || d < ' '
    ensures forall c :: c in EscapeChar(d) ==> c >= ' '
    ensures d == '\\' ==> '"' !in EscapeChar(d)
  {
  }

  predicate Named(c: char) {
    c == '\\' || c == '"' || c == '\U{8}' || c == '\U{C}' || c == '\n' || c == '\r' || c == '\t'
  }

  /** The substitutions of the characters with a form of their own, in the order they are made. */
  method SubstituteNamed(s: string) returns (x: string, ghost done: set<char>)
    ensures x == EscapeSome(s, done) && forall c :: c in done <==> Named(c)
  {
    EscapeNone(s);
    x, done := Substitute(s, s, {}, '\\');
    x, done := Substitute(s, x, done, '"');
    x, done := Substitute(s, x, done, '\U{8}');
    x, done := Substitute(s, x, done, '\U{C}');
    x, done := Substitute(s, x, done, '\n');
    x, done := Substitute(s, x, done, '\r');
    x, done := Substitute(s, x, done, '\t');
  }

  /**
   The writer's string escape, as a sequence of substitutions over the whole
   text: the named ones, then every other control character that occurs. An R
   string holds no NUL.
   */
  method JsonString(s: string) returns (r: string)
    requires '\0' !in s
    ensures r == Quote(s)
  {
    var x;
    ghost var done;
    x, done := SubstituteNamed(s);
    for cp := 1 to 32
      invariant x == EscapeSome(s, done)
      invariant forall c :: c in done <==> Named(c) || 0 < c as int < cp
    {
      var c := cp as char;
      if !Named(c) {
        x, done := SubstituteIfThere(s, x, done, c);
      }
    }
    forall i | 0 <= i < |s| && s[i] !in done
      ensures EscapeChar(s[i]) == [s[i]]
    {
      assert s[i] in s;
    }
    EscapeSomeIsEscape(s, done);
    return "\"" + x + "\"";
  }

  lemma {:induction false} EscapeNone(s: string)
    ensures EscapeSome(s, {}) == s
  {
    if s != "" {
      EscapeNone(s[1..]);
    }
  }

  /** The escapes made so far leave a character alone: a control character, or the quote right after the backslash. */
  predicate ComesAfter(done: set<char>, c: char) {
    && (forall d :: d in done ==> d == '\\' || d == '"' || d < ' ')
    && c !in done && (c < ' ' || done == {} || (c == '"' && done == {'\\'}))
  }

  lemma EscapesLeaveAlone(done: set<char>, c: char)
    requires ComesAfter(done, c)
    ensures forall d :: d in done ==> c !in EscapeChar(d)
  {
    forall d | d in done {
      EscapesArePrintable(d);
    }
  }

  method SubstituteIfThere(ghost s: string, x: string, ghost done: set<char>, c: char) returns (r: string, ghost now: set<char>)
    requires x == EscapeSome(s, done) && ComesAfter(done, c)
    ensures now == done + {c} && r == EscapeSome(s, now)
  {
    if c in x {
      r, now := Substitute(s, x, done, c);
    } else {
      ReplaceAbsent(x, c, EscapeChar(c));
      EscapesLeaveAlone(done, c);
      ReplaceEscapesOneMore(s, done, c);
      return x, done + {c};
    }
  }

  method Substitute(ghost s: string, x: string, ghost done: set<char>, c: char) returns (r: string, ghost now: set<char>)
    requires x == EscapeSome(s, done) && ComesAfter(done, c)
    ensures now == done + {c} && r == EscapeSome(s, now)
  {
    EscapesLeaveAlone(done, c);
    ReplaceEscapesOneMore(s, done, c);
    return Replace(x, c, EscapeChar(c)), done + {c};
  }
}
