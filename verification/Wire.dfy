/**
 The filter tree on the wire: written as JSON by the R side, from R scalars, and
 read back on the Rust side with JSON values at its leaves.
 */
module Wire {
  import opened Outcomes
  import opened Values
  import opened FilterTree
  import opened DecimalText
  import opened JsonText

  // ---- R scalars ----

  /** A length-one R value, classed as json_scalar tells them apart. */
  datatype Scalar =
    | NotAvailable | NotANumber | Infinite
    | Logical(b: bool)
    | Numeric(token: string)      // finite; the token format() writes for it
    | Character(s: string)
    | Factor(level: string)
    | Integer64(digits: string)
    | Date(days: real)            // days since the epoch, a part of one allowed
    | Instant(seconds: real)      // POSIXct: seconds since the epoch
    | OtherClass

  /** How format() writes a day, and a whole second, counted from the epoch. */
  datatype Calendar = Calendar(day: int -> string, second: int -> string)

  datatype WriteError = ComparedWithNaN | ComparedWithNA | ComparedWithInfinity | ClassNotSupported

  /** round() to a whole number, ties to even. */
  function RoundHalfEven(x: real): int {
    var f := x.Floor;
    var d := x - f as real;
    if d < 0.5 then f else if d > 0.5 then f + 1 else if f % 2 == 0 then f else f + 1
  }

  /** A number in as many digits, zeros in front. */
  function Padded(n: nat, k: nat): (s: string)
    requires n < Pow10(k)
    ensures |s| == k && Digits(s) && Natural(s) == n
  {
    if k == 0 then ""
    else
      var s := Padded(n / 10, k - 1) + [DigitChar(n % 10)];
      assert s[..k - 1] == Padded(n / 10, k - 1);
      s
  }

  lemma SixDigits()
    ensures Pow10(6) == 1000000
  {
    assert Pow10(2) == 100 && Pow10(4) == 100 * Pow10(2);
  }

  function Micros(seconds: real): int { RoundHalfEven(seconds * 1000000.0) }

  /** An instant as ISO-8601 in UTC; to the microsecond. */
  function IsoUtc(seconds: real, calendar: Calendar): string {
    var micros := Micros(seconds);
    var whole := micros / 1000000;
    SixDigits();
    calendar.second(whole) + "." + Padded(micros - whole * 1000000, 6) + "Z"
  }

  lemma RoundsToNearest(x: real)
    ensures -0.5 <= x - RoundHalfEven(x) as real <= 0.5
    ensures x - RoundHalfEven(x) as real == 0.5 || x - RoundHalfEven(x) as real == -0.5 ==> RoundHalfEven(x) % 2 == 0
  {
  }

  lemma IsoUtcSpells(seconds: real, calendar: Calendar)
    ensures exists whole: int, frac: string :: Writes(IsoUtc(seconds, calendar), whole, frac, Micros(seconds), calendar)
  {
    var m := Micros(seconds);
    var whole := m / 1000000;
    SixDigits();
    assert Writes(IsoUtc(seconds, calendar), whole, Padded(m - whole * 1000000, 6), m, calendar);
  }

  /** A whole second, and six digits that count microseconds from it. */
  ghost predicate Writes(text: string, whole: int, frac: string, m: int, calendar: Calendar) {
    && text == calendar.second(whole) + "." + frac + "Z"
    && |frac| == 6 && Digits(frac) && 0 <= Natural(frac) <= 999999 && m == whole * 1000000 + Natural(frac)
  }

  /**
   What is sent is the nearest microsecond, the even one of two as near, as a whole second and six digits
   that count forwards from it, before the epoch as after.
   */
  lemma IsoUtcIsNearest(seconds: real, calendar: Calendar)
    ensures var m := Micros(seconds);
            && -0.5 <= seconds * 1000000.0 - m as real <= 0.5
            && (seconds * 1000000.0 - m as real == 0.5 || seconds * 1000000.0 - m as real == -0.5 ==> m % 2 == 0)
            && exists whole: int, frac: string :: Writes(IsoUtc(seconds, calendar), whole, frac, m, calendar)
  {
    RoundsToNearest(seconds * 1000000.0);
    IsoUtcSpells(seconds, calendar);
  }

  /** The JSON value a scalar is sent as. */
  function ToJson(v: Scalar, calendar: Calendar): (r: Result<Json, WriteError>)
    ensures r.Ok? ==> r.value.JBool? || r.value.JNumber? || r.value.JString?
  {
    match v
    case NotANumber => Err(ComparedWithNaN)
    case NotAvailable => Err(ComparedWithNA)
    case Infinite => Err(ComparedWithInfinity)
    case Date(days) => Ok(JString(calendar.day(days.Floor)))
    case Instant(seconds) => Ok(JString(IsoUtc(seconds, calendar)))
    case Integer64(digits) => Ok(JString(digits))
    case Factor(level) => Ok(JString(level))
    case Logical(b) => Ok(JBool(b))
    case Character(s) => Ok(JString(s))
    case Numeric(token) => Ok(JNumber(token))
    case OtherClass => Err(ClassNotSupported)
  }

  function ScalarText(v: Scalar, calendar: Calendar): Result<string, WriteError> {
    match v
    case NotANumber => Err(ComparedWithNaN)
    case NotAvailable => Err(ComparedWithNA)
    case Infinite => Err(ComparedWithInfinity)
    case Date(days) => Ok(Quote(calendar.day(days.Floor)))
    case Instant(seconds) => Ok(Quote(IsoUtc(seconds, calendar)))
    case Integer64(digits) => Ok(Quote(digits))
    case Factor(level) => Ok(Quote(level))
    case Logical(b) => Ok(if b then "true" else "false")
    case Character(s) => Ok(Quote(s))
    case Numeric(token) => Ok(token)
    case OtherClass => Err(ClassNotSupported)
  }

  // ---- operator names ----

  datatype Op =
    | OpAnd | OpOr | OpNot | OpTrue | OpFalse | OpCompare(cmp: Cmp) | OpStartsWith | OpNotStartsWith
    | OpIsNull | OpIsNotNull | OpIsNan | OpIsNotNan | OpIn | OpNotIn

  function CmpName(c: Cmp): string {
    match c
    case Eq => "eq"
    case Ne => "ne"
    case Lt => "lt"
    case Lte => "lte"
    case Gt => "gt"
    case Gte => "gte"
  }

  function OpName(op: Op): string {
    match op
    case OpAnd => "and"
    case OpOr => "or"
    case OpNot => "not"
    case OpTrue => "always_true"
    case OpFalse => "always_false"
    case OpCompare(c) => CmpName(c)
    case OpStartsWith => "starts_with"
    case OpNotStartsWith => "not_starts_with"
    case OpIsNull => "is_null"
    case OpIsNotNull => "is_not_null"
    case OpIsNan => "is_nan"
    case OpIsNotNan => "is_not_nan"
    case OpIn => "in"
    case OpNotIn => "not_in"
  }

  function OpNamed(name: string): Option<Op> {
    match name
    case "and" => Some(OpAnd)
    case "or" => Some(OpOr)
    case "not" => Some(OpNot)
    case "always_true" => Some(OpTrue)
    case "always_false" => Some(OpFalse)
    case "eq" => Some(OpCompare(Eq))
    case "ne" => Some(OpCompare(Ne))
    case "lt" => Some(OpCompare(Lt))
    case "lte" => Some(OpCompare(Lte))
    case "gt" => Some(OpCompare(Gt))
    case "gte" => Some(OpCompare(Gte))
    case "starts_with" => Some(OpStartsWith)
    case "not_starts_with" => Some(OpNotStartsWith)
    case "is_null" => Some(OpIsNull)
    case "is_not_null" => Some(OpIsNotNull)
    case "is_nan" => Some(OpIsNan)
    case "is_not_nan" => Some(OpIsNotNan)
    case "in" => Some(OpIn)
    case "not_in" => Some(OpNotIn)
    case _ => None
  }

  lemma OpNamesAreDistinct(op: Op)
    ensures OpNamed(OpName(op)) == Some(op)
  {
  }

  function OpOf<V>(n: Node<V>): Op {
    match n
    case And(_) => OpAnd
    case Or(_) => OpOr
    case Not(_) => OpNot
    case Always(holds) => if holds then OpTrue else OpFalse
    case Compare(c, _, _) => OpCompare(c)
    case StartsWith(_, _) => OpStartsWith
    case NotStartsWith(_, _) => OpNotStartsWith
    case IsNull(_) => OpIsNull
    case IsNotNull(_) => OpIsNotNull
    case IsNan(_) => OpIsNan
    case IsNotNan(_) => OpIsNotNan
    case In(_, _) => OpIn
    case NotIn(_, _) => OpNotIn
  }

  // ---- R: filter_to_json ----

  function Join(parts: seq<string>): string {
    if parts == [] then "" else if |parts| == 1 then parts[0] else parts[0] + "," + Join(parts[1..])
  }

  function FilterToJson(n: Node<Scalar>, calendar: Calendar): Result<string, WriteError>
    decreases n, 1
  {
    var op := "{\"op\":" + Quote(OpName(OpOf(n)));
    match n
    case Always(_) => Ok(op + "}")
    case And(args) =>
      var texts :- AllToJson(args, calendar);
      Ok(op + ",\"args\":[" + Join(texts) + "]}")
    case Or(args) =>
      var texts :- AllToJson(args, calendar);
      Ok(op + ",\"args\":[" + Join(texts) + "]}")
    case Not(arg) =>
      var text :- FilterToJson(arg, calendar);
      Ok(op + ",\"arg\":" + text + "}")
    case IsNull(col) => Ok(op + ",\"col\":" + Quote(col) + "}")
    case IsNotNull(col) => Ok(op + ",\"col\":" + Quote(col) + "}")
    case IsNan(col) => Ok(op + ",\"col\":" + Quote(col) + "}")
    case IsNotNan(col) => Ok(op + ",\"col\":" + Quote(col) + "}")
    case In(col, values) =>
      var texts :- ScalarTexts(values, calendar);
      Ok(op + ",\"col\":" + Quote(col) + ",\"values\":[" + Join(texts) + "]}")
    case NotIn(col, values) =>
      var texts :- ScalarTexts(values, calendar);
      Ok(op + ",\"col\":" + Quote(col) + ",\"values\":[" + Join(texts) + "]}")
    case _ =>
      var text :- ScalarText(n.value, calendar);
      Ok(op + ",\"col\":" + Quote(n.col) + ",\"value\":" + text + "}")
  }

  function AllToJson(args: seq<Node<Scalar>>, calendar: Calendar): (r: Result<seq<string>, WriteError>)
    ensures r.Ok? ==> |r.value| == |args|
    decreases args, 0
  {
    if args == [] then Ok([])
    else
      var text :- FilterToJson(args[0], calendar);
      var rest :- AllToJson(args[1..], calendar);
      Ok([text] + rest)
  }

  function ScalarTexts(values: seq<Scalar>, calendar: Calendar): (r: Result<seq<string>, WriteError>)
    ensures r.Ok? ==> |r.value| == |values|
  {
    if values == [] then Ok([])
    else
      var text :- ScalarText(values[0], calendar);
      var rest :- ScalarTexts(values[1..], calendar);
      Ok([text] + rest)
  }

  // ---- Rust: the tagged enum ----

  function Occurrences(members: seq<Member>, key: string): nat {
    if members == [] then 0 else (if members[0].key == key then 1 else 0) + Occurrences(members[1..], key)
  }

  /** The one member of this name; a missing or a repeated one is an error. */
  function Find(members: seq<Member>, key: string): (i: Option<nat>)
    ensures i.Some? ==> i.value < |members| && members[i.value].key == key
  {
    if Occurrences(members, key) == 1 then Some(First(members, key)) else None
  }

  function First(members: seq<Member>, key: string): (i: nat)
    requires Occurrences(members, key) > 0
    ensures i < |members| && members[i].key == key
  {
    if members[0].key == key then 0 else 1 + First(members[1..], key)
  }

  function StringMember(members: seq<Member>, key: string): Option<string> {
    var i :- Find(members, key);
    match members[i].val
    case JString(s) => Some(s)
    case _ => None
  }

  function FromJson(j: Json): Option<Node<Json>>
    decreases j, 1
  {
    if !j.JObject? then None
    else
      var name :- StringMember(j.members, "op");
      var op :- OpNamed(name);
      match op
      case OpTrue => Some(Always(true))
      case OpFalse => Some(Always(false))
      case OpAnd =>
        var i :- Find(j.members, "args");
        if !j.members[i].val.JArray? then None
        else
          var args :- AllFromJson(j.members[i].val.items);
          Some(And(args))
      case OpOr =>
        var i :- Find(j.members, "args");
        if !j.members[i].val.JArray? then None
        else
          var args :- AllFromJson(j.members[i].val.items);
          Some(Or(args))
      case OpNot =>
        var i :- Find(j.members, "arg");
        var arg :- FromJson(j.members[i].val);
        Some(Not(arg))
      case _ =>
        var col :- StringMember(j.members, "col");
        LeafFromJson(op, col, j.members)
  }

  function LeafFromJson(op: Op, col: string, members: seq<Member>): Option<Node<Json>>
    requires !op.OpAnd? && !op.OpOr? && !op.OpNot? && !op.OpTrue? && !op.OpFalse?
  {
    match op
    case OpIsNull => Some(IsNull(col))
    case OpIsNotNull => Some(IsNotNull(col))
    case OpIsNan => Some(IsNan(col))
    case OpIsNotNan => Some(IsNotNan(col))
    case OpIn =>
      var i :- Find(members, "values");
      if members[i].val.JArray? then Some(In(col, members[i].val.items)) else None
    case OpNotIn =>
      var i :- Find(members, "values");
      if members[i].val.JArray? then Some(NotIn(col, members[i].val.items)) else None
    case OpStartsWith =>
      var i :- Find(members, "value");
      Some(StartsWith(col, members[i].val))
    case OpNotStartsWith =>
      var i :- Find(members, "value");
      Some(NotStartsWith(col, members[i].val))
    case OpCompare(c) =>
      var i :- Find(members, "value");
      Some(Compare(c, col, members[i].val))
  }

  function AllFromJson(items: seq<Json>): (r: Option<seq<Node<Json>>>)
    decreases items, 0
  {
    if items == [] then Some([])
    else
      var n :- FromJson(items[0]);
      var rest :- AllFromJson(items[1..]);
      Some([n] + rest)
  }

  function ReadFilter(text: string): Option<Node<Json>> {
    var j :- ReadDocument(text);
    FromJson(j)
  }

  // ---- what the R tree means on the Rust side ----

  /** The same tree with its scalars as JSON values. */
  function Sent(n: Node<Scalar>, calendar: Calendar): Result<Node<Json>, WriteError>
    decreases n, 1
  {
    match n
    case Always(holds) => Ok(Always(holds))
    case And(args) =>
      var a :- AllSent(args, calendar);
      Ok(And(a))
    case Or(args) =>
      var a :- AllSent(args, calendar);
      Ok(Or(a))
    case Not(arg) =>
      var a :- Sent(arg, calendar);
      Ok(Not(a))
    case IsNull(col) => Ok(IsNull(col))
    case IsNotNull(col) => Ok(IsNotNull(col))
    case IsNan(col) => Ok(IsNan(col))
    case IsNotNan(col) => Ok(IsNotNan(col))
    case In(col, values) =>
      var js :- ToJsons(values, calendar);
      Ok(In(col, js))
    case NotIn(col, values) =>
      var js :- ToJsons(values, calendar);
      Ok(NotIn(col, js))
    case Compare(op, col, value) =>
      var j :- ToJson(value, calendar);
      Ok(Compare(op, col, j))
    case StartsWith(col, value) =>
      var j :- ToJson(value, calendar);
      Ok(StartsWith(col, j))
    case NotStartsWith(col, value) =>
      var j :- ToJson(value, calendar);
      Ok(NotStartsWith(col, j))
  }

  function AllSent(args: seq<Node<Scalar>>, calendar: Calendar): (r: Result<seq<Node<Json>>, WriteError>)
    ensures r.Ok? ==> |r.value| == |args|
    decreases args, 0
  {
    if args == [] then Ok([])
    else
      var n :- Sent(args[0], calendar);
      var rest :- AllSent(args[1..], calendar);
      Ok([n] + rest)
  }

  function ToJsons(values: seq<Scalar>, calendar: Calendar): (r: Result<seq<Json>, WriteError>)
    ensures r.Ok? ==> |r.value| == |values|
    ensures r.Ok? ==> forall i :: 0 <= i < |values| ==> ToJson(values[i], calendar) == Ok(r.value[i])
  {
    if values == [] then Ok([])
    else
      var j :- ToJson(values[0], calendar);
      var rest :- ToJsons(values[1..], calendar);
      Ok([j] + rest)
  }

  // ---- printer and reader are inverse ----

  /** The object a tree is written as. */
  function ToObject(n: Node<Json>): Json
    decreases n, 1
  {
    var op := Member("op", JString(OpName(OpOf(n))));
    match n
    case Always(_) => JObject([op])
    case And(args) => JObject([op, Member("args", JArray(AllToObjects(args)))])
    case Or(args) => JObject([op, Member("args", JArray(AllToObjects(args)))])
    case Not(arg) => JObject([op, Member("arg", ToObject(arg))])
    case IsNull(col) => JObject([op, Member("col", JString(col))])
    case IsNotNull(col) => JObject([op, Member("col", JString(col))])
    case IsNan(col) => JObject([op, Member("col", JString(col))])
    case IsNotNan(col) => JObject([op, Member("col", JString(col))])
    case In(col, values) => JObject([op, Member("col", JString(col)), Member("values", JArray(values))])
    case NotIn(col, values) => JObject([op, Member("col", JString(col)), Member("values", JArray(values))])
    case _ => JObject([op, Member("col", JString(n.col)), Member("value", n.value)])
  }

  function AllToObjects(args: seq<Node<Json>>): (js: seq<Json>)
    ensures |js| == |args|
    ensures forall i :: 0 <= i < |args| ==> js[i] == ToObject(args[i])
    decreases args, 0
  {
    if args == [] then [] else [ToObject(args[0])] + AllToObjects(args[1..])
  }

  /** In a written tree every member is found under its own name, and the operator is read back. */
  lemma WrittenMembers(n: Node<Json>)
    ensures var ms := ToObject(n).members;
            && (forall i :: 0 <= i < |ms| ==> Find(ms, ms[i].key) == Some(i))
            && ms[0].key == "op" && StringMember(ms, "op") == Some(OpName(OpOf(n)))
            && OpNamed(OpName(OpOf(n))) == Some(OpOf(n))
  {
    OpNamesAreDistinct(OpOf(n));
    var ms := ToObject(n).members;
    for i := 0 to |ms|
      invariant forall k :: 0 <= k < i ==> Find(ms, ms[k].key) == Some(k)
    {
      FindsOnly(ms, i);
    }
    assert Find(ms, ms[0].key) == Some(0);
  }

  lemma LeafIsReadBack(n: Node<Json>)
    requires !n.And? && !n.Or? && !n.Not? && !n.Always?
    ensures FromJson(ToObject(n)) == Some(n)
  {
    WrittenMembers(n);
    var ms := ToObject(n).members;
    assert Find(ms, ms[1].key) == Some(1);
    assert |ms| == 3 ==> Find(ms, ms[2].key) == Some(2);
  }

  lemma {:induction false} FromJsonUndoesToObject(n: Node<Json>)
    ensures FromJson(ToObject(n)) == Some(n)
    decreases n, 1
  {
    WrittenMembers(n);
    var ms := ToObject(n).members;
    match n
    case Always(_) =>
    case And(args) =>
      assert Find(ms, ms[1].key) == Some(1);
      AllFromJsonUndoes(args);
    case Or(args) =>
      assert Find(ms, ms[1].key) == Some(1);
      AllFromJsonUndoes(args);
    case Not(arg) =>
      assert Find(ms, ms[1].key) == Some(1);
      FromJsonUndoesToObject(arg);
    case _ =>
      LeafIsReadBack(n);
  }

  /** A key no other member has is found where it is. */
  lemma {:induction false} FindsOnly(members: seq<Member>, i: nat)
    requires i < |members|
    requires forall j :: 0 <= j < |members| && j != i ==> members[j].key != members[i].key
    ensures Find(members, members[i].key) == Some(i)
  {
    if i == 0 {
      FindsNone(members[1..], members[0].key);
    } else {
      FindsOnly(members[1..], i - 1);
    }
  }

  lemma {:induction false} FindsNone(members: seq<Member>, key: string)
    requires forall j :: 0 <= j < |members| ==> members[j].key != key
    ensures Occurrences(members, key) == 0
  {
    if members != [] {
      FindsNone(members[1..], key);
    }
  }

  lemma {:induction false} AllFromJsonUndoes(args: seq<Node<Json>>)
    ensures AllFromJson(AllToObjects(args)) == Some(args)
    decreases args, 0
  {
    if args != [] {
      FromJsonUndoesToObject(args[0]);
      AllFromJsonUndoes(args[1..]);
      assert AllToObjects(args)[1..] == AllToObjects(args[1..]);
      assert args == [args[0]] + args[1..];
    }
  }

  predicate Plain(s: string) { forall i :: 0 <= i < |s| ==> 'a' <= s[i] <= 'z' || s[i] == '_' }

  lemma {:induction false} QuoteOfPlain(s: string)
    requires Plain(s)
    ensures Escape(s) == s && Quote(s) == "\"" + s + "\""
  {
    if s != "" {
      QuoteOfPlain(s[1..]);
      assert s == [s[0]] + s[1..];
    }
  }

  lemma QuotedKey(key: string, quoted: string)
    requires Plain(key) && quoted == "\"" + key + "\""
    ensures Quote(key) == quoted
  {
    QuoteOfPlain(key);
  }

  /** The pieces of an object of one, two or three members, run together. */
  function Glue1(k: string, v: string): string { "{" + k + ":" + v + "}" }

  function Glue2(k: string, v: string, k': string, v': string): string {
    "{" + k + ":" + v + "," + k' + ":" + v' + "}"
  }

  function Glue3(k: string, v: string, k': string, v': string, k'': string, v'': string): string {
    "{" + k + ":" + v + "," + k' + ":" + v' + "," + k'' + ":" + v'' + "}"
  }

  lemma Regroup2(k: string, v: string, k': string, v': string)
    ensures "{" + (k + ":" + v + "," + (k' + ":" + v')) + "}" == Glue2(k, v, k', v')
  {
  }

  lemma Regroup3(k: string, v: string, k': string, v': string, k'': string, v'': string)
    ensures "{" + (k + ":" + v + "," + (k' + ":" + v' + "," + (k'' + ":" + v''))) + "}" == Glue3(k, v, k', v', k'', v'')
  {
  }

  lemma ShowOne(a: Member)
    ensures Show(JObject([a])) == Glue1(Quote(a.key), Show(a.val))
  {
    assert ShowMembers([a]) == Quote(a.key) + ":" + Show(a.val);
  }

  lemma ShowTwo(a: Member, b: Member)
    ensures Show(JObject([a, b])) == Glue2(Quote(a.key), Show(a.val), Quote(b.key), Show(b.val))
  {
    var ms := [a, b];
    assert ms[1..] == [b];
    assert ShowMembers(ms) == Quote(a.key) + ":" + Show(a.val) + "," + ShowMembers(ms[1..]);
    Regroup2(Quote(a.key), Show(a.val), Quote(b.key), Show(b.val));
  }

  lemma ShowThree(a: Member, b: Member, c: Member)
    ensures Show(JObject([a, b, c])) ==
            Glue3(Quote(a.key), Show(a.val), Quote(b.key), Show(b.val), Quote(c.key), Show(c.val))
  {
    var ms := [a, b, c];
    assert ms[1..] == [b, c] && ms[1..][1..] == [c];
    assert ShowMembers(ms[1..]) == Quote(b.key) + ":" + Show(b.val) + "," + ShowMembers(ms[1..][1..]);
    assert ShowMembers(ms) == Quote(a.key) + ":" + Show(a.val) + "," + ShowMembers(ms[1..]);
    Regroup3(Quote(a.key), Show(a.val), Quote(b.key), Show(b.val), Quote(c.key), Show(c.val));
  }

  lemma Pieces2(p: string, v: string, p': string, v': string, k: string, k': string)
    requires p == "{" + k + ":" && p' == "," + k' + ":"
    ensures p + v + p' + v' + "}" == Glue2(k, v, k', v')
  {
  }

  lemma Pieces3(p: string, v: string, p': string, v': string, p'': string, v'': string, k: string, k': string, k'': string)
    requires p == "{" + k + ":" && p' == "," + k' + ":" && p'' == "," + k'' + ":"
    ensures p + v + p' + v' + p'' + v'' + "}" == Glue3(k, v, k', v', k'', v'')
  {
  }

  lemma Bracketed(head: string, open: string, key: string, items: string)
    requires open == key + "["
    ensures head + open + items + "]}" == head + key + ("[" + items + "]") + "}"
  {
  }

  /** Every number in the tree is written as a JSON number; R's format() sees to that. */
  ghost predicate Formatted(n: Node<Scalar>) {
    match n
    case And(args) => forall i :: 0 <= i < |args| ==> Formatted(args[i])
    case Or(args) => forall i :: 0 <= i < |args| ==> Formatted(args[i])
    case Not(arg) => Formatted(arg)
    case Compare(_, _, v) => FormattedScalar(v)
    case StartsWith(_, v) => FormattedScalar(v)
    case NotStartsWith(_, v) => FormattedScalar(v)
    case In(_, vs) => forall v :: v in vs ==> FormattedScalar(v)
    case NotIn(_, vs) => forall v :: v in vs ==> FormattedScalar(v)
    case _ => true
  }

  predicate FormattedScalar(v: Scalar) { v.Numeric? ==> IsNumber(v.token) }

  /** Writing agrees with showing what is sent, errors included. */
  ghost predicate Agrees(text: Result<string, WriteError>, sent: Result<Node<Json>, WriteError>) {
    match sent
    case Ok(n) => text == Ok(Show(ToObject(n))) && NumbersAreNumbers(ToObject(n))
    case Err(e) => text == Err(e)
  }

  lemma ScalarTextAgrees(v: Scalar, calendar: Calendar)
    requires FormattedScalar(v)
    ensures match ToJson(v, calendar)
            case Ok(j) => ScalarText(v, calendar) == Ok(Show(j)) && NumbersAreNumbers(j)
            case Err(e) => ScalarText(v, calendar) == Err(e)
  {
  }

  lemma {:induction false} ScalarTextsAgree(values: seq<Scalar>, calendar: Calendar)
    requires forall v :: v in values ==> FormattedScalar(v)
    ensures match ToJsons(values, calendar)
            case Ok(js) =>
              && ScalarTexts(values, calendar).Ok?
              && Join(ScalarTexts(values, calendar).value) == ShowItems(js)
              && (forall i :: 0 <= i < |js| ==> NumbersAreNumbers(js[i]))
            case Err(e) => ScalarTexts(values, calendar) == Err(e)
  {
    if values != [] {
      assert values[0] in values && forall v :: v in values[1..] ==> v in values;
      ScalarTextAgrees(values[0], calendar);
      ScalarTextsAgree(values[1..], calendar);
      if ToJsons(values, calendar).Ok? {
        var js, texts := ToJsons(values, calendar).value, ScalarTexts(values, calendar).value;
        assert texts[1..] == ScalarTexts(values[1..], calendar).value && js[1..] == ToJsons(values[1..], calendar).value;
        assert |values[1..]| == |js| - 1;
      }
    }
  }

  lemma TwoMembersAgree(name: string, key: string, v: Json, prefix: string)
    requires Plain(key) && prefix == ",\"" + key + "\":"
    ensures "{\"op\":" + Quote(name) + prefix + Show(v) + "}" ==
            Show(JObject([Member("op", JString(name)), Member(key, v)]))
  {
    QuotedKey("op", "\"op\"");
    QuoteOfPlain(key);
    ShowTwo(Member("op", JString(name)), Member(key, v));
    Pieces2("{\"op\":", Quote(name), prefix, Show(v), Quote("op"), Quote(key));
  }

  lemma ThreeMembersAgree(name: string, col: string, key: string, v: Json, prefix: string)
    requires Plain(key) && prefix == ",\"" + key + "\":"
    ensures "{\"op\":" + Quote(name) + ",\"col\":" + Quote(col) + prefix + Show(v) + "}" ==
            Show(JObject([Member("op", JString(name)), Member("col", JString(col)), Member(key, v)]))
  {
    OpPrefix("{\"op\":");
    ColPrefix(",\"col\":");
    KeyPrefix(key, prefix);
    ThreeMembers("{\"op\":", ",\"col\":", prefix, Member("op", JString(name)), Member("col", JString(col)), Member(key, v));
  }

  lemma ThreeMembers(p: string, p': string, p'': string, a: Member, b: Member, c: Member)
    requires p == "{" + Quote(a.key) + ":" && p' == "," + Quote(b.key) + ":" && p'' == "," + Quote(c.key) + ":"
    ensures p + Show(a.val) + p' + Show(b.val) + p'' + Show(c.val) + "}" == Show(JObject([a, b, c]))
  {
    ShowThree(a, b, c);
    Pieces3(p, Show(a.val), p', Show(b.val), p'', Show(c.val), Quote(a.key), Quote(b.key), Quote(c.key));
  }

  lemma KeyPrefix(key: string, prefix: string)
    requires Plain(key) && prefix == ",\"" + key + "\":"
    ensures prefix == "," + Quote(key) + ":"
  {
    QuoteOfPlain(key);
  }

  lemma OpPrefix(p: string)
    requires p == "{\"op\":"
    ensures p == "{" + Quote("op") + ":"
  {
    QuotedKey("op", "\"op\"");
  }

  lemma ColPrefix(p: string)
    requires p == ",\"col\":"
    ensures p == "," + Quote("col") + ":"
  {
    QuotedKey("col", "\"col\"");
  }

  lemma ConstantAgrees(name: string)
    ensures "{\"op\":" + Quote(name) + "}" == Show(JObject([Member("op", JString(name))]))
  {
    QuotedKey("op", "\"op\"");
    ShowOne(Member("op", JString(name)));
  }

  lemma ValuesAgree(name: string, col: string, values: seq<Scalar>, calendar: Calendar)
    requires (forall v :: v in values ==> FormattedScalar(v)) && ToJsons(values, calendar).Ok?
    ensures ScalarTexts(values, calendar).Ok?
    ensures var js := ToJsons(values, calendar).value;
            && "{\"op\":" + Quote(name) + ",\"col\":" + Quote(col) + ",\"values\":[" + Join(ScalarTexts(values, calendar).value) + "]}" ==
               Show(JObject([Member("op", JString(name)), Member("col", JString(col)), Member("values", JArray(js))]))
            && NumbersAreNumbers(JArray(js))
  {
    ScalarTextsAgree(values, calendar);
    var js := ToJsons(values, calendar).value;
    Bracketed("{\"op\":" + Quote(name) + ",\"col\":" + Quote(col), ",\"values\":[", ",\"values\":", ShowItems(js));
    ThreeMembersAgree(name, col, "values", JArray(js), ",\"values\":");
  }

  lemma ArgsAgree(name: string, texts: seq<string>, items: seq<Json>)
    requires Join(texts) == ShowItems(items)
    ensures "{\"op\":" + Quote(name) + ",\"args\":[" + Join(texts) + "]}" ==
            Show(JObject([Member("op", JString(name)), Member("args", JArray(items))]))
  {
    Bracketed("{\"op\":" + Quote(name), ",\"args\":[", ",\"args\":", ShowItems(items));
    TwoMembersAgree(name, "args", JArray(items), ",\"args\":");
  }

  lemma ConnectiveAgrees(n: Node<Scalar>, calendar: Calendar)
    requires (n.And? || n.Or?) && AllAgree(n.args, calendar)
    ensures Agrees(FilterToJson(n, calendar), Sent(n, calendar))
  {
    var name := OpName(OpOf(n));
    ArgsAreWritten(n, name, calendar);
    ArgsAreSent(n, name, calendar);
    if AllSent(n.args, calendar).Ok? {
      ArgsAgree(name, AllToJson(n.args, calendar).value, AllToObjects(AllSent(n.args, calendar).value));
    }
  }

  lemma ArgsAreWritten(n: Node<Scalar>, name: string, calendar: Calendar)
    requires (n.And? || n.Or?) && name == OpName(OpOf(n))
    ensures FilterToJson(n, calendar) ==
            match AllToJson(n.args, calendar)
            case Ok(texts) => Ok("{\"op\":" + Quote(name) + ",\"args\":[" + Join(texts) + "]}")
            case Err(e) => Err(e)
  {
  }

  lemma ArgsAreSent(n: Node<Scalar>, name: string, calendar: Calendar)
    requires (n.And? || n.Or?) && name == OpName(OpOf(n)) && AllAgree(n.args, calendar)
    ensures match AllSent(n.args, calendar)
            case Ok(args) =>
              && Sent(n, calendar).Ok? && NumbersAreNumbers(ToObject(Sent(n, calendar).value))
              && ToObject(Sent(n, calendar).value) ==
                 JObject([Member("op", JString(name)), Member("args", JArray(AllToObjects(args)))])
            case Err(e) => Sent(n, calendar) == Err(e)
  {
    if AllSent(n.args, calendar).Ok? {
      assert AllToObjects(AllSent(n.args, calendar).value) == AllToObjects(Sent(n, calendar).value.args);
      ArgsAreObjects(Sent(n, calendar).value, name);
    }
  }

  lemma ArgsAreObjects(n: Node<Json>, name: string)
    requires (n.And? || n.Or?) && name == OpName(OpOf(n))
    requires forall i :: 0 <= i < |n.args| ==> NumbersAreNumbers(ToObject(n.args[i]))
    ensures ToObject(n) == JObject([Member("op", JString(name)), Member("args", JArray(AllToObjects(n.args)))])
    ensures NumbersAreNumbers(ToObject(n))
  {
    var args := JArray(AllToObjects(n.args));
    assert NumbersAreNumbers(args);
  }

  lemma NotAgrees(n: Node<Scalar>, calendar: Calendar)
    requires n.Not? && Agrees(FilterToJson(n.arg, calendar), Sent(n.arg, calendar))
    ensures Agrees(FilterToJson(n, calendar), Sent(n, calendar))
  {
    if Sent(n.arg, calendar).Ok? {
      TwoMembersAgree(OpName(OpOf(n)), "arg", ToObject(Sent(n.arg, calendar).value), ",\"arg\":");
    }
  }

  lemma SetAgrees(n: Node<Scalar>, calendar: Calendar)
    requires (n.In? || n.NotIn?) && Formatted(n)
    ensures Agrees(FilterToJson(n, calendar), Sent(n, calendar))
  {
    ScalarTextsAgree(n.values, calendar);
    if ToJsons(n.values, calendar).Ok? {
      ValuesAgree(OpName(OpOf(n)), n.col, n.values, calendar);
    }
  }

  lemma ColumnAgrees(n: Node<Scalar>, calendar: Calendar)
    requires n.IsNull? || n.IsNotNull? || n.IsNan? || n.IsNotNan?
    ensures Agrees(FilterToJson(n, calendar), Sent(n, calendar))
  {
    TwoMembersAgree(OpName(OpOf(n)), "col", JString(n.col), ",\"col\":");
  }

  lemma AlwaysIsWritten(n: Node<Scalar>, name: string, calendar: Calendar)
    requires n.Always? && name == OpName(OpOf(n))
    ensures FilterToJson(n, calendar) == Ok(Show(JObject([Member("op", JString(name))])))
    ensures Sent(n, calendar) == Ok(Always(n.holds))
  {
    ConstantAgrees(name);
  }

  lemma AlwaysIsAnObject(n: Node<Json>, name: string)
    requires n.Always? && name == OpName(OpOf(n))
    ensures ToObject(n) == JObject([Member("op", JString(name))]) && NumbersAreNumbers(ToObject(n))
  {
  }

  lemma AlwaysAgrees(n: Node<Scalar>, calendar: Calendar)
    requires n.Always?
    ensures Agrees(FilterToJson(n, calendar), Sent(n, calendar))
  {
    var name := OpName(OpOf(n));
    AlwaysIsWritten(n, name, calendar);
    AlwaysIsAnObject(Always(n.holds), name);
  }

  lemma {:induction false} FilterToJsonAgrees(n: Node<Scalar>, calendar: Calendar)
    requires Formatted(n)
    ensures Agrees(FilterToJson(n, calendar), Sent(n, calendar))
    decreases n, 1
  {
    match n
    case Always(_) => AlwaysAgrees(n, calendar);
    case And(args) =>
      AllToJsonAgrees(args, calendar);
      ConnectiveAgrees(n, calendar);
    case Or(args) =>
      AllToJsonAgrees(args, calendar);
      ConnectiveAgrees(n, calendar);
    case Not(arg) =>
      FilterToJsonAgrees(arg, calendar);
      NotAgrees(n, calendar);
    case In(_, _) => SetAgrees(n, calendar);
    case NotIn(_, _) => SetAgrees(n, calendar);
    case Compare(_, _, _) => ValueAgrees(n, calendar);
    case StartsWith(_, _) => ValueAgrees(n, calendar);
    case NotStartsWith(_, _) => ValueAgrees(n, calendar);
    case _ => ColumnAgrees(n, calendar);
  }

  lemma ValueIsWritten(n: Node<Scalar>, name: string, calendar: Calendar)
    requires n.Compare? || n.StartsWith? || n.NotStartsWith?
    requires name == OpName(OpOf(n)) && FormattedScalar(n.value)
    ensures match ToJson(n.value, calendar)
            case Ok(j) =>
              FilterToJson(n, calendar) ==
              Ok("{\"op\":" + Quote(name) + ",\"col\":" + Quote(n.col) + ",\"value\":" + Show(j) + "}")
            case Err(e) => FilterToJson(n, calendar) == Err(e)
  {
    ScalarTextAgrees(n.value, calendar);
  }

  lemma ValueIsSent(n: Node<Scalar>, name: string, calendar: Calendar)
    requires n.Compare? || n.StartsWith? || n.NotStartsWith?
    requires name == OpName(OpOf(n)) && FormattedScalar(n.value)
    ensures match ToJson(n.value, calendar)
            case Ok(j) =>
              && Sent(n, calendar).Ok?
              && ToObject(Sent(n, calendar).value) ==
                 JObject([Member("op", JString(name)), Member("col", JString(n.col)), Member("value", j)])
              && NumbersAreNumbers(ToObject(Sent(n, calendar).value))
            case Err(e) => Sent(n, calendar) == Err(e)
  {
    ScalarTextAgrees(n.value, calendar);
  }

  lemma ValueAgrees(n: Node<Scalar>, calendar: Calendar)
    requires (n.Compare? || n.StartsWith? || n.NotStartsWith?) && FormattedScalar(n.value)
    ensures Agrees(FilterToJson(n, calendar), Sent(n, calendar))
  {
    var name := OpName(OpOf(n));
    ValueIsWritten(n, name, calendar);
    ValueIsSent(n, name, calendar);
    if ToJson(n.value, calendar).Ok? {
      ThreeMembersAgree(name, n.col, "value", ToJson(n.value, calendar).value, ",\"value\":");
    }
  }

  ghost predicate AllAgree(args: seq<Node<Scalar>>, calendar: Calendar) {
    match AllSent(args, calendar)
    case Ok(ns) =>
      && AllToJson(args, calendar).Ok?
      && Join(AllToJson(args, calendar).value) == ShowItems(AllToObjects(ns))
      && (forall i :: 0 <= i < |ns| ==> NumbersAreNumbers(ToObject(ns[i])))
    case Err(e) => AllToJson(args, calendar) == Err(e)
  }

  lemma {:induction false} AllToJsonAgrees(args: seq<Node<Scalar>>, calendar: Calendar)
    requires forall i :: 0 <= i < |args| ==> Formatted(args[i])
    ensures AllAgree(args, calendar)
    decreases args, 0
  {
    if args != [] {
      FilterToJsonAgrees(args[0], calendar);
      AllToJsonAgrees(args[1..], calendar);
      if AllSent(args, calendar).Ok? {
        var ns, texts := AllSent(args, calendar).value, AllToJson(args, calendar).value;
        assert texts[1..] == AllToJson(args[1..], calendar).value && ns[1..] == AllSent(args[1..], calendar).value;
        assert AllToObjects(ns)[1..] == AllToObjects(ns[1..]);
      }
    }
  }

  // ---- nesting ----

  /** How deep the tree is written: two levels for a connective and its arguments, and for a set. */
  function Nesting<V>(n: Node<V>): nat
    decreases n, 1
  {
    match n
    case And(args) => 2 + NestingOfAll(args)
    case Or(args) => 2 + NestingOfAll(args)
    case Not(arg) => 1 + Nesting(arg)
    case In(_, _) => 2
    case NotIn(_, _) => 2
    case _ => 1
  }

  function NestingOfAll<V>(args: seq<Node<V>>): nat
    decreases args, 0
  {
    if args == [] then 0 else Max(Nesting(args[0]), NestingOfAll(args[1..]))
  }

  lemma {:induction false} ScalarsAreFlat(js: seq<Json>)
    requires forall i :: 0 <= i < |js| ==> Depth(js[i]) == 0
    ensures DepthOfItems(js) == 0
  {
    if js != [] {
      ScalarsAreFlat(js[1..]);
    }
  }

  lemma SentScalarsAreFlat(values: seq<Scalar>, calendar: Calendar)
    requires ToJsons(values, calendar).Ok?
    ensures DepthOfItems(ToJsons(values, calendar).value) == 0
  {
    var js := ToJsons(values, calendar).value;
    forall i | 0 <= i < |js|
      ensures Depth(js[i]) == 0
    {
      assert ToJson(values[i], calendar) == Ok(js[i]);
    }
    ScalarsAreFlat(js);
  }

  lemma DepthOfOne(a: Member)
    ensures Depth(JObject([a])) == 1 + Depth(a.val)
  {
    assert DepthOfMembers([a]) == Max(Depth(a.val), DepthOfMembers([a][1..]));
  }

  lemma DepthOfTwo(a: Member, b: Member)
    ensures Depth(JObject([a, b])) == 1 + Max(Depth(a.val), Depth(b.val))
  {
    assert DepthOfMembers([b]) == Max(Depth(b.val), DepthOfMembers([b][1..]));
    assert [a, b][1..] == [b];
  }

  lemma DepthOfThree(a: Member, b: Member, c: Member)
    ensures Depth(JObject([a, b, c])) == 1 + Max(Depth(a.val), Max(Depth(b.val), Depth(c.val)))
  {
    DepthOfTwo(b, c);
    assert [a, b, c][1..] == [b, c];
  }

  lemma LeafDepth(n: Node<Scalar>, calendar: Calendar)
    requires !n.And? && !n.Or? && !n.Not? && Sent(n, calendar).Ok?
    ensures Depth(ToObject(Sent(n, calendar).value)) == Nesting(n)
  {
    var m := Sent(n, calendar).value;
    var op := Member("op", JString(OpName(OpOf(m))));
    match m
    case Always(_) => DepthOfOne(op);
    case IsNull(col) => DepthOfTwo(op, Member("col", JString(col)));
    case IsNotNull(col) => DepthOfTwo(op, Member("col", JString(col)));
    case IsNan(col) => DepthOfTwo(op, Member("col", JString(col)));
    case IsNotNan(col) => DepthOfTwo(op, Member("col", JString(col)));
    case In(col, values) =>
      SentScalarsAreFlat(n.values, calendar);
      DepthOfThree(op, Member("col", JString(col)), Member("values", JArray(values)));
    case NotIn(col, values) =>
      SentScalarsAreFlat(n.values, calendar);
      DepthOfThree(op, Member("col", JString(col)), Member("values", JArray(values)));
    case Compare(_, col, v) => DepthOfThree(op, Member("col", JString(col)), Member("value", v));
    case StartsWith(col, v) => DepthOfThree(op, Member("col", JString(col)), Member("value", v));
    case NotStartsWith(col, v) => DepthOfThree(op, Member("col", JString(col)), Member("value", v));
  }

  lemma ConnectiveDepth(n: Node<Json>)
    requires n.And? || n.Or?
    ensures Depth(ToObject(n)) == 2 + DepthOfItems(AllToObjects(n.args))
  {
    DepthOfTwo(Member("op", JString(OpName(OpOf(n)))), Member("args", JArray(AllToObjects(n.args))));
  }

  /** The document is nested as the tree is. */
  lemma {:induction false} WrittenDepth(n: Node<Scalar>, calendar: Calendar)
    requires Sent(n, calendar).Ok?
    ensures Depth(ToObject(Sent(n, calendar).value)) == Nesting(n)
    decreases n, 1
  {
    match n
    case And(args) =>
      AllWrittenDepth(args, calendar);
      ConnectiveDepth(Sent(n, calendar).value);
    case Or(args) =>
      AllWrittenDepth(args, calendar);
      ConnectiveDepth(Sent(n, calendar).value);
    case Not(arg) =>
      WrittenDepth(arg, calendar);
      var m := Sent(n, calendar).value;
      DepthOfTwo(Member("op", JString(OpName(OpOf(m)))), Member("arg", ToObject(m.arg)));
    case _ => LeafDepth(n, calendar);
  }

  lemma {:induction false} AllWrittenDepth(args: seq<Node<Scalar>>, calendar: Calendar)
    requires AllSent(args, calendar).Ok?
    ensures DepthOfItems(AllToObjects(AllSent(args, calendar).value)) == NestingOfAll(args)
    decreases args, 0
  {
    if args != [] {
      WrittenDepth(args[0], calendar);
      AllWrittenDepth(args[1..], calendar);
      var ms := AllSent(args, calendar).value;
      assert ms[1..] == AllSent(args[1..], calendar).value;
      assert AllToObjects(ms)[1..] == AllToObjects(ms[1..]);
    }
  }

  /**
   What the R side writes, the Rust side reads as the same tree, with the values
   that were sent, if it is nested no deeper than 127; otherwise it refuses it.
   */
  lemma ReaderUndoesPrinter(n: Node<Scalar>, calendar: Calendar)
    requires Formatted(n) && FilterToJson(n, calendar).Ok?
    ensures Sent(n, calendar).Ok?
    ensures ReadFilter(FilterToJson(n, calendar).value) == Within(Nesting(n) <= 127, Sent(n, calendar).value)
  {
    FilterToJsonAgrees(n, calendar);
    var sent := Sent(n, calendar).value;
    ReadDocumentUndoesShow(ToObject(sent));
    WrittenDepth(n, calendar);
    FromJsonUndoesToObject(sent);
  }

  /** One condition `more` times over, joined by `|` from the left. */
  function Alternatives(leaf: Node<Scalar>, more: nat): Node<Scalar> {
    if more == 0 then leaf else Or([Alternatives(leaf, more - 1), leaf])
  }

  lemma {:induction false} AlternativesNest(leaf: Node<Scalar>, more: nat)
    requires Nesting(leaf) == 1
    ensures Nesting(Alternatives(leaf, more)) == 1 + 2 * more
  {
    if more > 0 {
      var args := [Alternatives(leaf, more - 1), leaf];
      AlternativesNest(leaf, more - 1);
      assert NestingOfAll([leaf]) == Max(Nesting(leaf), NestingOfAll([leaf][1..]));
      assert args[1..] == [leaf];
    }
  }

  /** Of comparisons joined by `|`, 64 are read and 65 are refused. */
  lemma SixtyFiveAreRefused(leaf: Node<Scalar>, more: nat, calendar: Calendar)
    requires leaf.Compare? && Formatted(Alternatives(leaf, more)) && FilterToJson(Alternatives(leaf, more), calendar).Ok?
    ensures ReadFilter(FilterToJson(Alternatives(leaf, more), calendar).value).Some? <==> more + 1 <= 64
  {
    AlternativesNest(leaf, more);
    ReaderUndoesPrinter(Alternatives(leaf, more), calendar);
  }
}
