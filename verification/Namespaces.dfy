/** Namespaces of a catalog: how their levels are written, and how one is created with its parents. */
module Namespaces {
  import opened Outcomes

  type Namespace = seq<string>

  // ---- writing and reading levels ----

  /** The parts around each dot. */
  function Split(s: string): (parts: seq<string>)
    ensures parts != []
  {
    if s == "" then [""] else Before(s[0], Split(s[1..]))
  }

  /** One more character in front: a dot, or part of the first part. */
  function Before(c: char, parts: seq<string>): (r: seq<string>)
    requires parts != []
    ensures r != []
  {
    if c == '.' then [""] + parts else [[c] + parts[0]] + parts[1..]
  }

  function NonEmpty(parts: seq<string>): seq<string> {
    if parts == [] then [] else Kept(parts[0]) + NonEmpty(parts[1..])
  }

  function Kept(part: string): seq<string> { if part == "" then [] else [part] }

  /** The levels of a dotted name; a doubled dot makes no level. */
  function Levels(s: string): seq<string> { NonEmpty(Split(s)) }

  function AllLevels(xs: seq<string>): seq<string> { if xs == [] then [] else Levels(xs[0]) + AllLevels(xs[1..]) }

  function Join(levels: seq<string>): string {
    if levels == [] then "" else if |levels| == 1 then levels[0] else levels[0] + "." + Join(levels[1..])
  }

  /** What R passes for a namespace or a table. */
  datatype Input = Null | NotCharacter | Strings(xs: seq<Option<string>>)

  datatype NameError = Required | MustBeLevels | NoLevels | MustBeString | NotAnIdentifier

  function Present(xs: seq<Option<string>>): Option<seq<string>> {
    if xs == [] then Some([])
    else if xs[0].None? || xs[0].value == "" then None
    else
      var rest :- Present(xs[1..]);
      Some([xs[0].value] + rest)
  }

  function AsNamespace(x: Input, allowNull: bool := false): Result<Namespace, NameError> {
    if x.Null? || (x.Strings? && x.xs == []) then (if allowNull then Ok([]) else Err(Required))
    else if x.NotCharacter? || Present(x.xs).None? then Err(MustBeLevels)
    else
      var levels := AllLevels(Present(x.xs).value);
      if levels == [] then Err(NoLevels) else Ok(levels)
  }

  datatype Identifier = Identifier(namespace: Namespace, name: string)

  function ParseIdentifier(x: Input): Result<Identifier, NameError> {
    if !x.Strings? || |x.xs| != 1 || x.xs[0].None? || x.xs[0].value == "" then Err(MustBeString)
    else
      var parts := Levels(x.xs[0].value);
      if |parts| < 2 then Err(NotAnIdentifier) else Ok(Identifier(parts[..|parts| - 1], parts[|parts| - 1]))
  }

  function One(s: string): Input { Strings([Some(s)]) }

  // ---- levels that can be written and read back ----

  predicate IsLevel(s: string) { s != "" && '.' !in s }

  predicate AreLevels(levels: seq<string>) { forall i :: 0 <= i < |levels| ==> IsLevel(levels[i]) }

  lemma {:induction false} PartsHaveNoDots(s: string)
    ensures forall i :: 0 <= i < |Split(s)| ==> '.' !in Split(s)[i]
  {
    if s != "" {
      PartsHaveNoDots(s[1..]);
    }
  }

  lemma {:induction false} NonEmptyAre(parts: seq<string>)
    requires forall i :: 0 <= i < |parts| ==> '.' !in parts[i]
    ensures AreLevels(NonEmpty(parts))
  {
    if parts != [] {
      NonEmptyAre(parts[1..]);
    }
  }

  lemma LevelsAre(s: string)
    ensures AreLevels(Levels(s))
  {
    PartsHaveNoDots(s);
    NonEmptyAre(Split(s));
  }

  lemma {:induction false} AllLevelsAre(xs: seq<string>)
    ensures AreLevels(AllLevels(xs))
  {
    if xs != [] {
      LevelsAre(xs[0]);
      AllLevelsAre(xs[1..]);
    }
  }

  lemma LevelsOfFirst(xs: seq<string>, ys: seq<string>)
    requires xs != []
    ensures AllLevels(xs + ys) == Levels(xs[0]) + AllLevels(xs[1..] + ys)
  {
    assert (xs + ys)[0] == xs[0] && (xs + ys)[1..] == xs[1..] + ys;
  }

  lemma {:induction false} AllLevelsConcat(xs: seq<string>, ys: seq<string>)
    ensures AllLevels(xs + ys) == AllLevels(xs) + AllLevels(ys)
  {
    if xs == [] {
      assert xs + ys == ys;
    } else {
      AllLevelsConcat(xs[1..], ys);
      LevelsOfFirst(xs, ys);
      Reassociate(Levels(xs[0]), AllLevels(xs[1..]), AllLevels(ys));
    }
  }

  /** What R has as a character vector without NA. */
  function Vector(xs: seq<string>): Input { Strings(seq(|xs|, i requires 0 <= i < |xs| => Some(xs[i]))) }

  lemma {:induction false} PresentIs(xs: seq<string>)
    ensures "" !in xs ==> Present(Vector(xs).xs) == Some(xs)
    ensures "" in xs ==> Present(Vector(xs).xs) == None
  {
    if xs != [] {
      PresentIs(xs[1..]);
      assert Vector(xs).xs[1..] == Vector(xs[1..]).xs;
      assert xs == [xs[0]] + xs[1..];
    }
  }

  /** A vector of levels, none with a dot, is read as those levels in their order. */
  lemma VectorOfLevels(xs: seq<string>)
    requires xs != [] && AreLevels(xs)
    ensures AsNamespace(Vector(xs)) == Ok(xs)
  {
    PresentIs(xs);
    LevelsTogether(xs);
  }

  lemma {:induction false} LevelsTogether(xs: seq<string>)
    requires AreLevels(xs)
    ensures AllLevels(xs) == xs
  {
    if xs != [] {
      LevelIsItself(xs[0]);
      LevelsTogether(xs[1..]);
    }
  }

  /** A vector is read as the levels of its strings one after another. */
  lemma VectorsTogether(xs: seq<string>, ys: seq<string>)
    requires AsNamespace(Vector(xs)).Ok? && AsNamespace(Vector(ys)).Ok?
    ensures AsNamespace(Vector(xs + ys)) == Ok(AsNamespace(Vector(xs)).value + AsNamespace(Vector(ys)).value)
  {
    PresentIs(xs);
    PresentIs(ys);
    PresentIs(xs + ys);
    AllLevelsConcat(xs, ys);
  }

  predicate SomeLevel(s: string) { exists i :: 0 <= i < |s| && s[i] != '.' }

  lemma SomeLevelFirst(s: string)
    requires s != ""
    ensures SomeLevel(s) <==> s[0] != '.' || SomeLevel(s[1..])
  {
    if i :| 0 <= i < |s[1..]| && s[1..][i] != '.' {
      assert s[i + 1] != '.';
    }
    if i :| 0 <= i < |s| && s[i] != '.' {
      assert i > 0 ==> s[1..][i - 1] != '.';
    }
  }

  lemma {:induction false} LevelsThere(s: string)
    ensures Levels(s) != [] <==> SomeLevel(s)
  {
    if s != "" {
      LevelsThere(s[1..]);
      SomeLevelFirst(s);
      var parts := Split(s[1..]);
      if s[0] == '.' {
        assert Split(s) == [""] + parts && ([""] + parts)[1..] == parts;
        assert NonEmpty(Split(s)) == Kept("") + NonEmpty(parts);
      } else {
        assert Kept(Split(s)[0]) != [];
      }
    } else {
      assert Split(s) == [""] && NonEmpty([""]) == Kept("") + NonEmpty([""][1..]);
    }
  }

  /** A vector is a namespace exactly if no string of it is NA or empty, and some string has a character other than a dot. */
  lemma NamespaceExactly(x: Input)
    ensures AsNamespace(x).Ok? <==>
            exists xs: seq<string> :: x == Vector(xs) && "" !in xs && exists k :: 0 <= k < |xs| && SomeLevel(xs[k])
    ensures AsNamespace(x) == Err(Required) <==> x.Null? || x == Vector([])
    ensures AsNamespace(x, true) == if x.Null? || x == Vector([]) then Ok([]) else AsNamespace(x)
    ensures AsNamespace(x) == Err(NoLevels) <==>
            exists xs: seq<string> :: xs != [] && x == Vector(xs) && "" !in xs && forall k :: 0 <= k < |xs| ==> !SomeLevel(xs[k])
  {
    if x.Strings? {
      PresentExactly(x.xs);
      forall xs: seq<string> | x == Vector(xs)
        ensures "" !in xs ==> Present(x.xs) == Some(xs)
        ensures "" in xs ==> Present(x.xs) == None
        ensures AllLevels(xs) != [] <==> exists k :: 0 <= k < |xs| && SomeLevel(xs[k])
      {
        PresentIs(xs);
        AllLevelsThere(xs);
      }
      if Present(x.xs).Some? {
        var xs := Present(x.xs).value;
        assert x == Vector(xs) && "" !in xs;
      }
    }
  }

  lemma {:induction false} PresentExactly(xs: seq<Option<string>>)
    ensures Present(xs).Some? ==> "" !in Present(xs).value && Vector(Present(xs).value).xs == xs
  {
    if xs != [] {
      PresentExactly(xs[1..]);
    }
  }

  lemma {:induction false} AllLevelsThere(xs: seq<string>)
    ensures AllLevels(xs) != [] <==> exists k :: 0 <= k < |xs| && SomeLevel(xs[k])
  {
    if xs != [] {
      LevelsThere(xs[0]);
      AllLevelsThere(xs[1..]);
      if k :| 0 <= k < |xs[1..]| && SomeLevel(xs[1..][k]) {
        assert SomeLevel(xs[k + 1]);
      }
    }
  }

  lemma {:induction false} NonEmptyConcat(a: seq<string>, b: seq<string>)
    ensures NonEmpty(a + b) == NonEmpty(a) + NonEmpty(b)
  {
    if a == [] {
      assert a + b == b;
    } else {
      NonEmptyConcat(a[1..], b);
      assert (a + b)[0] == a[0] && (a + b)[1..] == a[1..] + b;
      Reassociate(Kept(a[0]), NonEmpty(a[1..]), NonEmpty(b));
    }
  }

  lemma Reassociate<T>(a: seq<T>, b: seq<T>, c: seq<T>)
    ensures a + (b + c) == a + b + c
  {
  }

  lemma {:induction false} SplitAtDot(a: string, b: string)
    ensures Split(a + "." + b) == Split(a) + Split(b)
  {
    var s := a + "." + b;
    if a == "" {
      assert s[1..] == b;
    } else {
      SplitAtDot(a[1..], b);
      assert s[1..] == a[1..] + "." + b && s[0] == a[0];
      BeforeConcat(a[0], Split(a[1..]), Split(b));
    }
  }

  lemma BeforeConcat(c: char, parts: seq<string>, more: seq<string>)
    requires parts != []
    ensures Before(c, parts + more) == Before(c, parts) + more
  {
    assert (parts + more)[0] == parts[0] && (parts + more)[1..] == parts[1..] + more;
  }

  /** A dot between two names puts their levels together. */
  lemma LevelsAtDot(a: string, b: string)
    ensures Levels(a + "." + b) == Levels(a) + Levels(b)
  {
    SplitAtDot(a, b);
    NonEmptyConcat(Split(a), Split(b));
  }

  lemma {:induction false} SplitLevel(s: string)
    requires '.' !in s
    ensures Split(s) == [s]
  {
    if s != "" {
      SplitLevel(s[1..]);
      assert [s[0]] + s[1..] == s;
    }
  }

  lemma LevelIsItself(s: string)
    requires IsLevel(s)
    ensures Levels(s) == [s]
  {
    SplitLevel(s);
    assert NonEmpty([s]) == [s] + NonEmpty([s][1..]);
  }

  lemma {:induction false} LevelsOfJoined(levels: seq<string>)
    requires AreLevels(levels)
    ensures Levels(Join(levels)) == levels
  {
    if |levels| == 1 {
      LevelIsItself(levels[0]);
    } else if levels != [] {
      LevelIsItself(levels[0]);
      LevelsOfJoined(levels[1..]);
      LevelsAtDot(levels[0], Join(levels[1..]));
    }
  }

  lemma JoinedIsNotEmpty(levels: seq<string>)
    requires levels != [] && AreLevels(levels)
    ensures Join(levels) != ""
  {
  }

  /** The levels read are written and read back the same. */
  lemma NamespaceRoundTrip(x: Input)
    requires AsNamespace(x).Ok?
    ensures var levels := AsNamespace(x).value;
            levels != [] && AreLevels(levels) && AsNamespace(One(Join(levels))) == Ok(levels)
  {
    var levels := AsNamespace(x).value;
    AllLevelsAre(Present(x.xs).value);
    JoinedIsNotEmpty(levels);
    LevelsOfJoined(levels);
    OneIs(Join(levels));
  }

  lemma OneIs(s: string)
    requires s != ""
    ensures AsNamespace(One(s)) == if Levels(s) == [] then Err(NoLevels) else Ok(Levels(s))
  {
    var xs: seq<Option<string>> := [Some(s)];
    var none: seq<string> := [];
    assert Present(xs[1..]) == Some(none);
    assert Present(xs) == Some([s] + none) && [s] + none == [s];
    assert AllLevels([s]) == Levels(s) + AllLevels([s][1..]) == Levels(s);
  }

  /** A table is identified by a namespace and a name exactly when the namespace is one. */
  lemma IdentifierAgrees(namespace: string, name: string)
    requires namespace != "" && IsLevel(name)
    ensures match AsNamespace(One(namespace))
            case Ok(levels) => ParseIdentifier(One(namespace + "." + name)) == Ok(Identifier(levels, name))
            case Err(_) => ParseIdentifier(One(namespace + "." + name)) == Err(NotAnIdentifier)
  {
    OneIs(namespace);
    LevelIsItself(name);
    LevelsAtDot(namespace, name);
    var parts := Levels(namespace) + [name];
    assert parts[..|parts| - 1] == Levels(namespace);
  }

  /** The namespace of an identifier is read as the same levels. */
  lemma IdentifierNamespace(x: Input)
    requires ParseIdentifier(x).Ok?
    ensures AsNamespace(One(Join(ParseIdentifier(x).value.namespace))) == Ok(ParseIdentifier(x).value.namespace)
    ensures IsLevel(ParseIdentifier(x).value.name)
  {
    var levels := ParseIdentifier(x).value.namespace;
    LevelsAre(x.xs[0].value);
    JoinedIsNotEmpty(levels);
    LevelsOfJoined(levels);
    OneIs(Join(levels));
  }

  // ---- creating ----

  datatype Failure = BadName(why: NameError) | Exists(ns: Namespace) | NoParent(ns: Namespace) | Refused(ns: Namespace)

  /** Every parent of a namespace is a namespace. */
  ghost predicate Closed(namespaces: set<Namespace>) {
    forall ns, i :: ns in namespaces && 0 < i < |ns| ==> ns[..i] in namespaces
  }

  /** The first `k` parents of some levels, the levels themselves the last. */
  ghost function Prefixes(levels: Namespace, k: nat): set<Namespace>
    requires k <= |levels|
  {
    set i | 1 <= i <= k :: levels[..i]
  }

  /** The parents from the i-th on are created where missing, then the leaf always. */
  function Walk(namespaces: set<Namespace>, refuses: Namespace -> bool, levels: Namespace, i: nat): (set<Namespace>, Option<Failure>)
    requires 0 < i <= |levels|
    decreases |levels| - i
  {
    var ns := levels[..i];
    if i < |levels| && ns in namespaces then Walk(namespaces, refuses, levels, i + 1)
    else if ns in namespaces then (namespaces, Some(Exists(ns)))
    else if refuses(ns) then (namespaces, Some(Refused(ns)))
    else if i < |levels| then Walk(namespaces + {ns}, refuses, levels, i + 1)
    else (namespaces + {ns}, None)
  }

  lemma AsNamespaceHasLevels(x: Input)
    requires AsNamespace(x).Ok?
    ensures AsNamespace(x).value != []
  {
  }

  function Created(namespaces: set<Namespace>, refuses: Namespace -> bool, x: Input): (set<Namespace>, Option<Failure>) {
    match AsNamespace(x)
    case Err(e) => (namespaces, Some(BadName(e)))
    case Ok(levels) =>
      AsNamespaceHasLevels(x);
      Walk(namespaces, refuses, levels, 1)
  }

  class Catalog {
    var namespaces: set<Namespace>
    const refuses: Namespace -> bool

    constructor (refuses: Namespace -> bool)
      ensures namespaces == {} && this.refuses == refuses
    {
      namespaces := {};
      this.refuses := refuses;
    }

    /** The catalog's own call: no parent is created, and nothing twice. */
    method Create(ns: Namespace) returns (failure: Option<Failure>)
      requires ns != []
      modifies this
      ensures failure == if ns in old(namespaces) then Some(Exists(ns))
                         else if |ns| > 1 && ns[..|ns| - 1] !in old(namespaces) then Some(NoParent(ns))
                         else if refuses(ns) then Some(Refused(ns))
                         else None
      ensures namespaces == if failure.None? then old(namespaces) + {ns} else old(namespaces)
    {
      if ns in namespaces {
        return Some(Exists(ns));
      }
      if |ns| > 1 && ns[..|ns| - 1] !in namespaces {
        return Some(NoParent(ns));
      }
      if refuses(ns) {
        return Some(Refused(ns));
      }
      namespaces := namespaces + {ns};
      failure := None;
    }

    method CreateNamespace(x: Input) returns (failure: Option<Failure>)
      modifies this
      ensures (namespaces, failure) == Created(old(namespaces), refuses, x)
    {
      var read := AsNamespace(x);
      if read.Err? {
        return Some(BadName(read.error));
      }
      var levels := read.value;
      AsNamespaceHasLevels(x);
      for i := 1 to |levels|
        invariant Walk(namespaces, refuses, levels, i) == Walk(old(namespaces), refuses, levels, 1)
        invariant i > 1 ==> levels[..i - 1] in namespaces
      {
        var parent := levels[..i];
        assert i > 1 ==> parent[..i - 1] == levels[..i - 1];
        if parent !in namespaces {
          var refused := Create(parent);
          if refused.Some? {
            return refused;
          }
        }
      }
      assert levels[..|levels|] == levels;
      failure := Create(levels);
    }
  }

  // ---- what creating keeps ----

  lemma {:induction false} WalkAdds(namespaces: set<Namespace>, refuses: Namespace -> bool, levels: Namespace, i: nat)
    requires 0 < i <= |levels|
    ensures var (after, failure) := Walk(namespaces, refuses, levels, i);
            namespaces <= after <= namespaces + Prefixes(levels, |levels|)
    decreases |levels| - i
  {
    var ns := levels[..i];
    assert ns in Prefixes(levels, |levels|);
    if i < |levels| {
      WalkAdds(namespaces, refuses, levels, i + 1);
      WalkAdds(namespaces + {ns}, refuses, levels, i + 1);
    }
  }

  /** The first levels are all there; then the rest is added in order. */
  lemma {:induction false} WalkKeepsClosed(namespaces: set<Namespace>, refuses: Namespace -> bool, levels: Namespace, i: nat)
    requires 0 < i <= |levels| && Closed(namespaces) && forall j :: 0 < j < i ==> levels[..j] in namespaces
    ensures Closed(Walk(namespaces, refuses, levels, i).0)
    decreases |levels| - i
  {
    var ns := levels[..i];
    assert forall j :: 0 < j < i ==> ns[..j] == levels[..j];
    assert Closed(namespaces + {ns});
    if i < |levels| {
      if ns in namespaces {
        WalkKeepsClosed(namespaces, refuses, levels, i + 1);
      } else {
        WalkKeepsClosed(namespaces + {ns}, refuses, levels, i + 1);
      }
    }
  }

  lemma {:induction false} WalkSucceeds(namespaces: set<Namespace>, refuses: Namespace -> bool, levels: Namespace, i: nat)
    requires 0 < i <= |levels|
    ensures var (after, failure) := Walk(namespaces, refuses, levels, i);
            && (failure.None? <==> levels !in namespaces && forall j :: i <= j <= |levels| && levels[..j] !in namespaces ==> !refuses(levels[..j]))
            && (failure.None? ==> forall j :: i <= j <= |levels| ==> levels[..j] in after)
    decreases |levels| - i
  {
    var ns := levels[..i];
    assert levels[..|levels|] == levels;
    if i < |levels| {
      assert |ns| != |levels|;
      WalkSucceeds(namespaces, refuses, levels, i + 1);
      WalkSucceeds(namespaces + {ns}, refuses, levels, i + 1);
      assert forall j :: i < j <= |levels| ==> |levels[..j]| != |ns|;
      WalkAdds(namespaces, refuses, levels, i + 1);
      WalkAdds(namespaces + {ns}, refuses, levels, i + 1);
    }
  }

  /**
   Creating succeeds exactly when the leaf is new and the catalog refuses none
   of what is missing; then exactly the missing parents and the leaf are added.
   */
  lemma SuccessAddsWhatIsMissing(namespaces: set<Namespace>, refuses: Namespace -> bool, x: Input)
    requires AsNamespace(x).Ok?
    ensures var levels := AsNamespace(x).value;
            var (after, failure) := Created(namespaces, refuses, x);
            && (failure.None? <==> levels !in namespaces && forall ns :: ns in Prefixes(levels, |levels|) - namespaces ==> !refuses(ns))
            && (failure.None? ==> after == namespaces + Prefixes(levels, |levels|))
  {
    var levels := AsNamespace(x).value;
    AsNamespaceHasLevels(x);
    WalkSucceeds(namespaces, refuses, levels, 1);
    WalkAdds(namespaces, refuses, levels, 1);
    assert forall j :: 1 <= j <= |levels| ==> levels[..j] in Prefixes(levels, |levels|);
  }

  /** The first of the missing namespaces that the catalog refuses. */
  ghost predicate StopsAt(namespaces: set<Namespace>, refuses: Namespace -> bool, levels: Namespace, i: nat, j: nat) {
    && i <= j <= |levels| && levels[..j] !in namespaces && refuses(levels[..j])
    && forall m :: i <= m < j && levels[..m] !in namespaces ==> !refuses(levels[..m])
  }

  /** The parents of some levels, from the i-th to the one before the j-th. */
  ghost function Parents(levels: Namespace, i: nat, j: nat): set<Namespace>
    requires j <= |levels|
  {
    set m | i <= m < j :: levels[..m]
  }

  lemma {:induction false} WalkStops(namespaces: set<Namespace>, refuses: Namespace -> bool, levels: Namespace, i: nat, j: nat)
    requires 0 < i && levels !in namespaces && StopsAt(namespaces, refuses, levels, i, j)
    ensures Walk(namespaces, refuses, levels, i) == (namespaces + Parents(levels, i, j), Some(Refused(levels[..j])))
    decreases |levels| - i
  {
    assert levels[..|levels|] == levels;
    if i < j {
      var more := if levels[..i] in namespaces then namespaces else namespaces + {levels[..i]};
      forall m | i < m <= |levels|
        ensures levels[..m] in more <==> levels[..m] in namespaces
      {
        assert |levels[..m]| != |levels[..i]|;
      }
      WalkStops(more, refuses, levels, i + 1, j);
      assert Parents(levels, i, j) == {levels[..i]} + Parents(levels, i + 1, j);
      assert more + Parents(levels, i + 1, j) == namespaces + Parents(levels, i, j);
    } else {
      assert namespaces + Parents(levels, j, j) == namespaces;
    }
  }

  /** A refusal is of the first missing namespace the catalog refuses; the parents before it are then there, and nothing more. */
  lemma RefusalLeavesParents(namespaces: set<Namespace>, refuses: Namespace -> bool, x: Input, j: nat)
    requires AsNamespace(x).Ok? && AsNamespace(x).value !in namespaces
    requires j > 0 && StopsAt(namespaces, refuses, AsNamespace(x).value, 1, j)
    ensures var levels := AsNamespace(x).value;
            Created(namespaces, refuses, x) == (namespaces + Parents(levels, 1, j), Some(Refused(levels[..j])))
  {
    var levels := AsNamespace(x).value;
    AsNamespaceHasLevels(x);
    WalkStops(namespaces, refuses, levels, 1, j);
  }

  lemma {:induction false} WalkPastParents(namespaces: set<Namespace>, refuses: Namespace -> bool, levels: Namespace, i: nat)
    requires 0 < i <= |levels| && forall j :: i <= j <= |levels| ==> levels[..j] in namespaces
    ensures Walk(namespaces, refuses, levels, i) == (namespaces, Some(Exists(levels)))
    decreases |levels| - i
  {
    if i < |levels| {
      WalkPastParents(namespaces, refuses, levels, i + 1);
    } else {
      assert levels[..i] == levels;
    }
  }

  /** Creating what exists fails, and adds nothing. */
  lemma ExistingLeafFails(namespaces: set<Namespace>, refuses: Namespace -> bool, x: Input)
    requires Closed(namespaces) && AsNamespace(x).Ok? && AsNamespace(x).value in namespaces
    ensures Created(namespaces, refuses, x) == (namespaces, Some(Exists(AsNamespace(x).value)))
  {
    var levels := AsNamespace(x).value;
    AsNamespaceHasLevels(x);
    assert levels[..|levels|] == levels;
    WalkPastParents(namespaces, refuses, levels, 1);
  }

  function AfterRun(refuses: Namespace -> bool, calls: seq<Input>): set<Namespace> {
    if calls == [] then {} else Created(AfterRun(refuses, calls[..|calls| - 1]), refuses, calls[|calls| - 1]).0
  }

  /** After every run of calls, failed ones too, every parent of a namespace exists. */
  lemma {:induction false} EveryRunIsClosed(refuses: Namespace -> bool, calls: seq<Input>)
    ensures Closed(AfterRun(refuses, calls))
  {
    if calls != [] {
      var before, x := AfterRun(refuses, calls[..|calls| - 1]), calls[|calls| - 1];
      EveryRunIsClosed(refuses, calls[..|calls| - 1]);
      if AsNamespace(x).Ok? {
        AsNamespaceHasLevels(x);
        WalkKeepsClosed(before, refuses, AsNamespace(x).value, 1);
      }
    }
  }
}
