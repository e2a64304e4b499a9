/**
 Reading a table as of a time: the snapshot log a run of commits leaves, the
 schema a read plans with, and the snapshot listing. Times are in milliseconds
 since 1970; the time asked for is in microseconds.
 */
module Snapshots {
  import opened Outcomes
  import opened Sorting
  import opened DecimalText
  import opened Literals

  /** A snapshot need not say which schema it was written with. */
  datatype Snapshot = Snapshot(id: int, at: int, sequence: int, schema: Option<int>)

  datatype Entry = Entry(id: int, at: int)

  // ---- what a table goes through ----

  /**
   A commit to the main line, a return of the main line to an earlier snapshot,
   a commit to another branch, or a change of schema that writes nothing.
   */
  datatype Step =
    | Commit(snapshot: Snapshot)
    | Rollback(to: int, when: int)
    | BranchCommit(snapshot: Snapshot)
    | Alter(schema: int, when: int)

  function TimeOf(s: Step): int {
    match s
    case Commit(snapshot) => snapshot.at
    case Rollback(_, when) => when
    case BranchCommit(snapshot) => snapshot.at
    case Alter(_, when) => when
  }

  /** The current schema, and every schema the metadata has. */
  datatype Table = Table(
    snapshots: map<int, Snapshot>,
    log: seq<Entry>,
    current: Option<int>,
    schema: int,
    schemas: set<int>
  )

  /** A rollback to a snapshot the table does not have is refused. */
  function Apply(t: Table, s: Step): Table {
    match s
    case Commit(n) =>
      t.(snapshots := t.snapshots[n.id := n], log := t.log + [Entry(n.id, n.at)], current := Some(n.id))
    case Rollback(to, when) =>
      if to in t.snapshots then t.(log := t.log + [Entry(to, when)], current := Some(to)) else t
    case BranchCommit(n) => if n.id in t.snapshots then t else t.(snapshots := t.snapshots[n.id := n])
    case Alter(schema, _) => t.(schema := schema, schemas := t.schemas + {schema})
  }

  function Empty(schema: int): Table { Table(map[], [], None, schema, {schema}) }

  function Run(schema: int, steps: seq<Step>): Table {
    if steps == [] then Empty(schema) else Apply(Run(schema, steps[..|steps| - 1]), steps[|steps| - 1])
  }

  // ---- reading as of a time ----

  /** What R passes: date-times in microseconds, dates in days, or anything else. */
  datatype AsOf = DateTimes(micros: seq<Option<int>>) | Dates(days: seq<Option<int>>) | NotATime

  datatype AsOfError = MustBeTime | MustBeSingle | NoSnapshots | NoneBy(target: int, earliest: int)

  const DAY: int := 86_400_000_000

  /** The instant asked for; a date is its midnight, UTC. */
  function Target(a: AsOf): Result<int, AsOfError> {
    match a
    case NotATime => Err(MustBeTime)
    case DateTimes(ms) => if |ms| == 1 && ms[0].Some? then Ok(ms[0].value) else Err(MustBeSingle)
    case Dates(ds) => if |ds| == 1 && ds[0].Some? then Ok(ds[0].value * DAY) else Err(MustBeSingle)
  }

  /** What is taken for a time: one date-time, or one date, which is so many days of 24 hours; anything else fails for its reason. */
  lemma TargetExactly(a: AsOf)
    ensures forall m :: Target(a) == Ok(m) <==>
                        || a == DateTimes([Some(m)])
                        || exists d :: a == Dates([Some(d)]) && m == d * (24 * 60 * 60 * 1_000_000)
    ensures Target(a) == Err(MustBeTime) <==> a.NotATime?
    ensures Target(a).Err? ==> Target(a).error.MustBeTime? || Target(a).error.MustBeSingle?
  {
    match a {
      case DateTimes(ms) =>
        assert |ms| == 1 && ms[0].Some? ==> ms == [Some(ms[0].value)];
      case Dates(ds) =>
        if |ds| == 1 && ds[0].Some? {
          assert a == Dates([Some(ds[0].value)]);
        }
      case NotATime =>
    }
  }

  predicate By(e: Entry, target: int) { e.at * 1000 <= target }

  /** The indexes of the entries at or before an instant. */
  function Eligible(log: seq<Entry>, target: int): seq<nat> {
    if log == [] then []
    else
      var last := |log| - 1;
      Eligible(log[..last], target) + (if By(log[last], target) then [last] else [])
  }

  function Earliest(log: seq<Entry>): int
    requires log != []
  {
    if |log| == 1 then log[0].at
    else
      var e := Earliest(log[..|log| - 1]);
      if log[|log| - 1].at < e then log[|log| - 1].at else e
  }

  lemma {:induction false} EligibleAre(log: seq<Entry>, target: int)
    ensures forall k :: 0 <= k < |Eligible(log, target)| ==> Eligible(log, target)[k] < |log|
    ensures Eligible(log, target) == [] ==> forall i :: 0 <= i < |log| ==> !By(log[i], target)
    ensures Eligible(log, target) != [] ==> LastBy(log, target, Eligible(log, target)[|Eligible(log, target)| - 1])
  {
    if log != [] {
      EligibleAre(log[..|log| - 1], target);
    }
  }

  function SnapshotAsOf(log: seq<Entry>, asOf: AsOf): Result<int, AsOfError> {
    var target :- Target(asOf);
    if log == [] then Err(NoSnapshots)
    else
      var eligible := Eligible(log, target);
      if eligible == [] then Err(NoneBy(target, Earliest(log)))
      else
        EligibleAre(log, target);
        Ok(log[eligible[|eligible| - 1]].id)
  }

  ghost predicate LastBy(log: seq<Entry>, target: int, i: int) {
    0 <= i < |log| && By(log[i], target) && forall j :: i < j < |log| ==> !By(log[j], target)
  }

  /** The last entry in log order that is not too late, whatever order their times are in. */
  lemma LastInLogOrder(log: seq<Entry>, asOf: AsOf, target: int)
    requires Target(asOf) == Ok(target)
    ensures SnapshotAsOf(log, asOf).Ok? <==> exists i :: 0 <= i < |log| && By(log[i], target)
    ensures SnapshotAsOf(log, asOf).Ok? ==> exists i :: LastBy(log, target, i) && log[i].id == SnapshotAsOf(log, asOf).value
    ensures SnapshotAsOf(log, asOf).Err? ==>
              SnapshotAsOf(log, asOf) == Err(if log == [] then NoSnapshots else NoneBy(target, Earliest(log)))
  {
    EligibleAre(log, target);
  }

  /** The time named in a refusal is that of the earliest entry, and is too late. */
  lemma {:induction false} EarliestIs(log: seq<Entry>)
    requires log != []
    ensures exists i :: 0 <= i < |log| && log[i].at == Earliest(log)
    ensures forall i :: 0 <= i < |log| ==> Earliest(log) <= log[i].at
  {
    if |log| > 1 {
      var before := log[..|log| - 1];
      EarliestIs(before);
      var i :| 0 <= i < |before| && before[i].at == Earliest(before);
      assert log[i].at == Earliest(before);
      assert log[|log| - 1].at == Earliest(log) || log[i].at == Earliest(log);
      assert forall k :: 0 <= k < |log| - 1 ==> before[k] == log[k];
    } else {
      assert log[0].at == Earliest(log);
    }
  }

  // ---- what was current ----

  ghost predicate InTime(steps: seq<Step>) {
    forall i, j :: 0 <= i < j < |steps| ==> TimeOf(steps[i]) <= TimeOf(steps[j])
  }

  predicate Done(s: Step, target: int) { TimeOf(s) * 1000 <= target }

  /** How many of the steps had been taken by an instant, when they come in time order. */
  function TakenBy(steps: seq<Step>, target: int): (k: nat)
    ensures k <= |steps|
  {
    if steps == [] then 0
    else
      var last := |steps| - 1;
      if Done(steps[last], target) then |steps| else TakenBy(steps[..last], target)
  }

  /** The table's current snapshot at an instant. */
  function CurrentAt(schema: int, steps: seq<Step>, target: int): Option<int> {
    Run(schema, steps[..TakenBy(steps, target)]).current
  }

  /** Every log entry is from a step of its time; every current snapshot is the last entry's. */
  ghost predicate LogFollows(t: Table) {
    && (t.current.Some? <==> t.log != [])
    && (t.log != [] ==> t.current == Some(t.log[|t.log| - 1].id))
    && (forall i :: 0 <= i < |t.log| ==> t.log[i].id in t.snapshots)
  }

  lemma {:induction false} EveryRunFollows(schema: int, steps: seq<Step>)
    ensures LogFollows(Run(schema, steps))
  {
    if steps != [] {
      EveryRunFollows(schema, steps[..|steps| - 1]);
    }
  }

  /** The entry has the time of a step from the k-th on. */
  ghost predicate FromStep(steps: seq<Step>, k: nat, e: Entry) {
    exists j :: k <= j < |steps| && TimeOf(steps[j]) == e.at
  }

  /** The log of the steps taken is a start of the log of all of them; the rest is of the others. */
  lemma {:induction false} LogSplits(schema: int, steps: seq<Step>, k: nat)
    requires k <= |steps|
    ensures var part, all := Run(schema, steps[..k]).log, Run(schema, steps).log;
            && part <= all
            && (forall i :: |part| <= i < |all| ==> FromStep(steps, k, all[i]))
  {
    if k == |steps| {
      assert steps[..k] == steps;
    } else {
      var before := steps[..|steps| - 1];
      LogSplits(schema, before, k);
      assert before[..k] == steps[..k];
      var part, log, all := Run(schema, steps[..k]).log, Run(schema, before).log, Run(schema, steps).log;
      assert log <= all;
      forall i | |part| <= i < |all|
        ensures FromStep(steps, k, all[i])
      {
        if i < |log| {
          assert all[i] == log[i] && FromStep(before, k, log[i]);
          var j :| k <= j < |before| && TimeOf(before[j]) == log[i].at;
          assert TimeOf(steps[j]) == all[i].at;
        } else {
          assert TimeOf(steps[|steps| - 1]) == all[i].at;
        }
      }
    }
  }

  lemma {:induction false} TakenByIs(steps: seq<Step>, target: int)
    requires InTime(steps)
    ensures forall i :: 0 <= i < |steps| ==> (Done(steps[i], target) <==> i < TakenBy(steps, target))
  {
    if steps != [] {
      var before := steps[..|steps| - 1];
      assert forall i :: 0 <= i < |before| ==> before[i] == steps[i];
      TakenByIs(before, target);
    }
  }

  lemma {:induction false} EntriesHaveTimes(schema: int, steps: seq<Step>, i: nat) returns (j: nat)
    requires i < |Run(schema, steps).log|
    ensures j < |steps| && TimeOf(steps[j]) == Run(schema, steps).log[i].at
  {
    LogSplits(schema, steps, 0);
    assert steps[..0] == [];
    assert FromStep(steps, 0, Run(schema, steps).log[i]);
    j :| 0 <= j < |steps| && TimeOf(steps[j]) == Run(schema, steps).log[i].at;
  }

  /**
   After every run of steps in time order, reading as of an instant gives the
   snapshot that was current then, and fails exactly when there was none.
   */
  lemma AsOfIsCurrent(schema: int, steps: seq<Step>, asOf: AsOf, target: int)
    requires InTime(steps) && Target(asOf) == Ok(target)
    ensures match CurrentAt(schema, steps, target)
            case Some(id) => SnapshotAsOf(Run(schema, steps).log, asOf) == Ok(id)
            case None => SnapshotAsOf(Run(schema, steps).log, asOf).Err?
  {
    var k := TakenBy(steps, target);
    TakenLog(schema, steps, target);
    EveryRunFollows(schema, steps[..k]);
    AsOfSplit(Run(schema, steps[..k]).log, Run(schema, steps).log, asOf, target);
  }

  /** A log of which a start is in time, and the rest too late. */
  ghost predicate SplitBy(part: seq<Entry>, all: seq<Entry>, target: int) {
    part <= all && forall i :: 0 <= i < |all| ==> (By(all[i], target) <==> i < |part|)
  }

  lemma AsOfSplit(part: seq<Entry>, all: seq<Entry>, asOf: AsOf, target: int)
    requires SplitBy(part, all, target) && Target(asOf) == Ok(target)
    ensures if part == [] then SnapshotAsOf(all, asOf).Err? else SnapshotAsOf(all, asOf) == Ok(part[|part| - 1].id)
  {
    EligibleAre(all, target);
    if part != [] {
      assert By(all[|part| - 1], target);
    }
  }

  lemma TakenLog(schema: int, steps: seq<Step>, target: int)
    requires InTime(steps)
    ensures SplitBy(Run(schema, steps[..TakenBy(steps, target)]).log, Run(schema, steps).log, target)
  {
    var k := TakenBy(steps, target);
    var part, all := Run(schema, steps[..k]).log, Run(schema, steps).log;
    TakenByIs(steps, target);
    LogSplits(schema, steps, k);
    forall i | 0 <= i < |part|
      ensures By(all[i], target)
    {
      var j := EntriesHaveTimes(schema, steps[..k], i);
      assert Done(steps[j], target) && all[i] == part[i];
    }
    forall i | |part| <= i < |all|
      ensures !By(all[i], target)
    {
      assert FromStep(steps, k, all[i]);
      var j :| k <= j < |steps| && TimeOf(steps[j]) == all[i].at;
      assert !Done(steps[j], target);
    }
  }

  /** Whatever a read as of a time gives is a snapshot of the table. */
  lemma AsOfIsKnown(schema: int, steps: seq<Step>, asOf: AsOf)
    requires SnapshotAsOf(Run(schema, steps).log, asOf).Ok?
    ensures SnapshotAsOf(Run(schema, steps).log, asOf).value in Run(schema, steps).snapshots
  {
    EveryRunFollows(schema, steps);
    EligibleAre(Run(schema, steps).log, Target(asOf).value);
    LastInLogOrder(Run(schema, steps).log, asOf, Target(asOf).value);
  }

  /** After a rollback the latest snapshot by its own time is not the current one: the list cannot answer. */
  lemma TheListCannotAnswer(schema: int)
    ensures var steps := [Commit(Snapshot(1, 10, 1, Some(0))), Commit(Snapshot(2, 20, 2, Some(0))), Rollback(1, 30)];
            && CurrentAt(schema, steps, 40_000) == Some(1)
            && var snapshots := Run(schema, steps).snapshots;
               1 in snapshots && 2 in snapshots && snapshots[2].at > snapshots[1].at
  {
    var a, b, c := Commit(Snapshot(1, 10, 1, Some(0))), Commit(Snapshot(2, 20, 2, Some(0))), Rollback(1, 30);
    var steps := [a, b, c];
    assert steps[..3] == steps && steps[..2] == [a, b] && [a, b][..1] == [a] && [a][..0] == [];
    assert Run(schema, [a]) == Apply(Empty(schema), a);
    assert Run(schema, [a, b]) == Apply(Run(schema, [a]), b);
  }

  // ---- schemas ----

  datatype SnapshotError = NotAnId | NotInHistory | NoSuchSchema

  function ResolveSnapshot(t: Table, id: string): Result<int, SnapshotError> {
    var parsed := ParseInteger(Trim(id));
    if parsed.None? || !FitsInt64(parsed.value) then Err(NotAnId)
    else if parsed.value !in t.snapshots then Err(NotInHistory)
    else Ok(parsed.value)
  }

  /** The snapshot's own schema; the current one if it names none, or if there is no snapshot. */
  function SchemaAt(t: Table, snapshot: Option<int>): Result<int, SnapshotError> {
    match snapshot
    case None => Ok(t.schema)
    case Some(id) =>
      if id !in t.snapshots then Err(NotInHistory)
      else
        match t.snapshots[id].schema
        case None => Ok(t.schema)
        case Some(k) => if k in t.schemas then Ok(k) else Err(NoSuchSchema)
  }

  /** The snapshot a read is of: the one asked for, and by default the current one. */
  function ReadOf(t: Table, snapshot: Option<int>): Option<int> { if snapshot.Some? then snapshot else t.current }

  function ReadSchema(t: Table, snapshot: Option<int>): Result<int, SnapshotError> { SchemaAt(t, ReadOf(t, snapshot)) }

  /** An id as R passes it on is the snapshot of that id, and the id a read as of a time gives is one. */
  lemma IdsAreResolved(schema: int, steps: seq<Step>, asOf: AsOf, id: int)
    requires SnapshotAsOf(Run(schema, steps).log, asOf) == Ok(id) || id in Run(schema, steps).snapshots
    ensures ResolveSnapshot(Run(schema, steps), IntText(id)) == if FitsInt64(id) then Ok(id) else Err(NotAnId)
  {
    if SnapshotAsOf(Run(schema, steps).log, asOf) == Ok(id) {
      AsOfIsKnown(schema, steps, asOf);
    }
    IntTextIsRead(id);
  }

  /** A text, without the spaces about it, is the id of a snapshot exactly if it writes it in 64 bits; of none, if no snapshot has it. */
  lemma ResolvedExactly(t: Table, id: string, n: int)
    ensures ResolveSnapshot(t, id) == Ok(n) <==> IsWritten(Trim(id), n) && In64Bits(n) && n in t.snapshots
    ensures IsWritten(Trim(id), n) && In64Bits(n) && n !in t.snapshots ==> ResolveSnapshot(t, id) == Err(NotInHistory)
    ensures IsWritten(Trim(id), n) && !In64Bits(n) ==> ResolveSnapshot(t, id) == Err(NotAnId)
    ensures (forall m :: !IsWritten(Trim(id), m)) ==> ResolveSnapshot(t, id) == Err(NotAnId)
  {
    ParsesExactly(Trim(id), n);
    var parsed := ParseInteger(Trim(id));
    if parsed.Some? {
      ParsesExactly(Trim(id), parsed.value);
    }
  }

  predicate In64Bits(n: int) { -0x8000_0000_0000_0000 <= n < 0x8000_0000_0000_0000 }

  /** The snapshot names a schema that the metadata does not have. */
  predicate Orphaned(t: Table, id: int) {
    id in t.snapshots && t.snapshots[id].schema.Some? && t.snapshots[id].schema.value !in t.schemas
  }

  /**
   After every run, a read without a snapshot plans with the same schema as a read
   of the snapshot that a read as of any later time gives, and fails exactly when
   the current snapshot names a schema that is not there.
   */
  lemma DefaultReadsTheCurrentSnapshot(schema: int, steps: seq<Step>, asOf: AsOf, target: int)
    requires Target(asOf) == Ok(target) && forall i :: 0 <= i < |steps| ==> Done(steps[i], target)
    ensures var t := Run(schema, steps);
            && (ReadSchema(t, None).Err? <==> t.current.Some? && Orphaned(t, t.current.value))
            && match SnapshotAsOf(t.log, asOf)
               case Ok(id) => t.current == Some(id) && ReadSchema(t, None) == ReadSchema(t, Some(id))
               case Err(_) => t.current == None && ReadSchema(t, None) == Ok(t.schema)
  {
    var t := Run(schema, steps);
    EveryRunFollows(schema, steps);
    forall i | 0 <= i < |t.log|
      ensures By(t.log[i], target)
    {
      var j := EntriesHaveTimes(schema, steps, i);
      assert Done(steps[j], target);
    }
    EligibleAre(t.log, target);
  }

  /**
   A change of schema that writes nothing changes what a read plans with exactly
   if the read is of no snapshot or of one without a schema, and the new schema is
   another; or if the snapshot's own schema was missing, and is the new one.
   */
  lemma AlteringChangesExactly(t: Table, schema: int, when: int, snapshot: Option<int>)
    ensures ReadSchema(Apply(t, Alter(schema, when)), snapshot) != ReadSchema(t, snapshot) <==>
            match ReadOf(t, snapshot)
            case None => schema != t.schema
            case Some(id) =>
              id in t.snapshots &&
              if t.snapshots[id].schema.None? then schema != t.schema
              else Orphaned(t, id) && t.snapshots[id].schema.value == schema
  {
  }

  function ApplyAll(t: Table, steps: seq<Step>): Table {
    if steps == [] then t else Apply(ApplyAll(t, steps[..|steps| - 1]), steps[|steps| - 1])
  }

  /** One of the changes sets the schema. */
  ghost predicate SetBy(steps: seq<Step>, own: int) {
    exists k :: 0 <= k < |steps| && steps[k].Alter? && steps[k].schema == own
  }

  /**
   After any run of schema changes alone, a read of a snapshot that names a schema
   plans with that one, once it is there, and any other read with the last schema set.
   */
  lemma AfterAlterations(t: Table, steps: seq<Step>, snapshot: Option<int>)
    requires forall k :: 0 <= k < |steps| ==> steps[k].Alter?
    ensures var now := ApplyAll(t, steps);
            && now.snapshots == t.snapshots && now.current == t.current
            && now.schema == (if steps == [] then t.schema else steps[|steps| - 1].schema)
            && ReadSchema(now, snapshot) ==
               match ReadOf(t, snapshot)
               case None => Ok(now.schema)
               case Some(id) =>
                 if id !in t.snapshots then Err(NotInHistory)
                 else
                   match t.snapshots[id].schema
                   case None => Ok(now.schema)
                   case Some(own) =>
                     if own in t.schemas || SetBy(steps, own) then Ok(own)
                     else Err(NoSuchSchema)
  {
    AlteredSchemas(t, steps);
  }

  lemma {:induction false} AlteredSchemas(t: Table, steps: seq<Step>)
    requires forall k :: 0 <= k < |steps| ==> steps[k].Alter?
    ensures var now := ApplyAll(t, steps);
            && now.snapshots == t.snapshots && now.current == t.current
            && now.schema == (if steps == [] then t.schema else steps[|steps| - 1].schema)
            && (forall own :: own in now.schemas <==> own in t.schemas || SetBy(steps, own))
  {
    if steps != [] {
      var before, last := steps[..|steps| - 1], |steps| - 1;
      AlteredSchemas(t, before);
      forall own
        ensures SetBy(steps, own) <==> SetBy(before, own) || own == steps[last].schema
      {
        assert forall k :: 0 <= k < last ==> before[k] == steps[k];
      }
    }
  }

  /** Each commit names no schema, or one the metadata has by then. */
  ghost predicate NamesKnown(schema: int, steps: seq<Step>) {
    forall k :: 0 <= k < |steps| && (steps[k].Commit? || steps[k].BranchCommit?) && steps[k].snapshot.schema.Some? ==>
      steps[k].snapshot.schema.value in Run(schema, steps[..k]).schemas
  }

  /** If commits name known schemas, then after every run no snapshot is without its schema, and no read fails. */
  lemma {:induction false} KnownSchemasStay(schema: int, steps: seq<Step>)
    requires NamesKnown(schema, steps)
    ensures var t := Run(schema, steps);
            && (forall id :: id in t.snapshots ==> !Orphaned(t, id))
            && (forall id :: id in t.snapshots ==> ReadSchema(t, Some(id)).Ok?) && ReadSchema(t, None).Ok?
  {
    EveryRunFollows(schema, steps);
    if steps != [] {
      var k := |steps| - 1;
      var before := steps[..k];
      forall j | 0 <= j < k && (before[j].Commit? || before[j].BranchCommit?) && before[j].snapshot.schema.Some?
        ensures before[j].snapshot.schema.value in Run(schema, before[..j]).schemas
      {
        assert before[..j] == steps[..j] && before[j] == steps[j];
      }
      KnownSchemasStay(schema, before);
    }
  }

  // ---- the listing ----

  /** By time, then sequence number, then id. */
  predicate Earlier(x: Snapshot, y: Snapshot) {
    x.at < y.at || (x.at == y.at && (x.sequence < y.sequence || (x.sequence == y.sequence && x.id <= y.id)))
  }

  function Listing(snapshots: seq<Snapshot>): seq<Snapshot> { Sort(Earlier, snapshots) }

  ghost predicate UniqueIds(snapshots: seq<Snapshot>) {
    forall x, y :: x in snapshots && y in snapshots && x.id == y.id ==> x == y
  }

  /** The oldest come first; of one time the lower sequence number, and of one number the lower id. */
  lemma OldestFirst(snapshots: seq<Snapshot>, i: nat, j: nat)
    requires i < j < |Listing(snapshots)|
    ensures var x, y := Listing(snapshots)[i], Listing(snapshots)[j];
            && x.at <= y.at && (x.at == y.at ==> x.sequence <= y.sequence)
            && (x.at == y.at && x.sequence == y.sequence ==> x.id <= y.id)
  {
    EarlierIsAnOrder();
    SortSorts(Earlier, snapshots);
  }

  /** Whatever order the snapshots are iterated in, the listing is the same, and is in order. */
  lemma ListingIsStable(snapshots: seq<Snapshot>, others: seq<Snapshot>)
    requires UniqueIds(snapshots) && multiset(snapshots) == multiset(others)
    ensures Listing(snapshots) == Listing(others)
    ensures multiset(Listing(snapshots)) == multiset(snapshots) && Sorted(Earlier, Listing(snapshots))
  {
    EarlierIsAnOrder();
    SortForgetsOrder(Earlier, snapshots, others);
    SortSorts(Earlier, snapshots);
  }

  lemma EarlierIsAnOrder()
    ensures Order(Earlier)
  {
  }
}
