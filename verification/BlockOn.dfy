/**
 Waiting for a future on R's own thread: in slices, between which the interrupt
 flag and the deadline are looked at. Time is in milliseconds.
 */
module BlockOn {
  import opened Outcomes

  const POLL: nat := 200

  /** One slice of a future: its value if it was done, how long it took, and whether Ctrl-C was pressed. */
  datatype Slice<T> = Slice(value: Option<T>, elapsed: nat, signalled: bool)

  /** A slice that ends without a value has run its whole time. */
  ghost predicate Timed<T(!new)>(script: nat -> Slice<T>) {
    forall i :: script(i).value.None? ==> script(i).elapsed >= POLL
  }

  datatype Outcome<T> = Done(value: T) | Interrupted | GaveUp | Forked

  /** A future: each resumption carries on from the one before. */
  class Future<T> {
    const script: nat -> Slice<T>
    var resumed: nat

    constructor (script: nat -> Slice<T>)
      ensures this.script == script && resumed == 0
    {
      this.script, resumed := script, 0;
    }

    method Resume() returns (s: Slice<T>)
      modifies this`resumed
      ensures s == script(old(resumed)) && resumed == old(resumed) + 1
    {
      s := script(resumed);
      resumed := resumed + 1;
    }
  }

  // ---- how a wait ends ----

  /** The slice after `j` others. */
  function Nth<T>(script: nat -> Slice<T>, from: nat, j: nat): Slice<T> { script(from + j) }

  /** The time the first `k` slices take. */
  function Elapsed<T>(script: nat -> Slice<T>, from: nat, k: nat): nat {
    if k == 0 then 0 else Elapsed(script, from, k - 1) + Nth(script, from, k - 1).elapsed
  }

  /** The flag is up after the first `k` slices. */
  function Raised<T>(script: nat -> Slice<T>, from: nat, flag: bool, k: nat): bool {
    if k == 0 then flag else Raised(script, from, flag, k - 1) || Nth(script, from, k - 1).signalled
  }

  predicate Late<T>(script: nat -> Slice<T>, from: nat, ceiling: Option<nat>, k: nat) {
    ceiling.Some? && Elapsed(script, from, k) >= ceiling.value
  }

  /** How the wait ends after its `k`-th slice, if it does: a value first, then the interrupt, then the deadline. */
  function EndAfter<T>(script: nat -> Slice<T>, from: nat, flag: bool, ceiling: Option<nat>, k: nat): Option<Outcome<T>>
    requires k > 0
  {
    var last := Nth(script, from, k - 1);
    if last.value.Some? then Some(Done(last.value.value))
    else if Raised(script, from, flag, k) then Some(Interrupted)
    else if Late(script, from, ceiling, k) then Some(GaveUp)
    else None
  }

  /** The wait ends after `k` slices and not before. */
  ghost predicate Ends<T>(script: nat -> Slice<T>, from: nat, flag: bool, ceiling: Option<nat>, k: nat, outcome: Outcome<T>) {
    && k > 0
    && (forall j :: 0 < j < k ==> EndAfter(script, from, flag, ceiling, j) == None)
    && EndAfter(script, from, flag, ceiling, k) == Some(outcome)
  }

  // ---- the session ----

  /** The process R runs in, its interrupt flag, and which process started the runtime. */
  class Session {
    const process: nat
    var clock: nat
    var interrupts: bool
    var owner: Option<nat>

    /** A process starts with no owner, and a forked child with the owner its parent has. */
    constructor (process: nat, owner: Option<nat>)
      ensures this.process == process && this.owner == owner && !interrupts && clock == 0
    {
      this.process, this.owner, interrupts, clock := process, owner, false, 0;
    }

    /** The runtime is started once, by the process that first asks; any other process is refused. */
    method Runtime() returns (ours: bool)
      modifies this`owner
      ensures owner == if old(owner).Some? then old(owner) else Some(process)
      ensures ours <==> owner == Some(process)
    {
      if owner.None? {
        owner := Some(process);
      }
      ours := owner.value == process;
    }

    method TakeInterrupt() returns (raised: bool)
      modifies this`interrupts
      ensures raised == old(interrupts) && !interrupts
    {
      raised := interrupts;
      if interrupts {
        interrupts := false;
      }
    }

    /** One slice on the runtime, while which the clock and the signal handler run. */
    method RunSlice<T>(future: Future<T>) returns (value: Option<T>)
      modifies this`clock, this`interrupts, future`resumed
      ensures var s := future.script(old(future.resumed));
              && future.resumed == old(future.resumed) + 1
              && value == s.value && clock == old(clock) + s.elapsed && interrupts == (old(interrupts) || s.signalled)
    {
      var s := future.Resume();
      clock := clock + s.elapsed;
      if s.signalled {
        interrupts := true;
      }
      value := s.value;
    }

    /**
     Runs the future until it is done, interrupted or late. Without a ceiling,
     `end` is a slice by which the future is done or Ctrl-C is pressed.
     */
    method BlockOn<T(!new)>(future: Future<T>, ceiling: Option<nat>, ghost end: nat) returns (outcome: Outcome<T>, slices: nat)
      requires Timed(future.script) && (ceiling.Some? ==> ceiling.value > 0)
      requires ceiling.None? ==> EndAfter(future.script, future.resumed, interrupts, ceiling, end + 1) != None
      modifies this`clock, this`interrupts, this`owner, future`resumed
      ensures owner == if old(owner).Some? then old(owner) else Some(process)
      ensures outcome == Forked <==> owner != Some(process)
      ensures outcome == Forked ==> slices == 0 && interrupts == old(interrupts) && clock == old(clock)
      ensures outcome != Forked ==> Ends(future.script, old(future.resumed), old(interrupts), ceiling, slices, outcome)
      ensures future.resumed == old(future.resumed) + slices
      ensures clock == old(clock) + Elapsed(future.script, old(future.resumed), slices)
      ensures interrupts == (outcome != Interrupted && Raised(future.script, old(future.resumed), old(interrupts), slices))
    {
      ghost var script, from, flag := future.script, future.resumed, interrupts;
      slices := 0;
      var ours := Runtime();
      if !ours {
        return Forked, 0;
      }
      var deadline := if ceiling.Some? then Some(clock + ceiling.value) else None;
      ghost var start := clock;
      while true
        invariant future.resumed == from + slices && clock == start + Elapsed(script, from, slices)
        invariant interrupts == Raised(script, from, flag, slices)
        invariant forall j :: 0 < j <= slices ==> EndAfter(script, from, flag, ceiling, j) == None
        invariant owner == Some(process)
        invariant ceiling.None? ==> slices <= end
        invariant slices > 0 ==> !Late(script, from, ceiling, slices)
        decreases if ceiling.Some? then ceiling.value - Elapsed(script, from, slices) else end - slices
      {
        assert Nth(script, from, slices) == script(from + slices);
        var value := RunSlice(future);
        slices := slices + 1;
        if value.Some? {
          return Done(value.value), slices;
        }
        var raised := TakeInterrupt();
        if raised {
          return Interrupted, slices;
        }
        if deadline.Some? && clock >= deadline.value {
          return GaveUp, slices;
        }
      }
    }
  }

  // ---- what that means ----

  /** A wait ends in one way. */
  lemma EndsOnce<T>(script: nat -> Slice<T>, from: nat, flag: bool, ceiling: Option<nat>, k: nat, o: Outcome<T>, l: nat, p: Outcome<T>)
    requires Ends(script, from, flag, ceiling, k, o) && Ends(script, from, flag, ceiling, l, p)
    ensures k == l && o == p
  {
  }

  lemma {:induction false} SlicesTakeTime<T(!new)>(script: nat -> Slice<T>, from: nat, k: nat)
    requires Timed(script) && forall j :: 0 <= j < k ==> Nth(script, from, j).value.None?
    ensures Elapsed(script, from, k) >= POLL * k
  {
    if k > 0 {
      SlicesTakeTime(script, from, k - 1);
      assert Nth(script, from, k - 1).value.None?;
    }
  }

  /** Under a ceiling, a wait takes no more slices than fit in it, the last one counted whole. */
  lemma SlicesFitTheCeiling<T(!new)>(script: nat -> Slice<T>, from: nat, flag: bool, d: nat, k: nat, o: Outcome<T>)
    requires Timed(script) && d > 0 && Ends(script, from, flag, Some(d), k, o)
    ensures k <= (d + 199) / 200
  {
    var j := k - 1;
    if j > 0 {
      assert EndAfter(script, from, flag, Some(d), j) == None;
      forall i | 0 <= i < j
        ensures Nth(script, from, i).value.None?
      {
        assert EndAfter(script, from, flag, Some(d), i + 1) == None;
      }
      SlicesTakeTime(script, from, j);
      assert POLL * j < d;
    }
  }

  /** A slice that is done gives its value, whatever the flag and the clock say; so a wait gives the first one done. */
  lemma ValueBeatsBoth<T>(script: nat -> Slice<T>, from: nat, flag: bool, ceiling: Option<nat>, k: nat, o: Outcome<T>)
    requires Ends(script, from, flag, ceiling, k, o)
    ensures forall j :: 0 <= j < k - 1 ==> Nth(script, from, j).value.None?
    ensures o.Done? <==> Nth(script, from, k - 1).value.Some?
    ensures o.Done? ==> Nth(script, from, k - 1).value == Some(o.value)
  {
    forall j | 0 <= j < k - 1
      ensures Nth(script, from, j).value.None?
    {
      assert EndAfter(script, from, flag, ceiling, j + 1) == None;
    }
  }

  /** The wait is abandoned only after the whole ceiling, and only with no interrupt pending. */
  lemma GivesUpOnlyLate<T>(script: nat -> Slice<T>, from: nat, flag: bool, ceiling: Option<nat>, k: nat)
    requires Ends(script, from, flag, ceiling, k, GaveUp)
    ensures ceiling.Some? && Elapsed(script, from, k) >= ceiling.value
    ensures !flag && forall j :: 0 <= j < k ==> !Nth(script, from, j).signalled
  {
    RaisedIs(script, from, flag, k);
  }

  /** A wait is interrupted only by a Ctrl-C, before it or during it. */
  lemma InterruptedByCtrlC<T>(script: nat -> Slice<T>, from: nat, flag: bool, ceiling: Option<nat>, k: nat)
    requires Ends(script, from, flag, ceiling, k, Interrupted)
    ensures flag || exists j :: 0 <= j < k && Nth(script, from, j).signalled
  {
    RaisedIs(script, from, flag, k);
  }

  lemma {:induction false} RaisedIs<T>(script: nat -> Slice<T>, from: nat, flag: bool, k: nat)
    ensures Raised(script, from, flag, k) <==> flag || exists j :: 0 <= j < k && Nth(script, from, j).signalled
  {
    if k > 0 {
      RaisedIs(script, from, flag, k - 1);
    }
  }

  /** A Ctrl-C before or during the wait ends it within the slice it comes in, unless that slice is done. */
  lemma InterruptIsPrompt<T>(script: nat -> Slice<T>, from: nat, flag: bool, ceiling: Option<nat>, k: nat, o: Outcome<T>, i: nat)
    requires Ends(script, from, flag, ceiling, k, o)
    requires i > 0 && (flag || Nth(script, from, i - 1).signalled)
    ensures k <= i && (k == i ==> o == Interrupted || o.Done?)
  {
    RaisedIs(script, from, flag, i);
    assert EndAfter(script, from, flag, ceiling, i) != None;
  }
}
