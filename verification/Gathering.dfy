/**
 Collecting what is found at the positions of a text: kind by kind, or position
 by position. Either way the same things are collected.
 */
module Gathering {
  import opened Outcomes

  function AsSeq<T>(x: Option<T>): seq<T> { if x.Some? then [x.value] else [] }

  /** What is found from a position up to the end. */
  function InPlace<T>(here: nat -> Option<T>, p: nat, end: nat): seq<T>
    requires p <= end
    decreases end - p
  {
    if p == end then [] else AsSeq(here(p)) + InPlace(here, p + 1, end)
  }

  function OfKindAt<T>(here: nat -> Option<T>, kind: nat -> Option<nat>, k: nat, p: nat): seq<T> {
    if kind(p) == Some(k) then AsSeq(here(p)) else []
  }

  /** What is found of one kind. */
  function OfKind<T>(here: nat -> Option<T>, kind: nat -> Option<nat>, k: nat, p: nat, end: nat): seq<T>
    requires p <= end
    decreases end - p
  {
    if p == end then [] else OfKindAt(here, kind, k, p) + OfKind(here, kind, k, p + 1, end)
  }

  /** What is found of the kinds from the k-th to the last, kind by kind. */
  function ByKind<T>(here: nat -> Option<T>, kind: nat -> Option<nat>, k: nat, last: nat, p: nat, end: nat): seq<T>
    requires p <= end && k <= last
    decreases last - k
  {
    if k == last then [] else OfKind(here, kind, k, p, end) + ByKind(here, kind, k + 1, last, p, end)
  }

  function OfKindsAt<T>(here: nat -> Option<T>, kind: nat -> Option<nat>, k: nat, last: nat, p: nat): seq<T> {
    if kind(p).Some? && k <= kind(p).value < last then AsSeq(here(p)) else []
  }

  lemma Regroup<T>(first: seq<T>, more: seq<T>, others: seq<T>, rest: seq<T>, later: seq<T>)
    requires multiset(rest) == multiset(others + later) && (first == [] || others == [])
    ensures multiset((first + more) + rest) == multiset((first + others) + (more + later))
  {
  }

  lemma {:induction false} ByKindStep<T>(here: nat -> Option<T>, kind: nat -> Option<nat>, k: nat, last: nat, p: nat, end: nat)
    requires p < end && k <= last
    ensures multiset(ByKind(here, kind, k, last, p, end)) ==
            multiset(OfKindsAt(here, kind, k, last, p) + ByKind(here, kind, k, last, p + 1, end))
    decreases last - k
  {
    if k < last {
      ByKindStep(here, kind, k + 1, last, p, end);
      var first, others := OfKindAt(here, kind, k, p), OfKindsAt(here, kind, k + 1, last, p);
      Regroup(first, OfKind(here, kind, k, p + 1, end), others,
              ByKind(here, kind, k + 1, last, p, end), ByKind(here, kind, k + 1, last, p + 1, end));
      assert first + others == OfKindsAt(here, kind, k, last, p);
    }
  }

  lemma {:induction false} NoneAtEnd<T>(here: nat -> Option<T>, kind: nat -> Option<nat>, k: nat, last: nat, end: nat)
    requires k <= last
    ensures ByKind(here, kind, k, last, end, end) == []
    decreases last - k
  {
    if k < last {
      NoneAtEnd(here, kind, k + 1, last, end);
    }
  }

  /** Everything found is of a kind. */
  ghost predicate AllOfKinds<T>(here: nat -> Option<T>, kind: nat -> Option<nat>, last: nat) {
    forall p :: here(p).Some? ==> kind(p).Some? && kind(p).value < last
  }

  lemma {:induction false} GatherEither<T>(here: nat -> Option<T>, kind: nat -> Option<nat>, last: nat, p: nat, end: nat)
    requires p <= end && AllOfKinds(here, kind, last)
    ensures multiset(ByKind(here, kind, 0, last, p, end)) == multiset(InPlace(here, p, end))
    decreases end - p
  {
    if p == end {
      NoneAtEnd(here, kind, 0, last, end);
    } else {
      ByKindStep(here, kind, 0, last, p, end);
      GatherEither(here, kind, last, p + 1, end);
      assert OfKindsAt(here, kind, 0, last, p) == AsSeq(here(p));
    }
  }

  lemma {:induction false} NothingBetween<T>(here: nat -> Option<T>, kind: nat -> Option<nat>, k: nat, p: nat, q: nat, end: nat)
    requires p <= q <= end && forall r :: p <= r < q ==> OfKindAt(here, kind, k, r) == []
    ensures OfKind(here, kind, k, p, end) == OfKind(here, kind, k, q, end)
    decreases q - p
  {
    if p < q {
      NothingBetween(here, kind, k, p + 1, q, end);
    }
  }
}
