/**
 Clipping a polygon to a convex one, edge by edge (Sutherland and Hodgman), over
 exact reals.
 */
module Clip {
  import opened Outcomes

  datatype Point = Point(x: real, y: real)

  type Polygon = seq<Point>

  // ---- one edge ----

  /** On which side of the line from `a` to `b` a point is; zero on the line. */
  function Side(p: Point, a: Point, b: Point): real {
    (b.x - a.x) * (p.y - a.y) - (b.y - a.y) * (p.x - a.x)
  }

  predicate Inner(p: Point, a: Point, b: Point) { Side(p, a, b) >= 0.0 }

  /** The point a part of the way from one to another. */
  function Between(p: Point, q: Point, t: real): Point { Point(p.x + (q.x - p.x) * t, p.y + (q.y - p.y) * t) }

  /** Where the way from a point to one on the other side crosses the line. */
  function Crossing(p: Point, q: Point, a: Point, b: Point): Point
    requires Inner(p, a, b) != Inner(q, a, b)
  {
    Between(p, q, Side(p, a, b) / (Side(p, a, b) - Side(q, a, b)))
  }

  function Next(k: nat, m: nat): (l: nat)
    requires k < m
    ensures l < m
  {
    if k == m - 1 then 0 else k + 1
  }

  /** What a side of the subject leaves: its start if inner, and the crossing if there is one. */
  function Kept(p: Point, q: Point, a: Point, b: Point): Polygon {
    (if Inner(p, a, b) then [p] else []) + (if Inner(p, a, b) != Inner(q, a, b) then [Crossing(p, q, a, b)] else [])
  }

  /** What the first `k` sides of the subject leave. */
  function KeptUpTo(subject: Polygon, k: nat, a: Point, b: Point): Polygon
    requires k <= |subject|
  {
    if k == 0 then [] else KeptUpTo(subject, k - 1, a, b) + Kept(subject[k - 1], subject[Next(k - 1, |subject|)], a, b)
  }

  function ClipEdge(subject: Polygon, a: Point, b: Point): Polygon { KeptUpTo(subject, |subject|, a, b) }

  // ---- the whole polygon ----

  /** The subject clipped to the edges from the i-th on. */
  function ClipFrom(subject: Polygon, clip: Polygon, i: nat): Polygon
    requires i <= |clip|
    decreases |clip| - i
  {
    if i == |clip| || subject == [] then subject
    else ClipFrom(ClipEdge(subject, clip[i], clip[Next(i, |clip|)]), clip, i + 1)
  }

  function SumX(ps: Polygon): real { if ps == [] then 0.0 else ps[0].x + SumX(ps[1..]) }

  function SumY(ps: Polygon): real { if ps == [] then 0.0 else ps[0].y + SumY(ps[1..]) }

  function Centroid(ps: Polygon): Point
    requires ps != []
  {
    Point(SumX(ps) / |ps| as real, SumY(ps) / |ps| as real)
  }

  function Reversed(ps: Polygon): (r: Polygon)
    ensures |r| == |ps| && forall i :: 0 <= i < |ps| ==> r[i] == ps[|ps| - 1 - i]
  {
    if ps == [] then [] else Reversed(ps[1..]) + [ps[0]]
  }

  /** The polygon, wound so that its centroid is on the inner side of its first edge. */
  function Oriented(clip: Polygon): (r: Polygon)
    requires |clip| >= 2
    ensures |r| == |clip|
  {
    if Side(Centroid(clip), clip[0], clip[1]) < 0.0 then Reversed(clip) else clip
  }

  /** Without two clip points there is no first edge to test, which is an error. */
  function Clipped(subject: Polygon, clip: Polygon): Option<Polygon> {
    if |clip| < 2 then None else Some(ClipFrom(subject, Oriented(clip), 0))
  }

  // ---- the loops ----

  /** What one side of the subject leaves, pushed onto the rest. */
  method PushKept(o: Polygon, p: Point, q: Point, a: Point, b: Point) returns (r: Polygon)
    ensures r == o + Kept(p, q, a, b)
  {
    var d1, d2 := Side(p, a, b), Side(q, a, b);
    r := o;
    if d1 >= 0.0 {
      r := r + [p];
    }
    if (d1 >= 0.0) != (d2 >= 0.0) {
      var t := d1 / (d1 - d2);
      var crossing := Point(p.x + (q.x - p.x) * t, p.y + (q.y - p.y) * t);
      assert crossing == Crossing(p, q, a, b);
      r := r + [crossing];
    }
  }

  method ClipConvex(subject: Polygon, clip: Polygon) returns (result: Option<Polygon>)
    ensures result == Clipped(subject, clip)
  {
    if |clip| < 2 {
      return None;
    }
    var edges := clip;
    if Side(Centroid(clip), clip[0], clip[1]) < 0.0 {
      edges := Reversed(clip);
    }
    var n := |edges|;
    var subj := subject;
    for i := 0 to n
      invariant ClipFrom(subj, edges, i) == ClipFrom(subject, edges, 0)
    {
      if subj == [] {
        return Some(subj);
      }
      var j := if i == n - 1 then 0 else i + 1;
      var a, b := edges[i], edges[j];
      var o: Polygon := [];
      var m := |subj|;
      for k := 0 to m
        invariant o == KeptUpTo(subj, k, a, b)
      {
        var l := if k == m - 1 then 0 else k + 1;
        var p, q := subj[k], subj[l];
        o := PushKept(o, p, q, a, b);
      }
      subj := o;
    }
    result := Some(subj);
  }

  // ---- crossings ----

  lemma SideBetween(p: Point, q: Point, t: real, a: Point, b: Point)
    ensures Side(Between(p, q, t), a, b) == Side(p, a, b) + (Side(q, a, b) - Side(p, a, b)) * t
  {
    var ux, uy := b.x - a.x, b.y - a.y;
    var dx, dy := q.x - p.x, q.y - p.y;
    Expand(ux, p.y - a.y, dy, t);
    Expand(uy, p.x - a.x, dx, t);
    Expand(ux, p.y - a.y, dy, 1.0);
    Expand(uy, p.x - a.x, dx, 1.0);
    Factor(ux * dy, uy * dx, t);
  }

  lemma Expand(u: real, v: real, d: real, t: real)
    ensures u * (v + d * t) == u * v + (u * d) * t
  {
  }

  lemma Factor(x: real, y: real, t: real)
    ensures (x - y) * t == x * t - y * t
  {
  }

  /** A crossing is on the line, between the two points. */
  lemma CrossingIsBetween(p: Point, q: Point, a: Point, b: Point) returns (t: real)
    requires Inner(p, a, b) != Inner(q, a, b)
    ensures 0.0 <= t <= 1.0 && Crossing(p, q, a, b) == Between(p, q, t)
    ensures Side(Crossing(p, q, a, b), a, b) == 0.0
  {
    var d1, d2 := Side(p, a, b), Side(q, a, b);
    t := d1 / (d1 - d2);
    Fraction(d1, d2);
    SideBetween(p, q, t, a, b);
  }

  lemma Fraction(d1: real, d2: real)
    requires (d1 >= 0.0) != (d2 >= 0.0)
    ensures 0.0 <= d1 / (d1 - d2) <= 1.0 && d1 + (d2 - d1) * (d1 / (d1 - d2)) == 0.0
  {
    var t := d1 / (d1 - d2);
    assert t * (d1 - d2) == d1;
    assert (d2 - d1) * t == -(t * (d1 - d2));
    if d1 >= 0.0 {
      assert t >= 0.0;
    }
  }

  /** What is on the inner side of a line at both ends is so on the way. */
  lemma HalfPlaneIsConvex(p: Point, q: Point, t: real, a: Point, b: Point)
    requires 0.0 <= t <= 1.0 && Inner(p, a, b) && Inner(q, a, b)
    ensures Inner(Between(p, q, t), a, b)
  {
    SideBetween(p, q, t, a, b);
    Mixed(Side(p, a, b), Side(q, a, b), t);
  }

  lemma Mixed(u: real, v: real, t: real)
    requires u >= 0.0 && v >= 0.0 && 0.0 <= t <= 1.0
    ensures u + (v - u) * t >= 0.0
  {
    assert u + (v - u) * t == u * (1.0 - t) + v * t;
    assert u * (1.0 - t) >= 0.0 && v * t >= 0.0;
  }

  // ---- one edge ----

  ghost predicate AllInner(ps: Polygon, a: Point, b: Point) {
    forall p :: p in ps ==> Inner(p, a, b)
  }

  lemma KeptIsInner(p: Point, q: Point, a: Point, b: Point)
    ensures AllInner(Kept(p, q, a, b), a, b)
  {
    if Inner(p, a, b) != Inner(q, a, b) {
      var t := CrossingIsBetween(p, q, a, b);
    }
  }

  /** One edge keeps every half-plane the side was in. */
  lemma KeptStaysInner(p: Point, q: Point, a: Point, b: Point, c: Point, d: Point)
    requires Inner(p, c, d) && Inner(q, c, d)
    ensures AllInner(Kept(p, q, a, b), c, d)
  {
    if Inner(p, a, b) != Inner(q, a, b) {
      var t := CrossingIsBetween(p, q, a, b);
      HalfPlaneIsConvex(p, q, t, c, d);
    }
  }

  lemma {:induction false} EdgeIsInner(subject: Polygon, k: nat, a: Point, b: Point)
    requires k <= |subject|
    ensures AllInner(KeptUpTo(subject, k, a, b), a, b)
  {
    if k > 0 {
      EdgeIsInner(subject, k - 1, a, b);
      KeptIsInner(subject[k - 1], subject[Next(k - 1, |subject|)], a, b);
    }
  }

  lemma {:induction false} EdgeStaysInner(subject: Polygon, k: nat, a: Point, b: Point, c: Point, d: Point)
    requires k <= |subject| && AllInner(subject, c, d)
    ensures AllInner(KeptUpTo(subject, k, a, b), c, d)
  {
    if k > 0 {
      EdgeStaysInner(subject, k - 1, a, b, c, d);
      assert subject[k - 1] in subject && subject[Next(k - 1, |subject|)] in subject;
      KeptStaysInner(subject[k - 1], subject[Next(k - 1, |subject|)], a, b, c, d);
    }
  }

  /** A subject on the inner side is left as it is. */
  lemma {:induction false} InnerIsKept(subject: Polygon, k: nat, a: Point, b: Point)
    requires k <= |subject| && AllInner(subject, a, b)
    ensures KeptUpTo(subject, k, a, b) == subject[..k]
  {
    if k > 0 {
      InnerIsKept(subject, k - 1, a, b);
      assert subject[k - 1] in subject && subject[Next(k - 1, |subject|)] in subject;
      assert subject[..k] == subject[..k - 1] + [subject[k - 1]];
    }
  }

  lemma {:induction false} InnerPointIsKept(subject: Polygon, k: nat, a: Point, b: Point, p: Point)
    requires k <= |subject| && p in subject[..k] && Inner(p, a, b)
    ensures p in KeptUpTo(subject, k, a, b)
  {
    if p != subject[k - 1] {
      assert p in subject[..k - 1];
      InnerPointIsKept(subject, k - 1, a, b, p);
    }
  }

  // ---- every edge ----

  /** On the inner side of every edge of the polygon. */
  ghost predicate Inside(ps: Polygon, clip: Polygon) {
    forall i :: 0 <= i < |clip| ==> AllInner(ps, clip[i], clip[Next(i, |clip|)])
  }

  /** Whatever half-plane holds the subject holds what is left of it. */
  lemma {:induction false} ClipStaysInner(subject: Polygon, clip: Polygon, i: nat, c: Point, d: Point)
    requires i <= |clip| && AllInner(subject, c, d)
    ensures AllInner(ClipFrom(subject, clip, i), c, d)
    decreases |clip| - i
  {
    if i < |clip| && subject != [] {
      var a, b := clip[i], clip[Next(i, |clip|)];
      EdgeStaysInner(subject, |subject|, a, b, c, d);
      ClipStaysInner(ClipEdge(subject, a, b), clip, i + 1, c, d);
    }
  }

  lemma {:induction false} ClipIsInner(subject: Polygon, clip: Polygon, i: nat, j: nat)
    requires i <= j < |clip|
    ensures AllInner(ClipFrom(subject, clip, i), clip[j], clip[Next(j, |clip|)])
    decreases |clip| - i
  {
    if subject != [] {
      var a, b := clip[i], clip[Next(i, |clip|)];
      var rest := ClipEdge(subject, a, b);
      if i == j {
        EdgeIsInner(subject, |subject|, a, b);
        ClipStaysInner(rest, clip, i + 1, a, b);
      } else {
        ClipIsInner(rest, clip, i + 1, j);
      }
    }
  }

  /** What is inside already is left as it is, vertex by vertex. */
  lemma {:induction false} InsideIsUnchanged(subject: Polygon, clip: Polygon, i: nat)
    requires i <= |clip| && Inside(subject, clip)
    ensures ClipFrom(subject, clip, i) == subject
    decreases |clip| - i
  {
    if i < |clip| && subject != [] {
      InnerIsKept(subject, |subject|, clip[i], clip[Next(i, |clip|)]);
      assert subject[..|subject|] == subject;
      InsideIsUnchanged(subject, clip, i + 1);
    }
  }

  lemma {:induction false} InsidePointIsKept(subject: Polygon, clip: Polygon, i: nat, p: Point)
    requires i <= |clip| && p in subject && Inside([p], clip)
    ensures p in ClipFrom(subject, clip, i)
    decreases |clip| - i
  {
    if i < |clip| {
      var a, b := clip[i], clip[Next(i, |clip|)];
      assert p in [p] && Inner(p, a, b);
      assert subject[..|subject|] == subject;
      InnerPointIsKept(subject, |subject|, a, b, p);
      InsidePointIsKept(ClipEdge(subject, a, b), clip, i + 1, p);
    }
  }

  // ---- the boundary ----

  /** On a side of the polygon. */
  ghost predicate OnBoundary(x: Point, ps: Polygon) {
    exists k: nat, t: real :: OnSide(x, ps, k, t)
  }

  predicate OnSide(x: Point, ps: Polygon, k: nat, t: real) {
    k < |ps| && 0.0 <= t <= 1.0 && x == Between(ps[k], ps[Next(k, |ps|)], t)
  }

  /** A part of the way that is no further than another is a part of the way there. */
  lemma BeforeIt(p: Point, q: Point, t: real, s: real) returns (r: real)
    requires 0.0 <= t <= s
    ensures 0.0 <= r <= 1.0 && Between(p, Between(p, q, s), r) == Between(p, q, t)
  {
    r := if s == 0.0 then 0.0 else t / s;
    if s > 0.0 {
      Quotient(t, s);
    }
    assert s * r == t;
    PartOfWay(p, q, s, r, t);
  }

  lemma PartOfWay(p: Point, q: Point, s: real, r: real, t: real)
    requires s * r == t
    ensures Between(p, Between(p, q, s), r) == Between(p, q, t)
  {
    Parted(p.x, q.x, s, r, t);
    Parted(p.y, q.y, s, r, t);
    var c := Between(p, q, s);
    assert p.x + (c.x - p.x) * r == p.x + (q.x - p.x) * t;
    assert p.y + (c.y - p.y) * r == p.y + (q.y - p.y) * t;
  }

  lemma Parted(p: real, q: real, s: real, r: real, t: real)
    requires s * r == t
    ensures p + ((p + (q - p) * s) - p) * r == p + (q - p) * t
  {
    assert (p + (q - p) * s) - p == (q - p) * s;
    Nested(q - p, s, r);
  }

  lemma Nested(d: real, s: real, r: real)
    ensures (d * s) * r == d * (s * r)
  {
  }

  /** And one that is no nearer is a part of the way from there. */
  lemma AfterIt(p: Point, q: Point, t: real, s: real) returns (r: real)
    requires s <= t <= 1.0
    ensures 0.0 <= r <= 1.0 && Between(Between(p, q, s), q, r) == Between(p, q, t)
  {
    r := if s == 1.0 then 0.0 else (t - s) / (1.0 - s);
    assert (1.0 - s) * r == t - s;
    RestOfWay(p, q, s, r, t);
    if s < 1.0 {
      Quotient(t - s, 1.0 - s);
    }
  }

  lemma Quotient(u: real, v: real)
    requires 0.0 <= u <= v && v > 0.0
    ensures 0.0 <= u / v <= 1.0
  {
  }

  lemma RestOfWay(p: Point, q: Point, s: real, r: real, t: real)
    requires (1.0 - s) * r == t - s
    ensures Between(Between(p, q, s), q, r) == Between(p, q, t)
  {
    Remaining(p.x, q.x, s, r, t);
    Remaining(p.y, q.y, s, r, t);
    var c := Between(p, q, s);
    assert c.x + (q.x - c.x) * r == p.x + (q.x - p.x) * t;
    assert c.y + (q.y - c.y) * r == p.y + (q.y - p.y) * t;
  }

  lemma Remaining(p: real, q: real, s: real, r: real, t: real)
    requires (1.0 - s) * r == t - s
    ensures (p + (q - p) * s) + (q - (p + (q - p) * s)) * r == p + (q - p) * t
  {
    var d := q - p;
    assert q - (p + d * s) == d * (1.0 - s);
    Nested(d, 1.0 - s, r);
    assert d * (t - s) == d * t - d * s;
  }

  /** Where a point between the two ends lies of the crossing. */
  lemma InnerOfCrossing(p: Point, q: Point, t: real, a: Point, b: Point)
    requires 0.0 <= t <= 1.0 && Inner(Between(p, q, t), a, b) && Inner(p, a, b) != Inner(q, a, b)
    ensures var s := Side(p, a, b) / (Side(p, a, b) - Side(q, a, b));
            if Inner(p, a, b) then t <= s else s <= t
  {
    SideBetween(p, q, t, a, b);
    Threshold(Side(p, a, b), Side(q, a, b), t);
  }

  lemma Threshold(u: real, v: real, t: real)
    requires (u >= 0.0) != (v >= 0.0) && u + (v - u) * t >= 0.0
    ensures if u >= 0.0 then t <= u / (u - v) else u / (u - v) <= t
  {
    var s := u / (u - v);
    assert s * (u - v) == u;
    assert (u - v) * (s - t) == s * (u - v) + (v - u) * t;
    if u >= 0.0 {
      assert (u - v) * (s - t) >= 0.0 && u - v > 0.0;
      assert s - t >= 0.0;
    } else {
      assert (u - v) * (s - t) >= 0.0 && u - v < 0.0;
      assert s - t <= 0.0;
    }
  }

  lemma OuterBetween(p: Point, q: Point, t: real, a: Point, b: Point)
    requires 0.0 <= t <= 1.0 && !Inner(p, a, b) && !Inner(q, a, b)
    ensures !Inner(Between(p, q, t), a, b)
  {
    SideBetween(p, q, t, a, b);
    var u, v := Side(p, a, b), Side(q, a, b);
    assert u + (v - u) * t == u * (1.0 - t) + v * t;
    assert u * (1.0 - t) <= 0.0 && v * t <= 0.0;
    assert t < 1.0 ==> u * (1.0 - t) < 0.0;
    assert t == 1.0 ==> v * t < 0.0;
  }

  // ---- one edge keeps the boundary inside it ----

  lemma {:induction false} KeptGrows(subject: Polygon, j: nat, k: nat, a: Point, b: Point)
    requires j <= k <= |subject|
    ensures KeptUpTo(subject, j, a, b) <= KeptUpTo(subject, k, a, b)
    decreases k
  {
    if j < k {
      KeptGrows(subject, j, k - 1, a, b);
    }
  }

  /** What a side leaves is in place in what is left of all, and after it, if the side ends inside, its end. */
  lemma KeptInPlace(subject: Polygon, k: nat, a: Point, b: Point) returns (at: nat)
    requires k < |subject|
    ensures var kept, o := Kept(subject[k], subject[Next(k, |subject|)], a, b), ClipEdge(subject, a, b);
            && at + |kept| <= |o| && o[at..at + |kept|] == kept
            && (Inner(subject[Next(k, |subject|)], a, b) && kept != [] ==>
                  o[Next(at + |kept| - 1, |o|)] == subject[Next(k, |subject|)])
  {
    var kept, o := Kept(subject[k], subject[Next(k, |subject|)], a, b), ClipEdge(subject, a, b);
    var before := KeptUpTo(subject, k, a, b);
    at := |before|;
    KeptGrows(subject, k + 1, |subject|, a, b);
    assert before + kept <= o;
    if Inner(subject[Next(k, |subject|)], a, b) && kept != [] {
      StartsNext(subject, k, a, b);
    }
  }

  /** The start of a side that is inner comes right after what the sides before it leave. */
  lemma StartsNext(subject: Polygon, k: nat, a: Point, b: Point)
    requires k < |subject| && Inner(subject[Next(k, |subject|)], a, b)
    ensures var n, o := |KeptUpTo(subject, k + 1, a, b)|, ClipEdge(subject, a, b);
            n <= |o| && (n > 0 ==> o[Next(n - 1, |o|)] == subject[Next(k, |subject|)])
  {
    var m, o := |subject|, ClipEdge(subject, a, b);
    var l := Next(k, m);
    KeptGrows(subject, k + 1, m, a, b);
    InnerIsNext(subject, l, a, b);
  }

  lemma InnerIsNext(subject: Polygon, l: nat, a: Point, b: Point)
    requires l < |subject| && Inner(subject[l], a, b)
    ensures var n, o := |KeptUpTo(subject, l, a, b)|, ClipEdge(subject, a, b);
            n < |o| && o[n] == subject[l]
  {
    KeptGrows(subject, l + 1, |subject|, a, b);
    InnerIsLast(subject, l, a, b);
  }

  lemma InnerIsLast(subject: Polygon, l: nat, a: Point, b: Point)
    requires l < |subject| && Inner(subject[l], a, b)
    ensures KeptUpTo(subject, l, a, b) + [subject[l]] <= KeptUpTo(subject, l + 1, a, b)
  {
  }

  lemma OnSideIs(x: Point, ps: Polygon, k: nat, t: real)
    requires OnSide(x, ps, k, t)
    ensures OnBoundary(x, ps)
  {
  }

  /** A point of a side that is inside the edge is on a side of what is left. */
  lemma EdgeKeepsBoundary(subject: Polygon, x: Point, k: nat, t: real, a: Point, b: Point)
    requires OnSide(x, subject, k, t) && Inner(x, a, b)
    ensures OnBoundary(x, ClipEdge(subject, a, b))
  {
    var p, q := subject[k], subject[Next(k, |subject|)];
    var kept, o := Kept(p, q, a, b), ClipEdge(subject, a, b);
    var at := KeptInPlace(subject, k, a, b);
    if Inner(p, a, b) && Inner(q, a, b) {
      assert o[at] == kept[0] == p;
      OnSideIs(x, o, at, t);
    } else if Inner(p, a, b) != Inner(q, a, b) {
      var s := Side(p, a, b) / (Side(p, a, b) - Side(q, a, b));
      Fraction(Side(p, a, b), Side(q, a, b));
      InnerOfCrossing(p, q, t, a, b);
      if Inner(p, a, b) {
        var r := BeforeIt(p, q, t, s);
        assert o[at] == kept[0] == p && o[at + 1] == kept[1] == Between(p, q, s);
        OnSideIs(x, o, at, r);
      } else {
        var r := AfterIt(p, q, t, s);
        assert o[at] == kept[0] == Between(p, q, s);
        OnSideIs(x, o, at, r);
      }
    } else {
      OuterBetween(p, q, t, a, b);
    }
  }

  lemma {:induction false} ClipKeepsBoundary(subject: Polygon, clip: Polygon, i: nat, x: Point)
    requires i <= |clip| && OnBoundary(x, subject) && Inside([x], clip)
    ensures OnBoundary(x, ClipFrom(subject, clip, i))
    decreases |clip| - i
  {
    if i < |clip| {
      var k: nat, t: real :| OnSide(x, subject, k, t);
      var a, b := clip[i], clip[Next(i, |clip|)];
      assert x in [x] && Inner(x, a, b);
      EdgeKeepsBoundary(subject, x, k, t, a, b);
      ClipKeepsBoundary(ClipEdge(subject, a, b), clip, i + 1, x);
    }
  }

  // ---- the winding ----

  /** Every point of the polygon is on one side of every edge: left of each for `1`, right for `-1`. */
  ghost predicate WoundBy(clip: Polygon, sign: real) {
    forall i, p :: 0 <= i < |clip| && p in clip ==> Hand(sign, p, clip[i], clip[Next(i, |clip|)])
  }

  predicate Hand(sign: real, p: Point, a: Point, b: Point) { sign * Side(p, a, b) >= 0.0 }

  /** Convex, wound either way, and not all on one line. */
  ghost predicate Convex(clip: Polygon) {
    && |clip| >= 3
    && (WoundBy(clip, 1.0) || WoundBy(clip, -1.0))
    && exists p :: p in clip && Side(p, clip[0], clip[1]) != 0.0
  }

  function SumOfSides(ps: Polygon, a: Point, b: Point): real {
    if ps == [] then 0.0 else Side(ps[0], a, b) + SumOfSides(ps[1..], a, b)
  }

  lemma {:induction false} SidesSum(ps: Polygon, a: Point, b: Point)
    ensures SumOfSides(ps, a, b) ==
            (b.x - a.x) * (SumY(ps) - |ps| as real * a.y) - (b.y - a.y) * (SumX(ps) - |ps| as real * a.x)
  {
    if ps != [] {
      SidesSum(ps[1..], a, b);
      var m := |ps[1..]| as real;
      assert |ps| as real == m + 1.0;
      AddTo(b.x - a.x, ps[0].y, a.y, SumY(ps[1..]), m);
      AddTo(b.y - a.y, ps[0].x, a.x, SumX(ps[1..]), m);
    }
  }

  lemma AddTo(u: real, v: real, w: real, sum: real, m: real)
    ensures u * (v - w) + u * (sum - m * w) == u * (v + sum - (m + 1.0) * w)
  {
  }

  /** The side of the centroid is the mean of the sides. */
  lemma CentroidSide(ps: Polygon, a: Point, b: Point)
    requires ps != []
    ensures |ps| as real * Side(Centroid(ps), a, b) == SumOfSides(ps, a, b)
  {
    var n := |ps| as real;
    SidesSum(ps, a, b);
    var c := Centroid(ps);
    assert n * c.x == SumX(ps) && n * c.y == SumY(ps);
    Scale(n, b.x - a.x, c.y, a.y);
    Scale(n, b.y - a.y, c.x, a.x);
    Distribute(n, (b.x - a.x) * (c.y - a.y), (b.y - a.y) * (c.x - a.x));
  }

  lemma Scale(n: real, u: real, v: real, w: real)
    ensures n * (u * (v - w)) == u * (n * v - n * w)
  {
  }

  lemma Distribute(n: real, x: real, y: real)
    ensures n * (x - y) == n * x - n * y
  {
  }

  lemma {:induction false} SumHasSign(ps: Polygon, a: Point, b: Point, sign: real)
    requires forall p :: p in ps ==> sign * Side(p, a, b) >= 0.0
    ensures sign * SumOfSides(ps, a, b) >= 0.0
    ensures (exists p :: p in ps && sign * Side(p, a, b) > 0.0) ==> sign * SumOfSides(ps, a, b) > 0.0
  {
    if ps != [] {
      SumHasSign(ps[1..], a, b, sign);
      assert ps == [ps[0]] + ps[1..];
      Distribute(sign, Side(ps[0], a, b), -SumOfSides(ps[1..], a, b));
    }
  }

  lemma SideOfReversedEdge(p: Point, a: Point, b: Point)
    ensures Side(p, b, a) == -Side(p, a, b)
  {
    var u, v := b.x - a.x, b.y - a.y;
    assert Side(p, b, a) == -u * (p.y - b.y) + v * (p.x - b.x);
    assert u * (p.y - b.y) == u * (p.y - a.y) - u * v;
    assert v * (p.x - b.x) == v * (p.x - a.x) - v * u;
  }

  lemma ReversedIsWound(clip: Polygon)
    requires WoundBy(clip, -1.0)
    ensures WoundBy(Reversed(clip), 1.0)
  {
    var r, n := Reversed(clip), |clip|;
    forall i, p | 0 <= i < n && p in r
      ensures Hand(1.0, p, r[i], r[Next(i, n)])
    {
      var j := n - 1 - Next(i, n);
      assert clip[j] == r[Next(i, n)] && clip[Next(j, n)] == r[i];
      assert p in clip && Hand(-1.0, p, clip[j], clip[Next(j, n)]);
      SideOfReversedEdge(p, clip[j], clip[Next(j, n)]);
    }
  }

  /** The test of the centroid picks the side the polygon is on, whichever way it is wound. */
  lemma OrientationIsRight(clip: Polygon)
    requires Convex(clip)
    ensures WoundBy(Oriented(clip), 1.0) && Inside(Oriented(clip), Oriented(clip))
  {
    var a, b := clip[0], clip[1];
    var sign := if WoundBy(clip, 1.0) then 1.0 else -1.0;
    assert WoundBy(clip, sign);
    assert forall p :: p in clip ==> Hand(sign, p, clip[0], clip[Next(0, |clip|)]);
    SumHasSign(clip, a, b, sign);
    CentroidSide(clip, a, b);
    var c := Side(Centroid(clip), a, b);
    assert sign * c > 0.0;
    if c < 0.0 {
      ReversedIsWound(clip);
    }
    var r := Oriented(clip);
    forall i | 0 <= i < |r|
      ensures AllInner(r, r[i], r[Next(i, |r|)])
    {
      assert forall p :: p in r ==> Hand(1.0, p, r[i], r[Next(i, |r|)]);
    }
  }

  // ---- the results ----

  /**
   Every vertex left is inside the clip polygon, and in every half-plane that
   holds the subject; every subject vertex inside is still there.
   */
  lemma ClippingIsInside(subject: Polygon, clip: Polygon)
    requires |clip| >= 2
    ensures var result := Clipped(subject, clip).value;
            && Inside(result, Oriented(clip))
            && (forall c, d :: AllInner(subject, c, d) ==> AllInner(result, c, d))
            && (forall p :: p in subject && Inside([p], Oriented(clip)) ==> p in result)
  {
    var edges := Oriented(clip);
    var result := ClipFrom(subject, edges, 0);
    forall j | 0 <= j < |edges|
      ensures AllInner(result, edges[j], edges[Next(j, |edges|)])
    {
      ClipIsInner(subject, edges, 0, j);
    }
    forall c, d | AllInner(subject, c, d)
      ensures AllInner(result, c, d)
    {
      ClipStaysInner(subject, edges, 0, c, d);
    }
    forall p | p in subject && Inside([p], edges)
      ensures p in result
    {
      InsidePointIsKept(subject, edges, 0, p);
    }
  }

  /**
   Nothing inside is cut away: every point of the subject's boundary that is inside
   the clip polygon is on the boundary of the result, and so in every half-plane
   that holds the result.
   */
  lemma ClippingKeepsWhatIsInside(subject: Polygon, clip: Polygon, x: Point)
    requires |clip| >= 2 && OnBoundary(x, subject) && Inside([x], Oriented(clip))
    ensures OnBoundary(x, Clipped(subject, clip).value)
    ensures forall c, d :: AllInner(Clipped(subject, clip).value, c, d) ==> Inner(x, c, d)
  {
    var result := ClipFrom(subject, Oriented(clip), 0);
    ClipKeepsBoundary(subject, Oriented(clip), 0, x);
    var k: nat, t: real :| OnSide(x, result, k, t);
    forall c, d | AllInner(result, c, d)
      ensures Inner(x, c, d)
    {
      assert result[k] in result && result[Next(k, |result|)] in result;
      HalfPlaneIsConvex(result[k], result[Next(k, |result|)], t, c, d);
    }
  }

  /** A subject already inside is returned as it is. */
  lemma ClippingInsideChangesNothing(subject: Polygon, clip: Polygon)
    requires |clip| >= 2 && Inside(subject, Oriented(clip))
    ensures Clipped(subject, clip) == Some(subject)
  {
    InsideIsUnchanged(subject, Oriented(clip), 0);
  }

  /** A second clip changes nothing. */
  lemma ClippingTwice(subject: Polygon, clip: Polygon)
    requires |clip| >= 2
    ensures Clipped(Clipped(subject, clip).value, clip) == Clipped(subject, clip)
  {
    ClippingIsInside(subject, clip);
    ClippingInsideChangesNothing(Clipped(subject, clip).value, clip);
  }

  /** Clipped to itself, a convex polygon of either winding is returned whole. */
  lemma ConvexClipsToItself(clip: Polygon)
    requires Convex(clip)
    ensures Clipped(clip, clip) == Some(clip)
  {
    OrientationIsRight(clip);
    var r := Oriented(clip);
    assert forall p :: p in clip ==> p in r;
    forall i | 0 <= i < |r|
      ensures AllInner(clip, r[i], r[Next(i, |r|)])
    {
    }
    ClippingInsideChangesNothing(clip, clip);
  }
}
