/**
 Clipping any subject, convex or not: the result winds about a point inside the
 clip polygon as often as the subject does, and about a point outside it never.
 */
module Winding {
  import opened Outcomes
  import opened Clip

  // ---- sums along a path ----

  /** Something counted along each step of a path. */
  type Steps = (Point, Point) -> int

  function SumAlong(path: Polygon, d: Steps): int {
    if |path| < 2 then 0
    else SumAlong(path[..|path| - 1], d) + d(path[|path| - 2], path[|path| - 1])
  }

  /** The polygon and its first vertex again. */
  function Closed(ps: Polygon): Polygon { if ps == [] then [] else ps + [ps[0]] }

  function SumAround(ps: Polygon, d: Steps): int { SumAlong(Closed(ps), d) }

  lemma OneMore(path: Polygon, p: Point, q: Point, d: Steps)
    ensures SumAlong(path + [p] + [q], d) == SumAlong(path + [p], d) + d(p, q)
  {
    assert (path + [p] + [q])[..|path| + 1] == path + [p];
  }

  // ---- counted on one side of a line only ----

  /** Nothing is counted between points of the line or the outer side, and a step is worth its two parts at a crossing. */
  ghost predicate CountsInside(d: Steps, a: Point, b: Point) {
    forall p, q :: NothingOutside(d, p, q, a, b) && InTwoParts(d, p, q, a, b)
  }

  predicate Outer(p: Point, a: Point, b: Point) { Side(p, a, b) <= 0.0 }

  predicate NothingOutside(d: Steps, p: Point, q: Point, a: Point, b: Point) {
    Outer(p, a, b) && Outer(q, a, b) ==> d(p, q) == 0
  }

  predicate InTwoParts(d: Steps, p: Point, q: Point, a: Point, b: Point) {
    Inner(p, a, b) != Inner(q, a, b) ==> d(p, Crossing(p, q, a, b)) + d(Crossing(p, q, a, b), q) == d(p, q)
  }

  /** What is left of a part of the subject counts the same, and starts and ends with it, or outside. */
  ghost predicate Follows(left: Polygon, part: Polygon, d: Steps, a: Point, b: Point)
    requires part != []
  {
    var p, q := part[0], part[|part| - 1];
    && SumAlong(left + [q], d) == SumAlong(part, d)
    && (left == [] && |part| > 1 ==> !Inner(p, a, b) && !Inner(q, a, b))
    && (left != [] ==> (if Inner(p, a, b) then left[0] == p else Outer(left[0], a, b)))
    && (left != [] && !Inner(q, a, b) ==> Outer(left[|left| - 1], a, b))
  }

  lemma CrossingIsOuter(p: Point, q: Point, a: Point, b: Point)
    requires Inner(p, a, b) != Inner(q, a, b)
    ensures Outer(Crossing(p, q, a, b), a, b)
  {
    var t := CrossingIsBetween(p, q, a, b);
  }

  /** From what is left to an outer point, or to the crossing there, nothing is counted. */
  lemma OuterEnd(left: Polygon, p: Point, q: Point, d: Steps, a: Point, b: Point)
    requires CountsInside(d, a, b) && Outer(p, a, b) && Outer(q, a, b)
    requires left != [] ==> Outer(left[|left| - 1], a, b)
    ensures SumAlong(left + [p], d) == SumAlong(left + [q], d)
  {
    if left != [] {
      NothingBetween(left[|left| - 1], p, d, a, b);
      NothingBetween(left[|left| - 1], q, d, a, b);
      SameEnd(left, p, q, d);
    }
  }

  lemma SameEnd(left: Polygon, p: Point, q: Point, d: Steps)
    requires left != [] && d(left[|left| - 1], p) == d(left[|left| - 1], q)
    ensures SumAlong(left + [p], d) == SumAlong(left + [q], d)
  {
    var front, e := left[..|left| - 1], left[|left| - 1];
    assert left == front + [e];
    OneMore(front, e, p, d);
    OneMore(front, e, q, d);
  }

  lemma CountOfStep(left: Polygon, p: Point, q: Point, d: Steps, a: Point, b: Point)
    requires CountsInside(d, a, b) && (left != [] && !Inner(p, a, b) ==> Outer(left[|left| - 1], a, b))
    ensures SumAlong(left + Kept(p, q, a, b) + [q], d) == SumAlong(left + [p], d) + d(p, q)
  {
    if Inner(p, a, b) {
      FromInner(left, p, q, d, a, b);
    } else if Inner(q, a, b) {
      FromOuter(left, p, q, d, a, b);
    } else {
      StaysOuter(left, p, q, d, a, b);
      OuterLeavesNothing(left, p, q, a, b);
    }
  }

  lemma OuterLeavesNothing(left: Polygon, p: Point, q: Point, a: Point, b: Point)
    requires !Inner(p, a, b) && !Inner(q, a, b)
    ensures left + Kept(p, q, a, b) == left
  {
  }

  lemma StaysOuter(left: Polygon, p: Point, q: Point, d: Steps, a: Point, b: Point)
    requires CountsInside(d, a, b) && (left != [] ==> Outer(left[|left| - 1], a, b))
    requires !Inner(p, a, b) && !Inner(q, a, b)
    ensures SumAlong(left + [q], d) == SumAlong(left + [p], d) + d(p, q)
  {
    NothingBetween(p, q, d, a, b);
    OuterEnd(left, p, q, d, a, b);
  }

  lemma NothingBetween(p: Point, q: Point, d: Steps, a: Point, b: Point)
    requires CountsInside(d, a, b) && Outer(p, a, b) && Outer(q, a, b)
    ensures d(p, q) == 0
  {
    assert NothingOutside(d, p, q, a, b);
  }

  lemma FromOuter(left: Polygon, p: Point, q: Point, d: Steps, a: Point, b: Point)
    requires CountsInside(d, a, b) && (left != [] ==> Outer(left[|left| - 1], a, b))
    requires !Inner(p, a, b) && Inner(q, a, b)
    ensures SumAlong(left + Kept(p, q, a, b) + [q], d) == SumAlong(left + [p], d) + d(p, q)
  {
    CrossingIsOuter(p, q, a, b);
    var c := Crossing(p, q, a, b);
    OuterEnd(left, p, c, d, a, b);
    NothingBetween(p, c, d, a, b);
    assert InTwoParts(d, p, q, a, b);
    OneMore(left, c, q, d);
    assert Kept(p, q, a, b) == [c];
  }

  lemma FromInner(left: Polygon, p: Point, q: Point, d: Steps, a: Point, b: Point)
    requires CountsInside(d, a, b) && Inner(p, a, b)
    ensures SumAlong(left + Kept(p, q, a, b) + [q], d) == SumAlong(left + [p], d) + d(p, q)
  {
    if Inner(q, a, b) {
      OneMore(left, p, q, d);
      assert Kept(p, q, a, b) == [p];
    } else {
      var c := Crossing(p, q, a, b);
      assert InTwoParts(d, p, q, a, b);
      OneMore(left, p, c, d);
      OneMore(left + [p], c, q, d);
      assert left + Kept(p, q, a, b) == left + [p] + [c];
    }
  }

  lemma OneSide(left: Polygon, part: Polygon, q: Point, d: Steps, a: Point, b: Point)
    requires CountsInside(d, a, b) && part != [] && Follows(left, part, d, a, b) && (|part| == 1 ==> left == [])
    ensures Follows(left + Kept(part[|part| - 1], q, a, b), part + [q], d, a, b)
  {
    var p := part[|part| - 1];
    CountOfStep(left, p, q, d, a, b);
    assert part == part[..|part| - 1] + [p];
    OneMore(part[..|part| - 1], p, q, d);
    if Inner(p, a, b) != Inner(q, a, b) {
      CrossingIsOuter(p, q, a, b);
    }
  }

  lemma {:induction false} SidesFollow(ps: Polygon, k: nat, d: Steps, a: Point, b: Point)
    requires CountsInside(d, a, b) && ps != [] && k <= |ps|
    ensures Follows(KeptUpTo(ps, k, a, b), Closed(ps)[..k + 1], d, a, b)
  {
    if k > 0 {
      SidesFollow(ps, k - 1, d, a, b);
      assert Closed(ps)[..k + 1] == Closed(ps)[..k] + [ps[Next(k - 1, |ps|)]];
      OneSide(KeptUpTo(ps, k - 1, a, b), Closed(ps)[..k], ps[Next(k - 1, |ps|)], d, a, b);
    }
  }

  /** Whatever is counted on the inner side only is the same around what one edge leaves. */
  lemma EdgeKeepsCount(ps: Polygon, d: Steps, a: Point, b: Point)
    requires CountsInside(d, a, b)
    ensures SumAround(ClipEdge(ps, a, b), d) == SumAround(ps, d)
  {
    if ps != [] {
      SidesFollow(ps, |ps|, d, a, b);
      assert Closed(ps)[..|ps| + 1] == Closed(ps);
      SameAround(ClipEdge(ps, a, b), ps, d, a, b);
    }
  }

  lemma SameAround(o: Polygon, ps: Polygon, d: Steps, a: Point, b: Point)
    requires CountsInside(d, a, b) && ps != [] && Follows(o, Closed(ps), d, a, b)
    ensures SumAround(o, d) == SumAround(ps, d)
  {
    if o != [] && !Inner(ps[0], a, b) {
      OuterEnd(o, ps[0], o[0], d, a, b);
    }
  }

  // ---- winding ----

  /** A step upwards on the right of the point, or downwards: how it counts. */
  function Passing(x: Point, p: Point, q: Point): int { PassingAt(x.y, p.y, q.y, Side(x, p, q)) }

  /** By the heights of the point and of the two ends, and the side the point is on. */
  function PassingAt(height: real, from: real, to: real, side: real): int {
    if from <= height < to && side > 0.0 then 1
    else if to <= height < from && side < 0.0 then -1
    else 0
  }

  /** How often the polygon winds about the point, anticlockwise. */
  function WindingNumber(x: Point, ps: Polygon): int { SumAround(ps, (p, q) => Passing(x, p, q)) }

  /** The point seen from the step, relative to it. */
  lemma SideOfStep(x: Point, p: Point, q: Point)
    ensures Side(x, p, q) == (p.x - x.x) * (q.y - x.y) - (p.y - x.y) * (q.x - x.x)
  {
    var px, py, qx, qy := p.x - x.x, p.y - x.y, q.x - x.x, q.y - x.y;
    assert Side(x, p, q) == (qx - px) * -py - (qy - py) * -px;
    assert (qx - px) * -py == px * py - qx * py;
    assert (qy - py) * -px == px * py - qy * px;
  }

  lemma SideShifts(x: Point, p: Point, a: Point, b: Point)
    ensures Side(p, a, b) == Side(x, a, b) + (b.x - a.x) * (p.y - x.y) - (b.y - a.y) * (p.x - x.x)
  {
    var ux, uy := b.x - a.x, b.y - a.y;
    assert ux * (p.y - a.y) == ux * (x.y - a.y) + ux * (p.y - x.y);
    assert uy * (p.x - a.x) == uy * (x.x - a.x) + uy * (p.x - x.x);
  }

  /** Both ends outer and the point inner: the step passes it on the side the edge does. */
  lemma PassesWithEdge(x: Point, p: Point, q: Point, a: Point, b: Point)
    requires p.y <= x.y < q.y && Outer(p, a, b) && Outer(q, a, b) && !Outer(x, a, b)
    ensures (b.y - a.y) * Side(x, p, q) > 0.0
  {
    SideShifts(x, p, a, b);
    SideShifts(x, q, a, b);
    SideOfStep(x, p, q);
    Weighed(Side(x, a, b), b.x - a.x, b.y - a.y, p.x - x.x, p.y - x.y, q.x - x.x, q.y - x.y);
  }

  lemma Weighed(s: real, ux: real, uy: real, px: real, py: real, qx: real, qy: real)
    requires s > 0.0 && py <= 0.0 < qy && s + ux * py - uy * px <= 0.0 && s + ux * qy - uy * qx <= 0.0
    ensures uy * (px * qy - py * qx) > 0.0
  {
    var f, g := uy * px - s - ux * py, uy * qx - s - ux * qy;
    assert f * qy >= 0.0 && -py * g >= 0.0;
    assert s * (qy - py) > 0.0;
    Regrouped(s, ux, uy, px, py, qx, qy);
  }

  lemma Regrouped(s: real, ux: real, uy: real, px: real, py: real, qx: real, qy: real)
    ensures uy * (px * qy - py * qx) ==
            (uy * px - s - ux * py) * qy + -py * (uy * qx - s - ux * qy) + s * (qy - py)
  {
    assert (uy * px - s - ux * py) * qy == uy * px * qy - s * qy - ux * py * qy;
    assert -py * (uy * qx - s - ux * qy) == -(py * uy * qx) + py * s + py * ux * qy;
  }

  lemma Reverses(x: Point, p: Point, q: Point)
    ensures Side(x, q, p) == -Side(x, p, q)
  {
    SideOfReversedEdge(x, p, q);
  }

  lemma SignOf(u: real, v: real)
    requires u * v > 0.0
    ensures (u > 0.0 && v > 0.0) || (u < 0.0 && v < 0.0)
  {
    assert u == 0.0 ==> u * v == 0.0;
    assert u > 0.0 && v <= 0.0 ==> u * v <= 0.0;
    assert u < 0.0 && v >= 0.0 ==> u * v <= 0.0;
  }

  function Above(x: Point, p: Point): int { if p.y > x.y then 1 else 0 }

  /** What passing counts between outer points: steps up and down on that side of the edge. */
  function OuterPassing(x: Point, a: Point, b: Point, p: Point, q: Point): int {
    if b.y > a.y then Above(x, q) - Above(x, p) else 0
  }

  lemma PassingOutside(x: Point, p: Point, q: Point, a: Point, b: Point)
    requires Outer(p, a, b) && Outer(q, a, b) && !Outer(x, a, b)
    ensures Passing(x, p, q) == OuterPassing(x, a, b, p, q)
  {
    if p.y <= x.y < q.y {
      PassesWithEdge(x, p, q, a, b);
      SignOf(b.y - a.y, Side(x, p, q));
    } else if q.y <= x.y < p.y {
      PassesWithEdge(x, q, p, a, b);
      SignOf(b.y - a.y, Side(x, q, p));
      Reverses(x, p, q);
    }
  }

  /** A step passes the point as its two parts do. */
  lemma PassingInParts(x: Point, p: Point, q: Point, t: real)
    requires 0.0 <= t <= 1.0
    ensures Passing(x, p, Between(p, q, t)) + Passing(x, Between(p, q, t), q) == Passing(x, p, q)
  {
    var c := Between(p, q, t);
    HeightOfPart(p.y, q.y, c.y, t);
    HandsOfParts(x, p, q, c, t);
    PartsAt(x.y, p.y, c.y, q.y, Side(x, p, c), Side(x, c, q), Side(x, p, q));
  }

  /** The sides of the parts are on the hand of the whole, if the part rises or falls at all. */
  lemma PartsAt(height: real, from: real, at: real, to: real, first: real, second: real, whole: real)
    requires MidHeight(from, at, to)
    requires at != from ==> SameHand(first, whole)
    requires at != to ==> SameHand(second, whole)
    ensures PassingAt(height, from, at, first) + PassingAt(height, at, to, second) == PassingAt(height, from, to, whole)
  {
  }

  predicate MidHeight(from: real, at: real, to: real) { from <= at <= to || to <= at <= from }

  lemma HandsOfParts(x: Point, p: Point, q: Point, c: Point, t: real)
    requires 0.0 <= t <= 1.0 && c == Between(p, q, t)
    ensures c.y != p.y ==> SameHand(Side(x, p, c), Side(x, p, q))
    ensures c.y != q.y ==> SameHand(Side(x, c, q), Side(x, p, q))
  {
    PartsOfSide(x, p, q, t);
    HeightOfPart(p.y, q.y, c.y, t);
    Scaled(t, Side(x, p, q));
    Scaled(1.0 - t, Side(x, p, q));
  }

  predicate SameHand(s: real, whole: real) { (s > 0.0 <==> whole > 0.0) && (s < 0.0 <==> whole < 0.0) }

  lemma HeightOfPart(p: real, q: real, at: real, t: real)
    requires 0.0 <= t <= 1.0 && at == p + (q - p) * t
    ensures MidHeight(p, at, q)
    ensures at != p ==> t > 0.0
    ensures at != q ==> 1.0 - t > 0.0
  {
    var h := q - p;
    assert h * t + h * (1.0 - t) == h;
    Product(h, t);
    Product(h, 1.0 - t);
    assert t == 0.0 ==> h * t == 0.0;
    assert 1.0 - t == 0.0 ==> h * (1.0 - t) == 0.0;
  }

  lemma Product(h: real, t: real)
    requires t >= 0.0
    ensures (h >= 0.0 ==> h * t >= 0.0) && (h <= 0.0 ==> h * t <= 0.0)
  {
  }

  lemma Scaled(t: real, s: real)
    requires t >= 0.0
    ensures t > 0.0 ==> SameHand(t * s, s)
  {
    assert t > 0.0 && s > 0.0 ==> t * s > 0.0;
    assert t > 0.0 && s < 0.0 ==> t * s < 0.0;
    assert s == 0.0 ==> t * s == 0.0;
  }

  lemma PartsOfSide(x: Point, p: Point, q: Point, t: real)
    ensures Side(x, p, Between(p, q, t)) == t * Side(x, p, q)
    ensures Side(x, Between(p, q, t), q) == (1.0 - t) * Side(x, p, q)
  {
    var c := Between(p, q, t);
    SideOfStep(x, p, q);
    SideOfStep(x, p, c);
    SideOfStep(x, c, q);
    Split(p.x - x.x, p.y - x.y, q.x - x.x, q.y - x.y, t);
    assert c.x - x.x == (p.x - x.x) + ((q.x - x.x) - (p.x - x.x)) * t;
    assert c.y - x.y == (p.y - x.y) + ((q.y - x.y) - (p.y - x.y)) * t;
  }

  lemma Split(px: real, py: real, qx: real, qy: real, t: real)
    ensures var cx, cy := px + (qx - px) * t, py + (qy - py) * t;
            && px * cy - py * cx == t * (px * qy - py * qx)
            && cx * qy - cy * qx == (1.0 - t) * (px * qy - py * qx)
  {
    var cx, cy := px + (qx - px) * t, py + (qy - py) * t;
    assert px * cy == px * py + px * qy * t - px * py * t;
    assert py * cx == px * py + py * qx * t - px * py * t;
    assert cx * qy == px * qy + qx * qy * t - px * qy * t;
    assert cy * qx == py * qx + qx * qy * t - py * qx * t;
  }

  // ---- one edge ----

  /** Passing, less what of it is on the outer side. */
  function InnerPassing(x: Point, a: Point, b: Point): Steps { (p, q) => Passing(x, p, q) - OuterPassing(x, a, b, p, q) }

  lemma PassingInside(x: Point, a: Point, b: Point)
    requires !Outer(x, a, b)
    ensures CountsInside(InnerPassing(x, a, b), a, b)
  {
    var d := InnerPassing(x, a, b);
    forall p, q
      ensures NothingOutside(d, p, q, a, b) && InTwoParts(d, p, q, a, b)
    {
      if Outer(p, a, b) && Outer(q, a, b) {
        PassingOutside(x, p, q, a, b);
      }
      if Inner(p, a, b) != Inner(q, a, b) {
        var t := CrossingIsBetween(p, q, a, b);
        PassingInParts(x, p, q, t);
      }
    }
  }

  /** Along a path what is on the outer side comes to the difference of its ends. */
  lemma {:induction false} AlongDiffers(path: Polygon, x: Point, a: Point, b: Point)
    requires path != []
    ensures SumAlong(path, InnerPassing(x, a, b)) ==
            SumAlong(path, (p, q) => Passing(x, p, q)) - OuterPassing(x, a, b, path[0], path[|path| - 1])
  {
    if |path| > 1 {
      AlongDiffers(path[..|path| - 1], x, a, b);
    }
  }

  lemma AroundIsWinding(ps: Polygon, x: Point, a: Point, b: Point)
    ensures SumAround(ps, InnerPassing(x, a, b)) == WindingNumber(x, ps)
  {
    if ps != [] {
      AlongDiffers(Closed(ps), x, a, b);
    }
  }

  /** One edge keeps how often the polygon winds about a point on its inner side. */
  lemma EdgeKeepsWinding(ps: Polygon, x: Point, a: Point, b: Point)
    requires Side(x, a, b) > 0.0
    ensures WindingNumber(x, ClipEdge(ps, a, b)) == WindingNumber(x, ps)
  {
    PassingInside(x, a, b);
    EdgeKeepsCount(ps, InnerPassing(x, a, b), a, b);
    AroundIsWinding(ps, x, a, b);
    AroundIsWinding(ClipEdge(ps, a, b), x, a, b);
  }

  // ---- every edge ----

  /** Strictly on the inner side of every edge. */
  ghost predicate StrictlyInside(x: Point, clip: Polygon) {
    forall i :: 0 <= i < |clip| ==> Side(x, clip[i], clip[Next(i, |clip|)]) > 0.0
  }

  /** Each edge of the polygon keeps it, whatever is clipped. */
  ghost predicate KeptByEdges(count: Polygon -> int, clip: Polygon) {
    forall ps, i :: 0 <= i < |clip| ==> count(ClipEdge(ps, clip[i], clip[Next(i, |clip|)])) == count(ps)
  }

  lemma {:induction false} ClipKeepsCount(subject: Polygon, clip: Polygon, i: nat, count: Polygon -> int)
    requires i <= |clip| && KeptByEdges(count, clip)
    ensures count(ClipFrom(subject, clip, i)) == count(subject)
    decreases |clip| - i
  {
    if i < |clip| && subject != [] {
      ClipKeepsCount(ClipEdge(subject, clip[i], clip[Next(i, |clip|)]), clip, i + 1, count);
    }
  }

  lemma ClipKeepsWinding(subject: Polygon, clip: Polygon, x: Point)
    requires StrictlyInside(x, clip)
    ensures WindingNumber(x, ClipFrom(subject, clip, 0)) == WindingNumber(x, subject)
  {
    var count := ps => WindingNumber(x, ps);
    forall ps, i | 0 <= i < |clip|
      ensures count(ClipEdge(ps, clip[i], clip[Next(i, |clip|)])) == count(ps)
    {
      EdgeKeepsWinding(ps, x, clip[i], clip[Next(i, |clip|)]);
    }
    ClipKeepsCount(subject, clip, 0, count);
  }

  lemma {:induction false} NothingAlong(path: Polygon, d: Steps, a: Point, b: Point)
    requires CountsInside(d, a, b) && forall p :: p in path ==> Outer(p, a, b)
    ensures SumAlong(path, d) == 0
  {
    if |path| > 1 {
      NothingAlong(path[..|path| - 1], d, a, b);
      assert NothingOutside(d, path[|path| - 2], path[|path| - 1], a, b);
    }
  }

  /** A polygon on one side of a line does not wind about a point of the other. */
  lemma OuterDoesNotWind(ps: Polygon, x: Point, a: Point, b: Point)
    requires Side(x, a, b) > 0.0 && forall p :: p in ps ==> Outer(p, a, b)
    ensures WindingNumber(x, ps) == 0
  {
    PassingInside(x, a, b);
    NothingAlong(Closed(ps), InnerPassing(x, a, b), a, b);
    AroundIsWinding(ps, x, a, b);
  }

  lemma InnerDoesNotWind(ps: Polygon, x: Point, a: Point, b: Point)
    requires Side(x, a, b) < 0.0 && AllInner(ps, a, b)
    ensures WindingNumber(x, ps) == 0
  {
    SideOfReversedEdge(x, a, b);
    forall p | p in ps
      ensures Outer(p, b, a)
    {
      SideOfReversedEdge(p, a, b);
    }
    OuterDoesNotWind(ps, x, b, a);
  }

  /**
   Whatever the subject, the result winds about every point strictly inside the clip
   polygon exactly as often as the subject, and about no point strictly outside an
   edge of it.
   */
  lemma ClippingKeepsWinding(subject: Polygon, clip: Polygon, x: Point)
    requires |clip| >= 2
    ensures var result, edges := Clipped(subject, clip).value, Oriented(clip);
            && (StrictlyInside(x, edges) ==> WindingNumber(x, result) == WindingNumber(x, subject))
            && (!Inside([x], edges) ==> WindingNumber(x, result) == 0)
  {
    var edges := Oriented(clip);
    if StrictlyInside(x, edges) {
      ClipKeepsWinding(subject, edges, x);
    }
    if !Inside([x], edges) {
      var i :| 0 <= i < |edges| && !AllInner([x], edges[i], edges[Next(i, |edges|)]);
      ClipIsInner(subject, edges, 0, i);
      InnerDoesNotWind(ClipFrom(subject, edges, 0), x, edges[i], edges[Next(i, |edges|)]);
    }
  }

  // ---- what winding is ----

  /** A triangle winds once about what is strictly on the left of its three sides. */
  lemma TriangleWindsOnce(p: Point, q: Point, r: Point, x: Point)
    requires Side(x, p, q) > 0.0 && Side(x, q, r) > 0.0 && Side(x, r, p) > 0.0
    ensures WindingNumber(x, [p, q, r]) == 1
  {
    var d: Steps := (p, q) => Passing(x, p, q);
    assert Closed([p, q, r]) == [] + [p] + [q] + [r] + [p];
    OneMore([], p, q, d);
    OneMore([] + [p], q, r, d);
    OneMore([] + [p] + [q], r, p, d);
    assert SumAlong([] + [p], d) == 0;
    Balanced(x, p, q, r);
    NotAllOneWay(Side(x, q, r), Side(x, r, p), Side(x, p, q), p.y - x.y, q.y - x.y, r.y - x.y);
    SideOfStep(x, p, q);
  }

  /** The heights of the corners, weighed by the sides across from them, cancel. */
  lemma Balanced(x: Point, p: Point, q: Point, r: Point)
    ensures Side(x, q, r) * (p.y - x.y) + Side(x, r, p) * (q.y - x.y) + Side(x, p, q) * (r.y - x.y) == 0.0
  {
    SideOfStep(x, p, q);
    SideOfStep(x, q, r);
    SideOfStep(x, r, p);
    Cancels(p.x - x.x, p.y - x.y, q.x - x.x, q.y - x.y, r.x - x.x, r.y - x.y);
  }

  lemma Cancels(px: real, py: real, qx: real, qy: real, rx: real, ry: real)
    ensures (qx * ry - qy * rx) * py + (rx * py - ry * px) * qy + (px * qy - py * qx) * ry == 0.0
  {
    assert (qx * ry - qy * rx) * py == qx * ry * py - qy * rx * py;
    assert (rx * py - ry * px) * qy == rx * py * qy - ry * px * qy;
    assert (px * qy - py * qx) * ry == px * qy * ry - py * qx * ry;
  }

  lemma NotAllOneWay(u: real, v: real, w: real, p: real, q: real, r: real)
    requires u > 0.0 && v > 0.0 && w > 0.0 && u * p + v * q + w * r == 0.0
    ensures p > 0.0 || q > 0.0 || r > 0.0 || p == q == r == 0.0
    ensures p <= 0.0 || q <= 0.0 || r <= 0.0
  {
    assert p > 0.0 ==> u * p > 0.0;
    assert q > 0.0 ==> v * q > 0.0;
    assert r > 0.0 ==> w * r > 0.0;
    assert p < 0.0 ==> u * p < 0.0;
    assert q < 0.0 ==> v * q < 0.0;
    assert r < 0.0 ==> w * r < 0.0;
  }
}
