/**
 Clipping a convex subject: nothing of it that is inside the clip polygon is cut
 away. Of a subject that is not convex, part of the hull can be.
 */
module Chords {
  import opened Outcomes
  import opened Clip

  /** Between two points of the boundary: for a convex polygon, in it. */
  ghost predicate OnChord(x: Point, ps: Polygon) {
    exists y, z, t: real :: IsChord(x, y, z, t, ps)
  }

  ghost predicate IsChord(x: Point, y: Point, z: Point, t: real, ps: Polygon) {
    OnBoundary(y, ps) && OnBoundary(z, ps) && 0.0 <= t <= 1.0 && x == Between(y, z, t)
  }

  // ---- points on the line of an edge ----

  /** How far along the line a point is. */
  function Along(p: Point, a: Point, b: Point): real { (b.x - a.x) * (p.x - a.x) + (b.y - a.y) * (p.y - a.y) }

  /** Products of vectors, of which the first two are parallel. */
  lemma Parallel(ux: real, uy: real, vx: real, vy: real, dx: real, dy: real)
    requires ux * vy - uy * vx == 0.0
    ensures (ux * ux + uy * uy) * (dx * vy - dy * vx) == (ux * vx + uy * vy) * (dx * uy - dy * ux)
  {
    var n, c := ux * vx + uy * vy, ux * vy - uy * vx;
    assert ux * n - uy * c == (ux * ux + uy * uy) * vx by {
      assert ux * n == ux * ux * vx + ux * uy * vy;
      assert uy * c == ux * uy * vy - uy * uy * vx;
    }
    assert uy * n + ux * c == (ux * ux + uy * uy) * vy by {
      assert uy * n == ux * uy * vx + uy * uy * vy;
      assert ux * c == ux * ux * vy - ux * uy * vx;
    }
    var m := ux * ux + uy * uy;
    assert m * vx == ux * n && m * vy == uy * n;
    assert m * (dx * vy - dy * vx) == dx * (m * vy) - dy * (m * vx);
    assert dx * (uy * n) - dy * (ux * n) == n * (dx * uy - dy * ux);
  }

  lemma SideDiffers(y: Point, c: Point, p: Point, q: Point)
    ensures Side(y, p, q) - Side(c, p, q) == (q.x - p.x) * (y.y - c.y) - (q.y - p.y) * (y.x - c.x)
  {
    Minus(q.x - p.x, y.y, c.y, p.y);
    Minus(q.y - p.y, y.x, c.x, p.x);
  }

  lemma Minus(d: real, y: real, c: real, p: real)
    ensures d * (y - p) - d * (c - p) == d * (y - c)
  {
  }

  lemma AlongDiffers(y: Point, c: Point, a: Point, b: Point)
    ensures Along(y, a, b) - Along(c, a, b) == (b.x - a.x) * (y.x - c.x) + (b.y - a.y) * (y.y - c.y)
  {
    Minus(b.x - a.x, y.x, c.x, a.x);
    Minus(b.y - a.y, y.y, c.y, a.y);
  }

  /** Square of the length of the edge. */
  function Square(a: Point, b: Point): real { (b.x - a.x) * (b.x - a.x) + (b.y - a.y) * (b.y - a.y) }

  /** Of two points on the line, one of them on a side: on which side the other is, by how far along each is. */
  lemma SideAlong(y: Point, c: Point, p: Point, q: Point, a: Point, b: Point)
    requires Side(y, a, b) == Side(c, a, b) == 0.0 && Side(c, p, q) == 0.0
    ensures Square(a, b) * Side(y, p, q) == (Along(y, a, b) - Along(c, a, b)) * (Side(p, a, b) - Side(q, a, b))
  {
    SideDiffers(y, c, a, b);
    SideDiffers(y, c, p, q);
    SideDiffers(p, q, a, b);
    AlongDiffers(y, c, a, b);
    Parallel(b.x - a.x, b.y - a.y, y.x - c.x, y.y - c.y, q.x - p.x, q.y - p.y);
    Turned(b.x - a.x, b.y - a.y, p, q);
  }

  lemma Turned(ux: real, uy: real, p: Point, q: Point)
    ensures (q.x - p.x) * uy - (q.y - p.y) * ux == ux * (p.y - q.y) - uy * (p.x - q.x)
  {
    assert (q.x - p.x) * uy == -(uy * (p.x - q.x));
    assert (q.y - p.y) * ux == -(ux * (p.y - q.y));
  }

  lemma SameSign(n: real, s: real, d: real, m: real)
    requires n >= 0.0 && s >= 0.0 && m > 0.0 && n * s == d * m
    ensures d >= 0.0
  {
    assert n * s >= 0.0;
    assert d < 0.0 ==> d * m < 0.0;
  }

  /** A side by which the boundary leaves the inner half; by another crossing it comes back. */
  predicate Leaves(p: Point, q: Point, a: Point, b: Point) { Inner(p, a, b) && !Inner(q, a, b) }

  lemma OnOwnLine(p: Point, q: Point, t: real)
    ensures Side(Between(p, q, t), p, q) == 0.0
  {
    var dx, dy := q.x - p.x, q.y - p.y;
    assert dx * (dy * t) == dy * (dx * t);
    assert Between(p, q, t).y - p.y == dy * t && Between(p, q, t).x - p.x == dx * t;
  }

  /** A point of the line on the polygon's side of a side is past the crossing by which it leaves, or before the one by which it comes back. */
  lemma PastCrossing(y: Point, p: Point, q: Point, a: Point, b: Point, sign: real)
    requires Inner(p, a, b) != Inner(q, a, b) && Side(y, a, b) == 0.0 && sign * Side(y, p, q) >= 0.0
    ensures var d := sign * (Along(y, a, b) - Along(Crossing(p, q, a, b), a, b));
            if Leaves(p, q, a, b) then d >= 0.0 else d <= 0.0
  {
    var c := Crossing(p, q, a, b);
    var n, s, d, m := CrossingNumbers(y, p, q, a, b);
    Signed(n, s, d, m, sign);
    if Leaves(p, q, a, b) {
      SameSign(n, sign * s, sign * d, m);
    } else {
      SameSign(n, sign * s, -(sign * d), -m);
    }
  }

  lemma CrossingNumbers(y: Point, p: Point, q: Point, a: Point, b: Point) returns (n: real, s: real, d: real, m: real)
    requires Inner(p, a, b) != Inner(q, a, b) && Side(y, a, b) == 0.0
    ensures n >= 0.0 && s == Side(y, p, q) && d == Along(y, a, b) - Along(Crossing(p, q, a, b), a, b)
    ensures m == Side(p, a, b) - Side(q, a, b) && n * s == d * m
  {
    var t := CrossingIsBetween(p, q, a, b);
    var c := Crossing(p, q, a, b);
    n := Length(b.x - a.x, b.y - a.y);
    s, d, m := Side(y, p, q), Along(y, a, b) - Along(c, a, b), Side(p, a, b) - Side(q, a, b);
    OnOwnLine(p, q, t);
    SideAlong(y, c, p, q, a, b);
  }

  lemma Signed(n: real, s: real, d: real, m: real, sign: real)
    requires n * s == d * m
    ensures n * (sign * s) == (sign * d) * m && n * (sign * s) == -(sign * d) * -m
  {
    assert n * (sign * s) == sign * (n * s);
    assert (sign * d) * m == sign * (d * m);
  }

  // ---- the side that is cut ----

  /** A point of the line between two others along it is on the way between them. */
  lemma BetweenAlong(w: Point, c: Point, e: Point, a: Point, b: Point) returns (t: real)
    requires a != b && Side(w, a, b) == Side(c, a, b) == Side(e, a, b) == 0.0
    requires Along(c, a, b) <= Along(w, a, b) <= Along(e, a, b) || Along(e, a, b) <= Along(w, a, b) <= Along(c, a, b)
    ensures 0.0 <= t <= 1.0 && w == Between(c, e, t)
  {
    var d, m := Along(w, a, b) - Along(c, a, b), Along(e, a, b) - Along(c, a, b);
    t := if m == 0.0 then 0.0 else d / m;
    assert m * t == d;
    if m > 0.0 {
      Quotient(d, m);
    } else if m < 0.0 {
      Quotient(-d, -m);
      assert d / m == -d / -m;
    }
    var v := Between(c, e, t);
    SameOnLine(w, v, a, b, c, e, t);
  }

  lemma SameOnLine(w: Point, v: Point, a: Point, b: Point, c: Point, e: Point, t: real)
    requires a != b && v == Between(c, e, t) && Side(w, a, b) == Side(c, a, b) == Side(e, a, b) == 0.0
    requires Along(w, a, b) - Along(c, a, b) == (Along(e, a, b) - Along(c, a, b)) * t
    ensures w == v
  {
    SideBetween(c, e, t, a, b);
    AlongBetween(c, e, t, a, b);
    SideDiffers(w, v, a, b);
    AlongDiffers(w, v, a, b);
    Determined(b.x - a.x, b.y - a.y, w.x - v.x, w.y - v.y);
  }

  lemma AlongBetween(p: Point, q: Point, t: real, a: Point, b: Point)
    ensures Along(Between(p, q, t), a, b) == Along(p, a, b) + (Along(q, a, b) - Along(p, a, b)) * t
  {
    AlongDiffers(Between(p, q, t), p, a, b);
    AlongDiffers(q, p, a, b);
    var ux, uy, dx, dy := b.x - a.x, b.y - a.y, q.x - p.x, q.y - p.y;
    assert ux * (dx * t) == (ux * dx) * t && uy * (dy * t) == (uy * dy) * t;
    assert (ux * dx + uy * dy) * t == (ux * dx) * t + (uy * dy) * t;
    assert Between(p, q, t).x - p.x == dx * t && Between(p, q, t).y - p.y == dy * t;
  }

  lemma Determined(ux: real, uy: real, x: real, y: real)
    requires ux != 0.0 || uy != 0.0
    requires ux * y - uy * x == 0.0 && ux * x + uy * y == 0.0
    ensures x == 0.0 && y == 0.0
  {
    var m := Length(ux, uy);
    Solved(ux, uy, x, y, m);
    NoZero(m, x);
    NoZero(m, y);
  }

  lemma Solved(ux: real, uy: real, x: real, y: real, m: real)
    requires m == ux * ux + uy * uy && ux * y - uy * x == 0.0 && ux * x + uy * y == 0.0
    ensures m * x == 0.0 && m * y == 0.0
  {
    assert m * x == ux * (ux * x + uy * y) - uy * (ux * y - uy * x);
    assert m * y == uy * (ux * x + uy * y) + ux * (ux * y - uy * x);
  }

  /** The square of a length. */
  lemma Length(x: real, y: real) returns (m: real)
    ensures m == x * x + y * y
    ensures m >= 0.0
    ensures m > 0.0 || (x == 0.0 && y == 0.0)
  {
    var u := Squared(x);
    var v := Squared(y);
    m := u + v;
  }

  lemma Squared(x: real) returns (s: real)
    ensures s == x * x
    ensures s >= 0.0
    ensures s > 0.0 || x == 0.0
  {
    s := x * x;
    if x != 0.0 {
      SameSigns(x, x, s);
    }
  }

  lemma SameSigns(x: real, y: real, s: real)
    requires s == x * y && ((x > 0.0 && y > 0.0) || (x < 0.0 && y < 0.0))
    ensures s > 0.0
  {
  }

  lemma NoZero(m: real, x: real)
    requires m > 0.0 && m * x == 0.0
    ensures x == 0.0
  {
    assert x > 0.0 ==> m * x > 0.0;
    assert x < 0.0 ==> m * x < 0.0;
  }

  /** Two crossings on a line, seen from a point: the side between them is along the line. */
  lemma CutSide(z: Point, c: Point, e: Point, a: Point, b: Point, sign: real)
    requires Side(c, a, b) == Side(e, a, b) == 0.0 && Inner(z, a, b)
    requires sign * (Along(e, a, b) - Along(c, a, b)) >= 0.0
    requires a != b
    ensures sign * Side(z, c, e) >= 0.0
  {
    var n, s, d, h := CutNumbers(z, c, e, a, b);
    Signed(n, s, d, h, sign);
    assert (sign * d) * h >= 0.0;
    NotNegative(n, sign * s);
  }

  lemma CutNumbers(z: Point, c: Point, e: Point, a: Point, b: Point) returns (n: real, s: real, d: real, h: real)
    requires Side(c, a, b) == Side(e, a, b) == 0.0 && a != b
    ensures n > 0.0 && s == Side(z, c, e) && d == Along(e, a, b) - Along(c, a, b) && h == Side(z, a, b)
    ensures n * s == d * h
  {
    n := Length(b.x - a.x, b.y - a.y);
    s, d, h := Side(z, c, e), Along(e, a, b) - Along(c, a, b), Side(z, a, b);
    SideDiffers(e, c, a, b);
    SideDiffers(z, c, a, b);
    AlongDiffers(e, c, a, b);
    Parallel(b.x - a.x, b.y - a.y, e.x - c.x, e.y - c.y, z.x - c.x, z.y - c.y);
    Opposite(z.x - c.x, z.y - c.y, e.x - c.x, e.y - c.y);
    Opposite(z.x - c.x, z.y - c.y, b.x - a.x, b.y - a.y);
    BothNegated(n, s, d, h, (z.x - c.x) * (e.y - c.y) - (z.y - c.y) * (e.x - c.x),
                (z.x - c.x) * (b.y - a.y) - (z.y - c.y) * (b.x - a.x));
  }

  lemma Opposite(x: real, y: real, x': real, y': real)
    ensures x * y' - y * x' == -(x' * y - y' * x)
  {
  }

  lemma BothNegated(n: real, s: real, d: real, h: real, s': real, h': real)
    requires s == -s' && h == -h' && n * s' == d * h'
    ensures n * s == d * h
  {
    assert n * s == -(n * s') && d * h == -(d * h');
  }

  lemma NotNegative(m: real, x: real)
    requires m > 0.0 && m * x >= 0.0
    ensures x >= 0.0
  {
    assert x < 0.0 ==> m * x < 0.0;
  }

  /** Seen from a point, a part of a side is on the hand the side is. */
  lemma PartOfSide(z: Point, p: Point, q: Point, s: real, t: real, sign: real)
    requires s <= t && sign * Side(z, p, q) >= 0.0
    ensures sign * Side(z, Between(p, q, s), Between(p, q, t)) >= 0.0
  {
    var c, e := Between(p, q, s), Between(p, q, t);
    OnOwnLine(p, q, s);
    SideDiffers(z, c, p, q);
    var dx, dy := q.x - p.x, q.y - p.y;
    assert e.x - c.x == dx * (t - s) && e.y - c.y == dy * (t - s) by {
      assert dx * (t - s) == dx * t - dx * s;
      assert dy * (t - s) == dy * t - dy * s;
    }
    assert Side(z, c, e) == (dx * (t - s)) * (z.y - c.y) - (dy * (t - s)) * (z.x - c.x);
    Factored(dx, dy, t - s, z.x - c.x, z.y - c.y);
    assert Side(z, c, e) == Side(z, p, q) * (t - s);
    assert sign * (Side(z, p, q) * (t - s)) == (sign * Side(z, p, q)) * (t - s);
    assert (sign * Side(z, p, q)) * (t - s) >= 0.0;
  }

  lemma Factored(dx: real, dy: real, r: real, x: real, y: real)
    ensures (dx * r) * y - (dy * r) * x == (dx * y - dy * x) * r
  {
    assert (dx * r) * y == (dx * y) * r && (dy * r) * x == (dy * x) * r;
  }

  // ---- which sides what is left has ----

  predicate IsExit(ps: Polygon, j: nat, a: Point, b: Point) {
    j < |ps| && Inner(ps[j], a, b) && !Inner(ps[Next(j, |ps|)], a, b)
  }

  predicate IsEntry(ps: Polygon, j: nat, a: Point, b: Point) {
    j < |ps| && !Inner(ps[j], a, b) && Inner(ps[Next(j, |ps|)], a, b)
  }

  function CrossingOf(ps: Polygon, j: nat, a: Point, b: Point): Point
    requires IsExit(ps, j, a, b) || IsEntry(ps, j, a, b)
  {
    Crossing(ps[j], ps[Next(j, |ps|)], a, b)
  }

  /** How many sides on from one vertex another is. */
  function Distance(l: nat, j: nat, m: nat): nat
    requires l < m && j < m
  {
    if l <= j then j - l else m - l + j
  }

  function Wrapped(i: nat, n: nat): nat { if i == n then 0 else i }

  function Count(ps: Polygon, k: nat, a: Point, b: Point): nat
    requires k <= |ps|
  {
    |KeptUpTo(ps, k, a, b)|
  }

  /** What a side leaves is in place in what is left. */
  lemma InPlace(ps: Polygon, k: nat, a: Point, b: Point)
    requires k < |ps|
    ensures var kept, o := Kept(ps[k], ps[Next(k, |ps|)], a, b), ClipEdge(ps, a, b);
            && Count(ps, k + 1, a, b) == Count(ps, k, a, b) + |kept| <= |o|
            && forall i :: 0 <= i < |kept| ==> o[Count(ps, k, a, b) + i] == kept[i]
  {
    KeptGrows(ps, k + 1, |ps|, a, b);
  }

  /** From an outer vertex on, the next thing left is the crossing by which the boundary comes back. */
  lemma {:induction false} EntryFollows(ps: Polygon, l: nat, j: nat, a: Point, b: Point) returns (e: nat)
    requires l < |ps| && j < |ps| && !Inner(ps[l], a, b) && Inner(ps[j], a, b)
    ensures IsEntry(ps, e, a, b)
    ensures var o := ClipEdge(ps, a, b); o != [] && Count(ps, l, a, b) <= |o|
    ensures var o := ClipEdge(ps, a, b); o[Wrapped(Count(ps, l, a, b), |o|)] == CrossingOf(ps, e, a, b)
    decreases Distance(l, j, |ps|)
  {
    var n := Next(l, |ps|);
    InPlace(ps, l, a, b);
    if Inner(ps[n], a, b) {
      e := l;
      assert Kept(ps[l], ps[n], a, b)[0] == CrossingOf(ps, l, a, b);
    } else {
      e := EntryFollows(ps, n, j, a, b);
    }
  }

  /** The crossing by which the boundary leaves is followed by one by which it comes back. */
  lemma ExitThenEntry(ps: Polygon, j: nat, a: Point, b: Point) returns (e: nat)
    requires IsExit(ps, j, a, b)
    ensures IsEntry(ps, e, a, b)
    ensures var i, o := Count(ps, j, a, b) + 1, ClipEdge(ps, a, b);
            i < |o| && o[i] == CrossingOf(ps, j, a, b) && o[Next(i, |o|)] == CrossingOf(ps, e, a, b)
  {
    InPlace(ps, j, a, b);
    assert Kept(ps[j], ps[Next(j, |ps|)], a, b)[1] == CrossingOf(ps, j, a, b);
    e := EntryFollows(ps, Next(j, |ps|), j, a, b);
  }

  lemma {:induction false} WhichSide(ps: Polygon, k: nat, i: nat, a: Point, b: Point) returns (j: nat)
    requires k <= |ps| && i < Count(ps, k, a, b)
    ensures j < k && Count(ps, j, a, b) <= i < Count(ps, j + 1, a, b)
  {
    if i < Count(ps, k - 1, a, b) {
      j := WhichSide(ps, k - 1, i, a, b);
    } else {
      j := k - 1;
    }
  }

  /** Two points of one side, in its order. */
  ghost predicate PartOf(c: Point, e: Point, ps: Polygon) {
    exists k: nat, s: real, t: real :: IsPart(c, e, ps, k, s, t)
  }

  predicate IsPart(c: Point, e: Point, ps: Polygon, k: nat, s: real, t: real) {
    k < |ps| && 0.0 <= s <= t <= 1.0 && c == Between(ps[k], ps[Next(k, |ps|)], s) && e == Between(ps[k], ps[Next(k, |ps|)], t)
  }

  /** A crossing by which the boundary leaves, and one by which it comes back. */
  ghost predicate AlongCut(c: Point, e: Point, ps: Polygon, a: Point, b: Point) {
    exists j: nat, k: nat :: IsCut(c, e, ps, j, k, a, b)
  }

  predicate IsCut(c: Point, e: Point, ps: Polygon, j: nat, k: nat, a: Point, b: Point) {
    IsExit(ps, j, a, b) && IsEntry(ps, k, a, b) && c == CrossingOf(ps, j, a, b) && e == CrossingOf(ps, k, a, b)
  }

  lemma EndsOfWay(p: Point, q: Point)
    ensures Between(p, q, 0.0) == p && Between(p, q, 1.0) == q
  {
  }

  /** The first point an inner or a re-entering side leaves, and the one after it. */
  lemma FirstOfSide(ps: Polygon, j: nat, a: Point, b: Point)
    requires j < |ps| && (Inner(ps[j], a, b) || Inner(ps[Next(j, |ps|)], a, b))
    ensures var i, o, p, q := Count(ps, j, a, b), ClipEdge(ps, a, b), ps[j], ps[Next(j, |ps|)];
            && i < |o|
            && o[i] == (if Inner(p, a, b) then p else Crossing(p, q, a, b))
            && o[Next(i, |o|)] == (if Inner(q, a, b) then q else Crossing(p, q, a, b))
  {
    var i, o, p, q := Count(ps, j, a, b), ClipEdge(ps, a, b), ps[j], ps[Next(j, |ps|)];
    var kept := Kept(p, q, a, b);
    InPlace(ps, j, a, b);
    assert o[i] == kept[0];
    if Inner(q, a, b) {
      StartsNext(ps, j, a, b);
    } else {
      assert o[i + 1] == kept[1];
    }
  }

  lemma FirstIsPart(ps: Polygon, j: nat, a: Point, b: Point)
    requires j < |ps| && (Inner(ps[j], a, b) || Inner(ps[Next(j, |ps|)], a, b))
    ensures var i, o := Count(ps, j, a, b), ClipEdge(ps, a, b);
            i < |o| && PartOf(o[i], o[Next(i, |o|)], ps)
  {
    var i, o, p, q := Count(ps, j, a, b), ClipEdge(ps, a, b), ps[j], ps[Next(j, |ps|)];
    FirstOfSide(ps, j, a, b);
    EndsOfWay(p, q);
    var s, t := 0.0, 1.0;
    if Inner(p, a, b) != Inner(q, a, b) {
      var u := CrossingIsBetween(p, q, a, b);
      s, t := if Inner(p, a, b) then 0.0 else u, if Inner(p, a, b) then u else 1.0;
    }
    assert IsPart(o[i], o[Next(i, |o|)], ps, j, s, t);
  }

  /** Every side of what is left is part of a side of the subject, or runs along the cut. */
  lemma SidesLeft(ps: Polygon, i: nat, a: Point, b: Point)
    requires i < |ClipEdge(ps, a, b)|
    ensures var o := ClipEdge(ps, a, b);
            PartOf(o[i], o[Next(i, |o|)], ps) || AlongCut(o[i], o[Next(i, |o|)], ps, a, b)
  {
    var o := ClipEdge(ps, a, b);
    var j := WhichSide(ps, |ps|, i, a, b);
    InPlace(ps, j, a, b);
    if i == Count(ps, j, a, b) {
      FirstIsPart(ps, j, a, b);
    } else {
      var e := ExitThenEntry(ps, j, a, b);
      assert IsCut(o[i], o[Next(i, |o|)], ps, j, e, a, b);
    }
  }

  // ---- what is left of a convex polygon is convex ----

  /** The point is on the polygon's hand of every side. */
  ghost predicate OnHand(z: Point, ps: Polygon, sign: real) {
    forall k :: 0 <= k < |ps| ==> Hand(sign, z, ps[k], ps[Next(k, |ps|)])
  }

  lemma HandBetween(p: Point, q: Point, t: real, ps: Polygon, sign: real)
    requires OnHand(p, ps, sign) && OnHand(q, ps, sign) && 0.0 <= t <= 1.0
    ensures OnHand(Between(p, q, t), ps, sign)
  {
    forall k | 0 <= k < |ps|
      ensures Hand(sign, Between(p, q, t), ps[k], ps[Next(k, |ps|)])
    {
      var c, d := ps[k], ps[Next(k, |ps|)];
      SideBetween(p, q, t, c, d);
      Spread(sign, Side(p, c, d), Side(q, c, d), t);
      Mixed(sign * Side(p, c, d), sign * Side(q, c, d), t);
    }
  }

  lemma Spread(sign: real, u: real, v: real, t: real)
    ensures sign * (u + (v - u) * t) == sign * u + (sign * v - sign * u) * t
  {
    assert sign * ((v - u) * t) == (sign * (v - u)) * t;
    assert sign * (v - u) == sign * v - sign * u;
  }

  lemma VertexOnHand(ps: Polygon, k: nat, sign: real)
    requires WoundBy(ps, sign) && k < |ps|
    ensures OnHand(ps[k], ps, sign)
  {
    assert ps[k] in ps;
  }

  lemma BoundaryOnHand(x: Point, ps: Polygon, sign: real)
    requires WoundBy(ps, sign) && OnBoundary(x, ps)
    ensures OnHand(x, ps, sign)
  {
    var k: nat, t: real :| OnSide(x, ps, k, t);
    VertexOnHand(ps, k, sign);
    VertexOnHand(ps, Next(k, |ps|), sign);
    HandBetween(ps[k], ps[Next(k, |ps|)], t, ps, sign);
  }

  lemma CrossingOnHand(ps: Polygon, j: nat, sign: real, a: Point, b: Point)
    requires WoundBy(ps, sign) && (IsExit(ps, j, a, b) || IsEntry(ps, j, a, b))
    ensures OnHand(CrossingOf(ps, j, a, b), ps, sign) && Side(CrossingOf(ps, j, a, b), a, b) == 0.0
  {
    var t := CrossingIsBetween(ps[j], ps[Next(j, |ps|)], a, b);
    VertexOnHand(ps, j, sign);
    VertexOnHand(ps, Next(j, |ps|), sign);
    HandBetween(ps[j], ps[Next(j, |ps|)], t, ps, sign);
  }

  lemma {:induction false} LeftOnHand(ps: Polygon, k: nat, sign: real, a: Point, b: Point)
    requires k <= |ps| && WoundBy(ps, sign)
    ensures forall z :: z in KeptUpTo(ps, k, a, b) ==> OnHand(z, ps, sign)
  {
    if k > 0 {
      LeftOnHand(ps, k - 1, sign, a, b);
      VertexOnHand(ps, k - 1, sign);
      if Inner(ps[k - 1], a, b) != Inner(ps[Next(k - 1, |ps|)], a, b) {
        CrossingOnHand(ps, k - 1, sign, a, b);
      }
    }
  }

  /** A point of the line in the polygon lies between a crossing out and a crossing in, along the way the polygon is wound. */
  lemma BetweenCrossings(y: Point, ps: Polygon, j: nat, e: nat, sign: real, a: Point, b: Point)
    requires OnHand(y, ps, sign) && Side(y, a, b) == 0.0 && IsExit(ps, j, a, b) && IsEntry(ps, e, a, b)
    ensures sign * (Along(y, a, b) - Along(CrossingOf(ps, j, a, b), a, b)) >= 0.0
    ensures sign * (Along(y, a, b) - Along(CrossingOf(ps, e, a, b), a, b)) <= 0.0
  {
    PastCrossing(y, ps[j], ps[Next(j, |ps|)], a, b, sign);
    PastCrossing(y, ps[e], ps[Next(e, |ps|)], a, b, sign);
  }

  lemma CutKeepsHand(z: Point, ps: Polygon, j: nat, e: nat, sign: real, a: Point, b: Point)
    requires WoundBy(ps, sign) && IsExit(ps, j, a, b) && IsEntry(ps, e, a, b) && Inner(z, a, b)
    ensures Hand(sign, z, CrossingOf(ps, j, a, b), CrossingOf(ps, e, a, b))
  {
    CrossingOnHand(ps, j, sign, a, b);
    CrossingOnHand(ps, e, sign, a, b);
    BetweenCrossings(CrossingOf(ps, e, a, b), ps, j, e, sign, a, b);
    CutSide(z, CrossingOf(ps, j, a, b), CrossingOf(ps, e, a, b), a, b, sign);
  }

  /** What an edge leaves of a convex polygon is convex, and wound the same way. */
  lemma EdgeKeepsWinding(ps: Polygon, sign: real, a: Point, b: Point)
    requires WoundBy(ps, sign)
    ensures WoundBy(ClipEdge(ps, a, b), sign)
  {
    var o := ClipEdge(ps, a, b);
    LeftOnHand(ps, |ps|, sign, a, b);
    EdgeIsInner(ps, |ps|, a, b);
    forall i, z | 0 <= i < |o| && z in o
      ensures Hand(sign, z, o[i], o[Next(i, |o|)])
    {
      SideKeepsHand(ps, i, z, sign, a, b);
    }
  }

  lemma SideKeepsHand(ps: Polygon, i: nat, z: Point, sign: real, a: Point, b: Point)
    requires WoundBy(ps, sign) && OnHand(z, ps, sign) && Inner(z, a, b) && i < |ClipEdge(ps, a, b)|
    ensures var o := ClipEdge(ps, a, b); Hand(sign, z, o[i], o[Next(i, |o|)])
  {
    var o := ClipEdge(ps, a, b);
    SidesLeft(ps, i, a, b);
    if PartOf(o[i], o[Next(i, |o|)], ps) {
      PartKeepsHand(z, o[i], o[Next(i, |o|)], ps, sign);
    } else {
      AlongCutKeepsHand(z, o[i], o[Next(i, |o|)], ps, sign, a, b);
    }
  }

  lemma PartKeepsHand(z: Point, c: Point, e: Point, ps: Polygon, sign: real)
    requires OnHand(z, ps, sign) && PartOf(c, e, ps)
    ensures Hand(sign, z, c, e)
  {
    var k: nat, s: real, t: real :| IsPart(c, e, ps, k, s, t);
    PartOfSide(z, ps[k], ps[Next(k, |ps|)], s, t, sign);
  }

  lemma AlongCutKeepsHand(z: Point, c: Point, e: Point, ps: Polygon, sign: real, a: Point, b: Point)
    requires WoundBy(ps, sign) && Inner(z, a, b) && AlongCut(c, e, ps, a, b)
    ensures Hand(sign, z, c, e)
  {
    var j: nat, k: nat :| IsCut(c, e, ps, j, k, a, b);
    CutKeepsHand(z, ps, j, k, sign, a, b);
  }

  // ---- chords ----

  lemma BoundaryKept(y: Point, ps: Polygon, a: Point, b: Point)
    requires OnBoundary(y, ps) && Inner(y, a, b)
    ensures OnBoundary(y, ClipEdge(ps, a, b))
  {
    var k: nat, t: real :| OnSide(y, ps, k, t);
    EdgeKeepsBoundary(ps, y, k, t, a, b);
  }

  /** A side with an inner point has an inner end, and one with an outer point an outer end. */
  lemma EndLike(y: Point, ps: Polygon, a: Point, b: Point) returns (k: nat)
    requires OnBoundary(y, ps)
    ensures k < |ps| && Inner(ps[k], a, b) == Inner(y, a, b)
  {
    var j: nat, t: real :| OnSide(y, ps, j, t);
    var p, q := ps[j], ps[Next(j, |ps|)];
    if Inner(p, a, b) == Inner(y, a, b) {
      k := j;
    } else {
      k := Next(j, |ps|);
      if Inner(p, a, b) && Inner(q, a, b) {
        HalfPlaneIsConvex(p, q, t, a, b);
      } else if !Inner(p, a, b) && !Inner(q, a, b) {
        OuterBetween(p, q, t, a, b);
      }
    }
  }

  /** On from an inner vertex, before an outer one, the boundary leaves. */
  lemma {:induction false} ExitBefore(ps: Polygon, l: nat, k: nat, a: Point, b: Point) returns (j: nat)
    requires l < |ps| && k < |ps| && Inner(ps[l], a, b) && !Inner(ps[k], a, b)
    ensures IsExit(ps, j, a, b)
    decreases Distance(l, k, |ps|)
  {
    if Inner(ps[Next(l, |ps|)], a, b) {
      j := ExitBefore(ps, Next(l, |ps|), k, a, b);
    } else {
      j := l;
    }
  }

  /** Where a chord of a convex polygon crosses the line, the cut runs. */
  lemma ChordMeetsCut(w: Point, ps: Polygon, j: nat, sign: real, a: Point, b: Point)
    requires WoundBy(ps, sign) && (sign == 1.0 || sign == -1.0) && IsExit(ps, j, a, b)
    requires OnHand(w, ps, sign) && Side(w, a, b) == 0.0
    ensures OnBoundary(w, ClipEdge(ps, a, b))
  {
    var e := ExitThenEntry(ps, j, a, b);
    CrossingOnHand(ps, j, sign, a, b);
    CrossingOnHand(ps, e, sign, a, b);
    BetweenCrossings(w, ps, j, e, sign, a, b);
    var t := BetweenAlong(w, CrossingOf(ps, j, a, b), CrossingOf(ps, e, a, b), a, b);
    OnSideIs(w, ClipEdge(ps, a, b), Count(ps, j, a, b) + 1, t);
  }

  /** A chord cut by the line: its inner part is a chord of what is left. */
  lemma HalfChord(x: Point, y: Point, z: Point, t: real, ps: Polygon, sign: real, a: Point, b: Point)
    requires WoundBy(ps, sign) && (sign == 1.0 || sign == -1.0) && IsChord(x, y, z, t, ps)
    requires Inner(x, a, b) && Inner(y, a, b) && !Inner(z, a, b)
    ensures OnChord(x, ClipEdge(ps, a, b))
  {
    var w := Crossing(y, z, a, b);
    var s := CrossingIsBetween(y, z, a, b);
    var l := EndLike(y, ps, a, b);
    var k := EndLike(z, ps, a, b);
    var j := ExitBefore(ps, l, k, a, b);
    BoundaryOnHand(y, ps, sign);
    BoundaryOnHand(z, ps, sign);
    HandBetween(y, z, s, ps, sign);
    ChordMeetsCut(w, ps, j, sign, a, b);
    BoundaryKept(y, ps, a, b);
    var r := BeforeCrossing(x, y, z, t, a, b);
    assert IsChord(x, y, w, r, ClipEdge(ps, a, b));
  }

  lemma BeforeCrossing(x: Point, y: Point, z: Point, t: real, a: Point, b: Point) returns (r: real)
    requires 0.0 <= t <= 1.0 && x == Between(y, z, t) && Inner(x, a, b) && Inner(y, a, b) && !Inner(z, a, b)
    ensures 0.0 <= r <= 1.0 && x == Between(y, Crossing(y, z, a, b), r)
  {
    InnerOfCrossing(y, z, t, a, b);
    r := BeforeIt(y, z, t, Side(y, a, b) / (Side(y, a, b) - Side(z, a, b)));
  }

  lemma OtherWay(y: Point, z: Point, t: real)
    ensures Between(y, z, t) == Between(z, y, 1.0 - t)
  {
    assert (z.x - y.x) * t == (z.x - y.x) + (y.x - z.x) * (1.0 - t);
    assert (z.y - y.y) * t == (z.y - y.y) + (y.y - z.y) * (1.0 - t);
  }

  /** An edge cuts nothing inside it from a convex polygon. */
  lemma EdgeKeepsChord(x: Point, ps: Polygon, sign: real, a: Point, b: Point)
    requires WoundBy(ps, sign) && (sign == 1.0 || sign == -1.0) && OnChord(x, ps) && Inner(x, a, b)
    ensures OnChord(x, ClipEdge(ps, a, b))
  {
    var y, z, t: real :| IsChord(x, y, z, t, ps);
    if Inner(y, a, b) && Inner(z, a, b) {
      BoundaryKept(y, ps, a, b);
      BoundaryKept(z, ps, a, b);
      assert IsChord(x, y, z, t, ClipEdge(ps, a, b));
    } else if Inner(y, a, b) {
      HalfChord(x, y, z, t, ps, sign, a, b);
    } else if Inner(z, a, b) {
      OtherWay(y, z, t);
      assert IsChord(x, z, y, 1.0 - t, ps);
      HalfChord(x, z, y, 1.0 - t, ps, sign, a, b);
    } else {
      OuterBetween(y, z, t, a, b);
    }
  }

  lemma {:induction false} ClipKeepsChord(x: Point, subject: Polygon, clip: Polygon, i: nat, sign: real)
    requires i <= |clip| && WoundBy(subject, sign) && (sign == 1.0 || sign == -1.0)
    requires OnChord(x, subject) && Inside([x], clip)
    ensures OnChord(x, ClipFrom(subject, clip, i))
    decreases |clip| - i
  {
    if i < |clip| {
      var a, b := clip[i], clip[Next(i, |clip|)];
      assert x in [x] && Inner(x, a, b);
      EdgeKeepsChord(x, subject, sign, a, b);
      EdgeKeepsWinding(subject, sign, a, b);
      ClipKeepsChord(x, ClipEdge(subject, a, b), clip, i + 1, sign);
    }
  }

  lemma ChordInHalfPlane(x: Point, ps: Polygon, c: Point, d: Point)
    requires OnChord(x, ps) && AllInner(ps, c, d)
    ensures Inner(x, c, d)
  {
    var y, z, t: real :| IsChord(x, y, z, t, ps);
    BoundaryInHalfPlane(y, ps, c, d);
    BoundaryInHalfPlane(z, ps, c, d);
    HalfPlaneIsConvex(y, z, t, c, d);
  }

  lemma BoundaryInHalfPlane(x: Point, ps: Polygon, c: Point, d: Point)
    requires OnBoundary(x, ps) && AllInner(ps, c, d)
    ensures Inner(x, c, d)
  {
    var k: nat, t: real :| OnSide(x, ps, k, t);
    assert ps[k] in ps && ps[Next(k, |ps|)] in ps;
    HalfPlaneIsConvex(ps[k], ps[Next(k, |ps|)], t, c, d);
  }

  /**
   Of a convex subject, wound either way, nothing inside the clip polygon is cut
   away: a point on a chord of the one and inside the other is on a chord of the
   result, and in every half-plane that holds the result; and the result is convex.
   */
  lemma ConvexIsKept(subject: Polygon, clip: Polygon, x: Point, sign: real)
    requires |clip| >= 2 && WoundBy(subject, sign) && (sign == 1.0 || sign == -1.0)
    requires OnChord(x, subject) && Inside([x], Oriented(clip))
    ensures OnChord(x, Clipped(subject, clip).value)
    ensures forall c, d :: AllInner(Clipped(subject, clip).value, c, d) ==> Inner(x, c, d)
  {
    ClipKeepsChord(x, subject, Oriented(clip), 0, sign);
    forall c, d | AllInner(Clipped(subject, clip).value, c, d)
      ensures Inner(x, c, d)
    {
      ChordInHalfPlane(x, Clipped(subject, clip).value, c, d);
    }
  }

  // ---- a subject that is not convex ----

  const CHEVRON: Polygon := [Point(0.0, 0.0), Point(4.0, 4.0), Point(0.0, 2.0), Point(-4.0, 4.0)]

  const TO_THE_RIGHT: Polygon := [Point(1.0, -1.0), Point(9.0, -1.0), Point(9.0, 9.0), Point(1.0, 9.0)]

  /** The sides of the chevron, cut at x = 1, leave nothing above the line from (1, 2.5) to (4, 4). */
  lemma ChevronCut()
    ensures AllInner(ClipEdge(CHEVRON, Point(1.0, 9.0), Point(1.0, -1.0)), Point(4.0, 4.0), Point(2.0, 3.0))
  {
    var a, b, c, d := Point(1.0, 9.0), Point(1.0, -1.0), Point(4.0, 4.0), Point(2.0, 3.0);
    assert AllInner(Kept(CHEVRON[0], CHEVRON[1], a, b), c, d);
    assert AllInner(Kept(CHEVRON[1], CHEVRON[2], a, b), c, d);
    assert Kept(CHEVRON[2], CHEVRON[3], a, b) == [];
    assert Kept(CHEVRON[3], CHEVRON[0], a, b) == [];
    assert KeptUpTo(CHEVRON, 2, a, b) == KeptUpTo(CHEVRON, 1, a, b) + Kept(CHEVRON[1], CHEVRON[2], a, b);
    assert KeptUpTo(CHEVRON, 4, a, b) == KeptUpTo(CHEVRON, 3, a, b) + Kept(CHEVRON[3], CHEVRON[0], a, b);
  }

  /** The square to the right of x = 1 cuts the chevron at that line alone. */
  lemma ChevronClipped()
    ensures Oriented(TO_THE_RIGHT) == TO_THE_RIGHT
    ensures ClipFrom(CHEVRON, TO_THE_RIGHT, 0) == ClipEdge(CHEVRON, Point(1.0, 9.0), Point(1.0, -1.0))
  {
    var clip := TO_THE_RIGHT;
    RightCentroid();
    for i := 0 to 3
      invariant ClipFrom(CHEVRON, clip, 0) == ClipFrom(CHEVRON, clip, i)
    {
      assert AllInner(CHEVRON, clip[i], clip[Next(i, 4)]);
      InnerIsKept(CHEVRON, 4, clip[i], clip[Next(i, 4)]);
      assert CHEVRON[..4] == CHEVRON;
    }
  }

  lemma RightCentroid()
    ensures Side(Centroid(TO_THE_RIGHT), TO_THE_RIGHT[0], TO_THE_RIGHT[1]) >= 0.0
  {
    SidesSum(TO_THE_RIGHT, TO_THE_RIGHT[0], TO_THE_RIGHT[1]);
    CentroidSide(TO_THE_RIGHT, TO_THE_RIGHT[0], TO_THE_RIGHT[1]);
    SumHasSign(TO_THE_RIGHT, TO_THE_RIGHT[0], TO_THE_RIGHT[1], 1.0);
  }

  const BETWEEN_TIPS: Point := Point(1.0, 4.0)

  lemma TipsHold(e: Point, f: Point)
    requires AllInner(CHEVRON, e, f)
    ensures Inner(BETWEEN_TIPS, e, f)
  {
    var p, q := Point(-4.0, 4.0), Point(4.0, 4.0);
    assert CHEVRON[3] == p && CHEVRON[1] == q && p in CHEVRON && q in CHEVRON;
    HalfPlaneIsConvex(p, q, 0.625, e, f);
    assert Between(p, q, 0.625) == BETWEEN_TIPS;
  }

  lemma TipsInside()
    ensures Inside([BETWEEN_TIPS], TO_THE_RIGHT)
  {
  }

  /**
   A point between two vertices of a chevron, and inside the clip polygon, that a
   half-plane holding the result does not hold: the hull of a subject that is not
   convex can be cut away.
   */
  lemma HullIsNotKept()
    ensures Inside([BETWEEN_TIPS], Oriented(TO_THE_RIGHT))
    ensures forall e, f :: AllInner(CHEVRON, e, f) ==> Inner(BETWEEN_TIPS, e, f)
    ensures exists c, d :: AllInner(Clipped(CHEVRON, TO_THE_RIGHT).value, c, d) && !Inner(BETWEEN_TIPS, c, d)
  {
    ChevronClipped();
    ChevronCut();
    TipsInside();
    forall e, f | AllInner(CHEVRON, e, f)
      ensures Inner(BETWEEN_TIPS, e, f)
    {
      TipsHold(e, f);
    }
    assert !Inner(BETWEEN_TIPS, Point(4.0, 4.0), Point(2.0, 3.0));
  }
}
