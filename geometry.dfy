/**
 * The two geometry helpers of the canvas component (components/Canvas.tsx):
 * the axis-aligned bounding box of a list of strokes and the even-odd
 * ray-casting point-in-polygon test. Both are loops in the source and are
 * modelled as methods proved equal to a recursive specification function,
 * about which the properties are proved.
 */
module Geometry {
  import opened Types

  /** A JavaScript number as the bounding-box accumulators use it: the
      accumulators start at +/-Infinity and only ever meet finite coordinates. */
  datatype Bound = NegInf | Fin(v: real) | PosInf

  /** `Math.min(b, x)`, for an accumulator that started at +Infinity */
  function Min(b: Bound, x: real): (r: Bound)
    requires !b.NegInf?
    ensures r.Fin? && r.v <= x && (b.Fin? ==> r.v <= b.v)
    ensures r.v == x || (b.Fin? && r.v == b.v)
  {
    if b.Fin? && b.v <= x then b else Fin(x)
  }

  /** `Math.max(b, x)`, for an accumulator that started at -Infinity */
  function Max(b: Bound, x: real): (r: Bound)
    requires !b.PosInf?
    ensures r.Fin? && r.v >= x && (b.Fin? ==> r.v >= b.v)
    ensures r.v == x || (b.Fin? && r.v == b.v)
  {
    if b.Fin? && b.v >= x then b else Fin(x)
  }

  /** `x >= b` for a finite `x` */
  predicate AtLeast(x: real, b: Bound) {
    b.NegInf? || (b.Fin? && x >= b.v)
  }

  /** `x <= b` for a finite `x` */
  predicate AtMost(x: real, b: Bound) {
    b.PosInf? || (b.Fin? && x <= b.v)
  }

  datatype Box = Box(minX: Bound, minY: Bound, maxX: Bound, maxY: Bound)

  /** The accumulators before any point is seen: min at +Infinity, max at -Infinity. */
  const EmptyBox := Box(PosInf, PosInf, NegInf, NegInf)

  /** The unpadded containment test of the selection hit test (Canvas.tsx:207). */
  predicate InBox(b: Box, p: Point) {
    AtLeast(p.x, b.minX) && AtMost(p.x, b.maxX) && AtLeast(p.y, b.minY) && AtMost(p.y, b.maxY)
  }

  predicate IsFinite(b: Box) {
    b.minX.Fin? && b.minY.Fin? && b.maxX.Fin? && b.maxY.Fin?
  }

  /** The accumulators never move away from their initial infinities the wrong way. */
  predicate Oriented(b: Box) {
    !b.minX.NegInf? && !b.minY.NegInf? && !b.maxX.PosInf? && !b.maxY.PosInf?
  }

  /** One step of the inner loop: the four accumulators take in one point. */
  function Extend(b: Box, p: Point): (r: Box)
    requires Oriented(b)
    ensures Oriented(r) && IsFinite(r) && InBox(r, p)
  {
    Box(Min(b.minX, p.x), Min(b.minY, p.y), Max(b.maxX, p.x), Max(b.maxY, p.y))
  }

  /** Every point of every stroke, in the order the nested loops visit them. */
  function Flatten(strokes: seq<Stroke>): seq<Point> {
    if strokes == [] then []
    else Flatten(strokes[..|strokes| - 1]) + strokes[|strokes| - 1].points
  }

  /** The accumulators after visiting `pts` in order. */
  function BoxOf(pts: seq<Point>): (r: Box)
    ensures Oriented(r)
  {
    if pts == [] then EmptyBox else Extend(BoxOf(pts[..|pts| - 1]), pts[|pts| - 1])
  }

  /** Each bound of a non-empty point list's box is finite, holds every point,
      and is attained by some point. */
  lemma {:induction false} BoxOfTight(pts: seq<Point>)
    requires pts != []
    ensures IsFinite(BoxOf(pts))
    ensures forall p :: p in pts ==> InBox(BoxOf(pts), p)
    ensures exists p :: p in pts && p.x == BoxOf(pts).minX.v
    ensures exists p :: p in pts && p.y == BoxOf(pts).minY.v
    ensures exists p :: p in pts && p.x == BoxOf(pts).maxX.v
    ensures exists p :: p in pts && p.y == BoxOf(pts).maxY.v
  {
    var init, last := pts[..|pts| - 1], pts[|pts| - 1];
    assert pts == init + [last];
    if init != [] {
      BoxOfTight(init);
    } else {
      assert BoxOf(init) == EmptyBox;
    }
  }

  /** `getStrokesBoundingBox` as a value: null for no strokes, otherwise the
      four accumulators after every point. */
  function BoundingBox(strokes: seq<Stroke>): (r: Option<Box>)
    ensures r.None? <==> strokes == []
    ensures r.Some? && Flatten(strokes) != [] ==>
      && IsFinite(r.value)
      && (forall p :: p in Flatten(strokes) ==> InBox(r.value, p))
      && (exists p :: p in Flatten(strokes) && p.x == r.value.minX.v)
      && (exists p :: p in Flatten(strokes) && p.y == r.value.minY.v)
      && (exists p :: p in Flatten(strokes) && p.x == r.value.maxX.v)
      && (exists p :: p in Flatten(strokes) && p.y == r.value.maxY.v)
    ensures r.Some? && Flatten(strokes) == [] ==> forall p :: !InBox(r.value, p)
  {
    if strokes == [] then None
    else
      var pts := Flatten(strokes);
      if pts != [] then BoxOfTight(pts); Some(BoxOf(pts))
      else Some(BoxOf(pts))
  }

  lemma FlattenSnoc(strokes: seq<Stroke>, i: nat)
    requires i < |strokes|
    ensures Flatten(strokes[..i + 1]) == Flatten(strokes[..i]) + strokes[i].points
  {
    assert strokes[..i + 1][..i] == strokes[..i];
  }

  lemma BoxOfSnoc(xs: seq<Point>, p: Point)
    ensures BoxOf(xs + [p]) == Extend(BoxOf(xs), p)
  {
    assert (xs + [p])[..|xs|] == xs;
  }

  /** The inner `forEach` of `getStrokesBoundingBox` (Canvas.tsx:21-26): the
      four accumulators take in the points of one stroke, in order. */
  method AccumulatePoints(minX0: Bound, minY0: Bound, maxX0: Bound, maxY0: Bound, pts: seq<Point>, ghost seen: seq<Point>)
    returns (minX: Bound, minY: Bound, maxX: Bound, maxY: Bound)
    requires Box(minX0, minY0, maxX0, maxY0) == BoxOf(seen)
    ensures Box(minX, minY, maxX, maxY) == BoxOf(seen + pts)
  {
    minX, minY, maxX, maxY := minX0, minY0, maxX0, maxY0;
    var j := 0;
    assert seen + pts[..0] == seen;
    while j < |pts|
      invariant 0 <= j <= |pts|
      invariant Box(minX, minY, maxX, maxY) == BoxOf(seen + pts[..j])
    {
      BoxOfSnoc(seen + pts[..j], pts[j]);
      assert seen + pts[..j + 1] == seen + pts[..j] + [pts[j]];
      minX := Min(minX, pts[j].x);
      minY := Min(minY, pts[j].y);
      maxX := Max(maxX, pts[j].x);
      maxY := Max(maxY, pts[j].y);
      j := j + 1;
    }
    assert pts[..j] == pts;
  }

  /** `getStrokesBoundingBox` (Canvas.tsx:17-29): the outer `forEach` over the
      strokes, threading the four running accumulators through each stroke. */
  method GetStrokesBoundingBox(strokes: seq<Stroke>) returns (r: Option<Box>)
    ensures r == BoundingBox(strokes)
  {
    if |strokes| == 0 {
      return None;
    }
    var minX, minY, maxX, maxY := PosInf, PosInf, NegInf, NegInf;
    var i := 0;
    assert strokes[..0] == [];
    while i < |strokes|
      invariant 0 <= i <= |strokes|
      invariant Box(minX, minY, maxX, maxY) == BoxOf(Flatten(strokes[..i]))
    {
      minX, minY, maxX, maxY := AccumulatePoints(minX, minY, maxX, maxY, strokes[i].points, Flatten(strokes[..i]));
      FlattenSnoc(strokes, i);
      i := i + 1;
    }
    assert strokes[..i] == strokes;
    r := Some(Box(minX, minY, maxX, maxY));
  }

  // ---------------------------------------------------------------------------
  // Point in polygon

  /** The ray-casting test for the edge from `a` (vertex i) to `b` (vertex j):
      the edge straddles the horizontal through `p` (exactly one endpoint
      strictly below it in screen terms, i.e. with a greater y) and meets it
      to the right of `p`. The division only happens when the straddle test
      holds, and then `a.y != b.y`. */
  predicate Crosses(p: Point, a: Point, b: Point) {
    ((a.y > p.y) != (b.y > p.y)) && (p.x < (b.x - a.x) * (p.y - a.y) / (b.y - a.y) + a.x)
  }

  /** The index `j` that the loop pairs with `i`: the previous vertex, cyclically. */
  function Prev(i: nat, n: nat): (j: nat)
    requires i < n
    ensures j < n
  {
    if i == 0 then n - 1 else i - 1
  }

  /** The value of `isInside` after the first `k` edges. */
  predicate Parity(p: Point, poly: seq<Point>, k: nat)
    requires k <= |poly|
  {
    if k == 0 then false
    else Parity(p, poly, k - 1) != Crosses(p, poly[k - 1], poly[Prev(k - 1, |poly|)])
  }

  /** `isPointInPolygon` as a value: the parity of the edges crossed. */
  predicate PointInPolygon(p: Point, poly: seq<Point>) {
    Parity(p, poly, |poly|)
  }

  /** `isPointInPolygon` (Canvas.tsx:32-43): `j` trails `i` by one, cyclically. */
  method IsPointInPolygon(p: Point, poly: seq<Point>) returns (isInside: bool)
    ensures isInside == PointInPolygon(p, poly)
  {
    isInside := false;
    if |poly| == 0 {
      return;
    }
    var i, j := 0, |poly| - 1;
    while i < |poly|
      invariant 0 <= i <= |poly|
      invariant i < |poly| ==> j == Prev(i, |poly|)
      invariant isInside == Parity(p, poly, i)
    {
      var intersect := Crosses(p, poly[i], poly[j]);
      if intersect {
        isInside := !isInside;
      }
      j, i := i, i + 1;
    }
  }

  /** Multiplying before or after dividing is the same on exact reals. */
  lemma MulDiv(u: real, v: real, d: real)
    requires d != 0.0
    ensures u * v / d == u * (v / d)
  {
    var w := v / d;
    assert v == w * d;
    assert u * v == (u * w) * d;
  }

  /** The abscissa at which the line through `a` and `b` meets the horizontal
      through `p`, as the source computes it, is `a.x + (b.x - a.x) * t` for
      the fraction `t` of the way from `a` to `b`. */
  lemma CrossingFraction(p: Point, a: Point, b: Point)
    requires a.y != b.y
    ensures (b.x - a.x) * (p.y - a.y) / (b.y - a.y) == (b.x - a.x) * ((p.y - a.y) / (b.y - a.y))
    ensures (p.y - b.y) / (a.y - b.y) == 1.0 - (p.y - a.y) / (b.y - a.y)
  {
    MulDiv(b.x - a.x, p.y - a.y, b.y - a.y);
    var t := (p.y - a.y) / (b.y - a.y);
    assert t * (b.y - a.y) == p.y - a.y;
    assert (1.0 - t) * (a.y - b.y) == p.y - b.y;
    QuotientOfProduct(p.y - b.y, 1.0 - t, a.y - b.y);
  }

  lemma QuotientOfProduct(x: real, y: real, z: real)
    requires z != 0.0 && x == y * z
    ensures x / z == y
  {
    var q := x / z;
    assert q * z == y * z;
    assert (q - y) * z == 0.0;
  }

  /** Reversing an edge does not change whether it is crossed: both directions
      meet the horizontal through `p` at the same abscissa. */
  lemma CrossesSymmetric(p: Point, a: Point, b: Point)
    ensures Crosses(p, a, b) == Crosses(p, b, a)
  {
    if (a.y > p.y) != (b.y > p.y) {
      CrossingFraction(p, a, b);
      CrossingFraction(p, b, a);
    }
  }

  /** A polygon with fewer than three vertices contains no point: one vertex
      gives a single self-edge that never straddles, two give the same edge
      twice so the flag toggles back. */
  lemma DegeneratePolygonContainsNothing(p: Point, poly: seq<Point>)
    requires |poly| < 3
    ensures !PointInPolygon(p, poly)
  {
    if |poly| == 2 {
      CrossesSymmetric(p, poly[0], poly[1]);
      assert Parity(p, poly, 1) == Crosses(p, poly[0], poly[1]);
      assert Parity(p, poly, 2) == (Parity(p, poly, 1) != Crosses(p, poly[1], poly[0]));
    } else if |poly| == 1 {
      assert Parity(p, poly, 1) == Crosses(p, poly[0], poly[0]);
    }
  }

  /** Where a crossed edge meets the horizontal through `p` lies between the
      edge's end abscissae. */
  lemma CrossingWithinEdge(p: Point, a: Point, b: Point)
    requires (a.y > p.y) != (b.y > p.y)
    ensures var x := (b.x - a.x) * (p.y - a.y) / (b.y - a.y) + a.x;
      (x <= a.x || x <= b.x) && (x >= a.x || x >= b.x)
  {
    CrossingFraction(p, a, b);
    var t := (p.y - a.y) / (b.y - a.y);
    FractionInUnit(p.y - a.y, b.y - a.y);
    ScaledWithin(b.x - a.x, t);
  }

  lemma FractionInUnit(n: real, d: real)
    requires d != 0.0
    requires (0.0 <= n <= d) || (d <= n <= 0.0)
    ensures 0.0 <= n / d <= 1.0
  {
    var t := n / d;
    assert t * d == n;
    if d > 0.0 {
      assert t >= 0.0 && t <= 1.0;
    } else {
      assert t >= 0.0 && t <= 1.0;
    }
  }

  lemma ScaledWithin(u: real, t: real)
    requires 0.0 <= t <= 1.0
    ensures (0.0 <= u * t <= u) || (u <= u * t <= 0.0)
  {
    if u >= 0.0 {
      assert u * t <= u * 1.0;
    } else {
      assert u * t >= u * 1.0;
    }
  }

  lemma {:induction false} NoCrossingNoParity(p: Point, poly: seq<Point>, k: nat)
    requires k <= |poly|
    requires forall i :: 0 <= i < k ==> !Crosses(p, poly[i], poly[Prev(i, |poly|)])
    ensures !Parity(p, poly, k)
  {
    if k > 0 {
      NoCrossingNoParity(p, poly, k - 1);
    }
  }

  /** A point above, below or to the right of every vertex is outside: no edge
      straddles its horizontal, or every crossing lies to its left. */
  lemma OutsideVerticesContainsNothing(p: Point, poly: seq<Point>)
    requires || (forall v :: v in poly ==> v.y > p.y)
             || (forall v :: v in poly ==> v.y <= p.y)
             || (forall v :: v in poly ==> v.x <= p.x)
    ensures !PointInPolygon(p, poly)
  {
    forall i | 0 <= i < |poly| ensures !Crosses(p, poly[i], poly[Prev(i, |poly|)]) {
      var a, b := poly[i], poly[Prev(i, |poly|)];
      assert a in poly && b in poly;
      if (a.y > p.y) != (b.y > p.y) {
        CrossingWithinEdge(p, a, b);
        var x := (b.x - a.x) * (p.y - a.y) / (b.y - a.y) + a.x;
        assert Crosses(p, a, b) <==> p.x < x;
      }
    }
    NoCrossingNoParity(p, poly, |poly|);
  }

  /** The lasso through (0,0), (0,10), (10,10) and (10,0), in that order,
      sampled at any pressures. */
  predicate IsSquareLasso(poly: seq<Point>) {
    && |poly| == 4
    && poly[0].x == 0.0 && poly[0].y == 0.0
    && poly[1].x == 0.0 && poly[1].y == 10.0
    && poly[2].x == 10.0 && poly[2].y == 10.0
    && poly[3].x == 10.0 && poly[3].y == 0.0
  }

  /** With the square lasso, its centre (5,5) is inside and the far point
      (20,20) is outside, whatever the pressures. */
  lemma SquareLassoExample(square: seq<Point>, c: Point, far: Point)
    requires IsSquareLasso(square)
    requires c.x == 5.0 && c.y == 5.0 && far.x == 20.0 && far.y == 20.0
    ensures PointInPolygon(c, square) && !PointInPolygon(far, square)
  {
    assert !Crosses(c, square[0], square[3]);
    assert !Crosses(c, square[1], square[0]);
    assert !Crosses(c, square[2], square[1]);
    assert Crosses(c, square[3], square[2]);
    assert !Parity(c, square, 1);
    assert !Parity(c, square, 2);
    assert !Parity(c, square, 3);
    assert Parity(c, square, 4);
    forall v | v in square ensures v.x <= far.x {
      assert v == square[0] || v == square[1] || v == square[2] || v == square[3];
    }
    OutsideVerticesContainsNothing(far, square);
  }
}
