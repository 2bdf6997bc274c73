/** On a strictly convex polygon the ray-crossing test is exact: true strictly inside all edges, false
    strictly outside some edge. */
module ConvexPolygons {
  import opened Paths
  import opened Plane
  import opened RayCrossing

  /** Counter-clockwise and strictly convex: every vertex off an edge lies strictly left of it. */
  predicate StrictlyConvex(poly: seq<Point>) {
    |poly| >= 3 &&
    forall i, k :: 0 <= i < |poly| && 0 <= k < |poly| && k != i && k != Next(i, |poly|)
                   ==> Orient(poly[i], poly[Next(i, |poly|)], poly[k]) > 0.0
  }

  predicate StrictlyInside(poly: seq<Point>, p: Point) {
    forall i :: 0 <= i < |poly| ==> Orient(poly[i], poly[Next(i, |poly|)], p) > 0.0
  }

  predicate StrictlyOutside(poly: seq<Point>, p: Point) {
    exists i :: 0 <= i < |poly| && Orient(poly[i], poly[Next(i, |poly|)], p) < 0.0
  }

  /** Orient is affine: at the crossing of edge ab with height h it is the weighted mean of its values
      at a and b. */
  lemma OrientAtCrossing(e: Point, f: Point, a: Point, b: Point, h: real)
    requires a.y != b.y
    ensures (b.y - a.y) * Orient(e, f, Point(XInter(a, b, h), h))
         == (b.y - h) * Orient(e, f, a) + (h - a.y) * Orient(e, f, b)
  {
    var x, d, g := XInter(a, b, h), b.y - a.y, f.y - e.y;
    XInterOrient(a, b, Point(0.0, h));
    assert d * x == d * a.x + (h - a.y) * (b.x - a.x);
    assert d * Orient(e, f, Point(x, h)) == d * ((f.x - e.x) * (h - e.y)) - g * (d * x) + d * (g * e.x);
  }

  /** A line with both ends of a straddling edge on its closed left has the crossing there as well. */
  lemma CrossingOnLeft(e: Point, f: Point, a: Point, b: Point, h: real)
    requires GoesUp(a, b, h) || GoesDown(a, b, h)
    requires Orient(e, f, a) >= 0.0 && Orient(e, f, b) >= 0.0
    ensures Orient(e, f, Point(XInter(a, b, h), h)) >= 0.0
    ensures Orient(e, f, a) > 0.0 && Orient(e, f, b) > 0.0 ==> Orient(e, f, Point(XInter(a, b, h), h)) > 0.0
  {
    OrientAtCrossing(e, f, a, b, h);
    var d, o := b.y - a.y, Orient(e, f, Point(XInter(a, b, h), h));
    var u, v := Orient(e, f, a), Orient(e, f, b);
    if d > 0.0 {
      WeightedSign(b.y - h, h - a.y, u, v);
      SignOfProduct(o, d);
    } else {
      WeightedSign(h - b.y, a.y - h, u, v);
      assert o * -d == (h - b.y) * u + (a.y - h) * v;
      SignOfProduct(o, -d);
    }
  }

  lemma WeightedSign(s: real, t: real, u: real, v: real)
    requires s >= 0.0 && t >= 0.0 && s + t > 0.0 && u >= 0.0 && v >= 0.0
    ensures s * u + t * v >= 0.0
    ensures u > 0.0 && v > 0.0 ==> s * u + t * v > 0.0
  {
    if u > 0.0 && v > 0.0 {
      if s > 0.0 {
        SignOfProduct(u, s);
      } else {
        SignOfProduct(v, t);
      }
    }
  }

  /** On which side of a straddling edge's crossing a point lies. */
  lemma SideOfCrossing(a: Point, b: Point, q: Point)
    requires GoesUp(a, b, q.y) || GoesDown(a, b, q.y)
    ensures GoesUp(a, b, q.y) ==> (Orient(a, b, q) > 0.0 <==> q.x < XInter(a, b, q.y))
    ensures GoesUp(a, b, q.y) ==> (Orient(a, b, q) < 0.0 <==> q.x > XInter(a, b, q.y))
    ensures GoesDown(a, b, q.y) ==> (Orient(a, b, q) < 0.0 <==> q.x < XInter(a, b, q.y))
    ensures GoesDown(a, b, q.y) ==> (Orient(a, b, q) > 0.0 <==> q.x > XInter(a, b, q.y))
  {
    XInterOrient(a, b, q);
    SignOfFactor(b.y - a.y, XInter(a, b, q.y) - q.x, Orient(a, b, q));
  }

  lemma SignOfFactor(d: real, w: real, o: real)
    requires d * w == o && d != 0.0
    ensures d > 0.0 ==> (o > 0.0 <==> w > 0.0) && (o < 0.0 <==> w < 0.0)
    ensures d < 0.0 ==> (o > 0.0 <==> w < 0.0) && (o < 0.0 <==> w > 0.0)
  {
    if d > 0.0 {
      SignOfProduct(w, d);
    } else {
      SignOfProduct(w, -d);
      assert w * -d == -o;
    }
  }

  /** Two edges with each other's ends strictly on their left do not cross a height in the same
      direction: each crossing would lie strictly left of the other. */
  lemma NoTwoSameWay(a: Point, b: Point, c: Point, d: Point, h: real)
    requires Orient(a, b, c) > 0.0 && Orient(a, b, d) > 0.0 && Orient(c, d, a) > 0.0 && Orient(c, d, b) > 0.0
    ensures !(GoesUp(a, b, h) && GoesUp(c, d, h))
    ensures !(GoesDown(a, b, h) && GoesDown(c, d, h))
  {
    if (GoesUp(a, b, h) && GoesUp(c, d, h)) || (GoesDown(a, b, h) && GoesDown(c, d, h)) {
      CrossingOnLeft(a, b, c, d, h);
      CrossingOnLeft(c, d, a, b, h);
      SideOfCrossing(a, b, Point(XInter(c, d, h), h));
      SideOfCrossing(c, d, Point(XInter(a, b, h), h));
      assert false;
    }
  }

  /** Two different edges of a convex polygon cannot both go up, nor both go down, through one height. */
  lemma OneEdgeEachWay(poly: seq<Point>, i: nat, k: nat, h: real)
    requires StrictlyConvex(poly) && i < |poly| && k < |poly| && i != k
    ensures !(GoesUp(poly[i], poly[Next(i, |poly|)], h) && GoesUp(poly[k], poly[Next(k, |poly|)], h))
    ensures !(GoesDown(poly[i], poly[Next(i, |poly|)], h) && GoesDown(poly[k], poly[Next(k, |poly|)], h))
  {
    var n := |poly|;
    if Next(i, n) != k && Next(k, n) != i {
      NoTwoSameWay(poly[i], poly[Next(i, n)], poly[k], poly[Next(k, n)], h);
    }
  }

  lemma AtMostOneEachWay(poly: seq<Point>, h: real)
    requires StrictlyConvex(poly)
    ensures CountCyclic(poly, UpAt(h)) == CountCyclic(poly, DownAt(h)) <= 1
  {
    UpEqualsDown(poly, HighAt(h), UpAt(h), DownAt(h));
    var n := |poly|;
    forall i, k | 0 <= i < n && 0 <= k < n && i != k
      ensures !(UpAt(h)(poly[i], poly[Next(i, n)]) && UpAt(h)(poly[k], poly[Next(k, n)]))
    {
      OneEdgeEachWay(poly, i, k, h);
    }
    EdgeAtMostOne(poly, UpAt(h));
  }

  // ---- Strictly inside ----

  /** Seen from vertex m with neighbours n and q, the height of p is a positive combination of theirs. */
  lemma Cone(m: Point, n: Point, q: Point, p: Point)
    ensures (p.y - m.y) * Orient(m, n, q) == (n.y - m.y) * Orient(q, m, p) + (q.y - m.y) * Orient(m, n, p)
  {
    var ux, uy, wx, wy, tx, ty := n.x - m.x, n.y - m.y, q.x - m.x, q.y - m.y, p.x - m.x, p.y - m.y;
    assert Orient(m, n, q) == ux * wy - uy * wx;
    assert Orient(m, n, p) == ux * ty - uy * tx;
    assert Orient(q, m, p) == tx * wy - ty * wx by {
      assert m.x - q.x == -wx && m.y - q.y == -wy && p.y - q.y == ty - wy && p.x - q.x == tx - wx;
    }
    ConeIdentity(ux, uy, wx, wy, tx, ty);
  }

  lemma ConeIdentity(ux: real, uy: real, wx: real, wy: real, tx: real, ty: real)
    ensures ty * (ux * wy - uy * wx) == uy * (tx * wy - ty * wx) + wy * (ux * ty - uy * tx)
  {
  }

  lemma {:induction false} LowestVertex(poly: seq<Point>) returns (m: nat)
    requires poly != []
    ensures m < |poly| && forall k :: 0 <= k < |poly| ==> poly[m].y <= poly[k].y
  {
    if |poly| == 1 {
      m := 0;
    } else {
      var j := LowestVertex(poly[1..]);
      assert forall k :: 1 <= k < |poly| ==> poly[k] == poly[1..][k - 1];
      m := if poly[0].y <= poly[j + 1].y then 0 else j + 1;
    }
  }

  lemma {:induction false} HighestVertex(poly: seq<Point>) returns (m: nat)
    requires poly != []
    ensures m < |poly| && forall k :: 0 <= k < |poly| ==> poly[k].y <= poly[m].y
  {
    if |poly| == 1 {
      m := 0;
    } else {
      var j := HighestVertex(poly[1..]);
      assert forall k :: 1 <= k < |poly| ==> poly[k] == poly[1..][k - 1];
      m := if poly[j + 1].y <= poly[0].y then 0 else j + 1;
    }
  }

  /** A point strictly inside has a vertex below it and one above it. */
  lemma InsideIsBetween(poly: seq<Point>, p: Point)
    requires StrictlyConvex(poly) && StrictlyInside(poly, p)
    ensures exists k :: 0 <= k < |poly| && poly[k].y < p.y
    ensures exists k :: 0 <= k < |poly| && p.y < poly[k].y
  {
    var lo := LowestVertex(poly);
    var hi := HighestVertex(poly);
    InsideBeyondExtreme(poly, p, lo);
    InsideBeyondExtreme(poly, p, hi);
  }

  lemma InsideBeyondExtreme(poly: seq<Point>, p: Point, m: nat)
    requires StrictlyConvex(poly) && StrictlyInside(poly, p) && m < |poly|
    ensures (forall k :: 0 <= k < |poly| ==> poly[m].y <= poly[k].y) ==> poly[m].y < p.y
    ensures (forall k :: 0 <= k < |poly| ==> poly[k].y <= poly[m].y) ==> p.y < poly[m].y
  {
    var n := |poly|;
    var r := if m == 0 then n - 1 else m - 1;
    assert Next(r, n) == m;
    var v, s, q := poly[m], poly[Next(m, n)], poly[r];
    Cone(v, s, q, p);
    ConeSign(p.y - v.y, Orient(v, s, q), s.y - v.y, Orient(q, v, p), q.y - v.y, Orient(v, s, p));
    assert s.y != v.y || q.y != v.y;
  }

  lemma ConeSign(t: real, c: real, u: real, a: real, w: real, b: real)
    requires c > 0.0 && a > 0.0 && b > 0.0
    requires t * c == u * a + w * b
    ensures u >= 0.0 && w >= 0.0 && (u > 0.0 || w > 0.0) ==> t > 0.0
    ensures u <= 0.0 && w <= 0.0 && (u < 0.0 || w < 0.0) ==> t < 0.0
  {
    SignOfProduct(t, c);
    SignOfProduct(u, a);
    SignOfProduct(w, b);
  }

  lemma SomeEdgeStraddles(poly: seq<Point>, h: real, lo: nat, hi: nat)
    requires lo < |poly| && hi < |poly| && poly[lo].y < h <= poly[hi].y
    ensures CountCyclic(poly, UpAt(h)) == CountCyclic(poly, DownAt(h)) >= 1
  {
    UpEqualsDown(poly, HighAt(h), UpAt(h), DownAt(h));
    if CountCyclic(poly, UpAt(h)) == 0 {
      NoChange(Closed(poly), HighAt(h), UpAt(h), DownAt(h), lo + 1);
      NoChange(Closed(poly), HighAt(h), UpAt(h), DownAt(h), hi + 1);
      assert false;
    }
  }

  lemma StrictlyInsideIsInside(poly: seq<Point>, p: Point)
    requires StrictlyConvex(poly) && StrictlyInside(poly, p)
    ensures Inside(poly, p)
  {
    InsideIsBetween(poly, p);
    var lo :| 0 <= lo < |poly| && poly[lo].y < p.y;
    var hi :| 0 <= hi < |poly| && p.y < poly[hi].y;
    SomeEdgeStraddles(poly, p.y, lo, hi);
    AtMostOneEachWay(poly, p.y);
    TogglesSplit(poly, p);
    // Every upward edge is to the right, and no downward one.
    if CountCyclic(poly, DownRightOf(p)) > 0 {
      var k := EdgeWitness(poly, DownRightOf(p));
      assert false;
    }
    SameOnEdges(poly, UpAt(p.y), UpRightOf(p));
  }

  lemma SameOnEdges(poly: seq<Point>, f: (Point, Point) -> bool, g: (Point, Point) -> bool)
    requires forall i :: 0 <= i < |poly| ==> f(poly[i], poly[Next(i, |poly|)]) == g(poly[i], poly[Next(i, |poly|)])
    ensures CountCyclic(poly, f) == CountCyclic(poly, g)
  {
    if poly != [] {
      var c, n := Closed(poly), |poly|;
      forall k | 0 <= k < |c| - 1 ensures f(c[k], c[k + 1]) == g(c[k], c[k + 1]) {
        var i := if k == 0 then n - 1 else k - 1;
        assert f(poly[i], poly[Next(i, n)]) == g(poly[i], poly[Next(i, n)]);
      }
      CountPairsMapped(c, c, f, g);
    }
  }

  // ---- Strictly outside ----

  /** All vertices lie on the closed left of every edge. */
  lemma VerticesOnLeft(poly: seq<Point>, i: nat, k: nat)
    requires StrictlyConvex(poly) && i < |poly| && k < |poly|
    ensures Orient(poly[i], poly[Next(i, |poly|)], poly[k]) >= 0.0
  {
  }

  /** The crossing of a downward edge on the closed left of an upward edge is not to its right. */
  lemma DownLeftOfUp(a: Point, b: Point, c: Point, f: Point, h: real)
    requires GoesUp(a, b, h) && GoesDown(c, f, h)
    requires Orient(a, b, c) >= 0.0 && Orient(a, b, f) >= 0.0
    ensures XInter(c, f, h) <= XInter(a, b, h)
  {
    CrossingOnLeft(a, b, c, f, h);
    SideOfCrossing(a, b, Point(XInter(c, f, h), h));
  }

  lemma LeftBetweenCrossings(e: Point, g: Point, a: Point, b: Point, c: Point, f: Point, p: Point)
    requires GoesUp(a, b, p.y) && GoesDown(c, f, p.y)
    requires XInter(c, f, p.y) <= p.x <= XInter(a, b, p.y)
    requires Orient(e, g, a) >= 0.0 && Orient(e, g, b) >= 0.0 && Orient(e, g, c) >= 0.0 && Orient(e, g, f) >= 0.0
    ensures Orient(e, g, p) >= 0.0
  {
    CrossingOnLeft(e, g, a, b, p.y);
    CrossingOnLeft(e, g, c, f, p.y);
    OrientOnChord(e, g, p.y, XInter(c, f, p.y), p.x, XInter(a, b, p.y));
  }

  /** A point that toggles on exactly one of the two straddling edges lies between their crossings,
      and is therefore on the closed left of every edge. */
  lemma BetweenCrossings(poly: seq<Point>, p: Point, u: nat, d: nat, i: nat)
    requires StrictlyConvex(poly) && u < |poly| && d < |poly| && i < |poly|
    requires GoesUp(poly[u], poly[Next(u, |poly|)], p.y) && GoesDown(poly[d], poly[Next(d, |poly|)], p.y)
    requires (Orient(poly[u], poly[Next(u, |poly|)], p) > 0.0) != (Orient(poly[d], poly[Next(d, |poly|)], p) < 0.0)
    ensures Orient(poly[i], poly[Next(i, |poly|)], p) >= 0.0
  {
    var n := |poly|;
    VerticesOnLeft(poly, u, d);
    VerticesOnLeft(poly, u, Next(d, n));
    DownLeftOfUp(poly[u], poly[Next(u, n)], poly[d], poly[Next(d, n)], p.y);
    SideOfCrossing(poly[u], poly[Next(u, n)], p);
    SideOfCrossing(poly[d], poly[Next(d, n)], p);
    VerticesOnLeft(poly, i, u);
    VerticesOnLeft(poly, i, Next(u, n));
    VerticesOnLeft(poly, i, d);
    VerticesOnLeft(poly, i, Next(d, n));
    LeftBetweenCrossings(poly[i], poly[Next(i, n)], poly[u], poly[Next(u, n)], poly[d], poly[Next(d, n)], p);
  }

  lemma OrientOnChord(e: Point, g: Point, h: real, z: real, m: real, x: real)
    requires z <= m <= x
    requires Orient(e, g, Point(z, h)) >= 0.0 && Orient(e, g, Point(x, h)) >= 0.0
    ensures Orient(e, g, Point(m, h)) >= 0.0
  {
    var k, s := (g.x - e.x) * (h - e.y), g.y - e.y;
    if s >= 0.0 {
      assert s * (x - m) >= 0.0;
      assert Orient(e, g, Point(m, h)) == Orient(e, g, Point(x, h)) + s * (x - m);
    } else {
      assert -s * (m - z) >= 0.0;
      assert Orient(e, g, Point(m, h)) == Orient(e, g, Point(z, h)) + -s * (m - z);
    }
  }

  /** Inside by parity means one upward and one downward edge, exactly one of them to the right. */
  lemma OddMeansOneRight(poly: seq<Point>, p: Point) returns (u: nat, d: nat)
    requires StrictlyConvex(poly) && Inside(poly, p)
    ensures u < |poly| && d < |poly|
    ensures GoesUp(poly[u], poly[Next(u, |poly|)], p.y) && GoesDown(poly[d], poly[Next(d, |poly|)], p.y)
    ensures (Orient(poly[u], poly[Next(u, |poly|)], p) > 0.0) != (Orient(poly[d], poly[Next(d, |poly|)], p) < 0.0)
  {
    TogglesSplit(poly, p);
    AtMostOneEachWay(poly, p.y);
    CountSum(Closed(poly), UpAt(p.y), UpRightOf(p), UpNotRight(p));
    CountSum(Closed(poly), DownAt(p.y), DownRightOf(p), DownNotRight(p));
    if CountCyclic(poly, UpRightOf(p)) == 1 {
      u := EdgeWitness(poly, UpRightOf(p));
      d := EdgeWitness(poly, DownNotRight(p));
    } else {
      u := EdgeWitness(poly, UpNotRight(p));
      d := EdgeWitness(poly, DownRightOf(p));
    }
  }

  lemma StrictlyOutsideIsOutside(poly: seq<Point>, p: Point)
    requires StrictlyConvex(poly) && StrictlyOutside(poly, p)
    ensures !Inside(poly, p)
  {
    if Inside(poly, p) {
      var i :| 0 <= i < |poly| && Orient(poly[i], poly[Next(i, |poly|)], p) < 0.0;
      var u, d := OddMeansOneRight(poly, p);
      BetweenCrossings(poly, p, u, d, i);
      assert false;
    }
  }

  // ---- Boundary points included ----

  /** At the height of p the polygon reaches from its one downward edge to its one upward edge; p lies on
      or right of the former and strictly left of the latter. */
  predicate BetweenSides(poly: seq<Point>, p: Point) {
    exists u, d :: 0 <= u < |poly| && 0 <= d < |poly| && UpSide(poly, u, p) && DownSide(poly, d, p)
  }

  predicate UpSide(poly: seq<Point>, u: nat, p: Point)
    requires u < |poly|
  {
    GoesUp(poly[u], poly[Next(u, |poly|)], p.y) && Orient(poly[u], poly[Next(u, |poly|)], p) > 0.0
  }

  predicate DownSide(poly: seq<Point>, d: nat, p: Point)
    requires d < |poly|
  {
    GoesDown(poly[d], poly[Next(d, |poly|)], p.y) && Orient(poly[d], poly[Next(d, |poly|)], p) >= 0.0
  }

  lemma InsideMeansBetween(poly: seq<Point>, p: Point)
    requires StrictlyConvex(poly) && Inside(poly, p)
    ensures BetweenSides(poly, p)
  {
    var n := |poly|;
    var u, d := OddMeansOneRight(poly, p);
    VerticesOnLeft(poly, u, d);
    VerticesOnLeft(poly, u, Next(d, n));
    DownLeftOfUp(poly[u], poly[Next(u, n)], poly[d], poly[Next(d, n)], p.y);
    SideOfCrossing(poly[u], poly[Next(u, n)], p);
    SideOfCrossing(poly[d], poly[Next(d, n)], p);
    hide Orient, XInter, StrictlyConvex;
    assert UpSide(poly, u, p) && DownSide(poly, d, p);
  }

  lemma BetweenMeansInside(poly: seq<Point>, p: Point)
    requires StrictlyConvex(poly) && BetweenSides(poly, p)
    ensures Inside(poly, p)
  {
    hide Orient, XInter, StrictlyConvex;
    var u, d :| 0 <= u < |poly| && 0 <= d < |poly| && UpSide(poly, u, p) && DownSide(poly, d, p);
    UpSideCounts(poly, u, p);
    DownSideCounts(poly, d, p);
    TogglesSplit(poly, p);
  }

  lemma DownSideCounts(poly: seq<Point>, d: nat, p: Point)
    requires StrictlyConvex(poly) && d < |poly| && DownSide(poly, d, p)
    ensures CountCyclic(poly, DownRightOf(p)) == 0
  {
    hide Orient, XInter, StrictlyConvex;
    if CountCyclic(poly, DownRightOf(p)) > 0 {
      var k := EdgeWitness(poly, DownRightOf(p));
      if k != d {
        OneEdgeEachWay(poly, k, d, p.y);
      }
      assert false;
    }
  }

  lemma UpSideCounts(poly: seq<Point>, u: nat, p: Point)
    requires StrictlyConvex(poly) && u < |poly| && UpSide(poly, u, p)
    ensures CountCyclic(poly, UpRightOf(p)) == 1
  {
    hide Orient, XInter, StrictlyConvex;
    var n := |poly|;
    SomeEdgeStraddles(poly, p.y, u, Next(u, n));
    AtMostOneEachWay(poly, p.y);
    forall i | 0 <= i < n ensures UpAt(p.y)(poly[i], poly[Next(i, n)]) == UpRightOf(p)(poly[i], poly[Next(i, n)]) {
      if i != u {
        OneEdgeEachWay(poly, i, u, p.y);
      }
    }
    SameOnEdges(poly, UpAt(p.y), UpRightOf(p));
  }

  // ---- Both orientations, and both tests ----

  /** Strictly convex in either direction of the vertex list. */
  predicate Convex(poly: seq<Point>) { StrictlyConvex(poly) || StrictlyConvex(Reversed(poly)) }

  /** The counter-clockwise listing of a convex polygon. */
  function CounterClockwise(poly: seq<Point>): seq<Point> {
    if StrictlyConvex(poly) then poly else Reversed(poly)
  }

  /** The collision monitor's test on every strictly convex polygon, clockwise or not, and every point:
      what it answers on the boundary too. */
  lemma ConvexTestIsExact(poly: seq<Point>, p: Point)
    requires Convex(poly)
    ensures Inside(poly, p) <==> BetweenSides(CounterClockwise(poly), p)
    ensures StrictlyInside(CounterClockwise(poly), p) ==> Inside(poly, p)
    ensures StrictlyOutside(CounterClockwise(poly), p) ==> !Inside(poly, p)
  {
    var c := CounterClockwise(poly);
    InsideReversed(poly, p);
    if Inside(c, p) {
      InsideMeansBetween(c, p);
    } else if BetweenSides(c, p) {
      BetweenMeansInside(c, p);
    }
    if StrictlyInside(c, p) {
      StrictlyInsideIsInside(c, p);
    }
    if StrictlyOutside(c, p) {
      StrictlyOutsideIsOutside(c, p);
    }
  }

  /** The same for the laser filter, whose edges contain their lower ends and not their upper ones. */
  predicate FilterBetweenSides(poly: seq<Point>, p: Point) {
    exists u, d :: 0 <= u < |poly| && 0 <= d < |poly| && FilterUpSide(poly, u, p) && FilterDownSide(poly, d, p)
  }

  predicate FilterUpSide(poly: seq<Point>, u: nat, p: Point)
    requires u < |poly|
  {
    poly[u].y <= p.y < poly[Next(u, |poly|)].y && Orient(poly[u], poly[Next(u, |poly|)], p) > 0.0
  }

  predicate FilterDownSide(poly: seq<Point>, d: nat, p: Point)
    requires d < |poly|
  {
    poly[Next(d, |poly|)].y <= p.y < poly[d].y && Orient(poly[d], poly[Next(d, |poly|)], p) >= 0.0
  }

  /** The laser filter's test has the same meaning: it is the other test in a mirror, which turns a
      counter-clockwise polygon into a clockwise one. */
  lemma FilterConvexTestIsExact(poly: seq<Point>, p: Point)
    requires Convex(poly)
    ensures FilterInside(poly, p) <==> FilterBetweenSides(CounterClockwise(poly), p)
    ensures StrictlyInside(CounterClockwise(poly), p) ==> FilterInside(poly, p)
    ensures StrictlyOutside(CounterClockwise(poly), p) ==> !FilterInside(poly, p)
  {
    var c, q := CounterClockwise(poly), MirrorY(p);
    InsideReversed(poly, p);
    FilterIsFlipped(c, p);
    FlippedConvex(c);
    FlippedSides(c, p);
    FlippedBetween(c, p);
    if Inside(Flipped(c), q) {
      InsideMeansBetween(Flipped(c), q);
    } else if BetweenSides(Flipped(c), q) {
      BetweenMeansInside(Flipped(c), q);
    }
    if StrictlyInside(c, p) {
      StrictlyInsideIsInside(Flipped(c), q);
    }
    if StrictlyOutside(c, p) {
      StrictlyOutsideIsOutside(Flipped(c), q);
    }
  }

  lemma FilterIsFlipped(c: seq<Point>, p: Point)
    ensures FilterInside(c, p) == Inside(Flipped(c), MirrorY(p))
  {
    InsideReversed(MirrorAll(c), MirrorY(p));
    TestsAgreeMirrored(MirrorAll(c), MirrorY(p));
    assert MirrorAll(MirrorAll(c)) == c;
  }

  lemma OrientMirrored(a: Point, b: Point, q: Point)
    ensures Orient(MirrorY(b), MirrorY(a), MirrorY(q)) == Orient(a, b, q)
  {
  }

  /** The mirror image of c, listed backwards so that it is counter-clockwise again. */
  function Flipped(c: seq<Point>): (m: seq<Point>)
    ensures |m| == |c|
    ensures forall k :: 0 <= k < |c| ==> m[k] == MirrorY(c[|c| - 1 - k])
  {
    Reversed(MirrorAll(c))
  }

  /** Edge i of the flipped polygon is edge FlippedEdge(i) of the original, turned round. */
  function FlippedEdge(i: nat, n: nat): nat
    requires i < n
  {
    if i == n - 1 then n - 1 else n - 2 - i
  }

  lemma FlippedOrient(c: seq<Point>, i: nat, q: Point)
    requires i < |c|
    ensures Orient(Flipped(c)[i], Flipped(c)[Next(i, |c|)], MirrorY(q))
         == Orient(c[FlippedEdge(i, |c|)], c[Next(FlippedEdge(i, |c|), |c|)], q)
  {
    var j := FlippedEdge(i, |c|);
    OrientMirrored(c[j], c[Next(j, |c|)], q);
  }

  lemma FlippedConvex(c: seq<Point>)
    requires StrictlyConvex(c)
    ensures StrictlyConvex(Flipped(c))
  {
    var n, m := |c|, Flipped(c);
    forall i, k | 0 <= i < n && 0 <= k < n && k != i && k != Next(i, n)
      ensures Orient(m[i], m[Next(i, n)], m[k]) > 0.0
    {
      FlippedOrient(c, i, c[n - 1 - k]);
    }
  }

  lemma FlippedSide(c: seq<Point>, i: nat, p: Point)
    requires i < |c|
    ensures UpSide(Flipped(c), i, MirrorY(p)) <==> FilterUpSide(c, FlippedEdge(i, |c|), p)
    ensures DownSide(Flipped(c), i, MirrorY(p)) <==> FilterDownSide(c, FlippedEdge(i, |c|), p)
    ensures FlippedEdge(FlippedEdge(i, |c|), |c|) == i
  {
    hide Orient;
    FlippedOrient(c, i, p);
  }

  lemma FlippedBetween(c: seq<Point>, p: Point)
    ensures BetweenSides(Flipped(c), MirrorY(p)) <==> FilterBetweenSides(c, p)
  {
    hide UpSide, DownSide, FilterUpSide, FilterDownSide, Flipped, MirrorY;
    var n, m, q := |c|, Flipped(c), MirrorY(p);
    if BetweenSides(m, q) {
      var u, d :| 0 <= u < n && 0 <= d < n && UpSide(m, u, q) && DownSide(m, d, q);
      FlippedSide(c, u, p);
      FlippedSide(c, d, p);
      assert FilterUpSide(c, FlippedEdge(u, n), p) && FilterDownSide(c, FlippedEdge(d, n), p);
    }
    if FilterBetweenSides(c, p) {
      var u, d :| 0 <= u < n && 0 <= d < n && FilterUpSide(c, u, p) && FilterDownSide(c, d, p);
      FlippedSide(c, FlippedEdge(u, n), p);
      FlippedSide(c, FlippedEdge(d, n), p);
      FlippedSide(c, u, p);
      FlippedSide(c, d, p);
      assert UpSide(m, FlippedEdge(u, n), q) && DownSide(m, FlippedEdge(d, n), q);
    }
  }

  lemma FlippedSides(c: seq<Point>, p: Point)
    ensures StrictlyInside(c, p) ==> StrictlyInside(Flipped(c), MirrorY(p))
    ensures StrictlyOutside(c, p) ==> StrictlyOutside(Flipped(c), MirrorY(p))
  {
    var n, m, q := |c|, Flipped(c), MirrorY(p);
    forall i | 0 <= i < n
      ensures Orient(m[i], m[Next(i, n)], q) == Orient(c[FlippedEdge(i, n)], c[Next(FlippedEdge(i, n), n)], p)
    {
      FlippedOrient(c, i, p);
    }
    if StrictlyOutside(c, p) {
      var j :| 0 <= j < n && Orient(c[j], c[Next(j, n)], p) < 0.0;
      assert FlippedEdge(FlippedEdge(j, n), n) == j;
      assert Orient(m[FlippedEdge(j, n)], m[Next(FlippedEdge(j, n), n)], q) < 0.0;
    }
  }
}
