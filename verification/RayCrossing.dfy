/** The two point-in-polygon tests of the repository: Polygon::isPointInside of the collision monitor
    and inPolygon of the laser polygon filter. Both count the edges met by a ray that leaves the point
    towards +x, and answer by the parity of the count. */
module RayCrossing {
  import opened Paths
  import opened Plane

  /** Positive when q lies to the left of the line from a to b. */
  function Orient(a: Point, b: Point, q: Point): real {
    (b.x - a.x) * (q.y - a.y) - (b.y - a.y) * (q.x - a.x)
  }

  // ---- Edges and the ray of height h ----

  predicate High(v: Point, h: real) { h <= v.y }

  predicate GoesUp(a: Point, b: Point, h: real) { !High(a, h) && High(b, h) }

  predicate GoesDown(a: Point, b: Point, h: real) { High(a, h) && !High(b, h) }

  /** Abscissa at height h of the line through a and b. */
  function XInter(a: Point, b: Point, h: real): real
    requires a.y != b.y
  {
    a.x + (h - a.y) * (b.x - a.x) / (b.y - a.y)
  }

  /** The edge test of isPointInside, condition for condition. */
  predicate Toggles(i: Point, j: Point, p: Point) {
    (p.y <= i.y) == (p.y > j.y) && XInter(i, j, p.y) > p.x
  }

  /** The same abscissa as inPolygon writes it, with the later vertex i first. */
  function FilterInter(j: Point, i: Point, h: real): real
    requires i.y != j.y
  {
    (j.x - i.x) * (h - i.y) / (j.y - i.y) + i.x
  }

  /** The edge test of inPolygon; there j is the earlier vertex of the edge. */
  predicate FilterToggles(j: Point, i: Point, p: Point) {
    (i.y > p.y) != (j.y > p.y) && p.x < FilterInter(j, i, p.y)
  }

  function TogglesAt(p: Point): (Point, Point) -> bool { (i, j) => Toggles(i, j, p) }

  function FilterTogglesAt(p: Point): (Point, Point) -> bool { (j, i) => FilterToggles(j, i, p) }

  predicate Inside(poly: seq<Point>, p: Point) { CountCyclic(poly, TogglesAt(p)) % 2 == 1 }

  predicate FilterInside(poly: seq<Point>, p: Point) { CountCyclic(poly, FilterTogglesAt(p)) % 2 == 1 }

  // ---- The loops ----

  method IsPointInside(poly: seq<Point>, point: Point) returns (res: bool)
    ensures res == Inside(poly, point)
  {
    res := false;
    var i := |poly| - 1;
    for j := 0 to |poly|
      invariant i == if j == 0 then |poly| - 1 else j - 1
      invariant res == OddSoFar(poly, j, TogglesAt(point))
    {
      OddStep(poly, j, TogglesAt(point));
      if (point.y <= poly[i].y) == (point.y > poly[j].y) {
        var xInter := XInter(poly[i], poly[j], point.y);
        if xInter > point.x {
          res := !res;
        }
      }
      i := j;
    }
    OddAtEnd(poly, TogglesAt(point));
  }

  method InPolygon(poly: seq<Point>, point: Point) returns (c: bool)
    ensures c == FilterInside(poly, point)
  {
    c := false;
    var i, j := 0, |poly| - 1;
    while i < |poly|
      invariant 0 <= i <= |poly|
      invariant j == if i == 0 then |poly| - 1 else i - 1
      invariant c == OddSoFar(poly, i, FilterTogglesAt(point))
    {
      OddStep(poly, i, FilterTogglesAt(point));
      if (poly[i].y > point.y) != (poly[j].y > point.y) &&
         point.x < FilterInter(poly[j], poly[i], point.y) {
        c := !c;
      }
      i, j := i + 1, i;
    }
    OddAtEnd(poly, FilterTogglesAt(point));
  }

  // ---- What one edge decides, without a division ----

  /** The crossing abscissa lies left or right of q as q lies on either side of the edge's line. */
  lemma XInterOrient(a: Point, b: Point, q: Point)
    requires a.y != b.y
    ensures (b.y - a.y) * (XInter(a, b, q.y) - q.x) == Orient(a, b, q)
  {
    var n, d := (q.y - a.y) * (b.x - a.x), b.y - a.y;
    var t := n / d;
    assert t * d == n;
    assert d * (a.x + t - q.x) == n - d * (q.x - a.x);
  }

  /** The same line gives the same abscissa from either end. */
  lemma XInterSymmetric(a: Point, b: Point, h: real)
    requires a.y != b.y
    ensures XInter(a, b, h) == XInter(b, a, h)
  {
    var q := Point(XInter(b, a, h), h);
    XInterOrient(a, b, q);
    XInterOrient(b, a, q);
    assert Orient(a, b, q) == -Orient(b, a, q);
    ZeroFactor(b.y - a.y, XInter(a, b, h) - q.x);
  }

  lemma ZeroFactor(d: real, u: real)
    requires d != 0.0 && d * u == 0.0
    ensures u == 0.0
  {
  }

  /** An edge toggles the answer exactly when it goes up to the right of p or goes down to the right
      of p; "to the right" is a sign of Orient, so that no quotient is left. */
  lemma TogglesMeaning(a: Point, b: Point, p: Point)
    ensures Toggles(a, b, p) <==>
      (GoesUp(a, b, p.y) && Orient(a, b, p) > 0.0) || (GoesDown(a, b, p.y) && Orient(a, b, p) < 0.0)
  {
    if a.y != b.y {
      XInterOrient(a, b, p);
      var u := XInter(a, b, p.y) - p.x;
      if a.y < b.y {
        SignOfProduct(u, b.y - a.y);
      } else {
        SignOfProduct(u, a.y - b.y);
        assert u * (a.y - b.y) == -Orient(a, b, p);
      }
    }
  }

  /** The abscissa of a straddling edge lies between the abscissas of its ends. */
  lemma XInterBetween(a: Point, b: Point, h: real)
    requires GoesUp(a, b, h) || GoesDown(a, b, h)
    ensures a.x <= XInter(a, b, h) <= b.x || b.x <= XInter(a, b, h) <= a.x
  {
    var d, t, w := b.y - a.y, (h - a.y) / (b.y - a.y), b.x - a.x;
    UnitQuotient(h - a.y, d);
    MoveFactor(h - a.y, w, d);
    Fraction(t, w);
  }

  lemma UnitQuotient(n: real, d: real)
    requires 0.0 <= n <= d || d <= n <= 0.0
    requires d != 0.0
    ensures 0.0 <= n / d <= 1.0
  {
    var t := n / d;
    assert t * d == n;
  }

  lemma MoveFactor(n: real, w: real, d: real)
    requires d != 0.0
    ensures n * w / d == (n / d) * w
  {
    var t := n / d;
    assert t * d == n;
    assert (t * w) * d == n * w;
  }

  lemma Fraction(t: real, w: real)
    requires 0.0 <= t <= 1.0
    ensures 0.0 <= t * w <= w || w <= t * w <= 0.0
  {
  }

  // ---- Any polygon at all: the answer implies the bounding box ----

  function UpAt(h: real): (Point, Point) -> bool { (a, b) => GoesUp(a, b, h) }

  function DownAt(h: real): (Point, Point) -> bool { (a, b) => GoesDown(a, b, h) }

  function HighAt(h: real): Point -> bool { v => High(v, h) }

  function UpRightOf(p: Point): (Point, Point) -> bool {
    (a, b) => GoesUp(a, b, p.y) && Orient(a, b, p) > 0.0
  }

  function DownRightOf(p: Point): (Point, Point) -> bool {
    (a, b) => GoesDown(a, b, p.y) && Orient(a, b, p) < 0.0
  }

  /** The edges that toggle are the upward and the downward ones to the right of the point. */
  lemma TogglesSplit(poly: seq<Point>, p: Point)
    ensures CountCyclic(poly, TogglesAt(p)) == CountCyclic(poly, UpRightOf(p)) + CountCyclic(poly, DownRightOf(p))
  {
    forall a, b ensures TogglesAt(p)(a, b) == (UpRightOf(p)(a, b) || DownRightOf(p)(a, b))
                        && !(UpRightOf(p)(a, b) && DownRightOf(p)(a, b)) {
      TogglesMeaning(a, b, p);
    }
    if poly != [] {
      CountSum(Closed(poly), TogglesAt(p), UpRightOf(p), DownRightOf(p));
    }
  }

  function UpNotRight(p: Point): (Point, Point) -> bool {
    (a, b) => GoesUp(a, b, p.y) && Orient(a, b, p) <= 0.0
  }

  function DownNotRight(p: Point): (Point, Point) -> bool {
    (a, b) => GoesDown(a, b, p.y) && Orient(a, b, p) >= 0.0
  }

  /** The straddling edges are even in number, so when an odd number toggles some edge does not. */
  lemma OddLeavesOneOut(poly: seq<Point>, p: Point) returns (k: nat, m: nat)
    requires Inside(poly, p)
    ensures k < |poly| && Toggles(poly[k], poly[Next(k, |poly|)], p)
    ensures m < |poly| && !Toggles(poly[m], poly[Next(m, |poly|)], p)
    ensures GoesUp(poly[m], poly[Next(m, |poly|)], p.y) || GoesDown(poly[m], poly[Next(m, |poly|)], p.y)
  {
    hide Orient, XInter;
    TogglesSplit(poly, p);
    UpEqualsDown(poly, HighAt(p.y), UpAt(p.y), DownAt(p.y));
    CountSum(Closed(poly), UpAt(p.y), UpRightOf(p), UpNotRight(p));
    CountSum(Closed(poly), DownAt(p.y), DownRightOf(p), DownNotRight(p));
    k := EdgeWitness(poly, TogglesAt(p));
    if CountCyclic(poly, UpNotRight(p)) > 0 {
      m := EdgeWitness(poly, UpNotRight(p));
    } else {
      m := EdgeWitness(poly, DownNotRight(p));
    }
    TogglesMeaning(poly[m], poly[Next(m, |poly|)], p);
  }

  lemma StraddlingEdgeBox(a: Point, b: Point, p: Point)
    requires GoesUp(a, b, p.y) || GoesDown(a, b, p.y)
    ensures Toggles(a, b, p) ==> p.x < a.x || p.x < b.x
    ensures !Toggles(a, b, p) ==> a.x <= p.x || b.x <= p.x
  {
    XInterBetween(a, b, p.y);
  }

  /** For any vertex list, an answer of true puts the point in the half-open bounding box. */
  lemma InsideImpliesBox(poly: seq<Point>, p: Point)
    requires Inside(poly, p)
    ensures exists v :: v in poly && v.x <= p.x
    ensures exists v :: v in poly && p.x < v.x
    ensures exists v :: v in poly && v.y < p.y
    ensures exists v :: v in poly && p.y <= v.y
  {
    var k, m := OddLeavesOneOut(poly, p);
    StraddlingEdgeBox(poly[k], poly[Next(k, |poly|)], p);
    StraddlingEdgeBox(poly[m], poly[Next(m, |poly|)], p);
    assert poly[k] in poly && poly[Next(k, |poly|)] in poly;
    assert poly[m] in poly && poly[Next(m, |poly|)] in poly;
  }

  // ---- The two implementations agree, and the vertex list's start and direction do not matter ----

  function MirrorY(p: Point): Point { Point(p.x, -p.y) }

  function MirrorAll(poly: seq<Point>): seq<Point> { seq(|poly|, k requires 0 <= k < |poly| => MirrorY(poly[k])) }

  lemma QuotientUnique(t: real, n: real, d: real)
    requires d != 0.0 && t * d == n
    ensures n / d == t
  {
    ZeroFactor(d, n / d - t);
  }

  lemma FilterInterMirrored(a: Point, b: Point, h: real)
    requires a.y != b.y
    ensures FilterInter(MirrorY(a), MirrorY(b), -h) == XInter(a, b, h) == FilterInter(a, b, h)
  {
    XInterSymmetric(a, b, h);
    var n, d := (h - b.y) * (a.x - b.x), a.y - b.y;
    var t := n / d;
    assert (a.x - b.x) * (h - b.y) == n;
    assert (a.x - b.x) * (-h - -b.y) == -n;
    assert t * -d == -n;
    QuotientUnique(t, -n, -d);
    assert -a.y - -b.y == -d;
  }

  lemma MirroredEdge(a: Point, b: Point, p: Point)
    ensures Toggles(a, b, p) == FilterToggles(MirrorY(a), MirrorY(b), MirrorY(p))
  {
    if a.y != b.y {
      FilterInterMirrored(a, b, p.y);
    }
  }

  /** No end of the edge lies on the ray that leaves p. */
  lemma EdgeOffRay(a: Point, b: Point, p: Point)
    requires (a.y == p.y ==> a.x <= p.x) && (b.y == p.y ==> b.x <= p.x)
    ensures Toggles(a, b, p) == FilterToggles(a, b, p)
  {
    if a.y != b.y {
      FilterInterMirrored(a, b, p.y);
      XInterSymmetric(a, b, p.y);
      XInterAtEnd(a, b);
      XInterAtEnd(b, a);
    }
  }

  lemma XInterAtEnd(a: Point, b: Point)
    requires a.y != b.y
    ensures XInter(a, b, a.y) == a.x
  {
    QuotientUnique(0.0, 0.0, b.y - a.y);
  }

  /** The collision monitor's test is the laser filter's test seen in a mirror, on every input. */
  lemma TestsAgreeMirrored(poly: seq<Point>, p: Point)
    ensures Inside(poly, p) == FilterInside(MirrorAll(poly), MirrorY(p))
  {
    if poly != [] {
      var c, d := Closed(poly), Closed(MirrorAll(poly));
      forall k | 0 <= k < |c| - 1 ensures TogglesAt(p)(c[k], c[k + 1]) == FilterTogglesAt(MirrorY(p))(d[k], d[k + 1]) {
        MirroredEdge(c[k], c[k + 1], p);
      }
      CountPairsMapped(c, d, TogglesAt(p), FilterTogglesAt(MirrorY(p)));
    }
  }

  /** Both tests answer alike unless a vertex lies on the ray itself. */
  lemma TestsAgreeOffVertices(poly: seq<Point>, p: Point)
    requires forall v :: v in poly && v.y == p.y ==> v.x <= p.x
    ensures Inside(poly, p) == FilterInside(poly, p)
  {
    if poly != [] {
      var c := Closed(poly);
      forall k | 0 <= k < |c| - 1 ensures TogglesAt(p)(c[k], c[k + 1]) == FilterTogglesAt(p)(c[k], c[k + 1]) {
        var a, b := c[k], c[k + 1];
        EdgeOffRay(a, b, p);
      }
      CountPairsMapped(c, c, TogglesAt(p), FilterTogglesAt(p));
    }
  }

  lemma InsideRotated(poly: seq<Point>, k: nat, p: Point)
    requires k <= |poly|
    ensures Inside(poly[k..] + poly[..k], p) == Inside(poly, p)
    ensures FilterInside(poly[k..] + poly[..k], p) == FilterInside(poly, p)
  {
    CountRotate(poly, k, TogglesAt(p));
    CountRotate(poly, k, FilterTogglesAt(p));
  }

  lemma TurnedEdge(a: Point, b: Point, p: Point)
    ensures Toggles(a, b, p) == Toggles(b, a, p)
    ensures FilterToggles(a, b, p) == FilterToggles(b, a, p)
  {
    if a.y != b.y {
      XInterSymmetric(a, b, p.y);
      FilterInterMirrored(a, b, p.y);
      FilterInterMirrored(b, a, p.y);
    }
  }

  lemma InsideReversed(poly: seq<Point>, p: Point)
    ensures Inside(Reversed(poly), p) == Inside(poly, p)
    ensures FilterInside(Reversed(poly), p) == FilterInside(poly, p)
  {
    forall a, b ensures TogglesAt(p)(a, b) == TogglesAt(p)(b, a)
                        && FilterTogglesAt(p)(a, b) == FilterTogglesAt(p)(b, a) {
      TurnedEdge(a, b, p);
    }
    CountReversed(poly, TogglesAt(p), TogglesAt(p));
    CountReversed(poly, FilterTogglesAt(p), FilterTogglesAt(p));
  }
}
