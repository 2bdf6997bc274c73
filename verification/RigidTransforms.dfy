/** Planar rigid transforms, SE(2): the part of tf2::Transform and karto::Pose2 that slam_toolbox uses.
    The heading is held by its cosine and sine. */
module RigidTransforms {
  import opened Plane

  datatype Transform = Transform(c: real, s: real, x: real, y: real)

  const IDENTITY := Transform(1.0, 0.0, 0.0, 0.0)

  predicate Rigid(a: Transform) { a.c * a.c + a.s * a.s == 1.0 }

  /** a * b: first b, then a. */
  function Compose(a: Transform, b: Transform): Transform {
    Transform(TurnX(b.c, b.s, a.c, a.s), TurnY(b.c, b.s, a.c, a.s),
              TurnX(b.x, b.y, a.c, a.s) + a.x, TurnY(b.x, b.y, a.c, a.s) + a.y)
  }

  function Inverse(a: Transform): Transform {
    Transform(a.c, -a.s, -BackX(a.x, a.y, a.c, a.s), -BackY(a.x, a.y, a.c, a.s))
  }

  lemma ComposeAssociative(a: Transform, b: Transform, d: Transform)
    ensures Compose(Compose(a, b), d) == Compose(a, Compose(b, d))
  {
    hide TurnX, TurnY;
    TurnTurn(d.c, d.s, b.c, b.s, a.c, a.s);
    TurnTurn(d.x, d.y, b.c, b.s, a.c, a.s);
    TurnSum(TurnX(d.x, d.y, b.c, b.s), TurnY(d.x, d.y, b.c, b.s), b.x, b.y, a.c, a.s);
  }

  /** A transform turns a point by its heading and then shifts it. */
  function Applied(t: Transform, p: Point): (q: Point)
    ensures q.x == p.x * t.c - p.y * t.s + t.x
    ensures q.y == p.x * t.s + p.y * t.c + t.y
  {
    Point(TurnX(p.x, p.y, t.c, t.s) + t.x, TurnY(p.x, p.y, t.c, t.s) + t.y)
  }

  /** a * b moves a point first by b and then by a. */
  lemma ComposeActs(a: Transform, b: Transform, p: Point)
    ensures Applied(Compose(a, b), p) == Applied(a, Applied(b, p))
  {
    hide TurnX, TurnY;
    TurnTurn(p.x, p.y, b.c, b.s, a.c, a.s);
    TurnSum(TurnX(p.x, p.y, b.c, b.s), TurnY(p.x, p.y, b.c, b.s), b.x, b.y, a.c, a.s);
  }

  lemma ComposeIdentity(a: Transform)
    ensures Compose(IDENTITY, a) == a == Compose(a, IDENTITY)
  {
    hide TurnX, TurnY;
    TurnByUnit(a.c, a.s);
    TurnByUnit(a.x, a.y);
  }

  lemma TurnInverse(x: real, y: real, c: real, s: real)
    ensures TurnX(x, y, c, -s) == BackX(x, y, c, s) && TurnY(x, y, c, -s) == BackY(x, y, c, s)
    ensures TurnX(-x, -y, c, s) == -TurnX(x, y, c, s) && TurnY(-x, -y, c, s) == -TurnY(x, y, c, s)
  {
  }

  lemma RightInverse(a: Transform)
    requires Rigid(a)
    ensures Compose(a, Inverse(a)) == IDENTITY
  {
    hide TurnX, TurnY, BackX, BackY;
    TurnUndone(a.x, a.y, a.c, a.s);
    TurnInverse(BackX(a.x, a.y, a.c, a.s), BackY(a.x, a.y, a.c, a.s), a.c, a.s);
    UnitTurn(a.c, a.s);
  }

  lemma UnitTurn(c: real, s: real)
    requires c * c + s * s == 1.0
    ensures TurnX(c, -s, c, s) == 1.0 && TurnY(c, -s, c, s) == 0.0
    ensures TurnX(c, s, c, -s) == 1.0 && TurnY(c, s, c, -s) == 0.0
  {
  }

  lemma LeftInverse(a: Transform)
    requires Rigid(a)
    ensures Compose(Inverse(a), a) == IDENTITY
  {
    hide TurnX, TurnY, BackX, BackY;
    TurnInverse(a.x, a.y, a.c, a.s);
    UnitTurn(a.c, a.s);
  }

  lemma InverseInverse(a: Transform)
    requires Rigid(a)
    ensures Inverse(Inverse(a)) == a
  {
    var b := Inverse(a);
    InverseRigid(a);
    hide Inverse, Rigid, Compose;
    // b^-1 = b^-1 (b a) = (b^-1 b) a = a
    LeftInverse(a);
    LeftInverse(b);
    ComposeAssociative(Inverse(b), b, a);
    ComposeIdentity(a);
    ComposeIdentity(Inverse(b));
  }

  lemma InverseRigid(a: Transform)
    requires Rigid(a)
    ensures Rigid(Inverse(a))
  {
    assert -a.s * -a.s == a.s * a.s;
  }

  lemma ComposeRigid(a: Transform, b: Transform)
    requires Rigid(a) && Rigid(b)
    ensures Rigid(Compose(a, b))
  {
    hide LengthSq, TurnX, TurnY;
    TurnKeepsLength(b.c, b.s, a.c, a.s);
    LengthIsRigid(b);
    LengthIsRigid(Compose(a, b));
  }

  lemma LengthIsRigid(a: Transform)
    ensures Rigid(a) <==> LengthSq(a.c, a.s) == 1.0
  {
  }

  /** (a b^-1) b = a */
  lemma CancelRight(a: Transform, b: Transform)
    requires Rigid(b)
    ensures Compose(Compose(a, Inverse(b)), b) == a
  {
    LeftInverse(b);
    hide Compose, Inverse, Rigid;
    ComposeAssociative(a, Inverse(b), b);
    ComposeIdentity(a);
  }

  lemma ComposeInjective(a: Transform, b: Transform, d: Transform)
    requires Rigid(d) && Compose(a, d) == Compose(b, d)
    ensures a == b
  {
    hide Compose, Inverse, Rigid;
    ComposeAssociative(a, d, Inverse(d));
    ComposeAssociative(b, d, Inverse(d));
    RightInverse(d);
    ComposeIdentity(a);
    ComposeIdentity(b);
  }

  /** (a b)^-1 = b^-1 a^-1 */
  lemma InverseOfCompose(a: Transform, b: Transform)
    requires Rigid(a) && Rigid(b)
    ensures Inverse(Compose(a, b)) == Compose(Inverse(b), Inverse(a))
  {
    var p, q := Compose(a, b), Compose(Inverse(b), Inverse(a));
    ComposeRigid(a, b);
    RightInverse(a);
    RightInverse(b);
    LeftInverse(p);
    hide Compose, Inverse, Rigid;
    ComposeAssociative(a, b, q);
    ComposeAssociative(b, Inverse(b), Inverse(a));
    ComposeIdentity(Inverse(a));
    assert Compose(p, q) == IDENTITY;
    ComposeAssociative(Inverse(p), p, q);
    ComposeIdentity(q);
    ComposeIdentity(Inverse(p));
  }
}
