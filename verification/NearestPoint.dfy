/**
 The point of a segment that is nearest to another point, and so what it means that a flying hook reaches a tee:
 some point of its way lies close enough.
 */
module NearestPoint {
  import opened Collision
  import opened Tee
  import opened HookLaws

  /** The point of the way from a to b after the share u of it. */
  function PointAt(a: Vec, b: Vec, u: real): Vec {
    Add(a, Scale(Sub(b, a), u))
  }

  function SquareTo(p: Vec, q: Vec): real {
    Dot(Sub(p, q), Sub(p, q))
  }

  /** The square distance as a function of the share: dd is that of a, m the inner product, s the square length. */
  function Parabola(dd: real, m: real, s: real, u: real): real {
    dd - 2.0 * (u * m) + u * u * s
  }

  lemma Axis(x: real, a: real, u: real)
    ensures (x - a * u) * (x - a * u) == x * x - 2.0 * (u * (x * a)) + u * u * (a * a)
  {
    var y := a * u;
    assert (x - y) * (x - y) == x * x - 2.0 * (x * y) + y * y;
    assert x * y == u * (x * a);
    SquareOfProduct(a, u);
  }

  lemma SquareAlong(a: Vec, b: Vec, p: Vec, u: real)
    ensures var d, ab := Sub(p, a), Sub(b, a);
      SquareTo(p, PointAt(a, b, u)) == Parabola(Dot(d, d), Dot(d, ab), Dot(ab, ab), u)
  {
    var d, ab := Sub(p, a), Sub(b, a);
    Axis(d.x, ab.x, u);
    Axis(d.y, ab.y, u);
    var q := Sub(p, PointAt(a, b, u));
    assert q.x == d.x - ab.x * u && q.y == d.y - ab.y * u;
    Joined(u, d.x * ab.x, d.y * ab.y, ab.x * ab.x, ab.y * ab.y);
  }

  lemma Joined(u: real, m1: real, m2: real, s1: real, s2: real)
    ensures u * m1 + u * m2 == u * (m1 + m2) && u * u * s1 + u * u * s2 == u * u * (s1 + s2)
  {
  }

  lemma Square(r: real)
    ensures r * r >= 0.0
  {
    if r > 0.0 {
      Times(r, r);
    }
    if r < 0.0 {
      Times(-r, -r);
      assert (-r) * (-r) == r * r;
    }
  }

  /** The vertex of the parabola is its lowest point. */
  lemma Lowest(dd: real, m: real, s: real, t: real, u: real)
    requires s > 0.0 && m == t * s
    ensures Parabola(dd, m, s, t) <= Parabola(dd, m, s, u)
  {
    var d := u - t;
    Square(d);
    Times(d * d, s);
    assert u * m == u * t * s && t * m == t * t * s;
    assert d * d == u * u - 2.0 * (u * t) + t * t;
    assert d * d * s == u * u * s - 2.0 * (u * t * s) + t * t * s;
  }

  /** Left of the vertex it falls, right of it it rises. */
  lemma AtStart(dd: real, m: real, s: real, u: real)
    requires s > 0.0 && m <= 0.0 && 0.0 <= u <= 1.0
    ensures Parabola(dd, m, s, 0.0) <= Parabola(dd, m, s, u)
  {
    Times(u, -m);
    Square(u);
    Times(u * u, s);
  }

  lemma AtEnd(dd: real, m: real, s: real, u: real)
    requires s > 0.0 && m >= s && 0.0 <= u <= 1.0
    ensures Parabola(dd, m, s, 1.0) <= Parabola(dd, m, s, u)
  {
    var v := 1.0 - u;
    Times(v, m - s);
    Square(v);
    Times(v * v, s);
    assert v * (m - s) == v * m - v * s;
    assert u * m == m - v * m;
    assert u * u == 1.0 - 2.0 * v + v * v;
    assert u * u * s == s - 2.0 * (v * s) + v * v * s;
  }

  lemma Product(a: real, b: real) returns (p: real)
    requires (a > 0.0 && b > 0.0) || (a < 0.0 && b < 0.0)
    ensures p == a * b && p > 0.0
  {
    p := a * b;
  }

  lemma SquareIs(r: real) returns (q: real)
    ensures q == r * r && q >= 0.0 && (q > 0.0 <==> r != 0.0)
  {
    q := r * r;
    if r != 0.0 {
      var p := Product(r, r);
    }
  }

  /** Where along the segment the closest point lies. */
  function ShareOf(m: real, s: real): real
    requires s > 0.0
  {
    if m / s < 0.0 then 0.0 else if m / s > 1.0 then 1.0 else m / s
  }

  /** It is the share at which the parabola is lowest. */
  lemma ShareIsLowest(dd: real, m: real, s: real, u: real)
    requires s > 0.0 && 0.0 <= u <= 1.0
    ensures 0.0 <= ShareOf(m, s) <= 1.0 && Parabola(dd, m, s, ShareOf(m, s)) <= Parabola(dd, m, s, u)
  {
    hide Parabola;
    assert m / s * s == m;
    if m < 0.0 {
      AtStart(dd, m, s, u);
    } else if m > s {
      AtEnd(dd, m, s, u);
    } else {
      Lowest(dd, m, s, m / s, u);
    }
  }

  lemma DotIsPositive(v: Vec)
    ensures Dot(v, v) > 0.0 <==> v.x != 0.0 || v.y != 0.0
  {
    var xx := SquareIs(v.x);
    var yy := SquareIs(v.y);
    assert Dot(v, v) == xx + yy;
  }

  lemma Apart(a: Vec, b: Vec)
    ensures Dot(Sub(b, a), Sub(b, a)) > 0.0 <==> a != b
  {
    hide Dot;
    DotIsPositive(Sub(b, a));
  }

  lemma ClosestIsPoint(a: Vec, b: Vec, p: Vec)
    ensures var m, s := Dot(Sub(p, a), Sub(b, a)), Dot(Sub(b, a), Sub(b, a));
      && (ClosestPoint(a, b, p).1 <==> s > 0.0)
      && (s > 0.0 ==> ClosestPoint(a, b, p).0 == PointAt(a, b, ShareOf(m, s)))
  {
    hide Dot;
  }

  /** A segment that is not a point has a closest point; it is one of it, and no other of it is closer. */
  lemma ClosestIsNearest(a: Vec, b: Vec, p: Vec, u: real) returns (c: real)
    requires 0.0 <= u <= 1.0
    ensures ClosestPoint(a, b, p).1 <==> a != b
    ensures a != b ==> 0.0 <= c <= 1.0 && ClosestPoint(a, b, p).0 == PointAt(a, b, c)
    ensures a != b ==> SquareTo(p, ClosestPoint(a, b, p).0) <= SquareTo(p, PointAt(a, b, u))
  {
    hide SquareTo, PointAt, Parabola, Dot, ShareOf, ClosestPoint;
    c := 0.0;
    ClosestIsPoint(a, b, p);
    Apart(a, b);
    if a != b {
      var d, ab := Sub(p, a), Sub(b, a);
      c := ShareOf(Dot(d, ab), Dot(ab, ab));
      ShareIsLowest(Dot(d, d), Dot(d, ab), Dot(ab, ab), u);
      SquareAlong(a, b, p, c);
      SquareAlong(a, b, p, u);
    }
  }

  predicate NearAt(from: Vec, to: Vec, peer: Vec, u: real, e: Env) {
    0.0 <= u <= 1.0 && Distance(peer, PointAt(from, to, u), e) < 30.0
  }

  /** A hook reaches a tee exactly when it moves and some point of its way is less than 30 units from the tee. */
  lemma InReachIff(from: Vec, to: Vec, peer: Vec, e: Env)
    requires Euclidean(e)
    ensures InReach(from, to, peer, e) <==> from != to && exists u :: NearAt(from, to, peer, u, e)
  {
    hide ClosestPoint, PointAt;
    var c := ClosestIsNearest(from, to, peer, 0.0);
    if InReach(from, to, peer, e) {
      assert NearAt(from, to, peer, c, e);
    }
    if from != to && exists u :: NearAt(from, to, peer, u, e) {
      var u :| NearAt(from, to, peer, u, e);
      var c' := ClosestIsNearest(from, to, peer, u);
      Shorter(peer, ClosestPoint(from, to, peer).0, PointAt(from, to, u), e);
    }
  }

  lemma Shorter(p: Vec, q: Vec, r: Vec, e: Env)
    requires Euclidean(e) && SquareTo(p, q) <= SquareTo(p, r)
    ensures Distance(p, q, e) <= Distance(p, r, e)
  {
    assert IsLength(e.length(Sub(p, q)), Sub(p, q)) && IsLength(e.length(Sub(p, r)), Sub(p, r));
    SquaresGrow(Distance(p, q, e), Distance(p, r, e));
  }
}
