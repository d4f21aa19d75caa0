/**
 Directions and bounds of everything that pulls and pushes: the flying hook, the hook in a wall, the hook in
 another tee, and tees that overlap. Lengths are the Euclidean ones here.
 */
module HookLaws {
  import opened Collision
  import opened Tee
  import opened TeeWorld
  import opened TeeLaws

  ghost predicate Euclidean(e: Env) {
    forall v :: IsLength(e.length(v), v)
  }

  predicate IsLength(l: Length, v: Vec) {
    l * l == Dot(v, v)
  }

  // ---------- vectors

  lemma Times(a: real, b: real)
    requires a >= 0.0 && b >= 0.0
    ensures a * b >= 0.0
    ensures a > 0.0 && b > 0.0 ==> a * b > 0.0
  {
  }

  lemma SquareOfSum(b: real, d: real) returns (bb: real, bd: real, dd: real, sum: real)
    ensures bb == b * b && bd == b * d && dd == d * d && sum == (b + d) * (b + d)
    ensures sum == bb + 2.0 * bd + dd
  {
    bb, bd, dd, sum := b * b, b * d, d * d, (b + d) * (b + d);
  }

  lemma SquareGrows(b: real, d: real)
    requires b >= 0.0 && d > 0.0
    ensures (b + d) * (b + d) > b * b
  {
    Times(b, d);
    Times(d, d);
    var bb, bd, dd, sum := SquareOfSum(b, d);
  }

  lemma GreaterSquare(a: real, b: real)
    requires a > b >= 0.0
    ensures a * a > b * b
  {
    SquareGrows(b, a - b);
    assert b + (a - b) == a;
  }

  lemma SquaresGrow(a: real, b: real)
    requires a >= 0.0 && b >= 0.0 && a * a <= b * b
    ensures a <= b
  {
    if a > b {
      GreaterSquare(a, b);
    }
  }

  lemma SameSquares(a: real, b: real)
    requires a >= 0.0 && b >= 0.0 && a * a == b * b
    ensures a == b
  {
    SquaresGrow(a, b);
    SquaresGrow(b, a);
  }

  lemma Inverse(l: real)
    requires l > 0.0
    ensures 1.0 / l > 0.0 && (1.0 / l) * l == 1.0
  {
  }

  /** A normalized vector points the same way and has length one. */
  lemma UnitVector(v: Vec, e: Env)
    requires Euclidean(e) && e.length(v) > 0.0
    ensures var n, l := Normalize(v, e), e.length(v);
      && n.x * l == v.x && n.y * l == v.y && Dot(n, n) == 1.0 && Dot(n, v) == l
      && SameSign(n.x, v.x) && SameSign(n.y, v.y)
  {
    var l := e.length(v);
    var k := 1.0 / l;
    Inverse(l);
    assert IsLength(l, v);
    Scaled(v.x, k, l);
    Scaled(v.y, k, l);
    Normalized(v.x, v.y, k, l);
    Signs(v.x, k);
    Signs(v.y, k);
  }

  predicate SameSign(a: real, b: real) {
    (a > 0.0 <==> b > 0.0) && (a < 0.0 <==> b < 0.0)
  }

  lemma Scaled(a: real, k: real, l: real)
    requires k * l == 1.0
    ensures (a * k) * l == a
  {
    assert (a * k) * l == a * (k * l);
  }

  lemma Normalized(x: real, y: real, k: real, l: real)
    requires l * l == x * x + y * y && k * l == 1.0
    ensures (x * k) * (x * k) + (y * k) * (y * k) == 1.0
    ensures (x * k) * x + (y * k) * y == l
  {
    var xx, yy, ll, kk := x * x, y * y, l * l, k * k;
    SquareOfProduct(x, k);
    SquareOfProduct(y, k);
    SquareOfProduct(l, k);
    Distribute(xx, yy, kk);
    Distribute(xx, yy, k);
    assert l * k == k * l == 1.0;
    assert (l * k) * l == l;
  }

  lemma SquareOfProduct(a: real, k: real)
    ensures (a * k) * (a * k) == (a * a) * (k * k) && (a * k) * a == (a * a) * k
  {
  }

  lemma Distribute(a: real, b: real, k: real)
    ensures a * k + b * k == (a + b) * k
  {
  }

  lemma Signs(a: real, k: real)
    requires k > 0.0
    ensures SameSign(a * k, a)
  {
  }

  /** The part of one unit vector along another is at most one (Cauchy and Schwarz). */
  lemma UnitDot(a: Vec, b: Vec)
    requires Dot(a, a) == 1.0 && Dot(b, b) == 1.0
    ensures -1.0 <= Dot(a, b) <= 1.0
  {
    var d, c := Dot(a, b), a.x * b.y - a.y * b.x;
    assert d * d + c * c == Dot(a, a) * Dot(b, b);
    assert c * c >= 0.0;
    if d >= 0.0 {
      SquaresGrow(d, 1.0);
    } else {
      SquaresGrow(-d, 1.0);
    }
  }

  /** A vector stretched by a factor is that much longer. */
  lemma Stretched(v: Vec, s: real, e: Env)
    requires Euclidean(e) && s >= 0.0
    ensures e.length(Scale(v, s)) == s * e.length(v)
  {
    var l, m := e.length(v), e.length(Scale(v, s));
    assert IsLength(l, v) && IsLength(m, Scale(v, s));
    assert m * m == (s * s) * (l * l) by {
      assert (v.x * s) * (v.x * s) + (v.y * s) * (v.y * s) == (s * s) * (v.x * v.x + v.y * v.y);
    }
    assert (s * l) * (s * l) == (s * s) * (l * l);
    Times(s, l);
    SameSquares(m, s * l);
  }

  // ---------- which way a velocity changes

  /** The change d does not point away from u. */
  predicate Towards(d: real, u: real) {
    (u >= 0.0 ==> d >= 0.0) && (u <= 0.0 ==> d <= 0.0)
  }

  /** From one velocity to another in the direction of u, on each axis. */
  predicate TurnsTo(before: Vec, after: Vec, u: Vec) {
    Towards(after.x - before.x, u.x) && Towards(after.y - before.y, u.y)
  }

  lemma TowardsTimes(d: real, u: real, k: real)
    requires Towards(d, u)
    ensures k >= 0.0 ==> Towards(d * k, u)
    ensures k <= 0.0 ==> Towards(d * k, -u)
  {
    if k >= 0.0 {
      if d >= 0.0 {
        Times(d, k);
      } else {
        Times(-d, k);
      }
    } else {
      if d >= 0.0 {
        Times(d, -k);
      } else {
        Times(-d, -k);
      }
    }
  }

  lemma UnitTowards(u: Vec, e: Env)
    requires Euclidean(e)
    ensures Towards(Normalize(u, e).x, u.x) && Towards(Normalize(u, e).y, u.y)
  {
    if e.length(u) > 0.0 {
      UnitVector(u, e);
    }
  }

  // ---------- the hook in a wall

  /** The keys steer towards the hook. */
  predicate SteersAlong(direction: int, x: real) {
    (x < 0.0 && direction < 0) || (x > 0.0 && direction > 0)
  }

  /**
   A hook in a wall pulls the tee towards it on both axes, or leaves it alone: sideways with 95 per cent of the drag
   for a tee that steers along and with 75 for any other, upwards with all of it and downwards with 30.
   */
  lemma PullIsTowardsHook(t: Tee, e: Env)
    requires Euclidean(e) && t.tun.hookDragAccel >= 0.0
    ensures var u, v := Sub(t.hookPos, t.pos), Scale(Normalize(Sub(t.hookPos, t.pos), e), t.tun.hookDragAccel);
      && TurnsTo(t.vel, Pull(t, e), u)
      && (Pull(t, e) != t.vel ==>
        && Pull(t, e).x - t.vel.x == v.x * (if SteersAlong(t.direction, v.x) then 0.95 else 0.75)
        && Pull(t, e).y - t.vel.y == v.y * (if v.y > 0.0 then 0.3 else 1.0))
  {
    hide Normalize, Euclidean;
    var u := Sub(t.hookPos, t.pos);
    var n := Normalize(u, e);
    UnitTowards(u, e);
    TowardsTimes(n.x, u.x, t.tun.hookDragAccel);
    TowardsTimes(n.y, u.y, t.tun.hookDragAccel);
    var v := Scale(n, t.tun.hookDragAccel);
    TowardsTimes(v.x, u.x, if SteersAlong(t.direction, v.x) then 0.95 else 0.75);
    TowardsTimes(v.y, u.y, if v.y > 0.0 then 0.3 else 1.0);
  }

  /** It pulls only from more than 46 units away, and never to a greater speed beyond the drag speed. */
  lemma PullIsBounded(t: Tee, peers: seq<Vec>, e: Env)
    requires t.hookState == HOOK_GRABBED && t.hookedPlayer == -1
    ensures Hold(t, peers, e) == t.(vel := Hold(t, peers, e).vel, hookTick := t.hookTick + 1)
    ensures var v := Hold(t, peers, e).vel;
      && (Distance(t.hookPos, t.pos, e) <= 46.0 ==> v == t.vel)
      && (Distance(t.hookPos, t.pos, e) > 46.0 ==> v == Pull(t, e))
      && (v != t.vel ==> e.length(v) < t.tun.hookDragSpeed || e.length(v) < e.length(t.vel))
  {
    hide Normalize, Distance;
  }

  // ---------- the flying hook

  /** A launched hook starts ahead of the tee, in the direction of the target; a released one is back at the tee. */
  lemma HookKeyMoves(t: Tee, i: Input, grounded: bool, e: Env)
    ensures var s, d := Steer(t, i, grounded, e), Normalize(Vec(i.targetX as real, i.targetY as real), e);
      && (i.hook && t.hookState == HOOK_IDLE ==>
        s.hookState == HOOK_FLYING && s.hookDir == d && s.hookPos == Add(t.pos, Scale(d, 42.0)) && s.hookTick == 0)
      && (i.hook && t.hookState != HOOK_IDLE ==>
        s.hookState == t.hookState && s.hookDir == t.hookDir && s.hookPos == t.hookPos && s.hookTick == t.hookTick)
      && (!i.hook ==> s.hookState == HOOK_IDLE && s.hookPos == t.pos)
  {
    hide Normalize, SaturatedAdd, RefreshAirJump, Press, UseAirJump, Release, JumpOf;
  }

  /** In a tick the hook flies on by its speed, but not beyond its length, measured from the tee. */
  lemma FlightIsBounded(t: Tee, e: Env)
    requires Euclidean(e) && t.tun.hookLength >= 0.0
    ensures var (to, beyond) := Flight(t, e);
      var on := Add(t.hookPos, Scale(t.hookDir, t.tun.hookFireSpeed));
      && (beyond <==> Distance(t.pos, on, e) > t.tun.hookLength)
      && (!beyond ==> to == on)
      && (beyond ==> e.length(Sub(to, t.pos)) == t.tun.hookLength && TurnsTo(t.pos, to, Sub(on, t.pos)))
  {
    hide Normalize;
    var on := Add(t.hookPos, Scale(t.hookDir, t.tun.hookFireSpeed));
    var u := Sub(on, t.pos);
    if Distance(t.pos, on, e) > t.tun.hookLength {
      Reversed(t.pos, on, e);
      UnitVector(u, e);
      var n := Normalize(u, e);
      UnitLength(n, e);
      Stretched(n, t.tun.hookLength, e);
      var to := Flight(t, e).0;
      assert Sub(to, t.pos) == Scale(n, t.tun.hookLength);
      UnitTowards(u, e);
      TowardsTimes(n.x, u.x, t.tun.hookLength);
      TowardsTimes(n.y, u.y, t.tun.hookLength);
    }
  }

  lemma UnitLength(n: Vec, e: Env)
    requires Euclidean(e) && Dot(n, n) == 1.0
    ensures e.length(n) == 1.0
  {
    assert IsLength(e.length(n), n);
    SameSquares(e.length(n), 1.0);
  }

  lemma Reversed(p: Vec, q: Vec, e: Env)
    requires Euclidean(e)
    ensures e.length(Sub(p, q)) == e.length(Sub(q, p))
  {
    var a, b := Sub(p, q), Sub(q, p);
    assert IsLength(e.length(a), a) && IsLength(e.length(b), b);
    assert b.x == -a.x && b.y == -a.y;
    assert Dot(a, a) == Dot(b, b);
    SameSquares(e.length(a), e.length(b));
  }

  lemma SampleEnds(p: Vec, q: Vec, n: nat)
    requires n > 0
    ensures Sample(p, q, n, 0) == p && Sample(p, q, n, n) == q
  {
    assert 0.0 / n as real == 0.0 && n as real / n as real == 1.0;
  }

  lemma ShareGrows(d: real, i: nat, n: nat)
    requires n > 0
    ensures d * ((i + 1) as real / n as real) - d * (i as real / n as real) == d * (1.0 / n as real)
  {
    var u, v := (i + 1) as real / n as real, i as real / n as real;
    assert u - v == 1.0 / n as real;
    assert d * u - d * v == d * (u - v);
  }

  lemma ProductOfDifference(k: real, n: real, d: real) returns (kn: real, kd: real, rest: real)
    ensures kn == k * n && kd == k * d && rest == k * (n - d) && rest == kn - kd
  {
    kn, kd, rest := k * n, k * d, k * (n - d);
  }

  lemma PositiveProduct(a: real, b: real) returns (p: real)
    requires a > 0.0 && b > 0.0
    ensures p == a * b && p > 0.0
  {
    p := a * b;
  }

  lemma LessThanWhole(k: real, n: real, d: real) returns (kd: real)
    requires k > 0.0 && k * n == 1.0 && d < n
    ensures kd == k * d && kd < 1.0
  {
    var kn, kd', rest := ProductOfDifference(k, n, d);
    var p := PositiveProduct(k, n - d);
    kd := kd';
  }

  lemma SampleStep(p: Vec, q: Vec, n: nat, i: nat)
    requires n > 0
    ensures Sub(Sample(p, q, n, i + 1), Sample(p, q, n, i)) == Scale(Sub(q, p), 1.0 / n as real)
  {
    ShareGrows(q.x - p.x, i, n);
    ShareGrows(q.y - p.y, i, n);
  }

  lemma SamplesAreClose(p: Vec, q: Vec, n: nat, i: nat, e: Env)
    requires Euclidean(e) && n > 0 && e.length(Sub(q, p)) < n as real
    ensures e.length(Sub(Sample(p, q, n, i + 1), Sample(p, q, n, i))) < 1.0
  {
    hide Sample, Scale, Sub, Euclidean;
    SampleStep(p, q, n, i);
    Inverse(n as real);
    Stretched(Sub(q, p), 1.0 / n as real, e);
    var l := LessThanWhole(1.0 / n as real, n as real, e.length(Sub(q, p)));
  }

  /** How many steps the way of the hook is looked at in. */
  function Samples(t: Tee, e: Env): (n: nat)
    ensures n > 0
  {
    Distance(t.hookPos, Flight(t, e).0, e).Floor + 1
  }

  /**
   The way of the hook is looked at from end to end in steps shorter than one unit, and it is cut off where one of the
   points looked at stops it.
   */
  lemma LooksAlongTheWay(t: Tee, e: Env)
    requires Euclidean(e)
    ensures var p, q, n := t.hookPos, Flight(t, e).0, Samples(t, e);
      && Sample(p, q, n, 0) == p && Sample(p, q, n, n) == q
      && (forall i :: 0 <= i < n ==> e.length(Sub(Sample(p, q, n, i + 1), Sample(p, q, n, i))) < 1.0)
      && (FlightHit(t, e).hit <==> exists i :: 0 <= i <= n && Stops(e.map_, Sample(p, q, n, i)))
  {
    hide Sample, Line, Flight, Stops;
    var p, q, n := t.hookPos, Flight(t, e).0, Samples(t, e);
    SampleEnds(p, q, n);
    Reversed(p, q, e);
    forall i | 0 <= i < n ensures e.length(Sub(Sample(p, q, n, i + 1), Sample(p, q, n, i))) < 1.0 {
      SamplesAreClose(p, q, n, i, e);
    }
    LineFindsFirst(e.map_, p, q, n, 0);
  }

  /**
   What becomes of a flying hook that reaches no other tee: beyond its length it turns back; otherwise it holds in
   the first wall on its way, turns back when that wall does not hold hooks, and flies on when there is none. Its
   place is the wall's, or where the flight ends.
   */
  lemma FlyingHookMeetsWall(t: Tee, id: int, peers: seq<Vec>, e: Env)
    requires t.hookState == HOOK_FLYING && t.hookedPlayer == -1
    requires forall j :: 0 <= j < |peers| && j != id ==> !InReach(t.hookPos, Clipped(t, e), peers[j], e)
    ensures var r, hit := TickHook(t, id, peers, e), FlightHit(t, e);
      && r.hookedPlayer == -1 && r.hookPos == (if hit.hit then hit.at else Flight(t, e).0)
      && (r.hookState == HOOK_RETRACT_START <==> Flight(t, e).1 || (hit.hit && hit.noHook))
      && (r.hookState == HOOK_GRABBED <==> !Flight(t, e).1 && hit.hit && !hit.noHook)
      && (r.hookState == HOOK_FLYING <==> !Flight(t, e).1 && !hit.hit)
  {
    hide InReach, FlightHit, Flight, Pull, Distance, Scan;
    ScanFindsNearest(Grab(-1, 0.0, false), t.hookPos, Clipped(t, e), peers, id, |peers|, e);
    ScanFindsOther(Grab(-1, 0.0, false), t.hookPos, Clipped(t, e), peers, id, |peers|, e);
  }

  /** A hook that holds a tee goes where that tee is, or comes back when there is none any more. */
  lemma HeldHookFollows(t: Tee, id: int, peers: seq<Vec>, e: Env)
    requires t.hookState == HOOK_GRABBED && t.hookedPlayer != -1
    ensures TickHook(t, id, peers, e)
         == if 0 <= t.hookedPlayer < |peers| then t.(hookPos := peers[t.hookedPlayer], hookTick := t.hookTick + 1)
            else t.(hookedPlayer := -1, hookState := HOOK_RETRACTED, hookPos := t.pos, hookTick := t.hookTick + 1)
  {
  }

  ghost predicate Nowhere(tiles: (int, int) -> bool) {
    forall i, j :: !tiles(i, j)
  }

  ghost predicate Everywhere(tiles: (int, int) -> bool) {
    forall i, j :: tiles(i, j)
  }

  /** What stops a hook on maps that are solid, or let hooks through, from a row or a column on. */
  lemma StopsAtSolid(m: Map, p: Vec, k: int)
    requires k >= 1
    ensures var edge := 32.0 * k as real - 0.5;
      && (Nowhere(m.hookThrough) && FromRow(m.solid, k) ==> (Stops(m, p) <==> p.y >= edge))
      && (Nowhere(m.hookThrough) && FromColumn(m.solid, k) ==> (Stops(m, p) <==> p.x >= edge))
      && (Everywhere(m.solid) && FromRow(m.hookThrough, k) ==> (Stops(m, p) <==> p.y < edge))
      && (Everywhere(m.solid) && FromColumn(m.hookThrough, k) ==> (Stops(m, p) <==> p.x < edge))
  {
    hide TileAt;
    TileFrom(p.x, k);
    TileFrom(p.y, k);
  }

  /** A hook that turns back is retracted two ticks later, and so it stays while the key is held. */
  lemma TurnedHookRetracts(t: Tee, id: int, peers: seq<Vec>, e: Env)
    ensures var s := TickHook(t, id, peers, e).hookState;
      && (t.hookState == HOOK_RETRACT_START ==> s == HOOK_RETRACT_START + 1)
      && (t.hookState == HOOK_RETRACT_START + 1 ==> s == HOOK_RETRACT_END)
      && (t.hookState == HOOK_RETRACT_END ==> s == HOOK_RETRACTED)
      && (t.hookState == HOOK_RETRACTED ==> s == HOOK_RETRACTED)
      && (t.hookState == HOOK_IDLE ==> s == HOOK_IDLE)
  {
  }

  // ---------- tees that overlap, and tees that hook each other

  lemma UnitOfUnits(a: Vec, b: Vec, e: Env)
    requires Euclidean(e) && e.length(a) > 0.0 && e.length(b) > 0.0
    ensures -1.0 <= Dot(Normalize(a, e), Normalize(b, e)) <= 1.0
  {
    hide Normalize;
    UnitVector(a, e);
    UnitVector(b, e);
    UnitDot(Normalize(a, e), Normalize(b, e));
  }

  /**
   A tee that overlaps another one keeps 85 per cent of its velocity and is pushed away from the other; a tee that
   does not is left alone.
   */
  lemma PushSeparates(c: Tee, o: Vec, e: Env)
    requires Euclidean(e) && Distance(c.pos, o, e) > 0.0
    ensures Distance(c.pos, o, e) >= 35.0 ==> Push(c, o, e) == c.vel
    ensures Distance(c.pos, o, e) < 35.0 ==> TurnsTo(Scale(c.vel, 0.85), Push(c, o, e), Sub(c.pos, o))
  {
    hide Normalize, Euclidean;
    var u := Sub(c.pos, o);
    var dist, n := e.length(u), Normalize(u, e);
    if dist < 35.0 {
      UnitTowards(u, e);
      if e.length(c.vel) > 0.0001 {
        UnitOfUnits(c.vel, u, e);
      }
      var velocity := if e.length(c.vel) > 0.0001 then 1.0 - (Dot(Normalize(c.vel, e), n) + 1.0) / 2.0 else 0.5;
      var k := (PHYSICAL_SIZE * 1.45 - dist) * (velocity * 0.75);
      assert Push(c, o, e) == Scale(Add(c.vel, Scale(n, k)), 0.85);
      Times(PHYSICAL_SIZE * 1.45 - dist, velocity * 0.75);
      TowardsTimes(n.x, u.x, k);
      TowardsTimes(n.y, u.y, k);
    }
  }

  lemma SaturatedTowards(drag: real, vel: real, m: real, u: real)
    requires drag >= 0.0 && Towards(m, u)
    ensures Towards(SaturatedAdd(-drag, drag, vel, m) - vel, u)
  {
  }

  /** A hook turns a velocity towards the hooking tee, or, with a negative factor, away from it. */
  lemma DragTurns(vel: Vec, c: Tee, o: Vec, factor: real, e: Env)
    requires Euclidean(e) && c.tun.hookLength > 0.0 && c.tun.hookDragAccel >= 0.0 && c.tun.hookDragSpeed >= 0.0
    ensures factor >= 0.0 ==> TurnsTo(vel, Dragged(vel, c, o, factor, e), Sub(c.pos, o))
    ensures factor <= 0.0 ==> TurnsTo(vel, Dragged(vel, c, o, factor, e), Scale(Sub(c.pos, o), -1.0))
  {
    hide Normalize, Euclidean, DragAccel, DragBy, TurnsTo;
    var u := Sub(c.pos, o);
    UnitTowards(u, e);
    AccelIsNotNegative(c, o, e);
    DragAlong(vel, Normalize(u, e), u, DragAccel(c, o, e), c.tun.hookDragSpeed, factor);
  }

  /** The same with the direction and the strength given. */
  lemma DragAlong(vel: Vec, n: Vec, u: Vec, accel: real, drag: real, factor: real)
    requires Towards(n.x, u.x) && Towards(n.y, u.y) && accel >= 0.0 && drag >= 0.0
    ensures var d := DragBy(vel, n, accel, factor, drag);
      (factor >= 0.0 ==> TurnsTo(vel, d, u)) && (factor <= 0.0 ==> TurnsTo(vel, d, Scale(u, -1.0)))
  {
    hide DragAxis;
    DragsAxis(vel.x, n.x, u.x, accel, drag, factor);
    DragsAxis(vel.y, n.y, u.y, accel, drag, factor);
  }

  lemma DragsAxis(vel: real, n: real, u: real, accel: real, drag: real, factor: real)
    requires Towards(n, u) && accel >= 0.0 && drag >= 0.0
    ensures factor >= 0.0 ==> Towards(DragAxis(vel, n, accel, factor, drag) - vel, u)
    ensures factor <= 0.0 ==> Towards(DragAxis(vel, n, accel, factor, drag) - vel, u * -1.0)
  {
    ModifierTowards(n, u, accel, factor);
    var m := accel * n * factor;
    if factor >= 0.0 {
      SaturatedTowards(drag, vel, m, u);
    }
    if factor <= 0.0 {
      SaturatedTowards(drag, vel, m, -u);
    }
  }

  lemma ModifierTowards(n: real, u: real, accel: real, factor: real)
    requires Towards(n, u) && accel >= 0.0
    ensures factor >= 0.0 ==> Towards(accel * n * factor, u)
    ensures factor <= 0.0 ==> Towards(accel * n * factor, -u)
  {
    TowardsTimes(n, u, accel);
    assert accel * n == n * accel;
    TowardsTimes(accel * n, u, factor);
  }

  lemma AccelIsNotNegative(c: Tee, o: Vec, e: Env)
    requires c.tun.hookLength > 0.0 && c.tun.hookDragAccel >= 0.0
    ensures DragAccel(c, o, e) >= 0.0
  {
    hide Distance;
    var q := Distance(c.pos, o, e) / c.tun.hookLength;
    assert q >= 0.0;
    Times(c.tun.hookDragAccel, q);
  }

  /** A tee that has hooked another one draws it closer, and is itself drawn to it. */
  lemma HookDrawsTogether(w: World, a: nat, b: nat, e: Env)
    requires a < |w| && b < |w| && a != b && Euclidean(e) && Distance(w[a].pos, w[b].pos, e) > 0.0
    requires w[a].hookedPlayer == b && Distance(w[a].pos, w[b].pos, e) > 42.0
    requires w[a].tun.hookLength > 0.0 && w[a].tun.hookDragAccel >= 0.0 && w[a].tun.hookDragSpeed >= 0.0
    ensures var w' := Interact(w, a, b, e);
      && TurnsTo(w[b].vel, w'[b].vel, Sub(w[a].pos, w[b].pos))
      && TurnsTo(w[a].vel, w'[a].vel, Sub(w[b].pos, w[a].pos))
  {
    hide Push, Dragged, Euclidean, Normalize;
    var o := w[b].pos;
    PushSeparates(w[a], o, e);
    var c := w[a].(vel := Push(w[a], o, e));
    DragTurns(w[b].vel, c, o, 1.5, e);
    DragTurns(c.vel, c, o, -0.25, e);
  }

  /** Tees at the same place leave each other alone; a hook of no more than 42 units does not draw. */
  lemma DrawsBeyond(w: World, a: nat, b: nat, e: Env)
    requires a < |w| && b < |w| && a != b
    ensures Distance(w[a].pos, w[b].pos, e) == 0.0 ==> Interact(w, a, b, e) == w
    ensures var dist := Distance(w[a].pos, w[b].pos, e);
      dist > 0.0 && !(w[a].hookedPlayer == b && dist > 42.0) ==>
      Interact(w, a, b, e) == w[a := w[a].(vel := Push(w[a], w[b].pos, e))]
  {
    hide Push, Dragged, Distance;
  }

  /** A velocity within the drag speed stays so when this is added. */
  predicate Within(v: real, m: real, drag: real) {
    -drag <= v <= drag && -drag <= v + m <= drag
  }

  /** The strength grows with the distance, and is that of the tuning at the hook's full length. */
  lemma DragGrows(c: Tee, o: Vec, e: Env)
    requires c.tun.hookLength > 0.0
    ensures DragAccel(c, o, e) * c.tun.hookLength == c.tun.hookDragAccel * Distance(c.pos, o, e)
  {
    hide Distance;
    ProductOfQuotient(c.tun.hookDragAccel, Distance(c.pos, o, e), c.tun.hookLength);
  }

  lemma ProductOfQuotient(a: real, d: real, l: real)
    requires l > 0.0
    ensures a * (d / l) * l == a * d
  {
    var q := d / l;
    assert q * l == d;
    assert a * q * l == a * (q * l);
  }

  /** Within the drag speed the hooked tee gains one and a half times the drag, the hooking one loses a quarter of it. */
  lemma DragIsExact(w: World, a: nat, b: nat, e: Env)
    requires a < |w| && b < |w| && a != b && w[a].hookedPlayer == b && Distance(w[a].pos, w[b].pos, e) > 42.0
    requires w[a].tun.hookLength > 0.0
    ensures var w', n := Interact(w, a, b, e), Normalize(Sub(w[a].pos, w[b].pos), e);
      var accel, drag := DragAccel(w[a], w[b].pos, e), w[a].tun.hookDragSpeed;
      && (Within(w[b].vel.x, accel * n.x * 1.5, drag) ==> w'[b].vel.x == w[b].vel.x + accel * n.x * 1.5)
      && (Within(w[b].vel.y, accel * n.y * 1.5, drag) ==> w'[b].vel.y == w[b].vel.y + accel * n.y * 1.5)
      && (Within(w[a].vel.x, accel * n.x * -0.25, drag) ==> w'[a].vel.x == w[a].vel.x + accel * n.x * -0.25)
      && (Within(w[a].vel.y, accel * n.y * -0.25, drag) ==> w'[a].vel.y == w[a].vel.y + accel * n.y * -0.25)
  {
    hide Normalize, Distance, DragAccel, DragAxis, Interact;
    DragIs(w, a, b, e);
    var n, accel, drag := Normalize(Sub(w[a].pos, w[b].pos), e), DragAccel(w[a], w[b].pos, e), w[a].tun.hookDragSpeed;
    AddsWithin(w[b].vel.x, n.x, accel, 1.5, drag);
    AddsWithin(w[b].vel.y, n.y, accel, 1.5, drag);
    AddsWithin(w[a].vel.x, n.x, accel, -0.25, drag);
    AddsWithin(w[a].vel.y, n.y, accel, -0.25, drag);
  }

  lemma DragIs(w: World, a: nat, b: nat, e: Env)
    requires a < |w| && b < |w| && a != b && w[a].hookedPlayer == b && Distance(w[a].pos, w[b].pos, e) > 42.0
    requires w[a].tun.hookLength > 0.0
    ensures var w', n := Interact(w, a, b, e), Normalize(Sub(w[a].pos, w[b].pos), e);
      var accel, drag := DragAccel(w[a], w[b].pos, e), w[a].tun.hookDragSpeed;
      w'[b].vel == DragBy(w[b].vel, n, accel, 1.5, drag) && w'[a].vel == DragBy(w[a].vel, n, accel, -0.25, drag)
  {
    hide Normalize, Distance, DragAccel, DragBy;
    assert Push(w[a], w[b].pos, e) == w[a].vel;
    assert w[a].(vel := w[a].vel) == w[a];
  }

  lemma AddsWithin(v: real, n: real, accel: real, factor: real, drag: real)
    ensures var m := accel * n * factor;
      Within(v, m, drag) ==> DragAxis(v, n, accel, factor, drag) == v + m
  {
  }

  /** How much of the full push is still missing. */
  function Missing(c: Tee, o: Vec, e: Env): real {
    if e.length(c.vel) > 0.0001 then 1.0 - (Dot(Normalize(c.vel, e), Normalize(Sub(c.pos, o), e)) + 1.0) / 2.0 else 0.5
  }

  lemma PushIs(c: Tee, o: Vec, e: Env)
    requires Distance(c.pos, o, e) < 35.0
    ensures Push(c, o, e) == Scale(Add(c.vel, Scale(Normalize(Sub(c.pos, o), e),
                                                    (40.6 - Distance(c.pos, o, e)) * (Missing(c, o, e) * 0.75))), 0.85)
  {
    hide Normalize, Dot;
  }

  /** All of it is missing for a tee that comes head on, none for one that leaves straight away, half for one at rest. */
  lemma MissingIs(c: Tee, o: Vec, s: real, e: Env)
    requires Euclidean(e) && 0.0 < Distance(c.pos, o, e)
    ensures var n := Normalize(Sub(c.pos, o), e);
      && (c.vel == Vec(0.0, 0.0) ==> Missing(c, o, e) == 0.5)
      && (c.vel == Scale(n, s) && s > 0.0001 ==> Missing(c, o, e) == 0.0)
      && (c.vel == Scale(n, s) && s < -0.0001 ==> Missing(c, o, e) == 1.0)
  {
    hide Normalize, Euclidean, Scale, Dot;
    var u := Sub(c.pos, o);
    var n := Normalize(u, e);
    UnitVector(u, e);
    if c.vel == Vec(0.0, 0.0) {
      ZeroLength(e);
    }
    if s != 0.0 {
      UnitOfScaled(n, s, e);
    }
  }

  /** So much is a tee pushed; the whole is cut to 85 per cent. */
  lemma PushIsExact(c: Tee, o: Vec, s: real, e: Env)
    requires Euclidean(e) && 0.0 < Distance(c.pos, o, e) < 35.0
    ensures var n, full := Normalize(Sub(c.pos, o), e), (40.6 - Distance(c.pos, o, e)) * 0.75;
      && (c.vel == Vec(0.0, 0.0) ==> Push(c, o, e) == Scale(Add(c.vel, Scale(n, full * 0.5)), 0.85))
      && (c.vel == Scale(n, s) && s > 0.0001 ==> Push(c, o, e) == Scale(Add(c.vel, Scale(n, 0.0)), 0.85))
      && (c.vel == Scale(n, s) && s < -0.0001 ==> Push(c, o, e) == Scale(Add(c.vel, Scale(n, full)), 0.85))
  {
    hide Normalize, Euclidean, Scale, Add, Dot, Push, Missing;
    PushIs(c, o, e);
    MissingIs(c, o, s, e);
  }

  lemma ZeroLength(e: Env)
    requires Euclidean(e)
    ensures e.length(Vec(0.0, 0.0)) == 0.0
  {
    assert IsLength(e.length(Vec(0.0, 0.0)), Vec(0.0, 0.0));
    SameSquares(e.length(Vec(0.0, 0.0)), 0.0);
  }

  /** A multiple of a unit vector points along it, or against it. */
  lemma UnitOfScaled(n: Vec, s: real, e: Env)
    requires Euclidean(e) && Dot(n, n) == 1.0 && s != 0.0
    ensures e.length(Scale(n, s)) == (if s > 0.0 then s else -s)
    ensures Dot(Normalize(Scale(n, s), e), n) == if s > 0.0 then 1.0 else -1.0
  {
    hide Euclidean;
    if s > 0.0 {
      UnitLength(n, e);
      Stretched(n, s, e);
      Rescaled(n, s, s);
    } else {
      var m := Scale(n, -1.0);
      assert Dot(m, m) == Dot(n, n);
      UnitLength(m, e);
      Stretched(m, -s, e);
      assert Scale(m, -s) == Scale(n, s);
      Rescaled(n, s, -s);
    }
  }

  lemma Rescaled(n: Vec, s: real, l: real)
    requires l > 0.0 && (s == l || s == -l) && Dot(n, n) == 1.0
    ensures Dot(Scale(Scale(n, s), 1.0 / l), n) == if s == l then 1.0 else -1.0
  {
    var k := 1.0 / l;
    assert k * l == 1.0;
    assert n.x * s * k == n.x * (s * k) && n.y * s * k == n.y * (s * k);
  }

  // ---------- the clamp

  /** No tick leaves a speed above 6000; a greater one is cut to that, in its direction, and no other is changed. */
  lemma ClampIsBound(t: Tee, e: Env)
    requires Euclidean(e)
    ensures var v := ClampSpeed(t, e).vel;
      && (e.length(t.vel) <= 6000.0 ==> v == t.vel)
      && (e.length(t.vel) > 6000.0 ==> e.length(v) == 6000.0 && TurnsTo(Vec(0.0, 0.0), v, t.vel))
  {
    hide Normalize;
    if e.length(t.vel) > 6000.0 {
      var n := Normalize(t.vel, e);
      UnitVector(t.vel, e);
      UnitLength(n, e);
      Stretched(n, 6000.0, e);
      UnitTowards(t.vel, e);
      TowardsTimes(n.x, t.vel.x, 6000.0);
      TowardsTimes(n.y, t.vel.y, 6000.0);
    }
  }
}
