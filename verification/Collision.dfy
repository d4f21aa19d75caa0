/**
 Map collision over exact coordinates. A box that starts free stays free through every sub-step of a move,
 whatever the map; and a tee's box is free as a whole as soon as its corners are.
 */
module Collision {

  datatype Vec = Vec(x: real, y: real)

  function Add(a: Vec, b: Vec): Vec {
    Vec(a.x + b.x, a.y + b.y)
  }

  function Sub(a: Vec, b: Vec): Vec {
    Vec(a.x - b.x, a.y - b.y)
  }

  function Scale(a: Vec, s: real): Vec {
    Vec(a.x * s, a.y * s)
  }

  const TILE_SIZE := 32
  const PHYSICAL_SIZE := 28.0

  /** Which tiles block movement, and what the hook makes of them; NoHook and HookThrough may be nil in the source. */
  datatype Map = Map(solid: (int, int) -> bool, noHook: (int, int) -> bool, hookThrough: (int, int) -> bool,
                     freeze: (int, int) -> bool)

  /** Go's int(f): truncation toward zero. */
  function Truncate(f: real): int {
    if f >= 0.0 then f.Floor else -((-f).Floor)
  }

  /** Round half away from zero. */
  function RoundToInt(f: real): int {
    if f > 0.0 then Truncate(f + 0.5) else Truncate(f - 0.5)
  }

  /** Go's integer division truncates toward zero. */
  function TileOf(world: int): int {
    if world >= 0 then world / TILE_SIZE else -((-world) / TILE_SIZE)
  }

  function TileAt(f: real): int {
    TileOf(RoundToInt(f))
  }

  predicate CheckPoint(m: Map, p: Vec) {
    m.solid(TileAt(p.x), TileAt(p.y))
  }

  predicate TestBox(m: Map, pos: Vec, w: real, h: real) {
    || CheckPoint(m, Vec(pos.x - w * 0.5, pos.y - h * 0.5))
    || CheckPoint(m, Vec(pos.x + w * 0.5, pos.y - h * 0.5))
    || CheckPoint(m, Vec(pos.x - w * 0.5, pos.y + h * 0.5))
    || CheckPoint(m, Vec(pos.x + w * 0.5, pos.y + h * 0.5))
  }

  // ---------- one move

  datatype Body = Body(p: Vec, v: Vec, grounded: bool)

  /** One sub-step: move, and take back each axis that is blocked on its own, or both if neither is. */
  function SubStep(m: Map, b: Body, frac: real, w: real, h: real): Body {
    var np := Add(b.p, Scale(b.v, frac));
    if !TestBox(m, np, w, h) then Body(np, b.v, b.grounded)
    else
      var blockedY := TestBox(m, Vec(b.p.x, np.y), w, h);
      var y := if blockedY then b.p.y else np.y;
      var blockedX := TestBox(m, Vec(np.x, b.p.y), w, h);
      var x := if blockedX then b.p.x else np.x;
      if !blockedX && !blockedY then Body(b.p, Vec(0.0, 0.0), b.grounded || b.v.y > 0.0)
      else
        Body(Vec(x, y), Vec(if blockedX then 0.0 else b.v.x, if blockedY then 0.0 else b.v.y),
             b.grounded || (blockedY && b.v.y > 0.0))
  }

  function SubSteps(m: Map, b: Body, frac: real, w: real, h: real, n: nat): Body {
    if n == 0 then b else SubStep(m, SubSteps(m, b, frac, w, h, n - 1), frac, w, h)
  }

  /** The number of sub-steps for a move of this length; none for (almost) no movement. */
  function StepCount(dist: real): nat {
    if dist <= 0.00001 then 0 else dist.Floor + 1
  }

  function Moved(m: Map, pos: Vec, vel: Vec, w: real, h: real, dist: real): Body {
    var n := StepCount(dist);
    if n == 0 then Body(pos, vel, false) else SubSteps(m, Body(pos, vel, false), 1.0 / n as real, w, h, n)
  }

  /** `dist` is the length of the velocity, a square root. */
  method MoveBox(m: Map, pos: Vec, vel: Vec, w: real, h: real, dist: real) returns (p: Vec, v: Vec, grounded: bool)
    ensures Body(p, v, grounded) == Moved(m, pos, vel, w, h, dist)
  {
    p, v, grounded := pos, vel, false;
    if dist <= 0.00001 {
      return;
    }
    var max := Truncate(dist);
    var frac := 1.0 / (max + 1) as real;
    for i := 0 to max + 1
      invariant Body(p, v, grounded) == SubSteps(m, Body(pos, vel, false), frac, w, h, i)
    {
      var np := Add(p, Scale(v, frac));
      if TestBox(m, np, w, h) {
        var hits := 0;
        if TestBox(m, Vec(p.x, np.y), w, h) {
          if v.y > 0.0 {
            grounded := true;
          }
          np := Vec(np.x, p.y);
          v := Vec(v.x, 0.0);
          hits := hits + 1;
        }
        if TestBox(m, Vec(np.x, p.y), w, h) {
          np := Vec(p.x, np.y);
          v := Vec(0.0, v.y);
          hits := hits + 1;
        }
        if hits == 0 {
          if v.y > 0.0 {
            grounded := true;
          }
          np := p;
          v := Vec(0.0, 0.0);
        }
      }
      p := np;
    }
  }

  // ---------- what a move guarantees

  lemma SubStepStaysFree(m: Map, b: Body, frac: real, w: real, h: real)
    requires !TestBox(m, b.p, w, h)
    ensures !TestBox(m, SubStep(m, b, frac, w, h).p, w, h)
  {
    hide TestBox;
  }

  /** For any map: free before, free after every sub-step. */
  lemma {:induction false} SubStepsStayFree(m: Map, b: Body, frac: real, w: real, h: real, n: nat)
    requires !TestBox(m, b.p, w, h)
    ensures !TestBox(m, SubSteps(m, b, frac, w, h, n).p, w, h)
  {
    hide TestBox, SubStep;
    if n > 0 {
      SubStepsStayFree(m, b, frac, w, h, n - 1);
      SubStepStaysFree(m, SubSteps(m, b, frac, w, h, n - 1), frac, w, h);
    }
  }

  /** Velocity components survive or are zeroed; grounded says that a downward one was zeroed. */
  lemma {:induction false} SubStepsVelocity(m: Map, b: Body, frac: real, w: real, h: real, n: nat)
    requires !b.grounded
    ensures var r := SubSteps(m, b, frac, w, h, n);
      && (r.v.x == b.v.x || r.v.x == 0.0) && (r.v.y == b.v.y || r.v.y == 0.0)
      && (r.grounded <==> b.v.y > 0.0 && r.v.y == 0.0)
  {
    hide TestBox;
    if n > 0 {
      SubStepsVelocity(m, b, frac, w, h, n - 1);
    }
  }

  lemma SubStepDistance(m: Map, b: Body, frac: real, w: real, h: real)
    ensures var r := SubStep(m, b, frac, w, h);
      && (r.v.x != 0.0 ==> r.v.x == b.v.x && r.p.x == b.p.x + b.v.x * frac)
      && (r.v.y != 0.0 ==> r.v.y == b.v.y && r.p.y == b.p.y + b.v.y * frac)
  {
    hide TestBox;
  }

  /** An axis that was never blocked has moved by its velocity in each sub-step. */
  lemma {:induction false} SubStepsDistance(m: Map, b: Body, frac: real, w: real, h: real, n: nat)
    ensures var r := SubSteps(m, b, frac, w, h, n);
      && (r.v.x != 0.0 ==> r.v.x == b.v.x && r.p.x == b.p.x + n as real * (b.v.x * frac))
      && (r.v.y != 0.0 ==> r.v.y == b.v.y && r.p.y == b.p.y + n as real * (b.v.y * frac))
  {
    hide TestBox, SubStep;
    if n > 0 {
      SubStepsDistance(m, b, frac, w, h, n - 1);
      SubStepDistance(m, SubSteps(m, b, frac, w, h, n - 1), frac, w, h);
      OneMore(n, b.v.x * frac);
      OneMore(n, b.v.y * frac);
    }
  }

  lemma OneMore(n: nat, d: real)
    requires n > 0
    ensures n as real * d == (n - 1) as real * d + d
  {
    assert n as real == (n - 1) as real + 1.0;
  }

  lemma WholeStep(n: nat, v: real)
    requires n > 0
    ensures n as real * (v * (1.0 / n as real)) == v
  {
    var r := n as real;
    assert r * (v * (1.0 / r)) == v * (r * (1.0 / r));
  }

  /**
   MoveBox on any map: it ends in a free place if it starts in one; each velocity component is what it was
   or zero; grounded is reported exactly when a downward velocity was stopped; and an axis that keeps its
   velocity has moved by all of it.
   */
  lemma MoveIsSafe(m: Map, pos: Vec, vel: Vec, w: real, h: real, dist: real)
    ensures var r := Moved(m, pos, vel, w, h, dist);
      && (!TestBox(m, pos, w, h) ==> !TestBox(m, r.p, w, h))
      && (r.v.x == vel.x || r.v.x == 0.0) && (r.v.y == vel.y || r.v.y == 0.0)
      && (r.grounded <==> vel.y > 0.0 && r.v.y == 0.0)
      && (dist > 0.00001 && r.v.x != 0.0 ==> r.p.x == pos.x + vel.x)
      && (dist > 0.00001 && r.v.y != 0.0 ==> r.p.y == pos.y + vel.y)
  {
    hide TestBox, SubSteps;
    var n := StepCount(dist);
    if n > 0 {
      var b, frac := Body(pos, vel, false), 1.0 / n as real;
      if !TestBox(m, pos, w, h) {
        SubStepsStayFree(m, b, frac, w, h, n);
      }
      SubStepsVelocity(m, b, frac, w, h, n);
      SubStepsDistance(m, b, frac, w, h, n);
      WholeStep(n, vel.x);
      WholeStep(n, vel.y);
    }
  }

  // ---------- what stops an axis

  datatype Axis = X | Y {
    function Other(): Axis {
      if X? then Y else X
    }
  }

  function Along(v: Vec, a: Axis): real {
    if a.X? then v.x else v.y
  }

  /** The place that is reached by moving along one axis only. */
  function OnlyAlong(p: Vec, np: Vec, a: Axis): Vec {
    if a.X? then Vec(np.x, p.y) else Vec(p.x, np.y)
  }

  /**
   On its way from p to np the box is stopped along the axis: it would be in a wall at np, and moving along this
   axis alone it would be in one, too, or moving along the other one alone it would not (a corner).
   */
  predicate Blocked(m: Map, p: Vec, np: Vec, a: Axis, w: real, h: real) {
    TestBox(m, np, w, h) && (TestBox(m, OnlyAlong(p, np, a), w, h) || !TestBox(m, OnlyAlong(p, np, a.Other()), w, h))
  }

  /** The box is stopped along the axis in sub-step k of the move. */
  predicate BlockedAt(m: Map, b: Body, frac: real, w: real, h: real, k: nat, a: Axis) {
    var c := SubSteps(m, b, frac, w, h, k);
    Blocked(m, c.p, Add(c.p, Scale(c.v, frac)), a, w, h)
  }

  lemma SubStepStops(m: Map, b: Body, frac: real, w: real, h: real, a: Axis)
    ensures var r, np := SubStep(m, b, frac, w, h), Add(b.p, Scale(b.v, frac));
      if Blocked(m, b.p, np, a, w, h) then Along(r.v, a) == 0.0 && Along(r.p, a) == Along(b.p, a)
      else Along(r.v, a) == Along(b.v, a) && Along(r.p, a) == Along(b.p, a) + Along(b.v, a) * frac
  {
    hide TestBox;
  }

  /** As long as nothing stopped it, an axis has its velocity, and has moved by it in each sub-step. */
  lemma {:induction false} NotYetBlocked(m: Map, b: Body, frac: real, w: real, h: real, n: nat, a: Axis)
    requires forall k :: 0 <= k < n ==> !BlockedAt(m, b, frac, w, h, k, a)
    ensures var r := SubSteps(m, b, frac, w, h, n);
      Along(r.v, a) == Along(b.v, a) && Along(r.p, a) == Along(b.p, a) + n as real * (Along(b.v, a) * frac)
  {
    hide SubStep, Blocked;
    if n > 0 {
      NotYetBlocked(m, b, frac, w, h, n - 1, a);
      assert !BlockedAt(m, b, frac, w, h, n - 1, a);
      SubStepStops(m, SubSteps(m, b, frac, w, h, n - 1), frac, w, h, a);
      OneMore(n, Along(b.v, a) * frac);
    }
  }

  /** An axis without velocity stays where it is. */
  lemma {:induction false} StoppedStays(m: Map, b: Body, frac: real, w: real, h: real, k: nat, n: nat, a: Axis)
    requires k <= n && Along(SubSteps(m, b, frac, w, h, k).v, a) == 0.0
    ensures var c, r := SubSteps(m, b, frac, w, h, k), SubSteps(m, b, frac, w, h, n);
      Along(r.v, a) == 0.0 && Along(r.p, a) == Along(c.p, a)
    decreases n
  {
    hide SubStep, Blocked;
    if k < n {
      StoppedStays(m, b, frac, w, h, k, n - 1, a);
      var c := SubSteps(m, b, frac, w, h, n - 1);
      SubStepStops(m, c, frac, w, h, a);
      assert Along(c.v, a) * frac == 0.0;
    }
  }

  /** Sub-step k is the first one in which the box is stopped along the axis. */
  predicate FirstBlocked(m: Map, b: Body, frac: real, w: real, h: real, k: nat, a: Axis) {
    BlockedAt(m, b, frac, w, h, k, a) && forall j :: 0 <= j < k ==> !BlockedAt(m, b, frac, w, h, j, a)
  }

  /**
   A component of the velocity is lost exactly when the box is stopped along that axis in some sub-step. The axis
   has then moved by the sub-steps before the first of these, and by all of them when there is none.
   */
  lemma StoppedIff(m: Map, b: Body, frac: real, w: real, h: real, n: nat, a: Axis)
    requires Along(b.v, a) != 0.0
    ensures var r := SubSteps(m, b, frac, w, h, n);
      && (Along(r.v, a) == 0.0 <==> exists k :: 0 <= k < n && BlockedAt(m, b, frac, w, h, k, a))
      && (Along(r.v, a) != 0.0 ==> Along(r.p, a) == Along(b.p, a) + n as real * (Along(b.v, a) * frac))
      && forall k :: 0 <= k < n && FirstBlocked(m, b, frac, w, h, k, a) ==>
        Along(r.p, a) == Along(b.p, a) + k as real * (Along(b.v, a) * frac)
  {
    hide BlockedAt, SubSteps;
    if forall k :: 0 <= k < n ==> !BlockedAt(m, b, frac, w, h, k, a) {
      NotYetBlocked(m, b, frac, w, h, n, a);
    }
    forall k | 0 <= k < n && BlockedAt(m, b, frac, w, h, k, a)
      ensures Along(SubSteps(m, b, frac, w, h, n).v, a) == 0.0
    {
      BlockedStops(m, b, frac, w, h, k, a);
      StoppedStays(m, b, frac, w, h, k + 1, n, a);
    }
    forall k | 0 <= k < n && FirstBlocked(m, b, frac, w, h, k, a)
      ensures Along(SubSteps(m, b, frac, w, h, n).p, a) == Along(b.p, a) + k as real * (Along(b.v, a) * frac)
    {
      NotYetBlocked(m, b, frac, w, h, k, a);
      BlockedStops(m, b, frac, w, h, k, a);
      StoppedStays(m, b, frac, w, h, k + 1, n, a);
    }
  }

  lemma BlockedStops(m: Map, b: Body, frac: real, w: real, h: real, k: nat, a: Axis)
    requires BlockedAt(m, b, frac, w, h, k, a)
    ensures var c, r := SubSteps(m, b, frac, w, h, k), SubSteps(m, b, frac, w, h, k + 1);
      Along(r.v, a) == 0.0 && Along(r.p, a) == Along(c.p, a)
  {
    hide SubStep, Blocked;
    SubStepStops(m, SubSteps(m, b, frac, w, h, k), frac, w, h, a);
  }

  /** Solidity changes only across the axis: a floor or a ceiling for X, a wall for Y. */
  ghost predicate Uniform(m: Map, a: Axis) {
    if a.X? then forall i, j, k :: m.solid(i, k) == m.solid(j, k) else forall i, j, k :: m.solid(k, i) == m.solid(k, j)
  }

  lemma UniformBox(m: Map, p: Vec, q: Vec, a: Axis, w: real, h: real)
    requires Uniform(m, a) && Along(p, a.Other()) == Along(q, a.Other())
    ensures TestBox(m, p, w, h) == TestBox(m, q, w, h)
  {
    hide TileAt;
    forall i: int, j: int, k: int ensures a.X? ==> m.solid(i, k) == m.solid(j, k) {
    }
    var l, r, l', r' := TileAt(p.x - w * 0.5), TileAt(p.x + w * 0.5), TileAt(q.x - w * 0.5), TileAt(q.x + w * 0.5);
    var t, u, t', u' := TileAt(p.y - h * 0.5), TileAt(p.y + h * 0.5), TileAt(q.y - h * 0.5), TileAt(q.y + h * 0.5);
    if a.X? {
      assert m.solid(l, t) == m.solid(l', t) == m.solid(r, t) == m.solid(r', t);
      assert m.solid(l, u) == m.solid(l', u) == m.solid(r, u) == m.solid(r', u);
    } else {
      assert m.solid(l, t) == m.solid(l, t') == m.solid(l, u) == m.solid(l, u');
      assert m.solid(r, t) == m.solid(r, t') == m.solid(r, u) == m.solid(r, u');
    }
  }

  /** Along a floor, a ceiling or a wall a move that starts free is never stopped: it slides by its whole length. */
  lemma SlidesAlong(m: Map, pos: Vec, vel: Vec, w: real, h: real, dist: real, a: Axis)
    requires Uniform(m, a) && !TestBox(m, pos, w, h) && dist > 0.00001
    ensures var r := Moved(m, pos, vel, w, h, dist);
      Along(r.v, a) == Along(vel, a) && Along(r.p, a) == Along(pos, a) + Along(vel, a)
  {
    hide Uniform, TestBox, SubSteps, SubStep;
    var b, n := Body(pos, vel, false), StepCount(dist);
    var frac := 1.0 / n as real;
    forall k | 0 <= k < n ensures !BlockedAt(m, b, frac, w, h, k, a) {
      SubStepsStayFree(m, b, frac, w, h, k);
      var c := SubSteps(m, b, frac, w, h, k);
      var np := Add(c.p, Scale(c.v, frac));
      UniformBox(m, c.p, OnlyAlong(c.p, np, a), a, w, h);
      UniformBox(m, np, OnlyAlong(c.p, np, a.Other()), a, w, h);
    }
    NotYetBlocked(m, b, frac, w, h, n, a);
    WholeStep(n, Along(vel, a));
  }

  /** As many sub-steps as make each of them shorter than one unit, and no more. */
  lemma StepsAreShort(dist: real)
    ensures dist > 0.00001 ==> dist < StepCount(dist) as real <= dist + 1.0
    ensures dist <= 0.00001 ==> StepCount(dist) == 0
  {
  }

  // ---------- the hook's way through the map

  /** A length is a square root, hence not negative. */
  type Length = r: real | 0.0 <= r

  /** The first solid point on the way that the hook does not pass through, and whether it can hold there. */
  datatype Hit = Hit(hit: bool, at: Vec, noHook: bool)

  predicate Stops(m: Map, p: Vec) {
    CheckPoint(m, p) && !m.hookThrough(TileAt(p.x), TileAt(p.y))
  }

  function Mix(a: Vec, b: Vec, t: real): Vec {
    Vec(a.x + (b.x - a.x) * t, a.y + (b.y - a.y) * t)
  }

  /** The i-th of the points looked at. */
  function Sample(p0: Vec, p1: Vec, end: nat, i: nat): Vec
    requires end > 0
  {
    Mix(p0, p1, i as real / end as real)
  }

  function Line(m: Map, p0: Vec, p1: Vec, end: nat, i: nat): Hit
    requires 0 < end && i <= end + 1
    decreases end + 1 - i
  {
    if i == end + 1 then Hit(false, p1, false)
    else
      var p := Sample(p0, p1, end, i);
      if Stops(m, p) then Hit(true, p, m.noHook(TileAt(p.x), TileAt(p.y))) else Line(m, p0, p1, end, i + 1)
  }

  method IntersectLineHook(m: Map, p0: Vec, p1: Vec, d: Length) returns (r: Hit)
    ensures r == Line(m, p0, p1, d.Floor + 1, 0)
  {
    hide Stops, Mix;
    var end := d.Floor + 1;
    for i := 0 to end + 1
      invariant Line(m, p0, p1, end, 0) == Line(m, p0, p1, end, i)
    {
      var a := i as real / end as real;
      var p := Mix(p0, p1, a);
      if Stops(m, p) {
        return Hit(true, p, m.noHook(TileAt(p.x), TileAt(p.y)));
      }
    }
    r := Hit(false, p1, false);
  }

  predicate FirstStop(m: Map, p0: Vec, p1: Vec, end: nat, i: nat, j: nat)
    requires 0 < end
  {
    && i <= j <= end && Stops(m, Sample(p0, p1, end, j))
    && forall k :: i <= k < j ==> !Stops(m, Sample(p0, p1, end, k))
  }

  /** The hook is stopped by the first sample that can stop it, and by nothing when none can. */
  lemma {:induction false} LineFindsFirst(m: Map, p0: Vec, p1: Vec, end: nat, i: nat)
    requires 0 < end && i <= end + 1
    ensures var r := Line(m, p0, p1, end, i);
      && (!r.hit ==> r.at == p1 && forall j :: i <= j <= end ==> !Stops(m, Sample(p0, p1, end, j)))
      && (r.hit ==> exists j :: FirstStop(m, p0, p1, end, i, j) && r.at == Sample(p0, p1, end, j))
      && (r.hit ==> r.noHook == m.noHook(TileAt(r.at.x), TileAt(r.at.y)))
    decreases end + 1 - i
  {
    hide Stops, Sample;
    if i <= end {
      if Stops(m, Sample(p0, p1, end, i)) {
        assert FirstStop(m, p0, p1, end, i, i);
      } else {
        LineFindsFirst(m, p0, p1, end, i + 1);
        if j :| FirstStop(m, p0, p1, end, i + 1, j) && Line(m, p0, p1, end, i).at == Sample(p0, p1, end, j) {
          assert FirstStop(m, p0, p1, end, i, j);
        }
      }
    }
  }

  // ---------- corners and the rest of the box

  lemma RoundGrows(a: real, b: real)
    requires a <= b
    ensures RoundToInt(a) <= RoundToInt(b)
  {
  }

  /** A tile is 32 units wide; the one at zero reaches as far to either side. */
  lemma TileIs(n: int)
    ensures TileOf(n) >= 1 ==> 32 * TileOf(n) <= n < 32 * TileOf(n) + 32
    ensures TileOf(n) <= -1 ==> 32 * TileOf(n) - 32 < n <= 32 * TileOf(n)
    ensures TileOf(n) == 0 <==> -32 < n < 32
  {
  }

  lemma TileGrows(a: int, b: int)
    requires a <= b
    ensures TileOf(a) <= TileOf(b)
    ensures b - a < TILE_SIZE ==> TileOf(b) <= TileOf(a) + 1
  {
  }

  lemma RoundSpan(a: real, b: real)
    requires a <= b <= a + PHYSICAL_SIZE
    ensures RoundToInt(b) - RoundToInt(a) <= 29
  {
  }

  /** Between two coordinates of one tee's width there is no tile but theirs. */
  lemma TileBetween(a: real, b: real, c: real)
    requires a <= b <= c <= a + PHYSICAL_SIZE
    ensures TileAt(b) == TileAt(a) || TileAt(b) == TileAt(c)
  {
    hide RoundToInt, TileOf;
    RoundGrows(a, b);
    RoundGrows(b, c);
    RoundSpan(a, c);
    TileGrows(RoundToInt(a), RoundToInt(b));
    TileGrows(RoundToInt(b), RoundToInt(c));
    TileGrows(RoundToInt(a), RoundToInt(c));
  }

  /** A tee's box whose corners are free holds no solid point at all. */
  lemma FreeCornersFreeBox(m: Map, pos: Vec, q: Vec)
    requires !TestBox(m, pos, PHYSICAL_SIZE, PHYSICAL_SIZE)
    requires pos.x - PHYSICAL_SIZE * 0.5 <= q.x <= pos.x + PHYSICAL_SIZE * 0.5
    requires pos.y - PHYSICAL_SIZE * 0.5 <= q.y <= pos.y + PHYSICAL_SIZE * 0.5
    ensures !CheckPoint(m, q)
  {
    hide TileAt;
    TileBetween(pos.x - PHYSICAL_SIZE * 0.5, q.x, pos.x + PHYSICAL_SIZE * 0.5);
    TileBetween(pos.y - PHYSICAL_SIZE * 0.5, q.y, pos.y + PHYSICAL_SIZE * 0.5);
  }

  // ---------- rounding the position

  function Rounded(f: real): real {
    RoundToInt(f) as real
  }

  /** The nearest integer, and the one farther from zero when two are as near. */
  lemma RoundIsNearest(f: real)
    ensures var d := RoundToInt(f) as real - f;
      -0.5 <= d <= 0.5 && (d == 0.5 ==> f > 0.0) && (d == -0.5 ==> f < 0.0)
  {
  }

  lemma RoundOfInteger(n: int)
    ensures RoundToInt(n as real) == n
  {
  }

  /** Rounding commutes with a shift by 14, but for halves that the shift carries over zero. */
  lemma RoundOfShift(f: real)
    ensures RoundToInt(f - 14.0) == RoundToInt(f) - 14
      || (-14 <= RoundToInt(f - 14.0) <= 0 && -14 <= RoundToInt(f) - 14 <= 0)
    ensures RoundToInt(f + 14.0) == RoundToInt(f) + 14
      || (0 <= RoundToInt(f + 14.0) <= 14 && 0 <= RoundToInt(f) + 14 <= 14)
  {
    if f > 14.0 {
      ShiftedFloor(f + 0.5);
    } else if f <= -14.0 {
      ShiftedFloor(0.5 - f);
    } else if f > 0.0 {
      ShiftedFloor(f + 0.5);
    } else {
      ShiftedFloor(0.5 - f);
    }
  }

  lemma ShiftedFloor(f: real)
    ensures (f - 14.0).Floor == f.Floor - 14 && (f + 14.0).Floor == f.Floor + 14
  {
  }

  /** Rounding a coordinate does not move a corner of the tee to another tile. */
  lemma RoundedCorner(f: real)
    ensures TileAt(Rounded(f) - 14.0) == TileAt(f - 14.0)
    ensures TileAt(Rounded(f) + 14.0) == TileAt(f + 14.0)
  {
    hide RoundToInt;
    RoundOfShift(f);
    RoundOfInteger(RoundToInt(f) - 14);
    RoundOfInteger(RoundToInt(f) + 14);
  }

  lemma RoundedStaysFree(m: Map, pos: Vec)
    ensures TestBox(m, Vec(Rounded(pos.x), Rounded(pos.y)), PHYSICAL_SIZE, PHYSICAL_SIZE)
      == TestBox(m, pos, PHYSICAL_SIZE, PHYSICAL_SIZE)
  {
    hide TileAt, Rounded;
    RoundedCorner(pos.x);
    RoundedCorner(pos.y);
    assert PHYSICAL_SIZE * 0.5 == 14.0;
  }
}
