/**
 What a tick makes of the keys, of the hook and of other tees, in terms of directions and bounds: which way a
 velocity changes, how far, and when it does not.
 */
module TeeLaws {
  import opened Collision
  import opened Tee
  import opened TeeWorld

  /** The tuning makes sense: accelerations and speeds are not negative, friction only slows down. */
  predicate Sane(tun: Tuning) {
    && 0.0 <= tun.groundControlSpeed && 0.0 <= tun.airControlSpeed && 0.0 <= tun.groundControlAccel
    && 0.0 <= tun.airControlAccel && 0.0 <= tun.groundFriction <= 1.0 && 0.0 <= tun.airFriction <= 1.0
    && 0.0 <= tun.hookDragAccel && 0.0 <= tun.hookDragSpeed
  }

  function Least(a: real, b: real): real {
    if a < b then a else b
  }

  /** The top speed and the acceleration that the keys give. */
  function TopSpeed(t: Tee, grounded: bool): real {
    if grounded then t.tun.groundControlSpeed else t.tun.airControlSpeed
  }

  function KeyAccel(t: Tee, grounded: bool): real {
    if grounded then t.tun.groundControlAccel else t.tun.airControlAccel
  }

  // ---------- where a tee stands, on a map that is solid from a row or a column on

  /** Tiles with these coordinates, and no others: those from the k-th row or column on. */
  ghost predicate FromRow(tiles: (int, int) -> bool, k: int) {
    forall i, j :: tiles(i, j) <==> j >= k
  }

  ghost predicate FromColumn(tiles: (int, int) -> bool, k: int) {
    forall i, j :: tiles(i, j) <==> i >= k
  }

  ghost predicate UpToColumn(tiles: (int, int) -> bool, k: int) {
    forall i, j :: tiles(i, j) <==> i <= -k
  }

  lemma TileFrom(f: real, k: int)
    requires k >= 1
    ensures TileAt(f) >= k <==> f >= 32.0 * k as real - 0.5
    ensures TileAt(f) <= -k <==> f <= 0.5 - 32.0 * k as real
  {
    var n := RoundToInt(f);
    TileIs(n);
    assert TileOf(n) >= k <==> n >= 32 * k;
    assert TileOf(n) <= -k <==> n <= -32 * k;
  }

  /** A box touches the ground when its lower edge does, and a wall when that side does. */
  lemma BoxTouches(m: Map, pos: Vec, w: real, h: real, k: int)
    requires w >= 0.0 && h >= 0.0 && k >= 1
    ensures FromRow(m.solid, k) ==> (TestBox(m, pos, w, h) <==> pos.y + h * 0.5 >= 32.0 * k as real - 0.5)
    ensures FromColumn(m.solid, k) ==> (TestBox(m, pos, w, h) <==> pos.x + w * 0.5 >= 32.0 * k as real - 0.5)
    ensures UpToColumn(m.solid, k) ==> (TestBox(m, pos, w, h) <==> pos.x - w * 0.5 <= 0.5 - 32.0 * k as real)
  {
    hide TileAt;
    TileFrom(pos.x - w * 0.5, k);
    TileFrom(pos.x + w * 0.5, k);
    TileFrom(pos.y - h * 0.5, k);
    TileFrom(pos.y + h * 0.5, k);
  }

  /** A tee stands on ground up to nineteen and a half units below; its feet are fourteen units to either side. */
  lemma StandsOnGround(t: Tee, e: Env, k: int)
    requires k >= 1
    ensures FromRow(e.map_.solid, k) ==> (Grounded(t, e) <==> t.pos.y >= 32.0 * k as real - 19.5)
    ensures FromColumn(e.map_.solid, k) ==> (Grounded(t, e) <==> t.pos.x >= 32.0 * k as real - 14.5)
    ensures UpToColumn(e.map_.solid, k) ==> (Grounded(t, e) <==> t.pos.x <= 14.5 - 32.0 * k as real)
  {
    hide TileAt;
    TileFrom(t.pos.x - 14.0, k);
    TileFrom(t.pos.x + 14.0, k);
    TileFrom(t.pos.y + 19.0, k);
  }

  /** A tee is frozen where its centre is, if freezing is predicted at all. */
  lemma FreezesAtCentre(t: Tee, e: Env, k: int)
    requires k >= 1
    ensures FromRow(e.map_.freeze, k) ==> (Frozen(t, e) <==> e.predictFreeze && t.pos.y >= 32.0 * k as real - 0.5)
    ensures FromColumn(e.map_.freeze, k) ==> (Frozen(t, e) <==> e.predictFreeze && t.pos.x >= 32.0 * k as real - 0.5)
  {
    hide TileAt;
    TileFrom(t.pos.x, k);
    TileFrom(t.pos.y, k);
  }

  // ---------- the movement keys and gravity

  /**
   The key for right never slows a tee that moves right: up to the top speed of the ground or the air it gains the
   acceleration, or what is missing; above it nothing changes. Left is the mirror image. Without a key the speed
   shrinks towards zero.
   */
  lemma KeysMove(t: Tee, i: Input, grounded: bool, e: Env)
    requires Sane(t.tun)
    ensures var x, top, accel := Steer(t, i, grounded, e).vel.x, TopSpeed(t, grounded), KeyAccel(t, grounded);
      && (i.direction > 0 ==> x == if t.vel.x < top then Least(t.vel.x + accel, top) else t.vel.x)
      && (i.direction < 0 ==> -x == if -t.vel.x < top then Least(-t.vel.x + accel, top) else -t.vel.x)
      && (i.direction == 0 && t.vel.x >= 0.0 ==> 0.0 <= x <= t.vel.x)
      && (i.direction == 0 && t.vel.x <= 0.0 ==> t.vel.x <= x <= 0.0)
      && (i.direction == 0 && grounded ==> x == t.vel.x * t.tun.groundFriction)
      && (i.direction == 0 && !grounded ==> x == t.vel.x * t.tun.airFriction)
  {
    hide Steer, Control, SaturatedAdd;
    SteerControls(t, i, grounded, e);
    if i.direction != 0 {
      ControlTurns(t, i.direction, grounded);
    } else {
      ControlSlows(t, grounded);
      Shrinks(t.vel.x, if grounded then t.tun.groundFriction else t.tun.airFriction);
    }
  }

  lemma SteerControls(t: Tee, i: Input, grounded: bool, e: Env)
    ensures Steer(t, i, grounded, e).vel.x == Control(t, i.direction, grounded).vel.x
  {
    hide Normalize, RefreshAirJump, Press, UseAirJump, Release, SaturatedAdd, JumpOf;
  }

  lemma ControlTurns(t: Tee, direction: int, grounded: bool)
    requires Sane(t.tun) && direction != 0
    ensures var x, top, accel := Control(t, direction, grounded).vel.x, TopSpeed(t, grounded), KeyAccel(t, grounded);
      && (direction > 0 ==> x == if t.vel.x < top then Least(t.vel.x + accel, top) else t.vel.x)
      && (direction < 0 ==> -x == if -t.vel.x < top then Least(-t.vel.x + accel, top) else -t.vel.x)
  {
    hide SaturatedAdd, Least;
    SpeedsUp(TopSpeed(t, grounded), KeyAccel(t, grounded), t.vel.x);
  }

  lemma ControlSlows(t: Tee, grounded: bool)
    ensures Control(t, 0, grounded).vel.x == t.vel.x * if grounded then t.tun.groundFriction else t.tun.airFriction
  {
  }

  lemma SpeedsUp(top: real, accel: real, v: real)
    requires 0.0 <= top && 0.0 <= accel
    ensures SaturatedAdd(-top, top, v, accel) == if v < top then Least(v + accel, top) else v
    ensures -SaturatedAdd(-top, top, v, -accel) == if -v < top then Least(-v + accel, top) else -v
  {
  }

  lemma Shrinks(v: real, f: real)
    requires 0.0 <= f <= 1.0
    ensures v >= 0.0 ==> 0.0 <= v * f <= v
    ensures v <= 0.0 ==> v <= v * f <= 0.0
  {
  }

  /**
   A jump replaces the vertical speed by its impulse, upwards; otherwise gravity is added. The air jumps since the
   tee was last on the ground are counted.
   */
  lemma JumpsAndFalls(t: Tee, i: Input, grounded: bool, e: Env)
    ensures var s := Steer(t, i, grounded, e);
      && s.direction == i.direction
      && match JumpOf(Land(t, grounded), i.jump, grounded)
         case NoJump => s.vel.y == t.vel.y + t.tun.gravity && s.jumpedTotal == if grounded then 0 else t.jumpedTotal
         case GroundJump => s.vel.y == -t.tun.groundJumpImpulse && grounded && s.jumpedTotal == 0
         case AirJump => s.vel.y == -t.tun.airJumpImpulse && !grounded && s.jumpedTotal == t.jumpedTotal + 1
  {
    hide Normalize, SaturatedAdd, Press, UseAirJump, Release;
    JumpBits(t.jumped);
  }

  /**
   After a jump the key has to come up first; a tee with two jumps or more can jump once more in the air after a jump
   from the ground, and cannot after one in the air. Without a jump the ground gives that one back, and a key that is
   up ends the jump in progress.
   */
  lemma JumpsAreUsedUp(t: Tee, i: Input, grounded: bool, e: Env)
    ensures var s, landed := Steer(t, i, grounded, e).jumped, Land(t, grounded).jumped;
      && (InProgress(landed) <==> InProgress(t.jumped)) && (AirJumpUsed(landed) <==> AirJumpUsed(t.jumped) && !grounded)
      && match JumpOf(Land(t, grounded), i.jump, grounded)
         case GroundJump => InProgress(s) && (AirJumpUsed(s) <==> t.jumps <= 1)
         case AirJump => InProgress(s) && AirJumpUsed(s)
         case NoJump => (InProgress(s) <==> InProgress(t.jumped) && i.jump) && (AirJumpUsed(s) <==> AirJumpUsed(landed))
  {
    hide Normalize, SaturatedAdd, RefreshAirJump, Release, Press, UseAirJump, InProgress, AirJumpUsed;
    JumpBits(t.jumped);
    JumpBits(RefreshAirJump(t.jumped));
  }

  /** Nothing pulls, and nothing has exploded. */
  ghost predicate Undisturbed(t: Tee, id: int, peers: seq<Vec>, i: Input, e: Env) {
    var s := Steer(t, Effective(t, i, e), Grounded(t, e), e);
    && TickHook(s, id, peers, e).vel == s.vel && e.length(s.vel) <= 6000.0
    && forall p, g, tun :: e.blast(p, g, tun).0 == Vec(0.0, 0.0)
  }

  lemma TickIsSteer(t: Tee, id: int, peers: seq<Vec>, i: Input, e: Env)
    requires Undisturbed(t, id, peers, i, e)
    ensures Tick(t, id, peers, i, e).vel == Steer(t, Effective(t, i, e), Grounded(t, e), e).vel
  {
    hide Steer, TickHook, Normalize, Effective, Grounded;
  }

  /**
   A tick that is not disturbed answers the keys: right never makes the velocity smaller and left never larger,
   strictly as long as the top speed is not reached; gravity pulls unless the tick jumps.
   */
  lemma TickAnswersKeys(t: Tee, id: int, peers: seq<Vec>, i: Input, e: Env)
    requires Sane(t.tun) && Undisturbed(t, id, peers, i, e)
    ensures var v, d, g := Tick(t, id, peers, i, e).vel, if Frozen(t, e) then 0 else i.direction, Grounded(t, e);
      && (d > 0 ==> v.x >= t.vel.x && (t.vel.x < TopSpeed(t, g) && KeyAccel(t, g) > 0.0 ==> v.x > t.vel.x))
      && (d < 0 ==> v.x <= t.vel.x && (-t.vel.x < TopSpeed(t, g) && KeyAccel(t, g) > 0.0 ==> v.x < t.vel.x))
      && (JumpAt(t, i, e).NoJump? ==> v.y == t.vel.y + t.tun.gravity)
      && (JumpAt(t, i, e).GroundJump? ==> v.y == -t.tun.groundJumpImpulse)
      && (JumpAt(t, i, e).AirJump? ==> v.y == -t.tun.airJumpImpulse)
  {
    assert Effective(t, i, e).direction == if Frozen(t, e) then 0 else i.direction;
    hide Steer, Frozen, Grounded, JumpOf, Undisturbed, Tick, Land, Effective;
    TickIsSteer(t, id, peers, i, e);
    KeysMove(t, Effective(t, i, e), Grounded(t, e), e);
    JumpsAndFalls(t, Effective(t, i, e), Grounded(t, e), e);
  }

  /** A frozen tee cannot act: it walks neither way, does not jump, lets go of its hook and fires nothing. */
  lemma FrozenCannotAct(t: Tee, id: int, peers: seq<Vec>, i: Input, e: Env)
    requires Frozen(t, e)
    ensures var r := Tick(t, id, peers, i, e);
      r.direction == 0 && r.hookState == HOOK_IDLE && r.hookedPlayer == -1 && !r.prevFire && JumpAt(t, i, e) == NoJump
  {
    var eff := Effective(t, i, e);
    assert eff.direction == 0 && !eff.jump && !eff.hook && !eff.fireGrenade;
    hide Frozen, Grounded, Steer, TickHook, Shoot, Effective, Land;
    var s := Steer(t, eff, Grounded(t, e), e);
    SteerReleases(t, eff, Grounded(t, e), e);
    IdleStays(s, id, peers, e);
    ShootKeeps(TickHook(s, id, peers, e), eff, e);
  }

  lemma SteerReleases(t: Tee, i: Input, grounded: bool, e: Env)
    requires !i.hook
    ensures var s := Steer(t, i, grounded, e);
      s.direction == i.direction && s.hookState == HOOK_IDLE && s.hookedPlayer == -1
  {
    hide Normalize, SaturatedAdd, RefreshAirJump, Release, Press, UseAirJump, JumpOf;
  }

  lemma IdleStays(t: Tee, id: int, peers: seq<Vec>, e: Env)
    requires t.hookState == HOOK_IDLE
    ensures TickHook(t, id, peers, e) == t.(hookPos := t.pos)
  {
  }

  lemma ShootKeeps(t: Tee, i: Input, e: Env)
    ensures var r := Shoot(t, i, e);
      r == t.(vel := r.vel, grenades := r.grenades, prevFire := i.fireGrenade)
  {
    hide Normalize;
  }

  /** A frozen tee ticks the same whatever the keys. */
  lemma FrozenIgnoresKeys(t: Tee, id: int, peers: seq<Vec>, i: Input, j: Input, e: Env)
    requires Frozen(t, e)
    ensures Tick(t, id, peers, i, e) == Tick(t, id, peers, j, e)
  {
    hide Frozen, Grounded, TickHook, ClampSpeed, SaturatedAdd, Normalize, RefreshAirJump, Release;
  }

  // ---------- grenades

  /** A grenade is fired when the key goes down, ahead of the tee, to the right when there is no target. */
  lemma FiresOnEdge(t: Tee, fire: bool, target: Vec, e: Env)
    requires forall p, grenades, tun :: e.blast(p, grenades, tun) == (Vec(0.0, 0.0), grenades)
    ensures var r, d := Fire(t, fire, target, e), if target == Vec(0.0, 0.0) then Vec(1.0, 0.0) else target;
      && r.prevFire == fire && r.vel == t.vel
      && r.grenades == if e.predictWeapons && fire && !t.prevFire
                       then t.grenades + [Grenade(Add(t.pos, Scale(d, 21.0)), d, 0)] else t.grenades
  {
  }

  // ---------- the move

  lemma Unramped(v: real, ramp: Positive)
    ensures (v * ramp) * (1.0 / ramp) == v
  {
    assert ramp * (1.0 / ramp) == 1.0;
    assert (v * ramp) * (1.0 / ramp) == v * (ramp * (1.0 / ramp));
  }

  /** Along a floor or a ceiling a tee slides by all of its sideways velocity, curved by the ramp, and keeps it. */
  lemma SlidesOnFloor(t: Tee, e: Env)
    requires Uniform(e.map_, X) && Free(t, e) && e.length(Ramped(t, e)) > 0.00001
    ensures Move(t, e).pos.x == t.pos.x + t.vel.x * Ramp(t, e) && Move(t, e).vel.x == t.vel.x
  {
    hide Uniform, TestBox, Moved, Ramp;
    SlidesAlong(e.map_, t.pos, Ramped(t, e), PHYSICAL_SIZE, PHYSICAL_SIZE, e.length(Ramped(t, e)), X);
    Unramped(t.vel.x, Ramp(t, e));
  }

  /** The ramp leaves speeds below its start alone, fifty ticks a second. */
  ghost predicate RampsFrom(e: Env) {
    forall v, start, range, curvature :: v < start ==> e.ramp(v, start, range, curvature) == 1.0
  }

  lemma SlidesUnramped(t: Tee, e: Env)
    requires Uniform(e.map_, X) && Free(t, e) && RampsFrom(e) && e.length(t.vel) > 0.00001
    requires e.length(t.vel) * 50.0 < t.tun.velrampStart
    ensures Move(t, e).pos.x == t.pos.x + t.vel.x && Move(t, e).vel.x == t.vel.x
  {
    hide Uniform, Free, Move;
    assert Ramp(t, e) == 1.0;
    assert Ramped(t, e) == t.vel;
    SlidesOnFloor(t, e);
  }

  /** Along a wall it falls by all of its vertical velocity and keeps that. */
  lemma SlidesOnWall(t: Tee, e: Env)
    requires Uniform(e.map_, Y) && Free(t, e) && e.length(Ramped(t, e)) > 0.00001
    ensures Move(t, e).pos.y == t.pos.y + t.vel.y && Move(t, e).vel.y == t.vel.y
  {
    hide Uniform, TestBox, Moved, Ramp;
    SlidesAlong(e.map_, t.pos, Ramped(t, e), PHYSICAL_SIZE, PHYSICAL_SIZE, e.length(Ramped(t, e)), Y);
  }

  /** Landing, and nothing else about the move, gives the air jump back. */
  lemma LandingRefreshes(t: Tee, e: Env)
    ensures var r, landed := Move(t, e), t.vel.y > 0.0 && MoveEnd(t, e).v.y == 0.0;
      && r.jumpedTotal == (if landed then 0 else t.jumpedTotal)
      && (landed ==> !AirJumpUsed(r.jumped)) && (!landed ==> r.jumped == t.jumped)
  {
    hide Moved, Ramp, RefreshAirJump;
    MoveIsSafe(e.map_, t.pos, Ramped(t, e), PHYSICAL_SIZE, PHYSICAL_SIZE, e.length(Ramped(t, e)));
    JumpBits(t.jumped);
  }

  predicate Near(a: real, b: real, d: real) {
    -d <= a - b <= d
  }

  /** Quantizing moves the tee to whole units and its velocity to the grid of 256ths, to the nearest of these. */
  lemma QuantizesNearby(t: Tee)
    ensures var r := Quantize(t);
      && Near(r.pos.x, t.pos.x, 0.5) && Near(r.pos.y, t.pos.y, 0.5)
      && Near(r.vel.x * 256.0, t.vel.x * 256.0, 0.5) && Near(r.vel.y * 256.0, t.vel.y * 256.0, 0.5)
      && r.pos.x == r.pos.x.Floor as real && r.pos.y == r.pos.y.Floor as real
      && r.vel.x * 256.0 == (r.vel.x * 256.0).Floor as real && r.vel.y * 256.0 == (r.vel.y * 256.0).Floor as real
      && r == t.(pos := r.pos, vel := r.vel)
  {
    hide RoundToInt;
    RoundIsNearest(t.pos.x);
    RoundIsNearest(t.pos.y);
    RoundIsNearest(t.vel.x * 256.0);
    RoundIsNearest(t.vel.y * 256.0);
  }
}
