/**
 A tee's physics, tick by tick, on values: ground, control, the edge-triggered jump, the hook. Lengths,
 the velocity ramp and grenade flight are parameters, since none of the properties depends on them.
 */
module Tee {
  import opened Collision

  datatype Tuning = Tuning(
    gravity: real, groundControlSpeed: real, groundControlAccel: real, groundFriction: real,
    airControlSpeed: real, airControlAccel: real, airFriction: real, groundJumpImpulse: real, airJumpImpulse: real,
    hookLength: real, hookFireSpeed: real, hookDragAccel: real, hookDragSpeed: real,
    velrampStart: real, velrampRange: real, velrampCurvature: real)

  /** The value of a power. */
  type Positive = r: real | 0.0 < r witness 1.0

  datatype Grenade = Grenade(start: Vec, dir: Vec, age: nat)

  /** The map, the configuration, and the functions that are not spelled out here. */
  datatype Env = Env(
    map_: Map, predictWeapons: bool, predictFreeze: bool,
    length: Vec -> Length,
    ramp: (real, real, real, real) -> Positive,
    blast: (Vec, seq<Grenade>, Tuning) -> (Vec, seq<Grenade>))

  datatype Input = Input(direction: int, targetX: int, targetY: int, jump: bool, hook: bool, fireGrenade: bool)

  const HOOK_RETRACTED := -1
  const HOOK_IDLE := 0
  const HOOK_RETRACT_START := 1
  const HOOK_RETRACT_END := 3
  const HOOK_FLYING := 4
  const HOOK_GRABBED := 5

  datatype Tee = Tee(
    pos: Vec, vel: Vec, direction: int, jumped: int, jumps: int, jumpedTotal: int,
    hookState: int, hookPos: Vec, hookDir: Vec, hookTick: int, hookedPlayer: int,
    grenades: seq<Grenade>, prevFire: bool, tun: Tuning)

  // ---------- vectors

  function Dot(a: Vec, b: Vec): real {
    a.x * b.x + a.y * b.y
  }

  function Distance(a: Vec, b: Vec, e: Env): Length {
    e.length(Sub(a, b))
  }

  function Normalize(v: Vec, e: Env): Vec {
    if e.length(v) == 0.0 then Vec(0.0, 0.0) else Scale(v, 1.0 / e.length(v))
  }

  /** The point of the segment nearest to p; none for a segment without length. */
  function ClosestPoint(a: Vec, b: Vec, p: Vec): (Vec, bool) {
    var ab := Sub(b, a);
    var sq := Dot(ab, ab);
    if sq <= 0.0 then (Vec(0.0, 0.0), false)
    else
      var t := Dot(Sub(p, a), ab) / sq;
      (Add(a, Scale(ab, if t < 0.0 then 0.0 else if t > 1.0 then 1.0 else t)), true)
  }

  function SaturatedAdd(min: real, max: real, current: real, modifier: real): real {
    if modifier < 0.0 then
      if current < min then current else if current + modifier < min then min else current + modifier
    else
      if current > max then current else if current + modifier > max then max else current + modifier
  }

  /**
   A bound is never crossed in the direction of the change, a speed beyond it is left alone, and otherwise
   the change is made in full or up to the bound.
   */
  lemma SaturatedAddStops(min: real, max: real, current: real, modifier: real)
    requires min <= max
    ensures var r := SaturatedAdd(min, max, current, modifier);
      && (min <= current <= max ==> min <= r <= max)
      && (modifier < 0.0 ==> current + modifier <= r <= current && (r == current + modifier || r == min || current < min))
      && (modifier >= 0.0 ==> current <= r <= current + modifier && (r == current + modifier || r == max || current > max))
  {
  }

  // ---------- the jump bits

  /** A jump is in progress: the key has to be released before the next one. */
  predicate InProgress(jumped: int) {
    jumped % 2 == 1
  }

  /** The air jump has been used. */
  predicate AirJumpUsed(jumped: int) {
    jumped / 2 % 2 == 1
  }

  /** jumped &^ 2 */
  function RefreshAirJump(jumped: int): int {
    if AirJumpUsed(jumped) then jumped - 2 else jumped
  }

  /** jumped &^ 1 */
  function Release(jumped: int): int {
    if InProgress(jumped) then jumped - 1 else jumped
  }

  /** jumped | 1 */
  function Press(jumped: int): int {
    if InProgress(jumped) then jumped else jumped + 1
  }

  /** jumped | 3 */
  function UseAirJump(jumped: int): int {
    var pressed := Press(jumped);
    if AirJumpUsed(pressed) then pressed else pressed + 2
  }

  lemma JumpBits(j: int)
    ensures !AirJumpUsed(RefreshAirJump(j)) && (InProgress(RefreshAirJump(j)) <==> InProgress(j))
    ensures !InProgress(Release(j)) && (AirJumpUsed(Release(j)) <==> AirJumpUsed(j))
    ensures InProgress(Press(j)) && (AirJumpUsed(Press(j)) <==> AirJumpUsed(j))
    ensures InProgress(UseAirJump(j)) && AirJumpUsed(UseAirJump(j))
  {
  }

  /** All other bits stay. */
  lemma OtherBitsStay(j: int)
    ensures RefreshAirJump(j) / 4 == j / 4 && Release(j) / 4 == j / 4
    ensures Press(j) / 4 == j / 4 && UseAirJump(j) / 4 == j / 4
  {
  }

  // ---------- the parts of a tick

  predicate Grounded(t: Tee, e: Env) {
    var half := PHYSICAL_SIZE / 2.0;
    || CheckPoint(e.map_, Vec(t.pos.x + half, t.pos.y + half + 5.0))
    || CheckPoint(e.map_, Vec(t.pos.x - half, t.pos.y + half + 5.0))
  }

  predicate Frozen(t: Tee, e: Env) {
    e.predictFreeze && e.map_.freeze(TileAt(t.pos.x), TileAt(t.pos.y))
  }

  /** A frozen tee has no control. */
  function Effective(t: Tee, i: Input, e: Env): Input {
    if Frozen(t, e) then i.(direction := 0, jump := false, hook := false, fireGrenade := false) else i
  }

  function Land(t: Tee, grounded: bool): Tee {
    if grounded then t.(jumped := RefreshAirJump(t.jumped), jumpedTotal := 0) else t
  }

  datatype Jump = NoJump | GroundJump | AirJump

  function JumpOf(t: Tee, jump: bool, grounded: bool): Jump {
    if !jump || InProgress(t.jumped) then NoJump
    else if grounded && (!AirJumpUsed(t.jumped) || t.jumps != 0) then GroundJump
    else if !AirJumpUsed(t.jumped) then AirJump
    else NoJump
  }

  function DoJump(t: Tee, jump: bool, grounded: bool): Tee {
    match JumpOf(t, jump, grounded)
    case GroundJump =>
      t.(vel := Vec(t.vel.x, -t.tun.groundJumpImpulse),
         jumped := if t.jumps > 1 then Press(t.jumped) else UseAirJump(t.jumped), jumpedTotal := 0)
    case AirJump =>
      t.(vel := Vec(t.vel.x, -t.tun.airJumpImpulse), jumped := UseAirJump(t.jumped), jumpedTotal := t.jumpedTotal + 1)
    case NoJump => if jump then t else t.(jumped := Release(t.jumped))
  }

  function HookEdge(t: Tee, hook: bool, targetDir: Vec): Tee {
    if !hook then t.(hookState := HOOK_IDLE, hookPos := t.pos, hookedPlayer := -1)
    else if t.hookState == HOOK_IDLE then
      t.(hookState := HOOK_FLYING, hookPos := Add(t.pos, Scale(targetDir, PHYSICAL_SIZE * 1.5)),
         hookDir := targetDir, hookTick := 0)
    else t
  }

  function Control(t: Tee, direction: int, grounded: bool): Tee {
    var maxSpeed := if grounded then t.tun.groundControlSpeed else t.tun.airControlSpeed;
    var accel := if grounded then t.tun.groundControlAccel else t.tun.airControlAccel;
    var friction := if grounded then t.tun.groundFriction else t.tun.airFriction;
    var x :=
      if direction < 0 then SaturatedAdd(-maxSpeed, maxSpeed, t.vel.x, -accel)
      else if direction > 0 then SaturatedAdd(-maxSpeed, maxSpeed, t.vel.x, accel)
      else t.vel.x * friction;
    t.(vel := Vec(x, t.vel.y))
  }

  // ---------- the hook

  /** The peer's body lies at the segment that the hook flies along. */
  predicate InReach(from: Vec, to: Vec, peer: Vec, e: Env) {
    var (cp, ok) := ClosestPoint(from, to, peer);
    ok && Distance(peer, cp, e) < PHYSICAL_SIZE + 2.0
  }

  datatype Grab = Grab(player: int, dist: real, grabbed: bool)

  /** The scan over the first n peers. */
  function Scan(g: Grab, from: Vec, to: Vec, peers: seq<Vec>, id: int, n: nat, e: Env): Grab
    requires n <= |peers|
  {
    if n == 0 then g
    else
      var s := Scan(g, from, to, peers, id, n - 1, e);
      var i := n - 1;
      if i != id && InReach(from, to, peers[i], e) && (s.player == -1 || Distance(from, peers[i], e) < s.dist)
      then Grab(i, Distance(from, peers[i], e), true)
      else s
  }

  /** Where this tick's flight ends, and whether the hook has reached its length. */
  function Flight(t: Tee, e: Env): (Vec, bool) {
    var newPos := Add(t.hookPos, Scale(t.hookDir, t.tun.hookFireSpeed));
    if Distance(t.pos, newPos, e) > t.tun.hookLength
    then (Add(t.pos, Scale(Normalize(Sub(newPos, t.pos), e), t.tun.hookLength)), true)
    else (newPos, false)
  }

  function FlightHit(t: Tee, e: Env): Hit {
    var to := Flight(t, e).0;
    Line(e.map_, t.hookPos, to, Distance(t.hookPos, to, e).Floor + 1, 0)
  }

  /** The flight cut off at the first wall. */
  function Clipped(t: Tee, e: Env): Vec {
    if FlightHit(t, e).hit then FlightHit(t, e).at else Flight(t, e).0
  }

  /** A flying hook: a peer at the clipped segment comes first, then the wall. */
  function Fly(t: Tee, id: int, peers: seq<Vec>, e: Env): Tee {
    var start := if Flight(t, e).1 then HOOK_RETRACT_START else HOOK_FLYING;
    var hit, to := FlightHit(t, e), Clipped(t, e);
    var g := Scan(Grab(t.hookedPlayer, 0.0, false), t.hookPos, to, peers, id, |peers|, e);
    var state :=
      if g.grabbed then HOOK_GRABBED
      else if start == HOOK_FLYING && hit.hit then (if hit.noHook then HOOK_RETRACT_START else HOOK_GRABBED)
      else start;
    t.(hookState := state, hookedPlayer := g.player, hookPos := to)
  }

  function MoveHook(t: Tee, id: int, peers: seq<Vec>, e: Env): Tee {
    if t.hookState == HOOK_IDLE then t.(hookPos := t.pos)
    else if HOOK_RETRACT_START <= t.hookState < HOOK_RETRACT_END then t.(hookState := t.hookState + 1)
    else if t.hookState == HOOK_RETRACT_END then t.(hookState := HOOK_RETRACTED)
    else if t.hookState == HOOK_FLYING then Fly(t, id, peers, e)
    else t
  }

  /** The pull of a hook in a wall. */
  function Pull(t: Tee, e: Env): Vec {
    var v := Scale(Normalize(Sub(t.hookPos, t.pos), e), t.tun.hookDragAccel);
    var y := if v.y > 0.0 then v.y * 0.3 else v.y;
    var x := if (v.x < 0.0 && t.direction < 0) || (v.x > 0.0 && t.direction > 0) then v.x * 0.95 else v.x * 0.75;
    var pulled := Add(t.vel, Vec(x, y));
    if e.length(pulled) < t.tun.hookDragSpeed || e.length(pulled) < e.length(t.vel) then pulled else t.vel
  }

  function Hold(t: Tee, peers: seq<Vec>, e: Env): Tee {
    if t.hookState != HOOK_GRABBED then t
    else
      var t' :=
        if t.hookedPlayer != -1 then
          if 0 <= t.hookedPlayer < |peers| then t.(hookPos := peers[t.hookedPlayer])
          else t.(hookedPlayer := -1, hookState := HOOK_RETRACTED, hookPos := t.pos)
        else if Distance(t.hookPos, t.pos, e) > 46.0 then t.(vel := Pull(t, e))
        else t;
      t'.(hookTick := t.hookTick + 1)
  }

  function TickHook(t: Tee, id: int, peers: seq<Vec>, e: Env): Tee {
    Hold(MoveHook(t, id, peers, e), peers, e)
  }

  // ---------- grenades and the clamp

  function Fire(t: Tee, fire: bool, targetDir: Vec, e: Env): Tee {
    var d := if targetDir.x == 0.0 && targetDir.y == 0.0 then Vec(1.0, 0.0) else targetDir;
    var shot := if e.predictWeapons && fire && !t.prevFire
                then t.grenades + [Grenade(Add(t.pos, Scale(d, PHYSICAL_SIZE * 0.75)), d, 0)] else t.grenades;
    var (impulse, keep) := e.blast(t.pos, shot, t.tun);
    t.(grenades := keep, prevFire := fire, vel := Add(t.vel, impulse))
  }

  function ClampSpeed(t: Tee, e: Env): Tee {
    if e.length(t.vel) > 6000.0 then t.(vel := Scale(Normalize(t.vel, e), 6000.0)) else t
  }

  // ---------- a tick

  /** Everything up to the hook. */
  function Steer(t: Tee, i: Input, grounded: bool, e: Env): Tee {
    var dir := Normalize(Vec(i.targetX as real, i.targetY as real), e);
    var t1 := Land(t, grounded);
    var t2 := t1.(vel := Vec(t1.vel.x, t1.vel.y + t1.tun.gravity), direction := i.direction);
    Control(HookEdge(DoJump(t2, i.jump, grounded), i.hook, dir), i.direction, grounded)
  }

  /** Everything from the grenades on. */
  function Shoot(t: Tee, i: Input, e: Env): Tee {
    ClampSpeed(Fire(t, i.fireGrenade, Normalize(Vec(i.targetX as real, i.targetY as real), e), e), e)
  }

  /** Tick: `peers` are the positions of all tees of the world, `id` the tee's own place among them. */
  function Tick(t: Tee, id: int, peers: seq<Vec>, i: Input, e: Env): Tee {
    var eff := Effective(t, i, e);
    Shoot(TickHook(Steer(t, eff, Grounded(t, e), e), id, peers, e), eff, e)
  }

  const TICK_SPEED := 50.0

  function Ramp(t: Tee, e: Env): Positive {
    e.ramp(e.length(t.vel) * TICK_SPEED, t.tun.velrampStart, t.tun.velrampRange, t.tun.velrampCurvature)
  }

  /** High horizontal speeds are curved down for the move. */
  function Ramped(t: Tee, e: Env): Vec {
    Vec(t.vel.x * Ramp(t, e), t.vel.y)
  }

  /** Where the move ends, and what it stopped. */
  function MoveEnd(t: Tee, e: Env): Body {
    Moved(e.map_, t.pos, Ramped(t, e), PHYSICAL_SIZE, PHYSICAL_SIZE, e.length(Ramped(t, e)))
  }

  function Move(t: Tee, e: Env): Tee {
    var b := MoveEnd(t, e);
    Land(t.(pos := b.p, vel := Vec(b.v.x * (1.0 / Ramp(t, e)), b.v.y)), b.grounded)
  }

  function Quantize(t: Tee): Tee {
    t.(pos := Vec(Rounded(t.pos.x), Rounded(t.pos.y)),
       vel := Vec(Rounded(t.vel.x * 256.0) / 256.0, Rounded(t.vel.y * 256.0) / 256.0))
  }

  /** A full tick of a tee on its own. */
  function Step(t: Tee, id: int, peers: seq<Vec>, i: Input, e: Env): Tee {
    Quantize(Move(Tick(t, id, peers, i, e), e))
  }
}
