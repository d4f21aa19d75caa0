/** The physics core as the object it is, and the lockstep over a set of cores. */
module Core {
  import opened Collision
  import Tee
  import TeeWorld

  ghost predicate Distinct(cores: seq<Core>) {
    forall i, j :: 0 <= i < j < |cores| ==> cores[i] != cores[j]
  }

  ghost predicate SameEnv(cores: seq<Core>, e: Tee.Env) {
    forall i :: 0 <= i < |cores| ==> cores[i].e == e
  }

  ghost function View(cores: seq<Core>): (w: TeeWorld.World)
    reads cores
    ensures |w| == |cores| && forall i :: 0 <= i < |w| ==> w[i] == cores[i].Abs()
  {
    seq(|cores|, i requires 0 <= i < |cores| reads cores => cores[i].Abs())
  }

  /** The velocities of a core and of the i-th one after the first has acted on the second. */
  ghost function Acted(c: Tee.Tee, o: Tee.Tee, i: nat, e: Tee.Env): (Vec, Vec) {
    if Tee.Distance(c.pos, o.pos, e) <= 0.0 then (c.vel, o.vel)
    else
      var c' := c.(vel := TeeWorld.Push(c, o.pos, e));
      if TeeWorld.Drags(c', o.pos, i, e) && c'.tun.hookLength != 0.0
      then (TeeWorld.Dragged(c'.vel, c', o.pos, -0.25, e), TeeWorld.Dragged(o.vel, c', o.pos, 1.5, e))
      else (c'.vel, o.vel)
  }

  lemma ActedIsInteract(w: TeeWorld.World, w': TeeWorld.World, a: nat, b: nat, e: Tee.Env)
    requires a < |w| == |w'| && b < |w|
    requires a == b ==> w' == w
    requires a != b ==> w' == w[a := w[a].(vel := Acted(w[a], w[b], b, e).0)][b := w[b].(vel := Acted(w[a], w[b], b, e).1)]
    ensures w' == TeeWorld.Interact(w, a, b, e)
  {
    hide TeeWorld.Push, TeeWorld.Dragged;
  }

  class Core {
    var pos: Vec
    var vel: Vec
    var direction: int
    var jumped: int
    var jumps: int
    var jumpedTotal: int
    var hookState: int
    var hookPos: Vec
    var hookDir: Vec
    var hookTick: int
    var hookedPlayer: int
    var grenades: seq<Tee.Grenade>
    var prevFire: bool
    var tun: Tee.Tuning
    var id: int
    var peers: seq<Core>
    const e: Tee.Env

    constructor (e: Tee.Env, pos: Vec, tun: Tee.Tuning)
      ensures this.e == e && id == 0 && peers == []
      ensures Abs() == Tee.Tee(pos, Vec(0.0, 0.0), 0, 0, 2, 0, Tee.HOOK_IDLE, Vec(0.0, 0.0), Vec(0.0, 0.0), 0, -1, [], false, tun)
    {
      this.e, this.pos, this.tun := e, pos, tun;
      vel, hookPos, hookDir := Vec(0.0, 0.0), Vec(0.0, 0.0), Vec(0.0, 0.0);
      direction, jumped, jumps, jumpedTotal := 0, 0, 2, 0;
      hookState, hookTick, hookedPlayer := Tee.HOOK_IDLE, 0, -1;
      grenades, prevFire, id, peers := [], false, 0, [];
    }

    function Abs(): Tee.Tee
      reads this
    {
      Tee.Tee(pos, vel, direction, jumped, jumps, jumpedTotal, hookState, hookPos, hookDir, hookTick,
              hookedPlayer, grenades, prevFire, tun)
    }

    /** In the list of peers a core stands at its own index and nowhere else. */
    ghost predicate KnowsItself()
      reads this
    {
      forall k :: 0 <= k < |peers| ==> (peers[k] == this <==> k == id)
    }

    ghost function PeerPositions(): (ps: seq<Vec>)
      reads this, peers
      ensures |ps| == |peers|
    {
      seq(|peers|, k requires 0 <= k < |peers| reads this, peers => peers[k].pos)
    }

    method Land()
      modifies `jumped, `jumpedTotal
      ensures Abs() == Tee.Land(old(Abs()), true)
    {
      jumped := Tee.RefreshAirJump(jumped);
      jumpedTotal := 0;
    }

    /** The jump edge: ground jump, air jump or nothing; a key that is up ends the jump in progress. */
    method DoJump(jump: bool, grounded: bool)
      modifies `vel, `jumped, `jumpedTotal
      ensures Abs() == Tee.DoJump(old(Abs()), jump, grounded)
    {
      if jump {
        if !Tee.InProgress(jumped) {
          if grounded && (!Tee.AirJumpUsed(jumped) || jumps != 0) {
            vel := Vec(vel.x, -tun.groundJumpImpulse);
            jumped := if jumps > 1 then Tee.Press(jumped) else Tee.UseAirJump(jumped);
            jumpedTotal := 0;
          } else if !Tee.AirJumpUsed(jumped) {
            vel := Vec(vel.x, -tun.airJumpImpulse);
            jumped := Tee.UseAirJump(jumped);
            jumpedTotal := jumpedTotal + 1;
          }
        }
      } else {
        jumped := Tee.Release(jumped);
      }
    }

    method HookEdge(hook: bool, targetDir: Vec)
      modifies `hookState, `hookPos, `hookDir, `hookTick, `hookedPlayer
      ensures Abs() == Tee.HookEdge(old(Abs()), hook, targetDir)
    {
      if hook {
        if hookState == Tee.HOOK_IDLE {
          hookState := Tee.HOOK_FLYING;
          hookPos := Add(pos, Scale(targetDir, PHYSICAL_SIZE * 1.5));
          hookDir := targetDir;
          hookTick := 0;
        }
      } else {
        hookState := Tee.HOOK_IDLE;
        hookPos := pos;
        hookedPlayer := -1;
      }
    }

    method Control(dir: int, grounded: bool)
      modifies `vel
      ensures Abs() == Tee.Control(old(Abs()), dir, grounded)
    {
      var maxSpeed, accel, friction := tun.airControlSpeed, tun.airControlAccel, tun.airFriction;
      if grounded {
        maxSpeed, accel, friction := tun.groundControlSpeed, tun.groundControlAccel, tun.groundFriction;
      }
      if dir < 0 {
        vel := Vec(Tee.SaturatedAdd(-maxSpeed, maxSpeed, vel.x, -accel), vel.y);
      } else if dir > 0 {
        vel := Vec(Tee.SaturatedAdd(-maxSpeed, maxSpeed, vel.x, accel), vel.y);
      } else {
        vel := Vec(vel.x * friction, vel.y);
      }
    }

    /** The scan for the closest peer at the hook's way. */
    method GrabPeer(to: Vec) returns (g: Tee.Grab)
      requires KnowsItself()
      ensures g == Tee.Scan(Tee.Grab(hookedPlayer, 0.0, false), hookPos, to, PeerPositions(), id, |peers|, e)
    {
      g := Tee.Grab(hookedPlayer, 0.0, false);
      for i := 0 to |peers|
        invariant g == Tee.Scan(Tee.Grab(hookedPlayer, 0.0, false), hookPos, to, PeerPositions(), id, i, e)
      {
        var o := peers[i];
        if o != this {
          var cp, ok := Tee.ClosestPoint(hookPos, to, o.pos).0, Tee.ClosestPoint(hookPos, to, o.pos).1;
          if ok && Tee.Distance(o.pos, cp, e) < PHYSICAL_SIZE + 2.0 {
            if g.player == -1 || Tee.Distance(hookPos, o.pos, e) < g.dist {
              g := Tee.Grab(i, Tee.Distance(hookPos, o.pos, e), true);
            }
          }
        }
      }
    }

    method Fly()
      requires KnowsItself() && hookState == Tee.HOOK_FLYING
      modifies `hookState, `hookedPlayer, `hookPos
      ensures Abs() == Tee.Fly(old(Abs()), id, old(PeerPositions()), e)
    {
      hide Tee.Scan, Line, Tee.Distance, Tee.Normalize;
      ghost var was, ps := Abs(), PeerPositions();
      var newPos := Add(hookPos, Scale(hookDir, tun.hookFireSpeed));
      var state := hookState;
      if Tee.Distance(pos, newPos, e) > tun.hookLength {
        state := Tee.HOOK_RETRACT_START;
        newPos := Add(pos, Scale(Tee.Normalize(Sub(newPos, pos), e), tun.hookLength));
      }
      var goingToHitGround, goingToRetract := false, false;
      var hit := IntersectLineHook(e.map_, hookPos, newPos, Tee.Distance(hookPos, newPos, e));
      if hit.hit {
        newPos := hit.at;
        if hit.noHook {
          goingToRetract := true;
        } else {
          goingToHitGround := true;
        }
      }
      var g := GrabPeer(newPos);
      if g.grabbed {
        state := Tee.HOOK_GRABBED;
      }
      hookedPlayer := g.player;
      if state == Tee.HOOK_FLYING {
        if goingToHitGround {
          state := Tee.HOOK_GRABBED;
        } else if goingToRetract {
          state := Tee.HOOK_RETRACT_START;
        }
      }
      hookState := state;
      hookPos := newPos;
    }

    method MoveHook()
      requires KnowsItself()
      modifies `hookState, `hookedPlayer, `hookPos
      ensures Abs() == Tee.MoveHook(old(Abs()), id, old(PeerPositions()), e)
    {
      hide Tee.Fly;
      if hookState == Tee.HOOK_IDLE {
        hookPos := pos;
      } else if Tee.HOOK_RETRACT_START <= hookState < Tee.HOOK_RETRACT_END {
        hookState := hookState + 1;
      } else if hookState == Tee.HOOK_RETRACT_END {
        hookState := Tee.HOOK_RETRACTED;
      } else if hookState == Tee.HOOK_FLYING {
        Fly();
      }
    }

    /** A grabbing hook follows its player, lets go of one that is gone, or pulls at its wall. */
    method Hold()
      modifies `hookState, `hookedPlayer, `hookPos, `vel, `hookTick
      ensures Abs() == Tee.Hold(old(Abs()), old(PeerPositions()), e)
    {
      hide Tee.Pull, Tee.Distance;
      if hookState == Tee.HOOK_GRABBED {
        if hookedPlayer != -1 {
          if 0 <= hookedPlayer < |peers| {
            hookPos := peers[hookedPlayer].pos;
          } else {
            hookedPlayer := -1;
            hookState := Tee.HOOK_RETRACTED;
            hookPos := pos;
          }
        } else if Tee.Distance(hookPos, pos, e) > 46.0 {
          vel := Tee.Pull(Abs(), e);
        }
        hookTick := hookTick + 1;
      }
    }

    method TickHook()
      requires KnowsItself()
      modifies `hookState, `hookedPlayer, `hookPos, `vel, `hookTick
      ensures Abs() == Tee.TickHook(old(Abs()), id, old(PeerPositions()), e)
    {
      hide Tee.MoveHook, Tee.Hold;
      ghost var ps := PeerPositions();
      MoveHook();
      assert PeerPositions() == ps;
      Hold();
    }

    method Shoot(i: Tee.Input)
      modifies `grenades, `prevFire, `vel
      ensures Abs() == Tee.Shoot(old(Abs()), i, e)
    {
      var targetDir := Tee.Normalize(Vec(i.targetX as real, i.targetY as real), e);
      var shot := grenades;
      if e.predictWeapons && i.fireGrenade && !prevFire {
        var d := targetDir;
        if d.x == 0.0 && d.y == 0.0 {
          d := Vec(1.0, 0.0);
        }
        shot := shot + [Tee.Grenade(Add(pos, Scale(d, PHYSICAL_SIZE * 0.75)), d, 0)];
      }
      prevFire := i.fireGrenade;
      var impulse, keep := e.blast(pos, shot, tun).0, e.blast(pos, shot, tun).1;
      vel := Add(vel, impulse);
      grenades := keep;
      if e.length(vel) > 6000.0 {
        vel := Scale(Tee.Normalize(vel, e), 6000.0);
      }
    }

    method Steer(i: Tee.Input, grounded: bool)
      modifies `jumped, `jumpedTotal, `vel, `direction, `hookState, `hookPos, `hookDir, `hookTick, `hookedPlayer
      ensures Abs() == Tee.Steer(old(Abs()), i, grounded, e)
    {
      hide Tee.DoJump, Tee.HookEdge, Tee.Control, Tee.Normalize;
      if grounded {
        Land();
      }
      var targetDir := Tee.Normalize(Vec(i.targetX as real, i.targetY as real), e);
      vel := Vec(vel.x, vel.y + tun.gravity);
      direction := i.direction;
      DoJump(i.jump, grounded);
      HookEdge(i.hook, targetDir);
      Control(i.direction, grounded);
    }

    method Tick(i: Tee.Input)
      requires KnowsItself()
      modifies this
      ensures Abs() == Tee.Tick(old(Abs()), id, old(PeerPositions()), i, e)
      ensures id == old(id) && peers == old(peers)
    {
      hide Tee.Steer, Tee.TickHook, Tee.Shoot, Tee.Effective, Tee.Grounded;
      ghost var ps := PeerPositions();
      var grounded := Tee.Grounded(Abs(), e);
      var eff := Tee.Effective(Abs(), i, e);
      Steer(eff, grounded);
      assert PeerPositions() == ps;
      TickHook();
      Shoot(eff);
    }

    method Move()
      modifies `vel, `pos, `jumped, `jumpedTotal
      ensures Abs() == Tee.Move(old(Abs()), e)
    {
      hide Moved, Tee.Ramp, Tee.RefreshAirJump;
      ghost var was := Abs();
      var ramp := Tee.Ramp(Abs(), e);
      vel := Tee.Ramped(Abs(), e);
      var newPos, newVel, grounded := MoveBox(e.map_, pos, vel, PHYSICAL_SIZE, PHYSICAL_SIZE, e.length(vel));
      vel := Vec(newVel.x * (1.0 / ramp), newVel.y);
      if grounded {
        Land();
      }
      pos := newPos;
    }

    method Quantize()
      modifies `vel, `pos
      ensures Abs() == Tee.Quantize(old(Abs()))
    {
      pos := Vec(Rounded(pos.x), Rounded(pos.y));
      vel := Vec(Rounded(vel.x * 256.0) / 256.0, Rounded(vel.y * 256.0) / 256.0);
    }

    /** A full tick of this core. */
    method Step(i: Tee.Input)
      requires KnowsItself()
      modifies this
      ensures Abs() == Tee.Step(old(Abs()), id, old(PeerPositions()), i, e)
      ensures id == old(id) && peers == old(peers)
    {
      hide Tee.Tick, Tee.Move, Tee.Quantize;
      Tick(i);
      Move();
      Quantize();
    }

    /** What this core does to one other core, and to itself. */
    method Interact(o: Core, i: nat)
      requires o != this && o.e == e
      modifies this`vel, o`vel
      ensures vel == Acted(old(Abs()), old(o.Abs()), i, e).0 && o.vel == Acted(old(Abs()), old(o.Abs()), i, e).1
    {
      hide TeeWorld.Push, TeeWorld.Dragged;
      if Tee.Distance(pos, o.pos, e) <= 0.0 {
        return;
      }
      vel := TeeWorld.Push(Abs(), o.pos, e);
      if hookedPlayer == i && Tee.Distance(pos, o.pos, e) > PHYSICAL_SIZE * 1.5 && tun.hookLength != 0.0 {
        var c := Abs();
        o.vel := TeeWorld.Dragged(o.vel, c, o.pos, 1.5, e);
        vel := TeeWorld.Dragged(vel, c, o.pos, -0.25, e);
      }
    }

    method InteractNth(all: seq<Core>, a: nat, i: nat)
      requires Distinct(all) && SameEnv(all, e) && a < |all| && all[a] == this && i < |all|
      modifies all`vel
      ensures View(all) == TeeWorld.Interact(old(View(all)), a, i, e)
    {
      hide TeeWorld.Interact, Acted;
      ghost var w := View(all);
      if all[i] != this {
        Interact(all[i], i);
        assert forall k :: 0 <= k < |all| && k != a && k != i ==> all[k].Abs() == w[k];
      }
      ActedIsInteract(w, View(all), a, i, e);
    }

    /** tickDeferredCollision: this core, the a-th of all, acts on every other. */
    method TickDeferredCollision(all: seq<Core>, a: nat)
      requires Distinct(all) && SameEnv(all, e) && a < |all| && all[a] == this
      modifies all`vel
      ensures View(all) == TeeWorld.InteractAll(old(View(all)), a, |all|, e)
    {
      hide TeeWorld.Interact;
      ghost var w := View(all);
      for i := 0 to |all|
        invariant View(all) == TeeWorld.InteractAll(w, a, i, e)
      {
        InteractNth(all, a, i);
      }
    }
  }

  /** Every core stands at its index in the list that all of them share. */
  ghost predicate Ready(cores: seq<Core>, e: Tee.Env)
    reads cores
  {
    Distinct(cores) && SameEnv(cores, e) && forall k :: 0 <= k < |cores| ==> cores[k].id == k && cores[k].peers == cores
  }

  lemma ReadyKnows(cores: seq<Core>, e: Tee.Env, i: nat)
    requires Ready(cores, e) && i < |cores|
    ensures cores[i].KnowsItself() && cores[i].PeerPositions() == TeeWorld.Positions(View(cores))
  {
  }

  method Introduce(cores: seq<Core>, e: Tee.Env)
    requires Distinct(cores) && SameEnv(cores, e)
    modifies cores
    ensures Ready(cores, e) && View(cores) == old(View(cores))
  {
    ghost var w := View(cores);
    for i := 0 to |cores|
      invariant forall k :: 0 <= k < i ==> cores[k].id == k && cores[k].peers == cores
      invariant forall k :: 0 <= k < |cores| ==> cores[k].Abs() == w[k]
    {
      cores[i].id := i;
      cores[i].peers := cores;
    }
    assert View(cores) == w;
  }

  method TickOne(cores: seq<Core>, i: nat, input: Tee.Input, e: Tee.Env)
    requires Ready(cores, e) && i < |cores|
    modifies cores
    ensures Ready(cores, e)
    ensures View(cores) == old(View(cores))[i := Tee.Tick(old(View(cores))[i], i, TeeWorld.Positions(old(View(cores))), input, e)]
  {
    hide Tee.Tick;
    ghost var w := View(cores);
    ReadyKnows(cores, e, i);
    cores[i].Tick(input);
    assert forall k :: 0 <= k < |cores| && k != i ==> cores[k].Abs() == w[k];
  }

  method InteractOne(cores: seq<Core>, i: nat, e: Tee.Env)
    requires Ready(cores, e) && i < |cores|
    modifies cores
    ensures Ready(cores, e)
    ensures View(cores) == TeeWorld.InteractAll(old(View(cores)), i, |cores|, e)
  {
    hide TeeWorld.InteractAll;
    cores[i].TickDeferredCollision(cores, i);
  }

  method TickAll(cores: seq<Core>, inputs: seq<Tee.Input>, e: Tee.Env)
    requires Ready(cores, e) && |inputs| == |cores|
    modifies cores
    ensures View(cores) == TeeWorld.TickAll(old(View(cores)), inputs, |cores|, e)
    ensures Ready(cores, e)
  {
    hide Tee.Tick, TeeWorld.InteractAll, Ready, TeeWorld.Positions;
    ghost var w := View(cores);
    for i := 0 to |cores|
      invariant Ready(cores, e)
      invariant View(cores) == TeeWorld.TickAll(w, inputs, i, e)
    {
      TickOne(cores, i, inputs[i], e);
      InteractOne(cores, i, e);
    }
  }

  method MoveAll(cores: seq<Core>, e: Tee.Env)
    requires Distinct(cores) && SameEnv(cores, e)
    modifies cores
    ensures View(cores) == TeeWorld.MoveAll(old(View(cores)), e)
  {
    hide Tee.Move, Tee.Quantize;
    ghost var w := View(cores);
    for i := 0 to |cores|
      invariant forall k :: 0 <= k < i ==> cores[k].Abs() == Tee.Quantize(Tee.Move(w[k], e))
      invariant forall k :: i <= k < |cores| ==> cores[k].Abs() == w[k]
    {
      cores[i].Move();
      cores[i].Quantize();
    }
    assert View(cores) == TeeWorld.MoveAll(w, e);
  }

  /** WorldStep over distinct cores is the world step on values. */
  method WorldStep(cores: seq<Core>, inputs: seq<Tee.Input>, e: Tee.Env)
    requires Distinct(cores) && SameEnv(cores, e) && |inputs| == |cores|
    modifies cores
    ensures View(cores) == TeeWorld.WorldStep(old(View(cores)), inputs, e)
  {
    hide TeeWorld.TickAll, TeeWorld.MoveAll;
    Introduce(cores, e);
    TickAll(cores, inputs, e);
    MoveAll(cores, e);
  }
}
