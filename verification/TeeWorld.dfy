/**
 A set of tees that step together, and what holds over every run of such a world: nobody ends up in a
 wall, hooks hold valid peers, hooks and jumps need a release in between, one air jump per landing.
 */
module TeeWorld {
  import opened Collision
  import opened Tee

  type World = seq<Tee>

  function Positions(w: World): (ps: seq<Vec>)
    ensures |ps| == |w| && forall i :: 0 <= i < |w| ==> ps[i] == w[i].pos
  {
    seq(|w|, i requires 0 <= i < |w| => w[i].pos)
  }

  // ---------- one world step

  /** Overlapping bodies push each other apart; only the first tee's velocity changes. */
  function Push(c: Tee, o: Vec, e: Env): Vec {
    var dist := Distance(c.pos, o, e);
    if dist >= PHYSICAL_SIZE * 1.25 then c.vel
    else
      var dir := Normalize(Sub(c.pos, o), e);
      var velocity := if e.length(c.vel) > 0.0001 then 1.0 - (Dot(Normalize(c.vel, e), dir) + 1.0) / 2.0 else 0.5;
      Scale(Add(c.vel, Scale(dir, (PHYSICAL_SIZE * 1.45 - dist) * (velocity * 0.75))), 0.85)
  }

  predicate Drags(c: Tee, o: Vec, i: nat, e: Env) {
    c.hookedPlayer == i && Distance(c.pos, o, e) > PHYSICAL_SIZE * 1.5
  }

  /** The longer the hook, the stronger. */
  function DragAccel(c: Tee, o: Vec, e: Env): real
    requires c.tun.hookLength != 0.0
  {
    c.tun.hookDragAccel * (Distance(c.pos, o, e) / c.tun.hookLength)
  }

  /** One axis of a velocity, changed along a direction and up to the drag speed. */
  function DragAxis(vel: real, dir: real, accel: real, factor: real, drag: real): real {
    SaturatedAdd(-drag, drag, vel, accel * dir * factor)
  }

  function DragBy(vel: Vec, dir: Vec, accel: real, factor: real, drag: real): Vec {
    Vec(DragAxis(vel.x, dir.x, accel, factor, drag), DragAxis(vel.y, dir.y, accel, factor, drag))
  }

  /** What a hook adds to a velocity, along the direction from the hooked tee to the hooking one. */
  function Dragged(vel: Vec, c: Tee, o: Vec, factor: real, e: Env): Vec
    requires c.tun.hookLength != 0.0
  {
    DragBy(vel, Normalize(Sub(c.pos, o), e), DragAccel(c, o, e), factor, c.tun.hookDragSpeed)
  }

  /** What tee `a` does to tee `b` and to itself. A hook of length zero never drags. */
  function Interact(w: World, a: nat, b: nat, e: Env): World
    requires a < |w| && b < |w|
  {
    if a == b || Distance(w[a].pos, w[b].pos, e) <= 0.0 then w
    else
      var o := w[b].pos;
      var c := w[a].(vel := Push(w[a], o, e));
      var w' := w[a := c];
      if Drags(c, o, b, e) && c.tun.hookLength != 0.0
      then w'[b := w'[b].(vel := Dragged(w'[b].vel, c, o, 1.5, e))][a := c.(vel := Dragged(c.vel, c, o, -0.25, e))]
      else w'
  }

  function InteractAll(w: World, a: nat, n: nat, e: Env): (w': World)
    requires a < |w| && n <= |w|
    ensures |w'| == |w|
  {
    if n == 0 then w else Interact(InteractAll(w, a, n - 1, e), a, n - 1, e)
  }

  /** The first n tees have ticked and acted on the others, one after the other. */
  function TickAll(w: World, ins: seq<Input>, n: nat, e: Env): (w': World)
    requires |ins| == |w| && n <= |w|
    ensures |w'| == |w|
  {
    if n == 0 then w
    else
      var w1 := TickAll(w, ins, n - 1, e);
      var a := n - 1;
      InteractAll(w1[a := Tick(w1[a], a, Positions(w1), ins[a], e)], a, |w|, e)
  }

  function MoveAll(w: World, e: Env): (w': World)
    ensures |w'| == |w| && forall i :: 0 <= i < |w| ==> w'[i] == Quantize(Move(w[i], e))
  {
    seq(|w|, i requires 0 <= i < |w| => Quantize(Move(w[i], e)))
  }

  function WorldStep(w: World, ins: seq<Input>, e: Env): (w': World)
    requires |ins| == |w|
    ensures |w'| == |w|
  {
    MoveAll(TickAll(w, ins, |w|, e), e)
  }

  // ---------- velocities do not matter to what follows

  predicate SameButVel(t: Tee, u: Tee) {
    t == u.(vel := t.vel)
  }

  lemma JumpIgnoresVel(t: Tee, u: Tee, jump: bool, grounded: bool)
    requires SameButVel(t, u)
    ensures SameButVel(DoJump(t, jump, grounded), DoJump(u, jump, grounded))
  {
    hide Press, UseAirJump, Release, InProgress, AirJumpUsed;
  }

  lemma EdgeIgnoresVel(t: Tee, u: Tee, hook: bool, dir: Vec)
    requires SameButVel(t, u)
    ensures SameButVel(HookEdge(t, hook, dir), HookEdge(u, hook, dir))
  {
  }

  lemma ControlIgnoresVel(t: Tee, u: Tee, direction: int, grounded: bool)
    requires SameButVel(t, u)
    ensures SameButVel(Control(t, direction, grounded), Control(u, direction, grounded))
  {
    hide SaturatedAdd;
  }

  lemma SteerIgnoresVel(t: Tee, u: Tee, i: Input, grounded: bool, e: Env)
    requires SameButVel(t, u)
    ensures SameButVel(Steer(t, i, grounded, e), Steer(u, i, grounded, e))
  {
    hide DoJump, HookEdge, Control, RefreshAirJump, Normalize;
    var dir := Normalize(Vec(i.targetX as real, i.targetY as real), e);
    var t1, u1 := Land(t, grounded), Land(u, grounded);
    var t2 := t1.(vel := Vec(t1.vel.x, t1.vel.y + t1.tun.gravity), direction := i.direction);
    var u2 := u1.(vel := Vec(u1.vel.x, u1.vel.y + u1.tun.gravity), direction := i.direction);
    JumpIgnoresVel(t2, u2, i.jump, grounded);
    var t3, u3 := DoJump(t2, i.jump, grounded), DoJump(u2, i.jump, grounded);
    EdgeIgnoresVel(t3, u3, i.hook, dir);
    ControlIgnoresVel(HookEdge(t3, i.hook, dir), HookEdge(u3, i.hook, dir), i.direction, grounded);
  }

  lemma FlyIgnoresVel(t: Tee, u: Tee, id: int, peers: seq<Vec>, e: Env)
    requires SameButVel(t, u)
    ensures SameButVel(Fly(t, id, peers, e), Fly(u, id, peers, e))
  {
    hide Scan, Line, Distance, Normalize;
    assert Flight(t, e) == Flight(u, e);
    assert FlightHit(t, e) == FlightHit(u, e);
  }

  lemma HookIgnoresVel(t: Tee, u: Tee, id: int, peers: seq<Vec>, e: Env)
    requires SameButVel(t, u)
    ensures SameButVel(TickHook(t, id, peers, e), TickHook(u, id, peers, e))
  {
    hide Fly, Pull, Distance;
    FlyIgnoresVel(t, u, id, peers, e);
  }

  lemma TickIgnoresVel(t: Tee, u: Tee, id: int, peers: seq<Vec>, i: Input, e: Env)
    requires SameButVel(t, u)
    ensures SameButVel(Tick(t, id, peers, i, e), Tick(u, id, peers, i, e))
    ensures Tick(t, id, peers, i, e).pos == t.pos
  {
    hide Steer, TickHook;
    var eff, g := Effective(t, i, e), Grounded(t, e);
    SteerIgnoresVel(t, u, eff, g, e);
    HookIgnoresVel(Steer(t, eff, g, e), Steer(u, eff, g, e), id, peers, e);
    TickKeepsPlace(t, id, peers, eff, g, e);
  }

  lemma TickKeepsPlace(t: Tee, id: int, peers: seq<Vec>, i: Input, grounded: bool, e: Env)
    ensures TickHook(Steer(t, i, grounded, e), id, peers, e).pos == t.pos
  {
    hide Scan, Pull, FlightHit, Distance;
  }

  lemma {:induction false} InteractAllOnlyVel(w: World, a: nat, n: nat, e: Env, i: nat)
    requires a < |w| && n <= |w| && i < |w|
    ensures SameButVel(InteractAll(w, a, n, e)[i], w[i])
  {
    hide Push, Dragged, Drags, Distance;
    if n > 0 {
      InteractAllOnlyVel(w, a, n - 1, e, i);
    }
  }

  /** Up to the velocity, each tee ticks as if alone, with everybody's positions from before the step. */
  lemma {:induction false} TickAllIsTick(w: World, ins: seq<Input>, n: nat, e: Env, i: nat)
    requires |ins| == |w| && n <= |w| && i < |w|
    ensures SameButVel(TickAll(w, ins, n, e)[i], if i < n then Tick(w[i], i, Positions(w), ins[i], e) else w[i])
    ensures Positions(TickAll(w, ins, n, e)) == Positions(w)
    decreases n, 0
  {
    hide Tick, Interact, InteractAll;
    if n > 0 {
      TickAllIsTick(w, ins, n - 1, e, i);
      TickAllIsTick(w, ins, n - 1, e, n - 1);
      var w1, a := TickAll(w, ins, n - 1, e), n - 1;
      TickIgnoresVel(w1[a], w[a], a, Positions(w), ins[a], e);
      var w2 := w1[a := Tick(w1[a], a, Positions(w1), ins[a], e)];
      InteractAllOnlyVel(w2, a, |w|, e, i);
      forall j | 0 <= j < |w| ensures InteractAll(w2, a, |w|, e)[j].pos == w1[j].pos {
        InteractAllOnlyVel(w2, a, |w|, e, j);
      }
    }
  }

  // ---------- without hooks the order does not matter

  /** What a tee without a hooked player does to the world changes its own velocity only. */
  lemma {:induction false} PushingIsPrivate(w: World, a: nat, n: nat, e: Env, i: nat)
    requires a < |w| && n <= |w| && i < |w| && i != a && w[a].hookedPlayer == -1
    ensures InteractAll(w, a, n, e)[i] == w[i]
    ensures InteractAll(w, a, n, e)[a] == w[a].(vel := InteractAll(w, a, n, e)[a].vel)
  {
    hide Push, Dragged, Distance;
    if n > 0 {
      PushingIsPrivate(w, a, n - 1, e, i);
    }
  }

  /** And the change depends on nothing but that tee and the positions of the others. */
  lemma {:induction false} PushingSeesPositions(w: World, v: World, a: nat, n: nat, e: Env)
    requires a < |w| == |v| && n <= |w| && w[a] == v[a] && w[a].hookedPlayer == -1 && Positions(w) == Positions(v)
    ensures InteractAll(w, a, n, e)[a] == InteractAll(v, a, n, e)[a]
  {
    hide Push, Dragged, Distance;
    if n > 0 {
      PushingSeesPositions(w, v, a, n - 1, e);
      var b := n - 1;
      assert Positions(w)[b] == Positions(v)[b];
      InteractAllOnlyVel(w, a, b, e, b);
      InteractAllOnlyVel(v, a, b, e, b);
      InteractAllOnlyVel(w, a, b, e, a);
    }
  }

  /** The tee after its own tick, pushed by the others where they stood before the step. */
  function Alone(w: World, ins: seq<Input>, i: nat, e: Env): Tee
    requires |ins| == |w| && i < |w|
  {
    InteractAll(w[i := Tick(w[i], i, Positions(w), ins[i], e)], i, |w|, e)[i]
  }

  /**
   When no tick leaves anybody hooked, every tee's velocity comes from its own tick and everybody's
   positions before the step, so the order in which the tees take their turns does not matter.
   */
  lemma {:induction false} OrderDoesNotMatter(w: World, ins: seq<Input>, n: nat, e: Env, i: nat)
    requires |ins| == |w| && n <= |w| && i < |w|
    requires forall j :: 0 <= j < |w| ==> Tick(w[j], j, Positions(w), ins[j], e).hookedPlayer == -1
    ensures TickAll(w, ins, n, e)[i] == if i < n then Alone(w, ins, i, e) else w[i]
    decreases n
  {
    hide Tick, Interact, InteractAll;
    if n > 0 {
      var a := n - 1;
      var w1 := TickAll(w, ins, a, e);
      OrderDoesNotMatter(w, ins, a, e, i);
      OrderDoesNotMatter(w, ins, a, e, a);
      TickAllIsTick(w, ins, a, e, i);
      var t := Tick(w[a], a, Positions(w), ins[a], e);
      var w2 := w1[a := t];
      if i == a {
        TickIgnoresVel(w[a], w[a], a, Positions(w), ins[a], e);
        assert Positions(w2) == Positions(w[a := t]) == Positions(w);
        PushingSeesPositions(w2, w[a := t], a, |w|, e);
      } else {
        PushingIsPrivate(w2, a, |w|, e, i);
      }
    }
  }

  /** A tee's part in a world step: a tick of its own, some velocity, and the move. */
  lemma StepOfTee(w: World, ins: seq<Input>, e: Env, i: nat) returns (x: Tee)
    requires |ins| == |w| && i < |w|
    ensures x == TickAll(w, ins, |w|, e)[i] && WorldStep(w, ins, e)[i] == Quantize(Move(x, e))
    ensures SameButVel(x, Tick(w[i], i, Positions(w), ins[i], e)) && x.pos == w[i].pos
  {
    hide Tick, TickAll, Move, Quantize;
    TickAllIsTick(w, ins, |w|, e, i);
    x := TickAll(w, ins, |w|, e)[i];
    assert x.pos == Positions(TickAll(w, ins, |w|, e))[i];
  }

  // ---------- runs

  /** One step, after which the tunings may change (a tee may enter another tune zone). */
  predicate Leads(w: World, ins: seq<Input>, w': World, e: Env) {
    && |ins| == |w| == |w'|
    && forall i :: 0 <= i < |w| ==> w'[i] == WorldStep(w, ins, e)[i].(tun := w'[i].tun)
  }

  ghost predicate IsRun(ws: seq<World>, inss: seq<seq<Input>>, e: Env) {
    |ws| == |inss| + 1 && forall k :: 0 <= k < |inss| ==> Leads(ws[k], inss[k], ws[k + 1], e)
  }

  lemma {:induction false} SameTees(ws: seq<World>, inss: seq<seq<Input>>, e: Env, k: nat)
    requires IsRun(ws, inss, e) && k < |ws|
    ensures |ws[k]| == |ws[0]|
  {
    hide WorldStep;
    if k > 0 {
      SameTees(ws, inss, e, k - 1);
      assert Leads(ws[k - 1], inss[k - 1], ws[k], e);
    }
  }

  // ---------- walls

  predicate Free(t: Tee, e: Env) {
    !TestBox(e.map_, t.pos, PHYSICAL_SIZE, PHYSICAL_SIZE)
  }

  lemma MovedStaysFree(m: Map, pos: Vec, vel: Vec, d: real)
    requires !TestBox(m, pos, PHYSICAL_SIZE, PHYSICAL_SIZE)
    ensures !TestBox(m, Moved(m, pos, vel, PHYSICAL_SIZE, PHYSICAL_SIZE, d).p, PHYSICAL_SIZE, PHYSICAL_SIZE)
  {
    hide Moved, TestBox;
    MoveIsSafe(m, pos, vel, PHYSICAL_SIZE, PHYSICAL_SIZE, d);
  }

  lemma MoveStaysFree(x: Tee, e: Env)
    requires Free(x, e)
    ensures Free(Quantize(Move(x, e)), e)
  {
    hide TestBox, Moved, Rounded, Ramped;
    MovedStaysFree(e.map_, x.pos, Ramped(x, e), e.length(Ramped(x, e)));
    RoundedStaysFree(e.map_, MoveEnd(x, e).p);
  }

  /** On any map, in every run, a tee that starts outside the walls never gets into one. */
  lemma {:induction false} NobodyEntersWalls(ws: seq<World>, inss: seq<seq<Input>>, e: Env, k: nat, i: nat)
    requires IsRun(ws, inss, e) && k < |ws| && i < |ws[0]| && Free(ws[0][i], e)
    ensures i < |ws[k]| && Free(ws[k][i], e)
  {
    hide WorldStep, TestBox, Move, Quantize, Tick, TickAll;
    SameTees(ws, inss, e, k);
    if k > 0 {
      NobodyEntersWalls(ws, inss, e, k - 1, i);
      var x := StepOfTee(ws[k - 1], inss[k - 1], e, i);
      MoveStaysFree(x, e);
      assert Leads(ws[k - 1], inss[k - 1], ws[k], e);
    }
  }

  // ---------- hooks

  /** A tee that has hooked somebody has a grabbing hook, and that somebody is another tee of the world. */
  predicate HookOk(t: Tee, id: nat, n: nat) {
    t.hookedPlayer != -1 ==> t.hookState == HOOK_GRABBED && 0 <= t.hookedPlayer < n && t.hookedPlayer != id
  }

  lemma {:induction false} ScanFindsOther(g: Grab, from: Vec, to: Vec, peers: seq<Vec>, id: int, n: nat, e: Env)
    requires n <= |peers| && g == Grab(-1, 0.0, false)
    ensures var s := Scan(g, from, to, peers, id, n, e);
      (s.grabbed <==> s.player != -1) && (s.grabbed ==> 0 <= s.player < n && s.player != id)
  {
    hide InReach, Distance;
    if n > 0 {
      ScanFindsOther(g, from, to, peers, id, n - 1, e);
    }
  }

  lemma SteerKeepsHook(t: Tee, i: Input, grounded: bool, e: Env)
    ensures var t1 := Steer(t, i, grounded, e);
      && (!i.hook ==> t1.hookState == HOOK_IDLE && t1.hookedPlayer == -1)
      && (i.hook ==> t1.hookedPlayer == t.hookedPlayer)
      && (i.hook ==> t1.hookState == if t.hookState == HOOK_IDLE then HOOK_FLYING else t.hookState)
    ensures Steer(t, i, grounded, e).jumps == t.jumps
    ensures Steer(t, i, grounded, e).jumped == DoJump(Land(t, grounded), i.jump, grounded).jumped
  {
  }

  lemma HookKeepsHookOk(t: Tee, id: nat, peers: seq<Vec>, e: Env)
    requires id < |peers| && HookOk(t, id, |peers|)
    ensures HookOk(TickHook(t, id, peers, e), id, |peers|)
  {
    hide Scan, Pull, Line, Distance, Normalize;
    if t.hookState == HOOK_FLYING {
      ScanFindsOther(Grab(-1, 0.0, false), t.hookPos, Clipped(t, e), peers, id, |peers|, e);
    }
  }

  lemma TickKeepsHookOk(t: Tee, id: nat, peers: seq<Vec>, i: Input, e: Env)
    requires id < |peers| && HookOk(t, id, |peers|)
    ensures HookOk(Tick(t, id, peers, i, e), id, |peers|)
  {
    hide Steer, TickHook;
    var eff, g := Effective(t, i, e), Grounded(t, e);
    SteerKeepsHook(t, eff, g, e);
    HookKeepsHookOk(Steer(t, eff, g, e), id, peers, e);
  }

  /** In every run that starts with nobody hooked, every hooked player is grabbed and is somebody else. */
  lemma {:induction false} HooksHoldOthers(ws: seq<World>, inss: seq<seq<Input>>, e: Env, k: nat, i: nat)
    requires IsRun(ws, inss, e) && k < |ws| && i < |ws[0]| && ws[0][i].hookedPlayer == -1
    ensures i < |ws[k]| && HookOk(ws[k][i], i, |ws[k]|)
  {
    hide WorldStep, Tick, TickAll;
    SameTees(ws, inss, e, k);
    if k > 0 {
      HooksHoldOthers(ws, inss, e, k - 1, i);
      var w := ws[k - 1];
      var x := StepOfTee(w, inss[k - 1], e, i);
      TickKeepsHookOk(w[i], i, Positions(w), inss[k - 1][i], e);
      assert Leads(w, inss[k - 1], ws[k], e);
    }
  }

  lemma {:induction false} ScanFindsNearest(g: Grab, from: Vec, to: Vec, peers: seq<Vec>, id: int, n: nat, e: Env)
    requires n <= |peers| && g == Grab(-1, 0.0, false)
    ensures var s := Scan(g, from, to, peers, id, n, e);
      && (s.player == -1 <==> forall j :: 0 <= j < n && j != id ==> !InReach(from, to, peers[j], e))
      && (s.player != -1 ==> 0 <= s.player < n && s.player != id && InReach(from, to, peers[s.player], e))
      && (s.player != -1 ==> s.dist == Distance(from, peers[s.player], e))
      && (s.player != -1 ==> forall j :: 0 <= j < n && j != id && InReach(from, to, peers[j], e) ==>
        s.dist <= Distance(from, peers[j], e))
  {
    hide InReach, Distance;
    if n > 0 {
      ScanFindsNearest(g, from, to, peers, id, n - 1, e);
    }
  }

  /**
   A flying hook grabs a player exactly when some other tee lies at its clipped segment, and then one that
   none of these is nearer to the hook than.
   */
  lemma FlyingHookGrabsNearest(t: Tee, id: nat, peers: seq<Vec>, e: Env)
    requires t.hookState == HOOK_FLYING && t.hookedPlayer == -1
    ensures var to, p := Clipped(t, e), TickHook(t, id, peers, e).hookedPlayer;
      && (p == -1 <==> forall j :: 0 <= j < |peers| && j != id ==> !InReach(t.hookPos, to, peers[j], e))
      && (p != -1 ==> 0 <= p < |peers| && p != id && InReach(t.hookPos, to, peers[p], e))
      && (p != -1 ==> TickHook(t, id, peers, e).hookPos == peers[p])
      && (p != -1 ==> forall j :: 0 <= j < |peers| && j != id && InReach(t.hookPos, to, peers[j], e) ==>
        Distance(t.hookPos, peers[p], e) <= Distance(t.hookPos, peers[j], e))
  {
    hide Scan, InReach, Distance, Pull, Line, Normalize;
    ScanFindsNearest(Grab(-1, 0.0, false), t.hookPos, Clipped(t, e), peers, id, |peers|, e);
    ScanFindsOther(Grab(-1, 0.0, false), t.hookPos, Clipped(t, e), peers, id, |peers|, e);
  }

  /** The tick shoots the hook. */
  predicate Launches(t: Tee, i: Input, e: Env) {
    Effective(t, i, e).hook && t.hookState == HOOK_IDLE
  }

  lemma HeldHookIsOut(t: Tee, id: nat, peers: seq<Vec>, i: Input, e: Env)
    requires Effective(t, i, e).hook
    ensures Tick(t, id, peers, i, e).hookState != HOOK_IDLE
  {
    hide Scan, Pull, Line, Distance, Normalize, Steer;
    SteerKeepsHook(t, Effective(t, i, e), Grounded(t, e), e);
  }

  /** As long as the key is held the hook does not become idle again. */
  lemma {:induction false} HeldHookStaysOut(ws: seq<World>, inss: seq<seq<Input>>, e: Env, i: nat, j: nat, k: nat)
    requires IsRun(ws, inss, e) && j < k < |ws| && i < |ws[0]|
    requires forall m :: 0 <= m < |ws| ==> |ws[m]| == |ws[0]|
    requires forall m :: 0 <= m < |inss| ==> |inss[m]| == |ws[0]|
    requires forall m :: j <= m < k ==> Effective(ws[m][i], inss[m][i], e).hook
    ensures ws[k][i].hookState != HOOK_IDLE
  {
    hide WorldStep, Tick, TickAll, Effective;
    var w := ws[k - 1];
    assert Leads(w, inss[k - 1], ws[k], e);
    var x := StepOfTee(w, inss[k - 1], e, i);
    HeldHookIsOut(w[i], i, Positions(w), inss[k - 1][i], e);
  }

  predicate HookReleased(w: World, ins: seq<Input>, i: nat, e: Env) {
    i < |w| == |ins| && !Effective(w[i], ins[i], e).hook
  }

  /** Between two launches of a tee its hook was released. */
  lemma LaunchesNeedRelease(ws: seq<World>, inss: seq<seq<Input>>, e: Env, i: nat, j: nat, k: nat)
    requires IsRun(ws, inss, e) && j < k < |inss| && i < |ws[0]|
    requires |ws[j]| == |inss[j]| == |ws[k]| == |inss[k]| == |ws[0]|
    requires Launches(ws[j][i], inss[j][i], e) && Launches(ws[k][i], inss[k][i], e)
    ensures exists m :: j < m < k && HookReleased(ws[m], inss[m], i, e)
  {
    hide Effective, WorldStep;
    forall m | 0 <= m < |ws| ensures |ws[m]| == |ws[0]| && (m < |inss| ==> |inss[m]| == |ws[0]|) {
      SameTees(ws, inss, e, m);
      assert m < |inss| ==> Leads(ws[m], inss[m], ws[m + 1], e);
    }
    if forall m :: j < m < k ==> !HookReleased(ws[m], inss[m], i, e) {
      HeldHookStaysOut(ws, inss, e, i, j, k);
      assert false;
    }
  }

  // ---------- jumps

  function JumpAt(t: Tee, i: Input, e: Env): Jump {
    JumpOf(Land(t, Grounded(t, e)), Effective(t, i, e).jump, Grounded(t, e))
  }

  /**
   A tick jumps exactly when the key is down, no jump is in progress, and there is ground below or an air
   jump left. So a key that was pressed in vain still jumps on landing.
   */
  lemma JumpsIff(t: Tee, i: Input, e: Env)
    ensures !JumpAt(t, i, e).NoJump? <==>
      Effective(t, i, e).jump && !InProgress(t.jumped) && (Grounded(t, e) || !AirJumpUsed(t.jumped))
    ensures JumpAt(t, i, e).GroundJump? ==> Grounded(t, e)
    ensures JumpAt(t, i, e).AirJump? ==> !AirJumpUsed(t.jumped) && !Grounded(t, e)
  {
    hide Grounded, Effective;
    JumpBits(t.jumped);
  }

  /** The length of a vector along an axis; no others are measured below. */
  function AxisLength(v: Vec): Length {
    (if v.x < 0.0 then -v.x else v.x) + (if v.y < 0.0 then -v.y else v.y)
  }

  lemma AxisLengthIs(v: Vec)
    requires v.x == 0.0 || v.y == 0.0
    ensures AxisLength(v) * AxisLength(v) == Dot(v, v)
  {
  }

  /** A floor at height 32, and nothing that changes a velocity. */
  function FloorBelow(): Env {
    Env(Map((x, y) => y >= 1, (x, y) => false, (x, y) => false, (x, y) => false), false, false,
        AxisLength, (a, b, c, d) => 1.0, (p, grenades, tun) => (Vec(0.0, 0.0), grenades))
  }

  /** Just above the floor, falling, with the air jump used up. */
  function Falling(): Tee {
    var still := Tuning(0.0, 0.0, 0.0, 1.0, 0.0, 0.0, 1.0, 13.0, 12.0, 380.0, 80.0, 3.0, 15.0, 550.0, 2000.0, 1.0);
    Tee(Vec(0.0, 12.0), Vec(0.0, 1.0), 0, 2, 2, 1, HOOK_IDLE, Vec(0.0, 12.0), Vec(0.0, 0.0), 0, -1, [], false, still)
  }

  /** The key goes down in the air, to no effect, stays down, and the tee jumps a tick later, on the ground. */
  lemma VainPressExample()
    ensures var e, press := FloorBelow(), Input(0, 0, 0, true, false, false);
      var w' := WorldStep([Falling()], [press], e);
      && JumpAt(Falling(), press, e).NoJump? && JumpAt(w'[0], press, e).GroundJump?
      && e.length(Falling().vel) * e.length(Falling().vel) == Dot(Falling().vel, Falling().vel)
  {
    hide WorldStep, Step, Flight, Scan, Pull, Line;
    var e, press, t := FloorBelow(), Input(0, 0, 0, true, false, false), Falling();
    WorldOfOne(t, press, e);
    StepOfFalling();
    AxisLengthIs(t.vel);
    assert !Grounded(t, e) && Grounded(Step(t, 0, [], press, e), e);
  }

  lemma StepOfFalling()
    ensures Step(Falling(), 0, [], Input(0, 0, 0, true, false, false), FloorBelow()) == Falling().(pos := Vec(0.0, 13.0))
  {
    hide Tick, Move;
    TickOfFalling();
    MoveOfFalling();
  }

  lemma TickOfFalling()
    ensures Tick(Falling(), 0, [], Input(0, 0, 0, true, false, false), FloorBelow()) == Falling()
  {
    hide Steer, Shoot, TickHook;
    SteerOfFalling();
    HookOfFalling();
    ShootOfFalling();
  }

  lemma SteerOfFalling()
    ensures Steer(Falling(), Input(0, 0, 0, true, false, false), false, FloorBelow()) == Falling()
  {
    hide Normalize, FloorBelow;
    var t := Falling();
    assert DoJump(t, true, false) == t;
    assert Control(t, 0, false) == t;
  }

  lemma HookOfFalling()
    ensures TickHook(Falling(), 0, [], FloorBelow()) == Falling()
  {
    hide Fly, Pull, FloorBelow;
  }

  lemma ShootOfFalling()
    ensures Shoot(Falling(), Input(0, 0, 0, true, false, false), FloorBelow()) == Falling()
  {
    hide Normalize, AxisLength, Fire, ClampSpeed;
    var e := FloorBelow();
    FireOfFalling(Normalize(Vec(0.0, 0.0), e));
    ClampOfFalling();
  }

  lemma FireOfFalling(d: Vec)
    ensures Fire(Falling(), false, d, FloorBelow()) == Falling()
  {
    hide AxisLength;
  }

  lemma ClampOfFalling()
    ensures ClampSpeed(Falling(), FloorBelow()) == Falling()
  {
    hide Normalize;
    assert FloorBelow().length(Falling().vel) == 1.0;
  }

  lemma MoveOfFalling()
    ensures Move(Falling(), FloorBelow()) == Falling().(pos := Vec(0.0, 13.0))
  {
    hide SubStep;
    var e, t := FloorBelow(), Falling();
    var b := Body(t.pos, t.vel, false);
    assert Ramped(t, e) == t.vel && e.length(t.vel) == 1.0 && StepCount(1.0) == 2;
    assert SubSteps(e.map_, b, 0.5, PHYSICAL_SIZE, PHYSICAL_SIZE, 0) == b;
    HalfStep(12.0);
    HalfStep(12.5);
    assert SubSteps(e.map_, b, 0.5, PHYSICAL_SIZE, PHYSICAL_SIZE, 1) == Body(Vec(0.0, 12.5), t.vel, false);
  }

  lemma HalfStep(y: real)
    requires 12.0 <= y <= 12.5
    ensures SubStep(FloorBelow().map_, Body(Vec(0.0, y), Vec(0.0, 1.0), false), 0.5, PHYSICAL_SIZE, PHYSICAL_SIZE)
      == Body(Vec(0.0, y + 0.5), Vec(0.0, 1.0), false)
  {
  }

  /** The move of the tick was stopped from below. */
  predicate Lands(w: World, ins: seq<Input>, i: nat, e: Env) {
    i < |w| == |ins| && MoveEnd(TickAll(w, ins, |w|, e)[i], e).grounded
  }

  /** What a world step makes of a tee's jump bits. */
  lemma JumpedAfter(w: World, ins: seq<Input>, w': World, e: Env, i: nat)
    requires Leads(w, ins, w', e) && i < |w|
    ensures var g := Grounded(w[i], e);
      var ticked := DoJump(Land(w[i], g), Effective(w[i], ins[i], e).jump, g).jumped;
      w'[i].jumped == if Lands(w, ins, i, e) then RefreshAirJump(ticked) else ticked
  {
    hide TickAll, MoveEnd, Steer, WorldStep, DoJump, Effective, Grounded, RefreshAirJump;
    var x := StepOfTee(w, ins, e, i);
    TickJumps(w[i], i, Positions(w), ins[i], e);
  }

  lemma TickJumps(t: Tee, id: nat, peers: seq<Vec>, i: Input, e: Env)
    ensures var g := Grounded(t, e);
      Tick(t, id, peers, i, e).jumped == DoJump(Land(t, g), Effective(t, i, e).jump, g).jumped
  {
    hide Steer, Scan, Pull, Line, DoJump, Effective, Grounded, Land, Distance, Normalize, Clipped, Flight;
    SteerKeepsHook(t, Effective(t, i, e), Grounded(t, e), e);
  }

  lemma BitsAfter(w: World, ins: seq<Input>, w': World, e: Env, i: nat)
    requires Leads(w, ins, w', e) && i < |w|
    ensures var jump := JumpAt(w[i], ins[i], e);
      && (!jump.NoJump? ==> InProgress(w'[i].jumped))
      && (Effective(w[i], ins[i], e).jump && InProgress(w[i].jumped) ==> InProgress(w'[i].jumped))
      && (jump.AirJump? && !Lands(w, ins, i, e) ==> AirJumpUsed(w'[i].jumped))
      && (AirJumpUsed(w[i].jumped) && !Grounded(w[i], e) && !Lands(w, ins, i, e) ==> AirJumpUsed(w'[i].jumped))
  {
    hide WorldStep, Lands, Grounded, Effective, Press, UseAirJump, Release, RefreshAirJump, InProgress, AirJumpUsed;
    JumpedAfter(w, ins, w', e, i);
    var g := Grounded(w[i], e);
    var j := Land(w[i], g).jumped;
    JumpBits(w[i].jumped);
    JumpBits(j);
    JumpBits(DoJump(Land(w[i], g), Effective(w[i], ins[i], e).jump, g).jumped);
  }

  predicate JumpReleased(w: World, ins: seq<Input>, i: nat, e: Env) {
    i < |w| == |ins| && !Effective(w[i], ins[i], e).jump
  }

  lemma {:induction false} HeldJumpStaysInProgress(ws: seq<World>, inss: seq<seq<Input>>, e: Env, i: nat, j: nat, k: nat)
    requires IsRun(ws, inss, e) && j < k < |ws| && i < |ws[0]| && i < |ws[j]| == |inss[j]|
    requires !JumpAt(ws[j][i], inss[j][i], e).NoJump?
    requires forall m :: j < m < k ==> !JumpReleased(ws[m], inss[m], i, e)
    ensures i < |ws[k]| && InProgress(ws[k][i].jumped)
  {
    hide WorldStep, Effective, JumpAt, InProgress;
    SameTees(ws, inss, e, k - 1);
    assert Leads(ws[k - 1], inss[k - 1], ws[k], e);
    if j < k - 1 {
      HeldJumpStaysInProgress(ws, inss, e, i, j, k - 1);
      assert !JumpReleased(ws[k - 1], inss[k - 1], i, e);
    }
    BitsAfter(ws[k - 1], inss[k - 1], ws[k], e, i);
  }

  /** Between two jumps of a tee its jump key was released: a jump that was made is never made again by holding. */
  lemma JumpsNeedRelease(ws: seq<World>, inss: seq<seq<Input>>, e: Env, i: nat, j: nat, k: nat)
    requires IsRun(ws, inss, e) && j < k < |inss| && i < |ws[0]|
    requires |ws[j]| == |inss[j]| == |ws[k]| == |inss[k]| == |ws[0]|
    requires !JumpAt(ws[j][i], inss[j][i], e).NoJump? && !JumpAt(ws[k][i], inss[k][i], e).NoJump?
    ensures exists m :: j < m < k && JumpReleased(ws[m], inss[m], i, e)
  {
    hide JumpAt, WorldStep, Effective;
    if forall m :: j < m < k ==> !JumpReleased(ws[m], inss[m], i, e) {
      HeldJumpStaysInProgress(ws, inss, e, i, j, k);
      JumpsIff(ws[k][i], inss[k][i], e);
      assert false;
    }
  }

  /** The tee has ground below it at the start of the tick, or the move before that was stopped from below. */
  predicate OnGround(ws: seq<World>, inss: seq<seq<Input>>, i: nat, m: nat, e: Env) {
    0 < m < |ws| && m <= |inss| && i < |ws[m]| && (Grounded(ws[m][i], e) || Lands(ws[m - 1], inss[m - 1], i, e))
  }

  lemma {:induction false} AirJumpStaysUsed(ws: seq<World>, inss: seq<seq<Input>>, e: Env, i: nat, j: nat, k: nat)
    requires IsRun(ws, inss, e) && j < k < |ws| && i < |ws[0]| && i < |ws[j]| == |inss[j]|
    requires JumpAt(ws[j][i], inss[j][i], e).AirJump?
    requires forall m :: j < m <= k ==> !OnGround(ws, inss, i, m, e)
    ensures i < |ws[k]| && AirJumpUsed(ws[k][i].jumped)
  {
    hide WorldStep, Effective, JumpAt, AirJumpUsed, Lands, Grounded;
    SameTees(ws, inss, e, k - 1);
    SameTees(ws, inss, e, k);
    assert Leads(ws[k - 1], inss[k - 1], ws[k], e);
    assert !OnGround(ws, inss, i, k, e);
    if j < k - 1 {
      AirJumpStaysUsed(ws, inss, e, i, j, k - 1);
      assert !OnGround(ws, inss, i, k - 1, e);
    }
    BitsAfter(ws[k - 1], inss[k - 1], ws[k], e, i);
  }

  /** Between two air jumps a tee has been on the ground. */
  lemma AirJumpsNeedGround(ws: seq<World>, inss: seq<seq<Input>>, e: Env, i: nat, j: nat, k: nat)
    requires IsRun(ws, inss, e) && j < k < |inss| && i < |ws[0]|
    requires |ws[j]| == |inss[j]| == |ws[k]| == |inss[k]| == |ws[0]|
    requires JumpAt(ws[j][i], inss[j][i], e).AirJump? && JumpAt(ws[k][i], inss[k][i], e).AirJump?
    ensures exists m :: j < m <= k && OnGround(ws, inss, i, m, e)
  {
    hide JumpAt, WorldStep, OnGround;
    if forall m :: j < m <= k ==> !OnGround(ws, inss, i, m, e) {
      AirJumpStaysUsed(ws, inss, e, i, j, k);
      JumpsIff(ws[k][i], inss[k][i], e);
      assert false;
    }
  }

  // ---------- a world of one

  lemma AloneInWorld(t: Tee, p: Vec, e: Env)
    requires t.hookedPlayer == -1
    ensures TickHook(t, 0, [p], e) == TickHook(t, 0, [], e)
  {
    hide Pull, Line, Distance, Normalize, InReach;
    var g := Grab(-1, 0.0, false);
    assert Scan(g, t.hookPos, Clipped(t, e), [p], 0, 1, e) == Scan(g, t.hookPos, Clipped(t, e), [p], 0, 0, e);
  }

  /** A world step of a single tee is that tee's own step. */
  lemma WorldOfOne(t: Tee, i: Input, e: Env)
    requires t.hookedPlayer == -1
    ensures WorldStep([t], [i], e) == [Step(t, 0, [], i, e)]
  {
    hide Steer, TickHook, Shoot, Move, Quantize, Effective;
    SteerKeepsHook(t, Effective(t, i, e), Grounded(t, e), e);
    AloneInWorld(Steer(t, Effective(t, i, e), Grounded(t, e), e), t.pos, e);
    assert Positions([t]) == [t.pos];
    var ticked := Tick(t, 0, [t.pos], i, e);
    assert TickAll([t], [i], 0, e) == [t];
    assert [t][0 := ticked] == [ticked];
    assert InteractAll([ticked], 0, 1, e) == InteractAll([ticked], 0, 0, e);
    assert TickAll([t], [i], 1, e) == [ticked];
  }
}
