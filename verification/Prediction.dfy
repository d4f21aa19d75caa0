/**
 Re-simulation from the acknowledged tick to the predicted one: what the loop over the world does, and
 what it amounts to for the local tee.
 */
module Prediction {
  import opened Wire
  import opened Collision
  import opened InputRing
  import T = Tee
  import opened TeeWorld

  /** What a snapshot says about a character, as far as prediction uses it. */
  datatype Character = Character(x: int, y: int, velX: int, velY: int, direction: int, jumped: int, hookState: int,
                                 hookDx: int, hookDy: int)

  const KEY_ON := 1
  const WEAPON_GRENADE := 4

  function InputToPhysics(p: PlayerInput): T.Input {
    T.Input(p.direction, p.targetX, p.targetY, p.jump == KEY_ON, p.hook == KEY_ON,
            p.fire > 0 && p.fire % 2 == 1 && p.wantedWeapon == WEAPON_GRENADE)
  }

  /** Others keep walking and hooking as they were last seen. */
  function ExtrapolatedInput(ch: Character): T.Input {
    T.Input(ch.direction, ch.hookDx, ch.hookDy, false, ch.hookState == T.HOOK_FLYING || ch.hookState == T.HOOK_GRABBED, false)
  }

  function SeedTee(ch: Character, tun: T.Tuning): T.Tee {
    T.Tee(Vec(ch.x as real, ch.y as real), Vec(ch.velX as real / 256.0, ch.velY as real / 256.0), ch.direction, ch.jumped, 2, 0,
          ch.hookState, Vec(0.0, 0.0), Vec(0.0, 0.0), 0, -1, [], false, tun)
  }

  /** What is shown of a predicted tee. */
  function Shown(t: T.Tee): Character {
    Character(RoundToInt(t.pos.x), RoundToInt(t.pos.y), Truncate(t.vel.x * 256.0), Truncate(t.vel.y * 256.0), t.direction,
              t.jumped, t.hookState, 0, 0)
  }

  /** The tuning of each tile, when the map has tune zones. */
  type Zones = Option<(int, int) -> T.Tuning>

  function Retune(t: T.Tee, zones: Zones): T.Tee {
    if zones.None? then t else t.(tun := zones.value(TileOf(Truncate(t.pos.x)), TileOf(Truncate(t.pos.y))))
  }

  function RetuneAll(w: World, zones: Zones): (w': World)
    ensures |w'| == |w| && forall i :: 0 <= i < |w| ==> w'[i] == Retune(w[i], zones)
  {
    seq(|w|, i requires 0 <= i < |w| => Retune(w[i], zones))
  }

  /** The inputs of a tick: the local one, if there is a local tee, and everybody else's last intent. */
  function Inputs(seeds: seq<Character>, local: int, localIn: T.Input): (ins: seq<T.Input>)
    ensures |ins| == |seeds|
    ensures forall i :: 0 <= i < |seeds| ==> ins[i] == if i == local then localIn else ExtrapolatedInput(seeds[i])
  {
    seq(|seeds|, i requires 0 <= i < |seeds| => if i == local then localIn else ExtrapolatedInput(seeds[i]))
  }

  /** The ring as a function of the tick. */
  type Known = int -> Option<PlayerInput>

  function KnownFrom(log: seq<Record>, size: nat): Known
    requires size > 0
  {
    tick => Lookup(log, size, tick)
  }

  const NO_INPUT := T.Input(0, 0, 0, false, false, false)

  /** The local input that drives a tick; none ends the advance. Without a local tee there is nothing to wait for. */
  function Drive(local: int, known: Known, tick: int): Option<T.Input> {
    if local < 0 then Some(NO_INPUT)
    else if known(tick).None? then None
    else Some(InputToPhysics(known(tick).value))
  }

  /**
   The advance from `tick` on: each tick retunes and steps the whole world; with a local tee (local >= 0) it
   ends at the first tick without an input.
   */
  function Advance(w: World, seeds: seq<Character>, local: int, known: Known, tick: int, predTick: int, zones: Zones,
                   e: T.Env): (w': World)
    requires |seeds| == |w|
    ensures |w'| == |w|
    decreases predTick - tick
  {
    if tick > predTick || Drive(local, known, tick).None? then w
    else
      var ins := Inputs(seeds, local, Drive(local, known, tick).value);
      Advance(WorldStep(RetuneAll(w, zones), ins, e), seeds, local, known, tick + 1, predTick, zones, e)
  }

  // ---------- the local tee alone

  /** The inputs of the longest run of known ticks from `tick` on, up to predTick. */
  function GapFree(known: Known, tick: int, predTick: int): (ins: seq<T.Input>)
    decreases predTick - tick
  {
    if tick > predTick || known(tick).None? then []
    else [InputToPhysics(known(tick).value)] + GapFree(known, tick + 1, predTick)
  }

  /** One step of the tee's own for every input, each after the tuning of its tile. */
  function Steps(t: T.Tee, ins: seq<T.Input>, zones: Zones, e: T.Env): T.Tee
    decreases |ins|
  {
    if ins == [] then t else Steps(T.Step(Retune(t, zones), 0, [], ins[0], e), ins[1..], zones, e)
  }

  /** The input recorded for the tick. */
  predicate Drives(known: Known, tick: int, i: T.Input) {
    known(tick).Some? && i == InputToPhysics(known(tick).value)
  }

  lemma {:induction false} GapFreeIsLongest(known: Known, tick: int, predTick: int)
    ensures var ins := GapFree(known, tick, predTick);
      && (forall k :: 0 <= k < |ins| ==> Drives(known, tick + k, ins[k]))
      && (tick <= predTick ==> tick + |ins| <= predTick + 1)
      && (tick + |ins| <= predTick ==> known(tick + |ins|).None?)
      && (tick > predTick ==> ins == [])
    decreases predTick - tick
  {
    if tick <= predTick && known(tick).Some? {
      GapFreeIsLongest(known, tick + 1, predTick);
      var rest, ins := GapFree(known, tick + 1, predTick), GapFree(known, tick, predTick);
      forall k | 0 <= k < |ins| ensures Drives(known, tick + k, ins[k]) {
        if k > 0 {
          assert ins[k] == rest[k - 1] && tick + k == tick + 1 + (k - 1);
          assert Drives(known, tick + 1 + (k - 1), rest[k - 1]);
        }
      }
    }
  }

  lemma StaysUnhooked(t: T.Tee, i: T.Input, e: T.Env)
    requires t.hookedPlayer == -1
    ensures T.Step(t, 0, [], i, e).hookedPlayer == -1
  {
    hide T.Steer, T.Move, T.Effective, T.Pull, Line, T.Distance, T.Normalize;
    SteerKeepsHook(t, T.Effective(t, i, e), T.Grounded(t, e), e);
    MoveKeepsHook(T.Tick(t, 0, [], i, e), e);
  }

  lemma MoveKeepsHook(t: T.Tee, e: T.Env)
    ensures T.Quantize(T.Move(t, e)).hookedPlayer == t.hookedPlayer
  {
    hide Moved;
  }

  /**
   With antiping off the whole advance is the local tee stepping on its own, once for each input of the
   longest gap-free run of known ticks from the acknowledged one, capped at the predicted tick.
   */
  lemma {:induction false} AdvanceAloneIsSteps(t: T.Tee, seed: Character, known: Known, tick: int, predTick: int,
                        zones: Zones, e: T.Env)
    requires t.hookedPlayer == -1
    ensures Advance([t], [seed], 0, known, tick, predTick, zones, e)
         == [Steps(t, GapFree(known, tick, predTick), zones, e)]
    decreases predTick - tick
  {
    hide T.Step, WorldStep, InputToPhysics;
    if tick <= predTick && known(tick).Some? {
      var i := InputToPhysics(known(tick).value);
      var tuned := Retune(t, zones);
      assert RetuneAll([t], zones) == [tuned];
      assert Inputs([seed], 0, i) == [i];
      WorldOfOne(tuned, i, e);
      StaysUnhooked(tuned, i, e);
      AdvanceAloneIsSteps(T.Step(tuned, 0, [], i, e), seed, known, tick + 1, predTick, zones, e);
      var ins := GapFree(known, tick, predTick);
      assert ins[0] == i && ins[1..] == GapFree(known, tick + 1, predTick);
    }
  }

  /** With all inputs of a span that fits into the ring, and nothing else recorded since, there is no gap. */
  lemma {:induction false} NoGap(log: seq<Record>, size: nat, tick: int, first: int, predTick: int)
    requires 0 < first <= tick <= predTick + 1 && predTick < first + size && size > 0
    requires forall t :: first <= t <= predTick ==> OnlySpanSince(log, t, first, predTick)
    ensures |GapFree(KnownFrom(log, size), tick, predTick)| == predTick + 1 - tick
    decreases predTick - tick
  {
    if tick <= predTick {
      SpanIsKnown(log, size, tick, first, predTick);
      NoGap(log, size, tick + 1, first, predTick);
    }
  }

  lemma InputAt(known: Known, tick: int, predTick: int, k: nat)
    requires k < |GapFree(known, tick, predTick)|
    ensures Drives(known, tick + k, GapFree(known, tick, predTick)[k])
  {
    hide GapFree;
    GapFreeIsLongest(known, tick, predTick);
  }

  /** The input that was last sent for the tick. */
  predicate LastSent(log: seq<Record>, tick: int, i: T.Input) {
    LastFor(log, tick).Some? && i == InputToPhysics(LastFor(log, tick).value)
  }

  /**
   Both together: with antiping off, and all inputs of such a span recorded, the local tee has taken one step
   for every tick up to the predicted one, each with the input that was last sent for that tick.
   */
  lemma LocalReplay(t: T.Tee, seed: Character, log: seq<Record>, size: nat, first: int, tick: int, predTick: int,
                    zones: Zones, e: T.Env) returns (ins: seq<T.Input>)
    requires t.hookedPlayer == -1
    requires 0 < first <= tick <= predTick + 1 && predTick < first + size && size > 0
    requires forall t :: first <= t <= predTick ==> OnlySpanSince(log, t, first, predTick)
    ensures |ins| == predTick + 1 - tick
    ensures forall k :: 0 <= k < |ins| ==> LastSent(log, tick + k, ins[k])
    ensures Advance([t], [seed], 0, KnownFrom(log, size), tick, predTick, zones, e) == [Steps(t, ins, zones, e)]
  {
    hide Lookup, LastFor, Advance, GapFree, Steps, InputToPhysics, OnlySpanSince;
    var known := KnownFrom(log, size);
    ins := GapFree(known, tick, predTick);
    AdvanceAloneIsSteps(t, seed, known, tick, predTick, zones, e);
    NoGap(log, size, tick, first, predTick);
    forall k | 0 <= k < |ins| ensures LastSent(log, tick + k, ins[k]) {
      InputAt(known, tick, predTick, k);
      SpanIsKnown(log, size, tick + k, first, predTick);
    }
  }
}
