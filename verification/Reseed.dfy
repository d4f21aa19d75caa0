/**
 How the prediction meets the snapshots: what a tee that is seeded from a character shows, what a tee keeps when it
 is shown and seeded again, and what the keys of a player, or the last that was seen of one, make a tee do.
 */
module Reseed {
  import opened Wire
  import opened Collision
  import opened InputRing
  import T = Tee
  import TeeLaws
  import opened Prediction

  lemma TruncateOfInteger(n: int)
    ensures Truncate(n as real) == n
  {
  }

  lemma GridOfInteger(n: int)
    ensures n as real / 256.0 * 256.0 == n as real
  {
  }

  lemma GridOfGrid(r: real)
    requires r * 256.0 == (r * 256.0).Floor as real
    ensures Truncate(r * 256.0) as real / 256.0 == r
  {
    TruncateOfInteger((r * 256.0).Floor);
  }

  /** A freshly seeded tee is shown as the character it was seeded from, without the direction of its hook. */
  lemma ShownAsSeeded(ch: Character, tun: T.Tuning)
    ensures Shown(SeedTee(ch, tun)) == ch.(hookDx := 0, hookDy := 0)
  {
    hide RoundToInt, Truncate;
    RoundOfInteger(ch.x);
    RoundOfInteger(ch.y);
    GridOfInteger(ch.velX);
    GridOfInteger(ch.velY);
    TruncateOfInteger(ch.velX);
    TruncateOfInteger(ch.velY);
  }

  /**
   A tee that has stepped, shown and seeded again, keeps its place, velocity, direction, jumps and hook state, and
   forgets the rest: where its hook is and whom it holds, its grenades, and how many jumps it has.
   */
  lemma SeededAsShown(t: T.Tee)
    ensures var q := T.Quantize(t);
      SeedTee(Shown(q), t.tun)
      == q.(jumps := 2, jumpedTotal := 0, hookPos := Vec(0.0, 0.0), hookDir := Vec(0.0, 0.0), hookTick := 0,
            hookedPlayer := -1, grenades := [], prevFire := false)
  {
    hide T.Quantize, RoundToInt, Truncate;
    TeeLaws.QuantizesNearby(t);
    var q := T.Quantize(t);
    RoundOfInteger(q.pos.x.Floor);
    RoundOfInteger(q.pos.y.Floor);
    GridOfGrid(q.vel.x);
    GridOfGrid(q.vel.y);
  }

  /** The keys: a positive fire count is a pressed key when it is odd, and only the grenade launcher counts. */
  lemma KeysExample()
    ensures InputToPhysics(PlayerInput(-1, 10, -20, 1, 0, 3, 4)) == T.Input(-1, 10, -20, true, false, true)
    ensures InputToPhysics(PlayerInput(1, 30, 40, 0, 1, 2, 4)) == T.Input(1, 30, 40, false, true, false)
    ensures !InputToPhysics(PlayerInput(0, 0, 0, 0, 0, 3, 3)).fireGrenade
    ensures !InputToPhysics(PlayerInput(0, 0, 0, 0, 0, -3, 4)).fireGrenade
    ensures !InputToPhysics(PlayerInput(0, 0, 0, 2, 2, 0, 0)).jump
    ensures !InputToPhysics(PlayerInput(0, 0, 0, 2, 2, 0, 0)).hook
  {
  }

  /**
   A player whose keys are not known keeps walking the same way, does not jump and fires nothing; a hook that flies
   or holds is kept, an idle one is not launched, and a hook on its way back is taken in.
   */
  lemma HoldsCourse(ch: Character, tun: T.Tuning, grounded: bool, e: T.Env)
    ensures var t, i := SeedTee(ch, tun), ExtrapolatedInput(ch);
      var s := T.Steer(t, i, grounded, e);
      && s.direction == ch.direction && T.JumpOf(T.Land(t, grounded), i.jump, grounded) == T.NoJump && !i.fireGrenade
      && s.hookState == (if ch.hookState == 4 || ch.hookState == 5 then ch.hookState else 0)
      && (TeeLaws.Sane(tun) && ch.direction > 0 ==> s.vel.x >= t.vel.x)
      && (TeeLaws.Sane(tun) && ch.direction < 0 ==> s.vel.x <= t.vel.x)
  {
    hide T.Steer, T.Land;
    var t, i := SeedTee(ch, tun), ExtrapolatedInput(ch);
    HookStateOfSteer(t, i, grounded, e);
    if TeeLaws.Sane(tun) {
      TeeLaws.KeysMove(t, i, grounded, e);
    }
  }

  lemma HookStateOfSteer(t: T.Tee, i: T.Input, grounded: bool, e: T.Env)
    ensures T.Steer(t, i, grounded, e).hookState == T.HookEdge(t, i.hook, Vec(0.0, 0.0)).hookState
    ensures T.Steer(t, i, grounded, e).direction == i.direction
  {
    hide T.SaturatedAdd, T.Normalize, T.RefreshAirJump;
  }

  /** A tee gets the tuning of the tile that its position lies in, without rounding, and nothing else changes. */
  lemma RetunesByTile(t: T.Tee, zones: Zones, i: int, j: int)
    requires i >= 0 && j >= 0 && 32.0 * i as real <= t.pos.x < 32.0 * i as real + 32.0
    requires 32.0 * j as real <= t.pos.y < 32.0 * j as real + 32.0
    ensures Retune(t, zones) == if zones.None? then t else t.(tun := zones.value(i, j))
  {
    TileIs(t.pos.x.Floor);
    TileIs(t.pos.y.Floor);
    assert 32 * i <= t.pos.x.Floor < 32 * i + 32 && 32 * j <= t.pos.y.Floor < 32 * j + 32;
  }
}
