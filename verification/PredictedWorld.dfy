/** The predicted world as an object: a core per character, seeded from a snapshot and ticked forward. */
module PredictedWorld {
  import opened Wire
  import opened Collision
  import opened InputRing
  import T = Tee
  import TeeWorld
  import opened Core
  import opened Prediction

  predicate Ascending(cids: seq<int>) {
    forall i, j :: 0 <= i < j < |cids| ==> cids[i] < cids[j]
  }

  /** sort.Ints over a set of client ids. */
  method Sorted(ids: set<int>) returns (cids: seq<int>)
    ensures Ascending(cids) && forall c :: c in cids <==> c in ids
    ensures forall i :: 0 <= i < |cids| ==> cids[i] in ids
  {
    cids := [];
    var todo := ids;
    while todo != {}
      invariant todo <= ids && Ascending(cids)
      invariant forall c :: c in ids <==> c in todo || c in cids
      invariant forall i :: 0 <= i < |cids| ==> cids[i] in ids
      invariant forall i, c :: 0 <= i < |cids| && c in todo ==> cids[i] < c
    {
      var least := Least(todo);
      todo := todo - {least};
      cids := cids + [least];
    }
  }

  method Least(ids: set<int>) returns (least: int)
    requires ids != {}
    ensures least in ids && forall c :: c in ids ==> least <= c
  {
    SomeMember(ids);
    least :| least in ids;
    var todo := ids - {least};
    while todo != {}
      invariant least in ids && todo <= ids
      invariant forall c :: c in ids && c !in todo ==> least <= c
    {
      SomeMember(todo);
      var c :| c in todo;
      if c < least {
        least := c;
      }
      todo := todo - {c};
    }
  }

  ghost predicate DistinctValues(cores: map<int, Core>) {
    forall c, d :: c in cores && d in cores && c != d ==> cores[c] != cores[d]
  }

  class PredictedWorld {
    const e: T.Env
    var cores: map<int, Core>
    var seed: map<int, Character>
    var baseTick: int
    var zones: Zones

    /** newPredictedWorld: one seeded core for every character. */
    constructor (e: T.Env, tun: T.Tuning, baseTick: int, chars: map<int, Character>, zones: Zones)
      ensures Valid() && this.e == e && seed == chars && this.baseTick == baseTick && this.zones == zones
      ensures forall c :: c in cores ==> fresh(cores[c]) && cores[c].Abs() == SeedTee(chars[c], tun)
    {
      this.e, seed, this.baseTick, this.zones := e, chars, baseTick, zones;
      cores := map[];
      new;
      var todo: set<int> := chars.Keys;
      while todo != {}
        invariant seed == chars && this.baseTick == baseTick && this.zones == zones
        invariant todo <= chars.Keys && cores.Keys == chars.Keys - todo && DistinctValues(cores)
        invariant forall c :: c in cores ==>
          fresh(cores[c]) && cores[c].e == e && cores[c].Abs() == SeedTee(chars[c], tun)
      {
        SomeMember(todo);
        var cid :| cid in todo;
        var core := SeedCore(e, tun, chars[cid]);
        cores := cores[cid := core];
        todo := todo - {cid};
      }
    }

    ghost predicate Valid()
      reads this
    {
      cores.Keys == seed.Keys && DistinctValues(cores) && forall c :: c in cores ==> cores[c].e == e
    }

    method OrderedCids(localCid: int, antiping: bool) returns (cids: seq<int>)
      ensures Ascending(cids)
      ensures forall c :: c in cids <==> c in cores && (antiping || c == localCid)
      ensures forall i :: 0 <= i < |cids| ==> cids[i] in cores
    {
      if !antiping {
        return if localCid in cores then [localCid] else [];
      }
      cids := Sorted(cores.Keys);
    }

    method Chosen(cids: seq<int>, localCid: int) returns (chosen: seq<Core>, seeds: seq<Character>, local: int)
      requires Valid() && Ascending(cids) && forall i :: 0 <= i < |cids| ==> cids[i] in cores
      ensures Chose(cids, chosen, seeds) && Distinct(chosen) && SameEnv(chosen, e)
      ensures local == -1 ==> localCid !in cids
      ensures local != -1 ==> 0 <= local < |cids| && cids[local] == localCid
    {
      chosen, seeds, local := [], [], -1;
      for i := 0 to |cids|
        invariant |chosen| == |seeds| == i
        invariant forall j :: 0 <= j < i ==> chosen[j] == cores[cids[j]] && seeds[j] == seed[cids[j]]
        invariant local == -1 ==> localCid !in cids[..i]
        invariant local != -1 ==> 0 <= local < i && cids[local] == localCid
      {
        chosen, seeds := chosen + [cores[cids[i]]], seeds + [seed[cids[i]]];
        if cids[i] == localCid {
          local := i;
        }
      }
    }

    /**
     advance: the chosen characters, in the order of their ids, are advanced together; all others stay as
     they were seeded. A snapshot from before tick -1 makes it panic, unless nothing has to be looked up for it.
     */
    method AdvanceTo(localCid: int, predTick: int, inputs: InputRing, antiping: bool, ghost known: Known)
      returns (panics: bool, ghost cids: seq<int>, ghost chosen: seq<Core>, ghost seeds: seq<Character>, ghost local: int)
      requires Valid() && Knows(inputs, known)
      modifies cores.Values, inputs
      ensures Valid() && Knows(inputs, known)
      ensures Ascending(cids) && forall c :: c in cids <==> c in cores && (antiping || c == localCid)
      ensures Chose(cids, chosen, seeds)
      ensures (local == -1 && localCid !in cids) || (0 <= local < |cids| && cids[local] == localCid)
      ensures View(chosen) == Advance(old(View(chosen)), seeds, local, known, baseTick + 1, predTick, zones, e)
      ensures forall c :: c in cores && c !in cids ==> cores[c].Abs() == old(cores[c].Abs())
      ensures panics <==> baseTick + 1 <= predTick && NoPlace(local, baseTick + 1, old(inputs.Size()))
      ensures !antiping && localCid in cores && old(cores[localCid].Abs()).hookedPlayer == -1 ==>
        cores[localCid].Abs()
        == Steps(old(cores[localCid].Abs()), GapFree(known, baseTick + 1, predTick), zones, e)
    {
      hide Advance, Knows, View, DistinctValues, Distinct, SameEnv, Ascending, Chose, Valid, NoPlace;
      hide Steps, GapFree, Core.Abs;
      var order := OrderedCids(localCid, antiping);
      var some, theirs, place := Chosen(order, localCid);
      cids, chosen, seeds, local := order, some, theirs, place;
      if !antiping && localCid in cores {
        OnlyOne(order, localCid);
        ChoseOne(localCid, some, theirs);
        ViewOfOne(cores[localCid]);
      }
      panics := AdvanceChosen(order, some, theirs, place, predTick, inputs, known);
      if !antiping && localCid in cores && old(cores[localCid].Abs()).hookedPlayer == -1 {
        ViewOfOne(cores[localCid]);
        AdvanceAloneIsSteps(old(cores[localCid].Abs()), theirs[0], known, baseTick + 1, predTick, zones, e);
      }
    }

    /** character: what is shown of a player's core, if there is one. */
    method CharacterOf(cid: int) returns (ch: Option<Character>)
      requires Valid()
      ensures ch == if cid in cores then Some(Shown(cores[cid].Abs())) else None
    {
      if cid !in cores {
        return None;
      }
      var core := cores[cid];
      ch := Some(Character(RoundToInt(core.pos.x), RoundToInt(core.pos.y), Truncate(core.vel.x * 256.0),
                           Truncate(core.vel.y * 256.0), core.direction, core.jumped, core.hookState, 0, 0));
    }

    lemma ChoseOne(cid: int, chosen: seq<Core>, seeds: seq<Character>)
      requires Chose([cid], chosen, seeds)
      ensures cid in cores && chosen == [cores[cid]] && |seeds| == 1 && seeds == [seeds[0]]
    {
      assert [cid][0] == cid;
    }

    method AdvanceChosen(cids: seq<int>, chosen: seq<Core>, seeds: seq<Character>, local: int, predTick: int,
                         inputs: InputRing, ghost known: Known) returns (panics: bool)
      requires Valid() && Knows(inputs, known) && (cids == [] ==> local < 0)
      requires Chose(cids, chosen, seeds) && Distinct(chosen) && SameEnv(chosen, e)
      modifies cores.Values, inputs
      ensures Valid() && Knows(inputs, known)
      ensures View(chosen) == Advance(old(View(chosen)), seeds, local, known, baseTick + 1, predTick, zones, e)
      ensures forall c :: c in cores && c !in cids ==> cores[c].Abs() == old(cores[c].Abs())
      ensures panics <==> baseTick + 1 <= predTick && NoPlace(local, baseTick + 1, old(inputs.Size()))
    {
      hide Advance, Knows, View, DistinctValues, Distinct, SameEnv;
      OthersAreOthers(cids, chosen, seeds);
      panics := false;
      if |cids| > 0 {
        panics := AdvanceCores(chosen, seeds, local, inputs, baseTick, predTick, zones, e, known);
      }
    }

    /** The cores and seeds of these characters, in this order. */
    ghost predicate Chose(cids: seq<int>, chosen: seq<Core>, seeds: seq<Character>)
      reads this
    {
      && |chosen| == |seeds| == |cids|
      && forall i :: 0 <= i < |cids| ==>
        cids[i] in cores && cids[i] in seed && chosen[i] == cores[cids[i]] && seeds[i] == seed[cids[i]]
    }

    lemma OthersAreOthers(cids: seq<int>, chosen: seq<Core>, seeds: seq<Character>)
      requires Valid() && Chose(cids, chosen, seeds)
      ensures forall c :: c in cores && c !in cids ==> cores[c] !in chosen
      ensures forall core :: core in chosen ==> core in cores.Values
    {
      forall c, i | c in cores && c !in cids && 0 <= i < |chosen| ensures chosen[i] != cores[c] {
        assert cids[i] in cids && cids[i] != c;
        assert cores[cids[i]] != cores[c];
      }
    }
  }

  lemma SameIsOne(cids: seq<int>)
    requires forall i, j :: 0 <= i < |cids| && 0 <= j < |cids| ==> cids[i] == cids[j]
    ensures |cids| > 1 ==> !Ascending(cids)
  {
    if |cids| > 1 {
      assert cids[0] == cids[1];
    }
  }

  lemma OnlyOne(cids: seq<int>, cid: int)
    requires Ascending(cids) && forall c :: c in cids <==> c == cid
    ensures cids == [cid]
  {
    assert cid in cids;
    assert forall i :: 0 <= i < |cids| ==> cids[i] in cids;
    SameIsOne(cids);
  }

  lemma ViewOfOne(core: Core)
    ensures View([core]) == [core.Abs()]
  {
  }

  method SeedCore(e: T.Env, tun: T.Tuning, ch: Character) returns (core: Core)
    ensures fresh(core) && core.e == e && core.Abs() == SeedTee(ch, tun)
  {
    core := new Core(e, Vec(ch.x as real, ch.y as real), tun);
    core.vel := Vec(ch.velX as real / 256.0, ch.velY as real / 256.0);
    core.direction := ch.direction;
    core.jumped := ch.jumped;
    core.hookState := ch.hookState;
  }

  /** applyZoneTuning on every core. */
  method RetuneCores(cores: seq<Core>, zones: Zones)
    requires Distinct(cores)
    modifies cores
    ensures View(cores) == RetuneAll(old(View(cores)), zones)
  {
    hide TileOf, Truncate;
    ghost var w := View(cores);
    if zones.None? {
      assert RetuneAll(w, zones) == w;
      return;
    }
    for i := 0 to |cores|
      invariant forall k :: 0 <= k < i ==> cores[k].Abs() == Retune(w[k], zones)
      invariant forall k :: i <= k < |cores| ==> cores[k].Abs() == w[k]
    {
      cores[i].tun := zones.value(TileOf(Truncate(cores[i].pos.x)), TileOf(Truncate(cores[i].pos.y)));
    }
    assert View(cores) == RetuneAll(w, zones);
  }

  method InputsFor(seeds: seq<Character>, local: int, localIn: T.Input) returns (ins: seq<T.Input>)
    ensures ins == Inputs(seeds, local, localIn)
  {
    ins := [];
    for i := 0 to |seeds|
      invariant ins == Inputs(seeds, local, localIn)[..i]
    {
      ins := ins + [if i == local then localIn else ExtrapolatedInput(seeds[i])];
    }
  }

  method StepCores(cores: seq<Core>, seeds: seq<Character>, local: int, localIn: T.Input, zones: Zones, e: T.Env)
    requires Distinct(cores) && SameEnv(cores, e) && |seeds| == |cores|
    modifies cores
    ensures View(cores) == TeeWorld.WorldStep(RetuneAll(old(View(cores)), zones), Inputs(seeds, local, localIn), e)
  {
    hide TeeWorld.WorldStep;
    var ins := InputsFor(seeds, local, localIn);
    RetuneCores(cores, zones);
    WorldStep(cores, ins, e);
  }

  /** `known` is the ring as a function of the tick. */
  ghost predicate Knows(inputs: InputRing, known: Known)
    reads inputs, inputs.ring
  {
    inputs.Valid() && forall t :: known(t) == Lookup(inputs.log, inputs.Size(), t)
  }

  /** Asking the ring for the local input of this tick panics. */
  predicate NoPlace(local: int, tick: int, size: nat)
    requires size > 0
  {
    local >= 0 && tick < 0 && tick % size != 0
  }

  method LocalInput(local: int, inputs: InputRing, tick: int, ghost known: Known) returns (i: Result<Option<T.Input>>)
    requires Knows(inputs, known)
    modifies inputs
    ensures i == if NoPlace(local, tick, inputs.Size()) then Failure(Panic) else Success(Drive(local, known, tick))
    ensures Knows(inputs, known) && inputs.Size() == old(inputs.Size())
    ensures inputs.ring == old(inputs.ring) || fresh(inputs.ring)
  {
    hide InputToPhysics, Lookup;
    if local < 0 {
      return Success(Some(NO_INPUT));
    }
    var netIn :- inputs.Get(tick);
    i := Success(if netIn.None? then None else Some(InputToPhysics(netIn.value)));
  }

  /** No record is for a tick that is not positive. */
  lemma {:induction false} NothingBeforeOne(log: seq<Record>, size: nat, tick: int)
    requires size > 0 && tick <= 0
    ensures Lookup(log, size, tick).None?
  {
    if log != [] {
      NothingBeforeOne(log[..|log| - 1], size, tick);
    }
  }

  lemma UndrivenBeforeZero(local: int, inputs: InputRing, known: Known, tick: int)
    requires Knows(inputs, known) && local >= 0 && tick < 0
    ensures Drive(local, known, tick).None?
  {
    hide Lookup;
    NothingBeforeOne(inputs.log, inputs.Size(), tick);
  }

  lemma AdvanceStep(w: TeeWorld.World, seeds: seq<Character>, local: int, known: Known, tick: int, predTick: int,
                    zones: Zones, e: T.Env)
    requires |seeds| == |w|
    ensures Advance(w, seeds, local, known, tick, predTick, zones, e)
      == if tick > predTick || Drive(local, known, tick).None? then w
         else Advance(TeeWorld.WorldStep(RetuneAll(w, zones), Inputs(seeds, local, Drive(local, known, tick).value), e),
                      seeds, local, known, tick + 1, predTick, zones, e)
  {
    hide TeeWorld.WorldStep, RetuneAll, Inputs, Drive;
  }

  /**
   The loop of advance: tick after tick until the predicted tick or the first missing input. It panics exactly
   when its first tick is negative and has no place in the ring, before any core has moved.
   */
  method AdvanceCores(cores: seq<Core>, seeds: seq<Character>, local: int, inputs: InputRing, baseTick: int, predTick: int,
                      zones: Zones, e: T.Env, ghost known: Known) returns (panics: bool)
    requires Distinct(cores) && SameEnv(cores, e) && |seeds| == |cores| && Knows(inputs, known)
    modifies cores, inputs
    ensures Knows(inputs, known)
    ensures panics <==> baseTick + 1 <= predTick && NoPlace(local, baseTick + 1, old(inputs.Size()))
    ensures View(cores) == Advance(old(View(cores)), seeds, local, known, baseTick + 1, predTick, zones, e)
  {
    hide TeeWorld.WorldStep, RetuneAll, Inputs, Drive, View, Knows, Advance, Distinct, SameEnv, InputRing.Size;
    ghost var all := Advance(View(cores), seeds, local, known, baseTick + 1, predTick, zones, e);
    var tick := baseTick + 1;
    while tick <= predTick
      invariant tick == baseTick + 1 || local < 0 || tick >= 0
      invariant tick > baseTick + 1 ==> !NoPlace(local, baseTick + 1, old(inputs.Size()))
      invariant tick >= baseTick + 1 && Knows(inputs, known) && inputs.Size() == old(inputs.Size())
      invariant inputs.ring == old(inputs.ring) || fresh(inputs.ring)
      invariant Advance(View(cores), seeds, local, known, tick, predTick, zones, e) == all
      decreases predTick - tick
    {
      AdvanceStep(View(cores), seeds, local, known, tick, predTick, zones, e);
      if local >= 0 && tick < 0 {
        UndrivenBeforeZero(local, inputs, known, tick);
      }
      var localIn := LocalInput(local, inputs, tick, known);
      if localIn.Failure? {
        return true;
      }
      if localIn.value.None? {
        return false;
      }
      StepCores(cores, seeds, local, localIn.value.value, zones, e);
      tick := tick + 1;
    }
    AdvanceStep(View(cores), seeds, local, known, tick, predTick, zones, e);
    panics := false;
  }
}
