/** The ring of recently sent inputs, keyed by tick, and which ticks it still knows. */
module InputRing {
  import opened Wire

  /** The parts of a sent input that the physics looks at. */
  datatype PlayerInput = PlayerInput(direction: int, targetX: int, targetY: int, jump: int, hook: int, fire: int,
                        wantedWeapon: int)

  datatype Record = Record(tick: int, input: PlayerInput)

  const DEFAULT_RING_SIZE := 256
  const MIN_RING_SIZE := 8

  /** clampPredInputRingSize */
  function RingSize(n: int): (size: nat)
    ensures size >= MIN_RING_SIZE && (n >= MIN_RING_SIZE ==> size == n) && (n <= 0 ==> size == 256)
    ensures 0 < n < MIN_RING_SIZE ==> size == MIN_RING_SIZE == 8
  {
    if n <= 0 then DEFAULT_RING_SIZE else if n < MIN_RING_SIZE then MIN_RING_SIZE else n
  }

  /** What the ring remembers for a tick: the last record that fell on its place, if that was for this tick. */
  function Lookup(log: seq<Record>, size: nat, tick: int): Option<PlayerInput>
    requires size > 0
  {
    if log == [] then None
    else
      var r, front := log[|log| - 1], log[..|log| - 1];
      if r.tick <= 0 || r.tick % size != tick % size then Lookup(front, size, tick)
      else if r.tick == tick then Some(r.input)
      else None
  }

  datatype Slot = Slot(tick: int, input: PlayerInput, set_: bool)

  const EMPTY := Slot(0, PlayerInput(0, 0, 0, 0, 0, 0, 0), false)

  class InputRing {
    var ring: array<Slot>
    ghost var log: seq<Record>   // every record since the ring was configured

    constructor ()
      ensures Valid() && log == [] && Size() == DEFAULT_RING_SIZE && fresh(ring)
    {
      ring := new Slot[0];
      log := [];
    }

    /** The size of the ring; one that was never configured gets the default size when it is first used. */
    function Size(): (size: nat)
      reads this
      ensures size > 0
    {
      if ring.Length == 0 then DEFAULT_RING_SIZE else ring.Length
    }

    ghost predicate Holds(place: nat)
      requires place < ring.Length
      reads this, ring
    {
      forall tick :: tick % ring.Length == place ==>
        Lookup(log, ring.Length, tick) == if ring[place].set_ && ring[place].tick == tick then Some(ring[place].input) else None
    }

    ghost predicate Valid()
      reads this, ring
    {
      && (ring.Length == 0 ==> log == [])
      && forall place :: 0 <= place < ring.Length ==> Holds(place)
    }

    method Configure(n: int)
      modifies this
      ensures Valid() && log == [] && Size() == RingSize(n) && fresh(ring)
    {
      ring := new Slot[RingSize(n)](_ => EMPTY);
      log := [];
    }

    method EnsureRing()
      requires Valid()
      modifies this
      ensures Valid() && log == old(log) && ring.Length == Size() == old(Size())
      ensures ring == old(ring) || fresh(ring)
    {
      if ring.Length == 0 {
        ring := new Slot[DEFAULT_RING_SIZE](_ => EMPTY);
      }
    }

    method Put(tick: int, input: PlayerInput)
      requires Valid() && ring.Length > 0 && tick > 0
      modifies `log, ring
      ensures Valid() && log == old(log) + [Record(tick, input)]
    {
      var place := tick % ring.Length;
      ring[place] := Slot(tick, input, true);
      log := log + [Record(tick, input)];
      assert log[..|log| - 1] == old(log);
      forall p | 0 <= p < ring.Length ensures Holds(p) {
        assert old(Holds(p));
        forall t | t % ring.Length == p
          ensures Lookup(log, ring.Length, t) == if ring[p].set_ && ring[p].tick == t then Some(ring[p].input) else None
        {
          assert p != place ==> Lookup(log, ring.Length, t) == Lookup(old(log), ring.Length, t);
        }
      }
    }

    /** The input for a tick goes to the tick's place, over whatever was there. */
    method Remember(tick: int, input: PlayerInput)
      requires Valid()
      modifies this, ring
      ensures Valid() && log == old(log) + (if tick <= 0 then [] else [Record(tick, input)]) && Size() == old(Size())
      ensures ring == old(ring) || fresh(ring)
    {
      if tick <= 0 {
        return;
      }
      EnsureRing();
      Put(tick, input);
    }

    /** Answers from the history; a negative tick that is no multiple of the size has no place, and panics. */
    method Get(tick: int) returns (input: Result<Option<PlayerInput>>)
      requires Valid()
      modifies this
      ensures Valid() && log == old(log) && Size() == old(Size()) && (ring == old(ring) || fresh(ring))
      ensures input == if tick < 0 && tick % Size() != 0 then Failure(Panic) else Success(Lookup(log, Size(), tick))
    {
      EnsureRing();
      PlaceIsIndex(tick, ring.Length);
      var place := Place(tick, ring.Length);
      if place < 0 {
        return Failure(Panic);
      }
      assert Holds(place);
      var slot := ring[place];
      input := Success(if slot.set_ && slot.tick == tick then Some(slot.input) else None);
    }
  }

  /** Go's remainder has the sign of the tick. */
  function Place(tick: int, size: nat): int
    requires size > 0
  {
    if tick >= 0 then tick % size else -((-tick) % size)
  }

  lemma PlaceIsIndex(tick: int, size: nat)
    requires size > 0
    ensures Place(tick, size) < 0 <==> tick < 0 && tick % size != 0
    ensures Place(tick, size) >= 0 ==> Place(tick, size) == tick % size
    ensures size > 1 ==> Place(-1, size) == -1
  {
    if tick < 0 {
      var q, r := (-tick) / size, (-tick) % size;
      assert tick == size * -q - r;
      if r == 0 {
        RemainderIs(tick, size, -q, 0);
      } else {
        assert tick == size * (-q - 1) + (size - r);
        RemainderIs(tick, size, -q - 1, size - r);
      }
    }
  }

  lemma RemainderIs(a: int, size: nat, q: int, r: nat)
    requires r < size && a == size * q + r
    ensures a % size == r
  {
    var d, m := a / size, a % size;
    assert size * (d - q) == r - m;
    if d - q >= 1 {
      AtLeast(size, d - q);
    } else if d - q <= -1 {
      AtLeast(size, q - d);
    }
  }

  // ---------- which ticks are still known

  /** The last input recorded for the tick. */
  function LastFor(log: seq<Record>, tick: int): Option<PlayerInput> {
    if log == [] then None
    else if log[|log| - 1].tick == tick then Some(log[|log| - 1].input)
    else LastFor(log[..|log| - 1], tick)
  }

  /** Since the tick was recorded, nothing outside the span was. */
  predicate OnlySpanSince(log: seq<Record>, tick: int, low: int, high: int) {
    log != [] && (log[|log| - 1].tick == tick ||
                  (low <= log[|log| - 1].tick <= high && OnlySpanSince(log[..|log| - 1], tick, low, high)))
  }

  /**
   Every tick of a span that fits into the ring is still there, with its last input, if it was recorded
   and nothing outside the span has been recorded since.
   */
  lemma {:induction false} SpanIsKnown(log: seq<Record>, size: nat, tick: int, low: int, high: int)
    requires 0 < low <= tick <= high < low + size
    requires OnlySpanSince(log, tick, low, high)
    ensures Lookup(log, size, tick).Some? && Lookup(log, size, tick) == LastFor(log, tick)
  {
    var r := log[|log| - 1];
    if r.tick != tick {
      DifferentPlaces(r.tick, tick, low, size);
      SpanIsKnown(log[..|log| - 1], size, tick, low, high);
    }
  }

  lemma DifferentPlaces(a: int, b: int, low: int, size: nat)
    requires 0 < low <= a < low + size && low <= b < low + size && a != b
    ensures a % size != b % size
  {
    if a % size == b % size {
      var d := a / size - b / size;
      assert a - b == size * d;
      if d >= 1 {
        AtLeast(size, d);
      } else if d <= -1 {
        AtLeast(size, -d);
      }
    }
  }

  lemma AtLeast(size: nat, d: int)
    requires d >= 1
    ensures size * d >= size
  {
  }

  /** What the ring knows for a tick is always the last input recorded for it. */
  lemma {:induction false} KnownIsLast(log: seq<Record>, size: nat, tick: int)
    requires size > 0 && tick > 0 && Lookup(log, size, tick).Some?
    ensures Lookup(log, size, tick) == LastFor(log, tick)
  {
    var r := log[|log| - 1];
    if r.tick % size != tick % size || r.tick <= 0 {
      KnownIsLast(log[..|log| - 1], size, tick);
    }
  }
}
