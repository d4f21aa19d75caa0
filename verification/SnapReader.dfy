/** The reader's side of snapshot messages: parse, gather, decode, store, acknowledge, pass on. */
module SnapReader {
  import opened Wire
  import opened Cursor
  import opened Spec = Snapshot
  import opened SnapWindow
  import opened ApplyDelta
  import opened SnapStorage
  import opened Assembly
  import Replication

  /** The stored snapshots, the last acknowledged tick, and the acknowledgements sent. */
  datatype State = State(snaps: Snaps, lastAcked: int, acks: seq<int>)

  /** A packet arrives: what decodes is stored and acknowledged, but only forward. */
  function Arrive(s: State, p: Packet, sizes: int -> int, stale: seq<int>, max: nat): State {
    var s' := s.(snaps := Process(s.snaps, p, sizes, stale, max));
    if ApplyBytes(Base(s.snaps, p), p.data, sizes, stale).Failure? || p.tick <= s.lastAcked then s'
    else s'.(lastAcked := p.tick, acks := s.acks + [p.tick])
  }

  function ArriveIfAny(s: State, p: Option<Packet>, sizes: int -> int, stale: seq<int>, max: nat): State {
    if p.Some? then Arrive(s, p.value, sizes, stale, max) else s
  }

  /** The packet that a part completes. A message of one part does not touch what is being gathered. */
  function Completes(asm: Option<Gathered>, p: Part): Option<Packet>
    requires Fits(asm) && p.numParts >= 0
  {
    if p.numParts == 1 then Some(Packet(p.tick, p.deltaTick, p.data))
    else
      var g := Gather(asm, p);
      if g.received == g.numParts then Some(Packet(p.tick, p.deltaTick, Join(g.parts))) else None
  }

  /** A snapshot message by its kind, as it comes off the wire. */
  datatype Message = SnapSingle(data: seq<byte>) | SnapEmpty(data: seq<byte>) | SnapPart(data: seq<byte>)

  /** The reader as far as snapshots go: what it holds, and what it is gathering. */
  datatype ReaderState = ReaderState(s: State, asm: Option<Gathered>)

  /** What a message does. One that cannot be read is ignored; a negative number of parts changes nothing. */
  function OnMessage(r: ReaderState, m: Message, sizes: int -> int, stale: seq<int>, max: nat): (r': ReaderState)
    requires Fits(r.asm)
    ensures Fits(r'.asm)
  {
    match m
    case SnapSingle(data) => r.(s := ArriveIfAny(r.s, Whole(ReadSingle(data)), sizes, stale, max))
    case SnapEmpty(data) => r.(s := ArriveIfAny(r.s, Whole(ReadEmpty(data)), sizes, stale, max))
    case SnapPart(data) =>
      match ReadPart(data)
      case Bad(_) => r
      case Ok(p, _) =>
        if p.numParts < 0 then r
        else ReaderState(ArriveIfAny(r.s, Completes(r.asm, p), sizes, stale, max), Remains(r.asm, p, r.s, sizes, stale))
  }

  method JoinParts(parts: seq<seq<byte>>) returns (full: seq<byte>)
    ensures full == Join(parts)
  {
    full := [];
    for i := 0 to |parts|
      invariant full == Join(parts[..i])
    {
      assert parts[..i + 1][..i] == parts[..i];
      full := full + parts[i];
    }
    assert parts[..|parts|] == parts;
  }

  class SnapReader {
    const storage: SnapStorage
    const sc: Scratch
    const u: Unpacker
    var asm: Option<Gathered>
    var lastAcked: int
    var acks: seq<int>
    var events: seq<TickSnap>

    constructor (sizes: int -> int, window: int)
      ensures Valid() && Abs() == State(map[], 0, []) && asm == None && events == []
      ensures storage.sizes == sizes && storage.maxSnaps == Window(window)
    {
      storage := new SnapStorage(sizes, window);
      sc := new Scratch();
      u := new Unpacker([]);
      asm, lastAcked, acks, events := None, 0, [], [];
    }

    ghost predicate Valid()
      reads this, storage, storage.snaps.Values, sc
    {
      storage.Valid() && sc.Clean() && storage.Apart(sc) && u != sc.u && Fits(asm)
    }

    ghost function Abs(): State
      requires Valid()
      reads this, storage, storage.snaps.Values, ArraysOf(storage.snaps), sc
    {
      State(storage.View(), lastAcked, acks)
    }

    ghost function Now(): (r: ReaderState)
      requires Valid()
      reads this, storage, storage.snaps.Values, ArraysOf(storage.snaps), sc
      ensures Fits(r.asm)
    {
      ReaderState(Abs(), asm)
    }

    method AckSnap(tick: int)
      modifies `lastAcked, `acks
      ensures lastAcked == if tick <= old(lastAcked) then old(lastAcked) else tick
      ensures acks == old(acks) + if tick <= old(lastAcked) then [] else [tick]
    {
      if tick <= lastAcked {
        return;
      }
      lastAcked := tick;
      acks := acks + [tick];
    }

    /** Acknowledges the tick and passes the snapshot on; the storage is not touched. */
    method Publish(s: TickSnap, ghost snap: Snap)
      requires Valid() && Shows(s.items, snap)
      modifies `lastAcked, `acks, `events
      ensures Valid() && storage.View() == old(storage.View())
      ensures lastAcked == if s.tick <= old(lastAcked) then old(lastAcked) else s.tick
      ensures acks == old(acks) + if s.tick <= old(lastAcked) then [] else [s.tick]
      ensures events == old(events) + [s] && Shows(s.items, snap)
    {
      hide ShowsAll, Shows, MapOf;
      assert this !in ArraysOf(storage.snaps) && this !in Arrays(s.items);
      AckSnap(s.tick);
      events := events + [s];
    }

    /** Decodes and stores, and on success acknowledges and passes the snapshot on. */
    method Deliver(p: Packet) returns (ok: bool)
      requires Valid()
      modifies `lastAcked, `acks, `events, storage, sc, sc.df, sc.u
      ensures Valid() && Abs() == Arrive(old(Abs()), p, storage.sizes, old(sc.df[..]), storage.maxSnaps)
      ensures ok <==> ApplyBytes(Base(old(Abs()).snaps, p), p.data, storage.sizes, old(sc.df[..])).Success?
      ensures |events| == |old(events)| + (if ok then 1 else 0) && old(events) <= events
      ensures ok ==> events[|old(events)|].tick == p.tick
      ensures ok ==> Shows(events[|old(events)|].items,
                           ApplyBytes(Base(old(Abs()).snaps, p), p.data, storage.sizes, old(sc.df[..])).value)
    {
      hide ApplyBytes, Process, Base, ShowsAll, Shows, ArraysOf, MapOf, UniqueKeys, InBounds;
      var r := storage.ProcessSnap(p, sc);
      ok := r.Success?;
      if ok {
        ItemsShow(r.value);
        Publish(r.value, r.value.View());
      }
    }

    method DeliverIfAny(p: Option<Packet>)
      requires Valid()
      modifies `lastAcked, `acks, `events, storage, sc, sc.df, sc.u
      ensures Valid()
      ensures Abs() == ArriveIfAny(old(Abs()), p, storage.sizes, old(sc.df[..]), storage.maxSnaps)
    {
      hide Arrive, ArraysOf, ShowsAll;
      if p.Some? {
        var _ := Deliver(p.value);
      }
    }

    /** A whole snapshot. A message that cannot be read is ignored. */
    method ProcessSnapSingle(data: seq<byte>)
      requires Valid()
      modifies this, u, storage, sc, sc.df, sc.u
      ensures Valid()
      ensures Now() == OnMessage(old(Now()), SnapSingle(data), storage.sizes, old(sc.df[..]), storage.maxSnaps)
    {
      hide ArriveIfAny, ReadSingle, ShowsAll;
      assert u !in ArraysOf(storage.snaps);
      var p := ParseSingle(u, data);
      assert storage.View() == old(storage.View());
      DeliverIfAny(p);
    }

    method ProcessSnapEmpty(data: seq<byte>)
      requires Valid()
      modifies this, u, storage, sc, sc.df, sc.u
      ensures Valid()
      ensures Now() == OnMessage(old(Now()), SnapEmpty(data), storage.sizes, old(sc.df[..]), storage.maxSnaps)
    {
      hide ArriveIfAny, ReadEmpty, ShowsAll;
      assert u !in ArraysOf(storage.snaps);
      var p := ParseEmpty(u, data);
      assert storage.View() == old(storage.View());
      DeliverIfAny(p);
    }

    method SetGathered(g: Option<Gathered>)
      requires Valid() && Fits(g)
      modifies `asm
      ensures Valid() && Abs() == old(Abs()) && asm == g
    {
      hide ShowsAll;
      assert this !in ArraysOf(storage.snaps);
      asm := g;
      assert storage.View() == old(storage.View());
    }

    /** One part. The message is delivered when the count of gathered parts is right, and then forgotten. */
    method Take(p: Part)
      requires Valid() && p.numParts >= 0
      modifies this, storage, sc, sc.df, sc.u
      ensures Valid()
      ensures Abs() == ArriveIfAny(old(Abs()), Completes(old(asm), p), storage.sizes, old(sc.df[..]), storage.maxSnaps)
      ensures asm == Remains(old(asm), p, old(Abs()), storage.sizes, old(sc.df[..]))
    {
      hide Arrive, ShowsAll, Gather, ApplyBytes, Base, Shows;
      if p.numParts == 1 {
        var _ := Deliver(Packet(p.tick, p.deltaTick, p.data));
        return;
      }
      var g := Gather(asm, p);
      GatherFits(asm, p);
      SetGathered(Some(g));
      assert Abs() == old(Abs()) && sc.df[..] == old(sc.df[..]);
      if g.received == g.numParts {
        var full := JoinParts(g.parts);
        var ok := Deliver(Packet(p.tick, p.deltaTick, full));
        if ok {
          SetGathered(None);
        }
      }
    }

    /** A negative number of parts makes the allocation of the part list panic. */
    method ProcessSnapMulti(data: seq<byte>) returns (panic: bool)
      requires Valid()
      modifies this, u, storage, sc, sc.df, sc.u
      ensures Valid()
      ensures panic <==> ReadPart(data).Ok? && ReadPart(data).value.numParts < 0
      ensures Now() == OnMessage(old(Now()), SnapPart(data), storage.sizes, old(sc.df[..]), storage.maxSnaps)
    {
      hide ArriveIfAny, ReadPart, ShowsAll, Completes, Remains;
      assert u !in ArraysOf(storage.snaps);
      var p := ParsePart(u, data);
      assert storage.View() == old(storage.View());
      panic := p.Some? && p.value.numParts < 0;
      if p.Some? && !panic {
        Take(p.value);
      }
    }
  }

  lemma GatherFits(asm: Option<Gathered>, p: Part)
    requires Fits(asm) && p.numParts >= 0
    ensures Fits(Some(Gather(asm, p)))
  {
  }

  /** What is being gathered after a part: nothing once the message it completes has decoded. */
  function Remains(asm: Option<Gathered>, p: Part, s: State, sizes: int -> int, stale: seq<int>): Option<Gathered>
    requires Fits(asm) && p.numParts >= 0
  {
    if p.numParts == 1 then asm
    else
      var done := Completes(asm, p);
      if done.Some? && ApplyBytes(Base(s.snaps, done.value), done.value.data, sizes, stale).Success? then None
      else Some(Gather(asm, p))
  }

  function Whole(r: Parsed<Packet>): Option<Packet> {
    if r.Ok? then Some(r.value) else None
  }

  /** A message that announces no parts at all is complete at once, and empty. */
  lemma NoPartsAtAll(r: ReaderState, data: seq<byte>, sizes: int -> int, stale: seq<int>, max: nat)
    requires r.asm.None? && ReadPart(data).Ok? && ReadPart(data).value.numParts == 0
    ensures var p := ReadPart(data).value;
      OnMessage(r, SnapPart(data), sizes, stale, max).s == Arrive(r.s, Packet(p.tick, p.deltaTick, []), sizes, stale, max)
  {
    hide Arrive, ReadPart, Remains;
  }

  method ParseSingle(u: Unpacker, data: seq<byte>) returns (p: Option<Packet>)
    modifies u
    ensures p == Whole(ReadSingle(data))
  {
    hide ReadInts;
    u.Reset(data);
    var head := u.NextInts(4);
    if head.Failure? {
      return None;
    }
    var payload := u.NextRaw(head.value[3]);
    if payload.Failure? {
      return None;
    }
    p := Some(Packet(head.value[0], head.value[1], payload.value));
  }

  method ParseEmpty(u: Unpacker, data: seq<byte>) returns (p: Option<Packet>)
    modifies u
    ensures p == Whole(ReadEmpty(data))
  {
    hide ReadInts;
    u.Reset(data);
    var head := u.NextInts(2);
    p := if head.Success? then Some(Packet(head.value[0], head.value[1], [])) else None;
  }

  method ParsePart(u: Unpacker, data: seq<byte>) returns (p: Option<Part>)
    modifies u
    ensures p == if ReadPart(data).Ok? then Some(ReadPart(data).value) else None
  {
    hide ReadInts;
    u.Reset(data);
    var head := u.NextInts(6);
    if head.Failure? {
      return None;
    }
    var payload := u.NextRaw(head.value[5]);
    if payload.Failure? {
      return None;
    }
    p := Some(Part(head.value[0], head.value[1], head.value[2], head.value[3], payload.value));
  }

  /** The reader's state is what the replication protocol knows of the client. */
  ghost predicate IsClientOf(s: State, w: Replication.World) {
    s.snaps == w.client && s.lastAcked == w.lastAcked && forall t :: t in s.acks <==> t in w.acks
  }

  /** A packet that arrives does to the reader what the protocol's step does to its client. */
  lemma ArriveIsReceive(s: State, w: Replication.World, p: Packet, stale: seq<int>, c: Replication.Config)
    requires IsClientOf(s, w)
    ensures IsClientOf(Arrive(s, p, c.sizes, stale, c.max), Replication.Receive(w, p, stale, c))
  {
    hide ApplyBytes, Store;
  }
}
