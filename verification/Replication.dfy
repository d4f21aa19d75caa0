/**
 Snapshot replication as a distributed protocol. A server turns its world of each tick into a packet,
 either whole or as the difference from a tick that the client has acknowledged; the channel may lose
 packets and deliver the same one several times in a row, but does not reorder them; the client decodes,
 stores, purges and acknowledges as SnapWindow says, with anything at all left in its field buffer.
 */
module Replication {
  import opened Wire
  import opened Snapshot
  import opened SnapshotDiff
  import opened SnapWindow

  /** Item sizes by type, and the client's retention window. */
  datatype Config = Config(sizes: int -> int, max: nat)

  /**
   What the server built for each tick, the newest tick it sent and the last base it used; the packets on
   their way; the client's store, the last tick it acknowledged and all ticks it ever acknowledged. The
   server may have heard of any of these, in any order.
   */
  datatype World = World(
    hist: Snaps, newest: int, base: int, channel: seq<Packet>, client: Snaps, lastAcked: int, acks: set<int>)

  datatype Step =
    | SendDelta(tick: int, base: int, snap: Snap)
    | SendFull(tick: int, deltaTick: int, snap: Snap)
    | Lose(i: nat)
    | Deliver(again: bool, stale: seq<int>)   // `again`: the network will deliver the same packet once more

  /** A packet that names a base. A full snapshot names none, or a tick before the first one. */
  predicate HasBase(p: Packet) {
    p.deltaTick >= 0 && p.BaseTick() >= 0
  }

  /** Bases are acknowledged, never go back, and lie at most a window behind. */
  ghost predicate Enabled(w: World, s: Step, c: Config) {
    match s
    case SendDelta(tick, base, snap) =>
      && w.newest < tick && base in w.acks && base in w.hist && w.base <= base && tick - c.max <= base
      && Encodable(w.hist[base], snap, c.sizes)
    case SendFull(tick, deltaTick, snap) =>
      w.newest < tick && !HasBase(Packet(tick, deltaTick, [])) && Encodable(map[], snap, c.sizes)
    case Lose(i) => i < |w.channel|
    case Deliver(_, _) => w.channel != []
  }

  function Decoded(w: World, p: Packet, stale: seq<int>, c: Config): Result<Snap> {
    ApplyBytes(Base(w.client, p), p.data, c.sizes, stale)
  }

  /** ackSnap only ever acknowledges forward. */
  function Acknowledge(w: World, tick: int): World {
    if tick <= w.lastAcked then w else w.(lastAcked := tick, acks := w.acks + {tick})
  }

  function Receive(w: World, p: Packet, stale: seq<int>, c: Config): World {
    var w' := w.(client := Process(w.client, p, c.sizes, stale, c.max));
    if Decoded(w, p, stale, c).Success? then Acknowledge(w', p.tick) else w'
  }

  ghost function Perform(w: World, s: Step, c: Config): World
    requires Enabled(w, s, c)
  {
    match s
    case SendDelta(tick, base, snap) =>
      w.(hist := w.hist[tick := snap], newest := tick, base := base,
         channel := w.channel + [Packet(tick, tick - base, Encode(w.hist[base], snap, c.sizes))])
    case SendFull(tick, deltaTick, snap) =>
      w.(hist := w.hist[tick := snap], newest := tick,
         channel := w.channel + [Packet(tick, deltaTick, Encode(map[], snap, c.sizes))])
    case Lose(i) => w.(channel := w.channel[..i] + w.channel[i + 1..])
    case Deliver(again, stale) =>
      Receive(w, w.channel[0], stale, c).(channel := if again then w.channel else w.channel[1..])
  }

  predicate Begins(w: World) {
    w == World(map[], -1, 0, [], map[], 0, {})
  }

  ghost predicate IsRun(ws: seq<World>, ss: seq<Step>, c: Config) {
    && |ws| == |ss| + 1 && Begins(ws[0])
    && forall k :: 0 <= k < |ss| ==> Enabled(ws[k], ss[k], c) && ws[k + 1] == Perform(ws[k], ss[k], c)
  }

  // ---------- the invariant

  /** The snapshot that the server counted from. */
  function ServerBase(hist: Snaps, p: Packet): Snap
    requires HasBase(p) ==> p.BaseTick() in hist
  {
    if HasBase(p) then hist[p.BaseTick()] else map[]
  }

  /** The packet carries the server's snapshot for its tick. */
  ghost predicate Carries(hist: Snaps, p: Packet, c: Config) {
    && p.tick in hist && (HasBase(p) ==> p.BaseTick() in hist)
    && Encodable(ServerBase(hist, p), hist[p.tick], c.sizes)
    && p.data == Encode(ServerBase(hist, p), hist[p.tick], c.sizes)
  }

  /** The base of a packet on its way is in the client's store, and no packet before it makes it go. */
  predicate BaseHeld(p: Packet, client: Snaps, base: int, max: nat) {
    HasBase(p) ==> p.BaseTick() in client && p.tick - max <= p.BaseTick() <= base
  }

  predicate InOrder(p: Packet, q: Packet) {
    p.tick < q.tick && (HasBase(p) && HasBase(q) ==> p.BaseTick() <= q.BaseTick())
  }

  ghost predicate ChannelInv(w: World, c: Config) {
    && (forall i :: 0 <= i < |w.channel| ==> Carries(w.hist, w.channel[i], c))
    && (forall i :: 0 <= i < |w.channel| ==> BaseHeld(w.channel[i], w.client, w.base, c.max))
    && forall i, j :: 0 <= i < j < |w.channel| ==> InOrder(w.channel[i], w.channel[j])
  }

  predicate StoreInv(w: World, c: Config) {
    && (forall t :: t in w.client ==> t in w.hist && w.client[t] == w.hist[t])
    && (forall t, i :: t in w.client && 0 <= i < |w.channel| ==> t <= w.channel[i].tick)
    && |w.client| <= c.max + 1
  }

  /** An acknowledged tick is in the store unless the server can no longer use it as a base. */
  predicate AckInv(w: World, c: Config) {
    && (forall t :: t in w.acks ==> t in w.hist && t <= w.lastAcked)
    && forall t :: t in w.acks ==> t in w.client || t < w.base || t < w.newest - c.max
  }

  ghost predicate Inv(w: World, c: Config) {
    && -1 <= w.newest && (forall t :: t in w.hist ==> 0 <= t <= w.newest)
    && ChannelInv(w, c) && StoreInv(w, c) && AckInv(w, c)
  }

  /** Whatever the buffer holds, the client decodes a packet to the server's snapshot. */
  lemma DecodesRight(w: World, i: nat, stale: seq<int>, c: Config)
    requires Inv(w, c) && i < |w.channel|
    ensures Decoded(w, w.channel[i], stale, c) == Success(w.hist[w.channel[i].tick])
  {
    hide ApplyBytes, Encodable, Encode;
    var p := w.channel[i];
    assert Carries(w.hist, p, c) && BaseHeld(p, w.client, w.base, c.max);
    assert Base(w.client, p) == ServerBase(w.hist, p) by {
      if p.deltaTick >= 0 && p.BaseTick() in w.client {
        assert p.BaseTick() in w.hist;
      }
    }
    EncodeRoundTrip(ServerBase(w.hist, p), w.hist[p.tick], c.sizes, stale);
  }

  // ---------- every step keeps the invariant

  lemma CarriesStill(hist: Snaps, more: Snaps, p: Packet, c: Config)
    requires Carries(hist, p, c) && forall t :: t in hist ==> t in more && more[t] == hist[t]
    ensures Carries(more, p, c)
  {
    hide Encodable, Encode;
  }

  lemma SendKeeps(w: World, p: Packet, base: int, snap: Snap, c: Config)
    requires Inv(w, c) && w.newest < p.tick && 0 <= p.tick && w.base <= base
    requires Carries(w.hist[p.tick := snap], p, c) && BaseHeld(p, w.client, base, c.max)
    requires HasBase(p) ==> p.BaseTick() == base
    ensures Inv(w.(hist := w.hist[p.tick := snap], newest := p.tick, base := base, channel := w.channel + [p]), c)
  {
    hide Carries;
    var w' := w.(hist := w.hist[p.tick := snap], newest := p.tick, base := base, channel := w.channel + [p]);
    forall i | 0 <= i < |w.channel| ensures Carries(w'.hist, w'.channel[i], c) && InOrder(w.channel[i], p) {
      assert BaseHeld(w.channel[i], w.client, w.base, c.max);
      CarriesStill(w.hist, w'.hist, w.channel[i], c);
      CarriedTick(w.hist, w.channel[i], c);
    }
    assert ChannelInv(w', c);
  }

  lemma CarriedTick(hist: Snaps, p: Packet, c: Config)
    requires Carries(hist, p, c)
    ensures p.tick in hist
  {
  }

  lemma SendDeltaKeeps(w: World, s: Step, c: Config)
    requires s.SendDelta? && Inv(w, c) && Enabled(w, s, c)
    ensures Inv(Perform(w, s, c), c)
  {
    hide Encodable, Encode, ChannelInv;
    var p := Packet(s.tick, s.tick - s.base, Encode(w.hist[s.base], s.snap, c.sizes));
    assert p.BaseTick() == s.base;
    SendKeeps(w, p, s.base, s.snap, c);
  }

  lemma SendFullKeeps(w: World, s: Step, c: Config)
    requires s.SendFull? && Inv(w, c) && Enabled(w, s, c)
    ensures Inv(Perform(w, s, c), c)
  {
    hide Encodable, Encode, ChannelInv;
    var p := Packet(s.tick, s.deltaTick, Encode(map[], s.snap, c.sizes));
    assert !HasBase(p);
    SendKeeps(w, p, w.base, s.snap, c);
  }

  lemma LoseKeeps(w: World, i: nat, c: Config)
    requires Inv(w, c) && i < |w.channel|
    ensures Inv(w.(channel := w.channel[..i] + w.channel[i + 1..]), c)
  {
    hide Carries;
    var w' := w.(channel := w.channel[..i] + w.channel[i + 1..]);
    assert forall j :: 0 <= j < |w'.channel| ==> w'.channel[j] == w.channel[if j < i then j else j + 1];
  }

  /** Receiving the first packet of the channel. */
  lemma ReceiveKeeps(w: World, stale: seq<int>, c: Config)
    requires Inv(w, c) && w.channel != []
    ensures Inv(Receive(w, w.channel[0], stale, c), c)
  {
    hide Store, ApplyBytes, StoreInv, AckInv, BaseHeld, InOrder, Carries;
    var p := w.channel[0];
    CarriedTick(w.hist, p, c);
    var snap := w.hist[p.tick];
    DecodesRight(w, 0, stale, c);
    StoreKeeps(w, p, snap, c);
    AckKeeps(w.(client := Store(w.client, p, snap, c.max)), p.tick, c);
  }

  lemma StoreKeeps(w: World, p: Packet, snap: Snap, c: Config)
    requires Inv(w, c) && w.channel != [] && p == w.channel[0] && p.tick in w.hist && snap == w.hist[p.tick]
    ensures Inv(w.(client := Store(w.client, p, snap, c.max)), c)
    ensures p.tick in Store(w.client, p, snap, c.max)
  {
    hide Carries, Store;
    var kept := Store(w.client, p, snap, c.max);
    WhatStoreKeeps(w.client, p, snap, c.max);
    StoreIsBounded(w.client, p, snap, c.max);
    forall i | 0 <= i < |w.channel| ensures BaseHeld(w.channel[i], kept, w.base, c.max) {
      assert BaseHeld(w.channel[i], w.client, w.base, c.max) && BaseHeld(p, w.client, w.base, c.max);
      assert i > 0 ==> InOrder(p, w.channel[i]);
    }
  }

  lemma StoreIsBounded(snaps: Snaps, p: Packet, snap: Snap, max: nat)
    requires forall t :: t in snaps ==> t <= p.tick
    ensures |Store(snaps, p, snap, max)| <= max + 1
  {
    PurgeBounds(snaps[p.tick := snap], p, max);
  }

  lemma AckKeeps(w: World, tick: int, c: Config)
    requires Inv(w, c) && tick in w.client
    ensures Inv(Acknowledge(w, tick), c)
  {
    hide Carries;
  }

  lemma StepKeepsInv(w: World, s: Step, c: Config)
    requires Inv(w, c) && Enabled(w, s, c)
    ensures Inv(Perform(w, s, c), c)
  {
    hide Inv, Encodable, Encode, ApplyBytes, Process;
    match s {
      case SendDelta(_, _, _) => SendDeltaKeeps(w, s, c);
      case SendFull(_, _, _) => SendFullKeeps(w, s, c);
      case Lose(i) => LoseKeeps(w, i, c);
      case Deliver(again, stale) =>
        ReceiveKeeps(w, stale, c);
        var w' := Receive(w, w.channel[0], stale, c);
        if again {
          assert w'.(channel := w.channel) == w';
        } else {
          LoseKeeps(w', 0, c);
          assert w'.channel[..0] + w'.channel[1..] == w.channel[1..];
        }
    }
  }

  // ---------- runs

  lemma {:induction false} RunKeepsInv(ws: seq<World>, ss: seq<Step>, c: Config, k: nat)
    requires IsRun(ws, ss, c) && k < |ws|
    ensures Inv(ws[k], c)
  {
    hide Inv, Perform, Begins, Enabled;
    if k == 0 {
      BeginsWithInv(ws[0], c);
    } else {
      RunKeepsInv(ws, ss, c, k - 1);
      StepKeepsInv(ws[k - 1], ss[k - 1], c);
    }
  }

  lemma BeginsWithInv(w: World, c: Config)
    requires Begins(w)
    ensures Inv(w, c)
  {
  }

  lemma HistoryGrows(w: World, s: Step, c: Config)
    requires Inv(w, c) && Enabled(w, s, c)
    ensures var w' := Perform(w, s, c);
      (forall t :: t in w.hist ==> t in w'.hist && w'.hist[t] == w.hist[t]) && w.lastAcked <= w'.lastAcked
  {
    hide Encodable, Encode, ApplyBytes, Process, ChannelInv, StoreInv, AckInv;
  }

  lemma {:induction false} HistoryStays(ws: seq<World>, ss: seq<Step>, c: Config, j: nat, k: nat)
    requires IsRun(ws, ss, c) && j <= k < |ws|
    ensures forall t :: t in ws[j].hist ==> t in ws[k].hist && ws[k].hist[t] == ws[j].hist[t]
    ensures ws[j].lastAcked <= ws[k].lastAcked
  {
    hide Inv, Perform, Begins, Enabled;
    if j < k {
      HistoryStays(ws, ss, c, j, k - 1);
      RunKeepsInv(ws, ss, c, k - 1);
      HistoryGrows(ws[k - 1], ss[k - 1], c);
    }
  }

  /**
   In every run, every snapshot the client holds at any moment is the server's snapshot for that tick,
   and so it is for ever after; acknowledgements never go back; the store stays within its window.
   */
  lemma ReplicationIsSafe(ws: seq<World>, ss: seq<Step>, c: Config, j: nat, k: nat)
    requires IsRun(ws, ss, c) && j <= k < |ws|
    ensures forall t :: t in ws[j].client ==> t in ws[k].hist && ws[j].client[t] == ws[k].hist[t]
    ensures ws[j].lastAcked <= ws[k].lastAcked
    ensures |ws[j].client| <= c.max + 1
  {
    hide Perform, Begins, Enabled, ChannelInv, AckInv, IsRun;
    RunKeepsInv(ws, ss, c, j);
    HistoryStays(ws, ss, c, j, k);
  }

  /**
   In every run, whenever a packet arrives its base is in the store, so the empty snapshot never stands
   in for a missing base; and the packet decodes to the server's snapshot, which is then in the store.
   */
  lemma NoFallbackIsTaken(ws: seq<World>, ss: seq<Step>, c: Config, k: nat)
    requires IsRun(ws, ss, c) && k < |ss| && ss[k].Deliver?
    ensures ws[k].channel != []
    ensures var w, p, w' := ws[k], ws[k].channel[0], ws[k + 1];
      && (HasBase(p) ==> p.BaseTick() in w.client)
      && p.tick in w.hist && Decoded(w, p, ss[k].stale, c) == Success(w.hist[p.tick])
      && p.tick in w'.client && w'.client[p.tick] == w.hist[p.tick] && p.tick <= w'.lastAcked
      && w'.acks == if p.tick <= w.lastAcked then w.acks else w.acks + {p.tick}
  {
    hide ApplyBytes, Store, StoreInv, AckInv, Carries;
    var w, p := ws[k], ws[k].channel[0];
    RunKeepsInv(ws, ss, c, k);
    CarriedTick(w.hist, p, c);
    assert BaseHeld(p, w.client, w.base, c.max);
    DecodesRight(w, 0, ss[k].stale, c);
    WhatStoreKeeps(w.client, p, w.hist[p.tick], c.max);
  }

  // ---------- without the base

  predicate ZeroWithin(fields: seq<int>, n: nat) {
    forall f :: 0 <= f < |fields| && f < n ==> fields[f] == 0
  }

  /** A key comes out right without its base when it is new, or when it changed and counted from zeros. */
  predicate NeedsNoBase(base: Snap, target: Snap, k: Key)
    requires k in target
  {
    k in base ==> target[k] != base[k] && ZeroWithin(base[k], |target[k]|)
  }

  lemma MergeWithoutBase(fields: seq<int>, target: seq<int>)
    ensures Merge([], Differences(fields, target)) == target <==> ZeroWithin(fields, |target|)
  {
    var merged := Merge([], Differences(fields, target));
    forall f | 0 <= f < |target|
      ensures merged[f] == target[f] - if f < |fields| then fields[f] else 0
    {
    }
    if merged == target {
      forall f | 0 <= f < |fields| && f < |target| ensures fields[f] == 0 {
        assert merged[f] == target[f];
      }
    }
  }

  lemma DiffWithoutBase(base: Snap, target: Snap)
    ensures Apply(map[], Diff(base, target)) == target <==> forall k :: k in target ==> NeedsNoBase(base, target, k)
  {
    hide Merge, Differences, LastDiffs, InOrder, Diff, Updated, UpdatedKeys, DeletedKeys, ZeroWithin;
    var result := Apply(map[], Diff(base, target));
    forall k ensures k in result <==> k in ChangedKeys(base, target) {
      UpdatedByDiff(base, target, k);
    }
    forall k | k in result ensures result[k] == Merge([], Differences(At(base, k), target[k])) {
      UpdatedByDiff(base, target, k);
    }
    forall k | k in target ensures NeedsNoBase(base, target, k) <==> k in result && result[k] == target[k] {
      MergeWithoutBase(At(base, k), target[k]);
      NothingIsZero(|target[k]|);
    }
  }

  /**
   Should a base go missing after all, nobody notices the fallback to the empty snapshot: the payload
   decodes, and to the server's snapshot exactly when no key of it needed the base.
   */
  lemma WithoutBase(base: Snap, target: Snap, sizes: int -> int, stale: seq<int>)
    requires Encodable(base, target, sizes)
    ensures var r := ApplyBytes(map[], Encode(base, target, sizes), sizes, stale);
      r.Success? && (r.value == target <==> forall k :: k in target ==> NeedsNoBase(base, target, k))
  {
    hide EncodeDelta, Apply, ParseDelta, Diff, WritableDelta, ZeroWithin;
    if base == target {
      if k :| k in target {
        assert !NeedsNoBase(base, target, k);
      }
    } else {
      ParseOfEncode(Diff(base, target), sizes, stale);
      DiffWithoutBase(base, target);
    }
  }

  const EXAMPLE_KEY := Key(1, 0)
  const EXAMPLE_BASE: Snap := map[EXAMPLE_KEY := [1]]
  const EXAMPLE_TARGET: Snap := map[EXAMPLE_KEY := [3]]

  function OneField(typeID: int): int {
    1
  }

  ghost function ExampleDelta(): seq<byte> {
    Encode(EXAMPLE_BASE, EXAMPLE_TARGET, OneField)
  }

  /** A field that went from 1 to 3 comes out as 2. */
  lemma WithoutBaseExample(stale: seq<int>)
    ensures Encodable(EXAMPLE_BASE, EXAMPLE_TARGET, OneField)
    ensures var r := ApplyBytes(map[], ExampleDelta(), OneField, stale);
      r.Success? && r.value != EXAMPLE_TARGET
    ensures ApplyBytes(EXAMPLE_BASE, ExampleDelta(), OneField, stale) == Success(EXAMPLE_TARGET)
  {
    hide Encode, ApplyBytes, Encodable;
    WhenEncodable(EXAMPLE_BASE, EXAMPLE_TARGET, OneField);
    WithoutBase(EXAMPLE_BASE, EXAMPLE_TARGET, OneField, stale);
    EncodeRoundTrip(EXAMPLE_BASE, EXAMPLE_TARGET, OneField, stale);
    assert !NeedsNoBase(EXAMPLE_BASE, EXAMPLE_TARGET, EXAMPLE_KEY) && EXAMPLE_KEY in EXAMPLE_TARGET;
  }

  /** A packet is right with its base in the store and wrong without. */
  lemma ExampleIsTaken(snaps: Snaps, p: Packet, stale: seq<int>, max: nat)
    requires p.data == ExampleDelta()
    requires p.deltaTick >= 0 && p.BaseTick() in snaps ==> snaps[p.BaseTick()] == EXAMPLE_BASE
    ensures var after := Process(snaps, p, OneField, stale, max);
      p.tick in after && (after[p.tick] == EXAMPLE_TARGET <==> p.deltaTick >= 0 && p.BaseTick() in snaps)
      && exists snap :: after == Store(snaps, p, snap, max)
  {
    hide ExampleDelta, ApplyBytes, Store;
    WithoutBaseExample(stale);
    var snap := ApplyBytes(Base(snaps, p), p.data, OneField, stale).value;
    assert Process(snaps, p, OneField, stale, max) == Store(snaps, p, snap, max);
    WhatStoreKeeps(snaps, p, snap, max);
  }

  /** The base for each of the first n ticks. */
  function Held(n: nat): (snaps: Snaps)
    ensures |snaps| == n && forall t :: t in snaps <==> 0 <= t < n
    ensures forall t :: t in snaps ==> snaps[t] == EXAMPLE_BASE
  {
    if n == 0 then map[] else Held(n - 1)[n - 1 := EXAMPLE_BASE]
  }

  /**
   Why a base must lie within the window: one tick further back it is still there when the packet comes, but not
   when the network delivers the packet once more.
   */
  lemma BaseTooFarExample(stale: seq<int>, stale': seq<int>, max: nat)
    ensures var snaps := Held(max + 1);
      var p := Packet(max + 1, max + 1, ExampleDelta());
      var first := Process(snaps, p, OneField, stale, max);
      var second := Process(first, p, OneField, stale', max);
      && p.tick in first && first[p.tick] == EXAMPLE_TARGET
      && p.tick in second && second[p.tick] != EXAMPLE_TARGET
  {
    hide ExampleDelta, Process, Store;
    var snaps := Held(max + 1);
    var p := Packet(max + 1, max + 1, ExampleDelta());
    ExampleIsTaken(snaps, p, stale, max);
    var first := Process(snaps, p, OneField, stale, max);
    var snap :| first == Store(snaps, p, snap, max);
    FirstIsDropped(snaps, p, snap, max);
    ExampleIsTaken(first, p, stale', max);
  }

  lemma FirstIsDropped(snaps: Snaps, p: Packet, snap: Snap, max: nat)
    requires snaps == Held(max + 1) && p.tick == p.deltaTick == max + 1
    ensures 0 !in Store(snaps, p, snap, max)
  {
    var stored := snaps[p.tick := snap];
    assert |stored| == max + 2;
    FromAll(stored, 0);
  }

  /** Why the channel must not reorder: a packet that overtakes another one takes that one's base away. */
  lemma OvertakenExample(stale: seq<int>, stale': seq<int>, max: nat)
    ensures var snaps := map[1 := EXAMPLE_BASE, 2 := EXAMPLE_BASE];
      var p, q := Packet(3, 2, ExampleDelta()), Packet(4, 2, ExampleDelta());
      var inOrder := Process(snaps, p, OneField, stale, max);
      var overtaken := Process(Process(snaps, q, OneField, stale, max), p, OneField, stale', max);
      && p.tick in inOrder && inOrder[p.tick] == EXAMPLE_TARGET
      && p.tick in overtaken && overtaken[p.tick] != EXAMPLE_TARGET
  {
    hide ExampleDelta, Process, Store;
    var snaps := map[1 := EXAMPLE_BASE, 2 := EXAMPLE_BASE];
    var p, q := Packet(3, 2, ExampleDelta()), Packet(4, 2, ExampleDelta());
    ExampleIsTaken(snaps, p, stale, max);
    ExampleIsTaken(snaps, q, stale, max);
    var snap :| Process(snaps, q, OneField, stale, max) == Store(snaps, q, snap, max);
    WhatStoreKeeps(snaps, q, snap, max);
    ExampleIsTaken(Process(snaps, q, OneField, stale, max), p, stale', max);
  }

  lemma NothingIsZero(n: nat)
    ensures ZeroWithin([], n)
  {
  }
}
